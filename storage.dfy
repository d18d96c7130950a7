/** An in-memory stand-in for the MySQL schema the data layer writes to:
    the USERS and TRAFFIC tables as sequences of rows, AUTO_INCREMENT
    counters, table existence, one open transaction at a time, and a fault
    plan that decides which JDBC operation is the first to throw. */
module Storage {
  import opened Errors
  import opened Users

  const URL_PREFIX: string := "jdbc:mysql://"
  const DRIVER: string := "com.mysql.jdbc.Driver"
  const NO_USERS_TABLE: string := "Table 'USERS' doesn't exist"
  const NO_TRAFFIC_TABLE: string := "Table 'TRAFFIC' doesn't exist"

  // ---------------------------------------------------------------------
  // Connection URL

  /** The JDBC URL both data-access classes build from host, port and
      schema name. */
  function JdbcUrl(hostName: string, portName: string, dbName: string): string
  {
    URL_PREFIX + hostName + ":" + portName + "/" + dbName
  }

  /** Position of the first c in s, or |s| when there is none. */
  function IndexOf(s: string, c: char): (i: nat)
    ensures i <= |s|
    ensures i < |s| ==> s[i] == c
    ensures forall j :: 0 <= j < i ==> s[j] != c
  {
    if s == [] then 0 else if s[0] == c then 0 else 1 + IndexOf(s[1..], c)
  }

  /** The text before and after the first occurrence of c, if any. */
  function SplitAt(s: string, c: char): (r: Option<(string, string)>)
    ensures r.None? <==> c !in s
    ensures r.Some? ==> s == r.value.0 + [c] + r.value.1 && c !in r.value.0
  {
    var i := IndexOf(s, c);
    if i == |s| then None
    else
      assert s == s[..i] + [c] + s[i + 1..];
      Some((s[..i], s[i + 1..]))
  }

  /** Splitting at the first c undoes joining around a c that the left
      part does not hold. */
  lemma SplitAtJoin(a: string, c: char, b: string)
    requires c !in a
    ensures SplitAt(a + [c] + b, c) == Some((a, b))
  {
    var u := a + [c] + b;
    assert u[|a|] == c;
    assert forall j :: 0 <= j < |a| ==> u[j] == a[j];
    assert u[..|a|] == a && u[|a| + 1..] == b;
  }

  /** Splits a MySQL JDBC URL back into host, port and schema name: the
      host ends at the first ':', the port at the next '/'. */
  function ParseJdbcUrl(url: string): Option<(string, string, string)>
  {
    if |url| < |URL_PREFIX| || url[..|URL_PREFIX|] != URL_PREFIX then None
    else
      match SplitAt(url[|URL_PREFIX|..], ':')
      case None => None
      case Some((host, tail)) =>
        match SplitAt(tail, '/')
        case None => None
        case Some((port, db)) => Some((host, port, db))
  }

  /** The URL determines host, port and schema name whenever the host
      holds no ':' and the port no '/'. */
  lemma JdbcUrlRoundTrip(hostName: string, portName: string, dbName: string)
    requires ':' !in hostName && '/' !in portName
    ensures ParseJdbcUrl(JdbcUrl(hostName, portName, dbName)) == Some((hostName, portName, dbName))
  {
    var tail := portName + "/" + dbName;
    var rest := hostName + ":" + tail;
    var url := JdbcUrl(hostName, portName, dbName);
    assert url == URL_PREFIX + rest;
    assert url[..|URL_PREFIX|] == URL_PREFIX && url[|URL_PREFIX|..] == rest;
    SplitAtJoin(hostName, ':', tail);
    SplitAtJoin(portName, '/', dbName);
  }

  // ---------------------------------------------------------------------
  // Rows

  /** The four text columns a USERS row is looked up by. */
  datatype UserKey = UserKey(firstName: string, lastName: string, city: string, address: string)

  datatype UserRow = UserRow(id: nat, key: UserKey)

  datatype TrafficRow = TrafficRow(recordId: nat, minute: int, loadedBytes: int, userId: nat)

  /** A field as string concatenation writes it into SQL text: a null
      field becomes the four letters null. */
  function SqlText(o: Option<string>): string
  {
    match o
    case None => "null"
    case Some(s) => s
  }

  /** The column values the statements of both data-access classes carry
      for an identity. */
  function KeyColumns(k: NaturalKey): UserKey
  {
    UserKey(SqlText(k.firstName), SqlText(k.lastName), SqlText(k.city), SqlText(k.address))
  }

  function KeyOf(u: User): UserKey
  {
    KeyColumns(u.Key())
  }

  /** SELECT USER_ID FROM USERS WHERE the four columns match: the id of the
      first matching row in table order, or no row. */
  function FindUser(rows: seq<UserRow>, key: UserKey): (r: Option<nat>)
    ensures r.None? <==> forall i :: 0 <= i < |rows| ==> rows[i].key != key
    ensures r.Some? ==> exists i :: 0 <= i < |rows| && rows[i] == UserRow(r.value, key)
                                    && forall j :: 0 <= j < i ==> rows[j].key != key
  {
    if rows == [] then None
    else if rows[0].key == key then Some(rows[0].id)
    else
      var r := FindUser(rows[1..], key);
      assert r.Some? ==> exists i :: 0 <= i < |rows[1..]| && rows[1..][i] == UserRow(r.value, key)
                                     && forall j :: 0 <= j < i ==> rows[1..][j].key != key;
      r
  }

  /** Appending rows never changes the answer for a key that already has a
      row, and for a key without one the answer comes from the new rows. */
  lemma {:induction false} FindUserAppend(rows: seq<UserRow>, more: seq<UserRow>, key: UserKey)
    ensures FindUser(rows + more, key) == if FindUser(rows, key).Some? then FindUser(rows, key) else FindUser(more, key)
    decreases |rows|
  {
    if rows != [] {
      assert (rows + more)[1..] == rows[1..] + more;
      FindUserAppend(rows[1..], more, key);
    } else {
      assert rows + more == more;
    }
  }

  /** A completed get-or-create of a key: afterwards the key is found under
      id; a key that already had a row keeps it and nothing is inserted,
      otherwise exactly one row with the next AUTO_INCREMENT id is
      appended. */
  predicate Resolves(before: seq<UserRow>, after: seq<UserRow>, nextUserId: nat, key: UserKey, id: nat)
  {
    && FindUser(after, key) == Some(id)
    && if FindUser(before, key).Some? then after == before && id == FindUser(before, key).value
       else after == before + [UserRow(nextUserId, key)] && id == nextUserId
  }

  /** The rows that inserting the given traffic entries, in order, adds to
      TRAFFIC for one user, starting at the given AUTO_INCREMENT value. */
  function TrafficRows(entries: seq<Entry>, userId: nat, firstRecordId: nat): (rows: seq<TrafficRow>)
    ensures |rows| == |entries|
  {
    seq(|entries|, i requires 0 <= i < |entries| =>
      TrafficRow(firstRecordId + i, entries[i].minute, entries[i].load, userId))
  }

  lemma TrafficRowsSnoc(entries: seq<Entry>, e: Entry, userId: nat, firstRecordId: nat)
    ensures TrafficRows(entries + [e], userId, firstRecordId)
            == TrafficRows(entries, userId, firstRecordId) + [TrafficRow(firstRecordId + |entries|, e.minute, e.load, userId)]
  {
  }

  /** What a fault plan leaves after one more JDBC operation: None never
      fails; Some(n) lets n more operations succeed, and once it reaches 0
      every later operation fails. */
  function Spend(failAfter: Option<nat>): Option<nat>
  {
    match failAfter
    case None => None
    case Some(n) => if n == 0 then Some(0) else Some(n - 1)
  }

  /** The fault plan lets at least n more operations succeed. */
  predicate Allows(failAfter: Option<nat>, n: nat)
  {
    failAfter.None? || failAfter.value >= n
  }

  /** One call's effect on a "not created yet" flag and on the number of
      CREATE TABLE statements run for its table: a cleared flag stays
      cleared and runs nothing; a set flag runs the statement at most once,
      and is cleared only when it ran. */
  predicate FlagStep(wasSet: bool, isSet: bool, createsBefore: nat, createsAfter: nat)
  {
    if !wasSet then !isSet && createsAfter == createsBefore
    else createsAfter <= createsBefore + 1 && (!isSet ==> createsAfter == createsBefore + 1)
  }

  /** Over a run of calls, each a FlagStep: once the flag is cleared it stays
      cleared and the table is never created again, and while it is set the
      statement runs at most once per call. */
  lemma {:induction false} FlagRun(flags: seq<bool>, creates: seq<nat>, i: nat, j: nat)
    requires |flags| == |creates|
    requires forall k :: 0 <= k < |flags| - 1 ==> FlagStep(flags[k], flags[k + 1], creates[k], creates[k + 1])
    requires i <= j < |flags|
    ensures creates[j] <= creates[i] + (j - i)
    ensures !flags[i] ==> !flags[j] && creates[j] == creates[i]
    decreases j - i
  {
    if i < j {
      assert FlagStep(flags[i], flags[i + 1], creates[i], creates[i + 1]);
      FlagRun(flags, creates, i + 1, j);
    }
  }

  class Database {
    var usersTable: bool
    var trafficTable: bool
    var users: seq<UserRow>
    var traffic: seq<TrafficRow>
    var nextUserId: nat
    var nextRecordId: nat
    /** Whether Class.forName finds the JDBC driver. */
    var driverPresent: bool
    /** The fault plan, see Spend. */
    var failAfter: Option<nat>
    /** The message of the SQLException a failing operation throws. */
    var faultMessage: string
    /** Row contents at the start of the open transaction, if any. */
    var snapshot: Option<(seq<UserRow>, seq<TrafficRow>)>
    /** How many CREATE TABLE statements were executed against each table. */
    ghost var usersCreates: nat
    ghost var trafficCreates: nat

    constructor (driverPresent: bool, failAfter: Option<nat>, faultMessage: string)
      ensures !usersTable && !trafficTable && users == [] && traffic == []
      ensures nextUserId == 1 && nextRecordId == 1 && snapshot.None?
      ensures this.driverPresent == driverPresent && this.failAfter == failAfter
      ensures this.faultMessage == faultMessage
      ensures usersCreates == 0 && trafficCreates == 0
    {
      usersTable, trafficTable := false, false;
      users, traffic := [], [];
      nextUserId, nextRecordId := 1, 1;
      this.driverPresent := driverPresent;
      this.failAfter := failAfter;
      this.faultMessage := faultMessage;
      snapshot := None;
      usersCreates, trafficCreates := 0, 0;
    }

    /** One JDBC operation reaches the server: it succeeds unless the fault
        plan is exhausted. */
    method Attempt() returns (ok: bool)
      modifies this`failAfter
      ensures ok <==> old(failAfter) != Some(0)
      ensures failAfter == Spend(old(failAfter))
    {
      ok := failAfter != Some(0);
      failAfter := Spend(failAfter);
    }

    /** Class.forName(DRIVER) followed by DriverManager.getConnection. */
    method Connect() returns (o: Outcome)
      modifies this`failAfter
      ensures !driverPresent ==> o == Fail(ClassNotFoundException(DRIVER)) && failAfter == old(failAfter)
      ensures driverPresent ==> failAfter == Spend(old(failAfter))
      ensures driverPresent ==> (o.Pass? <==> old(failAfter) != Some(0))
      ensures driverPresent && o.Fail? ==> o.error == SqlException(faultMessage)
    {
      if !driverPresent {
        return Fail(ClassNotFoundException(DRIVER));
      }
      var ok := Attempt();
      o := if ok then Pass else Fail(SqlException(faultMessage));
    }

    /** CREATE TABLE IF NOT EXISTS USERS(...). */
    method CreateUsersTable() returns (o: Outcome)
      modifies this`failAfter, this`usersTable, this`usersCreates
      ensures usersCreates == old(usersCreates) + 1
      ensures failAfter == Spend(old(failAfter))
      ensures o.Pass? <==> old(failAfter) != Some(0)
      ensures o.Fail? ==> o.error == SqlException(faultMessage)
      ensures usersTable == (old(usersTable) || o.Pass?)
    {
      usersCreates := usersCreates + 1;
      var ok := Attempt();
      if ok {
        usersTable := true;
        o := Pass;
      } else {
        o := Fail(SqlException(faultMessage));
      }
    }

    /** CREATE TABLE IF NOT EXISTS TRAFFIC(...). */
    method CreateTrafficTable() returns (o: Outcome)
      modifies this`failAfter, this`trafficTable, this`trafficCreates
      ensures trafficCreates == old(trafficCreates) + 1
      ensures failAfter == Spend(old(failAfter))
      ensures o.Pass? <==> old(failAfter) != Some(0)
      ensures o.Fail? ==> o.error == SqlException(faultMessage)
      ensures trafficTable == (old(trafficTable) || o.Pass?)
    {
      trafficCreates := trafficCreates + 1;
      var ok := Attempt();
      if ok {
        trafficTable := true;
        o := Pass;
      } else {
        o := Fail(SqlException(faultMessage));
      }
    }

    /** SELECT USER_ID FROM USERS WHERE ... */
    method SelectUserId(key: UserKey) returns (r: Result<Option<nat>>)
      modifies this`failAfter
      ensures failAfter == Spend(old(failAfter))
      ensures r.Ok? <==> old(failAfter) != Some(0) && usersTable
      ensures r.Ok? ==> r.value == FindUser(users, key)
      ensures r.Err? ==> r.error.SqlException?
    {
      var ok := Attempt();
      if !ok {
        r := Err(SqlException(faultMessage));
      } else if !usersTable {
        r := Err(SqlException(NO_USERS_TABLE));
      } else {
        r := Ok(FindUser(users, key));
      }
    }

    /** INSERT INTO USERS(...) VALUES(...): the row gets the next
        AUTO_INCREMENT id. */
    method InsertUser(key: UserKey) returns (o: Outcome)
      modifies this`failAfter, this`users, this`nextUserId
      ensures failAfter == Spend(old(failAfter))
      ensures o.Pass? <==> old(failAfter) != Some(0) && usersTable
      ensures o.Pass? ==> users == old(users) + [UserRow(old(nextUserId), key)] && nextUserId == old(nextUserId) + 1
      ensures o.Fail? ==> users == old(users) && nextUserId == old(nextUserId) && o.error.SqlException?
    {
      var ok := Attempt();
      if !ok {
        o := Fail(SqlException(faultMessage));
      } else if !usersTable {
        o := Fail(SqlException(NO_USERS_TABLE));
      } else {
        users := users + [UserRow(nextUserId, key)];
        nextUserId := nextUserId + 1;
        o := Pass;
      }
    }

    /** INSERT INTO TRAFFIC(MINUTE, LOADED_BYTES, USER_ID) VALUES(?, ?, ?). */
    method InsertTraffic(minute: int, loadedBytes: int, userId: nat) returns (o: Outcome)
      modifies this`failAfter, this`traffic, this`nextRecordId
      ensures failAfter == Spend(old(failAfter))
      ensures o.Pass? <==> old(failAfter) != Some(0) && trafficTable
      ensures o.Pass? ==> traffic == old(traffic) + [TrafficRow(old(nextRecordId), minute, loadedBytes, userId)]
                          && nextRecordId == old(nextRecordId) + 1
      ensures o.Fail? ==> traffic == old(traffic) && nextRecordId == old(nextRecordId) && o.error.SqlException?
    {
      var ok := Attempt();
      if !ok {
        o := Fail(SqlException(faultMessage));
      } else if !trafficTable {
        o := Fail(SqlException(NO_TRAFFIC_TABLE));
      } else {
        traffic := traffic + [TrafficRow(nextRecordId, minute, loadedBytes, userId)];
        nextRecordId := nextRecordId + 1;
        o := Pass;
      }
    }

    /** setAutoCommit(false): later writes belong to one transaction. */
    method Begin()
      modifies this`snapshot
      ensures snapshot == Some((users, traffic))
    {
      snapshot := Some((users, traffic));
    }

    /** Connection.commit(): the writes of the transaction become
        permanent. */
    method Commit() returns (o: Outcome)
      modifies this`failAfter, this`snapshot
      ensures failAfter == Spend(old(failAfter))
      ensures o.Pass? <==> old(failAfter) != Some(0)
      ensures o.Pass? ==> snapshot.None?
      ensures o.Fail? ==> snapshot == old(snapshot) && o.error == SqlException(faultMessage)
    {
      var ok := Attempt();
      if ok {
        snapshot := None;
        o := Pass;
      } else {
        o := Fail(SqlException(faultMessage));
      }
    }

    /** Connection.rollback(): the rows go back to the start of the
        transaction. Tables created meanwhile stay (DDL commits implicitly)
        and AUTO_INCREMENT values handed out stay used. */
    method Rollback()
      requires snapshot.Some?
      modifies this`users, this`traffic, this`snapshot
      ensures users == old(snapshot.value.0) && traffic == old(snapshot.value.1)
      ensures snapshot.None?
    {
      users, traffic := snapshot.value.0, snapshot.value.1;
      snapshot := None;
    }
  }
}
