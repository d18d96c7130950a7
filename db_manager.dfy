/** The non-transactional data-access class the controller uses: every
    operation opens its own auto-committed connection, so nothing written
    before an exception is undone. */
module Manager {
  import opened Errors
  import opened Users
  import opened Storage

  class DBManager {
    const dbLink: string
    const dbUserName: string
    const dbPassword: string
    /** The schema that dbLink and the credentials lead to. */
    const db: Database
    /** Whether USERS still has to be created. */
    var isNotCreatedUsersTable: bool
    /** Whether TRAFFIC still has to be created. */
    var isNotCreatedTrafficTable: bool

    /** A cleared flag means its table exists. */
    ghost predicate Valid()
      reads this, db
    {
      && (!isNotCreatedUsersTable ==> db.usersTable)
      && (!isNotCreatedTrafficTable ==> db.trafficTable)
    }

    constructor (hostName: string, portName: string, dbName: string,
                 dbUserName: string, dbPassword: string, db: Database)
      ensures dbLink == JdbcUrl(hostName, portName, dbName)
      ensures this.dbUserName == dbUserName && this.dbPassword == dbPassword
      ensures this.db == db
      ensures isNotCreatedUsersTable && isNotCreatedTrafficTable
      ensures Valid()
    {
      this.dbLink := "jdbc:mysql://" + hostName + ":" + portName + "/" + dbName;
      this.dbUserName := dbUserName;
      this.dbPassword := dbPassword;
      this.db := db;
      isNotCreatedUsersTable := true;
      isNotCreatedTrafficTable := true;
    }

    /** Creates the tables whose flags are still set, resolves the user id
        (inserting the user when new) and inserts one TRAFFIC row per
        traffic entry. The first exception ends the call; the rows written
        before it stay: the first `written` traffic rows, and a user row
        inserted on the way. */
    method StoreUserTraffic(user: User)
      returns (o: Outcome, ghost userId: nat, ghost written: nat, ghost added: seq<TrafficRow>)
      requires Valid()
      modifies this`isNotCreatedUsersTable, this`isNotCreatedTrafficTable
      modifies db`failAfter, db`usersTable, db`trafficTable, db`usersCreates, db`trafficCreates
      modifies db`users, db`nextUserId, db`traffic, db`nextRecordId
      ensures Valid()
      ensures o.Fail? ==> o.error.SqlException? || o.error.ClassNotFoundException?
      ensures FlagStep(old(isNotCreatedUsersTable), isNotCreatedUsersTable, old(db.usersCreates), db.usersCreates)
      ensures FlagStep(old(isNotCreatedTrafficTable), isNotCreatedTrafficTable, old(db.trafficCreates), db.trafficCreates)
      ensures o.Pass? ==> !isNotCreatedUsersTable && !isNotCreatedTrafficTable
      ensures old(db.driverPresent) && old(db.failAfter) != Some(0) && old(db.failAfter) != Some(1) ==>
                !isNotCreatedUsersTable
      ensures old(db.driverPresent) && Allows(old(db.failAfter), 4) ==> !isNotCreatedTrafficTable
      // partial writes stay
      ensures written <= |user.traffic|
      ensures o.Pass? ==> written == |user.traffic|
      ensures added == TrafficRows(user.traffic[..written], userId, old(db.nextRecordId))
      ensures db.traffic == old(db.traffic) + added
      ensures db.users == old(db.users)
              || (FindUser(old(db.users), KeyOf(user)).None?
                  && db.users == old(db.users) + [UserRow(old(db.nextUserId), KeyOf(user))])
      // the id is resolved before any traffic row is written
      ensures o.Pass? || written > 0 ==> Resolves(old(db.users), db.users, old(db.nextUserId), KeyOf(user), userId)
      // a database that never faults takes every call
      ensures old(db.driverPresent) && old(db.failAfter).None? ==> o.Pass? && db.failAfter.None?
    {
      userId, written, added := 0, 0, [];
      o := CreatePendingTables();
      if o.Fail? {
        return;
      }
      o, userId, written := InsertUserTraffic(user);
      added := TrafficRows(user.traffic[..written], userId, old(db.nextRecordId));
    }

    /** The two flag checks that open storeUserTraffic: each table whose
        flag is still set is created, USERS first. */
    method CreatePendingTables() returns (o: Outcome)
      requires Valid()
      modifies this`isNotCreatedUsersTable, this`isNotCreatedTrafficTable
      modifies db`failAfter, db`usersTable, db`trafficTable, db`usersCreates, db`trafficCreates
      ensures Valid()
      ensures o.Fail? ==> o.error.SqlException? || o.error.ClassNotFoundException?
      ensures FlagStep(old(isNotCreatedUsersTable), isNotCreatedUsersTable, old(db.usersCreates), db.usersCreates)
      ensures FlagStep(old(isNotCreatedTrafficTable), isNotCreatedTrafficTable, old(db.trafficCreates), db.trafficCreates)
      ensures o.Pass? ==> !isNotCreatedUsersTable && !isNotCreatedTrafficTable
      ensures old(db.driverPresent) && old(db.failAfter) != Some(0) && old(db.failAfter) != Some(1) ==>
                !isNotCreatedUsersTable
      ensures old(db.driverPresent) && Allows(old(db.failAfter), 4) ==> !isNotCreatedTrafficTable
      ensures old(db.driverPresent) && old(db.failAfter).None? ==> o.Pass? && db.failAfter.None?
    {
      o := Pass;
      if isNotCreatedUsersTable {
        o := CreateUsersTable();
        if o.Fail? {
          return;
        }
      }
      if isNotCreatedTrafficTable {
        o := CreateTrafficTable();
      }
    }

    /** Resolves the user id, then inserts one TRAFFIC row per entry over
        one connection, in minute order. */
    method InsertUserTraffic(user: User) returns (o: Outcome, ghost userId: nat, ghost written: nat)
      requires db.usersTable && db.trafficTable
      modifies db`failAfter, db`users, db`nextUserId, db`traffic, db`nextRecordId
      ensures o.Fail? ==> o.error.SqlException? || o.error.ClassNotFoundException?
      ensures written <= |user.traffic|
      ensures o.Pass? ==> written == |user.traffic|
      ensures db.traffic == old(db.traffic) + TrafficRows(user.traffic[..written], userId, old(db.nextRecordId))
      ensures db.users == old(db.users)
              || (FindUser(old(db.users), KeyOf(user)).None?
                  && db.users == old(db.users) + [UserRow(old(db.nextUserId), KeyOf(user))])
      ensures o.Pass? || written > 0 ==> Resolves(old(db.users), db.users, old(db.nextUserId), KeyOf(user), userId)
      ensures old(db.driverPresent) && old(db.failAfter).None? ==> o.Pass? && db.failAfter.None?
    {
      written := 0;
      var r := GetUserId(KeyOf(user));
      if r.Err? {
        return Fail(r.error), 0, 0;
      }
      var id := r.value;
      userId := id;
      o := db.Connect();
      if o.Fail? {
        return;
      }
      o, written := InsertEntries(user.traffic, id);
    }

    /** The prepared INSERT run once per traffic entry, in key order, over
        one connection; the first failing execute ends the run and the rows
        inserted before it stay. */
    method InsertEntries(entries: seq<Entry>, id: nat) returns (o: Outcome, ghost written: nat)
      requires db.trafficTable
      modifies db`failAfter, db`traffic, db`nextRecordId
      ensures o.Fail? ==> o.error.SqlException?
      ensures written <= |entries| && (o.Pass? ==> written == |entries|)
      ensures db.traffic == old(db.traffic) + TrafficRows(entries[..written], id, old(db.nextRecordId))
      ensures db.nextRecordId == old(db.nextRecordId) + written
      ensures old(db.failAfter).None? ==> o.Pass? && db.failAfter.None?
    {
      ghost var before := db.traffic;
      var first := db.nextRecordId;
      written := 0;
      var i := 0;
      while i < |entries|
        invariant 0 <= i <= |entries| && written == i
        invariant db.traffic == before + TrafficRows(entries[..i], id, first)
        invariant db.nextRecordId == first + i
        invariant old(db.failAfter).None? ==> db.failAfter.None?
      {
        o := db.InsertTraffic(entries[i].minute, entries[i].load, id);
        if o.Fail? {
          return;
        }
        TrafficRowsSnoc(entries[..i], entries[i], id, first);
        assert entries[..i + 1] == entries[..i] + [entries[i]];
        i := i + 1;
        written := i;
      }
      assert entries[..i] == entries;
      o := Pass;
    }

    /** SELECT the user's id over a new connection; when there is none,
        INSERT the user and SELECT again. The inserted row is visible to
        the second SELECT, so the recursion goes one level deep and inserts
        exactly one row. */
    method GetUserId(key: UserKey) returns (r: Result<nat>)
      requires db.usersTable
      modifies db`failAfter, db`users, db`nextUserId
      decreases if FindUser(db.users, key).Some? then 0 else 1
      ensures r.Err? ==> r.error.SqlException? || r.error.ClassNotFoundException?
      ensures r.Ok? ==> FindUser(db.users, key) == Some(r.value)
      ensures FindUser(old(db.users), key).Some? ==>
                db.users == old(db.users) && db.nextUserId == old(db.nextUserId)
                && (r.Ok? ==> r.value == FindUser(old(db.users), key).value)
      ensures FindUser(old(db.users), key).None? ==>
                (db.users == old(db.users) && db.nextUserId == old(db.nextUserId) && r.Err?)
                || (db.users == old(db.users) + [UserRow(old(db.nextUserId), key)] && db.nextUserId == old(db.nextUserId) + 1)
      ensures FindUser(old(db.users), key).None? && r.Ok? ==> r.value == old(db.nextUserId)
      ensures old(db.driverPresent) && old(db.failAfter).None? ==> r.Ok? && db.failAfter.None?
    {
      var connected := db.Connect();
      if connected.Fail? {
        return Err(connected.error);
      }
      var found := db.SelectUserId(key);
      if found.Err? {
        return Err(found.error);
      }
      if found.value.Some? {
        return Ok(found.value.value);
      }
      var inserted := InsertUser(key);
      if inserted.Fail? {
        return Err(inserted.error);
      }
      FindUserAppend(old(db.users), [UserRow(old(db.nextUserId), key)], key);
      r := GetUserId(key);
    }

    /** INSERT INTO USERS over a new connection. */
    method InsertUser(key: UserKey) returns (o: Outcome)
      modifies db`failAfter, db`users, db`nextUserId
      ensures o.Pass? ==> db.users == old(db.users) + [UserRow(old(db.nextUserId), key)]
                          && db.nextUserId == old(db.nextUserId) + 1
      ensures o.Fail? ==> db.users == old(db.users) && db.nextUserId == old(db.nextUserId)
                          && (o.error.SqlException? || o.error.ClassNotFoundException?)
      ensures old(db.driverPresent) && old(db.failAfter).None? && db.usersTable ==> o.Pass? && db.failAfter.None?
    {
      o := db.Connect();
      if o.Fail? {
        return;
      }
      o := db.InsertUser(key);
    }

    /** CREATE TABLE IF NOT EXISTS USERS over a new connection; the flag is
        cleared only after the statement has run. */
    method CreateUsersTable() returns (o: Outcome)
      requires Valid()
      modifies this`isNotCreatedUsersTable, db`failAfter, db`usersTable, db`usersCreates
      ensures Valid()
      ensures db.usersCreates <= old(db.usersCreates) + 1
      ensures o.Fail? ==> o.error.SqlException? || o.error.ClassNotFoundException?
      ensures isNotCreatedUsersTable == (old(isNotCreatedUsersTable) && o.Fail?)
      ensures o.Pass? ==> db.usersTable && db.usersCreates == old(db.usersCreates) + 1
      ensures o.Pass? ==> db.failAfter == Spend(Spend(old(db.failAfter)))
      ensures old(db.driverPresent) && old(db.failAfter) != Some(0) && old(db.failAfter) != Some(1) ==> o.Pass?
      ensures old(db.driverPresent) && old(db.failAfter).None? ==> o.Pass? && db.failAfter.None?
    {
      o := db.Connect();
      if o.Fail? {
        return;
      }
      o := db.CreateUsersTable();
      if o.Pass? {
        isNotCreatedUsersTable := false;
      }
    }

    /** CREATE TABLE IF NOT EXISTS TRAFFIC over a new connection; the flag
        is cleared only after the statement has run. */
    method CreateTrafficTable() returns (o: Outcome)
      requires Valid()
      modifies this`isNotCreatedTrafficTable, db`failAfter, db`trafficTable, db`trafficCreates
      ensures Valid()
      ensures db.trafficCreates <= old(db.trafficCreates) + 1
      ensures o.Fail? ==> o.error.SqlException? || o.error.ClassNotFoundException?
      ensures isNotCreatedTrafficTable == (old(isNotCreatedTrafficTable) && o.Fail?)
      ensures o.Pass? ==> db.trafficTable && db.trafficCreates == old(db.trafficCreates) + 1
      ensures o.Pass? ==> db.failAfter == Spend(Spend(old(db.failAfter)))
      ensures old(db.driverPresent) && Allows(old(db.failAfter), 2) ==> o.Pass?
      ensures old(db.driverPresent) && old(db.failAfter).None? ==> o.Pass? && db.failAfter.None?
    {
      o := db.Connect();
      if o.Fail? {
        return;
      }
      o := db.CreateTrafficTable();
      if o.Pass? {
        isNotCreatedTrafficTable := false;
      }
    }
  }
}
