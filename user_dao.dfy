/** The transactional data-access class: one connection per stored user,
    serializable isolation, auto-commit off, commit at the end and rollback
    on any SQLException. */
module Dao {
  import opened Errors
  import opened Users
  import opened Storage

  class UserDao {
    const dbLink: string
    const dbUserName: string
    const dbPassword: string
    /** The schema that dbLink and the credentials lead to. */
    const db: Database
    /** Whether USERS still has to be created (cleared by the first
        successful CREATE TABLE). */
    var isNotCreatedUsersTable: bool
    /** The same for TRAFFIC. */
    var isNotCreatedTrafficTable: bool

    /** A cleared flag means its table exists. */
    ghost predicate Valid()
      reads this, db
    {
      && (!isNotCreatedUsersTable ==> db.usersTable)
      && (!isNotCreatedTrafficTable ==> db.trafficTable)
    }

    constructor (hostName: string, portName: string, dbName: string,
                 dbUserName: string, dbPassword: string, db: Database)
      ensures dbLink == JdbcUrl(hostName, portName, dbName)
      ensures this.dbUserName == dbUserName && this.dbPassword == dbPassword
      ensures this.db == db
      ensures isNotCreatedUsersTable && isNotCreatedTrafficTable
      ensures Valid()
    {
      this.dbLink := URL_PREFIX + hostName + ":" + portName + "/" + dbName;
      this.dbUserName := dbUserName;
      this.dbPassword := dbPassword;
      this.db := db;
      isNotCreatedUsersTable := true;
      isNotCreatedTrafficTable := true;
    }

    /** Stores one user's traffic as a single transaction: the tables whose
        flags are still set are created, the user id is resolved (inserting
        the user when new), one TRAFFIC row is inserted per entry, and the
        whole is committed, or rolled back and the exception rethrown. */
    method StoreUserTraffic(user: User) returns (o: Outcome, ghost userId: nat)
      requires Valid() && db.snapshot.None?
      modifies this`isNotCreatedUsersTable, this`isNotCreatedTrafficTable
      modifies db`failAfter, db`usersTable, db`trafficTable, db`usersCreates, db`trafficCreates
      modifies db`users, db`nextUserId, db`traffic, db`nextRecordId, db`snapshot
      ensures Valid() && db.snapshot.None?
      ensures o.Fail? ==> o.error.SqlException? || o.error.ClassNotFoundException?
      ensures FlagStep(old(isNotCreatedUsersTable), isNotCreatedUsersTable, old(db.usersCreates), db.usersCreates)
      ensures FlagStep(old(isNotCreatedTrafficTable), isNotCreatedTrafficTable, old(db.trafficCreates), db.trafficCreates)
      ensures o.Pass? ==> !isNotCreatedUsersTable && !isNotCreatedTrafficTable
      ensures old(db.driverPresent) && old(db.failAfter) != Some(0) && old(db.failAfter) != Some(1) ==>
                !isNotCreatedUsersTable
      ensures old(db.driverPresent) && Allows(old(db.failAfter), 3) ==> !isNotCreatedTrafficTable
      // all or nothing
      ensures o.Fail? ==> db.users == old(db.users) && db.traffic == old(db.traffic)
      ensures o.Pass? ==> Resolves(old(db.users), db.users, old(db.nextUserId), KeyOf(user), userId)
      ensures o.Pass? ==> db.traffic == old(db.traffic) + TrafficRows(user.traffic, userId, old(db.nextRecordId))
      // a database that never faults takes every call
      ensures old(db.driverPresent) && old(db.failAfter).None? ==> o.Pass? && db.failAfter.None?
    {
      userId := 0;
      o := db.Connect();
      if o.Fail? {
        return;
      }
      o, userId := Transaction(user);
    }

    /** The try block over the open connection: begin, the statements,
        commit; on an SQLException roll back and rethrow. */
    method Transaction(user: User) returns (o: Outcome, ghost userId: nat)
      requires Valid() && db.snapshot.None? && db.driverPresent
      modifies this`isNotCreatedUsersTable, this`isNotCreatedTrafficTable
      modifies db`failAfter, db`usersTable, db`trafficTable, db`usersCreates, db`trafficCreates
      modifies db`users, db`nextUserId, db`traffic, db`nextRecordId, db`snapshot
      ensures Valid() && db.snapshot.None?
      ensures o.Fail? ==> o.error.SqlException?
      ensures FlagStep(old(isNotCreatedUsersTable), isNotCreatedUsersTable, old(db.usersCreates), db.usersCreates)
      ensures FlagStep(old(isNotCreatedTrafficTable), isNotCreatedTrafficTable, old(db.trafficCreates), db.trafficCreates)
      ensures o.Pass? ==> !isNotCreatedUsersTable && !isNotCreatedTrafficTable
      ensures old(db.failAfter) != Some(0) ==> !isNotCreatedUsersTable
      ensures Allows(old(db.failAfter), 2) ==> !isNotCreatedTrafficTable
      // all or nothing
      ensures o.Fail? ==> db.users == old(db.users) && db.traffic == old(db.traffic)
      ensures o.Pass? ==> Resolves(old(db.users), db.users, old(db.nextUserId), KeyOf(user), userId)
      ensures o.Pass? ==> db.traffic == old(db.traffic) + TrafficRows(user.traffic, userId, old(db.nextRecordId))
      // a database that never faults takes every call
      ensures old(db.driverPresent) && old(db.failAfter).None? ==> o.Pass? && db.failAfter.None?
    {
      db.Begin();
      o, userId := CreateTablesAndInsert(user);
      if o.Pass? {
        o := db.Commit();
      }
      if o.Fail? {
        db.Rollback();
      }
    }

    /** The body of the transaction: the pending CREATE TABLE statements,
        then the user's rows. */
    method CreateTablesAndInsert(user: User) returns (o: Outcome, ghost userId: nat)
      requires Valid()
      modifies this`isNotCreatedUsersTable, this`isNotCreatedTrafficTable
      modifies db`failAfter, db`usersTable, db`trafficTable, db`usersCreates, db`trafficCreates
      modifies db`users, db`nextUserId, db`traffic, db`nextRecordId
      ensures Valid()
      ensures o.Fail? ==> o.error.SqlException?
      ensures FlagStep(old(isNotCreatedUsersTable), isNotCreatedUsersTable, old(db.usersCreates), db.usersCreates)
      ensures FlagStep(old(isNotCreatedTrafficTable), isNotCreatedTrafficTable, old(db.trafficCreates), db.trafficCreates)
      ensures o.Pass? ==> !isNotCreatedUsersTable && !isNotCreatedTrafficTable
      ensures old(db.failAfter) != Some(0) ==> !isNotCreatedUsersTable
      ensures Allows(old(db.failAfter), 2) ==> !isNotCreatedTrafficTable
      ensures o.Pass? ==> Resolves(old(db.users), db.users, old(db.nextUserId), KeyOf(user), userId)
      ensures o.Pass? ==> db.traffic == old(db.traffic) + TrafficRows(user.traffic, userId, old(db.nextRecordId))
      ensures old(db.failAfter).None? ==> o.Pass? && db.failAfter.None?
    {
      userId := 0;
      o := CreatePendingTables();
      if o.Fail? {
        return;
      }
      o, userId := InsertUserTraffic(user);
    }

    /** The two flag checks inside the transaction: each table whose flag
        is still set is created, USERS first. */
    method CreatePendingTables() returns (o: Outcome)
      requires Valid()
      modifies this`isNotCreatedUsersTable, this`isNotCreatedTrafficTable
      modifies db`failAfter, db`usersTable, db`trafficTable, db`usersCreates, db`trafficCreates
      ensures Valid()
      ensures o.Fail? ==> o.error.SqlException?
      ensures FlagStep(old(isNotCreatedUsersTable), isNotCreatedUsersTable, old(db.usersCreates), db.usersCreates)
      ensures FlagStep(old(isNotCreatedTrafficTable), isNotCreatedTrafficTable, old(db.trafficCreates), db.trafficCreates)
      ensures o.Pass? ==> !isNotCreatedUsersTable && !isNotCreatedTrafficTable
      ensures old(db.failAfter) != Some(0) ==> !isNotCreatedUsersTable
      ensures Allows(old(db.failAfter), 2) ==> !isNotCreatedTrafficTable
      ensures old(db.failAfter).None? ==> o.Pass? && db.failAfter.None?
    {
      o := Pass;
      if isNotCreatedUsersTable {
        o := CreateUsersTable();
        if o.Fail? {
          return;
        }
      }
      if isNotCreatedTrafficTable {
        o := CreateTrafficTable();
      }
    }

    /** Inserts one TRAFFIC row per traffic entry, in minute order, all
        carrying the resolved user id. */
    method InsertUserTraffic(user: User) returns (o: Outcome, ghost userId: nat)
      requires db.usersTable && db.trafficTable
      modifies db`failAfter, db`users, db`nextUserId, db`traffic, db`nextRecordId
      ensures o.Fail? ==> o.error.SqlException?
      ensures o.Pass? ==> Resolves(old(db.users), db.users, old(db.nextUserId), KeyOf(user), userId)
      ensures FindUser(old(db.users), KeyOf(user)).Some? ==> db.users == old(db.users)
      ensures FindUser(old(db.users), KeyOf(user)).None? ==>
                db.users == old(db.users) || db.users == old(db.users) + [UserRow(old(db.nextUserId), KeyOf(user))]
      ensures o.Pass? ==> db.traffic == old(db.traffic) + TrafficRows(user.traffic, userId, old(db.nextRecordId))
      ensures old(db.failAfter).None? ==> o.Pass? && db.failAfter.None?
    {
      var r := GetUserId(KeyOf(user));
      if r.Err? {
        return Fail(r.error), 0;
      }
      var id := r.value;
      userId := id;
      var entries := user.traffic;
      ghost var before := db.traffic;
      var first := db.nextRecordId;
      var i := 0;
      while i < |entries|
        invariant 0 <= i <= |entries|
        invariant db.traffic == before + TrafficRows(entries[..i], id, first)
        invariant db.nextRecordId == first + i
        invariant db.users == old(db.users) || db.users == old(db.users) + [UserRow(old(db.nextUserId), KeyOf(user))]
        invariant FindUser(old(db.users), KeyOf(user)).Some? ==> db.users == old(db.users)
        invariant FindUser(db.users, KeyOf(user)) == Some(id)
        invariant old(db.failAfter).None? ==> db.failAfter.None?
      {
        o := db.InsertTraffic(entries[i].minute, entries[i].load, id);
        if o.Fail? {
          return;
        }
        TrafficRowsSnoc(entries[..i], entries[i], id, first);
        assert entries[..i + 1] == entries[..i] + [entries[i]];
        i := i + 1;
      }
      assert entries[..i] == entries;
      o := Pass;
    }

    /** SELECT the user's id; when there is none, INSERT the user and SELECT
        again. The inserted row is visible to the second SELECT, so the
        recursion goes one level deep and inserts exactly one row. */
    method GetUserId(key: UserKey) returns (r: Result<nat>)
      requires db.usersTable
      modifies db`failAfter, db`users, db`nextUserId
      decreases if FindUser(db.users, key).Some? then 0 else 1
      ensures r.Err? ==> r.error.SqlException?
      ensures r.Ok? ==> FindUser(db.users, key) == Some(r.value)
      ensures FindUser(old(db.users), key).Some? ==>
                db.users == old(db.users) && db.nextUserId == old(db.nextUserId)
                && (r.Ok? ==> r.value == FindUser(old(db.users), key).value)
      ensures FindUser(old(db.users), key).None? ==>
                (db.users == old(db.users) && db.nextUserId == old(db.nextUserId) && r.Err?)
                || (db.users == old(db.users) + [UserRow(old(db.nextUserId), key)] && db.nextUserId == old(db.nextUserId) + 1)
      ensures FindUser(old(db.users), key).None? && r.Ok? ==> r.value == old(db.nextUserId)
      ensures old(db.failAfter).None? ==> r.Ok? && db.failAfter.None?
    {
      var found := db.SelectUserId(key);
      if found.Err? {
        return Err(found.error);
      }
      if found.value.Some? {
        return Ok(found.value.value);
      }
      var inserted := InsertUser(key);
      if inserted.Fail? {
        return Err(inserted.error);
      }
      FindUserAppend(old(db.users), [UserRow(old(db.nextUserId), key)], key);
      r := GetUserId(key);
    }

    /** INSERT INTO USERS the user's four columns. */
    method InsertUser(key: UserKey) returns (o: Outcome)
      modifies db`failAfter, db`users, db`nextUserId
      ensures db.failAfter == Spend(old(db.failAfter))
      ensures o.Pass? <==> old(db.failAfter) != Some(0) && db.usersTable
      ensures o.Pass? ==> db.users == old(db.users) + [UserRow(old(db.nextUserId), key)]
                          && db.nextUserId == old(db.nextUserId) + 1
      ensures o.Fail? ==> db.users == old(db.users) && db.nextUserId == old(db.nextUserId) && o.error.SqlException?
    {
      o := db.InsertUser(key);
    }

    /** CREATE TABLE IF NOT EXISTS USERS, clearing the flag once the
        statement has run. */
    method CreateUsersTable() returns (o: Outcome)
      requires Valid()
      modifies this`isNotCreatedUsersTable, db`failAfter, db`usersTable, db`usersCreates
      ensures Valid()
      ensures db.usersCreates == old(db.usersCreates) + 1
      ensures db.failAfter == Spend(old(db.failAfter))
      ensures o.Pass? <==> old(db.failAfter) != Some(0)
      ensures o.Fail? ==> o.error == SqlException(db.faultMessage)
      ensures isNotCreatedUsersTable == (old(isNotCreatedUsersTable) && o.Fail?)
      ensures o.Pass? ==> db.usersTable
    {
      o := db.CreateUsersTable();
      if o.Pass? {
        isNotCreatedUsersTable := false;
      }
    }

    /** CREATE TABLE IF NOT EXISTS TRAFFIC, clearing its flag once the
        statement has run. */
    method CreateTrafficTable() returns (o: Outcome)
      requires Valid()
      modifies this`isNotCreatedTrafficTable, db`failAfter, db`trafficTable, db`trafficCreates
      ensures Valid()
      ensures db.trafficCreates == old(db.trafficCreates) + 1
      ensures db.failAfter == Spend(old(db.failAfter))
      ensures o.Pass? <==> old(db.failAfter) != Some(0)
      ensures o.Fail? ==> o.error == SqlException(db.faultMessage)
      ensures isNotCreatedTrafficTable == (old(isNotCreatedTrafficTable) && o.Fail?)
      ensures o.Pass? ==> db.trafficTable
    {
      o := db.CreateTrafficTable();
      if o.Pass? {
        isNotCreatedTrafficTable := false;
      }
    }
  }
}
