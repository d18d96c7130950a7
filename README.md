# Provider-DB-Creator, modelled in Dafny

Provider-DB-Creator is a small Java web application that fills a MySQL schema
with synthetic provider traffic. A form posts a user count, a start and an end
date, and the connection parameters. The servlet checks that every parameter is
filled in and hands the request to the controller. The controller parses the
count and the dates and cuts the interval into minutes. It then generates the
users, gives each one a random load per minute, and stores each user with its
traffic through a data-access class. That class creates the `USERS` and
`TRAFFIC` tables on first use, looks the user up by its natural key (first
name, last name, city, address), inserts the user when absent, and writes one
`TRAFFIC` row per minute. The servlet shows the outcome, or the exception, as
a one-line result.

The project models these pieces, one Dafny module each:

- `errors.dfy` (`Errors`): the Java exceptions that reach the servlet, and the
  `Result`/`Outcome` types that stand for "returns or throws". `Describe` is
  `Throwable.toString()`.
- `users.dfy` (`Users`): the `User` class. Its identity fields are fixed.
  `LoadTraffic` replaces the traffic map. `hashCode` is modelled with Java's
  32-bit wrap-around and with `String.hashCode`; `equals` is null-safe. Dates
  are integer milliseconds. A `TreeMap` keyed by minute is a sequence of
  entries in ascending minute order.
- `storage.dfy` (`Storage`): an in-memory stand-in for the MySQL schema. The
  `Database` class holds both tables as row sequences, the AUTO_INCREMENT
  counters, table existence, and one open transaction (a snapshot). A fault plan
  decides which JDBC operation is the first to throw. The module also has the
  JDBC URL, the user lookup `FindUser`, and the "not created yet" flag step
  `FlagStep`.
- `user_dao.dfy` (`Dao`): `UserDao`, the transactional data-access class. It
  uses one connection per user and rolls back on any `SQLException`.
- `db_manager.dfy` (`Manager`): `DBManager`, the data-access class the
  controller uses. Every operation opens its own auto-committed connection, so
  partial writes stay.
- `controller.dfy` (`Controllers`): the minute grid, the date-shape regular
  expression, parameter parsing, and the loop that stores user after user.
- `servlet.dfy` (`Servlets`): the parameter check chain, the result text, and
  `doPost`.

Inputs the program takes from libraries or from chance are parameters of the
model:

- `Integer.parseInt` and the strict `SimpleDateFormat.parse` are functions
  `string -> Option<int>` (None when the call throws).
- `Math.random()` is a draw in [0, 1).
- DataFactory's generated identities are a function from the user's position
  to a `NaturalKey`.
- The database is a `Database` object whose fault plan (`failAfter`) and
  driver presence (`driverPresent`) the caller chooses.

`getUserId` calls itself after inserting a missing user, and nothing in the
code bounds that recursion. The model proves that it stops after one level and
inserts exactly one row, because an inserted row is visible to the next
`SELECT`. The code has two data-access classes: `UserDao` stores each user in
one transaction, while `DBManager`, the one the controller uses, never rolls
back. Both are modelled.

## Model

| member | source | states |
|---|---|---|
| `Users.LoadFromDraw` | src/main/java/com/ivanov/providerdbcreator/User.java:67 | the load made from one random draw lies in [0, 100 000 000) |
| `Users.User.LoadTraffic` | src/main/java/com/ivanov/providerdbcreator/User.java:63-73 | the old traffic is discarded; the new map has exactly one entry per time point, in order; entry i carries the i-th minute and the load from the i-th draw; the returned map is the stored one (what `getTraffic` then returns) |
| `Users.Int32` | src/main/java/com/ivanov/providerdbcreator/User.java:81-89 | an int result lies in [-2^31, 2^31) and is congruent to the exact value modulo 2^32 |
| `Users.Int32Step` | src/main/java/com/ivanov/providerdbcreator/User.java:83-88 | wrapping after every `31 * result + h` step gives the same int as wrapping once at the end |
| `Users.StringHashIsPolynomial` | src/main/java/com/ivanov/providerdbcreator/User.java:83-88 | the incremental `String.hashCode` of a field equals the polynomial s[0]*31^(n-1) + ... + s[n-1], reduced to an int (`StringHash` is `String.hashCode` as Java computes it, wrapping after every step) |
| `Users.HashPolynomialSnoc` | src/main/java/com/ivanov/providerdbcreator/User.java:83-88 | appending a character multiplies the polynomial by 31 and adds the character |
| `Users.EqualsIffSameKey` | src/main/java/com/ivanov/providerdbcreator/User.java:97-126 | `User.Equals` (`equals`) holds exactly against a non-null `User` whose four identity fields are pairwise equal, null equal only to null; the traffic plays no part |
| `Users.EqualsReflexiveNotNull` | src/main/java/com/ivanov/providerdbcreator/User.java:98-101 | `equals` is reflexive and false against null |
| `Users.EqualUsersHashAlike` | src/main/java/com/ivanov/providerdbcreator/User.java:80-126 | equal users have equal hash codes |
| `Users.HashCodeClosedForm` | src/main/java/com/ivanov/providerdbcreator/User.java:80-90 | `User.HashCode` (`hashCode`) is 31^4 + 31^3*h(address) + 31^2*h(city) + 31*h(firstName) + h(lastName), reduced to an int once, with h(null) = 0 |
| `Storage.SplitAt` | src/main/java/com/ivanov/providerdbcreator/UserDao.java:66-75 | splitting at the first occurrence of a separator: None exactly when it is absent, otherwise the two parts rebuild the string |
| `Storage.SplitAtJoin` | src/main/java/com/ivanov/providerdbcreator/UserDao.java:66-75 | a string glued at a separator that the first part lacks splits back into its parts |
| `Storage.JdbcUrlRoundTrip` | src/main/java/com/ivanov/providerdbcreator/UserDao.java:66-75 | the URL that both data-access constructors build (`JdbcUrl`: `jdbc:mysql://host:port/db`) gives back host, port and schema name when the host has no ':' and the port no '/' |
| `Storage.FindUser` | src/main/java/com/ivanov/providerdbcreator/UserDao.java:182-186 | the `SELECT` by natural key finds nothing exactly when no row carries the key, and otherwise returns the id of the first matching row; the key compared is `KeyColumns`, the four columns as the concatenated SQL text carries them, with a null field as the text `null` (`SqlText`) |
| `Storage.FindUserAppend` | src/main/java/com/ivanov/providerdbcreator/UserDao.java:187-189 | appending rows keeps the answer for a key that already has a row; for a key without one, the answer comes from the new rows |
| `Storage.TrafficRows` | src/main/java/com/ivanov/providerdbcreator/UserDao.java:141-151 | one `TRAFFIC` row per traffic entry |
| `Storage.TrafficRowsSnoc` | src/main/java/com/ivanov/providerdbcreator/UserDao.java:141-151 | one more entry adds one more row, carrying the next record id, the entry's minute and load, and the user id |
| `Storage.FlagRun` | src/main/java/com/ivanov/providerdbcreator/UserDao.java:99-105 | over a run of calls: once a flag is cleared it stays cleared and its table is never created again; while it is set, the table is created at most once per call |
| `Storage.Database.Connect` | src/main/java/com/ivanov/providerdbcreator/UserDao.java:298-302 | a missing driver throws `ClassNotFoundException`; otherwise the connection succeeds unless the fault plan is exhausted, and then throws `SQLException` |
| `Storage.Database.SelectUserId` | src/main/java/com/ivanov/providerdbcreator/UserDao.java:182-186 | the query answers `FindUser` on the current rows, or throws when the table is missing or the fault plan is exhausted |
| `Storage.Database.InsertUser` | src/main/java/com/ivanov/providerdbcreator/UserDao.java:225-228 | the row is appended with the next AUTO_INCREMENT id, or nothing changes and `SQLException` is thrown |
| `Storage.Database.InsertTraffic` | src/main/java/com/ivanov/providerdbcreator/UserDao.java:147-150 | the row is appended with the next record id, or nothing changes and `SQLException` is thrown |
| `Storage.Database.CreateUsersTable` | src/main/java/com/ivanov/providerdbcreator/UserDao.java:253-257 | the statement runs once; the table exists afterwards unless it threw |
| `Storage.Database.CreateTrafficTable` | src/main/java/com/ivanov/providerdbcreator/UserDao.java:282-286 | the same for `TRAFFIC` |
| `Storage.Database.Begin` | src/main/java/com/ivanov/providerdbcreator/UserDao.java:97 | auto-commit off: the current rows are remembered |
| `Storage.Database.Commit` | src/main/java/com/ivanov/providerdbcreator/UserDao.java:108 | the writes become permanent, or `SQLException` is thrown and the transaction stays open |
| `Storage.Database.Rollback` | src/main/java/com/ivanov/providerdbcreator/UserDao.java:110 | the rows return to the start of the transaction; tables created meanwhile stay |
| `Dao.UserDao.constructor` | src/main/java/com/ivanov/providerdbcreator/UserDao.java:64-78 | `dbLink` is `jdbc:mysql://` + host + `:` + port + `/` + schema name; both flags are set |
| `Dao.UserDao.StoreUserTraffic` | src/main/java/com/ivanov/providerdbcreator/UserDao.java:91-115 | all or nothing: on an exception the user and traffic rows are as before; on success the user is resolved (existing id, or one new row with the next id) and one row per entry is added with that id; each flag follows `FlagStep` and stays cleared once its table was created, even when the call rolls back: USERS is created once the connection and one statement succeed, TRAFFIC once the connection and both statements do; a database that never faults takes every call; the get-or-create outcome is `Resolves` |
| `Dao.UserDao.Transaction` | src/main/java/com/ivanov/providerdbcreator/UserDao.java:94-111 | the try block: begin, statements, commit; any `SQLException`, from commit too, rolls the rows back and is rethrown; created tables keep their flags cleared (USERS after one successful statement, TRAFFIC after two) |
| `Dao.UserDao.CreateTablesAndInsert` | src/main/java/com/ivanov/providerdbcreator/UserDao.java:99-107 | the pending tables are created, then the user's rows are written, with the same guarantees as a successful transaction, and the same flag guarantees |
| `Dao.UserDao.CreatePendingTables` | src/main/java/com/ivanov/providerdbcreator/UserDao.java:99-105 | each table whose flag is set is created, USERS first; both flags follow `FlagStep`; on success both are cleared; one statement that succeeds clears USERS, two clear TRAFFIC |
| `Dao.UserDao.InsertUserTraffic` | src/main/java/com/ivanov/providerdbcreator/UserDao.java:126-153 | the user id is resolved first; then exactly one row per traffic entry is appended, in minute order, each with the entry's minute and load and the resolved id |
| `Dao.UserDao.GetUserId` | src/main/java/com/ivanov/providerdbcreator/UserDao.java:165-192 | an existing row's id is returned and nothing is inserted; otherwise exactly one row is inserted with the next id and that id is returned; the recursion terminates after one level |
| `Dao.UserDao.InsertUser` | src/main/java/com/ivanov/providerdbcreator/UserDao.java:203-229 | one `USERS` row with the next id, or no change and `SQLException` |
| `Dao.UserDao.CreateUsersTable` | src/main/java/com/ivanov/providerdbcreator/UserDao.java:239-258 | the statement runs; the flag is cleared exactly when it succeeded |
| `Dao.UserDao.CreateTrafficTable` | src/main/java/com/ivanov/providerdbcreator/UserDao.java:268-287 | the same for `TRAFFIC`, independently of `USERS` |
| `Manager.DBManager.constructor` | src/main/java/com/ivanov/providerdbcreator/DBManager.java:64-70 | `dbLink` is the same concatenation as in `UserDao`; both flags are set |
| `Manager.DBManager.StoreUserTraffic` | src/main/java/com/ivanov/providerdbcreator/DBManager.java:83-94 | no rollback: the first `written` traffic rows and a user row inserted on the way stay after an exception; on success every entry is written; the id is resolved (`Resolves`) before any traffic row; each flag follows `FlagStep`, USERS is cleared once a connection and its statement succeed and TRAFFIC once two connections and both statements do |
| `Manager.DBManager.CreatePendingTables` | src/main/java/com/ivanov/providerdbcreator/DBManager.java:85-91 | each table whose flag is set is created, USERS first, each over its own connection; the flag guarantees are those of `StoreUserTraffic` |
| `Manager.DBManager.InsertUserTraffic` | src/main/java/com/ivanov/providerdbcreator/DBManager.java:107-133 | the id is resolved, then the entries are inserted over one connection; the rows written before a failure stay |
| `Manager.DBManager.InsertEntries` | src/main/java/com/ivanov/providerdbcreator/DBManager.java:119-131 | the rows added are exactly the rows of the first `written` entries, with consecutive record ids; all entries on success |
| `Manager.DBManager.GetUserId` | src/main/java/com/ivanov/providerdbcreator/DBManager.java:147-167 | as in `UserDao`, each query on a new connection: existing id without insert, or one insert and its id; terminates after one level |
| `Manager.DBManager.InsertUser` | src/main/java/com/ivanov/providerdbcreator/DBManager.java:180-197 | one `USERS` row with the next id, or no change and an exception |
| `Manager.DBManager.CreateUsersTable` | src/main/java/com/ivanov/providerdbcreator/DBManager.java:208-225 | the flag clears only after the statement ran; it stays set when the connection or the statement throws |
| `Manager.DBManager.CreateTrafficTable` | src/main/java/com/ivanov/providerdbcreator/DBManager.java:237-253 | the same for `TRAFFIC`, independently of `USERS`: it passes whenever the connection and the statement do |
| `Controllers.MinuteGrid` | src/main/java/com/ivanov/providerdbcreator/Controller.java:143-152 | the grid has ceil((end - start) / 60000) points for a non-empty interval, none otherwise |
| `Controllers.CeilIsUnique` | src/main/java/com/ivanov/providerdbcreator/Controller.java:147-150 | the number of loop steps is the only n with (n-1) minutes below the length and n minutes at or past it |
| `Controllers.LastPointBelowEnd` | src/main/java/com/ivanov/providerdbcreator/Controller.java:147 | every grid point lies below the end |
| `Controllers.MinuteGridProperties` | src/main/java/com/ivanov/providerdbcreator/Controller.java:143-152 | every point p satisfies start <= p < end; neighbours are 60000 ms apart; the points strictly increase; the first is start when start < end; the grid is empty exactly when end <= start |
| `Controllers.WholeMinutes` | src/main/java/com/ivanov/providerdbcreator/Controller.java:147-150 | an interval of k whole minutes has k points |
| `Controllers.TokenMatchesPrefix` | src/main/java/com/ivanov/providerdbcreator/Controller.java:163 | one token of the expression (`\d{n}` or a literal) accepts the first characters of a string exactly when each of them is accepted at its position |
| `Controllers.RegexMatchesExpanded` | src/main/java/com/ivanov/providerdbcreator/Controller.java:163 | a string matches a token sequence exactly when it has one character per expanded position and each is accepted there |
| `Controllers.DateRegexSuffix` | src/main/java/com/ivanov/providerdbcreator/Controller.java:163 | each suffix of the date expression spells out the date shape from its offset on |
| `Controllers.DateToken` | src/main/java/com/ivanov/providerdbcreator/Controller.java:163 | each token of the date expression fills the shape between its offset and the next |
| `Controllers.ShapeOfTokens` | src/main/java/com/ivanov/providerdbcreator/Controller.java:163 | tokens that spell out the date shape accept exactly the strings of that shape |
| `Controllers.DateFormatShape` | src/main/java/com/ivanov/providerdbcreator/Controller.java:163 | `\d{2}\.\d{2}\.\d{4} \d{2}:\d{2}` accepts exactly the 16-character strings with two digits, '.', two digits, '.', four digits, a space, two digits, ':', two digits |
| `Controllers.DateOfString` | src/main/java/com/ivanov/providerdbcreator/Controller.java:162-176 | a date is returned exactly when the string has the date shape and the strict parse accepts it; every failure is a `ParseException`, and a wrong shape is rejected before parsing |
| `Controllers.DatesOutcome` | src/main/java/com/ivanov/providerdbcreator/Controller.java:90-94 | the dates pass exactly when both parse and start <= end (equal dates pass); every failure is a `ParseException` |
| `Controllers.ParametersOutcome` | src/main/java/com/ivanov/providerdbcreator/Controller.java:70-95 | the parameters pass exactly when the count parses to at least 1 and the dates pass; an unparsable count gives `NumberFormatException` with the input; every failure is a `NumberFormatException` or a `ParseException` |
| `Controllers.Controller.SetParameters` | src/main/java/com/ivanov/providerdbcreator/Controller.java:70-95 | the connection fields are taken as given; an unparsable count throws `NumberFormatException` with the input; a count below 1 throws `NumberFormatException`; otherwise the dates decide (the outcome is `ParametersOutcome`); on success count >= 1, start <= end and the fields hold the parsed values; fields assigned before a failure keep their new values: with a valid count the start date is set once it has parsed and the end date once it has too, and the other date fields keep their old values |
| `Controllers.Controller.SetDates` | src/main/java/com/ivanov/providerdbcreator/Controller.java:88-94 | each date field is assigned once its string has parsed; the outcome is the dates' verdict |
| `Controllers.Controller.GetTimePoints` | src/main/java/com/ivanov/providerdbcreator/Controller.java:143-152 | the loop's result is the minute grid of [startDate, endDate) |
| `Controllers.Controller.GetUsersList` | src/main/java/com/ivanov/providerdbcreator/Controller.java:128-136 | exactly n new users for n >= 1 (none otherwise); the i-th carries the i-th identity and no traffic |
| `Controllers.BatchedSnoc` | src/main/java/com/ivanov/providerdbcreator/Controller.java:116-119 | the complete blocks of the users so far, followed by one more complete block, are the blocks of one more user |
| `Controllers.BatchedCount` | src/main/java/com/ivanov/providerdbcreator/Controller.java:116-119 | complete blocks for k users hold k times the grid's number of rows |
| `Controllers.RowsOfLoadedTraffic` | src/main/java/com/ivanov/providerdbcreator/Controller.java:116-118 | the rows made from a user's freshly loaded traffic lie on the grid; all of them form a complete block |
| `Controllers.LookupsSurvive` | src/main/java/com/ivanov/providerdbcreator/DBManager.java:159-164 | appending a user row keeps every earlier user's lookup |
| `Controllers.LookupsExtend` | src/main/java/com/ivanov/providerdbcreator/Controller.java:116-119 | the lookups of the first users, extended by the next user's |
| `Controllers.StoredUserStep` | src/main/java/com/ivanov/providerdbcreator/Controller.java:116-119 | one pass adds rows on the grid after the earlier ones, keeps earlier lookups, adds at most the user's own USERS row, and when it completes adds one whole block and resolves the user |
| `Controllers.AddedUsersStep` | src/main/java/com/ivanov/providerdbcreator/DBManager.java:147-167 | storing the next user appends at most one USERS row, with that user's key and only when the key had no row, so the added rows stay first of their key and come from the identities so far |
| `Controllers.AddedUsersWiden` | src/main/java/com/ivanov/providerdbcreator/Controller.java:116-119 | rows that come from the first n identities come from the first m >= n |
| `Controllers.AddedKeysDistinct` | src/main/java/com/ivanov/providerdbcreator/DBManager.java:147-167 | no two USERS rows added by a run carry the same key |
| `Controllers.AddedKeysWanted` | src/main/java/com/ivanov/providerdbcreator/Controller.java:116-119 | every USERS row added by a run carries one of the generated identities |
| `Controllers.AddedKeys` | src/main/java/com/ivanov/providerdbcreator/Controller.java:116-119 | the keys of the added rows, read as a sequence, repeat nothing and lie among the identities' keys |
| `Controllers.KeyAdded` | src/main/java/com/ivanov/providerdbcreator/DBManager.java:147-167 | a key that the `SELECT` finds after the run but not before it belongs to a row the run appended |
| `Controllers.WantedKeysAdded` | src/main/java/com/ivanov/providerdbcreator/Controller.java:116-119 | every resolved identity that had no row before the run has an added row |
| `Controllers.OneRowPerNewUser` | src/main/java/com/ivanov/providerdbcreator/Controller.java:116-119 | a run that resolved n users with pairwise different identities, none stored before, added exactly n USERS rows |
| `Controllers.LoadAndStore` | src/main/java/com/ivanov/providerdbcreator/Controller.java:117-118 | load the user's traffic over the minutes, then store it through `DBManager`; the invariant of the loop is extended by one user, including the frame on added USERS rows |
| `Controllers.StoreUsers` | src/main/java/com/ivanov/providerdbcreator/Controller.java:116-119 | users are stored once each, in list order, over the same minutes; the first exception ends the loop; the blocks of the users before it stay; every added USERS row is the first with its key and carries the identity of a user the loop reached (`AddedUsers`) |
| `Controllers.Controller.StoreTrafficPerMinute` | src/main/java/com/ivanov/providerdbcreator/Controller.java:109-120 | on success every user has one complete block of rows, one per minute, for users x minutes rows in total, and every user is found under its id; on failure fewer users are complete and the failing user's rows lie on the grid; each added USERS row is the first with its key and carries a generated identity of a user the run reached, and with pairwise different new identities a successful run adds exactly one USERS row per user; a database that never faults takes the whole run |
| `Servlets.FirstBlank` | src/main/java/com/ivanov/providerdbcreator/Servlet.java:111-129 | the first blank parameter of a list: it is blank and all before it are filled; None when all are filled |
| `Servlets.CheckReportsFirstBlank` | src/main/java/com/ivanov/providerdbcreator/Servlet.java:101-130 | the chain `CheckParameters` (checkAndSetParameters) reports the message of the first blank parameter in the order usersQuantity, startDate, endDate, hostName, portName, dbName, dbUserName, dbPassword, and `"succesful."` when none is blank |
| `Servlets.MessagesAreNotSuccess` | src/main/java/com/ivanov/providerdbcreator/Servlet.java:111-128 | no validation message equals `"succesful."` |
| `Servlets.CheckBlankFails` | src/main/java/com/ivanov/providerdbcreator/Servlet.java:111-126 | any blank parameter makes the check fail |
| `Servlets.CheckSucceedsIffFilled` | src/main/java/com/ivanov/providerdbcreator/Servlet.java:111-129 | the check returns `"succesful."` exactly when all eight parameters are present and non-empty |
| `Servlets.Position` | src/main/java/com/ivanov/providerdbcreator/Servlet.java:111-126 | every parameter has a place in the checking order |
| `Servlets.SameBlanksSameVerdict` | src/main/java/com/ivanov/providerdbcreator/Servlet.java:111-125 | the verdict depends only on which parameters are blank |
| `Servlets.NullIsEmpty` | src/main/java/com/ivanov/providerdbcreator/Servlet.java:111-125 | a missing parameter and an empty one give the same verdict |
| `Servlets.ResultSuccessIffPass` | src/main/java/com/ivanov/providerdbcreator/Servlet.java:63-82 | the result text `ResultFor` is the success text exactly when the controller threw nothing; otherwise it starts with `"Error: "` and the exception's `toString` (`Describe`: class name, `": "`, message) |
| `Servlets.ResultHints` | src/main/java/com/ivanov/providerdbcreator/Servlet.java:71-79 | in `ResultFor`, a `ParseException` is followed by the date-format hint, a `NumberFormatException` by the users-quantity hint, and the database exceptions by nothing |
| `Servlets.DoPost` | src/main/java/com/ivanov/providerdbcreator/Servlet.java:46-90 | the controller runs exactly when validation returned `"succesful."`; otherwise the result is `"Error: "` + the message and nothing changes; the run's outcome is `ParametersOutcome` when the parameters fail, with the database untouched; when they hold, the controller's fields are the parsed values, only database exceptions can follow, earlier traffic rows stay and added USERS rows are framed; the success text appears exactly when the run passed, and a passing run added count x minutes traffic rows (and one USERS row per user for new, pairwise different identities); with parameters that hold and a database that never faults the run passes |

## Left out

- JDBC and MySQL behaviour is replaced by the `Database` class. Left out are:
  connections and their closing; statement text; the `CREATED_TIME` column;
  the case-insensitive collation of string comparison; `VARCHAR` length
  limits and truncation; MySQL's implicit commit on DDL beyond "created tables
  stay"; and the serializable isolation level.
- The SQL text is built by concatenation without quoting. The model takes the
  column values as the store compares them, and a null field becomes the text
  `null`. Injection through a quote in a name is not modelled.
- The fault plan only covers the connection, each executed statement and
  commit. `setTransactionIsolation`, `setAutoCommit`, `rollback`, `close` and
  the preparation of statements never throw in the model. So an exception
  thrown by `rollback` itself, replacing the original one, is not modelled.
- Every `SQLException` carries one message, whichever class of the MySQL driver
  throws it. `Describe` prints it with the class name `java.sql.SQLException`,
  not the driver's subclass.
- `Integer.parseInt` and `SimpleDateFormat.parse` are injected. The model fixes
  only the message of a `NumberFormatException` for unparsable input and of a
  `ParseException` for an unparsable date. Lenient parsing is switched off in
  the source, so the injected parser stands for the strict one.
- `Math.random()` is an injected real in [0, 1). Rounding of the double
  product before the cast is not modelled.
- DataFactory identities are injected: the i-th user gets `identity(i)`. The
  seed computation in the `User` constructor is not modelled.
- `Controller.getInstance`, with its double-checked locking and volatile
  singleton, is not modelled. The servlet gets its controller as a parameter.
  Concurrent requests and races between two get-or-create calls are out of
  scope.
- `setRequestAttributes`, `forwardIt` and the JSP page are not modelled. The
  result string is the servlet's output.
- The request is a map from the eight form parameters to the first value of
  each. Other parameters are ignored.
- The `User` constructor leaves `traffic` null until `loadTraffic`. The model
  starts with an empty sequence, since nothing reads `traffic` before
  `loadTraffic` replaces it.
- Getters (`getTraffic`, `getFirstName`, ...) are field reads.
  `getSQLFormatTime` is left out: minutes are stored as milliseconds, not as
  formatted text.
- `String.hashCode` is modelled over Dafny characters. Strings with characters
  outside the Basic Multilingual Plane, which Java hashes as two UTF-16 units,
  are not modelled.
- `Users.User.LoadTraffic`: requires the time points in strictly increasing
  order. That is how a `TreeSet` hands them over, and it is what makes each put
  into the `TreeMap` an append.
- `Dao.UserDao.GetUserId` and `Manager.DBManager.GetUserId`: termination after
  one level rests on the in-memory store. There, an inserted row is always
  found by the next `SELECT`. A real server that truncates or re-collates the
  inserted text could miss it, and then the source recurses without bound.
- `Servlets.DoPost`: after a database exception it states only that earlier
  traffic rows stay and that added USERS rows are framed. The blocks written
  before the failure are stated by `Controllers.Controller.StoreTrafficPerMinute`,
  whose ghost results `DoPost` does not pass on.
- Long overflow of the millisecond arithmetic in `getTimePoints` is not
  modelled. The model's integers are unbounded, and dates accepted by the date
  shape lie far from the `long` range.
