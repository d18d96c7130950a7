/** The servlet behind the form: it checks that every parameter is filled
    in, hands the request to the controller, and turns the outcome (or the
    exception) into the one-line result shown on the page. */
module Servlets {
  import opened Errors
  import opened Users
  import opened Storage
  import opened Controllers

  /** The validation verdict that lets the request through, spelt as the
      servlet spells it. */
  const SUCCESSFUL: string := "succesful."

  const ERROR_PREFIX: string := "Error: "
  const SUCCESS_TEXT: string := "Last operation passed successfully!"
  const DATE_HINT: string := ". Can't parse date. Format example: 13.01.2012 01:57"
  const QUANTITY_HINT: string := ". Can't parse users quantity. Users quantity should be an integer and > 0."

  /** A parameter is blank when the request lacks it (getParameter gives
      null) or its text is empty. */
  predicate Blank(request: map<Param, string>, p: Param)
  {
    p !in request || request[p] == ""
  }

  /** The validation message naming a blank parameter. */
  function EmptyMessage(p: Param): string
  {
    match p
    case UsersQuantity => "users quantity is empty."
    case StartDate => "start date is empty."
    case EndDate => "end date is empty."
    case HostName => "host name is empty."
    case PortName => "port name is empty."
    case DbName => "DB/Schema name is empty."
    case DbUserName => "DB username is empty."
    case DbPassword => "DB password is empty."
  }

  /** checkAndSetParameters: the null-or-empty checks in their fixed order;
      the first blank parameter decides the message. */
  function CheckParameters(request: map<Param, string>): string
  {
    if Blank(request, UsersQuantity) then EmptyMessage(UsersQuantity)
    else if Blank(request, StartDate) then EmptyMessage(StartDate)
    else if Blank(request, EndDate) then EmptyMessage(EndDate)
    else if Blank(request, HostName) then EmptyMessage(HostName)
    else if Blank(request, PortName) then EmptyMessage(PortName)
    else if Blank(request, DbName) then EmptyMessage(DbName)
    else if Blank(request, DbUserName) then EmptyMessage(DbUserName)
    else if Blank(request, DbPassword) then EmptyMessage(DbPassword)
    else SUCCESSFUL
  }

  /** The first of the given parameters that is blank, found by walking the
      list: the reference the check chain is compared with. */
  function FirstBlank(request: map<Param, string>, order: seq<Param>): (r: Option<nat>)
    ensures r.Some? ==> r.value < |order| && Blank(request, order[r.value])
                        && forall j :: 0 <= j < r.value ==> !Blank(request, order[j])
    ensures r.None? ==> forall j :: 0 <= j < |order| ==> !Blank(request, order[j])
    decreases |order|
  {
    if order == [] then None
    else if Blank(request, order[0]) then Some(0)
    else
      match FirstBlank(request, order[1..])
      case None => None
      case Some(i) => Some(i + 1)
  }

  /** The check chain reports the first blank parameter in the order
      usersQuantity, startDate, endDate, hostName, portName, dbName,
      dbUserName, dbPassword, and lets the request through when there is
      none. */
  lemma CheckReportsFirstBlank(request: map<Param, string>)
    ensures CheckParameters(request) ==
              match FirstBlank(request, PARAMETERS)
              case None => SUCCESSFUL
              case Some(k) => EmptyMessage(PARAMETERS[k])
  {
    var P := PARAMETERS;
    var r := FirstBlank(request, P);
    var n := if r.Some? then r.value else 8;
    assert n <= 8;
    assert 0 < n ==> !Blank(request, UsersQuantity);
    assert 1 < n ==> !Blank(request, StartDate);
    assert 2 < n ==> !Blank(request, EndDate);
    assert 3 < n ==> !Blank(request, HostName);
    assert 4 < n ==> !Blank(request, PortName);
    assert 5 < n ==> !Blank(request, DbName);
    assert 6 < n ==> !Blank(request, DbUserName);
    assert 7 < n ==> !Blank(request, DbPassword);
    if r.Some? {
      assert Blank(request, P[n]);
    }
  }

  /** No validation message reads like the success verdict. */
  lemma MessagesAreNotSuccess(p: Param)
    ensures EmptyMessage(p) != SUCCESSFUL
  {
    assert EmptyMessage(p)[0] != SUCCESSFUL[0] || EmptyMessage(p)[1] != SUCCESSFUL[1];
  }

  /** The request passes exactly when all eight parameters are present and
      non-empty. */
  lemma CheckSucceedsIffFilled(request: map<Param, string>)
    ensures CheckParameters(request) == SUCCESSFUL <==> forall p: Param :: !Blank(request, p)
  {
    if CheckParameters(request) == SUCCESSFUL {
      forall p: Param
        ensures !Blank(request, p)
      {
        if Blank(request, p) {
          CheckBlankFails(request, p);
        }
      }
    }
  }

  lemma CheckBlankFails(request: map<Param, string>, p: Param)
    requires Blank(request, p)
    ensures CheckParameters(request) != SUCCESSFUL
  {
    CheckReportsFirstBlank(request);
    var k := Position(p);
    assert !(!Blank(request, PARAMETERS[k]));
    assert FirstBlank(request, PARAMETERS).Some?;
    MessagesAreNotSuccess(PARAMETERS[FirstBlank(request, PARAMETERS).value]);
  }

  /** Where a parameter stands in the checking order. */
  function Position(p: Param): (k: nat)
    ensures k < |PARAMETERS| && PARAMETERS[k] == p
  {
    match p
    case UsersQuantity => 0
    case StartDate => 1
    case EndDate => 2
    case HostName => 3
    case PortName => 4
    case DbName => 5
    case DbUserName => 6
    case DbPassword => 7
  }

  /** The verdict depends only on which parameters are blank. */
  lemma SameBlanksSameVerdict(r1: map<Param, string>, r2: map<Param, string>)
    requires forall p: Param :: Blank(r1, p) == Blank(r2, p)
    ensures CheckParameters(r1) == CheckParameters(r2)
  {
  }

  /** A missing parameter and an empty one give the same verdict. */
  lemma NullIsEmpty(request: map<Param, string>, p: Param)
    ensures CheckParameters(request - {p}) == CheckParameters(request[p := ""])
  {
    SameBlanksSameVerdict(request - {p}, request[p := ""]);
  }

  /** The result text for the outcome of the controller: the success line,
      or "Error: " and the exception's toString, followed by a hint for a
      date or a user-count problem. */
  function ResultFor(o: Outcome): string
  {
    match o
    case Pass => SUCCESS_TEXT
    case Fail(e) =>
      match e
      case ParseException(_) => ERROR_PREFIX + Describe(e) + DATE_HINT
      case NumberFormatException(_) => ERROR_PREFIX + Describe(e) + QUANTITY_HINT
      case SqlException(_) => ERROR_PREFIX + Describe(e)
      case ClassNotFoundException(_) => ERROR_PREFIX + Describe(e)
  }

  /** Only a run without exception shows the success line; every failure
      shows "Error: " followed by the exception's toString. */
  lemma ResultSuccessIffPass(o: Outcome)
    ensures ResultFor(o) == SUCCESS_TEXT <==> o.Pass?
    ensures o.Fail? ==> |ResultFor(o)| >= |ERROR_PREFIX| + |Describe(o.error)|
                        && ResultFor(o)[..|ERROR_PREFIX|] == ERROR_PREFIX
                        && ResultFor(o)[|ERROR_PREFIX|..|ERROR_PREFIX| + |Describe(o.error)|] == Describe(o.error)
  {
    if o.Fail? {
      var r, d := ResultFor(o), Describe(o.error);
      var tail := r[|ERROR_PREFIX| + |d|..];
      assert r == ERROR_PREFIX + d + tail;
      assert r[0] == 'E' != SUCCESS_TEXT[0];
    }
  }

  /** The hint after the exception text names what to fix: the date format
      for a ParseException, the user count for a NumberFormatException, and
      nothing for the database exceptions. */
  lemma ResultHints(e: Failure)
    ensures var r := ResultFor(Fail(e));
            var n := |ERROR_PREFIX| + |Describe(e)|;
            |r| >= n
            && (e.ParseException? ==> r[n..] == DATE_HINT)
            && (e.NumberFormatException? ==> r[n..] == QUANTITY_HINT)
            && (e.SqlException? || e.ClassNotFoundException? ==> r[n..] == [])
  {
  }

  /** doPost: validate; on success give the request to the controller
      (setParameters, then storeTrafficPerMinute) and report its outcome,
      otherwise report the validation message. The ghost result is the
      outcome of the controller's run, None when it did not run. */
  method DoPost(request: map<Param, string>, controller: Controller, db: Database,
                parseInt: string -> Option<int>, parseDate: string -> Option<int>,
                identity: nat -> NaturalKey, draws: nat -> nat -> Unit)
    returns (result: string, ghost run: Option<Outcome>)
    modifies controller
    modifies db`failAfter, db`usersTable, db`trafficTable, db`usersCreates, db`trafficCreates
    modifies db`users, db`nextUserId, db`traffic, db`nextRecordId
    ensures run.Some? <==> CheckParameters(request) == SUCCESSFUL
    ensures run.None? ==> result == ERROR_PREFIX + CheckParameters(request)
                          && unchanged(controller) && unchanged(db)
    ensures run.Some? ==> result == ResultFor(run.value)
    ensures result == SUCCESS_TEXT <==> run == Some(Pass)
    // the controller's run: setParameters, then storeTrafficPerMinute when the parameters hold
    ensures run.Some? ==> HasAllParameters(request)
                          && controller.hostName == request[HostName] && controller.portName == request[PortName]
                          && controller.dbName == request[DbName] && controller.dbUserName == request[DbUserName]
                          && controller.dbPassword == request[DbPassword]
    ensures run.Some? && ParametersOutcome(request, parseInt, parseDate).Fail? ==>
              run == Some(ParametersOutcome(request, parseInt, parseDate)) && unchanged(db)
    ensures run.Some? && ParametersOutcome(request, parseInt, parseDate).Pass? ==>
              && controller.usersQuantity == parseInt(request[UsersQuantity]).value
              && controller.startDate == DateOfString(request[StartDate], parseDate).value
              && controller.endDate == DateOfString(request[EndDate], parseDate).value
              && (run.value.Fail? ==> run.value.error.SqlException? || run.value.error.ClassNotFoundException?)
              && |old(db.traffic)| <= |db.traffic| && db.traffic[..|old(db.traffic)|] == old(db.traffic)
              && AddedUsers(old(db.users), db.users, identity, controller.usersQuantity)
    ensures run == Some(Pass) ==> controller.usersQuantity >= 1 && controller.startDate <= controller.endDate
                                  && |db.traffic| == |old(db.traffic)| + controller.usersQuantity
                                                     * GridSize(controller.startDate, controller.endDate)
    ensures run == Some(Pass) && NewIdentities(old(db.users), identity, controller.usersQuantity) ==>
              |db.users| == |old(db.users)| + controller.usersQuantity
    ensures run.Some? && ParametersOutcome(request, parseInt, parseDate).Pass? &&
            old(db.driverPresent) && old(db.failAfter).None? ==>
              run == Some(Pass)
  {
    var validation := CheckParameters(request);
    if validation == SUCCESSFUL {
      CheckSucceedsIffFilled(request);
      forall p: Param
        ensures p in request
      {
        assert !Blank(request, p);
      }
      var o := controller.SetParameters(request, parseInt, parseDate);
      if o.Pass? {
        ghost var stored, ids, partial;
        o, stored, ids, partial := controller.StoreTrafficPerMinute(db, identity, draws);
        assert db.traffic[..|old(db.traffic)|] == old(db.traffic);
        AddedUsersWiden(old(db.users), db.users, identity, if o.Pass? then |ids| else |ids| + 1,
                        controller.usersQuantity);
      }
      result := ResultFor(o);
      ResultSuccessIffPass(o);
      run := Some(o);
    } else {
      result := ERROR_PREFIX + validation;
      run := None;
      assert result[0] == 'E' != SUCCESS_TEXT[0];
    }
  }
}
