/** The controller: converts the validated request parameters into a user
    count and an interval, cuts the interval into minutes, generates the
    users and hands each one's traffic to a DBManager. */
module Controllers {
  import opened Errors
  import opened Users
  import opened Storage
  import opened Manager

  /** One minute in milliseconds, the step of the time grid. */
  const MINUTE: int := 60_000

  /** The request parameters of the form; a request is a map from them to
      their text, and an absent parameter is one the request lacks. */
  datatype Param = UsersQuantity | StartDate | EndDate | HostName | PortName | DbName | DbUserName | DbPassword

  /** The parameters in the order the servlet checks them. */
  const PARAMETERS: seq<Param> :=
    [UsersQuantity, StartDate, EndDate, HostName, PortName, DbName, DbUserName, DbPassword]

  /** Every parameter setParameters reads is present in the request. */
  predicate HasAllParameters(parameters: map<Param, string>)
  {
    forall p: Param :: p in parameters
  }

  const QUANTITY_TOO_SMALL: string := "users quantity is less than 1"
  const START_AFTER_END: string := "start date goes after end date"

  // ---------------------------------------------------------------------
  // The time grid

  /** ceil((end - start) / MINUTE) for a non-empty interval, else 0. */
  function GridSize(start: int, end: int): nat
  {
    if start < end then (end - start + MINUTE - 1) / MINUTE else 0
  }

  /** The minutes of [start, end): start, start + MINUTE, ... while below
      end. */
  function MinuteGrid(start: int, end: int): (points: seq<int>)
    ensures |points| == GridSize(start, end)
  {
    seq(GridSize(start, end), i => start + i * MINUTE)
  }

  /** The count n = ceil(d / MINUTE) is the only n whose minutes overshoot
      d while the minutes before them do not. */
  lemma CeilIsUnique(d: int, n: int)
    requires d > 0 && n >= 1
    requires (n - 1) * MINUTE < d <= n * MINUTE
    ensures n == (d + MINUTE - 1) / MINUTE
  {
    var q := (d + MINUTE - 1) / MINUTE;
    var r := (d + MINUTE - 1) % MINUTE;
    assert d + MINUTE - 1 == q * MINUTE + r && 0 <= r < MINUTE;
  }

  /** The last grid point lies below the end. */
  lemma LastPointBelowEnd(start: int, end: int, i: int)
    requires start < end && 0 <= i < GridSize(start, end)
    ensures start + i * MINUTE < end
  {
    var d := end - start;
    var q := (d + MINUTE - 1) / MINUTE;
    var r := (d + MINUTE - 1) % MINUTE;
    assert d + MINUTE - 1 == q * MINUTE + r && 0 <= r < MINUTE;
    assert i * MINUTE <= (q - 1) * MINUTE;
  }

  /** What the TreeSet of minutes promises: every point in [start, end),
      the first one is start, neighbours are a minute apart, so the points
      strictly increase and repeat nothing; the grid is empty exactly when
      the interval is. */
  lemma MinuteGridProperties(start: int, end: int)
    ensures forall p :: p in MinuteGrid(start, end) ==> start <= p < end
    ensures forall i :: 0 < i < |MinuteGrid(start, end)| ==>
              MinuteGrid(start, end)[i] - MinuteGrid(start, end)[i - 1] == MINUTE
    ensures StrictlyIncreasing(MinuteGrid(start, end))
    ensures start < end ==> |MinuteGrid(start, end)| > 0 && MinuteGrid(start, end)[0] == start
    ensures MinuteGrid(start, end) == [] <==> end <= start
  {
    var g := MinuteGrid(start, end);
    forall p | p in g
      ensures start <= p < end
    {
      var i :| 0 <= i < |g| && g[i] == p;
      LastPointBelowEnd(start, end, i);
    }
    forall i, j | 0 <= i < j < |g|
      ensures g[i] < g[j]
    {
      assert g[j] - g[i] == (j - i) * MINUTE;
    }
    if start < end {
      assert (end - start + MINUTE - 1) / MINUTE >= 1;
    }
  }

  /** An interval of k whole minutes has k grid points. */
  lemma WholeMinutes(start: int, k: nat)
    ensures GridSize(start, start + k * MINUTE) == k
  {
    if k > 0 {
      CeilIsUnique(k * MINUTE, k);
    }
  }

  // ---------------------------------------------------------------------
  // The date shape check

  /** A piece of the date regular expression: \d{n} or one literal
      character. */
  datatype Token = Digits(count: nat) | Literal(c: char)

  /** \d{2}\.\d{2}\.\d{4} \d{2}:\d{2} */
  const DATE_REGEX: seq<Token> :=
    [Digits(2), Literal('.'), Digits(2), Literal('.'), Digits(4), Literal(' '), Digits(2), Literal(':'), Digits(2)]

  /** \d matches only ASCII digits. */
  predicate IsDigit(c: char)
  {
    '0' <= c <= '9'
  }

  function TokenLength(t: Token): nat
  {
    match t
    case Digits(n) => n
    case Literal(_) => 1
  }

  predicate TokenMatches(t: Token, s: string)
  {
    |s| == TokenLength(t) &&
    match t
    case Digits(_) => forall i :: 0 <= i < |s| ==> IsDigit(s[i])
    case Literal(c) => s[0] == c
  }

  /** String.matches: the whole string is consumed by the tokens in
      order. */
  predicate RegexMatches(s: string, tokens: seq<Token>)
    decreases |tokens|
  {
    if tokens == [] then s == []
    else
      var n := TokenLength(tokens[0]);
      n <= |s| && TokenMatches(tokens[0], s[..n]) && RegexMatches(s[n..], tokens[1..])
  }

  predicate MatchesDateFormat(s: string)
  {
    RegexMatches(s, DATE_REGEX)
  }

  /** What one character position of a pattern accepts. */
  datatype CharClass = AnyDigit | Exactly(c: char)

  predicate ClassAccepts(k: CharClass, c: char)
  {
    match k
    case AnyDigit => IsDigit(c)
    case Exactly(e) => c == e
  }

  /** The positions one token stands for. */
  function Positions(t: Token): (p: seq<CharClass>)
    ensures |p| == TokenLength(t)
  {
    match t
    case Digits(n) => seq(n, _ => AnyDigit)
    case Literal(c) => [Exactly(c)]
  }

  /** A token accepts a string's first characters exactly when its
      positions accept them one character at a time. */
  lemma TokenMatchesPrefix(t: Token, s: string)
    requires TokenLength(t) <= |s|
    ensures TokenMatches(t, s[..TokenLength(t)]) <==>
              forall i :: 0 <= i < TokenLength(t) ==> ClassAccepts(Positions(t)[i], s[i])
  {
    assert forall i :: 0 <= i < TokenLength(t) ==> s[..TokenLength(t)][i] == s[i];
  }

  /** The tokens spelled out one character position at a time. */
  function Expand(tokens: seq<Token>): seq<CharClass>
    decreases |tokens|
  {
    if tokens == [] then [] else Positions(tokens[0]) + Expand(tokens[1..])
  }

  /** A string matches a token sequence exactly when it has one character
      per expanded position and each character is accepted there. */
  lemma {:induction false} RegexMatchesExpanded(s: string, tokens: seq<Token>)
    ensures RegexMatches(s, tokens) <==>
              |s| == |Expand(tokens)| && forall i :: 0 <= i < |s| ==> ClassAccepts(Expand(tokens)[i], s[i])
    decreases |tokens|
  {
    if tokens != [] {
      var t, rest := tokens[0], tokens[1..];
      var n := TokenLength(t);
      var head := Positions(t);
      var e := Expand(tokens);
      assert e == head + Expand(rest);
      assert |head| == n;
      if n <= |s| {
        RegexMatchesExpanded(s[n..], rest);
        TokenMatchesPrefix(t, s);
        if RegexMatches(s, tokens) {
          forall i | 0 <= i < |s|
            ensures ClassAccepts(e[i], s[i])
          {
            if i >= n {
              assert s[n..][i - n] == s[i];
            }
          }
        }
        if |s| == |e| && forall i :: 0 <= i < |s| ==> ClassAccepts(e[i], s[i]) {
          forall i | 0 <= i < |s| - n
            ensures ClassAccepts(Expand(rest)[i], s[n..][i])
          {
            assert e[n + i] == Expand(rest)[i];
          }
        }
      } else {
        assert |e| >= n;
      }
    }
  }

  /** What position i of the date shape accepts. */
  function DateClass(i: int): CharClass
  {
    if i == 2 || i == 5 then Exactly('.')
    else if i == 10 then Exactly(' ')
    else if i == 13 then Exactly(':')
    else AnyDigit
  }

  /** The date shape position by position: sixteen characters, two digits,
      '.', two digits, '.', four digits, a space, two digits, ':', two
      digits. */
  predicate HasDateShape(s: string)
  {
    |s| == 16 && forall i :: 0 <= i < 16 ==> ClassAccepts(DateClass(i), s[i])
  }

  /** Where each token of the date expression starts, and (last) the
      length of the whole shape. */
  const DATE_OFFSETS: seq<nat> := [0, 2, 3, 5, 6, 10, 11, 13, 14, 16]

  /** The tokens of the date expression from the k-th on spell out the
      shape from the k-th offset on. */
  lemma {:induction false} DateRegexSuffix(k: nat)
    requires k <= 9
    ensures |Expand(DATE_REGEX[k..])| == 16 - DATE_OFFSETS[k]
    ensures forall i :: 0 <= i < |Expand(DATE_REGEX[k..])| ==>
              Expand(DATE_REGEX[k..])[i] == DateClass(DATE_OFFSETS[k] + i)
    decreases 9 - k
  {
    if k < 9 {
      DateRegexSuffix(k + 1);
      var R := DATE_REGEX;
      assert R[k..][1..] == R[k + 1..];
      var head, rest := Positions(R[k]), Expand(R[k + 1..]);
      assert Expand(R[k..]) == head + rest;
      DateToken(k);
    }
  }

  /** The k-th token of the date expression fills the shape between the
      k-th and the next offset. */
  lemma DateToken(k: nat)
    requires k < 9
    ensures |Positions(DATE_REGEX[k])| == DATE_OFFSETS[k + 1] - DATE_OFFSETS[k]
    ensures forall i :: 0 <= i < |Positions(DATE_REGEX[k])| ==>
              Positions(DATE_REGEX[k])[i] == DateClass(DATE_OFFSETS[k] + i)
  {
  }

  /** The regular expression accepts exactly the strings of the date
      shape. */
  lemma DateFormatShape(s: string)
    ensures MatchesDateFormat(s) <==> HasDateShape(s)
  {
    DateRegexSuffix(0);
    assert DATE_REGEX[0..] == DATE_REGEX;
    ShapeOfTokens(s, DATE_REGEX);
  }

  /** Any token sequence that spells out the date shape position by
      position accepts exactly the strings of that shape. */
  lemma ShapeOfTokens(s: string, tokens: seq<Token>)
    requires |Expand(tokens)| == 16
    requires forall i :: 0 <= i < |Expand(tokens)| ==> Expand(tokens)[i] == DateClass(i)
    ensures RegexMatches(s, tokens) <==> HasDateShape(s)
  {
    RegexMatchesExpanded(s, tokens);
  }

  /** getDateByString: the shape check comes first, then the strict
      calendar parse, which is given. */
  function DateOfString(s: string, parseDate: string -> Option<int>): (r: Result<int>)
    ensures r.Ok? <==> HasDateShape(s) && parseDate(s).Some?
    ensures r.Ok? ==> r.value == parseDate(s).value
    ensures r.Err? ==> r.error.ParseException?
  {
    if !HasDateShape(s) then
      Err(ParseException("\"" + s + "\" date doesn't match the format"))
    else
      match parseDate(s)
      case None => Err(ParseException("Unparseable date: \"" + s + "\""))
      case Some(ms) => Ok(ms)
  }

  /** The message Integer.parseInt puts in its NumberFormatException. */
  function ForInputString(s: string): string
  {
    "For input string: \"" + s + "\""
  }

  // ---------------------------------------------------------------------
  // Stored traffic, user by user

  /** Rows whose i-th row is the i-th minute of the grid, with a load in
      range. */
  ghost predicate OnGrid(rows: seq<TrafficRow>, points: seq<int>)
  {
    |rows| <= |points| &&
    forall i :: 0 <= i < |rows| ==> rows[i].minute == points[i] && 0 <= rows[i].loadedBytes < MAX_LOAD
  }

  /** One user's complete traffic: a row per grid minute, all for one id. */
  ghost predicate IsBlock(rows: seq<TrafficRow>, points: seq<int>, id: nat)
  {
    |rows| == |points| && OnGrid(rows, points) && forall i :: 0 <= i < |rows| ==> rows[i].userId == id
  }

  /** Consecutive complete blocks, one per id, in order. */
  ghost predicate Batched(rows: seq<TrafficRow>, points: seq<int>, ids: seq<nat>)
    decreases |ids|
  {
    if ids == [] then rows == []
    else |rows| >= |points| && IsBlock(rows[..|points|], points, ids[0])
         && Batched(rows[|points|..], points, ids[1..])
  }

  lemma {:induction false} BatchedSnoc(rows: seq<TrafficRow>, block: seq<TrafficRow>, points: seq<int>, ids: seq<nat>, id: nat)
    requires Batched(rows, points, ids) && IsBlock(block, points, id)
    ensures Batched(rows + block, points, ids + [id])
    decreases |ids|
  {
    if ids == [] {
      assert rows + block == block;
      assert block[..|points|] == block && block[|points|..] == [];
      assert (ids + [id])[1..] == [];
    } else {
      var n := |points|;
      assert (rows + block)[..n] == rows[..n];
      assert (rows + block)[n..] == rows[n..] + block;
      assert (ids + [id])[1..] == ids[1..] + [id];
      BatchedSnoc(rows[n..], block, points, ids[1..], id);
    }
  }

  /** Complete blocks for k users hold k times the grid's rows. */
  lemma {:induction false} BatchedCount(rows: seq<TrafficRow>, points: seq<int>, ids: seq<nat>)
    requires Batched(rows, points, ids)
    ensures |rows| == |ids| * |points|
    decreases |ids|
  {
    if ids != [] {
      BatchedCount(rows[|points|..], points, ids[1..]);
      assert |ids| * |points| == |points| + (|ids| - 1) * |points|;
    }
  }

  /** The loaded traffic of a user turned into rows lies on the grid; all
      of it makes a complete block. */
  lemma RowsOfLoadedTraffic(entries: seq<Entry>, points: seq<int>, id: nat, first: nat, w: nat)
    requires |entries| == |points| && w <= |entries|
    requires forall i :: 0 <= i < |entries| ==> entries[i].minute == points[i] && 0 <= entries[i].load < MAX_LOAD
    ensures OnGrid(TrafficRows(entries[..w], id, first), points)
    ensures w == |entries| ==> IsBlock(TrafficRows(entries[..w], id, first), points, id)
  {
  }

  /** The j-th generated identity is found in the users table under the
      j-th id. */
  ghost predicate Resolved(users: seq<UserRow>, identity: nat -> NaturalKey, ids: seq<nat>)
  {
    forall j :: 0 <= j < |ids| ==> FindUser(users, KeyColumns(identity(j))) == Some(ids[j])
  }

  /** Appending a user row keeps every earlier lookup's answer. */
  lemma LookupsSurvive(before: seq<UserRow>, after: seq<UserRow>, row: UserRow,
                       identity: nat -> NaturalKey, ids: seq<nat>)
    requires after == before || after == before + [row]
    requires Resolved(before, identity, ids)
    ensures Resolved(after, identity, ids)
  {
    forall j | 0 <= j < |ids|
      ensures FindUser(after, KeyColumns(identity(j))) == Some(ids[j])
    {
      FindUserAppend(before, [row], KeyColumns(identity(j)));
    }
  }

  /** The lookups of the first users extended by the next one's. */
  lemma LookupsExtend(users: seq<UserRow>, identity: nat -> NaturalKey, ids: seq<nat>, id: nat)
    requires Resolved(users, identity, ids)
    requires FindUser(users, KeyColumns(identity(|ids|))) == Some(id)
    ensures Resolved(users, identity, ids + [id])
  {
  }

  /** The USERS rows a run appended after before: every one is the first
      row with its key, so none repeats an earlier row's key, and that key
      is one of the first n generated identities. */
  ghost predicate AddedUsers(before: seq<UserRow>, after: seq<UserRow>, identity: nat -> NaturalKey, n: nat)
  {
    && |before| <= |after| && after[..|before|] == before
    && forall i :: |before| <= i < |after| ==>
         FindUser(after[..i], after[i].key).None?
         && exists j :: 0 <= j < n && after[i].key == KeyColumns(identity(j))
  }

  /** A bound on the identities the added rows come from may be raised. */
  lemma AddedUsersWiden(before: seq<UserRow>, after: seq<UserRow>, identity: nat -> NaturalKey, n: nat, m: nat)
    requires AddedUsers(before, after, identity, n) && n <= m
    ensures AddedUsers(before, after, identity, m)
  {
    forall i | |before| <= i < |after|
      ensures exists j :: 0 <= j < m && after[i].key == KeyColumns(identity(j))
    {
      var j :| 0 <= j < n && after[i].key == KeyColumns(identity(j));
    }
  }

  /** Storing the n-th user appends at most its own row, and only when its
      key had none. */
  lemma AddedUsersStep(base: seq<UserRow>, before: seq<UserRow>, after: seq<UserRow>, row: UserRow,
                       identity: nat -> NaturalKey, n: nat)
    requires AddedUsers(base, before, identity, n)
    requires after == before || (FindUser(before, row.key).None? && after == before + [row])
    requires row.key == KeyColumns(identity(n))
    ensures AddedUsers(base, after, identity, n + 1)
  {
    if after != before {
      assert after[..|before|] == before;
      assert after[..|base|] == before[..|base|];
      forall i | |base| <= i < |after|
        ensures FindUser(after[..i], after[i].key).None?
        ensures exists j :: 0 <= j < n + 1 && after[i].key == KeyColumns(identity(j))
      {
        if i < |before| {
          assert after[..i] == before[..i] && after[i] == before[i];
          var j :| 0 <= j < n && before[i].key == KeyColumns(identity(j));
        } else {
          assert after[..i] == before && after[i] == row;
        }
      }
    }
  }

  /** A sequence without repeats has as many distinct elements as
      entries. */
  lemma {:induction false} DistinctElements<T>(s: seq<T>)
    requires forall i, j :: 0 <= i < j < |s| ==> s[i] != s[j]
    ensures |set x | x in s| == |s|
    decreases |s|
  {
    if s != [] {
      var init := s[..|s| - 1];
      DistinctElements(init);
      assert (set x | x in s) == (set x | x in init) + {s[|s| - 1]};
      assert s[|s| - 1] !in init;
    }
  }

  /** The first n generated identities have pairwise different key columns
      and none of them has a row in users. */
  ghost predicate NewIdentities(users: seq<UserRow>, identity: nat -> NaturalKey, n: nat)
  {
    && (forall j, k :: 0 <= j < k < n ==> KeyColumns(identity(j)) != KeyColumns(identity(k)))
    && (forall j :: 0 <= j < n ==> FindUser(users, KeyColumns(identity(j))).None?)
  }

  /** The keys of the rows from position b on. */
  function KeysFrom(rows: seq<UserRow>, b: nat): (keys: seq<UserKey>)
    requires b <= |rows|
    ensures |keys| == |rows| - b && forall i :: 0 <= i < |keys| ==> keys[i] == rows[b + i].key
  {
    seq(|rows| - b, i requires 0 <= i < |rows| - b => rows[b + i].key)
  }

  /** The key columns of the first n generated identities. */
  function IdentityKeys(identity: nat -> NaturalKey, n: nat): (keys: seq<UserKey>)
    ensures |keys| == n && forall j :: 0 <= j < n ==> keys[j] == KeyColumns(identity(j))
  {
    seq(n, j requires 0 <= j < n => KeyColumns(identity(j)))
  }

  /** Two sequences without repeats that hold the same elements are
      equally long. */
  lemma SameElementsSameLength<T>(a: seq<T>, b: seq<T>)
    requires forall i, j :: 0 <= i < j < |a| ==> a[i] != a[j]
    requires forall i, j :: 0 <= i < j < |b| ==> b[i] != b[j]
    requires forall x :: x in a ==> x in b
    requires forall x :: x in b ==> x in a
    ensures |a| == |b|
  {
    DistinctElements(a);
    DistinctElements(b);
    assert (set x | x in a) == (set x | x in b);
  }

  /** The rows a run appended carry pairwise different keys. */
  lemma AddedKeysDistinct(before: seq<UserRow>, after: seq<UserRow>, identity: nat -> NaturalKey, n: nat)
    requires AddedUsers(before, after, identity, n)
    ensures forall i, k :: |before| <= i < k < |after| ==> after[i].key != after[k].key
  {
    forall i, k | |before| <= i < k < |after|
      ensures after[i].key != after[k].key
    {
      assert FindUser(after[..k], after[k].key).None?;
      assert after[..k][i] == after[i];
    }
  }

  /** The key of every row a run appended is one of the identities'. */
  lemma AddedKeysWanted(before: seq<UserRow>, after: seq<UserRow>, identity: nat -> NaturalKey, n: nat)
    requires AddedUsers(before, after, identity, n)
    ensures forall i :: |before| <= i < |after| ==> after[i].key in IdentityKeys(identity, n)
  {
    var wanted := IdentityKeys(identity, n);
    forall i | |before| <= i < |after|
      ensures after[i].key in wanted
    {
      var j :| 0 <= j < n && after[i].key == KeyColumns(identity(j));
      assert wanted[j] == after[i].key;
    }
  }

  /** Rows from position b on with pairwise different keys, each one of the
      identities', give a key sequence without repeats inside the
      identities' keys. */
  lemma AddedKeys(after: seq<UserRow>, b: nat, identity: nat -> NaturalKey, n: nat)
    requires b <= |after|
    requires forall i, k :: b <= i < k < |after| ==> after[i].key != after[k].key
    requires forall i :: b <= i < |after| ==> after[i].key in IdentityKeys(identity, n)
    ensures var added := KeysFrom(after, b);
            (forall i, k :: 0 <= i < k < |added| ==> added[i] != added[k])
            && forall x :: x in added ==> x in IdentityKeys(identity, n)
  {
    var added := KeysFrom(after, b);
    forall i, k | 0 <= i < k < |added|
      ensures added[i] != added[k]
    {
      assert added[i] == after[b + i].key && added[k] == after[b + k].key;
    }
    forall x | x in added
      ensures x in IdentityKeys(identity, n)
    {
      var i :| 0 <= i < |added| && added[i] == x;
      assert after[b + i].key == x;
    }
  }

  /** A key found after a run but not before it is the key of an added
      row. */
  lemma KeyAdded(before: seq<UserRow>, after: seq<UserRow>, key: UserKey)
    requires |before| <= |after| && after[..|before|] == before
    requires FindUser(after, key).Some? && FindUser(before, key).None?
    ensures key in KeysFrom(after, |before|)
  {
    var b := |before|;
    var more := after[b..];
    assert after == before + more;
    FindUserAppend(before, more, key);
    var i :| 0 <= i < |more| && more[i] == UserRow(FindUser(more, key).value, key);
    assert KeysFrom(after, b)[i] == key;
  }

  /** Every resolved identity without an earlier row was appended. */
  lemma WantedKeysAdded(before: seq<UserRow>, after: seq<UserRow>, identity: nat -> NaturalKey, ids: seq<nat>)
    requires |before| <= |after| && after[..|before|] == before && Resolved(after, identity, ids)
    requires forall j :: 0 <= j < |ids| ==> FindUser(before, KeyColumns(identity(j))).None?
    ensures forall x :: x in IdentityKeys(identity, |ids|) ==> x in KeysFrom(after, |before|)
  {
    var wanted := IdentityKeys(identity, |ids|);
    forall x | x in wanted
      ensures x in KeysFrom(after, |before|)
    {
      var j :| 0 <= j < |ids| && wanted[j] == x;
      KeyAdded(before, after, x);
    }
  }

  /** When the first users' identities are pairwise different and none had
      a row before, a run that resolved all of them appended exactly one
      USERS row per user. */
  lemma OneRowPerNewUser(before: seq<UserRow>, after: seq<UserRow>, identity: nat -> NaturalKey, ids: seq<nat>)
    requires AddedUsers(before, after, identity, |ids|) && Resolved(after, identity, ids)
    requires NewIdentities(before, identity, |ids|)
    ensures |after| == |before| + |ids|
  {
    var added, wanted := KeysFrom(after, |before|), IdentityKeys(identity, |ids|);
    AddedKeysDistinct(before, after, identity, |ids|);
    AddedKeysWanted(before, after, identity, |ids|);
    AddedKeys(after, |before|, identity, |ids|);
    WantedKeysAdded(before, after, identity, ids);
    SameElementsSameLength(added, wanted);
  }

  function UsersCount(n: int): nat
  {
    if n < 1 then 0 else n
  }

  /** The verdict on the two date parameters: the first date's failure,
      else the second's, else a complaint when the start follows the end. */
  function DatesOutcome(startText: string, endText: string, parseDate: string -> Option<int>): (o: Outcome)
    ensures o.Pass? <==> DateOfString(startText, parseDate).Ok? && DateOfString(endText, parseDate).Ok?
                         && DateOfString(startText, parseDate).value <= DateOfString(endText, parseDate).value
    ensures o.Fail? ==> o.error.ParseException?
  {
    match DateOfString(startText, parseDate)
    case Err(e) => Fail(e)
    case Ok(start) =>
      match DateOfString(endText, parseDate)
      case Err(e) => Fail(e)
      case Ok(end) => if start > end then Fail(ParseException(START_AFTER_END)) else Pass
  }

  /** The verdict of setParameters on a request: an unparsable count, then
      a count below 1, then the dates. */
  function ParametersOutcome(parameters: map<Param, string>, parseInt: string -> Option<int>,
                             parseDate: string -> Option<int>): (o: Outcome)
    requires HasAllParameters(parameters)
    ensures o.Pass? <==> parseInt(parameters[UsersQuantity]).Some? && parseInt(parameters[UsersQuantity]).value >= 1
                         && DatesOutcome(parameters[StartDate], parameters[EndDate], parseDate).Pass?
    ensures parseInt(parameters[UsersQuantity]).None? ==>
              o == Fail(NumberFormatException(ForInputString(parameters[UsersQuantity])))
    ensures o.Fail? ==> o.error.NumberFormatException? || o.error.ParseException?
  {
    match parseInt(parameters[UsersQuantity])
    case None => Fail(NumberFormatException(ForInputString(parameters[UsersQuantity])))
    case Some(n) =>
      if n < 1 then Fail(NumberFormatException(QUANTITY_TOO_SMALL))
      else DatesOutcome(parameters[StartDate], parameters[EndDate], parseDate)
  }

  class Controller {
    var usersQuantity: int
    var startDate: int
    var endDate: int
    var hostName: string
    var portName: string
    var dbName: string
    var dbUserName: string
    var dbPassword: string

    constructor ()
      ensures usersQuantity == 0 && startDate == 0 && endDate == 0
    {
      usersQuantity, startDate, endDate := 0, 0, 0;
      hostName, portName, dbName, dbUserName, dbPassword := "", "", "", "", "";
    }

    /** Takes the connection parameters as given, then parses the user
        count (at least 1) and the two dates (start not after end). Each
        field is assigned as soon as its value is known, so a failing call
        leaves the fields assigned before the failure. */
    method SetParameters(parameters: map<Param, string>, parseInt: string -> Option<int>,
                         parseDate: string -> Option<int>) returns (o: Outcome)
      requires HasAllParameters(parameters)
      modifies this
      ensures o == ParametersOutcome(parameters, parseInt, parseDate)
      ensures hostName == parameters[HostName] && portName == parameters[PortName]
      ensures dbName == parameters[DbName] && dbUserName == parameters[DbUserName]
      ensures dbPassword == parameters[DbPassword]
      ensures parseInt(parameters[UsersQuantity]).None? ==>
                o == Fail(NumberFormatException(ForInputString(parameters[UsersQuantity])))
                && usersQuantity == old(usersQuantity) && startDate == old(startDate) && endDate == old(endDate)
      ensures parseInt(parameters[UsersQuantity]).Some? ==>
                usersQuantity == parseInt(parameters[UsersQuantity]).value
      ensures parseInt(parameters[UsersQuantity]).Some? && usersQuantity < 1 ==>
                o == Fail(NumberFormatException(QUANTITY_TOO_SMALL))
                && startDate == old(startDate) && endDate == old(endDate)
      ensures parseInt(parameters[UsersQuantity]).Some? && usersQuantity >= 1 ==>
                o == DatesOutcome(parameters[StartDate], parameters[EndDate], parseDate)
      // with a valid count, each date field is assigned once its text has parsed
      ensures parseInt(parameters[UsersQuantity]).Some? && usersQuantity >= 1 ==>
                if DateOfString(parameters[StartDate], parseDate).Err? then
                  startDate == old(startDate) && endDate == old(endDate)
                else
                  startDate == DateOfString(parameters[StartDate], parseDate).value
                  && endDate == (if DateOfString(parameters[EndDate], parseDate).Err? then old(endDate)
                                 else DateOfString(parameters[EndDate], parseDate).value)
      ensures o.Pass? ==> usersQuantity >= 1 && startDate <= endDate
                          && startDate == DateOfString(parameters[StartDate], parseDate).value
                          && endDate == DateOfString(parameters[EndDate], parseDate).value
    {
      hostName := parameters[HostName];
      portName := parameters[PortName];
      dbName := parameters[DbName];
      dbUserName := parameters[DbUserName];
      dbPassword := parameters[DbPassword];

      var quantityText := parameters[UsersQuantity];
      var startText := parameters[StartDate];
      var endText := parameters[EndDate];

      var quantity := parseInt(quantityText);
      if quantity.None? {
        return Fail(NumberFormatException(ForInputString(quantityText)));
      }
      usersQuantity := quantity.value;
      if usersQuantity < 1 {
        return Fail(NumberFormatException(QUANTITY_TOO_SMALL));
      }
      o := SetDates(startText, endText, parseDate);
    }

    /** The date half of setParameters: each date goes through the shape
        check and the strict parse, then the start may not follow the
        end. */
    method SetDates(startText: string, endText: string, parseDate: string -> Option<int>) returns (o: Outcome)
      modifies this`startDate, this`endDate
      ensures o == DatesOutcome(startText, endText, parseDate)
      ensures DateOfString(startText, parseDate).Err? ==> startDate == old(startDate) && endDate == old(endDate)
      ensures DateOfString(startText, parseDate).Ok? ==> startDate == DateOfString(startText, parseDate).value
      ensures DateOfString(startText, parseDate).Ok? && DateOfString(endText, parseDate).Err? ==>
                endDate == old(endDate)
      ensures DateOfString(startText, parseDate).Ok? && DateOfString(endText, parseDate).Ok? ==>
                endDate == DateOfString(endText, parseDate).value
      ensures o.Pass? ==> startDate <= endDate
    {
      var start := DateOfString(startText, parseDate);
      if start.Err? {
        return Fail(start.error);
      }
      startDate := start.value;
      var end := DateOfString(endText, parseDate);
      if end.Err? {
        return Fail(end.error);
      }
      endDate := end.value;
      if startDate > endDate {
        return Fail(ParseException(START_AFTER_END));
      }
      o := Pass;
    }

    /** The minutes from startDate up to endDate, in ascending order. */
    method GetTimePoints() returns (points: seq<int>)
      ensures points == MinuteGrid(startDate, endDate)
    {
      points := [];
      var current := startDate;
      while current < endDate
        invariant current == startDate + |points| * MINUTE
        invariant forall i :: 0 <= i < |points| ==> points[i] == startDate + i * MINUTE
        invariant |points| > 0 ==> current - MINUTE < endDate
        decreases endDate - current
      {
        points := points + [current];
        current := current + MINUTE;
      }
      if |points| > 0 {
        CeilIsUnique(endDate - startDate, |points|);
      }
    }

    /** A list of newUsersCount users, the i-th built from the i-th
        generated identity. */
    method GetUsersList(newUsersCount: int, identity: nat -> NaturalKey) returns (users: seq<User>)
      ensures |users| == UsersCount(newUsersCount)
      ensures forall i :: 0 <= i < |users| ==> fresh(users[i]) && users[i].Key() == identity(i) && users[i].traffic == []
    {
      users := [];
      var i := 0;
      while i < newUsersCount
        invariant 0 <= i <= UsersCount(newUsersCount) && |users| == i
        invariant forall k :: 0 <= k < i ==> fresh(users[k]) && users[k].Key() == identity(k) && users[k].traffic == []
      {
        var newUser := new User(identity(i));
        users := users + [newUser];
        i := i + 1;
      }
    }

    /** Opens a DBManager on the parameters, cuts the interval into
        minutes, generates the users and stores their traffic. The ghost
        results are the complete blocks of rows added, the ids of the users
        they belong to, and the rows of a user whose storing failed. */
    method StoreTrafficPerMinute(db: Database, identity: nat -> NaturalKey, draws: nat -> nat -> Unit)
      returns (o: Outcome, ghost stored: seq<TrafficRow>, ghost ids: seq<nat>, ghost partial: seq<TrafficRow>)
      modifies db`failAfter, db`usersTable, db`trafficTable, db`usersCreates, db`trafficCreates
      modifies db`users, db`nextUserId, db`traffic, db`nextRecordId
      ensures o.Fail? ==> o.error.SqlException? || o.error.ClassNotFoundException?
      ensures db.traffic == old(db.traffic) + (stored + partial)
      ensures Batched(stored, MinuteGrid(startDate, endDate), ids) && OnGrid(partial, MinuteGrid(startDate, endDate))
      ensures o.Pass? ==> |ids| == UsersCount(usersQuantity) && partial == []
      ensures o.Pass? ==> |db.traffic| == |old(db.traffic)| + UsersCount(usersQuantity) * GridSize(startDate, endDate)
      ensures o.Fail? ==> |ids| < UsersCount(usersQuantity)
      ensures Resolved(db.users, identity, ids)
      ensures AddedUsers(old(db.users), db.users, identity, if o.Pass? then |ids| else |ids| + 1)
      ensures old(db.driverPresent) && old(db.failAfter).None? ==> o.Pass?
      ensures o.Pass? && NewIdentities(old(db.users), identity, UsersCount(usersQuantity)) ==>
                |db.users| == |old(db.users)| + UsersCount(usersQuantity)
    {
      var manager := new DBManager(hostName, portName, dbName, dbUserName, dbPassword, db);
      var points := GetTimePoints();
      assert StrictlyIncreasing(points) by { MinuteGridProperties(startDate, endDate); }
      var users := GetUsersList(usersQuantity, identity);
      o, stored, ids, partial := StoreUsers(manager, users, points, identity, draws);
      BatchedCount(stored, points, ids);
      if o.Pass? && NewIdentities(old(db.users), identity, |ids|) {
        OneRowPerNewUser(old(db.users), db.users, identity, ids);
      }
    }
  }

  /** One pass of the loop of storeTrafficPerMinute: load the user's
      traffic over the minutes, then store it. The ghost parameters carry
      what the passes before established: the table held base followed by
      the complete blocks stored for the users with ids ids. The ghost
      results are the traffic rows added and the id they carry. */
  method LoadAndStore(manager: DBManager, user: User, points: seq<int>, draw: nat -> Unit,
                      ghost base: seq<TrafficRow>, ghost stored: seq<TrafficRow>, ghost ids: seq<nat>,
                      ghost identity: nat -> NaturalKey, ghost usersBase: seq<UserRow>)
    returns (o: Outcome, ghost added: seq<TrafficRow>, ghost id: nat)
    requires manager.Valid() && StrictlyIncreasing(points)
    requires manager.db.traffic == base + stored && Batched(stored, points, ids)
    requires Resolved(manager.db.users, identity, ids) && user.Key() == identity(|ids|)
    requires AddedUsers(usersBase, manager.db.users, identity, |ids|)
    modifies user`traffic
    modifies manager`isNotCreatedUsersTable, manager`isNotCreatedTrafficTable
    modifies manager.db`failAfter, manager.db`usersTable, manager.db`trafficTable
    modifies manager.db`usersCreates, manager.db`trafficCreates
    modifies manager.db`users, manager.db`nextUserId, manager.db`traffic, manager.db`nextRecordId
    ensures manager.Valid()
    ensures o.Fail? ==> o.error.SqlException? || o.error.ClassNotFoundException?
    ensures manager.db.traffic == base + (stored + added)
    ensures OnGrid(added, points) && Resolved(manager.db.users, identity, ids)
    ensures AddedUsers(usersBase, manager.db.users, identity, |ids| + 1)
    ensures o.Pass? ==> Batched(stored + added, points, ids + [id])
                        && Resolved(manager.db.users, identity, ids + [id])
    ensures old(manager.db.driverPresent) && old(manager.db.failAfter).None? ==>
              o.Pass? && manager.db.failAfter.None?
  {
    var loaded := user.LoadTraffic(points, draw);
    ghost var usersBefore := manager.db.users;
    ghost var row := UserRow(manager.db.nextUserId, KeyOf(user));
    ghost var first := manager.db.nextRecordId;
    ghost var written;
    o, id, written, added := manager.StoreUserTraffic(user);
    StoredUserStep(base, stored, added, ids, points, id, loaded, first, written, o.Pass?,
                   usersBefore, manager.db.users, row, identity, usersBase);
  }

  /** What one pass adds to the invariant of the loop, stated on values: the
      rows added for the user lie on the grid and follow the earlier ones;
      lookups of earlier users keep their ids; a pass that completes adds a
      whole block and resolves the user. */
  lemma StoredUserStep(base: seq<TrafficRow>, stored: seq<TrafficRow>, added: seq<TrafficRow>, ids: seq<nat>,
                       points: seq<int>, id: nat, entries: seq<Entry>, first: nat, written: nat, pass: bool,
                       usersBefore: seq<UserRow>, usersAfter: seq<UserRow>, row: UserRow,
                       identity: nat -> NaturalKey, usersBase: seq<UserRow>)
    requires Batched(stored, points, ids)
    requires |entries| == |points| && written <= |entries| && (pass ==> written == |entries|)
    requires forall i :: 0 <= i < |entries| ==> entries[i] == Entry(points[i], entries[i].load) && 0 <= entries[i].load < MAX_LOAD
    requires added == TrafficRows(entries[..written], id, first)
    requires Resolved(usersBefore, identity, ids)
    requires usersAfter == usersBefore || (FindUser(usersBefore, row.key).None? && usersAfter == usersBefore + [row])
    requires row.key == KeyColumns(identity(|ids|)) && AddedUsers(usersBase, usersBefore, identity, |ids|)
    requires pass ==> FindUser(usersAfter, KeyColumns(identity(|ids|))) == Some(id)
    ensures (base + stored) + added == base + (stored + added)
    ensures OnGrid(added, points) && Resolved(usersAfter, identity, ids)
    ensures AddedUsers(usersBase, usersAfter, identity, |ids| + 1)
    ensures pass ==> Batched(stored + added, points, ids + [id]) && Resolved(usersAfter, identity, ids + [id])
  {
    RowsOfLoadedTraffic(entries, points, id, first, written);
    LookupsSurvive(usersBefore, usersAfter, row, identity, ids);
    AddedUsersStep(usersBase, usersBefore, usersAfter, row, identity, |ids|);
    if pass {
      BatchedSnoc(stored, added, points, ids, id);
      LookupsExtend(usersAfter, identity, ids, id);
    }
  }

  /** The loop of storeTrafficPerMinute: user by user in list order, load
      the traffic over the minutes and store it. The first exception ends
      the loop; users stored before it stay stored. */
  method StoreUsers(manager: DBManager, users: seq<User>, points: seq<int>,
                    identity: nat -> NaturalKey, draws: nat -> nat -> Unit)
    returns (o: Outcome, ghost stored: seq<TrafficRow>, ghost ids: seq<nat>, ghost partial: seq<TrafficRow>)
    requires manager.Valid() && StrictlyIncreasing(points)
    requires forall j :: 0 <= j < |users| ==> users[j].Key() == identity(j)
    modifies set j | 0 <= j < |users| :: users[j]
    modifies manager`isNotCreatedUsersTable, manager`isNotCreatedTrafficTable
    modifies manager.db`failAfter, manager.db`usersTable, manager.db`trafficTable
    modifies manager.db`usersCreates, manager.db`trafficCreates
    modifies manager.db`users, manager.db`nextUserId, manager.db`traffic, manager.db`nextRecordId
    ensures o.Fail? ==> o.error.SqlException? || o.error.ClassNotFoundException?
    ensures manager.db.traffic == old(manager.db.traffic) + (stored + partial)
    ensures Batched(stored, points, ids) && OnGrid(partial, points)
    ensures o.Pass? ==> |ids| == |users| && partial == []
    ensures o.Fail? ==> |ids| < |users|
    ensures Resolved(manager.db.users, identity, ids)
    ensures AddedUsers(old(manager.db.users), manager.db.users, identity, if o.Pass? then |ids| else |ids| + 1)
    ensures old(manager.db.driverPresent) && old(manager.db.failAfter).None? ==> o.Pass?
  {
    var db := manager.db;
    ghost var base := db.traffic;
    ghost var usersBase := db.users;
    stored, ids, partial := [], [], [];
    o := Pass;
    var k := 0;
    while k < |users|
      invariant 0 <= k <= |users| && |ids| == k && o.Pass? && partial == []
      invariant manager.Valid()
      invariant db.traffic == base + (stored + partial)
      invariant Batched(stored, points, ids) && Resolved(db.users, identity, ids)
      invariant AddedUsers(usersBase, db.users, identity, |ids|)
      invariant db.driverPresent == old(db.driverPresent)
      invariant old(db.driverPresent) && old(db.failAfter).None? ==> db.failAfter.None?
    {
      ghost var added, id;
      o, added, id := LoadAndStore(manager, users[k], points, draws(k), base, stored, ids, identity, usersBase);
      if o.Fail? {
        partial := added;
        break;
      }
      stored, ids := stored + added, ids + [id];
      k := k + 1;
    }
  }
}
