/** A provider subscriber: four identity strings (the natural key) and a
    per-minute traffic history. Identity is fixed at construction; the
    traffic history is replaced by every LoadTraffic call. */
module Users {
  import opened Errors

  /** Upper bound (exclusive) of a generated per-minute load in bytes. */
  const MAX_LOAD: int := 100_000_000

  /** A value returned by Math.random(): a real in [0, 1). */
  type Unit = r: real | 0.0 <= r < 1.0

  /** The load the source derives from one random draw, the truncating
      cast (int) (r * 100_000_000); r is non-negative, so truncation is the
      floor. */
  function LoadFromDraw(r: Unit): (load: int)
    ensures 0 <= load < MAX_LOAD
  {
    (r * 100_000_000.0).Floor
  }

  /** One entry of the traffic map: a minute (epoch milliseconds) and the
      bytes loaded in that minute. */
  datatype Entry = Entry(minute: int, load: int)

  /** The identity strings of a subscriber; None stands for a null field. */
  datatype NaturalKey = NaturalKey(
    firstName: Option<string>,
    lastName: Option<string>,
    city: Option<string>,
    address: Option<string>)

  /** The iteration order of a TreeSet or of a TreeMap's keys. */
  ghost predicate StrictlyIncreasing(s: seq<int>)
  {
    forall i, j :: 0 <= i < j < |s| ==> s[i] < s[j]
  }

  // ---------------------------------------------------------------------
  // Java int arithmetic

  const TWO_31: int := 0x8000_0000
  const TWO_32: int := 0x1_0000_0000

  /** An int expression evaluated with Java's 32-bit two's-complement
      wrap-around. */
  function Int32(x: int): (r: int)
    ensures -TWO_31 <= r < TWO_31
    ensures (r - x) % TWO_32 == 0
  {
    (x + TWO_31) % TWO_32 - TWO_31
  }

  /** Wrapping in the middle of a step of the form a * h + c gives the
      same int as wrapping once at the end. */
  lemma Int32Step(a: int, x: int, c: int)
    ensures Int32(a * Int32(x) + c) == Int32(a * x + c)
  {
    var q := (x + TWO_31) / TWO_32;
    assert Int32(x) == x - TWO_32 * q;
    var z := a * x + c + TWO_31;
    var k := a * q;
    assert a * Int32(x) + c + TWO_31 == z - TWO_32 * k by {
      assert a * (x - TWO_32 * q) == a * x - TWO_32 * (a * q);
    }
    ModShift(z, k);
  }

  lemma ModShift(z: int, k: int)
    ensures (z - TWO_32 * k) % TWO_32 == z % TWO_32
  {
    var r := z % TWO_32;
    var d := z / TWO_32;
    assert z == TWO_32 * d + r;
    assert z - TWO_32 * k == TWO_32 * (d - k) + r;
  }

  /** String.hashCode(): h = 31 * h + c over the characters, in int
      arithmetic, starting from 0. */
  function StringHash(s: string): (h: int)
    decreases |s|
  {
    if s == [] then 0 else Int32(31 * StringHash(s[..|s| - 1]) + s[|s| - 1] as int)
  }

  function Pow31(n: nat): (p: int)
    ensures p >= 1
  {
    if n == 0 then 1 else 31 * Pow31(n - 1)
  }

  /** The closed form the Java documentation gives for String.hashCode():
      s[0]*31^(n-1) + s[1]*31^(n-2) + ... + s[n-1], before wrap-around. */
  function HashPolynomial(s: string): int
    decreases |s|
  {
    if s == [] then 0 else s[0] as int * Pow31(|s| - 1) + HashPolynomial(s[1..])
  }

  lemma {:induction false} HashPolynomialSnoc(s: string, c: char)
    ensures HashPolynomial(s + [c]) == 31 * HashPolynomial(s) + c as int
    decreases |s|
  {
    if s == [] {
      assert [c][1..] == [];
    } else {
      assert (s + [c])[1..] == s[1..] + [c];
      HashPolynomialSnoc(s[1..], c);
      assert Pow31(|s + [c]| - 1) == 31 * Pow31(|s| - 1);
    }
  }

  /** The incremental hash equals the documented polynomial, reduced to
      an int. */
  lemma {:induction false} StringHashIsPolynomial(s: string)
    ensures StringHash(s) == Int32(HashPolynomial(s))
    decreases |s|
  {
    if s != [] {
      var init, c := s[..|s| - 1], s[|s| - 1];
      assert s == init + [c];
      StringHashIsPolynomial(init);
      HashPolynomialSnoc(init, c);
      Int32Step(31, HashPolynomial(init), c as int);
    }
  }

  /** The hash contribution of one field: 0 for null. */
  function FieldHash(o: Option<string>): int
  {
    match o
    case None => 0
    case Some(s) => StringHash(s)
  }

  /** String.equals guarded by a null check, as the source's equals does it:
      null equals only null. */
  predicate NullSafeEquals(a: Option<string>, b: Option<string>)
  {
    if a.None? then b.None? else b.Some? && a.value == b.value
  }

  class User {
    const firstName: Option<string>
    const lastName: Option<string>
    const city: Option<string>
    const address: Option<string>
    var traffic: seq<Entry>

    /** Builds a subscriber from an identity supplied by the random
        identity generator. */
    constructor (identity: NaturalKey)
      ensures Key() == identity
      ensures traffic == []
    {
      firstName := identity.firstName;
      lastName := identity.lastName;
      city := identity.city;
      address := identity.address;
      traffic := [];
    }

    function Key(): NaturalKey
    {
      NaturalKey(firstName, lastName, city, address)
    }

    /** Replaces the traffic map by a fresh one holding one entry per time
        point, each load drawn from the i-th random value. The time points
        arrive in ascending order, so each put appends. */
    method LoadTraffic(timePoints: seq<int>, draw: nat -> Unit) returns (loaded: seq<Entry>)
      requires StrictlyIncreasing(timePoints)
      modifies this`traffic
      ensures loaded == traffic
      ensures |loaded| == |timePoints|
      ensures forall i :: 0 <= i < |loaded| ==>
                loaded[i] == Entry(timePoints[i], LoadFromDraw(draw(i)))
    {
      traffic := [];
      for i := 0 to |timePoints|
        invariant |traffic| == i
        invariant forall k :: 0 <= k < i ==>
                    traffic[k] == Entry(timePoints[k], LoadFromDraw(draw(k)))
      {
        traffic := traffic + [Entry(timePoints[i], LoadFromDraw(draw(i)))];
      }
      loaded := traffic;
    }

    /** hashCode(): start at 1, then 31 * result + hash of address, city,
        first name and last name, in that order, in int arithmetic. */
    function HashCode(): int
    {
      var r0 := 1;
      var r1 := Int32(31 * r0 + FieldHash(address));
      var r2 := Int32(31 * r1 + FieldHash(city));
      var r3 := Int32(31 * r2 + FieldHash(firstName));
      Int32(31 * r3 + FieldHash(lastName))
    }

    /** equals(Object): identity shortcut, null and class checks, then the
        four fields in the order address, city, first name, last name. The
        traffic history plays no part. */
    predicate Equals(obj: object?)
    {
      if this == obj then true
      else if obj == null then false
      else if !(obj is User) then false
      else
        var other := obj as User;
        if !NullSafeEquals(address, other.address) then false
        else if !NullSafeEquals(city, other.city) then false
        else if !NullSafeEquals(firstName, other.firstName) then false
        else if !NullSafeEquals(lastName, other.lastName) then false
        else true
    }
  }

  /** Equality holds exactly against another User whose four identity
      fields are pairwise equal (null only to null). */
  lemma EqualsIffSameKey(u: User, obj: object?)
    ensures u.Equals(obj) <==> obj != null && obj is User && (obj as User).Key() == u.Key()
  {
  }

  /** equals is reflexive and false against null. */
  lemma EqualsReflexiveNotNull(u: User)
    ensures u.Equals(u)
    ensures !u.Equals(null)
  {
  }

  /** The hash code is a function of the natural key alone, so equal users
      hash alike. */
  lemma EqualUsersHashAlike(u: User, v: User)
    requires u.Equals(v)
    ensures u.HashCode() == v.HashCode()
  {
  }

  /** The hash code in closed form: the polynomial in 31 over the four
      field hashes, reduced to an int once. */
  lemma {:induction false} HashCodeClosedForm(u: User)
    ensures u.HashCode() == Int32(923521 + 29791 * FieldHash(u.address) + 961 * FieldHash(u.city)
                                  + 31 * FieldHash(u.firstName) + FieldHash(u.lastName))
  {
    var a, c, f, l := FieldHash(u.address), FieldHash(u.city), FieldHash(u.firstName), FieldHash(u.lastName);
    Int32Step(31, 31 + a, c);
    Int32Step(31, 31 * (31 + a) + c, f);
    Int32Step(31, 31 * (31 * (31 + a) + c) + f, l);
  }
}
