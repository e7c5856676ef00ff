/**
 * Values shared by every device sample: nullable references, the JSON
 * values a twin collection holds, desired-property patches, and the
 * 32-bit integer arithmetic of the C# sources.
 */
module Common {

  /** A C# reference that may be null. */
  datatype Option<+T> = None | Some(value: T)

  /** An exception raised by a helper on invalid arguments. */
  datatype Error = ArgumentNull(paramName: string)

  /** A value or the exception the call throws. */
  datatype Result<+T> = Ok(value: T) | Err(error: Error)

  /**
   * A JSON value as a twin collection stores it. `JNull` also stands for a
   * null `object` argument, and `JTime` for a serialised `DateTime`
   * (as a tick count).
   */
  datatype Json =
    | JNull
    | JBool(b: bool)
    | JInt(i: int)
    | JReal(r: real)
    | JString(s: string)
    | JTime(ticks: int)
    | JObject(fields: map<string, Json>)

  /** A twin collection built by a device: its top-level properties. */
  type TwinCollection = map<string, Json>

  /**
   * A desired-property patch as the device receives it: the top-level
   * properties in the order the collection enumerates them, and the
   * patch's `$version`.
   */
  datatype Desired = Desired(entries: seq<(string, Json)>, version: int)

  /** The value of the first top-level property called `key`, if any. */
  function Lookup(entries: seq<(string, Json)>, key: string): (r: Option<Json>)
    ensures r.None? <==> forall i :: 0 <= i < |entries| ==> entries[i].0 != key
    ensures r.Some? ==>
      exists i :: 0 <= i < |entries| && entries[i] == (key, r.value) &&
        forall j :: 0 <= j < i ==> entries[j].0 != key
  {
    if entries == [] then None
    else if entries[0].0 == key then Some(entries[0].1)
    else
      var r := Lookup(entries[1..], key);
      if r.Some? then
        ghost var i :| 0 <= i < |entries[1..]| && entries[1..][i] == (key, r.value) &&
          forall j :: 0 <= j < i ==> entries[1..][j].0 != key;
        assert entries[i + 1] == (key, r.value);
        r
      else r
  }

  /** C#'s `int`. */
  const Int32Min: int := -0x8000_0000
  const Int32Max: int := 0x7FFF_FFFF

  predicate IsInt32(x: int) {
    Int32Min <= x <= Int32Max
  }

  type Int32 = x: int | IsInt32(x)

  /** Unchecked C# `int` arithmetic: the exact result reduced to 32 bits. */
  function Wrap32(x: int): (r: int)
    ensures IsInt32(r)
    ensures (x - r) % 0x1_0000_0000 == 0
    ensures IsInt32(x) ==> r == x
  {
    var m := x % 0x1_0000_0000;
    if m > Int32Max then m - 0x1_0000_0000 else m
  }

  /** The millisecond argument of `Task.Delay(seconds * 1000)`. */
  function DelayMs(seconds: Int32): (ms: int)
    ensures IsInt32(ms)
    ensures 0 <= seconds <= 2147483 ==> ms == seconds * 1000
  {
    Wrap32(seconds * 1000)
  }

  /** The delay is exact for exactly the intervals of at most 2147483 seconds either way. */
  lemma DelayExactIff(seconds: Int32)
    ensures DelayMs(seconds) == seconds * 1000 <==> -2147483 <= seconds <= 2147483
  {
  }

  /** From 2147484 seconds up to 4294967 the product wraps once, to a negative count. */
  lemma DelayNegativeBand(seconds: Int32)
    requires 2147484 <= seconds <= 4294967
    ensures DelayMs(seconds) < 0
  {
    assert seconds * 1000 - 0x1_0000_0000 < 0;
    assert 0 <= seconds * 1000 < 0x1_0000_0000;
  }

  /**
   * The wrapped count is never -1, the value `Task.Delay` reads as "wait
   * forever": a multiple of 1000 is even and so stays even modulo 2^32.
   * Every negative count therefore makes `Task.Delay` throw.
   */
  lemma {:induction false} DelayIsNeverInfinite(seconds: Int32)
    ensures DelayMs(seconds) != -1
  {
    var x := seconds * 1000;
    var q := x / 0x1_0000_0000;
    assert x % 0x1_0000_0000 == 2 * (seconds * 500 - q * 0x8000_0000);
  }

  /**
   * The values the dynamic comparison `desiredPropertyValue > 0` can make
   * without throwing, as the model treats them: numbers, booleans and null.
   * Strings, dates and objects are left out (the model treats them as the
   * handler throwing).
   */
  predicate IsComparable(v: Json) {
    v.JInt? || v.JReal? || v.JBool? || v.JNull?
  }

  /** The JSON library's tolerance for comparing doubles: the machine epsilon of `double`. */
  const JsonEpsilon: real := 0.00000000000000022204460492503131

  /**
   * The JSON library's approximate equality of a double with 0: the
   * difference lies strictly within `(|x| + |0| + 10) * JsonEpsilon`. A
   * positive double close enough to 0 therefore compares equal to it.
   */
  predicate ApproxZero(x: real) {
    var tolerance := ((if x < 0.0 then -x else x) + 10.0) * JsonEpsilon;
    -tolerance < x < tolerance
  }

  /**
   * The dynamic comparison `desiredPropertyValue > 0`, made on the JSON value
   * itself: an integer against 0, a double against 0 up to the library's
   * tolerance, `true` above 0 and `false` not, and null
   * below every value.
   */
  predicate IsPositive(v: Json): (b: bool)
    requires IsComparable(v)
    ensures b ==> !v.JNull?
    ensures v.JBool? ==> b == v.b
    ensures v.JReal? ==> (b <==> v.r > 0.0 && !ApproxZero(v.r))
    ensures !b && ToInt32(v).Some? ==> ToInt32(v).value <= 0
  {
    match v
    case JInt(i) => i > 0
    case JReal(x) => x > 0.0 && !ApproxZero(x)
    case JBool(b) => b
    case JNull => false
  }

  /**
   * `desiredProperties["telemetryInterval"]` when the comparison with 0 can
   * be made on it. `None`: the property is missing (the indexer throws), or
   * the model treats its kind as throwing.
   */
  function DesiredInterval(d: Desired): (r: Option<Json>)
    ensures r.Some? ==> IsComparable(r.value) && Lookup(d.entries, "telemetryInterval") == r
    ensures r.None? ==>
      Lookup(d.entries, "telemetryInterval").None? || !IsComparable(Lookup(d.entries, "telemetryInterval").value)
  {
    match Lookup(d.entries, "telemetryInterval")
    case Some(v) => if IsComparable(v) then Some(v) else None
    case None => None
  }

  /** The nearest integer, ties going to the even one, as `Convert.ToInt32(double)` rounds. */
  function RoundHalfEven(x: real): (n: int)
    ensures -0.5 <= n as real - x <= 0.5
    ensures (n as real - x == 0.5 || x - n as real == 0.5) ==> n % 2 == 0
    ensures x == x.Floor as real ==> n == x.Floor
  {
    var f := x.Floor;
    var frac := x - f as real;
    if frac < 0.5 then f
    else if frac > 0.5 then f + 1
    else if f % 2 == 0 then f
    else f + 1
  }

  /**
   * The assignment of the JSON value to the C# `int` field: an integer is
   * kept, a fraction is rounded half to even, a boolean becomes 1 or 0, and
   * null or a result outside `int` throws (`None`).
   */
  function ToInt32(v: Json): (r: Option<Int32>)
    requires IsComparable(v)
    ensures v.JInt? ==> (r.Some? <==> IsInt32(v.i)) && (r.Some? ==> r.value == v.i)
    ensures v.JReal? ==> (r.Some? <==> IsInt32(RoundHalfEven(v.r))) && (r.Some? ==> r.value == RoundHalfEven(v.r))
    ensures v.JBool? ==> r == Some(if v.b then 1 else 0)
    ensures v.JNull? ==> r.None?
  {
    match v
    case JInt(i) => if IsInt32(i) then Some(i) else None
    case JReal(x) => if IsInt32(RoundHalfEven(x)) then Some(RoundHalfEven(x)) else None
    case JBool(b) => Some(if b then 1 else 0)
    case JNull => None
  }

  /**
   * A positive value is stored as a non-negative interval, and as 0 exactly
   * when it is a fraction of at most one half.
   */
  lemma PositiveValueStored(v: Json)
    requires IsComparable(v) && IsPositive(v) && ToInt32(v).Some?
    ensures ToInt32(v).value >= 0
    ensures ToInt32(v).value == 0 <==> v.JReal? && v.r <= 0.5
  {
    if v.JReal? {
      var f := v.r.Floor;
      if v.r <= 0.5 {
        assert f == 0;
      } else {
        assert ToInt32(v).value >= 1;
      }
    }
  }
}
