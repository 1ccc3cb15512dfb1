/**
 * The fan rules of main.c. `model_load_fan` reads two temperature bounds
 * (whole degrees Celsius) from a text such as "45,60" and a speed for the
 * single-step mode; `model_exec` turns the CPU temperature, read in
 * millidegrees Celsius, into the speed sent with `rgb_fan`.
 */
module FanControl {
  import opened CStrings
  import opened Hash
  import opened Strtol
  import opened U8Parse
  import opened Keywords
  import opened Rgb

  /** MODEL_FAN_BOUND_MAX: the highest bound, in degrees. */
  const BOUND_MAX: Byte := 65
  /** MODEL_FAN_SPEED_MAX: full speed. */
  const SPEED_MAX: Byte := 9

  /** One bound of `model_load_fan`: a parsed 0 keeps the bound, any other value replaces it, capped at 65. */
  function Clamp(bound: Byte, parsed: Byte): (r: Byte)
    ensures parsed == 0 ==> r == bound
    ensures parsed != 0 ==> 0 < r <= BOUND_MAX && r <= parsed && (parsed <= BOUND_MAX ==> r == parsed)
  {
    if parsed > 0 then (if parsed < BOUND_MAX then parsed else BOUND_MAX) else bound
  }

  /**
   * The two numbers `model_load_fan` reads from the bound text: one with
   * `strtol` at its start, the next with `strtol` after the non-digits that
   * follow the first; each kept modulo 256.
   */
  function BoundNumbers(t: seq<Byte>): (r: (Byte, Byte))
  {
    var q := SkipNonDigits(t, After(t, 0));
    (U8(StrToL(t).value), U8(StrToL(t[q..]).value))
  }

  /**
   * The ordering step of `model_load_fan`: equal bounds lower the lower one
   * by one (a `uint8_t` subtraction, so 0 would become 255), and reversed
   * bounds are swapped; distinct bounds come out as the same two values in
   * ascending order.
   */
  function Normalise(lower: Byte, upper: Byte): (r: (Byte, Byte))
    ensures lower != upper ==> r.0 < r.1 && {r.0, r.1} == {lower, upper}
    ensures lower == upper ==> r.1 == upper && r.0 == U8(upper - 1)
    ensures 0 < upper ==> r.0 < r.1
  {
    if lower == upper then (U8(upper - 1), upper)
    else if lower > upper then (upper, lower)
    else (lower, upper)
  }

  /**
   * The bounds after `model_load_fan` read `t`, starting from `lower` and
   * `upper`. Bounds that start at most 65 with the upper one positive come
   * out strictly ordered and at most 65.
   */
  function Bounds(lower: Byte, upper: Byte, t: seq<Byte>): (r: (Byte, Byte))
    ensures lower <= BOUND_MAX && 0 < upper <= BOUND_MAX ==> r.0 < r.1 <= BOUND_MAX
  {
    var (a, b) := BoundNumbers(t);
    Normalise(Clamp(lower, a), Clamp(upper, b))
  }

  /** A bound text with no numbers in it keeps ordered bounds as they were. */
  lemma BoundsKeep(lower: Byte, upper: Byte, t: seq<Byte>)
    requires BoundNumbers(t) == (0, 0) && lower < upper
    ensures Bounds(lower, upper, t) == (lower, upper)
  {
  }

  /** Two distinct bounds in 1..65 are taken as given, in ascending order, whichever comes first. */
  lemma BoundsGiven(lower: Byte, upper: Byte, t: seq<Byte>)
    requires 0 < BoundNumbers(t).0 <= BOUND_MAX && 0 < BoundNumbers(t).1 <= BOUND_MAX
    requires BoundNumbers(t).0 != BoundNumbers(t).1
    ensures var (a, b) := BoundNumbers(t);
            Bounds(lower, upper, t) == if a < b then (a, b) else (b, a)
  {
  }

  /**
   * The bound text is read as `u8_parse(ptr, 2, t)` would read it: the
   * numbers it stores, followed by zeros for the ones the text lacks.
   */
  lemma BoundNumbersParsed(t: seq<Byte>)
    ensures var p := Parsed(t, 0, 2);
            var r := BoundNumbers(t);
            p == [r.0, r.1][..|p|] && (|p| < 1 ==> r.0 == 0) && (|p| < 2 ==> r.1 == 0)
  {
    assert t[0..] == t;
    if AtEnd(t, 0) {
      StrToLAtEnd(t);
    } else {
      var q := SkipNonDigits(t, After(t, 0));
      if AtEnd(t, q) {
        StrToLAtEnd(t[q..]);
      }
    }
  }

  /** `strtol` at the end of the string reads nothing. */
  lemma StrToLAtEnd(s: seq<Byte>)
    requires s == [] || s[0] == NUL
    ensures StrToL(s) == Conversion(0, 0)
  {
    assert Blanks(s) == 0;
    assert DigitRun(s, 10) == 0 && DigitRun(s, 8) == 0;
  }

  /** The configured single-step speed: `(uint8_t)ini_getl(...)`, capped at 9. */
  function SpeedCap(raw: int): (r: Byte)
    ensures r <= SPEED_MAX
    ensures U8(raw) <= SPEED_MAX ==> r == U8(raw)
    ensures U8(raw) > SPEED_MAX ==> r == SPEED_MAX
  {
    var s := U8(raw);
    if s > SPEED_MAX then SPEED_MAX else s
  }

  /** Only the value modulo 256 counts: 265 is read as 9, 256 stops the fan. */
  lemma SpeedCapWraps()
    ensures SpeedCap(265) == 9 && SpeedCap(256) == 0 && SpeedCap(-1) == SPEED_MAX
  {
  }

  /** A nonzero multiple of a positive `d` is at least `d` away from 0. */
  lemma MulAway(m: int, d: int)
    requires d > 0
    ensures m == 0 || m * d >= d || m * d <= -d
  {
    if m >= 1 {
      MulAtLeast(m, d);
    } else if m <= -1 {
      MulAtLeast(-m, d);
      assert m * d == -((-m) * d);
    }
  }

  /** `m >= 1` copies of a non-negative `d` are at least `d`. */
  lemma {:induction false} MulAtLeast(m: nat, d: nat)
    requires m >= 1
    ensures m * d >= d
  {
    if m > 1 {
      MulAtLeast(m - 1, d);
      assert m * d == (m - 1) * d + d;
    }
  }

  /** The quotient is the only `q` with `q * d <= x < (q + 1) * d`. */
  lemma DivUnique(x: int, d: int, q: int)
    requires d > 0 && q * d <= x < q * d + d
    ensures x / d == q
  {
    var k := x / d;
    assert k * d <= x < k * d + d;
    MulAway(k - q, d);
    assert (k - q) * d == k * d - q * d;
  }

  /** Division by a positive number keeps order. */
  lemma DivMono(a: nat, b: nat, d: nat)
    requires d > 0 && a <= b
    ensures a / d <= b / d
  {
    var qa, qb := a / d, b / d;
    assert qa * d <= a && b < qb * d + d;
    MulAway(qa - qb, d);
    assert (qa - qb) * d == qa * d - qb * d;
  }

  /** Dividing by `a` and then by `b` is dividing by `a * b`. */
  lemma DivDiv(x: nat, a: nat, b: nat)
    requires a > 0 && b > 0
    ensures x / (a * b) == x / a / b
  {
    var q1 := x / a;
    var q2 := q1 / b;
    assert q1 * a <= x < q1 * a + a;
    assert q2 * b <= q1 < q2 * b + b;
    assert q2 * (a * b) == (q2 * b) * a;
    assert q2 * (a * b) <= q1 * a;
    assert (q1 + 1) * a <= (q2 * b + b) * a == q2 * (a * b) + a * b;
    DivUnique(x, a * b, q2);
  }

  /**
   * The graded speed between the bounds: the part of the band the
   * temperature has climbed, scaled to 0..9. Both the climb and the band
   * are in millidegrees. At the upper bound it reaches 9, the speed above
   * the band.
   */
  function Graded(temp: nat, lower: Byte, upper: Byte): (r: nat)
    requires 1000 * lower < temp <= 1000 * upper
    ensures r <= SPEED_MAX
    ensures temp == 1000 * upper ==> r == SPEED_MAX
  {
    var d := temp - 1000 * lower;
    var w := 1000 * (upper - lower);
    assert d * SPEED_MAX <= w * SPEED_MAX by {
      assert d <= w;
      assert d * SPEED_MAX == d * 9 && w * SPEED_MAX == w * 9;
    }
    DivMono(d * SPEED_MAX, w * SPEED_MAX, w);
    DivUnique(w * SPEED_MAX, w, SPEED_MAX as int);
    d * SPEED_MAX / w
  }

  /** The graded speed is 0 through the first ninth of the band, meeting the speed below it. */
  lemma GradedStartsAtZero(temp: nat, lower: Byte, upper: Byte)
    requires 1000 * lower < temp <= 1000 * upper
    requires (temp - 1000 * lower) * SPEED_MAX < 1000 * (upper - lower)
    ensures Graded(temp, lower, upper) == 0
  {
    DivUnique((temp - 1000 * lower) * SPEED_MAX, 1000 * (upper - lower), 0);
  }

  /**
   * The graded speed as main.c:545-546 compute it: the climb in
   * millidegrees over the band in degrees.
   */
  function GradedAsWritten(temp: nat, lower: Byte, upper: Byte): nat
    requires 1000 * lower < temp <= 1000 * upper
  {
    (temp - 1000 * lower) * SPEED_MAX / (upper - lower)
  }

  /** As written, the graded speed is a thousand times the intended one (up to rounding). */
  lemma GradedScale(temp: nat, lower: Byte, upper: Byte)
    requires 1000 * lower < temp <= 1000 * upper
    ensures GradedAsWritten(temp, lower, upper) / 1000 == Graded(temp, lower, upper)
  {
    var x := (temp - 1000 * lower) * SPEED_MAX;
    var w := upper - lower;
    assert GradedAsWritten(temp, lower, upper) == x / w;
    assert Graded(temp, lower, upper) == x / (1000 * w);
    DivDiv(x, w, 1000);
    assert w * 1000 == 1000 * w;
  }

  /** As written, every temperature past the bottom two thousandths of the band asks for more than full speed. */
  lemma GradedAsWrittenTooFast(temp: nat, lower: Byte, upper: Byte)
    requires 1000 * lower < temp <= 1000 * upper
    requires temp - 1000 * lower >= 2 * (upper - lower)
    ensures GradedAsWritten(temp, lower, upper) > SPEED_MAX
  {
    var d := temp - 1000 * lower;
    var w := upper - lower;
    DivMono(2 * w * SPEED_MAX, d * SPEED_MAX, w);
    DivUnique(2 * w * SPEED_MAX, w, 2 * SPEED_MAX as int);
  }

  /**
   * The fan speed `model_exec` settles on, with the graded step in
   * consistent units: direct mode keeps the current speed; otherwise full
   * speed above the upper bound, stopped at or below the lower bound, and
   * in between the configured speed (single) or the graded speed (graded).
   * Any mode but direct yields a speed within 0..9 when the configured one is.
   */
  function FanTarget(mode: U32, temp: nat, lower: Byte, upper: Byte, single: Byte, current: Byte): (r: Byte)
    ensures mode == BKDR_DIRECT ==> r == current
    ensures mode != BKDR_DIRECT && single <= SPEED_MAX ==> r <= SPEED_MAX
  {
    if mode == BKDR_DIRECT then current
    else if temp > 1000 * upper then SPEED_MAX
    else if temp > 1000 * lower then (if mode == BKDR_GRADED then Graded(temp, lower, upper) else single)
    else 0
  }

  /** `model_exec`'s speed exactly as written, an `unsigned int`. */
  function FanTargetAsWritten(mode: U32, temp: nat, lower: Byte, upper: Byte, single: Byte, current: Byte): (r: nat)
    ensures mode == BKDR_GRADED && 1000 * lower < temp <= 1000 * upper ==>
              r / 1000 == FanTarget(mode, temp, lower, upper, single, current)
    ensures !(mode == BKDR_GRADED && 1000 * lower < temp <= 1000 * upper) ==>
              r == FanTarget(mode, temp, lower, upper, single, current)
  {
    if mode == BKDR_DIRECT then current
    else if temp > 1000 * upper then SPEED_MAX
    else if temp > 1000 * lower then
      if mode == BKDR_GRADED then GradedScale(temp, lower, upper); GradedAsWritten(temp, lower, upper)
      else single
    else 0
  }

  /** Outside direct mode, the thresholds: full speed above the band and stopped below it, for every mode. */
  lemma FanTargetThresholds(mode: U32, temp: nat, lower: Byte, upper: Byte, single: Byte, current: Byte)
    requires mode != BKDR_DIRECT
    ensures temp > 1000 * upper ==> FanTarget(mode, temp, lower, upper, single, current) == SPEED_MAX
    ensures temp <= 1000 * lower && temp <= 1000 * upper ==> FanTarget(mode, temp, lower, upper, single, current) == 0
    ensures 1000 * lower < temp <= 1000 * upper && mode != BKDR_GRADED ==>
              FanTarget(mode, temp, lower, upper, single, current) == single
  {
  }

  /** A warmer CPU never slows the fan, in single and graded mode alike, when the bounds are ordered. */
  lemma FanTargetMonotone(mode: U32, t1: nat, t2: nat, lower: Byte, upper: Byte, single: Byte, current: Byte)
    requires mode != BKDR_DIRECT && lower < upper && single <= SPEED_MAX && t1 <= t2
    ensures FanTarget(mode, t1, lower, upper, single, current) <= FanTarget(mode, t2, lower, upper, single, current)
  {
    if mode == BKDR_GRADED && 1000 * lower < t1 && t2 <= 1000 * upper {
      DivMono((t1 - 1000 * lower) * SPEED_MAX, (t2 - 1000 * lower) * SPEED_MAX, 1000 * (upper - lower));
    }
  }

  /** The speed settles: a second pass at the same temperature finds nothing to change. */
  lemma FanTargetSettles(mode: U32, temp: nat, lower: Byte, upper: Byte, single: Byte, current: Byte)
    ensures var s := FanTarget(mode, temp, lower, upper, single, current);
            FanTarget(mode, temp, lower, upper, single, s) == s
  {
  }

  /**
   * The graded step as written at 50 degrees between bounds 45 and 60:
   * 3000 instead of 3. Stored in the `uint8_t` current speed it becomes
   * 184, which `rgb_fan` sends as full speed (byte 1) rather than byte 4;
   * and since 184 differs from 3000, every later pass at that temperature
   * sends it again.
   */
  lemma GradedAsWrittenExample()
    ensures GradedAsWritten(50000, 45, 60) == 3000 && Graded(50000, 45, 60) == 3
    ensures U8(3000) == 184 && FanByte(U8(3000)) == 1 && FanByte(3) == 4
    ensures FanTargetAsWritten(BKDR_GRADED, 50000, 45, 60, 9, U8(3000)) != U8(3000)
  {
    assert 5000 * 9 == 3000 * 15;
    DivUnique(45000, 15, 3000);
    DivUnique(45000, 15000, 3);
  }
}
