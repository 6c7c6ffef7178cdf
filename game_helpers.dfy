/** The small numeric helpers of `src/gameHelpers.ts`: Euclidean distance,
    vector normalisation, `MM:SS` time formatting, the field bounds test and
    linear interpolation. */
module GameHelpers {
  import opened Geometry

  /** `calculateDistance`: `Math.sqrt(dx * dx + dy * dy)`. The result is the
      non-negative number whose square is the squared distance, and it is 0
      from a point to itself. */
  function CalculateDistance(pos1: Position, pos2: Position, sqrt: real -> real): (distance: real)
    requires IsSquareRoot(sqrt)
    ensures 0.0 <= distance && distance * distance == SquaredDistance(pos1, pos2)
    ensures pos1 == pos2 ==> distance == 0.0
  {
    RootOfZero(sqrt);
    sqrt(SquaredDistance(pos1, pos2))
  }

  /** The distance does not depend on the order of the points, nor on which
      square-root function computes it. */
  lemma DistanceSymmetric(pos1: Position, pos2: Position, sqrt: real -> real, otherSqrt: real -> real)
    requires IsSquareRoot(sqrt) && IsSquareRoot(otherSqrt)
    ensures CalculateDistance(pos1, pos2, sqrt) == CalculateDistance(pos2, pos1, otherSqrt)
  {
    SquaredDistanceSymmetric(pos1, pos2);
    RootUnique(CalculateDistance(pos1, pos2, sqrt), CalculateDistance(pos2, pos1, otherSqrt));
  }

  /** `normalizeVector`: the zero vector stays zero; any other vector is
      divided by its length, giving a vector of length 1 that points the same
      way (parallel to the input, positive dot product with it). */
  function NormalizeVector(vector: Position, sqrt: real -> real): (unit: Position)
    requires IsSquareRoot(sqrt)
    ensures vector == Origin ==> unit == Origin
    ensures vector != Origin ==> UnitAlong(vector, unit)
  {
    var magnitude := sqrt(SquaredLength(vector));
    NormalizeFacts(vector, sqrt);
    if magnitude == 0.0 then Origin else Position(vector.x / magnitude, vector.y / magnitude)
  }

  /** `u` has length 1 and the direction of `v`. */
  ghost predicate UnitAlong(v: Position, u: Position) {
    SquaredLength(u) == 1.0 && u.x * v.y == u.y * v.x && Dot(u, v) > 0.0
  }

  lemma NormalizeFacts(v: Position, sqrt: real -> real)
    requires IsSquareRoot(sqrt)
    ensures var m := sqrt(SquaredLength(v));
            && (v == Origin ==> m == 0.0)
            && (v != Origin ==> 0.0 < m && UnitAlong(v, Position(v.x / m, v.y / m)))
  {
    var m := sqrt(SquaredLength(v));
    SquaredLengthPositive(v);
    if v == Origin {
      assert SquaredLength(v) == 0.0;
      RootOfZero(sqrt);
    } else {
      RootPositive(sqrt, SquaredLength(v));
      DividedByLength(v, m);
    }
  }

  /** Dividing a vector by a positive `m` whose square is the vector's
      squared length gives a unit vector along it. */
  lemma DividedByLength(v: Position, m: real)
    requires 0.0 < m && m * m == SquaredLength(v)
    ensures UnitAlong(v, Position(v.x / m, v.y / m))
  {
    var k := 1.0 / m;
    assert k * m == 1.0 && 0.0 < k;
    assert Position(v.x / m, v.y / m) == Position(v.x * k, v.y * k);
    SqOfProduct(v.x, k);
    SqOfProduct(v.y, k);
    SqOfProduct(m, k);
    var sx, sy, sk := Sq(v.x), Sq(v.y), Sq(k);
    assert sx * sk + sy * sk == (sx + sy) * sk;
    assert Dot(Position(v.x * k, v.y * k), v) == k * (sx + sy);
    var km := k * m;
    assert k * (m * m) == km * m;
  }

  lemma SqOfProduct(a: real, b: real)
    ensures Sq(a * b) == Sq(a) * Sq(b)
  {
  }

  /** `formatTime`, for a non-negative time in milliseconds: whole minutes,
      a colon, and the remaining whole seconds as exactly two digits. Read
      back as numbers, the minutes field is the whole minutes of the input,
      the seconds field is below 60, and together they give its whole
      seconds. Like any number printed by a template, the minutes field has
      no leading zero. */
  function FormatTime(timeInMs: real): (text: string)
    requires 0.0 <= timeInMs
    ensures |text| >= 4 && text[|text| - 3] == ':'
    ensures |text| > 4 ==> text[0] != '0'
    ensures forall i :: 0 <= i < |text| && i != |text| - 3 ==> IsDigit(text[i])
    ensures ParseNat(text[..|text| - 3]) == (timeInMs / 60000.0).Floor
    ensures ParseNat(text[|text| - 2..]) < 60
    ensures ParseNat(text[..|text| - 3]) * 60 + ParseNat(text[|text| - 2..]) == (timeInMs / 1000.0).Floor
  {
    MinutesOfTime(timeInMs);
    var totalSeconds: nat := (timeInMs / 1000.0).Floor;
    var minutes := totalSeconds / 60;
    var seconds := totalSeconds % 60;
    ParseNatToString(minutes);
    TwoDigitSeconds(seconds);
    var text := NatToString(minutes) + ":" + PadStart(NatToString(seconds), 2, '0');
    ClockFields(NatToString(minutes), PadStart(NatToString(seconds), 2, '0'));
    text
  }

  /** The two fields of `minuteText + ":" + secondText`, for a two-character
      seconds field. */
  lemma ClockFields(minuteText: string, secondText: string)
    requires |minuteText| >= 1 && |secondText| == 2
    ensures var text := minuteText + ":" + secondText;
            && |text| == |minuteText| + 3
            && text[|text| - 3] == ':'
            && text[..|text| - 3] == minuteText
            && text[|text| - 2..] == secondText
            && (forall i :: 0 <= i < |minuteText| ==> text[i] == minuteText[i])
            && text[|text| - 2] == secondText[0] && text[|text| - 1] == secondText[1]
  {
    var text := minuteText + ":" + secondText;
    assert text[..|text| - 3] == minuteText;
    assert text[|text| - 2..] == secondText;
  }

  predicate IsDigit(c: char) {
    '0' <= c <= '9'
  }

  /** The decimal digit character of `d`. */
  function DigitChar(d: nat): (c: char)
    requires d < 10
    ensures IsDigit(c) && DigitValue(c) == d
  {
    (d + '0' as int) as char
  }

  function DigitValue(c: char): nat
    requires IsDigit(c)
  {
    c as int - '0' as int
  }

  predicate AllDigits(s: string) {
    forall i :: 0 <= i < |s| ==> IsDigit(s[i])
  }

  /** `n.toString()` for a natural number: its decimal digits, most
      significant first, one digit exactly for the numbers below 10, and no
      leading zero. */
  function NatToString(n: nat): (s: string)
    ensures |s| >= 1 && AllDigits(s)
    ensures n < 10 <==> |s| == 1
    ensures |s| > 1 ==> s[0] != '0'
  {
    if n < 10 then [DigitChar(n)] else NatToString(n / 10) + [DigitChar(n % 10)]
  }

  /** The number a string of decimal digits denotes. */
  function ParseNat(s: string): nat
    requires AllDigits(s)
  {
    if s == [] then 0 else ParseNat(s[..|s| - 1]) * 10 + DigitValue(s[|s| - 1])
  }

  /** Reading back the decimal text of `n` gives `n`. */
  lemma {:induction false} ParseNatToString(n: nat)
    ensures ParseNat(NatToString(n)) == n
  {
    var s := NatToString(n);
    if n >= 10 {
      ParseNatToString(n / 10);
      assert s[..|s| - 1] == NatToString(n / 10);
    }
  }

  /** `s.padStart(width, fill)`: `s` with copies of `fill` in front up to
      `width` characters; a string already that long is left as it is. */
  function PadStart(s: string, width: nat, fill: char): (padded: string)
    ensures |s| >= width ==> padded == s
    ensures |s| < width ==> padded == seq(width - |s|, _ => fill) + s
    decreases width - |s|
  {
    if |s| < width then
      var rest := PadStart([fill] + s, width, fill);
      assert seq(width - |s| - 1, _ => fill) + ([fill] + s) == seq(width - |s|, _ => fill) + s;
      rest
    else
      s
  }

  /** The seconds field: two digits that read back as the seconds. */
  lemma TwoDigitSeconds(seconds: nat)
    requires seconds < 60
    ensures var t := PadStart(NatToString(seconds), 2, '0');
            |t| == 2 && AllDigits(t) && ParseNat(t) == seconds
  {
    var s := NatToString(seconds);
    var t := PadStart(s, 2, '0');
    ParseNatToString(seconds);
    if seconds < 10 {
      assert t == ['0'] + s;
      assert t[..1] == ['0'];
      assert ParseNat(t[..1]) == 0 by {
        assert t[..1][..0] == [];
      }
      assert t[1..] == s;
    } else {
      assert |s| == 2;
      assert t == s;
    }
  }

  /** Whole minutes of whole seconds are the whole minutes of the input. */
  lemma MinutesOfTime(timeInMs: real)
    requires 0.0 <= timeInMs
    ensures (timeInMs / 1000.0).Floor >= 0
    ensures (timeInMs / 1000.0).Floor / 60 == (timeInMs / 60000.0).Floor
  {
    var totalSeconds := (timeInMs / 1000.0).Floor;
    var minutes := totalSeconds / 60;
    assert totalSeconds as real <= timeInMs / 1000.0 < totalSeconds as real + 1.0;
    assert minutes * 60 <= totalSeconds < minutes * 60 + 60;
    assert (minutes * 60) as real <= totalSeconds as real;
    assert totalSeconds as real + 1.0 <= (minutes * 60 + 60) as real;
    assert minutes as real <= timeInMs / 60000.0 < minutes as real + 1.0;
  }

  /** The clock of a whole match, five minutes, reads "5:00". */
  lemma FormatFullMatch()
    ensures FormatTime(300000.0) == "5:00"
  {
    assert (300000.0 / 1000.0).Floor == 300;
    assert NatToString(5) == "5";
    assert NatToString(0) == "0";
    assert PadStart("0", 2, '0') == "00";
  }

  /** `isWithinBounds`: the point lies in the closed rectangle
      [0, width] x [0, height]; all four edges count as inside. */
  function IsWithinBounds(position: Position, width: real, height: real): bool {
    position.x >= 0.0 && position.x <= width && position.y >= 0.0 && position.y <= height
  }

  /** On a field of non-negative size all four corners are in bounds, and
      a point a unit beyond any edge is not. */
  lemma BoundsIncludeEdges(width: real, height: real)
    requires 0.0 <= width && 0.0 <= height
    ensures IsWithinBounds(Position(0.0, 0.0), width, height) && IsWithinBounds(Position(width, 0.0), width, height)
    ensures IsWithinBounds(Position(0.0, height), width, height) && IsWithinBounds(Position(width, height), width, height)
    ensures !IsWithinBounds(Position(-1.0, 0.0), width, height) && !IsWithinBounds(Position(width + 1.0, 0.0), width, height)
    ensures !IsWithinBounds(Position(0.0, -1.0), width, height) && !IsWithinBounds(Position(0.0, height + 1.0), width, height)
  {
  }

  /** `lerp`: the affine combination `start * (1 - t) + end * t`, which is
      `start` at `t = 0`, `end` at `t = 1` and `start` throughout when the two
      ends coincide. */
  function Lerp(start: real, end: real, t: real): (value: real)
    ensures t == 0.0 ==> value == start
    ensures t == 1.0 ==> value == end
    ensures start == end ==> value == start
  {
    start * (1.0 - t) + end * t
  }
}
