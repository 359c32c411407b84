/**
Per-token quantisation (vllm/vllm/_xpu_ops.py, `dynamic_per_token_int8_quant_ref`), over the reals.

The scale of a row is chosen so that the extreme values just fit. The theorem is the error bound that makes the
result usable: every value is recovered up to half a step, however ties are rounded and even where the clamp
takes effect.
*/
module Quantization {
  import opened Integers

  function Pow2(n: nat): (r: int)
    ensures r >= n + 1
  {
    if n == 0 then 1 else 2 * Pow2(n - 1)
  }

  // ----- rounding -----

  function Abs(x: real): real {
    if x < 0.0 then -x else x
  }

  /** Some way of rounding to a nearest integer; how ties go is left open. */
  ghost predicate IsRounding(round: real -> int) {
    forall x :: Abs(round(x) as real - x) <= 0.5
  }

  /** PyTorch's choice: ties go to the even neighbour. */
  function HalfEven(x: real): int {
    var down := x.Floor;
    var rest := x - down as real;
    if rest < 0.5 || (rest == 0.5 && down % 2 == 0) then down else down + 1
  }

  lemma HalfEvenRounds()
    ensures IsRounding(HalfEven)
  {
    forall x: real ensures Abs(HalfEven(x) as real - x) <= 0.5 {
      assert 0.0 <= x - x.Floor as real < 1.0;
    }
  }

  // ----- the operation -----

  function Least(row: seq<real>): (r: real)
    requires row != []
    ensures r in row && forall i | 0 <= i < |row| :: r <= row[i]
  {
    if |row| == 1 then row[0]
    else
      var r := Least(row[1..]);
      assert forall i | 0 < i < |row| :: row[i] == row[1..][i - 1];
      if row[0] < r then row[0] else r
  }

  function Greatest(row: seq<real>): (r: real)
    requires row != []
    ensures r in row && forall i | 0 <= i < |row| :: row[i] <= r
  {
    if |row| == 1 then row[0]
    else
      var r := Greatest(row[1..]);
      assert forall i | 0 < i < |row| :: row[i] == row[1..][i - 1];
      if row[0] > r then row[0] else r
  }

  function Max(a: real, b: real): real {
    if a < b then b else a
  }

  function QMin(symmetric: bool, bits: nat): int
    requires bits >= 1
  {
    if symmetric then -Pow2(bits - 1) else 0
  }

  function QMax(symmetric: bool, bits: nat): int
    requires bits >= 1
  {
    if symmetric then Pow2(bits - 1) - 1 else Pow2(bits) - 1
  }

  const MIN_SCALE := 0.00001

  /** With one symmetric bit the largest value is zero, and the scale has no meaning. */
  predicate HasScale(symmetric: bool, bits: nat) {
    bits >= 1 && (symmetric ==> bits >= 2)
  }

  datatype Row = Row(values: seq<int>, scale: real, zeroPoint: int)

  function Scale(row: seq<real>, symmetric: bool, bits: nat): (r: real)
    requires row != [] && HasScale(symmetric, bits)
    ensures r >= MIN_SCALE
  {
    var least, greatest, q := Least(row), Greatest(row), QMax(symmetric, bits) as real;
    assert QMax(symmetric, bits) >= 1;
    Max(if symmetric then Max(Abs(least), Abs(greatest)) / q else (greatest - least) / q, MIN_SCALE)
  }

  function ZeroPoint(row: seq<real>, symmetric: bool, scale: real, round: real -> int): int
    requires row != [] && scale > 0.0
  {
    if symmetric then 0 else -round(Least(row) / scale)
  }

  function QuantizeValue(x: real, scale: real, zeroPoint: int, low: int, high: int, round: real -> int): int
    requires scale > 0.0
  {
    Clamp(round(x / scale + zeroPoint as real), low, high)
  }

  function Quantize(row: seq<real>, symmetric: bool, bits: nat, round: real -> int): Row
    requires row != [] && HasScale(symmetric, bits)
  {
    var scale := Scale(row, symmetric, bits);
    var zeroPoint := ZeroPoint(row, symmetric, scale, round);
    var low, high := QMin(symmetric, bits), QMax(symmetric, bits);
    Row(seq(|row|, i requires 0 <= i < |row| => QuantizeValue(row[i], scale, zeroPoint, low, high, round)), scale, zeroPoint)
  }

  function Dequantize(q: int, scale: real, zeroPoint: int): real {
    scale * (q - zeroPoint) as real
  }

  // ----- the error bound -----

  /** Division by a larger number. */
  lemma DivideBound(x: real, m: real, s: real)
    requires s > 0.0 && x <= m * s
    ensures x / s <= m
  {
    var y := x / s;
    assert y * s == x;
    assert y > m ==> y * s > m * s;
  }

  lemma ScaleCovers(spread: real, q: int, scale: real)
    requires q >= 1 && scale == Max(spread / q as real, MIN_SCALE)
    ensures spread <= q as real * scale
  {
    var s := spread / q as real;
    assert spread == q as real * s;
    assert q as real * (scale - s) >= 0.0;
  }

  /** A value that exceeds the range by at most half a step is clamped to within half a step. */
  lemma ClampedClose(y: real, low: int, high: int, n: int)
    requires low as real - 0.5 <= y <= high as real + 0.5 && low <= high && Abs(n as real - y) <= 0.5
    ensures low <= Clamp(n, low, high) <= high && Abs(y - Clamp(n, low, high) as real) <= 0.5
  {
  }

  lemma SymmetricRange(x: real, spread: real, q: int, scale: real)
    requires q >= 1 && scale == Max(spread / q as real, MIN_SCALE) && -spread <= x <= spread
    ensures -q as real <= x / scale <= q as real
  {
    ScaleCovers(spread, q, scale);
    DivideBound(x, q as real, scale);
    DivideBound(-x, q as real, scale);
    NegatedQuotient(x, scale);
  }

  lemma AsymmetricRange(x: real, least: real, greatest: real, q: int, scale: real)
    requires q >= 1 && scale == Max((greatest - least) / q as real, MIN_SCALE) && least <= x <= greatest
    ensures 0.0 <= x / scale - least / scale <= q as real
  {
    ScaleCovers(greatest - least, q, scale);
    DivideBound(x - least, q as real, scale);
    DivideBound(least - x, 0.0, scale);
    QuotientOfDifference(x, least, scale);
    QuotientOfDifference(least, x, scale);
  }

  /** Before rounding, a value exceeds the range by at most half a step. */
  lemma InRange(row: seq<real>, symmetric: bool, bits: nat, round: real -> int, i: nat)
    requires i < |row| && HasScale(symmetric, bits) && IsRounding(round)
    ensures var scale := Scale(row, symmetric, bits);
            var y := row[i] / scale + ZeroPoint(row, symmetric, scale, round) as real;
            QMin(symmetric, bits) as real - 0.5 <= y <= QMax(symmetric, bits) as real + 0.5
  {
    var scale, q := Scale(row, symmetric, bits), QMax(symmetric, bits);
    var least, greatest := Least(row), Greatest(row);
    if symmetric {
      SymmetricRange(row[i], Max(Abs(least), Abs(greatest)), q, scale);
    } else {
      AsymmetricRange(row[i], least, greatest, q, scale);
      assert Abs(round(least / scale) as real - least / scale) <= 0.5;
    }
  }

  lemma NegatedQuotient(x: real, s: real)
    requires s > 0.0
    ensures (-x) / s == -(x / s)
  {
  }

  lemma QuotientOfDifference(a: real, b: real, s: real)
    requires s > 0.0
    ensures (a - b) / s == a / s - b / s
  {
  }

  lemma Scaled(x: real, scale: real, zeroPoint: int, q: int, y: real)
    requires scale > 0.0 && y == x / scale + zeroPoint as real && Abs(y - q as real) <= 0.5
    ensures Abs(x - Dequantize(q, scale, zeroPoint)) <= scale / 2.0
  {
    var d := y - q as real;
    assert x == scale * (x / scale);
    assert x - Dequantize(q, scale, zeroPoint) == scale * d;
    assert scale * d <= scale * 0.5 by { assert scale * (0.5 - d) >= 0.0; }
    assert scale * d >= scale * -0.5 by { assert scale * (d + 0.5) >= 0.0; }
  }

  /** The range holds as many values as there are words of `bits` bits. */
  lemma RangeHoldsAllWords(symmetric: bool, bits: nat)
    requires bits >= 1
    ensures QMax(symmetric, bits) - QMin(symmetric, bits) + 1 == Pow2(bits)
  {
  }

  /** How far the values of a row reach: from zero, or from the least to the greatest. */
  predicate Reaches(row: seq<real>, symmetric: bool, spread: real) {
    if symmetric
    then (exists i | 0 <= i < |row| :: Abs(row[i]) == spread) && forall i | 0 <= i < |row| :: Abs(row[i]) <= spread
    else && (exists i, j | 0 <= i < |row| && 0 <= j < |row| :: row[i] - row[j] == spread)
         && forall i, j | 0 <= i < |row| && 0 <= j < |row| :: row[i] - row[j] <= spread
  }

  lemma SpreadOf(row: seq<real>, symmetric: bool) returns (spread: real)
    requires row != []
    ensures Reaches(row, symmetric, spread)
    ensures spread == if symmetric then Max(Abs(Least(row)), Abs(Greatest(row))) else Greatest(row) - Least(row)
  {
    var least, greatest := Least(row), Greatest(row);
    var i :| 0 <= i < |row| && row[i] == least;
    var j :| 0 <= j < |row| && row[j] == greatest;
    spread := if symmetric then Max(Abs(least), Abs(greatest)) else greatest - least;
    if symmetric {
      assert Abs(row[i]) == spread || Abs(row[j]) == spread;
    } else {
      assert row[j] - row[i] == spread;
    }
  }

  /** The scale just fits the reach, or is 1e-5 if that is larger. */
  predicate JustFits(spread: real, q: real, scale: real) {
    if spread <= q * 0.00001 then scale == 0.00001 else q * scale == spread
  }

  lemma ClampedJustFits(spread: real, q: real, scale: real)
    requires q > 0.0 && scale == Max(spread / q, MIN_SCALE)
    ensures JustFits(spread, q, scale)
  {
    QuotientAgainst(spread, q, 0.00001);
  }

  lemma ScaleOfReach(row: seq<real>, symmetric: bool, bits: nat, spread: real)
    requires row != [] && HasScale(symmetric, bits)
    requires spread == if symmetric then Max(Abs(Least(row)), Abs(Greatest(row))) else Greatest(row) - Least(row)
    ensures JustFits(spread, QMax(symmetric, bits) as real, Scale(row, symmetric, bits))
  {
    var q, scale := QMax(symmetric, bits), Scale(row, symmetric, bits);
    assert q >= 1 && scale == Max(spread / q as real, MIN_SCALE);
    ClampedJustFits(spread, q as real, scale);
  }

  /** The scale is the one at which the reach of the row just fits, or 1e-5 if that is larger. */
  lemma ScaleJustFits(row: seq<real>, symmetric: bool, bits: nat, spread: real)
    requires row != [] && HasScale(symmetric, bits) && Reaches(row, symmetric, spread)
    ensures JustFits(spread, QMax(symmetric, bits) as real, Scale(row, symmetric, bits))
  {
    var reach := SpreadOf(row, symmetric);
    ScaleOfReach(row, symmetric, bits, reach);
    SameReach(row, symmetric, spread, reach);
  }

  lemma SameReach(row: seq<real>, symmetric: bool, a: real, b: real)
    requires Reaches(row, symmetric, a) && Reaches(row, symmetric, b)
    ensures a == b
  {
  }

  lemma QuotientAgainst(x: real, q: real, m: real)
    requires q > 0.0
    ensures q * (x / q) == x && (x / q <= m <==> x <= q * m)
  {
    var y := x / q;
    assert y * q == x;
    assert y <= m ==> y * q <= m * q;
    assert y > m ==> y * q > m * q;
  }

  /**
  Every quantised value is in range and stands for its original up to half a step.
  */
  lemma ErrorBound(row: seq<real>, symmetric: bool, bits: nat, round: real -> int, i: nat)
    requires i < |row| && HasScale(symmetric, bits) && IsRounding(round)
    ensures var r := Quantize(row, symmetric, bits, round);
            && |r.values| == |row| && r.scale >= MIN_SCALE
            && QMin(symmetric, bits) <= r.values[i] <= QMax(symmetric, bits)
            && Abs(row[i] - Dequantize(r.values[i], r.scale, r.zeroPoint)) <= r.scale / 2.0
  {
    var r := Quantize(row, symmetric, bits, round);
    var y := row[i] / r.scale + r.zeroPoint as real;
    var low, high := QMin(symmetric, bits), QMax(symmetric, bits);
    InRange(row, symmetric, bits, round, i);
    ClampedClose(y, low, high, round(y));
    Scaled(row[i], r.scale, r.zeroPoint, r.values[i], y);
  }

  /** Quantised values survive a round trip. */
  lemma QuantizeDequantized(q: int, scale: real, zeroPoint: int, low: int, high: int, round: real -> int)
    requires scale > 0.0 && IsRounding(round) && low <= q <= high
    ensures QuantizeValue(Dequantize(q, scale, zeroPoint), scale, zeroPoint, low, high, round) == q
  {
    var x := Dequantize(q, scale, zeroPoint);
    assert x / scale == (q - zeroPoint) as real;
    assert x / scale + zeroPoint as real == q as real;
    assert Abs(round(q as real) as real - q as real) <= 0.5;
  }

  // ----- the integer types of the result -----

  /** The range fits the eight bits of the result exactly if no more bits are asked for. */
  lemma FitsEightBits(symmetric: bool, bits: nat)
    requires bits >= 1
    ensures (symmetric ==> (-128 <= QMin(true, bits) && QMax(true, bits) <= 127 <==> bits <= 8))
    ensures (!symmetric ==> (QMax(false, bits) <= 255 <==> bits <= 8))
  {
    assert Pow2(7) == 128 && Pow2(8) == 256;
    Pow2Monotone(bits, 8);
    Pow2Monotone(8, bits);
    Pow2Monotone(bits - 1, 7);
    Pow2Monotone(7, bits - 1);
  }

  lemma {:induction false} Pow2Monotone(a: nat, b: nat)
    ensures a < b ==> Pow2(a) < Pow2(b)
    ensures a == b ==> Pow2(a) == Pow2(b)
  {
    if 0 < a < b {
      Pow2Monotone(a - 1, b - 1);
    }
  }

  const INT32_MAX := 2147483647

  /** A zero point survives the conversion to 32 bits, which is made before its sign is changed. */
  predicate FitsInt32(zeroPoint: int) {
    -INT32_MAX <= zeroPoint <= INT32_MAX
  }

  /** Comparing a quotient is comparing with a product. */
  lemma QuotientBelow(x: real, m: real, s: real)
    requires s > 0.0
    ensures x / s < m <==> x < m * s
  {
    var y := x / s;
    assert y * s == x;
    assert y < m ==> y * s < m * s;
    assert y >= m ==> y * s >= m * s;
  }

  lemma QuotientWithin(x: real, m: real, s: real)
    requires s > 0.0
    ensures -m < x / s < m <==> Abs(x) < m * s
  {
    QuotientBelow(x, m, s);
    QuotientBelow(-x, m, s);
    NegatedQuotient(x, s);
  }

  lemma RoundedFits(x: real, s: real)
    requires s > 0.0
    ensures FitsInt32(-HalfEven(x / s)) <==> Abs(x) < 2147483647.5 * s
  {
    QuotientWithin(x, 2147483647.5, s);
    HalfEvenBelow(x / s);
  }

  /** The zero point fits exactly if the least value is less than 2147483647.5 steps away from zero. */
  lemma ZeroPointFitsIff(row: seq<real>, bits: nat)
    requires row != [] && bits >= 1
    ensures var scale := Scale(row, false, bits);
            FitsInt32(ZeroPoint(row, false, scale, HalfEven)) <==> Abs(Least(row)) < 2147483647.5 * scale
  {
    RoundedFits(Least(row), Scale(row, false, bits));
  }

  lemma HalfEvenBelow(x: real)
    ensures -INT32_MAX <= HalfEven(x) <= INT32_MAX <==> -2147483647.5 < x < 2147483647.5
  {
    var down := x.Floor;
    assert down as real <= x < down as real + 1.0;
  }

  /** A flat row far from zero is one whose zero point does not fit. */
  lemma ZeroPointCanExceedInt32(round: real -> int)
    requires IsRounding(round)
    ensures Quantize([100000.0], false, 8, round).zeroPoint == -10000000000
  {
    var row := [100000.0];
    assert Least(row) == Greatest(row) == 100000.0;
    assert 0.0 / QMax(false, 8) as real == 0.0;
    assert Scale(row, false, 8) == MIN_SCALE;
    var x := 100000.0 / MIN_SCALE;
    assert x == 10000000000.0;
    assert Abs(round(x) as real - x) <= 0.5;
  }
}
