// The Punycode algorithm of RFC 3492 as package idna implements it
// (idna/punycode.go): parameters, digits, bias adaptation and the
// generalized variable-length integers of section 3.3.
//
// Strings are sequences of code points. Every loop of the Go code is a method
// here, computing in wrapping int32 arithmetic; each method is proved against a
// function over unbounded integers.

module Punycode {
  import opened Arithmetic
  import opened Int32
  import opened Wrappers

  // Section 5 of RFC 3492.
  const BASE: int := 36
  const DAMP: int := 700
  const INITIAL_BIAS: int := 72
  const INITIAL_N: int := 128
  const SKEW: int := 38
  const TMAX: int := 26
  const TMIN: int := 1

  const MAX_RUNE: int := 0x10ffff
  const DASH: int := 45

  /** The decoder refuses to continue with a digit weight of this size or more. */
  const WEIGHT_LIMIT: int := 59652323

  type Rune = r: int | 0 <= r <= 0x10ffff
  type Str = seq<Rune>

  // ---------------------------------------------------------------- digits

  function DecodeDigit(x: Rune): (d: Option<int>)
    ensures d.Some? ==> 0 <= d.value < BASE && x < 128 && x != DASH
  {
    if 48 <= x <= 57 then Some(x - 48 + 26)
    else if 65 <= x <= 90 then Some(x - 65)
    else if 97 <= x <= 122 then Some(x - 97)
    else None
  }

  /** The Go function panics outside 0 <= digit < 36; every call is proved inside. */
  function EncodeDigit(digit: int): (x: Rune)
    requires 0 <= digit < BASE
    ensures DecodeDigit(x) == Some(digit)
  {
    if digit < 26 then digit + 97 else digit + (48 - 26)
  }

  /** Section 5 of RFC 3492: letters of either case are 0 to 25, figures 26 to 35, and nothing else is a digit. */
  lemma DigitAlphabet(d: int, x: Rune)
    requires 0 <= d < 36
    ensures d < 26 ==> DecodeDigit(97 + d) == DecodeDigit(65 + d) == Some(d) && EncodeDigit(d) == 97 + d
    ensures d >= 26 ==> DecodeDigit(22 + d) == Some(d) && EncodeDigit(d) == 22 + d
    ensures DecodeDigit(x).None? <==> x < 48 || 57 < x < 65 || 90 < x < 97 || x > 122
  {
  }

  // ------------------------------------------------------- bias adaptation

  function AdaptFrom(delta: nat, k: nat): nat
    decreases delta
  {
    if delta > 455 then AdaptFrom(delta / 35, k + BASE)
    else k + 36 * delta / (delta + SKEW)
  }

  /** Section 6.1 of RFC 3492. */
  function AdaptSpec(delta: nat, numPoints: nat, firstTime: bool): nat
    requires numPoints > 0
  {
    var d := if firstTime then delta / DAMP else delta / 2;
    DivMod(d, numPoints);
    AdaptFrom(d + d / numPoints, 0)
  }

  /** The smallest delta that still exceeds the loop's bound after so many divisions, less 1. */
  function AdaptBound(rounds: nat): nat {
    if rounds == 0 then 455 else AdaptBound(rounds - 1) * 35 + 34
  }

  lemma AdaptRemainder(delta: nat)
    requires delta <= 455
    ensures 0 <= 36 * delta / (delta + SKEW) <= 33
  {
    var q := 36 * delta / (delta + SKEW);
    DivMod(36 * delta, delta + SKEW);
    if q >= 34 {
      MulMonotone(delta + SKEW, 34, q);
    }
  }

  lemma {:induction false} AdaptFromRange(delta: nat, k: nat, rounds: nat)
    requires delta <= AdaptBound(rounds)
    ensures k <= AdaptFrom(delta, k) <= k + BASE * rounds + 33
    decreases rounds
  {
    if delta > 455 {
      AdaptFromRange(delta / 35, k + BASE, rounds - 1);
    } else {
      AdaptRemainder(delta);
    }
  }

  /** Five divisions by 35 bring any int32 below the loop's bound: the bias stays in [0, 213]. */
  lemma AdaptRange(delta: nat, numPoints: nat, firstTime: bool)
    requires delta <= MAX
    requires numPoints > 0
    ensures 0 <= AdaptSpec(delta, numPoints, firstTime) <= 213
  {
    var d := if firstTime then delta / DAMP else delta / 2;
    DivMod(d, numPoints);
    assert AdaptBound(1) == 455 * 35 + 34;
    assert AdaptBound(3) == (AdaptBound(1) * 35 + 34) * 35 + 34;
    assert AdaptBound(5) == (AdaptBound(3) * 35 + 34) * 35 + 34;
    AdaptFromRange(d + d / numPoints, 0, 5);
  }

  /** With two points or more, or after damping, the scaled delta cannot leave int32. */
  lemma ScaledDelta(d: nat, numPoints: int)
    requires numPoints > 0 && d <= MAX
    requires d <= MAX / DAMP || (numPoints > 1 && d <= MAX / 2)
    ensures 0 <= d + d / numPoints <= MAX
  {
    DivMod(d, numPoints);
    if numPoints > 1 {
      MulMonotone(d / numPoints, 2, numPoints);
    }
  }

  method Adapt(delta: int, numPoints: int, firstTime: bool) returns (bias: int)
    requires 0 <= delta <= MAX && 0 < numPoints <= MAX
    requires firstTime || numPoints > 1
    ensures bias == AdaptSpec(delta, numPoints, firstTime)
    ensures 0 <= bias <= 213
  {
    AdaptRange(delta, numPoints, firstTime);
    var d := if firstTime then delta / DAMP else delta / 2;
    ScaledDelta(d, numPoints);
    d := Wrap(d + d / numPoints);
    var k := 0;
    while d > (BASE - TMIN) * TMAX / 2
      invariant 0 <= d
      invariant 0 <= k && k <= AdaptFrom(d, k) == AdaptSpec(delta, numPoints, firstTime)
    {
      AdaptFromAtLeast(d / 35, k + BASE);
      d := d / (BASE - TMIN);
      k := Wrap(k + BASE);
    }
    AdaptRemainder(d);
    bias := Wrap(k + Wrap((BASE - TMIN + 1) * d) / Wrap(d + SKEW));
  }

  lemma {:induction false} AdaptFromAtLeast(delta: nat, k: nat)
    ensures AdaptFrom(delta, k) >= k
    decreases delta
  {
    if delta > 455 {
      AdaptFromAtLeast(delta / 35, k + BASE);
    } else {
      AdaptRemainder(delta);
    }
  }

  /** 35 ^ rounds. */
  function Pow35(n: nat): (p: nat)
    ensures p > 0
  {
    if n == 0 then 1 else 35 * Pow35(n - 1)
  }

  /**
   * The loop of adapt in closed form: with the number of divisions that bring delta below 456, 36 for
   * each of them and the share of what is left.
   */
  lemma {:induction false} AdaptClosed(delta: nat, k: nat, rounds: nat)
    requires delta / Pow35(rounds) <= 455 && (rounds > 0 ==> delta / Pow35(rounds - 1) > 455)
    ensures var left := delta / Pow35(rounds);
      AdaptFrom(delta, k) == k + 36 * rounds + 36 * left / (left + 38)
    decreases rounds
  {
    if rounds > 0 {
      DivideTwice(delta, 35, Pow35(rounds - 1));
      DivMod(delta, Pow35(rounds - 1));
      if rounds > 1 {
        DivideTwice(delta, 35, Pow35(rounds - 2));
      }
      AdaptClosed(delta / 35, k + BASE, rounds - 1);
    }
  }

  /** Section 6.1 of RFC 3492, without its loop. */
  lemma AdaptMeaning(delta: nat, numPoints: nat, firstTime: bool, d: nat, scaled: nat, rounds: nat, left: nat)
    requires numPoints > 0 && d == (if firstTime then delta / 700 else delta / 2) && scaled == d + d / numPoints
    requires left == scaled / Pow35(rounds) && left <= 455 && (rounds > 0 ==> scaled / Pow35(rounds - 1) > 455)
    ensures AdaptSpec(delta, numPoints, firstTime) == 36 * rounds + 36 * left / (left + 38)
  {
    AdaptClosed(scaled, 0, rounds);
    hide Pow35, AdaptFrom;
  }

  /** The first distance is damped by 700, every later one halved. */
  lemma AdaptScales(d: nat, numPoints: nat, r: nat, s: nat)
    requires numPoints > 0 && r < 2 && s < 700
    ensures AdaptSpec(2 * d + r, numPoints, false) == AdaptSpec(700 * d + s, numPoints, true)
  {
    assert (2 * d + r) / 2 == d && (700 * d + s) / 700 == d;
    hide AdaptFrom;
  }

  // ------------------------------- generalized variable-length integers

  /** The threshold of the digit at position k: k - bias, clamped to [TMIN, TMAX]. */
  function Threshold(k: int, bias: int): (t: int)
    ensures TMIN <= t <= TMAX
  {
    if k - bias < TMIN then TMIN else if k - bias > TMAX then TMAX else k - bias
  }

  /** The digit that stands for q at threshold t when q does not fit below it. */
  function Digit(q: nat, t: int): (digit: int)
    requires TMIN <= t <= TMAX && t <= q
    ensures t <= digit < BASE
  {
    t + (q - t) % (BASE - t)
  }

  /** What is left of q behind that digit. */
  function Rest(q: nat, t: int): (rest: int)
    requires TMIN <= t <= TMAX && t <= q
    ensures 0 <= rest < q
    ensures q == Digit(q, t) + (BASE - t) * rest
  {
    DivMod(q - t, BASE - t);
    (q - t) / (BASE - t)
  }

  /** The digits of q, least significant first; only the last is below its threshold. */
  function VarInt(q: nat, k: int, bias: int): (ds: Str)
    ensures |ds| > 0
    decreases q
  {
    var t := Threshold(k, bias);
    if q < t then [EncodeDigit(q)]
    else [EncodeDigit(Digit(q, t))] + VarInt(Rest(q, t), k + BASE, bias)
  }

  /** No digit of q but the last makes the weight that follows it reach the limit. */
  predicate WeightsFit(q: nat, w: nat, k: int, bias: int)
    decreases q
  {
    var t := Threshold(k, bias);
    q < t || (w * (BASE - t) < WEIGHT_LIMIT
              && WeightsFit(Rest(q, t), w * (BASE - t), k + BASE, bias))
  }

  datatype Reading = Bad | Got(i: int, pos: nat)

  /** One generalized variable-length integer read at pos and added to i, with weight w. */
  function ReadVar(e: Str, pos: nat, i: nat, w: nat, k: int, bias: int): (r: Reading)
    requires pos <= |e|
    ensures r.Got? ==> i <= r.i <= MAX && pos < r.pos <= |e|
    decreases |e| - pos
  {
    if pos == |e| then Bad
    else
      match DecodeDigit(e[pos])
      case None => Bad
      case Some(digit) =>
        var sum := i + digit * w;
        var t := Threshold(k, bias);
        if sum > MAX then Bad
        else if digit < t then Got(sum, pos + 1)
        else if w * (BASE - t) >= WEIGHT_LIMIT then Bad
        else
          MulMonotone(w, 0, BASE - t);
          ReadVar(e, pos + 1, sum, w * (BASE - t), k + BASE, bias)
  }

  /** One digit of the reading that is neither refused nor the last. */
  lemma ReadDigit(e: Str, pos: nat, i: nat, w: nat, k: int, bias: int, digit: int)
    requires pos < |e| && DecodeDigit(e[pos]) == Some(digit)
    requires Threshold(k, bias) <= digit && 0 <= digit * w && i + digit * w <= MAX
    requires 0 <= w * (BASE - Threshold(k, bias))
    ensures var next := w * (BASE - Threshold(k, bias));
      ReadVar(e, pos, i, w, k, bias)
      == if next >= WEIGHT_LIMIT then Bad else ReadVar(e, pos + 1, i + digit * w, next, k + BASE, bias)
  {
  }

  /**
   * The integers are self-delimiting: wherever the digits of q stand in a string, reading
   * there yields exactly q and stops right behind them, unless the weight limit rejects.
   */
  lemma {:induction false} VarIntReadsBack(q: nat, e: Str, pos: nat, i: nat, w: nat, k: int, bias: int)
    requires pos + |VarInt(q, k, bias)| <= |e|
    requires e[pos..pos + |VarInt(q, k, bias)|] == VarInt(q, k, bias)
    requires i + q * w <= MAX
    ensures ReadVar(e, pos, i, w, k, bias)
            == if WeightsFit(q, w, k, bias) then Got(i + q * w, pos + |VarInt(q, k, bias)|) else Bad
    decreases q
  {
    var t := Threshold(k, bias);
    var ds := VarInt(q, k, bias);
    assert e[pos] == ds[0];
    if q >= t {
      var rest, digit := Rest(q, t), Digit(q, t);
      assert e[pos + 1..pos + |ds|] == ds[1..] == VarInt(rest, k + BASE, bias);
      SplitWeight(digit, BASE - t, rest, w);
      ReadDigit(e, pos, i, w, k, bias, digit);
      VarIntReadsBack(rest, e, pos + 1, i + digit * w, w * (BASE - t), k + BASE, bias);
    }
  }

  lemma SplitWeight(digit: nat, d: nat, rest: nat, w: nat)
    ensures digit * w + rest * (w * d) == (digit + d * rest) * w
    ensures 0 <= digit * w && 0 <= rest * (w * d) && 0 <= w * d
  {
    assert rest * (w * d) == (d * rest) * w;
    assert 0 <= (d * rest) * w;
  }

  // -------------------------------------------- when the weight limit is met

  /** Below this bound a number passes the weight limit under every bias adapt can return. */
  const SAFE_DELTA: int := 74565403

  lemma {:induction false} Pow35AtLeast(n: nat)
    requires n >= 6
    ensures Pow35(n) >= SAFE_DELTA
    decreases n
  {
    assert Pow35(2) == 1225;
    assert Pow35(4) == 35 * (35 * Pow35(2));
    assert Pow35(6) == 35 * (35 * Pow35(4));
    if n > 6 {
      Pow35AtLeast(n - 1);
    }
  }

  /** The weight behind the digit at position k == BASE * (j + 1) stays below the limit. */
  lemma WeightStep(w: nat, j: nat, t: int, bias: int)
    requires 0 <= bias <= 213 && t == Threshold(BASE * (j + 1), bias)
    requires w * t < SAFE_DELTA
    requires w == Pow35(j) || BASE * (j + 1) - bias >= 20
    ensures w * (BASE - t) < WEIGHT_LIMIT
  {
    MulMonotone(w, 1, t);
    if BASE * (j + 1) - bias >= 20 {
      MulMonotone(w, 20, t);
      MulMonotone(w, BASE - t, 16);
    } else if j >= 6 {
      Pow35AtLeast(j);
      assert false;
    } else {
      assert Pow35(2) == 1225;
      assert Pow35(4) == 35 * (35 * Pow35(2));
      assert j == 5 ==> Pow35(j) == 35 * Pow35(4);
      assert j == 3 ==> Pow35(j) == 35 * Pow35(2);
      MulMonotone(w, BASE - t, 35);
      if j == 5 {
        MulMonotone(w, 3, t);
        assert false;
      }
    }
  }

  /** Weight and position of the next digit are related as those of this one. */
  lemma NextWeight(w: nat, j: nat, t: int, bias: int)
    requires t == Threshold(BASE * (j + 1), bias)
    requires w == Pow35(j) || BASE * (j + 1) - bias >= 20
    ensures 0 <= w * (BASE - t)
    ensures w * (BASE - t) == Pow35(j + 1) || BASE * (j + 2) - bias >= 20
  {
    MulMonotone(w, 0, BASE - t);
  }

  lemma {:induction false} SmallWeightsFit(q: nat, w: nat, j: nat, k: int, bias: int)
    requires 0 <= bias <= 213 && k == BASE * (j + 1)
    requires q * w < SAFE_DELTA
    requires w == Pow35(j) || k - bias >= 20
    ensures WeightsFit(q, w, k, bias)
    decreases q
  {
    var t := Threshold(k, bias);
    if q >= t {
      RestWeight(q, w, t);
      WeightStep(w, j, t, bias);
      NextWeight(w, j, t, bias);
      SmallWeightsFit(Rest(q, t), w * (BASE - t), j + 1, k + BASE, bias);
    }
  }

  lemma RestWeight(q: nat, w: nat, t: int)
    requires TMIN <= t <= TMAX && t <= q
    ensures w * t <= q * w
    ensures Rest(q, t) * (w * (BASE - t)) <= q * w
  {
    MulMonotone(w, t, q);
    var digit, rest := Digit(q, t), Rest(q, t);
    SplitWeight(digit, BASE - t, rest, w);
  }
}
