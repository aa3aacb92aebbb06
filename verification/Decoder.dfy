// The decoder of idna/punycode.go (section 6.2 of RFC 3492).

module Decoder {
  import opened Arithmetic
  import opened Int32
  import opened Punycode
  import opened Wrappers

  const MAX_OUTPUT: int := 1024

  /** Index of the last c in s, or -1. */
  function LastIndex(s: Str, c: Rune): (i: int)
    ensures -1 <= i < |s|
    ensures i >= 0 ==> s[i] == c
    ensures forall j :: i < j < |s| ==> s[j] != c
  {
    if |s| == 0 then -1
    else if s[|s| - 1] == c then |s| - 1
    else LastIndex(s[..|s| - 1], c)
  }

  function Insert(s: Str, at: nat, r: Rune): Str
    requires at <= |s|
  {
    s[..at] + [r] + s[at..]
  }

  /** Where the decoder stands: the buffer, and the code point and index of its counter. */
  datatype State = State(output: Str, i: nat, n: nat, bias: int)

  /** The insertion asked for when the counter i has been moved on to sum. */
  function InsertAt(st: State, sum: nat): Result<State>
    requires st.i <= sum
  {
    var x := |st.output| + 1;
    DivMod(sum, x);
    InsertRounds(st, sum, sum / x, sum % x)
  }

  /** So many rounds of the counter later, at the index it has then. */
  function InsertRounds(st: State, sum: nat, rounds: nat, at: nat): Result<State>
    requires st.i <= sum && at <= |st.output|
  {
    var rune := st.n + rounds;
    if rune > MAX_RUNE || |st.output| >= MAX_OUTPUT then Err
    else Ok(State(Insert(st.output, at, rune), at + 1, rune, AdaptSpec(sum - st.i, |st.output| + 1, st.i == 0)))
  }

  /** The insertion, without a division: sum is so many rounds of the counter and an index. */
  lemma InsertAtRounds(st: State, sum: nat, rounds: nat, at: nat)
    requires st.i <= sum && at <= |st.output| && sum == (|st.output| + 1) * rounds + at
    ensures InsertAt(st, sum) == InsertRounds(st, sum, rounds, at)
  {
    hide InsertRounds;
    DivModUnique(sum, |st.output| + 1, rounds, at);
  }

  /** The insertions that the digits from pos on describe, over unbounded integers. */
  function DecodeExt(e: Str, pos: nat, st: State): Result<Str>
    requires pos <= |e|
    decreases |e| - pos
  {
    if pos == |e| then Ok(st.output)
    else
      match ReadVar(e, pos, st.i, 1, BASE, st.bias)
      case Bad => Err
      case Got(sum, next) =>
        match InsertAt(st, sum)
        case Err => Err
        case Ok(after) => DecodeExt(e, next, after)
  }

  function Start(basic: Str): State {
    State(basic, 0, INITIAL_N, INITIAL_BIAS)
  }

  function DecodeSpec(e: Str): Result<Str> {
    var pos := 1 + LastIndex(e, DASH);
    if e == [] then Ok([])
    else if pos == 1 then Err
    else if pos == |e| then Ok(e[..|e| - 1])
    else DecodeExt(e, pos, Start(if pos != 0 then e[..pos - 1] else []))
  }

  // ------------------------------------------------- what is refused, and what is the same

  /** A reading stops in front of a character that is no digit, or fails. */
  lemma {:induction false} ReadingStops(e: Str, pos: nat, k: nat, i: nat, w: nat, position: int, bias: int)
    requires pos <= k < |e| && DecodeDigit(e[k]) == None
    ensures var r := ReadVar(e, pos, i, w, position, bias);
      r.Bad? || r.pos <= k
    decreases k - pos
  {
    if pos < k && DecodeDigit(e[pos]).Some? {
      var digit, t := DecodeDigit(e[pos]).value, Threshold(position, bias);
      if t <= digit && i + digit * w <= MAX && w * (BASE - t) < WEIGHT_LIMIT {
        MulMonotone(w, 0, digit);
        MulMonotone(w, 0, BASE - t);
        ReadingStops(e, pos + 1, k, i + digit * w, w * (BASE - t), position + BASE, bias);
      }
    }
  }

  /** A character behind the border that is no digit makes the decoder refuse the string. */
  lemma {:induction false} NonDigitRefused(e: Str, pos: nat, st: State, k: nat)
    requires pos <= k < |e| && DecodeDigit(e[k]) == None
    ensures DecodeExt(e, pos, st) == Err
    decreases k - pos
  {
    ReadingStops(e, pos, k, st.i, 1, BASE, st.bias);
    var reading := ReadVar(e, pos, st.i, 1, BASE, st.bias);
    if reading.Got? && InsertAt(st, reading.i).Ok? {
      NonDigitRefused(e, reading.pos, InsertAt(st, reading.i).value, k);
    }
  }

  /** The same digits from pos on. */
  ghost predicate SameDigits(e: Str, f: Str, pos: nat) {
    |e| == |f| && forall k :: pos <= k < |e| ==> DecodeDigit(e[k]) == DecodeDigit(f[k])
  }

  lemma {:induction false} SameReading(e: Str, f: Str, pos: nat, i: nat, w: nat, k: int, bias: int)
    requires SameDigits(e, f, pos) && pos <= |e|
    ensures ReadVar(e, pos, i, w, k, bias) == ReadVar(f, pos, i, w, k, bias)
    decreases |e| - pos
  {
    if pos < |e| && DecodeDigit(e[pos]).Some? {
      var digit, t := DecodeDigit(e[pos]).value, Threshold(k, bias);
      if t <= digit && i + digit * w <= MAX && w * (BASE - t) < WEIGHT_LIMIT {
        MulMonotone(w, 0, digit);
        MulMonotone(w, 0, BASE - t);
        SameReading(e, f, pos + 1, i + digit * w, w * (BASE - t), k + BASE, bias);
      }
    }
  }

  /** Behind the border the case of letters does not matter. */
  lemma {:induction false} CaseIgnored(e: Str, f: Str, pos: nat, st: State)
    requires SameDigits(e, f, pos) && pos <= |e|
    ensures DecodeExt(e, pos, st) == DecodeExt(f, pos, st)
    decreases |e| - pos
  {
    if pos < |e| {
      SameReading(e, f, pos, st.i, 1, BASE, st.bias);
      var reading := ReadVar(e, pos, st.i, 1, BASE, st.bias);
      if reading.Got? && InsertAt(st, reading.i).Ok? {
        CaseIgnored(e, f, reading.pos, InsertAt(st, reading.i).value);
      }
    }
  }

  lemma {:induction false} LastDash(front: Str, behind: Str)
    requires 45 !in behind
    ensures LastIndex(front + [45] + behind, DASH) == |front|
    decreases |behind|
  {
    var e, n := front + [45] + behind, |behind|;
    if behind != [] {
      assert e[|e| - 1] == behind[n - 1] && behind[n - 1] in behind;
      assert e[..|e| - 1] == front + [45] + behind[..n - 1];
      LastDash(front, behind[..n - 1]);
    }
  }

  /**
   * The ends of decode: nothing is nothing, a dash at the end stands for its basic code points, and a
   * string that starts with its only dash is refused.
   */
  lemma DecodeEdges(basic: Str, behind: Str)
    requires 45 !in behind
    ensures DecodeSpec([]) == Ok([])
    ensures basic != [] ==> DecodeSpec(basic + [45]) == Ok(basic)
    ensures DecodeSpec([45] + behind) == Err
  {
    LastDash(basic, []);
    LastDash([], behind);
    assert basic + [45] + [] == basic + [45] && (basic + [45])[..|basic|] == basic;
    assert [] + [45] + behind == [45] + behind;
  }

  // ------------------------------------------------------------------ in int32

  /** One digit more keeps the growth of i behind that of w. */
  lemma GrowthStep(i: nat, digit: nat, w: nat, t: int)
    requires 9 * i <= 35 * (w - 1) && digit < BASE && TMIN <= t <= TMAX
    ensures 9 * (i + digit * w) <= 35 * (w * (BASE - t) - 1)
    ensures w * (BASE - t) >= 10 * w
  {
    MulMonotone(w, 10, BASE - t);
    MulMonotone(w, digit, 35);
  }

  /** The product of a digit and an accepted weight is an int32, and so is the next weight. */
  lemma WeightInRange(digit: nat, w: nat, t: int)
    requires digit < BASE && w < WEIGHT_LIMIT && TMIN <= t <= TMAX
    ensures 0 <= digit * w <= MAX
    ensures 10 * w <= w * (BASE - t) <= MAX
  {
    MulMonotone(w, 0, digit);
    MulMonotone(w, digit, 35);
    MulMonotone(w, 10, BASE - t);
    MulMonotone(w, BASE - t, 35);
  }

  /**
   * The inner loop: reads one integer in int32 arithmetic. A wrap of i shows in its sign,
   * and nothing else can wrap.
   */
  method ReadVarInt(e: Str, start: nat, oldI: int, bias: int) returns (r: Reading)
    requires start <= |e| && 0 <= oldI <= MAX && 0 <= bias <= 213
    ensures r == ReadVar(e, start, oldI, 1, BASE, bias)
    ensures r.Got? && oldI == 0 ==> r.i <= MAX - MAX_RUNE
  {
    var pos, i, w, k := start, oldI, 1, BASE;
    while true
      invariant start <= pos <= |e|
      invariant 0 <= i <= MAX && 1 <= w < WEIGHT_LIMIT && BASE <= k <= BASE * w
      invariant oldI == 0 ==> 9 * i <= 35 * (w - 1)
      invariant ReadVar(e, pos, i, w, k, bias) == ReadVar(e, start, oldI, 1, BASE, bias)
      decreases |e| - pos
    {
      if pos == |e| {
        return Bad;
      }
      var d := DecodeDigit(e[pos]);
      if d.None? {
        return Bad;
      }
      var digit := d.value;
      pos := pos + 1;
      var t := Threshold(k, bias);
      WeightInRange(digit, w, t);
      ghost var before := i;
      i := Wrap(i + Wrap(digit * w));
      if i < 0 {
        return Bad;
      }
      if digit < t {
        if oldI == 0 {
          MulMonotone(w, digit, 25);
        }
        return Got(i, pos);
      }
      if oldI == 0 {
        GrowthStep(before, digit, w, t);
      }
      w := Wrap(w * Wrap(BASE - t));
      if w >= MAX / BASE {
        return Bad;
      }
      k := Wrap(k + BASE);
    }
  }

  lemma QuotientInRange(i: nat, x: nat, n: nat)
    requires 0 < x && i <= MAX && n <= MAX_RUNE
    requires x == 1 ==> i <= MAX - MAX_RUNE
    ensures 0 <= n + i / x <= MAX && 0 <= i % x < x
  {
    DivMod(i, x);
    QuotientBound(i, x, i / x, i % x);
  }

  lemma QuotientBound(i: nat, x: nat, q: nat, r: nat)
    requires 0 < x && i == x * q + r
    ensures x == 1 ==> q <= i
    ensures x > 1 ==> 2 * q <= i
  {
    if x > 1 {
      MulMonotone(q, 2, x);
    }
  }

  /** The rest of the outer loop's body: adapts the bias and inserts the next code point. */
  method InsertRune(st: State, sum: int) returns (r: Result<State>)
    requires |st.output| < MAX && st.i <= sum <= MAX && st.i <= |st.output| && st.n <= MAX_RUNE
    requires st.i == 0 ==> sum <= MAX - MAX_RUNE
    ensures r == InsertAt(st, sum)
    ensures r.Ok? ==> && |r.value.output| == |st.output| + 1
                      && r.value.i <= |r.value.output| && r.value.n <= MAX_RUNE && 0 <= r.value.bias <= 213
  {
    var i, x := sum, Wrap(|st.output| + 1);
    var bias := Adapt(Wrap(i - st.i), x, st.i == 0);
    QuotientInRange(i, x, st.n);
    DivMod(i, x);
    InsertAtRounds(st, sum, i / x, i % x);
    hide Insert, AdaptSpec, Wrap, InsertAt;
    var n := Wrap(st.n + i / x);
    i := i % x;
    if n > MAX_RUNE || |st.output| >= MAX_OUTPUT {
      return Err;
    }
    r := Ok(State(Insert(st.output, i, n), Wrap(i + 1), n, bias));
  }

  /** Decoding in wrapping int32 arithmetic is decoding over unbounded integers, on every input. */
  method Decode(encoded: Str) returns (r: Result<Str>)
    requires |encoded| < MAX
    ensures r == DecodeSpec(encoded)
  {
    if encoded == [] {
      return Ok([]);
    }
    var pos := 1 + LastIndex(encoded, DASH);
    if pos == 1 {
      return Err;
    }
    if pos == |encoded| {
      return Ok(encoded[..|encoded| - 1]);
    }
    var output: Str := [];
    if pos != 0 {
      output := encoded[..pos - 1];
    }
    var i, n, bias := 0, INITIAL_N, INITIAL_BIAS;
    while pos < |encoded|
      invariant pos <= |encoded| && |output| <= pos
      invariant 0 <= i <= |output| && 0 <= n <= MAX_RUNE && 0 <= bias <= 213
      invariant DecodeExt(encoded, pos, State(output, i, n, bias)) == DecodeSpec(encoded)
    {
      var oldI := i;
      var reading := ReadVarInt(encoded, pos, oldI, bias);
      if reading.Bad? {
        return Err;
      }
      i, pos := reading.i, reading.pos;
      var after := InsertRune(State(output, oldI, n, bias), i);
      if after.Err? {
        return Err;
      }
      output, i, n, bias := after.value.output, after.value.i, after.value.n, after.value.bias;
    }
    return Ok(output);
  }
}
