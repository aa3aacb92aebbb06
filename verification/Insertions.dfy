// What the Punycode encoder has to say about a string: the list of insertions that
// turns its basic code points back into the string, by increasing code point and,
// within one code point, from left to right (section 6.3 of RFC 3492).
//
// The definition steps through every code point from 128 on; it knows nothing of the
// encoder's search for the next minimum nor of its running delta.

module Insertions {
  import opened Arithmetic
  import opened Int32
  import opened Punycode

  /** The code points of s that are at most n, in order. */
  function UpTo(s: Str, n: int): (r: Str)
    ensures |r| <= |s|
  {
    if s == [] then [] else (if s[0] <= n then [s[0]] else []) + UpTo(s[1..], n)
  }

  lemma {:induction false} UpToConcat(a: Str, b: Str, n: int)
    ensures UpTo(a + b, n) == UpTo(a, n) + UpTo(b, n)
  {
    if a == [] {
      assert a + b == b;
    } else {
      assert (a + b)[1..] == a[1..] + b;
      UpToConcat(a[1..], b, n);
    }
  }

  lemma {:induction false} UpToAll(s: Str, n: int)
    requires n >= MAX_RUNE
    ensures UpTo(s, n) == s
  {
    if s != [] {
      UpToAll(s[1..], n);
    }
  }

  /** Nothing of s lies strictly between m and n. */
  lemma {:induction false} UpToGap(s: Str, m: int, n: int)
    requires m <= n && forall k :: 0 <= k < |s| ==> s[k] <= m || n < s[k]
    ensures UpTo(s, n) == UpTo(s, m)
  {
    if s != [] {
      UpToGap(s[1..], m, n);
    }
  }

  lemma UpToExtend(s: Str, j: nat, n: int)
    requires j < |s|
    ensures UpTo(s[..j + 1], n) == UpTo(s[..j], n) + (if s[j] <= n then [s[j]] else [])
    ensures UpTo(s[j..], n) == (if s[j] <= n then [s[j]] else []) + UpTo(s[j + 1..], n)
  {
    assert s[..j + 1] == s[..j] + [s[j]];
    UpToConcat(s[..j], [s[j]], n);
    assert s[j..][1..] == s[j + 1..];
  }

  /**
   * The part of s handled when the scan for code point n has reached index j: everything
   * below n, and the occurrences of n before j.
   */
  function Handled(s: Str, n: int, j: nat): (r: Str)
    requires j <= |s|
    ensures |r| <= |s|
  {
    UpTo(s[..j], n) + UpTo(s[j..], n - 1)
  }

  /** How many handled code points lie before index j. */
  function Before(s: Str, n: int, j: nat): (c: nat)
    requires j <= |s|
    ensures c <= |Handled(s, n, j)|
  {
    |UpTo(s[..j], n)|
  }

  lemma HandledSkip(s: Str, n: int, j: nat)
    requires j < |s| && s[j] != n
    ensures Handled(s, n, j + 1) == Handled(s, n, j)
    ensures Before(s, n, j + 1) == Before(s, n, j) + (if s[j] < n then 1 else 0)
  {
    UpToExtend(s, j, n);
    UpToExtend(s, j, n - 1);
  }

  lemma HandledInsert(s: Str, n: int, j: nat)
    requires j < |s| && s[j] == n
    ensures Before(s, n, j + 1) == Before(s, n, j) + 1
    ensures Handled(s, n, j + 1)
            == Handled(s, n, j)[..Before(s, n, j)] + [s[j]] + Handled(s, n, j)[Before(s, n, j)..]
  {
    UpToExtend(s, j, n);
    UpToExtend(s, j, n - 1);
  }

  lemma HandledNext(s: Str, n: int)
    ensures Handled(s, n, |s|) == UpTo(s, n) == Handled(s, n + 1, 0)
    ensures Before(s, n, |s|) == |UpTo(s, n)| && Before(s, n + 1, 0) == 0
  {
    assert s[..|s|] == s && s[|s|..] == [] && s[..0] == [] && s[0..] == s;
  }

  function Basic(s: Str): Str {
    UpTo(s, 127)
  }

  /** The code point and index the last insertion left behind, and the bias for the next. */
  datatype Counter = Counter(n: int, i: nat, bias: int)

  ghost predicate Ready(s: Str, n: int, j: nat, c: Counter) {
    && j <= |s|
    && INITIAL_N <= c.n <= n
    && c.i <= |Handled(s, n, j)|
    && (c.n == n ==> c.i <= Before(s, n, j))
    && (c.i == 0 <==> |Handled(s, n, j)| == |Basic(s)|)
    && |Basic(s)| <= |Handled(s, n, j)|
  }

  /** How far the counter has to move before it reaches code point n and index j. */
  function Distance(s: Str, n: int, j: nat, c: Counter): int
    requires j <= |s|
  {
    (n - c.n) * (|Handled(s, n, j)| + 1) + Before(s, n, j) - c.i
  }

  lemma CounterMoves(n0: int, i0: int, n: int, i: int, h: nat)
    requires n0 <= n && i0 <= h && 0 <= i && (n0 == n ==> i0 <= i)
    ensures (n - n0) * (h + 1) + i - i0 >= 0
  {
    if n0 < n {
      MulMonotone(h + 1, 1, n - n0);
    }
  }

  lemma DistanceNonNegative(s: Str, n: int, j: nat, c: Counter)
    requires Ready(s, n, j, c)
    ensures Distance(s, n, j, c) >= 0
  {
    CounterMoves(c.n, c.i, n, Before(s, n, j), |Handled(s, n, j)|);
  }

  lemma DistanceSkip(s: Str, n: int, j: nat, c: Counter)
    requires Ready(s, n, j, c) && j < |s| && s[j] != n
    ensures Ready(s, n, j + 1, c)
    ensures Distance(s, n, j + 1, c) == Distance(s, n, j, c) + (if s[j] < n then 1 else 0)
  {
    HandledSkip(s, n, j);
  }

  lemma DistanceNext(s: Str, n: int, c: Counter)
    requires Ready(s, n, |s|, c)
    ensures Ready(s, n + 1, 0, c)
    ensures Distance(s, n + 1, 0, c) == Distance(s, n, |s|, c) + 1
  {
    HandledNext(s, n);
    Distribute(n - c.n, 1, |UpTo(s, n)| + 1);
  }

  /** One insertion: the distance to it and the bias in force. */
  datatype Insertion = Insertion(delta: nat, bias: int)

  /** The counter behind the insertion of s[j]. */
  function Moved(s: Str, n: int, j: nat, c: Counter): Counter
    requires j < |s| && 0 <= Distance(s, n, j, c)
  {
    var h := |Handled(s, n, j)|;
    Counter(n, Before(s, n, j) + 1, AdaptSpec(Distance(s, n, j, c), h + 1, h == |Basic(s)|))
  }

  lemma ReadyMoved(s: Str, n: int, j: nat, c: Counter)
    requires Ready(s, n, j, c) && j < |s| && s[j] == n
    requires 0 <= Distance(s, n, j, c)
    ensures Ready(s, n, j + 1, Moved(s, n, j, c))
    ensures Distance(s, n, j + 1, Moved(s, n, j, c)) == 0
    ensures |Handled(s, n, j + 1)| == |Handled(s, n, j)| + 1
  {
    HandledInsert(s, n, j);
    HandledBelow(s, n, j, |Handled(s, n, j)|);
  }

  lemma HandledBelow(s: Str, n: int, j: nat, h: nat)
    requires j < |s| && s[j] == n && h == |Handled(s, n, j)|
    ensures h < |s|
  {
    HandledInsert(s, n, j);
  }

  /** The insertions still to come when the scan for code point n has reached index j. */
  function InsertionsFrom(s: Str, n: int, j: nat, c: Counter): seq<Insertion>
    requires Ready(s, n, j, c)
    decreases MAX_RUNE + 1 - n, |s| - j
  {
    if n > MAX_RUNE then []
    else if j == |s| then
      DistanceNext(s, n, c);
      InsertionsFrom(s, n + 1, 0, c)
    else if s[j] != n then
      DistanceSkip(s, n, j, c);
      InsertionsFrom(s, n, j + 1, c)
    else
      DistanceNonNegative(s, n, j, c);
      ReadyMoved(s, n, j, c);
      [Insertion(Distance(s, n, j, c), c.bias)] + InsertionsFrom(s, n, j + 1, Moved(s, n, j, c))
  }

  const START: Counter := Counter(INITIAL_N, 0, INITIAL_BIAS)

  lemma ReadyAtStart(s: Str)
    ensures Ready(s, INITIAL_N, 0, START)
    ensures Handled(s, INITIAL_N, 0) == Basic(s) && Distance(s, INITIAL_N, 0, START) == 0
  {
    assert s[..0] == [] && s[0..] == s;
  }

  /** All the insertions that build s from its basic code points. */
  function InsertionsOf(s: Str): seq<Insertion> {
    ReadyAtStart(s);
    InsertionsFrom(s, INITIAL_N, 0, START)
  }

  function Digits(ins: seq<Insertion>): Str {
    if ins == [] then [] else VarInt(ins[0].delta, BASE, ins[0].bias) + Digits(ins[1..])
  }

  /** No digit of the list is refused by the decoder for its weight. */
  predicate AllWeightsFit(ins: seq<Insertion>) {
    forall k :: 0 <= k < |ins| ==> WeightsFit(ins[k].delta, 1, BASE, ins[k].bias)
  }

  /** Every distance is an int32. */
  predicate AllInRange(ins: seq<Insertion>) {
    forall k :: 0 <= k < |ins| ==> ins[k].delta <= MAX
  }

  /** What the encoder writes: the basic code points, a dash behind them if any, the digits. */
  function EncodeSpec(s: Str): Str {
    Basic(s) + (if Basic(s) != [] then [DASH] else []) + Digits(InsertionsOf(s))
  }
}
