// How the encoder's loops move through the list of insertions.

module Tracking {
  import opened Arithmetic
  import opened Checks
  import opened Insertions
  import opened Int32
  import opened Punycode
  import opened RoundTrip

  /** A scan that does not meet n again has no insertion left to make for n. */
  lemma {:induction false} RestOfPass(s: Str, n: int, j: nat, c: Counter)
    requires Ready(s, n, j, c) && n <= MAX_RUNE
    requires forall k :: j <= k < |s| ==> s[k] != n
    ensures Ready(s, n, |s|, c)
    ensures InsertionsFrom(s, n, j, c) == InsertionsFrom(s, n, |s|, c)
    decreases |s| - j
  {
    if j < |s| {
      DistanceSkip(s, n, j, c);
      RestOfPass(s, n, j + 1, c);
    }
  }

  lemma ReadyLater(s: Str, n: int, m: int, c: Counter)
    requires Ready(s, n, 0, c) && n <= m
    requires forall k :: 0 <= k < |s| ==> s[k] < n || m <= s[k]
    ensures Ready(s, m, 0, c) && Handled(s, m, 0) == Handled(s, n, 0)
    ensures Distance(s, m, 0, c) == Distance(s, n, 0, c) + (m - n) * (|Handled(s, n, 0)| + 1)
  {
    assert s[0..] == s && s[..0] == [];
    UpToGap(s, n - 1, m - 1);
    Distribute(n - c.n, m - n, |Handled(s, n, 0)| + 1);
  }

  lemma {:induction false} NothingBetween(s: Str, n: int, m: int, c: Counter)
    requires Ready(s, n, 0, c) && Ready(s, m, 0, c) && n <= m <= MAX_RUNE + 1
    requires forall k :: 0 <= k < |s| ==> s[k] < n || m <= s[k]
    ensures InsertionsFrom(s, n, 0, c) == InsertionsFrom(s, m, 0, c)
    decreases m - n
  {
    if n < m {
      RestOfPass(s, n, 0, c);
      DistanceNext(s, n, c);
      NothingBetween(s, n + 1, m, c);
    }
  }

  /** The encoder may jump to the next code point that occurs. */
  lemma Jump(s: Str, n: int, m: int, c: Counter)
    requires Ready(s, n, 0, c) && n <= m <= MAX_RUNE + 1
    requires forall k :: 0 <= k < |s| ==> s[k] < n || m <= s[k]
    ensures Ready(s, m, 0, c) && Handled(s, m, 0) == Handled(s, n, 0)
    ensures InsertionsFrom(s, n, 0, c) == InsertionsFrom(s, m, 0, c)
    ensures Distance(s, m, 0, c) == Distance(s, n, 0, c) + (m - n) * (|Handled(s, n, 0)| + 1)
  {
    ReadyLater(s, n, m, c);
    NothingBetween(s, n, m, c);
  }

  /** As long as anything is left to insert, the distance is bounded by the length alone. */
  lemma DistanceBound(s: Str, n: int, j: nat, c: Counter)
    requires Ready(s, n, j, c) && n <= MAX_RUNE
    requires |Handled(s, n, j)| < |s| || c.n == n
    ensures Distance(s, n, j, c) <= 1113984 * |s|
  {
    if |Handled(s, n, j)| < |s| {
      CounterBound(n, c.n, |Handled(s, n, j)|, Before(s, n, j), |s|);
    }
  }

  /** A distance beyond int32 does not shrink before the next insertion. */
  lemma {:induction false} FarInsertion(s: Str, n: int, j: nat, c: Counter)
    requires Ready(s, n, j, c) && n <= MAX_RUNE + 1 && (n == MAX_RUNE + 1 ==> j == 0)
    requires |Handled(s, n, j)| < |s| && Distance(s, n, j, c) > MAX
    ensures !AllInRange(InsertionsFrom(s, n, j, c))
    decreases MAX_RUNE + 1 - n, |s| - j
  {
    if n > MAX_RUNE {
      NothingLeft(s, n, j, c);
    } else if j == |s| {
      DistanceNext(s, n, c);
      HandledNext(s, n);
      FarInsertion(s, n + 1, 0, c);
    } else if s[j] != n {
      DistanceSkip(s, n, j, c);
      HandledSkip(s, n, j);
      FarInsertion(s, n, j + 1, c);
    } else {
      ReadyMoved(s, n, j, c);
      UnfoldInsertion(s, n, j, c);
      var after := Moved(s, n, j, c);
      RangeCons(Insertion(Distance(s, n, j, c), c.bias), InsertionsFrom(s, n, j + 1, after));
    }
  }

  // ------------------------------------------------ the encoder's variables

  /** The basic code points and the dash behind them, if there are any. */
  function Head(prefix: Str, s: Str): Str {
    prefix + Basic(s) + (if Basic(s) != [] then [DASH] else [])
  }

  /**
   * delta is the distance cut to int32; what has been written and what is still to be written
   * make up the whole result; and no sign test so far has fired.
   */
  ghost predicate Tracks(prefix: Str, s: Str, n: int, j: nat, c: Counter, delta: int, bias: int, output: Str) {
    && Ready(s, n, j, c) && delta == Wrap(Distance(s, n, j, c))
    && output + Digits(WrittenFrom(s, n, j, c, bias)) == Head(prefix, s) + Digits(WrittenOf(s))
    && (SomeChecked(s, n, j, c, Negative) <==> Caught(s))
  }

  lemma TracksStart(prefix: Str, s: Str)
    ensures Tracks(prefix, s, INITIAL_N, 0, START, 0, INITIAL_BIAS, Head(prefix, s))
    ensures Handled(s, INITIAL_N, 0) == Basic(s)
  {
    ReadyAtStart(s);
  }

  lemma TracksSkip(prefix: Str, s: Str, n: int, j: nat, c: Counter, delta: int, bias: int, output: Str)
    requires Tracks(prefix, s, n, j, c, delta, bias, output) && j < |s| && s[j] != n && n <= MAX_RUNE && 0 <= delta
    ensures Tracks(prefix, s, n, j + 1, c, if s[j] < n then Wrap(delta + 1) else delta, bias, output)
  {
    hide Digits, SomeChecked, Caught, WrittenOf, WrittenFrom, Wrap, Head;
    DistanceSkip(s, n, j, c);
    CheckedSkip(s, n, j, c, Negative);
    WrittenSkip(s, n, j, c, bias);
    WrapAdd(Distance(s, n, j, c), 1);
  }

  lemma TracksNext(prefix: Str, s: Str, n: int, c: Counter, delta: int, bias: int, output: Str)
    requires Tracks(prefix, s, n, |s|, c, delta, bias, output) && n <= MAX_RUNE && 0 <= delta
    ensures Tracks(prefix, s, n + 1, 0, c, Wrap(delta + 1), bias, output)
  {
    hide Digits, SomeChecked, Caught, WrittenOf, WrittenFrom, Wrap, Head;
    DistanceNext(s, n, c);
    CheckedNext(s, n, c, Negative);
    WrittenNext(s, n, c, bias);
    WrapAdd(Distance(s, n, |s|, c), 1);
  }

  lemma TracksJump(prefix: Str, s: Str, n: int, m: int, c: Counter, delta: int, bias: int, output: Str)
    requires Tracks(prefix, s, n, 0, c, delta, bias, output) && n <= m <= MAX_RUNE + 1
    requires forall k :: 0 <= k < |s| ==> s[k] < n || m <= s[k]
    ensures Tracks(prefix, s, m, 0, c, Wrap(delta + Wrap((m - n) * (|Handled(s, n, 0)| + 1))), bias, output)
  {
    hide Digits, SomeChecked, Caught, WrittenOf, Wrap, Head;
    Jump(s, n, m, c);
    CheckedJump(s, n, m, c, Negative);
    WrapAdd(Distance(s, n, 0, c), (m - n) * (|Handled(s, n, 0)| + 1));
    WrapAdd(delta, (m - n) * (|Handled(s, n, 0)| + 1));
  }

  /** Behind an insertion delta is the distance again, even where the distance written was cut. */
  lemma TracksInsert(prefix: Str, s: Str, n: int, j: nat, c: Counter, delta: int, bias: int, output: Str)
    requires Tracks(prefix, s, n, j, c, delta, bias, output) && j < |s| && s[j] == n && n <= MAX_RUNE && 0 <= delta
    ensures 0 <= Distance(s, n, j, c)
    ensures var h := |Handled(s, n, j)|;
      Tracks(prefix, s, n, j + 1, Moved(s, n, j, c), 0, AdaptSpec(delta, h + 1, h == |Basic(s)|),
             output + VarInt(delta, BASE, bias))
  {
    hide Digits, SomeChecked, Caught, WrittenOf, WrittenFrom, Wrap, Head, AdaptSpec, Low, VarInt;
    hide Distance, Handled, Moved;
    CheckedInsert(s, n, j, c, Negative);
    ReadyMoved(s, n, j, c);
    LowIsWrap(Distance(s, n, j, c));
    WrittenInsert(s, n, j, c, bias);
    var h := |Handled(s, n, j)|;
    var rest := WrittenFrom(s, n, j + 1, Moved(s, n, j, c), AdaptSpec(delta, h + 1, h == |Basic(s)|));
    DigitsBehind(output, Insertion(delta, bias), rest);
  }

  lemma DigitsBehind(output: Str, x: Insertion, rest: seq<Insertion>)
    ensures output + Digits([x] + rest) == output + VarInt(x.delta, BASE, x.bias) + Digits(rest)
  {
    DigitsCons(x, rest);
    hide Digits, VarInt;
    var ds := VarInt(x.delta, BASE, x.bias);
    assert output + (ds + Digits(rest)) == output + ds + Digits(rest);
  }

  /** A negative delta at a code point of s is a sign test that fires. */
  lemma TracksCaught(prefix: Str, s: Str, n: int, j: nat, c: Counter, delta: int, bias: int, output: Str)
    requires Tracks(prefix, s, n, j, c, delta, bias, output) && n <= MAX_RUNE && n in s && delta < 0
    ensures Caught(s)
  {
    CheckedHere(s, n, j, c, Negative);
  }

  /** With everything handled, the whole result has been written and no sign test has fired. */
  lemma TracksEnd(prefix: Str, s: Str, n: int, c: Counter, delta: int, bias: int, output: Str)
    requires Tracks(prefix, s, n, 0, c, delta, bias, output) && n <= MAX_RUNE + 1
    requires |Handled(s, n, 0)| == |s|
    ensures output == Head(prefix, s) + Digits(WrittenOf(s)) && !Caught(s)
  {
    NothingLeft(s, n, 0, c);
    assert output + [] == output;
    assert s[..0] == [] && s[0..] == s;
    UpToShorter(s, n - 1);
    TracksJump(prefix, s, n, MAX_RUNE + 1, c, delta, bias, output);
  }
}
