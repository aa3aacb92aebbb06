// The lengths up to which the Punycode codec keeps its promises, and what breaks beyond.

module Limits {
  import opened Checks
  import opened Decoder
  import opened Encoder
  import opened Insertions
  import opened Int32
  import opened Punycode
  import opened RoundTrip
  import opened Tracking
  import opened Wrappers

  /** Up to this length no distance leaves int32. */
  const EXACT_LENGTH: int := 1927

  /** Up to this length no digit weight reaches the decoder's limit. */
  const SAFE_LENGTH: int := 66

  ghost predicate Bounded(ins: seq<Insertion>, bound: int) {
    forall k :: 0 <= k < |ins| ==> ins[k].delta <= bound && 0 <= ins[k].bias <= 213
  }

  lemma BoundedNone(bound: int)
    ensures Bounded([], bound)
  {
  }

  lemma BoundedCons(x: Insertion, rest: seq<Insertion>, bound: int)
    requires x.delta <= bound && 0 <= x.bias <= 213 && Bounded(rest, bound)
    ensures Bounded([x] + rest, bound)
  {
  }

  lemma {:induction false} InsertionsBounded(s: Str, n: int, j: nat, c: Counter)
    requires Ready(s, n, j, c) && n <= MAX_RUNE + 1 && (n == MAX_RUNE + 1 ==> j == 0)
    requires |s| <= EXACT_LENGTH && 0 <= c.bias <= 213
    ensures Bounded(InsertionsFrom(s, n, j, c), 1113984 * |s|)
    decreases MAX_RUNE + 1 - n, |s| - j
  {
    hide Handled, Distance, Bounded;
    if n > MAX_RUNE {
      BoundedNone(1113984 * |s|);
    } else if j == |s| {
      DistanceNext(s, n, c);
      InsertionsBounded(s, n + 1, 0, c);
    } else if s[j] != n {
      DistanceSkip(s, n, j, c);
      InsertionsBounded(s, n, j + 1, c);
    } else {
      DistanceNonNegative(s, n, j, c);
      ReadyMoved(s, n, j, c);
      HandledBelow(s, n, j, |Handled(s, n, j)|);
      DistanceBound(s, n, j, c);
      var delta, after := Distance(s, n, j, c), Moved(s, n, j, c);
      AdaptRange(delta, |Handled(s, n, j)| + 1, |Handled(s, n, j)| == |Basic(s)|);
      InsertionsBounded(s, n, j + 1, after);
      UnfoldInsertion(s, n, j, c);
      BoundedCons(Insertion(delta, c.bias), InsertionsFrom(s, n, j + 1, after), 1113984 * |s|);
    }
  }

  // --------------------------------------- distances that the encoder checks

  /** The counter has come to n, when everything is handled and n occurs. */
  ghost predicate Arrived(s: Str, n: int, j: nat, c: Counter)
    requires j <= |s|
  {
    |Handled(s, n, j)| < |s| || c.n == n || n !in s
  }

  lemma ArrivedAtStart(s: Str, n: int, c: Counter)
    ensures Arrived(s, n, 0, c)
  {
    assert s[0..] == s && s[..0] == [];
    UpToShorter(s, n - 1);
  }

  /** Nothing is found among the checked distances that is not found up to their bound. */
  lemma {:induction false} NoneUpTo(s: Str, n: int, j: nat, c: Counter, p: int -> bool)
    requires Ready(s, n, j, c) && Arrived(s, n, j, c)
    requires forall d :: 0 <= d <= 1113984 * |s| ==> !p(d)
    ensures !SomeChecked(s, n, j, c, p)
    decreases MAX_RUNE + 1 - n, |s| - j
  {
    hide Distance, Handled, Before;
    if n <= MAX_RUNE {
      NotUpTo(s, n, j, c, p);
      if j == |s| {
        CheckedNext(s, n, c, p);
        ArrivedAtStart(s, n + 1, c);
        NoneUpTo(s, n + 1, 0, c, p);
      } else if s[j] != n {
        CheckedSkip(s, n, j, c, p);
        HandledSkip(s, n, j);
        NoneUpTo(s, n, j + 1, c, p);
      } else {
        assert s[j] in s;
        CheckedInsert(s, n, j, c, p);
        NoneUpTo(s, n, j + 1, Moved(s, n, j, c), p);
      }
    }
  }

  lemma NotUpTo(s: Str, n: int, j: nat, c: Counter, p: int -> bool)
    requires Ready(s, n, j, c) && Arrived(s, n, j, c) && n <= MAX_RUNE
    requires forall d :: 0 <= d <= 1113984 * |s| ==> !p(d)
    ensures n !in s || !p(Distance(s, n, j, c))
  {
    if n in s {
      DistanceNonNegative(s, n, j, c);
      DistanceBound(s, n, j, c);
    }
  }

  /**
   * Up to 1927 code points no distance that the encoder comes to leaves int32, whether it is
   * written or only checked: no addition to delta wraps, and no sign test fires.
   */
  lemma EncodingInRange(s: Str)
    requires |s| <= 1927
    ensures AllInRange(InsertionsOf(s)) && !AnyChecked(s, Large)
  {
    ReadyAtStart(s);
    InsertionsBounded(s, INITIAL_N, 0, START);
    ArrivedAtStart(s, INITIAL_N, START);
    NoneUpTo(s, INITIAL_N, 0, START, Large);
  }

  /** A sign test fires only where some distance is no int32. */
  lemma {:induction false} CaughtIsFar(s: Str, n: int, j: nat, c: Counter)
    requires |s| < MAX && Ready(s, n, j, c) && Arrived(s, n, j, c) && SomeChecked(s, n, j, c, Negative)
    ensures !AllInRange(InsertionsFrom(s, n, j, c))
    decreases MAX_RUNE + 1 - n, |s| - j
  {
    hide Handled, Distance, Moved, AllInRange, Low, Wrap;
    if n in s && Negative(Distance(s, n, j, c)) {
      NegativeIsFar(s, n, j, c);
    } else if j == |s| {
      CheckedNext(s, n, c, Negative);
      ArrivedAtStart(s, n + 1, c);
      CaughtIsFar(s, n + 1, 0, c);
    } else if s[j] != n {
      CheckedSkip(s, n, j, c, Negative);
      HandledSkip(s, n, j);
      CaughtIsFar(s, n, j + 1, c);
    } else {
      assert s[j] in s;
      CheckedInsert(s, n, j, c, Negative);
      var d, after := Distance(s, n, j, c), Moved(s, n, j, c);
      UnfoldInsertion(s, n, j, c);
      RangeCons(Insertion(d, c.bias), InsertionsFrom(s, n, j + 1, after));
      ArrivedBehind(s, n, j, c);
      CaughtIsFar(s, n, j + 1, after);
    }
  }

  lemma ArrivedBehind(s: Str, n: int, j: nat, c: Counter)
    requires j < |s| && 0 <= Distance(s, n, j, c)
    ensures Arrived(s, n, j + 1, Moved(s, n, j, c))
  {
  }

  lemma NegativeIsFar(s: Str, n: int, j: nat, c: Counter)
    requires |s| < MAX && Ready(s, n, j, c) && Arrived(s, n, j, c) && n <= MAX_RUNE && n in s
    requires Negative(Distance(s, n, j, c))
    ensures !AllInRange(InsertionsFrom(s, n, j, c))
  {
    DistanceNonNegative(s, n, j, c);
    if |Handled(s, n, j)| < |s| {
      FarInsertion(s, n, j, c);
    } else {
      DistanceAtSameRune(s, n, j, c);
    }
  }

  lemma DistanceAtSameRune(s: Str, n: int, j: nat, c: Counter)
    requires Ready(s, n, j, c) && c.n == n
    ensures Distance(s, n, j, c) <= |s|
  {
    assert (n - c.n) * (|Handled(s, n, j)| + 1) == 0;
  }

  /** Below MISSED_WRAP_LENGTH code points every distance that is no int32 makes a sign test fire. */
  lemma {:induction false} FarIsCaught(s: Str, n: int, j: nat, c: Counter)
    requires |s| < MISSED_WRAP_LENGTH && Ready(s, n, j, c) && !AllInRange(InsertionsFrom(s, n, j, c))
    ensures SomeChecked(s, n, j, c, Negative)
    decreases MAX_RUNE + 1 - n, |s| - j
  {
    if j == |s| {
      DistanceNext(s, n, c);
      FarIsCaught(s, n + 1, 0, c);
    } else if s[j] != n {
      DistanceSkip(s, n, j, c);
      FarIsCaught(s, n, j + 1, c);
    } else {
      assert s[j] in s;
      FarInsertionCaught(s, n, j, c);
      if !Negative(Distance(s, n, j, c)) {
        CheckedInsert(s, n, j, c, Negative);
        FarIsCaught(s, n, j + 1, Moved(s, n, j, c));
      }
    }
  }

  lemma FarInsertionCaught(s: Str, n: int, j: nat, c: Counter)
    requires |s| < MISSED_WRAP_LENGTH && Ready(s, n, j, c) && n <= MAX_RUNE && j < |s| && s[j] == n
    requires !AllInRange(InsertionsFrom(s, n, j, c))
    ensures Negative(Distance(s, n, j, c))
            || (0 <= Distance(s, n, j, c) && Ready(s, n, j + 1, Moved(s, n, j, c))
                && !AllInRange(InsertionsFrom(s, n, j + 1, Moved(s, n, j, c))))
  {
    HandledBelow(s, n, j, |Handled(s, n, j)|);
    DistanceNonNegative(s, n, j, c);
    DistanceBound(s, n, j, c);
    ReadyMoved(s, n, j, c);
    UnfoldInsertion(s, n, j, c);
    RangeCons(Insertion(Distance(s, n, j, c), c.bias), InsertionsFrom(s, n, j + 1, Moved(s, n, j, c)));
  }

  /** From this length on a distance can be so large that the sign test misses it. */
  const MISSED_WRAP_LENGTH: int := 3856

  /**
   * When the encoder is right: it writes the encoding exactly when every distance is an int32, and
   * it reports an error only when one is not. What is wrong is reported below MISSED_WRAP_LENGTH.
   */
  lemma EncoderRight(prefix: Str, s: Str)
    requires |s| < MAX
    ensures EncodeInt32(prefix, s) == Ok(prefix + EncodeSpec(s)) <==> AllInRange(InsertionsOf(s))
    ensures EncodeInt32(prefix, s) == Err ==> !AllInRange(InsertionsOf(s))
    ensures |s| < 3856 && !AllInRange(InsertionsOf(s)) ==> EncodeInt32(prefix, s) == Err
  {
    ReadyAtStart(s);
    ArrivedAtStart(s, INITIAL_N, START);
    if Caught(s) {
      CaughtIsFar(s, INITIAL_N, 0, START);
    } else {
      WrittenIsRight(prefix, s);
      if |s| < MISSED_WRAP_LENGTH && !AllInRange(InsertionsOf(s)) {
        FarIsCaught(s, INITIAL_N, 0, START);
      }
    }
  }

  lemma WrittenIsRight(prefix: Str, s: Str)
    requires !Caught(s)
    ensures Head(prefix, s) + Digits(WrittenOf(s)) == prefix + EncodeSpec(s) <==> AllInRange(InsertionsOf(s))
  {
    ReadyAtStart(s);
    assert prefix + EncodeSpec(s) == Head(prefix, s) + Digits(InsertionsOf(s));
    var head := |Head(prefix, s)|;
    assert (Head(prefix, s) + Digits(WrittenOf(s)))[head..] == Digits(WrittenOf(s));
    assert (Head(prefix, s) + Digits(InsertionsOf(s)))[head..] == Digits(InsertionsOf(s));
    if AllInRange(InsertionsOf(s)) {
      WrittenRight(s, INITIAL_N, 0, START);
    } else if Digits(WrittenOf(s)) == Digits(InsertionsOf(s)) {
      WrittenWrong(s, INITIAL_N, 0, START);
    }
  }

  /** Every string of at most 66 code points, so every DNS label, survives encoding and decoding. */
  lemma ShortIsRestorable(s: Str)
    requires |s| <= 66
    ensures Restorable(s)
  {
    ReadyAtStart(s);
    InsertionsBounded(s, INITIAL_N, 0, START);
    var ins := InsertionsOf(s);
    forall k | 0 <= k < |ins|
      ensures WeightsFit(ins[k].delta, 1, BASE, ins[k].bias)
    {
      SmallWeightsFit(ins[k].delta, 1, 0, BASE, ins[k].bias);
    }
  }

  // ------------------------- one code point behind a basic prefix: the exact limits

  /** The distance of the only insertion that basic + [r] needs. */
  function OnlyDelta(length: nat, r: Rune): int {
    (r - INITIAL_N) * (length + 1) + length
  }

  lemma OnlyRuneHandled(basic: Str, r: Rune)
    requires AllBasic(basic) && r >= INITIAL_N
    ensures var s, at := basic + [r], |basic|;
      Handled(s, r, at) == basic && Before(s, r, at) == at && Basic(s) == basic
  {
    var s := basic + [r];
    UpToConcat(basic, [r], 127);
    UpToShorter(basic, 127);
    UpToShorter(basic, r);
    assert s[..|basic|] == basic && s[|basic|..] == [r];
  }

  lemma OneInsertion(basic: Str, r: Rune)
    requires AllBasic(basic) && r >= INITIAL_N
    ensures OnlyDelta(|basic|, r) >= 0
    ensures InsertionsOf(basic + [r]) == [Insertion(OnlyDelta(|basic|, r), INITIAL_BIAS)]
  {
    var s, at := basic + [r], |basic|;
    ReadyAtStart(s);
    Jump(s, INITIAL_N, r, START);
    ToTheEnd(s, r, 0, at, START);
    OnlyRuneHandled(basic, r);
    DistanceNonNegative(s, r, at, START);
    ReadyMoved(s, r, at, START);
    UnfoldInsertion(s, r, at, START);
    NothingLeft(s, r, at + 1, Moved(s, r, at, START));
  }

  /** A scan over code points other than n inserts nothing. */
  lemma {:induction false} ToTheEnd(s: Str, n: int, j: nat, stop: nat, c: Counter)
    requires Ready(s, n, j, c) && n <= MAX_RUNE && j <= stop <= |s|
    requires forall k :: j <= k < stop ==> s[k] != n
    ensures Ready(s, n, stop, c)
    ensures InsertionsFrom(s, n, j, c) == InsertionsFrom(s, n, stop, c)
    decreases stop - j
  {
    if j < stop {
      DistanceSkip(s, n, j, c);
      ToTheEnd(s, n, j + 1, stop, c);
    }
  }

  /** The first distance, under the initial bias, is refused by the decoder from here on. */
  const FIRST_REFUSED: int := 353885386

  /** The weight so many tenfold steps before the last that stays below the limit. */
  function TenfoldWeight(steps: nat): nat {
    if steps == 0 then 12250000 else TenfoldWeight(steps - 1) / 10
  }

  function TenfoldCut(steps: nat): nat {
    if steps == 0 then 26 else 26 + 10 * TenfoldCut(steps - 1)
  }

  /** Under the initial bias the third and later digits have threshold 26 and weights growing tenfold. */
  lemma {:induction false} TenfoldWeights(q: nat, steps: nat)
    requires steps <= 4
    ensures WeightsFit(q, TenfoldWeight(steps), 252 - BASE * steps, INITIAL_BIAS) <==> q < TenfoldCut(steps)
    decreases steps
  {
    if q >= 26 && steps > 0 {
      TenfoldWeightsListed();
      TenfoldWeights(Rest(q, 26), steps - 1);
    }
  }

  lemma TenfoldWeightsListed()
    ensures TenfoldWeight(0) == 12250000 && TenfoldWeight(1) == 1225000 && TenfoldWeight(2) == 122500
    ensures TenfoldWeight(3) == 12250 && TenfoldWeight(4) == 1225
    ensures TenfoldCut(4) == 288886
  {
    assert TenfoldWeight(2) == TenfoldWeight(1) / 10;
    assert TenfoldWeight(4) == TenfoldWeight(3) / 10 == TenfoldWeight(2) / 10 / 10;
    assert TenfoldCut(2) == 26 + 10 * TenfoldCut(1);
    assert TenfoldCut(4) == 26 + 10 * (26 + 10 * TenfoldCut(2));
  }

  lemma FirstWeights(q: nat)
    ensures WeightsFit(q, 1, BASE, INITIAL_BIAS) <==> q < FIRST_REFUSED
  {
    TenfoldWeightsListed();
    if q >= 1 && Rest(q, 1) >= 1 {
      TenfoldWeights(Rest(Rest(q, 1), 1), 4);
      assert WeightsFit(Rest(q, 1), 35, 72, INITIAL_BIAS) <==> Rest(q, 1) < 10111011;
    }
  }

  /** Basic code points and one other: restored exactly below both limits of the decoder. */
  lemma OneRuneRestorable(basic: Str, r: Rune)
    requires AllBasic(basic) && r >= INITIAL_N
    ensures Restorable(basic + [r])
            <==> |basic| < 1024 && (r - 128) * (|basic| + 1) + |basic| < 353885386
  {
    OneInsertion(basic, r);
    FirstWeights(OnlyDelta(|basic|, r));
    var s := basic + [r];
    assert s[|basic|] == r && !AllBasic(s);
    FitsCons(Insertion(OnlyDelta(|basic|, r), INITIAL_BIAS), []);
    assert [Insertion(OnlyDelta(|basic|, r), INITIAL_BIAS)] + [] == InsertionsOf(s);
  }

  function Repeat(r: Rune, times: nat): (s: Str)
    ensures |s| == times && forall k :: 0 <= k < times ==> s[k] == r
  {
    seq(times, i => r)
  }

  /**
   * The round trip is not a law for all of the 1024 code points the decoder admits: 317 times
   * "a" and U+10FFFF, 318 code points, encode without error and are then refused.
   */
  lemma RefusedString()
    ensures var s := Repeat(97, 317) + [0x10ffff];
      EncodeInt32([], s) == Ok(EncodeSpec(s)) && Decoder.DecodeSpec(EncodeSpec(s)) == Err
  {
    var s := Repeat(97, 317) + [MAX_RUNE];
    OneRuneRestorable(Repeat(97, 317), MAX_RUNE);
    EncodingInRange(s);
    EncoderRight([], s);
    assert [] + EncodeSpec(s) == EncodeSpec(s);
    DecodeEncode(s);
  }

  /** The sign test fires where i of the basic code points have been passed in the scan for r. */
  predicate Fires(length: nat, r: Rune, i: int) {
    Negative(OnlyDelta(length, r) - length + i)
  }

  ghost predicate FiresFrom(length: nat, r: Rune, j: nat) {
    exists i :: j <= i <= length && Fires(length, r, i)
  }

  /** The distances that the encoder checks for one code point behind a basic prefix. */
  lemma {:induction false} OneRuneChecked(basic: Str, r: Rune, j: nat)
    requires AllBasic(basic) && r >= INITIAL_N && j <= |basic| && Ready(basic + [r], r, j, START)
    ensures SomeChecked(basic + [r], r, j, START, Negative) <==> FiresFrom(|basic|, r, j)
    decreases |basic| - j
  {
    hide SomeChecked, Ready, Distance, Negative, Moved, AllBasic;
    var s := basic + [r];
    assert s[|basic|] == r && r in s;
    OnlyDistance(basic, r, j);
    if Fires(|basic|, r, j) {
      CheckedHere(s, r, j, START, Negative);
    } else if j < |basic| {
      BasicBelow(basic, r, j);
      CheckedSkip(s, r, j, START, Negative);
      OneRuneChecked(basic, r, j + 1);
      assert FiresFrom(|basic|, r, j) ==> FiresFrom(|basic|, r, j + 1);
    } else {
      OneRuneDone(basic, r);
    }
  }

  lemma BasicBelow(basic: Str, r: Rune, j: nat)
    requires AllBasic(basic) && r >= INITIAL_N && j < |basic|
    ensures (basic + [r])[j] != r
  {
  }

  /** Behind the insertion of the last and largest code point nothing is left to check. */
  lemma LastInserted(s: Str, n: int, j: nat, c: Counter, p: int -> bool)
    requires Ready(s, n, j, c) && n <= MAX_RUNE && |s| == j + 1 && s[j] == n
    requires forall k :: 0 <= k < |s| ==> s[k] < n + 1
    requires !p(Distance(s, n, j, c)) && !p(0)
    ensures !SomeChecked(s, n, j, c, p)
  {
    hide SomeChecked, Distance, Handled, Moved;
    CheckedInsert(s, n, j, c, p);
    ReadyMoved(s, n, j, c);
    var after := Moved(s, n, j, c);
    CheckedNext(s, n, after, p);
    NoneLeftToCheck(s, n + 1, after, p);
  }

  lemma OneRuneDone(basic: Str, r: Rune)
    requires AllBasic(basic) && r >= INITIAL_N && Ready(basic + [r], r, |basic|, START)
    requires !Negative(Distance(basic + [r], r, |basic|, START))
    ensures !SomeChecked(basic + [r], r, |basic|, START, Negative)
  {
    hide SomeChecked, Distance, Ready;
    LastInserted(basic + [r], r, |basic|, START, Negative);
  }

  /** Nothing but the basic code points is handled before the only insertion, and those before j lie before it. */
  lemma OnlyHandled(basic: Str, r: Rune, j: nat)
    requires AllBasic(basic) && r >= INITIAL_N && j <= |basic|
    ensures |Handled(basic + [r], r, j)| == |basic| && Before(basic + [r], r, j) == j
  {
    var s := basic + [r];
    UpToConcat(basic[j..], [r], r - 1);
    UpToShorter(basic[..j], r);
    UpToShorter(basic[j..], r - 1);
    assert s[..j] == basic[..j] && s[j..] == basic[j..] + [r];
  }

  lemma OnlyDistance(basic: Str, r: Rune, j: nat)
    requires AllBasic(basic) && r >= INITIAL_N && j <= |basic|
    ensures Distance(basic + [r], r, j, START) == OnlyDelta(|basic|, r) - |basic| + j
  {
    hide Handled, Before;
    OnlyHandled(basic, r, j);
  }

  lemma NoneLeftToCheck(s: Str, n: int, c: Counter, p: int -> bool)
    requires Ready(s, n, 0, c) && n <= MAX_RUNE + 1 && forall k :: 0 <= k < |s| ==> s[k] < n
    ensures !SomeChecked(s, n, 0, c, p)
  {
    Jump(s, n, MAX_RUNE + 1, c);
    CheckedJump(s, n, MAX_RUNE + 1, c, p);
  }

  /**
   * One code point behind a basic prefix: what is written, and whether a sign test fires, one at
   * the jump and one behind each basic code point.
   */
  lemma OneRuneWritten(basic: Str, r: Rune)
    requires AllBasic(basic) && r >= INITIAL_N && 0 <= OnlyDelta(|basic|, r)
    ensures Caught(basic + [r]) <==> FiresFrom(|basic|, r, 0)
    ensures Digits(WrittenOf(basic + [r])) == VarInt(Low(OnlyDelta(|basic|, r)), BASE, INITIAL_BIAS)
  {
    hide SomeChecked, Fires, OnlyDelta, Negative;
    var s := basic + [r];
    OneInsertion(basic, r);
    ReadyAtStart(s);
    Jump(s, INITIAL_N, r, START);
    CheckedJump(s, INITIAL_N, r, START, Negative);
    OneRuneChecked(basic, r, 0);
    OnlyWritten(OnlyDelta(|basic|, r), |Basic(s)|);
  }

  lemma OnlyWritten(d: nat, h: nat)
    ensures Digits(Written([Insertion(d, INITIAL_BIAS)], h, true, INITIAL_BIAS)) == VarInt(Low(d), BASE, INITIAL_BIAS)
  {
    DigitsCons(Insertion(Low(d), INITIAL_BIAS), []);
    assert [Insertion(Low(d), INITIAL_BIAS)] + [] == [Insertion(Low(d), INITIAL_BIAS)];
    assert [Insertion(d, INITIAL_BIAS)][1..] == [];
  }

  /** From 2^32 + 551152 on, 3855 steps do not reach the next distance with the sign bit set. */
  lemma NoneFires()
    ensures OnlyDelta(MISSED_WRAP_LENGTH - 1, MAX_RUNE) == 4295522303
    ensures !FiresFrom(MISSED_WRAP_LENGTH - 1, MAX_RUNE, 0)
  {
    var length := MISSED_WRAP_LENGTH - 1;
    forall i | 0 <= i <= length
      ensures !Fires(length, MAX_RUNE, i)
    {
      assert OnlyDelta(length, MAX_RUNE) - length + i == 0x1_0000_0000 + 551152 + i;
    }
  }

  lemma LastFires()
    ensures OnlyDelta(EXACT_LENGTH, MAX_RUNE) == 2147761151 && FiresFrom(EXACT_LENGTH, MAX_RUNE, 0)
  {
    assert Fires(EXACT_LENGTH, MAX_RUNE, EXACT_LENGTH);
  }

  /**
   * Both length bounds of the encoder are sharp. With 1927 times "a" in front of U+10FFFF it reports an
   * error. With 3855 the distance 4295522303 passes every test and is written as 555007.
   */
  lemma EncoderBoundsSharp()
    ensures EncodeInt32([], Repeat(97, 1927) + [0x10ffff]) == Err
    ensures var basic := Repeat(97, 3855);
      && InsertionsOf(basic + [0x10ffff]) == [Insertion(4295522303, 72)]
      && EncodeInt32([], basic + [0x10ffff]) == Ok(basic + [45] + VarInt(555007, 36, 72))
  {
    hide Digits, VarInt, Caught, WrittenOf, InsertionsOf, FiresFrom, OnlyDelta;
    LastFires();
    OneRuneWritten(Repeat(97, EXACT_LENGTH), MAX_RUNE);
    NoneFires();
    var long := Repeat(97, MISSED_WRAP_LENGTH - 1);
    OneInsertion(long, MAX_RUNE);
    OneRuneWritten(long, MAX_RUNE);
    OnlyRuneHandled(long, MAX_RUNE);
    assert Low(4295522303) == 555007;
    assert Head([], long + [MAX_RUNE]) == long + [DASH];
    assert !Caught(long + [MAX_RUNE]);
    assert Caught(Repeat(97, EXACT_LENGTH) + [MAX_RUNE]);
  }
}
