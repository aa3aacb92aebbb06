// What int32 makes of the insertions (idna/punycode.go): which distances the encoder's sign
// tests look at, and what is written when none of the tests fires.

module Checks {
  import opened Insertions
  import opened Int32
  import opened Punycode
  import opened RoundTrip
  import opened Wrappers

  // ------------------------------------------------------ checked distances

  /**
   * A distance that the encoder checks has p: at the jump to a code point n of s, or behind a
   * step of the scan for n, from (n, j) on.
   */
  predicate SomeChecked(s: Str, n: int, j: nat, c: Counter, p: int -> bool)
    requires Ready(s, n, j, c)
    decreases MAX_RUNE + 1 - n, |s| - j
  {
    n <= MAX_RUNE
    && ((n in s && p(Distance(s, n, j, c)))
        || if j == |s| then
             DistanceNext(s, n, c);
             SomeChecked(s, n + 1, 0, c, p)
           else if s[j] != n then
             DistanceSkip(s, n, j, c);
             SomeChecked(s, n, j + 1, c, p)
           else
             DistanceNonNegative(s, n, j, c);
             ReadyMoved(s, n, j, c);
             SomeChecked(s, n, j + 1, Moved(s, n, j, c), p))
  }

  /** The sign test fires on a distance. */
  predicate Negative(d: int) {
    Wrap(d) < 0
  }

  predicate Large(d: int) {
    d > MAX
  }

  predicate AnyChecked(s: Str, p: int -> bool) {
    ReadyAtStart(s);
    SomeChecked(s, INITIAL_N, 0, START, p)
  }

  /** A sign test of the encoder fires. */
  predicate Caught(s: Str) {
    AnyChecked(s, Negative)
  }

  lemma CheckedHere(s: Str, n: int, j: nat, c: Counter, p: int -> bool)
    requires Ready(s, n, j, c) && n <= MAX_RUNE && n in s && p(Distance(s, n, j, c))
    ensures SomeChecked(s, n, j, c, p)
  {
  }

  lemma CheckedSkip(s: Str, n: int, j: nat, c: Counter, p: int -> bool)
    requires Ready(s, n, j, c) && n <= MAX_RUNE && j < |s| && s[j] != n
    requires n !in s || !p(Distance(s, n, j, c))
    ensures Ready(s, n, j + 1, c)
    ensures SomeChecked(s, n, j, c, p) <==> SomeChecked(s, n, j + 1, c, p)
  {
    DistanceSkip(s, n, j, c);
  }

  lemma CheckedNext(s: Str, n: int, c: Counter, p: int -> bool)
    requires Ready(s, n, |s|, c) && n <= MAX_RUNE
    requires n !in s || !p(Distance(s, n, |s|, c))
    ensures Ready(s, n + 1, 0, c)
    ensures SomeChecked(s, n, |s|, c, p) <==> SomeChecked(s, n + 1, 0, c, p)
  {
    DistanceNext(s, n, c);
  }

  lemma CheckedInsert(s: Str, n: int, j: nat, c: Counter, p: int -> bool)
    requires Ready(s, n, j, c) && n <= MAX_RUNE && j < |s| && s[j] == n && !p(Distance(s, n, j, c))
    ensures 0 <= Distance(s, n, j, c) && Ready(s, n, j + 1, Moved(s, n, j, c))
    ensures SomeChecked(s, n, j, c, p) <==> SomeChecked(s, n, j + 1, Moved(s, n, j, c), p)
  {
    DistanceNonNegative(s, n, j, c);
    ReadyMoved(s, n, j, c);
  }

  /** Nothing is checked in a scan for a code point that does not occur. */
  lemma {:induction false} NoneChecked(s: Str, n: int, j: nat, c: Counter, p: int -> bool)
    requires Ready(s, n, j, c) && n <= MAX_RUNE && n !in s
    ensures Ready(s, n + 1, 0, c)
    ensures SomeChecked(s, n, j, c, p) <==> SomeChecked(s, n + 1, 0, c, p)
    decreases |s| - j
  {
    hide SomeChecked, Handled, Distance;
    if j == |s| {
      CheckedNext(s, n, c, p);
    } else {
      assert s[j] in s;
      CheckedSkip(s, n, j, c, p);
      NoneChecked(s, n, j + 1, c, p);
    }
  }

  /** Nothing is checked between a code point of s and the next. */
  lemma {:induction false} CheckedJump(s: Str, n: int, m: int, c: Counter, p: int -> bool)
    requires Ready(s, n, 0, c) && Ready(s, m, 0, c) && n <= m <= MAX_RUNE + 1
    requires forall k :: 0 <= k < |s| ==> s[k] < n || m <= s[k]
    ensures SomeChecked(s, n, 0, c, p) <==> SomeChecked(s, m, 0, c, p)
    decreases m - n
  {
    hide SomeChecked, Ready;
    if n < m {
      NoneChecked(s, n, 0, c, p);
      CheckedJump(s, n + 1, m, c, p);
    }
  }

  // ------------------------------------------------------- what is written

  /** What int32 keeps of a distance whose sign bit is clear. */
  function Low(d: nat): nat {
    d % 0x1_0000_0000
  }

  lemma LowIsWrap(d: nat)
    ensures Wrap(d) >= 0 ==> Wrap(d) == Low(d)
    ensures Wrap(d) >= 0 && d > MAX ==> Low(d) < d
    ensures d <= MAX ==> Low(d) == d
  {
  }

  /** The insertions with distances cut to int32 and each bias adapted from the cut distances. */
  function Written(ins: seq<Insertion>, h: nat, first: bool, bias: int): (ws: seq<Insertion>)
    ensures |ws| == |ins|
  {
    if ins == [] then [] else
      var d := Low(ins[0].delta);
      [Insertion(d, bias)] + Written(ins[1..], h + 1, false, AdaptSpec(d, h + 1, first))
  }

  function WrittenOf(s: Str): seq<Insertion> {
    Written(InsertionsOf(s), |Basic(s)|, true, INITIAL_BIAS)
  }

  /** What is still to be written when the scan for n has reached j. */
  function WrittenFrom(s: Str, n: int, j: nat, c: Counter, bias: int): seq<Insertion>
    requires Ready(s, n, j, c)
  {
    var h := |Handled(s, n, j)|;
    Written(InsertionsFrom(s, n, j, c), h, h == |Basic(s)|, bias)
  }

  lemma WrittenSkip(s: Str, n: int, j: nat, c: Counter, bias: int)
    requires Ready(s, n, j, c) && n <= MAX_RUNE && j < |s| && s[j] != n && Ready(s, n, j + 1, c)
    ensures WrittenFrom(s, n, j, c, bias) == WrittenFrom(s, n, j + 1, c, bias)
  {
    HandledSkip(s, n, j);
  }

  lemma WrittenNext(s: Str, n: int, c: Counter, bias: int)
    requires Ready(s, n, |s|, c) && n <= MAX_RUNE && Ready(s, n + 1, 0, c)
    ensures WrittenFrom(s, n, |s|, c, bias) == WrittenFrom(s, n + 1, 0, c, bias)
  {
    HandledNext(s, n);
  }

  lemma WrittenInsert(s: Str, n: int, j: nat, c: Counter, bias: int)
    requires Ready(s, n, j, c) && n <= MAX_RUNE && j < |s| && s[j] == n
    requires 0 <= Distance(s, n, j, c) && Ready(s, n, j + 1, Moved(s, n, j, c))
    ensures var d, h := Low(Distance(s, n, j, c)), |Handled(s, n, j)|;
      WrittenFrom(s, n, j, c, bias)
      == [Insertion(d, bias)]
         + WrittenFrom(s, n, j + 1, Moved(s, n, j, c), AdaptSpec(d, h + 1, h == |Basic(s)|))
  {
    ReadyMoved(s, n, j, c);
    UnfoldInsertion(s, n, j, c);
    hide InsertionsFrom, Handled, Distance, Moved, AdaptSpec, Low;
    var x, rest := Insertion(Distance(s, n, j, c), c.bias), InsertionsFrom(s, n, j + 1, Moved(s, n, j, c));
    assert ([x] + rest)[1..] == rest;
  }

  // ----------------------------------------------- reading one number only

  /** Digits read in one way only: where two numbers' digits begin the same string, they are equal. */
  lemma {:induction false} VarIntUnique(p: nat, q: nat, k: int, bias: int, x: Str, y: Str)
    requires VarInt(p, k, bias) + x == VarInt(q, k, bias) + y
    ensures p == q && x == y
    decreases p
  {
    var a, b := VarInt(p, k, bias), VarInt(q, k, bias);
    var t := Threshold(k, bias);
    assert (a + x)[0] == a[0] && (b + y)[0] == b[0];
    assert DecodeDigit(a[0]) == Some(if p < t then p else Digit(p, t));
    assert DecodeDigit(b[0]) == Some(if q < t then q else Digit(q, t));
    assert (a + x)[1..] == a[1..] + x && (b + y)[1..] == b[1..] + y;
    if p >= t {
      VarIntUnique(Rest(p, t), Rest(q, t), k + BASE, bias, x, y);
    } else {
      assert a[1..] + x == x && b[1..] + y == y;
    }
  }

  lemma DigitsCons(x: Insertion, rest: seq<Insertion>)
    ensures Digits([x] + rest) == VarInt(x.delta, BASE, x.bias) + Digits(rest)
  {
    assert ([x] + rest)[1..] == rest;
  }

  lemma RangeCons(x: Insertion, rest: seq<Insertion>)
    ensures AllInRange([x] + rest) <==> x.delta <= MAX && AllInRange(rest)
  {
    var all := [x] + rest;
    assert forall k :: 0 <= k < |rest| ==> rest[k] == all[k + 1];
    assert all[0] == x;
  }

  /** With every distance to come an int32, the right insertions are written. */
  lemma {:induction false} WrittenRight(s: Str, n: int, j: nat, c: Counter)
    requires Ready(s, n, j, c) && AllInRange(InsertionsFrom(s, n, j, c))
    ensures WrittenFrom(s, n, j, c, c.bias) == InsertionsFrom(s, n, j, c)
    decreases MAX_RUNE + 1 - n, |s| - j
  {
    hide Handled, Distance, Moved, Low, AllInRange, WrittenFrom;
    if n > MAX_RUNE {
      NothingWritten(s, n, j, c);
    } else if j == |s| {
      DistanceNext(s, n, c);
      WrittenNext(s, n, c, c.bias);
      WrittenRight(s, n + 1, 0, c);
    } else if s[j] != n {
      DistanceSkip(s, n, j, c);
      WrittenSkip(s, n, j, c, c.bias);
      WrittenRight(s, n, j + 1, c);
    } else {
      var bias := InsertedParts(s, n, j, c);
      var d, after := Distance(s, n, j, c), Moved(s, n, j, c);
      RangeCons(Insertion(d, c.bias), InsertionsFrom(s, n, j + 1, after));
      LowIsWrap(d);
      WrittenRight(s, n, j + 1, after);
    }
  }

  lemma NothingWritten(s: Str, n: int, j: nat, c: Counter)
    requires Ready(s, n, j, c) && n > MAX_RUNE
    ensures WrittenFrom(s, n, j, c, c.bias) == [] == InsertionsFrom(s, n, j, c)
  {
  }

  /** The next insertion as it should be and as it is written; an uncut distance gives the right bias. */
  lemma InsertedParts(s: Str, n: int, j: nat, c: Counter) returns (bias: int)
    requires Ready(s, n, j, c) && n <= MAX_RUNE && j < |s| && s[j] == n
    ensures 0 <= Distance(s, n, j, c) && Ready(s, n, j + 1, Moved(s, n, j, c))
    ensures var d, after := Distance(s, n, j, c), Moved(s, n, j, c);
      InsertionsFrom(s, n, j, c) == [Insertion(d, c.bias)] + InsertionsFrom(s, n, j + 1, after)
    ensures var d, after := Distance(s, n, j, c), Moved(s, n, j, c);
      && (Low(d) == d ==> bias == after.bias)
      && WrittenFrom(s, n, j, c, c.bias) == [Insertion(Low(d), c.bias)] + WrittenFrom(s, n, j + 1, after, bias)
  {
    DistanceNonNegative(s, n, j, c);
    ReadyMoved(s, n, j, c);
    UnfoldInsertion(s, n, j, c);
    WrittenInsert(s, n, j, c, c.bias);
    var h := |Handled(s, n, j)|;
    bias := AdaptSpec(Low(Distance(s, n, j, c)), h + 1, h == |Basic(s)|);
  }

  /** Behind the sign tests, a distance that is no int32 shows in what is written. */
  lemma {:induction false} WrittenWrong(s: Str, n: int, j: nat, c: Counter)
    requires Ready(s, n, j, c) && !SomeChecked(s, n, j, c, Negative)
    requires Digits(WrittenFrom(s, n, j, c, c.bias)) == Digits(InsertionsFrom(s, n, j, c))
    ensures AllInRange(InsertionsFrom(s, n, j, c))
    decreases MAX_RUNE + 1 - n, |s| - j
  {
    hide Handled, Distance, Moved, Low, AllInRange, WrittenFrom, Digits, SomeChecked, Negative;
    if n > MAX_RUNE {
      NothingToCome(s, n, j, c);
    } else if j == |s| {
      NotHere(s, n, j, c, Negative);
      CheckedNext(s, n, c, Negative);
      WrittenNext(s, n, c, c.bias);
      WrittenWrong(s, n + 1, 0, c);
    } else if s[j] != n {
      NotHere(s, n, j, c, Negative);
      CheckedSkip(s, n, j, c, Negative);
      WrittenSkip(s, n, j, c, c.bias);
      WrittenWrong(s, n, j + 1, c);
    } else {
      assert s[j] in s;
      NotHere(s, n, j, c, Negative);
      CheckedInsert(s, n, j, c, Negative);
      var bias := InsertedParts(s, n, j, c);
      var d, after := Distance(s, n, j, c), Moved(s, n, j, c);
      var rest := InsertionsFrom(s, n, j + 1, after);
      var written := WrittenFrom(s, n, j + 1, after, bias);
      DigitsCons(Insertion(d, c.bias), rest);
      DigitsCons(Insertion(Low(d), c.bias), written);
      VarIntUnique(Low(d), d, BASE, c.bias, Digits(written), Digits(rest));
      Uncut(d);
      RangeCons(Insertion(d, c.bias), rest);
      WrittenWrong(s, n, j + 1, after);
    }
  }

  lemma NothingToCome(s: Str, n: int, j: nat, c: Counter)
    requires Ready(s, n, j, c) && n > MAX_RUNE
    ensures AllInRange(InsertionsFrom(s, n, j, c))
  {
  }

  lemma NotHere(s: Str, n: int, j: nat, c: Counter, p: int -> bool)
    requires Ready(s, n, j, c) && n <= MAX_RUNE && !SomeChecked(s, n, j, c, p)
    ensures n !in s || !p(Distance(s, n, j, c))
  {
  }

  lemma Uncut(d: nat)
    requires !Negative(d) && Low(d) == d
    ensures d <= MAX
  {
    LowIsWrap(d);
  }
}
