// Strings of increasing code points beyond ASCII, whose encoding can be read off the string; and
// an encoding that everybody knows (idna/punycode.go).

module Ascending {
  import opened Checks
  import opened Encoder
  import opened Insertions
  import opened Limits
  import opened Punycode
  import opened RoundTrip
  import opened Tracking
  import opened Wrappers

  predicate Rising(s: Str) {
    (forall i :: 0 <= i < |s| ==> s[i] >= 128) && (forall i, j :: 0 <= i < j < |s| ==> s[i] < s[j])
  }

  /** The code point in front of the one at k, or the first beyond ASCII. */
  function Previous(s: Str, k: nat): int
    requires k <= |s|
  {
    if k == 0 then 128 else s[k - 1]
  }

  /** The insertions from the code point at k on: each is as far as the counter has to climb, k + 1 for each step. */
  function Climbs(s: Str, k: nat, bias: int): seq<Insertion>
    requires Rising(s) && k <= |s|
    decreases |s| - k
  {
    if k == |s| then [] else
      var step := if k == 0 then s[0] - 128 else s[k] - s[k - 1];
      var delta := step * (k + 1);
      assert step >= 0;
      [Insertion(delta, bias)] + Climbs(s, k + 1, AdaptSpec(delta, k + 1, k == 0))
  }

  lemma RisingHandled(s: Str, k: nat)
    requires Rising(s) && k < |s|
    ensures Basic(s) == [] && Handled(s, s[k], k) == s[..k] && Before(s, s[k], k) == k
    ensures Handled(s, s[k], 0) == s[..k]
  {
    UpToShorter(s[..k], s[k]);
    NoneUpToHere(s, 127);
    NoneUpToHere(s[k..], s[k] - 1);
    UpToShorter(s[..k], s[k] - 1);
    UpToConcat(s[..k], s[k..], s[k] - 1);
    assert s == s[..k] + s[k..] && s[..0] == [] && s[0..] == s;
  }

  lemma {:induction false} NoneUpToHere(s: Str, n: int)
    requires forall i :: 0 <= i < |s| ==> s[i] > n
    ensures UpTo(s, n) == []
  {
    if s != [] {
      NoneUpToHere(s[1..], n);
    }
  }

  /** The counter behind the insertion of the code point in front of k. */
  ghost predicate Stands(s: Str, k: nat, n: int, c: Counter)
    requires k <= |s|
  {
    && c.n == Previous(s, k) && c.i == k && Ready(s, n, 0, c) && Previous(s, k) <= n <= MAX_RUNE + 1
    && (forall i :: 0 <= i < |s| ==> (s[i] < n <==> i < k))
  }

  /** One insertion: its distance, and where the scan goes on. */
  lemma RisingStep(s: Str, k: nat, n: int, c: Counter)
    requires Rising(s) && k < |s| && Stands(s, k, n, c)
    ensures var top: int, delta := s[k], (s[k] - Previous(s, k)) * (k + 1);
      && 0 <= delta
      && var after := Counter(top, k + 1, AdaptSpec(delta, k + 1, k == 0));
         && Stands(s, k + 1, top + 1, after)
         && InsertionsFrom(s, n, 0, c) == [Insertion(delta, c.bias)] + InsertionsFrom(s, top + 1, 0, after)
  {
    hide AdaptSpec, InsertionsFrom, Handled, Before;
    Jump(s, n, s[k], c);
    ToTheEnd(s, s[k], 0, k, c);
    RisingHandled(s, k);
    DistanceNonNegative(s, s[k], k, c);
    ReadyMoved(s, s[k], k, c);
    UnfoldInsertion(s, s[k], k, c);
    var after := Moved(s, s[k], k, c);
    RestOfPass(s, s[k], k + 1, after);
    DistanceNext(s, s[k], after);
    NextPass(s, s[k], after);
  }

  lemma NextPass(s: Str, n: int, c: Counter)
    requires Ready(s, n, |s|, c) && n <= MAX_RUNE && Ready(s, n + 1, 0, c)
    ensures InsertionsFrom(s, n, |s|, c) == InsertionsFrom(s, n + 1, 0, c)
  {
  }

  lemma {:induction false} RisingFrom(s: Str, k: nat, n: int, c: Counter)
    requires Rising(s) && k <= |s| && Stands(s, k, n, c)
    ensures InsertionsFrom(s, n, 0, c) == Climbs(s, k, c.bias)
    decreases |s| - k
  {
    hide InsertionsFrom, AdaptSpec, Ready;
    if k == |s| {
      NothingAbove(s, n, c);
    } else {
      RisingStep(s, k, n, c);
      var top: int, delta := s[k], (s[k] - Previous(s, k)) * (k + 1);
      RisingFrom(s, k + 1, top + 1, Counter(top, k + 1, AdaptSpec(delta, k + 1, k == 0)));
    }
  }

  lemma NothingAbove(s: Str, n: int, c: Counter)
    requires Ready(s, n, 0, c) && n <= MAX_RUNE + 1 && forall i :: 0 <= i < |s| ==> s[i] < n
    ensures InsertionsFrom(s, n, 0, c) == []
  {
    assert s[..0] == [] && s[0..] == s;
    UpToShorter(s, n - 1);
    NothingLeft(s, n, 0, c);
  }

  /** A string of increasing code points beyond ASCII is built by its climbs. */
  lemma RisingInsertions(s: Str)
    requires Rising(s)
    ensures InsertionsOf(s) == Climbs(s, 0, 72) && Basic(s) == []
  {
    ReadyAtStart(s);
    NoneUpToHere(s, 127);
    RisingFrom(s, 0, 128, START);
  }

  // ------------------------------------------- the name of the Japanese language

  /** U+65E5, U+672C, U+8A9E */
  const NIHONGO: Str := [26085, 26412, 35486]

  lemma NihongoBiases()
    ensures AdaptSpec(25957, 1, true) == 23 && AdaptSpec(654, 2, false) == 45
  {
    AdaptMeaning(25957, 1, true, 37, 74, 0, 74);
    assert Pow35(1) == 35 * Pow35(0);
    AdaptMeaning(654, 2, false, 327, 490, 1, 14);
  }

  lemma FirstDigits()
    ensures VarInt(25957, 36, 72) == [119, 103, 118]
  {
    assert VarInt(21, 108, 72) == [118];
    assert VarInt(741, 72, 72) == [103, 118];
  }

  lemma SecondDigits()
    ensures VarInt(654, 36, 23) == [55, 49, 97]
  {
    assert VarInt(0, 108, 23) == [97];
    assert VarInt(27, 72, 23) == [49, 97];
  }

  lemma ThirdDigits()
    ensures VarInt(27222, 36, 45) == [49, 49, 57, 101]
  {
  }

  lemma NihongoClimbs()
    ensures Climbs(NIHONGO, 0, 72) == [Insertion(25957, 72), Insertion(654, 23), Insertion(27222, 45)]
  {
    NihongoBiases();
    hide AdaptSpec;
    assert Climbs(NIHONGO, 3, AdaptSpec(27222, 3, false)) == [];
    assert Climbs(NIHONGO, 2, 45) == [Insertion(27222, 45)];
    assert Climbs(NIHONGO, 1, 23) == [Insertion(654, 23), Insertion(27222, 45)];
  }

  lemma ThreeDigits(a: Insertion, b: Insertion, c: Insertion)
    ensures Digits([a, b, c])
            == VarInt(a.delta, 36, a.bias) + VarInt(b.delta, 36, b.bias) + VarInt(c.delta, 36, c.bias)
  {
    hide VarInt;
    DigitsCons(a, [b, c]);
    DigitsCons(b, [c]);
    DigitsCons(c, []);
    assert [a] + [b, c] == [a, b, c] && [b] + [c] == [b, c] && [c] + [] == [c];
    assert VarInt(c.delta, 36, c.bias) + Digits([]) == VarInt(c.delta, 36, c.bias);
    hide Digits;
    var x, y, z := VarInt(a.delta, 36, a.bias), VarInt(b.delta, 36, b.bias), VarInt(c.delta, 36, c.bias);
    assert x + (y + z) == x + y + z;
  }

  lemma NihongoWritten()
    ensures Digits([Insertion(25957, 72), Insertion(654, 23), Insertion(27222, 45)])
            == [119, 103, 118, 55, 49, 97, 49, 49, 57, 101]
  {
    hide VarInt, Digits;
    ThreeDigits(Insertion(25957, 72), Insertion(654, 23), Insertion(27222, 45));
    FirstDigits();
    SecondDigits();
    ThirdDigits();
  }

  /** The well-known encoding: distances, biases, thresholds and digits are those of RFC 3492. */
  lemma NihongoEncoded()
    ensures EncodeInt32([], [26085, 26412, 35486]) == Ok([119, 103, 118, 55, 49, 97, 49, 49, 57, 101])
  {
    hide VarInt, Climbs, Digits, EncodeInt32, InsertionsOf, AllInRange;
    RisingInsertions(NIHONGO);
    EncodingInRange(NIHONGO);
    EncoderRight([], NIHONGO);
    NihongoClimbs();
    NihongoWritten();
    assert [] + EncodeSpec(NIHONGO) == EncodeSpec(NIHONGO) == Digits(InsertionsOf(NIHONGO));
  }
}
