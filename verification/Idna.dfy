// Domain names in ASCII and in Unicode form (idna/idna.go), on top of the Punycode codec.

module Idna {
  import Arithmetic
  import opened Ascending
  import opened Checks
  import opened Decoder
  import opened Encoder
  import opened Insertions
  import opened Int32
  import opened Limits
  import opened Punycode
  import opened RoundTrip
  import opened Strings
  import opened Tracking
  import opened Wrappers

  const DOT: Rune := 46

  /** "xn--" */
  const ACE_PREFIX: Str := [120, 110, 45, 45]

  // ----------------------------------------------------------------- ToASCII

  /** What ToASCII may put in the place of a label. */
  ghost predicate AsciiLabel(lbl: Str, a: Str) {
    if AllBasic(lbl) then a == lbl else EncodeInt32(ACE_PREFIX, lbl) == Ok(a)
  }

  ghost predicate AsciiLabels(labels: seq<Str>, out: seq<Str>) {
    |out| == |labels| && forall i :: 0 <= i < |labels| ==> AsciiLabel(labels[i], out[i])
  }

  /** A label that cannot be encoded makes ToASCII fail. */
  ghost predicate Unencodable(lbl: Str) {
    !AllBasic(lbl) && Caught(lbl)
  }

  /** What ToASCII returns: every label converted, or an error because one cannot be. */
  ghost predicate AsciiOutcome(s: Str, r: Result<Str>) {
    match r
    case Ok(a) => exists out :: AsciiLabels(Split(s, DOT), out) && a == Join(out, [DOT])
    case Err => exists i :: 0 <= i < |Split(s, DOT)| && Unencodable(Split(s, DOT)[i])
  }

  /** One outcome only: an error if and only if some label cannot be encoded. */
  lemma AsciiOutcomeUnique(s: Str, r1: Result<Str>, r2: Result<Str>)
    requires AsciiOutcome(s, r1) && AsciiOutcome(s, r2)
    ensures r1 == r2
  {
    if r1.Ok? && r2.Ok? {
      var out1 :| AsciiLabels(Split(s, DOT), out1) && r1.value == Join(out1, [DOT]);
      var out2 :| AsciiLabels(Split(s, DOT), out2) && r2.value == Join(out2, [DOT]);
      assert out1 == out2;
    }
  }

  lemma LabelsShort(s: Str, i: nat)
    requires i < |Split(s, DOT)|
    ensures |Split(s, DOT)[i]| <= |s|
  {
    if s != [] {
      var rest := Split(s[1..], DOT);
      if s[0] == DOT {
        if i > 0 {
          LabelsShort(s[1..], i - 1);
        }
      } else {
        LabelsShort(s[1..], i);
      }
    }
  }

  lemma {:induction false} PartsBasic(s: Str)
    requires AllBasic(s)
    ensures forall i :: 0 <= i < |Split(s, DOT)| ==> AllBasic(Split(s, DOT)[i])
  {
    if s != [] {
      PartsBasic(s[1..]);
    }
  }

  method ToASCII(s: Str) returns (r: Result<Str>)
    requires |s| < MAX
    ensures AsciiOutcome(s, r)
  {
    if AllBasic(s) {
      JoinSplit(s, DOT);
      PartsBasic(s);
      assert AsciiLabels(Split(s, DOT), Split(s, DOT));
      return Ok(s);
    }
    var labels := Split(s, DOT);
    for i := 0 to |labels|
      invariant |labels| == |Split(s, DOT)|
      invariant forall k :: 0 <= k < i ==> AsciiLabel(Split(s, DOT)[k], labels[k])
      invariant forall k :: i <= k < |labels| ==> labels[k] == Split(s, DOT)[k]
    {
      if !AllBasic(labels[i]) {
        LabelsShort(s, i);
        var a := Encode(ACE_PREFIX, labels[i]);
        if a.Err? {
          return Err;
        }
        labels := labels[i := a.value];
      }
    }
    return Ok(Join(labels, [DOT]));
  }

  // --------------------------------------------------------------- ToUnicode

  function UnicodeLabel(lbl: Str): Result<Str> {
    if HasPrefix(lbl, ACE_PREFIX) then DecodeSpec(lbl[|ACE_PREFIX|..]) else Ok(lbl)
  }

  ghost predicate UnicodeLabels(labels: seq<Str>, out: seq<Str>) {
    |out| == |labels| && forall i :: 0 <= i < |labels| ==> UnicodeLabel(labels[i]) == Ok(out[i])
  }

  /** What ToUnicode may return: every label converted, or an error because one cannot be. */
  ghost predicate UnicodeOutcome(s: Str, r: Result<Str>) {
    match r
    case Ok(u) => exists out :: UnicodeLabels(Split(s, DOT), out) && u == Join(out, [DOT])
    case Err => exists i :: 0 <= i < |Split(s, DOT)| && UnicodeLabel(Split(s, DOT)[i]).Err?
  }

  method ToUnicode(s: Str) returns (r: Result<Str>)
    requires |s| < MAX
    ensures UnicodeOutcome(s, r)
  {
    var labels := Split(s, DOT);
    JoinSplit(s, DOT);
    if !Contains(s, ACE_PREFIX) {
      forall i | 0 <= i < |labels|
        ensures UnicodeLabel(labels[i]) == Ok(labels[i])
      {
        if HasPrefix(labels[i], ACE_PREFIX) {
          PartWithin(labels, [DOT], i, ACE_PREFIX);
        }
      }
      assert UnicodeLabels(labels, labels);
      return Ok(s);
    }
    for i := 0 to |labels|
      invariant |labels| == |Split(s, DOT)|
      invariant forall k :: 0 <= k < i ==> UnicodeLabel(Split(s, DOT)[k]) == Ok(labels[k])
      invariant forall k :: i <= k < |labels| ==> labels[k] == Split(s, DOT)[k]
    {
      if HasPrefix(labels[i], ACE_PREFIX) {
        LabelsShort(s, i);
        var u := Decode(labels[i][|ACE_PREFIX|..]);
        if u.Err? {
          return Err;
        }
        labels := labels[i := u.value];
      }
    }
    return Ok(Join(labels, [DOT]));
  }

  // ------------------------------------------------- there and back again

  /** The labels that survive the way to ASCII and back. */
  predicate Survives(lbl: Str) {
    if AllBasic(lbl) then !HasPrefix(lbl, ACE_PREFIX) else Restorable(lbl)
  }

  lemma InsertionShape(st: State, sum: nat)
    requires st.i <= sum && st.n >= INITIAL_N && InsertAt(st, sum).Ok?
    ensures var after := InsertAt(st, sum).value;
      && after.n >= INITIAL_N && !AllBasic(after.output)
      && (DOT !in st.output ==> DOT !in after.output)
  {
    var x := |st.output| + 1;
    Arithmetic.DivMod(sum, x);
    var after := InsertAt(st, sum).value;
    assert after.output == st.output[..after.i - 1] + [after.n] + st.output[after.i - 1..];
    assert after.output[after.i - 1] == after.n;
  }

  lemma {:induction false} InsertedStays(e: Str, pos: nat, st: State)
    requires pos <= |e| && st.n >= INITIAL_N && DecodeExt(e, pos, st).Ok?
    requires pos < |e| || !AllBasic(st.output)
    ensures !AllBasic(DecodeExt(e, pos, st).value)
    decreases |e| - pos
  {
    if pos < |e| {
      var reading := ReadVar(e, pos, st.i, 1, BASE, st.bias);
      InsertionShape(st, reading.i);
      InsertedStays(e, reading.pos, InsertAt(st, reading.i).value);
    }
  }

  /** Decoding adds no dot. */
  lemma {:induction false} NoDotInserted(e: Str, pos: nat, st: State)
    requires pos <= |e| && st.n >= INITIAL_N && DOT !in st.output && DecodeExt(e, pos, st).Ok?
    ensures DOT !in DecodeExt(e, pos, st).value
    decreases |e| - pos
  {
    if pos < |e| {
      var reading := ReadVar(e, pos, st.i, 1, BASE, st.bias);
      InsertionShape(st, reading.i);
      NoDotInserted(e, reading.pos, InsertAt(st, reading.i).value);
    }
  }

  lemma DecodedNoDot(lbl: Str)
    requires DOT !in lbl && UnicodeLabel(lbl).Ok?
    ensures DOT !in UnicodeLabel(lbl).value
  {
    if HasPrefix(lbl, ACE_PREFIX) {
      var e := lbl[|ACE_PREFIX|..];
      var pos := 1 + LastIndex(e, DASH);
      if e != [] && pos != 1 && pos != |e| {
        NoDotInserted(e, pos, Start(if pos != 0 then e[..pos - 1] else []));
      }
    }
  }

  /** No ASCII string decodes to itself with the prefix in front. */
  lemma DecodedNotItself(e: Str)
    requires AllBasic(e)
    ensures DecodeSpec(e) != Ok(ACE_PREFIX + e)
  {
    var pos := 1 + LastIndex(e, DASH);
    assert |ACE_PREFIX + e| == 4 + |e|;
    if e != [] && pos != 1 && DecodeSpec(e).Ok? {
      var r := DecodeSpec(e).value;
      if pos == |e| {
        assert |r| < |e|;
      } else {
        InsertedStays(e, pos, Start(if pos != 0 then e[..pos - 1] else []));
        assert !AllBasic(r) && AllBasic(ACE_PREFIX + e);
      }
    }
  }

  /** What stands behind the prefix of an encoded label, and where its digits begin. */
  lemma EncodedLabel(lbl: Str, a: Str)
    requires !AllBasic(lbl) && EncodeInt32(ACE_PREFIX, lbl) == Ok(a)
    ensures var ds := Digits(WrittenOf(lbl));
      && a == ACE_PREFIX + Head([], lbl) + ds
      && ds != [] && (forall k :: 0 <= k < |ds| ==> DecodeDigit(ds[k]).Some?)
  {
    InsertionsEmpty(lbl);
    ExtensionIsDigits(WrittenOf(lbl));
    assert Head(ACE_PREFIX, lbl) == ACE_PREFIX + Head([], lbl);
  }

  /** Digits behind the dash make the decoder's limit of 1024 code points apply. */
  lemma LongLabelLost(lbl: Str, a: Str)
    requires |lbl| > MAX_OUTPUT && !AllBasic(lbl) && EncodeInt32(ACE_PREFIX, lbl) == Ok(a)
    ensures DecodeSpec(a[|ACE_PREFIX|..]) != Ok(lbl)
  {
    EncodedLabel(lbl, a);
    ExtensionIsDigits(WrittenOf(lbl));
    var head, ds := Head([], lbl), Digits(WrittenOf(lbl));
    assert a[|ACE_PREFIX|..] == head + ds;
    BorderFound(Basic(lbl), ds);
    assert head == Basic(lbl) + (if Basic(lbl) != [] then [DASH] else []);
    hide *;
    if DecodeSpec(head + ds).Ok? {
      DecodedShort(head + ds, |head|, Start(Basic(lbl)));
    }
  }

  lemma {:induction false} BasicNoDot(s: Str, n: int)
    requires DOT !in s
    ensures DOT !in UpTo(s, n)
  {
    if s != [] {
      BasicNoDot(s[1..], n);
    }
  }

  lemma AsciiLabelNoDot(lbl: Str, a: Str)
    requires DOT !in lbl && AsciiLabel(lbl, a)
    ensures DOT !in a
  {
    if !AllBasic(lbl) {
      BasicNoDot(lbl, 127);
      EncodedLabel(lbl, a);
      assert DOT !in Digits(WrittenOf(lbl));
    }
  }

  /** One label: it comes back exactly when it survives. */
  lemma LabelThereAndBack(lbl: Str, a: Str)
    requires AsciiLabel(lbl, a)
    ensures UnicodeLabel(a) == Ok(lbl) <==> Survives(lbl)
  {
    if AllBasic(lbl) {
      if HasPrefix(lbl, ACE_PREFIX) {
        DecodedNotItself(lbl[|ACE_PREFIX|..]);
        assert lbl == ACE_PREFIX + lbl[|ACE_PREFIX|..];
      }
    } else {
      WrittenIsRight(ACE_PREFIX, lbl);
      if AllInRange(InsertionsOf(lbl)) {
        DecodeEncode(lbl);
      } else {
        if |lbl| <= EXACT_LENGTH {
          EncodingInRange(lbl);
        }
        LongLabelLost(lbl, a);
      }
    }
  }

  ghost predicate AllSurvive(labels: seq<Str>) {
    forall i :: 0 <= i < |labels| ==> Survives(labels[i])
  }

  /** Label by label, ToUnicode undoes ToASCII exactly when every label survives. */
  lemma LabelsThereAndBack(d: Str, out: seq<Str>)
    requires AsciiLabels(Split(d, DOT), out)
    ensures Split(Join(out, [DOT]), DOT) == out
    ensures AllSurvive(Split(d, DOT)) <==> UnicodeLabels(out, Split(d, DOT))
  {
    var labels := Split(d, DOT);
    SplitSepFree(d, DOT);
    forall i | 0 <= i < |labels|
      ensures DOT !in out[i] && (UnicodeLabel(out[i]) == Ok(labels[i]) <==> Survives(labels[i]))
    {
      AsciiLabelNoDot(labels[i], out[i]);
      LabelThereAndBack(labels[i], out[i]);
    }
    SplitJoin(out, DOT);
  }

  /** Decoded labels join to d only if they are the labels of d. */
  lemma UnicodeJoinInjective(labels: seq<Str>, out: seq<Str>, d: Str)
    requires SepFree(labels, DOT) && |labels| > 0 && UnicodeLabels(labels, out)
    ensures Join(out, [DOT]) == d <==> out == Split(d, DOT)
  {
    forall i | 0 <= i < |out|
      ensures DOT !in out[i]
    {
      DecodedNoDot(labels[i]);
    }
    SplitJoin(out, DOT);
    JoinSplit(d, DOT);
  }

  /** ToUnicode undoes ToASCII on a domain exactly when every label survives. */
  lemma DomainThereAndBack(d: Str, a: Str, u: Result<Str>)
    requires AsciiOutcome(d, Ok(a)) && UnicodeOutcome(a, u)
    ensures u == Ok(d) <==> AllSurvive(Split(d, DOT))
  {
    var out :| AsciiLabels(Split(d, DOT), out) && a == Join(out, [DOT]);
    LabelsThereAndBack(d, out);
    SplitSepFree(a, DOT);
    if u.Ok? {
      var back :| UnicodeLabels(out, back) && u.value == Join(back, [DOT]);
      UnicodeJoinInjective(out, back, d);
      UnicodeLabelsUnique(out, back, Split(d, DOT));
    }
  }

  lemma UnicodeLabelsUnique(labels: seq<Str>, out1: seq<Str>, out2: seq<Str>)
    requires UnicodeLabels(labels, out1)
    ensures UnicodeLabels(labels, out2) <==> out1 == out2
  {
    if UnicodeLabels(labels, out2) {
      assert forall i :: 0 <= i < |labels| ==> Ok(out1[i]) == UnicodeLabel(labels[i]) == Ok(out2[i]);
    }
  }

  /** A label that cannot be encoded would not have come back either. */
  lemma UnencodableLost(lbl: Str)
    requires Unencodable(lbl)
    ensures !Survives(lbl) && |lbl| > EXACT_LENGTH
  {
    if |lbl| <= EXACT_LENGTH {
      EncodingInRange(lbl);
      EncoderRight([], lbl);
    }
  }

  /**
   * The law for real domains: with labels of at most 66 code points, none of them an ASCII
   * label that starts with "xn--", ToASCII succeeds and ToUnicode gives the domain back.
   */
  lemma ShortDomainThereAndBack(d: Str, r: Result<Str>, u: Result<Str>)
    requires forall i :: 0 <= i < |Split(d, DOT)| ==>
      var lbl := Split(d, DOT)[i];
      |lbl| <= SAFE_LENGTH && !(AllBasic(lbl) && HasPrefix(lbl, ACE_PREFIX))
    requires AsciiOutcome(d, r) && (r.Ok? ==> UnicodeOutcome(r.value, u))
    ensures r.Ok? && u == Ok(d)
  {
    var labels := Split(d, DOT);
    forall i | 0 <= i < |labels|
      ensures Survives(labels[i])
    {
      ShortIsRestorable(labels[i]);
    }
    if r.Err? {
      var i :| 0 <= i < |labels| && Unencodable(labels[i]);
      UnencodableLost(labels[i]);
    } else {
      DomainThereAndBack(d, r.value, u);
    }
  }

  /** A name that is not ASCII and a top level domain that is: only the one is encoded, behind "xn--". */
  lemma UnderAscii(name: Str, top: Str, word: Str)
    requires 46 !in name && 46 !in top && !AllBasic(name) && AllBasic(top) && EncodeInt32([], name) == Ok(word)
    ensures AsciiOutcome(name + [46] + top, Ok([120, 110, 45, 45] + word + [46] + top))
  {
    var a := [120, 110, 45, 45] + word;
    assert Head(ACE_PREFIX, name) == [120, 110, 45, 45] + Head([], name);
    assert a == Head(ACE_PREFIX, name) + Digits(WrittenOf(name));
    assert AsciiLabel(name, a);
    SplitFirst(name, top, DOT);
    SplitFirst(top, [], DOT);
    hide AsciiLabel, Split, AllBasic, Caught;
    assert AsciiLabels([name, top], [a, top]) by {
      TopKept(top);
    }
    assert [a, top][1..] == [top];
    assert Join([a, top], [DOT]) == a + [DOT] + top;
  }

  lemma TopKept(top: Str)
    requires AllBasic(top)
    ensures AsciiLabel(top, top)
  {
  }

  lemma NihongoParts(name: Str, top: Str)
    requires name == [26085, 26412, 35486] && top == [106, 112]
    ensures 46 !in name && 46 !in top && !AllBasic(name) && AllBasic(top)
  {
    assert name[0] >= 128;
  }

  /** U+65E5 U+672C U+8A9E ".jp" is "xn--" "wgv71a119e" ".jp". */
  lemma NihongoDomain(name: Str, top: Str, word: Str)
    requires name == [26085, 26412, 35486] && top == [106, 112]
    requires word == [119, 103, 118, 55, 49, 97, 49, 49, 57, 101]
    ensures AsciiOutcome(name + [46] + top, Ok([120, 110, 45, 45] + word + [46] + top))
  {
    hide *;
    NihongoEncoded();
    NihongoParts(name, top);
    UnderAscii(name, top, word);
  }
}
