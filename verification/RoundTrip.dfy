// Decoding what the encoder writes: when it gives the string back, exactly.

module RoundTrip {
  import opened Arithmetic
  import opened Decoder
  import opened Insertions
  import opened Punycode
  import opened Wrappers

  lemma VarIntIsDigits(q: nat, k: int, bias: int)
    ensures forall i :: 0 <= i < |VarInt(q, k, bias)| ==> DecodeDigit(VarInt(q, k, bias)[i]).Some?
    decreases q
  {
    var t := Threshold(k, bias);
    if q >= t {
      VarIntIsDigits(Rest(q, t), k + BASE, bias);
    }
  }

  /** Behind the basic code points there are digits only, and some if anything is inserted; none is a dash. */
  lemma ExtensionIsDigits(ins: seq<Insertion>)
    ensures forall i :: 0 <= i < |Digits(ins)| ==> DecodeDigit(Digits(ins)[i]).Some?
    ensures DASH !in Digits(ins)
    ensures ins != [] ==> Digits(ins) != []
  {
    if ins != [] {
      VarIntIsDigits(ins[0].delta, BASE, ins[0].bias);
      ExtensionIsDigits(ins[1..]);
    }
  }

  /** At most 1024 code points keep the counter of the decoder within int32. */
  lemma CounterBound(n: int, n0: int, h: nat, c: nat, size: nat)
    requires INITIAL_N <= n0 <= n <= MAX_RUNE && c <= h < size
    ensures (n - n0) * (h + 1) + c < 1113984 * size
  {
    MulMonotone(h + 1, n - n0, MAX_RUNE - INITIAL_N);
    MulMonotone(MAX_RUNE - INITIAL_N, h + 1, size);
  }

  /** The insertion the decoder makes is the one the encoder asked for. */
  lemma InsertionDone(s: Str, n: int, j: nat, c: Counter)
    requires Ready(s, n, j, c) && j < |s| && s[j] == n && 0 <= Distance(s, n, j, c)
    requires |s| <= MAX_OUTPUT
    ensures var after := Moved(s, n, j, c);
      InsertAt(State(Handled(s, n, j), c.i, c.n, c.bias), c.i + Distance(s, n, j, c))
      == Ok(State(Handled(s, n, j + 1), after.i, after.n, after.bias))
  {
    hide InsertAt, Handled, Before, AdaptSpec;
    var st := State(Handled(s, n, j), c.i, c.n, c.bias);
    InsertAtRounds(st, c.i + Distance(s, n, j, c), n - c.n, Before(s, n, j));
    HandledBelow(s, n, j, |st.output|);
    HandledInsert(s, n, j);
  }

  lemma UnfoldInsertion(s: Str, n: int, j: nat, c: Counter)
    requires Ready(s, n, j, c) && j < |s| && s[j] == n && n <= MAX_RUNE
    requires 0 <= Distance(s, n, j, c) && Ready(s, n, j + 1, Moved(s, n, j, c))
    ensures InsertionsFrom(s, n, j, c)
            == [Insertion(Distance(s, n, j, c), c.bias)] + InsertionsFrom(s, n, j + 1, Moved(s, n, j, c))
  {
  }

  /** At an insertion the digits ahead are those of its distance, then those of the rest. */
  lemma NextDigits(s: Str, n: int, j: nat, c: Counter, e: Str, pos: nat)
    requires Ready(s, n, j, c) && j < |s| && s[j] == n && n <= MAX_RUNE
    requires 0 <= Distance(s, n, j, c) && Ready(s, n, j + 1, Moved(s, n, j, c))
    requires pos <= |e| && e[pos..] == Digits(InsertionsFrom(s, n, j, c))
    ensures var ds := VarInt(Distance(s, n, j, c), BASE, c.bias);
      && pos + |ds| <= |e| && e[pos..pos + |ds|] == ds
      && e[pos + |ds|..] == Digits(InsertionsFrom(s, n, j + 1, Moved(s, n, j, c)))
  {
    UnfoldInsertion(s, n, j, c);
  }

  /** The number at the decoder's position is read back, and stays an int32. */
  lemma ReadOne(s: Str, n: int, j: nat, c: Counter, e: Str, pos: nat)
    requires |s| <= MAX_OUTPUT && Ready(s, n, j, c) && j < |s| && s[j] == n && n <= MAX_RUNE
    requires 0 <= Distance(s, n, j, c)
    requires var ds := VarInt(Distance(s, n, j, c), BASE, c.bias);
      pos + |ds| <= |e| && e[pos..pos + |ds|] == ds
    ensures var delta := Distance(s, n, j, c);
      ReadVar(e, pos, c.i, 1, BASE, c.bias)
      == if WeightsFit(delta, 1, BASE, c.bias)
         then Got(c.i + delta, pos + |VarInt(delta, BASE, c.bias)|) else Bad
  {
    HandledBelow(s, n, j, |Handled(s, n, j)|);
    CounterBound(n, c.n, |Handled(s, n, j)|, Before(s, n, j), |s|);
    VarIntReadsBack(Distance(s, n, j, c), e, pos, c.i, 1, BASE, c.bias);
  }

  /** One round of the decoder's outer loop at an insertion of s. */
  lemma DecodeOne(s: Str, n: int, j: nat, c: Counter, e: Str, pos: nat)
    requires |s| <= MAX_OUTPUT && Ready(s, n, j, c) && j < |s| && s[j] == n && n <= MAX_RUNE
    requires 0 <= Distance(s, n, j, c)
    requires var ds := VarInt(Distance(s, n, j, c), BASE, c.bias);
      pos + |ds| <= |e| && e[pos..pos + |ds|] == ds
    ensures var delta, after := Distance(s, n, j, c), Moved(s, n, j, c);
      DecodeExt(e, pos, State(Handled(s, n, j), c.i, c.n, c.bias))
      == if WeightsFit(delta, 1, BASE, c.bias)
         then DecodeExt(e, pos + |VarInt(delta, BASE, c.bias)|,
                        State(Handled(s, n, j + 1), after.i, after.n, after.bias))
         else Err
  {
    hide InsertAt, Handled, Distance, Moved, VarInt, WeightsFit, ReadVar, Ready;
    ReadOne(s, n, j, c, e, pos);
    InsertionDone(s, n, j, c);
  }

  lemma FitsCons(x: Insertion, rest: seq<Insertion>)
    ensures AllWeightsFit([x] + rest) <==> WeightsFit(x.delta, 1, BASE, x.bias) && AllWeightsFit(rest)
  {
    var all := [x] + rest;
    assert forall k :: 0 <= k < |rest| ==> rest[k] == all[k + 1];
    assert all[0] == x;
  }

  /** The decoder, standing where the encoder stands, rebuilds s from what is left to read. */
  ghost predicate Follows(s: Str, n: int, j: nat, c: Counter, e: Str, pos: nat)
    requires Ready(s, n, j, c) && pos <= |e|
  {
    DecodeExt(e, pos, State(Handled(s, n, j), c.i, c.n, c.bias))
    == if AllWeightsFit(InsertionsFrom(s, n, j, c)) then Ok(s) else Err
  }

  lemma FollowsAtEnd(s: Str, n: int, c: Counter, e: Str)
    requires Ready(s, n, 0, c) && n > MAX_RUNE
    ensures Follows(s, n, 0, c, e, |e|)
  {
    assert s[0..] == s && s[..0] == [];
    UpToAll(s, n - 1);
    assert Handled(s, n, 0) == s;
    assert InsertionsFrom(s, n, 0, c) == [];
  }

  lemma {:induction false} FollowsNext(s: Str, n: int, c: Counter, e: Str, pos: nat)
    requires |s| <= MAX_OUTPUT && Ready(s, n, |s|, c) && n <= MAX_RUNE && pos <= |e|
    requires e[pos..] == Digits(InsertionsFrom(s, n, |s|, c))
    ensures Follows(s, n, |s|, c, e, pos)
    decreases MAX_RUNE + 1 - n, 0, 0
  {
    DistanceNext(s, n, c);
    HandledNext(s, n);
    DecodeFollows(s, n + 1, 0, c, e, pos);
  }

  lemma {:induction false} FollowsSkip(s: Str, n: int, j: nat, c: Counter, e: Str, pos: nat)
    requires |s| <= MAX_OUTPUT && Ready(s, n, j, c) && j < |s| && s[j] != n && n <= MAX_RUNE && pos <= |e|
    requires e[pos..] == Digits(InsertionsFrom(s, n, j, c))
    ensures Follows(s, n, j, c, e, pos)
    decreases MAX_RUNE + 1 - n, |s| - j, 0
  {
    DistanceSkip(s, n, j, c);
    HandledSkip(s, n, j);
    DecodeFollows(s, n, j + 1, c, e, pos);
  }

  lemma {:induction false} FollowsInsertion(s: Str, n: int, j: nat, c: Counter, e: Str, pos: nat)
    requires |s| <= MAX_OUTPUT && Ready(s, n, j, c) && j < |s| && s[j] == n && n <= MAX_RUNE && pos <= |e|
    requires 0 <= Distance(s, n, j, c) && Ready(s, n, j + 1, Moved(s, n, j, c))
    requires e[pos..] == Digits(InsertionsFrom(s, n, j, c))
    ensures Follows(s, n, j, c, e, pos)
    decreases MAX_RUNE + 1 - n, |s| - j, 0
  {
    hide DecodeExt, VarInt, WeightsFit, Digits, InsertionsFrom, Handled, Distance, Moved, AllWeightsFit, Ready;
    var delta, after := Distance(s, n, j, c), Moved(s, n, j, c);
    NextDigits(s, n, j, c, e, pos);
    DecodeFollows(s, n, j + 1, after, e, pos + |VarInt(delta, BASE, c.bias)|);
    UnfoldInsertion(s, n, j, c);
    DecodeOne(s, n, j, c, e, pos);
    FitsCons(Insertion(delta, c.bias), InsertionsFrom(s, n, j + 1, after));
  }

  /**
   * The invariant that ties the two machines together: the decoder's buffer is what the
   * encoder has handled, and from there on the decoder rebuilds the rest of s.
   */
  lemma {:induction false} DecodeFollows(s: Str, n: int, j: nat, c: Counter, e: Str, pos: nat)
    requires |s| <= MAX_OUTPUT && Ready(s, n, j, c) && pos <= |e|
    requires n <= MAX_RUNE + 1 && (n == MAX_RUNE + 1 ==> j == 0)
    requires e[pos..] == Digits(InsertionsFrom(s, n, j, c))
    ensures Follows(s, n, j, c, e, pos)
    decreases MAX_RUNE + 1 - n, |s| - j, 1
  {
    if n > MAX_RUNE {
      FollowsAtEnd(s, n, c, e);
    } else if j == |s| {
      FollowsNext(s, n, c, e, pos);
    } else if s[j] != n {
      FollowsSkip(s, n, j, c, e, pos);
    } else {
      DistanceNonNegative(s, n, j, c);
      ReadyMoved(s, n, j, c);
      FollowsInsertion(s, n, j, c, e, pos);
    }
  }

  // ------------------------------------------------------------- whole strings

  lemma {:induction false} UpToShorter(s: Str, n: int)
    ensures |UpTo(s, n)| == |s| <==> forall k :: 0 <= k < |s| ==> s[k] <= n
    ensures |UpTo(s, n)| == |s| ==> UpTo(s, n) == s
  {
    if s != [] {
      UpToShorter(s[1..], n);
      assert forall k :: 0 <= k < |s[1..]| ==> s[1..][k] == s[k + 1];
      assert forall k :: 1 <= k < |s| ==> s[k] == s[1..][k - 1];
    }
  }

  predicate AllBasic(s: Str) {
    forall k :: 0 <= k < |s| ==> s[k] < 128
  }

  /** Insertions are still to come exactly as long as something is not handled. */
  lemma {:induction false} NothingLeft(s: Str, n: int, j: nat, c: Counter)
    requires Ready(s, n, j, c) && n <= MAX_RUNE + 1 && (n == MAX_RUNE + 1 ==> j == 0)
    ensures InsertionsFrom(s, n, j, c) == [] <==> |Handled(s, n, j)| == |s|
    decreases MAX_RUNE + 1 - n, |s| - j
  {
    if n > MAX_RUNE {
      assert s[0..] == s && s[..0] == [];
      UpToAll(s, n - 1);
    } else if j == |s| {
      DistanceNext(s, n, c);
      HandledNext(s, n);
      NothingLeft(s, n + 1, 0, c);
    } else if s[j] != n {
      DistanceSkip(s, n, j, c);
      HandledSkip(s, n, j);
      NothingLeft(s, n, j + 1, c);
    } else {
      DistanceNonNegative(s, n, j, c);
      HandledBelow(s, n, j, |Handled(s, n, j)|);
    }
  }

  lemma InsertionsEmpty(s: Str)
    ensures InsertionsOf(s) == [] <==> AllBasic(s)
    ensures AllBasic(s) <==> |Basic(s)| == |s|
    ensures AllBasic(s) ==> Basic(s) == s
  {
    ReadyAtStart(s);
    NothingLeft(s, INITIAL_N, 0, START);
    UpToShorter(s, 127);
  }

  /** An insertion is never made into a buffer of 1024 code points. */
  lemma {:induction false} DecodedShort(e: Str, pos: nat, st: State)
    requires pos < |e| && DecodeExt(e, pos, st).Ok?
    ensures |DecodeExt(e, pos, st).value| <= MAX_OUTPUT
    decreases |e| - pos
  {
    var reading := ReadVar(e, pos, st.i, 1, BASE, st.bias);
    var after := InsertAt(st, reading.i).value;
    if reading.pos < |e| {
      DecodedShort(e, reading.pos, after);
    }
  }

  /** The decoder finds the border between basic code points and digits. */
  lemma BorderFound(basic: Str, ds: Str)
    requires DASH !in ds && ds != []
    ensures var head := basic + (if basic != [] then [DASH] else []);
      DecodeSpec(head + ds) == DecodeExt(head + ds, |head|, Start(basic))
  {
    var head := basic + (if basic != [] then [DASH] else []);
    var e := head + ds;
    assert forall k :: |head| <= k < |e| ==> e[k] == ds[k - |head|];
    if basic != [] {
      assert e[|head| - 1] == DASH;
      assert LastIndex(e, DASH) == |head| - 1;
      assert e[..|head| - 1] == basic;
    } else {
      assert LastIndex(e, DASH) == -1;
    }
  }

  /** Where the decoder starts on what the encoder wrote. */
  lemma DecodeStarts(s: Str)
    requires !AllBasic(s)
    ensures var e := EncodeSpec(s);
      var pos := |e| - |Digits(InsertionsOf(s))|;
      && 0 <= pos < |e| && e[pos..] == Digits(InsertionsOf(s))
      && DecodeSpec(e) == DecodeExt(e, pos, Start(Basic(s)))
  {
    InsertionsEmpty(s);
    ExtensionIsDigits(InsertionsOf(s));
    var head := Basic(s) + (if Basic(s) != [] then [DASH] else []);
    BorderFound(Basic(s), Digits(InsertionsOf(s)));
    assert EncodeSpec(s) == head + Digits(InsertionsOf(s));
    assert EncodeSpec(s)[|head|..] == Digits(InsertionsOf(s));
  }

  /** A string is restored unless it needs the extension and breaks one of the decoder's limits. */
  predicate Restorable(s: Str) {
    AllBasic(s) || (|s| <= MAX_OUTPUT && AllWeightsFit(InsertionsOf(s)))
  }

  lemma DecodeBasic(s: Str)
    requires AllBasic(s)
    ensures DecodeSpec(EncodeSpec(s)) == Ok(s)
  {
    InsertionsEmpty(s);
    var e := EncodeSpec(s);
    if s != [] {
      assert e == s + [DASH];
      assert LastIndex(e, DASH) == |s|;
      assert e[..|e| - 1] == s;
    }
  }

  lemma DecodeExtended(s: Str)
    requires !AllBasic(s)
    ensures |s| <= MAX_OUTPUT ==> DecodeSpec(EncodeSpec(s)) == if AllWeightsFit(InsertionsOf(s)) then Ok(s) else Err
    ensures |s| > MAX_OUTPUT ==> DecodeSpec(EncodeSpec(s)) != Ok(s)
  {
    hide DecodeSpec, EncodeSpec, Digits, AllBasic;
    DecodeStarts(s);
    var e := EncodeSpec(s);
    var pos := |e| - |Digits(InsertionsOf(s))|;
    ReadyAtStart(s);
    if |s| <= MAX_OUTPUT {
      DecodeFollows(s, INITIAL_N, 0, START, e, pos);
    } else if DecodeSpec(e).Ok? {
      DecodedShort(e, pos, Start(Basic(s)));
    }
    hide DecodeExt, AllWeightsFit;
  }

  /** Decoding what the encoder writes gives the string back exactly when it is restorable. */
  lemma DecodeEncode(s: Str)
    ensures DecodeSpec(EncodeSpec(s)) == Ok(s) <==> Restorable(s)
    ensures |s| <= MAX_OUTPUT && !Restorable(s) ==> DecodeSpec(EncodeSpec(s)) == Err
  {
    hide DecodeSpec, EncodeSpec, AllBasic, AllWeightsFit;
    if AllBasic(s) {
      DecodeBasic(s);
    } else {
      DecodeExtended(s);
    }
  }
}
