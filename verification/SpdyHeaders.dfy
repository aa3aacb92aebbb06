// The header block of SPDY/3, uncompressed (spdy/write.go and spdy/read.go; section 2.6.10 of
// the SPDY protocol, draft 3). Texts are sequences of bytes.

module SpdyHeaders {
  import opened Bytes
  import opened Strings
  import opened Wrappers

  type Word = x: int | 0 <= x < 0x1_0000_0000

  type Text = seq<Byte>

  type Headers = map<Text, seq<Text>>

  datatype Error =
    | Short
    | UnlowercasedHeaderName
    | DuplicateHeaders
    | InvalidControlFrame
    | InvalidDataFrame
    | InvalidHeaderPresent
    | ZeroStreamId

  /** What was read, and the input behind it. */
  datatype Outcome<T> = Got(value: T, rest: seq<Byte>) | Failed(error: Error)

  // ------------------------------------------------------- numbers and texts

  /** A number of 32 bits; longer ones are cut off. */
  function Word32(x: nat): seq<Byte> {
    BigEndian(x % 0x1_0000_0000, 4)
  }

  function TakeWord(input: seq<Byte>): (r: Outcome<Word>)
    ensures r.Got? ==> |r.rest| + 4 == |input|
  {
    if |input| < 4 then Failed(Short)
    else
      ValueBound(input[..4]);
      assert Pow256(4) == 0x1_0000_0000 by { assert Pow256(2) == 65536; }
      Got(Value(input[..4]), input[4..])
  }

  function TakeBytes(input: seq<Byte>, n: nat): (r: Outcome<Text>)
    ensures r.Got? ==> |r.value| == n && |r.rest| + n == |input|
  {
    if |input| < n then Failed(Short) else Got(input[..n], input[n..])
  }

  /** A text behind its length. */
  function TextBytes(t: Text): seq<Byte> {
    Word32(|t|) + t
  }

  function TakeText(input: seq<Byte>): (r: Outcome<Text>)
    ensures r.Got? ==> |r.rest| + 4 <= |input|
  {
    match TakeWord(input)
    case Failed(e) => Failed(e)
    case Got(n, rest) => TakeBytes(rest, n)
  }

  lemma WordBack(x: Word, rest: seq<Byte>)
    ensures TakeWord(Word32(x) + rest) == Got(x, rest)
  {
    var all := Word32(x) + rest;
    assert Pow256(4) == 0x1_0000_0000 by { assert Pow256(2) == 65536; }
    ValueOfBigEndian(x, 4);
    assert all[..4] == Word32(x) && all[4..] == rest;
  }

  lemma WordSize(x: nat)
    ensures |Word32(x)| == 4
  {
  }

  lemma TextBack(t: Text, rest: seq<Byte>)
    requires |t| < 0x1_0000_0000
    ensures TakeText(TextBytes(t) + rest) == Got(t, rest)
  {
    hide Word32, TakeWord;
    assert TextBytes(t) + rest == Word32(|t|) + (t + rest);
    WordBack(|t|, t + rest);
    assert (t + rest)[..|t|] == t && (t + rest)[|t|..] == rest;
  }

  // ------------------------------------------------------------ header names

  function Down(b: Byte): Byte {
    if 65 <= b <= 90 then b + 32 else b
  }

  function Up(b: Byte): Byte {
    if 97 <= b <= 122 then b - 32 else b
  }

  /** strings.ToLower, on ASCII. */
  function Lower(t: Text): (r: Text)
    ensures |r| == |t|
  {
    seq(|t|, i requires 0 <= i < |t| => Down(t[i]))
  }

  /** http.CanonicalHeaderKey: upper case at the beginning and after a hyphen, lower case elsewhere. */
  function CanonicalFrom(t: Text, upper: bool): Text {
    if t == [] then [] else [if upper then Up(t[0]) else Down(t[0])] + CanonicalFrom(t[1..], t[0] == 45)
  }

  function Canonical(t: Text): Text {
    CanonicalFrom(t, true)
  }

  lemma LowerTwice(t: Text)
    ensures Lower(Lower(t)) == Lower(t)
  {
  }

  /** A header's name is the canonical form of what is sent for it. */
  predicate CanonicalName(name: Text) {
    Canonical(Lower(name)) == name
  }

  // -------------------------------------------------------------- the block

  /** Header.Add. */
  function Add(h: Headers, name: Text, value: Text): Headers {
    var key := Canonical(name);
    h[key := (if key in h then h[key] else []) + [value]]
  }

  function AddAll(h: Headers, name: Text, values: seq<Text>): Headers
    decreases |values|
  {
    if values == [] then h else AddAll(Add(h, name, values[0]), name, values[1..])
  }

  function EntryBytes(name: Text, values: seq<Text>): seq<Byte> {
    TextBytes(Lower(name)) + TextBytes(Join(values, [0]))
  }

  /** The entries in the order in which the map gives its keys. */
  function EntriesBytes(h: Headers, order: seq<Text>): seq<Byte>
    requires forall name :: name in order ==> name in h
  {
    if order == [] then [] else EntryBytes(order[0], h[order[0]]) + EntriesBytes(h, order[1..])
  }

  function BlockBytes(h: Headers, order: seq<Text>): seq<Byte>
    requires forall name :: name in order ==> name in h
  {
    Word32(|h|) + EntriesBytes(h, order)
  }

  /** What is wrong with a name, on top of an error seen before. */
  function NameError(h: Headers, name: Text, e: Option<Error>): Option<Error> {
    if Lower(name) in h then Some(DuplicateHeaders)
    else if name != Lower(name) then Some(UnlowercasedHeaderName) else e
  }

  /** One entry, added to the headers before it; e is an error among those. */
  function TakeEntry(input: seq<Byte>, h: Headers, e: Option<Error>): (r: Outcome<(Headers, Option<Error>)>)
    ensures r.Got? ==> |r.rest| <= |input|
  {
    match TakeText(input)
    case Failed(error) => Failed(error)
    case Got(name, rest) =>
      match TakeText(rest)
      case Failed(error) => Failed(error)
      case Got(value, behind) => Got((AddAll(h, Lower(name), Split(value, 0)), NameError(h, name, e)), behind)
  }

  function TakeEntries(n: nat, input: seq<Byte>, h: Headers, e: Option<Error>):
    (r: Outcome<(Headers, Option<Error>)>)
    ensures r.Got? ==> |r.rest| <= |input|
    decreases n
  {
    if n == 0 then Got((h, e), input) else
    match TakeEntry(input, h, e)
    case Failed(error) => Failed(error)
    case Got((added, found), rest) => TakeEntries(n - 1, rest, added, found)
  }

  function TakeBlock(input: seq<Byte>): (r: Outcome<Headers>)
    ensures r.Got? ==> |r.rest| <= |input|
  {
    match TakeWord(input)
    case Failed(error) => Failed(error)
    case Got(n, rest) =>
      match TakeEntries(n, rest, map[], None)
      case Failed(error) => Failed(error)
      case Got((h, e), behind) => if e.Some? then Failed(e.value) else Got(h, behind)
  }

  // --------------------------------------------------------- reading it back

  /** Names in canonical form, values without NUL, at least one for each name. */
  ghost predicate ValidHeaders(h: Headers) {
    forall name :: name in h ==> CanonicalName(name) && h[name] != [] && SepFree(h[name], 0)
  }

  /** An order of the keys. */
  ghost predicate KeyOrder(h: Headers, order: seq<Text>) {
    && (forall name :: name in order <==> name in h)
    && (forall i, j :: 0 <= i < j < |order| ==> order[i] != order[j])
  }

  /** Values added under a name. */
  lemma {:induction false} AddedAll(h: Headers, name: Text, values: seq<Text>)
    requires values != []
    ensures var key := Canonical(name);
            AddAll(h, name, values) == h[key := (if key in h then h[key] else []) + values]
    decreases |values|
  {
    hide Canonical;
    var key := Canonical(name);
    var once, was := Add(h, name, values[0]), if key in h then h[key] else [];
    if |values| == 1 {
      assert values == [values[0]] && AddAll(once, name, []) == once;
    } else {
      AddedAll(once, name, values[1..]);
      assert was + [values[0]] + values[1..] == was + values;
      assert h[key := was + [values[0]]][key := was + values] == h[key := was + values];
    }
  }

  /** One entry read back: no error is found in its name. */
  lemma EntryBack(h: Headers, acc: Headers, name: Text, rest: seq<Byte>, n: nat)
    requires name in h && ValidHeaders(h) && |EntryBytes(name, h[name])| < 0x1_0000_0000
    requires name !in acc && forall key :: key in acc ==> CanonicalName(key)
    ensures TakeEntries(n + 1, EntryBytes(name, h[name]) + rest, acc, None) == TakeEntries(n, rest,
                acc[name := h[name]], None)
  {
    var sent, value := Lower(name), Join(h[name], [0]);
    assert CanonicalName(name) && h[name] != [] && SepFree(h[name], 0);
    EntrySize(sent, value);
    assert EntryBytes(name, h[name]) + rest == TextBytes(sent) + (TextBytes(value) + rest);
    hide TextBytes, TakeText;
    TextBack(sent, TextBytes(value) + rest);
    TextBack(value, rest);
    SplitJoin(h[name], 0);
    LowerTwice(name);
    AddedAll(acc, sent, h[name]);
    assert [] + h[name] == h[name];
    hide *;
  }

  lemma EntrySize(sent: Text, value: Text)
    ensures |TextBytes(sent) + TextBytes(value)| == |sent| + |value| + 8
  {
  }

  /** The entries of some keys, on top of those before. */
  function Filled(acc: Headers, h: Headers, order: seq<Text>): Headers
    requires forall name :: name in order ==> name in h
    decreases |order|
  {
    if order == [] then acc else Filled(acc[order[0] := h[order[0]]], h, order[1..])
  }

  lemma {:induction false} FilledAt(acc: Headers, h: Headers, order: seq<Text>, name: Text)
    requires forall key :: key in order ==> key in h
    ensures name in Filled(acc, h, order) <==> name in acc || name in order
    ensures name in order ==> Filled(acc, h, order)[name] == h[name]
    ensures name in acc && name !in order ==> Filled(acc, h, order)[name] == acc[name]
    decreases |order|
  {
    if order != [] {
      FilledAt(acc[order[0] := h[order[0]]], h, order[1..], name);
    }
  }

  lemma FilledWhole(h: Headers, order: seq<Text>)
    requires KeyOrder(h, order)
    ensures Filled(map[], h, order) == h && |order| == |h|
  {
    forall name ensures name in Filled(map[], h, order) <==> name in h {
      FilledAt(map[], h, order, name);
    }
    forall name | name in h ensures Filled(map[], h, order)[name] == h[name] {
      FilledAt(map[], h, order, name);
    }
    assert Filled(map[], h, order).Keys == h.Keys;
    DistinctCount(order, h.Keys);
  }

  lemma {:induction false} DistinctCount(order: seq<Text>, keys: set<Text>)
    requires forall name :: name in order <==> name in keys
    requires forall i, j :: 0 <= i < j < |order| ==> order[i] != order[j]
    ensures |order| == |keys|
    decreases |order|
  {
    if order == [] {
      assert keys == {};
    } else {
      assert order[0] in keys;
      forall name ensures name in order[1..] <==> name in keys - {order[0]} {
        assert name in order <==> name == order[0] || name in order[1..];
      }
      DistinctCount(order[1..], keys - {order[0]});
    }
  }

  /** Names still to come: different ones of h, and none of those before. */
  ghost predicate ToCome(h: Headers, order: seq<Text>, acc: Headers) {
    && (forall name :: name in order ==> name in h && name !in acc)
    && (forall i, j :: 0 <= i < j < |order| ==> order[i] != order[j])
    && (forall key :: key in acc ==> CanonicalName(key))
  }

  lemma NextToCome(h: Headers, order: seq<Text>, acc: Headers)
    requires ValidHeaders(h) && ToCome(h, order, acc) && order != []
    ensures order[0] in h && order[0] !in acc && ToCome(h, order[1..], acc[order[0] := h[order[0]]])
    ensures forall key :: key in acc ==> CanonicalName(key)
  {
    hide CanonicalName;
    var rest := order[1..];
    forall name | name in rest ensures name != order[0] {
      var i :| 0 <= i < |rest| && rest[i] == name;
      assert order[i + 1] == name;
    }
  }

  lemma {:induction false} EntriesBack(h: Headers, order: seq<Text>, acc: Headers, rest: seq<Byte>)
    requires (forall name :: name in order ==> name in h) && ValidHeaders(h) && ToCome(h, order, acc)
    requires |EntriesBytes(h, order)| < 0x1_0000_0000
    ensures TakeEntries(|order|, EntriesBytes(h, order) + rest, acc, None) == Got((Filled(acc, h, order), None), rest)
    decreases |order|
  {
    hide ValidHeaders, CanonicalName, EntryBytes, ToCome;
    if order == [] {
      assert EntriesBytes(h, order) + rest == rest;
    } else {
      var name, behind := order[0], EntriesBytes(h, order[1..]) + rest;
      assert EntriesBytes(h, order) + rest == EntryBytes(name, h[name]) + behind;
      NextToCome(h, order, acc);
      EntryBack(h, acc, name, behind, |order| - 1);
      EntriesBack(h, order[1..], acc[name := h[name]], rest);
      hide TakeEntries, EntriesBytes;
    }
  }

  /** A block of valid headers is read back, whatever the order of the keys. */
  lemma BlockBack(h: Headers, order: seq<Text>, rest: seq<Byte>)
    requires ValidHeaders(h) && KeyOrder(h, order) && |BlockBytes(h, order)| < 0x1_0000_0000
    ensures TakeBlock(BlockBytes(h, order) + rest) == Got(h, rest)
  {
    hide ValidHeaders, Filled, Word32, TakeWord, EntriesBytes, TakeEntries;
    FilledWhole(h, order);
    EntryCount(h, order);
    var entries := EntriesBytes(h, order);
    assert BlockBytes(h, order) + rest == Word32(|h|) + (entries + rest);
    WordSize(|h|);
    WordBack(|h|, entries + rest);
    EntriesBack(h, order, map[], rest);
  }

  lemma {:induction false} EntryCount(h: Headers, order: seq<Text>)
    requires forall name :: name in order ==> name in h
    ensures |order| <= |EntriesBytes(h, order)|
  {
    if order != [] {
      EntryCount(h, order[1..]);
    }
  }
}
