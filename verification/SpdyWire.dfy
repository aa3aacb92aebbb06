// The wire format of SPDY/3 in plain bytes, and what a reader refuses (spdy/write.go, spdy/read.go and
// spdy/types.go; sections 2.2 and 2.6 of the SPDY protocol, draft 3).

module SpdyWire {
  import opened Bytes
  import opened SpdyFrames
  import opened SpdyHeaders
  import opened Strings
  import opened Wrappers

  // ------------------------------------------------------------- the layout

  /** Four bytes, the most significant first. */
  lemma WordOf(a: Byte, b: Byte, c: Byte, d: Byte)
    ensures Word32(((a * 256 + b) * 256 + c) * 256 + d) == [a, b, c, d]
  {
    var x := ((a * 256 + b) * 256 + c) * 256 + d;
    WordSmall(x);
    FourBytes(x);
    assert x / 256 == (a * 256 + b) * 256 + c && x / 256 / 256 == a * 256 + b;
    TwoBytes(a * 256 + b);
    hide BigEndian, Word32;
  }

  /** A length of three bytes. */
  function Three(n: nat): (r: seq<Byte>)
    requires n < 0x100_0000
    ensures |r| == 3
    ensures var a: int, b: int, c: int := r[0], r[1], r[2]; n == (a * 256 + b) * 256 + c
  {
    [n / 0x1_0000, n / 0x100 % 256, n % 256]
  }

  lemma CombinedLayout(top: Byte, low: nat)
    requires low < 0x100_0000
    ensures Word32(Combined(top, low)) == [top] + Three(low)
  {
    CombinedParts(top, low);
    var r := Three(low);
    hide Combined, Word32, Three;
    assert Combined(top, low) == ((top * 256 + r[0]) * 256 + r[1]) * 256 + r[2];
    WordOf(top, r[0], r[1], r[2]);
    assert r == [r[0], r[1], r[2]];
  }

  /** Control bit and version 3, type, flags, and a length of 24 bits. */
  lemma ControlLayout(frameType: Byte, flags: Byte, length: nat)
    requires length < 0x100_0000
    ensures ControlBytes(frameType, flags, length) == [0x80, 3, 0, frameType, flags] + Three(length)
  {
    hide Combined, Word32, Three;
    ControlBytesParts(frameType, flags, length, []);
    WordOf(0x80, 3, 0, frameType);
    assert ((0x80 * 256 + 3) * 256 + 0) * 256 + frameType == 0x8003_0000 + frameType;
    CombinedLayout(flags, length);
    hide ControlBytes;
    assert ControlBytes(frameType, flags, length) + [] == ControlBytes(frameType, flags, length);
    assert [0x80, 3, 0, frameType] + (([flags] + Three(length)) + []) == [0x80, 3, 0, frameType, flags] + Three(length);
  }

  lemma Framed(frameType: Byte, flags: Byte, length: nat, body: seq<Byte>)
    requires length < 0x100_0000
    ensures ControlBytes(frameType, flags, length) + body == [0x80, 3, 0, frameType, flags] + Three(length) + body
  {
    ControlLayout(frameType, flags, length);
    hide ControlBytes, Three;
  }

  /** The frames of section 2.6 with headers: their type, their length, and the order of their fields. */
  lemma LayoutWithHeaders(f: Frame, order: seq<Text>)
    requires Valid(f, order) && (f.SynStream? || f.SynReply? || f.HeadersFrame?)
    ensures Ordered(f, order)
    ensures var block, bytes := BlockBytes(f.headers, order), Written(f, order).bytes;
      match f
      case SynStream(flags, id, associatedTo, priority, slot, h) =>
        |block| + 10 < 0x100_0000
        && bytes == [0x80, 3, 0, 1, flags] + Three(|block| + 10)
                    + (Word32(id) + Word32(associatedTo) + [priority * 32, slot] + block)
      case SynReply(flags, id, h) =>
        |block| + 4 < 0x100_0000
        && bytes == [0x80, 3, 0, 2, flags] + Three(|block| + 4) + (Word32(id) + block)
      case HeadersFrame(flags, id, h) =>
        |block| + 4 < 0x100_0000
        && bytes == [0x80, 3, 0, 8, flags] + Three(|block| + 4) + (Word32(id) + block)
      case _ => true
  {
    hide Word32, BlockBytes, ControlBytes, Three, HasInvalid, ValidHeaders;
    var block := BlockBytes(f.headers, order);
    match f {
      case SynStream(flags, id, associatedTo, priority, slot, h) =>
        var body := Word32(id) + Word32(associatedTo) + [priority * 32, slot] + block;
        Framed(1, flags, |block| + 10, body);
        var control := ControlBytes(1, flags, |block| + 10);
        Inner(control, Word32(id), Word32(associatedTo), [priority * 32, slot], block);
      case SynReply(flags, id, h) =>
        Framed(2, flags, |block| + 4, Word32(id) + block);
        assert ControlBytes(2, flags, |block| + 4) + (Word32(id) + block)
            == ControlBytes(2, flags, |block| + 4) + Word32(id) + block;
      case HeadersFrame(flags, id, h) =>
        Framed(8, flags, |block| + 4, Word32(id) + block);
        assert ControlBytes(8, flags, |block| + 4) + (Word32(id) + block)
            == ControlBytes(8, flags, |block| + 4) + Word32(id) + block;
    }
  }

  lemma Inner(a: seq<Byte>, b: seq<Byte>, c: seq<Byte>, d: seq<Byte>, e: seq<Byte>)
    ensures a + b + c + d + e == a + (b + c + d + e)
  {
  }

  lemma Inner3(a: seq<Byte>, b: seq<Byte>, c: seq<Byte>)
    ensures a + b + c == a + (b + c)
  {
  }

  /** The other frames of section 2.6, and the data frame of section 2.2.2. */
  lemma LayoutPlain(f: Frame, order: seq<Text>)
    requires Valid(f, order) && !(f.SynStream? || f.SynReply? || f.HeadersFrame?)
    ensures Ordered(f, order)
    ensures var bytes := Written(f, order).bytes;
      match f
      case RstStream(id, status) =>
        bytes == [0x80, 3, 0, 3, 0] + [0, 0, 8] + (Word32(id) + Word32(status))
      case Settings(flags, ss) =>
        |ss| * 8 + 4 < 0x100_0000
        && bytes == [0x80, 3, 0, 4, flags] + Three(|ss| * 8 + 4) + (Word32(|ss|) + SettingsBytes(ss))
      case Ping(id) => bytes == [0x80, 3, 0, 6, 0] + [0, 0, 4] + Word32(id)
      case GoAway(lastGood, status) =>
        bytes == [0x80, 3, 0, 7, 0] + [0, 0, 8] + (Word32(lastGood) + Word32(status))
      case WindowUpdate(id, delta) =>
        bytes == [0x80, 3, 0, 9, 0] + [0, 0, 8] + (Word32(id) + Word32(delta))
      case DataFrame(id, flags, data) =>
        |data| < 0x100_0000 && bytes == Word32(id) + ([flags] + Three(|data|) + data)
      case _ => true
  {
    hide Word32, ControlBytes, SettingsBytes;
    match f {
      case RstStream(id, status) =>
        Framed(3, 0, 8, Word32(id) + Word32(status));
        Inner3(ControlBytes(3, 0, 8), Word32(id), Word32(status));
      case Settings(flags, ss) =>
        Framed(4, flags, |ss| * 8 + 4, Word32(|ss|) + SettingsBytes(ss));
        Inner3(ControlBytes(4, flags, |ss| * 8 + 4), Word32(|ss|), SettingsBytes(ss));
      case Ping(id) => Framed(6, 0, 4, Word32(id));
      case GoAway(lastGood, status) =>
        Framed(7, 0, 8, Word32(lastGood) + Word32(status));
        Inner3(ControlBytes(7, 0, 8), Word32(lastGood), Word32(status));
      case WindowUpdate(id, delta) =>
        Framed(9, 0, 8, Word32(id) + Word32(delta));
        Inner3(ControlBytes(9, 0, 8), Word32(id), Word32(delta));
      case DataFrame(id, flags, data) => DataLayout(id, flags, data);
    }
  }

  lemma DataLayout(id: Word, flags: Byte, data: seq<Byte>)
    requires |data| < 0x100_0000
    ensures Word32(id) + Word32(Combined(flags, |data|)) + data == Word32(id) + ([flags] + Three(|data|) + data)
  {
    CombinedLayout(flags, |data|);
    hide Combined, Word32, Three;
    assert Word32(id) + ([flags] + Three(|data|)) + data == Word32(id) + ([flags] + Three(|data|) + data);
  }

  /** A setting: flag, id of 24 bits, value. */
  lemma SettingLayout(s: Setting)
    requires s.id < 0x100_0000
    ensures SettingBytes(s) == [s.flag] + Three(s.id) + Word32(s.value)
  {
    CombinedLayout(s.flag, s.id);
    hide Combined, Word32, Three;
  }

  // ---------------------------------------------------------------- headers

  /** The bytes of an ASCII text. */
  function Ascii(s: string): Text
    requires forall i :: 0 <= i < |s| ==> s[i] < 128 as char
  {
    seq(|s|, i requires 0 <= i < |s| => s[i] as int)
  }

  /** Names are sent in lower case: the 26 letters from 65 on become those from 97 on. */
  lemma LowerMeaning(t: Text, i: nat)
    requires i < |t|
    ensures Lower(t)[i] == if 65 <= t[i] <= 90 then t[i] + 32 else t[i]
  {
  }

  /** Names are kept with capitals at the beginning and behind each hyphen, 45. */
  lemma {:induction false} CanonicalMeaning(t: Text, upper: bool, i: nat)
    requires i < |t|
    ensures |CanonicalFrom(t, upper)| == |t|
    ensures var capital := if i == 0 then upper else t[i - 1] == 45;
      CanonicalFrom(t, upper)[i]
      == if capital then (if 97 <= t[i] <= 122 then t[i] - 32 else t[i])
         else (if 65 <= t[i] <= 90 then t[i] + 32 else t[i])
  {
    if |t| > 1 {
      CanonicalMeaning(t[1..], t[0] == 45, if i == 0 then 0 else i - 1);
    }
  }

  /** A block of one name: the number of names, the name in lower case and its values, each behind its length. */
  lemma BlockOfOne(name: Text, values: seq<Text>)
    ensures BlockBytes(map[name := values], [name])
            == [0, 0, 0, 1] + (TextBytes(Lower(name)) + TextBytes(Join(values, [0])))
  {
    hide TextBytes, Lower, Join;
    var h := map[name := values];
    WordOf(0, 0, 0, 1);
    assert |h| == 1 by {
      assert h.Keys == {name};
    }
    assert [name][1..] == [];
    assert EntriesBytes(h, [name]) == EntryBytes(name, values) + [];
  }

  /** Two values are sent with a zero byte between them. */
  lemma TwoValues(a: Text, b: Text)
    ensures Join([a, b], [0]) == a + [0] + b && Join([a], [0]) == a
  {
    assert [a, b][1..] == [b];
  }

  lemma HeaderNames()
    ensures CONNECTION == Ascii("Connection") && HOST == Ascii("Host") && KEEP_ALIVE == Ascii("Keep-Alive")
    ensures PROXY_CONNECTION == Ascii("Proxy-Connection") && TRANSFER_ENCODING == Ascii("Transfer-Encoding")
  {
  }

  lemma RefusedInRequests(name: Text)
    ensures InvalidRequestHeader(name) <==>
              || name == Ascii("Connection") || name == Ascii("Host") || name == Ascii("Keep-Alive")
              || name == Ascii("Proxy-Connection") || name == Ascii("Transfer-Encoding")
  {
    hide Ascii;
    HeaderNames();
  }

  lemma RefusedInResponses(name: Text)
    ensures InvalidResponseHeader(name) <==>
              || name == Ascii("Connection") || name == Ascii("Keep-Alive")
              || name == Ascii("Proxy-Connection") || name == Ascii("Transfer-Encoding")
  {
    hide Ascii;
    HeaderNames();
  }

  /** Headers that a frame must not have: in a request, which opens a stream or has an even id, or in a response. */
  ghost predicate Refuses(f: Frame) {
    match f
    case SynStream(_, _, _, _, _, h) => HasInvalid(h, true)
    case SynReply(_, _, h) => HasInvalid(h, false)
    case HeadersFrame(_, id, h) => HasInvalid(h, id % 2 == 0)
    case _ => false
  }

  /** Everything fits, whatever the names of the headers. */
  ghost predicate Sendable(f: Frame, order: seq<Text>) {
    && (f.SynStream? || f.SynReply? || f.HeadersFrame?) && f.streamId != 0
    && KeyOrder(f.headers, order) && ValidHeaders(f.headers) && (f.SynStream? ==> f.priority < 8)
    && |BlockBytes(f.headers, order)| + (if f.SynStream? then 10 else 4) < 0x100_0000
  }

  lemma BlockChecked(f: Frame, order: seq<Text>, rest: seq<Byte>)
    requires Sendable(f, order)
    ensures TakeBlock(BlockBytes(f.headers, order) + rest) == Got(f.headers, rest)
  {
    BlockBack(f.headers, order, rest);
  }

  lemma SynStreamChecked(flags: Byte, id: Word, associated: Word, two: seq<Byte>, block: seq<Byte>, h: Headers,
                         rest: seq<Byte>)
    requires |two| == 2 && TakeBlock(block + rest) == Got(h, rest)
    ensures ReadSynStream(flags, Word32(id) + Word32(associated) + two + block + rest) ==
            CheckHeaders(SynStream(flags, id, associated, two[0] / 32, two[1], h), id, h, true, rest)
  {
    hide Word32, TakeWord, TakeBlock, HasInvalid, TakeBytes, CheckHeaders;
    FiveParts(Word32(id), Word32(associated), two, block, rest);
    WordBack(id, Word32(associated) + (two + (block + rest)));
    WordBack(associated, two + (block + rest));
    TwoBytesBack(two, block + rest);
  }

  /** The body of a control frame is handed to the reader of its type. */
  lemma BodyRead(frameType: Byte, flags: Byte, length: nat, body: seq<Byte>, rest: seq<Byte>)
    requires length < 0x100_0000
    ensures Read(ControlBytes(frameType, flags, length) + body + rest)
            == ReadControl(frameType, flags, length, body + rest)
  {
    hide Read, ReadControl, ControlBytes;
    Inner3(ControlBytes(frameType, flags, length), body, rest);
    ControlBack(frameType, flags, length, body + rest);
  }

  lemma ReaderOf(flags: Byte, length: nat, input: seq<Byte>)
    ensures ReadControl(1, flags, length, input) == ReadSynStream(flags, input)
    ensures ReadControl(2, flags, length, input) == ReadSynReply(flags, input)
    ensures ReadControl(8, flags, length, input) == ReadHeaders(flags, input)
  {
    hide ReadSynStream, ReadSynReply, ReadHeaders, ReadRstStream, ReadSettings, ReadPing, ReadGoAway, ReadWindowUpdate;
  }

  lemma SynStreamWritten(f: Frame, order: seq<Text>)
    requires f.SynStream? && f.streamId != 0 && Ordered(f, order)
    ensures var block := BlockBytes(f.headers, order);
      Written(f, order).bytes
      == ControlBytes(1, f.flags, |block| + 10)
         + (Word32(f.streamId) + Word32(f.associatedTo) + [f.priority * 32 % 256, f.slot] + block)
  {
    hide Word32, BlockBytes, ControlBytes;
    var block := BlockBytes(f.headers, order);
    Inner(ControlBytes(1, f.flags, |block| + 10), Word32(f.streamId), Word32(f.associatedTo),
          [f.priority * 32 % 256, f.slot], block);
  }

  lemma IdWritten(f: Frame, order: seq<Text>)
    requires (f.SynReply? || f.HeadersFrame?) && f.streamId != 0 && Ordered(f, order)
    ensures var block := BlockBytes(f.headers, order);
      Written(f, order).bytes
      == ControlBytes(if f.SynReply? then 2 else 8, f.flags, |block| + 4) + (Word32(f.streamId) + block)
  {
    hide Word32, BlockBytes, ControlBytes;
    var block := BlockBytes(f.headers, order);
    Inner3(ControlBytes(if f.SynReply? then 2 else 8, f.flags, |block| + 4), Word32(f.streamId), block);
  }

  lemma PriorityByte(f: Frame) returns (two: seq<Byte>)
    requires f.SynStream? && f.priority < 8
    ensures |two| == 2 && two == [f.priority * 32 % 256, f.slot]
    ensures f == SynStream(f.flags, f.streamId, f.associatedTo, two[0] / 32, two[1], f.headers)
  {
    two := [f.priority * 32 % 256, f.slot];
  }

  lemma SynStreamRefused(f: Frame, order: seq<Text>, rest: seq<Byte>)
    requires Sendable(f, order) && f.SynStream?
    ensures Read(Written(f, order).bytes + rest) == CheckHeaders(f, f.streamId, f.headers, true, rest)
  {
    BlockChecked(f, order, rest);
    SynStreamWritten(f, order);
    var two := PriorityByte(f);
    var block := BlockBytes(f.headers, order);
    hide *;
    var body := Word32(f.streamId) + Word32(f.associatedTo) + two + block;
    BodyRead(1, f.flags, |block| + 10, body, rest);
    ReaderOf(f.flags, |block| + 10, body + rest);
    SynStreamChecked(f.flags, f.streamId, f.associatedTo, two, block, f.headers, rest);
  }

  lemma ReplyChecked(flags: Byte, id: Word, block: seq<Byte>, h: Headers, rest: seq<Byte>)
    requires TakeBlock(block + rest) == Got(h, rest)
    ensures ReadSynReply(flags, Word32(id) + block + rest) == CheckHeaders(SynReply(flags, id, h), id, h, false, rest)
    ensures ReadHeaders(flags, Word32(id) + block + rest)
            == CheckHeaders(HeadersFrame(flags, id, h), id, h, id % 2 == 0, rest)
  {
    hide Word32, TakeWord, TakeBlock, CheckHeaders;
    IdBack(id, block, rest);
  }

  lemma IdChecked(flags: Byte, id: Word, block: seq<Byte>, h: Headers, rest: seq<Byte>)
    requires TakeBlock(block + rest) == Got(h, rest) && |block| + 4 < 0x100_0000
    ensures Read(ControlBytes(2, flags, |block| + 4) + (Word32(id) + block) + rest)
            == CheckHeaders(SynReply(flags, id, h), id, h, false, rest)
    ensures Read(ControlBytes(8, flags, |block| + 4) + (Word32(id) + block) + rest)
            == CheckHeaders(HeadersFrame(flags, id, h), id, h, id % 2 == 0, rest)
  {
    hide *;
    var body := Word32(id) + block;
    BodyRead(2, flags, |block| + 4, body, rest);
    BodyRead(8, flags, |block| + 4, body, rest);
    ReaderOf(flags, |block| + 4, body + rest);
    ReplyChecked(flags, id, block, h, rest);
  }

  lemma ReplyRefused(f: Frame, flags: Byte, id: Word, h: Headers, order: seq<Text>, rest: seq<Byte>)
    requires f == SynReply(flags, id, h) && Sendable(f, order)
    ensures Read(Written(f, order).bytes + rest) == CheckHeaders(f, id, h, false, rest)
  {
    BlockChecked(f, order, rest);
    IdWritten(f, order);
    var block := BlockBytes(h, order);
    hide *;
    IdChecked(flags, id, block, h, rest);
  }

  lemma HeadersFrameRefused(f: Frame, flags: Byte, id: Word, h: Headers, order: seq<Text>, rest: seq<Byte>)
    requires f == HeadersFrame(flags, id, h) && Sendable(f, order)
    ensures Read(Written(f, order).bytes + rest) == CheckHeaders(f, id, h, id % 2 == 0, rest)
  {
    BlockChecked(f, order, rest);
    IdWritten(f, order);
    var block := BlockBytes(h, order);
    hide *;
    IdChecked(flags, id, block, h, rest);
  }

  /** Reading a frame with headers gives the frame if and only if it has none of the names it must not have. */
  lemma HeadersRefused(f: Frame, order: seq<Text>, rest: seq<Byte>)
    requires Sendable(f, order)
    ensures Ordered(f, order)
    ensures Read(Written(f, order).bytes + rest) == if Refuses(f) then Failed(InvalidHeaderPresent) else Got(f, rest)
  {
    hide Read, Written, HasInvalid;
    match f {
      case SynStream(_, _, _, _, _, _) => SynStreamRefused(f, order, rest);
      case SynReply(flags, id, h) => ReplyRefused(f, flags, id, h, order, rest);
      case HeadersFrame(flags, id, h) => HeadersFrameRefused(f, flags, id, h, order, rest);
    }
  }

  lemma Tail(a: seq<Byte>, b: seq<Byte>, c: seq<Byte>, d: seq<Byte>)
    ensures a + b + c + d == a + (b + c + d)
  {
  }

  /**
   * A name that comes twice is to be refused, but it is looked up in lower case among names that are
   * kept in canonical form: the second one is noticed exactly when the two forms are the same.
   */
  lemma DuplicateMissed(h: Headers, name: Text, value: Text)
    requires name == Lower(name) && forall key :: key in h ==> CanonicalName(key)
    ensures Canonical(name) in Add(h, name, value)
    ensures NameError(Add(h, name, value), name, None) == Some(DuplicateHeaders) <==> Canonical(name) == name
  {
    hide Canonical, Lower;
  }

  /** So no name that begins with a letter is ever found to come twice. */
  lemma LetterMissed(h: Headers, name: Text, value: Text)
    requires name == Lower(name) && (forall key :: key in h ==> CanonicalName(key))
    requires name != [] && 97 <= name[0] <= 122
    ensures NameError(Add(h, name, value), name, None) == None
  {
    DuplicateMissed(h, name, value);
    CanonicalMeaning(name, true, 0);
    assert Canonical(name)[0] == name[0] - 32;
    hide Canonical, Lower;
  }

  // ------------------------------------------------------- what is refused

  /** A reset needs a status and a stream. */
  lemma RstStreamRead(flags: Byte, length: nat, id: Word, status: Word, rest: seq<Byte>)
    ensures ReadControl(3, flags, length, Word32(id) + Word32(status) + rest)
            == if status == 0 then Failed(InvalidControlFrame)
               else if id == 0 then Failed(ZeroStreamId) else Got(RstStream(id, status), rest)
  {
    hide Word32, TakeWord;
    TwoWordsBack(id, status, rest);
  }

  /** A ping needs an id and has no flags. */
  lemma PingRead(flags: Byte, length: nat, id: Word, rest: seq<Byte>)
    ensures ReadControl(6, flags, length, Word32(id) + rest)
            == if id == 0 then Failed(ZeroStreamId)
               else if flags != 0 then Failed(InvalidControlFrame) else Got(Ping(id), rest)
  {
    hide Word32, TakeWord;
    WordBack(id, rest);
  }

  /** The end of a connection has no flags and 8 bytes. */
  lemma GoAwayRead(flags: Byte, length: nat, lastGood: Word, status: Word, rest: seq<Byte>)
    ensures ReadControl(7, flags, length, Word32(lastGood) + Word32(status) + rest)
            == if flags != 0 || length != 8 then Failed(InvalidControlFrame) else Got(GoAway(lastGood, status), rest)
  {
    hide Word32, TakeWord;
    TwoWordsBack(lastGood, status, rest);
  }

  /** So has a window update. */
  lemma WindowUpdateRead(flags: Byte, length: nat, id: Word, delta: Word, rest: seq<Byte>)
    ensures ReadControl(9, flags, length, Word32(id) + Word32(delta) + rest)
            == if flags != 0 || length != 8 then Failed(InvalidControlFrame) else Got(WindowUpdate(id, delta), rest)
  {
    hide Word32, TakeWord;
    TwoWordsBack(id, delta, rest);
  }

  /** Data needs a stream. */
  lemma DataRead(id: Word, flags: Byte, data: seq<Byte>, rest: seq<Byte>)
    requires id < 0x8000_0000 && |data| < 0x100_0000
    ensures Read(Word32(id) + Word32(Combined(flags, |data|)) + data + rest)
            == if id == 0 then Failed(ZeroStreamId) else Got(DataFrame(id, flags, data), rest)
  {
    hide Word32, TakeWord, Combined;
    var word := Combined(flags, |data|);
    Tail(Word32(id), Word32(word), data, rest);
    Inner3(Word32(word), data, rest);
    WordBack(id, Word32(word) + (data + rest));
    WordBack(word, data + rest);
    CombinedParts(flags, |data|);
    assert (data + rest)[..|data|] == data && (data + rest)[|data|..] == rest;
  }

  /** Types other than the eight, the credential frame among them, are refused. */
  lemma UnknownType(frameType: nat, flags: Byte, length: nat, input: seq<Byte>)
    requires frameType == 0 || frameType == 5 || frameType > 9
    ensures ReadControl(frameType, flags, length, input) == Failed(InvalidControlFrame)
  {
  }

  /** The version of a control frame is not looked at. */
  lemma VersionIgnored(version: nat, frameType: nat, flags: Byte, length: nat, body: seq<Byte>)
    requires version < 0x8000 && frameType < 0x1_0000 && length < 0x100_0000
    ensures Read(Word32(0x8000_0000 + version * 0x1_0000 + frameType) + (Word32(Combined(flags, length)) + body))
            == ReadControl(frameType, flags, length, body)
  {
    hide Word32, TakeWord, ReadControl, ReadData, Combined;
    var first, word := 0x8000_0000 + version * 0x1_0000 + frameType, Combined(flags, length);
    WordBack(first, Word32(word) + body);
    WordBack(word, body);
    CombinedParts(flags, length);
    assert first % 0x1_0000 == frameType;
  }

  /** An input that ends inside its first eight bytes is too short. */
  lemma ShortInput(input: seq<Byte>)
    requires |input| < 8
    ensures Read(input) == Failed(Short)
  {
  }
}
