// SPDY/3 frames with header compression disabled (spdy/write.go and spdy/read.go; sections 2.2
// and 2.6 of the SPDY protocol, draft 3).

module SpdyFrames {
  import opened Bytes
  import opened SpdyHeaders
  import opened Wrappers

  const VERSION := 3
  const SYN_STREAM := 1
  const SYN_REPLY := 2
  const RST_STREAM := 3
  const SETTINGS := 4
  const PING := 6
  const GO_AWAY := 7
  const HEADERS := 8
  const WINDOW_UPDATE := 9
  const MAX_DATA_LENGTH := 0xFF_FFFF

  const CONNECTION: Text := [67, 111, 110, 110, 101, 99, 116, 105, 111, 110] // Connection
  const HOST: Text := [72, 111, 115, 116] // Host
  const KEEP_ALIVE: Text := [75, 101, 101, 112, 45, 65, 108, 105, 118, 101] // Keep-Alive
  // Proxy-Connection
  const PROXY_CONNECTION: Text := [80, 114, 111, 120, 121, 45, 67, 111, 110, 110, 101, 99, 116, 105, 111, 110]
  // Transfer-Encoding
  const TRANSFER_ENCODING: Text := [84, 114, 97, 110, 115, 102, 101, 114, 45, 69, 110, 99, 111, 100, 105, 110, 103]

  datatype Setting = Setting(flag: Byte, id: Word, value: Word)

  /** Frames without what the writer fills in; the kinds whose flags it clears have none here. */
  datatype Frame =
    | SynStream(flags: Byte, streamId: Word, associatedTo: Word, priority: Byte, slot: Byte, headers: Headers)
    | SynReply(flags: Byte, streamId: Word, headers: Headers)
    | RstStream(streamId: Word, status: Word)
    | Settings(flags: Byte, settings: seq<Setting>)
    | Ping(id: Word)
    | GoAway(lastGood: Word, status: Word)
    | HeadersFrame(flags: Byte, streamId: Word, headers: Headers)
    | WindowUpdate(streamId: Word, delta: Word)
    | DataFrame(streamId: Word, flags: Byte, data: seq<Byte>)

  /** What was written, and the error that came of it. */
  datatype Output = Output(bytes: seq<Byte>, error: Option<Error>)

  // ---------------------------------------------------------------- writing

  /** top << 24 | low, on words. */
  function Combined(top: Byte, low: Word): Word {
    Or(top, low / 0x100_0000) * 0x100_0000 + low % 0x100_0000
  }

  lemma CombinedParts(top: Byte, low: Word)
    requires low < 0x100_0000
    ensures Combined(top, low) / 0x100_0000 == top && Combined(top, low) % 0x100_0000 == low
  {
    OrZero(top);
    hide Or;
    assert low / 0x100_0000 == 0 && low % 0x100_0000 == low;
    assert Combined(top, low) == top * 0x100_0000 + low;
    hide Combined;
  }

  function ControlBytes(frameType: nat, flags: Byte, length: nat): seq<Byte> {
    BigEndian(0x8000 + VERSION, 2) + BigEndian(frameType, 2) + Word32(Combined(flags, length % 0x1_0000_0000))
  }

  function SettingBytes(s: Setting): seq<Byte> {
    Word32(Combined(s.flag, s.id)) + Word32(s.value)
  }

  function SettingsBytes(ss: seq<Setting>): seq<Byte> {
    if ss == [] then [] else SettingBytes(ss[0]) + SettingsBytes(ss[1..])
  }

  /** The headers of a frame that has some. */
  function HeadersOf(f: Frame): Headers {
    if f.SynStream? || f.SynReply? || f.HeadersFrame? then f.headers else map[]
  }

  /** The keys are those of the headers. */
  predicate Ordered(f: Frame, order: seq<Text>) {
    forall name :: name in order ==> name in HeadersOf(f)
  }

  /** WriteFrame, with the order in which the header map gives its keys. */
  function Written(f: Frame, order: seq<Text>): Output
    requires Ordered(f, order)
  {
    match f
    case SynStream(flags, id, associatedTo, priority, slot, h) =>
      if id == 0 then Output([], Some(ZeroStreamId)) else
      var block := BlockBytes(HeadersOf(f), order);
      Output(ControlBytes(SYN_STREAM, flags, |block| + 10) + Word32(id) + Word32(associatedTo)
             + [priority * 32 % 256, slot] + block, None)
    case SynReply(flags, id, h) =>
      if id == 0 then Output([], Some(ZeroStreamId)) else
      var block := BlockBytes(HeadersOf(f), order);
      Output(ControlBytes(SYN_REPLY, flags, |block| + 4) + Word32(id) + block, None)
    case RstStream(id, status) =>
      if id == 0 then Output([], Some(ZeroStreamId)) else
      var begun := ControlBytes(RST_STREAM, 0, 8) + Word32(id);
      if status == 0 then Output(begun, Some(InvalidControlFrame)) else Output(begun + Word32(status), None)
    case Settings(flags, ss) =>
      Output(ControlBytes(SETTINGS, flags, |ss| * 8 + 4) + Word32(|ss|) + SettingsBytes(ss), None)
    case Ping(id) =>
      if id == 0 then Output([], Some(ZeroStreamId)) else Output(ControlBytes(PING, 0, 4) + Word32(id), None)
    case GoAway(lastGood, status) =>
      Output(ControlBytes(GO_AWAY, 0, 8) + Word32(lastGood) + Word32(status), None)
    case HeadersFrame(flags, id, h) =>
      if id == 0 then Output([], Some(ZeroStreamId)) else
      var block := BlockBytes(HeadersOf(f), order);
      Output(ControlBytes(HEADERS, flags, |block| + 4) + Word32(id) + block, None)
    case WindowUpdate(id, delta) =>
      Output(ControlBytes(WINDOW_UPDATE, 0, 8) + Word32(id) + Word32(delta), None)
    case DataFrame(id, flags, data) =>
      if id == 0 then Output([], Some(ZeroStreamId)) else
      if id >= 0x8000_0000 || |data| > MAX_DATA_LENGTH then Output([], Some(InvalidDataFrame)) else
      Output(Word32(id) + Word32(Combined(flags, |data|)) + data, None)
  }

  // ---------------------------------------------------------------- reading

  predicate InvalidRequestHeader(name: Text) {
    name == CONNECTION || name == HOST || name == KEEP_ALIVE || name == PROXY_CONNECTION || name == TRANSFER_ENCODING
  }

  predicate InvalidResponseHeader(name: Text) {
    name == CONNECTION || name == KEEP_ALIVE || name == PROXY_CONNECTION || name == TRANSFER_ENCODING
  }

  predicate HasInvalid(h: Headers, request: bool) {
    exists name :: name in h && if request then InvalidRequestHeader(name) else InvalidResponseHeader(name)
  }

  /** The headers and the stream, checked after they have been read. */
  function CheckHeaders(f: Frame, streamId: Word, h: Headers, request: bool, rest: seq<Byte>): (r: Outcome<Frame>)
    ensures r.Got? ==> |r.rest| <= |rest|
  {
    if HasInvalid(h, request) then Failed(InvalidHeaderPresent)
    else if streamId == 0 then Failed(ZeroStreamId)
    else Got(f, rest)
  }

  function ReadSynStream(flags: Byte, input: seq<Byte>): (r: Outcome<Frame>)
    ensures r.Got? ==> |r.rest| <= |input|
  {
    match TakeWord(input) case Failed(e) => Failed(e) case Got(id, rest) =>
    match TakeWord(rest) case Failed(e) => Failed(e) case Got(associatedTo, rest) =>
    match TakeBytes(rest, 1) case Failed(e) => Failed(e) case Got(priority, rest) =>
    match TakeBytes(rest, 1) case Failed(e) => Failed(e) case Got(slot, rest) =>
    match TakeBlock(rest) case Failed(e) => Failed(e) case Got(h, rest) =>
    CheckHeaders(SynStream(flags, id, associatedTo, priority[0] / 32, slot[0], h), id, h, true, rest)
  }

  function ReadSynReply(flags: Byte, input: seq<Byte>): (r: Outcome<Frame>)
    ensures r.Got? ==> |r.rest| <= |input|
  {
    match TakeWord(input) case Failed(e) => Failed(e) case Got(id, rest) =>
    match TakeBlock(rest) case Failed(e) => Failed(e) case Got(h, rest) =>
    CheckHeaders(SynReply(flags, id, h), id, h, false, rest)
  }

  function ReadHeaders(flags: Byte, input: seq<Byte>): (r: Outcome<Frame>)
    ensures r.Got? ==> |r.rest| <= |input|
  {
    match TakeWord(input) case Failed(e) => Failed(e) case Got(id, rest) =>
    match TakeBlock(rest) case Failed(e) => Failed(e) case Got(h, rest) =>
    CheckHeaders(HeadersFrame(flags, id, h), id, h, id % 2 == 0, rest)
  }

  function ReadRstStream(input: seq<Byte>): (r: Outcome<Frame>)
    ensures r.Got? ==> |r.rest| <= |input|
  {
    match TakeWord(input) case Failed(e) => Failed(e) case Got(id, rest) =>
    match TakeWord(rest) case Failed(e) => Failed(e) case Got(status, rest) =>
    if status == 0 then Failed(InvalidControlFrame)
    else if id == 0 then Failed(ZeroStreamId)
    else Got(RstStream(id, status), rest)
  }

  function TakeSettings(n: nat, input: seq<Byte>): (r: Outcome<seq<Setting>>)
    ensures r.Got? ==> |r.rest| <= |input|
    decreases n
  {
    if n == 0 then Got([], input) else
    match TakeWord(input) case Failed(e) => Failed(e) case Got(flagId, rest) =>
    match TakeWord(rest) case Failed(e) => Failed(e) case Got(value, rest) =>
    match TakeSettings(n - 1, rest) case Failed(e) => Failed(e) case Got(more, rest) =>
    Got([Setting(flagId / 0x100_0000, flagId % 0x100_0000, value)] + more, rest)
  }

  function ReadSettings(flags: Byte, input: seq<Byte>): (r: Outcome<Frame>)
    ensures r.Got? ==> |r.rest| <= |input|
  {
    match TakeWord(input) case Failed(e) => Failed(e) case Got(n, rest) =>
    match TakeSettings(n, rest) case Failed(e) => Failed(e) case Got(ss, rest) =>
    Got(Settings(flags, ss), rest)
  }

  function ReadPing(flags: Byte, input: seq<Byte>): (r: Outcome<Frame>)
    ensures r.Got? ==> |r.rest| <= |input|
  {
    match TakeWord(input) case Failed(e) => Failed(e) case Got(id, rest) =>
    if id == 0 then Failed(ZeroStreamId)
    else if flags != 0 then Failed(InvalidControlFrame)
    else Got(Ping(id), rest)
  }

  function ReadGoAway(flags: Byte, length: nat, input: seq<Byte>): (r: Outcome<Frame>)
    ensures r.Got? ==> |r.rest| <= |input|
  {
    match TakeWord(input) case Failed(e) => Failed(e) case Got(lastGood, rest) =>
    if flags != 0 || length != 8 then Failed(InvalidControlFrame) else
    match TakeWord(rest) case Failed(e) => Failed(e) case Got(status, rest) =>
    Got(GoAway(lastGood, status), rest)
  }

  function ReadWindowUpdate(flags: Byte, length: nat, input: seq<Byte>): (r: Outcome<Frame>)
    ensures r.Got? ==> |r.rest| <= |input|
  {
    match TakeWord(input) case Failed(e) => Failed(e) case Got(id, rest) =>
    if flags != 0 || length != 8 then Failed(InvalidControlFrame) else
    match TakeWord(rest) case Failed(e) => Failed(e) case Got(delta, rest) =>
    Got(WindowUpdate(id, delta), rest)
  }

  /** newControlFrame, and the read method of the frame. */
  function ReadControl(frameType: nat, flags: Byte, length: nat, input: seq<Byte>): (r: Outcome<Frame>)
    ensures r.Got? ==> |r.rest| <= |input|
  {
    if frameType == SYN_STREAM then ReadSynStream(flags, input)
    else if frameType == SYN_REPLY then ReadSynReply(flags, input)
    else if frameType == RST_STREAM then ReadRstStream(input)
    else if frameType == SETTINGS then ReadSettings(flags, input)
    else if frameType == PING then ReadPing(flags, input)
    else if frameType == GO_AWAY then ReadGoAway(flags, length, input)
    else if frameType == HEADERS then ReadHeaders(flags, input)
    else if frameType == WINDOW_UPDATE then ReadWindowUpdate(flags, length, input)
    else Failed(InvalidControlFrame)
  }

  function ReadData(streamId: Word, input: seq<Byte>): (r: Outcome<Frame>)
    ensures r.Got? ==> |r.rest| <= |input|
  {
    match TakeWord(input) case Failed(e) => Failed(e) case Got(word, rest) =>
    match TakeBytes(rest, word % 0x100_0000) case Failed(e) => Failed(e) case Got(data, rest) =>
    if streamId == 0 then Failed(ZeroStreamId) else Got(DataFrame(streamId, word / 0x100_0000, data), rest)
  }

  /** ReadFrame: the highest bit of the first word tells control frames from data frames. */
  function Read(input: seq<Byte>): (r: Outcome<Frame>)
    ensures r.Got? ==> |r.rest| < |input|
  {
    match TakeWord(input) case Failed(e) => Failed(e) case Got(first, rest) =>
    if first < 0x8000_0000 then ReadData(first, rest) else
    match TakeWord(rest) case Failed(e) => Failed(e) case Got(word, rest) =>
    ReadControl(first % 0x1_0000, word / 0x100_0000, word % 0x100_0000, rest)
  }

  // --------------------------------------------------------- reading it back

  /** What fits into the fields of a frame, and what the reader does not refuse. */
  ghost predicate Valid(f: Frame, order: seq<Text>) {
    KeyOrder(HeadersOf(f), order) &&
    match f
    case SynStream(_, id, _, priority, _, h) =>
      id != 0 && priority < 8 && ValidHeaders(h) && !HasInvalid(h, true) && |BlockBytes(h, order)| + 10 < 0x100_0000
    case SynReply(_, id, h) =>
      id != 0 && ValidHeaders(h) && !HasInvalid(h, false) && |BlockBytes(h, order)| + 4 < 0x100_0000
    case RstStream(id, status) => id != 0 && status != 0
    case Settings(_, ss) => |ss| * 8 + 4 < 0x100_0000 && forall s :: s in ss ==> s.id < 0x100_0000
    case Ping(id) => id != 0
    case GoAway(_, _) => true
    case HeadersFrame(_, id, h) =>
      id != 0 && ValidHeaders(h) && !HasInvalid(h, id % 2 == 0) && |BlockBytes(h, order)| + 4 < 0x100_0000
    case WindowUpdate(_, _) => true
    case DataFrame(id, _, data) => 0 < id < 0x8000_0000 && |data| < 0x100_0000
  }

  lemma TwoBytes(b: nat)
    requires b < 0x1_0000
    ensures BigEndian(b, 2) == [b / 256, b % 256]
  {
    assert BigEndian(b / 256, 1) == BigEndian(b / 256 / 256, 0) + [b / 256 % 256];
  }

  lemma FourBytes(x: nat)
    ensures BigEndian(x, 4) == BigEndian(x / 256 / 256, 2) + [x / 256 % 256, x % 256]
  {
    var high := BigEndian(x / 256 / 256, 2);
    assert BigEndian(x / 256, 3) == high + [x / 256 % 256];
    hide BigEndian;
    assert high + [x / 256 % 256] + [x % 256] == high + [x / 256 % 256, x % 256];
  }

  lemma WordSmall(x: Word)
    ensures Word32(x) == BigEndian(x, 4)
  {
    hide BigEndian;
  }

  /** Two halves of a word. */
  lemma Halves(a: nat, b: nat)
    requires a < 0x1_0000 && b < 0x1_0000
    ensures BigEndian(a, 2) + BigEndian(b, 2) == Word32(a * 0x1_0000 + b)
  {
    hide BigEndian, Word32;
    TwoBytes(b);
    FourBytes(a * 0x1_0000 + b);
    WordSmall(a * 0x1_0000 + b);
  }

  lemma Nested(a: seq<Byte>, b: seq<Byte>, c: seq<Byte>, d: seq<Byte>)
    ensures a + b + c + d == (a + b) + (c + d)
  {
  }

  lemma ControlBytesParts(frameType: nat, flags: Byte, length: nat, body: seq<Byte>)
    requires frameType < 0x1_0000 && length < 0x1_0000_0000
    ensures ControlBytes(frameType, flags, length) + body ==
            Word32(0x8003_0000 + frameType) + (Word32(Combined(flags, length)) + body)
  {
    hide BigEndian, Word32, Combined;
    var version := 0x8000 + VERSION;
    Halves(version, frameType);
    Nested(BigEndian(version, 2), BigEndian(frameType, 2), Word32(Combined(flags, length)), body);
  }

  lemma ControlBack(frameType: nat, flags: Byte, length: nat, body: seq<Byte>)
    requires frameType < 0x1_0000 && length < 0x100_0000
    ensures Read(ControlBytes(frameType, flags, length) + body) == ReadControl(frameType, flags, length, body)
  {
    hide BigEndian, Word32, Combined, TakeWord, ReadControl, ReadData, ControlBytes;
    var first, word := 0x8003_0000 + frameType, Combined(flags, length);
    ControlBytesParts(frameType, flags, length, body);
    WordBack(first, Word32(word) + body);
    WordBack(word, body);
    CombinedParts(flags, length);
  }

  lemma {:induction false} SettingsBack(ss: seq<Setting>, rest: seq<Byte>)
    requires forall s :: s in ss ==> s.id < 0x100_0000
    ensures TakeSettings(|ss|, SettingsBytes(ss) + rest) == Got(ss, rest)
  {
    hide Word32, TakeWord, Combined;
    if ss == [] {
      assert SettingsBytes(ss) + rest == rest;
    } else {
      var s, behind := ss[0], SettingsBytes(ss[1..]) + rest;
      var flagId := Combined(s.flag, s.id);
      assert SettingsBytes(ss) + rest == Word32(flagId) + (Word32(s.value) + behind);
      WordBack(flagId, Word32(s.value) + behind);
      WordBack(s.value, behind);
      CombinedParts(s.flag, s.id);
      SettingsBack(ss[1..], rest);
      assert ss == [s] + ss[1..];
    }
  }

  lemma TwoWordsBack(a: Word, b: Word, rest: seq<Byte>)
    ensures TakeWord(Word32(a) + Word32(b) + rest) == Got(a, Word32(b) + rest)
    ensures TakeWord(Word32(b) + rest) == Got(b, rest)
  {
    hide Word32, TakeWord;
    assert Word32(a) + Word32(b) + rest == Word32(a) + (Word32(b) + rest);
    WordBack(a, Word32(b) + rest);
    WordBack(b, rest);
  }

  /** A block behind a stream id. */
  lemma IdBack(id: Word, block: seq<Byte>, rest: seq<Byte>)
    ensures TakeWord(Word32(id) + block + rest) == Got(id, block + rest)
  {
    hide Word32, TakeWord;
    assert Word32(id) + block + rest == Word32(id) + (block + rest);
    WordBack(id, block + rest);
  }

  lemma SynStreamRead(flags: Byte, id: Word, associated: Word, two: seq<Byte>, block: seq<Byte>, h: Headers,
                      rest: seq<Byte>)
    requires |two| == 2 && TakeBlock(block + rest) == Got(h, rest) && !HasInvalid(h, true) && id != 0
    ensures ReadSynStream(flags, Word32(id) + Word32(associated) + two + block + rest) ==
            Got(SynStream(flags, id, associated, two[0] / 32, two[1], h), rest)
  {
    hide Word32, TakeWord, TakeBlock, HasInvalid, TakeBytes;
    FiveParts(Word32(id), Word32(associated), two, block, rest);
    WordBack(id, Word32(associated) + (two + (block + rest)));
    WordBack(associated, two + (block + rest));
    TwoBytesBack(two, block + rest);
  }

  lemma SynStreamBack(f: Frame, order: seq<Text>, rest: seq<Byte>)
    requires f.SynStream? && Valid(f, order)
    ensures var body := Word32(f.streamId) + Word32(f.associatedTo) + [f.priority * 32 % 256, f.slot]
                        + BlockBytes(f.headers, order);
            ReadSynStream(f.flags, body + rest) == Got(f, rest)
  {
    hide Word32, BlockBytes, TakeBlock, ValidHeaders, HasInvalid, ReadSynStream;
    BlockBack(f.headers, order, rest);
    SynStreamRead(f.flags, f.streamId, f.associatedTo, [f.priority * 32 % 256, f.slot], BlockBytes(f.headers, order),
                  f.headers, rest);
  }

  lemma FiveParts(a: seq<Byte>, b: seq<Byte>, c: seq<Byte>, d: seq<Byte>, e: seq<Byte>)
    ensures a + b + c + d + e == a + (b + (c + (d + e)))
  {
  }

  lemma TwoBytesBack(two: seq<Byte>, rest: seq<Byte>)
    requires |two| == 2
    ensures TakeBytes(two + rest, 1) == Got([two[0]], [two[1]] + rest)
    ensures TakeBytes([two[1]] + rest, 1) == Got([two[1]], rest)
  {
    assert (two + rest)[..1] == [two[0]] && (two + rest)[1..] == [two[1]] + rest;
    assert ([two[1]] + rest)[1..] == rest;
  }

  lemma SynReplyBack(f: Frame, order: seq<Text>, rest: seq<Byte>)
    requires f.SynReply? && Valid(f, order)
    ensures ReadSynReply(f.flags, Word32(f.streamId) + BlockBytes(f.headers, order) + rest) == Got(f, rest)
  {
    hide Word32, TakeWord, BlockBytes, TakeBlock, ValidHeaders, HasInvalid;
    BlockBack(f.headers, order, rest);
    IdBack(f.streamId, BlockBytes(f.headers, order), rest);
  }

  lemma HeadersFrameBack(f: Frame, order: seq<Text>, rest: seq<Byte>)
    requires f.HeadersFrame? && Valid(f, order)
    ensures ReadHeaders(f.flags, Word32(f.streamId) + BlockBytes(f.headers, order) + rest) == Got(f, rest)
  {
    hide Word32, TakeWord, BlockBytes, TakeBlock, ValidHeaders, HasInvalid;
    BlockBack(f.headers, order, rest);
    IdBack(f.streamId, BlockBytes(f.headers, order), rest);
  }

  /** The body of a control frame behind its header. */
  lemma BodyBack(frameType: nat, flags: Byte, length: nat, body: seq<Byte>, rest: seq<Byte>, f: Frame)
    requires frameType < 0x1_0000 && length < 0x100_0000
    requires ReadControl(frameType, flags, length, body + rest) == Got(f, rest)
    ensures Read(ControlBytes(frameType, flags, length) + body + rest) == Got(f, rest)
  {
    hide Read, ReadControl, ControlBytes;
    var head := ControlBytes(frameType, flags, length);
    assert head + body + rest == head + (body + rest);
    ControlBack(frameType, flags, length, body + rest);
  }

  /** Control frames with headers. */
  lemma WithHeadersBack(f: Frame, order: seq<Text>, rest: seq<Byte>)
    requires (f.SynStream? || f.SynReply? || f.HeadersFrame?) && Valid(f, order)
    ensures Ordered(f, order) && Written(f, order).error == None && Read(Written(f, order).bytes + rest) == Got(f, rest)
  {
    hide Word32, BlockBytes, ControlBytes, Read, ReadSynStream, ReadSynReply, ReadHeaders, HasInvalid, ValidHeaders;
    var block := BlockBytes(f.headers, order);
    match f {
      case SynStream(flags, id, associatedTo, priority, slot, h) =>
        SynStreamBack(f, order, rest);
        var body := Word32(id) + Word32(associatedTo) + [priority * 32 % 256, slot] + block;
        BodyBack(SYN_STREAM, flags, |block| + 10, body, rest, f);
        assert Written(f, order).bytes == ControlBytes(SYN_STREAM, flags, |block| + 10) + body;
      case SynReply(flags, id, h) =>
        SynReplyBack(f, order, rest);
        BodyBack(SYN_REPLY, flags, |block| + 4, Word32(id) + block, rest, f);
        assert Written(f, order).bytes == ControlBytes(SYN_REPLY, flags, |block| + 4) + (Word32(id) + block);
      case HeadersFrame(flags, id, h) =>
        HeadersFrameBack(f, order, rest);
        BodyBack(HEADERS, flags, |block| + 4, Word32(id) + block, rest, f);
        assert Written(f, order).bytes == ControlBytes(HEADERS, flags, |block| + 4) + (Word32(id) + block);
    }
  }

  /** Control frames of a few words. */
  lemma PlainBack(f: Frame, order: seq<Text>, rest: seq<Byte>)
    requires (f.RstStream? || f.Ping? || f.GoAway? || f.WindowUpdate?) && Valid(f, order)
    ensures Ordered(f, order) && Written(f, order).error == None && Read(Written(f, order).bytes + rest) == Got(f, rest)
  {
    hide Word32, TakeWord, ControlBytes, Read;
    match f {
      case RstStream(id, status) =>
        TwoWordsBack(id, status, rest);
        BodyBack(RST_STREAM, 0, 8, Word32(id) + Word32(status), rest, f);
        assert Written(f, order).bytes == ControlBytes(RST_STREAM, 0, 8) + (Word32(id) + Word32(status));
      case Ping(id) =>
        WordBack(id, rest);
        BodyBack(PING, 0, 4, Word32(id), rest, f);
      case GoAway(lastGood, status) =>
        TwoWordsBack(lastGood, status, rest);
        BodyBack(GO_AWAY, 0, 8, Word32(lastGood) + Word32(status), rest, f);
        assert Written(f, order).bytes == ControlBytes(GO_AWAY, 0, 8) + (Word32(lastGood) + Word32(status));
      case WindowUpdate(id, delta) =>
        TwoWordsBack(id, delta, rest);
        BodyBack(WINDOW_UPDATE, 0, 8, Word32(id) + Word32(delta), rest, f);
        assert Written(f, order).bytes == ControlBytes(WINDOW_UPDATE, 0, 8) + (Word32(id) + Word32(delta));
    }
  }

  lemma SettingsRead(flags: Byte, ss: seq<Setting>, rest: seq<Byte>)
    requires |ss| < 0x1_0000_0000 && forall s :: s in ss ==> s.id < 0x100_0000
    ensures ReadSettings(flags, Word32(|ss|) + SettingsBytes(ss) + rest) == Got(Settings(flags, ss), rest)
  {
    hide Word32, TakeWord, TakeSettings, SettingsBytes;
    SettingsBack(ss, rest);
    IdBack(|ss|, SettingsBytes(ss), rest);
  }

  lemma SettingsFrameBack(f: Frame, order: seq<Text>, rest: seq<Byte>)
    requires f.Settings? && Valid(f, order)
    ensures Ordered(f, order) && Written(f, order).error == None && Read(Written(f, order).bytes + rest) == Got(f, rest)
  {
    hide Word32, ControlBytes, Read, SettingsBytes, ReadSettings;
    var length, body := |f.settings| * 8 + 4, Word32(|f.settings|) + SettingsBytes(f.settings);
    SettingsRead(f.flags, f.settings, rest);
    BodyBack(SETTINGS, f.flags, length, body, rest, f);
    assert Written(f, order).bytes == ControlBytes(SETTINGS, f.flags, length) + body;
  }

  lemma DataFrameBack(f: Frame, order: seq<Text>, rest: seq<Byte>)
    requires f.DataFrame? && Valid(f, order)
    ensures Ordered(f, order) && Written(f, order).error == None && Read(Written(f, order).bytes + rest) == Got(f, rest)
  {
    hide Word32, TakeWord, Combined;
    var word := Combined(f.flags, |f.data|);
    assert Written(f, order).bytes + rest == Word32(f.streamId) + (Word32(word) + (f.data + rest));
    WordBack(f.streamId, Word32(word) + (f.data + rest));
    WordBack(word, f.data + rest);
    CombinedParts(f.flags, |f.data|);
    assert (f.data + rest)[..|f.data|] == f.data && (f.data + rest)[|f.data|..] == rest;
  }

  /** A frame that was written is read back, whatever follows it and whatever the order of its headers. */
  lemma FrameBack(f: Frame, order: seq<Text>, rest: seq<Byte>)
    requires Valid(f, order)
    ensures Ordered(f, order) && Written(f, order).error == None && Read(Written(f, order).bytes + rest) == Got(f, rest)
  {
    hide Written, Read, Valid;
    match f {
      case Settings(_, _) => SettingsFrameBack(f, order, rest);
      case DataFrame(_, _, _) => DataFrameBack(f, order, rest);
      case SynStream(_, _, _, _, _, _) => WithHeadersBack(f, order, rest);
      case SynReply(_, _, _) => WithHeadersBack(f, order, rest);
      case HeadersFrame(_, _, _) => WithHeadersBack(f, order, rest);
      case _ => PlainBack(f, order, rest);
    }
  }

  lemma PriorityCut(f: Frame, order: seq<Text>)
    requires f.SynStream? && Ordered(f, order)
    ensures Ordered(f.(priority := f.priority % 8), order)
    ensures Written(f.(priority := f.priority % 8), order) == Written(f, order)
  {
    hide ControlBytes, Word32, BlockBytes;
    var kept := f.(priority := f.priority % 8);
    assert HeadersOf(kept) == HeadersOf(f);
    assert kept.priority * 32 % 256 == f.priority * 32 % 256;
  }

  /** Of a priority only three bits are sent: it comes back exactly when it has no more. */
  lemma PriorityBack(f: Frame, order: seq<Text>, rest: seq<Byte>)
    requires f.SynStream? && Ordered(f, order) && Valid(f.(priority := f.priority % 8), order)
    ensures Read(Written(f, order).bytes + rest) == Got(f.(priority := f.priority % 8), rest)
    ensures Read(Written(f, order).bytes + rest) == Got(f, rest) <==> f.priority < 8
  {
    hide Read, Written, Valid, Ordered;
    PriorityCut(f, order);
    FrameBack(f.(priority := f.priority % 8), order, rest);
  }

  /**
   * When WriteFrame fails: for a missing or unusable stream id, a missing status, or too much
   * data. Nothing has been written then, except that a reset without a status leaves the first
   * half of its frame behind.
   */
  lemma WriteFails(f: Frame, order: seq<Text>)
    requires Ordered(f, order)
    ensures Written(f, order).error.Some? <==>
            match f
            case DataFrame(id, _, data) => id == 0 || id >= 0x8000_0000 || |data| >= 0x100_0000
            case RstStream(id, status) => id == 0 || status == 0
            case Ping(id) => id == 0
            case Settings(_, _) => false
            case GoAway(_, _) => false
            case WindowUpdate(_, _) => false
            case _ => f.streamId == 0
    ensures Written(f, order).error.Some? ==>
            (Written(f, order).bytes != [] <==> f.RstStream? && f.streamId != 0)
  {
    hide Word32, BlockBytes, BigEndian;
  }

  // ------------------------------------------------------------- many frames

  /** Frames one after another, each with an order for its headers. */
  function AllWritten(fs: seq<Frame>, orders: seq<seq<Text>>): seq<Byte>
    requires |orders| == |fs| && forall i :: 0 <= i < |fs| ==> Ordered(fs[i], orders[i])
  {
    if fs == [] then [] else Written(fs[0], orders[0]).bytes + AllWritten(fs[1..], orders[1..])
  }

  /** Frames read until the input ends in front of one, or fails. */
  function ReadAll(input: seq<Byte>): (seq<Frame>, Option<Error>)
    decreases |input|
  {
    if input == [] then ([], None) else
    match Read(input)
    case Failed(e) => ([], Some(e))
    case Got(f, rest) =>
      var (fs, e) := ReadAll(rest);
      ([f] + fs, e)
  }

  /** A stream of valid frames is read back as the same frames. */
  lemma {:induction false} StreamBack(fs: seq<Frame>, orders: seq<seq<Text>>)
    requires |orders| == |fs| && forall i :: 0 <= i < |fs| ==> Ordered(fs[i], orders[i]) && Valid(fs[i], orders[i])
    ensures ReadAll(AllWritten(fs, orders)) == (fs, None)
  {
    hide Valid, Written, Read, Ordered;
    if fs != [] {
      var rest := AllWritten(fs[1..], orders[1..]);
      FrameBack(fs[0], orders[0], rest);
      StreamBack(fs[1..], orders[1..]);
      assert fs == [fs[0]] + fs[1..];
    }
  }
}
