// What a connection does with the bytes it receives (websocket/hybi.go, websocket/websocket.go):
// frame by frame, on arbitrary input.

module WebSocketReader {
  import opened Bytes
  import opened WebSocketFrames
  import opened Wrappers

  const MAX_CONTROL_PAYLOAD: int := 125
  const PROTOCOL_ERROR: seq<Byte> := [3, 234]   // close status 1002

  type Key = k: seq<Byte> | |k| == 4 witness [0, 0, 0, 0]

  /** hybiFrameReader: the header, the masking position, and what its LimitReader still allows. */
  datatype FrameReader = FrameReader(header: Header, pos: nat, remaining: int)

  datatype Frame = Frame(header: Header, payload: seq<Byte>)

  /**
   * A connection: the bytes to come, the frame being read, the handler's payload type, the
   * keys its random source will give, and the frames it has sent.
   */
  datatype State = State(input: seq<Byte>, frame: Option<FrameReader>, payloadType: OpCode,
                         randoms: seq<Key>, sent: seq<Frame>)

  datatype Failure = EOF | NotImplemented | NoRandomness

  /** What becomes of one frame: its payload is to be read, it has been dealt with, or an error. */
  datatype Step = Data(st: State) | Control(st: State) | Fail(st: State, f: Failure)

  function ControlHeader(opCode: OpCode, mask: Option<seq<Byte>>): Header {
    Header(true, false, false, false, opCode, mask)
  }

  /** NewFrameWriter and Write: a client masks with a fresh key, a server does not mask. */
  function Send(st: State, server: bool, opCode: OpCode, payload: seq<Byte>): Option<State> {
    if server then Some(st.(sent := st.sent + [Frame(ControlHeader(opCode, None), payload)]))
    else if st.randoms == [] then None
    else Some(st.(sent := st.sent + [Frame(ControlHeader(opCode, Some(st.randoms[0])), payload)],
                  randoms := st.randoms[1..]))
  }

  function Min(a: int, b: int): int {
    if a < b then a else b
  }

  /** How many bytes of the frame can be read: not more than its length, and than there are. */
  function Available(f: FrameReader, input: seq<Byte>): (n: nat)
    ensures n <= |input|
  {
    if f.remaining <= 0 then 0 else Min(f.remaining, |input|)
  }

  /** The ping branch of HandleFrame. An empty ping reads as the end of input. */
  function HandlePing(st: State, server: bool, f: FrameReader): (r: Step)
    requires ValidHeader(f.header)
    ensures |r.st.input| <= |st.input|
  {
    var n := Min(Available(f, st.input), MAX_CONTROL_PAYLOAD);
    if n == 0 then Fail(st, EOF)
    else
      var payload := Masked(st.input[..n], f.header.mask, f.pos);
      var after := st.(input := st.input[Available(f, st.input)..]);
      match Send(after, server, PONG, payload)
      case None => Fail(after, NoRandomness)
      case Some(s) => Control(s)
  }

  function HandleFrame(st: State, server: bool, f: FrameReader): (r: Step)
    requires ValidHeader(f.header)
    ensures |r.st.input| <= |st.input|
    ensures r.Data? ==> r.st.frame.Some? && ValidHeader(r.st.frame.value.header)
    ensures !r.Data? ==> r.st.frame == st.frame
  {
    var op := f.header.opCode;
    if f.header.mask.Some? != server then Fail(Send(st, server, CLOSE, PROTOCOL_ERROR).UnwrapOr(st), EOF)
    else if op == CONTINUATION then
      Data(st.(frame := Some(f.(header := f.header.(opCode := st.payloadType)))))
    else if op == TEXT || op == BINARY then Data(st.(payloadType := op, frame := Some(f)))
    else if op == CLOSE then Fail(st, EOF)
    else if op == PING then HandlePing(st, server, f)
    else if op == PONG then Fail(st, NotImplemented)
    else Data(st.(frame := Some(f)))
  }

  /** NewFrameReader and HandleFrame. */
  function TakeFrame(st: State, server: bool): (r: Step)
    ensures r.Fail? || |r.st.input| < |st.input|
    ensures r.Data? ==> r.st.frame.Some? && ValidHeader(r.st.frame.value.header)
    ensures !r.Data? ==> r.st.frame == st.frame
  {
    match ParseHeader(st.input)
    case Short => Fail(st.(input := []), EOF)
    case Parsed(h, length, rest) => HandleFrame(st.(input := rest), server, FrameReader(h, 0, length))
  }

  ghost predicate Sound(st: State) {
    st.frame.Some? ==> ValidHeader(st.frame.value.header)
  }

  datatype Ready = Readable(st: State) | Failed(st: State, f: Failure)

  /** The part of Conn.Read up to a frame with something to read, or an error. */
  function Advance(st: State, server: bool): (r: Ready)
    requires Sound(st)
    ensures Sound(r.st)
    ensures r.Readable? ==> r.st.frame.Some? && Available(r.st.frame.value, r.st.input) > 0
    decreases |st.input|, st.frame.Some?
  {
    if st.frame.Some? then
      if Available(st.frame.value, st.input) > 0 then Readable(st)
      else Advance(st.(frame := None), server)
    else
      match TakeFrame(st, server)
      case Fail(s, f) => Failed(s, f)
      case Control(s) => Advance(s, server)
      case Data(s) => Advance(s, server)
  }

  /** k bytes of the current frame, unmasked. */
  function Delivered(st: State, k: nat): seq<Byte>
    requires Sound(st) && st.frame.Some? && k <= Available(st.frame.value, st.input)
  {
    Masked(st.input[..k], st.frame.value.header.mask, st.frame.value.pos)
  }

  /** The state after reading k bytes of the current frame. */
  function Consumed(st: State, k: nat): State
    requires Sound(st) && st.frame.Some? && k <= Available(st.frame.value, st.input)
  {
    var f := st.frame.value;
    var pos := if f.header.mask.Some? then f.pos + k else f.pos;
    st.(input := st.input[k..], frame := Some(f.(pos := pos, remaining := f.remaining - k)))
  }

  // --------------------------------------------------- well-formed streams

  predicate IsPing(f: Frame) {
    f.header.opCode == 9
  }

  predicate IsData(f: Frame) {
    f.header.opCode < 8 || f.header.opCode > 10
  }

  /** A server reads masked frames, a client frames without a mask. */
  predicate WellMasked(f: Frame, server: bool) {
    f.header.mask.Some? == server
  }

  /** A frame behind which nothing is read: wrongly masked, or a close, a pong, or a ping without a payload. */
  predicate EndsReading(f: Frame, server: bool) {
    !WellMasked(f, server) || (!IsData(f) && (IsPing(f) ==> f.payload == []))
  }

  /** A frame that has a length. */
  predicate GoodFrame(f: Frame) {
    ValidHeader(f.header) && |f.payload| < 0x8000_0000_0000_0000
  }

  ghost predicate GoodFrames(fs: seq<Frame>) {
    forall i :: 0 <= i < |fs| ==> GoodFrame(fs[i])
  }

  ghost predicate AllValid(fs: seq<Frame>) {
    forall i :: 0 <= i < |fs| ==> ValidHeader(fs[i].header)
  }

  ghost function AllBytes(fs: seq<Frame>): seq<Byte>
    requires AllValid(fs)
  {
    if fs == [] then []
    else
      assert ValidHeader(fs[0].header);
      FrameBytes(fs[0].header, fs[0].payload) + AllBytes(fs[1..])
  }

  /** The payloads of the data frames, in order. */
  function DataOf(fs: seq<Frame>): seq<Byte> {
    if fs == [] then [] else (if IsData(fs[0]) then fs[0].payload else []) + DataOf(fs[1..])
  }

  /** The type that a data frame is read with: a continuation has that of the text or binary frame before it. */
  function TypeOf(f: Frame, current: Byte): Byte {
    if f.header.opCode == 0 then current else f.header.opCode
  }

  /** The type for continuations behind a frame: text is 1, binary 2. */
  function TypeAfter(f: Frame, current: Byte): Byte {
    if f.header.opCode == 1 || f.header.opCode == 2 then f.header.opCode else current
  }

  /** The frames in front of the first that ends reading. */
  function Heard(fs: seq<Frame>, server: bool): seq<Frame> {
    if fs == [] || EndsReading(fs[0], server) then [] else [fs[0]] + Heard(fs[1..], server)
  }

  /** That frame, if there is one, and all behind it. */
  function Unheard(fs: seq<Frame>, server: bool): seq<Frame> {
    if fs == [] || EndsReading(fs[0], server) then fs else Unheard(fs[1..], server)
  }

  lemma {:induction false} HeardParts(fs: seq<Frame>, server: bool)
    ensures Heard(fs, server) + Unheard(fs, server) == fs
    ensures DataOf(Heard(fs, server)) + DataOf(Unheard(fs, server)) == DataOf(fs)
    ensures forall i :: 0 <= i < |Heard(fs, server)| ==> !EndsReading(Heard(fs, server)[i], server)
    ensures Unheard(fs, server) != [] ==> EndsReading(Unheard(fs, server)[0], server)
  {
    if fs != [] && !EndsReading(fs[0], server) {
      HeardParts(fs[1..], server);
      HeardFirst(fs, server);
      hide Heard, Unheard, DataOf, EndsReading;
      var heard, unheard := Heard(fs[1..], server), Unheard(fs[1..], server);
      Regroup([fs[0]], heard, unheard);
      assert fs == [fs[0]] + fs[1..];
      Regroup(if IsData(fs[0]) then fs[0].payload else [], DataOf(heard), DataOf(unheard));
    }
  }

  lemma HeardFirst(fs: seq<Frame>, server: bool)
    requires fs != [] && !EndsReading(fs[0], server)
    ensures Heard(fs, server) == [fs[0]] + Heard(fs[1..], server) && Unheard(fs, server) == Unheard(fs[1..], server)
    ensures var own := if IsData(fs[0]) then fs[0].payload else [];
      && DataOf(fs) == own + DataOf(fs[1..]) && DataOf(Heard(fs, server)) == own + DataOf(Heard(fs[1..], server))
  {
    assert Heard(fs, server)[1..] == Heard(fs[1..], server);
  }

  lemma Regroup<T>(a: seq<T>, b: seq<T>, c: seq<T>)
    ensures a + (b + c) == (a + b) + c
  {
  }

  /** The error that ends reading: a pong is an error of its own, all else reads as the end of input. */
  function EndOf(fs: seq<Frame>, server: bool): Failure {
    var us := Unheard(fs, server);
    if us != [] && WellMasked(us[0], server) && us[0].header.opCode == 10 then NotImplemented else EOF
  }

  /** The bytes that stay unread then. */
  ghost function BytesUnheard(fs: seq<Frame>, server: bool): seq<Byte>
    requires AllValid(fs)
  {
    if fs == [] then []
    else
      assert ValidHeader(fs[0].header);
      if EndsReading(fs[0], server) then Masked(fs[0].payload, fs[0].header.mask, 0) + AllBytes(fs[1..])
      else BytesUnheard(fs[1..], server)
  }

  /** What a pong has to carry: the ping's payload, of an overlong ping its first 125 bytes. */
  function PongPayload(payload: seq<Byte>): (r: seq<Byte>)
    ensures r <= payload && |r| == if |payload| < 125 then |payload| else 125
  {
    payload[..Min(|payload|, MAX_CONTROL_PAYLOAD)]
  }

  function Pings(fs: seq<Frame>): nat {
    if fs == [] then 0 else (if IsPing(fs[0]) then 1 else 0) + Pings(fs[1..])
  }

  /** One pong for each ping, in order; a client masks each with a fresh key. */
  function Pongs(fs: seq<Frame>, server: bool, randoms: seq<Key>): seq<Frame>
    requires server || Pings(fs) <= |randoms|
  {
    if fs == [] then []
    else if !IsPing(fs[0]) then Pongs(fs[1..], server, randoms)
    else
      var key, unused := if server then None else Some(randoms[0]), if server then randoms else randoms[1..];
      [Frame(Header(true, false, false, false, 10, key), PongPayload(fs[0].payload))] + Pongs(fs[1..], server, unused)
  }

  /** The close frame with status 1002 that answers a wrongly masked frame, if there is a key for it. */
  function CloseReply(server: bool, randoms: seq<Key>): seq<Frame> {
    if server then [Frame(Header(true, false, false, false, 8, None), [3, 234])]
    else if randoms == [] then []
    else [Frame(Header(true, false, false, false, 8, Some(randoms[0])), [3, 234])]
  }

  /** What a reader sends: a pong for each ping that it hears, and a close where a frame is wrongly masked. */
  function Replies(fs: seq<Frame>, server: bool, randoms: seq<Key>): seq<Frame>
    requires server || Pings(Heard(fs, server)) <= |randoms|
  {
    if fs == [] then []
    else if !WellMasked(fs[0], server) then CloseReply(server, randoms)
    else if EndsReading(fs[0], server) then []
    else if !IsPing(fs[0]) then Replies(fs[1..], server, randoms)
    else
      var key, unused := if server then None else Some(randoms[0]), if server then randoms else randoms[1..];
      [Frame(Header(true, false, false, false, 10, key), PongPayload(fs[0].payload))] + Replies(fs[1..], server, unused)
  }

  /** The replies are the pongs of what is heard and, behind them, the close for a wrongly masked frame. */
  lemma {:induction false} RepliesParts(fs: seq<Frame>, server: bool, randoms: seq<Key>)
    requires server || Pings(Heard(fs, server)) <= |randoms|
    ensures var us, heard := Unheard(fs, server), Heard(fs, server);
      Replies(fs, server, randoms)
      == Pongs(heard, server, randoms)
         + if us == [] || us[0].header.mask.Some? == server then []
           else CloseReply(server, if server then randoms else randoms[Pings(heard)..])
  {
    if fs != [] && !EndsReading(fs[0], server) {
      assert Heard(fs, server)[1..] == Heard(fs[1..], server);
      if IsPing(fs[0]) && !server {
        RepliesParts(fs[1..], server, randoms[1..]);
        assert randoms[1..][Pings(Heard(fs[1..], server))..] == randoms[Pings(Heard(fs, server))..];
      } else {
        RepliesParts(fs[1..], server, randoms);
      }
    }
  }

  /**
   * The input is what is left of the current frame, cur when unmasked, then the frames fs; there
   * are keys for the pongs to come.
   */
  ghost predicate Streams(st: State, server: bool, cur: seq<Byte>, fs: seq<Frame>) {
    && GoodFrames(fs) && AllValid(fs) && Sound(st)
    && (server || Pings(Heard(fs, server)) <= |st.randoms|)
    && if st.frame.Some? then
         && st.frame.value.remaining == |cur|
         && st.input == Masked(cur, st.frame.value.header.mask, st.frame.value.pos) + AllBytes(fs)
       else cur == [] && st.input == AllBytes(fs)
  }

  lemma AllBytesFirst(fs: seq<Frame>)
    requires AllValid(fs) && fs != []
    ensures ValidHeader(fs[0].header) && AllValid(fs[1..])
    ensures AllBytes(fs) == HeaderBytes(fs[0].header, |fs[0].payload|)
                            + (Masked(fs[0].payload, fs[0].header.mask, 0) + AllBytes(fs[1..]))
  {
    assert ValidHeader(fs[0].header);
  }

  /** Taking the first frame of a stream is handling it, its masked payload ahead. */
  lemma FirstFrame(st: State, server: bool, fs: seq<Frame>)
    requires AllValid(fs) && fs != [] && |fs[0].payload| < 0x8000_0000_0000_0000 && st.input == AllBytes(fs)
    requires ValidHeader(fs[0].header) && AllValid(fs[1..])
    ensures var f := fs[0];
      TakeFrame(st, server)
      == HandleFrame(st.(input := Masked(f.payload, f.header.mask, 0) + AllBytes(fs[1..])), server,
                     FrameReader(f.header, 0, |f.payload|))
  {
    AllBytesFirst(fs);
    HeaderReadsBack(fs[0].header, |fs[0].payload|, Masked(fs[0].payload, fs[0].header.mask, 0) + AllBytes(fs[1..]));
  }

  lemma GoodParts(fs: seq<Frame>)
    requires GoodFrames(fs)
    ensures AllValid(fs)
    ensures fs != [] ==> GoodFrame(fs[0]) && GoodFrames(fs[1..]) && AllValid(fs[1..])
  {
  }

  lemma DataFrameTaken(st: State, server: bool, fs: seq<Frame>)
    requires Streams(st, server, [], fs) && st.frame.None? && fs != []
    requires IsData(fs[0]) && WellMasked(fs[0], server)
    ensures var r := TakeFrame(st, server);
      && r.Data? && Streams(r.st, server, fs[0].payload, fs[1..]) && r.st.sent == st.sent && r.st.randoms == st.randoms
      && r.st.frame.value.header.opCode == TypeOf(fs[0], st.payloadType)
      && r.st.payloadType == TypeAfter(fs[0], st.payloadType)
  {
    GoodParts(fs);
    FirstFrame(st, server, fs);
    DataHandled(st.(input := Masked(fs[0].payload, fs[0].header.mask, 0) + AllBytes(fs[1..])), server, fs[0]);
    DataFirst(fs, server, st.randoms);
    hide TakeFrame, HandleFrame, AllBytes, AllValid, GoodFrames, Masked, Replies, Heard, Pings;
  }

  /** Handling a data frame makes it the frame to read, with the type that it has. */
  lemma DataHandled(at: State, server: bool, f: Frame)
    requires GoodFrame(f) && IsData(f) && WellMasked(f, server)
    ensures var h := f.header.(opCode := TypeOf(f, at.payloadType));
      HandleFrame(at, server, FrameReader(f.header, 0, |f.payload|))
      == Data(at.(payloadType := TypeAfter(f, at.payloadType), frame := Some(FrameReader(h, 0, |f.payload|))))
  {
  }

  lemma DataFirst(fs: seq<Frame>, server: bool, randoms: seq<Key>)
    requires fs != [] && IsData(fs[0]) && WellMasked(fs[0], server) && !IsPing(fs[0])
    requires server || Pings(Heard(fs, server)) <= |randoms|
    ensures Pings(Heard(fs[1..], server)) == Pings(Heard(fs, server))
  {
    assert Heard(fs, server)[1..] == Heard(fs[1..], server);
  }

  /** The state after answering a ping. */
  function Answered(st: State, server: bool, payload: seq<Byte>, tail: seq<Byte>): State
    requires server || st.randoms != []
  {
    var key := if server then None else Some(st.randoms[0]);
    st.(input := tail, sent := st.sent + [Frame(Header(true, false, false, false, 10, key), PongPayload(payload))],
        randoms := if server then st.randoms else st.randoms[1..])
  }

  lemma PingHandled(st: State, server: bool, f: Frame, tail: seq<Byte>)
    requires GoodFrame(f) && IsPing(f) && f.payload != [] && (server || st.randoms != [])
    requires st.input == Masked(f.payload, f.header.mask, 0) + tail
    ensures HandlePing(st, server, FrameReader(f.header, 0, |f.payload|))
            == Control(Answered(st, server, f.payload, tail))
  {
    var n := Min(|f.payload|, MAX_CONTROL_PAYLOAD);
    PingPayload(f.payload, f.header.mask, n);
    assert st.input[..n] == Masked(f.payload, f.header.mask, 0)[..n];
    assert st.input[|f.payload|..] == tail;
  }

  lemma PingTaken(st: State, server: bool, fs: seq<Frame>)
    requires Streams(st, server, [], fs) && st.frame.None? && fs != []
    requires IsPing(fs[0]) && fs[0].payload != [] && WellMasked(fs[0], server)
    ensures var r := TakeFrame(st, server);
      && r.Control? && Streams(r.st, server, [], fs[1..]) && r.st.frame.None? && r.st.payloadType == st.payloadType
      && r.st.sent + Replies(fs[1..], server, r.st.randoms) == st.sent + Replies(fs, server, st.randoms)
  {
    GoodParts(fs);
    KeyThere(fs, server);
    PingAnswered(st, server, fs);
    RepliesFirst(st, server, fs);
    hide TakeFrame, AllBytes, AllValid, GoodFrames, Replies, PongPayload;
    assert Heard(fs, server)[1..] == Heard(fs[1..], server);
  }

  /** Taking a ping is sending its pong. */
  lemma PingAnswered(st: State, server: bool, fs: seq<Frame>)
    requires GoodFrames(fs) && AllValid(fs) && fs != [] && AllValid(fs[1..]) && st.input == AllBytes(fs)
    requires GoodFrame(fs[0]) && IsPing(fs[0]) && fs[0].payload != [] && WellMasked(fs[0], server)
    requires server || st.randoms != []
    ensures TakeFrame(st, server) == Control(Answered(st, server, fs[0].payload, AllBytes(fs[1..])))
  {
    FirstFrame(st, server, fs);
    var f, tail := fs[0], AllBytes(fs[1..]);
    PingHandled(st.(input := Masked(f.payload, f.header.mask, 0) + tail), server, f, tail);
  }

  /** The first reply is the answer to the first ping. */
  lemma RepliesFirst(st: State, server: bool, fs: seq<Frame>)
    requires fs != [] && IsPing(fs[0]) && fs[0].payload != [] && WellMasked(fs[0], server)
    requires server || (Pings(Heard(fs, server)) <= |st.randoms| && st.randoms != [])
    ensures var after := Answered(st, server, fs[0].payload, []);
      && (server || Pings(Heard(fs[1..], server)) <= |after.randoms|)
      && after.sent + Replies(fs[1..], server, after.randoms) == st.sent + Replies(fs, server, st.randoms)
  {
    hide PongPayload, ControlHeader, Replies, Heard, Pings;
    var key, unused := if server then None else Some(st.randoms[0]), if server then st.randoms else st.randoms[1..];
    RepliesPing(fs, server, st.randoms, key, unused);
    var pong := Frame(Header(true, false, false, false, 10, key), PongPayload(fs[0].payload));
    var more := Replies(fs[1..], server, unused);
    assert st.sent + [pong] + more == st.sent + ([pong] + more);
  }

  lemma RepliesPing(fs: seq<Frame>, server: bool, randoms: seq<Key>, key: Option<Key>, unused: seq<Key>)
    requires fs != [] && IsPing(fs[0]) && fs[0].payload != [] && WellMasked(fs[0], server)
    requires server || Pings(Heard(fs, server)) <= |randoms|
    requires if server then key == None && unused == randoms
             else randoms != [] && key == Some(randoms[0]) && unused == randoms[1..]
    ensures server || Pings(Heard(fs[1..], server)) <= |unused|
    ensures Replies(fs, server, randoms)
            == [Frame(Header(true, false, false, false, 10, key), PongPayload(fs[0].payload))]
               + Replies(fs[1..], server, unused)
  {
    hide PongPayload, ControlHeader;
    assert Heard(fs, server)[1..] == Heard(fs[1..], server);
  }

  lemma KeyThere(fs: seq<Frame>, server: bool)
    requires fs != [] && IsPing(fs[0]) && fs[0].payload != [] && WellMasked(fs[0], server)
    ensures Pings(Heard(fs, server)) > 0
  {
  }

  /** Unmasking the first n bytes of a masked payload. */
  lemma PingPayload(payload: seq<Byte>, mask: Option<seq<Byte>>, n: nat)
    requires (mask.Some? ==> |mask.value| == 4) && n <= |payload|
    ensures Masked(Masked(payload, mask, 0)[..n], mask, 0) == payload[..n]
  {
    assert payload == payload[..n] + payload[n..];
    MaskedParts(payload[..n], payload[n..], mask, 0);
    MaskedTwice(payload[..n], mask, 0);
  }

  /** Handling a frame that ends reading leaves its payload and all behind it where it is. */
  lemma EndHandled(at: State, server: bool, f: Frame)
    requires GoodFrame(f) && EndsReading(f, server)
    ensures var r := HandleFrame(at, server, FrameReader(f.header, 0, |f.payload|));
      && r.Fail? && r.f == (if WellMasked(f, server) && f.header.opCode == 10 then NotImplemented else EOF)
      && r.st.input == at.input && r.st.frame == at.frame
      && r.st.sent == at.sent + if WellMasked(f, server) then [] else CloseReply(server, at.randoms)
  {
  }

  lemma EndFirst(fs: seq<Frame>, server: bool, randoms: seq<Key>)
    requires AllValid(fs) && fs != [] && EndsReading(fs[0], server) && AllValid(fs[1..])
    ensures EndOf(fs, server) == if WellMasked(fs[0], server) && fs[0].header.opCode == 10 then NotImplemented else EOF
    ensures BytesUnheard(fs, server) == Masked(fs[0].payload, fs[0].header.mask, 0) + AllBytes(fs[1..])
    ensures Heard(fs, server) == []
    ensures Replies(fs, server, randoms) == if WellMasked(fs[0], server) then [] else CloseReply(server, randoms)
  {
    hide AllBytes, FrameBytes, Masked, CloseReply;
  }

  /** A frame that ends reading: its payload and all behind it stay unread. */
  lemma EndTaken(st: State, server: bool, fs: seq<Frame>)
    requires Streams(st, server, [], fs) && st.frame.None? && fs != [] && EndsReading(fs[0], server)
    ensures var r := TakeFrame(st, server);
      && r.Fail? && r.f == EndOf(fs, server) && r.st.input == BytesUnheard(fs, server) && r.st.frame.None?
      && r.st.sent == st.sent + Replies(fs, server, st.randoms)
  {
    GoodParts(fs);
    FirstFrame(st, server, fs);
    EndFirst(fs, server, st.randoms);
    EndHandled(st.(input := Masked(fs[0].payload, fs[0].header.mask, 0) + AllBytes(fs[1..])), server, fs[0]);
    hide *;
  }

  /**
   * A frame with a header that is wrongly masked, of any kind, and whatever is behind it: the reader
   * answers with a close frame of status 1002, reports the end of input, and reads none of it.
   */
  lemma WrongMaskEnds(st: State, server: bool, h: Header, length: nat, more: seq<Byte>)
    requires ValidHeader(h) && h.mask.Some? != server && length < 0x8000_0000_0000_0000
    requires st.frame.None? && st.input == HeaderBytes(h, length) + more
    ensures var r := Advance(st, server);
      && r.Failed? && r.f == EOF && r.st.input == more && r.st.frame.None?
      && r.st.sent == st.sent + if server then [Frame(Header(true, false, false, false, 8, None), [3, 234])]
                                else if st.randoms == [] then []
                                else [Frame(Header(true, false, false, false, 8, Some(st.randoms[0])), [3, 234])]
  {
    hide ParseHeader, HeaderBytes, Masked, HandlePing;
    HeaderReadsBack(h, length, more);
    assert st.sent + [] == st.sent;
  }

  /** The failing input: a ping without payload, whatever more there is to read behind it. */
  lemma EmptyPingEnds(st: State, server: bool, h: Header, more: seq<Byte>)
    requires ValidHeader(h) && h.opCode == 9 && h.mask.Some? == server
    requires st.frame.None? && st.input == HeaderBytes(h, 0) + more
    ensures Advance(st, server) == Failed(st.(input := more), EOF)
  {
    hide ParseHeader, HeaderBytes, Masked, Send;
    HeaderReadsBack(h, 0, more);
  }

  /** Reading has come to its end: the error, what was sent, and what stays unread. */
  ghost predicate Ended(st: State, server: bool, fs: seq<Frame>, f: Failure, after: State)
    requires (server || Pings(Heard(fs, server)) <= |st.randoms|) && AllValid(fs)
  {
    && f == EndOf(fs, server) && after.sent == st.sent + Replies(fs, server, st.randoms)
    && after.frame.None? && after.input == BytesUnheard(fs, server)
  }

  /**
   * From one state of a stream to a later one, data read on the way: not a byte and not a pong is
   * lost or added, and what ends the reading stays ahead.
   */
  ghost predicate Conserves(st: State, server: bool, cur: seq<Byte>, fs: seq<Frame>, data: seq<Byte>, after: State,
                            cur2: seq<Byte>, fs2: seq<Frame>)
  {
    && (server || Pings(Heard(fs, server)) <= |st.randoms|) && AllValid(fs) && Streams(after, server, cur2, fs2)
    && data + (cur2 + DataOf(Heard(fs2, server))) == cur + DataOf(Heard(fs, server))
    && after.sent + Replies(fs2, server, after.randoms) == st.sent + Replies(fs, server, st.randoms)
    && Unheard(fs2, server) == Unheard(fs, server) && BytesUnheard(fs2, server) == BytesUnheard(fs, server)
  }

  lemma ConservesOn(st: State, server: bool, cur: seq<Byte>, fs: seq<Frame>, read: seq<Byte>, mid: State,
                    cur1: seq<Byte>, fs1: seq<Frame>, data: seq<Byte>, after: State, cur2: seq<Byte>, fs2: seq<Frame>)
    requires Conserves(st, server, cur, fs, read, mid, cur1, fs1)
    requires Conserves(mid, server, cur1, fs1, data, after, cur2, fs2)
    ensures Conserves(st, server, cur, fs, read + data, after, cur2, fs2)
  {
    hide Streams, AllValid, Replies, Heard, Unheard, DataOf;
    assert read + (data + (cur2 + DataOf(Heard(fs2, server)))) == (read + data) + (cur2 + DataOf(Heard(fs2, server)));
  }

  /** The stream ends in the same way, seen from before or from after. */
  lemma EndedOn(st: State, server: bool, cur: seq<Byte>, fs: seq<Frame>, read: seq<Byte>, mid: State,
                cur1: seq<Byte>, fs1: seq<Frame>, f: Failure, after: State)
    requires Conserves(st, server, cur, fs, read, mid, cur1, fs1) && Ended(mid, server, fs1, f, after)
    ensures Ended(st, server, fs, f, after)
  {
    hide Streams, AllValid, Replies, Heard, Unheard, DataOf;
  }

  /** One frame on: a ping is answered, or a data frame becomes the current one. */
  lemma FrameTaken(st: State, server: bool, fs: seq<Frame>) returns (cur: seq<Byte>)
    requires Streams(st, server, [], fs) && st.frame.None? && fs != [] && !EndsReading(fs[0], server)
    ensures var r := TakeFrame(st, server);
      !r.Fail? && Conserves(st, server, [], fs, [], r.st, cur, fs[1..])
  {
    assert Heard(fs, server)[1..] == Heard(fs[1..], server);
    if IsPing(fs[0]) {
      PingTaken(st, server, fs);
      cur := [];
    } else {
      DataFrameTaken(st, server, fs);
      cur := fs[0].payload;
    }
  }

  /** No more is heard: the stream is over, or its next frame ends the reading. */
  lemma AtEnd(st: State, server: bool, fs: seq<Frame>)
    requires Streams(st, server, [], fs) && st.frame.None? && (fs == [] || EndsReading(fs[0], server))
    ensures Heard(fs, server) == []
    ensures var r := TakeFrame(st, server);
      r.Fail? && Ended(st, server, fs, r.f, r.st)
  {
    if fs != [] {
      EndTaken(st, server, fs);
    }
  }

  /** The frame that was read to its end is left. */
  lemma FrameLeft(st: State, server: bool, fs: seq<Frame>)
    requires Streams(st, server, [], fs) && st.frame.Some?
    ensures Available(st.frame.value, st.input) == 0
    ensures Conserves(st, server, [], fs, [], st.(frame := None), [], fs)
  {
    assert st.input == AllBytes(fs);
  }

  /** Data has been found, with nothing lost on the way. */
  ghost predicate Found(st: State, server: bool, cur: seq<Byte>, fs: seq<Frame>, r: Ready, cur2: seq<Byte>,
                        fs2: seq<Frame>)
  {
    r.Readable? && r.st.frame.Some? && cur2 != [] && Conserves(st, server, cur, fs, [], r.st, cur2, fs2)
  }

  /** What Advance finds: the next data, or, where none is left in front of it, the end of the reading. */
  ghost predicate Finds(st: State, server: bool, cur: seq<Byte>, fs: seq<Frame>, r: Ready, cur2: seq<Byte>,
                        fs2: seq<Frame>)
    requires Streams(st, server, cur, fs)
  {
    if cur + DataOf(Heard(fs, server)) == [] then r.Failed? && Ended(st, server, fs, r.f, r.st)
    else Found(st, server, cur, fs, r, cur2, fs2)
  }

  lemma FindsOn(st: State, server: bool, cur: seq<Byte>, fs: seq<Frame>, mid: State, cur1: seq<Byte>,
                fs1: seq<Frame>, r: Ready, cur2: seq<Byte>, fs2: seq<Frame>)
    requires Streams(st, server, cur, fs) && Streams(mid, server, cur1, fs1)
    requires Conserves(st, server, cur, fs, [], mid, cur1, fs1) && Finds(mid, server, cur1, fs1, r, cur2, fs2)
    ensures Finds(st, server, cur, fs, r, cur2, fs2)
  {
    hide Conserves, Streams, Ended;
    assert cur1 + DataOf(Heard(fs1, server)) == cur + DataOf(Heard(fs, server)) by {
      ConservesData(st, server, cur, fs, mid, cur1, fs1);
    }
    if cur + DataOf(Heard(fs, server)) == [] {
      EndedOn(st, server, cur, fs, [], mid, cur1, fs1, r.f, r.st);
    } else {
      ConservesOn(st, server, cur, fs, [], mid, cur1, fs1, [], r.st, cur2, fs2);
      var none: seq<Byte> := [];
      assert none + none == none;
    }
  }

  lemma ConservesData(st: State, server: bool, cur: seq<Byte>, fs: seq<Frame>, mid: State, cur1: seq<Byte>,
                      fs1: seq<Frame>)
    requires Conserves(st, server, cur, fs, [], mid, cur1, fs1)
    ensures cur1 + DataOf(Heard(fs1, server)) == cur + DataOf(Heard(fs, server)) && Streams(mid, server, cur1, fs1)
  {
  }

  /** The current frame has data. */
  lemma FoundHere(st: State, server: bool, cur: seq<Byte>, fs: seq<Frame>)
    requires Streams(st, server, cur, fs) && cur != []
    ensures Found(st, server, cur, fs, Advance(st, server), cur, fs)
  {
  }

  /** Advance finds the next data, answering the pings on its way, up to the frame that ends reading. */
  lemma {:induction false} AdvanceStreams(st: State, server: bool, cur: seq<Byte>, fs: seq<Frame>)
    returns (cur2: seq<Byte>, fs2: seq<Frame>)
    requires Streams(st, server, cur, fs)
    ensures Finds(st, server, cur, fs, Advance(st, server), cur2, fs2)
    decreases |fs|, st.frame.Some?
  {
    hide Streams, Conserves, Found, Ended, TakeFrame, Available, Finds;
    cur2, fs2 := cur, fs;
    NoneMeansEmpty(st, server, cur, fs);
    if cur != [] {
      FoundHere(st, server, cur, fs);
      FindsData(st, server, cur, fs, Advance(st, server));
    } else if st.frame.Some? {
      var left := st.(frame := None);
      FrameLeft(st, server, fs);
      ConservesData(st, server, [], fs, left, [], fs);
      cur2, fs2 := AdvanceStreams(left, server, [], fs);
      FindsOn(st, server, [], fs, left, [], fs, Advance(st, server), cur2, fs2);
    } else if fs == [] || EndsReading(fs[0], server) {
      AtEnd(st, server, fs);
      FindsNone(st, server, fs, Advance(st, server));
    } else {
      var cur1 := FrameTaken(st, server, fs);
      var mid := TakeFrame(st, server).st;
      ConservesData(st, server, [], fs, mid, cur1, fs[1..]);
      cur2, fs2 := AdvanceStreams(mid, server, cur1, fs[1..]);
      FindsOn(st, server, [], fs, mid, cur1, fs[1..], Advance(st, server), cur2, fs2);
    }
  }

  lemma NoneMeansEmpty(st: State, server: bool, cur: seq<Byte>, fs: seq<Frame>)
    requires Streams(st, server, cur, fs)
    ensures Sound(st) && (st.frame.None? ==> cur == [])
  {
  }

  lemma FindsData(st: State, server: bool, cur: seq<Byte>, fs: seq<Frame>, r: Ready)
    requires Streams(st, server, cur, fs) && cur != [] && Found(st, server, cur, fs, r, cur, fs)
    ensures Finds(st, server, cur, fs, r, cur, fs)
  {
    assert cur + DataOf(Heard(fs, server)) != [];
  }

  lemma FindsNone(st: State, server: bool, fs: seq<Frame>, r: Ready)
    requires Streams(st, server, [], fs) && DataOf(Heard(fs, server)) == []
    requires r.Failed? && Ended(st, server, fs, r.f, r.st)
    ensures Finds(st, server, [], fs, r, [], fs)
  {
  }

  // ------------------------------------------------------- frames of any kind

  /** The frames that some bytes are made of, headers parsed and payloads unmasked. */
  function ParseAll(input: seq<Byte>): Option<seq<Frame>>
    decreases |input|
  {
    if input == [] then Some([]) else
    match ParseHeader(input)
    case Short => None
    case Parsed(h, length, rest) =>
      if length < 0 || length > |rest| then None else
      match ParseAll(rest[length..])
      case None => None
      case Some(fs) => Some([Frame(h, Masked(rest[..length], h.mask, 0))] + fs)
  }

  /** Frames written one after another are parsed as the same frames. */
  lemma {:induction false} FramesReadBack(fs: seq<Frame>)
    requires AllValid(fs) && forall i :: 0 <= i < |fs| ==> |fs[i].payload| < 0x8000_0000_0000_0000
    ensures ParseAll(AllBytes(fs)) == Some(fs)
    decreases |fs|
  {
    hide ParseHeader, FrameBytes, HeaderBytes;
    if fs != [] {
      AllBytesFirst(fs);
      var h, payload, behind := fs[0].header, fs[0].payload, AllBytes(fs[1..]);
      var masked := Masked(payload, h.mask, 0);
      HeaderReadsBack(h, |payload|, masked + behind);
      HeaderNotEmpty(h, |payload|, masked + behind);
      assert (masked + behind)[..|payload|] == masked && (masked + behind)[|payload|..] == behind;
      MaskedTwice(payload, h.mask, 0);
      FramesReadBack(fs[1..]);
      assert fs == [Frame(h, payload)] + fs[1..];
      hide Masked, AllBytes;
    }
  }

  lemma HeaderNotEmpty(h: Header, length: nat, rest: seq<Byte>)
    ensures HeaderBytes(h, length) + rest != []
  {
  }
}
