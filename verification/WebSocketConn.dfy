// The connection object (websocket/hybi.go, websocket/websocket.go): its methods, byte by
// byte and in place, proved against the functions of WebSocketReader; and what a sequence
// of reads delivers.

module WebSocketConn {
  import opened Bytes
  import opened WebSocketFrames
  import opened WebSocketReader
  import opened Wrappers

  /** HandleFrame's results: a reader, nothing (the frame has been dealt with), or an error. */
  datatype Handled = Reader(reader: FrameReader) | Nothing | Error(f: Failure)

  datatype ReadResult = Received(data: seq<Byte>) | ReadError(f: Failure)

  /** A data frame as a codec gets it. */
  datatype Message = Message(payloadType: Byte, data: seq<Byte>)

  datatype Receipt = Whole(message: Message) | ReceiveError(f: Failure)

  /** One more length byte: the running sum stays the wrapped value of the bytes so far. */
  lemma LengthStep(bs: seq<Byte>, i: nat)
    requires i < |bs| && i < 8
    ensures Wrap64(Wrap64(Wrap64(Value(bs[..i])) * 256) + bs[i]) == Wrap64(Value(bs[..i + 1]))
  {
    SevenBytes(bs[..i]);
    ValueAppend(bs[..i], bs[i]);
    assert bs[..i + 1] == bs[..i] + [bs[i]];
    Wrap64Step(Value(bs[..i]), bs[i]);
  }

  lemma Wrap64Step(x: nat, b: Byte)
    requires x < 0x100_0000_0000_0000
    ensures Wrap64(x) == x
    ensures Wrap64(Wrap64(x * 256) + b) == Wrap64(256 * x + b)
  {
  }

  class Conn {
    const server: bool
    var input: seq<Byte>
    var frame: Option<FrameReader>
    var payloadType: OpCode
    var randoms: seq<Key>
    var sent: seq<Frame>

    constructor (server: bool, input: seq<Byte>, randoms: seq<Key>)
      ensures this.server == server && St() == State(input, None, CONTINUATION, randoms, [])
    {
      this.server, this.input, this.randoms := server, input, randoms;
      frame, payloadType, sent := None, CONTINUATION, [];
    }

    ghost function St(): State
      reads this
    {
      State(input, frame, payloadType, randoms, sent)
    }

    method ReadByte() returns (b: Option<Byte>)
      modifies this`input
      ensures old(input) == [] ==> b == None && input == []
      ensures old(input) != [] ==> b == Some(old(input)[0]) && input == old(input)[1..]
    {
      if input == [] {
        return None;
      }
      b, input := Some(input[0]), input[1..];
    }

    /** A loop of ReadByte calls. */
    method ReadBytes(count: nat) returns (bs: Option<seq<Byte>>)
      modifies this`input
      ensures |old(input)| < count ==> bs == None && input == []
      ensures |old(input)| >= count ==> bs == Some(old(input)[..count]) && input == old(input)[count..]
    {
      var header := [];
      for i := 0 to count
        invariant i <= |old(input)| && header == old(input)[..i] && input == old(input)[i..]
      {
        var b := ReadByte();
        if b.None? {
          return None;
        }
        header := header + [b.value];
      }
      return Some(header);
    }

    /** The length fields, added up in int64 arithmetic. */
    method ReadLength(lengthFields: nat) returns (length: Option<int>)
      requires lengthFields <= 8
      modifies this`input
      ensures |old(input)| < lengthFields ==> length == None && input == []
      ensures |old(input)| >= lengthFields ==>
        length == Some(Wrap64(Value(old(input)[..lengthFields]))) && input == old(input)[lengthFields..]
    {
      var sum := 0;
      for i := 0 to lengthFields
        invariant i <= |old(input)| && input == old(input)[i..]
        invariant sum == Wrap64(Value(old(input)[..i]))
      {
        var b := ReadByte();
        if b.None? {
          return None;
        }
        LengthStep(old(input), i);
        sum := Wrap64(Wrap64(sum * 256) + b.value);
      }
      return Some(sum);
    }

    /** Reads a frame header and makes the reader for its payload; None is the end of input. */
    method NewFrameReader() returns (f: Option<FrameReader>)
      modifies this`input
      ensures match ParseHeader(old(input))
              case Short => f == None && input == []
              case Parsed(h, length, rest) => f == Some(FrameReader(h, 0, length)) && input == rest
    {
      ghost var all := input;
      var first := ReadByte();
      if first.None? {
        return None;
      }
      var b := ReadByte();
      if b.None? {
        return None;
      }
      assert input == all[2..];
      var mask := b.value >= 0x80;
      var code := b.value % 0x80;
      var length: int := code;
      if LengthFields(code) > 0 {
        var l := ReadLength(LengthFields(code));
        if l.None? {
          return None;
        }
        length := l.value;
      }
      ghost var fields := LengthFields(code);
      assert all[2..][..fields] == all[2..2 + fields] && input == all[2 + fields..];
      var key := None;
      if mask {
        key := ReadBytes(4);
        if key.None? {
          return None;
        }
        SliceAfter(all, 2 + fields, 4);
      }
      return Some(FrameReader(HeaderOf(first.value, key), 0, length));
    }

    /** NewFrameWriter, Write and Close: a control frame is sent, masked by a client. */
    method WriteControl(opCode: OpCode, payload: seq<Byte>) returns (ok: bool)
      modifies this`sent, this`randoms
      ensures ok <==> Send(old(St()), server, opCode, payload).Some?
      ensures ok ==> St() == Send(old(St()), server, opCode, payload).value
      ensures !ok ==> St() == old(St())
    {
      var mask := None;
      if !server {
        if randoms == [] {
          return false;
        }
        mask, randoms := Some(randoms[0]), randoms[1..];
      }
      sent := sent + [Frame(ControlHeader(opCode, mask), payload)];
      return true;
    }

    /** The ping branch of HandleFrame: up to 125 bytes are read, the rest is discarded. */
    method AnswerPing(f: FrameReader) returns (r: Handled)
      requires ValidHeader(f.header)
      modifies this`input, this`sent, this`randoms
      ensures Agrees(HandlePing(old(St()), server, f), r, St())
    {
      var n := Min(Available(f, input), MAX_CONTROL_PAYLOAD);
      if n == 0 {
        return Error(EOF);
      }
      var pingMsg := Masked(input[..n], f.header.mask, f.pos);
      input := input[Available(f, input)..];
      var ok := WriteControl(PONG, pingMsg);
      if !ok {
        return Error(NoRandomness);
      }
      return Nothing;
    }

    method HandleFrame(f: FrameReader) returns (r: Handled)
      requires ValidHeader(f.header) && frame.None?
      modifies this`input, this`sent, this`randoms, this`payloadType
      ensures Agrees(WebSocketReader.HandleFrame(old(St()), server, f), r, St())
    {
      if server {
        if f.header.mask.None? {
          var _ := WriteControl(CLOSE, PROTOCOL_ERROR);
          return Error(EOF);
        }
      } else {
        if f.header.mask.Some? {
          var _ := WriteControl(CLOSE, PROTOCOL_ERROR);
          return Error(EOF);
        }
      }
      var op := f.header.opCode;
      if op == CONTINUATION {
        return Reader(f.(header := f.header.(opCode := payloadType)));
      } else if op == TEXT || op == BINARY {
        payloadType := op;
      } else if op == CLOSE {
        return Error(EOF);
      } else if op == PING {
        r := AnswerPing(f);
        return;
      } else if op == PONG {
        return Error(NotImplemented);
      }
      return Reader(f);
    }

    /** The loop of Conn.Read up to a frame with something to read, or an error. */
    method FindData() returns (failure: Option<Failure>)
      requires Sound(St())
      modifies this`input, this`frame, this`sent, this`randoms, this`payloadType
      ensures match Advance(old(St()), server)
              case Failed(s, f) => failure == Some(f) && St() == s
              case Readable(s) => failure == None && St() == s
    {
      ghost var goal := Advance(St(), server);
      while true
        invariant Sound(St()) && Advance(St(), server) == goal
        decreases |input|, frame.Some?
      {
        if frame.None? {
          var f := NewFrameReader();
          if f.None? {
            return Some(EOF);
          }
          var handled := HandleFrame(f.value);
          match handled {
            case Error(e) => return Some(e);
            case Nothing =>
            case Reader(reader) => frame := Some(reader);
          }
        } else if Available(frame.value, input) > 0 {
          return None;
        } else {
          frame := None;
        }
      }
    }

    /** hybiFrameReader.Read, when n bytes arrive: unmasks them in place, position by position. */
    method ReadFrame(n: nat) returns (msg: seq<Byte>)
      requires Sound(St()) && frame.Some? && n <= Available(frame.value, input)
      modifies this`input, this`frame
      ensures msg == Delivered(old(St()), n) && St() == Consumed(old(St()), n)
    {
      var f := frame.value;
      msg, input := input[..n], input[n..];
      var pos := f.pos;
      if f.header.mask.Some? {
        for i := 0 to n
          invariant pos == f.pos + i && |msg| == n
          invariant forall k :: 0 <= k < i ==> msg[k] == MaskByte(old(input)[k], f.header.mask.value, f.pos + k)
          invariant forall k :: i <= k < n ==> msg[k] == old(input)[k]
        {
          msg := msg[i := MaskByte(msg[i], f.header.mask.value, pos)];
          pos := pos + 1;
        }
      }
      frame := Some(f.(pos := pos, remaining := f.remaining - n));
    }

    /**
     * Conn.Read with a buffer of the given size. The bytes that arrive at once may be fewer
     * than asked for; at least one does when there are any.
     */
    method Read(size: nat) returns (r: ReadResult)
      requires Sound(St())
      modifies this`input, this`frame, this`sent, this`randoms, this`payloadType
      ensures Sound(St()) && ReadOutcome(old(St()), server, size, r, St())
    {
      var failure := FindData();
      if failure.Some? {
        return ReadError(failure.value);
      }
      ghost var at := St();
      var f := frame.value;
      var most := Min(size, Available(f, input));
      var n :| 0 <= n <= most && (most > 0 ==> n > 0);
      var msg := ReadFrame(n);
      assert St() == Consumed(at, n) && msg == Delivered(at, n);
      return Received(msg);
    }

    /** Codec.Receive without its unmarshalling: type and payload of the next data frame. */
    method Receive() returns (r: Receipt)
      requires Sound(St())
      modifies this`input, this`frame, this`sent, this`randoms, this`payloadType
      ensures ReceiveOutcome(old(St()), server, r, St())
    {
      if frame.Some? {
        input := input[Available(frame.value, input)..];
        frame := None;
      }
      ghost var goal := NextData(St(), server);
      while true
        invariant frame.None? && NextData(St(), server) == goal
        decreases |input|
      {
        var f := NewFrameReader();
        if f.None? {
          return ReceiveError(EOF);
        }
        var handled := HandleFrame(f.value);
        match handled {
          case Error(e) => return ReceiveError(e);
          case Nothing =>
          case Reader(reader) =>
            var n := Available(reader, input);
            var data := Masked(input[..n], reader.header.mask, reader.pos);
            input := input[n..];
            return Whole(Message(reader.header.opCode, data));
        }
      }
    }
  }

  lemma SliceAfter<T>(all: seq<T>, start: nat, n: nat)
    requires start + n <= |all|
    ensures all[start..][..n] == all[start..start + n] && all[start..][n..] == all[start + n..]
  {
  }

  /** Codec.Receive's loop: frames that are dealt with on the way are passed over. */
  function NextData(st: State, server: bool): (r: Step)
    ensures r.Data? ==> Sound(r.st) && r.st.frame.Some?
    ensures !r.Control?
    decreases |st.input|
  {
    match TakeFrame(st, server)
    case Control(s) => NextData(s, server)
    case Data(s) => Data(s)
    case Fail(s, f) => Fail(s, f)
  }

  /** What is left of the frame being read is thrown away. */
  function Discarded(st: State): State {
    match st.frame
    case None => st
    case Some(f) => st.(input := st.input[Available(f, st.input)..], frame := None)
  }

  /** Receive returns all of the next data frame that there is, and keeps no reader. */
  ghost predicate ReceiveOutcome(before: State, server: bool, r: Receipt, after: State) {
    match NextData(Discarded(before), server)
    case Fail(s, f) => r == ReceiveError(f) && after == s
    case Control(_) => false
    case Data(s) =>
      var n := Available(s.frame.value, s.input);
      && r == Whole(Message(s.frame.value.header.opCode, Delivered(s, n)))
      && after == s.(input := s.input[n..], frame := None)
  }

  /** A method's result and state are what a step of the specification says. */
  ghost predicate Agrees(step: Step, r: Handled, st: State) {
    match step
    case Fail(s, f) => r == Error(f) && st == s
    case Control(s) => r == Nothing && st == s
    case Data(s) => r.Reader? && s == st.(frame := Some(r.reader))
  }

  /** n bytes of the next data, between one and the size of the buffer, or the failure in their place. */
  ghost predicate ReadOutcome(before: State, server: bool, size: nat, r: ReadResult, after: State)
    requires Sound(before)
  {
    match Advance(before, server)
    case Failed(s, f) => r == ReadError(f) && after == s
    case Readable(s) =>
      exists n: nat :: n <= size && n <= Available(s.frame.value, s.input) && (size > 0 ==> n > 0)
        && r == Received(Delivered(s, n)) && after == Consumed(s, n)
  }

  // ------------------------------------------------------- runs of reads

  /** A masked text cut in two. */
  lemma MaskedCut(cur: seq<Byte>, mask: Option<seq<Byte>>, pos: nat, n: nat)
    requires (mask.Some? ==> |mask.value| == 4) && n <= |cur|
    ensures Masked(Masked(cur, mask, pos)[..n], mask, pos) == cur[..n]
    ensures Masked(cur, mask, pos)[n..] == Masked(cur[n..], mask, pos + n)
  {
    assert cur == cur[..n] + cur[n..];
    MaskedParts(cur[..n], cur[n..], mask, pos);
    assert Masked(cur, mask, pos)[..n] == Masked(cur[..n], mask, pos);
    MaskedTwice(cur[..n], mask, pos);
  }

  /** What is left of a frame after n bytes, and the bytes behind it. */
  lemma LeftOver(cur: seq<Byte>, mask: Option<seq<Byte>>, pos: nat, n: nat, tail: seq<Byte>)
    requires (mask.Some? ==> |mask.value| == 4) && n <= |cur|
    ensures var input := Masked(cur, mask, pos) + tail;
            && Masked(input[..n], mask, pos) == cur[..n]
            && input[n..] == Masked(cur[n..], mask, pos + n) + tail
  {
    var masked := Masked(cur, mask, pos);
    MaskedCut(cur, mask, pos, n);
    assert (masked + tail)[..n] == masked[..n];
    assert (masked + tail)[n..] == masked[n..] + tail;
  }

  /** Reading on from a state whose next data is cur. */
  lemma ConsumedStreams(st: State, server: bool, cur: seq<Byte>, fs: seq<Frame>, n: nat)
    requires Streams(st, server, cur, fs) && st.frame.Some? && n <= Available(st.frame.value, st.input)
    ensures n <= |cur| && Delivered(st, n) == cur[..n]
    ensures Streams(Consumed(st, n), server, cur[n..], fs)
  {
    var f := st.frame.value;
    LeftOver(cur, f.header.mask, f.pos, n, AllBytes(fs));
  }

  /** n bytes read of what has been found. */
  lemma FoundConserves(st: State, server: bool, cur: seq<Byte>, fs: seq<Frame>, s: State, cur2: seq<Byte>,
                       fs2: seq<Frame>, n: nat)
    requires Found(st, server, cur, fs, Readable(s), cur2, fs2)
    requires n <= Available(s.frame.value, s.input)
    ensures n <= |cur2| && Delivered(s, n) == cur2[..n]
    ensures Conserves(st, server, cur, fs, cur2[..n], Consumed(s, n), cur2[n..], fs2)
  {
    ConsumedStreams(s, server, cur2, fs2, n);
    Regroup(cur2[..n], cur2[n..], DataOf(Heard(fs2, server)));
    hide Streams, DataOf, Heard, Unheard, BytesUnheard, Replies, AllValid, Delivered, Available;
    assert cur2[..n] + cur2[n..] == cur2;
  }

  /** What one read gives and leaves: data as long as some is heard, and the error that ends the reading then. */
  lemma ReadConserves(st: State, server: bool, cur: seq<Byte>, fs: seq<Frame>, size: nat, r: ReadResult, after: State)
    returns (cur2: seq<Byte>, fs2: seq<Frame>)
    requires Streams(st, server, cur, fs) && ReadOutcome(st, server, size, r, after)
    ensures cur + DataOf(Heard(fs, server)) == [] ==> r.ReadError? && Ended(st, server, fs, r.f, after)
    ensures cur + DataOf(Heard(fs, server)) != [] ==>
              r.Received? && (size > 0 ==> r.data != []) && Conserves(st, server, cur, fs, r.data, after, cur2, fs2)
  {
    hide Streams, Conserves, Ended, Consumed, Delivered;
    SoundStream(st, server, cur, fs);
    cur2, fs2 := AdvanceStreams(st, server, cur, fs);
    if cur + DataOf(Heard(fs, server)) != [] {
      var s := Advance(st, server).st;
      var n: nat :| n <= size && n <= Available(s.frame.value, s.input) && (size > 0 ==> n > 0)
        && r == Received(Delivered(s, n)) && after == Consumed(s, n);
      FoundConserves(st, server, cur, fs, s, cur2, fs2, n);
      cur2 := cur2[n..];
    }
  }

  lemma ConservesStart(st: State, server: bool, cur: seq<Byte>, fs: seq<Frame>)
    requires Streams(st, server, cur, fs)
    ensures Conserves(st, server, cur, fs, [], st, cur, fs)
  {
  }

  /** All that was heard has been read, which is everything exactly when no data stays unheard. */
  lemma AllRead(cur: seq<Byte>, fs: seq<Frame>, server: bool)
    ensures cur + DataOf(Heard(fs, server)) == cur + DataOf(fs) <==> DataOf(Unheard(fs, server)) == []
  {
    HeardParts(fs, server);
    assert |cur + DataOf(fs)| == |cur + DataOf(Heard(fs, server))| + |DataOf(Unheard(fs, server))|;
  }

  /** At the end of the reading everything heard has been read. */
  lemma NothingAhead(st: State, server: bool, cur0: seq<Byte>, fs0: seq<Frame>, read: seq<Byte>, mid: State,
                     cur: seq<Byte>, fs: seq<Frame>)
    requires Conserves(st, server, cur0, fs0, read, mid, cur, fs) && cur + DataOf(Heard(fs, server)) == []
    ensures read == cur0 + DataOf(Heard(fs0, server))
  {
    assert read + [] == read;
  }

  /**
   * Successive reads with buffers of the given sizes, until the sizes run out or an error ends them.
   * What has been read, followed by what is still to come, is always the data in front of the first
   * frame that ends reading; the pongs sent, followed by those still due, are one for each ping in
   * front of it. The error is reported only when all of that has been read, and is reached by
   * nonempty buffers. So all data arrives exactly when none stands behind such a frame.
   */
  method ReadRun(c: Conn, sizes: seq<nat>, ghost cur0: seq<Byte>, ghost fs0: seq<Frame>)
    returns (read: seq<Byte>, ended: Option<Failure>, ghost cur: seq<Byte>, ghost fs: seq<Frame>)
    requires Streams(c.St(), c.server, cur0, fs0)
    modifies c
    ensures ended.Some? ==> read == cur0 + DataOf(Heard(fs0, c.server))
                            && Ended(old(c.St()), c.server, fs0, ended.value, c.St())
    ensures ended.Some? ==> (read == cur0 + DataOf(fs0) <==> DataOf(Unheard(fs0, c.server)) == [])
    ensures ended.None? ==> Conserves(old(c.St()), c.server, cur0, fs0, read, c.St(), cur, fs)
    ensures ended.None? && (forall i :: 0 <= i < |sizes| ==> sizes[i] > 0) ==> |sizes| <= |read|
  {
    hide Streams, Conserves, Ended, Heard, Unheard;
    read, ended, cur, fs := [], None, cur0, fs0;
    ConservesStart(c.St(), c.server, cur0, fs0);
    for i := 0 to |sizes|
      invariant Streams(c.St(), c.server, cur, fs)
      invariant Conserves(old(c.St()), c.server, cur0, fs0, read, c.St(), cur, fs)
      invariant (forall k :: 0 <= k < i ==> sizes[k] > 0) ==> i <= |read|
    {
      ghost var st := c.St();
      SoundStream(st, c.server, cur, fs);
      var r := c.Read(sizes[i]);
      ghost var cur2, fs2 := ReadConserves(st, c.server, cur, fs, sizes[i], r, c.St());
      match r {
        case ReadError(f) =>
          EndedOn(old(c.St()), c.server, cur0, fs0, read, st, cur, fs, f, c.St());
          NothingAhead(old(c.St()), c.server, cur0, fs0, read, st, cur, fs);
          AllRead(cur0, fs0, c.server);
          return read, Some(f), cur, fs;
        case Received(data) =>
          ConservesOn(old(c.St()), c.server, cur0, fs0, read, st, cur, fs, data, c.St(), cur2, fs2);
          ConservesStreams(st, c.server, cur, fs, data, c.St(), cur2, fs2);
          read, cur, fs := read + data, cur2, fs2;
      }
    }
  }

  lemma SoundStream(st: State, server: bool, cur: seq<Byte>, fs: seq<Frame>)
    requires Streams(st, server, cur, fs)
    ensures Sound(st)
  {
  }

  lemma ConservesStreams(st: State, server: bool, cur: seq<Byte>, fs: seq<Frame>, data: seq<Byte>, after: State,
                         cur2: seq<Byte>, fs2: seq<Frame>)
    requires Conserves(st, server, cur, fs, data, after, cur2, fs2)
    ensures Streams(after, server, cur2, fs2)
  {
  }

  // ------------------------------------------------- whole frames at a time

  /** The frames up to and including the first data frame. */
  function FirstData(fs: seq<Frame>): (n: nat)
    ensures n <= |fs|
  {
    if fs == [] then 0 else if IsData(fs[0]) then 1 else 1 + FirstData(fs[1..])
  }

  /** The data frames with their types; current is the type of the last text or binary frame before. */
  function DataFrames(fs: seq<Frame>, current: Byte): seq<Message> {
    if fs == [] then [] else
    (if IsData(fs[0]) then [Message(TypeOf(fs[0], current), fs[0].payload)] else [])
    + DataFrames(fs[1..], TypeAfter(fs[0], current))
  }

  /** The next data frame is the current one, and the pings in front of it are answered. */
  ghost predicate DataNext(st: State, server: bool, fs: seq<Frame>, s: State, rest: seq<Frame>)
    requires server || Pings(Heard(fs, server)) <= |st.randoms|
  {
    var frames := DataFrames(Heard(fs, server), st.payloadType);
    && frames != [] && s.frame.Some? && Streams(s, server, frames[0].data, rest) && rest == fs[FirstData(fs)..]
    && s.frame.value.header.opCode == frames[0].payloadType
    && frames == [frames[0]] + DataFrames(Heard(rest, server), s.payloadType)
    && Unheard(rest, server) == Unheard(fs, server)
    && s.sent + Replies(rest, server, s.randoms) == st.sent + Replies(fs, server, st.randoms)
  }

  lemma DataFrameNext(st: State, server: bool, fs: seq<Frame>)
    requires Streams(st, server, [], fs) && st.frame.None? && fs != []
    requires IsData(fs[0]) && WellMasked(fs[0], server)
    ensures TakeFrame(st, server).Data? && DataNext(st, server, fs, TakeFrame(st, server).st, fs[1..])
  {
    DataFrameTaken(st, server, fs);
    assert Heard(fs, server)[1..] == Heard(fs[1..], server);
  }

  lemma PingNext(st: State, server: bool, fs: seq<Frame>)
    requires Streams(st, server, [], fs) && st.frame.None? && fs != []
    requires IsPing(fs[0]) && fs[0].payload != [] && WellMasked(fs[0], server)
    ensures var r := TakeFrame(st, server);
      && r.Control? && r.st.frame.None? && r.st.payloadType == st.payloadType && Streams(r.st, server, [], fs[1..])
      && DataFrames(Heard(fs, server), st.payloadType) == DataFrames(Heard(fs[1..], server), st.payloadType)
      && Unheard(fs, server) == Unheard(fs[1..], server)
      && BytesUnheard(fs, server) == BytesUnheard(fs[1..], server)
      && fs[1..][FirstData(fs[1..])..] == fs[FirstData(fs)..]
      && r.st.sent + Replies(fs[1..], server, r.st.randoms) == st.sent + Replies(fs, server, st.randoms)
  {
    PingTaken(st, server, fs);
    assert Heard(fs, server)[1..] == Heard(fs[1..], server);
  }

  lemma {:induction false} NextDataStreams(st: State, server: bool, fs: seq<Frame>)
    requires Streams(st, server, [], fs) && st.frame.None?
    ensures DataFrames(Heard(fs, server), st.payloadType) == [] ==>
      NextData(st, server).Fail? && Ended(st, server, fs, NextData(st, server).f, NextData(st, server).st)
    ensures DataFrames(Heard(fs, server), st.payloadType) != [] ==>
      NextData(st, server).Data? && DataNext(st, server, fs, NextData(st, server).st, fs[FirstData(fs)..])
    decreases |fs|
  {
    hide Streams, Masked, AllBytes, TakeFrame, Heard, Replies, Pings, Unheard, BytesUnheard, FirstData;
    if fs == [] || EndsReading(fs[0], server) {
      AtEnd(st, server, fs);
    } else if IsPing(fs[0]) {
      hide DataFrames;
      PingNext(st, server, fs);
      NextDataStreams(TakeFrame(st, server).st, server, fs[1..]);
    } else {
      DataFrameNext(st, server, fs);
    }
  }

  lemma DiscardedStreams(st: State, server: bool, cur: seq<Byte>, fs: seq<Frame>)
    requires Streams(st, server, cur, fs)
    ensures Streams(Discarded(st), server, [], fs) && Discarded(st).frame.None?
  {
    if st.frame.Some? {
      var masked := Masked(cur, st.frame.value.header.mask, st.frame.value.pos);
      assert (masked + AllBytes(fs))[|masked|..] == AllBytes(fs);
    }
  }

  /**
   * Receive gives the data frames one by one, each with its type, up to the frame that ends reading;
   * what is left of a frame begun by Read is thrown away.
   */
  lemma ReceiveConserves(st: State, server: bool, cur: seq<Byte>, fs: seq<Frame>, r: Receipt, after: State)
    requires Streams(st, server, cur, fs) && ReceiveOutcome(st, server, r, after)
    ensures DataFrames(Heard(fs, server), st.payloadType) == [] ==> r.ReceiveError? && Ended(st, server, fs, r.f, after)
    ensures DataFrames(Heard(fs, server), st.payloadType) != [] ==>
      var rest := fs[FirstData(fs)..];
      && r.Whole?
      && DataFrames(Heard(fs, server), st.payloadType)
         == [r.message] + DataFrames(Heard(rest, server), after.payloadType)
      && Unheard(rest, server) == Unheard(fs, server)
      && Streams(after, server, [], rest)
      && after.sent + Replies(rest, server, after.randoms) == st.sent + Replies(fs, server, st.randoms)
  {
    hide Heard, Replies, DataFrames, Masked, AllBytes, Unheard;
    DiscardedStreams(st, server, cur, fs);
    NextDataStreams(Discarded(st), server, fs);
    if DataFrames(Heard(fs, server), st.payloadType) != [] {
      var s, payload := NextData(Discarded(st), server).st, DataFrames(Heard(fs, server), st.payloadType)[0].data;
      var n := Available(s.frame.value, s.input);
      ConsumedStreams(s, server, payload, fs[FirstData(fs)..], n);
      assert n == |payload| && payload[..n] == payload;
      DiscardedStreams(s, server, payload, fs[FirstData(fs)..]);
    }
  }

  lemma SevenBytes(bs: seq<Byte>)
    requires |bs| <= 7
    ensures Value(bs) < 0x100_0000_0000_0000
  {
    ValueBound(bs);
    assert Pow256(2) == 65536;
    assert Pow256(4) == 65536 * Pow256(2);
    assert Pow256(6) == 65536 * Pow256(4);
    assert Pow256(7) == 256 * Pow256(6);
    PowGrows(|bs|, 7);
  }

  lemma {:induction false} PowGrows(a: nat, b: nat)
    requires a <= b
    ensures Pow256(a) <= Pow256(b)
    decreases b
  {
    if a < b {
      PowGrows(a, b - 1);
    }
  }
}
