// The framer that writes and reads SPDY frames, with header compression disabled
// (spdy/write.go and spdy/read.go).

module SpdyFramer {
  import opened Bytes
  import opened SpdyFrames
  import opened SpdyHeaders
  import opened Strings
  import opened Wrappers

  /** A value, or the error in its place. */
  datatype Reply<T> = Done(value: T) | Fault(error: Error)

  /** A method read what the specification says; after an error it does not matter where the input is. */
  ghost predicate Agrees<T>(o: Outcome<T>, reply: Reply<T>, input: seq<Byte>) {
    match o
    case Failed(e) => reply == Fault(e)
    case Got(value, rest) => reply == Done(value) && input == rest
  }

  class Framer {
    var w: seq<Byte>
    var headerBuf: seq<Byte>
    var r: seq<Byte>

    constructor (input: seq<Byte>)
      ensures w == [] && headerBuf == [] && r == input
    {
      w, headerBuf, r := [], [], input;
    }

    // -------------------------------------------------------------- writing

    method WriteControlFrameHeader(frameType: nat, flags: Byte, length: nat)
      modifies this`w
      ensures w == old(w) + ControlBytes(frameType, flags, length)
    {
      hide BigEndian, Word32, Combined;
      w := w + BigEndian(0x8000 + VERSION, 2);
      w := w + BigEndian(frameType, 2);
      w := w + Word32(Combined(flags, length % 0x1_0000_0000));
    }

    method WriteHeaderValueBlock(h: Headers, order: seq<Text>)
      requires KeyOrder(h, order)
      modifies this`headerBuf
      ensures headerBuf == old(headerBuf) + BlockBytes(h, order)
    {
      hide Word32, EntryBytes, EntriesBytes, Lower;
      EntriesNone(h, order);
      headerBuf := headerBuf + Word32(|h|);
      ghost var begun := headerBuf;
      for i := 0 to |order|
        invariant headerBuf + EntriesBytes(h, order[i..]) == begun + EntriesBytes(h, order)
      {
        var name := order[i];
        ghost var before := headerBuf;
        headerBuf := headerBuf + Word32(|name|);
        headerBuf := headerBuf + Lower(name);
        var v := Join(h[name], [0]);
        headerBuf := headerBuf + Word32(|v|);
        headerBuf := headerBuf + v;
        EntryWritten(before, name, h[name]);
        NextEntry(before, h, order, i);
      }
      assert headerBuf + [] == headerBuf;
      assert old(headerBuf) + Word32(|h|) + EntriesBytes(h, order) == old(headerBuf) + BlockBytes(h, order);
    }

    method WriteSynStream(frame: Frame, order: seq<Text>) returns (e: Option<Error>)
      requires frame.SynStream? && KeyOrder(frame.headers, order) && headerBuf == []
      modifies this`w, this`headerBuf
      ensures headerBuf == [] && Ordered(frame, order)
      ensures w == old(w) + Written(frame, order).bytes && e == Written(frame, order).error
    {
      hide ControlBytes, Word32, BlockBytes;
      if frame.streamId == 0 {
        return Some(ZeroStreamId);
      }
      WriteHeaderValueBlock(frame.headers, order);
      assert headerBuf == BlockBytes(frame.headers, order);
      WriteControlFrameHeader(SYN_STREAM, frame.flags, |headerBuf| + 10);
      w := w + Word32(frame.streamId);
      w := w + Word32(frame.associatedTo);
      w := w + [frame.priority * 32 % 256];
      w := w + [frame.slot];
      w := w + headerBuf;
      SynStreamWritten(old(w), ControlBytes(SYN_STREAM, frame.flags, |headerBuf| + 10), Word32(frame.streamId),
                       Word32(frame.associatedTo), frame.priority * 32 % 256, frame.slot, headerBuf);
      headerBuf := [];
      return None;
    }

    method WriteSynReply(frame: Frame, order: seq<Text>) returns (e: Option<Error>)
      requires frame.SynReply? && KeyOrder(frame.headers, order) && headerBuf == []
      modifies this`w, this`headerBuf
      ensures headerBuf == [] && Ordered(frame, order)
      ensures w == old(w) + Written(frame, order).bytes && e == Written(frame, order).error
    {
      hide ControlBytes, Word32, BlockBytes;
      if frame.streamId == 0 {
        return Some(ZeroStreamId);
      }
      WriteHeaderValueBlock(frame.headers, order);
      assert headerBuf == BlockBytes(frame.headers, order);
      WriteControlFrameHeader(SYN_REPLY, frame.flags, |headerBuf| + 4);
      w := w + Word32(frame.streamId);
      w := w + headerBuf;
      headerBuf := [];
      return None;
    }

    method WriteHeaders(frame: Frame, order: seq<Text>) returns (e: Option<Error>)
      requires frame.HeadersFrame? && KeyOrder(frame.headers, order) && headerBuf == []
      modifies this`w, this`headerBuf
      ensures headerBuf == [] && Ordered(frame, order)
      ensures w == old(w) + Written(frame, order).bytes && e == Written(frame, order).error
    {
      hide ControlBytes, Word32, BlockBytes;
      if frame.streamId == 0 {
        return Some(ZeroStreamId);
      }
      WriteHeaderValueBlock(frame.headers, order);
      assert headerBuf == BlockBytes(frame.headers, order);
      WriteControlFrameHeader(HEADERS, frame.flags, |headerBuf| + 4);
      w := w + Word32(frame.streamId);
      w := w + headerBuf;
      headerBuf := [];
      return None;
    }

    method WriteSettings(frame: Frame)
      requires frame.Settings?
      modifies this`w
      ensures w == old(w) + Written(frame, []).bytes && Written(frame, []).error == None
    {
      hide ControlBytes, Word32, SettingBytes;
      WriteControlFrameHeader(SETTINGS, frame.flags, |frame.settings| * 8 + 4);
      w := w + Word32(|frame.settings|);
      ghost var begun := w;
      for i := 0 to |frame.settings|
        invariant w + SettingsBytes(frame.settings[i..]) == begun + SettingsBytes(frame.settings)
      {
        var s := frame.settings[i];
        ghost var before := w;
        w := w + Word32(Combined(s.flag, s.id));
        w := w + Word32(s.value);
        SettingWritten(before, s);
        assert frame.settings[i..][1..] == frame.settings[i + 1..];
        assert before + (SettingBytes(s) + SettingsBytes(frame.settings[i + 1..]))
            == w + SettingsBytes(frame.settings[i + 1..]);
      }
      assert w + SettingsBytes(frame.settings[|frame.settings|..]) == w;
      FourParts(old(w), ControlBytes(SETTINGS, frame.flags, |frame.settings| * 8 + 4), Word32(|frame.settings|),
                SettingsBytes(frame.settings));
    }

    /** RST_STREAM, PING, GOAWAY and WINDOW_UPDATE. */
    method WritePlain(frame: Frame) returns (e: Option<Error>)
      requires frame.RstStream? || frame.Ping? || frame.GoAway? || frame.WindowUpdate?
      modifies this`w
      ensures w == old(w) + Written(frame, []).bytes && e == Written(frame, []).error
    {
      hide ControlBytes, Word32;
      match frame {
        case RstStream(id, status) =>
          if id == 0 {
            return Some(ZeroStreamId);
          }
          WriteControlFrameHeader(RST_STREAM, 0, 8);
          w := w + Word32(id);
          if status == 0 {
            return Some(InvalidControlFrame);
          }
          w := w + Word32(status);
        case Ping(id) =>
          if id == 0 {
            return Some(ZeroStreamId);
          }
          WriteControlFrameHeader(PING, 0, 4);
          w := w + Word32(id);
        case GoAway(lastGood, status) =>
          WriteControlFrameHeader(GO_AWAY, 0, 8);
          w := w + Word32(lastGood);
          w := w + Word32(status);
        case WindowUpdate(id, delta) =>
          WriteControlFrameHeader(WINDOW_UPDATE, 0, 8);
          w := w + Word32(id);
          w := w + Word32(delta);
      }
      return None;
    }

    method WriteData(frame: Frame) returns (e: Option<Error>)
      requires frame.DataFrame?
      modifies this`w
      ensures w == old(w) + Written(frame, []).bytes && e == Written(frame, []).error
    {
      hide Word32, Combined;
      if frame.streamId == 0 {
        return Some(ZeroStreamId);
      }
      if frame.streamId >= 0x8000_0000 || |frame.data| > MAX_DATA_LENGTH {
        return Some(InvalidDataFrame);
      }
      w := w + Word32(frame.streamId);
      w := w + Word32(Combined(frame.flags, |frame.data|));
      w := w + frame.data;
      return None;
    }

    method WriteFrame(frame: Frame, order: seq<Text>) returns (e: Option<Error>)
      requires KeyOrder(HeadersOf(frame), order) && headerBuf == []
      modifies this`w, this`headerBuf
      ensures headerBuf == [] && Ordered(frame, order)
      ensures w == old(w) + Written(frame, order).bytes && e == Written(frame, order).error
    {
      hide Written;
      NoKeys(frame, order);
      match frame {
        case SynStream(_, _, _, _, _, _) => e := WriteSynStream(frame, order);
        case SynReply(_, _, _) => e := WriteSynReply(frame, order);
        case HeadersFrame(_, _, _) => e := WriteHeaders(frame, order);
        case Settings(_, _) => WriteSettings(frame); e := None;
        case DataFrame(_, _, _) => e := WriteData(frame);
        case _ => e := WritePlain(frame);
      }
    }

    // -------------------------------------------------------------- reading

    method ReadWord() returns (reply: Reply<Word>)
      modifies this`r
      ensures Agrees(TakeWord(old(r)), reply, r)
    {
      match TakeWord(r) {
        case Failed(e) => return Fault(e);
        case Got(x, rest) =>
          r := rest;
          return Done(x);
      }
    }

    method ReadFull(n: nat) returns (reply: Reply<Text>)
      modifies this`r
      ensures Agrees(TakeBytes(old(r), n), reply, r)
    {
      if |r| < n {
        return Fault(Short);
      }
      var bytes := r[..n];
      r := r[n..];
      return Done(bytes);
    }

    method ReadText() returns (reply: Reply<Text>)
      modifies this`r
      ensures Agrees(TakeText(old(r)), reply, r)
    {
      hide TakeWord, TakeBytes;
      var length := ReadWord();
      if length.Fault? {
        return Fault(length.error);
      }
      reply := ReadFull(length.value);
    }

    /** One name with its values, and the error that the name may be. */
    method ParseHeader(h: Headers, e: Option<Error>) returns (reply: Reply<(Headers, Option<Error>)>)
      modifies this`r
      ensures Agrees(TakeEntry(old(r), h, e), reply, r)
    {
      hide TakeText, Canonical, Split;
      var text := ReadText();
      if text.Fault? {
        return Fault(text.error);
      }
      var name, found := text.value, e;
      if name != Lower(name) {
        found := Some(UnlowercasedHeaderName);
        name := Lower(name);
      }
      if name in h {
        found := Some(DuplicateHeaders);
      }
      var value := ReadText();
      if value.Fault? {
        return Fault(value.error);
      }
      var valueList := Split(value.value, 0);
      var added := h;
      for i := 0 to |valueList|
        invariant AddAll(added, name, valueList[i..]) == AddAll(h, name, valueList)
      {
        assert valueList[i..][1..] == valueList[i + 1..];
        added := Add(added, name, valueList[i]);
      }
      LowerTwice(text.value);
      return Done((added, found));
    }

    method ParseHeaderValueBlock() returns (reply: Reply<Headers>)
      modifies this`r
      ensures Agrees(TakeBlock(old(r)), reply, r)
    {
      hide TakeWord, TakeEntry;
      var numHeaders := ReadWord();
      if numHeaders.Fault? {
        return Fault(numHeaders.error);
      }
      var h, e := map[], None;
      ghost var goal := TakeEntries(numHeaders.value, r, h, e);
      for i := 0 to numHeaders.value
        invariant TakeEntries(numHeaders.value - i, r, h, e) == goal
      {
        var entry := ParseHeader(h, e);
        if entry.Fault? {
          return Fault(entry.error);
        }
        h, e := entry.value.0, entry.value.1;
      }
      if e.Some? {
        return Fault(e.value);
      }
      return Done(h);
    }

    method ReadSynStream(flags: Byte) returns (reply: Reply<Frame>)
      modifies this`r
      ensures Agrees(SpdyFrames.ReadSynStream(flags, old(r)), reply, r)
    {
      hide TakeWord, TakeBlock, TakeBytes, HasInvalid;
      var id := ReadWord();
      if id.Fault? { return Fault(id.error); }
      var associatedTo := ReadWord();
      if associatedTo.Fault? { return Fault(associatedTo.error); }
      var priority := ReadFull(1);
      if priority.Fault? { return Fault(priority.error); }
      var slot := ReadFull(1);
      if slot.Fault? { return Fault(slot.error); }
      var h := ParseHeaderValueBlock();
      if h.Fault? { return Fault(h.error); }
      if HasInvalid(h.value, true) { return Fault(InvalidHeaderPresent); }
      if id.value == 0 { return Fault(ZeroStreamId); }
      return Done(SynStream(flags, id.value, associatedTo.value, priority.value[0] / 32, slot.value[0], h.value));
    }

    method ReadSynReply(flags: Byte) returns (reply: Reply<Frame>)
      modifies this`r
      ensures Agrees(SpdyFrames.ReadSynReply(flags, old(r)), reply, r)
    {
      hide TakeWord, TakeBlock, HasInvalid;
      var id := ReadWord();
      if id.Fault? { return Fault(id.error); }
      var h := ParseHeaderValueBlock();
      if h.Fault? { return Fault(h.error); }
      if HasInvalid(h.value, false) { return Fault(InvalidHeaderPresent); }
      if id.value == 0 { return Fault(ZeroStreamId); }
      return Done(SynReply(flags, id.value, h.value));
    }

    method ReadHeaders(flags: Byte) returns (reply: Reply<Frame>)
      modifies this`r
      ensures Agrees(SpdyFrames.ReadHeaders(flags, old(r)), reply, r)
    {
      hide TakeWord, TakeBlock, HasInvalid;
      var id := ReadWord();
      if id.Fault? { return Fault(id.error); }
      var h := ParseHeaderValueBlock();
      if h.Fault? { return Fault(h.error); }
      if HasInvalid(h.value, id.value % 2 == 0) { return Fault(InvalidHeaderPresent); }
      if id.value == 0 { return Fault(ZeroStreamId); }
      return Done(HeadersFrame(flags, id.value, h.value));
    }

    method ReadRstStream() returns (reply: Reply<Frame>)
      modifies this`r
      ensures Agrees(SpdyFrames.ReadRstStream(old(r)), reply, r)
    {
      hide TakeWord;
      var id := ReadWord();
      if id.Fault? { return Fault(id.error); }
      var status := ReadWord();
      if status.Fault? { return Fault(status.error); }
      if status.value == 0 { return Fault(InvalidControlFrame); }
      if id.value == 0 { return Fault(ZeroStreamId); }
      return Done(RstStream(id.value, status.value));
    }

    method ReadSettings(flags: Byte) returns (reply: Reply<Frame>)
      modifies this`r
      ensures Agrees(SpdyFrames.ReadSettings(flags, old(r)), reply, r)
    {
      hide TakeWord;
      var numSettings := ReadWord();
      if numSettings.Fault? { return Fault(numSettings.error); }
      ghost var goal := TakeSettings(numSettings.value, r);
      var settings := [];
      PrependNone(goal);
      for i := 0 to numSettings.value
        invariant PrependSettings(settings, TakeSettings(numSettings.value - i, r)) == goal
      {
        ghost var before := r;
        var flagId := ReadWord();
        if flagId.Fault? { return Fault(flagId.error); }
        var value := ReadWord();
        if value.Fault? { return Fault(value.error); }
        var s := Setting(flagId.value / 0x100_0000, flagId.value % 0x100_0000, value.value);
        SettingsStep(settings, s, TakeSettings(numSettings.value - i - 1, r));
        settings := settings + [s];
      }
      assert settings + [] == settings;
      return Done(Settings(flags, settings));
    }

    method ReadPing(flags: Byte) returns (reply: Reply<Frame>)
      modifies this`r
      ensures Agrees(SpdyFrames.ReadPing(flags, old(r)), reply, r)
    {
      hide TakeWord;
      var id := ReadWord();
      if id.Fault? { return Fault(id.error); }
      if id.value == 0 { return Fault(ZeroStreamId); }
      if flags != 0 { return Fault(InvalidControlFrame); }
      return Done(Ping(id.value));
    }

    method ReadGoAway(flags: Byte, length: nat) returns (reply: Reply<Frame>)
      modifies this`r
      ensures Agrees(SpdyFrames.ReadGoAway(flags, length, old(r)), reply, r)
    {
      hide TakeWord;
      var lastGood := ReadWord();
      if lastGood.Fault? { return Fault(lastGood.error); }
      if flags != 0 { return Fault(InvalidControlFrame); }
      if length != 8 { return Fault(InvalidControlFrame); }
      var status := ReadWord();
      if status.Fault? { return Fault(status.error); }
      return Done(GoAway(lastGood.value, status.value));
    }

    method ReadWindowUpdate(flags: Byte, length: nat) returns (reply: Reply<Frame>)
      modifies this`r
      ensures Agrees(SpdyFrames.ReadWindowUpdate(flags, length, old(r)), reply, r)
    {
      hide TakeWord;
      var id := ReadWord();
      if id.Fault? { return Fault(id.error); }
      if flags != 0 { return Fault(InvalidControlFrame); }
      if length != 8 { return Fault(InvalidControlFrame); }
      var delta := ReadWord();
      if delta.Fault? { return Fault(delta.error); }
      return Done(WindowUpdate(id.value, delta.value));
    }

    method ReadControl(frameType: nat, flags: Byte, length: nat) returns (reply: Reply<Frame>)
      modifies this`r
      ensures Agrees(SpdyFrames.ReadControl(frameType, flags, length, old(r)), reply, r)
    {
      hide SpdyFrames.ReadSynStream, SpdyFrames.ReadSynReply, SpdyFrames.ReadRstStream, SpdyFrames.ReadSettings,
        SpdyFrames.ReadPing, SpdyFrames.ReadGoAway, SpdyFrames.ReadHeaders, SpdyFrames.ReadWindowUpdate;
      if frameType == SYN_STREAM {
        reply := ReadSynStream(flags);
      } else if frameType == SYN_REPLY {
        reply := ReadSynReply(flags);
      } else if frameType == RST_STREAM {
        reply := ReadRstStream();
      } else if frameType == SETTINGS {
        reply := ReadSettings(flags);
      } else if frameType == PING {
        reply := ReadPing(flags);
      } else if frameType == GO_AWAY {
        reply := ReadGoAway(flags, length);
      } else if frameType == HEADERS {
        reply := ReadHeaders(flags);
      } else if frameType == WINDOW_UPDATE {
        reply := ReadWindowUpdate(flags, length);
      } else {
        reply := Fault(InvalidControlFrame);
      }
    }

    method ParseControlFrame(frameType: nat) returns (reply: Reply<Frame>)
      modifies this`r
      ensures match TakeWord(old(r))
              case Failed(e) => reply == Fault(e)
              case Got(word, rest) =>
                Agrees(SpdyFrames.ReadControl(frameType, word / 0x100_0000, word % 0x100_0000, rest), reply, r)
    {
      hide TakeWord, SpdyFrames.ReadControl;
      var word := ReadWord();
      if word.Fault? { return Fault(word.error); }
      reply := ReadControl(frameType, word.value / 0x100_0000, word.value % 0x100_0000);
    }

    method ParseDataFrame(streamId: Word) returns (reply: Reply<Frame>)
      modifies this`r
      ensures Agrees(ReadData(streamId, old(r)), reply, r)
    {
      hide TakeWord, TakeBytes;
      var word := ReadWord();
      if word.Fault? { return Fault(word.error); }
      var data := ReadFull(word.value % 0x100_0000);
      if data.Fault? { return Fault(data.error); }
      if streamId == 0 { return Fault(ZeroStreamId); }
      return Done(DataFrame(streamId, word.value / 0x100_0000, data.value));
    }

    method ReadFrame() returns (reply: Reply<Frame>)
      modifies this`r
      ensures Agrees(Read(old(r)), reply, r)
    {
      hide TakeWord, ReadData, SpdyFrames.ReadControl;
      var first := ReadWord();
      if first.Fault? { return Fault(first.error); }
      if first.value >= 0x8000_0000 {
        reply := ParseControlFrame(first.value % 0x1_0000);
      } else {
        reply := ParseDataFrame(first.value);
      }
    }
  }

  // ------------------------------------------------------ from framer to framer

  ghost predicate AllOrdered(frames: seq<Frame>, orders: seq<seq<Text>>) {
    |orders| == |frames| && forall i :: 0 <= i < |frames| ==> Ordered(frames[i], orders[i])
  }

  ghost predicate AllValid(frames: seq<Frame>, orders: seq<seq<Text>>) {
    AllOrdered(frames, orders) && forall i :: 0 <= i < |frames| ==> Valid(frames[i], orders[i])
  }

  /** The first frame written, and the others still to come. */
  lemma FirstWritten(before: seq<Byte>, frames: seq<Frame>, orders: seq<seq<Text>>, i: nat)
    requires i < |frames| && AllValid(frames, orders)
    ensures AllOrdered(frames[i..], orders[i..]) && AllOrdered(frames[i + 1..], orders[i + 1..])
    ensures KeyOrder(HeadersOf(frames[i]), orders[i]) && Written(frames[i], orders[i]).error == None
    ensures before + AllWritten(frames[i..], orders[i..])
            == before + Written(frames[i], orders[i]).bytes + AllWritten(frames[i + 1..], orders[i + 1..])
  {
    hide Written, Read, Ordered;
    FrameBack(frames[i], orders[i], []);
    assert frames[i..][1..] == frames[i + 1..] && orders[i..][1..] == orders[i + 1..];
    var bytes, rest := Written(frames[i], orders[i]).bytes, AllWritten(frames[i + 1..], orders[i + 1..]);
    assert before + (bytes + rest) == before + bytes + rest;
  }

  /** Valid frames, written one after another, leave their bytes and no error. */
  method WriteFrames(c: Framer, frames: seq<Frame>, orders: seq<seq<Text>>)
    requires c.headerBuf == [] && AllValid(frames, orders)
    modifies c
    ensures c.w == old(c.w) + AllWritten(frames, orders)
  {
    hide Valid, Written, Ordered, KeyOrder;
    ghost var goal := c.w + AllWritten(frames, orders);
    assert frames[0..] == frames && orders[0..] == orders;
    for i := 0 to |frames|
      invariant c.headerBuf == [] && AllOrdered(frames[i..], orders[i..])
      invariant c.w + AllWritten(frames[i..], orders[i..]) == goal
    {
      FirstWritten(c.w, frames, orders, i);
      var _ := c.WriteFrame(frames[i], orders[i]);
    }
    assert c.w + [] == c.w;
  }

  /** Frames read until the input ends in front of one, or one cannot be read. */
  method ReadFrames(c: Framer) returns (frames: seq<Frame>, e: Option<Error>)
    modifies c`r
    ensures (frames, e) == ReadAll(old(c.r))
  {
    hide Read;
    ghost var (all, end) := ReadAll(c.r);
    frames := [];
    while c.r != []
      invariant frames + ReadAll(c.r).0 == all && ReadAll(c.r).1 == end
      decreases |c.r|
    {
      ghost var before := c.r;
      var reply := c.ReadFrame();
      match reply {
        case Fault(error) =>
          assert frames + [] == frames;
          return frames, Some(error);
        case Done(frame) =>
          assert ReadAll(before).0 == [frame] + ReadAll(c.r).0;
          assert frames + ([frame] + ReadAll(c.r).0) == frames + [frame] + ReadAll(c.r).0;
          frames := frames + [frame];
      }
    }
    assert frames + [] == frames;
    return frames, None;
  }

  /** What one framer writes another reads: the same frames, to the end of the stream. */
  method Transfer(frames: seq<Frame>, orders: seq<seq<Text>>) returns (received: seq<Frame>, e: Option<Error>)
    requires AllValid(frames, orders)
    ensures received == frames && e == None
  {
    hide Valid, Written, Ordered, Read;
    var sender := new Framer([]);
    WriteFrames(sender, frames, orders);
    assert sender.w == AllWritten(frames, orders);
    var receiver := new Framer(sender.w);
    received, e := ReadFrames(receiver);
    StreamBack(frames, orders);
  }

  lemma SynStreamWritten(before: seq<Byte>, control: seq<Byte>, id: seq<Byte>, associated: seq<Byte>, a: Byte, b: Byte,
                         block: seq<Byte>)
    ensures before + control + id + associated + [a] + [b] + block == before + (control + id + associated + [a,
                b] + block)
  {
    FourParts(before, control, id, associated);
    var head := control + id + associated;
    assert before + head + [a] + [b] + block == before + (head + [a, b] + block);
  }

  lemma FourParts(a: seq<Byte>, b: seq<Byte>, c: seq<Byte>, d: seq<Byte>)
    ensures a + b + c + d == a + (b + c + d)
  {
  }

  lemma EntriesNone(h: Headers, order: seq<Text>)
    requires KeyOrder(h, order)
    ensures EntriesBytes(h, order[|order|..]) == [] && order[0..] == order
  {
  }

  lemma NextEntry(before: seq<Byte>, h: Headers, order: seq<Text>, i: nat)
    requires i < |order| && KeyOrder(h, order)
    ensures before + EntryBytes(order[i], h[order[i]]) + EntriesBytes(h, order[i + 1..]) == before + EntriesBytes(h,
                order[i..])
  {
    hide EntryBytes;
    assert order[i..][1..] == order[i + 1..];
    var entry, more := EntryBytes(order[i], h[order[i]]), EntriesBytes(h, order[i + 1..]);
    assert before + entry + more == before + (entry + more);
  }

  lemma EntryWritten(before: seq<Byte>, name: Text, values: seq<Text>)
    ensures var v := Join(values, [0]);
            before + Word32(|name|) + Lower(name) + Word32(|v|) + v == before + EntryBytes(name, values)
  {
    hide Word32, Join;
    var v := Join(values, [0]);
    assert Word32(|name|) + Lower(name) + (Word32(|v|) + v) == EntryBytes(name, values);
  }

  lemma SettingWritten(before: seq<Byte>, s: Setting)
    ensures before + Word32(Combined(s.flag, s.id)) + Word32(s.value) == before + SettingBytes(s)
  {
    hide Word32, Combined;
  }

  /** A frame without headers has no keys. */
  lemma NoKeys(f: Frame, order: seq<Text>)
    requires KeyOrder(HeadersOf(f), order)
    ensures Ordered(f, order)
    ensures !(f.SynStream? || f.SynReply? || f.HeadersFrame?) ==> order == []
  {
    if !(f.SynStream? || f.SynReply? || f.HeadersFrame?) {
      FilledWhole(map[], order);
    }
  }

  /** Settings read before the others. */
  function PrependSettings(ss: seq<Setting>, o: Outcome<seq<Setting>>): Outcome<seq<Setting>> {
    match o
    case Failed(e) => Failed(e)
    case Got(more, rest) => Got(ss + more, rest)
  }

  lemma PrependNone(o: Outcome<seq<Setting>>)
    ensures PrependSettings([], o) == o
  {
    if o.Got? {
      assert [] + o.value == o.value;
    }
  }

  lemma SettingsStep(ss: seq<Setting>, s: Setting, o: Outcome<seq<Setting>>)
    ensures PrependSettings(ss, PrependSettings([s], o)) == PrependSettings(ss + [s], o)
  {
    if o.Got? {
      assert ss + ([s] + o.value) == ss + [s] + o.value;
    }
  }
}
