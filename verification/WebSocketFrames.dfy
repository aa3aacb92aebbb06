// WebSocket frames (websocket/hybi.go): base framing and masking of sections 5.2 and 5.3
// of RFC 6455.

module WebSocketFrames {
  import opened Bytes
  import opened Wrappers

  const CONTINUATION: OpCode := 0
  const TEXT: OpCode := 1
  const BINARY: OpCode := 2
  const CLOSE: OpCode := 8
  const PING: OpCode := 9
  const PONG: OpCode := 10

  /** The opcodes that have a place in a header. */
  type OpCode = b: int | 0 <= b < 16

  /** The field of the opcode is a whole byte. */
  datatype Header = Header(fin: bool, rsv1: bool, rsv2: bool, rsv3: bool, opCode: Byte, mask: Option<seq<Byte>>)

  /** An opcode has 4 bits, and a masking key 4 bytes. */
  predicate ValidHeader(h: Header) {
    h.opCode < 16 && ValidKey(h)
  }

  predicate ValidKey(h: Header) {
    h.mask.Some? ==> |h.mask.value| == 4
  }

  // ---------------------------------------------------------------- masking

  function MaskByte(b: Byte, key: seq<Byte>, pos: nat): Byte
    requires |key| == 4
  {
    Xor(b, key[pos % 4])
  }

  /** Data masked from a running position on; without a key it stays as it is. */
  function Masked(data: seq<Byte>, mask: Option<seq<Byte>>, pos: nat): (r: seq<Byte>)
    requires mask.Some? ==> |mask.value| == 4
    ensures |r| == |data|
  {
    if mask.None? then data
    else seq(|data|, i requires 0 <= i < |data| => MaskByte(data[i], mask.value, pos + i))
  }

  lemma MaskedTwice(data: seq<Byte>, mask: Option<seq<Byte>>, pos: nat)
    requires mask.Some? ==> |mask.value| == 4
    ensures Masked(Masked(data, mask, pos), mask, pos) == data
  {
    if mask.Some? {
      var once := Masked(data, mask, pos);
      forall i | 0 <= i < |data|
        ensures MaskByte(once[i], mask.value, pos + i) == data[i]
      {
        XorTwice(data[i], mask.value[(pos + i) % 4]);
      }
    }
  }

  /** Masking by running position does not care where the data is cut. */
  lemma MaskedParts(a: seq<Byte>, b: seq<Byte>, mask: Option<seq<Byte>>, pos: nat)
    requires mask.Some? ==> |mask.value| == 4
    ensures Masked(a + b, mask, pos) == Masked(a, mask, pos) + Masked(b, mask, pos + |a|)
  {
    if mask.Some? {
      var whole, left, right := Masked(a + b, mask, pos), Masked(a, mask, pos), Masked(b, mask, pos + |a|);
      forall i | 0 <= i < |a| + |b|
        ensures whole[i] == (left + right)[i]
      {
        if i >= |a| {
          assert right[i - |a|] == MaskByte(b[i - |a|], mask.value, pos + |a| + (i - |a|));
        }
      }
    }
  }

  // ---------------------------------------------------------------- writing

  function Bit(b: bool, value: nat): nat {
    if b then value else 0
  }

  // The flags of a byte do not overlap: their bitwise "or" is a sum, and shifts and masks
  // are divisions and remainders.

  function Flags(h: Header): Byte {
    Bit(h.fin, 128) + Bit(h.rsv1, 64) + Bit(h.rsv2, 32) + Bit(h.rsv3, 16)
  }

  /** An opcode beyond its 4 bits sets flags. */
  function FirstByte(h: Header): Byte {
    Or(Flags(h), h.opCode)
  }

  /** The second byte without its mask bit. */
  function LengthCode(length: nat): (code: Byte)
    ensures code < 128
  {
    if length <= 125 then length else if length < 65536 then 126 else 127
  }

  function LengthFields(code: Byte): nat {
    if code == 126 then 2 else if code == 127 then 8 else 0
  }

  function HeaderBytes(h: Header, length: nat): seq<Byte> {
    [FirstByte(h), Bit(h.mask.Some?, 128) + LengthCode(length)]
    + BigEndian(length, LengthFields(LengthCode(length)))
    + (if h.mask.Some? then h.mask.value else [])
  }

  function FrameBytes(h: Header, msg: seq<Byte>): seq<Byte>
    requires h.mask.Some? ==> |h.mask.value| == 4
  {
    HeaderBytes(h, |msg|) + Masked(msg, h.mask, 0)
  }

  /** The length fields, each byte cut out by a shift and a mask. */
  method LengthBytes(length: nat, lengthFields: nat) returns (bs: seq<Byte>)
    ensures bs == BigEndian(length, lengthFields)
  {
    bs := [];
    for i := 0 to lengthFields
      invariant bs == BigEndian(length, lengthFields)[..i]
    {
      BigEndianAt(length, lengthFields, i);
      bs := bs + [(length / Pow256(lengthFields - 1 - i)) % 256];
    }
  }

  /** The first two bytes and the length fields. */
  method WritePrefix(h: Header, length: nat) returns (header: seq<Byte>)
    requires length < 0x8000_0000_0000_0000
    ensures header == [FirstByte(h), Bit(h.mask.Some?, 128) + LengthCode(length)]
                      + BigEndian(length, LengthFields(LengthCode(length)))
  {
    var b: Byte := 0;
    if h.fin { b := b + 0x80; }
    if h.rsv1 { b := b + 64; }
    if h.rsv2 { b := b + 32; }
    if h.rsv3 { b := b + 16; }
    b := Or(b, h.opCode);
    header := [b];
    b := if h.mask.Some? then 0x80 else 0;
    var lengthFields := 0;
    if length <= 125 {
      b := b + length;
    } else if length < 65536 {
      b := b + 126;
      lengthFields := 2;
    } else {
      b := b + 127;
      lengthFields := 8;
    }
    header := header + [b];
    var bs := LengthBytes(length, lengthFields);
    header := header + bs;
  }

  method MaskData(msg: seq<Byte>, key: seq<Byte>) returns (data: seq<Byte>)
    requires |key| == 4
    ensures data == Masked(msg, Some(key), 0)
  {
    data := [];
    for i := 0 to |msg|
      invariant |data| == i && forall k :: 0 <= k < i ==> data[k] == MaskByte(msg[k], key, k)
    {
      data := data + [Xor(msg[i], key[i % 4])];
    }
  }

  /** hybiFrameWriter.Write: what it sends, or ErrBadMaskingKey with nothing sent. */
  method WriteFrame(h: Header, msg: seq<Byte>) returns (r: Result<seq<Byte>>)
    requires |msg| < 0x8000_0000_0000_0000
    ensures r == if h.mask.Some? && |h.mask.value| != 4 then Err else Ok(FrameBytes(h, msg))
  {
    var header := WritePrefix(h, |msg|);
    if h.mask.Some? {
      if |h.mask.value| != 4 {
        return Err;
      }
      header := header + h.mask.value;
      var data := MaskData(msg, h.mask.value);
      return Ok(header + data);
    }
    return Ok(header + [] + msg);
  }

  // ---------------------------------------------------------------- reading

  /** The int64 congruent to x modulo 2^64. */
  function Wrap64(x: int): int {
    (x + 0x8000_0000_0000_0000) % 0x1_0000_0000_0000_0000 - 0x8000_0000_0000_0000
  }

  datatype Parsed = Short | Parsed(h: Header, length: int, rest: seq<Byte>)

  function HeaderOf(first: Byte, mask: Option<seq<Byte>>): Header {
    Header(first / 128 % 2 != 0, first / 64 % 2 != 0, first / 32 % 2 != 0, first / 16 % 2 != 0, first % 16, mask)
  }

  /** What NewFrameReader makes of the bytes ahead; Short is the end of input inside the header. */
  function ParseHeader(s: seq<Byte>): Parsed {
    if |s| < 2 then Short
    else
      var code := s[1] % 128;
      var fields := LengthFields(code);
      var masked := s[1] >= 128;
      var size := 2 + fields + (if masked then 4 else 0);
      if |s| < size then Short
      else
        var length := if fields == 0 then code else Wrap64(Value(s[2..2 + fields]));
        Parsed(HeaderOf(s[0], if masked then Some(s[2 + fields..size]) else None), length, s[size..])
  }

  lemma FirstByteFields(h: Header)
    requires ValidHeader(h)
    ensures HeaderOf(FirstByte(h), h.mask) == h
  {
    FlagsMultiple(h);
    OrLow(Flags(h), h.opCode);
    FieldsOfSum(h);
    hide Flags, HeaderOf, Or;
  }

  lemma FlagsMultiple(h: Header)
    ensures Flags(h) % 16 == 0
  {
    assert Flags(h) == 16 * (Bit(h.fin, 8) + Bit(h.rsv1, 4) + Bit(h.rsv2, 2) + Bit(h.rsv3, 1));
  }

  lemma FieldsOfSum(h: Header)
    requires ValidHeader(h)
    ensures Flags(h) + h.opCode < 256 && HeaderOf(Flags(h) + h.opCode, h.mask) == h
  {
    var b := Flags(h) + h.opCode;
    assert b / 128 == Bit(h.fin, 1);
    assert b / 64 == Bit(h.fin, 2) + Bit(h.rsv1, 1);
    assert b / 32 == Bit(h.fin, 4) + Bit(h.rsv1, 2) + Bit(h.rsv2, 1);
    assert b / 16 == Bit(h.fin, 8) + Bit(h.rsv1, 4) + Bit(h.rsv2, 2) + Bit(h.rsv3, 1);
  }

  /** Four pieces found again in their concatenation. */
  lemma Pieces(a: seq<Byte>, b: seq<Byte>, c: seq<Byte>, d: seq<Byte>)
    ensures var s := a + b + c + d;
      && |s| == |a| + |b| + |c| + |d| && s[..|a|] == a && s[|a|..|a| + |b|] == b
      && s[|a| + |b|..|a| + |b| + |c|] == c && s[|a| + |b| + |c|..] == d
  {
  }

  /** The length comes back through its 7, 16 or 64 bit form. */
  lemma LengthReadsBack(length: nat)
    requires length < 0x8000_0000_0000_0000
    ensures var code := LengthCode(length);
      var fields := LengthFields(code);
      length == if fields == 0 then code else Wrap64(Value(BigEndian(length, fields)))
  {
    if length > 125 {
      var fields := LengthFields(LengthCode(length));
      PowersOf256();
      ValueOfBigEndian(length, fields);
    }
  }

  lemma PowersOf256()
    ensures Pow256(2) == 65536 && Pow256(8) == 0x1_0000_0000_0000_0000
  {
    assert Pow256(2) == 256 * Pow256(1);
    assert Pow256(4) == 256 * (256 * Pow256(2));
    assert Pow256(6) == 256 * (256 * Pow256(4));
    assert Pow256(8) == 256 * (256 * Pow256(6));
  }

  /** The length a reader takes from the 7-bit code and the length fields. */
  function LengthRead(code: Byte, ext: seq<Byte>): int {
    if LengthFields(code) == 0 then code else Wrap64(Value(ext))
  }

  lemma ParsePieces(first: Byte, second: Byte, ext: seq<Byte>, key: seq<Byte>, rest: seq<Byte>)
    requires |ext| == LengthFields(second % 128) && |key| == (if second >= 128 then 4 else 0)
    ensures ParseHeader([first, second] + ext + key + rest)
            == Parsed(HeaderOf(first, if second >= 128 then Some(key) else None), LengthRead(second % 128, ext), rest)
  {
    var s := [first, second] + ext + key + rest;
    Pieces([first, second], ext, key, rest);
    assert s[0] == s[..2][0] && s[1] == s[..2][1];
  }

  function KeyBytes(h: Header): seq<Byte> {
    if h.mask.Some? then h.mask.value else []
  }

  function SecondByte(h: Header, length: nat): Byte {
    Bit(h.mask.Some?, 128) + LengthCode(length)
  }

  lemma HeaderPieces(h: Header, length: nat, rest: seq<Byte>)
    ensures HeaderBytes(h, length) + rest
            == [FirstByte(h), SecondByte(h, length)] + BigEndian(length, LengthFields(LengthCode(length)))
               + KeyBytes(h) + rest
  {
  }

  /**
   * Parsing what WriteFrame sends gives back the length, and stops at the payload; it gives back the
   * header exactly when the opcode has 4 bits.
   */
  lemma HeaderReadsBack(h: Header, length: nat, rest: seq<Byte>)
    requires ValidKey(h) && length < 0x8000_0000_0000_0000
    ensures var parsed := ParseHeader(HeaderBytes(h, length) + rest);
      && parsed.Parsed? && parsed.length == length && parsed.rest == rest && parsed.h.mask == h.mask
      && (parsed.h == h <==> h.opCode < 16)
  {
    var second := SecondByte(h, length);
    assert second % 128 == LengthCode(length) && (second >= 128 <==> h.mask.Some?);
    var ext := BigEndian(length, LengthFields(second % 128));
    HeaderPieces(h, length, rest);
    ParsePieces(FirstByte(h), second, ext, KeyBytes(h), rest);
    if h.opCode < 16 {
      FirstByteFields(h);
    }
    LengthReadsBack(length);
  }

  // ---------------------------------------------------------- the wire format

  /** Section 5.2 of RFC 6455: flags and opcode, mask bit and length, length fields, key. */
  lemma HeaderLayout(h: Header, length: nat)
    requires ValidHeader(h) && length < 0x8000_0000_0000_0000
    ensures var bytes := HeaderBytes(h, length);
      var fields := if length <= 125 then 0 else if length <= 65535 then 2 else 8;
      && |bytes| == 2 + fields + (if h.mask.Some? then 4 else 0)
      && bytes[0] == (if h.fin then 128 else 0) + (if h.rsv1 then 64 else 0) + (if h.rsv2 then 32 else 0)
                     + (if h.rsv3 then 16 else 0) + h.opCode
      && bytes[1] == (if h.mask.Some? then 128 else 0)
                     + (if length <= 125 then length else if length <= 65535 then 126 else 127)
      && bytes[2..2 + fields] == BigEndian(length, fields)
      && (h.mask.Some? ==> bytes[2 + fields..] == h.mask.value)
  {
    FlagsMultiple(h);
    OrLow(Flags(h), h.opCode);
    hide Or;
    var fields := LengthFields(LengthCode(length));
    Pieces([FirstByte(h), SecondByte(h, length)], BigEndian(length, fields), KeyBytes(h), []);
    assert HeaderBytes(h, length)
        == [FirstByte(h), SecondByte(h, length)] + BigEndian(length, fields) + KeyBytes(h) + [];
  }

  const HELLO: seq<Byte> := [0x48, 0x65, 0x6c, 0x6c, 0x6f]
  const EXAMPLE_KEY: seq<Byte> := [0x37, 0xfa, 0x21, 0x3d]

  lemma LastXor()
    ensures Xor(0x6f, 0x37) == 0x58
  {
  }

  lemma FourXor()
    ensures Xor(0x48, 0x37) == 0x7f && Xor(0x65, 0xfa) == 0x9f
    ensures Xor(0x6c, 0x21) == 0x4d && Xor(0x6c, 0x3d) == 0x51
  {
  }

  lemma HelloMasked()
    ensures Masked(HELLO, Some(EXAMPLE_KEY), 0) == [0x7f, 0x9f, 0x4d, 0x51, 0x58]
  {
    hide Xor;
    FourXor();
    LastXor();
    var m := Masked(HELLO, Some(EXAMPLE_KEY), 0);
    assert m[0] == Xor(0x48, 0x37) && m[1] == Xor(0x65, 0xfa) && m[2] == Xor(0x6c, 0x21);
    assert m[3] == Xor(0x6c, 0x3d) && m[4] == Xor(0x6f, 0x37);
  }

  lemma HelloPlain()
    ensures Masked(HELLO, None, 0) == HELLO
  {
  }

  lemma ShortFrame(h: Header, msg: seq<Byte>)
    requires ValidHeader(h) && |msg| <= 125
    ensures FrameBytes(h, msg)
            == [Flags(h) + h.opCode, (if h.mask.Some? then 128 else 0) + |msg|] + KeyBytes(h) + Masked(msg, h.mask, 0)
  {
    FlagsMultiple(h);
    OrLow(Flags(h), h.opCode);
    hide Or, Masked, Flags;
    assert BigEndian(|msg|, 0) == [];
  }

  /** The examples of section 5.7 of RFC 6455: a text frame, masked and not, and a masked pong. */
  lemma Rfc6455Examples(text: Header, masked: Header, pong: Header)
    requires text == Header(true, false, false, false, 1, None)
    requires masked == Header(true, false, false, false, 1, Some([0x37, 0xfa, 0x21, 0x3d]))
    requires pong == Header(true, false, false, false, 10, Some([0x37, 0xfa, 0x21, 0x3d]))
    ensures FrameBytes(text, HELLO) == [0x81, 0x05] + [0x48, 0x65, 0x6c, 0x6c, 0x6f]
    ensures FrameBytes(masked, HELLO) == [0x81, 0x85] + [0x37, 0xfa, 0x21, 0x3d] + [0x7f, 0x9f, 0x4d, 0x51, 0x58]
    ensures FrameBytes(pong, HELLO) == [0x8a, 0x85] + [0x37, 0xfa, 0x21, 0x3d] + [0x7f, 0x9f, 0x4d, 0x51, 0x58]
  {
    hide FrameBytes, Masked, Xor;
    ShortFrame(text, HELLO);
    ShortFrame(masked, HELLO);
    ShortFrame(pong, HELLO);
    HelloMasked();
    HelloPlain();
  }
}
