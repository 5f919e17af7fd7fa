/**
 * The WebSocket frame encoder of `src/frame.rs`: the header layout of
 * section 5.2 of RFC 6455 (fin bit, opcode, three length forms), the
 * convenience constructors, and the control-opcode test of section 5.5.
 *
 * The encoder never sets the mask bit, so every frame it writes is
 * unmasked; the model follows the code.  `ParseHead` and `Parse` are the
 * reading side of the same three-branch rule and serve as the partner
 * against which the encoder is proved unambiguous.
 */
module Frame {
  import opened Wrappers

  /** An octet, as the number it holds. */
  type Byte = b: nat | b < 256

  /** Bit 7, the most significant bit of a byte: FIN in the first header byte, MASK in the second. */
  predicate TopBit(b: Byte) {
    b >= 0x80
  }

  /** Bits 4-6 of a byte: RSV1-RSV3 in the first header byte. */
  function ReservedBits(b: Byte): nat {
    (b / 0x10) % 8
  }

  /** Bits 0-3 of a byte: the opcode in the first header byte. */
  function LowNibble(b: Byte): Byte {
    b % 0x10
  }

  datatype OpCode = Continuation | Text | Binary | Close | Ping | Pong

  /** The 4-bit wire value of each opcode. */
  function OpValue(op: OpCode): (v: Byte)
    ensures v < 16
    ensures OpFromValue(v) == Some(op)
  {
    match op
    case Continuation => 0x0
    case Text => 0x1
    case Binary => 0x2
    case Close => 0x8
    case Ping => 0x9
    case Pong => 0xA
  }

  /** The opcode a 4-bit wire value denotes, if it is one of the six known ones. */
  function OpFromValue(v: nat): Option<OpCode> {
    if v == 0x0 then Some(Continuation)
    else if v == 0x1 then Some(Text)
    else if v == 0x2 then Some(Binary)
    else if v == 0x8 then Some(Close)
    else if v == 0x9 then Some(Ping)
    else if v == 0xA then Some(Pong)
    else None
  }

  /**
   * Close, Ping and Pong are the control opcodes.  Section 5.5 of RFC 6455
   * characterises them as the opcodes whose most significant bit (bit 3) is set.
   */
  predicate IsControl(op: OpCode)
    ensures IsControl(op) <==> (OpValue(op) / 8) % 2 == 1
  {
    op == Close || op == Ping || op == Pong
  }

  /** A byte string whose length fits in a 64-bit `usize`. */
  type Bytes = s: seq<Byte> | |s| < 0x1_0000_0000_0000_0000

  /** A `u16`. */
  type U16 = n: nat | n < 0x1_0000

  datatype Frame = Frame(fin: bool, opcode: OpCode, payload: Bytes)

  /** 256 to the power `w`: the number of values a `w`-byte field can hold. */
  function Pow256(w: nat): (p: nat)
    ensures p > 0
  {
    if w == 0 then 1 else 256 * Pow256(w - 1)
  }

  lemma Pow256Values()
    ensures Pow256(2) == 0x1_0000
    ensures Pow256(8) == 0x1_0000_0000_0000_0000
  {
    assert Pow256(1) == 0x100;
    assert Pow256(2) == 0x1_0000;
    assert Pow256(3) == 0x100_0000;
    assert Pow256(4) == 0x1_0000_0000;
    assert Pow256(5) == 0x100_0000_0000;
    assert Pow256(6) == 0x1_0000_0000_0000;
    assert Pow256(7) == 0x100_0000_0000_0000;
  }

  /** The low `w` bytes of `n`, most significant first (big-endian, truncating). */
  function BeBytes(n: nat, w: nat): (s: seq<Byte>)
    ensures |s| == w
  {
    if w == 0 then [] else BeBytes(n / 256, w - 1) + [n % 256]
  }

  /** The number a big-endian byte string denotes. */
  function BeValue(s: seq<Byte>): nat {
    if |s| == 0 then 0 else BeValue(s[..|s| - 1]) * 256 + s[|s| - 1]
  }

  /** Reading back a big-endian field recovers any number that fits in it. */
  lemma {:induction false} BeRoundTrip(n: nat, w: nat)
    requires n < Pow256(w)
    ensures BeValue(BeBytes(n, w)) == n
  {
    if w > 0 {
      var s := BeBytes(n, w);
      var q, m := n / 256, n % 256;
      DivBound(n, Pow256(w - 1));
      BeRoundTrip(q, w - 1);
      assert s[..w - 1] == BeBytes(q, w - 1);
      assert s[w - 1] == m;
      assert BeValue(s) == BeValue(BeBytes(q, w - 1)) * 256 + m;
    }
  }

  lemma DivBound(n: nat, p: nat)
    requires n < 256 * p
    ensures n / 256 < p
  {
  }

  /** A big-endian field of `|s|` bytes never denotes more than it can hold. */
  lemma {:induction false} BeValueBound(s: seq<Byte>)
    ensures BeValue(s) < Pow256(|s|)
  {
    if |s| > 0 {
      BeValueBound(s[..|s| - 1]);
      var v := BeValue(s[..|s| - 1]);
      var p := Pow256(|s| - 1);
      assert v + 1 <= p;
      assert (v + 1) * 256 <= p * 256;
      assert BeValue(s) < (v + 1) * 256;
    }
  }

  /** The first header byte: fin in bit 7, the three reserved bits clear, the opcode in bits 0-3. */
  function FirstByte(fin: bool, op: OpCode): (b: Byte)
    ensures ReservedBits(b) == 0
    ensures TopBit(b) == fin
    ensures LowNibble(b) == OpValue(op)
  {
    (if fin then 0x80 else 0) + OpValue(op)
  }

  /**
   * `Frame::fmt_head`: the header that precedes the payload.  The length
   * takes the 7-bit form below 126, the form 126 + 16-bit big-endian below
   * 65536, and the form 127 + 64-bit big-endian otherwise.  The mask bit of
   * the second byte is never set.
   */
  function FmtHead(f: Frame): (h: seq<Byte>)
    ensures |h| >= 2 && h[0] == FirstByte(f.fin, f.opcode)
    ensures !TopBit(h[1])
    ensures |f.payload| < 126 ==> |h| == 2 && h[1] == |f.payload|
    ensures 126 <= |f.payload| < 0x1_0000 ==>
              |h| == 4 && h[1] == 126 && BeValue(h[2..]) == |f.payload|
    ensures 0x1_0000 <= |f.payload| ==>
              |h| == 10 && h[1] == 127 && BeValue(h[2..]) == |f.payload|
  {
    var len := |f.payload|;
    Pow256Values();
    if len < 126 then
      [FirstByte(f.fin, f.opcode), len]
    else if len < 0x1_0000 then
      BeRoundTrip(len, 2);
      var h := [FirstByte(f.fin, f.opcode), 126] + BeBytes(len, 2);
      assert h[2..] == BeBytes(len, 2);
      h
    else
      var h := [FirstByte(f.fin, f.opcode), 127] + BeBytes(len, 8);
      assert h[2..] == BeBytes(len, 8);
      BeRoundTrip(len, 8);
      h
  }

  /** A decoded frame header: fin, opcode, payload length and the header's own size. */
  datatype Head = Head(fin: bool, opcode: OpCode, length: nat, size: nat)

  /**
   * Reads a header with the same three-branch rule the encoder writes.
   * Fails on a short buffer, a set reserved or mask bit, or an unknown opcode.
   */
  function ParseHead(h: seq<Byte>): (r: Option<Head>)
    ensures r.Some? ==> 2 <= r.value.size <= |h|
    ensures r.Some? ==> r.value.length < 0x1_0000_0000_0000_0000
  {
    if |h| < 2 || ReservedBits(h[0]) != 0 || TopBit(h[1]) then None
    else
      match OpFromValue(LowNibble(h[0]))
      case None => None
      case Some(op) =>
        var fin := TopBit(h[0]);
        if h[1] < 126 then Some(Head(fin, op, h[1], 2))
        else if h[1] == 126 then
          if |h| < 4 then None
          else
            Pow256Values();
            BeValueBound(h[2..4]);
            Some(Head(fin, op, BeValue(h[2..4]), 4))
        else
          if |h| < 10 then None
          else
            Pow256Values();
            BeValueBound(h[2..10]);
            Some(Head(fin, op, BeValue(h[2..10]), 10))
  }

  /** Every header the encoder writes reads back as the fin bit, opcode and length it was made from. */
  lemma HeadRoundTrip(f: Frame, rest: seq<Byte>)
    ensures ParseHead(FmtHead(f) + rest)
            == Some(Head(f.fin, f.opcode, |f.payload|, |FmtHead(f)|))
  {
    var h := FmtHead(f);
    var b := h + rest;
    assert b[0] == h[0] && b[1] == h[1];
    assert OpFromValue(LowNibble(b[0])) == Some(f.opcode);
    if |h| == 4 {
      assert b[2..4] == h[2..];
    } else if |h| == 10 {
      assert b[2..10] == h[2..];
    }
  }

  /** The wire image of a frame: its header followed by the payload verbatim. */
  function Encode(f: Frame): (e: seq<Byte>)
    ensures |f.payload| + 2 <= |e| <= |f.payload| + 10
    ensures e[0] == FirstByte(f.fin, f.opcode)
    ensures e[|e| - |f.payload|..] == f.payload
  {
    FmtHead(f) + f.payload
  }

  /** Reads one complete frame off the front of `b`, with the number of bytes it occupied. */
  function Parse(b: seq<Byte>): (r: Option<(Frame, nat)>)
    ensures r.Some? ==> r.value.1 <= |b|
  {
    match ParseHead(b)
    case None => None
    case Some(hd) =>
      if |b| - hd.size < hd.length then None
      else Some((Frame(hd.fin, hd.opcode, b[hd.size..hd.size + hd.length]), hd.size + hd.length))
  }

  /** Decoding what the encoder wrote gives back the same frame, whatever follows it. */
  lemma FrameRoundTrip(f: Frame, rest: seq<Byte>)
    ensures Parse(Encode(f) + rest) == Some((f, |Encode(f)|))
  {
    var h := FmtHead(f);
    assert Encode(f) + rest == h + (f.payload + rest);
    HeadRoundTrip(f, f.payload + rest);
    var b := Encode(f) + rest;
    assert b[|h|..|h| + |f.payload|] == f.payload;
  }

  /** A frame on its own decodes back to itself, filling the whole buffer. */
  lemma EncodeParses(f: Frame)
    ensures Parse(Encode(f)) == Some((f, |Encode(f)|))
  {
    FrameRoundTrip(f, []);
    assert Encode(f) + [] == Encode(f);
  }

  /** `Frame::new`: a frame whose wire image decodes back to the given flag, opcode and payload. */
  function New(fin: bool, opcode: OpCode, payload: Bytes): (f: Frame)
    ensures Parse(Encode(f)) == Some((Frame(fin, opcode, payload), |Encode(f)|))
  {
    EncodeParses(Frame(fin, opcode, payload));
    Frame(fin, opcode, payload)
  }

  /** `Frame::binary`: a final Binary frame carrying `payload` verbatim. */
  function BinaryFrame(payload: Bytes): (f: Frame)
    ensures Encode(f)[0] == 0x82
    ensures Parse(Encode(f)) == Some((Frame(true, Binary, payload), |Encode(f)|))
  {
    var f := Frame(true, Binary, payload);
    EncodeParses(f);
    f
  }

  /** `Frame::close_raw`: a final Close frame carrying `payload` verbatim. */
  function CloseRaw(payload: Bytes): (f: Frame)
    ensures Encode(f)[0] == 0x88
    ensures Parse(Encode(f)) == Some((Frame(true, Close, payload), |Encode(f)|))
  {
    var f := Frame(true, Close, payload);
    EncodeParses(f);
    f
  }

  /** `Frame::pong`: a final Pong frame carrying `payload` verbatim. */
  function PongFrame(payload: Bytes): (f: Frame)
    ensures Encode(f)[0] == 0x8A
    ensures Parse(Encode(f)) == Some((Frame(true, Pong, payload), |Encode(f)|))
  {
    var f := Frame(true, Pong, payload);
    EncodeParses(f);
    f
  }

  /**
   * `Frame::close`: a final Close frame whose payload is the status code as
   * two big-endian bytes (section 5.5.1 of RFC 6455) followed by the reason.
   * Neither the code nor the reason is validated.
   */
  function CloseFrame(code: U16, reason: seq<Byte>): (f: Frame)
    requires |reason| < 0x1_0000_0000_0000_0000 - 2
    ensures f.fin && f.opcode == Close && IsControl(f.opcode)
    ensures |f.payload| == 2 + |reason|
    ensures BeValue(f.payload[..2]) == code
    ensures f.payload[2..] == reason
  {
    var hi: Byte := code / 256;
    var lo: Byte := code % 256;
    assert BeValue([hi, lo]) == code by {
      assert [hi, lo][..1] == [hi];
      assert [hi][..0] == [];
      assert BeValue([hi]) == hi;
      assert BeValue([hi, lo]) == (code / 256) * 256 + code % 256;
    }
    var p := [hi, lo] + reason;
    assert p[..2] == [hi, lo];
    Frame(true, Close, p)
  }

  /**
   * An in-progress output buffer (`BytesMut`): its contents and the capacity
   * reserved behind them.  Capacity is bookkeeping only; contents are what
   * the frame writer is judged by.
   */
  datatype ByteBuf = ByteBuf(bytes: seq<Byte>, capacity: nat)

  predicate ValidBuf(b: ByteBuf) {
    |b.bytes| <= b.capacity
  }

  /** Room left before the buffer must grow. */
  function Remaining(b: ByteBuf): nat
    requires ValidBuf(b)
  {
    b.capacity - |b.bytes|
  }

  /** `BytesMut::reserve`: guarantees room for `additional` more bytes and leaves the contents alone. */
  function Reserve(b: ByteBuf, additional: nat): (r: ByteBuf)
    requires ValidBuf(b)
    ensures ValidBuf(r) && r.bytes == b.bytes
    ensures Remaining(r) >= additional
  {
    if Remaining(b) >= additional then b else ByteBuf(b.bytes, |b.bytes| + additional)
  }

  /** Appends bytes, growing the capacity when they do not fit. */
  function Put(b: ByteBuf, data: seq<Byte>): (r: ByteBuf)
    requires ValidBuf(b)
    ensures ValidBuf(r) && r.bytes == b.bytes + data
  {
    var c := if Remaining(b) >= |data| then b.capacity else |b.bytes| + |data|;
    ByteBuf(b.bytes + data, c)
  }

  /**
   * `Frame::write`: reserves room when the payload does not fit, then puts
   * the header and the payload.  Earlier contents are kept, and what is
   * appended decodes back to exactly this frame.
   */
  function Write(f: Frame, buf: ByteBuf): (r: ByteBuf)
    requires ValidBuf(buf)
    ensures ValidBuf(r)
    ensures |r.bytes| == |buf.bytes| + |FmtHead(f)| + |f.payload|
    ensures r.bytes[..|buf.bytes|] == buf.bytes
    ensures Parse(r.bytes[|buf.bytes|..]) == Some((f, |r.bytes| - |buf.bytes|))
    ensures r.bytes[|r.bytes| - |f.payload|..] == f.payload
  {
    var len := |f.payload|;
    var b0 := if len > Remaining(buf) then Reserve(buf, len + MaxHeadSize - Remaining(buf)) else buf;
    var r := Put(Put(b0, FmtHead(f)), f.payload);
    AppendedFrame(buf.bytes, f);
    r
  }

  /** A frame encoded after some earlier bytes keeps them, decodes back from where they end, and ends with its payload. */
  lemma AppendedFrame(pre: seq<Byte>, f: Frame)
    ensures var b := pre + FmtHead(f) + f.payload;
            && b[..|pre|] == pre
            && Parse(b[|pre|..]) == Some((f, |b| - |pre|))
            && b[|b| - |f.payload|..] == f.payload
  {
    var b := pre + FmtHead(f) + f.payload;
    assert b[|pre|..] == Encode(f);
    EncodeParses(f);
  }

  /** Room `Frame::write` reserves for the header beyond the payload. */
  const MaxHeadSize: nat := 16
}
