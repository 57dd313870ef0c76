/** The frame codec of the chat transport (chatProto/websockets/websocket.go): a hand-written
    subset of the base framing layout of section 5.2 of RFC 6455. A frame always travels in one
    fixed buffer of FrameSize bytes; the length is either the 7-bit field or the marker 126 plus a
    16-bit big-endian extended length, never the 64-bit form. The 4-byte masking key is copied into
    the header, but the payload is never XORed with it (so this is not masking as in section 5.3). */
module Frames {
  import opened Common

  type byte = bv8

  const FrameSize: nat := 1024

  const FinalBit: byte := 0x80
  const MaskBit: byte := 0x80
  const OpcodeMask: byte := 0x0F
  const LenMask: byte := 0x7F

  const ContinuationFrame: byte := 0x00
  const TextFrame: byte := 0x01
  const BinaryFrame: byte := 0x02
  const ConnectionCloseFrame: byte := 0x08
  const PingFrame: byte := 0x09
  const PongFrame: byte := 0x0A
  /** The private "length frame" opcode (a value section 5.2 of RFC 6455 reserves for control frames). */
  const LenFrame: byte := 0x0B

  /** wsFrame. The opcode is a whole byte, as in the source, so that an opcode above 0x0F can be
      written (it then spills into the FIN and RSV bits). */
  datatype Frame = Frame(endFrame: bool, opcode: byte, masked: bool, mask: seq<byte>, payload: seq<byte>)

  /** The three WSFrameBuildError conditions of write. */
  datatype BuildError =
    | PayloadTooLong
    | MaskPartial(copied: nat, total: nat)
    | PayloadPartial(copied: nat, total: nat)

  /** A Go runtime panic of parseFrame: the payload slice runs past the end of the buffer. */
  datatype ParseFault = SliceOutOfRange(end: nat)

  function Min(a: int, b: int): int
  {
    if a <= b then a else b
  }

  /** computeHeaderLen: the number of header bytes in front of a payload of the given length: the
      length field as write lays it out, then the 4-byte key of a masked frame. */
  function ComputeHeaderLen(payloadLen: int, masked: bool): (h: nat)
    ensures payloadLen >= 0 ==> h == LengthEnd(payloadLen) + (if masked then 4 else 0)
  {
    if payloadLen <= 125 then (if masked then 6 else 2) else (if masked then 8 else 4)
  }

  /** Go's copy(buf[at:], data): as many bytes of `data` as fit, the rest of `buf` untouched. */
  function CopyInto(buf: seq<byte>, at: nat, data: seq<byte>): (r: seq<byte>)
    requires at <= |buf|
    ensures |r| == |buf|
    ensures r[..at] == buf[..at]
    ensures r[at..at + Min(|buf| - at, |data|)] == data[..Min(|buf| - at, |data|)]
    ensures r[at + Min(|buf| - at, |data|)..] == buf[at + Min(|buf| - at, |data|)..]
  {
    var n := Min(|buf| - at, |data|);
    buf[..at] + data[..n] + buf[at + n..]
  }

  /** What write leaves in the buffer, and the error it returns. */
  datatype Written = Written(buf: seq<byte>, err: Option<BuildError>)

  /** The first two header bytes after write ORed FIN, opcode and the mask bit into them. */
  function StampFlags(buf: seq<byte>, f: Frame): (r: seq<byte>)
    requires |buf| == FrameSize
    ensures |r| == FrameSize
  {
    var b0 := (if f.endFrame then buf[0] | FinalBit else buf[0]) | f.opcode;
    var b1 := if f.masked then buf[1] | MaskBit else buf[1];
    buf[0 := b0][1 := b1]
  }

  /** The index just past the length field. */
  function LengthEnd(n: nat): nat
  {
    if n < 126 then 2 else 4
  }

  /** The buffer once the length field has been written too. */
  function StampHeader(buf: seq<byte>, f: Frame): (r: seq<byte>)
    requires |buf| == FrameSize && |f.payload| < FrameSize
    ensures |r| == FrameSize
  {
    var n := |f.payload|;
    var b := StampFlags(buf, f);
    if n < 126 then b[1 := b[1] | n as byte]
    else b[1 := b[1] | 126][2 := (n / 256) as byte][3 := (n % 256) as byte]
  }

  /** wsFrame.write on a buffer of FrameSize bytes: ORs FIN/opcode into byte 0 and the mask bit and
      length into byte 1, stores the extended length big-endian in bytes 2-3, then copies the key
      and the payload. A failing write leaves behind what it had written before the failure. */
  function WriteResult(buf: seq<byte>, f: Frame): (w: Written)
    requires |buf| == FrameSize
    ensures |w.buf| == FrameSize
  {
    var n := |f.payload|;
    if n >= FrameSize then Written(StampFlags(buf, f), Some(PayloadTooLong))
    else
      var hdr := StampHeader(buf, f);
      var next := LengthEnd(n);
      var keyLen := Min(4, |f.mask|);
      var keyed := if f.masked then CopyInto(hdr, next, f.mask[..keyLen]) else hdr;
      if f.masked && keyLen != |f.mask| then Written(keyed, Some(MaskPartial(keyLen, |f.mask|)))
      else
        var start := if f.masked then next + 4 else next;
        var copied := Min(FrameSize - start, n);
        var out := CopyInto(keyed, start, f.payload);
        if copied != n then Written(out, Some(PayloadPartial(copied, n))) else Written(out, None)
  }

  /** Go's copy(dst[lo:hi], src) on an array: returns how many bytes were copied. */
  method Copy(dst: array<byte>, lo: nat, hi: nat, src: seq<byte>) returns (n: nat)
    requires lo <= hi <= dst.Length
    modifies dst
    ensures n == Min(hi - lo, |src|)
    ensures dst[..] == old(dst[..])[..lo] + src[..n] + old(dst[..])[lo + n..]
  {
    n := Min(hi - lo, |src|);
    forall i | lo <= i < lo + n {
      dst[i] := src[i - lo];
    }
  }

  /** wsFrame.write, in place on the caller's buffer. */
  method Write(f: Frame, buf: array<byte>) returns (err: Option<BuildError>)
    requires buf.Length == FrameSize
    modifies buf
    ensures Written(buf[..], err) == WriteResult(old(buf[..]), f)
  {
    ghost var orig := buf[..];
    var next, fits := WriteHeader(f, buf);
    if !fits {
      WriteStops(orig, f);
      return Some(PayloadTooLong);
    }
    err := WriteBody(f, buf, next, orig);
  }

  /** The rest of write once the header is in place: the key when masked, then the payload. */
  method WriteBody(f: Frame, buf: array<byte>, next: nat, ghost orig: seq<byte>) returns (err: Option<BuildError>)
    requires buf.Length == FrameSize == |orig| && |f.payload| < FrameSize
    requires buf[..] == StampHeader(orig, f) && next == LengthEnd(|f.payload|)
    modifies buf
    ensures Written(buf[..], err) == WriteResult(orig, f)
  {
    var n := |f.payload|;
    var start := next;
    ghost var hdr := buf[..];
    if f.masked {
      var copied := Copy(buf, next, next + 4, f.mask);
      if copied != |f.mask| {
        WriteStops(orig, f);
        assert buf[..] == CopyInto(hdr, next, f.mask[..4]);
        return Some(MaskPartial(copied, |f.mask|));
      }
      assert |f.mask| <= 4;
      assert buf[..] == CopyInto(hdr, next, f.mask[..|f.mask|]);
      start := next + 4;
    }
    ghost var keyed := buf[..];
    var copied := Copy(buf, start, FrameSize, f.payload);
    err := if copied != n then Some(PayloadPartial(copied, n)) else None;
    WriteTail(orig, f, keyed);
    assert buf[..] == CopyInto(keyed, start, f.payload);
  }

  /** The header part of write: the flag bits, then the 7-bit or 16-bit payload length, unless the
      payload cannot fit in a buffer at all. */
  method WriteHeader(f: Frame, buf: array<byte>) returns (next: nat, fits: bool)
    requires buf.Length == FrameSize
    modifies buf
    ensures fits <==> |f.payload| < FrameSize
    ensures !fits ==> buf[..] == StampFlags(old(buf[..]), f)
    ensures fits ==> buf[..] == StampHeader(old(buf[..]), f) && next == LengthEnd(|f.payload|)
  {
    ghost var orig := buf[..];
    WriteFlags(f, buf);
    next := 2;
    var n := |f.payload|;
    if n < 126 {
      buf[1] := buf[1] | n as byte;
    } else if n < FrameSize {
      buf[1] := buf[1] | 126;
      buf[2] := (n / 256) as byte;
      buf[3] := (n % 256) as byte;
      next := next + 2;
    } else {
      return next, false;
    }
    assert buf[..] == StampHeader(orig, f);
    fits := true;
  }

  /** The flag bits of write: FIN and the opcode into byte 0, the mask bit into byte 1. */
  method WriteFlags(f: Frame, buf: array<byte>)
    requires buf.Length == FrameSize
    modifies buf
    ensures buf[..] == StampFlags(old(buf[..]), f)
  {
    if f.endFrame {
      buf[0] := buf[0] | FinalBit;
    }
    buf[0] := buf[0] | f.opcode;
    if f.masked {
      buf[1] := buf[1] | MaskBit;
    }
  }

  /** The two early exits of write: a payload too long for the buffer, and a key longer than four
      bytes, of which only four fit. */
  lemma WriteStops(orig: seq<byte>, f: Frame)
    requires |orig| == FrameSize
    ensures |f.payload| >= FrameSize ==> WriteResult(orig, f) == Written(StampFlags(orig, f), Some(PayloadTooLong))
    ensures |f.payload| < FrameSize && f.masked && |f.mask| > 4 ==>
      WriteResult(orig, f) ==
        Written(CopyInto(StampHeader(orig, f), LengthEnd(|f.payload|), f.mask[..4]), Some(MaskPartial(4, |f.mask|)))
  {
  }

  /** The last step of write: once the header and the key are in place, the payload copy decides
      the result. */
  lemma WriteTail(orig: seq<byte>, f: Frame, keyed: seq<byte>)
    requires |orig| == FrameSize && |f.payload| < FrameSize
    requires f.masked ==> |f.mask| <= 4
    requires var hdr := StampHeader(orig, f);
      keyed == if f.masked then CopyInto(hdr, LengthEnd(|f.payload|), f.mask[..|f.mask|]) else hdr
    ensures var n := |f.payload|;
      var start := if f.masked then LengthEnd(n) + 4 else LengthEnd(n);
      var copied := Min(FrameSize - start, n);
      WriteResult(orig, f) ==
        Written(CopyInto(keyed, start, f.payload), if copied != n then Some(PayloadPartial(copied, n)) else None)
  {
  }

  /** The 16-bit big-endian number in bytes `i` and `i + 1`. */
  function BigEndian16(buf: seq<byte>, i: nat): (k: nat)
    requires i + 2 <= |buf|
    ensures k < 65536
  {
    (buf[i] as nat) * 256 + buf[i + 1] as nat
  }

  /** parseFrame on a buffer of FrameSize bytes. A declared length that runs past the end of the
      buffer makes the Go slice expression panic; that is the error result here. The length field
      127 is taken as a literal length of 127. */
  function ParseFrame(buf: seq<byte>): (r: Result<Frame, ParseFault>)
    requires |buf| == FrameSize
    ensures r.Ok? ==> r.value.opcode <= 0x0F && |r.value.payload| < 65536
    ensures r.Ok? ==> (r.value.masked <==> |r.value.mask| == 4) && (!r.value.masked ==> r.value.mask == [])
    ensures var len7 := buf[1] & LenMask;
      var plen := if len7 == 126 then BigEndian16(buf, 2) else len7 as nat;
      var start := (if len7 == 126 then 4 else 2) + (if buf[1] & MaskBit == 0x80 then 4 else 0);
      && (r.Err? <==> start + plen > FrameSize)
      && (r.Err? ==> r.error == SliceOutOfRange(start + plen))
      && (r.Ok? ==> r.value.payload == buf[start..start + plen])
    ensures var next := if buf[1] & LenMask == 126 then 4 else 2;
      r.Ok? ==>
        && r.value.endFrame == (buf[0] & FinalBit == 0x80)
        && r.value.opcode == buf[0] & OpcodeMask
        && r.value.masked == (buf[1] & MaskBit == 0x80)
        && (r.value.masked ==> r.value.mask == buf[next..next + 4])
  {
    var payloadLen := buf[1] & LenMask;
    var extended := payloadLen == 126;
    var plen := if extended then BigEndian16(buf, 2) else payloadLen as nat;
    ParseBody(buf, buf[0] & FinalBit == 0x80, buf[0] & OpcodeMask, buf[1] & MaskBit == 0x80, extended, plen)
  }

  /** The rest of parseFrame once the flags and the payload length have been decoded: the key
      follows the length field, the payload follows the key. */
  function ParseBody(buf: seq<byte>, fin: bool, opcode: byte, masked: bool, extended: bool, plen: nat)
    : (r: Result<Frame, ParseFault>)
    requires |buf| == FrameSize && opcode <= 0x0F && plen < 65536
    ensures r.Ok? ==> r.value.opcode == opcode && |r.value.payload| == plen
    ensures r.Ok? ==> (r.value.masked <==> |r.value.mask| == 4) && (!r.value.masked ==> r.value.mask == [])
    ensures var start := (if extended then 4 else 2) + (if masked then 4 else 0);
      && (r.Err? <==> start + plen > FrameSize)
      && (r.Err? ==> r.error == SliceOutOfRange(start + plen))
      && (r.Ok? ==> r.value.payload == buf[start..start + plen])
    ensures var next := if extended then 4 else 2;
      r.Ok? ==> r.value.endFrame == fin && r.value.masked == masked && (masked ==> r.value.mask == buf[next..next + 4])
  {
    var next := if extended then 4 else 2;
    var key := if masked then buf[next..next + 4] else [];
    var start := if masked then next + 4 else next;
    if start + plen > FrameSize then Err(SliceOutOfRange(start + plen))
    else Ok(Frame(fin, opcode, masked, key, buf[start..start + plen]))
  }

  /** A fresh buffer, as make([]byte, FRAME_SIZE) gives it. */
  function Zeros(): (z: seq<byte>)
    ensures |z| == FrameSize
  {
    seq(FrameSize, _ => 0)
  }

  /** The buffer write produces from a fresh buffer. */
  function Encode(f: Frame): (b: seq<byte>)
    ensures |b| == FrameSize
  {
    WriteResult(Zeros(), f).buf
  }

  /** A frame write accepts and parseFrame gives back: opcode within its 4 bits, a payload that
      fits the buffer behind its header, and a 4-byte key when masked. */
  predicate Encodable(f: Frame)
  {
    && f.opcode <= 0x0F
    && |f.payload| < FrameSize
    && ComputeHeaderLen(|f.payload|, f.masked) + |f.payload| <= FrameSize
    && (f.masked ==> |f.mask| == 4)
  }

  /** The frame as the parser returns it: no key when unmasked. */
  function Normalized(f: Frame): Frame
  {
    f.(mask := if f.masked then f.mask else [])
  }

  /** The bits of a header byte: a flag in the top bit and a value in the low seven. */
  lemma HeaderByte(flag: bool, low: byte)
    requires low < 0x80
    ensures var b: byte := (if flag then 0x80 else 0) | low;
      (b & 0x80 == 0x80) == flag && b & 0x7F == low
  {
  }

  /** The first header byte of a frame with a 4-bit opcode: FIN in the top bit, the opcode in the
      low four. */
  lemma FirstByte(fin: bool, opcode: byte)
    requires opcode <= 0x0F
    ensures var b: byte := (if fin then 0x80 else 0) | opcode;
      (b & 0x80 == 0x80) == fin && b & 0x0F == opcode
  {
  }

  /** The extended length survives its big-endian split. */
  lemma ExtendedLength(n: nat)
    requires n < 65536
    ensures ((n / 256) as byte) as nat * 256 + ((n % 256) as byte) as nat == n
  {
    var hi, lo := n / 256, n % 256;
    assert hi < 256 && lo < 256 && hi * 256 + lo == n;
    ByteValue(hi);
    ByteValue(lo);
  }

  /** A 7-bit length below 126 stays below the 126 marker as a byte. */
  lemma ShortLength(n: nat)
    requires n < 126
    ensures n as byte < 126 && (n as byte) as nat == n
  {
    ByteValue(n);
    ByteBelow(n as byte);
  }

  lemma ByteBelow(x: byte)
    requires x as nat < 126
    ensures x < 126
  {
  }

  /** A number below 256 survives the conversion to a byte and back. */
  lemma ByteValue(k: nat)
    requires k < 256
    ensures (k as byte) as nat == k
  {
    assert k % 256 == k;
  }

  /** Header layout on a buffer whose first two bytes are zero, as in a fresh one (section 5.2 of
      RFC 6455, restricted): byte 0 is FIN<<7 | opcode; byte 1 is MASK<<7 | length for a length
      under 126, MASK<<7 | 126 otherwise with the length big-endian in bytes 2-3. */
  lemma HeaderLayout(buf: seq<byte>, f: Frame)
    requires |buf| == FrameSize && buf[0] == 0 && buf[1] == 0 && |f.payload| < FrameSize
    ensures var b := WriteResult(buf, f).buf; var n := |f.payload|;
      && b[0] == (if f.endFrame then 0x80 else 0) | f.opcode
      && b[1] == (if f.masked then 0x80 else 0) | (if n < 126 then n as byte else 126)
      && (n >= 126 ==> b[2] == (n / 256) as byte && b[3] == (n % 256) as byte)
  {
    WriteKeepsHeader(buf, f);
    SamePrefix(WriteResult(buf, f).buf, StampHeader(buf, f), LengthEnd(|f.payload|));
    HeaderBytes(buf, f);
  }

  /** The first two bytes of the header write stamps on a buffer that starts with two zeros. */
  lemma HeaderBytes(buf: seq<byte>, f: Frame)
    requires |buf| == FrameSize && buf[0] == 0 && buf[1] == 0 && |f.payload| < FrameSize
    ensures var h := StampHeader(buf, f); var n := |f.payload|;
      && h[0] == (if f.endFrame then 0x80 else 0) | f.opcode
      && h[1] == (if f.masked then 0x80 else 0) | (if n < 126 then n as byte else 126)
  {
  }

  /** Copying the key and the payload leaves the header alone. */
  lemma WriteKeepsHeader(buf: seq<byte>, f: Frame)
    requires |buf| == FrameSize && |f.payload| < FrameSize
    ensures var e := LengthEnd(|f.payload|);
      WriteResult(buf, f).buf[..e] == StampHeader(buf, f)[..e]
  {
  }

  /** Two sequences with the same prefix agree at every index in it. */
  lemma SamePrefix(a: seq<byte>, b: seq<byte>, e: nat)
    requires e <= |a| && e <= |b| && a[..e] == b[..e]
    ensures forall i :: 0 <= i < e ==> a[i] == b[i]
  {
    forall i | 0 <= i < e
      ensures a[i] == b[i]
    {
      assert a[i] == a[..e][i];
    }
  }


  /** write succeeds exactly when the payload is shorter than a frame, a key is at most 4 bytes,
      and header plus payload fit; each failure is reported with its own error. */
  lemma WriteFailures(buf: seq<byte>, f: Frame)
    requires |buf| == FrameSize
    ensures var w := WriteResult(buf, f); var n := |f.payload|;
      && (w.err == None <==>
            n < FrameSize && (f.masked ==> |f.mask| <= 4) && ComputeHeaderLen(n, f.masked) + n <= FrameSize)
      && (n >= FrameSize ==> w.err == Some(PayloadTooLong))
      && (n < FrameSize && f.masked && |f.mask| > 4 ==> w.err == Some(MaskPartial(4, |f.mask|)))
  {
  }

  /** computeHeaderLen agrees with write: the payload starts exactly that many bytes into the
      buffer, and everything behind it is left as it was. */
  lemma HeaderLenIsPayloadOffset(buf: seq<byte>, f: Frame)
    requires |buf| == FrameSize
    requires WriteResult(buf, f).err == None
    ensures var h := ComputeHeaderLen(|f.payload|, f.masked); var w := WriteResult(buf, f).buf;
      && h + |f.payload| <= FrameSize
      && w[h..h + |f.payload|] == f.payload
      && w[h + |f.payload|..] == buf[h + |f.payload|..]
  {
    var n := |f.payload|;
    WriteFailures(buf, f);
    var hdr := StampHeader(buf, f);
    var keyed := if f.masked then CopyInto(hdr, LengthEnd(n), f.mask[..|f.mask|]) else hdr;
    WriteTail(buf, f, keyed);
    var start := if f.masked then LengthEnd(n) + 4 else LengthEnd(n);
    assert start == ComputeHeaderLen(n, f.masked);
    var out := CopyInto(keyed, start, f.payload);
    assert out[start..start + n] == f.payload[..n] == f.payload;
    assert keyed[start + n..] == hdr[start + n..] == buf[start + n..];
  }


  /** With a 4-byte key, write puts the key right behind the length field. */
  lemma KeyOffset(buf: seq<byte>, f: Frame)
    requires |buf| == FrameSize
    requires WriteResult(buf, f).err == None && f.masked && |f.mask| == 4
    ensures var e := LengthEnd(|f.payload|); WriteResult(buf, f).buf[e..e + 4] == f.mask
  {
    var n := |f.payload|;
    var next := LengthEnd(n);
    var keyed := CopyInto(StampHeader(buf, f), next, f.mask[..4]);
    assert keyed[next..next + 4] == f.mask;
    var out := CopyInto(keyed, next + 4, f.payload);
    assert WriteResult(buf, f).buf == out;
    assert out[..next + 4] == keyed[..next + 4];
    assert out[next..next + 4] == out[..next + 4][next..];
  }

  /** The header fields parseFrame decodes from the two header bytes write produces; the 64-bit
      length marker 127 never appears. */
  lemma HeaderFields(b0: byte, b1: byte, f: Frame)
    requires f.opcode <= 0x0F && |f.payload| < FrameSize
    requires b0 == (if f.endFrame then 0x80 else 0) | f.opcode
    requires b1 == (if f.masked then 0x80 else 0) | (if |f.payload| < 126 then |f.payload| as byte else 126)
    ensures (b0 & FinalBit == 0x80) == f.endFrame && b0 & OpcodeMask == f.opcode
    ensures (b1 & MaskBit == 0x80) == f.masked
    ensures b1 & LenMask == (if |f.payload| < 126 then |f.payload| as byte else 126)
    ensures (b1 & LenMask == 126) == (|f.payload| >= 126) && b1 & LenMask != 127
  {
    var n := |f.payload|;
    if n < 126 {
      ShortLength(n);
    }
    var low: byte := if n < 126 then n as byte else 126;
    HeaderByte(f.masked, low);
    FirstByte(f.endFrame, f.opcode);
  }

  /** The payload length parseFrame decodes from a length field write produced. */
  lemma DecodedLength(b: seq<byte>, n: nat)
    requires |b| == FrameSize && n < FrameSize
    requires b[1] & LenMask == (if n < 126 then n as byte else 126)
    requires n >= 126 ==> b[2] == (n / 256) as byte && b[3] == (n % 256) as byte
    ensures var payloadLen := b[1] & LenMask;
      (if payloadLen == 126 then BigEndian16(b, 2) else payloadLen as nat) == n
  {
    if n >= 126 {
      ExtendedLength(n);
      assert b[1] & LenMask == 126;
    } else {
      ShortLength(n);
    }
  }

  /** parseFrame decodes the flags and the length first, then slices key and payload. */
  lemma ParseFrameFields(b: seq<byte>)
    requires |b| == FrameSize
    ensures var payloadLen := b[1] & LenMask;
      var plen := if payloadLen == 126 then BigEndian16(b, 2) else payloadLen as nat;
      ParseFrame(b) == ParseBody(b, b[0] & FinalBit == 0x80, b[0] & OpcodeMask, b[1] & MaskBit == 0x80, payloadLen == 126, plen)
  {
  }

  /** What parseFrame reads from a buffer whose header, key and payload are known. */
  lemma ParseKnownLayout(b: seq<byte>, f: Frame)
    requires |b| == FrameSize && Encodable(f)
    requires var n := |f.payload|;
      && b[0] == (if f.endFrame then 0x80 else 0) | f.opcode
      && b[1] == (if f.masked then 0x80 else 0) | (if n < 126 then n as byte else 126)
      && (n >= 126 ==> b[2] == (n / 256) as byte && b[3] == (n % 256) as byte)
      && (f.masked ==> b[LengthEnd(n)..LengthEnd(n) + 4] == f.mask)
      && var h := ComputeHeaderLen(n, f.masked); b[h..h + n] == f.payload
    ensures ParseFrame(b) == Ok(Normalized(f))
  {
    HeaderFields(b[0], b[1], f);
    DecodedLength(b, |f.payload|);
    ParseDecoded(b, f);
  }

  /** parseFrame on a buffer whose flags and length decode to those of the frame. */
  lemma ParseDecoded(b: seq<byte>, f: Frame)
    requires |b| == FrameSize && Encodable(f)
    requires (b[0] & FinalBit == 0x80) == f.endFrame && b[0] & OpcodeMask == f.opcode
    requires (b[1] & MaskBit == 0x80) == f.masked && (b[1] & LenMask == 126) == (|f.payload| >= 126)
    requires (if b[1] & LenMask == 126 then BigEndian16(b, 2) else (b[1] & LenMask) as nat) == |f.payload|
    requires var n := |f.payload|;
      && (f.masked ==> b[LengthEnd(n)..LengthEnd(n) + 4] == f.mask)
      && var h := ComputeHeaderLen(n, f.masked); b[h..h + n] == f.payload
    ensures ParseFrame(b) == Ok(Normalized(f))
  {
    ParseFrameFields(b);
    ParseBodyKnown(b, f, b[0] & FinalBit == 0x80, b[0] & OpcodeMask, b[1] & MaskBit == 0x80, b[1] & LenMask == 126,
      if b[1] & LenMask == 126 then BigEndian16(b, 2) else (b[1] & LenMask) as nat);
  }

  /** The key and payload parseFrame slices out once the flags and the length are known. */
  lemma ParseBodyKnown(b: seq<byte>, f: Frame, fin: bool, opcode: byte, masked: bool, extended: bool, plen: nat)
    requires |b| == FrameSize && Encodable(f)
    requires fin == f.endFrame && opcode == f.opcode && masked == f.masked
    requires extended == (|f.payload| >= 126) && plen == |f.payload|
    requires var n := |f.payload|;
      && (f.masked ==> b[LengthEnd(n)..LengthEnd(n) + 4] == f.mask)
      && var h := ComputeHeaderLen(n, f.masked); b[h..h + n] == f.payload
    ensures ParseBody(b, fin, opcode, masked, extended, plen) == Ok(Normalized(f))
  {
  }

  /** Round trip: parsing what write produced on a fresh buffer gives the frame back (without its
      key when unmasked). */
  lemma RoundTrip(f: Frame)
    requires Encodable(f)
    ensures WriteResult(Zeros(), f).err == None
    ensures ParseFrame(Encode(f)) == Ok(Normalized(f))
  {
    var z := Zeros();
    assert z[0] == 0 && z[1] == 0;
    WriteFailures(z, f);
    HeaderLayout(z, f);
    HeaderLenIsPayloadOffset(z, f);
    if f.masked {
      KeyOffset(z, f);
    }
    ParseKnownLayout(WriteResult(z, f).buf, f);
  }
}
