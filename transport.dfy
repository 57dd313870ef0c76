/** Message transport over the frame codec (chatProto/websockets/websocket.go): a message travels as
    one "length frame" followed by text frames carrying consecutive pieces of the payload, the last
    one marked FIN. The connection is modelled by values: what CreateMessage writes is the sequence
    of FrameSize-byte buffers it hands to the connection, and what ReadMessage reads is a sequence of
    read outcomes, one per conn.Read call. */
module Transport {
  import opened Common
  import opened Frames

  /** The key every frame carries: the bytes of "aaaa". */
  const PadMask: seq<byte> := [0x61, 0x61, 0x61, 0x61]

  /** payload[k*m:(k+1)*m] for k in 0..count-1: the complete pieces of fragmentPayload. */
  function Pieces(p: seq<byte>, m: nat, count: nat): (r: seq<seq<byte>>)
    requires count * m <= |p|
    ensures |r| == count
    ensures forall k :: 0 <= k < count ==> |r[k]| == m
  {
    if count == 0 then []
    else
      assert (count - 1) * m <= count * m;
      Pieces(p, m, count - 1) + [p[(count - 1) * m..count * m]]
  }

  /** fragmentPayload with a given maximum piece size: the whole payload when it fits, otherwise the
      complete pieces of `m` bytes followed by the shorter rest, if there is one. */
  function Fragments(p: seq<byte>, m: nat): (r: seq<seq<byte>>)
    requires m > 0
    ensures |p| <= m ==> r == [p]
    ensures |r| >= 1
  {
    if |p| <= m then [p]
    else
      var complete := |p| / m;
      assert complete * m <= |p|;
      Pieces(p, m, complete) + (if |p| % m != 0 then [p[complete * m..]] else [])
  }

  function Flatten(chunks: seq<seq<byte>>): seq<byte>
  {
    if |chunks| == 0 then [] else Flatten(chunks[..|chunks| - 1]) + chunks[|chunks| - 1]
  }

  lemma FlattenAppend(a: seq<seq<byte>>, b: seq<seq<byte>>)
    ensures Flatten(a + b) == Flatten(a) + Flatten(b)
  {
    if |b| == 0 {
      assert a + b == a;
    } else {
      assert (a + b)[..|a + b| - 1] == a + b[..|b| - 1];
      FlattenAppend(a, b[..|b| - 1]);
    }
  }

  /** The complete pieces, put back together, are the payload's prefix they cover. */
  lemma {:induction false} FlattenPieces(p: seq<byte>, m: nat, count: nat)
    requires count * m <= |p|
    ensures Flatten(Pieces(p, m, count)) == p[..count * m]
  {
    if count > 0 {
      assert (count - 1) * m <= count * m;
      FlattenPieces(p, m, count - 1);
      assert p[..(count - 1) * m] + p[(count - 1) * m..count * m] == p[..count * m];
    }
  }

  /** One more complete piece, while fewer than `complete` have been cut. */
  lemma PiecesNext(p: seq<byte>, m: nat, i: nat, complete: nat)
    requires i < complete && complete * m <= |p|
    ensures i * m <= (i + 1) * m <= |p|
    ensures Pieces(p, m, i + 1) == Pieces(p, m, i) + [p[i * m..(i + 1) * m]]
  {
    MulMono(i + 1, complete, m);
    assert (i + 1) * m == i * m + m;
  }

  /** Fragmentation loses nothing and adds nothing: the pieces concatenate back to the payload. */
  lemma FragmentsFlatten(p: seq<byte>, m: nat)
    requires m > 0
    ensures Flatten(Fragments(p, m)) == p
  {
    if |p| <= m {
      assert Flatten([p]) == Flatten([]) + p;
    } else {
      var complete := |p| / m;
      assert complete * m + |p| % m == |p|;
      FlattenPieces(p, m, complete);
      var tail := if |p| % m != 0 then [p[complete * m..]] else [];
      FlattenAppend(Pieces(p, m, complete), tail);
      if |p| % m != 0 {
        assert Flatten(tail) == Flatten([]) + p[complete * m..];
      } else {
        assert Flatten(tail) == [];
      }
    }
  }

  /** The shape of fragmentPayload's result: at least one piece; none longer than `m`; every piece
      but the last exactly `m` long; no empty piece unless the payload is empty. */
  lemma FragmentsShape(p: seq<byte>, m: nat)
    requires m > 0
    ensures var r := Fragments(p, m);
      && |r| >= 1
      && (forall k :: 0 <= k < |r| ==> |r[k]| <= m)
      && (forall k :: 0 <= k < |r| - 1 ==> |r[k]| == m)
      && (|p| > 0 ==> forall k :: 0 <= k < |r| ==> |r[k]| > 0)
  {
    if |p| > m {
      var complete := |p| / m;
      DivisionFacts(|p|, m);
      var pieces := Pieces(p, m, complete);
      var tail := if |p| % m != 0 then [p[complete * m..]] else [];
      var r := Fragments(p, m);
      assert r == pieces + tail;
      assert forall k :: 0 <= k < |pieces| ==> r[k] == pieces[k];
      if |p| % m != 0 {
        assert r[|r| - 1] == p[complete * m..];
      }
    }
  }

  /** The number of pieces is ⌈|p| / m⌉ for a non-empty payload: the pieces but one are not
      enough to hold it, and all of them are. */
  lemma FragmentsCount(p: seq<byte>, m: nat)
    requires m > 0 && |p| > 0
    ensures var r := Fragments(p, m);
      (|r| - 1) * m < |p| <= |r| * m
  {
    if |p| > m {
      var complete := |p| / m;
      DivisionFacts(|p|, m);
      assert (complete + 1) * m == complete * m + m;
      assert (complete - 1) * m == complete * m - m;
    }
  }

  /** Euclidean division of a length by a positive piece size, as fragmentPayload uses it. */
  lemma DivisionFacts(n: nat, m: nat)
    requires m > 0
    ensures (n / m) * m + n % m == n && 0 <= n % m < m
    ensures n > m ==> n / m >= 1
  {
  }

  /** fragmentPayload: splits a payload into pieces that fit a frame of `frameSize` bytes behind a
      header sized for the whole payload (computeHeaderLen of the full length, so a piece never
      needs a bigger header than the one reserved). */
  method FragmentPayload(payload: seq<byte>, masked: bool, frameSize: nat) returns (frames: seq<seq<byte>>)
    requires frameSize > ComputeHeaderLen(|payload|, masked)
    ensures frames == Fragments(payload, frameSize - ComputeHeaderLen(|payload|, masked))
  {
    var headerLen := ComputeHeaderLen(|payload|, masked);
    var maxPayloadSize := frameSize - headerLen;
    if |payload| <= maxPayloadSize {
      return [payload];
    }
    var completeFrames := |payload| / maxPayloadSize;
    DivisionFacts(|payload|, maxPayloadSize);
    frames := CompletePieces(payload, maxPayloadSize, completeFrames);
    if |payload| % maxPayloadSize != 0 {
      frames := frames + [payload[completeFrames * maxPayloadSize..]];
    }
  }

  /** The loop of fragmentPayload: cuts `count` consecutive pieces of `m` bytes from the front. */
  method CompletePieces(payload: seq<byte>, m: nat, count: nat) returns (frames: seq<seq<byte>>)
    requires count * m <= |payload|
    ensures frames == Pieces(payload, m, count)
  {
    frames := [];
    var i := 0;
    while i < count
      invariant 0 <= i <= count
      invariant i * m <= |payload|
      invariant frames == Pieces(payload, m, i)
    {
      PiecesNext(payload, m, i, count);
      frames := frames + [payload[i * m..(i + 1) * m]];
      i := i + 1;
    }
  }

  /** Every piece fits a frame: its own header plus its bytes stay within `frameSize`. */
  lemma PiecesFitFrame(payload: seq<byte>, masked: bool, frameSize: nat)
    requires frameSize > ComputeHeaderLen(|payload|, masked)
    ensures var pieces := Fragments(payload, frameSize - ComputeHeaderLen(|payload|, masked));
      forall k :: 0 <= k < |pieces| ==>
        |pieces[k]| <= |payload| && ComputeHeaderLen(|pieces[k]|, masked) + |pieces[k]| <= frameSize
  {
    var m := frameSize - ComputeHeaderLen(|payload|, masked);
    var pieces := Fragments(payload, m);
    FragmentsShape(payload, m);
    FlattenBound(pieces);
    FragmentsFlatten(payload, m);
  }

  /** No piece is longer than the concatenation. */
  lemma FlattenBound(chunks: seq<seq<byte>>)
    ensures forall k :: 0 <= k < |chunks| ==> |chunks[k]| <= |Flatten(chunks)|
  {
    if |chunks| > 0 {
      FlattenBound(chunks[..|chunks| - 1]);
      assert forall k :: 0 <= k < |chunks| - 1 ==> chunks[k] == chunks[..|chunks| - 1][k];
    }
  }

  /** binary.BigEndian.PutUint64 generalised to `width` bytes: the number modulo 256^width, most
      significant byte first. */
  function BigEndian(k: nat, width: nat): (r: seq<byte>)
    ensures |r| == width
  {
    if width == 0 then [] else BigEndian(k / 256, width - 1) + [(k % 256) as byte]
  }

  function FromBigEndian(bs: seq<byte>): nat
  {
    if |bs| == 0 then 0 else FromBigEndian(bs[..|bs| - 1]) * 256 + bs[|bs| - 1] as nat
  }

  function Pow256(width: nat): (r: nat)
    ensures r > 0
  {
    if width == 0 then 1 else 256 * Pow256(width - 1)
  }

  /** The length frame's payload decodes back to the message length (any length below 2^64 when
      the width is 8). */
  lemma {:induction false} BigEndianRoundTrip(k: nat, width: nat)
    requires k < Pow256(width)
    ensures FromBigEndian(BigEndian(k, width)) == k
  {
    if width > 0 {
      LowByteSplit(k, width);
      BigEndianRoundTrip(k / 256, width - 1);
      BigEndianLast(k, width);
    }
  }

  /** The most significant bytes encode k / 256, the last one k % 256. */
  lemma BigEndianLast(k: nat, width: nat)
    requires width > 0 && FromBigEndian(BigEndian(k / 256, width - 1)) == k / 256
    ensures FromBigEndian(BigEndian(k, width)) == (k / 256) * 256 + k % 256
  {
    var r := BigEndian(k, width);
    assert r[..width - 1] == BigEndian(k / 256, width - 1);
    ByteValue(k % 256);
    assert r[width - 1] as nat == k % 256;
  }

  lemma LowByteSplit(k: nat, width: nat)
    requires width > 0 && k < Pow256(width)
    ensures (k / 256) * 256 + k % 256 == k && k / 256 < Pow256(width - 1)
  {
    DivisionFacts(k, 256);
    DivBound(k, 256, Pow256(width - 1));
  }

  lemma DivBound(k: nat, d: nat, p: nat)
    requires d > 0 && k < d * p
    ensures k / d < p
  {
  }

  lemma MulMono(a: nat, b: nat, m: nat)
    requires a <= b
    ensures a * m <= b * m
  {
  }

  /** The frame announcing a message: FIN, the private length opcode, the 64-bit big-endian length. */
  function LengthFrame(len: nat, masked: bool): (f: Frame)
    ensures f.endFrame && f.opcode == LenFrame && f.masked == masked && f.mask == PadMask
    ensures |f.payload| == 8 && Encodable(f)
    ensures f.payload == BigEndian(len, 8)
    ensures len < Pow256(8) ==> FromBigEndian(f.payload) == len
  {
    var f := Frame(true, LenFrame, masked, PadMask, BigEndian(len, 8));
    if len < Pow256(8) then BigEndianRoundTrip(len, 8); f else f
  }

  /** The text frames carrying the pieces, FIN set on the last one only. */
  function TextFrames(pieces: seq<seq<byte>>, masked: bool): (r: seq<Frame>)
    ensures |r| == |pieces|
    ensures forall k :: 0 <= k < |r| ==>
      r[k].opcode == TextFrame && r[k].payload == pieces[k] && (r[k].endFrame <==> k == |r| - 1)
  {
    if |pieces| == 0 then []
    else [Frame(|pieces| == 1, TextFrame, masked, PadMask, pieces[0])] + TextFrames(pieces[1..], masked)
  }

  lemma {:induction false} TextFrameAt(pieces: seq<seq<byte>>, masked: bool, k: nat)
    requires k < |pieces|
    ensures TextFrames(pieces, masked)[k] == Frame(k == |pieces| - 1, TextFrame, masked, PadMask, pieces[k])
  {
    if k > 0 {
      TextFrameAt(pieces[1..], masked, k - 1);
    }
  }

  /** The buffers write produces for the frames, each in a fresh buffer. */
  function EncodeAll(frames: seq<Frame>): (r: seq<seq<byte>>)
    ensures |r| == |frames|
  {
    if |frames| == 0 then [] else EncodeAll(frames[..|frames| - 1]) + [Encode(frames[|frames| - 1])]
  }

  lemma {:induction false} EncodeAllAt(frames: seq<Frame>, k: nat)
    requires k < |frames|
    ensures EncodeAll(frames)[k] == Encode(frames[k])
  {
    if k < |frames| - 1 {
      EncodeAllAt(frames[..|frames| - 1], k);
    }
  }

  lemma EncodeAllNext(frames: seq<Frame>, i: nat)
    requires i < |frames|
    ensures EncodeAll(frames[..i + 1]) == EncodeAll(frames[..i]) + [Encode(frames[i])]
  {
    assert frames[..i + 1][..i] == frames[..i];
  }

  /** Everything CreateMessage writes for a payload: the length frame, then the text frames. */
  function Transmission(payload: seq<byte>, masked: bool): seq<seq<byte>>
  {
    var m := FrameSize - ComputeHeaderLen(|payload|, masked);
    [Encode(LengthFrame(|payload|, masked))] + EncodeAll(TextFrames(Fragments(payload, m), masked))
  }

  /** make([]byte, FRAME_SIZE) followed by frame.write(buf): the buffer handed to conn.Write. */
  method WriteFresh(f: Frame) returns (out: seq<byte>, err: Option<BuildError>)
    ensures out == Encode(f)
    ensures err == WriteResult(Zeros(), f).err
  {
    var buf := new byte[FrameSize](_ => 0);
    assert buf[..] == Zeros();
    err := Write(f, buf);
    out := buf[..];
  }

  /** CreateMessage: writes the length frame and then every text frame, each in a fresh buffer. Only
      the length frame's write error is looked at; the text frames' are dropped, as in the source,
      and neither can occur. */
  method CreateMessage(payload: seq<byte>, masked: bool) returns (sent: seq<seq<byte>>, err: Option<BuildError>)
    ensures err == None
    ensures sent == Transmission(payload, masked)
  {
    var lengthFrame := Frame(true, LenFrame, masked, PadMask, BigEndian(|payload|, 8));
    var buf;
    buf, err := WriteFresh(lengthFrame);
    LengthFrameWrites(|payload|, masked);
    if err != None {
      return [], err;
    }
    var fragmented := FragmentPayload(payload, masked, FrameSize);
    var bufs := WriteTextFrames(fragmented, masked);
    sent := [buf] + bufs;
  }

  /** The loop of CreateMessage: one text frame per piece, FIN on the last one, each written into a
      fresh buffer; the write errors are dropped. */
  method WriteTextFrames(fragmented: seq<seq<byte>>, masked: bool) returns (sent: seq<seq<byte>>)
    ensures sent == EncodeAll(TextFrames(fragmented, masked))
  {
    ghost var frames := TextFrames(fragmented, masked);
    sent := [];
    var i := 0;
    while i < |fragmented|
      invariant 0 <= i <= |fragmented|
      invariant sent == EncodeAll(frames[..i])
    {
      var frame := Frame(i == |fragmented| - 1, TextFrame, masked, PadMask, fragmented[i]);
      TextFrameAt(fragmented, masked, i);
      var buf, dropped := WriteFresh(frame);
      EncodeAllNext(frames, i);
      sent := sent + [buf];
      i := i + 1;
    }
    assert frames[..i] == frames;
  }

  /** The length frame is always written without error. */
  lemma LengthFrameWrites(len: nat, masked: bool)
    ensures WriteResult(Zeros(), LengthFrame(len, masked)).err == None
  {
    WriteFailures(Zeros(), LengthFrame(len, masked));
  }

  /** What one conn.Read call delivers: some bytes (at most a buffer's worth are taken), or an error. */
  datatype ReadOutcome = Data(bytes: seq<byte>) | Failure

  datatype ReadError =
    | ConnError            // the error conn.Read returned, or the end of the stream
    | ShortRead(n: nat)    // WSFrameReadError: the first read did not fill the buffer
    | ParsePanic(end: nat) // parseFrame's slice expression ran past the buffer (a Go panic)

  /** The buffer after conn.Read(buf) on a fresh buffer. */
  function Fill(bytes: seq<byte>): (buf: seq<byte>)
    ensures |buf| == FrameSize
    ensures |bytes| >= FrameSize ==> buf == bytes[..FrameSize]
    ensures |bytes| < FrameSize ==> buf[..|bytes|] == bytes && buf[|bytes|..] == Zeros()[|bytes|..]
  {
    if |bytes| >= FrameSize then bytes[..FrameSize] else bytes + Zeros()[|bytes|..]
  }

  /** The outcome of ReadMessage together with the number of reads it made. */
  datatype Received = Received(result: Result<seq<byte>, ReadError>, used: nat)

  /** ReadMessage as a function of the read outcomes: the first read must fill the buffer; a length frame is
      followed by frames read (without a length check) until one has FIN, whose payloads are
      concatenated; any other first frame is the whole message. The announced length is not used. */
  function Receive(incoming: seq<ReadOutcome>): (r: Received)
    ensures 1 <= r.used <= |incoming| + 1
  {
    if |incoming| == 0 then Received(Err(ConnError), 1)
    else match incoming[0]
      case Failure => Received(Err(ConnError), 1)
      case Data(bytes) =>
        var n := Min(|bytes|, FrameSize);
        if n != FrameSize then Received(Err(ShortRead(n)), 1)
        else match ParseFrame(Fill(bytes))
          case Err(SliceOutOfRange(end)) => Received(Err(ParsePanic(end)), 1)
          case Ok(first) =>
            if first.opcode == LenFrame then Collect(incoming, 1, [])
            else Received(Ok(first.payload), 1)
  }

  /** The continuation loop of ReadMessage from read number `used` on, with the payload bytes
      gathered so far. */
  function Collect(incoming: seq<ReadOutcome>, used: nat, acc: seq<byte>): (r: Received)
    requires used <= |incoming|
    ensures used < r.used <= |incoming| + 1
    ensures r.result.Ok? ==> acc <= r.result.value
    decreases |incoming| - used
  {
    if used == |incoming| then Received(Err(ConnError), used + 1)
    else match incoming[used]
      case Failure => Received(Err(ConnError), used + 1)
      case Data(bytes) =>
        match ParseFrame(Fill(bytes))
          case Err(SliceOutOfRange(end)) => Received(Err(ParsePanic(end)), used + 1)
          case Ok(f) =>
            if f.endFrame then Received(Ok(acc + f.payload), used + 1)
            else Collect(incoming, used + 1, acc + f.payload)
  }

  function Payloads(frames: seq<Frame>): seq<byte>
  {
    if |frames| == 0 then [] else Payloads(frames[..|frames| - 1]) + frames[|frames| - 1].payload
  }

  /** One conn.Read into a fresh buffer. Running out of incoming is the end of the stream. */
  method Read(incoming: seq<ReadOutcome>, k: nat) returns (buf: seq<byte>, n: nat, failed: bool)
    ensures failed <==> k >= |incoming| || incoming[k].Failure?
    ensures !failed ==> buf == Fill(incoming[k].bytes) && n == Min(|incoming[k].bytes|, FrameSize)
  {
    if k >= |incoming| || incoming[k].Failure? {
      return Zeros(), 0, true;
    }
    var bytes := incoming[k].bytes;
    return Fill(bytes), Min(|bytes|, FrameSize), false;
  }

  /** ReadMessage over a sequence of read outcomes; `used` is the number of incoming it made. */
  method ReadMessage(incoming: seq<ReadOutcome>) returns (r: Result<seq<byte>, ReadError>, used: nat)
    ensures Received(r, used) == Receive(incoming)
  {
    var buf, n, failed := Read(incoming, 0);
    if failed {
      return Err(ConnError), 1;
    }
    if n != FrameSize {
      return Err(ShortRead(n)), 1;
    }
    var parsed := ParseFrame(buf);
    if parsed.Err? {
      return Err(ParsePanic(parsed.error.end)), 1;
    }
    var recvFrame := parsed.value;
    if recvFrame.opcode != LenFrame {
      return Ok(recvFrame.payload), 1;
    }
    var frames: seq<Frame> := [];
    used := 1;
    while true
      invariant 1 <= used <= |incoming|
      invariant Collect(incoming, used, Payloads(frames)) == Receive(incoming)
      decreases |incoming| - used
    {
      buf, n, failed := Read(incoming, used);
      if failed {
        return Err(ConnError), used + 1;
      }
      parsed := ParseFrame(buf);
      if parsed.Err? {
        return Err(ParsePanic(parsed.error.end)), used + 1;
      }
      var f := parsed.value;
      assert (frames + [f])[..|frames|] == frames;
      frames := frames + [f];
      used := used + 1;
      if f.endFrame {
        break;
      }
    }
    var payload: seq<byte> := [];
    var j := 0;
    while j < |frames|
      invariant 0 <= j <= |frames|
      invariant payload == Payloads(frames[..j])
    {
      assert frames[..j + 1][..j] == frames[..j];
      payload := payload + frames[j].payload;
      j := j + 1;
    }
    assert frames[..j] == frames;
    return Ok(payload), used;
  }

  /** The reads that deliver the given buffers whole, one per read. */
  function AsReads(bufs: seq<seq<byte>>): (r: seq<ReadOutcome>)
    ensures |r| == |bufs|
    ensures forall k :: 0 <= k < |bufs| ==> r[k] == Data(bufs[k])
  {
    if |bufs| == 0 then [] else [Data(bufs[0])] + AsReads(bufs[1..])
  }

  /** A whole buffer is taken as it is. */
  lemma FillWhole(bytes: seq<byte>)
    requires |bytes| == FrameSize
    ensures Fill(bytes) == bytes
  {
  }

  /** From read `start` on, the stream delivers whole buffers that parse to the given frames (without
      their key when unmasked), one per read. */
  ghost predicate Delivers(incoming: seq<ReadOutcome>, start: nat, frames: seq<Frame>)
  {
    && start + |frames| <= |incoming|
    && forall k :: 0 <= k < |frames| ==> Decodes(incoming[start + k], frames[k])
  }

  /** A read that delivers a whole buffer parsing to the frame. */
  ghost predicate Decodes(read: ReadOutcome, f: Frame)
  {
    read.Data? && |read.bytes| == FrameSize && ParseFrame(read.bytes) == Ok(Normalized(f))
  }

  /** Only the last frame has FIN. */
  ghost predicate FinLast(frames: seq<Frame>)
  {
    && |frames| > 0
    && frames[|frames| - 1].endFrame
    && forall k :: 0 <= k < |frames| - 1 ==> !frames[k].endFrame
  }

  /** The continuation loop of ReadMessage over frames whose last one alone has FIN, from frame `j`
      on, delivers the concatenation of all their payloads. */
  lemma {:induction false} CollectFrames(incoming: seq<ReadOutcome>, start: nat, frames: seq<Frame>, j: nat)
    requires j < |frames| && Delivers(incoming, start, frames) && FinLast(frames)
    ensures Collect(incoming, start + j, Payloads(frames[..j])) == Received(Ok(Payloads(frames)), start + |frames|)
    decreases |frames| - j
  {
    var frame := frames[j];
    assert Decodes(incoming[start + j], frame);
    var bytes := incoming[start + j].bytes;
    FillWhole(bytes);
    assert ParseFrame(Fill(bytes)) == Ok(Normalized(frame));
    assert frames[..j + 1][..j] == frames[..j];
    assert Payloads(frames[..j + 1]) == Payloads(frames[..j]) + frames[j].payload;
    if j == |frames| - 1 {
      assert frames[..j + 1] == frames;
    } else {
      CollectFrames(incoming, start, frames, j + 1);
    }
  }

  /** Frames carrying the pieces, in order, carry their concatenation. */
  lemma {:induction false} PayloadsOfPieces(frames: seq<Frame>, pieces: seq<seq<byte>>)
    requires |frames| == |pieces| && forall k :: 0 <= k < |frames| ==> frames[k].payload == pieces[k]
    ensures Payloads(frames) == Flatten(pieces)
  {
    if |frames| > 0 {
      PayloadsOfPieces(frames[..|frames| - 1], pieces[..|pieces| - 1]);
    }
  }

  /** The text frames of a message: the pieces in order, FIN on the last one only. */
  lemma TextFramesShape(pieces: seq<seq<byte>>, masked: bool)
    requires |pieces| > 0
    ensures var frames := TextFrames(pieces, masked);
      FinLast(frames) && forall k :: 0 <= k < |frames| ==> frames[k].payload == pieces[k]
  {
    var frames := TextFrames(pieces, masked);
    forall k | 0 <= k < |frames|
      ensures frames[k] == Frame(k == |pieces| - 1, TextFrame, masked, PadMask, pieces[k])
    {
      TextFrameAt(pieces, masked, k);
    }
  }

  /** Behind a first buffer, the encoded frames are delivered in order. */
  lemma EncodedDelivers(first: seq<byte>, frames: seq<Frame>, rest: seq<ReadOutcome>)
    requires AllEncodable(frames)
    ensures Delivers(AsReads([first] + EncodeAll(frames)) + rest, 1, frames)
  {
    var incoming := AsReads([first] + EncodeAll(frames)) + rest;
    forall k | 0 <= k < |frames|
      ensures Decodes(incoming[1 + k], frames[k])
    {
      EncodedAt(first, frames, rest, k);
    }
  }

  /** Read 1 + k delivers encoded frame k, which parses back to the frame. */
  lemma EncodedAt(first: seq<byte>, frames: seq<Frame>, rest: seq<ReadOutcome>, k: nat)
    requires k < |frames| && Encodable(frames[k])
    ensures var incoming := AsReads([first] + EncodeAll(frames)) + rest;
      && incoming[1 + k] == Data(Encode(frames[k]))
      && ParseFrame(Encode(frames[k])) == Ok(Normalized(frames[k]))
  {
    var sent := [first] + EncodeAll(frames);
    EncodeAllAt(frames, k);
    assert sent[1 + k] == EncodeAll(frames)[k];
    RoundTrip(frames[k]);
  }

  ghost predicate AllEncodable(frames: seq<Frame>)
  {
    forall k :: 0 <= k < |frames| ==> Encodable(frames[k])
  }

  /** Every text frame of a message is one write accepts and parseFrame gives back. */
  lemma TextFramesEncodable(payload: seq<byte>, masked: bool)
    ensures AllEncodable(TextFrames(Fragments(payload, FrameSize - ComputeHeaderLen(|payload|, masked)), masked))
  {
    var pieces := Fragments(payload, FrameSize - ComputeHeaderLen(|payload|, masked));
    PiecesFitFrame(payload, masked, FrameSize);
    forall k | 0 <= k < |pieces|
      ensures Encodable(TextFrames(pieces, masked)[k])
    {
      TextFrameAt(pieces, masked, k);
    }
  }

  /** Transport round trip: reading what CreateMessage wrote, buffer by buffer, gives the payload
      back, after exactly as many reads as buffers were written; whatever follows is not read. */
  lemma ReceiveTransmission(payload: seq<byte>, masked: bool, rest: seq<ReadOutcome>)
    ensures var sent := Transmission(payload, masked);
      Receive(AsReads(sent) + rest) == Received(Ok(payload), |sent|)
  {
    var frames := TextFrames(Fragments(payload, FrameSize - ComputeHeaderLen(|payload|, masked)), masked);
    MessageFrames(payload, masked);
    ReceiveFrames(|payload|, masked, frames, rest);
  }

  /** The text frames of a message are all encodable, only the last has FIN, and together they
      carry the payload. */
  lemma MessageFrames(payload: seq<byte>, masked: bool)
    ensures var frames := TextFrames(Fragments(payload, FrameSize - ComputeHeaderLen(|payload|, masked)), masked);
      AllEncodable(frames) && FinLast(frames) && Payloads(frames) == payload
  {
    var m := FrameSize - ComputeHeaderLen(|payload|, masked);
    var pieces := Fragments(payload, m);
    var frames := TextFrames(pieces, masked);
    PayloadsOfPieces(frames, pieces);
    FragmentsFlatten(payload, m);
    TextFramesEncodable(payload, masked);
    TextFramesShape(pieces, masked);
  }

  /** Behind a length frame, frames whose last one alone has FIN are received as the concatenation
      of their payloads, after one read per buffer. */
  lemma ReceiveFrames(len: nat, masked: bool, frames: seq<Frame>, rest: seq<ReadOutcome>)
    requires AllEncodable(frames) && FinLast(frames)
    ensures var sent := [Encode(LengthFrame(len, masked))] + EncodeAll(frames);
      Receive(AsReads(sent) + rest) == Received(Ok(Payloads(frames)), |sent|)
  {
    var first := Encode(LengthFrame(len, masked));
    var incoming := AsReads([first] + EncodeAll(frames)) + rest;
    LengthFrameFirst(incoming, len, masked);
    EncodedDelivers(first, frames, rest);
    CollectFrames(incoming, 1, frames, 0);
    assert frames[..0] == [];
  }

  /** A stream that starts with a length frame continues with the continuation loop. */
  lemma LengthFrameFirst(incoming: seq<ReadOutcome>, len: nat, masked: bool)
    requires |incoming| > 0 && incoming[0] == Data(Encode(LengthFrame(len, masked)))
    ensures Receive(incoming) == Collect(incoming, 1, [])
  {
    RoundTrip(LengthFrame(len, masked));
    FillWhole(Encode(LengthFrame(len, masked)));
  }

  /** A first read that does not fill the buffer is an error, whatever follows. */
  lemma ShortFirstRead(bytes: seq<byte>, rest: seq<ReadOutcome>)
    requires |bytes| < FrameSize
    ensures Receive([Data(bytes)] + rest) == Received(Err(ShortRead(|bytes|)), 1)
  {
  }

  /** A single frame other than a length frame is a whole message: its payload is returned after one
      read. */
  lemma ReceiveSingleFrame(f: Frame, rest: seq<ReadOutcome>)
    requires Encodable(f) && f.opcode != LenFrame
    ensures Receive([Data(Encode(f))] + rest) == Received(Ok(f.payload), 1)
  {
    RoundTrip(f);
    FillWhole(Encode(f));
  }
}
