/** Capsules reassembled from the DATA frames of the CONNECT stream, and the session's close exchange on it. */
module ConnectStream {
  import opened Bytes
  import opened VarInts
  import opened Frames
  import opened Capsules
  import opened StreamFrames

  const MAX_CAPSULE_FRAME_SIZE: nat := 2 * 1024

  /** The longest incomplete capsule: two eight-byte varints and all but one byte of the payload. */
  const MAX_PARTIAL: nat := 16 + MAX_CLOSE_PAYLOAD_SIZE - 1

  datatype Buffered = NeedMore | Complete(capsule: Capsule, len: nat) | Malformed(error: CapsuleError)

  /** Cutting one capsule out of the buffered bytes. */
  function DecodeBuffered(pending: seq<byte>): (r: Buffered)
    ensures r.Complete? ==> 2 <= r.len <= |pending|
  {
    match ParseHeader(pending)
    case None => NeedMore
    case Some(h) =>
      if h.length > MAX_CLOSE_PAYLOAD_SIZE then Malformed(MessageTooLong)
      else
        var total := h.len + h.length;
        if |pending| < total then NeedMore
        else
          match DecodeCapsule(pending[..total])
          case Err(e) => Malformed(e)
          case Ok(d) => Complete(d.capsule, total)
  }

  method DecodeBufferedCapsule(pending: BytesMut) returns (r: Result<Option<Capsule>, CapsuleError>)
    modifies pending
    ensures match DecodeBuffered(old(pending.bytes))
            case NeedMore => r == Ok(None) && pending.bytes == old(pending.bytes)
            case Complete(c, n) => r == Ok(Some(c)) && pending.bytes == old(pending.bytes)[n..]
            case Malformed(e) => r == Err(e) && pending.bytes == old(pending.bytes)
  {
    hide Parse, DecodeCapsule;
    var cursor := new Buf(pending.bytes);
    var typ := VarInts.Decode(cursor);
    if typ.None? {
      return Ok(None);
    }
    var length := VarInts.Decode(cursor);
    if length.None? {
      return Ok(None);
    }
    if length.value > MAX_CLOSE_PAYLOAD_SIZE {
      return Err(MessageTooLong);
    }
    var position := |pending.bytes| - |cursor.rest|;
    var total := position + length.value;
    assert position == ParseHeader(pending.bytes).value.len;
    if |pending.bytes| < total {
      return Ok(None);
    }
    var slice := new Buf(pending.bytes[..total]);
    var capsule := Capsules.Decode(slice);
    if capsule.Err? {
      return Err(capsule.error);
    }
    pending.Advance(total);
    r := Ok(Some(capsule.value));
  }

  // ------------------------------------------------------- one call of the frame reader

  /** The outcome of one call: the result, what is left of the stream, and the retained bytes. */
  datatype ReadResult = ReadResult(result: Result<Capsule, CapsuleError>, rest: seq<byte>, pending: seq<byte>)

  /** One frame of the CONNECT stream, or the reason why the stream ends there. */
  datatype Piece = Piece(data: seq<byte>, len: nat) | Broken(error: CapsuleError)

  /** The DATA bytes of the next frame; every other frame contributes none. */
  function NextPiece(stream: seq<byte>): (p: Piece)
    ensures p.Piece? ==> 2 <= p.len <= |stream| && |p.data| <= p.len - 2 && |p.data| <= MAX_CAPSULE_FRAME_SIZE
  {
    match ParseHeader(stream)
    case None => Broken(UnexpectedEnd)
    case Some(h) =>
      if h.length > MAX_CAPSULE_FRAME_SIZE then Broken(MessageTooLong)
      else if |stream| < h.len + h.length then Broken(Io)
      else Piece(if h.typ == DATA then stream[h.len..h.len + h.length] else [], h.len + h.length)
  }

  function ReadCapsule(stream: seq<byte>, pending: seq<byte>): ReadResult
    decreases |stream|
  {
    match DecodeBuffered(pending)
    case Complete(c, n) => ReadResult(Ok(c), stream, pending[n..])
    case Malformed(e) => ReadResult(Err(e), stream, pending)
    case NeedMore =>
      match NextPiece(stream)
      case Broken(e) => ReadResult(Err(e), stream, pending)
      case Piece(data, n) => ReadCapsule(stream[n..], pending + data)
  }

  lemma ReadCapsuleStep(stream: seq<byte>, pending: seq<byte>)
    ensures var buffered, piece := DecodeBuffered(pending), NextPiece(stream);
            && (buffered.Complete? ==>
                  ReadCapsule(stream, pending) == ReadResult(Ok(buffered.capsule), stream, pending[buffered.len..]))
            && (buffered == NeedMore && piece.Piece? ==>
                  ReadCapsule(stream, pending) == ReadCapsule(stream[piece.len..], pending + piece.data))
  {
    hide DecodeBuffered, NextPiece;
  }

  /** Reading the next frame; GREASE and other non-DATA frames are consumed and ignored. */
  method ReadPiece(recv: Buf) returns (r: Result<seq<byte>, CapsuleError>)
    modifies recv
    ensures match NextPiece(old(recv.rest))
            case Broken(e) => r == Err(e)
            case Piece(data, n) => r == Ok(data) && recv.rest == old(recv.rest)[n..]
  {
    hide Parse;
    ghost var all := recv.rest;
    var typ := VarInts.Read(recv);
    if typ.None? {
      return Err(UnexpectedEnd);
    }
    var length := VarInts.Read(recv);
    if length.None? {
      return Err(UnexpectedEnd);
    }
    ghost var h := ParseHeader(all).value;
    assert recv.rest == all[h.len..];
    if length.value > MAX_CAPSULE_FRAME_SIZE {
      return Err(MessageTooLong);
    }
    var payload := recv.ReadExact(length.value);
    if payload.None? {
      return Err(Io);
    }
    assert payload.value == all[h.len..h.len + h.length];
    if IsGrease(typ.value) {
      return Ok([]);
    }
    if typ.value != DATA {
      return Ok([]);
    }
    r := Ok(payload.value);
  }

  /** The loop of one call. The buffer never holds more than a partial capsule and one frame. */
  method ReadCapsuleFrame(recv: Buf, pending: BytesMut) returns (r: Result<Capsule, CapsuleError>)
    requires |pending.bytes| <= MAX_PARTIAL + MAX_CAPSULE_FRAME_SIZE
    modifies recv, pending
    ensures var read := ReadCapsule(old(recv.rest), old(pending.bytes));
            && r == read.result && pending.bytes == read.pending
            && (r.Ok? ==> recv.rest == read.rest)
    ensures |pending.bytes| <= MAX_PARTIAL + MAX_CAPSULE_FRAME_SIZE
  {
    hide DecodeBuffered, NextPiece;
    ghost var goal := ReadCapsule(recv.rest, pending.bytes);
    while true
      invariant ReadCapsule(recv.rest, pending.bytes) == goal
      invariant |pending.bytes| <= MAX_PARTIAL + MAX_CAPSULE_FRAME_SIZE
      decreases |recv.rest|
    {
      ghost var before := pending.bytes;
      var capsule := DecodeBufferedCapsule(pending);
      if capsule.Err? {
        return Err(capsule.error);
      }
      if capsule.value.Some? {
        return Ok(capsule.value.value);
      }
      // More input is needed only for a partial capsule.
      PartialIsShort(before);
      var payload := ReadPiece(recv);
      if payload.Err? {
        return Err(payload.error);
      }
      pending.ExtendFromSlice(payload.value);
    }
  }

  // ------------------------------------------------------- properties of the buffer

  lemma PartialIsShort(pending: seq<byte>)
    requires DecodeBuffered(pending) == NeedMore
    ensures |pending| <= MAX_PARTIAL
  {
    hide Parse;
  }

  /** The bound is attained: with eight-byte varints 1043 bytes may still be incomplete. */
  lemma PartialBoundIsTight()
    ensures exists pending :: |pending| == MAX_PARTIAL && DecodeBuffered(pending) == NeedMore
  {
    var typ: seq<byte> := [0xC0, 0, 0, 0, 0, 0, 0, 0];
    var length: seq<byte> := [0xC0, 0, 0, 0, 0, 0, 4, 4];
    EightByteVarInt(0, 0, typ);
    EightByteVarInt(4, 4, length);
    EightBytes(typ);
    EightBytes(length);
    assert |typ| == |length| == 8;
    hide Parse, Untagged, DecodeCapsule;
    var payload: seq<byte> := seq(MAX_CLOSE_PAYLOAD_SIZE - 1, _ => 0);
    var pending := typ + length + payload;
    assert pending == typ + (length + payload) && pending[8..] == length + payload;
    ParseStable(typ, length + payload);
    ParseStable(length, payload);
    assert DecodeBuffered(pending) == NeedMore;
  }

  lemma EightBytes(b: seq<byte>)
    requires |b| == 8 && b[0] == 0xC0
    ensures Parse(b) == Some(Parsed(Untagged(b), 8))
  {
    hide Untagged;
    assert b[..8] == b;
  }

  lemma EightByteVarInt(hi: byte, lo: byte, b: seq<byte>)
    requires b == [0xC0, 0, 0, 0, 0, 0, hi, lo]
    ensures Untagged(b) == hi * 256 + lo
  {
    Pow256Values();
    var c: seq<byte> := [0] + b[1..];
    assert c == [0, 0, 0, 0, 0, 0, hi, lo];
    LeadingZero(c);
    LeadingZero(c[1..]);
    LeadingZero(c[2..]);
    LeadingZero(c[3..]);
    LeadingZero(c[4..]);
    LeadingZero(c[5..]);
    assert c[6..] == [hi, lo];
    assert FromBigEndian([lo]) == lo;
    assert [hi, lo][1..] == [lo];
  }

  lemma LeadingZero(c: seq<byte>)
    requires c != [] && c[0] == 0
    ensures FromBigEndian(c) == FromBigEndian(c[1..])
  {
  }

  /** An answer other than "need more" is the same on every extension of the buffer. */
  lemma DecodeBufferedStable(p: seq<byte>, q: seq<byte>)
    requires DecodeBuffered(p) != NeedMore
    ensures DecodeBuffered(p + q) == DecodeBuffered(p)
  {
    hide Parse, DecodeCapsule;
    HeaderStable(p, q);
    var h := ParseHeader(p).value;
    if h.length <= MAX_CLOSE_PAYLOAD_SIZE {
      assert (p + q)[..h.len + h.length] == p[..h.len + h.length];
    }
  }

  // ------------------------------------------------------- whole streams

  /** The capsules of a stream, and the error that ends reading it. */
  datatype Outcome = Outcome(capsules: seq<Capsule>, error: CapsuleError)

  /** Calling the frame reader until it fails, on a stream that ends after `stream`. */
  function ReadAll(stream: seq<byte>, pending: seq<byte>): Outcome
    decreases |stream| + |pending|
  {
    var r := ReadCapsule(stream, pending);
    ReadCapsuleShrinks(stream, pending);
    match r.result
    case Err(e) => Outcome([], e)
    case Ok(c) => var more := ReadAll(r.rest, r.pending); Outcome([c] + more.capsules, more.error)
  }

  lemma {:induction false} ReadCapsuleShrinks(stream: seq<byte>, pending: seq<byte>)
    ensures var r := ReadCapsule(stream, pending);
            r.result.Ok? ==> |r.rest| + |r.pending| < |stream| + |pending|
    decreases |stream|
  {
    hide DecodeBuffered, NextPiece;
    if DecodeBuffered(pending) == NeedMore && NextPiece(stream).Piece? {
      var p := NextPiece(stream);
      ReadCapsuleShrinks(stream[p.len..], pending + p.data);
    }
  }

  /** Parsing capsule bytes that are all there at once; None when they end within a capsule. */
  datatype Parsing = Parsing(capsules: seq<Capsule>, stop: Option<CapsuleError>)

  function ParseAll(data: seq<byte>): Parsing
    decreases |data|
  {
    match DecodeBuffered(data)
    case NeedMore => Parsing([], None)
    case Malformed(e) => Parsing([], Some(e))
    case Complete(c, n) => var more := ParseAll(data[n..]); Parsing([c] + more.capsules, more.stop)
  }

  /** The DATA bytes of a stream up to its first defect, and that defect. */
  datatype Deframed = Deframed(data: seq<byte>, error: CapsuleError)

  function Deframe(stream: seq<byte>): Deframed
    decreases |stream|
  {
    var piece := NextPiece(stream);
    if piece.Broken? then Deframed([], piece.error)
    else
      var more := Deframe(stream[piece.len..]);
      Deframed(piece.data + more.data, more.error)
  }

  function Combine(p: Parsing, e: CapsuleError): Outcome {
    Outcome(p.capsules, if p.stop.Some? then p.stop.value else e)
  }

  lemma ReadAllNeedsMore(stream: seq<byte>, pending: seq<byte>)
    requires DecodeBuffered(pending) == NeedMore
    ensures var piece := NextPiece(stream);
            ReadAll(stream, pending) == if piece.Broken? then Outcome([], piece.error)
                                        else ReadAll(stream[piece.len..], pending + piece.data)
  {
    hide DecodeBuffered, NextPiece;
  }

  lemma ReadAllBuffered(stream: seq<byte>, pending: seq<byte>)
    requires DecodeBuffered(pending) != NeedMore
    ensures var buffered := DecodeBuffered(pending);
            ReadAll(stream, pending) == if buffered.Malformed? then Outcome([], buffered.error)
                                        else var more := ReadAll(stream, pending[buffered.len..]);
                                             Outcome([buffered.capsule] + more.capsules, more.error)
  {
    hide DecodeBuffered, NextPiece;
  }

  /**
   * On every byte stream whatsoever, reading capsule by capsule gives what parsing the joined
   * DATA payloads at once gives, followed by the stream's own defect.
   */
  lemma {:induction false} ReassemblyIsParsing(stream: seq<byte>, pending: seq<byte>)
    ensures ReadAll(stream, pending) == Combine(ParseAll(pending + Deframe(stream).data), Deframe(stream).error)
    decreases |stream| + |pending|
  {
    hide DecodeBuffered, NextPiece, ReadAll;
    var d := Deframe(stream);
    var buffered := DecodeBuffered(pending);
    if buffered != NeedMore {
      ReadAllBuffered(stream, pending);
      DecodeBufferedStable(pending, d.data);
      if buffered.Complete? {
        assert (pending + d.data)[buffered.len..] == pending[buffered.len..] + d.data;
        ReassemblyIsParsing(stream, pending[buffered.len..]);
      }
    } else {
      ReadAllNeedsMore(stream, pending);
      var piece := NextPiece(stream);
      if piece.Broken? {
        assert pending + [] == pending;
      } else {
        var rest := stream[piece.len..];
        ReassemblyIsParsing(rest, pending + piece.data);
        assert (pending + piece.data) + Deframe(rest).data == pending + d.data;
      }
    }
  }

  // ------------------------------------------------------- framings

  predicate WellSent(f: WireFrame) {
    Announced(f) && |f.payload| <= MAX_CAPSULE_FRAME_SIZE
  }

  /** The payloads of the DATA frames, in order. */
  function DataOf(frames: seq<WireFrame>): seq<byte> {
    if frames == [] then []
    else (if frames[0].typ == DATA then frames[0].payload else []) + DataOf(frames[1..])
  }

  lemma {:induction false} DeframeWire(frames: seq<WireFrame>)
    requires forall i :: 0 <= i < |frames| ==> WellSent(frames[i])
    ensures Deframe(Wire(frames)) == Deframed(DataOf(frames), UnexpectedEnd)
  {
    assert NextPiece([]) == Broken(UnexpectedEnd);
    hide Parse;
    if frames != [] {
      var f, rest := frames[0], Wire(frames[1..]);
      assert WellSent(f);
      HeaderStable(f.header, f.payload + rest);
      assert Wire(frames) == f.header + (f.payload + rest);
      var h := |f.header|;
      assert Wire(frames)[h..h + |f.payload|] == f.payload;
      assert Wire(frames)[h + |f.payload|..] == rest;
      DeframeWire(frames[1..]);
    }
  }

  /**
   * However capsule bytes are cut into DATA frames, with whatever other frames in between, the result is the same.
   */
  lemma FragmentationInvariance(frames: seq<WireFrame>)
    requires forall i :: 0 <= i < |frames| ==> WellSent(frames[i])
    ensures ReadAll(Wire(frames), []) == Combine(ParseAll(DataOf(frames)), UnexpectedEnd)
  {
    hide ReadAll, ParseAll, Deframe, WellSent;
    DeframeWire(frames);
    ReassemblyIsParsing(Wire(frames), []);
    assert [] + DataOf(frames) == DataOf(frames);
  }
}
