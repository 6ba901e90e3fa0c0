/** Capsules on the CONNECT stream (section 3.2 of RFC 9297). */
module Capsules {
  import opened Bytes
  import opened VarInts
  import opened Frames
  import StreamFrames
  import Utf8

  const CLOSE_WEBTRANSPORT_SESSION_TYPE: VarInt := 0x2843
  const MAX_MESSAGE_SIZE: nat := 1024
  const MAX_CLOSE_PAYLOAD_SIZE: nat := 4 + MAX_MESSAGE_SIZE

  datatype Capsule =
    | CloseWebTransportSession(code: u32, reason: seq<byte>)
    | Unknown(typ: VarInt, payload: seq<byte>)

  datatype CapsuleError = UnexpectedEnd | InvalidUtf8 | MessageTooLong | VarIntEnd | Io

  /** What a capsule of this type and this complete payload means. */
  function Interpret(typ: VarInt, payload: seq<byte>): Result<Capsule, CapsuleError> {
    if typ == CLOSE_WEBTRANSPORT_SESSION_TYPE then
      if |payload| < 4 then Err(UnexpectedEnd)
      else if |payload| - 4 > MAX_MESSAGE_SIZE then Err(MessageTooLong)
      else if !Utf8.Valid(payload[4..]) then Err(InvalidUtf8)
      else
        Pow256Values();
        Ok(CloseWebTransportSession(FromBigEndian(payload[..4]), payload[4..]))
    else Ok(Unknown(typ, payload))
  }

  /** A decoded capsule and the number of bytes it took. */
  datatype Decoded = Decoded(capsule: Capsule, len: nat)

  function DecodeCapsule(b: seq<byte>): (r: Result<Decoded, CapsuleError>)
    ensures r.Ok? ==> r.value.len <= |b|
  {
    match ParseHeader(b)
    case None => Err(VarIntEnd)
    case Some(h) =>
      if h.length > MAX_CLOSE_PAYLOAD_SIZE then Err(MessageTooLong)
      else if |b| - h.len < h.length then Err(UnexpectedEnd)
      else
        match Interpret(h.typ, b[h.len..h.len + h.length])
        case Err(e) => Err(e)
        case Ok(c) => Ok(Decoded(c, h.len + h.length))
  }

  function EncodeCapsule(c: Capsule): Result<seq<byte>, CapsuleError> {
    match c
    case CloseWebTransportSession(code, reason) =>
      if |reason| > MAX_MESSAGE_SIZE then Err(MessageTooLong)
      else
        Pow256Values();
        Ok(EncodeHeader(CLOSE_WEBTRANSPORT_SESSION_TYPE, 4 + |reason|) + (ToBigEndian(code, 4) + reason))
    case Unknown(typ, payload) =>
      if |payload| > MAX_CLOSE_PAYLOAD_SIZE then Err(MessageTooLong)
      else Ok(EncodeHeader(typ, |payload|) + payload)
  }

  /** Decoding in place, in the order of the wire: type, length, then the payload. */
  method Decode(buf: Buf) returns (r: Result<Capsule, CapsuleError>)
    modifies buf
    ensures match DecodeCapsule(old(buf.rest))
            case Err(e) => r == Err(e)
            case Ok(d) => r == Ok(d.capsule) && buf.rest == old(buf.rest)[d.len..]
  {
    hide Parse, Utf8.Valid;
    ghost var all := buf.rest;
    var typ := VarInts.Decode(buf);
    if typ.None? {
      return Err(VarIntEnd);
    }
    var length := VarInts.Decode(buf);
    if length.None? {
      return Err(VarIntEnd);
    }
    ghost var h := ParseHeader(all).value;
    assert buf.rest == all[h.len..];
    if length.value > MAX_CLOSE_PAYLOAD_SIZE {
      return Err(MessageTooLong);
    }
    if |buf.rest| < length.value {
      return Err(UnexpectedEnd);
    }
    var taken := buf.Take(length.value);
    assert taken == all[h.len..h.len + h.length];
    var payload := new Buf(taken);
    if typ.value == CLOSE_WEBTRANSPORT_SESSION_TYPE {
      if |payload.rest| < 4 {
        return Err(UnexpectedEnd);
      }
      var code := payload.Take(4);
      assert code == taken[..4] && payload.rest == taken[4..];
      if |payload.rest| > MAX_MESSAGE_SIZE {
        return Err(MessageTooLong);
      }
      if !Utf8.Valid(payload.rest) {
        return Err(InvalidUtf8);
      }
      Pow256Values();
      r := Ok(CloseWebTransportSession(FromBigEndian(code), payload.rest));
    } else {
      r := Ok(Unknown(typ.value, payload.rest));
    }
  }

  method EncodeTo(c: Capsule, buf: BufMut) returns (e: Option<CapsuleError>)
    modifies buf
    ensures match EncodeCapsule(c)
            case Err(error) => e == Some(error) && buf.bytes == old(buf.bytes)
            case Ok(b) => e == None && buf.bytes == old(buf.bytes) + b
  {
    hide Encode, ToBigEndian;
    match c {
      case CloseWebTransportSession(code, reason) =>
        if |reason| > MAX_MESSAGE_SIZE {
          return Some(MessageTooLong);
        }
        VarInts.Put(CLOSE_WEBTRANSPORT_SESSION_TYPE, buf);
        VarInts.Put(4 + |reason|, buf);
        Pow256Values();
        buf.PutSlice(ToBigEndian(code, 4));
        buf.PutSlice(reason);
      case Unknown(typ, payload) =>
        if |payload| > MAX_CLOSE_PAYLOAD_SIZE {
          return Some(MessageTooLong);
        }
        VarInts.Put(typ, buf);
        VarInts.Put(|payload|, buf);
        buf.PutSlice(payload);
    }
    e := None;
  }

  /** The streaming reader's result: the same capsules, but an early end is reported as the stream's. */
  function FromStream(b: seq<byte>): (r: Result<Decoded, CapsuleError>)
    ensures r.Ok? ==> r.value.len <= |b|
  {
    match ParseHeader(b)
    case None => Err(UnexpectedEnd)
    case Some(h) =>
      if h.length > MAX_CLOSE_PAYLOAD_SIZE then Err(MessageTooLong)
      else if |b| - h.len < h.length then Err(Io)
      else
        match Interpret(h.typ, b[h.len..h.len + h.length])
        case Err(e) => Err(e)
        case Ok(c) => Ok(Decoded(c, h.len + h.length))
  }

  /** Reading one capsule from a stream re-encodes its header before decoding it. */
  method Read(stream: Buf) returns (r: Result<Capsule, CapsuleError>)
    modifies stream
    ensures match FromStream(old(stream.rest))
            case Err(e) => r == Err(e)
            case Ok(d) => r == Ok(d.capsule) && stream.rest == old(stream.rest)[d.len..]
  {
    hide Parse, Encode, Interpret;
    ghost var all := stream.rest;
    var typ := VarInts.Read(stream);
    if typ.None? {
      return Err(UnexpectedEnd);
    }
    var length := VarInts.Read(stream);
    if length.None? {
      return Err(UnexpectedEnd);
    }
    ghost var h := ParseHeader(all).value;
    assert stream.rest == all[h.len..];
    if length.value > MAX_CLOSE_PAYLOAD_SIZE {
      return Err(MessageTooLong);
    }
    var payload := stream.ReadExact(length.value);
    if payload.None? {
      return Err(Io);
    }
    assert payload.value == all[h.len..h.len + h.length];
    var capsule := new Buf(Encode(typ.value) + Encode(length.value) + payload.value);
    assert capsule.rest == EncodeHeader(typ.value, length.value) + payload.value;
    HeaderRoundTrip(typ.value, length.value, payload.value);
    ghost var n := |EncodeHeader(typ.value, length.value)|;
    assert capsule.rest[n..n + length.value] == payload.value;
    r := Decode(capsule);
  }

  // ------------------------------------------------------- properties

  /** A stream yields a capsule exactly when a buffer does, and the same one. */
  lemma ReadRefinesDecode(b: seq<byte>)
    ensures FromStream(b).Ok? <==> DecodeCapsule(b).Ok?
    ensures DecodeCapsule(b).Ok? ==> FromStream(b) == DecodeCapsule(b)
  {
    hide Parse, Interpret, ParseHeader;
  }

  /** The capsules that decoding can produce. */
  predicate Canonical(c: Capsule) {
    match c
    case CloseWebTransportSession(_, reason) => |reason| <= MAX_MESSAGE_SIZE && Utf8.Valid(reason)
    case Unknown(typ, payload) =>
      typ != CLOSE_WEBTRANSPORT_SESSION_TYPE && |payload| <= MAX_CLOSE_PAYLOAD_SIZE
  }

  /** Decoding a header and its payload, in front of any bytes. */
  lemma DecodePayload(typ: VarInt, payload: seq<byte>, more: seq<byte>)
    requires |payload| <= MAX_CLOSE_PAYLOAD_SIZE
    ensures var r, b := Interpret(typ, payload), EncodeHeader(typ, |payload|) + payload;
            DecodeCapsule(b + more) == if r.Err? then Err(r.error) else Ok(Decoded(r.value, |b|))
  {
    hide Parse, Encode, ParseHeader, EncodeHeader, Interpret;
    var header := EncodeHeader(typ, |payload|);
    HeaderRoundTrip(typ, |payload|, payload + more);
    assert header + payload + more == header + (payload + more);
    assert (header + (payload + more))[|header|..|header| + |payload|] == payload;
  }

  lemma InterpretClose(code: u32, reason: seq<byte>)
    requires |reason| <= MAX_MESSAGE_SIZE && code < Pow256(4)
    ensures Interpret(CLOSE_WEBTRANSPORT_SESSION_TYPE, ToBigEndian(code, 4) + reason) ==
              if Utf8.Valid(reason) then Ok(CloseWebTransportSession(code, reason)) else Err(InvalidUtf8)
  {
    hide Utf8.Valid, ToBigEndian, FromBigEndian;
    var payload := ToBigEndian(code, 4) + reason;
    BigEndianRoundTrip(code, 4);
    assert payload[..4] == ToBigEndian(code, 4) && payload[4..] == reason;
  }

  lemma InterpretIsCanonical(typ: VarInt, payload: seq<byte>)
    requires Interpret(typ, payload).Ok? && |payload| <= MAX_CLOSE_PAYLOAD_SIZE
    ensures Canonical(Interpret(typ, payload).value)
  {
    hide Utf8.Valid;
  }

  /** A capsule survives encoding and decoding, in front of any bytes, exactly when it is canonical. */
  lemma RoundTripExactly(c: Capsule, more: seq<byte>)
    requires EncodeCapsule(c).Ok?
    ensures var b := EncodeCapsule(c).value;
            DecodeCapsule(b + more) == Ok(Decoded(c, |b|)) <==> Canonical(c)
  {
    Pow256Values();
    hide Parse, Encode, ParseHeader, EncodeHeader, DecodeCapsule, Interpret, Utf8.Valid, ToBigEndian;
    match c
    case CloseWebTransportSession(code, reason) =>
      var payload := ToBigEndian(code, 4) + reason;
      DecodePayload(CLOSE_WEBTRANSPORT_SESSION_TYPE, payload, more);
      InterpretClose(code, reason);
    case Unknown(typ, payload) =>
      DecodePayload(typ, payload, more);
      if Interpret(typ, payload) == Ok(c) {
        InterpretIsCanonical(typ, payload);
      } else {
        InterpretUnknown(typ, payload);
      }
  }

  lemma InterpretUnknown(typ: VarInt, payload: seq<byte>)
    ensures typ != CLOSE_WEBTRANSPORT_SESSION_TYPE ==> Interpret(typ, payload) == Ok(Unknown(typ, payload))
  {
  }

  lemma DecodedIsCanonical(b: seq<byte>)
    requires DecodeCapsule(b).Ok?
    ensures Canonical(DecodeCapsule(b).value.capsule)
  {
    hide Parse, Utf8.Valid, ParseHeader;
  }

  /** What decodes, re-encodes to at most as many bytes and decodes to the same capsule again. */
  lemma DecodeEncodeDecode(b: seq<byte>)
    requires DecodeCapsule(b).Ok?
    ensures var d := DecodeCapsule(b).value;
            && EncodeCapsule(d.capsule).Ok?
            && |EncodeCapsule(d.capsule).value| <= d.len
            && DecodeCapsule(EncodeCapsule(d.capsule).value)
               == Ok(Decoded(d.capsule, |EncodeCapsule(d.capsule).value|))
  {
    hide Parse, Encode, Utf8.Valid, ParseHeader;
    var d := DecodeCapsule(b).value;
    DecodedIsCanonical(b);
    RoundTripExactly(d.capsule, []);
    assert EncodeCapsule(d.capsule).value + [] == EncodeCapsule(d.capsule).value;
    HeaderShortest(b);
  }

  /** A successful decode consumes exactly the header and the declared length, whatever follows. */
  lemma DecodeLocal(b: seq<byte>, more: seq<byte>)
    requires DecodeCapsule(b).Ok?
    ensures ParseHeader(b).Some?
    ensures DecodeCapsule(b).value.len == ParseHeader(b).value.len + ParseHeader(b).value.length
    ensures DecodeCapsule(b + more) == DecodeCapsule(b)
  {
    hide Parse, Utf8.Valid, Interpret;
    HeaderStable(b, more);
    var h := ParseHeader(b).value;
    assert (b + more)[h.len..h.len + h.length] == b[h.len..h.len + h.length];
  }

  lemma HeaderDecides(b: seq<byte>)
    ensures ParseHeader(b).None? ==> DecodeCapsule(b) == Err(VarIntEnd) && FromStream(b) == Err(UnexpectedEnd)
    ensures ParseHeader(b).Some? ==>
              var h := ParseHeader(b).value;
              && (h.length > MAX_CLOSE_PAYLOAD_SIZE ==>
                    DecodeCapsule(b) == Err(MessageTooLong) && FromStream(b) == Err(MessageTooLong))
              && (h.length <= MAX_CLOSE_PAYLOAD_SIZE && |b| < h.len + h.length ==>
                    DecodeCapsule(b) == Err(UnexpectedEnd) && FromStream(b) == Err(Io))
              && (h.length <= MAX_CLOSE_PAYLOAD_SIZE && |b| >= h.len + h.length ==>
                    var r := Interpret(h.typ, b[h.len..h.len + h.length]);
                    DecodeCapsule(b) == FromStream(b) ==
                      if r.Err? then Err(r.error) else Ok(Decoded(r.value, h.len + h.length)))
  {
    hide ParseHeader, Interpret;
  }

  function CloseOf(payload: seq<byte>): Capsule
    requires |payload| >= 4
  {
    Pow256Values();
    CloseWebTransportSession(FromBigEndian(payload[..4]), payload[4..])
  }

  /**
   * What any sender's capsule is read as, from a buffer and from a stream alike: more than 1028 bytes are too many;
   * a close needs four bytes of code and then text; all other types are kept as they are.
   */
  lemma CapsuleExactly(f: StreamFrames.WireFrame, more: seq<byte>)
    requires StreamFrames.Announced(f)
    ensures var b := f.header + f.payload + more;
            var n := |f.header| + |f.payload|;
            && DecodeCapsule(b) == FromStream(b)
            && DecodeCapsule(b) ==
                 if |f.payload| > 1028 then Err(MessageTooLong)
                 else if f.typ != 0x2843 then Ok(Decoded(Unknown(f.typ, f.payload), n))
                 else if |f.payload| < 4 then Err(UnexpectedEnd)
                 else if !Utf8.Valid(f.payload[4..]) then Err(InvalidUtf8)
                 else Ok(Decoded(CloseOf(f.payload), n))
  {
    StreamFrames.FrameAtFront(f, more);
    HeaderDecides(f.header + f.payload + more);
    hide ParseHeader, DecodeCapsule, FromStream, Utf8.Valid, FromBigEndian;
  }

  /** A capsule cut off within its header or its payload: a buffer and a stream report it differently. */
  lemma CutCapsule(f: StreamFrames.WireFrame, k: nat)
    requires StreamFrames.Announced(f) && k < |f.header| + |f.payload|
    ensures var b := (f.header + f.payload)[..k];
            && (k < |f.header| ==> DecodeCapsule(b) == Err(VarIntEnd) && FromStream(b) == Err(UnexpectedEnd))
            && (k >= |f.header| && |f.payload| > 1028 ==>
                  DecodeCapsule(b) == Err(MessageTooLong) && FromStream(b) == Err(MessageTooLong))
            && (k >= |f.header| && |f.payload| <= 1028 ==>
                  DecodeCapsule(b) == Err(UnexpectedEnd) && FromStream(b) == Err(Io))
  {
    StreamFrames.CutHeader(f, k);
    HeaderDecides((f.header + f.payload)[..k]);
    hide ParseHeader, DecodeCapsule, FromStream;
  }
}
