/** Reading one frame from a stream with a bound on its length, against reading it from a buffer. */
module StreamFrames {
  import opened Bytes
  import opened VarInts
  import opened Frames

  datatype StreamError = Exhausted | TooLong | Severed

  function After(r: Result<Frame, StreamError>, n: nat): Result<Frame, StreamError> {
    if r.Err? then r else Ok(r.value.(len := n + r.value.len))
  }

  /** The first frame that is not GREASE; no frame up to it may announce more than `max` bytes. */
  function ReadBounded(b: seq<byte>, max: nat): (r: Result<Frame, StreamError>)
    ensures r.Ok? ==> 2 <= r.value.len <= |b| && !IsGrease(r.value.typ) && |r.value.payload| <= max
    decreases |b|
  {
    match ParseHeader(b)
    case None => Err(Exhausted)
    case Some(h) =>
      if h.length > max then Err(TooLong)
      else if |b| < h.len + h.length then Err(Severed)
      else if IsGrease(h.typ) then After(ReadBounded(b[h.len + h.length..], max), h.len + h.length)
      else Ok(Frame(h.typ, b[h.len..h.len + h.length], h.len + h.length))
  }

  /** Every frame up to and including the first that is not GREASE announces at most `max` bytes. */
  predicate FramesWithin(b: seq<byte>, max: nat)
    decreases |b|
  {
    match ParseHeader(b)
    case None => true
    case Some(h) =>
      h.length <= max
      && (IsGrease(h.typ) && h.len + h.length <= |b| ==> FramesWithin(b[h.len + h.length..], max))
  }

  lemma ReadBoundedStep(b: seq<byte>, max: nat)
    ensures var header := ParseHeader(b);
            ReadBounded(b, max) ==
              if header.None? then Err(Exhausted)
              else
                var h, next := header.value, header.value.len + header.value.length;
                if h.length > max then Err(TooLong)
                else if |b| < next then Err(Severed)
                else if IsGrease(h.typ) then After(ReadBounded(b[next..], max), next)
                else Ok(Frame(h.typ, b[h.len..next], next))
  {
    hide ParseHeader, IsGrease;
  }

  /**
   * A stream gives a frame exactly when a buffer does and no length on the way exceeds the bound; it is the same
   * frame.
   */
  lemma {:induction false} BoundedRefines(b: seq<byte>, max: nat, f: Frame)
    ensures ReadBounded(b, max) == Ok(f) <==> ReadFrame(b) == Some(f) && FramesWithin(b, max)
    decreases |b|
  {
    ReadBoundedStep(b, max);
    ReadFrameStep(b);
    hide ParseHeader, IsGrease, ReadBounded, ReadFrame;
    if ParseHeader(b).Some? {
      var h, next := ParseHeader(b).value, ParseHeader(b).value.len + ParseHeader(b).value.length;
      if h.length <= max && next <= |b| && IsGrease(h.typ) {
        var g := f.(len := if f.len >= next then f.len - next else 0);
        BoundedRefines(b[next..], max, g);
        if ReadFrame(b[next..]).Some? {
          BoundedRefines(b[next..], max, ReadFrame(b[next..]).value);
        }
        if ReadBounded(b[next..], max).Ok? {
          BoundedRefines(b[next..], max, ReadBounded(b[next..], max).value);
        }
      }
    }
  }

  /** A frame is found in the bytes it was read from, and in everything that starts with them. */
  lemma {:induction false} FrameLocal(b: seq<byte>, more: seq<byte>)
    requires ReadFrame(b).Some?
    ensures var n := ReadFrame(b).value.len; ReadFrame(b[..n] + more) == ReadFrame(b)
    decreases |b|
  {
    ReadFrameStep(b);
    hide ParseHeader, IsGrease, ReadFrame;
    var f := ReadFrame(b).value;
    var h, next := ParseHeader(b).value, ParseHeader(b).value.len + ParseHeader(b).value.length;
    var c := b[..f.len] + more;
    assert next <= f.len;
    HeaderOfPart(b, f.len, more);
    ReadFrameStep(c);
    SlicesOfPart(b, f.len, more, h.len, next);
    if IsGrease(h.typ) {
      FrameLocal(b[next..], more);
    }
  }

  lemma HeaderOfPart(b: seq<byte>, n: nat, more: seq<byte>)
    requires ParseHeader(b).Some? && ParseHeader(b).value.len <= n <= |b|
    ensures ParseHeader(b[..n] + more) == ParseHeader(b)
  {
    hide ParseHeader;
    HeaderLocal(b, n);
    HeaderStable(b[..n], more);
  }

  lemma SlicesOfPart(b: seq<byte>, n: nat, more: seq<byte>, i: nat, j: nat)
    requires i <= j <= n <= |b|
    ensures (b[..n] + more)[i..j] == b[i..j]
    ensures (b[..n] + more)[j..] == b[j..][..n - j] + more
  {
  }

  /** The loop over a stream: two integers, the bound, then exactly the announced bytes. */
  method ReadFrom(stream: Buf, max: nat) returns (r: Result<(VarInt, seq<byte>), StreamError>)
    modifies stream
    ensures match ReadBounded(old(stream.rest), max)
            case Err(e) => r == Err(e)
            case Ok(f) => r == Ok((f.typ, f.payload)) && stream.rest == old(stream.rest)[f.len..]
  {
    hide ParseHeader, ReadBounded, IsGrease;
    ghost var all := stream.rest;
    ghost var skipped: nat := 0;
    while true
      invariant skipped <= |all| && stream.rest == all[skipped..]
      invariant ReadBounded(all, max) == After(ReadBounded(stream.rest, max), skipped)
      decreases |stream.rest|
    {
      ghost var b := stream.rest;
      ReadBoundedStep(b, max);
      var header := ReadStreamHeader(stream);
      if header.None? {
        return Err(Exhausted);
      }
      var (typ, length) := header.value;
      if length > max {
        return Err(TooLong);
      }
      ghost var at := ParseHeader(b).value.len;
      var payload := stream.ReadExact(length);
      if payload.None? {
        return Err(Severed);
      }
      assert stream.rest == b[at + length..] && payload.value == b[at..at + length];
      ghost var passed := skipped + at + length;
      assert stream.rest == all[passed..];
      if !IsGrease(typ) {
        return Ok((typ, payload.value));
      }
      skipped := passed;
    }
  }

  method ReadStreamHeader(stream: Buf) returns (r: Option<(VarInt, VarInt)>)
    modifies stream
    ensures match ParseHeader(old(stream.rest))
            case None => r == None
            case Some(h) => r == Some((h.typ, h.length)) && stream.rest == old(stream.rest)[h.len..]
  {
    hide Parse;
    var typ := VarInts.Read(stream);
    if typ.None? {
      return None;
    }
    var length := VarInts.Read(stream);
    if length.None? {
      return None;
    }
    r := Some((typ.value, length.value));
  }

  /** A frame as it is written. */
  function WriteFrame(typ: VarInt, payload: seq<byte>): seq<byte>
    requires |payload| <= MAX
  {
    EncodeHeader(typ, |payload|) + payload
  }

  method PutFrame(buf: BufMut, typ: VarInt, payload: seq<byte>)
    requires |payload| <= MAX
    modifies buf
    ensures buf.bytes == old(buf.bytes) + WriteFrame(typ, payload)
  {
    hide Encode;
    VarInts.Put(typ, buf);
    VarInts.Put(|payload|, buf);
    buf.PutSlice(payload);
  }

  /** A written frame is read back, whatever follows it, and from a stream too when it is within the bound. */
  lemma FrameRoundTrip(typ: VarInt, payload: seq<byte>, more: seq<byte>, max: nat)
    requires |payload| <= MAX && !IsGrease(typ)
    ensures var b := WriteFrame(typ, payload);
            && ReadFrame(b + more) == Some(Frame(typ, payload, |b|))
            && (|payload| <= max ==> ReadBounded(b + more, max) == Ok(Frame(typ, payload, |b|)))
  {
    hide Parse, Encode, ParseHeader, IsGrease, EncodeHeader;
    var header := EncodeHeader(typ, |payload|);
    var b := WriteFrame(typ, payload) + more;
    assert b == header + (payload + more);
    HeaderRoundTrip(typ, |payload|, payload + more);
    ReadFrameStep(b);
    ReadBoundedStep(b, max);
    hide ReadFrame, ReadBounded;
    assert b[|header|..|header| + |payload|] == payload;
  }

  // ------------------------------------------------------- frames from any sender

  /** A frame as sent: any encodings of its type and length, and its payload. */
  datatype WireFrame = WireFrame(typ: VarInt, header: seq<byte>, payload: seq<byte>)

  predicate Announced(f: WireFrame) {
    |f.payload| <= MAX && ParseHeader(f.header) == Some(Header(f.typ, |f.payload|, |f.header|))
  }

  function Wire(frames: seq<WireFrame>): seq<byte> {
    if frames == [] then [] else frames[0].header + frames[0].payload + Wire(frames[1..])
  }

  predicate AllGrease(frames: seq<WireFrame>) {
    forall i :: 0 <= i < |frames| ==> Announced(frames[i]) && IsGrease(frames[i].typ)
  }

  /** The header and the payload of a frame, in front of any bytes. */
  lemma FrameAtFront(f: WireFrame, more: seq<byte>)
    requires Announced(f)
    ensures var b, h, n := f.header + f.payload + more, |f.header|, |f.header| + |f.payload|;
            && ParseHeader(b) == Some(Header(f.typ, |f.payload|, h))
            && b[h..n] == f.payload && b[n..] == more
  {
    HeaderStable(f.header, f.payload + more);
    assert f.header + f.payload + more == f.header + (f.payload + more);
    hide ParseHeader;
  }

  /** What a part of a frame still announces. */
  lemma CutHeader(f: WireFrame, k: nat)
    requires Announced(f) && k < |f.header| + |f.payload|
    ensures ParseHeader((f.header + f.payload)[..k]) == if k < |f.header| then None else ParseHeader(f.header)
  {
    var b := (f.header + f.payload)[..k];
    if k < |f.header| {
      assert f.header == b + f.header[k..];
      if ParseHeader(b).Some? {
        HeaderStable(b, f.header[k..]);
      }
    } else {
      assert b == f.header + f.payload[..k - |f.header|];
      HeaderStable(f.header, f.payload[..k - |f.header|]);
    }
  }

  lemma GreaseFrameInBuffer(f: WireFrame, more: seq<byte>)
    requires Announced(f) && IsGrease(f.typ)
    ensures ReadFrame(f.header + f.payload + more) == Later(ReadFrame(more), |f.header| + |f.payload|)
  {
    hide *;
    var b := f.header + f.payload + more;
    FrameAtFront(f, more);
    assert |b| >= |f.header| + |f.payload|;
    ReadFrameStep(b);
  }

  lemma GreaseFrameInStream(f: WireFrame, more: seq<byte>, max: nat)
    requires Announced(f) && IsGrease(f.typ)
    ensures ReadBounded(f.header + f.payload + more, max) ==
              if |f.payload| > max then Err(TooLong)
              else After(ReadBounded(more, max), |f.header| + |f.payload|)
  {
    hide *;
    var b := f.header + f.payload + more;
    FrameAtFront(f, more);
    assert |b| >= |f.header| + |f.payload|;
    ReadBoundedStep(b, max);
  }

  predicate SomeOversized(frames: seq<WireFrame>, max: nat) {
    exists i :: 0 <= i < |frames| && |frames[i].payload| > max
  }

  /** However many GREASE frames come first, both readers go on behind them; an oversized one stops the stream's. */
  lemma {:induction false} GreaseIsSkipped(frames: seq<WireFrame>, more: seq<byte>, max: nat)
    requires AllGrease(frames)
    ensures ReadFrame(Wire(frames) + more) == Later(ReadFrame(more), |Wire(frames)|)
    ensures ReadBounded(Wire(frames) + more, max) ==
              if SomeOversized(frames, max) then Err(TooLong) else After(ReadBounded(more, max), |Wire(frames)|)
  {
    hide ReadFrame, ReadBounded, Announced, IsGrease, SomeOversized;
    if frames == [] {
      assert Wire(frames) + more == more;
      NoneOversized(max);
    } else {
      var f, rest := frames[0], frames[1..];
      assert Announced(f) && IsGrease(f.typ);
      assert Wire(frames) + more == f.header + f.payload + (Wire(rest) + more);
      GreaseIsSkipped(rest, more, max);
      GreaseFrameInBuffer(f, Wire(rest) + more);
      GreaseFrameInStream(f, Wire(rest) + more, max);
      OversizedStep(frames, max);
    }
  }

  lemma NoneOversized(max: nat)
    ensures !SomeOversized([], max)
  {
  }

  lemma OversizedStep(frames: seq<WireFrame>, max: nat)
    requires frames != []
    ensures SomeOversized(frames, max) <==> |frames[0].payload| > max || SomeOversized(frames[1..], max)
  {
    var rest := frames[1..];
    if i :| 0 < i < |frames| && |frames[i].payload| > max {
      assert rest[i - 1] == frames[i];
    }
    if i :| 0 <= i < |rest| && |rest[i].payload| > max {
      assert rest[i] == frames[i + 1];
    }
  }

  /** The first frame that is not GREASE, from any sender: it is read in front of any bytes, within the bound. */
  lemma FirstFrameIsRead(f: WireFrame, more: seq<byte>, max: nat)
    requires Announced(f) && !IsGrease(f.typ)
    ensures var b := f.header + f.payload + more;
            var frame := Frame(f.typ, f.payload, |f.header| + |f.payload|);
            ReadFrame(b) == Some(frame) && ReadBounded(b, max) == if |f.payload| > max then Err(TooLong) else Ok(frame)
  {
    var b := f.header + f.payload + more;
    FrameAtFront(f, more);
    ReadFrameStep(b);
    ReadBoundedStep(b, max);
    hide ParseHeader, IsGrease, ReadFrame, ReadBounded;
  }

  /** A part of a frame is no frame, and the stream's reader tells where it ended or what was too long. */
  lemma CutFrameFails(f: WireFrame, k: nat, max: nat)
    requires Announced(f) && k < |f.header| + |f.payload|
    ensures var b := (f.header + f.payload)[..k];
            && ReadFrame(b) == None
            && ReadBounded(b, max) ==
                 if k < |f.header| then Err(Exhausted) else if |f.payload| > max then Err(TooLong) else Err(Severed)
  {
    var b := (f.header + f.payload)[..k];
    CutHeader(f, k);
    ReadFrameStep(b);
    ReadBoundedStep(b, max);
    hide ParseHeader, IsGrease, ReadFrame, ReadBounded;
  }
}
