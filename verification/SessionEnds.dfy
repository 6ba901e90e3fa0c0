/**
 * How a session ends by what its peer sends on the CONNECT stream, for every byte string: first its frames, then the
 * capsules in their payloads, then the one that decides.
 */
module SessionEnds {
  import opened Bytes
  import opened VarInts
  import opened Frames
  import opened Capsules
  import opened ConnectStream
  import opened SessionClose
  import opened StreamFrames
  import Utf8

  // ------------------------------------------------------- the parts of a stream

  /** The header at the front of b announces more than `max` bytes. */
  predicate Oversized(b: seq<byte>, max: nat) {
    ParseHeader(b).Some? && ParseHeader(b).value.length > max
  }

  /** The header at the front of b and all the bytes it announces are there. */
  predicate IsWhole(b: seq<byte>) {
    ParseHeader(b).Some? && |b| >= ParseHeader(b).value.len + ParseHeader(b).value.length
  }

  function Total(b: seq<byte>): (n: nat)
    requires IsWhole(b)
    ensures 2 <= n <= |b|
  {
    ParseHeader(b).value.len + ParseHeader(b).value.length
  }

  function Payload(b: seq<byte>): seq<byte>
    requires IsWhole(b)
  {
    b[ParseHeader(b).value.len..Total(b)]
  }

  predicate AllWellSent(frames: seq<WireFrame>) {
    forall i :: 0 <= i < |frames| ==> WellSent(frames[i])
  }

  /** Some frame of the allowed size is complete. */
  predicate StartsWithFrame(b: seq<byte>) {
    IsWhole(b) && !Oversized(b, MAX_CAPSULE_FRAME_SIZE)
  }

  /** Some capsule of the allowed size is complete, and it is not a close. */
  predicate StartsWithUnknown(b: seq<byte>) {
    IsWhole(b) && !Oversized(b, MAX_CLOSE_PAYLOAD_SIZE) && ParseHeader(b).value.typ != CLOSE_WEBTRANSPORT_SESSION_TYPE
  }

  /** Nothing but complete capsules that are not closes. */
  predicate AllUnknown(b: seq<byte>) {
    b == [] || (StartsWithUnknown(b) && AllUnknown(b[Total(b)..]))
  }

  /** A stream as its frames and what follows them, and their data as the capsules to ignore and what follows those. */
  datatype Split = Split(frames: seq<WireFrame>, tail: seq<byte>, ignored: seq<byte>, rest: seq<byte>)

  predicate IsSplit(stream: seq<byte>, s: Split) {
    && AllWellSent(s.frames) && stream == Wire(s.frames) + s.tail && !StartsWithFrame(s.tail)
    && AllUnknown(s.ignored) && DataOf(s.frames) == s.ignored + s.rest && !StartsWithUnknown(s.rest)
  }

  /** A stream without a decision just ended, unless it was stopped at an oversized frame. */
  function Undecided(tail: seq<byte>): Closure {
    if Oversized(tail, MAX_CAPSULE_FRAME_SIZE) then Failed(MessageTooLong) else Ended
  }

  /** What the remains of a stream decide. A close without a whole code counts as the end of the stream. */
  function Decided(tail: seq<byte>, rest: seq<byte>): Closure {
    if Oversized(rest, MAX_CLOSE_PAYLOAD_SIZE) then Failed(MessageTooLong)
    else if !IsWhole(rest) then Undecided(tail)
    else if |Payload(rest)| < 4 then Ended
    else if !Utf8.Valid(Payload(rest)[4..]) then Failed(InvalidUtf8)
    else
      Pow256Values();
      Closed(FromBigEndian(Payload(rest)[..4]), Payload(rest)[4..])
  }

  // ------------------------------------------------------- every stream has them

  lemma Cut(b: seq<byte>, i: nat, j: nat)
    requires i <= j <= |b|
    ensures b == b[..i] + b[i..j] + b[j..]
  {
  }

  lemma WholeFrame(b: seq<byte>) returns (f: WireFrame)
    requires StartsWithFrame(b)
    ensures WellSent(f) && b == f.header + f.payload + b[Total(b)..]
  {
    var h := ParseHeader(b).value;
    HeaderLocal(b, h.len);
    Cut(b, h.len, Total(b));
    hide ParseHeader;
    f := WireFrame(h.typ, b[..h.len], Payload(b));
  }

  lemma {:induction false} FramesSplit(stream: seq<byte>) returns (frames: seq<WireFrame>, tail: seq<byte>)
    ensures AllWellSent(frames) && stream == Wire(frames) + tail && !StartsWithFrame(tail)
    decreases |stream|
  {
    hide StartsWithFrame, Total, WellSent;
    if StartsWithFrame(stream) {
      var f := WholeFrame(stream);
      TotalInside(stream);
      var more, t := FramesSplit(stream[Total(stream)..]);
      frames, tail := [f] + more, t;
      assert frames[1..] == more;
      assert stream == f.header + f.payload + (Wire(more) + tail);
    } else {
      frames, tail := [], stream;
    }
  }

  lemma TotalInside(b: seq<byte>)
    requires StartsWithFrame(b)
    ensures IsWhole(b) && 2 <= Total(b) <= |b|
  {
  }

  lemma {:induction false} CapsulesSplit(data: seq<byte>) returns (ignored: seq<byte>, rest: seq<byte>)
    ensures AllUnknown(ignored) && data == ignored + rest && !StartsWithUnknown(rest)
    decreases |data|
  {
    hide ParseHeader;
    if StartsWithUnknown(data) {
      var n := Total(data);
      var more, r := CapsulesSplit(data[n..]);
      ignored, rest := data[..n] + more, r;
      UnknownCons(data, more);
      assert data == data[..n] + data[n..];
    } else {
      ignored, rest := [], data;
    }
  }

  lemma UnknownLocal(b: seq<byte>, more: seq<byte>)
    requires StartsWithUnknown(b)
    ensures var c := b[..Total(b)] + more; StartsWithUnknown(c) && IsWhole(c) && Total(c) == Total(b)
    ensures b[..Total(b)] + b[Total(b)..] == b
  {
    HeaderLocal(b, Total(b));
    HeaderStable(b[..Total(b)], more);
    hide ParseHeader;
  }

  lemma UnknownCons(b: seq<byte>, more: seq<byte>)
    requires StartsWithUnknown(b) && AllUnknown(more)
    ensures AllUnknown(b[..Total(b)] + more)
  {
    UnknownLocal(b, more);
    hide StartsWithUnknown;
    var c := b[..Total(b)] + more;
    assert c[Total(b)..] == more;
  }

  /** Every byte string is a CONNECT stream that splits in this way. */
  lemma EveryStreamSplits(stream: seq<byte>) returns (s: Split)
    ensures IsSplit(stream, s)
  {
    var frames, tail := FramesSplit(stream);
    var ignored, rest := CapsulesSplit(DataOf(frames));
    s := Split(frames, tail, ignored, rest);
  }

  // ------------------------------------------------------- the parts decide

  function TailError(tail: seq<byte>): CapsuleError {
    if ParseHeader(tail).None? then CapsuleError.UnexpectedEnd
    else if Oversized(tail, MAX_CAPSULE_FRAME_SIZE) then MessageTooLong
    else Io
  }

  lemma TailIsBroken(tail: seq<byte>)
    requires !StartsWithFrame(tail)
    ensures Deframe(tail) == Deframed([], TailError(tail))
  {
    hide ParseHeader;
  }

  lemma FrameThenMore(f: WireFrame, more: seq<byte>)
    requires WellSent(f)
    ensures var d := Deframe(more);
            Deframe(f.header + f.payload + more) ==
              Deframed((if f.typ == DATA then f.payload else []) + d.data, d.error)
  {
    HeaderStable(f.header, f.payload + more);
    hide ParseHeader;
    var stream := f.header + f.payload + more;
    assert stream == f.header + (f.payload + more);
    var n := |f.header| + |f.payload|;
    assert stream[|f.header|..n] == f.payload && stream[n..] == more;
  }

  lemma {:induction false} DeframeSplit(frames: seq<WireFrame>, tail: seq<byte>)
    requires AllWellSent(frames) && !StartsWithFrame(tail)
    ensures Deframe(Wire(frames) + tail) == Deframed(DataOf(frames), TailError(tail))
  {
    hide Deframe, TailError, StartsWithFrame, WellSent;
    if frames == [] {
      TailIsBroken(tail);
      assert Wire(frames) + tail == tail;
    } else {
      var f, more := frames[0], Wire(frames[1..]) + tail;
      DeframeSplit(frames[1..], tail);
      FrameThenMore(f, more);
      assert Wire(frames) + tail == f.header + f.payload + more;
    }
  }

  function ClosureOfData(data: seq<byte>, e: CapsuleError): Closure {
    var o := Combine(ParseAll(data), e);
    FirstClose(o.capsules, o.error)
  }

  /** A whole capsule of the allowed size is cut out of the buffer with the meaning of its type and payload. */
  lemma WholeIsBuffered(b: seq<byte>)
    requires IsWhole(b) && !Oversized(b, MAX_CLOSE_PAYLOAD_SIZE)
    ensures var c := Interpret(ParseHeader(b).value.typ, Payload(b));
            DecodeBuffered(b) == if c.Err? then Malformed(c.error) else Complete(c.value, Total(b))
  {
    var h, n := ParseHeader(b).value, Total(b);
    HeaderLocal(b, n);
    hide ParseHeader, Interpret;
    assert b[..n][h.len..n] == b[h.len..n];
  }

  lemma UnknownIsBuffered(b: seq<byte>)
    requires StartsWithUnknown(b)
    ensures var d := DecodeBuffered(b); d.Complete? && d.capsule.Unknown? && d.len == Total(b)
  {
    WholeIsBuffered(b);
    hide ParseHeader, DecodeBuffered, Utf8.Valid, FromBigEndian;
  }

  lemma IgnoredStep(b: seq<byte>, e: CapsuleError)
    requires StartsWithUnknown(b)
    ensures ClosureOfData(b, e) == ClosureOfData(b[Total(b)..], e)
  {
    UnknownIsBuffered(b);
    hide DecodeBuffered, StartsWithUnknown, IsGraceful;
    var more := ParseAll(b[Total(b)..]);
    assert ParseAll(b).capsules[1..] == more.capsules;
  }

  lemma UnknownStep(b: seq<byte>)
    requires AllUnknown(b) && b != []
    ensures StartsWithUnknown(b) && IsWhole(b) && 2 <= Total(b) <= |b| && AllUnknown(b[Total(b)..])
  {
  }

  lemma {:induction false} IgnoredFirst(ignored: seq<byte>, rest: seq<byte>, e: CapsuleError)
    requires AllUnknown(ignored)
    ensures ClosureOfData(ignored + rest, e) == ClosureOfData(rest, e)
    decreases |ignored|
  {
    hide *;
    if ignored == [] {
      assert ignored + rest == rest;
    } else {
      UnknownStep(ignored);
      var n := Total(ignored);
      UnknownLocal(ignored, ignored[n..] + rest);
      IgnoredFirst(ignored[n..], rest, e);
      assert ignored + rest == ignored[..n] + (ignored[n..] + rest);
      IgnoredStep(ignored + rest, e);
      assert (ignored + rest)[n..] == ignored[n..] + rest;
    }
  }

  lemma RestIsBuffered(rest: seq<byte>)
    requires !StartsWithUnknown(rest)
    ensures DecodeBuffered(rest) ==
              if Oversized(rest, MAX_CLOSE_PAYLOAD_SIZE) then Malformed(MessageTooLong)
              else if !IsWhole(rest) then NeedMore
              else
                var c := Interpret(CLOSE_WEBTRANSPORT_SESSION_TYPE, Payload(rest));
                if c.Err? then Malformed(c.error) else Complete(c.value, Total(rest))
  {
    if IsWhole(rest) && !Oversized(rest, MAX_CLOSE_PAYLOAD_SIZE) {
      WholeIsBuffered(rest);
      hide DecodeBuffered;
    }
    hide ParseHeader, Interpret;
  }

  lemma BufferDecides(data: seq<byte>, e: CapsuleError)
    ensures var d := DecodeBuffered(data);
            && (d == NeedMore ==> ClosureOfData(data, e) == FirstClose([], e))
            && (d.Malformed? ==> ClosureOfData(data, e) == FirstClose([], d.error))
            && (d.Complete? && d.capsule.CloseWebTransportSession? ==>
                  ClosureOfData(data, e) == Closed(d.capsule.code, d.capsule.reason))
  {
    hide DecodeBuffered, IsGraceful;
    if DecodeBuffered(data).Complete? {
      assert ParseAll(data).capsules[0] == DecodeBuffered(data).capsule;
    }
  }

  lemma RestDecides(tail: seq<byte>, rest: seq<byte>)
    requires !StartsWithUnknown(rest) && !StartsWithFrame(tail)
    ensures ClosureOfData(rest, TailError(tail)) == Decided(tail, rest)
  {
    RestIsBuffered(rest);
    BufferDecides(rest, TailError(tail));
    hide ParseHeader, Utf8.Valid, FromBigEndian, DecodeBuffered, ClosureOfData, IsWhole, Payload, Total;
  }

  /** How every session ends by its CONNECT stream: what the parts of the stream decide. */
  lemma ClosureExactly(stream: seq<byte>, s: Split)
    requires IsSplit(stream, s)
    ensures ClosureOf(stream) == Decided(s.tail, s.rest)
  {
    hide ReadAll, ParseAll, Deframe, AllUnknown, StartsWithUnknown, StartsWithFrame, Decided, TailError, Wire, DataOf,
         FirstClose;
    DeframeSplit(s.frames, s.tail);
    ReassemblyIsParsing(stream, []);
    assert [] + DataOf(s.frames) == DataOf(s.frames);
    IgnoredFirst(s.ignored, s.rest, TailError(s.tail));
    RestDecides(s.tail, s.rest);
  }

  /** Why a session fails: an oversized frame, an oversized capsule, or a close whose reason is not text. */
  predicate FailsBy(s: Split, e: CapsuleError) {
    || (e == MessageTooLong && Oversized(s.rest, MAX_CLOSE_PAYLOAD_SIZE))
    || (e == MessageTooLong && !IsWhole(s.rest) && Oversized(s.tail, MAX_CAPSULE_FRAME_SIZE))
    || (e == InvalidUtf8 && IsWhole(s.rest) && !Oversized(s.rest, MAX_CLOSE_PAYLOAD_SIZE)
        && |Payload(s.rest)| >= 4 && !Utf8.Valid(Payload(s.rest)[4..]))
  }

  /** For every byte string: the session fails exactly when one of these comes first, and with its error. */
  lemma FailsExactly(stream: seq<byte>, e: CapsuleError)
    ensures ClosureOf(stream) == Failed(e) <==> exists s :: IsSplit(stream, s) && FailsBy(s, e)
  {
    hide ParseHeader, IsSplit, ClosureOf, Utf8.Valid, FromBigEndian, Payload, Total;
    var split := EveryStreamSplits(stream);
    ClosureExactly(stream, split);
    forall s | IsSplit(stream, s) && FailsBy(s, e) ensures ClosureOf(stream) == Failed(e) {
      ClosureExactly(stream, s);
    }
  }

  // ------------------------------------------------------- streams without a close

  /** A stream cut within a frame, or a payload cut within a capsule, announces no more than was meant. */
  lemma CutWithin(f: WireFrame, k: nat, max: nat)
    requires Announced(f) && |f.payload| <= max
    requires k < |f.header| + |f.payload|
    ensures var b := (f.header + f.payload)[..k]; !IsWhole(b) && !Oversized(b, max)
  {
    CutHeader(f, k);
    hide ParseHeader;
  }

  /** A stream of well-sent frames, cut anywhere: some frames, and a part of one. */
  lemma {:induction false} CutFrames(frames: seq<WireFrame>, k: nat) returns (j: nat, tail: seq<byte>)
    requires AllWellSent(frames) && k <= |Wire(frames)|
    ensures j <= |frames| && Wire(frames)[..k] == Wire(frames[..j]) + tail
    ensures !IsWhole(tail) && !Oversized(tail, MAX_CAPSULE_FRAME_SIZE)
  {
    hide IsWhole, Oversized, ParseHeader;
    NothingIsWhole();
    if frames == [] {
      return 0, [];
    }
    var f := frames[0];
    var n := |f.header| + |f.payload|;
    assert WellSent(f);
    if k < n {
      CutWithin(f, k, MAX_CAPSULE_FRAME_SIZE);
      j, tail := 0, (f.header + f.payload)[..k];
      assert Wire(frames)[..k] == tail;
    } else {
      var i;
      i, tail := CutFrames(frames[1..], k - n);
      j := i + 1;
      assert frames[..j][1..] == frames[1..][..i];
      assert Wire(frames)[..k] == f.header + f.payload + Wire(frames[1..])[..k - n];
      assert Wire(frames[..j]) == f.header + f.payload + Wire(frames[1..][..i]);
    }
  }

  lemma NothingIsWhole()
    ensures !IsWhole([]) && !Oversized([], MAX_CAPSULE_FRAME_SIZE) && !Oversized([], MAX_CLOSE_PAYLOAD_SIZE)
  {
  }

  lemma {:induction false} DataPrefix(frames: seq<WireFrame>, j: nat)
    requires j <= |frames|
    ensures DataOf(frames[..j]) <= DataOf(frames)
  {
    if j > 0 {
      assert frames[..j][1..] == frames[1..][..j - 1];
      DataPrefix(frames[1..], j - 1);
    }
  }

  lemma EncodedUnknown(c: Capsule) returns (f: WireFrame)
    requires Canonical(c) && c.Unknown?
    ensures EncodeCapsule(c).Ok? && EncodeCapsule(c).value == f.header + f.payload
    ensures Announced(f) && |f.payload| <= MAX_CLOSE_PAYLOAD_SIZE
    ensures var b := f.header + f.payload; StartsWithUnknown(b) && Total(b) == |b|
  {
    hide ParseHeader, EncodeHeader;
    f := WireFrame(c.typ, EncodeHeader(c.typ, |c.payload|), c.payload);
    HeaderRoundTrip(c.typ, |c.payload|, []);
    assert f.header + [] == f.header;
    HeaderStable(f.header, f.payload);
  }

  /** Capsules other than closes, cut anywhere: some capsules, and a part of one. */
  lemma {:induction false} CutCapsules(cs: seq<Capsule>, k: nat) returns (ignored: seq<byte>, rest: seq<byte>)
    requires AllCanonical(cs) && k <= |EncodeAll(cs)|
    requires forall i :: 0 <= i < |cs| ==> cs[i].Unknown?
    ensures EncodeAll(cs)[..k] == ignored + rest && AllUnknown(ignored)
    ensures !IsWhole(rest) && !Oversized(rest, MAX_CLOSE_PAYLOAD_SIZE)
  {
    hide IsWhole, Oversized, ParseHeader, EncodeCapsule, StartsWithUnknown, Canonical;
    NothingIsWhole();
    if cs == [] {
      return [], [];
    }
    var f := EncodedUnknown(cs[0]);
    var b := f.header + f.payload;
    if k < |b| {
      CutWithin(f, k, MAX_CLOSE_PAYLOAD_SIZE);
      ignored, rest := [], b[..k];
      assert EncodeAll(cs)[..k] == rest;
    } else {
      var more;
      more, rest := CutCapsules(cs[1..], k - |b|);
      ignored := b + more;
      UnknownCons(b, more);
      assert b[..|b|] == b;
      assert EncodeAll(cs)[..k] == b + EncodeAll(cs[1..])[..k - |b|];
    }
  }

  /**
   * However capsules that are not closes are framed, and wherever the peer ends the stream, between two frames or
   * within one, it just ended.
   */
  lemma EndedWhereverCut(frames: seq<WireFrame>, cs: seq<Capsule>, k: nat)
    requires AllWellSent(frames) && k <= |Wire(frames)|
    requires AllCanonical(cs) && DataOf(frames) == EncodeAll(cs)
    requires forall i :: 0 <= i < |cs| ==> cs[i].Unknown?
    ensures ClosureOf(Wire(frames)[..k]) == Ended
  {
    hide Wire, DataOf, EncodeAll, ClosureOf, ParseHeader, WellSent, AllUnknown;
    var j, tail := CutFrames(frames, k);
    DataPrefix(frames, j);
    var n := |DataOf(frames[..j])|;
    var ignored, rest := CutCapsules(cs, n);
    assert DataOf(frames[..j]) == EncodeAll(cs)[..n];
    var s := Split(frames[..j], tail, ignored, rest);
    ClosureExactly(Wire(frames)[..k], s);
  }

  lemma CutFrameEnds(f: WireFrame, k: nat)
    requires WellSent(f) && k < |f.header| + |f.payload|
    ensures ClosureOf((f.header + f.payload)[..k]) == Ended
  {
    CutWithin(f, k, MAX_CAPSULE_FRAME_SIZE);
    NothingIsWhole();
    hide ClosureOf, ParseHeader;
    var tail := (f.header + f.payload)[..k];
    assert Wire([]) + tail == tail && [] + [] == DataOf([]);
    ClosureExactly(tail, Split([], tail, [], []));
  }

  lemma FirstCapsuleCloses(stream: seq<byte>, code: u32, reason: seq<byte>, more: seq<byte>)
    requires ReadCapsule(stream, []) == ReadResult(Ok(CloseWebTransportSession(code, reason)), more, [])
    ensures ClosureOf(stream) == Closed(code, reason)
  {
    hide ReadCapsule, IsGraceful;
    assert ReadAll(stream, []).capsules[0] == CloseWebTransportSession(code, reason);
  }

  /** A written close is read by the peer, whatever follows; where the deadline cuts it off, the stream just ends. */
  lemma CloseArrivesOrEnds(code: u32, bytes: seq<byte>, k: nat, more: seq<byte>)
    ensures var c := EncodeCapsule(CloseWebTransportSession(code, Reason(bytes)));
            && c.Ok? && |c.value| <= MAX
            && var frame := WriteFrame(DATA, c.value);
            && ClosureOf(frame + more) == Closed(code, Reason(bytes))
            && (k < |frame| ==> ClosureOf(frame[..k]) == Ended)
  {
    hide EncodeCapsule, ReadCapsule, Reason, ParseHeader, EncodeHeader, ClosureOf;
    CloseTravelsIntact(code, bytes, more);
    var payload := EncodeCapsule(CloseWebTransportSession(code, Reason(bytes))).value;
    FirstCapsuleCloses(WriteFrame(DATA, payload) + more, code, Reason(bytes), more);
    CapsuleSize(CloseWebTransportSession(code, Reason(bytes)));
    if k < |WriteFrame(DATA, payload)| {
      var f := WireFrame(DATA, EncodeHeader(DATA, |payload|), payload);
      HeaderRoundTrip(DATA, |payload|, []);
      assert f.header + [] == f.header;
      assert WriteFrame(DATA, payload) == f.header + f.payload;
      CutFrameEnds(f, k);
    }
  }
}
