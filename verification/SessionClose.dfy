/** Closing a session: the capsule that carries the reason, and the background task that reads and writes it. */
module SessionClose {
  import opened Bytes
  import opened VarInts
  import opened Frames
  import opened Capsules
  import opened ConnectStream
  import opened StreamFrames
  import Utf8

  const MAX_REASON: nat := 1024

  /** Dropping whole characters from the end until at most `max` bytes remain. */
  function Truncate(text: seq<byte>, max: nat): (r: seq<byte>)
    requires Utf8.Valid(text)
    ensures |r| <= max
    decreases |text|
  {
    if |text| <= max then text
    else
      Utf8.PopIsValid(text);
      Truncate(Utf8.Pop(text), max)
  }

  function Reason(bytes: seq<byte>): seq<byte> {
    Utf8.LossyIsValid(bytes);
    Truncate(Utf8.Lossy(bytes), MAX_REASON)
  }

  method CapsuleReason(bytes: seq<byte>) returns (reason: seq<byte>)
    ensures reason == Reason(bytes)
  {
    Utf8.LossyIsValid(bytes);
    reason := Utf8.Lossy(bytes);
    while |reason| > MAX_REASON
      invariant Utf8.Valid(reason)
      invariant Truncate(reason, MAX_REASON) == Reason(bytes)
    {
      Utf8.PopIsValid(reason);
      reason := Utf8.Pop(reason);
    }
  }

  /** A prefix of `text` that ends at a character boundary. */
  predicate WholePrefix(p: seq<byte>, text: seq<byte>) {
    p <= text && Utf8.Valid(p)
  }

  /** Truncation gives the longest whole-character prefix that fits. */
  lemma {:induction false} TruncateIsLongest(text: seq<byte>, max: nat, p: seq<byte>)
    requires Utf8.Valid(text)
    ensures WholePrefix(Truncate(text, max), text)
    ensures WholePrefix(p, text) && |p| <= max ==> |p| <= |Truncate(text, max)|
    decreases |text|
  {
    hide Utf8.Valid, Utf8.LastStart;
    if |text| > max {
      Utf8.PopIsValid(text);
      var shorter := Utf8.Pop(text);
      if WholePrefix(p, text) && |p| <= max {
        Utf8.PopIsLongest(p, text);
        assert p == text[..|p|];
        assert p <= shorter;
      }
      TruncateIsLongest(shorter, max, p);
    }
  }

  /** The sent reason: a whole-character prefix of the lossily decoded text, the longest of at most 1024 bytes. */
  lemma ReasonIsLongestPrefix(bytes: seq<byte>, p: seq<byte>)
    ensures WholePrefix(Reason(bytes), Utf8.Lossy(bytes)) && |Reason(bytes)| <= MAX_REASON
    ensures WholePrefix(p, Utf8.Lossy(bytes)) && |p| <= MAX_REASON ==> |p| <= |Reason(bytes)|
  {
    hide Utf8.Valid, Utf8.Lossy, Truncate;
    Utf8.LossyIsValid(bytes);
    TruncateIsLongest(Utf8.Lossy(bytes), MAX_REASON, p);
  }

  /** A text that already fits is kept, so preparing a reason twice changes nothing. */
  lemma ReasonIsIdempotent(bytes: seq<byte>)
    ensures Reason(Reason(bytes)) == Reason(bytes)
    ensures Utf8.Valid(bytes) && |bytes| <= MAX_REASON ==> Reason(bytes) == bytes
  {
    hide Utf8.Valid, Utf8.Lossy;
    ReasonIsLongestPrefix(bytes, []);
    Utf8.LossyOfValid(Reason(bytes));
    if Utf8.Valid(bytes) {
      Utf8.LossyOfValid(bytes);
    }
  }

  // ------------------------------------------------------- writing a capsule

  /** A capsule in one DATA frame. */
  method WriteCapsuleFrame(send: BufMut, capsule: Capsule) returns (e: Option<CapsuleError>)
    modifies send
    ensures match EncodeCapsule(capsule)
            case Err(error) => e == Some(error) && send.bytes == old(send.bytes)
            case Ok(payload) =>
              |payload| <= MAX && e == None && send.bytes == old(send.bytes) + WriteFrame(DATA, payload)
  {
    hide Encode, EncodeCapsule;
    var payload := new BufMut();
    e := EncodeTo(capsule, payload);
    if e.Some? {
      return;
    }
    CapsuleSize(capsule);
    assert [] + EncodeCapsule(capsule).value == EncodeCapsule(capsule).value;
    var frame := new BufMut();
    VarInts.Put(DATA, frame);
    VarInts.Put(|payload.bytes|, frame);
    frame.PutSlice(payload.bytes);
    assert frame.bytes == WriteFrame(DATA, payload.bytes);
    send.PutSlice(frame.bytes);
  }

  lemma CapsuleSize(c: Capsule)
    requires EncodeCapsule(c).Ok?
    ensures |EncodeCapsule(c).value| <= MAX_PARTIAL + 1
  {
    hide Encode;
    Pow256Values();
  }

  /** A capsule written in one frame is what the peer reads, and nothing more is consumed. */
  lemma WrittenCapsuleIsRead(c: Capsule, more: seq<byte>)
    requires Canonical(c)
    ensures EncodeCapsule(c).Ok?
    ensures |EncodeCapsule(c).value| <= MAX
    ensures ReadCapsule(WriteFrame(DATA, EncodeCapsule(c).value) + more, []) == ReadResult(Ok(c), more, [])
  {
    hide EncodeCapsule, DecodeBuffered, ReadCapsule, WriteFrame, Utf8.Valid, Parse, Encode;
    CapsuleIsBuffered(c);
    CapsuleSize(c);
    FramedIsRead(c, EncodeCapsule(c).value, more);
  }

  lemma FramedIsRead(c: Capsule, payload: seq<byte>, more: seq<byte>)
    requires |payload| <= MAX_CAPSULE_FRAME_SIZE
    requires DecodeBuffered(payload) == Complete(c, |payload|)
    ensures ReadCapsule(WriteFrame(DATA, payload) + more, []) == ReadResult(Ok(c), more, [])
  {
    assert DecodeBuffered([]) == NeedMore;
    hide *;
    FrameIsPiece(payload, more);
    ReadCapsuleStep(WriteFrame(DATA, payload) + more, []);
    assert [] + payload == payload;
    ReadCapsuleStep(more, payload);
  }

  lemma FrameIsPiece(payload: seq<byte>, more: seq<byte>)
    requires |payload| <= MAX_CAPSULE_FRAME_SIZE
    ensures var stream, n := WriteFrame(DATA, payload) + more, |WriteFrame(DATA, payload)|;
            NextPiece(stream) == Piece(payload, n) && stream[n..] == more
  {
    hide Parse, Encode, ParseHeader, EncodeHeader;
    var header := EncodeHeader(DATA, |payload|);
    var stream := WriteFrame(DATA, payload) + more;
    HeaderRoundTrip(DATA, |payload|, payload + more);
    assert stream == header + (payload + more);
    assert stream[|header|..|header| + |payload|] == payload;
  }

  lemma CapsuleIsBuffered(c: Capsule)
    requires Canonical(c)
    ensures EncodeCapsule(c).Ok?
    ensures DecodeBuffered(EncodeCapsule(c).value) == Complete(c, |EncodeCapsule(c).value|)
  {
    hide Parse, Encode, Utf8.Valid;
    var b := EncodeCapsule(c).value;
    RoundTripExactly(c, []);
    assert b + [] == b;
    DecodeLocal(b, []);
    assert b[..|b|] == b;
  }

  predicate AllCanonical(cs: seq<Capsule>) {
    forall i :: 0 <= i < |cs| ==> Canonical(cs[i])
  }

  /** Capsules written one after the other. */
  function EncodeAll(cs: seq<Capsule>): seq<byte>
    requires AllCanonical(cs)
  {
    if cs == [] then [] else EncodeCapsule(cs[0]).value + EncodeAll(cs[1..])
  }

  lemma {:induction false} EncodedCapsulesParse(cs: seq<Capsule>)
    requires AllCanonical(cs)
    ensures ParseAll(EncodeAll(cs)) == Parsing(cs, None)
  {
    hide EncodeCapsule, DecodeBuffered, Canonical;
    if cs == [] {
      EmptyNeedsMore();
    } else {
      CapsuleIsBuffered(cs[0]);
      var b, rest := EncodeCapsule(cs[0]).value, EncodeAll(cs[1..]);
      DecodeBufferedStable(b, rest);
      assert (b + rest)[|b|..] == rest;
      EncodedCapsulesParse(cs[1..]);
    }
  }

  lemma EmptyNeedsMore()
    ensures DecodeBuffered([]) == NeedMore
  {
  }

  /** Whatever frames carry them, capsules arrive complete, in order, and with nothing added; then the stream ends. */
  lemma FramedCapsulesArrive(frames: seq<WireFrame>, cs: seq<Capsule>)
    requires forall i :: 0 <= i < |frames| ==> WellSent(frames[i])
    requires AllCanonical(cs) && DataOf(frames) == EncodeAll(cs)
    ensures ReadAll(Wire(frames), []) == Outcome(cs, UnexpectedEnd)
  {
    hide ReadAll, ParseAll, WellSent, EncodeAll;
    FragmentationInvariance(frames);
    EncodedCapsulesParse(cs);
  }

  /**
   * For every code and every reason bytes: the close capsule is encodable and arrives with exactly that code and
   * reason.
   */
  lemma CloseTravelsIntact(code: u32, bytes: seq<byte>, more: seq<byte>)
    ensures var c := CloseWebTransportSession(code, Reason(bytes));
            && EncodeCapsule(c).Ok?
            && |EncodeCapsule(c).value| <= MAX
            && ReadCapsule(WriteFrame(DATA, EncodeCapsule(c).value) + more, []) == ReadResult(Ok(c), more, [])
  {
    hide EncodeCapsule, ReadCapsule, Reason, WriteFrame, Utf8.Valid, Utf8.Lossy;
    ReasonIsLongestPrefix(bytes, []);
    WrittenCapsuleIsRead(CloseWebTransportSession(code, Reason(bytes)), more);
  }

  // ------------------------------------------------------- the background loop on the CONNECT stream

  datatype CloseCommand = CloseCommand(code: u32, reason: seq<byte>)

  /** Errors that mean the CONNECT stream just ended. */
  predicate IsGraceful(e: CapsuleError) {
    e == Io || e == UnexpectedEnd
  }

  datatype Closure = Closed(code: u32, reason: seq<byte>) | Ended | Failed(error: CapsuleError)

  /** The first close capsule decides; without one, the error that ended the stream does. */
  function FirstClose(capsules: seq<Capsule>, error: CapsuleError): Closure {
    if capsules == [] then if IsGraceful(error) then Ended else Failed(error)
    else if capsules[0].CloseWebTransportSession? then Closed(capsules[0].code, capsules[0].reason)
    else FirstClose(capsules[1..], error)
  }

  /** What a peer's CONNECT stream leads to, once it has ended. */
  function ClosureOf(stream: seq<byte>): Closure {
    var all := ReadAll(stream, []);
    FirstClose(all.capsules, all.error)
  }

  /** What a local close request leads to; None stands for the last handle having been dropped. */
  function LocalClosure(command: Option<CloseCommand>): Closure {
    match command
    case None => Closed(0, LAST_HANDLE_DROPPED)
    case Some(c) => Closed(c.code, Reason(c.reason))
  }

  /** "last session handle dropped" */
  const LAST_HANDLE_DROPPED: seq<byte> :=
    [108, 97, 115, 116, 32, 115, 101, 115, 115, 105, 111, 110, 32, 104, 97, 110, 100, 108, 101, 32,
     100, 114, 111, 112, 112, 101, 100]

  /**
   * The background loop: capsules from the peer race with one local close request. Which branch wins
   * a round is not determined; unknown capsules are ignored.
   */
  method RunClosed(recv: Buf, send: BufMut, command: Option<CloseCommand>) returns (closure: Closure, local: bool)
    modifies recv, send
    ensures !local ==> closure == ClosureOf(old(recv.rest)) && send.bytes == old(send.bytes)
    ensures local ==> closure == LocalClosure(command)
    ensures local && command.Some? ==>
              exists payload :: |payload| <= MAX
                && EncodeCapsule(CloseWebTransportSession(command.value.code, Reason(command.value.reason)))
                   == Ok(payload)
                && old(send.bytes) <= send.bytes <= old(send.bytes) + WriteFrame(DATA, payload)
  {
    hide ReadCapsule, EncodeCapsule, Reason, WriteFrame, ParseAll;
    var pending := new BytesMut();
    ghost var peer := ClosureOf(recv.rest);
    while true
      invariant fresh(pending) && |pending.bytes| <= MAX_PARTIAL + MAX_CAPSULE_FRAME_SIZE
      invariant send.bytes == old(send.bytes)
      invariant var rest := ReadAll(recv.rest, pending.bytes);
                FirstClose(rest.capsules, rest.error) == peer
      decreases |recv.rest| + |pending.bytes|
    {
      if * {
        ReadCapsuleShrinks(recv.rest, pending.bytes);
        var capsule := ReadCapsuleFrame(recv, pending);
        match capsule {
          case Ok(CloseWebTransportSession(code, reason)) => return Closed(code, reason), false;
          case Ok(Unknown(_, _)) =>
          case Err(e) =>
            if IsGraceful(e) {
              return Ended, false;
            }
            return Failed(e), false;
        }
      } else {
        if command.None? {
          return Closed(0, LAST_HANDLE_DROPPED), true;
        }
        var reason := CapsuleReason(command.value.reason);
        CloseTravelsIntact(command.value.code, command.value.reason, []);
        ghost var payload := EncodeCapsule(CloseWebTransportSession(command.value.code, reason)).value;
        if * {
          // the deadline may expire before anything is submitted
        } else {
          var e := WriteCapsuleFrame(send, CloseWebTransportSession(command.value.code, reason));
        }
        assert old(send.bytes) <= send.bytes <= old(send.bytes) + WriteFrame(DATA, payload);
        return Closed(command.value.code, reason), true;
      }
    }
  }

  /** Unknown capsules never matter for how the peer closes the session. */
  lemma {:induction false} UnknownCapsulesAreIgnored(before: seq<Capsule>, after: seq<Capsule>, error: CapsuleError)
    requires forall i :: 0 <= i < |before| ==> before[i].Unknown?
    ensures FirstClose(before + after, error) == FirstClose(after, error)
  {
    if before == [] {
      assert before + after == after;
    } else {
      assert (before + after)[1..] == before[1..] + after;
      UnknownCapsulesAreIgnored(before[1..], after, error);
    }
  }
}
