/** Asking for a session to be closed: the reason is cut to 1024 bytes before it is prepared for the capsule. */
module CloseRequests {
  import opened Bytes
  import opened VarInts
  import opened Capsules
  import opened SessionClose
  import ConnectStream
  import StreamFrames
  import Frames
  import ErrorCodes
  import Utf8

  function Cut(reason: seq<byte>): seq<byte> {
    if |reason| <= MAX_REASON then reason else reason[..MAX_REASON]
  }

  /** The reason of the queued request. */
  function QueuedReason(reason: seq<byte>): seq<byte> {
    Reason(Cut(reason))
  }

  /** What a QUIC connection was closed with. */
  datatype QuicClose = QuicClose(code: u64, reason: seq<byte>)

  /** Only the first close of a connection has an effect. */
  function CloseOnce(connection: Option<QuicClose>, close: QuicClose): Option<QuicClose> {
    if connection.Some? then connection else Some(close)
  }

  class Session {
    const sessionId: Option<VarInt>
    /** The one-entry queue to the background task, and whether that task has stopped listening. */
    var queue: Option<CloseCommand>
    var queueClosed: bool
    var connection: Option<QuicClose>

    constructor (sessionId: Option<VarInt>)
      ensures this.sessionId == sessionId && queue == None && !queueClosed && connection == None
    {
      this.sessionId := sessionId;
      queue, queueClosed, connection := None, false, None;
    }

    method Close(code: u32, reason: seq<byte>)
      modifies this
      ensures queueClosed == old(queueClosed)
      ensures sessionId.None? ==>
                queue == old(queue) && connection == CloseOnce(old(connection), QuicClose(code, reason))
      ensures sessionId.Some? && queueClosed ==>
                queue == old(queue)
                && connection == CloseOnce(old(connection), QuicClose(ErrorCodes.ToHttp3(code), reason))
      ensures sessionId.Some? && !queueClosed ==>
                connection == old(connection)
                && queue == if old(queue).Some? then old(queue) else Some(CloseCommand(code, QueuedReason(reason)))
    {
      if sessionId.None? {
        connection := CloseOnce(connection, QuicClose(code, reason));
        return;
      }
      var prepared := CapsuleReason(Cut(reason));
      if !queueClosed {
        if queue.None? {
          queue := Some(CloseCommand(code, prepared));
        }
        return;
      }
      connection := CloseOnce(connection, QuicClose(ErrorCodes.ToHttp3(code), reason));
    }
  }

  /** The peer reads the code and the queued reason: preparing it again for the capsule changes nothing. */
  lemma RequestTravels(code: u32, reason: seq<byte>, more: seq<byte>)
    ensures LocalClosure(Some(CloseCommand(code, QueuedReason(reason)))) == Closed(code, QueuedReason(reason))
    ensures var c := CloseWebTransportSession(code, QueuedReason(reason));
            && EncodeCapsule(c).Ok? && |EncodeCapsule(c).value| <= MAX
            && ConnectStream.ReadCapsule(StreamFrames.WriteFrame(Frames.DATA, EncodeCapsule(c).value) + more, [])
               == ConnectStream.ReadResult(Ok(c), more, [])
  {
    hide EncodeCapsule, ConnectStream.ReadCapsule, Reason, StreamFrames.WriteFrame, Utf8.Valid, Utf8.Lossy;
    ReasonIsIdempotent(Cut(reason));
    CloseTravelsIntact(code, QueuedReason(reason), more);
  }

  // ------------------------------------------------------- what the cut does to the reason

  /** The best reason of at most 1024 bytes: the longest whole-character prefix of the text. */
  ghost predicate IsLongestPrefix(r: seq<byte>, text: seq<byte>) {
    && WholePrefix(r, text) && |r| <= MAX_REASON
    && forall p :: WholePrefix(p, text) && |p| <= MAX_REASON ==> |p| <= |r|
  }

  lemma LongestIsReason(bytes: seq<byte>, r: seq<byte>)
    ensures IsLongestPrefix(r, Utf8.Lossy(bytes)) <==> r == Reason(bytes)
  {
    hide Utf8.Valid, Utf8.Lossy, Reason;
    forall p ensures WholePrefix(p, Utf8.Lossy(bytes)) && |p| <= MAX_REASON ==> |p| <= |Reason(bytes)| {
      ReasonIsLongestPrefix(bytes, p);
    }
    ReasonIsLongestPrefix(bytes, r);
    if IsLongestPrefix(r, Utf8.Lossy(bytes)) {
      assert |r| == |Reason(bytes)|;
      SameLengthPrefixes(r, Reason(bytes), Utf8.Lossy(bytes));
    }
  }

  lemma SameLengthPrefixes(a: seq<byte>, b: seq<byte>, text: seq<byte>)
    requires a <= text && b <= text && |a| == |b|
    ensures a == b
  {
    assert a == text[..|a|] && b == text[..|b|];
  }

  /** What follows does not matter when its first character does not fit. */
  lemma TruncateSkips(l: seq<byte>, rest: seq<byte>, max: nat)
    requires Utf8.Valid(l) && Utf8.Valid(l + rest)
    requires rest == [] || |l| >= max || |l| + Utf8.CharLen(rest) > max
    ensures Truncate(l + rest, max) == Truncate(l, max)
  {
    hide Utf8.Valid, Utf8.CharLen, Truncate;
    var p, q := Truncate(l + rest, max), Truncate(l, max);
    TruncateIsLongest(l, max, p);
    TruncateIsLongest(l + rest, max, p);
    TruncateIsLongest(l + rest, max, q);
    if |p| > |l| {
      Utf8.LongerPrefix(p, l, rest);
    }
    assert |p| <= |l|;
    assert p == (l + rest)[..|p|] == l[..|p|];
    assert q <= l + rest;
    SameLengthPrefixes(p, q, l + rest);
  }

  /** The cut falls into a four-byte character that begins at byte 1021, and nothing in front of it grew in decoding. */
  predicate CutSplits(reason: seq<byte>) {
    && |reason| > MAX_REASON
    && Utf8.LastBoundary(reason, MAX_REASON) == MAX_REASON - 3
    && Utf8.CharLen(reason[MAX_REASON - 3..]) == 4
    && |Utf8.Lossy(reason[..MAX_REASON - 3])| == MAX_REASON - 3
  }

  /** The pieces of a reason that is cut: the text before the cut's unit, and what each decoding has after it. */
  lemma CutPieces(b: seq<byte>)
    requires |b| > MAX_REASON
    ensures var p := Utf8.LastBoundary(b, MAX_REASON);
            var l := Utf8.Lossy(b[..p]);
            && Utf8.Lossy(b) == l + Utf8.Lossy(b[p..]) && Utf8.Valid(l) && |l| >= p
            && Utf8.Lossy(b[..MAX_REASON]) == l + (if p < MAX_REASON then Utf8.REPLACEMENT else [])
            && Utf8.CharLen(Utf8.Lossy(b[p..])) == |Utf8.UnitText(b[p..])|
            && (p < MAX_REASON ==> Utf8.UnitLen(b[p..]) > MAX_REASON - p)
  {
    var p := Utf8.LastBoundary(b, MAX_REASON);
    Utf8.LossyNothing();
    hide Utf8.Lossy, Utf8.CharLen, Utf8.UnitLen, Utf8.UnitText, Utf8.Valid, Utf8.LastBoundary;
    Utf8.LossySplit(b, MAX_REASON);
    Utf8.LossyIsValid(b[..p]);
    Utf8.LossyGrows(b[..p]);
    Utf8.LossyFirstChar(b[p..]);
    assert b[p..][..MAX_REASON - p] == b[p..MAX_REASON];
    if p < MAX_REASON {
      Utf8.CutUnit(b[p..], MAX_REASON - p);
    } else {
      assert b[p..MAX_REASON] == [];
    }
  }

  /** Without the cut the reason ends where the cut's unit begins. */
  lemma UncutReason(b: seq<byte>)
    requires |b| > MAX_REASON
    ensures var l := Utf8.Lossy(b[..Utf8.LastBoundary(b, MAX_REASON)]);
            Utf8.Valid(l) && Reason(b) == Truncate(l, MAX_REASON)
  {
    CutPieces(b);
    Utf8.LossyIsValid(b);
    var p := Utf8.LastBoundary(b, MAX_REASON);
    UnitFits(b[p..]);
    hide Utf8.Lossy, Utf8.CharLen, Utf8.UnitLen, Utf8.UnitText, Utf8.Valid, Utf8.LastBoundary;
    TruncateSkips(Utf8.Lossy(b[..p]), Utf8.Lossy(b[p..]), MAX_REASON);
  }

  lemma UnitFits(c: seq<byte>)
    requires c != []
    ensures Utf8.UnitLen(c) <= |Utf8.UnitText(c)|
    ensures Utf8.UnitLen(c) == 4 <==> Utf8.CharLen(c) == 4
  {
    Utf8.LossyUnit(c);
  }

  lemma CutReason(b: seq<byte>)
    requires |b| > MAX_REASON
    ensures var p := Utf8.LastBoundary(b, MAX_REASON);
            var l := Utf8.Lossy(b[..p]);
            && Utf8.Valid(l) && p <= |l|
            && (p < MAX_REASON ==> MAX_REASON - p < Utf8.UnitLen(b[p..]))
            && QueuedReason(b) == if p < MAX_REASON && |l| + 3 <= MAX_REASON then l + Utf8.REPLACEMENT
                                  else Truncate(l, MAX_REASON)
  {
    CutPieces(b);
    Utf8.LossyIsValid(b[..MAX_REASON]);
    ReplacementIsChar();
    hide Utf8.Lossy, Utf8.CharLen, Utf8.UnitLen, Utf8.UnitText, Utf8.Valid, Utf8.LastBoundary;
    var p := Utf8.LastBoundary(b, MAX_REASON);
    var l := Utf8.Lossy(b[..p]);
    if p == MAX_REASON {
      assert l + [] == l;
    } else if |l| + 3 > MAX_REASON {
      TruncateSkips(l, Utf8.REPLACEMENT, MAX_REASON);
    }
  }

  lemma ReplacementIsChar()
    ensures |Utf8.REPLACEMENT| == 3 && Utf8.CharLen(Utf8.REPLACEMENT) == 3
  {
  }

  /**
   * Exactly when the request carries the longest whole-character prefix of the decoded reason: unless the cut
   * falls into a four-byte character at byte 1021. Then a replacement character is sent in its place.
   */
  lemma LongestUnlessCutSplits(reason: seq<byte>)
    ensures IsLongestPrefix(QueuedReason(reason), Utf8.Lossy(reason)) <==> !CutSplits(reason)
    ensures CutSplits(reason) ==> QueuedReason(reason) == Utf8.Lossy(reason[..MAX_REASON - 3]) + Utf8.REPLACEMENT
  {
    LongestIsReason(reason, QueuedReason(reason));
    if |reason| > MAX_REASON {
      UncutReason(reason);
      CutReason(reason);
      var p := Utf8.LastBoundary(reason, MAX_REASON);
      var l := Utf8.Lossy(reason[..p]);
      UnitFits(reason[p..]);
      ReplacementIsChar();
      assert |l| <= MAX_REASON ==> Truncate(l, MAX_REASON) == l;
      hide Utf8.Lossy, Utf8.CharLen, Utf8.Valid, Utf8.LastBoundary, Utf8.UnitText, Truncate, Reason, QueuedReason,
        IsLongestPrefix;
      if p < MAX_REASON && |l| + 3 <= MAX_REASON {
        assert p == MAX_REASON - 3 && |l| == MAX_REASON - 3;
        assert |l + Utf8.REPLACEMENT| != |l|;
      }
    }
  }

  /** For UTF-8 text one byte decides: byte 1021 starts a four-byte character, which the cut then splits. */
  lemma TextCutSplits(reason: seq<byte>)
    requires Utf8.Valid(reason)
    ensures CutSplits(reason) <==> |reason| > MAX_REASON && reason[MAX_REASON - 3] >= 0xF0
  {
    if |reason| > MAX_REASON && reason[MAX_REASON - 3] >= 0xF0 {
      Utf8.LeadIsBoundary(reason, MAX_REASON - 3, MAX_REASON);
      Utf8.LossyOfValid(reason[..MAX_REASON - 3]);
    }
  }

  /** 1021 times 'a' and an emoji: the emoji is sent as a replacement character instead of being left out. */
  lemma SplitEmoji()
    ensures var text := seq(1021, _ => 0x61 as byte) + [0xF0, 0x9F, 0x98, 0x80];
            && Utf8.Valid(text)
            && QueuedReason(text) == seq(1021, _ => 0x61 as byte) + Utf8.REPLACEMENT
            && !IsLongestPrefix(QueuedReason(text), Utf8.Lossy(text))
  {
    var letters: seq<byte>, emoji: seq<byte> := seq(1021, _ => 0x61), [0xF0, 0x9F, 0x98, 0x80];
    var text := letters + emoji;
    Utf8.AsciiIsValid(letters);
    assert Utf8.Valid(emoji) by {
      assert emoji[4..] == [];
    }
    Utf8.ValidAppend(letters, emoji);
    assert text[1021] == 0xF0 && text[..1021] == letters;
    hide Utf8.Valid, Utf8.Lossy, CutSplits, QueuedReason, IsLongestPrefix;
    TextCutSplits(text);
    LongestUnlessCutSplits(text);
    Utf8.LossyOfValid(letters);
  }
}
