/**
 * Accepting the peer's streams: each begins with a preface that says what it is, and one session's acceptor
 * delivers the streams whose preface names that session.
 */
module Acceptors {
  import opened Bytes
  import opened VarInts
  import Frames

  const QPACK_ENCODER: VarInt := 0x02
  const QPACK_DECODER: VarInt := 0x03
  const UNI_WEBTRANSPORT: VarInt := 0x54

  datatype SessionError = UnknownSession | ConnectionLost

  // ------------------------------------------------------- prefaces

  /** What every stream we open begins with; cached when the session is created. */
  function HeaderUni(session: VarInt): seq<byte> {
    Encode(UNI_WEBTRANSPORT) + Encode(session)
  }

  function HeaderBi(session: VarInt): seq<byte> {
    Encode(Frames.WEBTRANSPORT) + Encode(session)
  }

  /** A stream type and what follows the preface. */
  datatype Opened = Opened(typ: VarInt, rest: seq<byte>)

  function SessionId(b: seq<byte>, expected: VarInt): Result<seq<byte>, SessionError> {
    match Parse(b)
    case None => Err(UnknownSession)
    case Some(i) => if i.value == expected then Ok(b[i.len..]) else Err(UnknownSession)
  }

  function UniPreface(b: seq<byte>, expected: VarInt): Result<Opened, SessionError> {
    match Parse(b)
    case None => Err(UnknownSession)
    case Some(t) =>
      if t.value != UNI_WEBTRANSPORT then Ok(Opened(t.value, b[t.len..]))
      else
        var rest :- SessionId(b[t.len..], expected);
        Ok(Opened(t.value, rest))
  }

  /** None stands for a stream of some other kind. */
  function BiPreface(b: seq<byte>, expected: VarInt): Result<Option<seq<byte>>, SessionError> {
    match Parse(b)
    case None => Err(UnknownSession)
    case Some(t) =>
      if t.value != Frames.WEBTRANSPORT then Ok(None)
      else
        var rest :- SessionId(b[t.len..], expected);
        Ok(Some(rest))
  }

  method DecodeUni(recv: Buf, expected: VarInt) returns (r: Result<VarInt, SessionError>)
    modifies recv
    ensures match UniPreface(old(recv.rest), expected)
            case Ok(o) => r == Ok(o.typ) && recv.rest == o.rest
            case Err(e) => r == Err(e)
  {
    hide Parse;
    var typ := VarInts.Read(recv);
    if typ.None? {
      return Err(UnknownSession);
    }
    if typ.value == UNI_WEBTRANSPORT {
      var session := VarInts.Read(recv);
      if session.None? {
        return Err(UnknownSession);
      }
      if session.value != expected {
        return Err(UnknownSession);
      }
    }
    r := Ok(typ.value);
  }

  method DecodeBi(recv: Buf, expected: VarInt) returns (r: Result<bool, SessionError>)
    modifies recv
    ensures match BiPreface(old(recv.rest), expected)
            case Ok(None) => r == Ok(false)
            case Ok(Some(rest)) => r == Ok(true) && recv.rest == rest
            case Err(e) => r == Err(e)
  {
    hide Parse;
    var typ := VarInts.Read(recv);
    if typ.None? {
      return Err(UnknownSession);
    }
    if typ.value != Frames.WEBTRANSPORT {
      return Ok(false);
    }
    var session := VarInts.Read(recv);
    if session.None? {
      return Err(UnknownSession);
    }
    if session.value != expected {
      return Err(UnknownSession);
    }
    r := Ok(true);
  }

  // ------------------------------------------------------- one kind of stream as a step system

  /** An incoming stream: its identity, and all the peer sends on it before it ends or resets it. */
  datatype Stream = Stream(id: nat, bytes: seq<byte>)

  datatype Kind = Uni | Bi

  datatype Verdict = Deliver(rest: seq<byte>) | KeepEncoder | KeepDecoder | Ignore | Fail

  /** What is to be done with a stream once its preface has been read. */
  function Judge(kind: Kind, b: seq<byte>, session: VarInt): Verdict {
    match kind
    case Uni =>
      (match UniPreface(b, session)
       case Err(_) => Fail
       case Ok(o) =>
         if o.typ == UNI_WEBTRANSPORT then Deliver(o.rest)
         else if o.typ == QPACK_DECODER then KeepDecoder
         else if o.typ == QPACK_ENCODER then KeepEncoder
         else Ignore)
    case Bi =>
      match BiPreface(b, session)
      case Err(_) => Fail
      case Ok(None) => Ignore
      case Ok(Some(rest)) => Deliver(rest)
  }

  /** A stream handed to the application, positioned at `rest`. */
  datatype Delivery = Delivery(stream: Stream, rest: seq<byte>)

  /** Where streams that are no longer held by the acceptor went. */
  datatype Past = Past(
    delivered: seq<Delivery>,
    replaced: multiset<Stream>,
    ignored: multiset<Stream>,
    failed: multiset<Stream>)

  datatype Lane = Lane(pending: multiset<Stream>, encoder: Option<Stream>, decoder: Option<Stream>, past: Past)

  function Single(o: Option<Stream>): multiset<Stream> {
    if o.Some? then multiset{o.value} else multiset{}
  }

  /** A pending stream whose preface was read leaves for the place its verdict names. */
  function Settle(l: Lane, s: Stream, v: Verdict): Lane {
    var m := l.(pending := l.pending - multiset{s});
    match v
    case Deliver(rest) => m.(past := l.past.(delivered := l.past.delivered + [Delivery(s, rest)]))
    case KeepEncoder => m.(encoder := Some(s), past := l.past.(replaced := l.past.replaced + Single(l.encoder)))
    case KeepDecoder => m.(decoder := Some(s), past := l.past.(replaced := l.past.replaced + Single(l.decoder)))
    case Ignore => m.(past := l.past.(ignored := l.past.ignored + multiset{s}))
    case Fail => m.(past := l.past.(failed := l.past.failed + multiset{s}))
  }

  lemma JudgeUni(b: seq<byte>, session: VarInt)
    ensures var o := UniPreface(b, session);
            Judge(Uni, b, session) ==
              if o.Err? then Fail
              else if o.value.typ == UNI_WEBTRANSPORT then Deliver(o.value.rest)
              else if o.value.typ == QPACK_DECODER then KeepDecoder
              else if o.value.typ == QPACK_ENCODER then KeepEncoder
              else Ignore
  {
    hide UniPreface;
  }

  lemma JudgeBi(b: seq<byte>, session: VarInt)
    ensures var o := BiPreface(b, session);
            Judge(Bi, b, session) ==
              if o.Err? then Fail else if o.value.None? then Ignore else Deliver(o.value.value)
  {
    hide BiPreface;
  }

  /** What settling does to what the acceptor still holds. */
  lemma SettleParts(l: Lane, s: Stream, v: Verdict)
    ensures var m := Settle(l, s, v);
            && m == Lane(m.pending, m.encoder, m.decoder, m.past)
            && m.pending == l.pending - multiset{s}
            && m.encoder == (if v.KeepEncoder? then Some(s) else l.encoder)
            && m.decoder == (if v.KeepDecoder? then Some(s) else l.decoder)
  {
  }

  /** What a poll finds: a new stream, a lost connection, or a pending stream whose preface is complete. */
  datatype Event = Arrive(stream: Stream) | Lose | Resolve(stream: Stream)

  datatype Poll = Pending | Ready(value: Result<Delivery, SessionError>)

  /** One poll. It loops until a stream can be delivered, the connection is lost, or nothing is ready. */
  function Polled(kind: Kind, session: VarInt, l: Lane, events: seq<Event>): (Lane, Poll)
    decreases |events|
  {
    if events == [] then (l, Pending)
    else
      match events[0]
      case Arrive(s) => Polled(kind, session, l.(pending := l.pending + multiset{s}), events[1..])
      case Lose => (l, Ready(Err(ConnectionLost)))
      case Resolve(s) =>
        if s !in l.pending then (l, Pending)
        else
          var v := Judge(kind, s.bytes, session);
          if v.Deliver? then (Settle(l, s, v), Ready(Ok(Delivery(s, v.rest))))
          else Polled(kind, session, Settle(l, s, v), events[1..])
  }

  // ------------------------------------------------------- the code itself

  class SessionAccept {
    const sessionId: VarInt
    var qpackEncoder: Option<Stream>
    var qpackDecoder: Option<Stream>
    var pendingUni: multiset<Stream>
    var pendingBi: multiset<Stream>
    ghost var pastUni: Past
    ghost var pastBi: Past

    constructor (sessionId: VarInt)
      ensures this.sessionId == sessionId && UniLane() == EMPTY && BiLane() == EMPTY
    {
      this.sessionId := sessionId;
      qpackEncoder, qpackDecoder, pendingUni, pendingBi := None, None, multiset{}, multiset{};
      pastUni, pastBi := NO_PAST, NO_PAST;
    }

    ghost function UniLane(): Lane
      reads this
    {
      Lane(pendingUni, qpackEncoder, qpackDecoder, pastUni)
    }

    ghost function BiLane(): Lane
      reads this
    {
      Lane(pendingBi, None, None, pastBi)
    }

    method PollAcceptUni(events: seq<Event>) returns (r: Poll)
      modifies this
      ensures (UniLane(), r) == Polled(Uni, sessionId, old(UniLane()), events)
      ensures BiLane() == old(BiLane())
    {
      hide Judge, Settle;
      var left := events;
      while true
        invariant Polled(Uni, sessionId, UniLane(), left) == Polled(Uni, sessionId, old(UniLane()), events)
        invariant BiLane() == old(BiLane())
        decreases |left|
      {
        if left != [] && left[0].Arrive? {
          pendingUni := pendingUni + multiset{left[0].stream};
          left := left[1..];
          continue;
        }
        if left != [] && left[0].Lose? {
          return Ready(Err(ConnectionLost));
        }
        if left == [] || left[0].stream !in pendingUni {
          return Pending;
        }
        var delivery := SettleUni(left[0].stream);
        left := left[1..];
        if delivery.Some? {
          return Ready(Ok(delivery.value));
        }
      }
    }

    /** The rest of a round: a pending stream has its preface decoded and finds its place. */
    method SettleUni(stream: Stream) returns (d: Option<Delivery>)
      requires stream in pendingUni
      modifies this
      ensures var v := Judge(Uni, stream.bytes, sessionId);
              && UniLane() == Settle(old(UniLane()), stream, v)
              && d == if v.Deliver? then Some(Delivery(stream, v.rest)) else None
      ensures BiLane() == old(BiLane())
    {
      ghost var v := Judge(Uni, stream.bytes, sessionId);
      ghost var settled := Settle(UniLane(), stream, v);
      JudgeUni(stream.bytes, sessionId);
      SettleParts(UniLane(), stream, v);
      hide UniPreface, Judge, Settle;
      var recv := new Buf(stream.bytes);
      var typ := DecodeUni(recv, sessionId);
      pendingUni := pendingUni - multiset{stream};
      pastUni := settled.past;
      d := None;
      if typ.Ok? {
        if typ.value == UNI_WEBTRANSPORT {
          d := Some(Delivery(stream, recv.rest));
        } else if typ.value == QPACK_DECODER {
          qpackDecoder := Some(stream);
        } else if typ.value == QPACK_ENCODER {
          qpackEncoder := Some(stream);
        }
      }
      assert pendingUni == settled.pending && qpackEncoder == settled.encoder && qpackDecoder == settled.decoder;
    }

    method PollAcceptBi(events: seq<Event>) returns (r: Poll)
      modifies this
      ensures (BiLane(), r) == Polled(Bi, sessionId, old(BiLane()), events)
      ensures UniLane() == old(UniLane())
    {
      hide Judge, Settle;
      var left := events;
      while true
        invariant Polled(Bi, sessionId, BiLane(), left) == Polled(Bi, sessionId, old(BiLane()), events)
        invariant UniLane() == old(UniLane())
        decreases |left|
      {
        if left != [] && left[0].Arrive? {
          pendingBi := pendingBi + multiset{left[0].stream};
          left := left[1..];
          continue;
        }
        if left != [] && left[0].Lose? {
          return Ready(Err(ConnectionLost));
        }
        if left == [] || left[0].stream !in pendingBi {
          return Pending;
        }
        var delivery := SettleBi(left[0].stream);
        left := left[1..];
        if delivery.Some? {
          return Ready(Ok(delivery.value));
        }
      }
    }

    method SettleBi(stream: Stream) returns (d: Option<Delivery>)
      requires stream in pendingBi
      modifies this
      ensures var v := Judge(Bi, stream.bytes, sessionId);
              && BiLane() == Settle(old(BiLane()), stream, v)
              && d == if v.Deliver? then Some(Delivery(stream, v.rest)) else None
      ensures UniLane() == old(UniLane())
    {
      ghost var v := Judge(Bi, stream.bytes, sessionId);
      ghost var settled := Settle(BiLane(), stream, v);
      JudgeBi(stream.bytes, sessionId);
      SettleParts(BiLane(), stream, v);
      hide BiPreface, Judge, Settle;
      var recv := new Buf(stream.bytes);
      var ours := DecodeBi(recv, sessionId);
      pendingBi := pendingBi - multiset{stream};
      pastBi := settled.past;
      d := if ours == Ok(true) then Some(Delivery(stream, recv.rest)) else None;
    }
  }

  // ------------------------------------------------------- conservation over whole runs

  const NO_PAST := Past([], multiset{}, multiset{}, multiset{})
  const EMPTY := Lane(multiset{}, None, None, NO_PAST)

  /** How often a stream was delivered. */
  function Deliveries(ds: seq<Delivery>, x: Stream): nat {
    if ds == [] then 0 else (if ds[0].stream == x then 1 else 0) + Deliveries(ds[1..], x)
  }

  lemma {:induction false} DeliveriesAppend(ds: seq<Delivery>, d: Delivery, x: Stream)
    ensures Deliveries(ds + [d], x) == Deliveries(ds, x) + if d.stream == x then 1 else 0
  {
    if ds == [] {
      assert ds + [d] == [d];
    } else {
      assert (ds + [d])[1..] == ds[1..] + [d];
      DeliveriesAppend(ds[1..], d, x);
    }
  }

  function InSlot(slot: Option<Stream>, x: Stream): nat {
    if slot == Some(x) then 1 else 0
  }

  /** In how many places a stream is: pending, kept, delivered, replaced, ignored or failed. */
  function Places(l: Lane, x: Stream): nat {
    l.pending[x] + InSlot(l.encoder, x) + InSlot(l.decoder, x)
    + Deliveries(l.past.delivered, x) + l.past.replaced[x] + l.past.ignored[x] + l.past.failed[x]
  }

  function Arrivals(events: seq<Event>, x: Stream): nat {
    if events == [] then 0 else (if events[0] == Arrive(x) then 1 else 0) + Arrivals(events[1..], x)
  }

  /** The events that a poll gets to before it returns. */
  function Seen(kind: Kind, session: VarInt, l: Lane, events: seq<Event>): (n: nat)
    ensures n <= |events|
    decreases |events|
  {
    if events == [] then 0
    else
      match events[0]
      case Arrive(s) => 1 + Seen(kind, session, l.(pending := l.pending + multiset{s}), events[1..])
      case Lose => 1
      case Resolve(s) =>
        if s !in l.pending || Judge(kind, s.bytes, session).Deliver? then 1
        else 1 + Seen(kind, session, Settle(l, s, Judge(kind, s.bytes, session)), events[1..])
  }

  lemma SettleMoves(l: Lane, s: Stream, v: Verdict, x: Stream)
    requires s in l.pending
    ensures Places(Settle(l, s, v), x) == Places(l, x)
  {
    hide Deliveries;
    if v.Deliver? {
      DeliveriesAppend(l.past.delivered, Delivery(s, v.rest), x);
    }
  }

  /** A poll only adds the streams that arrived in it: none is lost, none is counted twice. */
  lemma {:induction false} PollConserves(kind: Kind, session: VarInt, l: Lane, events: seq<Event>, x: Stream)
    ensures Places(Polled(kind, session, l, events).0, x) ==
              Places(l, x) + Arrivals(events[..Seen(kind, session, l, events)], x)
    decreases |events|
  {
    hide Places, Judge, Settle;
    if events != [] {
      var n := Seen(kind, session, l, events);
      ArrivalsStep(events, n, x);
      match events[0]
      case Arrive(s) =>
        ArriveAdds(l, s, x);
        PollConserves(kind, session, l.(pending := l.pending + multiset{s}), events[1..], x);
      case Lose =>
      case Resolve(s) =>
        if s in l.pending {
          var v := Judge(kind, s.bytes, session);
          SettleMoves(l, s, v, x);
          if !v.Deliver? {
            PollConserves(kind, session, Settle(l, s, v), events[1..], x);
          }
        }
    }
  }

  lemma ArrivalsStep(events: seq<Event>, n: nat, x: Stream)
    requires 1 <= n <= |events|
    ensures Arrivals(events[..n], x) ==
              (if events[0] == Arrive(x) then 1 else 0) + Arrivals(events[1..][..n - 1], x)
    ensures Arrivals([], x) == 0
    ensures events[1..][..0] == []
  {
    assert events[..n][1..] == events[1..][..n - 1];
  }

  lemma ArriveAdds(l: Lane, s: Stream, x: Stream)
    ensures Places(l.(pending := l.pending + multiset{s}), x) == Places(l, x) + if s == x then 1 else 0
  {
  }

  predicate RightDeliveries(kind: Kind, session: VarInt, ds: seq<Delivery>) {
    forall d :: d in ds ==> Judge(kind, d.stream.bytes, session) == Deliver(d.rest)
  }

  predicate RightSlot(kind: Kind, session: VarInt, slot: Option<Stream>, v: Verdict) {
    slot.Some? ==> Judge(kind, slot.value.bytes, session) == v
  }

  predicate RightGroup(kind: Kind, session: VarInt, group: multiset<Stream>, vs: set<Verdict>) {
    forall s :: s in group ==> Judge(kind, s.bytes, session) in vs
  }

  /** Each stream is where its preface says it belongs. */
  predicate RightPlaces(kind: Kind, session: VarInt, l: Lane) {
    && RightDeliveries(kind, session, l.past.delivered)
    && RightSlot(kind, session, l.encoder, KeepEncoder)
    && RightSlot(kind, session, l.decoder, KeepDecoder)
    && RightGroup(kind, session, l.past.replaced, {KeepEncoder, KeepDecoder})
    && RightGroup(kind, session, l.past.ignored, {Ignore})
    && RightGroup(kind, session, l.past.failed, {Fail})
  }

  lemma GroupGrows(kind: Kind, session: VarInt, group: multiset<Stream>, more: Option<Stream>, vs: set<Verdict>)
    requires RightGroup(kind, session, group, vs)
    requires more.Some? ==> Judge(kind, more.value.bytes, session) in vs
    ensures RightGroup(kind, session, group + Single(more), vs)
  {
    hide Judge;
  }

  lemma SettleIsRight(kind: Kind, session: VarInt, l: Lane, s: Stream)
    requires RightPlaces(kind, session, l)
    ensures RightPlaces(kind, session, Settle(l, s, Judge(kind, s.bytes, session)))
  {
    hide Judge;
    match Judge(kind, s.bytes, session)
    case Deliver(rest) =>
    case KeepEncoder => GroupGrows(kind, session, l.past.replaced, l.encoder, {KeepEncoder, KeepDecoder});
    case KeepDecoder => GroupGrows(kind, session, l.past.replaced, l.decoder, {KeepEncoder, KeepDecoder});
    case Ignore => GroupGrows(kind, session, l.past.ignored, Some(s), {Ignore});
    case Fail => GroupGrows(kind, session, l.past.failed, Some(s), {Fail});
    hide RightGroup;
  }

  lemma {:induction false} PollIsRight(kind: Kind, session: VarInt, l: Lane, events: seq<Event>)
    requires RightPlaces(kind, session, l)
    ensures RightPlaces(kind, session, Polled(kind, session, l, events).0)
    decreases |events|
  {
    hide Judge, Settle, RightPlaces;
    if events != [] {
      match events[0]
      case Arrive(s) =>
        ArriveIsRight(kind, session, l, s);
        PollIsRight(kind, session, l.(pending := l.pending + multiset{s}), events[1..]);
      case Lose =>
      case Resolve(s) =>
        if s in l.pending {
          SettleIsRight(kind, session, l, s);
          if !Judge(kind, s.bytes, session).Deliver? {
            PollIsRight(kind, session, Settle(l, s, Judge(kind, s.bytes, session)), events[1..]);
          }
        }
    }
  }

  lemma ArriveIsRight(kind: Kind, session: VarInt, l: Lane, s: Stream)
    requires RightPlaces(kind, session, l)
    ensures RightPlaces(kind, session, l.(pending := l.pending + multiset{s}))
  {
    hide Judge;
  }

  /** A whole run: any number of polls, each seeing its own events. */
  function After(kind: Kind, session: VarInt, l: Lane, polls: seq<seq<Event>>): Lane
    decreases |polls|
  {
    if polls == [] then l else After(kind, session, Polled(kind, session, l, polls[0]).0, polls[1..])
  }

  /** How often a stream arrived during a run. */
  function Arrived(kind: Kind, session: VarInt, l: Lane, polls: seq<seq<Event>>, x: Stream): nat
    decreases |polls|
  {
    if polls == [] then 0
    else
      Arrivals(polls[0][..Seen(kind, session, l, polls[0])], x)
      + Arrived(kind, session, Polled(kind, session, l, polls[0]).0, polls[1..], x)
  }

  lemma {:induction false} RunConserves(kind: Kind, session: VarInt, l: Lane, polls: seq<seq<Event>>, x: Stream)
    requires RightPlaces(kind, session, l)
    ensures Places(After(kind, session, l, polls), x) == Places(l, x) + Arrived(kind, session, l, polls, x)
    ensures RightPlaces(kind, session, After(kind, session, l, polls))
    decreases |polls|
  {
    hide Places, RightPlaces, Polled, Seen, Arrivals;
    if polls != [] {
      PollConserves(kind, session, l, polls[0], x);
      PollIsRight(kind, session, l, polls[0]);
      RunConserves(kind, session, Polled(kind, session, l, polls[0]).0, polls[1..], x);
    }
  }

  /**
   * In every reachable state a stream that arrived once is in exactly one place, the one its preface asks
   * for; it was delivered at most once, and only if its preface names this session.
   */
  lemma ExactlyOnePlace(kind: Kind, session: VarInt, polls: seq<seq<Event>>, x: Stream)
    ensures var l := After(kind, session, EMPTY, polls);
            && Places(l, x) == Arrived(kind, session, EMPTY, polls, x)
            && RightPlaces(kind, session, l)
  {
    RunConserves(kind, session, EMPTY, polls, x);
  }

  // ------------------------------------------------------- demultiplexing

  /** The first two integers of a stream are the stream type and the session's ID, and `rest` follows them. */
  predicate Opens(kind: Kind, b: seq<byte>, session: VarInt, rest: seq<byte>) {
    && Parse(b).Some?
    && Parse(b).value.value == (if kind == Uni then UNI_WEBTRANSPORT else Frames.WEBTRANSPORT)
    && var b' := b[Parse(b).value.len..];
    && Parse(b').Some?
    && Parse(b').value.value == session
    && rest == b'[Parse(b').value.len..]
  }

  /** A stream is delivered exactly when its first two integers are the stream type and the session's ID. */
  lemma DeliveredExactly(kind: Kind, b: seq<byte>, session: VarInt, rest: seq<byte>)
    ensures Judge(kind, b, session) == Deliver(rest) <==> Opens(kind, b, session, rest)
  {
    hide Parse;
  }

  /**
   * Unidirectional streams of other types, however the type is encoded: the two QPACK streams are kept, all others
   * are ignored, whatever they carry.
   */
  lemma OtherTypes(b: seq<byte>, session: VarInt)
    requires Parse(b).Some? && Parse(b).value.value != UNI_WEBTRANSPORT
    ensures var typ, v := Parse(b).value.value, Judge(Uni, b, session);
            && (v == KeepEncoder <==> typ == QPACK_ENCODER)
            && (v == KeepDecoder <==> typ == QPACK_DECODER)
            && (v == Ignore <==> typ != QPACK_ENCODER && typ != QPACK_DECODER)
  {
    hide Parse;
  }

  function Header(kind: Kind, session: VarInt): seq<byte> {
    match kind
    case Uni => HeaderUni(session)
    case Bi => HeaderBi(session)
  }

  /**
   * A stream opened with the cached preface of session i reaches the acceptor of session j exactly when i == j,
   * positioned after the preface.
   */
  lemma Demultiplexed(kind: Kind, i: VarInt, j: VarInt, payload: seq<byte>)
    ensures Judge(kind, Header(kind, i) + payload, j) == if i == j then Deliver(payload) else Fail
  {
    hide Parse, Encode;
    var typ: VarInt := if kind == Uni then UNI_WEBTRANSPORT else Frames.WEBTRANSPORT;
    var b := Header(kind, i) + payload;
    assert b == Encode(typ) + (Encode(i) + payload);
    RoundTrip(typ, Encode(i) + payload);
    RoundTrip(i, payload);
    assert b[Size(typ)..] == Encode(i) + payload;
    assert (Encode(i) + payload)[Size(i)..] == payload;
  }

  lemma {:induction false} DeliveredIsListed(ds: seq<Delivery>, x: Stream)
    requires Deliveries(ds, x) > 0
    ensures exists d :: d in ds && d.stream == x
  {
    if ds[0].stream == x {
      assert ds[0] in ds;
    } else {
      DeliveredIsListed(ds[1..], x);
    }
  }

  // ------------------------------------------------------- what a poll returns

  /** The streams that are pending after some events that do not end the poll. */
  function Held(pending: multiset<Stream>, events: seq<Event>): multiset<Stream>
    decreases |events|
  {
    if events == [] then pending
    else if events[0].Arrive? then Held(pending + multiset{events[0].stream}, events[1..])
    else if events[0].Resolve? then Held(pending - multiset{events[0].stream}, events[1..])
    else Held(pending, events[1..])
  }

  /** A poll goes on after a new stream, and after a pending one that does not open with this session's preface. */
  ghost predicate Passes(kind: Kind, session: VarInt, pending: multiset<Stream>, e: Event) {
    e.Arrive? || (e.Resolve? && e.stream in pending && forall rest :: !Opens(kind, e.stream.bytes, session, rest))
  }

  /** The poll gets past the first i events. */
  ghost predicate Reaches(kind: Kind, session: VarInt, pending: multiset<Stream>, events: seq<Event>, i: nat) {
    i <= |events| && forall j :: 0 <= j < i ==> Passes(kind, session, Held(pending, events[..j]), events[j])
  }

  /** Event i is the first that ends the poll: a pending stream of this session, with `rest` behind its preface. */
  ghost predicate Finds(
      kind: Kind, session: VarInt, pending: multiset<Stream>, events: seq<Event>, i: nat, d: Delivery)
  {
    && i < |events|
    && Reaches(kind, session, pending, events, i)
    && events[i] == Resolve(d.stream)
    && d.stream in Held(pending, events[..i])
    && Opens(kind, d.stream.bytes, session, d.rest)
  }

  /** Event i is the first that ends the poll: the connection is lost. */
  ghost predicate Loses(kind: Kind, session: VarInt, pending: multiset<Stream>, events: seq<Event>, i: nat) {
    i < |events| && Reaches(kind, session, pending, events, i) && events[i].Lose?
  }

  lemma PassesExactly(kind: Kind, session: VarInt, pending: multiset<Stream>, e: Event)
    ensures Passes(kind, session, pending, e) <==>
              e.Arrive? || (e.Resolve? && e.stream in pending && !Judge(kind, e.stream.bytes, session).Deliver?)
  {
    hide Judge, Opens;
    if e.Resolve? {
      var v := Judge(kind, e.stream.bytes, session);
      if v.Deliver? {
        DeliveredExactly(kind, e.stream.bytes, session, v.rest);
      }
      forall rest | Opens(kind, e.stream.bytes, session, rest) ensures v == Deliver(rest) {
        DeliveredExactly(kind, e.stream.bytes, session, rest);
      }
    }
  }

  lemma ReachesMore(
      kind: Kind, session: VarInt, before: multiset<Stream>, after: multiset<Stream>, events: seq<Event>, i: nat)
    requires events != [] && Passes(kind, session, before, events[0])
    requires after == Held(before, events[..1])
    requires Reaches(kind, session, after, events[1..], i)
    ensures Reaches(kind, session, before, events, i + 1)
    ensures Held(before, events[..i + 1]) == Held(after, events[1..][..i])
  {
    hide Passes;
    assert events[..1][1..] == [];
    forall j | 0 <= j <= i ensures Held(before, events[..j + 1]) == Held(after, events[1..][..j]) {
      assert events[..j + 1][1..] == events[1..][..j];
    }
    forall j | 0 <= j < i + 1 ensures Passes(kind, session, Held(before, events[..j]), events[j]) {
      if j > 0 {
        assert Passes(kind, session, Held(after, events[1..][..j - 1]), events[1..][j - 1]);
      } else {
        assert events[..0] == [];
      }
    }
  }

  /** The delivery that a poll returns, if any. */
  function Returned(p: Poll): seq<Delivery> {
    if p.Ready? && p.value.Ok? then [p.value.value] else []
  }

  /** What a poll returns at an event that it does not go on after. */
  function ReturnsAt(kind: Kind, session: VarInt, pending: multiset<Stream>, e: Event): Poll {
    if e.Lose? then Ready(Err(ConnectionLost))
    else if e.Arrive? || e.stream !in pending then Pending
    else
      var v := Judge(kind, e.stream.bytes, session);
      if v.Deliver? then Ready(Ok(Delivery(e.stream, v.rest))) else Pending
  }

  lemma GoesOn(kind: Kind, session: VarInt, l: Lane, events: seq<Event>) returns (m: Lane)
    requires events != [] && Passes(kind, session, l.pending, events[0])
    ensures Polled(kind, session, l, events) == Polled(kind, session, m, events[1..])
    ensures m.pending == Held(l.pending, events[..1])
    ensures m.past.delivered == l.past.delivered
  {
    var e := events[0];
    PassesExactly(kind, session, l.pending, e);
    assert events[..1] == [e] && [e][1..] == [];
    hide Judge, Passes;
    m := if e.Arrive? then l.(pending := l.pending + multiset{e.stream})
         else Settle(l, e.stream, Judge(kind, e.stream.bytes, session));
  }

  lemma EndsHere(kind: Kind, session: VarInt, l: Lane, events: seq<Event>)
    requires events != [] && !Passes(kind, session, l.pending, events[0])
    ensures var (m, p) := Polled(kind, session, l, events);
            p == ReturnsAt(kind, session, l.pending, events[0]) && m.past.delivered == l.past.delivered + Returned(p)
  {
    PassesExactly(kind, session, l.pending, events[0]);
    hide Judge, Passes;
  }

  /** The event that a poll ends at, if any, and what it then returns. */
  lemma {:induction false} EndsAt(kind: Kind, session: VarInt, l: Lane, events: seq<Event>) returns (i: nat)
    ensures Reaches(kind, session, l.pending, events, i)
    ensures i < |events| ==> !Passes(kind, session, Held(l.pending, events[..i]), events[i])
    ensures var (m, p) := Polled(kind, session, l, events);
            && m.past.delivered == l.past.delivered + Returned(p)
            && p == if i < |events| then ReturnsAt(kind, session, Held(l.pending, events[..i]), events[i]) else Pending
    decreases |events|
  {
    hide Judge, Passes, ReturnsAt, Settle;
    if events == [] {
      return 0;
    }
    hide Polled;
    assert events[..0] == [];
    if !Passes(kind, session, l.pending, events[0]) {
      EndsHere(kind, session, l, events);
      return 0;
    }
    var m := GoesOn(kind, session, l, events);
    var k := EndsAt(kind, session, m, events[1..]);
    ReachesMore(kind, session, l.pending, m.pending, events, k);
    hide Held, Reaches;
    i := k + 1;
  }

  lemma EndsOnce(kind: Kind, session: VarInt, pending: multiset<Stream>, events: seq<Event>, i: nat, j: nat)
    requires Reaches(kind, session, pending, events, i) && Reaches(kind, session, pending, events, j)
    requires i < |events| ==> !Passes(kind, session, Held(pending, events[..i]), events[i])
    requires j < |events| ==> !Passes(kind, session, Held(pending, events[..j]), events[j])
    ensures i == j
  {
    hide Passes, Held;
  }

  /**
   * What every poll returns: exactly the first pending stream whose preface names this session, positioned right
   * behind it, and exactly a lost connection as the error; and it is delivered if and only if it is returned.
   */
  lemma PollExactly(kind: Kind, session: VarInt, l: Lane, events: seq<Event>)
    ensures var (m, p) := Polled(kind, session, l, events);
            && m.past.delivered == l.past.delivered + Returned(p)
            && (forall d :: p == Ready(Ok(d)) <==> exists i :: Finds(kind, session, l.pending, events, i, d))
            && (forall e :: p == Ready(Err(e)) <==>
                  e == ConnectionLost && exists i :: Loses(kind, session, l.pending, events, i))
  {
    hide Polled, Judge, Opens, Held;
    var i := EndsAt(kind, session, l, events);
    var p := Polled(kind, session, l, events).1;
    if i < |events| && events[i].Resolve? {
      PassesExactly(kind, session, Held(l.pending, events[..i]), events[i]);
    }
    forall d, j: nat | Finds(kind, session, l.pending, events, j, d) ensures i == j && p == Ready(Ok(d)) {
      PassesExactly(kind, session, Held(l.pending, events[..j]), events[j]);
      DeliveredExactly(kind, d.stream.bytes, session, d.rest);
      EndsOnce(kind, session, l.pending, events, i, j);
    }
    forall j: nat | Loses(kind, session, l.pending, events, j) ensures i == j {
      EndsOnce(kind, session, l.pending, events, i, j);
    }
    if p.Ready? && p.value.Ok? {
      DeliveredExactly(kind, p.value.value.stream.bytes, session, p.value.value.rest);
      assert Finds(kind, session, l.pending, events, i, p.value.value);
    }
    if p.Ready? && p.value.Err? {
      assert Loses(kind, session, l.pending, events, i);
    }
  }

  /** All that the polls of a run return to the application, in order. */
  function ReturnedBy(kind: Kind, session: VarInt, l: Lane, polls: seq<seq<Event>>): seq<Delivery>
    decreases |polls|
  {
    if polls == [] then []
    else
      var (m, p) := Polled(kind, session, l, polls[0]);
      Returned(p) + ReturnedBy(kind, session, m, polls[1..])
  }

  /** Over every run, the delivered streams are those that the polls returned, in that order. */
  lemma {:induction false} DeliveredAreReturned(kind: Kind, session: VarInt, l: Lane, polls: seq<seq<Event>>)
    ensures After(kind, session, l, polls).past.delivered ==
              l.past.delivered + ReturnedBy(kind, session, l, polls)
    decreases |polls|
  {
    hide Polled, Finds, Loses;
    if polls != [] {
      var (m, p) := Polled(kind, session, l, polls[0]);
      PollExactly(kind, session, l, polls[0]);
      DeliveredAreReturned(kind, session, m, polls[1..]);
    }
  }

  /**
   * A stream of another session is never returned to the application, and one of this session is never anywhere but
   * pending or returned.
   */
  lemma NoCrossDelivery(kind: Kind, i: VarInt, j: VarInt, payload: seq<byte>, id: nat, polls: seq<seq<Event>>)
    ensures var x := Stream(id, Header(kind, i) + payload);
            var l, given := After(kind, j, EMPTY, polls), ReturnedBy(kind, j, EMPTY, polls);
            && (i != j ==> Deliveries(given, x) == 0)
            && (i == j ==> l.pending[x] + Deliveries(given, x) == Arrived(kind, j, EMPTY, polls, x))
  {
    var x := Stream(id, Header(kind, i) + payload);
    Demultiplexed(kind, i, j, payload);
    ExactlyOnePlace(kind, j, polls, x);
    DeliveredAreReturned(kind, j, EMPTY, polls);
    hide Judge, After, Header, ReturnedBy;
    var l, given := After(kind, j, EMPTY, polls), ReturnedBy(kind, j, EMPTY, polls);
    assert [] + given == given;
    if Deliveries(given, x) > 0 {
      DeliveredIsListed(l.past.delivered, x);
    }
  }

  // ------------------------------------------------------- datagrams

  /** What precedes the data: nothing on a raw QUIC session. */
  function DatagramHeader(session: Option<VarInt>): seq<byte> {
    if session.Some? then Encode(session.value) else []
  }

  function Datagram(session: Option<VarInt>, data: seq<byte>): seq<byte> {
    DatagramHeader(session) + data
  }

  /** Received datagrams carry the session ID; a raw QUIC session (None) has none to check. */
  method ReadDatagram(session: Option<VarInt>, datagram: seq<byte>) returns (r: Result<seq<byte>, SessionError>)
    ensures session.None? ==> r == Ok(datagram)
    ensures session.Some? ==> r == SessionId(datagram, session.value)
  {
    hide Parse;
    var cursor := new Buf(datagram);
    if session.Some? {
      var actual := VarInts.Decode(cursor);
      if actual.None? {
        return Err(UnknownSession);
      }
      if actual.value != session.value {
        return Err(UnknownSession);
      }
    }
    r := Ok(cursor.rest);
  }

  /** A datagram sent on session i is received on session j exactly when i == j, with its data intact. */
  lemma DatagramRoundTrip(i: VarInt, j: VarInt, data: seq<byte>)
    ensures SessionId(Datagram(Some(i), data), j) == if i == j then Ok(data) else Err(UnknownSession)
  {
    hide Parse, Encode;
    RoundTrip(i, data);
    assert Datagram(Some(i), data)[Size(i)..] == data;
  }

  /** The announced size, given the connection's limit, if it takes datagrams at all. */
  function MaxDatagramSize(limit: Option<nat>, session: Option<VarInt>): nat {
    var mtu := if limit.Some? then limit.value else 0;
    var header := |DatagramHeader(session)|;
    if mtu < header then 0 else mtu - header
  }

  /** Data of some size fits a datagram of the connection. */
  predicate Fits(limit: Option<nat>, session: Option<VarInt>, data: seq<byte>) {
    limit.Some? && |Datagram(session, data)| <= limit.value
  }

  /**
   * The announced size is right, that is data fits exactly up to it, if and only if the connection takes datagrams
   * that have room for the header; otherwise it announces 0 although not even empty data fits.
   */
  lemma DatagramFitsExactly(limit: Option<nat>, session: Option<VarInt>)
    ensures (forall data :: Fits(limit, session, data) <==> |data| <= MaxDatagramSize(limit, session)) <==>
              limit.Some? && limit.value >= |DatagramHeader(session)|
    ensures !(limit.Some? && limit.value >= |DatagramHeader(session)|) ==>
              MaxDatagramSize(limit, session) == 0 && !Fits(limit, session, [])
  {
    hide Encode;
    if !(limit.Some? && limit.value >= |DatagramHeader(session)|) {
      assert !Fits(limit, session, []);
    }
  }
}
