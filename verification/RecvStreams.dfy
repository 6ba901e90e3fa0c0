/**
 * The browser receive stream: at most one read is in flight, and a cancelled read leaves it for the next
 * caller. The browser is a source whose reads may stay pending, deliver a chunk, end or fail.
 */
module RecvStreams {
  import opened Bytes

  /** Pending carries whether the polling task woke itself to be polled again. */
  datatype Poll<+T> = Pending(woken: bool) | Ready(value: T)

  datatype IoError = Unavailable | ReadFailed

  datatype ReadState = Idle | Reading

  /** What polling the read in flight finds. */
  datatype Answer = StillPending | Chunk(bytes: seq<byte>) | NoMore | Failed

  /** The fields of a stream, together with everything its source has handed over. */
  datatype State = State(
    reader: bool,
    readState: ReadState,
    buffer: seq<byte>,
    eof: bool,
    delivered: seq<byte>,
    aborted: bool)

  type ChunkPoll = Poll<Result<Option<seq<byte>>, IoError>>

  const ROUNDS: nat := 16

  // ------------------------------------------------------- each operation as a function of the state

  function PolledInflight(s: State, a: Answer): (State, ChunkPoll) {
    match s.readState
    case Idle => (s, Ready(Ok(None)))
    case Reading =>
      var t := s.(reader := true, readState := Idle);
      match a
      case StillPending => (s, Pending(false))
      case Chunk(bytes) => (t.(delivered := s.delivered + bytes), Ready(Ok(Some(bytes))))
      case NoMore => (t, Ready(Ok(None)))
      case Failed => (t, Ready(Err(ReadFailed)))
  }

  /** The answer to the next poll of the source; one that is not listed stays pending. */
  function First(answers: seq<Answer>): Answer {
    if answers == [] then StillPending else answers[0]
  }

  function Others(answers: seq<Answer>): seq<Answer> {
    if answers == [] then [] else answers[1..]
  }

  /** One poll for at most `max` bytes, with `rounds` rounds left. */
  function PolledChunk(s: State, max: nat, answers: seq<Answer>, rounds: nat): (State, ChunkPoll)
    decreases rounds
  {
    if rounds == 0 then (s, Pending(true))
    else if s.buffer != [] then
      var size := Min(max, |s.buffer|);
      (s.(buffer := s.buffer[size..]), Ready(Ok(Some(s.buffer[..size]))))
    else if s.eof then (s, Ready(Ok(None)))
    else if s.readState.Idle? && !s.reader then (s, Ready(Err(Unavailable)))
    else
      var started := if s.readState.Idle? then s.(reader := false, readState := Reading) else s;
      var (t, p) := PolledInflight(started, First(answers));
      match p
      case Pending(w) => (t, Pending(w))
      case Ready(Err(e)) => (t.(eof := true), Ready(Err(e)))
      case Ready(Ok(None)) => (t.(eof := true), Ready(Ok(None)))
      case Ready(Ok(Some(chunk))) => PolledChunk(t.(buffer := chunk), max, Others(answers), rounds - 1)
  }

  function Polled(s: State, max: nat, answers: seq<Answer>): (State, ChunkPoll) {
    if max == 0 then (s, Ready(Ok(Some([])))) else PolledChunk(s, max, answers, ROUNDS)
  }

  function AfterStop(s: State): State {
    s.(eof := true, buffer := [], readState := Idle, aborted := true)
  }

  // ------------------------------------------------------- the code itself

  class Source {
    var delivered: seq<byte>
    var aborted: bool

    constructor ()
      ensures delivered == [] && !aborted
    {
      delivered, aborted := [], false;
    }

    method Hand(s: seq<byte>)
      modifies this
      ensures delivered == old(delivered) + s && aborted == old(aborted)
    {
      delivered := delivered + s;
    }

    method Abort()
      modifies this
      ensures delivered == old(delivered) && aborted
    {
      aborted := true;
    }
  }

  /** The exclusive handle on the source; a read in flight owns it. */
  datatype Reader = Reader(source: Source)

  class RecvStream {
    const stream: Source
    var eof: bool
    var reader: Option<Reader>
    var buffer: seq<byte>
    var readState: ReadState

    constructor (stream: Source)
      requires stream.delivered == [] && !stream.aborted
      ensures this.stream == stream && Inv() && Now() == NEW
    {
      this.stream := stream;
      eof, reader, buffer, readState := false, Some(Reader(stream)), [], Idle;
    }

    ghost predicate Inv()
      reads this
    {
      reader.Some? ==> reader.value.source == stream
    }

    ghost function Now(): State
      reads this, stream
    {
      State(reader.Some?, readState, buffer, eof, stream.delivered, stream.aborted)
    }

    method PollInflightRead(a: Answer) returns (r: ChunkPoll)
      requires Inv()
      modifies this, stream
      ensures Inv() && (Now(), r) == PolledInflight(old(Now()), a)
    {
      match readState {
        case Idle => r := Ready(Ok(None));
        case Reading =>
          if a.StillPending? {
            return Pending(false);
          }
          reader, readState := Some(Reader(stream)), Idle;
          match a {
            case Chunk(bytes) =>
              stream.Hand(bytes);
              r := Ready(Ok(Some(bytes)));
            case NoMore => r := Ready(Ok(None));
            case Failed => r := Ready(Err(ReadFailed));
          }
      }
    }

    method PollChunk(max: nat, answers: seq<Answer>) returns (r: ChunkPoll)
      requires Inv()
      modifies this, stream
      ensures Inv() && (Now(), r) == Polled(old(Now()), max, answers)
    {
      if max == 0 {
        return Ready(Ok(Some([])));
      }
      hide PolledInflight, Min;
      var left := answers;
      for round := 0 to ROUNDS
        invariant Inv()
        invariant PolledChunk(Now(), max, left, ROUNDS - round) == Polled(old(Now()), max, answers)
      {
        if buffer != [] {
          var size := Min(max, |buffer|);
          var chunk := buffer[..size];
          buffer := buffer[size..];
          return Ready(Ok(Some(chunk)));
        }
        if eof {
          return Ready(Ok(None));
        }
        if readState.Idle? {
          if reader.None? {
            return Ready(Err(Unavailable));
          }
          reader, readState := None, Reading;
        }
        var p := PollInflightRead(First(left));
        left := Others(left);
        match p {
          case Pending(w) => return Pending(w);
          case Ready(Err(e)) =>
            eof := true;
            return Ready(Err(e));
          case Ready(Ok(None)) =>
            eof := true;
            return Ready(Ok(None));
          case Ready(Ok(Some(chunk))) => buffer := chunk;
        }
      }
      r := Pending(true);
    }

    /** Copying what one poll returns into the caller's buffer. */
    method PollRead(buf: array<byte>, answers: seq<Answer>) returns (r: Poll<Result<nat, IoError>>)
      requires Inv()
      modifies this, stream, buf
      ensures Inv() && Now() == Polled(old(Now()), buf.Length, answers).0
      ensures match Polled(old(Now()), buf.Length, answers).1
              case Pending(w) => r == Pending(w) && buf[..] == old(buf[..])
              case Ready(Err(e)) => r == Ready(Err(e)) && buf[..] == old(buf[..])
              case Ready(Ok(None)) => r == Ready(Ok(0)) && buf[..] == old(buf[..])
              case Ready(Ok(Some(chunk))) =>
                r == Ready(Ok(|chunk|)) && |chunk| <= buf.Length && buf[..] == chunk + old(buf[|chunk|..])
    {
      ghost var before := buf[..];
      PolledFits(Now(), buf.Length, answers);
      var p := PollChunk(buf.Length, answers);
      match p {
        case Pending(w) => r := Pending(w);
        case Ready(Err(e)) => r := Ready(Err(e));
        case Ready(Ok(None)) => r := Ready(Ok(0));
        case Ready(Ok(Some(chunk))) =>
          forall i | 0 <= i < |chunk| {
            buf[i] := chunk[i];
          }
          assert buf[..] == chunk + before[|chunk|..];
          r := Ready(Ok(|chunk|));
      }
    }

    method Stop()
      requires Inv()
      modifies this, stream
      ensures Inv() && Now() == AfterStop(old(Now()))
    {
      eof := true;
      buffer := [];
      readState := Idle;
      if reader.Some? {
        reader.value.source.Abort();
      } else {
        stream.Abort();
      }
    }
  }

  // ------------------------------------------------------- one poll

  lemma {:induction false} ChunkFits(s: State, max: nat, answers: seq<Answer>, rounds: nat)
    requires max > 0
    ensures var p := PolledChunk(s, max, answers, rounds).1;
            p.Ready? && p.value.Ok? && p.value.value.Some? ==> 1 <= |p.value.value.value| <= max
    decreases rounds
  {
    if rounds > 0 && s.buffer == [] && !s.eof && First(answers).Chunk? {
      var t := s.(reader := true, readState := Idle, delivered := s.delivered + First(answers).bytes,
                  buffer := First(answers).bytes);
      ChunkFits(t, max, Others(answers), rounds - 1);
    }
  }

  /** A data result is never longer than asked for, and is empty only when nothing was asked for. */
  lemma PolledFits(s: State, max: nat, answers: seq<Answer>)
    ensures var p := Polled(s, max, answers).1;
            p.Ready? && p.value.Ok? && p.value.value.Some? ==>
              |p.value.value.value| <= max && (p.value.value.value == [] <==> max == 0)
  {
    if max > 0 {
      ChunkFits(s, max, answers, ROUNDS);
    }
  }

  // ------------------------------------------------------- whole runs

  const NEW := State(true, Idle, [], false, [], false)

  datatype Op = Read(max: nat, answers: seq<Answer>) | Stop

  /** A stream, everything its callers were given, and whether it was stopped. */
  datatype Run = Run(s: State, returned: seq<byte>, stopped: bool)

  function DataOf(p: ChunkPoll): seq<byte> {
    if p.Ready? && p.value.Ok? && p.value.value.Some? then p.value.value.value else []
  }

  function Next(r: Run, op: Op): Run {
    match op
    case Read(max, answers) =>
      var (s, p) := Polled(r.s, max, answers);
      Run(s, r.returned + DataOf(p), r.stopped)
    case Stop => Run(AfterStop(r.s), r.returned, true)
  }

  function After(r: Run, ops: seq<Op>): Run
    decreases |ops|
  {
    if ops == [] then r else After(Next(r, ops[0]), ops[1..])
  }

  const START := Run(NEW, [], false)

  /** What every reachable stream satisfies. */
  predicate Invariant(r: Run) {
    var s := r.s;
    && (s.readState.Reading? ==> !s.reader && !s.eof && s.buffer == [])
    && (s.readState.Idle? && !s.reader ==> s.eof)
    && (s.eof ==> s.buffer == [])
    && (r.stopped <==> s.aborted)
    && (r.stopped ==> s.eof && r.returned <= s.delivered)
    && (!r.stopped ==> r.returned + s.buffer == s.delivered)
  }

  /** What a poll with some rounds left keeps and reports. */
  predicate Kept(r: Run, s: State, p: ChunkPoll, rounds: nat) {
    && Invariant(Run(s, r.returned + DataOf(p), r.stopped))
    && r.s.delivered <= s.delivered
    && p != Ready(Err(Unavailable))
    && (r.s.eof && rounds > 0 ==> s == r.s && p == Ready(Ok(None)))
    && (p.Ready? && (p.value.Err? || p.value.value.None?) ==> s.eof)
  }

  lemma {:induction false} ChunkKeeps(r: Run, max: nat, answers: seq<Answer>, rounds: nat)
    requires Invariant(r) && max > 0
    ensures Kept(r, PolledChunk(r.s, max, answers, rounds).0, PolledChunk(r.s, max, answers, rounds).1, rounds)
    decreases rounds
  {
    if rounds > 0 && r.s.buffer == [] && !r.s.eof && First(answers).Chunk? {
      ChunkArrives(r, max, answers, rounds);
      hide PolledChunk, Invariant, Kept;
      var t := WithChunk(r.s, First(answers).bytes);
      ChunkKeeps(Run(t, r.returned, r.stopped), max, Others(answers), rounds - 1);
      KeptThroughChunk(r, t, PolledChunk(t, max, Others(answers), rounds - 1).0,
                       PolledChunk(t, max, Others(answers), rounds - 1).1, rounds);
    } else {
      OneRound(r, max, answers, rounds);
    }
  }

  function WithChunk(s: State, chunk: seq<byte>): State {
    s.(reader := true, readState := Idle, delivered := s.delivered + chunk, buffer := chunk)
  }

  /** A chunk goes into the empty buffer, and the loop goes round again. */
  lemma ChunkArrives(r: Run, max: nat, answers: seq<Answer>, rounds: nat)
    requires Invariant(r) && rounds > 0 && r.s.buffer == [] && !r.s.eof && First(answers).Chunk?
    ensures var t := WithChunk(r.s, First(answers).bytes);
            && Invariant(Run(t, r.returned, r.stopped))
            && PolledChunk(r.s, max, answers, rounds) == PolledChunk(t, max, Others(answers), rounds - 1)
  {
    assert r.returned + [] == r.returned;
  }

  lemma KeptThroughChunk(r: Run, t: State, s: State, p: ChunkPoll, rounds: nat)
    requires rounds > 0 && !r.s.eof && r.s.delivered <= t.delivered
    requires Kept(Run(t, r.returned, r.stopped), s, p, rounds - 1)
    ensures Kept(r, s, p, rounds)
  {
    hide Invariant;
  }

  /** A poll that does not go round again. */
  lemma OneRound(r: Run, max: nat, answers: seq<Answer>, rounds: nat)
    requires Invariant(r) && max > 0
    requires rounds == 0 || r.s.buffer != [] || r.s.eof || !First(answers).Chunk?
    ensures Kept(r, PolledChunk(r.s, max, answers, rounds).0, PolledChunk(r.s, max, answers, rounds).1, rounds)
  {
    assert r.returned + [] == r.returned;
    if rounds > 0 && r.s.buffer != [] {
      var size := Min(max, |r.s.buffer|);
      assert r.s.buffer == r.s.buffer[..size] + r.s.buffer[size..];
      assert r.returned + r.s.buffer == (r.returned + r.s.buffer[..size]) + r.s.buffer[size..];
    }
  }

  lemma InvariantStep(r: Run, op: Op)
    requires Invariant(r)
    ensures Invariant(Next(r, op))
    ensures r.s.delivered <= Next(r, op).s.delivered
    ensures r.s.eof ==> Next(r, op).s.eof && Next(r, op).returned == r.returned
  {
    assert r.returned + [] == r.returned;
    if op.Read? && op.max > 0 {
      ChunkKeeps(r, op.max, op.answers, ROUNDS);
    }
  }

  lemma {:induction false} InvariantAlways(r: Run, ops: seq<Op>)
    requires Invariant(r)
    ensures Invariant(After(r, ops))
    ensures r.s.eof ==> After(r, ops).s.eof && After(r, ops).returned == r.returned
    decreases |ops|
  {
    if ops != [] {
      InvariantStep(r, ops[0]);
      InvariantAlways(Next(r, ops[0]), ops[1..]);
    }
  }

  lemma {:induction false} StoppedExactly(r: Run, ops: seq<Op>)
    ensures After(r, ops).stopped <==> r.stopped || Stop in ops
    decreases |ops|
  {
    if ops != [] {
      StoppedExactly(Next(r, ops[0]), ops[1..]);
      assert ops == [ops[0]] + ops[1..];
      hide Polled;
    }
  }

  /**
   * Over every run: what callers were given, followed by the buffer, is exactly what the source handed
   * over, in order; after a stop it is a prefix of that, and the source was told to stop exactly then.
   */
  lemma LossFree(ops: seq<Op>)
    ensures var r := After(START, ops);
            && (!r.stopped ==> r.returned + r.s.buffer == r.s.delivered)
            && (r.stopped ==> r.returned <= r.s.delivered && r.s.buffer == [])
            && (r.s.aborted <==> Stop in ops)
  {
    StoppedExactly(START, ops);
    InvariantAlways(START, ops);
  }

  /** A read is only ever in flight while the buffer is empty, so no buffered byte is overwritten. */
  lemma BufferIsNeverOverwritten(ops: seq<Op>)
    ensures After(START, ops).s.readState.Reading? ==> After(START, ops).s.buffer == []
    ensures After(START, ops).s.readState.Idle? && !After(START, ops).s.reader ==> After(START, ops).s.eof
  {
    InvariantAlways(START, ops);
  }

  /** The "reader is unavailable" branch of a poll is never taken. */
  lemma NeverUnavailable(ops: seq<Op>, max: nat, answers: seq<Answer>)
    ensures Polled(After(START, ops).s, max, answers).1 != Ready(Err(Unavailable))
  {
    InvariantAlways(START, ops);
    if max > 0 {
      ChunkKeeps(After(START, ops), max, answers, ROUNDS);
    }
  }

  /** After the end, an error or a stop, every later poll reports the end and consumes nothing. */
  lemma EndIsPermanent(ops: seq<Op>, op: Op, later: seq<Op>, max: nat, answers: seq<Answer>)
    requires max > 0
    requires op.Stop? || var p := Polled(After(START, ops).s, op.max, op.answers).1;
                         p.Ready? && (p.value.Err? || p.value.value.None?)
    ensures var r := After(Next(After(START, ops), op), later);
            && Polled(r.s, max, answers) == (r.s, Ready(Ok(None)))
            && r.returned == After(START, ops).returned
  {
    var r := After(START, ops);
    InvariantAlways(START, ops);
    InvariantStep(r, op);
    if op.Read? && op.max > 0 {
      ChunkKeeps(r, op.max, op.answers, ROUNDS);
    }
    var n := Next(r, op);
    assert n.s.eof && r.returned + [] == r.returned;
    InvariantAlways(n, later);
    ChunkKeeps(After(n, later), max, answers, ROUNDS);
  }

  /** The answers that make every round bring a chunk, all of them empty but perhaps the last. */
  predicate KeepsSpinning(answers: seq<Answer>, rounds: nat) {
    rounds == 0
    || (&& |answers| >= rounds
        && answers[rounds - 1].Chunk?
        && forall i :: 0 <= i < rounds - 1 ==> answers[i] == Chunk([]))
  }

  lemma {:induction false} SpinsToTheEnd(r: Run, max: nat, answers: seq<Answer>, rounds: nat)
    requires Invariant(r) && max > 0
    ensures PolledChunk(r.s, max, answers, rounds).1 == Pending(true) <==>
              rounds == 0 || (r.s.buffer == [] && !r.s.eof && KeepsSpinning(answers, rounds))
    decreases rounds
  {
    if rounds > 0 && r.s.buffer == [] && !r.s.eof && First(answers).Chunk? {
      ChunkArrives(r, max, answers, rounds);
      var t := WithChunk(r.s, First(answers).bytes);
      SpinStep(answers, rounds);
      hide PolledChunk, Invariant, KeepsSpinning;
      SpinsToTheEnd(Run(t, r.returned, r.stopped), max, Others(answers), rounds - 1);
    }
  }

  lemma SpinStep(answers: seq<Answer>, rounds: nat)
    requires rounds > 0 && First(answers).Chunk?
    ensures KeepsSpinning(answers, rounds) <==>
              rounds == 1 || (First(answers).bytes == [] && KeepsSpinning(Others(answers), rounds - 1))
  {
    var more := Others(answers);
    assert forall i :: 0 <= i < |more| ==> more[i] == answers[i + 1];
    if rounds > 1 && First(answers).bytes == [] && KeepsSpinning(more, rounds - 1) {
      forall i | 0 <= i < rounds - 1 ensures answers[i] == Chunk([]) {
        assert i > 0 ==> answers[i] == more[i - 1];
      }
    }
    if rounds > 1 && KeepsSpinning(answers, rounds) {
      assert answers[0] == Chunk([]);
    }
  }

  /**
   * In every run: a poll wakes its own task exactly when it asked for data, found an empty buffer and an open
   * stream, and met fifteen empty chunks and a sixteenth chunk of any size.
   */
  lemma SelfWake(ops: seq<Op>, max: nat, answers: seq<Answer>)
    ensures var s := After(START, ops).s;
            Polled(s, max, answers).1 == Pending(true) <==>
              max > 0 && s.buffer == [] && !s.eof && KeepsSpinning(answers, ROUNDS)
  {
    InvariantAlways(START, ops);
    if max > 0 {
      SpinsToTheEnd(After(START, ops), max, answers, ROUNDS);
    }
  }

  // ------------------------------------------------------- what a poll reports

  /** The answer to poll i of the source. */
  function AnswerAt(answers: seq<Answer>, i: nat): Answer {
    if i < |answers| then answers[i] else StillPending
  }

  /** The first of some answers that is not an empty chunk is the one at i. */
  predicate Decides(answers: seq<Answer>, i: nat, a: Answer) {
    && (forall j :: 0 <= j < i ==> AnswerAt(answers, j) == Chunk([]))
    && AnswerAt(answers, i) == a != Chunk([])
  }

  /** A poll of an open stream with an empty buffer is decided within sixteen answers. */
  predicate DecidedBy(answers: seq<Answer>, a: Answer) {
    exists i :: 0 <= i < ROUNDS && Decides(answers, i, a)
  }

  /** A chunk decides only if there is another round to hand it out. */
  predicate DecidedByChunk(answers: seq<Answer>, bytes: seq<byte>) {
    exists i :: 0 <= i < ROUNDS - 1 && Decides(answers, i, Chunk(bytes))
  }

  lemma DecidesStep(answers: seq<Answer>, i: nat, a: Answer)
    requires Decides(answers, i, a)
    ensures i == 0 ==> First(answers) == a
    ensures i > 0 ==> First(answers) == Chunk([]) && Decides(Others(answers), i - 1, a)
  {
    assert First(answers) == AnswerAt(answers, 0);
    forall j | 0 <= j < i ensures AnswerAt(Others(answers), j) == AnswerAt(answers, j + 1) {
    }
  }

  /** What the deciding answer makes of the poll. */
  lemma {:induction false} DecidedPoll(r: Run, max: nat, answers: seq<Answer>, rounds: nat, i: nat, a: Answer)
    requires Invariant(r) && max > 0 && r.s.buffer == [] && !r.s.eof
    requires i < rounds && Decides(answers, i, a)
    ensures var p := PolledChunk(r.s, max, answers, rounds).1;
            && (a.StillPending? ==> p == Pending(false))
            && (a.NoMore? ==> p == Ready(Ok(None)))
            && (a.Failed? ==> p == Ready(Err(ReadFailed)))
            && (a.Chunk? ==> p == if i == rounds - 1 then Pending(true)
                                  else Ready(Ok(Some(a.bytes[..Min(max, |a.bytes|)]))))
    decreases i
  {
    DecidesStep(answers, i, a);
    if First(answers).Chunk? {
      ChunkArrives(r, max, answers, rounds);
      var t := WithChunk(r.s, First(answers).bytes);
      if i > 0 {
        hide PolledChunk, Decides, Invariant;
        DecidedPoll(Run(t, r.returned, r.stopped), max, Others(answers), rounds - 1, i - 1, a);
      }
    }
  }

  lemma {:induction false} FirstFull(answers: seq<Answer>, n: nat) returns (i: nat)
    ensures i <= n && forall j :: 0 <= j < i ==> AnswerAt(answers, j) == Chunk([])
    ensures i < n ==> Decides(answers, i, AnswerAt(answers, i))
  {
    i := 0;
    while i < n && AnswerAt(answers, i) == Chunk([])
      invariant i <= n && forall j :: 0 <= j < i ==> AnswerAt(answers, j) == Chunk([])
    {
      i := i + 1;
    }
  }

  lemma DecidesOnce(answers: seq<Answer>, i: nat, a: Answer, j: nat, b: Answer)
    requires Decides(answers, i, a) && Decides(answers, j, b)
    ensures i == j && a == b
  {
  }

  lemma AllEmptySpins(answers: seq<Answer>, rounds: nat)
    requires forall j :: 0 <= j < rounds ==> AnswerAt(answers, j) == Chunk([])
    ensures KeepsSpinning(answers, rounds)
  {
    if rounds > 0 {
      assert AnswerAt(answers, rounds - 1) == Chunk([]);
      forall i | 0 <= i < rounds ensures i < |answers| && answers[i] == Chunk([]) {
        assert AnswerAt(answers, i) == Chunk([]);
      }
    }
  }

  lemma OpenReports(r: Run, max: nat, answers: seq<Answer>)
    requires Invariant(r) && max > 0 && r.s.buffer == [] && !r.s.eof
    ensures var p := Polled(r.s, max, answers).1;
            && (p == Ready(Err(ReadFailed)) <==> DecidedBy(answers, Failed))
            && (p == Ready(Ok(None)) <==> DecidedBy(answers, NoMore))
            && (p == Pending(false) <==> DecidedBy(answers, StillPending))
            && (forall bytes ::
                  DecidedByChunk(answers, bytes) ==> p == Ready(Ok(Some(bytes[..Min(max, |bytes|)]))))
            && (p.Ready? && p.value.Ok? && p.value.value.Some? ==> exists bytes :: DecidedByChunk(answers, bytes))
  {
    var i := FirstFull(answers, ROUNDS);
    var a := AnswerAt(answers, i);
    if i < ROUNDS {
      DecidedPoll(r, max, answers, ROUNDS, i, a);
      forall j: nat, b | Decides(answers, j, b) ensures i == j && a == b {
        DecidesOnce(answers, i, a, j, b);
      }
      assert a.Chunk? && i < ROUNDS - 1 ==> DecidedByChunk(answers, a.bytes);
    } else {
      AllEmptySpins(answers, ROUNDS);
      SpinsToTheEnd(r, max, answers, ROUNDS);
      assert forall j: nat, b :: Decides(answers, j, b) ==> j >= ROUNDS;
    }
    hide PolledChunk, KeepsSpinning, Decides, Invariant;
  }

  lemma ClosedReports(s: State, max: nat, answers: seq<Answer>)
    requires max > 0 && (s.buffer != [] || s.eof)
    ensures Polled(s, max, answers).1 ==
              Ready(Ok(if s.buffer != [] then Some(s.buffer[..Min(max, |s.buffer|)]) else None))
  {
  }

  /**
   * What every poll of a reachable stream reports. Buffered bytes come first, and a closed stream has ended;
   * otherwise the first answer among sixteen that is not an empty chunk decides: a failed read is reported as the
   * error, the end of the source as the end, a chunk as its front, and a pending read as pending.
   */
  lemma ReportsExactly(ops: seq<Op>, max: nat, answers: seq<Answer>)
    requires max > 0
    ensures var s := After(START, ops).s;
            var p := Polled(s, max, answers).1;
            var open := s.buffer == [] && !s.eof;
            && (s.buffer != [] ==> p == Ready(Ok(Some(s.buffer[..Min(max, |s.buffer|)]))))
            && (s.buffer == [] && s.eof ==> p == Ready(Ok(None)))
            && (p == Ready(Err(ReadFailed)) <==> open && DecidedBy(answers, Failed))
            && (open ==> (p == Ready(Ok(None)) <==> DecidedBy(answers, NoMore)))
            && (p == Pending(false) <==> open && DecidedBy(answers, StillPending))
            && (open ==> forall bytes ::
                  DecidedByChunk(answers, bytes) ==> p == Ready(Ok(Some(bytes[..Min(max, |bytes|)]))))
            && (open && p.Ready? && p.value.Ok? && p.value.value.Some? ==>
                  exists bytes :: DecidedByChunk(answers, bytes))
  {
    var r := After(START, ops);
    InvariantAlways(START, ops);
    hide *;
    if r.s.buffer == [] && !r.s.eof {
      OpenReports(r, max, answers);
    } else {
      ClosedReports(r.s, max, answers);
    }
  }
}
