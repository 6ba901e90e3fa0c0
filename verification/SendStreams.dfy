/**
 * The browser send stream: at most one write is in flight, and it survives the cancellation of the call
 * that started it. The browser is a FIFO sink whose write may stay pending, succeed or fail.
 */
module SendStreams {
  import opened Bytes

  const MAX_CHUNK: nat := 64 * 1024

  datatype Poll<+T> = Pending | Ready(value: T)

  datatype IoError = BrokenPipe | Unavailable | WriteFailed | WritePending | Unreachable

  /** The chunk of the write in flight, and how much of it the sink has taken so far. */
  datatype WriteState = Idle | Writing(chunk: seq<byte>, taken: nat)

  /** What polling the write in flight finds: the sink takes `more` bytes, then the write pends, ends or fails. */
  datatype Answer = StillPending(more: nat) | Done | Failed(more: nat)

  /** How the browser's stream ended: a write that fails leaves it errored for good. */
  datatype End = Open | Finished | Aborted | Errored

  /** The fields of a stream, together with what its sink holds. */
  datatype State = State(writer: bool, writeState: WriteState, isClosed: bool, sink: seq<byte>, end: End)

  predicate Valid(s: State) {
    s.writeState.Writing? ==> s.writeState.taken <= |s.writeState.chunk|
  }

  /** How far into its chunk a write gets. */
  function Reach(w: WriteState, a: Answer): (n: nat)
    requires w.Writing? && w.taken <= |w.chunk|
    ensures w.taken <= n <= |w.chunk|
  {
    if a.Done? then |w.chunk| else Min(w.taken + a.more, |w.chunk|)
  }

  // ------------------------------------------------------- each operation as a function of the state

  /** Only an open stream can be closed or fail; a finished one can still be aborted. */
  function Ended(was: End, now: End): End {
    if was == Open || (was == Finished && now == Aborted) then now else was
  }

  function PolledInflight(s: State, a: Answer): (r: (State, Poll<Result<nat, IoError>>))
    requires Valid(s)
    ensures Valid(r.0)
  {
    match s.writeState
    case Idle => (s, Ready(Ok(0)))
    case Writing(chunk, taken) =>
      var reach := Reach(s.writeState, a);
      var t := s.(sink := s.sink + chunk[taken..reach]);
      match a
      case StillPending(_) => (t.(writeState := Writing(chunk, reach)), Pending)
      case Done => (t.(writer := true, writeState := Idle), Ready(Ok(|chunk|)))
      case Failed(_) =>
        (t.(writer := true, writeState := Idle, end := Ended(s.end, Errored)), Ready(Err(WriteFailed)))
  }

  function PolledWrite(s: State, buf: seq<byte>, a: Answer): (r: (State, Poll<Result<nat, IoError>>))
    requires Valid(s)
    ensures Valid(r.0)
  {
    if buf == [] then (s, Ready(Ok(0)))
    else if s.isClosed then (s, Ready(Err(BrokenPipe)))
    else
      var (t, p) := PolledInflight(s, a);
      match p
      case Pending => (t, Pending)
      case Ready(Err(e)) => (t.(isClosed := true), Ready(Err(e)))
      case Ready(Ok(_)) =>
        if t.writeState.Writing? then (t, Ready(Err(Unreachable)))
        else if !t.writer then (t, Ready(Err(Unavailable)))
        else
          var size := Min(|buf|, MAX_CHUNK);
          (t.(writer := false, writeState := Writing(buf[..size], 0)), Ready(Ok(size)))
  }

  function PolledFlush(s: State, a: Answer): (r: (State, Poll<Result<nat, IoError>>))
    requires Valid(s)
    ensures Valid(r.0)
  {
    var (t, p) := PolledInflight(s, a);
    match p
    case Pending => (t, Pending)
    case Ready(Ok(_)) => (t, Ready(Ok(0)))
    case Ready(Err(e)) => (t.(isClosed := true), Ready(Err(e)))
  }

  function PolledClose(s: State, a: Answer): (r: (State, Poll<Result<nat, IoError>>))
    requires Valid(s)
    ensures Valid(r.0)
  {
    var (t, p) := PolledFlush(s, a);
    match p
    case Pending => (t, Pending)
    case Ready(Err(e)) => (t.(isClosed := true), Ready(Err(e)))
    case Ready(Ok(_)) =>
      if t.isClosed then (t, Ready(Ok(0)))
      else if !t.writer then (t, Ready(Err(Unavailable)))
      else (t.(end := Ended(t.end, Finished), isClosed := true), Ready(Ok(0)))
  }

  /** `finish` refuses while a write is in flight: None stands for the refusal. */
  function AfterFinish(s: State): Option<State> {
    if s.writeState.Writing? then None
    else Some(s.(end := if s.writer then Ended(s.end, Finished) else s.end, isClosed := true))
  }

  function AfterReset(s: State): State {
    s.(isClosed := true, writeState := Idle, end := Ended(s.end, Aborted))
  }

  /** What dropping the stream leaves behind. */
  function AfterDrop(s: State): State {
    if s.writeState.Writing? then AfterReset(s)
    else if s.writer then s.(end := Ended(s.end, Finished))
    else s
  }

  // ------------------------------------------------------- the code itself

  class Sink {
    var bytes: seq<byte>
    var end: End

    constructor ()
      ensures bytes == [] && end == Open
    {
      bytes, end := [], Open;
    }

    method Take(s: seq<byte>)
      modifies this
      ensures bytes == old(bytes) + s && end == old(end)
    {
      bytes := bytes + s;
    }

    method Close()
      modifies this
      ensures bytes == old(bytes) && end == Ended(old(end), Finished)
    {
      end := Ended(end, Finished);
    }

    method Abort()
      modifies this
      ensures bytes == old(bytes) && end == Ended(old(end), Aborted)
    {
      end := Ended(end, Aborted);
    }

    method Fail()
      modifies this
      ensures bytes == old(bytes) && end == Ended(old(end), Errored)
    {
      end := Ended(end, Errored);
    }
  }

  /** The exclusive handle on the sink; a write in flight owns it. */
  datatype Writer = Writer(sink: Sink)

  class SendStream {
    const stream: Sink
    var writer: Option<Writer>
    var writeState: WriteState
    var isClosed: bool

    constructor (stream: Sink)
      requires stream.bytes == [] && stream.end == Open
      ensures this.stream == stream && Inv() && Now() == NEW
    {
      this.stream := stream;
      writer, writeState, isClosed := Some(Writer(stream)), Idle, false;
    }

    ghost predicate Inv()
      reads this, stream
    {
      Valid(Now()) && (writer.Some? ==> writer.value.sink == stream)
    }

    ghost function Now(): State
      reads this, stream
    {
      State(writer.Some?, writeState, isClosed, stream.bytes, stream.end)
    }

    method PollInflightWrite(a: Answer) returns (r: Poll<Result<nat, IoError>>)
      requires Inv()
      modifies this, stream
      ensures Inv() && (Now(), r) == PolledInflight(old(Now()), a)
    {
      match writeState {
        case Idle => r := Ready(Ok(0));
        case Writing(chunk, taken) =>
          var reach := Reach(writeState, a);
          stream.Take(chunk[taken..reach]);
          match a {
            case StillPending(_) =>
              writeState := Writing(chunk, reach);
              r := Pending;
            case Done =>
              writer, writeState := Some(Writer(stream)), Idle;
              r := Ready(Ok(|chunk|));
            case Failed(_) =>
              stream.Fail();
              writer, writeState := Some(Writer(stream)), Idle;
              r := Ready(Err(WriteFailed));
          }
      }
    }

    method PollWrite(buf: seq<byte>, a: Answer) returns (r: Poll<Result<nat, IoError>>)
      requires Inv()
      modifies this, stream
      ensures Inv() && (Now(), r) == PolledWrite(old(Now()), buf, a)
    {
      if buf == [] {
        return Ready(Ok(0));
      }
      if isClosed {
        return Ready(Err(BrokenPipe));
      }
      var p := PollInflightWrite(a);
      match p {
        case Pending => return Pending;
        case Ready(Err(e)) =>
          isClosed := true;
          return Ready(Err(e));
        case Ready(Ok(_)) =>
      }
      if writeState.Idle? {
        if writer.None? {
          return Ready(Err(Unavailable));
        }
        var size := Min(|buf|, MAX_CHUNK);
        writer := None;
        writeState := Writing(buf[..size], 0);
        return Ready(Ok(size));
      }
      r := Ready(Err(Unreachable));
    }

    method PollFlush(a: Answer) returns (r: Poll<Result<nat, IoError>>)
      requires Inv()
      modifies this, stream
      ensures Inv() && (Now(), r) == PolledFlush(old(Now()), a)
    {
      var p := PollInflightWrite(a);
      match p {
        case Pending => r := Pending;
        case Ready(Ok(_)) => r := Ready(Ok(0));
        case Ready(Err(e)) =>
          isClosed := true;
          r := Ready(Err(e));
      }
    }

    method PollClose(a: Answer) returns (r: Poll<Result<nat, IoError>>)
      requires Inv()
      modifies this, stream
      ensures Inv() && (Now(), r) == PolledClose(old(Now()), a)
    {
      var p := PollFlush(a);
      match p {
        case Pending => r := Pending;
        case Ready(Err(e)) =>
          isClosed := true;
          r := Ready(Err(e));
        case Ready(Ok(_)) =>
          if !isClosed {
            if writer.None? {
              return Ready(Err(Unavailable));
            }
            writer.value.sink.Close();
            isClosed := true;
          }
          r := Ready(Ok(0));
      }
    }

    method Finish() returns (ok: bool)
      requires Inv()
      modifies this, stream
      ensures Inv()
      ensures match AfterFinish(old(Now()))
              case None => !ok && Now() == old(Now())
              case Some(s) => ok && Now() == s
    {
      if writeState.Writing? {
        return false;
      }
      if writer.Some? {
        writer.value.sink.Close();
      }
      isClosed := true;
      ok := true;
    }

    method Reset()
      requires Inv()
      modifies this, stream
      ensures Inv() && Now() == AfterReset(old(Now()))
    {
      isClosed := true;
      writeState := Idle;
      if writer.Some? {
        writer.value.sink.Abort();
      } else {
        stream.Abort();
      }
    }

    method Drop()
      requires Inv()
      modifies this, stream
      ensures Inv() && Now() == AfterDrop(old(Now()))
    {
      if writeState.Writing? {
        Reset();
        return;
      }
      if writer.Some? {
        writer.value.sink.Close();
      }
    }
  }

  // ------------------------------------------------------- whole runs

  const NEW := State(true, Idle, false, [], Open)

  /** One call on a stream; a cancelled caller simply makes no further call. */
  datatype Op =
    | Write(buf: seq<byte>, answer: Answer)
    | Flush(answer: Answer)
    | Close(answer: Answer)
    | Finish
    | Reset

  /**
   * A stream, everything its callers were told it accepted, and whether a write failed or a reset hit a write in
   * flight.
   */
  datatype Run = Run(s: State, accepted: seq<byte>, broken: bool)

  function Outcome(s: State, op: Op): (r: (State, Poll<Result<nat, IoError>>))
    requires Valid(s)
    ensures Valid(r.0)
  {
    match op
    case Write(buf, a) => PolledWrite(s, buf, a)
    case Flush(a) => PolledFlush(s, a)
    case Close(a) => PolledClose(s, a)
    case Finish => if AfterFinish(s).Some? then (AfterFinish(s).value, Ready(Ok(0))) else (s, Ready(Err(WritePending)))
    case Reset => (AfterReset(s), Ready(Ok(0)))
  }

  /** The bytes a call reports as accepted: the front of the buffer of this very call. */
  function AcceptedBy(op: Op, r: Poll<Result<nat, IoError>>): seq<byte> {
    if op.Write? && r.Ready? && r.value.Ok? && r.value.value <= |op.buf| then op.buf[..r.value.value] else []
  }

  function Next(r: Run, op: Op): (n: Run)
    requires Valid(r.s)
    ensures Valid(n.s)
  {
    var (s, p) := Outcome(r.s, op);
    var breaks := (op.Reset? && r.s.writeState.Writing?) || p == Ready(Err(WriteFailed));
    Run(s, r.accepted + AcceptedBy(op, p), r.broken || breaks)
  }

  function After(r: Run, ops: seq<Op>): (n: Run)
    requires Valid(r.s)
    ensures Valid(n.s)
    decreases |ops|
  {
    if ops == [] then r else After(Next(r, ops[0]), ops[1..])
  }

  const START := Run(NEW, [], false)

  function Rest(w: WriteState): seq<byte>
    requires w.Writing? ==> w.taken <= |w.chunk|
  {
    if w.Idle? then [] else w.chunk[w.taken..]
  }

  /** What every reachable stream satisfies. */
  predicate Invariant(r: Run) {
    var s := r.s;
    && Valid(s)
    && (s.writeState.Writing? ==>
          !s.writer && !s.isClosed && s.end == Open && 1 <= |s.writeState.chunk| <= MAX_CHUNK)
    && (s.writeState.Idle? && !s.writer ==> s.isClosed)
    && (s.end != Open <==> s.isClosed)
    && (r.broken ==> s.isClosed && s.writeState.Idle? && s.sink <= r.accepted && s.end in {Aborted, Errored})
    && (!r.broken ==> s.sink + Rest(s.writeState) == r.accepted)
  }

  lemma InvariantStep(r: Run, op: Op)
    requires Invariant(r)
    ensures Invariant(Next(r, op))
    ensures r.s.sink <= Next(r, op).s.sink && r.accepted <= Next(r, op).accepted
    ensures r.s.isClosed ==> Next(r, op).s.isClosed
    ensures r.broken ==> Next(r, op).broken && Next(r, op).s.sink == r.s.sink && Next(r, op).accepted == r.accepted
  {
    match op {
      case Write(buf, a) =>
        InflightKeeps(r, a);
        WriteKeeps(r, buf, a);
      case Flush(a) => InflightKeeps(r, a);
      case Close(a) => InflightKeeps(r, a);
      case Finish =>
      case Reset =>
    }
    assert r.accepted + [] == r.accepted;
  }

  /** A poll of the write in flight moves bytes from the chunk to the sink and loses none. */
  lemma InflightKeeps(r: Run, a: Answer)
    requires Invariant(r)
    ensures var (t, p) := PolledInflight(r.s, a);
            && r.s.sink <= t.sink
            && (p != Ready(Err(WriteFailed)) && !r.broken ==>
                  t.sink + Rest(t.writeState) == r.accepted && t.end == r.s.end)
            && t.sink <= r.accepted
            && (p == Ready(Err(WriteFailed)) ==> t.end == Errored && r.s.writeState.Writing?)
            && (p.Ready? ==> t.writeState.Idle? && (t.writer || t.isClosed))
            && t.isClosed == r.s.isClosed
            && (r.s.writeState.Idle? ==> t == r.s)
  {
    if r.s.writeState.Writing? {
      var chunk, taken := r.s.writeState.chunk, r.s.writeState.taken;
      var reach := Reach(r.s.writeState, a);
      assert chunk[taken..] == chunk[taken..reach] + chunk[reach..];
      assert r.s.sink + chunk[taken..] == (r.s.sink + chunk[taken..reach]) + chunk[reach..];
    }
  }

  lemma WriteKeeps(r: Run, buf: seq<byte>, a: Answer)
    requires Invariant(r)
    ensures Invariant(Next(r, Write(buf, a)))
    ensures r.s.sink <= Next(r, Write(buf, a)).s.sink
  {
    InflightKeeps(r, a);
    var (t, p) := PolledWrite(r.s, buf, a);
    if buf != [] && p.Ready? && p.value.Ok? {
      assert buf[..p.value.value][0..] == buf[..p.value.value];
    }
    assert r.accepted + [] == r.accepted;
  }

  lemma {:induction false} InvariantAlways(r: Run, ops: seq<Op>)
    requires Invariant(r)
    ensures Invariant(After(r, ops))
    ensures r.s.sink <= After(r, ops).s.sink && r.accepted <= After(r, ops).accepted
    ensures r.s.isClosed ==> After(r, ops).s.isClosed
    decreases |ops|
  {
    assert Valid(r.s);
    hide Invariant, Next;
    if ops != [] {
      InvariantStep(r, ops[0]);
      InvariantAlways(Next(r, ops[0]), ops[1..]);
    }
  }

  /**
   * Over every run: what the sink holds, followed by the rest of the chunk in flight, is exactly what the
   * callers were told was accepted, in order; after a failed write or a reset of one it is a prefix of that.
   */
  lemma ExactlyOnceInOrder(ops: seq<Op>)
    ensures var r := After(START, ops);
            && (!r.broken ==> r.s.sink + Rest(r.s.writeState) == r.accepted)
            && (r.broken ==> r.s.sink <= r.accepted && r.s.writeState.Idle? && r.s.isClosed)
  {
    InvariantAlways(START, ops);
  }

  /** The "writer is unavailable" branches of polling and the unreachable branch are never taken. */
  lemma NeverUnavailable(ops: seq<Op>, op: Op)
    requires op.Write? || op.Flush? || op.Close?
    ensures var p := Outcome(After(START, ops).s, op).1;
            p != Ready(Err(Unavailable)) && p != Ready(Err(Unreachable))
  {
    InvariantAlways(START, ops);
    InflightKeeps(After(START, ops), op.answer);
  }

  /** An accepted write takes the front of its own buffer, as much as fits one chunk, and never nothing. */
  lemma AcceptedIsOwnPrefix(ops: seq<Op>, buf: seq<byte>, a: Answer)
    ensures var r := After(START, ops);
            var p := Outcome(r.s, Write(buf, a)).1;
            p.Ready? && p.value.Ok? ==>
              && p.value.value == Min(|buf|, MAX_CHUNK)
              && Next(r, Write(buf, a)).accepted == r.accepted + buf[..Min(|buf|, MAX_CHUNK)]
  {
    InvariantAlways(START, ops);
    InflightKeeps(After(START, ops), a);
  }

  // ------------------------------------------------------- what success means

  /** A stream that the browser was told to finish, by whichever call, holds everything that was accepted. */
  lemma FinishedMeansDelivered(ops: seq<Op>)
    ensures var r := After(START, ops);
            && (r.s.end == Finished ==> r.s.sink == r.accepted)
            && (r.s.writeState.Writing? ==> Outcome(r.s, Finish) == (r.s, Ready(Err(WritePending))))
  {
    InvariantAlways(START, ops);
  }

  /**
   * A dropped stream never stays open: with a write in flight it is aborted, and otherwise it is finished unless it
   * had already ended. It ends finished only if everything accepted was delivered.
   */
  lemma DropNeverTruncatesSilently(ops: seq<Op>)
    ensures var r := After(START, ops);
            var d := AfterDrop(r.s);
            && (d.end == Finished ==> d.sink == r.accepted)
            && d.end == if r.s.writeState.Writing? then Aborted else if r.s.end == Open then Finished else r.s.end
  {
    InvariantAlways(START, ops);
  }

  /** The calls whose success a caller may take for delivery. */
  predicate Settles(r: Run, op: Op)
    requires Valid(r.s)
  {
    (op.Flush? || op.Close? || op.Finish?) && Outcome(r.s, op).1 == Ready(Ok(0))
  }

  lemma SettledIsIdle(r: Run, op: Op)
    requires Invariant(r) && Settles(r, op)
    ensures Next(r, op).s.writeState.Idle?
    ensures !Next(r, op).broken ==> Next(r, op).s.sink == Next(r, op).accepted
  {
    InvariantStep(r, op);
    if !op.Finish? {
      InflightKeeps(r, op.answer);
    }
  }

  /** What the callers see of a run: the result of each call. */
  function Results(r: Run, ops: seq<Op>): seq<Poll<Result<nat, IoError>>>
    requires Valid(r.s)
    decreases |ops|
  {
    if ops == [] then [] else [Outcome(r.s, ops[0]).1] + Results(Next(r, ops[0]), ops[1..])
  }

  /** The same call, whatever the browser answers. */
  predicate SameCall(a: Op, b: Op) {
    match a
    case Write(buf, _) => b.Write? && b.buf == buf
    case Flush(_) => b.Flush?
    case Close(_) => b.Close?
    case Finish => b.Finish?
    case Reset => b.Reset?
  }

  predicate SameCalls(a: seq<Op>, b: seq<Op>) {
    |a| == |b| && forall i :: 0 <= i < |a| ==> SameCall(a[i], b[i])
  }

  /** Two runs that no caller can tell apart. */
  predicate SameView(a: seq<Op>, b: seq<Op>) {
    SameCalls(a, b) && Results(START, a) == Results(START, b)
  }

  /** Equal but for how much the sink has taken. */
  predicate Similar(q: Run, r: Run) {
    && q.s.writer == r.s.writer && q.s.isClosed == r.s.isClosed && q.s.end == r.s.end
    && q.accepted == r.accepted && q.broken == r.broken
    && (q.s.writeState.Idle? <==> r.s.writeState.Idle?)
    && (q.s.writeState.Writing? ==> q.s.writeState.chunk == r.s.writeState.chunk)
  }

  lemma SimilarStep(q: Run, r: Run, a: Op, b: Op)
    requires Invariant(q) && Invariant(r) && Similar(q, r) && SameCall(a, b)
    requires Outcome(q.s, a).1 == Outcome(r.s, b).1
    ensures Similar(Next(q, a), Next(r, b))
  {
    if a.Write? || a.Flush? || a.Close? {
      InflightSimilar(q, r, a.answer, b.answer);
      hide PolledInflight, Invariant;
    }
  }

  /** What a poll of the write in flight reports determines the state up to what the sink has taken. */
  lemma InflightSimilar(q: Run, r: Run, a: Answer, b: Answer)
    requires Invariant(q) && Invariant(r) && Similar(q, r)
    ensures var ((t, p), (u, o)) := (PolledInflight(q.s, a), PolledInflight(r.s, b));
            && (p == Pending || p == Ready(Err(WriteFailed)) || (p.Ready? && p.value.Ok?))
            && (o == Pending || o == Ready(Err(WriteFailed)) || (o.Ready? && o.value.Ok?))
            && (p.Ready? && p.value.Ok? && o.Ready? && o.value.Ok? ==> p == o)
            && (p == o ==> Similar(q.(s := t), r.(s := u)))
            && (p.Ready? ==> t.writeState.Idle?) && (o.Ready? ==> u.writeState.Idle?)
  {
  }

  /** What callers see determines a run up to what the sink has taken. */
  lemma {:induction false} SameViewSimilar(q: Run, r: Run, a: seq<Op>, b: seq<Op>)
    requires Invariant(q) && Invariant(r) && Similar(q, r)
    requires SameCalls(a, b) && Results(q, a) == Results(r, b)
    ensures Similar(After(q, a), After(r, b))
    decreases |a|
  {
    assert Valid(q.s) && Valid(r.s);
    hide Invariant, Similar, Outcome, SameCall;
    if a != [] {
      assert Results(q, a)[0] == Results(r, b)[0] && Results(q, a)[1..] == Results(r, b)[1..];
      assert SameCall(a[0], b[0]);
      assert forall i :: 0 <= i < |a| - 1 ==> a[1..][i] == a[i + 1] && b[1..][i] == b[i + 1];
      SimilarStep(q, r, a[0], b[0]);
      InvariantStep(q, a[0]);
      InvariantStep(r, b[0]);
      hide Next;
      SameViewSimilar(Next(q, a[0]), Next(r, b[0]), a[1..], b[1..]);
    }
  }

  /** The same answer from a sink that takes nothing until the write is done. */
  function Starve(a: Answer): Answer {
    match a
    case StillPending(_) => StillPending(0)
    case Done => Done
    case Failed(_) => Failed(0)
  }

  function StarveOp(op: Op): Op {
    match op
    case Write(buf, a) => Write(buf, Starve(a))
    case Flush(a) => Flush(Starve(a))
    case Close(a) => Close(Starve(a))
    case Finish => Finish
    case Reset => Reset
  }

  function StarveAll(ops: seq<Op>): seq<Op> {
    seq(|ops|, i requires 0 <= i < |ops| => StarveOp(ops[i]))
  }

  /** The sink has taken nothing of a write in flight, and once broken it lacks something. */
  predicate Starved(r: Run) {
    (r.s.writeState.Writing? ==> r.s.writeState.taken == 0) && (r.broken ==> |r.s.sink| < |r.accepted|)
  }

  lemma StarvedStep(q: Run, r: Run, op: Op)
    requires Invariant(q) && Invariant(r) && Similar(q, r) && Starved(r)
    ensures Outcome(q.s, op).1 == Outcome(r.s, StarveOp(op)).1
    ensures Starved(Next(r, StarveOp(op)))
  {
    InvariantStep(r, StarveOp(op));
    if op.Write? || op.Flush? || op.Close? {
      InflightStarved(q, r, op.answer);
      hide PolledInflight, Invariant;
    }
  }

  lemma InflightStarved(q: Run, r: Run, a: Answer)
    requires Invariant(q) && Invariant(r) && Similar(q, r) && Starved(r)
    ensures var ((t, p), (u, o)) := (PolledInflight(q.s, a), PolledInflight(r.s, Starve(a)));
            && p == o && t.writer == u.writer && t.isClosed == u.isClosed == r.s.isClosed
            && (t.writeState.Idle? <==> u.writeState.Idle?)
            && (u.writeState.Writing? ==> u.writeState.taken == 0)
            && (o == Ready(Err(WriteFailed)) ==> |u.sink| < |r.accepted|)
            && (r.s.writeState.Idle? ==> u == r.s)
  {
  }

  /** No caller can tell a starving sink from the one it replaces; and if the run breaks, it lacks accepted bytes. */
  lemma {:induction false} StarvedRun(q: Run, r: Run, ops: seq<Op>)
    requires Invariant(q) && Invariant(r) && Similar(q, r) && Starved(r)
    ensures Results(q, ops) == Results(r, StarveAll(ops))
    ensures Starved(After(r, StarveAll(ops))) && Similar(After(q, ops), After(r, StarveAll(ops)))
    decreases |ops|
  {
    assert Valid(q.s) && Valid(r.s);
    hide Invariant, Similar, Outcome, Starved;
    if ops != [] {
      var b := StarveOp(ops[0]);
      assert StarveAll(ops)[0] == b && StarveAll(ops)[1..] == StarveAll(ops[1..]);
      StarvedStep(q, r, ops[0]);
      SimilarStep(q, r, ops[0], b);
      InvariantStep(q, ops[0]);
      InvariantStep(r, b);
      hide Next;
      StarvedRun(Next(q, ops[0]), Next(r, b), ops[1..]);
    }
  }

  lemma {:induction false} AfterLast(r: Run, ops: seq<Op>, op: Op)
    requires Valid(r.s)
    ensures After(r, ops + [op]) == Next(After(r, ops), op)
    decreases |ops|
  {
    hide Next;
    if ops == [] {
      assert (ops + [op])[1..] == [];
    } else {
      assert (ops + [op])[1..] == ops[1..] + [op];
      AfterLast(Next(r, ops[0]), ops[1..], op);
    }
  }

  /**
   * Exactly when a successful flush, close or finish means that everything accepted was delivered: if and only if
   * no write failed and no reset hit a write in flight. In every other run the callers see just what they see in
   * a run that lost accepted bytes.
   */
  lemma DeliveredExactly(ops: seq<Op>, op: Op)
    requires Settles(After(START, ops), op)
    ensures !After(START, ops + [op]).broken <==>
              forall other :: SameView(ops + [op], other) ==> After(START, other).s.sink == After(START, other).accepted
  {
    var all := ops + [op];
    InvariantAlways(START, ops);
    SettledIsIdle(After(START, ops), op);
    AfterLast(START, ops, op);
    if !After(START, all).broken {
      forall other | SameView(all, other) ensures After(START, other).s.sink == After(START, other).accepted {
        SameViewSimilar(START, START, all, other);
        InvariantAlways(START, other);
      }
    } else {
      StarvedRun(START, START, all);
      assert SameView(all, StarveAll(all));
    }
  }

  /** One such run: the write of a byte fails, and then flush and finish succeed although the byte was lost. */
  lemma SuccessAfterFailure(lost: byte, a: Answer)
    ensures var r := After(START, [Write([lost], Done), Flush(Failed(0))]);
            && Outcome(r.s, Flush(a)).1 == Ready(Ok(0))
            && Outcome(r.s, Finish).1 == Ready(Ok(0))
            && r.accepted == [lost] && r.s.sink == []
            && Outcome(r.s, Finish).0.end == AfterDrop(r.s).end == Errored
  {
    var one := Next(START, Write([lost], Done));
    assert [lost][..1] == [lost] && [] + [lost] == [lost];
    assert one == Run(State(false, Writing([lost], 0), false, [], Open), [lost], false);
    var ops := [Write([lost], Done), Flush(Failed(0))];
    assert ops[1..] == [Flush(Failed(0))] && ops[1..][1..] == [];
    assert After(START, ops) == After(Next(one, Flush(Failed(0))), []);
  }

  // ------------------------------------------------------- how a stream ends

  /** Some close or finish succeeded. */
  predicate Closed(ops: seq<Op>, results: seq<Poll<Result<nat, IoError>>>) {
    exists i :: 0 <= i < |ops| && i < |results| && ClosesAt(ops[i], results[i])
  }

  predicate ClosesAt(op: Op, result: Poll<Result<nat, IoError>>) {
    (op.Close? || op.Finish?) && result == Ready(Ok(0))
  }

  /** The end that a run leaves, when it was `was` before. */
  predicate EndFollows(was: End, ops: seq<Op>, results: seq<Poll<Result<nat, IoError>>>, end: End) {
    var failed, reset := Ready(Err(WriteFailed)) in results, Reset in ops;
    && (end == Errored <==> was == Errored || failed)
    && (end == Aborted <==> was != Errored && !failed && (was == Aborted || reset))
    && (end == Finished <==>
          was != Errored && !failed && was != Aborted && !reset && (was == Finished || Closed(ops, results)))
  }

  lemma EndStep(r: Run, op: Op)
    requires Invariant(r)
    ensures var (s, p) := Outcome(r.s, op);
            && (s.end == Errored <==> r.s.end == Errored || p == Ready(Err(WriteFailed)))
            && (s.end == Aborted <==> r.s.end == Aborted || (r.s.end != Errored && op.Reset?))
            && (s.end == Open <==> r.s.end == Open && p != Ready(Err(WriteFailed)) && !op.Reset? && !ClosesAt(op, p))
            && (r.s.end != Open ==> p != Ready(Err(WriteFailed)))
  {
  }

  lemma EndFollowsStep(
      a: End, op: Op, p: Poll<Result<nat, IoError>>, b: End, ops: seq<Op>, results: seq<Poll<Result<nat, IoError>>>,
      c: End)
    requires b == Errored <==> a == Errored || p == Ready(Err(WriteFailed))
    requires b == Aborted <==> a == Aborted || (a != Errored && op.Reset?)
    requires b == Open <==> a == Open && p != Ready(Err(WriteFailed)) && !op.Reset? && !ClosesAt(op, p)
    requires a != Open ==> p != Ready(Err(WriteFailed))
    requires EndFollows(b, ops, results, c)
    ensures EndFollows(a, [op] + ops, [p] + results, c)
  {
    var more, all := [op] + ops, [p] + results;
    assert Closed(more, all) <==> ClosesAt(op, p) || Closed(ops, results) by {
      hide ClosesAt;
      assert more[0] == op && all[0] == p;
      if Closed(ops, results) {
        var i :| 0 <= i < |ops| && i < |results| && ClosesAt(ops[i], results[i]);
        assert ClosesAt(more[i + 1], all[i + 1]);
      }
      if Closed(more, all) {
        var i :| 0 <= i < |more| && i < |all| && ClosesAt(more[i], all[i]);
        assert i > 0 ==> more[i] == ops[i - 1] && all[i] == results[i - 1];
      }
    }
    hide Closed;
  }

  lemma {:induction false} RunEnds(r: Run, ops: seq<Op>)
    requires Invariant(r)
    ensures EndFollows(r.s.end, ops, Results(r, ops), After(r, ops).s.end)
    decreases |ops|
  {
    assert Valid(r.s);
    hide Invariant, EndFollows, Outcome;
    if ops == [] {
      NothingFollows(r.s.end);
    } else {
      InvariantStep(r, ops[0]);
      EndStep(r, ops[0]);
      var n := Next(r, ops[0]);
      RunEnds(n, ops[1..]);
      EndFollowsStep(r.s.end, ops[0], Outcome(r.s, ops[0]).1, n.s.end, ops[1..], Results(n, ops[1..]),
                     After(r, ops).s.end);
      assert ops == [ops[0]] + ops[1..];
    }
  }

  lemma NothingFollows(was: End)
    ensures EndFollows(was, [], [], was)
  {
  }

  /**
   * How the browser's stream ended, over every run: errored exactly when a write failed, otherwise aborted exactly
   * when it was reset, otherwise finished exactly when a close or finish succeeded, and otherwise it is open.
   */
  lemma EndExactly(ops: seq<Op>)
    ensures var end := After(START, ops).s.end;
            var failed, reset := Ready(Err(WriteFailed)) in Results(START, ops), Reset in ops;
            && (end == Errored <==> failed)
            && (end == Aborted <==> !failed && reset)
            && (end == Finished <==> !failed && !reset && Closed(ops, Results(START, ops)))
            && (end == Open <==> !failed && !reset && !Closed(ops, Results(START, ops)))
  {
    RunEnds(START, ops);
  }

  /** What each call reports on a reachable stream, by how the stream ended and what the write in flight does. */
  lemma ReportsExactly(ops: seq<Op>, op: Op)
    ensures var s := After(START, ops).s;
            var p := Outcome(s, op).1;
            var pends := s.writeState.Writing? && !op.Finish? && !op.Reset? && op.answer.StillPending?;
            var fails := s.writeState.Writing? && !op.Finish? && !op.Reset? && op.answer.Failed?;
            var refused := op.Write? && op.buf != [] && s.end != Open;
            var asked := !op.Write? || op.buf != [];
            && (p == Pending <==> asked && pends)
            && (p == Ready(Err(WriteFailed)) <==> asked && fails)
            && (p == Ready(Err(BrokenPipe)) <==> refused)
            && (p == Ready(Err(WritePending)) <==> op.Finish? && s.writeState.Writing?)
            && (p == Ready(Ok(if op.Write? then Min(|op.buf|, MAX_CHUNK) else 0)) <==>
                  !(asked && (pends || fails)) && !refused && !(op.Finish? && s.writeState.Writing?))
  {
    InvariantAlways(START, ops);
  }
}
