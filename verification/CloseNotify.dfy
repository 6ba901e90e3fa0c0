/**
 * Waiting for a session to close: one background task stores the error and notifies, any number of waiters
 * check for the error and park. A step system: one event is one atomic step of the background task, of a waiter or of
 * the connection.
 */
module CloseNotify {
  import opened Bytes
  import opened SessionClose

  /** Why a connection is closed: by this side with a session code, or for a reason of its own. */
  datatype Cause = Local(code: u32) | Remote(what: nat)

  datatype SessionError = ClosedByCapsule(code: u32, reason: seq<byte>) | ConnectionClosed(cause: Cause)

  /** Where the background task is. */
  datatype Task =
    | Listening
    | Deciding(result: Closure)
    | Closing(code: u32)
    | Ensuring
    | Storing
    | Notifying
    | Done

  /**
   * Where a call of `closed` is. A notification future remembers how often `notify_waiters` had been called when
   * it was created; it completes once that number has grown.
   */
  datatype Waiter =
    | Starting
    | Created(seen: nat)
    | Parked(seen: nat)
    | Returned(error: SessionError)

  datatype State = State(
    closeError: Option<SessionError>,
    connection: Option<Cause>,
    notified: nat,
    task: Task,
    waiters: seq<Waiter>)

  function CloseReason(s: State): Option<SessionError> {
    if s.closeError.Some? then s.closeError
    else if s.connection.Some? then Some(ConnectionClosed(s.connection.value))
    else None
  }

  /** Closing a closed connection changes nothing. */
  function CloseConnection(s: State, code: u32): State {
    if s.connection.None? then s.(connection := Some(Local(code))) else s
  }

  function TaskStep(s: State): State {
    match s.task
    case Listening => s
    case Deciding(Closed(code, reason)) =>
      s.(closeError := Some(ClosedByCapsule(code, reason)), task := Closing(code))
    case Deciding(Ended) => s.(task := Ensuring)
    case Deciding(Failed(_)) => s.(task := Closing(1))
    case Closing(code) => CloseConnection(s, code).(task := Ensuring)
    case Ensuring => CloseConnection(s, 0).(task := Storing)
    case Storing => s.(closeError := CloseReason(s), task := Notifying)
    case Notifying => s.(notified := s.notified + 1, task := Done)
    case Done => s
  }

  /** One step of a waiter: create the future, check the reason, wait, start over. */
  function WaiterStep(s: State, w: Waiter): Waiter {
    match w
    case Starting => Created(s.notified)
    case Created(seen) => if CloseReason(s).Some? then Returned(CloseReason(s).value) else Parked(seen)
    case Parked(seen) => if s.notified > seen then Starting else w
    case Returned(_) => w
  }

  datatype Event =
    | StreamEnds(result: Closure)
    | ConnectionCloses(cause: Cause)
    | TaskRuns
    | WaiterArrives
    | WaiterRuns(who: nat)

  function Step(s: State, e: Event): State {
    match e
    case StreamEnds(result) => if s.task.Listening? then s.(task := Deciding(result)) else s
    case ConnectionCloses(cause) => if s.connection.None? then s.(connection := Some(cause)) else s
    case TaskRuns => TaskStep(s)
    case WaiterArrives => s.(waiters := s.waiters + [Starting])
    case WaiterRuns(who) =>
      if who < |s.waiters| then s.(waiters := s.waiters[who := WaiterStep(s, s.waiters[who])]) else s
  }

  const INITIAL := State(None, None, 0, Listening, [])

  function After(s: State, events: seq<Event>): State
    decreases |events|
  {
    if events == [] then s else After(Step(s, events[0]), events[1..])
  }

  // ------------------------------------------------------- what every reachable state satisfies

  predicate ErrorMatches(s: State, w: Waiter) {
    match w
    case Starting => true
    case Created(seen) => seen <= s.notified
    case Parked(seen) => seen == 0
    case Returned(error) =>
      s.closeError == Some(error) || (s.connection.Some? && error == ConnectionClosed(s.connection.value))
  }

  predicate Invariant(s: State) {
    && s.notified == (if s.task.Done? then 1 else 0)
    && (s.task.Storing? || s.task.Notifying? || s.task.Done? ==> s.connection.Some?)
    && (s.task.Notifying? || s.task.Done? ==> s.closeError.Some?)
    && (s.task.Listening? || s.task.Deciding? ==> s.closeError.None?)
    && forall w :: w in s.waiters ==> ErrorMatches(s, w)
  }

  lemma InvariantStep(s: State, e: Event)
    requires Invariant(s)
    ensures Invariant(Step(s, e))
    ensures s.closeError.Some? ==> Step(s, e).closeError == s.closeError
    ensures s.connection.Some? ==> Step(s, e).connection == s.connection
    ensures s.task.Done? ==> Step(s, e).task.Done?
  {
    var t := Step(s, e);
    forall w | w in t.waiters ensures ErrorMatches(t, w) {
      if w in s.waiters {
        MatchesLater(s, t, w);
      } else if e.WaiterRuns? {
        assert s.waiters[e.who] in s.waiters;
        assert w == WaiterStep(s, s.waiters[e.who]);
      } else {
        assert w == Starting;
      }
    }
  }

  lemma MatchesLater(s: State, t: State, w: Waiter)
    requires ErrorMatches(s, w)
    requires s.notified <= t.notified
    requires s.closeError.Some? ==> t.closeError == s.closeError
    requires s.connection.Some? ==> t.connection == s.connection
    ensures ErrorMatches(t, w)
  {
  }

  lemma {:induction false} InvariantAlways(s: State, events: seq<Event>)
    requires Invariant(s)
    ensures Invariant(After(s, events))
    ensures s.closeError.Some? ==> After(s, events).closeError == s.closeError
    ensures s.connection.Some? ==> After(s, events).connection == s.connection
    ensures s.task.Done? ==> After(s, events).task.Done?
    decreases |events|
  {
    hide Invariant, Step;
    if events != [] {
      InvariantStep(s, events[0]);
      InvariantAlways(Step(s, events[0]), events[1..]);
    }
  }

  lemma {:induction false} AfterConcat(s: State, a: seq<Event>, b: seq<Event>)
    ensures After(s, a + b) == After(After(s, a), b)
    decreases |a|
  {
    hide Step;
    if a == [] {
      assert a + b == b;
    } else {
      assert (a + b)[1..] == a[1..] + b;
      AfterConcat(Step(s, a[0]), a[1..], b);
    }
  }

  /** Once an error is stored, nothing that happens later replaces it. */
  lemma ErrorIsNeverOverwritten(before: seq<Event>, later: seq<Event>)
    requires After(INITIAL, before).closeError.Some?
    ensures After(INITIAL, before + later).closeError == After(INITIAL, before).closeError
  {
    hide Step;
    InvariantAlways(INITIAL, before);
    InvariantAlways(After(INITIAL, before), later);
    AfterConcat(INITIAL, before, later);
  }

  // ------------------------------------------------------- progress

  /** How many of its own steps a waiter still needs once the background task is done. */
  function StepsLeft(w: Waiter): nat {
    match w
    case Returned(_) => 0
    case Created(_) => 1
    case Starting => 2
    case Parked(_) => 3
  }

  function Runs(events: seq<Event>, who: nat): nat {
    if events == [] then 0 else (if events[0] == WaiterRuns(who) then 1 else 0) + Runs(events[1..], who)
  }

  lemma WaiterAdvances(s: State, e: Event, who: nat)
    requires Invariant(s) && s.task.Done? && who < |s.waiters|
    ensures who < |Step(s, e).waiters|
    ensures var w, v := s.waiters[who], Step(s, e).waiters[who];
            && (w.Returned? ==> v == w)
            && (e != WaiterRuns(who) ==> v == w)
            && (e == WaiterRuns(who) && !w.Returned? ==> StepsLeft(v) < StepsLeft(w))
            && (v.Returned? && !w.Returned? ==> s.closeError == Some(v.error))
  {
    assert s.waiters[who] in s.waiters;
  }

  /** A waiter that is run often enough after the background task is done returns; the others do not matter. */
  lemma {:induction false} WaiterReturns(s: State, events: seq<Event>, who: nat)
    requires Invariant(s) && s.task.Done? && who < |s.waiters|
    requires Runs(events, who) >= StepsLeft(s.waiters[who])
    ensures who < |After(s, events).waiters|
    ensures After(s, events).waiters[who].Returned?
    ensures !s.waiters[who].Returned? ==> s.closeError == Some(After(s, events).waiters[who].error)
    ensures s.waiters[who].Returned? ==> After(s, events).waiters[who] == s.waiters[who]
    decreases |events|
  {
    hide Step, Invariant;
    if events != [] {
      WaiterAdvances(s, events[0], who);
      InvariantStep(s, events[0]);
      DoneHasError(s);
      WaiterReturns(Step(s, events[0]), events[1..], who);
    }
  }

  lemma DoneHasError(s: State)
    requires Invariant(s) && s.task.Done?
    ensures s.closeError.Some?
  {
  }

  /**
   * No lost wakeup: in any run, whoever was waiting when the background task finished, parked or not, returns after at
   * most three steps of its own, however the other waiters are interleaved; and the error it returns then is
   * the stored one.
   */
  lemma NoLostWakeup(before: seq<Event>, later: seq<Event>, who: nat)
    requires After(INITIAL, before).task.Done?
    requires who < |After(INITIAL, before).waiters|
    requires Runs(later, who) >= 3
    ensures var s, t := After(INITIAL, before), After(INITIAL, before + later);
            && who < |t.waiters| && t.waiters[who].Returned?
            && s.closeError.Some?
            && (t.waiters[who] == s.waiters[who] || t.waiters[who] == Returned(s.closeError.value))
  {
    hide Step;
    InvariantAlways(INITIAL, before);
    AfterConcat(INITIAL, before, later);
    WaiterReturns(After(INITIAL, before), later, who);
  }

  function TaskStepsLeft(t: Task): nat {
    match t
    case Listening => 6
    case Deciding(_) => 5
    case Closing(_) => 4
    case Ensuring => 3
    case Storing => 2
    case Notifying => 1
    case Done => 0
  }

  function TaskSteps(events: seq<Event>): nat {
    if events == [] then 0 else (if events[0].TaskRuns? then 1 else 0) + TaskSteps(events[1..])
  }

  /** Once the CONNECT stream has ended, the background task finishes after at most five steps of its own. */
  lemma {:induction false} TaskFinishes(s: State, events: seq<Event>)
    requires !s.task.Listening?
    requires TaskSteps(events) >= TaskStepsLeft(s.task)
    ensures After(s, events).task.Done?
    decreases |events|
  {
    if events != [] {
      assert !Step(s, events[0]).task.Listening?;
      TaskFinishes(Step(s, events[0]), events[1..]);
    }
  }

  /**
   * What a waiter returns is the stored error or the connection's own reason; a close capsule wins for late callers.
   */
  lemma ReturnedErrorIsReal(events: seq<Event>, who: nat)
    requires who < |After(INITIAL, events).waiters|
    ensures var s := After(INITIAL, events);
            s.waiters[who].Returned? ==>
              || s.closeError == Some(s.waiters[who].error)
              || (s.connection.Some? && s.waiters[who].error == ConnectionClosed(s.connection.value))
  {
    hide Step;
    InvariantAlways(INITIAL, events);
    assert After(INITIAL, events).waiters[who] in After(INITIAL, events).waiters;
  }

  // ------------------------------------------------------- which error it is

  /** What the stored error will be, given how the CONNECT stream ended. */
  function Expected(s: State, result: Closure): SessionError
    requires result.Closed? || s.connection.Some?
  {
    if result.Closed? then ClosedByCapsule(result.code, result.reason) else ConnectionClosed(s.connection.value)
  }

  /** The background task is on its way from this result to the end. */
  predicate OnTheWay(s: State, result: Closure) {
    match s.task
    case Listening => false
    case Deciding(r) => r == result && s.closeError.None?
    case Closing(_) => s.closeError == if result.Closed? then Some(Expected(s, result)) else None
    case Ensuring => s.closeError == if result.Closed? then Some(Expected(s, result)) else None
    case Storing => s.connection.Some? && s.closeError == if result.Closed? then Some(Expected(s, result)) else None
    case Notifying => s.connection.Some? && s.closeError == Some(Expected(s, result))
    case Done => s.connection.Some? && s.closeError == Some(Expected(s, result))
  }

  lemma {:induction false} StaysOnTheWay(s: State, result: Closure, events: seq<Event>)
    requires OnTheWay(s, result)
    ensures OnTheWay(After(s, events), result)
    decreases |events|
  {
    if events != [] {
      assert OnTheWay(Step(s, events[0]), result);
      hide Step, OnTheWay;
      StaysOnTheWay(Step(s, events[0]), result, events[1..]);
    }
  }

  /**
   * In every run in which the CONNECT stream ends with some result while the background task is listening: when
   * that task is done, the stored error is that of the close capsule if there was one, and else the connection's
   * reason.
   */
  lemma StoredErrorFollowsResult(before: seq<Event>, result: Closure, later: seq<Event>)
    requires After(INITIAL, before).task.Listening?
    ensures var s := After(INITIAL, before + [StreamEnds(result)] + later);
            s.task.Done? ==> s.connection.Some? && s.closeError == Some(Expected(s, result))
  {
    InvariantAlways(INITIAL, before);
    var s := After(INITIAL, before);
    assert OnTheWay(Step(s, StreamEnds(result)), result);
    assert [StreamEnds(result)][1..] == [];
    assert After(s, [StreamEnds(result)]) == Step(s, StreamEnds(result));
    hide Step;
    AfterConcat(INITIAL, before, [StreamEnds(result)]);
    AfterConcat(INITIAL, before + [StreamEnds(result)], later);
    StaysOnTheWay(After(s, [StreamEnds(result)]), result, later);
  }

  // ------------------------------------------------------- the code that the connection is closed with

  /** The capsule's code; 1 after a capsule error; 0 when the CONNECT stream just ended. */
  function ClosingCode(result: Closure): u32 {
    match result
    case Closed(code, _) => code
    case Failed(_) => 1
    case Ended => 0
  }

  /** The background task is on its way from this result, and nobody else has closed the connection. */
  predicate Undisturbed(s: State, result: Closure) {
    var ours := Some(Local(ClosingCode(result)));
    match s.task
    case Listening => false
    case Deciding(r) => r == result && s.connection.None?
    case Closing(code) => !result.Ended? && code == ClosingCode(result) && s.connection.None?
    case Ensuring => s.connection == if result.Ended? then None else ours
    case Storing => s.connection == ours
    case Notifying => s.connection == ours
    case Done => s.connection == ours
  }

  lemma {:induction false} StaysUndisturbed(s: State, result: Closure, events: seq<Event>)
    requires Undisturbed(s, result)
    requires forall i :: 0 <= i < |events| ==> !events[i].ConnectionCloses?
    ensures Undisturbed(After(s, events), result)
    decreases |events|
  {
    if events != [] {
      assert Undisturbed(Step(s, events[0]), result);
      hide Step, Undisturbed;
      StaysUndisturbed(Step(s, events[0]), result, events[1..]);
    }
  }

  /**
   * When the CONNECT stream ends while the connection is open, and nothing else closes it, the background task
   * closes it with the code that the result asks for.
   */
  lemma ClosedWithCode(before: seq<Event>, result: Closure, later: seq<Event>)
    requires After(INITIAL, before).task.Listening? && After(INITIAL, before).connection.None?
    requires forall i :: 0 <= i < |later| ==> !later[i].ConnectionCloses?
    ensures var s := After(INITIAL, before + [StreamEnds(result)] + later);
            s.task.Done? ==> s.connection == Some(Local(ClosingCode(result)))
  {
    var s := After(INITIAL, before);
    assert Undisturbed(Step(s, StreamEnds(result)), result);
    assert [StreamEnds(result)][1..] == [];
    assert After(s, [StreamEnds(result)]) == Step(s, StreamEnds(result));
    hide Step;
    AfterConcat(INITIAL, before, [StreamEnds(result)]);
    AfterConcat(INITIAL, before + [StreamEnds(result)], later);
    StaysUndisturbed(After(s, [StreamEnds(result)]), result, later);
  }

  /** A connection that was closed for a reason of its own keeps that reason, whatever the stream's result. */
  lemma ClosedConnectionKeepsCause(before: seq<Event>, later: seq<Event>)
    requires After(INITIAL, before).connection.Some?
    ensures After(INITIAL, before + later).connection == After(INITIAL, before).connection
  {
    hide Step;
    InvariantAlways(INITIAL, before);
    InvariantAlways(After(INITIAL, before), later);
    AfterConcat(INITIAL, before, later);
  }
}
