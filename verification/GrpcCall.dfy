/** A GrpcCall object: one remote call, its recorded outcome, and deletion some time after completion. */
module GrpcCall {
  import opened Common

  /** Instants in nanoseconds. The API stores times in whole seconds. */
  type Time = int

  const SECOND: Time := 1_000_000_000

  datatype Result = NoResult | Success | Failed

  datatype Status = Status(result: Result, message: string, startTime: Option<Time>, completionTime: Option<Time>)

  datatype Call = Call(ttlSeconds: Option<int>, status: Status)

  const EMPTY := Status(NoResult, "", None, None)

  /** The stored object, if any, how often the remote call was issued, and how many status writes failed. */
  datatype State = State(call: Option<Call>, calls: nat, failedWrites: nat)

  /** How the attempt ends: before the remote call, or with its answer. */
  datatype Attempt = EarlyError(message: string) | CallError(message: string) | CallDone(message: string)

  /** What one reconcile meets. */
  datatype Draw = Draw(readable: bool, now: Time, end: Time, attempt: Attempt, writable: bool, deletable: bool)

  datatype Comparison = Same | Different | NilDereference

  datatype Outcome = Ok | Error | Panic

  /******* One reconcile *******/

  function CompareStatus(updated: Status, stored: Status): Comparison {
    if stored.result != updated.result then Different
    else if stored.message != updated.message then Different
    else if updated.startTime.None? || stored.startTime.None? then NilDereference
    else if updated.startTime != stored.startTime then Different
    else if updated.completionTime.None? || stored.completionTime.None? then NilDereference
    else if updated.completionTime != stored.completionTime then Different
    else Same
  }

  predicate Expired(call: Call, now: Time) {
    && call.status.completionTime.Some? && call.ttlSeconds.Some?
    && now - call.status.completionTime.value >= call.ttlSeconds.value * SECOND
  }

  function Stored(t: Option<Time>): Option<Time> {
    if t.None? then None else Some(t.value - t.value % SECOND)
  }

  function Attempted(status: Status, d: Draw): Status {
    Status(if d.attempt.CallDone? then Success else Failed,
           d.attempt.message,
           Some(d.now),
           if status.completionTime.None? then Some(d.end) else status.completionTime)
  }

  function UpdateIfNeeded(s: State, updated: Status, d: Draw): (State, Outcome)
    requires s.call.Some?
  {
    match CompareStatus(updated, s.call.value.status)
    case NilDereference => (s, Panic)
    case Same => (s, Ok)
    case Different =>
      if !d.writable then (s.(failedWrites := s.failedWrites + 1), Ok)
      else
        var written := updated.(startTime := Stored(updated.startTime),
            completionTime := Stored(updated.completionTime));
        (s.(call := Some(s.call.value.(status := written))), Ok)
  }

  function Reconcile(s: State, d: Draw): (State, Outcome) {
    if s.call.None? then (s, if d.readable then Ok else Error)
    else if !d.readable then (s, Error)
    else if Expired(s.call.value, d.now) then
      if d.deletable then (s.(call := None), Ok) else (s, Error)
    else if s.call.value.status.startTime.Some? then (s, Ok)
    else
      var called := if d.attempt.EarlyError? then s else s.(calls := s.calls + 1);
      UpdateIfNeeded(called, Attempted(s.call.value.status, d), d)
  }

  class Reconciler {
    var call: Option<Call>
    var calls: nat
    var failedWrites: nat

    ghost function View(): State
      reads this
    {
      State(call, calls, failedWrites)
    }

    constructor (call: Call)
      ensures View() == State(Some(call), 0, 0)
    {
      this.call, calls, failedWrites := Some(call), 0, 0;
    }

    method UpdateInstanceIfNeed(updated: Status, d: Draw) returns (r: Outcome)
      requires call.Some?
      modifies this`call, this`failedWrites
      ensures (View(), r) == UpdateIfNeeded(old(View()), updated, d)
    {
      r := Ok;
      var c := CompareStatus(updated, call.value.status);
      if c.NilDereference? { return Panic; }
      if c.Different? {
        if d.writable {
          var start, completion := Stored(updated.startTime), Stored(updated.completionTime);
          call := Some(call.value.(status := updated.(startTime := start, completionTime := completion)));
        } else {
          failedWrites := failedWrites + 1;
        }
      }
    }

    method ReconcileCall(d: Draw) returns (r: Outcome)
      modifies this
      ensures (View(), r) == Reconcile(old(View()), d)
    {
      if call.None? { return if d.readable then Ok else Error; }
      if !d.readable { return Error; }
      var status := call.value.status;
      if Expired(call.value, d.now) {
        if !d.deletable { return Error; }
        call := None;
        return Ok;
      }
      if status.startTime.Some? { return Ok; }
      status := status.(startTime := Some(d.now));
      if !d.attempt.EarlyError? { calls := calls + 1; }
      if d.attempt.CallDone? {
        status := status.(message := d.attempt.message, result := Success);
      } else {
        status := status.(result := Failed, message := d.attempt.message);
      }
      if status.completionTime.None? { status := status.(completionTime := Some(d.end)); }
      r := UpdateInstanceIfNeed(status, d);
    }
  }

  /**
   For any stored status, a reconcile panics exactly when the attempt ends as already recorded, but without a start
   time.
   */
  lemma PanicsExactly(s: State, d: Draw)
    ensures Reconcile(s, d).1.Panic? <==>
              && s.call.Some? && d.readable && !Expired(s.call.value, d.now)
              && s.call.value.status.startTime.None?
              && s.call.value.status.result == Attempted(s.call.value.status, d).result
              && s.call.value.status.message == d.attempt.message
  {
  }

  /******* Runs *******/

  datatype Step = Try(d: Draw) | EditTtl(ttlSeconds: Option<int>) | UserDeletes

  function Do(s: State, step: Step): State {
    match step
    case Try(d) => Reconcile(s, d).0
    case EditTtl(ttl) => if s.call.None? then s else s.(call := Some(s.call.value.(ttlSeconds := ttl)))
    case UserDeletes => s.(call := None)
  }

  function Run(s: State, steps: seq<Step>): State
    decreases |steps|
  {
    if steps == [] then s else Run(Do(s, steps[0]), steps[1..])
  }

  /** Nothing is recorded, or the outcome with both times. */
  predicate Consistent(status: Status) {
    status == EMPTY || (status.startTime.Some? && status.completionTime.Some? && !status.result.NoResult?)
  }

  /** Every issued call is accounted for by the recorded outcome or by a failed write of it. */
  predicate Inv(s: State) {
    && (s.call.Some? ==> Consistent(s.call.value.status))
    && s.calls <= s.failedWrites + (if s.call.Some? && s.call.value.status == EMPTY then 0 else 1)
  }

  predicate Initial(s: State) {
    s.call.Some? && s.call.value.status == EMPTY && s.calls == 0 && s.failedWrites == 0
  }

  lemma StepKeepsInv(s: State, step: Step)
    requires Inv(s)
    ensures Inv(Do(s, step))
    ensures step.Try? ==> !Reconcile(s, step.d).1.Panic?
  {
  }

  lemma {:induction false} RunKeepsInv(s: State, steps: seq<Step>)
    requires Inv(s)
    ensures Inv(Run(s, steps))
    decreases |steps|
  {
    if steps != [] {
      StepKeepsInv(s, steps[0]);
      RunKeepsInv(Do(s, steps[0]), steps[1..]);
    }
  }

  /**
   At every point of every run, a reconcile issues the call exactly if it can read the object, finds nothing recorded
   and gets as far as the call; it then records how the attempt ended, if it can, and otherwise leaves all as it was. An
   object with a recorded outcome is left alone until it expires.
   */
  lemma ReconcileExactly(s: State, steps: seq<Step>, d: Draw)
    requires Initial(s)
    ensures var before, after := Run(s, steps), Reconcile(Run(s, steps), d).0;
            var tries := before.call.Some? && d.readable && before.call.value.status == EMPTY;
            && after.calls == before.calls + (if tries && !d.attempt.EarlyError? then 1 else 0)
            && (tries && d.writable ==>
                  && after.call.Some? && after.call.value.ttlSeconds == before.call.value.ttlSeconds
                  && after.call.value.status.result == (if d.attempt.CallDone? then Success else Failed)
                  && after.call.value.status.message == d.attempt.message)
            && (!tries || !d.writable ==> after.call == before.call || after.call.None?)
            && after.failedWrites == before.failedWrites + (if tries && !d.writable then 1 else 0)
            && (Reconcile(before, d).1.Error? <==>
                  !d.readable || (before.call.Some? && Expired(before.call.value, d.now) && !d.deletable))
  {
    RunKeepsInv(s, steps);
  }

  /**
   In every run, the remote call is issued at most once more than status writes fail, so at most once if none fails; the
   start and completion times are recorded together with a result; and no reconcile ever panics.
   */
  lemma CallsBounded(s: State, steps: seq<Step>, d: Draw)
    requires Initial(s)
    ensures var end := Run(s, steps);
            && end.calls <= 1 + end.failedWrites
            && (end.call.Some? ==> Consistent(end.call.value.status))
            && !Reconcile(end, d).1.Panic?
  {
    RunKeepsInv(s, steps);
    StepKeepsInv(Run(s, steps), Try(d));
  }

  /** Once an outcome is recorded, it never changes and no further call is issued, as long as the object exists. */
  lemma {:induction false} OutcomeIsFinal(s: State, steps: seq<Step>)
    requires s.call.Some? && s.call.value.status.startTime.Some?
    ensures var end := Run(s, steps);
            end.calls == s.calls && (end.call.Some? ==> end.call.value.status == s.call.value.status)
    decreases |steps|
  {
    if steps != [] {
      var next := Do(s, steps[0]);
      if next.call.Some? { OutcomeIsFinal(next, steps[1..]); } else { GoneIsFinal(next, steps[1..]); }
    }
  }

  lemma {:induction false} GoneIsFinal(s: State, steps: seq<Step>)
    requires s.call.None?
    ensures Run(s, steps) == s
    decreases |steps|
  {
    if steps != [] { GoneIsFinal(s, steps[1..]); }
  }

  /**
   A recorded outcome is that of an attempt in the run: its result, its message and its start and end, in whole seconds.
   */
  lemma {:induction false} OutcomeIsAnAttempt(s: State, steps: seq<Step>) returns (i: nat)
    requires s.call.Some? && s.call.value.status == EMPTY
    requires Run(s, steps).call.Some? && Run(s, steps).call.value.status != EMPTY
    ensures i < |steps| && steps[i].Try?
    ensures var status, d := Run(s, steps).call.value.status, steps[i].d;
            && (status.result == Success <==> d.attempt.CallDone?) && status.message == d.attempt.message
            && status.startTime.Some? && status.startTime.value <= d.now < status.startTime.value + SECOND
            && status.completionTime.Some?
            && status.completionTime.value <= d.end < status.completionTime.value + SECOND
    decreases |steps|
  {
    var next := Do(s, steps[0]);
    if next.call.None? {
      GoneIsFinal(next, steps[1..]);
      assert false;
    } else if next.call.value.status == EMPTY {
      i := OutcomeIsAnAttempt(next, steps[1..]);
      i := i + 1;
    } else {
      i := 0;
      OutcomeIsFinal(next, steps[1..]);
    }
  }

  /**
   In every run, the operator deletes an object that it can read and delete exactly when it is finished and its time to
   live after completion is over.
   */
  lemma DeletesExactlyExpired(s: State, steps: seq<Step>, d: Draw)
    requires Initial(s)
    ensures var end := Run(s, steps);
            end.call.Some? && d.readable && d.deletable ==>
              var call := end.call.value;
              (Reconcile(end, d).0.call.None? <==>
                 && !call.status.result.NoResult? && call.ttlSeconds.Some? && call.status.completionTime.Some?
                 && d.now >= call.status.completionTime.value + call.ttlSeconds.value * SECOND)
  {
    RunKeepsInv(s, steps);
  }

  /** The bound is reached: every failed status write can repeat the call once. */
  lemma {:induction false} FailedWritesRepeatCall(s: State, n: nat) returns (steps: seq<Step>)
    requires s.call.Some? && s.call.value.status == EMPTY
    ensures var end := Run(s, steps);
            end.failedWrites == s.failedWrites + n && end.calls == s.calls + n + 1
    decreases n
  {
    var step := Try(Draw(true, 0, 0, CallDone("done"), n == 0, true));
    var next := Do(s, step);
    var rest := [];
    if n > 0 { rest := FailedWritesRepeatCall(next, n - 1); }
    steps := [step] + rest;
    assert steps[1..] == rest;
  }
}
