/** Rolling safety of the three passes together, over runs with fixed desired names. */
module ComposedSafety {
  import opened Common
  import opened Cluster
  import opened Passes
  import opened ImageRollout
  import opened Composition
  import opened ComposedRuns

  /** `inFlight` holds the units that some pass has written and that have not been Ready since. */
  datatype State = State(rollout: Rollout, inFlight: set<string>)

  datatype Step =
    | Reconciled(wanted: PodTemplate, spec: UnitSetSpec, round: Round, reading: Reading)
    | Outside(units: map<string, Unit>)

  function Do(names: seq<string>, s: State, step: Step): State {
    match step
    case Reconciled(wanted, spec, round, reading) =>
      var t := Whole(s.rollout, Goal(names, spec, wanted), round, reading);
      State(t.rollout, s.inFlight + t.written)
    case Outside(units) =>
      State(s.rollout.(store := s.rollout.store.(units := units)),
            set n | n in s.inFlight && n in units && units[n].phase != Ready)
  }

  function Run(names: seq<string>, s: State, steps: seq<Step>): State {
    if steps == [] then s else Do(names, Run(names, s, steps[..|steps| - 1]), steps[|steps| - 1])
  }

  /** Kubernetes names have no comma. */
  ghost predicate NoCommas(names: set<string>) {
    forall n :: n in names ==> ',' !in n
  }

  /**
   What a reconcile reads: only desired units have a task; and while a written unit is not Ready again, it has a task
   and no other unit has. The unit controller sets the task in the write that takes Ready away, and clears it in the
   one that gives it back.
   */
  ghost predicate Coherent(names: seq<string>, s: State, step: Step) {
    match step
    case Reconciled(_, _, _, reading) =>
      && (forall i :: 0 <= i < |reading.tasks| ==> reading.tasks[i] in names)
      && (reading.late.Some? ==> forall i :: 0 <= i < |reading.late.value| ==> reading.late.value[i] in names)
      && (forall n :: n in s.inFlight ==> reading.tasks == [n])
    case Outside(units) => NoCommas(units.Keys)
  }

  ghost predicate CoherentRun(names: seq<string>, s: State, steps: seq<Step>) {
    steps == [] ||
    (CoherentRun(names, s, steps[..|steps| - 1]) &&
     Coherent(names, Run(names, s, steps[..|steps| - 1]), steps[|steps| - 1]))
  }

  /** A cursor that points at no live unit beside the desired ones. */
  ghost predicate Harmless(names: seq<string>, cursor: string) {
    cursor == "" || cursor in names || ',' in cursor
  }

  ghost predicate Inv(names: seq<string>, s: State) {
    && (forall m, n :: m in s.inFlight && n in s.inFlight ==> m == n)
    && (forall n :: n in s.inFlight ==> n in names)
    && Harmless(names, s.rollout.store.cursor) && NoCommas(s.rollout.store.units.Keys)
  }

  lemma OverlayIsHarmless(names: seq<string>, cursor: string, tasks: seq<string>)
    requires Harmless(names, cursor) && forall i :: 0 <= i < |tasks| ==> tasks[i] in names
    ensures Harmless(names, Overlay(cursor, tasks))
  {
    if |tasks| >= 2 { JoinHasComma(tasks); }
  }

  lemma HarmlessHasOneTarget(mem: string, names: seq<string>, live: set<string>)
    requires Harmless(names, mem) && NoCommas(live)
    ensures !TwoTargets(mem, names, live)
  {
  }

  lemma CursorsWritten(mem: string, r: Rollout, g: Goal, round: Round)
    ensures var c := ReconcileAll(mem, r, g, round).rollout.store.cursor;
            c == r.store.cursor || c == "" || c in g.names
  {
    ImageWritesNames(mem, r, g, round.call);
    var st1 := Reconcile(mem, r, g, round.call).0.store;
    PassWritesNames(ResourcePass, mem, st1, g, round.afterResources);
    PassWritesNames(ResizePass, mem, ApplyPass(ResourcePass, mem, st1, g, round.afterResources), g, round.afterResize);
  }

  lemma ImageWritesNames(mem: string, r: Rollout, g: Goal, call: Call)
    ensures var c := Reconcile(mem, r, g, call).0.store.cursor; c == r.store.cursor || c == "" || c in g.names
  {
  }

  lemma PassWritesNames(pass: Pass, mem: string, st: Store, g: Goal, after: Phase)
    ensures var c := ApplyPass(pass, mem, st, g, after).cursor; c == st.cursor || c == "" || c in g.names
  {
  }

  lemma PassWritesDesired(pass: Pass, mem: string, st: Store, g: Goal)
    requires Harmless(g.names, mem) && NoCommas(st.units.Keys)
    ensures forall n :: n in WrittenByPass(pass, mem, st, g) ==> n in g.names
  {
    if mem in st.units { assert ',' !in mem; }
  }

  lemma ImageWritesDesired(mem: string, r: Rollout, g: Goal, call: Call)
    ensures forall n :: n in WrittenByImage(mem, r, g, call) ==> n in g.names
  {
  }

  lemma WritesDesired(mem: string, r: Rollout, g: Goal, round: Round)
    requires Harmless(g.names, mem) && NoCommas(r.store.units.Keys)
    ensures forall n :: n in ReconcileAll(mem, r, g, round).written ==> n in g.names
  {
    var st1 := Reconcile(mem, r, g, round.call).0.store;
    var st2 := ApplyPass(ResourcePass, mem, st1, g, round.afterResources);
    ImageWritesOnly(mem, r, g, round.call);
    PassWritesOnly(ResourcePass, mem, st1, g, round.afterResources);
    ImageWritesDesired(mem, r, g, round.call);
    PassWritesDesired(ResourcePass, mem, st1, g);
    PassWritesDesired(ResizePass, mem, st2, g);
  }

  /**
   With a harmless cursor, a reconcile writes at most one unit; it is desired, and the cursor's if that is desired.
   */
  lemma PassesKeepInv(mem: string, r: Rollout, g: Goal, round: Round)
    requires Harmless(g.names, mem) && Harmless(g.names, r.store.cursor) && NoCommas(r.store.units.Keys)
    ensures var t := ReconcileAll(mem, r, g, round);
            && (forall m, n :: m in t.written && n in t.written ==> m == n)
            && (forall n :: n in t.written ==> n in g.names && (mem in g.names ==> n == mem))
            && Harmless(g.names, t.rollout.store.cursor) && t.rollout.store.units.Keys == r.store.units.Keys
  {
    HarmlessHasOneTarget(mem, g.names, r.store.units.Keys);
    AtMostOneUnit(mem, r, g, round);
    WrittenIsComplete(mem, r, g, round);
    CursorsWritten(mem, r, g, round);
    WritesDesired(mem, r, g, round);
  }

  lemma ReconcileKeepsInv(names: seq<string>, s: State, step: Step)
    requires Inv(names, s) && step.Reconciled? && Coherent(names, s, step)
    ensures Inv(names, Do(names, s, step))
  {
    var g, reading := Goal(names, step.spec, step.wanted), step.reading;
    var mem := Overlay(s.rollout.store.cursor, reading.tasks);
    var r0 := if reading.stores then WithCursor(s.rollout, mem) else s.rollout;
    OverlayIsHarmless(names, s.rollout.store.cursor, reading.tasks);
    PassesKeepInv(mem, r0, g, step.round);
    if reading.late.Some? { OverlayIsHarmless(names, mem, reading.late.value); }
    forall n | n in s.inFlight ensures mem == n && mem in names {
      assert reading.tasks == [n];
    }
  }

  lemma {:induction false} RunKeepsInv(names: seq<string>, s: State, steps: seq<Step>)
    requires Inv(names, s) && CoherentRun(names, s, steps)
    ensures Inv(names, Run(names, s, steps))
  {
    if steps != [] {
      var before, step := steps[..|steps| - 1], steps[|steps| - 1];
      RunKeepsInv(names, s, before);
      if step.Reconciled? { ReconcileKeepsInv(names, Run(names, s, before), step); }
    }
  }

  /** The run starts with no unit in flight and a cursor that is empty or desired. */
  ghost predicate Initial(names: seq<string>, s: State) {
    s.inFlight == {} && Harmless(names, s.rollout.store.cursor) && NoCommas(s.rollout.store.units.Keys)
  }

  /**
   At every point of every run, interleaved with units going down, coming back, being created or deleted, and with
   changing targets and failing image calls, the three passes together have at most one unit written and not Ready
   again.
   */
  lemma AtMostOneInFlight(names: seq<string>, s: State, steps: seq<Step>)
    requires Initial(names, s) && CoherentRun(names, s, steps)
    ensures |Run(names, s, steps).inFlight| <= 1
  {
    RunKeepsInv(names, s, steps);
    AtMostOne(Run(names, s, steps).inFlight);
  }

  /** The rollout has gone from unit `k` on to unit `m`, and every unit it passed is in flight. */
  ghost predicate AllPassedInFlight(start: Rollout, s: State, g: Goal, k: nat, m: nat) {
    && At(s.rollout, g, m) && k <= m
    && (forall i :: m <= i < |g.names| ==>
          g.names[i] in start.store.units && s.rollout.store.units[g.names[i]] == start.store.units[g.names[i]])
    && forall i :: k <= i < m ==> g.names[i] in s.inFlight
  }

  lemma PassedOneMore(start: Rollout, s: State, s': State, g: Goal, k: nat, m: nat)
    requires AllPassedInFlight(start, s, g, k, m) && 1 <= k && m + 1 < |g.names|
    requires MovesOn(s.rollout, s'.rollout, g, m, false) && s.inFlight + {g.names[m]} <= s'.inFlight
    requires !HasVersion(start.store.units[g.names[m]], g.spec.version)
    ensures AllPassedInFlight(start, s', g, k, m + 1)
  {
    MovedOn(s.rollout, s'.rollout, g, m, false);
    assert forall i :: m < i < |g.names| ==> g.names[i] != g.names[m];
  }

  /** A reconcile that reads no task. */
  function Missed(g: Goal, round: Round): Step {
    Step.Reconciled(g.wanted, g.spec, round, Reading([], false, None))
  }

  lemma MissedWrites(s: State, g: Goal, m: nat, round: Round)
    requires At(s.rollout, g, m) && NothingElseNeeded(s.rollout.store.units, g) && Smooth(round, g, false)
    requires !HasVersion(s.rollout.store.units[g.names[m]], g.spec.version)
    ensures var s' := Do(g.names, s, Missed(g, round));
            && MovesOn(s.rollout, s'.rollout, g, m, false) && NothingElseNeeded(s'.rollout.store.units, g)
            && s.inFlight + {g.names[m]} <= s'.inFlight
  {
    assert Goal(g.names, g.spec, g.wanted) == g;
    TurnIsWritten(s.rollout, g, m, round);
    ReconcileAt(s.rollout, g, m, round, Reading([], false, None), false);
  }

  /**
   Tasks must be read: whatever units the image pass has written and left in flight, a reconcile that reads no task puts
   the next outdated unit in flight beside them, and leaves the rollout where the same can happen again.
   */
  lemma MissedTaskBreaksSafety(start: Rollout, s: State, g: Goal, k: nat, m: nat, round: Round)
    requires AllPassedInFlight(start, s, g, k, m) && 1 <= k && m + 1 < |g.names|
    requires NothingElseNeeded(s.rollout.store.units, g) && Smooth(round, g, false)
    requires !HasVersion(start.store.units[g.names[m]], g.spec.version)
    ensures var s' := Do(g.names, s, Missed(g, round));
            AllPassedInFlight(start, s', g, k, m + 1) && NothingElseNeeded(s'.rollout.store.units, g)
  {
    MissedWrites(s, g, m, round);
    PassedOneMore(start, s, Do(g.names, s, Missed(g, round)), g, k, m);
  }

  lemma TurnIsWritten(r: Rollout, g: Goal, k: nat, round: Round)
    requires At(r, g, k) && round.call.fault == NoFault && !HasVersion(r.store.units[g.names[k]], g.spec.version)
    ensures g.names[k] in Whole(r, g, round, Reading([], false, None)).written
  {
    CursorPointsAt(r, g, k);
    ImageAt(r.store.cursor, r, g, k, round.call);
    assert g.names[k] in g.names;
    assert WrittenByImage(r.store.cursor, r, g, round.call) == {g.names[k]};
  }
}
