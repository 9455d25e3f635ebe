/**
 Whole runs of a unit set's reconcile. Before the passes, the status step puts the names of all units with a task into
 the in-memory cursor and may store it; a unit has a task from the moment its pod is to be upgraded until it is Ready
 again.
 */
module ComposedRuns {
  import opened Common
  import opened Cluster
  import opened Passes
  import opened ImageRollout
  import opened Composition

  /******* The status step *******/

  /** `strings.Join` with a comma. */
  function JoinNames(names: seq<string>): string {
    if names == [] then "" else if |names| == 1 then names[0] else names[0] + "," + JoinNames(names[1..])
  }

  function Overlay(cursor: string, tasks: seq<string>): string {
    if tasks == [] then cursor else JoinNames(tasks)
  }

  /** Several names joined are no single unit's name, since these have no comma. */
  lemma JoinHasComma(names: seq<string>)
    requires |names| >= 2
    ensures ',' in JoinNames(names)
  {
    var first := names[0] + ",";
    assert first[|names[0]|] == ',' && first <= JoinNames(names);
    assert JoinNames(names)[|names[0]|] == ',';
  }

  /**
   What the status step meets in a reconcile: the units with a task before the passes, whether it stores its status
   then, and the units with a task after the passes if it wants to store its status once more.
   */
  datatype Reading = Reading(tasks: seq<string>, stores: bool, late: Option<seq<string>>)

  /** Whether some pass stores a cursor. Storing the value that is there already is skipped. */
  predicate CursorWritten(mem: string, r: Rollout, g: Goal, round: Round) {
    var (r1, outcome) := Reconcile(mem, r, g, round.call);
    var st2 := ApplyPass(ResourcePass, mem, r1.store, g, round.afterResources);
    var st3 := ApplyPass(ResizePass, mem, st2, g, round.afterResize);
    || (r.template != g.wanted && g.names != [] && mem !in g.names && r.store.cursor != g.names[0])
    || r1.store.cursor != r.store.cursor || st2.cursor != r1.store.cursor || st3.cursor != st2.cursor
  }

  function WithCursor(r: Rollout, cursor: string): Rollout {
    r.(store := r.store.(cursor := cursor))
  }

  /** The image pass meets a failing call, or the resize pass waits for the unit that it is to rewrite. */
  predicate SomePassFails(mem: string, r: Rollout, g: Goal, round: Round) {
    var (r1, outcome) := Reconcile(mem, r, g, round.call);
    var st2 := ApplyPass(ResourcePass, mem, r1.store, g, round.afterResources);
    var s := Snapshot(mem, st2.units, g.names, g.spec);
    outcome.Errored? || !Succeeds(ResizePass, s, st2, Decide(ResizePass, s), true)
  }

  /**
   A reconcile with its status steps. The one after the passes works on the unit set in memory, so that it is refused
   as a conflict if a pass has stored a cursor, and does not take place if a pass has failed.
   */
  function Whole(r: Rollout, g: Goal, round: Round, reading: Reading): Trace {
    var mem := Overlay(r.store.cursor, reading.tasks);
    var r0 := if reading.stores then WithCursor(r, mem) else r;
    var t := ReconcileAll(mem, r0, g, round);
    if reading.late.None? || SomePassFails(mem, r0, g, round) || CursorWritten(mem, r0, g, round) then t
    else t.(rollout := WithCursor(t.rollout, Overlay(mem, reading.late.value)))
  }

  /** A failing image pass ends the reconcile: nothing that comes after it takes place. */
  lemma ImageErrorEndsReconcile(r: Rollout, g: Goal, round: Round, reading: Reading)
    requires var mem := Overlay(r.store.cursor, reading.tasks);
             Reconcile(mem, if reading.stores then WithCursor(r, mem) else r, g, round.call).1.Errored?
    ensures var mem := Overlay(r.store.cursor, reading.tasks);
            Whole(r, g, round, reading).rollout
            == Reconcile(mem, if reading.stores then WithCursor(r, mem) else r, g, round.call).0
  {
  }

  /** After a resize pass that waits for its unit, the names of units with a task are not stored. */
  lemma ResizeErrorSkipsStatus(r: Rollout, g: Goal, round: Round, reading: Reading)
    requires "" !in g.names && r.template == g.wanted && reading.tasks == [] && r.store.cursor in r.store.units
    requires !Matches(ResizePass, r.store.units[r.store.cursor], g.spec) && r.store.cursor in g.names
    requires Matches(ResourcePass, r.store.units[r.store.cursor], g.spec)
    requires r.store.units[r.store.cursor].phase != Ready
    ensures Whole(r, g, round, reading).rollout == r
  {
    var c, st := r.store.cursor, r.store;
    var s := Snapshot(c, st.units, g.names, g.spec);
    NeedsExactly(ResourcePass, st.units[c], g.spec);
    NeedsExactly(ResizePass, st.units[c], g.spec);
    assert WithCursor(r, c) == r;
    assert NeedyAt(ResizePass, st.units, c, g.spec);
    assert FirstNeeding(ResizePass, g.names, st.units, g.spec) != "";
    assert ApplyPass(ResourcePass, c, st, g, round.afterResources) == st;
    assert Decide(ResizePass, s) == Wait;
  }

  /******* A rollout at unit k *******/

  /** The cursor names unit `k`, or is empty at the first one. */
  ghost predicate At(r: Rollout, g: Goal, k: nat) {
    && GoodNames(g.names) && k < |g.names|
    && r.store.cursor == (if k == 0 then "" else g.names[k])
    && r.template != g.wanted
    && forall i :: 0 <= i < |g.names| ==> g.names[i] in r.store.units
  }

  /**
   The unit reads as Ready right after the image pass had its turn with it: it is up to date and Ready, or upgraded
   units go on showing Ready.
   */
  ghost predicate Blocks(u: Unit, g: Goal, staysReady: bool) {
    if HasVersion(u, g.spec.version) then u.phase == Ready else staysReady
  }

  ghost predicate BlockedBetween(r: Rollout, g: Goal, from: nat, staysReady: bool) {
    exists j :: from <= j < |g.names| - 1 && g.names[j] in r.store.units
        && Blocks(r.store.units[g.names[j]], g, staysReady)
  }

  /** No call fails, and all upgraded units show Ready afterwards, or none does. */
  ghost predicate Smooth(round: Round, g: Goal, staysReady: bool) {
    round.call.fault == NoFault && AssemblesSettled(round, g) && (round.call.after == Ready <==> staysReady)
  }

  /** Unit `k` once the image pass had its turn with it. */
  function Turned(u: Unit, g: Goal, call: Call): Unit {
    if HasVersion(u, g.spec.version) then u else Upgraded(u, g.spec.version, call)
  }

  function AfterImage(r: Rollout, g: Goal, k: nat, call: Call): Rollout
    requires k < |g.names| && g.names[k] in r.store.units
  {
    var c := g.names[k];
    var last := k + 1 == |g.names|;
    Rollout(Store(if last then "" else g.names[k + 1], r.store.units[c := Turned(r.store.units[c], g, call)]),
            if last then g.wanted else r.template)
  }

  /** The in-memory cursor names unit `k`, or no desired unit at the first one. */
  ghost predicate PointsAt(mem: string, g: Goal, k: nat) {
    k < |g.names| && (mem == g.names[k] || (k == 0 && mem !in g.names))
  }

  lemma ImageAt(mem: string, r: Rollout, g: Goal, k: nat, call: Call)
    requires GoodNames(g.names) && PointsAt(mem, g, k) && g.names[k] in r.store.units
    requires r.template != g.wanted && call.fault == NoFault
    ensures Reconcile(mem, r, g, call)
         == (AfterImage(r, g, k, call), if k + 1 == |g.names| then Finished else Progressed)
  {
    IndexOfAt(g.names, k);
    assert g.names[k] in g.names;
    assert Current(mem, g.names) == g.names[k];
    var u := r.store.units[g.names[k]];
    assert r.store.units[g.names[k] := u] == r.store.units;
  }

  /** After the image pass has left `r1`, the others can only clear a cursor whose unit is Ready. */
  function AfterOthers(mem: string, r1: Rollout): Rollout {
    if mem != "" && mem in r1.store.units && r1.store.units[mem].phase == Ready then WithCursor(r1, "") else r1
  }

  lemma RestOfReconcile(mem: string, r: Rollout, g: Goal, round: Round, r1: Rollout)
    requires Reconcile(mem, r, g, round.call).0 == r1 && !Reconcile(mem, r, g, round.call).1.Errored?
    requires NothingElseNeeded(r1.store.units, g) && (mem == "" || mem in r1.store.units)
    ensures ReconcileAll(mem, r, g, round).rollout == AfterOthers(mem, r1)
  {
    if mem == "" {
      OthersIdleWithoutCursor(r1.store, g, round);
    } else {
      OthersOnlyClear(mem, r1.store, g, round);
    }
  }

  /** What one reconcile makes of a rollout at unit `k`. */
  ghost predicate MovesOn(r: Rollout, r': Rollout, g: Goal, k: nat, staysReady: bool)
    requires k < |g.names| && g.names[k] in r.store.units
  {
    var c := g.names[k];
    var blocks := Blocks(r.store.units[c], g, staysReady);
    && r'.store.units.Keys == r.store.units.Keys
    && (forall n :: n in r.store.units && n != c ==> r'.store.units[n] == r.store.units[n])
    && (blocks ==> Blocks(r'.store.units[c], g, staysReady))
    && r'.template == (if k + 1 < |g.names| then r.template else g.wanted)
    && r'.store.cursor == if k + 1 == |g.names| || (k > 0 && blocks) then "" else g.names[k + 1]
  }

  lemma TurnedBlocks(u: Unit, g: Goal, call: Call, staysReady: bool)
    requires call.after == Ready <==> staysReady
    ensures Blocks(u, g, staysReady) <==> Turned(u, g, call).phase == Ready
    ensures Blocks(u, g, staysReady) ==> Blocks(Turned(u, g, call), g, staysReady)
  {
  }

  lemma TurnMovesOn(r: Rollout, g: Goal, k: nat, call: Call, staysReady: bool)
    requires At(r, g, k) && (call.after == Ready <==> staysReady)
    ensures MovesOn(r, AfterOthers(r.store.cursor, AfterImage(r, g, k, call)), g, k, staysReady)
  {
    assert g.names[k] in g.names;
    TurnedBlocks(r.store.units[g.names[k]], g, call, staysReady);
  }

  lemma CursorPointsAt(r: Rollout, g: Goal, k: nat)
    requires At(r, g, k)
    ensures PointsAt(r.store.cursor, g, k)
  {
  }

  lemma FreeRoundWrites(r: Rollout, g: Goal, k: nat, round: Round)
    requires At(r, g, k) && round.call.fault == NoFault
    ensures CursorWritten(r.store.cursor, r, g, round)
  {
    CursorPointsAt(r, g, k);
    ImageAt(r.store.cursor, r, g, k, round.call);
    assert g.names[k] in g.names;
  }

  /** A reconcile that finds no task gives unit `k` its turn. */
  lemma ReconcileAt(r: Rollout, g: Goal, k: nat, round: Round, reading: Reading, staysReady: bool)
    requires At(r, g, k) && NothingElseNeeded(r.store.units, g) && Smooth(round, g, staysReady) && reading.tasks == []
    ensures MovesOn(r, Whole(r, g, round, reading).rollout, g, k, staysReady)
    ensures NothingElseNeeded(Whole(r, g, round, reading).rollout.store.units, g)
  {
    var mem, r1 := r.store.cursor, AfterImage(r, g, k, round.call);
    FreeRoundWrites(r, g, k, round);
    CursorPointsAt(r, g, k);
    ImageAt(mem, r, g, k, round.call);
    StillNothingElseNeeded(mem, r, g, round);
    RestOfReconcile(mem, r, g, round, r1);
    TurnMovesOn(r, g, k, round.call, staysReady);
    assert WithCursor(r, mem) == r;
  }

  /** The only task is that of the unit just left, which is up to date and not Ready yet. */
  ghost predicate TaskOfUnitLeft(r: Rollout, g: Goal, k: nat, reading: Reading) {
    && 1 <= k < |g.names| && reading.tasks == [g.names[k - 1]]
    && g.names[k - 1] in r.store.units
    && HasVersion(r.store.units[g.names[k - 1]], g.spec.version) && r.store.units[g.names[k - 1]].phase != Ready
  }

  lemma TaskRoundFromLeft(r: Rollout, g: Goal, k: nat, r0: Rollout, round: Round)
    requires At(r, g, k) && 1 <= k && NothingElseNeeded(r.store.units, g) && round.call.fault == NoFault
    requires r0 == r || r0 == WithCursor(r, g.names[k - 1])
    requires HasVersion(r.store.units[g.names[k - 1]], g.spec.version) && r.store.units[g.names[k - 1]].phase != Ready
    ensures ReconcileAll(g.names[k - 1], r0, g, round).rollout == r
    ensures Reconcile(g.names[k - 1], r0, g, round.call).0 == r
  {
    var mem := g.names[k - 1];
    assert mem in g.names;
    ImageAt(mem, r0, g, k - 1, round.call);
    assert r.store.units[mem := r.store.units[mem]] == r.store.units;
    RestOfReconcile(mem, r0, g, round, r);
  }

  /** Such a reconcile changes nothing, unless the status step stores the old name after the passes only. */
  lemma TaskRoundWaits(r: Rollout, g: Goal, k: nat, round: Round, reading: Reading)
    requires At(r, g, k) && NothingElseNeeded(r.store.units, g) && round.call.fault == NoFault
    requires TaskOfUnitLeft(r, g, k, reading) && (reading.stores || reading.late.None?)
    ensures Whole(r, g, round, reading).rollout == r
  {
    var mem := g.names[k - 1];
    var r0 := if reading.stores then WithCursor(r, mem) else r;
    TaskRoundFromLeft(r, g, k, r0, round);
    if reading.stores { assert g.names[k] != mem; }
  }

  /******* Events *******/

  /** A reconcile, or a change of the units by others. */
  datatype Event = Reconciled(round: Round, reading: Reading) | Changed(units: map<string, Unit>)

  function After(r: Rollout, g: Goal, e: Event): Rollout {
    match e
    case Reconciled(round, reading) => Whole(r, g, round, reading).rollout
    case Changed(units) => r.(store := r.store.(units := units))
  }

  function AfterAll(r: Rollout, g: Goal, events: seq<Event>): Rollout
    decreases |events|
  {
    if events == [] then r else AfterAll(After(r, g, events[0]), g, events[1..])
  }

  /** How many reconciles find no task. */
  function FreeCount(events: seq<Event>): nat {
    if events == [] then 0
    else (if events[0].Reconciled? && events[0].reading.tasks == [] then 1 else 0) + FreeCount(events[1..])
  }

  /******* When the composed passes end *******/

  /** Where the rollout stands. */
  function Position(r: Rollout, g: Goal): nat {
    if r.store.cursor in g.names then IndexOf(g.names, r.store.cursor) else 0
  }

  /** Whatever happens to units that had their turn, the others stay as they are. */
  ghost predicate OthersKept(r: Rollout, g: Goal, units: map<string, Unit>) {
    && NothingElseNeeded(units, g)
    && forall i :: 0 <= i < |g.names| ==>
         g.names[i] in units && (Position(r, g) <= i && g.names[i] in r.store.units ==>
             units[g.names[i]] == r.store.units[g.names[i]])
  }

  /** What a run may consist of while the rollout is under way. */
  ghost predicate Fits(r: Rollout, g: Goal, e: Event, staysReady: bool) {
    match e
    case Reconciled(round, reading) =>
      && Smooth(round, g, staysReady)
      && (reading.tasks == [] ||
          (TaskOfUnitLeft(r, g, Position(r, g), reading) && (reading.stores || reading.late.None?)))
    case Changed(units) => OthersKept(r, g, units)
  }

  ghost predicate FittingRun(r: Rollout, g: Goal, events: seq<Event>, staysReady: bool)
    decreases |events|
  {
    events == [] ||
    ((r.template == g.wanted || Fits(r, g, events[0], staysReady))
        && FittingRun(After(r, g, events[0]), g, events[1..], staysReady))
  }

  lemma EventKeepsEnd(r: Rollout, g: Goal, e: Event)
    requires r.template == g.wanted
    ensures After(r, g, e).template == g.wanted
  {
  }

  lemma {:induction false} EndedStaysEnded(r: Rollout, g: Goal, events: seq<Event>)
    requires r.template == g.wanted
    ensures AfterAll(r, g, events).template == g.wanted
    decreases |events|
  {
    if events != [] {
      EventKeepsEnd(r, g, events[0]);
      EndedStaysEnded(After(r, g, events[0]), g, events[1..]);
    }
  }

  lemma SameBlockers(r: Rollout, r': Rollout, g: Goal, from: nat, staysReady: bool)
    requires forall i :: from <= i < |g.names| ==> g.names[i] in r.store.units && g.names[i] in r'.store.units
    requires forall i :: from <= i < |g.names| ==> r'.store.units[g.names[i]] == r.store.units[g.names[i]]
    ensures BlockedBetween(r', g, from, staysReady) == BlockedBetween(r, g, from, staysReady)
  {
  }

  lemma FirstOrLater(r: Rollout, g: Goal, k: nat, staysReady: bool)
    requires At(r, g, k) && 0 < k < |g.names| - 1
    ensures BlockedBetween(r, g, k, staysReady) <==>
              Blocks(r.store.units[g.names[k]], g, staysReady) || BlockedBetween(r, g, k + 1, staysReady)
  {
    if BlockedBetween(r, g, k, staysReady) {
      var j :| k <= j < |g.names| - 1 && g.names[j] in r.store.units
          && Blocks(r.store.units[g.names[j]], g, staysReady);
      assert j == k || k + 1 <= j;
    }
  }

  /** Where a turn leaves a rollout that it does not end. */
  ghost function NextAt(r: Rollout, g: Goal, k: nat, staysReady: bool): nat
    requires k < |g.names| && g.names[k] in r.store.units
  {
    if k > 0 && Blocks(r.store.units[g.names[k]], g, staysReady) then 0 else k + 1
  }

  lemma MovedOn(r: Rollout, r': Rollout, g: Goal, k: nat, staysReady: bool)
    requires At(r, g, k) && k + 1 < |g.names| && MovesOn(r, r', g, k, staysReady)
    ensures At(r', g, NextAt(r, g, k, staysReady))
  {
  }

  /** Each unit had its turn and none blocks; the first one never does. */
  ghost predicate Over(r: Rollout, g: Goal, k: nat, count: nat, staysReady: bool) {
    count >= |g.names| - k && !BlockedBetween(r, g, if k == 0 then 1 else k, staysReady)
  }

  /** If the claim holds for the rest of the run, it holds with one turn more. */
  lemma OneMore(r: Rollout, r': Rollout, g: Goal, k: nat, left: nat, staysReady: bool)
    requires At(r, g, k) && k + 1 < |g.names| && MovesOn(r, r', g, k, staysReady)
    ensures Over(r, g, k, left + 1, staysReady) == Over(r', g, NextAt(r, g, k, staysReady), left, staysReady)
  {
    if k > 0 && Blocks(r.store.units[g.names[k]], g, staysReady) {
      assert Blocks(r'.store.units[g.names[k]], g, staysReady);
    } else {
      assert forall i :: k + 1 <= i < |g.names| ==> g.names[i] != g.names[k];
      SameBlockers(r, r', g, k + 1, staysReady);
      if k > 0 { FirstOrLater(r, g, k, staysReady); }
    }
  }

  lemma PositionAt(r: Rollout, g: Goal, k: nat)
    requires At(r, g, k)
    ensures Position(r, g) == k
  {
    if k > 0 { IndexOfAt(g.names, k); }
  }

  lemma ChangeKeepsClaim(r: Rollout, g: Goal, k: nat, units: map<string, Unit>, left: nat, staysReady: bool)
    requires At(r, g, k) && OthersKept(r, g, units)
    ensures var r' := After(r, g, Changed(units));
            At(r', g, k) && Over(r', g, k, left, staysReady) == Over(r, g, k, left, staysReady)
  {
    PositionAt(r, g, k);
    SameBlockers(r, After(r, g, Changed(units)), g, if k == 0 then 1 else k, staysReady);
  }

  /** From unit `k` on, and for every run. */
  lemma {:induction false} EndsFrom(r: Rollout, g: Goal, k: nat, events: seq<Event>, staysReady: bool)
    requires At(r, g, k) && NothingElseNeeded(r.store.units, g) && FittingRun(r, g, events, staysReady)
    ensures AfterAll(r, g, events).template == g.wanted <==> Over(r, g, k, FreeCount(events), staysReady)
    decreases |events|
  {
    if events != [] {
      var e, r', rest := events[0], After(r, g, events[0]), events[1..];
      PositionAt(r, g, k);
      if e.Changed? {
        ChangeKeepsClaim(r, g, k, e.units, FreeCount(rest), staysReady);
        EndsFrom(r', g, k, rest, staysReady);
      } else if e.reading.tasks != [] {
        TaskRoundWaits(r, g, k, e.round, e.reading);
        EndsFrom(r, g, k, rest, staysReady);
      } else {
        ReconcileAt(r, g, k, e.round, e.reading, staysReady);
        if k + 1 == |g.names| {
          EndedStaysEnded(r', g, rest);
        } else {
          MovedOn(r, r', g, k, staysReady);
          EndsFrom(r', g, NextAt(r, g, k, staysReady), rest, staysReady);
          OneMore(r, r', g, k, FreeCount(rest), staysReady);
        }
      }
    }
  }

  /**
   Started from an empty cursor, with no failing call, the only tasks being those of units just upgraded, and whatever
   happens to units that had their turn: the three passes together replace the template if and only if as many
   reconciles as there are units found no task, and no unit other than the first and the last one reads as Ready when
   the image pass leaves it, because it was up to date and Ready before, or because upgraded units do not drop out of
   Ready.
   */
  lemma EndsExactly(r: Rollout, g: Goal, events: seq<Event>, staysReady: bool)
    requires At(r, g, 0) && NothingElseNeeded(r.store.units, g) && FittingRun(r, g, events, staysReady)
    ensures AfterAll(r, g, events).template == g.wanted <==>
              && FreeCount(events) >= |g.names|
              && forall j :: 1 <= j < |g.names| - 1 ==>
                   var u := r.store.units[g.names[j]];
                   if HasVersion(u, g.spec.version) then u.phase != Ready else !staysReady
  {
    EndsFrom(r, g, 0, events, staysReady);
    if BlockedBetween(r, g, 1, staysReady) {
      var j :| 1 <= j < |g.names| - 1 && g.names[j] in r.store.units
          && Blocks(r.store.units[g.names[j]], g, staysReady);
    }
  }

  /******* A unit in the way *******/

  /** `name` is no desired unit that comes after unit `j`. */
  ghost predicate NotAfter(g: Goal, j: nat, name: string) {
    forall i :: j < i < |g.names| ==> g.names[i] != name
  }

  /** Unit `j`, in the middle, is up to date and Ready, and the cursor has not passed it. */
  ghost predicate InTheWay(r: Rollout, g: Goal, j: nat) {
    && GoodNames(g.names) && 1 <= j < |g.names| - 1 && r.template != g.wanted
    && UnitInTheWay(r.store.units, g, j) && NotAfter(g, j, r.store.cursor)
  }

  ghost predicate UnitInTheWay(units: map<string, Unit>, g: Goal, j: nat)
    requires j < |g.names|
  {
    && NothingElseNeeded(units, g)
    && g.names[j] in units && HasVersion(units[g.names[j]], g.spec.version) && units[g.names[j]].phase == Ready
  }

  /**
   Any reconcile, whatever calls of the image pass fail and whatever phases it leaves, whose tasks do not name a unit
   after unit `j`; and any change that leaves unit `j` up to date and Ready.
   */
  ghost predicate Allowed(g: Goal, j: nat, e: Event)
    requires j < |g.names|
  {
    match e
    case Reconciled(round, reading) =>
      && AssemblesSettled(round, g)
      && (reading.tasks != [] ==> NotAfter(g, j, JoinNames(reading.tasks)))
      && (reading.late.Some? && reading.late.value != [] ==> NotAfter(g, j, JoinNames(reading.late.value)))
    case Changed(units) => UnitInTheWay(units, g, j)
  }

  /** The condition on tasks, unit by unit. */
  lemma TasksNotAfter(g: Goal, j: nat, tasks: seq<string>)
    requires tasks != [] && forall i :: 0 <= i < |tasks| ==> NotAfter(g, j, tasks[i])
    requires forall i :: 0 <= i < |g.names| ==> ',' !in g.names[i]
    ensures NotAfter(g, j, JoinNames(tasks))
  {
    if |tasks| >= 2 { JoinHasComma(tasks); }
  }

  lemma ImageCursor(mem: string, r: Rollout, g: Goal, k: nat, call: Call)
    requires GoodNames(g.names) && PointsAt(mem, g, k) && k + 1 < |g.names| && r.template != g.wanted
    ensures var (r1, outcome) := Reconcile(mem, r, g, call);
            && r1.template == r.template
            && (r1.store.cursor == r.store.cursor || r1.store.cursor == g.names[k]
                || (!outcome.Errored? && r1.store.cursor == g.names[k + 1]))
  {
    IndexOfAt(g.names, k);
    assert g.names[k] in g.names;
    assert Current(mem, g.names) == g.names[k];
  }

  lemma ImageKeepsUnit(mem: string, r: Rollout, g: Goal, j: nat, round: Round)
    requires j < |g.names| && UnitInTheWay(r.store.units, g, j) && AssemblesSettled(round, g)
    ensures UnitInTheWay(Reconcile(mem, r, g, round.call).0.store.units, g, j)
  {
    StillNothingElseNeeded(mem, r, g, round);
    UpToDateKept(mem, r, g, round.call, g.names[j]);
  }

  lemma UpToDateKept(mem: string, r: Rollout, g: Goal, call: Call, n: string)
    requires n in r.store.units && HasVersion(r.store.units[n], g.spec.version)
    ensures var units := Reconcile(mem, r, g, call).0.store.units; n in units && units[n] == r.store.units[n]
  {
  }

  /** For any in-memory cursor: the other passes leave the cursor or clear it, and clear it if its unit is Ready. */
  lemma OthersLeaveOrClear(mem: string, st: Store, g: Goal, round: Round)
    requires NothingElseNeeded(st.units, g)
    ensures var st2 := ApplyPass(ResourcePass, mem, st, g, round.afterResources);
            && (st2 == st || st2 == st.(cursor := ""))
            && (mem != "" && mem in st.units && st.units[mem].phase == Ready ==> st2.cursor == "")
            && ApplyPass(ResizePass, mem, st2, g, round.afterResize) == st2
  {
    NoneNeeding(ResourcePass, g.names, mem, false, st.units, g.spec);
    NoneNeeding(ResizePass, g.names, mem, false, st.units, g.spec);
  }

  lemma RestLeavesOrClears(mem: string, r: Rollout, g: Goal, round: Round, r1: Rollout)
    requires Reconcile(mem, r, g, round.call).0 == r1 && NothingElseNeeded(r1.store.units, g)
    ensures var t := ReconcileAll(mem, r, g, round).rollout;
            var ready := mem != "" && mem in r1.store.units && r1.store.units[mem].phase == Ready;
            && (t == r1 || t == WithCursor(r1, ""))
            && (ready && !Reconcile(mem, r, g, round.call).1.Errored? ==> t.store.cursor == "")
  {
    OthersLeaveOrClear(mem, r1.store, g, round);
  }

  lemma CursorNotAfter(g: Goal, j: nat, k: nat)
    requires GoodNames(g.names) && 1 <= j < |g.names| && k <= j
    ensures NotAfter(g, j, "") && NotAfter(g, j, g.names[k])
    ensures k < j ==> NotAfter(g, j, g.names[k + 1])
  {
    forall i | j < i < |g.names| ensures g.names[i] != "" { assert g.names[i] in g.names; }
  }

  lemma PassesKeepInTheWay(mem: string, r: Rollout, g: Goal, j: nat, round: Round)
    requires InTheWay(r, g, j) && AssemblesSettled(round, g) && NotAfter(g, j, mem)
    ensures InTheWay(ReconcileAll(mem, r, g, round).rollout, g, j)
  {
    var k := if mem in g.names then IndexOf(g.names, mem) else 0;
    var r1 := Reconcile(mem, r, g, round.call).0;
    ImageCursor(mem, r, g, k, round.call);
    ImageKeepsUnit(mem, r, g, j, round);
    RestLeavesOrClears(mem, r, g, round, r1);
    CursorNotAfter(g, j, k);
    assert k == j ==> mem == g.names[j] && mem != "" by { assert g.names[j] in g.names; }
  }

  lemma WholeKeepsInTheWay(r: Rollout, g: Goal, j: nat, round: Round, reading: Reading)
    requires InTheWay(r, g, j) && Allowed(g, j, Event.Reconciled(round, reading))
    ensures InTheWay(Whole(r, g, round, reading).rollout, g, j)
  {
    var mem := Overlay(r.store.cursor, reading.tasks);
    var r0 := if reading.stores then WithCursor(r, mem) else r;
    PassesKeepInTheWay(mem, r0, g, j, round);
  }

  /**
   As long as a unit other than the first and the last one stays up to date and Ready, and no task names a unit after
   it, the rollout does not get past it: whatever calls of the image pass fail, whatever phases rewritten units show,
   and whatever happens to the other units, no number of reconciles replaces the template.
   */
  lemma {:induction false} RolloutNeverEnds(r: Rollout, g: Goal, j: nat, events: seq<Event>)
    requires InTheWay(r, g, j) && forall i :: 0 <= i < |events| ==> Allowed(g, j, events[i])
    ensures InTheWay(AfterAll(r, g, events), g, j) && AfterAll(r, g, events).template != g.wanted
    decreases |events|
  {
    if events != [] {
      assert Allowed(g, j, events[0]);
      if events[0].Reconciled? {
        WholeKeepsInTheWay(r, g, j, events[0].round, events[0].reading);
      }
      RolloutNeverEnds(After(r, g, events[0]), g, j, events[1..]);
    }
  }

  /** The condition on tasks is needed: one task on the last unit makes the image pass finish there and then. */
  lemma TaskOnLastUnitEnds(r: Rollout, g: Goal, j: nat, round: Round, reading: Reading)
    requires InTheWay(r, g, j) && round.call.fault == NoFault
    requires g.names[|g.names| - 1] in r.store.units && reading.tasks == [g.names[|g.names| - 1]]
    ensures Whole(r, g, round, reading).rollout.template == g.wanted
  {
    var last := |g.names| - 1;
    var r0 := if reading.stores then WithCursor(r, g.names[last]) else r;
    ImageAt(g.names[last], r0, g, last, round.call);
  }

  /**
   So is the condition on late writes in `EndsExactly`: if the status step stores its cursor only after the passes, the
   rollout goes back to the unit it had left, and once that unit is Ready, it is in the way for good.
   */
  lemma LateWritePutsUnitInTheWay(r: Rollout, g: Goal, k: nat, round: Round, reading: Reading, units: map<string, Unit>)
    requires At(r, g, k) && 2 <= k && NothingElseNeeded(r.store.units, g) && round.call.fault == NoFault
    requires TaskOfUnitLeft(r, g, k, reading) && !reading.stores && reading.late == Some(reading.tasks)
    requires UnitInTheWay(units, g, k - 1)
    ensures Whole(r, g, round, reading).rollout == WithCursor(r, g.names[k - 1])
    ensures InTheWay(After(Whole(r, g, round, reading).rollout, g, Changed(units)), g, k - 1)
  {
    var mem := g.names[k - 1];
    assert mem in g.names && g.names[k] in g.names;
    TaskRoundFromLeft(r, g, k, r, round);
    OthersOnlyClear(mem, r.store, g, round);
  }
}
