/**
 Termination and convergence of one rolling pass for a fixed target, under any behaviour of the unit phases:
 every reconcile that does something brings the rollout closer to its end.
 */
module RollingConvergence {
  import opened Common
  import opened Cluster
  import opened Passes

  /** How many desired names have an existing unit that still differs from the target. */
  function Differing(pass: Pass, names: seq<string>, units: map<string, Unit>, spec: UnitSetSpec): (d: nat)
    ensures d == 0 <==> forall n :: n in names ==> !NeedyAt(pass, units, n, spec)
    ensures d <= |names|
  {
    if names == [] then 0
    else (if NeedyAt(pass, units, names[0], spec) then 1 else 0) + Differing(pass, names[1..], units, spec)
  }

  /** Where the cursor stands in its cycle. */
  function Stage(pass: Pass, names: seq<string>, spec: UnitSetSpec, st: Store): (r: nat)
    ensures r < 6
  {
    if st.cursor == "" then if Differing(pass, names, st.units, spec) == 0 then 0 else 2
    else if st.cursor !in st.units then 4
    else if !Needs(pass, st.units[st.cursor], spec) then 3
    else if st.cursor in names then 1
    else 5
  }

  /** The pair (units still differing, cursor stage) in lexicographic order, as one number. */
  function Measure(pass: Pass, names: seq<string>, spec: UnitSetSpec, st: Store): nat {
    6 * Differing(pass, names, st.units, spec) + Stage(pass, names, spec, st)
  }

  function Fresh(names: seq<string>, spec: UnitSetSpec, st: Store): Snapshot {
    Snapshot(st.cursor, st.units, names, spec)
  }

  predicate Active(a: Action) {
    a.MoveCursor? || a.Rewrite?
  }

  lemma {:induction false} SettlingReducesDiffering(
    pass: Pass, names: seq<string>, units: map<string, Unit>, spec: UnitSetSpec, n: string, u: Unit)
    requires !Needs(pass, u, spec)
    ensures Differing(pass, names, units[n := u], spec) <= Differing(pass, names, units, spec)
    ensures n in names && NeedyAt(pass, units, n, spec) ==>
              Differing(pass, names, units[n := u], spec) < Differing(pass, names, units, spec)
  {
    if names != [] {
      SettlingReducesDiffering(pass, names[1..], units, spec, n, u);
    }
  }

  lemma SettledAfterRewrite(pass: Pass, u: Unit, spec: UnitSetSpec, after: Phase)
    ensures !Needs(pass, Merged(pass, u, spec).(phase := after), spec)
  {
    ResourceMergeSettles(u, spec);
    ResizeMergeSettles(u, spec);
  }

  /** A rewrite settles the cursor's unit: it leaves fewer desired units differing, or an undesired unit settled. */
  lemma RewriteDecreases(pass: Pass, names: seq<string>, spec: UnitSetSpec, st: Store, after: Phase)
    requires Decide(pass, Fresh(names, spec, st)) == Rewrite(st.cursor) && st.cursor in st.units
    requires st.cursor != "" && Needs(pass, st.units[st.cursor], spec)
    ensures Measure(pass, names, spec, Apply(pass, spec, st, Rewrite(st.cursor), after)) < Measure(pass, names, spec,
            st)
  {
    var u := Merged(pass, st.units[st.cursor], spec).(phase := after);
    SettledAfterRewrite(pass, st.units[st.cursor], spec, after);
    SettlingReducesDiffering(pass, names, st.units, spec, st.cursor, u);
    assert Apply(pass, spec, st, Rewrite(st.cursor), after) == st.(units := st.units[st.cursor := u]);
  }

  /** A cursor moves from an empty, missing or settled unit to one that differs, or to none. */
  lemma MoveDecreases(pass: Pass, names: seq<string>, spec: UnitSetSpec, st: Store, after: Phase)
    requires "" !in names && Decide(pass, Fresh(names, spec, st)).MoveCursor?
    ensures Measure(pass, names, spec, Apply(pass, spec, st, Decide(pass, Fresh(names, spec, st)), after))
          < Measure(pass, names, spec, st)
  {
  }

  /** Every reconcile that neither waits nor is done strictly decreases the measure. */
  lemma ActiveReconcileDecreases(pass: Pass, names: seq<string>, spec: UnitSetSpec, st: Store, after: Phase)
    requires "" !in names
    requires Active(Decide(pass, Fresh(names, spec, st)))
    ensures Measure(pass, names, spec, Apply(pass, spec, st, Decide(pass, Fresh(names, spec, st)), after))
          < Measure(pass, names, spec, st)
  {
    if Decide(pass, Fresh(names, spec, st)).MoveCursor? {
      MoveDecreases(pass, names, spec, st, after);
    } else {
      RewriteDecreases(pass, names, spec, st, after);
    }
  }

  /******* Whole runs *******/

  /** One reconcile: the phases that are read, and the phase a rewritten unit shows afterwards. */
  datatype Round = Round(seen: map<string, Phase>, after: Phase)

  function SeePhases(st: Store, seen: map<string, Phase>): Store {
    st.(units := map n | n in st.units :: if n in seen then st.units[n].(phase := seen[n]) else st.units[n])
  }

  function Reconcile(pass: Pass, names: seq<string>, spec: UnitSetSpec, st: Store, r: Round): Store {
    var now := SeePhases(st, r.seen);
    Apply(pass, spec, now, Decide(pass, Fresh(names, spec, now)), r.after)
  }

  predicate IsActive(pass: Pass, names: seq<string>, spec: UnitSetSpec, st: Store, r: Round) {
    Active(Decide(pass, Fresh(names, spec, SeePhases(st, r.seen))))
  }

  /** The store after all rounds, and how many of them were active. */
  function RunRounds(pass: Pass, names: seq<string>, spec: UnitSetSpec, st: Store, rounds: seq<Round>): (Store, nat)
    decreases |rounds|
  {
    if rounds == [] then (st, 0)
    else
      var (end, active) := RunRounds(pass, names, spec, Reconcile(pass, names, spec, st, rounds[0]), rounds[1..]);
      (end, active + if IsActive(pass, names, spec, st, rounds[0]) then 1 else 0)
  }

  lemma {:induction false} PhasesDoNotMatter(
    pass: Pass, names: seq<string>, units: map<string, Unit>, units': map<string, Unit>, spec: UnitSetSpec)
    requires units.Keys == units'.Keys && forall n :: n in units ==> units'[n].template == units[n].template
    ensures Differing(pass, names, units, spec) == Differing(pass, names, units', spec)
  {
    if names != [] {
      PhasesDoNotMatter(pass, names[1..], units, units', spec);
    }
  }

  lemma SeePhasesKeepsMeasure(pass: Pass, names: seq<string>, spec: UnitSetSpec, st: Store, seen: map<string, Phase>)
    ensures Measure(pass, names, spec, SeePhases(st, seen)) == Measure(pass, names, spec, st)
  {
    var now := SeePhases(st, seen);
    PhasesDoNotMatter(pass, names, st.units, now.units, spec);
    if st.cursor in st.units {
      assert now.units[st.cursor].template == st.units[st.cursor].template;
    }
    assert Stage(pass, names, spec, now) == Stage(pass, names, spec, st);
  }

  /** However phases behave, a run has at most as many active reconciles as its initial measure. */
  lemma {:induction false} BoundedWork(
    pass: Pass, names: seq<string>, spec: UnitSetSpec, st: Store, rounds: seq<Round>)
    requires "" !in names
    ensures var (end, active) := RunRounds(pass, names, spec, st, rounds);
            active + Measure(pass, names, spec, end) <= Measure(pass, names, spec, st) < 6 * |names| + 6
    decreases |rounds|
  {
    if rounds != [] {
      var r := rounds[0];
      var now := SeePhases(st, r.seen);
      SeePhasesKeepsMeasure(pass, names, spec, st, r.seen);
      if IsActive(pass, names, spec, st, r) {
        ActiveReconcileDecreases(pass, names, spec, now, r.after);
      }
      BoundedWork(pass, names, spec, Reconcile(pass, names, spec, st, r), rounds[1..]);
    }
  }

  /** Every existing desired unit equals the target in what the pass is about. */
  ghost predicate AllMatch(pass: Pass, names: seq<string>, units: map<string, Unit>, spec: UnitSetSpec) {
    forall n :: n in names && n in units ==> Matches(pass, units[n], spec)
  }

  /** The end of a rollout; only the resource pass also gives the cursor back. */
  ghost predicate Converged(pass: Pass, names: seq<string>, st: Store, spec: UnitSetSpec) {
    && AllMatch(pass, names, st.units, spec)
    && (pass.ResourcePass? && st.units != map[] ==> st.cursor == "")
  }

  /** The same, by what the pass looks for. */
  ghost predicate NothingToDo(pass: Pass, names: seq<string>, st: Store, spec: UnitSetSpec) {
    && Differing(pass, names, st.units, spec) == 0
    && (pass.ResourcePass? && st.units != map[] ==> st.cursor == "")
  }

  /** Counting what is left to do counts to zero exactly when every existing desired unit matches the target. */
  lemma AllMatchExactly(pass: Pass, names: seq<string>, units: map<string, Unit>, spec: UnitSetSpec)
    ensures Differing(pass, names, units, spec) == 0 <==> AllMatch(pass, names, units, spec)
  {
    NeedsExactlyAll(pass, units, spec);
    assert forall n :: n in units ==> (NeedyAt(pass, units, n, spec) <==> !Matches(pass, units[n], spec));
  }

  lemma ConvergedExactly(pass: Pass, names: seq<string>, st: Store, spec: UnitSetSpec)
    ensures Converged(pass, names, st, spec) <==> NothingToDo(pass, names, st, spec)
  {
    AllMatchExactly(pass, names, st.units, spec);
  }

  lemma DifferingSeesFirst(pass: Pass, names: seq<string>, units: map<string, Unit>, spec: UnitSetSpec)
    requires "" !in names
    ensures Differing(pass, names, units, spec) == 0 <==> FirstNeeding(pass, names, units, spec) == ""
  {
  }

  lemma ActiveWhenDiffering(pass: Pass, names: seq<string>, spec: UnitSetSpec, st: Store)
    requires "" !in names && forall n :: n in st.units ==> st.units[n].phase == Ready
    requires Differing(pass, names, st.units, spec) != 0
    ensures Active(Decide(pass, Fresh(names, spec, st)))
  {
    DifferingSeesFirst(pass, names, st.units, spec);
    assert FirstNeeding(pass, names, st.units, spec) in st.units;
  }

  lemma IdleWhenNothingToDo(pass: Pass, names: seq<string>, spec: UnitSetSpec, st: Store)
    requires "" !in names && forall n :: n in st.units ==> st.units[n].phase == Ready
    ensures !Active(Decide(pass, Fresh(names, spec, st))) <==> NothingToDo(pass, names, st, spec)
  {
    if Differing(pass, names, st.units, spec) != 0 {
      ActiveWhenDiffering(pass, names, spec, st);
    } else {
      DifferingSeesFirst(pass, names, st.units, spec);
    }
  }

  lemma NothingToDoWhateverPhases(
    pass: Pass, names: seq<string>, spec: UnitSetSpec, st: Store, seen: map<string, Phase>)
    ensures NothingToDo(pass, names, SeePhases(st, seen), spec) <==> NothingToDo(pass, names, st, spec)
  {
    var now := SeePhases(st, seen);
    PhasesDoNotMatter(pass, names, st.units, now.units, spec);
    assert now.units == map[] <==> now.units.Keys == {};
    assert st.units == map[] <==> st.units.Keys == {};
  }

  ghost predicate AllReady(st: Store, seen: map<string, Phase>) {
    forall n :: n in st.units ==> n in seen && seen[n] == Ready
  }

  /** A reconcile that finds all units Ready is active exactly when the rollout has not converged. */
  lemma IdleExactlyWhenConverged(pass: Pass, names: seq<string>, spec: UnitSetSpec, st: Store, r: Round)
    requires "" !in names && AllReady(st, r.seen)
    ensures !IsActive(pass, names, spec, st, r) <==> Converged(pass, names, st, spec)
  {
    ConvergedExactly(pass, names, st, spec);
    NothingToDoWhateverPhases(pass, names, spec, st, r.seen);
    IdleWhenNothingToDo(pass, names, spec, SeePhases(st, r.seen));
  }

  /** Each round of `rounds` finds the units of the store it starts from Ready. */
  ghost predicate UnitsComeBack(pass: Pass, names: seq<string>, spec: UnitSetSpec, st: Store, rounds: seq<Round>)
    decreases |rounds|
  {
    rounds == [] ||
    (AllReady(st, rounds[0].seen) &&
     UnitsComeBack(pass, names, spec, Reconcile(pass, names, spec, st, rounds[0]), rounds[1..]))
  }

  lemma NothingToResize(names: seq<string>, spec: UnitSetSpec, st: Store, r: Round)
    requires Differing(ResizePass, names, st.units, spec) == 0
    ensures Reconcile(ResizePass, names, spec, st, r) == SeePhases(st, r.seen)
    ensures Differing(ResizePass, names, SeePhases(st, r.seen).units, spec) == 0
  {
    var now := SeePhases(st, r.seen);
    PhasesDoNotMatter(ResizePass, names, st.units, now.units, spec);
    assert FirstNeeding(ResizePass, names, now.units, spec) == "";
  }

  /** Only a rewrite, which leaves the cursor on its unit, can bring the last unit in line. */
  lemma LastResizeKeepsCursor(names: seq<string>, spec: UnitSetSpec, now: Store, after: Phase)
    requires Differing(ResizePass, names, now.units, spec) != 0
    ensures var next := Apply(ResizePass, spec, now, Decide(ResizePass, Fresh(names, spec, now)), after);
            Differing(ResizePass, names, next.units, spec) == 0 ==> next.cursor != ""
  {
    var a := Decide(ResizePass, Fresh(names, spec, now));
    if !a.Rewrite? {
      assert Apply(ResizePass, spec, now, a, after).units == now.units;
    }
  }

  lemma ResizeRound(names: seq<string>, spec: UnitSetSpec, st: Store, r: Round)
    ensures var next := Reconcile(ResizePass, names, spec, st, r);
            if Differing(ResizePass, names, st.units, spec) == 0
            then next.cursor == st.cursor && Differing(ResizePass, names, next.units, spec) == 0
            else Differing(ResizePass, names, next.units, spec) == 0 ==> next.cursor != ""
  {
    if Differing(ResizePass, names, st.units, spec) == 0 {
      NothingToResize(names, spec, st, r);
    } else {
      var now := SeePhases(st, r.seen);
      PhasesDoNotMatter(ResizePass, names, st.units, now.units, spec);
      LastResizeKeepsCursor(names, spec, now, r.after);
    }
  }

  /**
   A run of the resize pass that reaches its end has an empty cursor exactly if it started so and had nothing to do.
   */
  lemma {:induction false} ResizeLeavesCursor(names: seq<string>, spec: UnitSetSpec, st: Store, rounds: seq<Round>)
    requires "" !in names
    ensures var end := RunRounds(ResizePass, names, spec, st, rounds).0;
            AllMatch(ResizePass, names, end.units, spec) ==>
              (end.cursor == "" <==> st.cursor == "" && AllMatch(ResizePass, names, st.units, spec))
    decreases |rounds|
  {
    AllMatchExactly(ResizePass, names, st.units, spec);
    if rounds != [] {
      ResizeRound(names, spec, st, rounds[0]);
      AllMatchExactly(ResizePass, names, Reconcile(ResizePass, names, spec, st, rounds[0]).units, spec);
      ResizeLeavesCursor(names, spec, Reconcile(ResizePass, names, spec, st, rounds[0]), rounds[1..]);
    }
  }

  /** If units come back to Ready between reconciles, six reconciles per desired unit and five more always suffice. */
  lemma {:induction false} Converges(
    pass: Pass, names: seq<string>, spec: UnitSetSpec, st: Store, rounds: seq<Round>)
    requires "" !in names
    requires UnitsComeBack(pass, names, spec, st, rounds)
    requires |rounds| >= Measure(pass, names, spec, st)
    ensures var end := RunRounds(pass, names, spec, st, rounds).0;
            && Converged(pass, names, end, spec)
            && (pass.ResizePass? ==>
                  (end.cursor == "" <==> st.cursor == "" && AllMatch(pass, names, st.units, spec)))
    decreases |rounds|
  {
    if pass.ResizePass? { ResizeLeavesCursor(names, spec, st, rounds); }
    if rounds == [] {
      return;
    }
    var r := rounds[0];
    var now, next := SeePhases(st, r.seen), Reconcile(pass, names, spec, st, r);
    SeePhasesKeepsMeasure(pass, names, spec, st, r.seen);
    IdleExactlyWhenConverged(pass, names, spec, st, r);
    if IsActive(pass, names, spec, st, r) {
      ActiveReconcileDecreases(pass, names, spec, now, r.after);
      Converges(pass, names, spec, next, rounds[1..]);
    } else {
      assert next == now;
      StaysConverged(pass, names, spec, next, rounds[1..]);
    }
  }

  lemma ConvergedIsLeftAlone(pass: Pass, names: seq<string>, spec: UnitSetSpec, st: Store, after: Phase)
    requires "" !in names && NothingToDo(pass, names, st, spec)
    ensures Apply(pass, spec, st, Decide(pass, Fresh(names, spec, st)), after) == st
  {
    DifferingSeesFirst(pass, names, st.units, spec);
  }

  lemma {:induction false} StaysConverged(
    pass: Pass, names: seq<string>, spec: UnitSetSpec, st: Store, rounds: seq<Round>)
    requires "" !in names && Converged(pass, names, st, spec)
    ensures Converged(pass, names, RunRounds(pass, names, spec, st, rounds).0, spec)
    decreases |rounds|
  {
    if rounds != [] {
      var now := SeePhases(st, rounds[0].seen);
      ConvergedExactly(pass, names, st, spec);
      NothingToDoWhateverPhases(pass, names, spec, st, rounds[0].seen);
      ConvergedIsLeftAlone(pass, names, spec, now, rounds[0].after);
      ConvergedExactly(pass, names, now, spec);
      StaysConverged(pass, names, spec, Reconcile(pass, names, spec, st, rounds[0]), rounds[1..]);
    }
  }

  /** The smallest case: two reconciles bring the only unit in line, and leave its name in the cursor. */
  lemma ResizeCursorStays(name: string, spec: UnitSetSpec, u: Unit, after: Phase)
    requires name != "" && u.phase == Ready && Needs(ResizePass, u, spec)
    ensures var round := Round(map[name := Ready], after);
            var end := RunRounds(ResizePass, [name], spec, Store("", map[name := u]), [round, round]).0;
            end == Store(name, map[name := Merged(ResizePass, u, spec).(phase := after)])
  {
    var round, names := Round(map[name := Ready], after), [name];
    var st, st1 := Store("", map[name := u]), Store(name, map[name := u]);
    var st2 := Store(name, map[name := Merged(ResizePass, u, spec).(phase := after)]);
    assert SeePhases(st, round.seen) == st && SeePhases(st1, round.seen) == st1;
    assert FirstNeeding(ResizePass, names, map[name := u], spec) == name;
    assert Reconcile(ResizePass, names, spec, st, round) == st1;
    assert Reconcile(ResizePass, names, spec, st1, round) == st2;
    assert [round, round][1..] == [round] && [round][1..] == [];
    assert RunRounds(ResizePass, names, spec, st1, [round]).0 == RunRounds(ResizePass, names, spec, st2, []).0;
  }
}
