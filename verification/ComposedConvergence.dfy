/**
 Progress of a unit set's whole reconcile once the image pass has nothing to do: the resource and the resize-policy
 pass share one cursor, and still bring every existing desired unit in line in a bounded number of reconciles.
 */
module ComposedConvergence {
  import opened Common
  import opened Cluster
  import opened Passes
  import opened ImageRollout
  import opened Composition
  import opened ComposedRuns
  import Rolling = RollingConvergence

  /** One reconcile: the phases that are read, and its other inputs. */
  datatype Turn = Turn(seen: map<string, Phase>, round: Round, reading: Reading)

  function Next(r: Rollout, g: Goal, t: Turn): Rollout {
    Whole(r.(store := Rolling.SeePhases(r.store, t.seen)), g, t.round, t.reading).rollout
  }

  function AfterTurns(r: Rollout, g: Goal, turns: seq<Turn>): Rollout
    decreases |turns|
  {
    if turns == [] then r else AfterTurns(Next(r, g, turns[0]), g, turns[1..])
  }

  /** All units are read as Ready, and no unit has a task when the status steps look. */
  ghost predicate Undisturbed(r: Rollout, t: Turn) {
    && Rolling.AllReady(r.store, t.seen)
    && t.reading.tasks == [] && (t.reading.late == None || t.reading.late == Some([]))
  }

  ghost predicate UndisturbedRun(r: Rollout, g: Goal, turns: seq<Turn>)
    decreases |turns|
  {
    turns == [] || (Undisturbed(r, turns[0]) && UndisturbedRun(Next(r, g, turns[0]), g, turns[1..]))
  }

  ghost predicate AllUnitsReady(st: Store) {
    forall n :: n in st.units ==> st.units[n].phase == Ready
  }

  /** The two passes, one after the other, with the cursor they both find in memory. */
  function BothPasses(st: Store, g: Goal, round: Round): Store {
    ApplyPass(ResizePass, st.cursor, ApplyPass(ResourcePass, st.cursor, st, g, round.afterResources),
              g, round.afterResize)
  }

  lemma WholeIsBothPasses(r: Rollout, g: Goal, round: Round, reading: Reading)
    requires r.template == g.wanted
    requires reading.tasks == [] && (reading.late == None || reading.late == Some([]))
    ensures Whole(r, g, round, reading).rollout == Rollout(BothPasses(r.store, g, round), g.wanted)
  {
    var mem := r.store.cursor;
    assert WithCursor(r, mem) == r;
    var t := ReconcileAll(mem, r, g, round);
    assert t.rollout == Rollout(BothPasses(r.store, g, round), g.wanted);
    if !CursorWritten(mem, r, g, round) {
      assert t.rollout.store.cursor == mem;
      assert WithCursor(t.rollout, mem) == t.rollout;
    }
  }

  /******* What each pass does when it finds all units Ready *******/

  lemma ResourcePart(st: Store, g: Goal, after: Phase)
    requires "" !in g.names && AllUnitsReady(st) && st.units != map[]
    ensures var c, st2 := st.cursor, ApplyPass(ResourcePass, st.cursor, st, g, after);
            st2 ==
            if c == "" then st.(cursor := FirstNeeding(ResourcePass, g.names, st.units, g.spec))
            else if c !in st.units then st.(cursor := "")
            else if Needs(ResourcePass, st.units[c], g.spec)
            then st.(units := st.units[c := Merged(ResourcePass, st.units[c], g.spec).(phase := after)])
            else st.(cursor := NextNeeding(ResourcePass, g.names, c, false, st.units, g.spec))
  {
  }

  lemma ResizePart(c: string, st: Store, g: Goal, after: Phase)
    requires "" !in g.names && st.units != map[]
    ensures var st2 := ApplyPass(ResizePass, c, st, g, after);
            var first := FirstNeeding(ResizePass, g.names, st.units, g.spec);
            st2 ==
            if first == "" then st
            else if c == "" then st.(cursor := first)
            else if c !in st.units then st.(cursor := "")
            else if st.units[c].phase != Ready then st
            else if Needs(ResizePass, st.units[c], g.spec)
            then st.(units := st.units[c := Merged(ResizePass, st.units[c], g.spec).(phase := after)])
            else st.(cursor := NextNeeding(ResizePass, g.names, c, false, st.units, g.spec))
  {
  }

  /******* Single steps *******/

  /** Every existing desired unit equals the target in resources and in resize policy. */
  ghost predicate AllInLine(g: Goal, units: map<string, Unit>) {
    Rolling.AllMatch(ResourcePass, g.names, units, g.spec) && Rolling.AllMatch(ResizePass, g.names, units, g.spec)
  }

  /**
   From an empty cursor, the reconcile names the first unit that the resize pass is to bring in line, or else the first
   for the resource pass, or none. It writes no unit.
   */
  lemma EmptyCursorNamesFirst(st: Store, g: Goal, round: Round)
    requires "" !in g.names && AllUnitsReady(st) && st.cursor == ""
    ensures var st' := BothPasses(st, g, round);
            && st'.units == st.units
            && (forall i: nat :: FirstOutdated(ResizePass, g.names, 0, i, st.units, g.spec) ==>
                  st'.cursor == g.names[i])
            && (Rolling.AllMatch(ResizePass, g.names, st.units, g.spec) ==>
                  forall i: nat :: FirstOutdated(ResourcePass, g.names, 0, i, st.units, g.spec) ==>
                    st'.cursor == g.names[i])
            && (AllInLine(g, st.units) ==> st'.cursor == "")
  {
    assert g.names[0..] == g.names;
    FirstNeedingExactly(ResizePass, g.names, 0, st.units, g.spec);
    FirstNeedingExactly(ResourcePass, g.names, 0, st.units, g.spec);
    if st.units != map[] {
      ResourcePart(st, g, round.afterResources);
      ResizePart("", ApplyPass(ResourcePass, "", st, g, round.afterResources), g, round.afterResize);
    }
  }

  lemma MatchesAfter(u: Unit, g: Goal, after: Phase)
    ensures Matches(ResourcePass, Merged(ResourcePass, u, g.spec).(phase := after), g.spec)
    ensures Matches(ResizePass, Merged(ResizePass, u, g.spec).(phase := after), g.spec)
    ensures Matches(ResizePass, Merged(ResourcePass, u, g.spec).(phase := after), g.spec)
        <==> Matches(ResizePass, u, g.spec)
    ensures Matches(ResourcePass, Merged(ResizePass, u, g.spec).(phase := after), g.spec)
        <==> Matches(ResourcePass, u, g.spec)
  {
    var v, w := Merged(ResourcePass, u, g.spec).(phase := after), Merged(ResizePass, u, g.spec).(phase := after);
    SettledBy(ResourcePass, ResizePass, u, g.spec, after);
    SettledBy(ResizePass, ResourcePass, u, g.spec, after);
    NeedsExactly(ResourcePass, u, g.spec);
    NeedsExactly(ResizePass, u, g.spec);
    NeedsExactly(ResourcePass, v, g.spec);
    NeedsExactly(ResizePass, v, g.spec);
    NeedsExactly(ResourcePass, w, g.spec);
    NeedsExactly(ResizePass, w, g.spec);
  }

  lemma SettledBy(pass: Pass, other: Pass, u: Unit, spec: UnitSetSpec, after: Phase)
    requires other != pass
    ensures var m := Merged(pass, u, spec).(phase := after);
            !Needs(pass, m, spec) && Needs(other, m, spec) == Needs(other, u, spec)
  {
    MergeSettles(pass, other, u, spec);
    NeedsSeesTemplateOnly(pass, Merged(pass, u, spec), Merged(pass, u, spec).(phase := after), spec);
    NeedsSeesTemplateOnly(other, Merged(pass, u, spec), Merged(pass, u, spec).(phase := after), spec);
  }

  /**
   The unit that the cursor names is brought in line: in its resources at once, and in its resize policy by the same
   reconcile exactly if it is read as Ready once more, and some desired unit is not in line.
   */
  lemma CursorUnitBroughtInLine(st: Store, g: Goal, round: Round)
    requires "" !in g.names && AllUnitsReady(st) && st.cursor != "" && st.cursor in st.units
    ensures var c, st' := st.cursor, BothPasses(st, g, round);
            && st'.units.Keys == st.units.Keys && (forall n :: n in st.units && n != c ==> st'.units[n] == st.units[n])
            && Matches(ResourcePass, st'.units[c], g.spec)
            && (Matches(ResizePass, st'.units[c], g.spec) <==>
                  || Matches(ResizePass, st.units[c], g.spec)
                  || (&& !Rolling.AllMatch(ResizePass, g.names, st.units, g.spec)
                      && (Matches(ResourcePass, st.units[c], g.spec) || round.afterResources == Ready)))
  {
    ResourcesInLine(st, g, round.afterResources);
    PolicyInLine(st.cursor, ApplyPass(ResourcePass, st.cursor, st, g, round.afterResources), g, round.afterResize);
  }

  lemma ResourcesInLine(st: Store, g: Goal, after: Phase)
    requires "" !in g.names && AllUnitsReady(st) && st.cursor != "" && st.cursor in st.units
    ensures var c, st' := st.cursor, ApplyPass(ResourcePass, st.cursor, st, g, after);
            && st'.units.Keys == st.units.Keys && (forall n :: n in st.units && n != c ==> st'.units[n] == st.units[n])
            && Matches(ResourcePass, st'.units[c], g.spec)
            && (Matches(ResizePass, st'.units[c], g.spec) <==> Matches(ResizePass, st.units[c], g.spec))
            && (st'.units[c].phase == Ready <==> Matches(ResourcePass, st.units[c], g.spec) || after == Ready)
            && (Rolling.AllMatch(ResizePass, g.names, st'.units, g.spec) <==>
                Rolling.AllMatch(ResizePass, g.names, st.units, g.spec))
  {
    ResourcePart(st, g, after);
    NeedsExactly(ResourcePass, st.units[st.cursor], g.spec);
    MatchesAfter(st.units[st.cursor], g, after);
  }

  lemma PolicyInLine(c: string, st: Store, g: Goal, after: Phase)
    requires "" !in g.names && c != "" && c in st.units
    ensures var st' := ApplyPass(ResizePass, c, st, g, after);
            && st'.units.Keys == st.units.Keys && (forall n :: n in st.units && n != c ==> st'.units[n] == st.units[n])
            && (Matches(ResourcePass, st'.units[c], g.spec) <==> Matches(ResourcePass, st.units[c], g.spec))
            && (Matches(ResizePass, st'.units[c], g.spec) <==>
                  || Matches(ResizePass, st.units[c], g.spec)
                  || (!Rolling.AllMatch(ResizePass, g.names, st.units, g.spec) && st.units[c].phase == Ready))
  {
    ResizePart(c, st, g, after);
    NeedsExactly(ResizePass, st.units[c], g.spec);
    MatchesAfter(st.units[c], g, after);
    Rolling.AllMatchExactly(ResizePass, g.names, st.units, g.spec);
    Rolling.DifferingSeesFirst(ResizePass, g.names, st.units, g.spec);
  }

  /******* The measure *******/

  /** How many times a unit still has to be brought in line. */
  function Left(units: map<string, Unit>, g: Goal): nat {
    Rolling.Differing(ResourcePass, g.names, units, g.spec) + Rolling.Differing(ResizePass, g.names, units, g.spec)
  }

  function NeedCount(u: Unit, spec: UnitSetSpec): nat {
    (if Needs(ResourcePass, u, spec) then 1 else 0) + (if Needs(ResizePass, u, spec) then 1 else 0)
  }

  function Stage(st: Store, g: Goal): (r: nat)
    ensures r < 6
  {
    if st.cursor == "" then if Left(st.units, g) == 0 then 0 else 2
    else if st.cursor !in st.units || NeedCount(st.units[st.cursor], g.spec) == 0 then 3
    else if st.cursor in g.names then 1
    else 3 + NeedCount(st.units[st.cursor], g.spec)
  }

  function Measure(st: Store, g: Goal): nat {
    6 * Left(st.units, g) + Stage(st, g)
  }

  lemma {:induction false} SameNeedsSameCount(
    pass: Pass, names: seq<string>, units: map<string, Unit>, units': map<string, Unit>, spec: UnitSetSpec)
    requires forall n :: NeedyAt(pass, units', n, spec) == NeedyAt(pass, units, n, spec)
    ensures Rolling.Differing(pass, names, units', spec) == Rolling.Differing(pass, names, units, spec)
  {
    if names != [] {
      SameNeedsSameCount(pass, names[1..], units, units', spec);
    }
  }

  /** A pass that rewrites a unit brings it in line, and takes one off what is left if the unit is desired. */
  lemma RewriteReduces(pass: Pass, other: Pass, units: map<string, Unit>, c: string, g: Goal, after: Phase)
    requires other != pass && c in units && Needs(pass, units[c], g.spec)
    ensures var v := Merged(pass, units[c], g.spec).(phase := after);
            var units' := units[c := v];
            && NeedCount(v, g.spec) == NeedCount(units[c], g.spec) - 1
            && Left(units', g) <= Left(units, g)
            && (c in g.names ==> Left(units', g) < Left(units, g))
  {
    var v := Merged(pass, units[c], g.spec).(phase := after);
    SettledBy(pass, other, units[c], g.spec, after);
    Rolling.SettlingReducesDiffering(pass, g.names, units, g.spec, c, v);
    SameNeedsSameCount(other, g.names, units, units[c := v], g.spec);
  }

  lemma NamedIsNeedy(pass: Pass, st: Store, g: Goal, to: string)
    requires to == "" || (to in g.names && NeedyAt(pass, st.units, to, g.spec))
    ensures Stage(st.(cursor := to), g) <= 2
  {
  }

  lemma FromEmpty(st: Store, g: Goal, round: Round)
    requires "" !in g.names && AllUnitsReady(st) && st.units != map[] && st.cursor == ""
    ensures var st' := BothPasses(st, g, round);
            Measure(st', g) < Measure(st, g) || (Measure(st, g) == 0 && st' == st)
  {
    ResourcePart(st, g, round.afterResources);
    ResizePart("", ApplyPass(ResourcePass, "", st, g, round.afterResources), g, round.afterResize);
    Rolling.DifferingSeesFirst(ResourcePass, g.names, st.units, g.spec);
    Rolling.DifferingSeesFirst(ResizePass, g.names, st.units, g.spec);
  }

  lemma FromMissing(st: Store, g: Goal, round: Round)
    requires "" !in g.names && AllUnitsReady(st) && st.units != map[] && st.cursor != "" && st.cursor !in st.units
    ensures BothPasses(st, g, round) == st.(cursor := "")
    ensures Measure(BothPasses(st, g, round), g) < Measure(st, g)
  {
    ResourcePart(st, g, round.afterResources);
    ResizePart(st.cursor, ApplyPass(ResourcePass, st.cursor, st, g, round.afterResources), g, round.afterResize);
  }

  /** The cursor's unit needs the resource pass, which rewrites it before the other pass looks at it. */
  lemma FromNeedingResources(st: Store, g: Goal, round: Round)
    requires "" !in g.names && AllUnitsReady(st) && st.cursor != "" && st.cursor in st.units
    requires Needs(ResourcePass, st.units[st.cursor], g.spec)
    ensures Measure(BothPasses(st, g, round), g) < Measure(st, g)
  {
    var c := st.cursor;
    ResourcePart(st, g, round.afterResources);
    var st2 := ApplyPass(ResourcePass, c, st, g, round.afterResources);
    RewriteReduces(ResourcePass, ResizePass, st.units, c, g, round.afterResources);
    ResizePart(c, st2, g, round.afterResize);
    if c !in g.names { NoneAfterUndesired(ResizePass, g.names, c, st2.units, g.spec); }
    if Needs(ResizePass, st2.units[c], g.spec) {
      RewriteReduces(ResizePass, ResourcePass, st2.units, c, g, round.afterResize);
    }
  }

  lemma FromUpToDate(st: Store, g: Goal, round: Round)
    requires "" !in g.names && AllUnitsReady(st) && st.cursor != "" && st.cursor in st.units
    requires NeedCount(st.units[st.cursor], g.spec) == 0
    ensures Measure(BothPasses(st, g, round), g) < Measure(st, g)
  {
    var c := st.cursor;
    ResourcePart(st, g, round.afterResources);
    var st2 := ApplyPass(ResourcePass, c, st, g, round.afterResources);
    ResizePart(c, st2, g, round.afterResize);
    var st3 := ApplyPass(ResizePass, c, st2, g, round.afterResize);
    NamedIsNeedy(if st3 == st2 then ResourcePass else ResizePass, st, g, st3.cursor);
  }

  lemma FromNeedingPolicy(st: Store, g: Goal, round: Round)
    requires "" !in g.names && AllUnitsReady(st) && st.cursor != "" && st.cursor in st.units
    requires !Needs(ResourcePass, st.units[st.cursor], g.spec) && Needs(ResizePass, st.units[st.cursor], g.spec)
    ensures Measure(BothPasses(st, g, round), g) < Measure(st, g)
  {
    var c := st.cursor;
    ResourcePart(st, g, round.afterResources);
    var st2 := ApplyPass(ResourcePass, c, st, g, round.afterResources);
    ResizePart(c, st2, g, round.afterResize);
    RewriteReduces(ResizePass, ResourcePass, st.units, c, g, round.afterResize);
    if c in g.names {
      assert NeedyAt(ResizePass, st.units, c, g.spec);
      assert FirstNeeding(ResizePass, g.names, st.units, g.spec) != "";
    } else {
      NoneAfterUndesired(ResourcePass, g.names, c, st.units, g.spec);
    }
  }

  lemma BothPassesProgress(st: Store, g: Goal, round: Round)
    requires "" !in g.names && AllUnitsReady(st) && st.units != map[]
    ensures var st' := BothPasses(st, g, round);
            Measure(st', g) < Measure(st, g) || (Measure(st, g) == 0 && st' == st)
  {
    if st.cursor == "" {
      FromEmpty(st, g, round);
    } else if st.cursor !in st.units {
      FromMissing(st, g, round);
    } else if Needs(ResourcePass, st.units[st.cursor], g.spec) {
      FromNeedingResources(st, g, round);
    } else if Needs(ResizePass, st.units[st.cursor], g.spec) {
      FromNeedingPolicy(st, g, round);
    } else {
      FromUpToDate(st, g, round);
    }
  }

  /******* Whole runs *******/

  lemma SeenKeepsLeft(st: Store, g: Goal, seen: map<string, Phase>)
    ensures Left(Rolling.SeePhases(st, seen).units, g) == Left(st.units, g)
  {
    var now := Rolling.SeePhases(st, seen);
    Rolling.PhasesDoNotMatter(ResourcePass, g.names, st.units, now.units, g.spec);
    Rolling.PhasesDoNotMatter(ResizePass, g.names, st.units, now.units, g.spec);
  }

  lemma SeenKeepsMeasure(st: Store, g: Goal, seen: map<string, Phase>)
    ensures Measure(Rolling.SeePhases(st, seen), g) == Measure(st, g)
  {
    var now := Rolling.SeePhases(st, seen);
    SeenKeepsLeft(st, g, seen);
    assert st.cursor in now.units <==> st.cursor in st.units;
    if st.cursor in st.units {
      NeedsSeesTemplateOnly(ResourcePass, now.units[st.cursor], st.units[st.cursor], g.spec);
      NeedsSeesTemplateOnly(ResizePass, now.units[st.cursor], st.units[st.cursor], g.spec);
    }
  }

  lemma TurnKeepsUnits(r: Rollout, g: Goal, t: Turn)
    requires r.template == g.wanted && Undisturbed(r, t)
    ensures var now, r' := Rolling.SeePhases(r.store, t.seen), Next(r, g, t);
            && r' == Rollout(BothPasses(now, g, t.round), g.wanted)
            && r'.store.units.Keys == r.store.units.Keys
  {
    var now := Rolling.SeePhases(r.store, t.seen);
    WholeIsBothPasses(r.(store := now), g, t.round, t.reading);
    assert now.units.Keys == r.store.units.Keys;
    PassWritesOnly(ResourcePass, now.cursor, now, g, t.round.afterResources);
    var st2 := ApplyPass(ResourcePass, now.cursor, now, g, t.round.afterResources);
    PassWritesOnly(ResizePass, now.cursor, st2, g, t.round.afterResize);
  }

  /** A reconcile that finds all units Ready gets closer to the end, or was there. */
  lemma TurnProgresses(r: Rollout, g: Goal, t: Turn)
    requires "" !in g.names && r.template == g.wanted && r.store.units != map[] && Undisturbed(r, t)
    ensures var before, after := Measure(r.store, g), Measure(Next(r, g, t).store, g);
            after < before || (before == 0 && after == 0)
  {
    var now := Rolling.SeePhases(r.store, t.seen);
    SeenKeepsMeasure(r.store, g, t.seen);
    TurnKeepsUnits(r, g, t);
    assert now.units.Keys == r.store.units.Keys;
    NotEmpty(r.store.units, now.units);
    BothPassesProgress(now, g, t.round);
  }

  lemma NotEmpty(units: map<string, Unit>, units': map<string, Unit>)
    requires units.Keys == units'.Keys && units != map[]
    ensures units' != map[]
  {
    assert units.Keys != {};
  }

  lemma {:induction false} MeasureRunsOut(r: Rollout, g: Goal, turns: seq<Turn>)
    requires "" !in g.names && r.template == g.wanted && r.store.units != map[]
    requires UndisturbedRun(r, g, turns) && |turns| >= Measure(r.store, g)
    ensures Measure(AfterTurns(r, g, turns).store, g) == 0
    decreases |turns|
  {
    if turns != [] {
      var r' := Next(r, g, turns[0]);
      TurnProgresses(r, g, turns[0]);
      TurnKeepsUnits(r, g, turns[0]);
      NotEmpty(r.store.units, r'.store.units);
      MeasureRunsOut(r', g, turns[1..]);
    }
  }

  /**
   With the image pass idle, units that come back to Ready between reconciles and no task in the way, the whole
   reconcile ends within twelve turns per desired unit and five more: every existing desired unit equals the target in
   resources and in resize policy, and the cursor is given back unless there is no unit at all.
   */
  lemma WholeReconcileConverges(r: Rollout, g: Goal, turns: seq<Turn>)
    requires "" !in g.names && r.template == g.wanted
    requires UndisturbedRun(r, g, turns) && |turns| >= 12 * |g.names| + 5
    ensures var end := AfterTurns(r, g, turns);
            && end.template == g.wanted && end.store.units.Keys == r.store.units.Keys
            && AllInLine(g, end.store.units)
            && (r.store.units != map[] ==> end.store.cursor == "")
  {
    TurnsKeepUnits(r, g, turns);
    if r.store.units != map[] {
      MeasureBounded(r.store, g);
      MeasureRunsOut(r, g, turns);
      MeasureAtEnd(AfterTurns(r, g, turns).store, g);
    }
  }

  lemma MeasureBounded(st: Store, g: Goal)
    ensures Measure(st, g) <= 12 * |g.names| + 5
  {
  }

  lemma MeasureAtEnd(st: Store, g: Goal)
    requires Measure(st, g) == 0
    ensures AllInLine(g, st.units) && st.cursor == ""
  {
    Rolling.AllMatchExactly(ResourcePass, g.names, st.units, g.spec);
    Rolling.AllMatchExactly(ResizePass, g.names, st.units, g.spec);
  }

  lemma {:induction false} TurnsKeepUnits(r: Rollout, g: Goal, turns: seq<Turn>)
    requires r.template == g.wanted && UndisturbedRun(r, g, turns)
    ensures AfterTurns(r, g, turns).template == g.wanted
    ensures AfterTurns(r, g, turns).store.units.Keys == r.store.units.Keys
    decreases |turns|
  {
    if turns != [] {
      TurnKeepsUnits(r, g, turns[0]);
      TurnsKeepUnits(Next(r, g, turns[0]), g, turns[1..]);
    }
  }

  /** Once there, nothing changes any more but the phases. */
  lemma IdleExactlyInLine(st: Store, g: Goal, round: Round)
    requires "" !in g.names && AllUnitsReady(st)
    ensures BothPasses(st, g, round) == st <==> st.units == map[] || (AllInLine(g, st.units) && st.cursor == "")
  {
    Rolling.AllMatchExactly(ResourcePass, g.names, st.units, g.spec);
    Rolling.AllMatchExactly(ResizePass, g.names, st.units, g.spec);
    if st.units != map[] { BothPassesProgress(st, g, round); }
  }
}
