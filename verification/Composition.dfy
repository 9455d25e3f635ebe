/**
 One reconcile of a unit set runs the image, the resource and the resize-policy pass in this order. All three read the
 cursor of the in-memory unit set and write the persisted one.
 */
module Composition {
  import opened Common
  import opened Cluster
  import opened Passes
  import opened ImageRollout

  /**
   The inputs of one reconcile besides the persisted state: the image call and the phases later writes leave behind.
   */
  datatype Round = Round(call: Call, afterResources: Phase, afterResize: Phase)

  /** The persisted state and the names of the units whose pod template was written, after each pass. */
  datatype Trace = Trace(rollout: Rollout, written: set<string>)

  function WrittenByImage(mem: string, r: Rollout, g: Goal, call: Call): set<string> {
    if r.template == g.wanted || g.names == [] then {}
    else
      var current := Current(mem, g.names);
      if || (mem !in g.names && call.fault.StartWrite?)
         || call.fault.ReadUnit? || current !in r.store.units
         || HasVersion(r.store.units[current], g.spec.version)
         || call.fault.WriteUnit?
      then {} else {current}
  }

  function WrittenByPass(pass: Pass, mem: string, st: Store, g: Goal): set<string> {
    var a := Decide(pass, Snapshot(mem, st.units, g.names, g.spec));
    if a.Rewrite? && WillWrite(pass, g.spec, st, a.name) then {a.name} else {}
  }

  function ApplyPass(pass: Pass, mem: string, st: Store, g: Goal, after: Phase): Store {
    Apply(pass, g.spec, st, Decide(pass, Snapshot(mem, st.units, g.names, g.spec)), after)
  }

  function ReconcileAll(mem: string, r: Rollout, g: Goal, round: Round): Trace {
    var (r1, outcome) := Reconcile(mem, r, g, round.call);
    var w1 := WrittenByImage(mem, r, g, round.call);
    if outcome.Errored? then Trace(r1, w1)
    else
      var st2 := ApplyPass(ResourcePass, mem, r1.store, g, round.afterResources);
      var w2 := WrittenByPass(ResourcePass, mem, r1.store, g);
      var st3 := ApplyPass(ResizePass, mem, st2, g, round.afterResize);
      var w3 := WrittenByPass(ResizePass, mem, st2, g);
      Trace(Rollout(st3, r1.template), w1 + w2 + w3)
  }

  ghost predicate OnlyThese(written: set<string>, before: map<string, Unit>, after: map<string, Unit>) {
    && after.Keys == before.Keys
    && forall n :: n in before && n !in written ==> after[n].template == before[n].template
  }

  lemma ImageWritesOnly(mem: string, r: Rollout, g: Goal, call: Call)
    ensures OnlyThese(WrittenByImage(mem, r, g, call), r.store.units, Reconcile(mem, r, g, call).0.store.units)
  {
  }

  lemma PassWritesOnly(pass: Pass, mem: string, st: Store, g: Goal, after: Phase)
    ensures OnlyThese(WrittenByPass(pass, mem, st, g), st.units, ApplyPass(pass, mem, st, g, after).units)
  {
  }

  /** `written` misses nothing: the template of every other unit is untouched. */
  lemma WrittenIsComplete(mem: string, r: Rollout, g: Goal, round: Round)
    ensures var t := ReconcileAll(mem, r, g, round);
            OnlyThese(t.written, r.store.units, t.rollout.store.units)
  {
    ImageWritesOnly(mem, r, g, round.call);
    var r1 := Reconcile(mem, r, g, round.call).0;
    PassWritesOnly(ResourcePass, mem, r1.store, g, round.afterResources);
    var st2 := ApplyPass(ResourcePass, mem, r1.store, g, round.afterResources);
    PassWritesOnly(ResizePass, mem, st2, g, round.afterResize);
  }

  /******* At most one unit per reconcile, and exactly when *******/

  /** Every reconcile with this in-memory cursor, these desired names and these live units writes at most one unit. */
  ghost predicate AlwaysAtMostOne(mem: string, names: seq<string>, live: set<string>) {
    forall r: Rollout, g: Goal, round :: r.store.units.Keys == live && g.names == names ==>
      |ReconcileAll(mem, r, g, round).written| <= 1
  }

  /** The cursor names a live unit that is no longer desired, while the first desired unit is live. */
  predicate TwoTargets(mem: string, names: seq<string>, live: set<string>) {
    mem != "" && mem !in names && mem in live && names != [] && names[0] in live
  }

  /** Each pass writes at most the unit it is pointed at: the image pass the current one, the others the cursor's. */
  lemma EachPassHasOneTarget(mem: string, r: Rollout, g: Goal, round: Round)
    ensures g.names != [] ==> WrittenByImage(mem, r, g, round.call) <= {Current(mem, g.names)}
    ensures forall pass, st: Store :: WrittenByPass(pass, mem, st, g) <= {mem}
    ensures forall pass, st: Store :: mem == "" || mem !in st.units ==> WrittenByPass(pass, mem, st, g) == {}
  {
  }

  /** The unit a reconcile can write, if any. */
  function OnlyTarget(mem: string, names: seq<string>, live: set<string>): string {
    if mem in names || names == [] || names[0] !in live then mem else names[0]
  }

  lemma OtherPassesStayOnTarget(pass: Pass, mem: string, st: Store, g: Goal, live: set<string>)
    requires !TwoTargets(mem, g.names, live) && st.units.Keys == live
    ensures WrittenByPass(pass, mem, st, g) <= {OnlyTarget(mem, g.names, live)}
  {
  }

  lemma ImageStaysOnTarget(mem: string, r: Rollout, g: Goal, call: Call)
    ensures WrittenByImage(mem, r, g, call) <= {OnlyTarget(mem, g.names, r.store.units.Keys)}
  {
  }

  lemma AtMostOneUnit(mem: string, r: Rollout, g: Goal, round: Round)
    requires !TwoTargets(mem, g.names, r.store.units.Keys)
    ensures ReconcileAll(mem, r, g, round).written <= {OnlyTarget(mem, g.names, r.store.units.Keys)}
    ensures |ReconcileAll(mem, r, g, round).written| <= 1
  {
    var live := r.store.units.Keys;
    ImageStaysOnTarget(mem, r, g, round.call);
    ImageWritesOnly(mem, r, g, round.call);
    var st1 := Reconcile(mem, r, g, round.call).0.store;
    OtherPassesStayOnTarget(ResourcePass, mem, st1, g, live);
    PassWritesOnly(ResourcePass, mem, st1, g, round.afterResources);
    OtherPassesStayOnTarget(ResizePass, mem, ApplyPass(ResourcePass, mem, st1, g, round.afterResources), g, live);
    AtMostOne(ReconcileAll(mem, r, g, round).written);
  }

  /** The witness for the other direction: all live units outdated, differing and Ready. */
  lemma TwoUnitsWritten(mem: string, names: seq<string>, live: set<string>) returns (r: Rollout, g: Goal, round: Round)
    requires TwoTargets(mem, names, live)
    ensures r.store.units.Keys == live && g.names == names
    ensures ReconcileAll(mem, r, g, round).written == {mem, names[0]} && mem != names[0]
  {
    var plain := Container("db", "", Resources(map[], map[]), Nil, Nil, Nil);
    var outdated := PodTemplate(map[], map[], [plain], [], "");
    var wanted := outdated.(nodeName := "n");
    var u := Unit(map[], map[], outdated, Ready);
    var spec := UnitSetSpec("db", "2", Resources(map["cpu" := 1], map[]), Nil, [], [], []);
    r := Rollout(Store("", map n | n in live :: u), outdated);
    g := Goal(names, spec, wanted);
    round := Round(Call(NoFault, wanted, Pending), Pending, Pending);
    assert u.template.containers[0] == plain && ResourcesDiffer(plain, spec);
    assert !HasVersion(u, spec.version);
    var (r1, outcome) := Reconcile(mem, r, g, round.call);
    assert r1.store.units[mem] == u;
    assert WrittenByPass(ResourcePass, mem, r1.store, g) == {mem};
    EachPassHasOneTarget(mem, r, g, round);
    assert names[0] in names;
  }

  /**
   One reconcile always stays within one unit exactly when the cursor and the desired names offer no second target.
   */
  lemma AtMostOneExactly(mem: string, names: seq<string>, live: set<string>)
    ensures AlwaysAtMostOne(mem, names, live) <==> !TwoTargets(mem, names, live)
  {
    if TwoTargets(mem, names, live) {
      var r, g, round := TwoUnitsWritten(mem, names, live);
      assert |{mem, names[0]}| == 2;
    } else {
      forall r: Rollout, g: Goal, round | r.store.units.Keys == live && g.names == names
        ensures |ReconcileAll(mem, r, g, round).written| <= 1
      {
        AtMostOneUnit(mem, r, g, round);
      }
    }
  }

  /******* The passes disturb each other's cursor *******/

  /** Nothing for the other two passes to do. */
  ghost predicate NothingElseNeeded(units: map<string, Unit>, g: Goal) {
    forall n :: n in units ==> !Needs(ResourcePass, units[n], g.spec) && !Needs(ResizePass, units[n], g.spec)
  }

  lemma {:induction false} NoneNeeding(
    pass: Pass, names: seq<string>, current: string, found: bool, units: map<string, Unit>, spec: UnitSetSpec)
    requires forall n :: n in units ==> !Needs(pass, units[n], spec)
    ensures FirstNeeding(pass, names, units, spec) == ""
    ensures NextNeeding(pass, names, current, found, units, spec) == ""
    decreases |names|
  {
    if names != [] {
      NoneNeeding(pass, names[1..], current, found, units, spec);
      NoneNeeding(pass, names[1..], current, true, units, spec);
    }
  }

  /**
   The image pass has just moved the cursor past unit `k`. That move survives the rest of the reconcile exactly when
   unit `k` is not Ready: otherwise the resource pass takes the cursor for its own, finds nothing left to do, and
   clears it.
   */
  lemma ImageProgressSurvives(k: nat, r: Rollout, g: Goal, round: Round)
    requires GoodNames(g.names) && k + 1 < |g.names|
    requires r.template != g.wanted && round.call.fault == NoFault
    requires g.names[k] in r.store.units
    requires NothingElseNeeded(Reconcile(g.names[k], r, g, round.call).0.store.units, g)
    ensures var c := g.names[k];
            var units1 := Reconcile(c, r, g, round.call).0.store.units;
            ReconcileAll(c, r, g, round).rollout.store.cursor
                == (if units1[c].phase == Ready then "" else g.names[k + 1])
  {
    var c := g.names[k];
    var (r1, outcome) := Reconcile(c, r, g, round.call);
    IndexOfAt(g.names, k);
    NoneNeeding(ResourcePass, g.names, c, false, r1.store.units, g.spec);
    NoneNeeding(ResizePass, g.names, c, false, r1.store.units, g.spec);
    assert r1.store.cursor == g.names[k + 1];
    assert c in r1.store.units;
    var st2 := ApplyPass(ResourcePass, c, r1.store, g, round.afterResources);
    assert st2.units == r1.store.units;
    assert ApplyPass(ResizePass, c, st2, g, round.afterResize) == st2;
  }

  /** With nothing else needed, all that the other two passes can do is to clear the cursor. */
  lemma OthersOnlyClear(mem: string, st: Store, g: Goal, round: Round)
    requires NothingElseNeeded(st.units, g) && mem in st.units
    ensures var st2 := ApplyPass(ResourcePass, mem, st, g, round.afterResources);
            && st2 == (if mem != "" && st.units[mem].phase == Ready then st.(cursor := "") else st)
            && ApplyPass(ResizePass, mem, st2, g, round.afterResize) == st2
  {
    NoneNeeding(ResourcePass, g.names, mem, false, st.units, g.spec);
    NoneNeeding(ResizePass, g.names, mem, false, st.units, g.spec);
  }

  lemma OthersIdleWithoutCursor(st: Store, g: Goal, round: Round)
    requires NothingElseNeeded(st.units, g)
    ensures ApplyPass(ResourcePass, "", st, g, round.afterResources) == st
    ensures ApplyPass(ResizePass, "", st, g, round.afterResize) == st
  {
    NoneNeeding(ResourcePass, g.names, "", false, st.units, g.spec);
    NoneNeeding(ResizePass, g.names, "", false, st.units, g.spec);
  }

  /** The template that a round assembles asks for neither of the other two passes. */
  ghost predicate AssemblesSettled(round: Round, g: Goal) {
    forall u: Unit :: u.template == round.call.assembled ==>
      !Needs(ResourcePass, u, g.spec) && !Needs(ResizePass, u, g.spec)
  }

  lemma OldOrAssembled(mem: string, r: Rollout, g: Goal, call: Call, n: string)
    requires n in Reconcile(mem, r, g, call).0.store.units
    ensures n in r.store.units
    ensures var t := Reconcile(mem, r, g, call).0.store.units[n].template;
            t == r.store.units[n].template || t == call.assembled
  {
  }

  lemma NeedsSeesTemplateOnly(pass: Pass, u: Unit, v: Unit, spec: UnitSetSpec)
    requires u.template == v.template
    ensures Needs(pass, u, spec) == Needs(pass, v, spec)
  {
  }

  lemma StillNothingElseNeeded(mem: string, r: Rollout, g: Goal, round: Round)
    requires NothingElseNeeded(r.store.units, g) && AssemblesSettled(round, g)
    ensures NothingElseNeeded(Reconcile(mem, r, g, round.call).0.store.units, g)
  {
    var units := Reconcile(mem, r, g, round.call).0.store.units;
    forall n | n in units ensures !Needs(ResourcePass, units[n], g.spec) && !Needs(ResizePass, units[n], g.spec) {
      OldOrAssembled(mem, r, g, round.call, n);
      if units[n].template == r.store.units[n].template {
        NeedsSeesTemplateOnly(ResourcePass, units[n], r.store.units[n], g.spec);
        NeedsSeesTemplateOnly(ResizePass, units[n], r.store.units[n], g.spec);
      }
    }
  }
}
