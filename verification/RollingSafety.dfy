/**
 Safety of one rolling pass over whole runs: reconciles that read, then act on what they read, interleaved with
 arbitrary changes to the units (going down, coming back, being created, edited or deleted), to the desired
 names and to the target, and with writes that fail. The pass is the only writer of the cursor.
 */
module RollingSafety {
  import opened Common
  import opened Cluster
  import opened Passes

  /** `inFlight` holds the units the pass has rewritten and that have not been Ready since. */
  datatype State = State(store: Store, inFlight: set<string>, mem: Option<Snapshot>)

  datatype Step =
    | Read(names: seq<string>, spec: UnitSetSpec)
    | Act(ok: bool, after: Phase)
    | Outside(units: map<string, Unit>)

  function Do(pass: Pass, s: State, step: Step): State {
    match step
    case Read(names, spec) => s.(mem := Some(Snapshot(s.store.cursor, s.store.units, names, spec)))
    case Act(ok, after) =>
      if s.mem.None? || !ok then s.(mem := None)
      else
        var m := s.mem.value;
        var a := Decide(pass, m);
        var written := if a.Rewrite? && WillWrite(pass, m.spec, s.store, a.name) then {a.name} else {};
        State(Apply(pass, m.spec, s.store, a, after), s.inFlight + written, None)
    case Outside(units) =>
      s.(store := s.store.(units := units),
         inFlight := set n | n in s.inFlight && n in units && units[n].phase != Ready)
  }

  function Run(pass: Pass, s: State, steps: seq<Step>): State {
    if steps == [] then s
    else Do(pass, Run(pass, s, steps[..|steps| - 1]), steps[|steps| - 1])
  }

  /** The hypothesis on the cluster: a unit whose spec was written is no longer Ready when its phase is next read. */
  ghost predicate WritesDropReady(steps: seq<Step>) {
    forall i :: 0 <= i < |steps| && steps[i].Act? ==> steps[i].after != Ready
  }

  ghost predicate Initial(s: State) {
    s.inFlight == {} && s.mem == None
  }

  ghost predicate Inv(s: State) {
    && (forall n :: n in s.inFlight ==>
          n != "" && n == s.store.cursor && n in s.store.units && s.store.units[n].phase != Ready)
    && (s.mem.Some? ==>
          && s.mem.value.cursor == s.store.cursor
          && forall n :: n in s.inFlight ==>
               n in s.mem.value.units && s.mem.value.units[n].phase != Ready)
  }

  lemma InvStep(pass: Pass, s: State, step: Step)
    requires Inv(s)
    requires step.Act? ==> step.after != Ready
    ensures Inv(Do(pass, s, step))
  {
  }

  lemma {:induction false} InvRun(pass: Pass, s: State, steps: seq<Step>)
    requires Initial(s) && WritesDropReady(steps)
    ensures Inv(Run(pass, s, steps))
  {
    if steps != [] {
      InvRun(pass, s, steps[..|steps| - 1]);
      InvStep(pass, Run(pass, s, steps[..|steps| - 1]), steps[|steps| - 1]);
    }
  }

  /** Rolling safety: at every point of every run, at most one unit is rewritten and not yet Ready again. */
  lemma AtMostOneInFlight(pass: Pass, s: State, steps: seq<Step>)
    requires Initial(s) && WritesDropReady(steps)
    ensures |Run(pass, s, steps).inFlight| <= 1
    ensures Run(pass, s, steps).inFlight <= {Run(pass, s, steps).store.cursor}
  {
    InvRun(pass, s, steps);
    AtMostOne(Run(pass, s, steps).inFlight);
  }

  /**
   At every point of every run, the cursor leaves an existing unit only when the reconcile read that unit as Ready and
   no longer differing from the target in what the pass compares.
   */
  lemma CursorLeavesOnlySettledUnits(pass: Pass, s: State, steps: seq<Step>, step: Step)
    requires Initial(s) && WritesDropReady(steps)
    ensures var now := Run(pass, s, steps);
            var c := now.store.cursor;
            c != "" && Do(pass, now, step).store.cursor != c ==>
              && step.Act? && now.mem.Some? && c !in now.inFlight
              && (c in now.mem.value.units ==>
                    && now.mem.value.units[c].phase == Ready
                    && Matches(pass, now.mem.value.units[c], now.mem.value.spec))
  {
    InvRun(pass, s, steps);
    var mem := Run(pass, s, steps).mem;
    if mem.Some? { NeedsExactlyAll(pass, mem.value.units, mem.value.spec); }
  }

  /******* The hypothesis is needed *******/

  /** Two Ready units that both differ from the target. */
  ghost predicate TwoNeedy(pass: Pass, x: string, y: string, units: map<string, Unit>, spec: UnitSetSpec) {
    && x != y && x != "" && y != ""
    && x in units && units[x].phase == Ready && Needs(pass, units[x], spec)
    && y in units && units[y].phase == Ready && Needs(pass, units[y], spec)
  }

  /** One reconcile that reads and then acts, leaving a rewritten unit Ready. */
  function Once(pass: Pass, s: State, names: seq<string>, spec: UnitSetSpec): State {
    Do(pass, Do(pass, s, Read(names, spec)), Act(true, Ready))
  }

  lemma StartsAtFirst(pass: Pass, x: string, y: string, units: map<string, Unit>, spec: UnitSetSpec)
    requires TwoNeedy(pass, x, y, units, spec)
    ensures Once(pass, State(Store("", units), {}, None), [x, y], spec) == State(Store(x, units), {}, None)
  {
    assert FirstNeeding(pass, [x, y], units, spec) == x;
  }

  lemma RewritesCursor(pass: Pass, s: State, x: string, y: string, c: string, spec: UnitSetSpec)
    requires s.mem == None && s.store.cursor == c != "" && (c == x || c == y) && x != "" && y != ""
    requires c in s.store.units && s.store.units[c].phase == Ready && Needs(pass, s.store.units[c], spec)
    ensures var u := Merged(pass, s.store.units[c], spec).(phase := Ready);
            Once(pass, s, [x, y], spec) == State(Store(c, s.store.units[c := u]), s.inFlight + {c}, None)
  {
    var names := [x, y];
    assert c in names;
    assert "" !in names;
    assert FirstNeeding(pass, names, s.store.units, spec) != "";
  }

  lemma MovesToSecond(pass: Pass, x: string, y: string, units: map<string, Unit>, f: set<string>, spec: UnitSetSpec)
    requires x != y && x != "" && y != "" && x in units && units[x].phase == Ready && !Needs(pass, units[x], spec)
    requires y in units && Needs(pass, units[y], spec)
    ensures Once(pass, State(Store(x, units), f, None), [x, y], spec) == State(Store(y, units), f, None)
  {
    var names := [x, y];
    NextOfTwo(pass, x, y, units, spec);
    assert y in names && "" !in names;
    assert FirstNeeding(pass, names, units, spec) != "";
  }

  /** If a rewritten unit is still read as Ready, four reconciles put both units in flight. */
  lemma StaleReadyBreaksSafety(pass: Pass, x: string, y: string, units: map<string, Unit>, spec: UnitSetSpec)
    requires TwoNeedy(pass, x, y, units, spec)
    ensures var round := [Read([x, y], spec), Act(true, Ready)];
            Run(pass, State(Store("", units), {}, None), round + round + round + round).inFlight == {x, y}
  {
    var read, act := Read([x, y], spec), Act(true, Ready);
    var round := [read, act];
    var s0, s1 := State(Store("", units), {}, None), State(Store(x, units), {}, None);
    var units2 := units[x := Merged(pass, units[x], spec).(phase := Ready)];
    var s2, s3 := State(Store(x, units2), {x}, None), State(Store(y, units2), {x}, None);
    StartsAtFirst(pass, x, y, units, spec);
    RewritesCursor(pass, s1, x, y, x, spec);
    MergedIsSettled(pass, units[x], spec);
    MovesToSecond(pass, x, y, units2, {x}, spec);
    RewritesCursor(pass, s3, x, y, y, spec);
    FourRounds(pass, s0, read, act);
  }

  lemma MergedIsSettled(pass: Pass, u: Unit, spec: UnitSetSpec)
    ensures !Needs(pass, Merged(pass, u, spec).(phase := Ready), spec)
  {
    MergeSettles(pass, if pass.ResourcePass? then ResizePass else ResourcePass, u, spec);
  }

  lemma FourRounds(pass: Pass, s: State, a: Step, b: Step)
    ensures var round := [a, b];
            var s1 := Do(pass, Do(pass, s, a), b);
            var s2 := Do(pass, Do(pass, s1, a), b);
            var s3 := Do(pass, Do(pass, s2, a), b);
            Run(pass, s, round + round + round + round) == Do(pass, Do(pass, s3, a), b)
  {
    var round := [a, b];
    assert [] + round == round;
    TwoSteps(pass, s, [], a, b);
    TwoSteps(pass, s, round, a, b);
    TwoSteps(pass, s, round + round, a, b);
    TwoSteps(pass, s, round + round + round, a, b);
  }

  lemma NextOfTwo(pass: Pass, x: string, y: string, units: map<string, Unit>, spec: UnitSetSpec)
    requires x != y && y in units && Needs(pass, units[y], spec)
    ensures NextNeeding(pass, [x, y], x, false, units, spec) == y
  {
    assert [x, y][1..] == [y];
  }

  lemma TwoSteps(pass: Pass, s: State, steps: seq<Step>, a: Step, b: Step)
    ensures Run(pass, s, steps + [a, b]) == Do(pass, Do(pass, Run(pass, s, steps), a), b)
  {
    assert (steps + [a, b])[..|steps| + 1] == steps + [a];
    assert (steps + [a])[..|steps|] == steps;
  }

  ghost predicate RewrittenShow(p: Phase, steps: seq<Step>) {
    forall i :: 0 <= i < |steps| && steps[i].Act? ==> steps[i].after == p
  }

  /** Every run in which rewritten units show phase `p` is safe. */
  ghost predicate SafeWhenUnitsShow(pass: Pass, p: Phase) {
    forall s, steps :: Initial(s) && RewrittenShow(p, steps) ==>
      |Run(pass, s, steps).inFlight| <= 1
  }

  lemma UnsafeWhenReadyStays(pass: Pass) returns (s: State, steps: seq<Step>)
    ensures Initial(s) && RewrittenShow(Ready, steps)
    ensures |Run(pass, s, steps).inFlight| == 2
  {
    var plain := Container("db", "", Resources(map[], map[]), Nil, Nil, Nil);
    var u := Unit(map[], map[], PodTemplate(map[], map[], [plain], [], ""), Ready);
    var spec := UnitSetSpec("db", "", Resources(map["cpu" := 1], map[]), Slice([ResizeRule("cpu", "")]), [], [], []);
    var units := map["x" := u, "y" := u];
    assert u.template.containers[0] == plain && ResourcesDiffer(plain, spec);
    assert IndexOfContainer(u.template.containers, "db") == 0;
    StaleReadyBreaksSafety(pass, "x", "y", units, spec);
    var round := [Read(["x", "y"], spec), Act(true, Ready)];
    s, steps := State(Store("", units), {}, None), round + round + round + round;
    assert |{"x", "y"}| == 2;
  }

  /** Safety of either pass holds exactly when a rewritten unit does not go on showing Ready. */
  lemma SafeExactlyWhenReadyDrops(pass: Pass, p: Phase)
    ensures SafeWhenUnitsShow(pass, p) <==> p != Ready
  {
    if p != Ready {
      forall s, steps | Initial(s) && RewrittenShow(p, steps)
        ensures |Run(pass, s, steps).inFlight| <= 1
      {
        AtMostOneInFlight(pass, s, steps);
      }
    } else {
      var s, steps := UnsafeWhenReadyStays(pass);
    }
  }
}
