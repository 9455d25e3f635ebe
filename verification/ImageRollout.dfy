/**
 The image pass of a unit set's rolling update: it walks the sorted names with the shared cursor, upgrades one
 unit per reconcile without waiting for it, and replaces the namespace pod template when the walk is over.
 */
module ImageRollout {
  import opened Common
  import opened Cluster
  import opened Passes
  import opened Assembly

  /** What is persisted: the cursor, the units, and the namespace's copy of the pod template. */
  datatype Rollout = Rollout(store: Store, template: PodTemplate)

  /** What the unit set asks for; `wanted` is the manager namespace's pod template. */
  datatype Goal = Goal(names: seq<string>, spec: UnitSetSpec, wanted: PodTemplate)

  /** The API call that fails in a reconcile, if any. */
  datatype Fault = NoFault | StartWrite | ReadUnit | WriteUnit | WriteVersion | AdvanceWrite | ReplaceTemplate

  /**
   One call of the pass: its fault, the template assembled for the unit, and the phase the unit shows once written.
   */
  datatype Call = Call(fault: Fault, assembled: PodTemplate, after: Phase)

  datatype Outcome = Errored | Skipped | Progressed | Finished

  predicate HasVersion(u: Unit, version: string) {
    MAIN_CONTAINER_VERSION in u.annotations && u.annotations[MAIN_CONTAINER_VERSION] == version
  }

  function Rewritten(u: Unit, call: Call): Unit {
    u.(template := call.assembled, phase := call.after)
  }

  function Upgraded(u: Unit, version: string, call: Call): Unit {
    Rewritten(u, call).(annotations := u.annotations[MAIN_CONTAINER_VERSION := version])
  }

  function IndexOf(names: seq<string>, x: string): (r: int)
    ensures -1 <= r < |names|
    ensures r >= 0 ==> names[r] == x && forall k :: 0 <= k < r ==> names[k] != x
    ensures r == -1 <==> x !in names
  {
    if names == [] then -1
    else if names[0] == x then 0
    else
      var rest := IndexOf(names[1..], x);
      if rest == -1 then -1 else rest + 1
  }

  /** The unit a call works on: the one the in-memory cursor names, or the first one if it names no desired unit. */
  function Current(mem: string, names: seq<string>): (r: string)
    requires names != []
    ensures r in names
  {
    if mem in names then mem else names[0]
  }

  function Perform(mem: string, st: Store, names: seq<string>, spec: UnitSetSpec, call: Call): (Store, Outcome)
    requires names != []
  {
    var current := Current(mem, names);
    var restart := mem !in names;
    if restart && call.fault.StartWrite? then (st, Errored)
    else
      var started := if restart then st.(cursor := current) else st;
      if call.fault.ReadUnit? || current !in st.units then (started, Errored)
      else
        var u := st.units[current];
        var needs := !HasVersion(u, spec.version);
        if needs && call.fault.WriteUnit? then (started, Errored)
        else if needs && call.fault.WriteVersion? then
          (started.(units := st.units[current := Rewritten(u, call)]), Errored)
        else
          var upgraded := st.units[current := Upgraded(u, spec.version, call)];
          var done := if needs then started.(units := upgraded) else started;
          if call.fault.AdvanceWrite? then (done, Errored)
          else
            var next := IndexOf(names, current) + 1;
            if next < |names| then (done.(cursor := names[next]), Progressed) else (done.(cursor := ""), Finished)
  }

  function Reconcile(mem: string, r: Rollout, g: Goal, call: Call): (Rollout, Outcome) {
    if r.template == g.wanted || g.names == [] then (r, Skipped)
    else
      var (st, outcome) := Perform(mem, r.store, g.names, g.spec, call);
      if !outcome.Finished? then (Rollout(st, r.template), outcome)
      else if call.fault.ReplaceTemplate? then (Rollout(st, r.template), Errored)
      else (Rollout(st, g.wanted), Finished)
  }

  class ImageReconciler {
    var cursor: string
    var units: map<string, Unit>
    var template: PodTemplate

    ghost function Persisted(): Rollout
      reads this
    {
      Rollout(Store(cursor, units), template)
    }

    constructor (cursor: string, units: map<string, Unit>, template: PodTemplate)
      ensures Persisted() == Rollout(Store(cursor, units), template)
    {
      this.cursor, this.units, this.template := cursor, units, template;
    }

    method PerformRollingUpdate(mem: string, names: seq<string>, spec: UnitSetSpec, call: Call)
      returns (outcome: Outcome)
      requires names != [] && "" !in names
      modifies this`cursor, this`units
      ensures (Persisted().store, outcome) == Perform(mem, old(Persisted().store), names, spec, call)
    {
      var current := mem;
      if current == "" {
        if call.fault.StartWrite? { return Errored; }
        current := names[0];
        cursor := current;
      }
      var index := -1;
      var i := 0;
      while i < |names|
        invariant 0 <= i <= |names| && index == -1
        invariant forall k :: 0 <= k < i ==> names[k] != current
      {
        if names[i] == current {
          index := i;
          break;
        }
        i := i + 1;
      }
      if index == -1 {
        if call.fault.StartWrite? { return Errored; }
        current, index := names[0], 0;
        cursor := current;
      }
      assert current == Current(mem, names) && index == IndexOf(names, current);
      if call.fault.ReadUnit? || current !in units { return Errored; }
      if !HasVersion(units[current], spec.version) {
        if call.fault.WriteUnit? { return Errored; }
        ghost var before := units;
        units := units[current := Rewritten(units[current], call)];
        if call.fault.WriteVersion? { return Errored; }
        var annotations := units[current].annotations[MAIN_CONTAINER_VERSION := spec.version];
        units := units[current := units[current].(annotations := annotations)];
        assert units == before[current := Upgraded(before[current], spec.version, call)];
      }
      if call.fault.AdvanceWrite? { return Errored; }
      if index + 1 < |names| {
        cursor := names[index + 1];
        return Progressed;
      }
      cursor := "";
      return Finished;
    }

    method ReconcileImageVersion(mem: string, g: Goal, fault: Fault, after: Phase)
      returns (outcome: Outcome, ghost call: Call)
      requires "" !in g.names
      modifies this
      ensures (Persisted(), outcome) == Reconcile(mem, old(Persisted()), g, call)
      ensures call.fault == fault && call.after == after
      ensures exists order ::
                Enumerates(order, LastByName(g.spec.mounts).Keys) && call.assembled == Assemble(g.wanted, g.spec, order)
    {
      var assembled, order := AssembleTemplate(g.wanted, g.spec);
      call := Call(fault, assembled, after);
      if template == g.wanted || g.names == [] {
        outcome := Skipped;
        return;
      }
      outcome := PerformRollingUpdate(mem, g.names, g.spec, Call(fault, assembled, after));
      if outcome.Finished? {
        if fault.ReplaceTemplate? {
          outcome := Errored;
        } else {
          template := g.wanted;
        }
      }
    }
  }

  /******* Whole runs with only this pass moving the cursor *******/

  ghost predicate GoodNames(names: seq<string>) {
    && (forall i, j :: 0 <= i < j < |names| ==> names[i] != names[j])
    && "" !in names
  }

  /** The first `k` units exist and carry the target version. */
  ghost predicate UpTo(units: map<string, Unit>, g: Goal, k: nat) {
    forall i :: 0 <= i < k && i < |g.names| ==> g.names[i] in units && HasVersion(units[g.names[i]], g.spec.version)
  }

  datatype Step = Reconciled(call: Call) | Outside(units: map<string, Unit>)

  /** Other changes to units keep the versions the pass has recorded. */
  ghost predicate KeepsVersions(before: map<string, Unit>, after: map<string, Unit>, g: Goal) {
    forall n :: n in g.names && n in before && HasVersion(before[n], g.spec.version) ==>
      n in after && HasVersion(after[n], g.spec.version)
  }

  ghost predicate Legal(r: Rollout, g: Goal, step: Step) {
    step.Outside? ==> KeepsVersions(r.store.units, step.units, g)
  }

  function Do(r: Rollout, g: Goal, step: Step): Rollout {
    match step
    case Reconciled(call) => Reconcile(r.store.cursor, r, g, call).0
    case Outside(units) => r.(store := r.store.(units := units))
  }

  function Run(r: Rollout, g: Goal, steps: seq<Step>): Rollout {
    if steps == [] then r else Do(Run(r, g, steps[..|steps| - 1]), g, steps[|steps| - 1])
  }

  ghost predicate LegalRun(r: Rollout, g: Goal, steps: seq<Step>) {
    steps == [] ||
    (LegalRun(r, g, steps[..|steps| - 1]) && Legal(Run(r, g, steps[..|steps| - 1]), g, steps[|steps| - 1]))
  }

  /** The cursor names unit `k`, or nothing yet, and all units before it carry the target version. */
  ghost predicate Standing(st: Store, g: Goal, k: nat) {
    && k < |g.names|
    && (st.cursor == g.names[k] || (k == 0 && st.cursor == ""))
    && UpTo(st.units, g, k)
  }

  lemma PerformKeepsVersions(mem: string, st: Store, g: Goal, call: Call)
    requires g.names != []
    ensures KeepsVersions(st.units, Perform(mem, st, g.names, g.spec, call).0.units, g)
  {
  }

  lemma IndexOfAt(names: seq<string>, k: nat)
    requires k < |names| && GoodNames(names)
    ensures IndexOf(names, names[k]) == k
  {
    assert names[k] in names;
  }

  lemma UpToKept(before: map<string, Unit>, after: map<string, Unit>, g: Goal, k: nat)
    requires UpTo(before, g, k) && KeepsVersions(before, after, g)
    ensures UpTo(after, g, k)
  {
    forall i | 0 <= i < k && i < |g.names|
      ensures g.names[i] in after && HasVersion(after[g.names[i]], g.spec.version)
    {
      assert g.names[i] in g.names;
    }
  }

  /** Where a call leaves the cursor, and what a successful call does to the unit it works on. */
  lemma PerformAt(st: Store, g: Goal, k: nat, call: Call)
    requires GoodNames(g.names) && k < |g.names| && (st.cursor == g.names[k] || (k == 0 && st.cursor == ""))
    ensures var (st', outcome) := Perform(st.cursor, st, g.names, g.spec, call);
            && !outcome.Skipped?
            && (outcome.Errored? ==> st'.cursor == st.cursor || st'.cursor == g.names[k])
            && (outcome.Progressed? ==> k + 1 < |g.names| && st'.cursor == g.names[k + 1])
            && (outcome.Finished? ==> k + 1 == |g.names| && st'.cursor == "")
            && (!outcome.Errored? ==> g.names[k] in st'.units && HasVersion(st'.units[g.names[k]], g.spec.version))
  {
    assert Current(st.cursor, g.names) == g.names[k];
    IndexOfAt(g.names, k);
  }

  /** The annotations of a unit before and after differ in the recorded version at most. */
  ghost predicate OnlyVersionChanged(before: map<string, string>, after: map<string, string>) {
    forall key :: key != MAIN_CONTAINER_VERSION ==>
      && (key in after <==> key in before)
      && (key in before ==> after[key] == before[key])
  }

  /** What a call may make of a unit that lacks the version. */
  ghost predicate RewrittenAs(u: Unit, u': Unit, call: Call) {
    && u'.template == call.assembled && u'.phase == call.after
    && u'.labels == u.labels && OnlyVersionChanged(u.annotations, u'.annotations)
  }

  /**
   A call touches no unit but the current one, and that one only if it lacks the version. Failing or not, it leaves it
   as it is or gives it the assembled template, keeping all other annotations; a successful call leaves it with the
   version, and so does one that fails to move the cursor on.
   */
  lemma PerformUpgradesOne(mem: string, st: Store, g: Goal, call: Call)
    requires g.names != []
    ensures var (st', outcome) := Perform(mem, st, g.names, g.spec, call);
            var c := if mem in g.names then mem else g.names[0];
            && st'.units.Keys == st.units.Keys
            && (forall n :: n in st.units && n != c ==> st'.units[n] == st.units[n])
            && (c in st.units && HasVersion(st.units[c], g.spec.version) ==> st'.units[c] == st.units[c])
            && (c in st.units ==> st'.units[c] == st.units[c] || RewrittenAs(st.units[c], st'.units[c], call))
            && (!outcome.Errored? ==>
                  && c in st.units && HasVersion(st'.units[c], g.spec.version)
                  && (!HasVersion(st.units[c], g.spec.version) ==> RewrittenAs(st.units[c], st'.units[c], call)))
            && (call.fault.AdvanceWrite? && c in st.units ==> HasVersion(st'.units[c], g.spec.version))
            && (call.fault.WriteVersion? && c in st.units && !HasVersion(st.units[c], g.spec.version) ==>
                  && RewrittenAs(st.units[c], st'.units[c], call)
                  && st'.units[c].annotations == st.units[c].annotations)
  {
  }

  /** A call fails exactly for these reasons; by then, all it may have done to the cursor is to start the walk. */
  lemma PerformFailsExactly(mem: string, st: Store, g: Goal, call: Call)
    requires g.names != []
    ensures var (st', outcome) := Perform(mem, st, g.names, g.spec, call);
            var c := if mem in g.names then mem else g.names[0];
            && (outcome.Errored? <==>
                  || c !in st.units || call.fault.ReadUnit? || call.fault.AdvanceWrite?
                  || (mem !in g.names && call.fault.StartWrite?)
                  || (!HasVersion(st.units[c], g.spec.version) && (call.fault.WriteUnit? || call.fault.WriteVersion?)))
            && (outcome.Errored? ==>
                  st'.cursor == if mem !in g.names && !call.fault.StartWrite? then c else st.cursor)
            && !outcome.Skipped?
  {
  }

  /**
   The pass is skipped exactly if the namespace's template is up to date or no unit is desired, and then changes
   nothing. The template is replaced exactly by a call that finishes the walk, unless that write fails.
   */
  lemma TemplateReplacedExactly(mem: string, r: Rollout, g: Goal, call: Call)
    ensures var (r', outcome) := Reconcile(mem, r, g, call);
            && (outcome.Skipped? <==> r.template == g.wanted || g.names == [])
            && (outcome.Skipped? ==> r' == r)
            && r'.template == (if outcome.Finished? then g.wanted else r.template)
            && (!outcome.Skipped? ==>
                  var (st', walked) := Perform(mem, r.store, g.names, g.spec, call);
                  && r'.store == st'
                  && (outcome.Finished? <==> walked.Finished? && !call.fault.ReplaceTemplate?)
                  && (outcome.Progressed? <==> walked.Progressed?))
  {
  }

  /** A failing call leaves the rollout where it stands; a successful one moves it on by exactly one unit. */
  lemma PerformMovesOn(st: Store, g: Goal, k: nat, call: Call)
    requires GoodNames(g.names) && Standing(st, g, k)
    ensures var (st', outcome) := Perform(st.cursor, st, g.names, g.spec, call);
            match outcome
            case Errored => Standing(st', g, k)
            case Skipped => false
            case Progressed => Standing(st', g, k + 1)
            case Finished => k + 1 == |g.names| && st'.cursor == "" && UpTo(st'.units, g, |g.names|)
  {
    PerformAt(st, g, k, call);
    PerformKeepsVersions(st.cursor, st, g, call);
    UpToKept(st.units, Perform(st.cursor, st, g.names, g.spec, call).0.units, g, k);
  }

  ghost predicate Inv(r: Rollout, g: Goal) {
    && (g.names == [] || exists k :: Standing(r.store, g, k))
    && (r.template == g.wanted ==> UpTo(r.store.units, g, |g.names|))
  }

  lemma InvStep(r: Rollout, g: Goal, step: Step)
    requires GoodNames(g.names) && Inv(r, g) && Legal(r, g, step)
    ensures Inv(Do(r, g, step), g)
  {
    if g.names != [] {
      var k :| Standing(r.store, g, k);
      if step.Outside? {
        assert Standing(Do(r, g, step).store, g, k);
      } else if r.template != g.wanted {
        PerformMovesOn(r.store, g, k, step.call);
        var (st', outcome) := Perform(r.store.cursor, r.store, g.names, g.spec, step.call);
        if outcome.Finished? {
          assert Standing(st', g, 0);
        }
      }
    }
  }

  lemma {:induction false} InvRun(r: Rollout, g: Goal, steps: seq<Step>)
    requires GoodNames(g.names) && Inv(r, g)
    requires LegalRun(r, g, steps)
    ensures Inv(Run(r, g, steps), g)
  {
    if steps != [] {
      InvRun(r, g, steps[..|steps| - 1]);
      InvStep(Run(r, g, steps[..|steps| - 1]), g, steps[|steps| - 1]);
    }
  }

  /**
   At every point of every run that starts with an empty cursor and an outdated template, all units before the cursor,
   which is at unit `k`, carry the target version, and the namespace template has been replaced only if all units do.
   */
  lemma PrefixCarriesVersion(r: Rollout, g: Goal, steps: seq<Step>) returns (k: nat)
    requires GoodNames(g.names) && r.store.cursor == "" && r.template != g.wanted
    requires LegalRun(r, g, steps)
    ensures g.names != [] ==> Standing(Run(r, g, steps).store, g, k)
    ensures Run(r, g, steps).template == g.wanted ==> UpTo(Run(r, g, steps).store.units, g, |g.names|)
  {
    if g.names != [] {
      assert Standing(r.store, g, 0);
    }
    InvRun(r, g, steps);
    k := 0;
    if g.names != [] {
      k :| Standing(Run(r, g, steps).store, g, k);
    }
  }

  /**
   Calls the pass until it reports done: the store, the number of successful calls, and whether it did report done.
   */
  function Drive(st: Store, g: Goal, calls: seq<Call>): (Store, nat, bool)
    requires g.names != []
    decreases |calls|
  {
    if calls == [] then (st, 0, false)
    else
      var (st', outcome) := Perform(st.cursor, st, g.names, g.spec, calls[0]);
      match outcome
      case Finished => (st', 1, true)
      case Errored => Drive(st', g, calls[1..])
      case _ =>
        var (end, n, done) := Drive(st', g, calls[1..]);
        (end, n + 1, done)
  }

  /** What driving the pass from unit `k` comes to. */
  ghost predicate Driven(start: nat, g: Goal, end: Store, n: nat, done: bool) {
    if done then start + n == |g.names| && end.cursor == "" && UpTo(end.units, g, |g.names|)
    else Standing(end, g, start + n)
  }

  lemma DriveFinished(st: Store, g: Goal, k: nat, calls: seq<Call>, st': Store)
    requires g.names != [] && calls != [] && Perform(st.cursor, st, g.names, g.spec, calls[0]) == (st', Finished)
    requires k + 1 == |g.names| && st'.cursor == "" && UpTo(st'.units, g, |g.names|)
    ensures var (end, n, done) := Drive(st, g, calls); Driven(k, g, end, n, done)
  {
    assert Drive(st, g, calls) == (st', 1, true);
  }

  lemma DriveErrored(st: Store, g: Goal, k: nat, calls: seq<Call>, st': Store)
    requires g.names != [] && calls != [] && Perform(st.cursor, st, g.names, g.spec, calls[0]) == (st', Errored)
    requires var (end, n, done) := Drive(st', g, calls[1..]); Driven(k, g, end, n, done)
    ensures var (end, n, done) := Drive(st, g, calls); Driven(k, g, end, n, done)
  {
    assert Drive(st, g, calls) == Drive(st', g, calls[1..]);
  }

  lemma DriveProgressed(st: Store, g: Goal, k: nat, calls: seq<Call>, st': Store)
    requires g.names != [] && calls != [] && Perform(st.cursor, st, g.names, g.spec, calls[0]) == (st', Progressed)
    requires var (end, n, done) := Drive(st', g, calls[1..]); Driven(k + 1, g, end, n, done)
    ensures var (end, n, done) := Drive(st, g, calls); Driven(k, g, end, n, done)
  {
    var (end, n, done) := Drive(st', g, calls[1..]);
    assert Drive(st, g, calls) == (end, n + 1, done);
  }

  lemma {:induction false} DriveFrom(st: Store, g: Goal, k: nat, calls: seq<Call>)
    requires GoodNames(g.names) && Standing(st, g, k)
    ensures var (end, n, done) := Drive(st, g, calls); Driven(k, g, end, n, done)
    decreases |calls|
  {
    if calls != [] {
      var (st', outcome) := Perform(st.cursor, st, g.names, g.spec, calls[0]);
      PerformMovesOn(st, g, k, calls[0]);
      if outcome.Finished? {
        DriveFinished(st, g, k, calls, st');
      } else if outcome.Errored? {
        DriveFrom(st', g, k, calls[1..]);
        DriveErrored(st, g, k, calls, st');
      } else {
        DriveFrom(st', g, k + 1, calls[1..]);
        DriveProgressed(st, g, k, calls, st');
      }
    }
  }

  /** From an empty cursor and whatever calls fail in between, the pass reports done at exactly the N-th success. */
  lemma ExactlyNSuccesses(st: Store, g: Goal, calls: seq<Call>)
    requires g.names != [] && GoodNames(g.names) && st.cursor == ""
    ensures var (end, n, done) := Drive(st, g, calls);
            && n <= |g.names| && (done <==> n == |g.names|)
            && UpTo(end.units, g, n)
            && (done ==> end.cursor == "")
            && (0 < n < |g.names| ==> end.cursor == g.names[n])
  {
    DriveFrom(st, g, 0, calls);
  }

  /******* Freshly assembled units *******/

  /**
   A freshly assembled unit never needs the resource pass. It needs the resize pass exactly when the unit set asks for
   no policy and the template's main container brings one along.
   */
  lemma AssembledNeedsExactly(u: Unit, t: PodTemplate, spec: UnitSetSpec, order: seq<string>)
    requires Enumerates(order, LastByName(spec.mounts).Keys) && u.template == Assemble(t, spec, order)
    ensures !Needs(ResourcePass, u, spec)
    ensures Needs(ResizePass, u, spec) <==>
              var i := IndexOfContainer(t.containers, spec.mainType);
              i >= 0 && spec.resizePolicy.Elems() == [] && t.containers[i].resizePolicy.Elems() != []
  {
    AssembledTemplate(t, spec, order);
    SameNamesSameIndex(t.containers, u.template.containers, spec.mainType);
  }
}
