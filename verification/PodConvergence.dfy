/** Repeated reconciles of one pod against a fixed unit. */
module PodConvergence {
  import opened Common
  import opened Cluster
  import opened Assembly
  import opened EnvCompare
  import opened PodDrift

  datatype Action = Created | Resized | Recreated | Kept | Errored

  /**
   What fails in a reconcile: something before any change, also because the pod is under deletion; the resize, the
   deletion or the only creation; or the creation after a deletion.
   */
  datatype Fault = NoFault | Early | Refused | CreateRefused

  /** `accepted` tells whether the API server takes the patch, which is not an error if it does not. */
  datatype Try = Try(accepted: bool, fault: Fault)

  function PatchIfAccepted(u: Unit, cur: Pod, pod: Pod, accepted: bool): Pod {
    var patched := Patched(u, cur, pod);
    if accepted && patched.nodeName == pod.nodeName then patched else pod
  }

  /**
   One reconcile without a fault. `inPlace` tells whether in-place resizing is enabled. A resize of a pod whose drift
   is in cpu or memory always finds its containers.
   */
  function Step(u: Unit, pod: Option<Pod>, inPlace: bool, accepted: bool): (Pod, Action) {
    match pod
    case None => (Convert(u), Created)
    case Some(p) =>
      match Drift(u, p)
      case None => (PatchIfAccepted(u, p, p, accepted), Kept)
      case Some(reason) =>
        var resized := Resize(u, p);
        if (reason.CpuChanged? || reason.MemoryChanged?) && inPlace && CanUseInPlaceResize(u, p) && resized.Some?
        then (resized.value, Resized)
        else (PatchIfAccepted(u, p, Convert(u), accepted), Recreated)
  }

  function Attempt(u: Unit, pod: Option<Pod>, inPlace: bool, t: Try): (Option<Pod>, Action) {
    var (p, action) := Step(u, pod, inPlace, t.accepted);
    if t.fault.Early? then (pod, Errored)
    else if t.fault.NoFault? || action.Kept? then (Some(p), action)
    else if action.Resized? && t.fault.CreateRefused? then (Some(p), action)
    else if action.Recreated? && t.fault.CreateRefused? then (None, Errored)
    else (pod, Errored)
  }

  /** The cluster's pod of one unit, as the unit controller changes it. */
  class PodController {
    var pod: Option<Pod>

    constructor (pod: Option<Pod>)
      ensures this.pod == pod
    {
      this.pod := pod;
    }

    method ReconcilePod(u: Unit, inPlace: bool, t: Try) returns (action: Action)
      modifies this
      ensures (pod, action) == Attempt(u, old(pod), inPlace, t)
    {
      if t.fault.Early? { return Errored; }
      if pod.None? {
        if !t.fault.NoFault? { return Errored; }
        pod := Some(Convert(u));
        return Created;
      }
      var cur := pod.value;
      var reason := IfNeedUpgradePod(u, cur);
      action := Kept;
      if reason.Some? {
        if (reason.value.CpuChanged? || reason.value.MemoryChanged?) && inPlace && CanUseInPlaceResize(u, cur) {
          var resized := Resize(u, cur);
          if resized.Some? {
            if t.fault.Refused? { return Errored; }
            pod := resized;
            return Resized;
          }
        }
        if t.fault.Refused? { return Errored; }
        pod := None;
        if t.fault.CreateRefused? { return Errored; }
        pod := Some(Convert(u));
        action := Recreated;
      }
      var patched := Patched(u, cur, pod.value);
      if t.accepted && patched.nodeName == pod.value.nodeName {
        pod := Some(patched);
      }
    }
  }

  /******* Units the theorems are about *******/

  ghost predicate EnvsDistinct(cs: seq<Container>) {
    forall i :: 0 <= i < |cs| ==> DistinctEnv(cs[i].env.Elems())
  }

  ghost predicate WellNamed(u: Unit) {
    && IsStored(u)
    && UniqueNames(u.template.containers) && UniqueNames(u.template.initContainers)
  }

  ghost predicate Proper(u: Unit) {
    WellNamed(u) && EnvsDistinct(u.template.containers) && EnvsDistinct(u.template.initContainers)
  }

  lemma UniqueIndex(cs: seq<Container>, i: nat)
    requires i < |cs| && UniqueNames(cs)
    ensures IndexOfContainer(cs, cs[i].name) == i
  {
    var j := IndexOfContainer(cs, cs[i].name);
  }

  /** A freshly converted pod shows no drift exactly when no container of the unit repeats an environment variable. */
  lemma FreshPodStableExactly(u: Unit)
    requires WellNamed(u)
    ensures Drift(u, Convert(u)).None? <==>
            EnvsDistinct(u.template.containers) && EnvsDistinct(u.template.initContainers)
  {
    var main, cs, inits := MainName(u), u.template.containers, u.template.initContainers;
    var p := Convert(u);
    NoContainerDrift(main, cs, p.containers);
    forall i | 0 <= i < |cs|
      ensures IndexOfContainer(p.containers, cs[i].name) == i
      ensures ContainerDrift(main, cs[i], p.containers[i]).None? <==> DistinctEnv(cs[i].env.Elems())
    {
      UniqueIndex(cs, i);
      ReflexiveExactlyWhenDistinct(cs[i].env);
    }
    forall i | 0 <= i < |inits|
      ensures LoopCompareEnv(inits[i].env, p.initContainers[i].env) <==> DistinctEnv(inits[i].env.Elems())
    {
      ReflexiveExactlyWhenDistinct(inits[i].env);
    }
    if EnvsDistinct(cs) && EnvsDistinct(inits) {
      forall i, j | 0 <= i < |inits| && 0 <= j < |inits| && inits[i].name == p.initContainers[j].name
        ensures LoopCompareEnv(inits[i].env, p.initContainers[j].env)
      {
        assert i == j;
      }
    }
  }

  /******* A pod without drift stays as it is *******/

  /** Only the unit container of its name changes a pod container. */
  lemma {:induction false} PatchedByNamesake(main: string, us: seq<Container>, c: Container, isInit: bool)
    requires UniqueNames(us)
    ensures var i := IndexOfContainer(us, c.name);
            PatchContainer(main, us, c, isInit) == if i < 0 then c else PatchOne(main, us[i], c, isInit)
    decreases |us|
  {
    if us != [] {
      var next := PatchOne(main, us[0], c, isInit);
      PatchedByNamesake(main, us[1..], next, isInit);
      if us[0].name == c.name {
        assert forall k :: 0 <= k < |us[1..]| ==> us[1..][k] == us[k + 1];
        assert IndexOfContainer(us[1..], c.name) == -1;
      }
    }
  }

  ghost predicate OneSourced(cs: seq<Container>) {
    forall i :: 0 <= i < |cs| ==> OneSource(cs[i].env.Elems())
  }

  lemma ContainerEnvAlone(u: Unit, pod: Pod, j: nat)
    requires UniqueNames(u.template.containers) && UniqueNames(pod.containers)
    requires OneSourced(u.template.containers) && OneSourced(pod.containers)
    requires j < |pod.containers| && Drift(u, pod).None?
    ensures PatchContainer(MainName(u), u.template.containers, pod.containers[j], false).env == pod.containers[j].env
  {
    var main, us, c := MainName(u), u.template.containers, pod.containers[j];
    NoContainerDrift(main, us, pod.containers);
    PatchedByNamesake(main, us, c, false);
    UniqueIndex(pod.containers, j);
    var i := IndexOfContainer(us, c.name);
    if i >= 0 {
      assert ContainerDrift(main, us[i], c).None?;
      NoDriftMeansNoPatch(us[i].env, c.env);
    }
  }

  lemma InitEnvAlone(u: Unit, pod: Pod, j: nat)
    requires UniqueNames(u.template.initContainers)
    requires OneSourced(u.template.initContainers) && OneSourced(pod.initContainers)
    requires j < |pod.initContainers| && Drift(u, pod).None?
    ensures PatchContainer(MainName(u), u.template.initContainers, pod.initContainers[j], true).env
            == pod.initContainers[j].env
  {
    var us, c := u.template.initContainers, pod.initContainers[j];
    PatchedByNamesake(MainName(u), us, c, true);
    var i := IndexOfContainer(us, c.name);
    if i >= 0 {
      assert LoopCompareEnv(us[i].env, pod.initContainers[j].env);
      NoDriftMeansNoPatch(us[i].env, c.env);
    }
  }

  /** When no drift is reported, the patch leaves every environment list of the pod untouched. */
  lemma NoDriftLeavesEnvsAlone(u: Unit, pod: Pod)
    requires UniqueNames(u.template.containers) && UniqueNames(u.template.initContainers) && UniqueNames(pod.containers)
    requires OneSourced(u.template.containers) && OneSourced(u.template.initContainers)
    requires OneSourced(pod.containers) && OneSourced(pod.initContainers)
    requires Drift(u, pod).None?
    ensures forall j :: 0 <= j < |pod.containers| ==> PatchTarget(u, pod).containers[j].env == pod.containers[j].env
    ensures forall j :: 0 <= j < |pod.initContainers| ==>
            PatchTarget(u, pod).initContainers[j].env == pod.initContainers[j].env
  {
    forall j | 0 <= j < |pod.containers| ensures PatchTarget(u, pod).containers[j].env == pod.containers[j].env {
      ContainerEnvAlone(u, pod, j);
    }
    forall j | 0 <= j < |pod.initContainers|
      ensures PatchTarget(u, pod).initContainers[j].env == pod.initContainers[j].env
    {
      InitEnvAlone(u, pod, j);
    }
  }

  /******* One reconcile: what it makes of the drift *******/

  /** Patching turns the first container of a name into one that differs no more from the unit's than before. */
  lemma PatchedStaysMatched(main: string, us: seq<Container>, i: nat, c: Container)
    requires i < |us| && UniqueNames(us) && c.name == us[i].name
    requires us[i].env == StoredSlice(us[i].env) && DistinctEnv(us[i].env.Elems())
    requires ContainerDrift(main, us[i], c).None?
    ensures ContainerDrift(main, us[i], PatchContainer(main, us, c, false)).None?
  {
    PatchedByNamesake(main, us, c, false);
    UniqueIndex(us, i);
    ReflexiveExactlyWhenDistinct(us[i].env);
  }

  lemma PatchedInitStaysMatched(main: string, us: seq<Container>, i: nat, c: Container)
    requires i < |us| && UniqueNames(us) && c.name == us[i].name
    requires us[i].env == StoredSlice(us[i].env) && DistinctEnv(us[i].env.Elems())
    requires LoopCompareEnv(us[i].env, c.env)
    ensures LoopCompareEnv(us[i].env, PatchContainer(main, us, c, true).env)
  {
    PatchedByNamesake(main, us, c, true);
    UniqueIndex(us, i);
    ReflexiveExactlyWhenDistinct(us[i].env);
  }

  /** A container that is the first of its name in the current pod ends up as its patch target. */
  lemma FirstOfNameReachesTarget(u: Unit, cur: Pod, i: nat)
    requires UniqueNames(u.template.containers)
    requires i < |cur.containers| && IndexOfContainer(cur.containers, cur.containers[i].name) == i
    ensures PatchedContainer(cur.containers, PatchTarget(u, cur).containers, cur.containers[i])
         == PatchContainer(MainName(u), u.template.containers, cur.containers[i], false)
  {
    PatchedByNamesake(MainName(u), u.template.containers, cur.containers[i], false);
  }

  lemma PatchKeepsContainerMatched(u: Unit, p: Pod, i: nat, j: nat)
    requires Proper(u) && i < |u.template.containers| && j < |p.containers|
    requires j == IndexOfContainer(p.containers, u.template.containers[i].name)
    requires ContainerDrift(MainName(u), u.template.containers[i], p.containers[j]).None?
    ensures ContainerDrift(MainName(u), u.template.containers[i], Patched(u, p, p).containers[j]).None?
  {
    FirstOfNameReachesTarget(u, p, j);
    assert u.template.containers[i] == StoredContainers(u.template.containers)[i];
    PatchedStaysMatched(MainName(u), u.template.containers, i, p.containers[j]);
  }

  lemma PatchKeepsContainersMatched(u: Unit, p: Pod)
    requires Proper(u) && Drift(u, p).None?
    ensures ContainersDrift(MainName(u), u.template.containers, Patched(u, p, p).containers).None?
  {
    var main, us, ps, qs := MainName(u), u.template.containers, p.containers, Patched(u, p, p).containers;
    NoContainerDrift(main, us, ps);
    forall i | 0 <= i < |us|
      ensures var j := IndexOfContainer(qs, us[i].name); j < 0 || ContainerDrift(main, us[i], qs[j]).None?
    {
      SameNamesSameIndex(ps, qs, us[i].name);
      var j := IndexOfContainer(ps, us[i].name);
      if j >= 0 { PatchKeepsContainerMatched(u, p, i, j); }
    }
    NoContainerDrift(main, us, qs);
  }

  lemma PatchKeepsInitsMatched(u: Unit, p: Pod)
    requires Proper(u) && !InitDrift(u.template.initContainers, p.initContainers)
    ensures !InitDrift(u.template.initContainers, Patched(u, p, p).initContainers)
  {
    var main, us, ps, qs := MainName(u), u.template.initContainers, p.initContainers, Patched(u, p, p).initContainers;
    forall i, k | 0 <= i < |us| && 0 <= k < |qs| && us[i].name == qs[k].name
      ensures LoopCompareEnv(us[i].env, qs[k].env)
    {
      var j := IndexOfContainer(ps, ps[k].name);
      assert us[i] == StoredContainers(us)[i];
      PatchedInitStaysMatched(main, us, i, ps[j]);
    }
  }

  /** A pod without drift has none after the reconcile either, whether or not the patch is accepted. */
  lemma KeptStaysDriftFree(u: Unit, p: Pod, accepted: bool)
    requires Proper(u) && Drift(u, p).None?
    ensures Drift(u, PatchIfAccepted(u, p, p, accepted)).None?
  {
    PatchKeepsContainersMatched(u, p);
    PatchKeepsInitsMatched(u, p);
  }

  /** The patch computed from the deleted pod asks nothing of a fresh container that it does not have already. */
  lemma FreshContainerUnchanged(
    main: string, us: seq<Container>, from: seq<Container>, to: seq<Container>, i: nat, isInit: bool)
    requires i < |us| && UniqueNames(us) && us[i] == StoredContainer(us[i])
    requires |to| == |from| && forall j :: 0 <= j < |from| ==> to[j] == PatchContainer(main, us, from[j], isInit)
    ensures PatchedContainer(from, to, us[i]) == us[i]
  {
    var j := IndexOfContainer(from, us[i].name);
    if j >= 0 {
      PatchedByNamesake(main, us, from[j], isInit);
      UniqueIndex(us, i);
    }
  }

  /** A recreated pod shows no drift. */
  lemma RecreatedHasNoDrift(u: Unit, cur: Pod, accepted: bool)
    requires Proper(u)
    ensures Drift(u, PatchIfAccepted(u, cur, Convert(u), accepted)).None?
  {
    FreshPodStableExactly(u);
    var created, to, patched := Convert(u), PatchTarget(u, cur), Patched(u, cur, Convert(u));
    var main, us, inits := MainName(u), u.template.containers, u.template.initContainers;
    forall i | 0 <= i < |us| ensures patched.containers[i] == created.containers[i] {
      assert us[i] == StoredContainers(us)[i];
      FreshContainerUnchanged(main, us, cur.containers, to.containers, i, false);
    }
    forall i | 0 <= i < |inits| ensures patched.initContainers[i] == created.initContainers[i] {
      assert inits[i] == StoredContainers(inits)[i];
      FreshContainerUnchanged(main, inits, cur.initContainers, to.initContainers, i, true);
    }
    assert patched.containers == created.containers && patched.initContainers == created.initContainers;
  }

  predicate WantsResize(r: Option<Reason>) {
    r == Some(CpuChanged) || r == Some(MemoryChanged)
  }

  lemma OnlyMainWantsResize(main: string, u: Container, p: Container)
    requires WantsResize(ContainerDrift(main, u, p))
    ensures u.name == main && u.resources != p.resources
  {
  }

  /** Drift in cpu or memory is always drift of the main container, which both sides have. */
  lemma ResizeCause(u: Unit, p: Pod)
    requires UniqueNames(u.template.containers) && WantsResize(Drift(u, p))
    ensures var main, us := MainName(u), u.template.containers;
            var i, j := IndexOfContainer(us, main), IndexOfContainer(p.containers, main);
            i >= 0 && j >= 0 && us[i].resources != p.containers[j].resources
  {
    var main, us := MainName(u), u.template.containers;
    assert WantsResize(ContainersDrift(main, us, p.containers));
    var k := DriftHasCause(main, us, p.containers);
    OnlyMainWantsResize(main, us[k], p.containers[IndexOfContainer(p.containers, us[k].name)]);
    UniqueIndex(us, k);
  }

  /**
   A resize always finds its containers, and afterwards the drift, if any, is in something else than cpu or memory.
   */
  lemma ResizeAligns(u: Unit, p: Pod)
    requires UniqueNames(u.template.containers) && WantsResize(Drift(u, p)) && CanUseInPlaceResize(u, p)
    ensures Resize(u, p).Some? && !WantsResize(Drift(u, Resize(u, p).value))
  {
    ResizeCause(u, p);
    var q := Resize(u, p).value;
    SameNamesSameIndex(p.containers, q.containers, MainName(u));
    if WantsResize(Drift(u, q)) {
      ResizeCause(u, q);
    }
  }

  /**
   A pod is resized in place only if that is enabled and both sides agree on image and resize policy of the main
   container; the resize then gives this container the unit's resources and changes nothing else.
   */
  lemma ResizedOnlyWhenAllowed(u: Unit, p: Pod, inPlace: bool, accepted: bool)
    requires UniqueNames(u.template.containers) && Step(u, Some(p), inPlace, accepted).1 == Resized
    ensures var i := IndexOfContainer(u.template.containers, MainName(u));
            var j := IndexOfContainer(p.containers, MainName(u));
            var q := Step(u, Some(p), inPlace, accepted).0;
            && inPlace && MainName(u) != "" && i >= 0 && j >= 0
            && u.template.containers[i].image == p.containers[j].image
            && u.template.containers[i].resizePolicy == p.containers[j].resizePolicy
            && |q.containers| == |p.containers| && q.(containers := p.containers) == p
            && forall k :: 0 <= k < |p.containers| ==>
                 var c := p.containers[k];
                 q.containers[k] == if k == j then c.(resources := u.template.containers[i].resources) else c
  {
    var main, us := MainName(u), u.template.containers;
    assert WantsResize(ContainersDrift(main, us, p.containers));
    var k := DriftHasCause(main, us, p.containers);
    OnlyMainWantsResize(main, us[k], p.containers[IndexOfContainer(p.containers, us[k].name)]);
    UniqueIndex(us, k);
  }

  /** None of the unit's containers before `i` has drifted from the pod; these are not the main one. */
  ghost predicate NoDriftBefore(us: seq<Container>, ps: seq<Container>, i: nat)
    requires i <= |us|
  {
    forall k :: 0 <= k < i ==>
      var j := IndexOfContainer(ps, us[k].name); j < 0 || LoopCompareEnv(us[k].env, ps[j].env)
  }

  lemma MainWantsResizeExactly(main: string, u: Container, p: Container)
    requires u.name == main
    ensures WantsResize(ContainerDrift(main, u, p)) <==> u.image == p.image && !SameResources(u.resources, p.resources)
  {
    SameResourcesExactly(u.resources, p.resources);
  }

  lemma OthersBeforeMain(main: string, us: seq<Container>, ps: seq<Container>, i: nat)
    requires i == IndexOfContainer(us, main)
    ensures NoDriftBefore(us, ps, i) <==> NoContainerDriftBefore(main, us, ps, i)
  {
    forall k | 0 <= k < i && IndexOfContainer(ps, us[k].name) >= 0
      ensures var j := IndexOfContainer(ps, us[k].name);
              LoopCompareEnv(us[k].env, ps[j].env) <==> ContainerDrift(main, us[k], ps[j]).None?
    {
    }
  }

  lemma MainDriftReported(main: string, us: seq<Container>, ps: seq<Container>, i: nat, j: nat)
    requires UniqueNames(us) && i == IndexOfContainer(us, main) && j == IndexOfContainer(ps, main)
    ensures WantsResize(ContainersDrift(main, us, ps)) <==>
              && NoDriftBefore(us, ps, i)
              && us[i].image == ps[j].image && !SameResources(us[i].resources, ps[j].resources)
  {
    MainWantsResizeExactly(main, us[i], ps[j]);
    OthersBeforeMain(main, us, ps, i);
    NoContainerDrift(main, us, ps);
    if ContainersDrift(main, us, ps).Some? {
      var k := DriftHasCause(main, us, ps);
      if WantsResize(ContainersDrift(main, us, ps)) {
        OnlyMainWantsResize(main, us[k], ps[IndexOfContainer(ps, us[k].name)]);
        UniqueIndex(us, k);
      }
    }
  }

  /**
   A pod is resized in place exactly if that is enabled, its main container is named and present on both sides with the
   same image and resize policy, the amounts of cpu or memory differ, and no container before it has drifted.
   */
  lemma ResizedExactly(u: Unit, p: Pod, inPlace: bool, accepted: bool)
    requires UniqueNames(u.template.containers)
    ensures var main, us, ps := MainName(u), u.template.containers, p.containers;
            var i, j := IndexOfContainer(us, main), IndexOfContainer(ps, main);
            Step(u, Some(p), inPlace, accepted).1 == Resized <==>
              && inPlace && main != "" && i >= 0 && j >= 0
              && us[i].image == ps[j].image && us[i].resizePolicy == ps[j].resizePolicy
              && !SameResources(us[i].resources, ps[j].resources)
              && NoDriftBefore(us, ps, i)
  {
    var main, us, ps := MainName(u), u.template.containers, p.containers;
    var i, j := IndexOfContainer(us, main), IndexOfContainer(ps, main);
    if i >= 0 && j >= 0 {
      MainDriftReported(main, us, ps, i, j);
    } else if WantsResize(Drift(u, p)) {
      ResizeCause(u, p);
    }
  }

  /**
   What a reconcile comes to: no pod is created over one that is there, a pod is left alone exactly if it has no drift,
   and a call that fails changes nothing, unless it has deleted the pod and cannot create the new one.
   */
  lemma AttemptExactly(u: Unit, pod: Option<Pod>, inPlace: bool, t: Try)
    ensures var (next, action) := Attempt(u, pod, inPlace, t);
            var resizes := pod.Some? && Step(u, pod, inPlace, t.accepted).1 == Resized;
            && (action == Created <==> pod.None? && t.fault.NoFault?)
            && (action == Kept <==> pod.Some? && Drift(u, pod.value).None? && !t.fault.Early?)
            && (action == Resized <==> resizes && (t.fault.NoFault? || t.fault.CreateRefused?))
            && (action == Recreated <==>
                  pod.Some? && Drift(u, pod.value).Some? && !resizes && t.fault.NoFault?)
            && (action == Errored ==>
                  next == if pod.Some? && !resizes && t.fault.CreateRefused? then None else pod)
  {
  }

  /******* Whole runs *******/

  /** The pod after one reconcile for every entry of `tries`, and the actions of those that did not fail. */
  function Run(u: Unit, pod: Option<Pod>, inPlace: bool, tries: seq<Try>): (Option<Pod>, seq<Action>)
    decreases |tries|
  {
    if tries == [] then (pod, [])
    else
      var (next, action) := Attempt(u, pod, inPlace, tries[0]);
      var (end, actions) := Run(u, next, inPlace, tries[1..]);
      (end, if action.Errored? then actions else [action] + actions)
  }

  ghost predicate OnlyKept(actions: seq<Action>) {
    forall i :: 0 <= i < |actions| ==> actions[i] == Kept
  }

  ghost predicate DriftFree(u: Unit, pod: Option<Pod>) {
    pod.Some? && Drift(u, pod.value).None?
  }

  /** Nothing happened yet, or one action other than a resize left the pod in a state that is only kept from then on. */
  ghost predicate SettlesAtOnce(u: Unit, end: Option<Pod>, actions: seq<Action>) {
    actions == [] || (actions[0] != Resized && OnlyKept(actions[1..]) && DriftFree(u, end))
  }

  lemma {:induction false} SettledRun(u: Unit, pod: Option<Pod>, inPlace: bool, tries: seq<Try>)
    requires Proper(u) && DriftFree(u, pod)
    ensures var (end, actions) := Run(u, pod, inPlace, tries); DriftFree(u, end) && OnlyKept(actions)
    decreases |tries|
  {
    if tries != [] {
      KeptStaysDriftFree(u, pod.value, tries[0].accepted);
      SettledRun(u, Attempt(u, pod, inPlace, tries[0]).0, inPlace, tries[1..]);
    }
  }

  predicate ResizeIsNext(u: Unit, pod: Option<Pod>, inPlace: bool) {
    Step(u, pod, inPlace, true).1 == Resized
  }

  /** A successful reconcile that does not resize leaves no drift. */
  lemma NoResizeMeansSettled(u: Unit, pod: Option<Pod>, inPlace: bool, accepted: bool)
    requires Proper(u) && !ResizeIsNext(u, pod, inPlace)
    ensures DriftFree(u, Some(Step(u, pod, inPlace, accepted).0)) && Step(u, pod, inPlace, accepted).1 != Resized
  {
    if pod.None? {
      FreshPodStableExactly(u);
    } else if Drift(u, pod.value).None? {
      KeptStaysDriftFree(u, pod.value, accepted);
    } else {
      RecreatedHasNoDrift(u, pod.value, accepted);
    }
  }

  lemma FailureLeavesPodOrNone(u: Unit, pod: Option<Pod>, inPlace: bool, t: Try)
    ensures var (next, action) := Attempt(u, pod, inPlace, t);
            if action.Errored? then next == pod || next.None?
            else (next, action) == (Some(Step(u, pod, inPlace, t.accepted).0), Step(u, pod, inPlace, t.accepted).1)
  {
  }

  lemma {:induction false} AlignedRun(u: Unit, pod: Option<Pod>, inPlace: bool, tries: seq<Try>)
    requires Proper(u) && !ResizeIsNext(u, pod, inPlace)
    ensures var (end, actions) := Run(u, pod, inPlace, tries); SettlesAtOnce(u, end, actions)
    decreases |tries|
  {
    if tries != [] {
      var (next, action) := Attempt(u, pod, inPlace, tries[0]);
      FailureLeavesPodOrNone(u, pod, inPlace, tries[0]);
      if action.Errored? {
        AlignedRun(u, next, inPlace, tries[1..]);
      } else {
        NoResizeMeansSettled(u, pod, inPlace, tries[0].accepted);
        SettledRun(u, next, inPlace, tries[1..]);
      }
    }
  }

  lemma ResizedIsAligned(u: Unit, pod: Option<Pod>, inPlace: bool)
    requires Proper(u) && ResizeIsNext(u, pod, inPlace)
    ensures !ResizeIsNext(u, Some(Step(u, pod, inPlace, true).0), inPlace)
  {
    ResizeAligns(u, pod.value);
  }

  /**
   From any pod, or none, and whatever fails or is refused on the way: of the reconciles that succeed, the first may
   resize in place, the next one after that may create or recreate, and all others only keep the pod, which then never
   asks to be upgraded again.
   */
  lemma {:induction false} PodConverges(u: Unit, pod: Option<Pod>, inPlace: bool, tries: seq<Try>)
    requires Proper(u)
    ensures var (end, actions) := Run(u, pod, inPlace, tries);
            if actions != [] && actions[0] == Resized then SettlesAtOnce(u, end, actions[1..])
            else SettlesAtOnce(u, end, actions)
    decreases |tries|
  {
    if !ResizeIsNext(u, pod, inPlace) {
      AlignedRun(u, pod, inPlace, tries);
    } else if tries != [] {
      var (next, action) := Attempt(u, pod, inPlace, tries[0]);
      FailureLeavesPodOrNone(u, pod, inPlace, tries[0]);
      var (end, rest) := Run(u, next, inPlace, tries[1..]);
      if action.Errored? {
        PodConverges(u, next, inPlace, tries[1..]);
      } else {
        ResizedIsAligned(u, pod, inPlace);
        AlignedRun(u, next, inPlace, tries[1..]);
        assert ([action] + rest)[1..] == rest;
      }
    }
  }

  /** In particular, two successful reconciles always suffice. */
  lemma TwoSuccessesSuffice(u: Unit, pod: Option<Pod>, inPlace: bool, tries: seq<Try>)
    requires Proper(u) && |Run(u, pod, inPlace, tries).1| >= 2
    ensures var (end, actions) := Run(u, pod, inPlace, tries); DriftFree(u, end) && OnlyKept(actions[2..])
  {
    PodConverges(u, pod, inPlace, tries);
    var actions := Run(u, pod, inPlace, tries).1;
    assert actions[1..][1..] == actions[2..];
  }

  /******* What a pod without drift looks like *******/

  ghost predicate SameEnv(u: Container, p: Container) {
    && u.env.Nil? == p.env.Nil? && DistinctEnv(u.env.Elems()) && DistinctEnv(p.env.Elems())
    && EnvMap(u.env.Elems()) == EnvMap(p.env.Elems())
  }

  ghost predicate SameMain(u: Container, p: Container) {
    && u.image == p.image && u.resizePolicy == p.resizePolicy
    && SameResources(u.resources, p.resources)
  }

  /** Unit container `i` and pod container `j`, the first of its name, carry the same settings. */
  ghost predicate InSync(u: Unit, p: Pod, i: nat, j: nat)
    requires i < |u.template.containers| && j < |p.containers|
  {
    var a, b := u.template.containers[i], p.containers[j];
    SameEnv(a, b) && (a.name == MainName(u) ==> SameMain(a, b))
  }

  lemma InSyncExactly(u: Unit, p: Pod, i: nat, j: nat)
    requires OneSourced(u.template.containers) && OneSourced(p.containers)
    requires i < |u.template.containers| && j < |p.containers|
    ensures ContainerDrift(MainName(u), u.template.containers[i], p.containers[j]).None? <==> InSync(u, p, i, j)
  {
    var a, b := u.template.containers[i], p.containers[j];
    LoopCompareExactly(a.env, b.env);
    SameResourcesExactly(a.resources, b.resources);
    assert !CpuDiffers(a, b) && !MemoryDiffers(a, b) && a.image == b.image && a.resizePolicy == b.resizePolicy <==>
        SameMain(a, b);
  }

  /**
   A pod asks for no upgrade exactly when every container that both sides have is in sync, every pair of init containers
   of one name has the same variables, and the pod did not fail on its node's affinity.
   */
  lemma DriftFreeExactly(u: Unit, p: Pod)
    requires OneSourced(u.template.containers) && OneSourced(p.containers)
    requires OneSourced(u.template.initContainers) && OneSourced(p.initContainers)
    ensures Drift(u, p).None? <==>
      && (forall i :: 0 <= i < |u.template.containers| ==>
            var j := IndexOfContainer(p.containers, u.template.containers[i].name); j < 0 || InSync(u, p, i, j))
      && (forall i, j | 0 <= i < |u.template.initContainers| && 0 <= j < |p.initContainers| ::
            u.template.initContainers[i].name == p.initContainers[j].name ==>
              SameEnv(u.template.initContainers[i], p.initContainers[j]))
      && !(p.nodeName != "" && p.statusReason == "NodeAffinity" && p.statusPhase == Failed)
  {
    var us, inits := u.template.containers, u.template.initContainers;
    NoContainerDrift(MainName(u), us, p.containers);
    forall i | 0 <= i < |us| && IndexOfContainer(p.containers, us[i].name) >= 0
      ensures var j := IndexOfContainer(p.containers, us[i].name);
              ContainerDrift(MainName(u), us[i], p.containers[j]).None? <==> InSync(u, p, i, j)
    {
      InSyncExactly(u, p, i, IndexOfContainer(p.containers, us[i].name));
    }
    forall i, j | 0 <= i < |inits| && 0 <= j < |p.initContainers|
      ensures LoopCompareEnv(inits[i].env, p.initContainers[j].env) <==> SameEnv(inits[i], p.initContainers[j])
    {
      LoopCompareExactly(inits[i].env, p.initContainers[j].env);
    }
  }

  /******* What the patch synchronises *******/

  lemma SameEntriesNoChange(cur: map<string, string>, wanted: map<string, string>)
    ensures Changed(cur + Changed(cur, wanted), wanted) == map[]
    ensures forall k :: k in wanted ==> Lookup(cur + Changed(cur, wanted), k) == wanted[k]
    ensures forall k :: k in cur && k !in wanted ==> Lookup(cur + Changed(cur, wanted), k) == cur[k]
  {
  }

  lemma EnvVarsEqualReflexive(e: seq<EnvVar>)
    ensures EnvVarsEqual(e, e)
  {
  }

  lemma PatchOneSettles(main: string, u: Container, c: Container, isInit: bool)
    ensures PatchOne(main, u, PatchOne(main, u, c, isInit), isInit) == PatchOne(main, u, c, isInit)
  {
    EnvVarsEqualReflexive(u.env.Elems());
  }

  lemma PatchContainerSettles(main: string, us: seq<Container>, c: Container, isInit: bool)
    requires UniqueNames(us)
    ensures var d := PatchContainer(main, us, c, isInit);
            d.name == c.name && PatchContainer(main, us, d, isInit) == d
  {
    PatchedByNamesake(main, us, c, isInit);
    var d := PatchContainer(main, us, c, isInit);
    PatchedByNamesake(main, us, d, isInit);
    var i := IndexOfContainer(us, c.name);
    if i >= 0 { PatchOneSettles(main, us[i], c, isInit); }
  }

  lemma PatchReachesTarget(u: Unit, p: Pod)
    requires UniqueNames(u.template.containers) && UniqueNames(u.template.initContainers)
    requires UniqueNames(p.containers) && UniqueNames(p.initContainers)
    ensures Patched(u, p, p) == PatchTarget(u, p)
  {
    var q, to := Patched(u, p, p), PatchTarget(u, p);
    forall j | 0 <= j < |p.containers| ensures q.containers[j] == to.containers[j] {
      UniqueIndex(p.containers, j);
      PatchedByNamesake(MainName(u), u.template.containers, p.containers[j], false);
    }
    forall j | 0 <= j < |p.initContainers| ensures q.initContainers[j] == to.initContainers[j] {
      UniqueIndex(p.initContainers, j);
      PatchedByNamesake(MainName(u), u.template.initContainers, p.initContainers[j], true);
    }
    assert q.containers == to.containers && q.initContainers == to.initContainers;
  }

  lemma TargetSettles(u: Unit, p: Pod)
    requires UniqueNames(u.template.containers) && UniqueNames(u.template.initContainers)
    ensures PatchTarget(u, PatchTarget(u, p)) == PatchTarget(u, p)
  {
    var q := PatchTarget(u, p);
    var r := PatchTarget(u, q);
    SameEntriesNoChange(p.labels, u.labels);
    SameEntriesNoChange(p.annotations, u.annotations);
    forall j | 0 <= j < |p.containers| ensures r.containers[j] == q.containers[j] {
      PatchContainerSettles(MainName(u), u.template.containers, p.containers[j], false);
    }
    forall j | 0 <= j < |p.initContainers| ensures r.initContainers[j] == q.initContainers[j] {
      PatchContainerSettles(MainName(u), u.template.initContainers, p.initContainers[j], true);
    }
    assert r.containers == q.containers && r.initContainers == q.initContainers;
    assert q.labels + map[] == q.labels && q.annotations + map[] == q.annotations;
  }

  /** What the patch makes of pod container `c`, given the unit container `u` of its name. */
  ghost predicate Synced(main: string, u: Container, c: Container, d: Container, isInit: bool) {
    && d == c.(image := d.image, env := d.env)
    && d.image == (if isInit || c.name == main then c.image else u.image)
    && EnvVarsEqual(u.env.Elems(), d.env.Elems())
    && if EnvVarsEqual(u.env.Elems(), c.env.Elems()) then d.env == c.env else d.env.Elems() == u.env.Elems()
  }

  lemma SyncedByNamesake(main: string, us: seq<Container>, c: Container, isInit: bool)
    requires UniqueNames(us)
    ensures var i, d := IndexOfContainer(us, c.name), PatchContainer(main, us, c, isInit);
            if i < 0 then d == c else Synced(main, us[i], c, d, isInit)
  {
    PatchedByNamesake(main, us, c, isInit);
    var i := IndexOfContainer(us, c.name);
    if i >= 0 { EnvVarsEqualReflexive(us[i].env.Elems()); }
  }

  /**
   One accepted patch: each container gets the image, unless it is the main one, and the variables of the unit's
   container of its name, and keeps all else; init containers get the variables only; the unit's node name wins.
   */
  lemma PatchSyncsContainers(u: Unit, p: Pod)
    requires UniqueNames(u.template.containers) && UniqueNames(u.template.initContainers)
    requires UniqueNames(p.containers) && UniqueNames(p.initContainers)
    ensures var q, main, us, inits := Patched(u, p, p), MainName(u), u.template.containers, u.template.initContainers;
            && |q.containers| == |p.containers| && |q.initContainers| == |p.initContainers|
            && (forall j :: 0 <= j < |p.containers| ==>
                  var i := IndexOfContainer(us, p.containers[j].name);
                  if i < 0 then q.containers[j] == p.containers[j]
                  else Synced(main, us[i], p.containers[j], q.containers[j], false))
            && (forall j :: 0 <= j < |p.initContainers| ==>
                  var i := IndexOfContainer(inits, p.initContainers[j].name);
                  if i < 0 then q.initContainers[j] == p.initContainers[j]
                  else Synced(main, inits[i], p.initContainers[j], q.initContainers[j], true))
            && q.nodeName == (if u.template.nodeName == "" then p.nodeName else u.template.nodeName)
            && q.statusReason == p.statusReason && q.statusPhase == p.statusPhase
  {
    PatchReachesTarget(u, p);
    forall j | 0 <= j < |p.containers|
      ensures var i, d := IndexOfContainer(u.template.containers, p.containers[j].name), Patched(u, p, p).containers[j];
              if i < 0 then d == p.containers[j]
              else Synced(MainName(u), u.template.containers[i], p.containers[j], d, false)
    {
      SyncedByNamesake(MainName(u), u.template.containers, p.containers[j], false);
    }
    forall j | 0 <= j < |p.initContainers|
      ensures var i := IndexOfContainer(u.template.initContainers, p.initContainers[j].name);
              var d := Patched(u, p, p).initContainers[j];
              if i < 0 then d == p.initContainers[j]
              else Synced(MainName(u), u.template.initContainers[i], p.initContainers[j], d, true)
    {
      SyncedByNamesake(MainName(u), u.template.initContainers, p.initContainers[j], true);
    }
  }

  /**
   One accepted patch brings the unit's labels and annotations and the images of all other than the main container to
   the pod, keeps the pod's other ones, and leaves nothing for a second patch to do.
   */
  lemma PatchSettles(u: Unit, p: Pod)
    requires UniqueNames(u.template.containers) && UniqueNames(u.template.initContainers)
    requires UniqueNames(p.containers) && UniqueNames(p.initContainers)
    ensures var q := Patched(u, p, p);
            && Patched(u, q, q) == q
            && (forall k :: k in u.labels ==> Lookup(q.labels, k) == u.labels[k])
            && (forall k :: k in u.annotations ==> Lookup(q.annotations, k) == u.annotations[k])
            && (forall k :: k in p.labels && k !in u.labels ==> Lookup(q.labels, k) == p.labels[k])
            && (forall k :: k in p.annotations && k !in u.annotations ==> Lookup(q.annotations, k) == p.annotations[k])
            && q.labels.Keys <= p.labels.Keys + u.labels.Keys
            && q.annotations.Keys <= p.annotations.Keys + u.annotations.Keys
            && |q.containers| == |p.containers|
            && forall i, j | 0 <= i < |u.template.containers| && 0 <= j < |q.containers| ::
                 u.template.containers[i].name == q.containers[j].name && q.containers[j].name != MainName(u) ==>
                   q.containers[j].image == u.template.containers[i].image
  {
    var q := Patched(u, p, p);
    PatchReachesTarget(u, p);
    forall j | 0 <= j < |p.containers| ensures q.containers[j].name == p.containers[j].name {
      PatchContainerSettles(MainName(u), u.template.containers, p.containers[j], false);
    }
    forall j | 0 <= j < |p.initContainers| ensures q.initContainers[j].name == p.initContainers[j].name {
      PatchContainerSettles(MainName(u), u.template.initContainers, p.initContainers[j], true);
    }
    PatchReachesTarget(u, q);
    TargetSettles(u, p);
    SameEntriesNoChange(p.labels, u.labels);
    SameEntriesNoChange(p.annotations, u.annotations);
    forall i, j | 0 <= i < |u.template.containers| && 0 <= j < |q.containers|
      && u.template.containers[i].name == q.containers[j].name && q.containers[j].name != MainName(u)
      ensures q.containers[j].image == u.template.containers[i].image
    {
      UniqueIndex(u.template.containers, i);
      PatchedByNamesake(MainName(u), u.template.containers, p.containers[j], false);
    }
  }

  /******* Across the two controllers *******/

  /** The unit the unit set controller creates from a pod template, as the API server stores it. */
  function AssembledUnit(
    labels: map<string, string>, annotations: map<string, string>, t: PodTemplate, spec: UnitSetSpec,
    order: seq<string>): Unit
    requires Enumerates(order, LastByName(spec.mounts).Keys)
  {
    var a := Assemble(t, spec, order);
    Unit(labels, annotations[MAIN_CONTAINER_NAME := spec.mainType][MAIN_CONTAINER_VERSION := spec.version],
         a.(containers := StoredContainers(a.containers), initContainers := StoredContainers(a.initContainers)), Unset)
  }

  lemma {:induction false} CreatedRun(u: Unit, inPlace: bool, tries: seq<Try>)
    requires Proper(u)
    ensures var (end, actions) := Run(u, None, inPlace, tries);
            actions == [] || (actions[0] == Created && OnlyKept(actions[1..]) && DriftFree(u, end))
    decreases |tries|
  {
    if tries != [] {
      var (next, action) := Attempt(u, None, inPlace, tries[0]);
      if action.Errored? {
        CreatedRun(u, inPlace, tries[1..]);
      } else {
        FreshPodStableExactly(u);
        SettledRun(u, next, inPlace, tries[1..]);
      }
    }
  }

  /**
   Whatever environment lists the unit set and the template bring along, and whatever fails, the pod of an assembled
   unit is created once, never resized or recreated, and never asks to be.
   */
  lemma NoRecreateLoop(
    labels: map<string, string>, annotations: map<string, string>, t: PodTemplate, spec: UnitSetSpec,
    order: seq<string>,
    inPlace: bool, tries: seq<Try>)
    requires Enumerates(order, LastByName(spec.mounts).Keys)
    requires UniqueNames(t.containers) && UniqueNames(t.initContainers)
    ensures var u := AssembledUnit(labels, annotations, t, spec, order);
            var (end, actions) := Run(u, None, inPlace, tries);
            && Proper(u)
            && u.labels == labels && MainName(u) == spec.mainType
            && Lookup(u.annotations, MAIN_CONTAINER_VERSION) == spec.version
            && (actions == [] || (actions[0] == Created && OnlyKept(actions[1..]) && DriftFree(u, end)))
  {
    var u := AssembledUnit(labels, annotations, t, spec, order);
    AssembledTemplate(t, spec, order);
    assert IsStored(u);
    CreatedRun(u, inPlace, tries);
  }
}
