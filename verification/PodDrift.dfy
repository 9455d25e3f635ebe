/**
 How the unit controller compares a pod with its unit, and what it writes: in-place resize, recreate, or patch.
 The API server is modelled as storing empty lists as absent ones, and as refusing a patch that changes the node name.
 */
module PodDrift {
  import opened Common
  import opened Cluster
  import opened Assembly
  import opened EnvCompare

  datatype Pod = Pod(
    labels: map<string, string>,
    annotations: map<string, string>,
    containers: seq<Container>,
    initContainers: seq<Container>,
    nodeName: string,
    statusReason: string,
    statusPhase: Phase)

  datatype Reason =
    | ImageChanged | CpuChanged | MemoryChanged | EnvChanged | ResizePolicyChanged
    | ContainerEnvChanged(name: string) | InitEnvChanged | NodeAffinityFailed

  function MainName(u: Unit): string {
    Lookup(u.annotations, MAIN_CONTAINER_NAME)
  }

  /******* Drift *******/

  predicate CpuDiffers(u: Container, p: Container) {
    || Quantity(u.resources.requests, "cpu") != Quantity(p.resources.requests, "cpu")
    || Quantity(u.resources.limits, "cpu") != Quantity(p.resources.limits, "cpu")
  }

  predicate MemoryDiffers(u: Container, p: Container) {
    || Quantity(u.resources.requests, "memory") != Quantity(p.resources.requests, "memory")
    || Quantity(u.resources.limits, "memory") != Quantity(p.resources.limits, "memory")
  }

  function ContainerDrift(main: string, u: Container, p: Container): Option<Reason> {
    if u.name == main then
      if u.image != p.image then Some(ImageChanged)
      else if CpuDiffers(u, p) then Some(CpuChanged)
      else if MemoryDiffers(u, p) then Some(MemoryChanged)
      else if !LoopCompareEnv(u.env, p.env) then Some(EnvChanged)
      else if u.resizePolicy != p.resizePolicy then Some(ResizePolicyChanged)
      else None
    else if !LoopCompareEnv(u.env, p.env) then Some(ContainerEnvChanged(u.name))
    else None
  }

  /** Each unit container against the first pod container of its name. */
  function ContainersDrift(main: string, us: seq<Container>, ps: seq<Container>): Option<Reason> {
    if us == [] then None
    else
      var j := IndexOfContainer(ps, us[0].name);
      var d := if j < 0 then None else ContainerDrift(main, us[0], ps[j]);
      if d.Some? then d else ContainersDrift(main, us[1..], ps)
  }

  /** Each init container of the unit against every init container of its name. */
  predicate InitDrift(us: seq<Container>, ps: seq<Container>) {
    exists i, j :: 0 <= i < |us| && 0 <= j < |ps| && us[i].name == ps[j].name && !LoopCompareEnv(us[i].env, ps[j].env)
  }

  predicate NodeAffinityBroken(pod: Pod) {
    pod.nodeName != "" && pod.statusReason == "NodeAffinity" && pod.statusPhase == Failed
  }

  function Drift(u: Unit, pod: Pod): Option<Reason> {
    var d := ContainersDrift(MainName(u), u.template.containers, pod.containers);
    if d.Some? then d
    else if InitDrift(u.template.initContainers, pod.initContainers) then Some(InitEnvChanged)
    else if NodeAffinityBroken(pod) then Some(NodeAffinityFailed)
    else None
  }

  method IfNeedUpgradePod(u: Unit, pod: Pod) returns (reason: Option<Reason>)
    ensures reason == Drift(u, pod)
  {
    var main := MainName(u);
    var us, ps := u.template.containers, pod.containers;
    for i := 0 to |us|
      invariant ContainersDrift(main, us, ps) == ContainersDrift(main, us[i..], ps)
    {
      assert us[i..][1..] == us[i + 1..];
      var j := 0;
      while j < |ps|
        invariant 0 <= j <= |ps|
        invariant forall k :: 0 <= k < j ==> ps[k].name != us[i].name
      {
        if us[i].name == ps[j].name {
          var d := ContainerDrift(main, us[i], ps[j]);
          if d.Some? { return d; }
          break;
        }
        j := j + 1;
      }
    }
    var uis, pis := u.template.initContainers, pod.initContainers;
    for i := 0 to |uis|
      invariant forall k, l :: 0 <= k < i && 0 <= l < |pis| && uis[k].name == pis[l].name ==>
                  LoopCompareEnv(uis[k].env, pis[l].env)
    {
      for j := 0 to |pis|
        invariant forall l :: 0 <= l < j && uis[i].name == pis[l].name ==> LoopCompareEnv(uis[i].env, pis[l].env)
      {
        if uis[i].name == pis[j].name {
          var equal := CompareEnvLists(uis[i].env, pis[j].env);
          if !equal { return Some(InitEnvChanged); }
        }
      }
    }
    if NodeAffinityBroken(pod) { return Some(NodeAffinityFailed); }
    return None;
  }

  /** No container drift means that no unit container differs from the first pod container of its name. */
  lemma {:induction false} NoContainerDrift(main: string, us: seq<Container>, ps: seq<Container>)
    ensures ContainersDrift(main, us, ps).None? <==>
      forall i :: 0 <= i < |us| ==>
        IndexOfContainer(ps, us[i].name) < 0 || ContainerDrift(main, us[i], ps[IndexOfContainer(ps, us[i].name)]).None?
  {
    if us != [] {
      NoContainerDrift(main, us[1..], ps);
      assert forall i :: 0 < i < |us| ==> us[i] == us[1..][i - 1];
    }
  }

  /** No unit container before `i` differs from the first pod container of its name. */
  ghost predicate NoContainerDriftBefore(main: string, us: seq<Container>, ps: seq<Container>, i: nat)
    requires i <= |us|
  {
    forall k :: 0 <= k < i ==>
      IndexOfContainer(ps, us[k].name) < 0 || ContainerDrift(main, us[k], ps[IndexOfContainer(ps, us[k].name)]).None?
  }

  /** The reason reported is the drift of the first container that has drifted. */
  lemma {:induction false} DriftHasCause(main: string, us: seq<Container>, ps: seq<Container>) returns (i: nat)
    requires ContainersDrift(main, us, ps).Some?
    ensures i < |us| && IndexOfContainer(ps, us[i].name) >= 0
    ensures ContainerDrift(main, us[i], ps[IndexOfContainer(ps, us[i].name)]) == ContainersDrift(main, us, ps)
    ensures NoContainerDriftBefore(main, us, ps, i)
  {
    var j := IndexOfContainer(ps, us[0].name);
    if j >= 0 && ContainerDrift(main, us[0], ps[j]).Some? {
      i := 0;
    } else {
      i := DriftHasCause(main, us[1..], ps);
      i := i + 1;
    }
  }

  /******* In-place resize *******/

  function PolicyOf(cs: seq<Container>, name: string): Slice<ResizeRule> {
    var i := IndexOfContainer(cs, name);
    if i < 0 then Nil else cs[i].resizePolicy
  }

  predicate CanUseInPlaceResize(u: Unit, pod: Pod) {
    var main := MainName(u);
    var desired, actual := PolicyOf(u.template.containers, main), PolicyOf(pod.containers, main);
    && main != ""
    && !(desired.Elems() != [] && actual.Elems() == [])
    && desired == actual
  }

  /** The pod after a resize of its main container; nothing when a container or the annotation is missing. */
  function Resize(u: Unit, pod: Pod): Option<Pod> {
    var main := MainName(u);
    var i, j := IndexOfContainer(u.template.containers, main), IndexOfContainer(pod.containers, main);
    if main == "" || i < 0 || j < 0 then None
    else
      var resized := pod.containers[j].(resources := u.template.containers[i].resources);
      Some(pod.(containers := pod.containers[j := resized]))
  }

  /******* A fresh pod *******/

  function StoredSlice<T>(s: Slice<T>): Slice<T> {
    if s.Elems() == [] then Nil else s
  }

  function StoredContainer(c: Container): Container {
    c.(env := StoredSlice(c.env), mounts := StoredSlice(c.mounts), resizePolicy := StoredSlice(c.resizePolicy))
  }

  function StoredContainers(cs: seq<Container>): (r: seq<Container>)
    ensures |r| == |cs|
  {
    seq(|cs|, i requires 0 <= i < |cs| => StoredContainer(cs[i]))
  }

  /** The unit is as the API server returns it: no list is empty without being absent. */
  ghost predicate IsStored(u: Unit) {
    && u.template.containers == StoredContainers(u.template.containers)
    && u.template.initContainers == StoredContainers(u.template.initContainers)
  }

  /** The pod created from a unit: entries of the template win over those of the unit itself. */
  function Convert(u: Unit): Pod {
    Pod(u.labels + u.template.labels, u.annotations + u.template.annotations,
        StoredContainers(u.template.containers), StoredContainers(u.template.initContainers),
        u.template.nodeName, "", Pending)
  }

  /** The pod's entries are the template's, and the unit's own under all other keys. */
  ghost predicate TemplateFirst(own: map<string, string>, template: map<string, string>, r: map<string, string>) {
    && (forall k :: k in r <==> k in template || k in own)
    && (forall k :: k in template ==> r[k] == template[k])
    && (forall k :: k in own && k !in template ==> r[k] == own[k])
  }

  /** The containers as listed, but with absent lists in the place of empty ones. */
  ghost predicate SameContainers(cs: seq<Container>, ps: seq<Container>) {
    && |ps| == |cs|
    && forall i :: 0 <= i < |cs| ==>
         && ps[i] == cs[i].(env := ps[i].env, mounts := ps[i].mounts, resizePolicy := ps[i].resizePolicy)
         && ps[i].env.Elems() == cs[i].env.Elems() && ps[i].env != Slice([])
         && ps[i].mounts.Elems() == cs[i].mounts.Elems() && ps[i].mounts != Slice([])
         && ps[i].resizePolicy.Elems() == cs[i].resizePolicy.Elems() && ps[i].resizePolicy != Slice([])
  }

  lemma ConvertExactly(u: Unit)
    ensures var t, p := u.template, Convert(u);
            && TemplateFirst(u.labels, t.labels, p.labels)
            && TemplateFirst(u.annotations, t.annotations, p.annotations)
            && SameContainers(t.containers, p.containers) && SameContainers(t.initContainers, p.initContainers)
            && p.nodeName == t.nodeName && !NodeAffinityBroken(p)
  {
  }

  /******* The patch *******/

  /** What unit container `u` makes of pod container `c`. */
  function PatchOne(main: string, u: Container, c: Container, isInit: bool): Container {
    if u.name != c.name then c
    else
      var withImage := if !isInit && u.name != main then c.(image := u.image) else c;
      if EnvVarsEqual(u.env.Elems(), c.env.Elems()) then withImage
      else withImage.(env := StoredSlice(Slice(u.env.Elems())))
  }

  function PatchContainer(main: string, us: seq<Container>, c: Container, isInit: bool): Container
    decreases |us|
  {
    if us == [] then c else PatchContainer(main, us[1..], PatchOne(main, us[0], c, isInit), isInit)
  }

  /**
   The desired pod the patch is computed from: the current one with labels, annotations, images and envs synchronised.
   */
  function PatchTarget(u: Unit, cur: Pod): Pod {
    var main := MainName(u);
    cur.(labels := cur.labels + Changed(cur.labels, u.labels),
         annotations := cur.annotations + Changed(cur.annotations, u.annotations),
         nodeName := if u.template.nodeName != "" then u.template.nodeName else cur.nodeName,
         containers := seq(|cur.containers|, i requires 0 <= i < |cur.containers| =>
           PatchContainer(main, u.template.containers, cur.containers[i], false)),
         initContainers := seq(|cur.initContainers|, i requires 0 <= i < |cur.initContainers| =>
           PatchContainer(main, u.template.initContainers, cur.initContainers[i], true)))
  }

  method GeneratePatchContainers(main: string, us: seq<Container>, cs: seq<Container>, isInit: bool)
    returns (r: seq<Container>)
    ensures |r| == |cs| && forall j :: 0 <= j < |cs| ==> r[j] == PatchContainer(main, us, cs[j], isInit)
  {
    r := cs;
    for i := 0 to |us|
      invariant |r| == |cs|
      invariant forall j :: 0 <= j < |cs| ==>
                  PatchContainer(main, us[i..], r[j], isInit) == PatchContainer(main, us, cs[j], isInit)
    {
      assert us[i..][1..] == us[i + 1..];
      ghost var before := r;
      for j := 0 to |cs|
        invariant |r| == |cs|
        invariant forall k :: 0 <= k < j ==> r[k] == PatchOne(main, us[i], before[k], isInit)
        invariant forall k :: j <= k < |cs| ==> r[k] == before[k]
      {
        if us[i].name == r[j].name {
          var c := r[j];
          if !isInit && us[i].name != main && c.image != us[i].image {
            c := c.(image := us[i].image);
          }
          var equal := CompareEnvVars(us[i].env.Elems(), c.env.Elems());
          if !equal {
            c := c.(env := StoredSlice(Slice(us[i].env.Elems())));
          }
          r := r[j := c];
        }
      }
    }
  }

  method GeneratePatchPod(u: Unit, cur: Pod) returns (clone: Pod)
    ensures clone == PatchTarget(u, cur)
  {
    var main := MainName(u);
    var cs := GeneratePatchContainers(main, u.template.containers, cur.containers, false);
    var inits := GeneratePatchContainers(main, u.template.initContainers, cur.initContainers, true);
    clone := cur.(labels := cur.labels + Changed(cur.labels, u.labels),
                  annotations := cur.annotations + Changed(cur.annotations, u.annotations),
                  containers := cs, initContainers := inits);
    if u.template.nodeName == "" && cur.nodeName != "" {
      clone := clone.(nodeName := cur.nodeName);
    } else if u.template.nodeName != "" && u.template.nodeName != cur.nodeName {
      clone := clone.(nodeName := u.template.nodeName);
    }
    assert cs == PatchTarget(u, cur).containers && inits == PatchTarget(u, cur).initContainers;
  }

  /** Applies to container `t` what changed between the container of its name in `from` and its counterpart in `to`. */
  function PatchedContainer(from: seq<Container>, to: seq<Container>, t: Container): Container
    requires |from| == |to|
  {
    var j := IndexOfContainer(from, t.name);
    if j < 0 then t
    else t.(image := if from[j].image != to[j].image then to[j].image else t.image,
            env := if from[j].env != to[j].env then to[j].env else t.env)
  }

  /** Applies to `pod` the difference between `cur` and its patch target. */
  function Patched(u: Unit, cur: Pod, pod: Pod): Pod {
    var to := PatchTarget(u, cur);
    pod.(labels := pod.labels + Changed(cur.labels, u.labels),
         annotations := pod.annotations + Changed(cur.annotations, u.annotations),
         nodeName := if cur.nodeName != to.nodeName then to.nodeName else pod.nodeName,
         containers := seq(|pod.containers|, i requires 0 <= i < |pod.containers| =>
           PatchedContainer(cur.containers, to.containers, pod.containers[i])),
         initContainers := seq(|pod.initContainers|, i requires 0 <= i < |pod.initContainers| =>
           PatchedContainer(cur.initContainers, to.initContainers, pod.initContainers[i])))
  }

  /** The entries to set; an absent entry reads as the empty string, so an empty one is not added. */
  function Changed(cur: map<string, string>, wanted: map<string, string>): map<string, string> {
    map k | k in wanted && Lookup(cur, k) != wanted[k] :: wanted[k]
  }
}
