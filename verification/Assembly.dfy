/**
 How a unit's pod template is assembled from a pod template and a unit set: environment variables are merged by
 first occurrence, volume mounts are added in whatever order a Go map is iterated, resources are filled in.
 */
module Assembly {
  import opened Common
  import opened Cluster

  /******* Environment variables *******/

  predicate HasEnv(envs: seq<EnvVar>, name: string) {
    exists i :: 0 <= i < |envs| && envs[i].name == name
  }

  ghost predicate DistinctEnv(envs: seq<EnvVar>) {
    forall i, j :: 0 <= i < j < |envs| ==> envs[i].name != envs[j].name
  }

  function AddEnvVar(envs: seq<EnvVar>, e: EnvVar): seq<EnvVar> {
    if HasEnv(envs, e.name) then envs else envs + [e]
  }

  function AddEnvVars(envs: seq<EnvVar>, more: seq<EnvVar>): seq<EnvVar>
    decreases |more|
  {
    if more == [] then envs else AddEnvVars(AddEnvVar(envs, more[0]), more[1..])
  }

  function MergedEnv(first: seq<EnvVar>, second: seq<EnvVar>, third: seq<EnvVar>): seq<EnvVar> {
    AddEnvVars(AddEnvVars(AddEnvVars([], first), second), third)
  }

  method MergeEnvs(first: seq<EnvVar>, second: seq<EnvVar>, third: seq<EnvVar>) returns (need: seq<EnvVar>)
    ensures need == MergedEnv(first, second, third)
  {
    need := AppendMissing([], first);
    need := AppendMissing(need, second);
    need := AppendMissing(need, third);
  }

  method AppendMissing(envs: seq<EnvVar>, more: seq<EnvVar>) returns (need: seq<EnvVar>)
    ensures need == AddEnvVars(envs, more)
  {
    need := envs;
    for i := 0 to |more|
      invariant AddEnvVars(need, more[i..]) == AddEnvVars(envs, more)
    {
      assert more[i..][1..] == more[i + 1..];
      if !HasEnv(need, more[i].name) {
        need := need + [more[i]];
      }
    }
  }

  /** The first entry called `name` in `all` is `all[i]`. */
  ghost predicate IsFirst(all: seq<EnvVar>, i: nat) {
    i < |all| && forall j :: 0 <= j < i ==> all[j].name != all[i].name
  }

  /**
   `r` is exactly the first occurrences in `all`, in their order: position `at[p]` of `all` is where `r[p]` comes from.
   */
  ghost predicate FirstOccurrences(all: seq<EnvVar>, r: seq<EnvVar>, at: seq<nat>) {
    && |at| == |r|
    && (forall p :: 0 <= p < |at| ==> IsFirst(all, at[p]) && r[p] == all[at[p]])
    && (forall p, q :: 0 <= p < q < |at| ==> at[p] < at[q])
    && (forall i :: 0 <= i < |all| && IsFirst(all, i) ==> i in at)
  }

  lemma {:induction false} FirstIndexOf(all: seq<EnvVar>, i: nat) returns (k: nat)
    requires i < |all|
    ensures k <= i && IsFirst(all, k) && all[k].name == all[i].name
  {
    if IsFirst(all, i) {
      k := i;
    } else {
      var j :| 0 <= j < i && all[j].name == all[i].name;
      k := FirstIndexOf(all, j);
    }
  }

  lemma StaysFirst(all: seq<EnvVar>, e: EnvVar, i: nat)
    requires i < |all|
    ensures IsFirst(all + [e], i) == IsFirst(all, i)
  {
    assert forall j :: 0 <= j <= i ==> (all + [e])[j] == all[j];
  }

  lemma AddKnown(all: seq<EnvVar>, envs: seq<EnvVar>, at: seq<nat>, e: EnvVar)
    requires FirstOccurrences(all, envs, at) && HasEnv(envs, e.name)
    ensures FirstOccurrences(all + [e], envs, at)
  {
    var p :| 0 <= p < |envs| && envs[p].name == e.name;
    assert (all + [e])[at[p]].name == e.name;
    assert !IsFirst(all + [e], |all|);
    forall i: nat | i < |all| ensures IsFirst(all + [e], i) == IsFirst(all, i) { StaysFirst(all, e, i); }
  }

  lemma NotListedYet(all: seq<EnvVar>, envs: seq<EnvVar>, at: seq<nat>, name: string, j: nat)
    requires FirstOccurrences(all, envs, at) && !HasEnv(envs, name) && j < |all|
    ensures all[j].name != name
  {
    var k := FirstIndexOf(all, j);
    assert k in at;
    var p :| 0 <= p < |at| && at[p] == k;
    assert envs[p].name == all[j].name;
  }

  lemma AddNew(all: seq<EnvVar>, envs: seq<EnvVar>, at: seq<nat>, e: EnvVar)
    requires FirstOccurrences(all, envs, at) && !HasEnv(envs, e.name)
    ensures FirstOccurrences(all + [e], envs + [e], at + [|all|])
  {
    var next, at' := all + [e], at + [|all|];
    forall i: nat | i < |all| ensures IsFirst(next, i) == IsFirst(all, i) { StaysFirst(all, e, i); }
    forall j: nat | j < |all| ensures next[j].name != e.name { NotListedYet(all, envs, at, e.name, j); }
    assert IsFirst(next, |all|);
    forall i | 0 <= i < |next| && IsFirst(next, i) ensures i in at' {
      if i == |all| {
        assert at'[|at|] == i;
      } else {
        var p :| 0 <= p < |at| && at[p] == i;
        assert at'[p] == i;
      }
    }
  }

  lemma AddOne(all: seq<EnvVar>, envs: seq<EnvVar>, at: seq<nat>, e: EnvVar) returns (at': seq<nat>)
    requires FirstOccurrences(all, envs, at)
    ensures FirstOccurrences(all + [e], AddEnvVar(envs, e), at')
  {
    if HasEnv(envs, e.name) {
      at' := at;
      AddKnown(all, envs, at, e);
    } else {
      at' := at + [|all|];
      AddNew(all, envs, at, e);
    }
  }

  lemma {:induction false} AddMany(all: seq<EnvVar>, envs: seq<EnvVar>, at: seq<nat>, more: seq<EnvVar>)
    returns (at': seq<nat>)
    requires FirstOccurrences(all, envs, at)
    ensures FirstOccurrences(all + more, AddEnvVars(envs, more), at')
    decreases |more|
  {
    if more == [] {
      assert all + more == all;
      at' := at;
    } else {
      var all1 := all + [more[0]];
      assert all1 + more[1..] == all + more;
      var at1 := AddOne(all, envs, at, more[0]);
      at' := AddMany(all1, AddEnvVar(envs, more[0]), at1, more[1..]);
    }
  }

  /** The merged list is the first-occurrence deduplication of the unit set's, the mounts' and the template's lists. */
  lemma MergedEnvIsFirstOccurrences(first: seq<EnvVar>, second: seq<EnvVar>, third: seq<EnvVar>) returns (at: seq<nat>)
    ensures FirstOccurrences(first + second + third, MergedEnv(first, second, third), at)
    ensures DistinctEnv(MergedEnv(first, second, third))
  {
    at := AddMany([], [], [], first);
    assert [] + first == first;
    at := AddMany(first, AddEnvVars([], first), at, second);
    at := AddMany(first + second, AddEnvVars(AddEnvVars([], first), second), at, third);
    var all, r := first + second + third, MergedEnv(first, second, third);
    forall p, q | 0 <= p < q < |r| ensures r[p].name != r[q].name {
      assert IsFirst(all, at[q]) && at[p] < at[q];
    }
  }

  /******* Volume mounts *******/

  predicate HasMount(mounts: seq<VolumeMount>, name: string) {
    exists i :: 0 <= i < |mounts| && mounts[i].name == name
  }

  /** The deduplicated mounts, by name: a later mount replaces an earlier one. */
  function LastByName(mounts: seq<VolumeMount>): (m: map<string, VolumeMount>)
    ensures forall n :: n in m ==> m[n].name == n
  {
    if mounts == [] then map[]
    else LastByName(mounts[..|mounts| - 1])[mounts[|mounts| - 1].name := mounts[|mounts| - 1]]
  }

  /** The mount kept for a name is the last one listed, and every listed name is kept. */
  lemma {:induction false} LastListedWins(mounts: seq<VolumeMount>, i: nat)
    requires i < |mounts| && forall j :: i < j < |mounts| ==> mounts[j].name != mounts[i].name
    ensures mounts[i].name in LastByName(mounts) && LastByName(mounts)[mounts[i].name] == mounts[i]
    decreases |mounts|
  {
    if i < |mounts| - 1 {
      var rest := mounts[..|mounts| - 1];
      assert forall j :: 0 <= j < |rest| ==> rest[j] == mounts[j];
      LastListedWins(rest, i);
    }
  }

  /** `m` is the last mount of its name in the list. */
  ghost predicate LastListed(mounts: seq<VolumeMount>, m: VolumeMount) {
    exists i :: 0 <= i < |mounts| && mounts[i] == m && forall j :: i < j < |mounts| ==> mounts[j].name != m.name
  }

  lemma {:induction false} KeptIsLastListed(mounts: seq<VolumeMount>, n: string)
    requires n in LastByName(mounts)
    ensures LastListed(mounts, LastByName(mounts)[n])
    decreases |mounts|
  {
    var rest, last := mounts[..|mounts| - 1], mounts[|mounts| - 1];
    if last.name == n {
      assert LastByName(mounts)[n] == last;
    } else {
      KeptIsLastListed(rest, n);
      var m := LastByName(rest)[n];
      var i :| 0 <= i < |rest| && rest[i] == m && forall j :: i < j < |rest| ==> rest[j].name != m.name;
      assert mounts[i] == m && forall j :: i < j < |mounts| ==> mounts[j].name != m.name;
    }
  }

  lemma KeptExactly(mounts: seq<VolumeMount>, m: VolumeMount)
    ensures m.name in LastByName(mounts) && LastByName(mounts)[m.name] == m <==> LastListed(mounts, m)
  {
    if m.name in LastByName(mounts) {
      KeptIsLastListed(mounts, m.name);
    }
    if LastListed(mounts, m) {
      var i: nat :| i < |mounts| && mounts[i] == m && forall j :: i < j < |mounts| ==> mounts[j].name != m.name;
      LastListedWins(mounts, i);
    }
  }

  /** An order in which a map with these keys may be iterated. */
  ghost predicate Enumerates(order: seq<string>, keys: set<string>) {
    Distinct(order) && (set n | n in order) == keys
  }

  /** Every name in `order` has a mount of that name. */
  predicate Keyed(order: seq<string>, byName: map<string, VolumeMount>) {
    forall i :: 0 <= i < |order| ==> order[i] in byName && byName[order[i]].name == order[i]
  }

  predicate Distinct(order: seq<string>) {
    forall i, j :: 0 <= i < j < |order| ==> order[i] != order[j]
  }

  function AddMounter(own: Slice<VolumeMount>, m: VolumeMount): Slice<VolumeMount> {
    if own.Nil? then Slice([m])
    else if HasMount(own.items, m.name) then own
    else Slice(own.items + [m])
  }

  function AddMounters(
    own: Slice<VolumeMount>, order: seq<string>, byName: map<string, VolumeMount>): Slice<VolumeMount>
    requires Keyed(order, byName)
    decreases |order|
  {
    if order == [] then own
    else AddMounters(AddMounter(own, byName[order[0]]), order[1..], byName)
  }

  /** The mounts whose names the container does not have yet, in iteration order. */
  function NewMounts(own: seq<VolumeMount>, order: seq<string>, byName: map<string, VolumeMount>): seq<VolumeMount>
    requires Keyed(order, byName)
  {
    if order == [] then []
    else (if HasMount(own, order[0]) then [] else [byName[order[0]]]) + NewMounts(own, order[1..], byName)
  }

  lemma {:induction false} OneMorePresent(
    own: seq<VolumeMount>, m: VolumeMount, order: seq<string>, byName: map<string, VolumeMount>)
    requires Keyed(order, byName) && forall i :: 0 <= i < |order| ==> order[i] != m.name
    ensures NewMounts(own + [m], order, byName) == NewMounts(own, order, byName)
  {
    if order != [] {
      OneMorePresent(own, m, order[1..], byName);
      assert HasMount(own + [m], order[0]) <==> HasMount(own, order[0]) by {
        if HasMount(own, order[0]) {
          var i :| 0 <= i < |own| && own[i].name == order[0];
          assert (own + [m])[i].name == order[0];
        }
      }
    }
  }

  /** Adding the mounts one by one keeps the container's own mounts as a prefix and appends exactly the new ones. */
  lemma {:induction false} OwnMountsArePrefix(
    own: Slice<VolumeMount>, order: seq<string>, byName: map<string, VolumeMount>)
    requires Keyed(order, byName) && Distinct(order)
    ensures AddMounters(own, order, byName).Elems() == own.Elems() + NewMounts(own.Elems(), order, byName)
    decreases |order|
  {
    if order != [] {
      var m, rest := byName[order[0]], order[1..];
      var next := AddMounter(own, m);
      OwnMountsArePrefix(next, rest, byName);
      var added := NewMounts(own.Elems(), rest, byName);
      if HasMount(own.Elems(), m.name) {
        assert next == own && [] + added == added;
      } else {
        assert next.Elems() == own.Elems() + [m];
        OneMorePresent(own.Elems(), m, rest, byName);
        assert own.Elems() + [m] + added == own.Elems() + ([m] + added);
      }
    }
  }

  /** Each new name contributes exactly one mount, the last listed one; nothing else is added. */
  lemma {:induction false} OneMountPerNewName(
    own: seq<VolumeMount>, order: seq<string>, byName: map<string, VolumeMount>, m: VolumeMount)
    requires Keyed(order, byName) && Distinct(order)
    ensures multiset(NewMounts(own, order, byName))[m]
         == if m.name in order && byName[m.name] == m && !HasMount(own, m.name) then 1 else 0
    decreases |order|
  {
    if order != [] {
      OneMountPerNewName(own, order[1..], byName, m);
    }
  }

  lemma EnumerationIsKeyed(listed: seq<VolumeMount>, order: seq<string>)
    requires Enumerates(order, LastByName(listed).Keys)
    ensures Keyed(order, LastByName(listed))
  {
    forall i | 0 <= i < |order| ensures order[i] in LastByName(listed) {
      assert order[i] in (set n | n in order);
    }
  }

  /** So the mounts a container ends up with do not depend on the iteration order, except for their order. */
  lemma MountsIndependentOfOrder(
    own: Slice<VolumeMount>, listed: seq<VolumeMount>, order: seq<string>, order': seq<string>)
    requires Enumerates(order, LastByName(listed).Keys) && Enumerates(order', LastByName(listed).Keys)
    ensures multiset(AddMounters(own, order, LastByName(listed)).Elems())
         == multiset(AddMounters(own, order', LastByName(listed)).Elems())
  {
    var byName := LastByName(listed);
    EnumerationIsKeyed(listed, order);
    EnumerationIsKeyed(listed, order');
    OwnMountsArePrefix(own, order, byName);
    OwnMountsArePrefix(own, order', byName);
    forall m
      ensures multiset(NewMounts(own.Elems(), order, byName))[m] == multiset(NewMounts(own.Elems(), order', byName))[m]
    {
      OneMountPerNewName(own.Elems(), order, byName, m);
      OneMountPerNewName(own.Elems(), order', byName, m);
    }
    assert multiset(NewMounts(own.Elems(), order, byName)) == multiset(NewMounts(own.Elems(), order', byName));
  }

  /** Collects the deduplicated mounts by ranging over the map; the order it happened to take is `order`. */
  method RangeMounts(listed: seq<VolumeMount>) returns (order: seq<string>, mounts: seq<VolumeMount>)
    ensures Enumerates(order, LastByName(listed).Keys)
    ensures |mounts| == |order| && forall i :: 0 <= i < |order| ==> mounts[i] == LastByName(listed)[order[i]]
  {
    var byName := DedupMounts(listed);
    order, mounts := [], [];
    var left := byName.Keys;
    while left != {}
      invariant left <= byName.Keys && Enumerates(order, byName.Keys - left)
      invariant |mounts| == |order| && forall i :: 0 <= i < |order| ==>
              order[i] in byName && mounts[i] == byName[order[i]]
      decreases left
    {
      var n :| n in left;
      EnumerateOneMore(order, byName.Keys - left, n);
      assert byName.Keys - left + {n} == byName.Keys - (left - {n});
      order, mounts, left := order + [n], mounts + [byName[n]], left - {n};
    }
  }

  lemma EnumerateOneMore(order: seq<string>, keys: set<string>, n: string)
    requires Enumerates(order, keys) && n !in keys
    ensures Enumerates(order + [n], keys + {n})
  {
    assert forall i :: 0 <= i < |order| ==> order[i] in (set m | m in order);
    assert (set m | m in order + [n]) == keys + {n};
  }

  method DedupMounts(listed: seq<VolumeMount>) returns (byName: map<string, VolumeMount>)
    ensures byName == LastByName(listed)
  {
    byName := map[];
    for i := 0 to |listed|
      invariant byName == LastByName(listed[..i])
    {
      assert listed[..i + 1][..i] == listed[..i];
      byName := byName[listed[i].name := listed[i]];
    }
    assert listed[..|listed|] == listed;
  }

  method AddMountsToContainer(
    own: Slice<VolumeMount>, order: seq<string>, mounts: seq<VolumeMount>, ghost byName: map<string, VolumeMount>)
    returns (r: Slice<VolumeMount>)
    requires Keyed(order, byName)
    requires |mounts| == |order| && forall i :: 0 <= i < |order| ==> mounts[i] == byName[order[i]]
    ensures r == AddMounters(own, order, byName)
  {
    r := own;
    for j := 0 to |mounts|
      invariant AddMounters(r, order[j..], byName) == AddMounters(own, order, byName)
    {
      assert order[j..][1..] == order[j + 1..];
      r := AddMounter(r, mounts[j]);
    }
  }

  /******* The assembled template *******/

  function AssembleContainer(c: Container, spec: UnitSetSpec, order: seq<string>, fillResources: bool): Container
    requires Enumerates(order, LastByName(spec.mounts).Keys)
  {
    var filled := fillResources && c.name == spec.mainType;
    c.(mounts := AddMounters(c.mounts, order, LastByName(spec.mounts)),
       env := Slice(MergedEnv(spec.env, spec.mountEnv, c.env.Elems())),
       resources := if filled then spec.resources else c.resources,
       resizePolicy := if filled && spec.resizePolicy.Elems() != [] then spec.resizePolicy else c.resizePolicy)
  }

  function Assemble(t: PodTemplate, spec: UnitSetSpec, order: seq<string>): PodTemplate
    requires Enumerates(order, LastByName(spec.mounts).Keys)
  {
    t.(containers := seq(|t.containers|, i requires 0 <= i < |t.containers| =>
         AssembleContainer(t.containers[i], spec, order, true)),
       initContainers := seq(|t.initContainers|, i requires 0 <= i < |t.initContainers| =>
         AssembleContainer(t.initContainers[i], spec, order, false)))
  }

  method AssembleContainers(
    cs: seq<Container>, spec: UnitSetSpec, order: seq<string>, mounts: seq<VolumeMount>, fillResources: bool)
    returns (r: seq<Container>)
    requires Enumerates(order, LastByName(spec.mounts).Keys)
    requires |mounts| == |order| && forall i :: 0 <= i < |order| ==> mounts[i] == LastByName(spec.mounts)[order[i]]
    ensures |r| == |cs| && forall i :: 0 <= i < |cs| ==> r[i] == AssembleContainer(cs[i], spec, order, fillResources)
  {
    r := cs;
    for i := 0 to |cs|
      invariant |r| == |cs|
      invariant forall k :: 0 <= k < i ==> r[k] == AssembleContainer(cs[k], spec, order, fillResources)
      invariant forall k :: i <= k < |cs| ==> r[k] == cs[k]
    {
      var ms := AddMountsToContainer(r[i].mounts, order, mounts, LastByName(spec.mounts));
      var env := MergeEnvs(spec.env, spec.mountEnv, r[i].env.Elems());
      var c := r[i].(mounts := ms, env := Slice(env));
      if fillResources && c.name == spec.mainType {
        c := c.(resources := spec.resources);
        if spec.resizePolicy.Elems() != [] {
          c := c.(resizePolicy := spec.resizePolicy);
        }
      }
      r := r[i := c];
    }
  }

  method AssembleTemplate(t: PodTemplate, spec: UnitSetSpec) returns (r: PodTemplate, order: seq<string>)
    ensures Enumerates(order, LastByName(spec.mounts).Keys)
    ensures r == Assemble(t, spec, order)
  {
    var taken, mounts := RangeMounts(spec.mounts);
    order := taken;
    var cs := AssembleContainers(t.containers, spec, taken, mounts, true);
    var inits := AssembleContainers(t.initContainers, spec, taken, mounts, false);
    r := t.(containers := cs, initContainers := inits);
    assert cs == Assemble(t, spec, order).containers && inits == Assemble(t, spec, order).initContainers;
  }

  /** The mounts are the container's own, and after them the last listed one for every name it does not have. */
  ghost predicate MountsFrom(own: seq<VolumeMount>, listed: seq<VolumeMount>, r: seq<VolumeMount>) {
    && own <= r
    && forall m :: multiset(r)[m] ==
         multiset(own)[m] + if LastListed(listed, m) && !HasMount(own, m.name) then 1 else 0
  }

  /** What container `c` of the template becomes; `fill` if it is not an init container. */
  ghost predicate AssembledFrom(c: Container, r: Container, spec: UnitSetSpec, fill: bool) {
    var filled := fill && c.name == spec.mainType;
    && r == c.(env := r.env, mounts := r.mounts, resources := r.resources, resizePolicy := r.resizePolicy)
    && r.env.Slice?
    && (exists at :: FirstOccurrences(spec.env + spec.mountEnv + c.env.Elems(), r.env.items, at))
    && MountsFrom(c.mounts.Elems(), spec.mounts, r.mounts.Elems())
    && r.resources == (if filled then spec.resources else c.resources)
    && r.resizePolicy == if filled && spec.resizePolicy.Elems() != [] then spec.resizePolicy else c.resizePolicy
  }

  lemma MountsAreFrom(own: Slice<VolumeMount>, listed: seq<VolumeMount>, order: seq<string>)
    requires Enumerates(order, LastByName(listed).Keys)
    ensures Keyed(order, LastByName(listed))
    ensures MountsFrom(own.Elems(), listed, AddMounters(own, order, LastByName(listed)).Elems())
  {
    var byName := LastByName(listed);
    EnumerationIsKeyed(listed, order);
    OwnMountsArePrefix(own, order, byName);
    var added := NewMounts(own.Elems(), order, byName);
    forall m ensures multiset(added)[m] == if LastListed(listed, m) && !HasMount(own.Elems(), m.name) then 1 else 0 {
      OneMountPerNewName(own.Elems(), order, byName, m);
      KeptExactly(listed, m);
      assert m.name in order <==> m.name in (set n | n in order);
    }
    assert multiset(own.Elems() + added) == multiset(own.Elems()) + multiset(added);
  }

  lemma ContainerAssembledFrom(c: Container, spec: UnitSetSpec, order: seq<string>, fill: bool)
    requires Enumerates(order, LastByName(spec.mounts).Keys)
    ensures AssembledFrom(c, AssembleContainer(c, spec, order, fill), spec, fill)
  {
    var at := MergedEnvIsFirstOccurrences(spec.env, spec.mountEnv, c.env.Elems());
    MountsAreFrom(c.mounts, spec.mounts, order);
  }

  /**
   What an assembled template consists of: for every container the variables of the unit set, then of the mounts, then
   its own, the first of each name; its own mounts and the new ones; the unit set's resources for the main container,
   also its resize policy if it has one; and everything else as the template has it.
   */
  lemma AssembledExactly(t: PodTemplate, spec: UnitSetSpec, order: seq<string>)
    requires Enumerates(order, LastByName(spec.mounts).Keys)
    ensures var r := Assemble(t, spec, order);
            && r == t.(containers := r.containers, initContainers := r.initContainers)
            && |r.containers| == |t.containers| && |r.initContainers| == |t.initContainers|
            && (forall i :: 0 <= i < |t.containers| ==> AssembledFrom(t.containers[i], r.containers[i], spec, true))
            && (forall i :: 0 <= i < |t.initContainers| ==>
                  AssembledFrom(t.initContainers[i], r.initContainers[i], spec, false))
  {
    var r := Assemble(t, spec, order);
    forall i | 0 <= i < |t.containers| ensures AssembledFrom(t.containers[i], r.containers[i], spec, true) {
      ContainerAssembledFrom(t.containers[i], spec, order, true);
    }
    forall i | 0 <= i < |t.initContainers|
      ensures AssembledFrom(t.initContainers[i], r.initContainers[i], spec, false)
    {
      ContainerAssembledFrom(t.initContainers[i], spec, order, false);
    }
  }

  /** Assembled containers keep their names and never carry two environment variables of one name. */
  lemma AssembledTemplate(t: PodTemplate, spec: UnitSetSpec, order: seq<string>)
    requires Enumerates(order, LastByName(spec.mounts).Keys)
    ensures var r := Assemble(t, spec, order);
            && |r.containers| == |t.containers| && |r.initContainers| == |t.initContainers|
            && (forall i :: 0 <= i < |t.containers| ==>
                  r.containers[i].name == t.containers[i].name && DistinctEnv(r.containers[i].env.Elems()))
            && (forall i :: 0 <= i < |t.initContainers| ==>
                  r.initContainers[i].name == t.initContainers[i].name && DistinctEnv(r.initContainers[i].env.Elems()))
  {
    forall c: Container ensures DistinctEnv(MergedEnv(spec.env, spec.mountEnv, c.env.Elems())) {
      var _ := MergedEnvIsFirstOccurrences(spec.env, spec.mountEnv, c.env.Elems());
    }
  }
}
