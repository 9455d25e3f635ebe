/**
 The resource pass and the resize-policy pass of a unit set's rolling update: what each compares, what each
 writes, and how each decides on its one action per reconcile.
 */
module Passes {
  import opened Common
  import opened Cluster

  datatype Pass = ResourcePass | ResizePass

  /******* What a pass compares and what it writes *******/

  predicate ResourcesDiffer(c: Container, spec: UnitSetSpec) {
    || Quantity(c.resources.limits, "cpu") != Quantity(spec.resources.limits, "cpu")
    || Quantity(c.resources.limits, "memory") != Quantity(spec.resources.limits, "memory")
    || Quantity(c.resources.requests, "cpu") != Quantity(spec.resources.requests, "cpu")
    || Quantity(c.resources.requests, "memory") != Quantity(spec.resources.requests, "memory")
  }

  /** The resource pass looks at every container of the main type, the resize pass only at the first one. */
  predicate Needs(pass: Pass, u: Unit, spec: UnitSetSpec) {
    var cs := u.template.containers;
    match pass
    case ResourcePass =>
      exists i :: 0 <= i < |cs| && cs[i].name == spec.mainType && ResourcesDiffer(cs[i], spec)
    case ResizePass =>
      var i := IndexOfContainer(cs, spec.mainType);
      i >= 0 && cs[i].resizePolicy.Elems() != spec.resizePolicy.Elems()
  }

  /** The unit equals the target in what the pass is about. */
  ghost predicate Matches(pass: Pass, u: Unit, spec: UnitSetSpec) {
    var cs := u.template.containers;
    match pass
    case ResourcePass => forall i :: 0 <= i < |cs| && cs[i].name == spec.mainType ==>
        SameResources(cs[i].resources, spec.resources)
    case ResizePass =>
      forall i :: 0 <= i < |cs| && cs[i].name == spec.mainType && NoneBefore(cs, i, spec.mainType) ==>
        cs[i].resizePolicy.Elems() == spec.resizePolicy.Elems()
  }

  ghost predicate NoneBefore(cs: seq<Container>, i: nat, name: string)
    requires i <= |cs|
  {
    forall k :: 0 <= k < i ==> cs[k].name != name
  }

  lemma ResourcesDifferExactly(c: Container, spec: UnitSetSpec)
    ensures !ResourcesDiffer(c, spec) <==> SameResources(c.resources, spec.resources)
  {
    SameResourcesExactly(c.resources, spec.resources);
  }

  /** A pass has something to do for a unit exactly if the unit does not match the target. */
  lemma NeedsExactly(pass: Pass, u: Unit, spec: UnitSetSpec)
    ensures Needs(pass, u, spec) <==> !Matches(pass, u, spec)
  {
    var cs := u.template.containers;
    if pass.ResourcePass? {
      forall i | 0 <= i < |cs|
        ensures !ResourcesDiffer(cs[i], spec) <==> SameResources(cs[i].resources, spec.resources)
      {
        ResourcesDifferExactly(cs[i], spec);
      }
    } else {
      var first := IndexOfContainer(cs, spec.mainType);
      if first >= 0 { assert NoneBefore(cs, first, spec.mainType); }
    }
  }

  lemma NeedsExactlyAll(pass: Pass, units: map<string, Unit>, spec: UnitSetSpec)
    ensures forall n :: n in units ==> (Needs(pass, units[n], spec) <==> !Matches(pass, units[n], spec))
  {
    forall n | n in units ensures Needs(pass, units[n], spec) <==> !Matches(pass, units[n], spec) {
      NeedsExactly(pass, units[n], spec);
    }
  }

  function WithContainers(u: Unit, cs: seq<Container>): Unit {
    u.(template := u.template.(containers := cs))
  }

  function Merged(pass: Pass, u: Unit, spec: UnitSetSpec): Unit {
    var cs := u.template.containers;
    match pass
    case ResourcePass =>
      WithContainers(u, seq(|cs|, i requires 0 <= i < |cs| =>
        if cs[i].name == spec.mainType then cs[i].(resources := spec.resources) else cs[i]))
    case ResizePass =>
      var i := IndexOfContainer(cs, spec.mainType);
      if i < 0 then u else WithContainers(u, cs[i := cs[i].(resizePolicy := spec.resizePolicy)])
  }

  method MergeResources(u: Unit, spec: UnitSetSpec) returns (r: Unit)
    ensures r == Merged(ResourcePass, u, spec)
  {
    var before := u.template.containers;
    var cs := before;
    for i := 0 to |cs|
      invariant |cs| == |before|
      invariant forall k :: 0 <= k < i ==>
        cs[k] == if before[k].name == spec.mainType then before[k].(resources := spec.resources) else before[k]
      invariant forall k :: i <= k < |cs| ==> cs[k] == before[k]
    {
      if cs[i].name == spec.mainType {
        cs := cs[i := cs[i].(resources := spec.resources)];
      }
    }
    r := WithContainers(u, cs);
    assert cs == Merged(ResourcePass, u, spec).template.containers;
  }

  method MergeResizePolicy(u: Unit, spec: UnitSetSpec) returns (r: Unit)
    ensures r == Merged(ResizePass, u, spec)
  {
    var cs := u.template.containers;
    var i := 0;
    while i < |cs|
      invariant 0 <= i <= |cs|
      invariant forall k :: 0 <= k < i ==> cs[k].name != spec.mainType
    {
      if cs[i].name == spec.mainType {
        return WithContainers(u, cs[i := cs[i].(resizePolicy := spec.resizePolicy)]);
      }
      i := i + 1;
    }
    return u;
  }

  /** A pass's write changes nothing but its own field of the containers it is about. */
  lemma MergeChangesOneField(pass: Pass, u: Unit, spec: UnitSetSpec)
    ensures var cs, ds := u.template.containers, Merged(pass, u, spec).template.containers;
            && WithContainers(Merged(pass, u, spec), cs) == u
            && |ds| == |cs|
            && forall i :: 0 <= i < |cs| ==>
                 && ds[i] == cs[i].(resources := ds[i].resources, resizePolicy := ds[i].resizePolicy)
                 && (pass.ResizePass? ==> ds[i].resources == cs[i].resources)
                 && (pass.ResourcePass? ==> ds[i].resizePolicy == cs[i].resizePolicy)
                 && (cs[i].name != spec.mainType ==> ds[i] == cs[i])
  {
  }

  /** Every container that the pass is about gets all of the target, not only what the pass compares. */
  lemma MergeWritesTarget(pass: Pass, u: Unit, spec: UnitSetSpec, i: nat)
    requires i < |u.template.containers| && u.template.containers[i].name == spec.mainType
    ensures var ds := Merged(pass, u, spec).template.containers;
            && |ds| == |u.template.containers|
            && (pass.ResourcePass? ==> ds[i].resources == spec.resources)
            && (pass.ResizePass? && NoneBefore(u.template.containers, i, spec.mainType) ==>
                  ds[i].resizePolicy == spec.resizePolicy)
            && (pass.ResizePass? && !NoneBefore(u.template.containers, i, spec.mainType) ==>
                  ds[i] == u.template.containers[i])
  {
  }

  lemma ResourceMergeSettles(u: Unit, spec: UnitSetSpec)
    ensures var m := Merged(ResourcePass, u, spec);
            !Needs(ResourcePass, m, spec) && Needs(ResizePass, m, spec) == Needs(ResizePass, u, spec)
  {
    var cs, ds := u.template.containers, Merged(ResourcePass, u, spec).template.containers;
    SameNamesSameIndex(cs, ds, spec.mainType);
  }

  lemma ResizeMergeSettles(u: Unit, spec: UnitSetSpec)
    ensures var m := Merged(ResizePass, u, spec);
            !Needs(ResizePass, m, spec) && Needs(ResourcePass, m, spec) == Needs(ResourcePass, u, spec)
  {
    MergeChangesOneField(ResizePass, u, spec);
    var cs, ds := u.template.containers, Merged(ResizePass, u, spec).template.containers;
    SameNamesSameIndex(cs, ds, spec.mainType);
    assert forall i :: 0 <= i < |cs| ==> ResourcesDiffer(ds[i], spec) == ResourcesDiffer(cs[i], spec);
  }

  /** A pass's write settles what it compares and leaves what the other pass compares alone. */
  lemma MergeSettles(pass: Pass, other: Pass, u: Unit, spec: UnitSetSpec)
    requires other != pass
    ensures !Needs(pass, Merged(pass, u, spec), spec)
    ensures Needs(other, Merged(pass, u, spec), spec) == Needs(other, u, spec)
  {
    ResourceMergeSettles(u, spec);
    ResizeMergeSettles(u, spec);
  }

  /******* Finding the unit to work on *******/

  predicate NeedyAt(pass: Pass, units: map<string, Unit>, name: string, spec: UnitSetSpec) {
    name in units && Needs(pass, units[name], spec)
  }

  /** The first name, in order, whose unit exists and differs from the target; "" when there is none. */
  function FirstNeeding(pass: Pass, names: seq<string>, units: map<string, Unit>, spec: UnitSetSpec): (r: string)
    ensures r == "" || (r in names && NeedyAt(pass, units, r, spec))
    ensures r == "" && "" !in names ==> forall n :: n in names ==> !NeedyAt(pass, units, n, spec)
  {
    if names == [] then ""
    else if NeedyAt(pass, units, names[0], spec) then names[0]
    else FirstNeeding(pass, names[1..], units, spec)
  }

  /** The first such name after `current`; names before it are not looked at. */
  function NextNeeding(
    pass: Pass, names: seq<string>, current: string, found: bool, units: map<string, Unit>, spec: UnitSetSpec)
    : (r: string)
    ensures r == "" || (r in names && r != current && NeedyAt(pass, units, r, spec))
  {
    if names == [] then ""
    else if names[0] == current then NextNeeding(pass, names[1..], current, true, units, spec)
    else if found && NeedyAt(pass, units, names[0], spec) then names[0]
    else NextNeeding(pass, names[1..], current, found, units, spec)
  }

  ghost predicate Outdated(pass: Pass, units: map<string, Unit>, name: string, spec: UnitSetSpec) {
    name in units && !Matches(pass, units[name], spec)
  }

  lemma NeedyExactly(pass: Pass, units: map<string, Unit>, name: string, spec: UnitSetSpec)
    ensures NeedyAt(pass, units, name, spec) <==> Outdated(pass, units, name, spec)
  {
    if name in units { NeedsExactly(pass, units[name], spec); }
  }

  /** `i` is the first position from `from` on whose unit exists and does not match the target. */
  ghost predicate FirstOutdated(
    pass: Pass, names: seq<string>, from: nat, i: nat, units: map<string, Unit>, spec: UnitSetSpec)
  {
    && from <= i < |names| && Outdated(pass, units, names[i], spec)
    && forall k :: from <= k < i ==> !Outdated(pass, units, names[k], spec)
  }

  /** The first one in order, or none. */
  lemma {:induction false} FirstNeedingExactly(
    pass: Pass, names: seq<string>, from: nat, units: map<string, Unit>, spec: UnitSetSpec)
    requires from <= |names|
    ensures forall i: nat :: FirstOutdated(pass, names, from, i, units, spec) ==>
              FirstNeeding(pass, names[from..], units, spec) == names[i]
    ensures (forall i :: from <= i < |names| ==> !Outdated(pass, units, names[i], spec)) ==>
              FirstNeeding(pass, names[from..], units, spec) == ""
    decreases |names| - from
  {
    if from < |names| {
      NeedyExactly(pass, units, names[from], spec);
      FirstNeedingExactly(pass, names, from + 1, units, spec);
      assert names[from..][1..] == names[from + 1..];
    }
  }

  lemma {:induction false} FoundIsFirst(
    pass: Pass, names: seq<string>, current: string, units: map<string, Unit>, spec: UnitSetSpec)
    requires forall i :: 0 <= i < |names| ==> names[i] != current
    ensures NextNeeding(pass, names, current, true, units, spec) == FirstNeeding(pass, names, units, spec)
  {
    if names != [] { FoundIsFirst(pass, names[1..], current, units, spec); }
  }

  lemma {:induction false} SkipsToCurrent(
    pass: Pass, names: seq<string>, from: nat, c: nat, units: map<string, Unit>, spec: UnitSetSpec)
    requires from <= c < |names| && forall i, j :: 0 <= i < j < |names| ==> names[i] != names[j]
    ensures NextNeeding(pass, names[from..], names[c], false, units, spec)
         == FirstNeeding(pass, names[c + 1..], units, spec)
    decreases c - from
  {
    assert names[from..][1..] == names[from + 1..];
    if from == c {
      FoundIsFirst(pass, names[c + 1..], names[c], units, spec);
    } else {
      SkipsToCurrent(pass, names, from + 1, c, units, spec);
    }
  }

  /** With distinct names, the one looked for comes after the current one, and is the first such, or none. */
  lemma NextNeedingExactly(pass: Pass, names: seq<string>, c: nat, units: map<string, Unit>, spec: UnitSetSpec)
    requires c < |names| && forall i, j :: 0 <= i < j < |names| ==> names[i] != names[j]
    ensures forall i: nat :: FirstOutdated(pass, names, c + 1, i, units, spec) ==>
              NextNeeding(pass, names, names[c], false, units, spec) == names[i]
    ensures (forall i :: c < i < |names| ==> !Outdated(pass, units, names[i], spec)) ==>
              NextNeeding(pass, names, names[c], false, units, spec) == ""
  {
    assert names[0..] == names;
    SkipsToCurrent(pass, names, 0, c, units, spec);
    FirstNeedingExactly(pass, names, c + 1, units, spec);
  }

  /** After a unit that is not desired any more, there is none. */
  lemma {:induction false} NoneAfterUndesired(
    pass: Pass, names: seq<string>, current: string, units: map<string, Unit>, spec: UnitSetSpec)
    requires current !in names
    ensures NextNeeding(pass, names, current, false, units, spec) == ""
  {
    if names != [] { NoneAfterUndesired(pass, names[1..], current, units, spec); }
  }

  method FindFirstNeeding(pass: Pass, names: seq<string>, units: map<string, Unit>, spec: UnitSetSpec)
    returns (r: string)
    ensures r == FirstNeeding(pass, names, units, spec)
  {
    var i := 0;
    while i < |names|
      invariant 0 <= i <= |names|
      invariant FirstNeeding(pass, names, units, spec) == FirstNeeding(pass, names[i..], units, spec)
    {
      if names[i] in units && Needs(pass, units[names[i]], spec) {
        return names[i];
      }
      assert names[i..][1..] == names[i + 1..];
      i := i + 1;
    }
    return "";
  }

  method FindNextNeeding(pass: Pass, names: seq<string>, current: string, units: map<string, Unit>, spec: UnitSetSpec)
    returns (r: string)
    ensures r == NextNeeding(pass, names, current, false, units, spec)
  {
    var found := false;
    var i := 0;
    while i < |names|
      invariant 0 <= i <= |names|
      invariant NextNeeding(pass, names, current, false, units, spec)
             == NextNeeding(pass, names[i..], current, found, units, spec)
    {
      assert names[i..][1..] == names[i + 1..];
      if names[i] == current {
        found := true;
      } else if found && names[i] in units && Needs(pass, units[names[i]], spec) {
        return names[i];
      }
      i := i + 1;
    }
    return "";
  }

  /******* One reconcile of a pass *******/

  /** What a pass works from: the cursor of the in-memory unit set, the listed units, and the desired names and spec. */
  datatype Snapshot = Snapshot(cursor: string, units: map<string, Unit>, names: seq<string>, spec: UnitSetSpec)

  datatype Action = Done | Wait | MoveCursor(to: string) | Rewrite(name: string)

  function Decide(pass: Pass, s: Snapshot): Action {
    var first := FirstNeeding(pass, s.names, s.units, s.spec);
    if s.units == map[] then Done
    else if pass.ResizePass? && first == "" then Done
    else if s.cursor == "" then
      if first == "" then Done else MoveCursor(first)
    else if s.cursor !in s.units then MoveCursor("")
    else if !Needs(pass, s.units[s.cursor], s.spec) then
      if s.units[s.cursor].phase == Ready
      then MoveCursor(NextNeeding(pass, s.names, s.cursor, false, s.units, s.spec))
      else Wait
    else if s.units[s.cursor].phase != Ready then Wait
    else Rewrite(s.cursor)
  }

  /** Some desired unit exists and does not match the target. */
  ghost predicate SomeOutdated(pass: Pass, s: Snapshot) {
    exists i :: 0 <= i < |s.names| && Outdated(pass, s.units, s.names[i], s.spec)
  }

  /** The resize pass does not look at the cursor unless some desired unit needs it. */
  ghost predicate LooksAtCursor(pass: Pass, s: Snapshot) {
    s.units != map[] && s.cursor != "" && (pass.ResizePass? ==> SomeOutdated(pass, s))
  }

  lemma SomeOutdatedExactly(pass: Pass, s: Snapshot)
    requires "" !in s.names
    ensures SomeOutdated(pass, s) <==> FirstNeeding(pass, s.names, s.units, s.spec) != ""
  {
    assert s.names[0..] == s.names;
    FirstNeedingExactly(pass, s.names, 0, s.units, s.spec);
    forall i | 0 <= i < |s.names|
      ensures NeedyAt(pass, s.units, s.names[i], s.spec) <==> Outdated(pass, s.units, s.names[i], s.spec)
    {
      NeedyExactly(pass, s.units, s.names[i], s.spec);
    }
  }

  /**
   The decision of a pass, by what it read: rewrite the cursor's unit if it is Ready and does not match, wait for it if
   it is not Ready, clear the cursor if the unit is gone, move on from a unit that matches and is Ready, and start at
   the first unit that does not match.
   */
  lemma DecidesExactly(pass: Pass, s: Snapshot)
    requires "" !in s.names
    ensures var a, c := Decide(pass, s), s.cursor;
            var looks := LooksAtCursor(pass, s);
            && (forall n :: a == Rewrite(n) <==>
                  n == c && looks && c in s.units && s.units[c].phase == Ready && !Matches(pass, s.units[c], s.spec))
            && (a == Wait <==> looks && c in s.units && s.units[c].phase != Ready)
            && (looks && c !in s.units ==> a == MoveCursor(""))
            && (looks && c in s.units && s.units[c].phase == Ready && Matches(pass, s.units[c], s.spec) ==>
                  a == MoveCursor(NextNeeding(pass, s.names, c, false, s.units, s.spec)))
            && (c == "" && SomeOutdated(pass, s) ==> a == MoveCursor(FirstNeeding(pass, s.names, s.units, s.spec)))
            && (a == Done <==> !looks && (c == "" ==> !SomeOutdated(pass, s)))
  {
    SomeOutdatedExactly(pass, s);
    if s.cursor in s.units { NeedsExactly(pass, s.units[s.cursor], s.spec); }
    if SomeOutdated(pass, s) {
      var i :| 0 <= i < |s.names| && Outdated(pass, s.units, s.names[i], s.spec);
      assert s.names[i] in s.units;
    }
  }

  /** The persisted objects a pass writes: the cursor in the unit set's status, and the units. */
  datatype Store = Store(cursor: string, units: map<string, Unit>)

  /**
   The effect of an action on the persisted objects. A rewrite fetches the unit again; only the resource pass
   looks once more whether it is needed. `after` is the phase the unit shows once its spec was written.
   */
  function Apply(pass: Pass, spec: UnitSetSpec, st: Store, a: Action, after: Phase): Store {
    match a
    case Done => st
    case Wait => st
    case MoveCursor(to) => st.(cursor := to)
    case Rewrite(name) =>
      if WillWrite(pass, spec, st, name)
      then st.(units := st.units[name := Merged(pass, st.units[name], spec).(phase := after)])
      else st
  }

  predicate WillWrite(pass: Pass, spec: UnitSetSpec, st: Store, name: string) {
    name in st.units && (pass.ResourcePass? ==> Needs(pass, st.units[name], spec))
  }

  /**
   Whether the pass reports success, if the API accepts a write or not. Waiting for a unit before rewriting it is an
   error in the resize pass only, and so is a unit that is gone when it is fetched again.
   */
  predicate Succeeds(pass: Pass, s: Snapshot, st: Store, a: Action, accepted: bool) {
    match a
    case Done => true
    case Wait => !(pass.ResizePass? && s.cursor in s.units && Needs(pass, s.units[s.cursor], s.spec))
    case MoveCursor(to) => accepted || st.cursor == to
    case Rewrite(name) => name in st.units && (accepted || !WillWrite(pass, s.spec, st, name))
  }

  /**
   With accepted writes, a pass fails exactly if it waits for a unit that it is to resize, or finds the unit to rewrite
   gone; a failing pass changes nothing.
   */
  lemma FailsExactly(pass: Pass, s: Snapshot, st: Store, after: Phase)
    requires "" !in s.names
    ensures var a := Decide(pass, s);
            && (!Succeeds(pass, s, st, a, true) <==>
                  || (a.Wait? && pass.ResizePass? && s.cursor in s.units && !Matches(pass, s.units[s.cursor], s.spec))
                  || (a.Rewrite? && a.name !in st.units))
            && (!Succeeds(pass, s, st, a, true) ==> Apply(pass, s.spec, st, a, after) == st)
            && (Succeeds(pass, s, st, a, false) ==>
                  Succeeds(pass, s, st, a, true) && Apply(pass, s.spec, st, a, after) == st)
  {
    if s.cursor in s.units { NeedsExactly(pass, s.units[s.cursor], s.spec); }
  }

  class Reconciler {
    var cursor: string
    var units: map<string, Unit>

    ghost function Persisted(): Store
      reads this
    {
      Store(cursor, units)
    }

    constructor (cursor: string, units: map<string, Unit>)
      ensures Persisted() == Store(cursor, units)
    {
      this.cursor, this.units := cursor, units;
    }

    method UpdateInUpdateStatus(name: string, accepted: bool) returns (ok: bool)
      modifies this`cursor
      ensures cursor == (if accepted then name else old(cursor))
      ensures ok <==> accepted || old(cursor) == name
    {
      if cursor == name { return true; }
      if !accepted { return false; }
      cursor := name;
      return true;
    }

    method RewriteUnit(pass: Pass, spec: UnitSetSpec, name: string, after: Phase, accepted: bool) returns (ok: bool)
      modifies this`units
      ensures Persisted() ==
                if accepted then Apply(pass, spec, old(Persisted()), Rewrite(name), after) else old(Persisted())
      ensures ok <==> name in old(units) && (accepted || !WillWrite(pass, spec, old(Persisted()), name))
    {
      if name !in units { return false; }
      if pass.ResourcePass? && !Needs(pass, units[name], spec) { return true; }
      var merged;
      if pass.ResourcePass? {
        merged := MergeResources(units[name], spec);
      } else {
        merged := MergeResizePolicy(units[name], spec);
      }
      if !accepted { return false; }
      units := units[name := merged.(phase := after)];
      return true;
    }

    method ReconcilePass(pass: Pass, mem: Snapshot, after: Phase, accepted: bool) returns (ok: bool)
      modifies this
      ensures Persisted() ==
                if accepted then Apply(pass, mem.spec, old(Persisted()), Decide(pass, mem), after) else old(Persisted())
      ensures ok <==> Succeeds(pass, mem, old(Persisted()), Decide(pass, mem), accepted)
    {
      if mem.units == map[] { return true; }
      var first := FindFirstNeeding(pass, mem.names, mem.units, mem.spec);
      if pass.ResizePass? && first == "" { return true; }
      ok := true;
      if mem.cursor == "" {
        if first != "" {
          ok := UpdateInUpdateStatus(first, accepted);
        }
        return;
      }
      if mem.cursor !in mem.units {
        ok := UpdateInUpdateStatus("", accepted);
        return;
      }
      var unit := mem.units[mem.cursor];
      if !Needs(pass, unit, mem.spec) {
        if unit.phase == Ready {
          var next := FindNextNeeding(pass, mem.names, mem.cursor, mem.units, mem.spec);
          ok := UpdateInUpdateStatus(next, accepted);
        }
        return;
      }
      if unit.phase != Ready { return pass.ResourcePass?; }
      ok := RewriteUnit(pass, mem.spec, mem.cursor, after, accepted);
    }
  }
}
