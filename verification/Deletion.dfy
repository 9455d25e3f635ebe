/** Deleting a unit set with its units, their pods and volume claims, and its config maps: a cascade over two levels. */
module Deletion {
  import opened Finalizers

  const POD_DELETE := "unit-operator/pod-delete"
  const PVC_DELETE := "unit-operator/pvc-delete"
  const UNIT_DELETE := "unit-operator/unit-delete"
  const CONFIG_MAP_DELETE := "unit-operator/configmap-delete"

  datatype UnitResource = Pod | Claim(volume: string)

  datatype SetResource = AllUnits | ConfigMap(name: string)

  datatype Owner = Live(meta: Object<SetResource>) | Gone(spec: map<string, set<SetResource>>)

  /** `owned` holds the pod and the claims stored under a unit's name. */
  datatype State = State(owner: Owner, units: map<string, Object<UnitResource>>, owned: map<string, set<UnitResource>>,
                         configMaps: set<string>)

  /** The pod finalizer guards the pod, the claim finalizer the claims of the volume templates. */
  predicate UnitShape(guards: map<string, set<UnitResource>>) {
    && guards.Keys == {POD_DELETE, PVC_DELETE}
    && guards[POD_DELETE] == {Pod} && forall r :: r in guards[PVC_DELETE] ==> r.Claim?
  }

  /** One finalizer guards all units of the set, the other the config maps that the spec names. */
  predicate SetShape(guards: map<string, set<SetResource>>) {
    && guards.Keys == {UNIT_DELETE, CONFIG_MAP_DELETE}
    && guards[UNIT_DELETE] == {AllUnits} && forall r :: r in guards[CONFIG_MAP_DELETE] ==> r.ConfigMap?
  }

  function NewUnit(volumes: set<string>): (o: Object<UnitResource>)
    ensures UnitShape(o.guards)
  {
    Object({POD_DELETE, PVC_DELETE}, false, false,
           map[POD_DELETE := {Pod}, PVC_DELETE := set v | v in volumes :: Claim(v)], Idle)
  }

  function Owned(s: State, u: string): set<UnitResource> {
    if u in s.owned then s.owned[u] else {}
  }

  function SetOwned(s: State): set<SetResource> {
    (if s.units == map[] then {} else {AllUnits}) + set n | n in s.configMaps :: ConfigMap(n)
  }

  datatype Step =
    | OwnerEvent(e: Event<SetResource>)
    | UnitEvent(u: string, ue: Event<UnitResource>)
    | CreateUnit(u: string, volumes: set<string>)
    | CreateOwned(u: string, r: UnitResource)
    | CreateConfigMap(name: string)
    | RemoveOwned(u: string, r: UnitResource)
    | RemoveConfigMap(name: string)
    | UnitLeaves(u: string)
    | OwnerLeaves

  /** The API removes an object once its deletion is requested and its finalizer list is empty. */
  predicate Leaves<R>(o: Object<R>) {
    o.deleting && o.finalizers == {}
  }

  /**
   Only reconciles outside the deletion branch create anything: those of the unit set create units, with both
   finalizers, and config maps; those of a unit create its pod and its templated claims. Resources may disappear at any
   time. Volume templates may be added to a unit, and a unit set's spec may change, before their deletion is requested.
   */
  ghost predicate LegalStep(s: State, step: Step) {
    match step
    case OwnerEvent(e) =>
      && s.owner.Live? && Legal(s.owner.meta, SetOwned(s), e)
      && (e.EditGuards? ==> SetShape(e.guards))
    case UnitEvent(u, e) =>
      && u in s.units && Legal(s.units[u], Owned(s, u), e)
      && (e.EditGuards? ==>
           UnitShape(e.guards) && UnitShape(s.units[u].guards) && s.units[u].guards[PVC_DELETE] <= e.guards[PVC_DELETE])
    case CreateUnit(u, _) => s.owner.Live? && s.owner.meta.work.Normal? && u !in s.units
    case CreateOwned(u, r) =>
      && u in s.units && s.units[u].work.Normal?
      && exists f :: f in s.units[u].guards && r in s.units[u].guards[f]
    case CreateConfigMap(_) => s.owner.Live? && s.owner.meta.work.Normal?
    case RemoveOwned(_, _) => true
    case RemoveConfigMap(_) => true
    case UnitLeaves(u) => u in s.units && Leaves(s.units[u])
    case OwnerLeaves => s.owner.Live? && Leaves(s.owner.meta)
  }

  ghost function Do(s: State, step: Step): State
    requires LegalStep(s, step)
  {
    match step
    case OwnerEvent(e) => s.(owner := Live(Apply(s.owner.meta, SetOwned(s), e)))
    case UnitEvent(u, e) => s.(units := s.units[u := Apply(s.units[u], Owned(s, u), e)])
    case CreateUnit(u, volumes) => s.(units := s.units[u := NewUnit(volumes)])
    case CreateOwned(u, r) => s.(owned := s.owned[u := Owned(s, u) + {r}])
    case CreateConfigMap(name) => s.(configMaps := s.configMaps + {name})
    case RemoveOwned(u, r) => s.(owned := s.owned[u := Owned(s, u) - {r}])
    case RemoveConfigMap(name) => s.(configMaps := s.configMaps - {name})
    case UnitLeaves(u) => s.(units := s.units - {u})
    case OwnerLeaves => s.(owner := Gone(s.owner.meta.guards))
  }

  /******* The invariant *******/

  ghost predicate UnitSound(s: State, u: string)
    requires u in s.units
  {
    && UnitShape(s.units[u].guards) && Sound(s.units[u], Owned(s, u))
    && forall r :: r in Owned(s, u) ==> r == Pod || r in s.units[u].guards[PVC_DELETE]
  }

  ghost predicate OwnerSound(s: State) {
    match s.owner
    case Live(o) => SetShape(o.guards) && Sound(o, SetOwned(s))
    case Gone(spec) => s.units == map[] && forall f :: f in spec ==> spec[f] !! SetOwned(s)
  }

  ghost predicate Inv(s: State) {
    && OwnerSound(s)
    && (forall u :: u in s.units ==> UnitSound(s, u))
    && (forall u :: u !in s.units ==> Owned(s, u) == {})
  }

  /** A unit leaves only when its pod and every claim of its volume templates are gone. */
  lemma UnitLeavesNothing(s: State, u: string)
    requires u in s.units && UnitSound(s, u) && Leaves(s.units[u])
    ensures Owned(s, u) == {}
  {
    var o := s.units[u];
    FinalizerGoneLast(o, Owned(s, u), POD_DELETE);
    FinalizerGoneLast(o, Owned(s, u), PVC_DELETE);
  }

  /** A unit set leaves only when all its units, their pods and claims, and the config maps of its spec are gone. */
  lemma OwnerLeavesNothing(s: State)
    requires Inv(s) && s.owner.Live? && Leaves(s.owner.meta)
    ensures s.units == map[] && forall u :: Owned(s, u) == {}
    ensures forall name :: ConfigMap(name) in s.owner.meta.guards[CONFIG_MAP_DELETE] ==> name !in s.configMaps
    ensures forall f :: f in s.owner.meta.guards ==> s.owner.meta.guards[f] !! SetOwned(s)
  {
    var o := s.owner.meta;
    FinalizerGoneLast(o, SetOwned(s), UNIT_DELETE);
    FinalizerGoneLast(o, SetOwned(s), CONFIG_MAP_DELETE);
    assert AllUnits in o.guards[UNIT_DELETE];
    forall name | ConfigMap(name) in o.guards[CONFIG_MAP_DELETE] ensures name !in s.configMaps {
      assert name in s.configMaps ==> ConfigMap(name) in SetOwned(s);
    }
  }

  lemma OwnerStaysSound(s: State, s': State)
    requires OwnerSound(s) && s'.owner == s.owner
    requires SetOwned(s') <= SetOwned(s) || (s.owner.Live? && s.owner.meta.work.Normal?)
    requires s.owner.Gone? ==> s'.units == s.units
    ensures OwnerSound(s')
  {
    if s.owner.Live? {
      if SetOwned(s') <= SetOwned(s) {
        RemovalKeepsSound(s.owner.meta, SetOwned(s), SetOwned(s'));
      } else {
        CreationKeepsSound(s.owner.meta, SetOwned(s), SetOwned(s'));
      }
    }
  }

  lemma UnitStaysSound(s: State, s': State, u: string)
    requires u in s.units && UnitSound(s, u) && u in s'.units && s'.units[u] == s.units[u]
    requires Owned(s', u) <= Owned(s, u)
    ensures UnitSound(s', u)
  {
    RemovalKeepsSound(s.units[u], Owned(s, u), Owned(s', u));
  }

  lemma OwnerKept(s: State, step: Step)
    requires Inv(s) && LegalStep(s, step)
    ensures OwnerSound(Do(s, step))
  {
    var s' := Do(s, step);
    match step
    case OwnerEvent(e) => EventKeepsSound(s.owner.meta, SetOwned(s), e);
    case OwnerLeaves => OwnerLeavesNothing(s);
    case _ => OwnerStaysSound(s, s');
  }

  lemma UnitEventKept(s: State, u: string, e: Event<UnitResource>)
    requires u in s.units && UnitSound(s, u) && LegalStep(s, UnitEvent(u, e))
    ensures UnitSound(Do(s, UnitEvent(u, e)), u)
  {
    EventKeepsSound(s.units[u], Owned(s, u), e);
  }

  lemma OwnedCreationKept(s: State, u: string, r: UnitResource)
    requires u in s.units && UnitSound(s, u) && LegalStep(s, CreateOwned(u, r))
    ensures UnitSound(Do(s, CreateOwned(u, r)), u)
  {
    CreationKeepsSound(s.units[u], Owned(s, u), Owned(s, u) + {r});
  }

  lemma UnitKept(s: State, step: Step, u: string)
    requires Inv(s) && LegalStep(s, step) && u in Do(s, step).units
    ensures UnitSound(Do(s, step), u)
  {
    var s' := Do(s, step);
    if u !in s.units {
      assert Owned(s', u) == {};
    } else if step.UnitEvent? && step.u == u {
      UnitEventKept(s, u, step.ue);
    } else if step.CreateOwned? && step.u == u {
      OwnedCreationKept(s, u, step.r);
    } else {
      UnitStaysSound(s, s', u);
    }
  }

  lemma NoOrphans(s: State, step: Step, u: string)
    requires Inv(s) && LegalStep(s, step) && u !in Do(s, step).units
    ensures Owned(Do(s, step), u) == {}
  {
    if step == UnitLeaves(u) { UnitLeavesNothing(s, u); }
  }

  /** Every step of the two controllers, of the API and of others keeps the invariant. */
  lemma StepKeepsInv(s: State, step: Step)
    requires Inv(s) && LegalStep(s, step)
    ensures Inv(Do(s, step))
  {
    var s' := Do(s, step);
    OwnerKept(s, step);
    forall u | u in s'.units ensures UnitSound(s', u) { UnitKept(s, step, u); }
    forall u | u !in s'.units ensures Owned(s', u) == {} { NoOrphans(s, step, u); }
  }

  /******* Runs *******/

  /** A unit set fresh from admission, with both its finalizers and nothing created yet. */
  ghost predicate Initial(s: State) {
    && s.owner.Live? && SetShape(s.owner.meta.guards)
    && s.owner.meta == Object({UNIT_DELETE, CONFIG_MAP_DELETE}, false, false, s.owner.meta.guards, Idle)
    && s.units == map[] && s.owned == map[] && s.configMaps == {}
  }

  ghost predicate LegalSteps(s: State, steps: seq<Step>)
    decreases |steps|
  {
    steps == [] || (LegalStep(s, steps[0]) && LegalSteps(Do(s, steps[0]), steps[1..]))
  }

  ghost function RunAll(s: State, steps: seq<Step>): State
    requires LegalSteps(s, steps)
    decreases |steps|
  {
    if steps == [] then s else RunAll(Do(s, steps[0]), steps[1..])
  }

  lemma {:induction false} RunKeepsInv(s: State, steps: seq<Step>)
    requires Inv(s) && LegalSteps(s, steps)
    ensures Inv(RunAll(s, steps))
    decreases |steps|
  {
    if steps != [] {
      StepKeepsInv(s, steps[0]);
      RunKeepsInv(Do(s, steps[0]), steps[1..]);
    }
  }

  /**
   In every run of the two controllers, whatever the interleaving: pods and claims exist only under existing units; a
   unit about to leave has none left; and once the unit set is gone, there are no units, pods, claims or config maps of
   its spec.
   */
  lemma CascadeIsSafe(s: State, steps: seq<Step>)
    requires Initial(s) && LegalSteps(s, steps)
    ensures var end := RunAll(s, steps);
            && (forall u :: u !in end.units ==> Owned(end, u) == {})
            && (forall u :: u in end.units && Leaves(end.units[u]) ==> Owned(end, u) == {})
            && (end.owner.Gone? ==>
                  && end.units == map[] && (forall u :: Owned(end, u) == {})
                  && forall f :: f in end.owner.spec ==>
                       forall name :: ConfigMap(name) in end.owner.spec[f] ==> name !in end.configMaps)
  {
    RunKeepsInv(s, steps);
    var end := RunAll(s, steps);
    forall u | u in end.units && Leaves(end.units[u]) ensures Owned(end, u) == {} {
      UnitLeavesNothing(end, u);
    }
    if end.owner.Gone? {
      forall f, name | f in end.owner.spec && ConfigMap(name) in end.owner.spec[f] ensures name !in end.configMaps {
        assert name in end.configMaps ==> ConfigMap(name) in SetOwned(end);
      }
    }
  }
}
