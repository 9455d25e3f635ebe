/** The Kubernetes and operator objects the controllers read and write, as values. */
module Cluster {
  import opened Common

  datatype Phase = Unset | Pending | Running | Ready | Succeeded | Failed | Unknown

  /** Parsed quantities by resource name: milli-units for cpu, bytes for memory. */
  datatype Resources = Resources(limits: map<string, int>, requests: map<string, int>)

  /** `ResourceList.Cpu()` and `.Memory()`: an absent entry reads as zero. */
  function Quantity(list: map<string, int>, key: string): int {
    if key in list then list[key] else 0
  }

  /** Both lists ask for the same amount: equal entries, or none but zero. */
  predicate SameAmount(a: map<string, int>, b: map<string, int>, key: string) {
    && (key in a && a[key] != 0 <==> key in b && b[key] != 0)
    && (key in a && key in b ==> a[key] == b[key])
  }

  lemma QuantitiesAgreeExactly(a: map<string, int>, b: map<string, int>, key: string)
    ensures Quantity(a, key) == Quantity(b, key) <==> SameAmount(a, b, key)
  {
  }

  /** Both ask for the same amounts of cpu and memory. */
  ghost predicate SameResources(a: Resources, b: Resources) {
    forall kind :: kind == "cpu" || kind == "memory" ==>
      SameAmount(a.limits, b.limits, kind) && SameAmount(a.requests, b.requests, kind)
  }

  lemma SameResourcesExactly(a: Resources, b: Resources)
    ensures SameResources(a, b) <==>
      && Quantity(a.limits, "cpu") == Quantity(b.limits, "cpu")
      && Quantity(a.requests, "cpu") == Quantity(b.requests, "cpu")
      && Quantity(a.limits, "memory") == Quantity(b.limits, "memory")
      && Quantity(a.requests, "memory") == Quantity(b.requests, "memory")
  {
    QuantitiesAgreeExactly(a.limits, b.limits, "cpu");
    QuantitiesAgreeExactly(a.requests, b.requests, "cpu");
    QuantitiesAgreeExactly(a.limits, b.limits, "memory");
    QuantitiesAgreeExactly(a.requests, b.requests, "memory");
  }

  datatype ResizeRule = ResizeRule(resourceName: string, restartPolicy: string)

  /** `valueFrom` is the referenced source, kept as an opaque description. */
  datatype EnvVar = EnvVar(name: string, value: string, valueFrom: Option<string>)

  datatype VolumeMount = VolumeMount(name: string, mountPath: string, readOnly: bool)

  datatype Container = Container(
    name: string,
    image: string,
    resources: Resources,
    resizePolicy: Slice<ResizeRule>,
    env: Slice<EnvVar>,
    mounts: Slice<VolumeMount>)

  datatype PodTemplate = PodTemplate(
    labels: map<string, string>,
    annotations: map<string, string>,
    containers: seq<Container>,
    initContainers: seq<Container>,
    nodeName: string)

  datatype Unit = Unit(
    labels: map<string, string>,
    annotations: map<string, string>,
    template: PodTemplate,
    phase: Phase)

  /**
   The part of a unit set's spec that units are assembled from and compared with; `mounts` and `mountEnv` are what its
   storage entries generate.
   */
  datatype UnitSetSpec = UnitSetSpec(
    mainType: string,
    version: string,
    resources: Resources,
    resizePolicy: Slice<ResizeRule>,
    env: seq<EnvVar>,
    mountEnv: seq<EnvVar>,
    mounts: seq<VolumeMount>)

  const MAIN_CONTAINER_NAME := "kubectl.kubernetes.io/default-container"
  const MAIN_CONTAINER_VERSION := "kubectl.kubernetes.io/default-container-version"

  /** A missing map entry reads as the empty string. */
  function Lookup(m: map<string, string>, key: string): string {
    if key in m then m[key] else ""
  }

  /** The position of the first container called `name`, or -1. */
  function IndexOfContainer(cs: seq<Container>, name: string): (r: int)
    ensures -1 <= r < |cs|
    ensures r >= 0 ==> cs[r].name == name && forall k :: 0 <= k < r ==> cs[k].name != name
    ensures r == -1 ==> forall k :: 0 <= k < |cs| ==> cs[k].name != name
  {
    if cs == [] then -1
    else if cs[0].name == name then 0
    else
      var rest := IndexOfContainer(cs[1..], name);
      if rest == -1 then -1 else rest + 1
  }

  lemma SameNamesSameIndex(cs: seq<Container>, ds: seq<Container>, name: string)
    requires |cs| == |ds| && forall i :: 0 <= i < |cs| ==> cs[i].name == ds[i].name
    ensures IndexOfContainer(cs, name) == IndexOfContainer(ds, name)
  {
    var i, j := IndexOfContainer(cs, name), IndexOfContainer(ds, name);
    if i >= 0 && j >= 0 {
      assert i >= j && j >= i;
    }
  }

  predicate UniqueNames(cs: seq<Container>) {
    forall i, j :: 0 <= i < j < |cs| ==> cs[i].name != cs[j].name
  }
}
