/** The two comparisons of environment variable lists the unit controller uses, and how they agree. */
module EnvCompare {
  import opened Common
  import opened Cluster
  import opened Assembly

  /** A list as a finite map; a later entry replaces an earlier one of the same name. */
  function EnvMap(envs: seq<EnvVar>): (m: map<string, EnvVar>)
    ensures forall n :: n in m ==> m[n].name == n
  {
    if envs == [] then map[] else map[envs[0].name := envs[0]] + EnvMap(envs[1..])
  }

  method BuildEnvMap(envs: seq<EnvVar>) returns (m: map<string, EnvVar>)
    ensures m == EnvMap(envs)
  {
    m := map[];
    for i := 0 to |envs|
      invariant m + EnvMap(envs[i..]) == EnvMap(envs)
    {
      assert envs[i..][1..] == envs[i + 1..];
      AddedToMap(m, envs[i], EnvMap(envs[i + 1..]));
      m := m[envs[i].name := envs[i]];
    }
    assert envs[|envs|..] == [];
  }

  lemma AddedToMap(m: map<string, EnvVar>, e: EnvVar, rest: map<string, EnvVar>)
    ensures m + (map[e.name := e] + rest) == m[e.name := e] + rest
  {
  }

  /******* The drift comparison *******/

  /** What the drift comparison asks of the pod's entry `p` for the unit's entry `u`. */
  predicate EntryMatches(u: EnvVar, p: EnvVar) {
    if u.value != "" && u.value != p.value then false
    else if u.valueFrom.Some? && u.valueFrom != p.valueFrom then false
    else if u.value == "" && u.valueFrom.None? then p.value == "" && p.valueFrom.None?
    else true
  }

  /** Takes the unit's entries out of the pod's map one by one; nothing may be missing, differ or be left over. */
  predicate Consumes(unitEnvs: seq<EnvVar>, podMap: map<string, EnvVar>) {
    if unitEnvs == [] then podMap == map[]
    else
      && unitEnvs[0].name in podMap && EntryMatches(unitEnvs[0], podMap[unitEnvs[0].name])
      && Consumes(unitEnvs[1..], podMap - {unitEnvs[0].name})
  }

  predicate LoopCompareEnv(unitEnvs: Slice<EnvVar>, podEnvs: Slice<EnvVar>) {
    var us, ps := unitEnvs.Elems(), podEnvs.Elems();
    && unitEnvs.Nil? == podEnvs.Nil?
    && ((us == [] && ps == []) || (|us| == |ps| && Consumes(us, EnvMap(ps))))
  }

  method CompareEnvLists(unitEnvs: Slice<EnvVar>, podEnvs: Slice<EnvVar>) returns (matched: bool)
    ensures matched == LoopCompareEnv(unitEnvs, podEnvs)
  {
    if unitEnvs.Nil? != podEnvs.Nil? { return false; }
    var us, ps := unitEnvs.Elems(), podEnvs.Elems();
    if us == [] && ps == [] { return true; }
    matched := |us| == |ps|;
    var podMap := BuildEnvMap(ps);
    for i := 0 to |us|
      invariant (matched && Consumes(us[i..], podMap)) == (|us| == |ps| && Consumes(us, EnvMap(ps)))
    {
      assert us[i..][1..] == us[i + 1..];
      var u := us[i];
      if u.name !in podMap {
        matched := false;
      } else {
        var p := podMap[u.name];
        if u.value != "" && u.value != p.value {
          matched := false;
        } else if u.valueFrom.Some? && u.valueFrom != p.valueFrom {
          matched := false;
        } else if u.value == "" && u.valueFrom.None? {
          if p.value != "" || p.valueFrom.Some? {
            matched := false;
          }
        }
        podMap := podMap - {u.name};
      }
    }
    assert us[|us|..] == [];
    if podMap != map[] {
      matched := false;
    }
  }

  /******* The patch comparison *******/

  predicate EnvVarsEqual(a: seq<EnvVar>, b: seq<EnvVar>) {
    && |a| == |b|
    && forall n :: n in EnvMap(a) ==>
         && n in EnvMap(b)
         && EnvMap(a)[n].value == EnvMap(b)[n].value
         && EnvMap(a)[n].valueFrom == EnvMap(b)[n].valueFrom
  }

  method CompareEnvVars(a: seq<EnvVar>, b: seq<EnvVar>) returns (equal: bool)
    ensures equal == EnvVarsEqual(a, b)
  {
    if |a| != |b| { return false; }
    var aMap := BuildEnvMap(a);
    var bMap := BuildEnvMap(b);
    var left := aMap.Keys;
    while left != {}
      invariant left <= aMap.Keys
      invariant forall n :: n in aMap && n !in left ==>
        n in bMap && aMap[n].value == bMap[n].value && aMap[n].valueFrom == bMap[n].valueFrom
      decreases left
    {
      var n :| n in left;
      if n !in bMap || aMap[n].value != bMap[n].value || aMap[n].valueFrom != bMap[n].valueFrom {
        return false;
      }
      left := left - {n};
    }
    return true;
  }

  /******* How they relate *******/

  /** No entry sets both a value and a source, as the Kubernetes API requires. */
  ghost predicate OneSource(envs: seq<EnvVar>) {
    forall i :: 0 <= i < |envs| ==> envs[i].value == "" || envs[i].valueFrom.None?
  }

  ghost predicate OneSourceMap(m: map<string, EnvVar>) {
    forall n :: n in m ==> m[n].name == n && (m[n].value == "" || m[n].valueFrom.None?)
  }

  lemma {:induction false} EnvMapOfTail(envs: seq<EnvVar>, i: nat)
    requires i < |envs|
    ensures envs[i].name in EnvMap(envs)
  {
    if i > 0 { EnvMapOfTail(envs[1..], i - 1); }
  }

  lemma {:induction false} EnvMapOnlyListed(envs: seq<EnvVar>, n: string)
    requires n in EnvMap(envs)
    ensures EnvMap(envs)[n] in envs
  {
    if n in EnvMap(envs[1..]) {
      EnvMapOnlyListed(envs[1..], n);
      assert envs[1..] <= envs[1..] && forall e :: e in envs[1..] ==> e in envs;
    }
  }

  lemma HeadIsDistinct(envs: seq<EnvVar>)
    requires envs != []
    ensures DistinctEnv(envs) <==> DistinctEnv(envs[1..]) && envs[0].name !in EnvMap(envs[1..])
  {
    var t := envs[1..];
    if DistinctEnv(envs) && envs[0].name in EnvMap(t) {
      EnvMapOnlyListed(t, envs[0].name);
    }
    if DistinctEnv(t) && envs[0].name !in EnvMap(t) {
      forall j | 0 < j < |envs| ensures envs[0].name != envs[j].name {
        EnvMapOfTail(t, j - 1);
      }
    }
  }

  /** A list has at most as many names as entries, and as many exactly when its names are distinct. */
  lemma {:induction false} MapSize(envs: seq<EnvVar>)
    ensures |EnvMap(envs)| <= |envs|
    ensures |EnvMap(envs)| == |envs| <==> DistinctEnv(envs)
  {
    if envs != [] {
      var t, n := envs[1..], envs[0].name;
      MapSize(t);
      HeadIsDistinct(envs);
      assert EnvMap(envs).Keys == EnvMap(t).Keys + {n};
      assert |EnvMap(envs)| == |EnvMap(envs).Keys| && |EnvMap(t)| == |EnvMap(t).Keys|;
    }
  }

  lemma {:induction false} ConsumesExactly(us: seq<EnvVar>, m: map<string, EnvVar>)
    requires OneSource(us) && OneSourceMap(m)
    ensures Consumes(us, m) <==> DistinctEnv(us) && m == EnvMap(us)
  {
    if us != [] {
      var u, t := us[0], us[1..];
      var m' := m - {u.name};
      ConsumesExactly(t, m');
      HeadIsDistinct(us);
      if u.name in m {
        assert EntryMatches(u, m[u.name]) <==> u == m[u.name];
        assert m == m'[u.name := m[u.name]];
      }
      if Consumes(us, m) {
        assert m == EnvMap(us);
      }
      if DistinctEnv(us) && m == EnvMap(us) {
        assert m' == EnvMap(t);
      }
    }
  }

  lemma OneSourceOfMap(envs: seq<EnvVar>)
    requires OneSource(envs)
    ensures OneSourceMap(EnvMap(envs))
  {
    forall n | n in EnvMap(envs) ensures EnvMap(envs)[n].value == "" || EnvMap(envs)[n].valueFrom.None? {
      EnvMapOnlyListed(envs, n);
    }
  }

  /**
   The drift comparison holds exactly when nil-ness agrees and both lists have distinct names and are equal as finite
   maps.
   */
  lemma LoopCompareExactly(u: Slice<EnvVar>, p: Slice<EnvVar>)
    requires OneSource(u.Elems()) && OneSource(p.Elems())
    ensures LoopCompareEnv(u, p) <==>
      && u.Nil? == p.Nil?
      && DistinctEnv(u.Elems()) && DistinctEnv(p.Elems())
      && EnvMap(u.Elems()) == EnvMap(p.Elems())
  {
    OneSourceOfMap(p.Elems());
    ConsumesExactly(u.Elems(), EnvMap(p.Elems()));
    MapSize(u.Elems());
    MapSize(p.Elems());
  }

  /** Whenever the drift comparison is satisfied, the patch comparison is as well. */
  lemma NoDriftMeansNoPatch(u: Slice<EnvVar>, p: Slice<EnvVar>)
    requires OneSource(u.Elems()) && OneSource(p.Elems())
    requires LoopCompareEnv(u, p)
    ensures EnvVarsEqual(u.Elems(), p.Elems())
  {
    LoopCompareExactly(u, p);
    MapSize(u.Elems());
    MapSize(p.Elems());
  }

  /**
   The patch comparison asks for as many entries and equal values and sources under every name of the first list. If
   that list has distinct names, so has the other, and both are equal as finite maps.
   */
  lemma EnvVarsEqualExactly(a: seq<EnvVar>, b: seq<EnvVar>)
    requires DistinctEnv(a)
    ensures EnvVarsEqual(a, b) <==> DistinctEnv(b) && EnvMap(a) == EnvMap(b)
  {
    MapSize(a);
    MapSize(b);
    var m, n := EnvMap(a), EnvMap(b);
    if EnvVarsEqual(a, b) {
      assert m.Keys <= n.Keys && |m.Keys| == |m| && |n.Keys| == |n|;
      SubsetOfSameSize(m.Keys, n.Keys);
      assert forall k :: k in m ==> m[k] == n[k];
    }
  }

  lemma SubsetOfSameSize(a: set<string>, b: set<string>)
    requires a <= b && |a| >= |b|
    ensures a == b
  {
    assert |b - a| == |b| - |a|;
  }

  lemma {:induction false} ConsumesItself(us: seq<EnvVar>)
    ensures Consumes(us, EnvMap(us)) <==> DistinctEnv(us)
  {
    if us != [] {
      ConsumesItself(us[1..]);
      HeadIsDistinct(us);
      if us[0].name !in EnvMap(us[1..]) {
        assert EnvMap(us) - {us[0].name} == EnvMap(us[1..]);
      } else {
        MissingName(us[1..], EnvMap(us) - {us[0].name}, us[0].name);
      }
    }
  }

  /** A name that is listed but no longer in the map makes the comparison fail. */
  lemma {:induction false} MissingName(us: seq<EnvVar>, m: map<string, EnvVar>, n: string)
    requires n in EnvMap(us) && n !in m
    ensures !Consumes(us, m)
  {
    if us[0].name != n && Consumes(us, m) {
      MissingName(us[1..], m - {us[0].name}, n);
    }
  }

  /** The drift comparison is reflexive exactly on lists with distinct names. */
  lemma ReflexiveExactlyWhenDistinct(e: Slice<EnvVar>)
    ensures LoopCompareEnv(e, e) <==> DistinctEnv(e.Elems())
  {
    ConsumesItself(e.Elems());
  }
}
