/** Scaling a unit set: missing units are created, and units beyond the desired count are deleted by serial number. */
module Scaling {
  import opened Common
  import opened Naming

  /** Units by name, each with its serial-number label. */
  type Labels = map<string, string>

  ghost predicate IsUnit(base: string, units: Labels, name: string, i: nat) {
    name in units && name == UnitName(base, i) && units[name] == Itoa(i) && i <= MAX_INT
  }

  /** Every unit is named after its ordinal, and its serial label says the same. */
  ghost predicate WellLabelled(base: string, units: Labels) {
    forall name :: name in units ==> exists i: nat :: IsUnit(base, units, name, i)
  }

  function Serial(units: Labels, name: string): Option<int>
    requires name in units
  {
    Atoi(units[name])
  }

  predicate Surplus(units: Labels, name: string, n: nat) {
    name in units && Serial(units, name).Some? && Serial(units, name).value + 1 > n
  }

  /** The names of the first `n` units. */
  function NamesBelow(base: string, n: nat): (names: set<string>)
  {
    if n == 0 then {} else NamesBelow(base, n - 1) + {UnitName(base, n - 1)}
  }

  lemma {:induction false} BelowHasName(base: string, n: nat, i: nat)
    requires i < n
    ensures UnitName(base, i) in NamesBelow(base, n)
  {
    if i < n - 1 { BelowHasName(base, n - 1, i); }
  }

  lemma {:induction false} BelowIsName(base: string, n: nat, name: string) returns (i: nat)
    requires name in NamesBelow(base, n)
    ensures i < n && name == UnitName(base, i)
  {
    if name == UnitName(base, n - 1) { i := n - 1; } else { i := BelowIsName(base, n - 1, name); }
  }

  lemma SerialIsOrdinal(base: string, units: Labels, name: string, i: nat)
    requires IsUnit(base, units, name, i)
    ensures Serial(units, name) == Some(i)
  {
    AtoiItoa(i);
  }

  /******* Counting *******/

  lemma {:induction false} FirstNames(base: string, n: nat)
    ensures |NamesBelow(base, n)| == n
  {
    if n > 0 {
      FirstNames(base, n - 1);
      var name := UnitName(base, n - 1);
      if name in NamesBelow(base, n - 1) {
        var i := BelowIsName(base, n - 1, name);
        UnitNameInjective(base, i, n - 1);
      }
    }
  }

  /**
   Once the first `n` units exist, there are more than `n` units exactly when one has a serial number of at least `n`.
   */
  lemma CountExceedsExactly(base: string, units: Labels, n: nat)
    requires WellLabelled(base, units) && NamesBelow(base, n) <= units.Keys && n <= MAX_INT
    ensures |units| > n <==> exists name :: Surplus(units, name, n)
  {
    var first := NamesBelow(base, n);
    FirstNames(base, n);
    if |units| > n && !exists name :: Surplus(units, name, n) {
      forall name | name in units ensures name in first {
        SurplusExactly(base, units, n, name);
      }
      SubsetSize(units.Keys, first);
    }
    if name :| Surplus(units, name, n) {
      SurplusExactly(base, units, n, name);
      SubsetSize(first + {name}, units.Keys);
    }
  }

  /** The first `n` units are not surplus, and all others are. */
  lemma SurplusExactly(base: string, units: Labels, n: nat, name: string)
    requires WellLabelled(base, units) && name in units
    ensures Serial(units, name).Some?
    ensures Surplus(units, name, n) <==> name !in NamesBelow(base, n)
  {
    var i: nat :| IsUnit(base, units, name, i);
    SerialIsOrdinal(base, units, name, i);
    if name in NamesBelow(base, n) {
      var j := BelowIsName(base, n, name);
      UnitNameInjective(base, i, j);
    } else if i < n {
      BelowHasName(base, n, i);
    }
  }

  lemma {:induction false} SubsetSize<T>(a: set<T>, b: set<T>)
    requires a <= b
    ensures |a| <= |b|
  {
    if a != {} {
      var x :| x in a;
      SubsetSize(a - {x}, b - {x});
    }
  }

  /******* The create loop *******/

  /** `unreachable` holds the names that cannot be fetched or created. */
  function AddIfMissing(units: Labels, base: string, i: nat, unreachable: set<string>): Labels {
    var name := UnitName(base, i);
    if name in units || name in unreachable then units else units[name := Itoa(i)]
  }

  function CreateFirst(units: Labels, base: string, n: nat, unreachable: set<string>): Labels {
    if n == 0 then units else AddIfMissing(CreateFirst(units, base, n - 1, unreachable), base, n - 1, unreachable)
  }

  lemma AddKeepsLabels(units: Labels, base: string, i: nat, unreachable: set<string>)
    requires WellLabelled(base, units) && i <= MAX_INT
    ensures WellLabelled(base, AddIfMissing(units, base, i, unreachable))
  {
    var more := AddIfMissing(units, base, i, unreachable);
    forall name | name in more ensures exists j: nat :: IsUnit(base, more, name, j) {
      if name in units {
        var j: nat :| IsUnit(base, units, name, j);
        assert IsUnit(base, more, name, j);
      } else {
        assert IsUnit(base, more, name, i);
      }
    }
  }

  lemma {:induction false} CreatedAreLabelled(units: Labels, base: string, n: nat, unreachable: set<string>)
    requires WellLabelled(base, units) && n <= MAX_INT
    ensures WellLabelled(base, CreateFirst(units, base, n, unreachable))
  {
    if n > 0 {
      CreatedAreLabelled(units, base, n - 1, unreachable);
      AddKeepsLabels(CreateFirst(units, base, n - 1, unreachable), base, n - 1, unreachable);
    }
  }

  /** Creating adds exactly the missing ones of the first `n` units that can be created, and changes no other. */
  lemma {:induction false} CreatesExactlyMissing(units: Labels, base: string, n: nat, unreachable: set<string>)
    ensures var after := CreateFirst(units, base, n, unreachable);
            && after.Keys == units.Keys + (NamesBelow(base, n) - unreachable)
            && forall name :: name in units ==> after[name] == units[name]
  {
    if n > 0 {
      CreatesExactlyMissing(units, base, n - 1, unreachable);
    }
  }

  /******* The removal walk *******/

  datatype Removal = Removal(deleted: set<string>, ok: bool)

  /**
   Walks the listed names: a label that is no number or a failing delete is an error; a unit that is already gone ends
   the walk early, without an error.
   */
  function RemoveUnits(units: Labels, order: seq<string>, n: nat, gone: set<string>, failing: set<string>): Removal
    requires forall i :: 0 <= i < |order| ==> order[i] in units
  {
    if order == [] then Removal({}, true)
    else
      var name := order[0];
      if Serial(units, name).None? then Removal({}, false)
      else if !Surplus(units, name, n) then RemoveUnits(units, order[1..], n, gone, failing)
      else if name in gone then Removal({}, true)
      else if name in failing then Removal({}, false)
      else
        var rest := RemoveUnits(units, order[1..], n, gone, failing);
        Removal({name} + rest.deleted, rest.ok)
  }

  /** No unit with a lower serial number is ever deleted; without interference, all the others listed are. */
  lemma {:induction false} RemovesOnlySurplus(
    units: Labels, order: seq<string>, n: nat, gone: set<string>, failing: set<string>)
    requires forall i :: 0 <= i < |order| ==> order[i] in units
    ensures var r := RemoveUnits(units, order, n, gone, failing);
            && (forall name :: name in r.deleted ==> Surplus(units, name, n))
            && (r.ok && gone == {} ==>
                  forall i :: 0 <= i < |order| && Surplus(units, order[i], n) ==> order[i] in r.deleted)
            && ((forall i :: 0 <= i < |order| ==> Serial(units, order[i]).Some?) && failing == {} ==> r.ok)
  {
    if order != [] {
      RemovesOnlySurplus(units, order[1..], n, gone, failing);
      assert forall i :: 0 < i < |order| ==> order[i] == order[1..][i - 1];
    }
  }

  /** A listed unit that ends the walk: its label is no number, or it is to be deleted and is gone or cannot be. */
  ghost predicate EndsWalk(units: Labels, name: string, n: nat, gone: set<string>, failing: set<string>)
    requires name in units
  {
    Serial(units, name).None? || (Surplus(units, name, n) && (name in gone || name in failing))
  }

  /** The surplus units among the first `k` listed. */
  function SurplusBefore(units: Labels, order: seq<string>, n: nat, k: nat): set<string>
    requires k <= |order|
  {
    set i | 0 <= i < k && Surplus(units, order[i], n) :: order[i]
  }

  lemma SurplusBeforeTail(units: Labels, order: seq<string>, n: nat, k: nat)
    requires k < |order|
    ensures SurplusBefore(units, order, n, k + 1)
         == (if Surplus(units, order[0], n) then {order[0]} else {}) + SurplusBefore(units, order[1..], n, k)
  {
    forall i | 0 <= i < k && Surplus(units, order[1..][i], n)
      ensures order[1..][i] in SurplusBefore(units, order, n, k + 1)
    {
      assert order[i + 1] == order[1..][i];
    }
  }

  /**
   The walk deletes exactly the surplus units listed before the first one that ends it, and fails exactly if that one's
   label is no number or its delete fails.
   */
  lemma {:induction false} RemovesExactly(
    units: Labels, order: seq<string>, n: nat, gone: set<string>, failing: set<string>) returns (k: nat)
    requires forall i :: 0 <= i < |order| ==> order[i] in units
    ensures k <= |order| && (forall i :: 0 <= i < k ==> !EndsWalk(units, order[i], n, gone, failing))
    ensures k < |order| ==> EndsWalk(units, order[k], n, gone, failing)
    ensures var r := RemoveUnits(units, order, n, gone, failing);
            && r.deleted == SurplusBefore(units, order, n, k)
            && (r.ok <==> k < |order| ==> Serial(units, order[k]).Some? && order[k] in gone)
  {
    if order == [] || EndsWalk(units, order[0], n, gone, failing) {
      k := 0;
    } else {
      var rest := RemovesExactly(units, order[1..], n, gone, failing);
      k := rest + 1;
      assert forall i :: 0 < i < |order| ==> order[i] == order[1..][i - 1];
      SurplusBeforeTail(units, order, n, rest);
    }
  }

  /******* The reconcile *******/

  class UnitStore {
    var units: Labels
    /** Units whose deletion has been requested. */
    var deleted: set<string>

    constructor (units: Labels)
      ensures this.units == units && deleted == {}
    {
      this.units, this.deleted := units, {};
    }

    method CreateMissing(base: string, n: nat, unreachable: set<string>) returns (ok: bool)
      modifies this`units
      ensures units == CreateFirst(old(units), base, n, unreachable)
      ensures ok <==> NamesBelow(base, n) !! unreachable
    {
      var names, index := UnitNames(base, n);
      ok := true;
      for k := 0 to n
        invariant units == CreateFirst(old(units), base, k, unreachable)
        invariant ok <==> NamesBelow(base, k) !! unreachable
      {
        assert names[k] == UnitName(base, k);
        if names[k] in unreachable {
          ok := false;
        } else if names[k] !in units {
          units := units[names[k] := index[names[k]]];
        }
      }
    }

    method List() returns (order: seq<string>)
      ensures Lists(order, units)
    {
      order := [];
      var left := units.Keys;
      while left != {}
        invariant left <= units.Keys && |order| + |left| == |units|
        invariant forall i :: 0 <= i < |order| ==> order[i] in units
        invariant forall name :: name in units ==> name in left || name in order
        decreases left
      {
        var name :| name in left;
        order, left := order + [name], left - {name};
      }
    }

    method Remove(order: seq<string>, n: nat, gone: set<string>, failing: set<string>) returns (ok: bool)
      requires forall i :: 0 <= i < |order| ==> order[i] in units
      modifies this`deleted
      ensures var r := RemoveUnits(units, order, n, gone, failing);
              deleted == old(deleted) + r.deleted && ok == r.ok
    {
      for i := 0 to |order|
        invariant deleted + RemoveUnits(units, order[i..], n, gone, failing).deleted
               == old(deleted) + RemoveUnits(units, order, n, gone, failing).deleted
        invariant RemoveUnits(units, order[i..], n, gone, failing).ok == RemoveUnits(units, order, n, gone, failing).ok
      {
        assert order[i..][1..] == order[i + 1..];
        var name := order[i];
        var serial := Atoi(units[name]);
        if serial.None? { return false; }
        if serial.value + 1 > n {
          if name in gone { return true; }
          if name in failing { return false; }
          deleted := deleted + {name};
        }
      }
      return true;
    }

    method ReconcileUnit(base: string, n: nat, unreachable: set<string>, gone: set<string>, failing: set<string>)
      returns (ok: bool, ghost order: seq<string>)
      modifies this
      ensures units == CreateFirst(old(units), base, n, unreachable)
      ensures Lists(order, units)
      ensures var r := Removed(units, order, base, n, unreachable, gone, failing);
              deleted == old(deleted) + r.deleted && ok == r.ok
    {
      ok := CreateMissing(base, n, unreachable);
      var listed := List();
      order := listed;
      if ok && |listed| != 0 && |listed| > n {
        ok := Remove(listed, n, gone, failing);
      }
    }
  }

  /** The list call returns every unit once. */
  ghost predicate Lists(order: seq<string>, units: Labels) {
    && (forall i :: 0 <= i < |order| ==> order[i] in units)
    && (forall name :: name in units ==> name in order)
    && |order| == |units|
  }

  /** The removal runs only when all units could be created and more are listed than desired. */
  function Removed(
    units: Labels, order: seq<string>, base: string, n: nat, unreachable: set<string>, gone: set<string>,
    failing: set<string>): Removal
    requires forall i :: 0 <= i < |order| ==> order[i] in units
  {
    if !(NamesBelow(base, n) !! unreachable) then Removal({}, false)
    else if |order| > n then RemoveUnits(units, order, n, gone, failing)
    else Removal({}, true)
  }

  /**
   One reconcile never deletes any of the first `n` units, and if all calls succeed and nobody else deletes units
   meanwhile, it succeeds and keeps exactly these. If a unit cannot be created, it deletes nothing.
   */
  lemma ScalesToDesired(
    base: string, before: Labels, n: nat, order: seq<string>, unreachable: set<string>, gone: set<string>,
    failing: set<string>)
    requires WellLabelled(base, before) && n <= MAX_INT
    requires Lists(order, CreateFirst(before, base, n, unreachable))
    ensures var units := CreateFirst(before, base, n, unreachable);
            var r := Removed(units, order, base, n, unreachable, gone, failing);
            && r.deleted !! NamesBelow(base, n)
            && (!(NamesBelow(base, n) !! unreachable) ==> !r.ok && r.deleted == {})
            && (NamesBelow(base, n) !! unreachable ==> NamesBelow(base, n) <= units.Keys && (failing == {} ==> r.ok))
            && (r.ok && gone == {} ==> units.Keys - r.deleted == NamesBelow(base, n))
  {
    if NamesBelow(base, n) !! unreachable {
      CreatesExactlyMissing(before, base, n, unreachable);
      CreatedAreLabelled(before, base, n, unreachable);
      var units, first := CreateFirst(before, base, n, unreachable), NamesBelow(base, n);
      assert first - unreachable == first;
      SurplusOfAll(base, units, n);
      CountExceedsExactly(base, units, n);
      RemovalKeepsExactly(units, first, order, n, gone, failing);
    }
  }

  lemma RemovalKeepsExactly(
    units: Labels, keep: set<string>, order: seq<string>, n: nat, gone: set<string>, failing: set<string>)
    requires Lists(order, units) && keep <= units.Keys
    requires forall name :: name in units ==> Serial(units, name).Some? && (Surplus(units, name, n) <==> name !in keep)
    requires |units| > n <==> exists name :: Surplus(units, name, n)
    ensures var r := if |order| > n then RemoveUnits(units, order, n, gone, failing) else Removal({}, true);
            && r.deleted !! keep
            && (failing == {} ==> r.ok)
            && (r.ok && gone == {} ==> units.Keys - r.deleted == keep)
  {
    RemovesOnlySurplus(units, order, n, gone, failing);
    var r := if |order| > n then RemoveUnits(units, order, n, gone, failing) else Removal({}, true);
    if r.ok && gone == {} {
      forall name | name in units && name !in keep ensures name in r.deleted {
        var i :| 0 <= i < |order| && order[i] == name;
      }
    }
  }

  lemma SurplusOfAll(base: string, units: Labels, n: nat)
    requires WellLabelled(base, units)
    ensures forall name :: name in units ==>
              Serial(units, name).Some? && (Surplus(units, name, n) <==> name !in NamesBelow(base, n))
  {
    forall name | name in units
      ensures Serial(units, name).Some? && (Surplus(units, name, n) <==> name !in NamesBelow(base, n))
    {
      SurplusExactly(base, units, n, name);
    }
  }
}
