/** Configuration contents, flattened from a parsed tree into one map from slash-separated keys to text. */
module ConfigFlatten {
  import opened Common
  import opened Naming
  import opened Paths

  datatype Scalar = Text(text: string) | Number(value: int) | Flag(on: bool) | Decimal(digits: string)

  /** YAML map keys need not be strings. */
  datatype Key = Str(name: string) | Other

  datatype Entry = Entry(key: Key, node: Node)

  /** A parsed document. The entries of a map are listed in the order in which they are visited. */
  datatype Node = List(items: seq<Node>) | Map(entries: seq<Entry>) | Leaf(scalar: Scalar) | Ignored

  function Show(s: Scalar): string {
    match s
    case Text(t) => t
    case Number(v) => if v < 0 then "-" + Itoa(-v) else Itoa(v)
    case Flag(on) => if on then "true" else "false"
    case Decimal(digits) => digits
  }

  /******* The children of a node, in visiting order *******/

  function Size(n: Node): nat {
    match n
    case List(items) => |items|
    case Map(entries) => |entries|
    case _ => 0
  }

  function ChildKey(n: Node, i: nat): Key
    requires i < Size(n)
  {
    if n.List? then Str(Itoa(i)) else n.entries[i].key
  }

  function Child(n: Node, i: nat): (c: Node)
    requires i < Size(n)
    ensures n.List? ==> c == n.items[i]
    ensures n.Map? ==> c == n.entries[i].node
  {
    if n.List? then n.items[i] else n.entries[i].node
  }

  /******* The walk *******/

  type Vars = map<string, string>

  /** A key that is not a string makes the walk panic. */
  datatype Walked = Walked(vars: Vars, ok: bool)

  function Walk(n: Node, key: string, vars: Vars): Walked
    decreases n, 2, 0
  {
    if n.Leaf? then Walked(vars[key := Show(n.scalar)], true) else WalkFrom(n, 0, key, vars)
  }

  function WalkFrom(n: Node, i: nat, key: string, vars: Vars): Walked
    requires i <= Size(n)
    decreases n, 1, Size(n) - i
  {
    if i == Size(n) then Walked(vars, true)
    else if ChildKey(n, i).Other? then Walked(vars, false)
    else
      assert n.List? ==> Child(n, i) < n;
      assert n.Map? ==> n.entries[i] < n;
      var w := Walk(Child(n, i), Join(key, ChildKey(n, i).name), vars);
      if w.ok then WalkFrom(n, i + 1, key, w.vars) else w
  }

  /** The map that all walks share. */
  class Store {
    var vars: Vars

    constructor ()
      ensures vars == map[]
    {
      vars := map[];
    }
  }

  method NodeWalk(n: Node, key: string, store: Store) returns (ok: bool)
    modifies store
    ensures Walked(store.vars, ok) == Walk(n, key, old(store.vars))
    decreases n
  {
    if n.Leaf? {
      store.vars := store.vars[key := Show(n.scalar)];
      return true;
    }
    for i := 0 to Size(n)
      invariant Walk(n, key, old(store.vars)) == WalkFrom(n, i, key, store.vars)
    {
      if ChildKey(n, i).Other? { return false; }
      assert n.List? ==> Child(n, i) < n;
      assert n.Map? ==> n.entries[i] < n;
      ok := NodeWalk(Child(n, i), Join(key, ChildKey(n, i).name), store);
      if !ok { return false; }
    }
    return true;
  }

  /******* Leaves by path *******/

  /** The text at the end of a path of map keys and list positions. */
  function At(n: Node, path: seq<string>): Option<string>
    decreases |path|, 1, 0
  {
    if n.Leaf? then if path == [] then Some(Show(n.scalar)) else None
    else if path == [] then None
    else AtFrom(n, 0, path)
  }

  function AtFrom(n: Node, i: nat, path: seq<string>): Option<string>
    requires i <= Size(n) && path != []
    decreases |path|, 0, Size(n) - i
  {
    if i == Size(n) then None
    else if ChildKey(n, i) == Str(path[0]) then At(Child(n, i), path[1..])
    else AtFrom(n, i + 1, path)
  }

  ghost predicate DistinctAt(n: Node, j: nat, i: nat)
    requires j < Size(n) && i < Size(n)
  {
    ChildKey(n, j) != ChildKey(n, i)
  }

  /** No map has the same key twice, and every key is a plain path element. */
  ghost predicate Good(n: Node) {
    && (n.Map? ==> forall i, j :: 0 <= i < j < Size(n) ==> DistinctAt(n, j, i))
    && forall i :: 0 <= i < Size(n) ==>
         (n.Map? ==> ChildKey(n, i).Str? && Plain(ChildKey(n, i).name)) && Good(Child(n, i))
  }

  lemma PositionIsPlain(i: nat)
    ensures Plain(Itoa(i))
  {
    assert IsDigit(Itoa(i)[0]);
  }

  lemma KeysAreGood(n: Node, i: nat, j: nat)
    requires Good(n) && i < Size(n) && j < Size(n) && i != j
    ensures DistinctAt(n, j, i)
  {
    if n.List? {
      DecimalRoundTrip(i);
      DecimalRoundTrip(j);
    } else {
      assert if i < j then DistinctAt(n, j, i) else DistinctAt(n, i, j);
    }
  }

  lemma KeyIsPlain(n: Node, i: nat)
    requires Good(n) && i < Size(n)
    ensures ChildKey(n, i).Str? && Plain(ChildKey(n, i).name)
  {
    if n.List? { PositionIsPlain(i); }
  }

  lemma {:induction false} Misses(n: Node, i: nat, path: seq<string>)
    requires i <= Size(n) && path != []
    requires forall j :: i <= j < Size(n) ==> ChildKey(n, j) != Str(path[0])
    ensures AtFrom(n, i, path) == None
    decreases Size(n) - i
  {
    if i < Size(n) { Misses(n, i + 1, path); }
  }

  lemma {:induction false} Hits(n: Node, i: nat, j: nat, path: seq<string>)
    requires Good(n) && i <= j < Size(n) && path != [] && ChildKey(n, j) == Str(path[0])
    ensures AtFrom(n, i, path) == At(Child(n, j), path[1..])
    decreases j - i
  {
    if i < j {
      KeysAreGood(n, i, j);
      Hits(n, i + 1, j, path);
    }
  }

  /** A path goes down by list position or by map key, and ends at a leaf. */
  lemma PathsFollowTree(n: Node, i: nat, rest: seq<string>)
    requires Good(n)
    ensures n.List? && i < |n.items| ==> At(n, [Itoa(i)] + rest) == At(n.items[i], rest)
    ensures n.Map? && i < |n.entries| ==>
            n.entries[i].key.Str? && At(n, [n.entries[i].key.name] + rest) == At(n.entries[i].node, rest)
  {
    if i < Size(n) {
      KeyIsPlain(n, i);
      var path := [ChildKey(n, i).name] + rest;
      assert path[1..] == rest;
      Hits(n, 0, i, path);
    }
  }

  /** What is printed tells the value: numbers parse back, texts are kept, and flags read "true" or "false". */
  lemma ScalarsReadBack(s: Scalar)
    ensures s.Number? && MIN_INT <= s.value <= MAX_INT ==> Atoi(Show(s)) == Some(s.value)
    ensures s.Text? ==> Show(s) == s.text
    ensures s.Decimal? ==> Show(s) == s.digits
    ensures s.Flag? ==> (Show(s) == "true" <==> s.on) && (Show(s) == "false" <==> !s.on)
  {
    if s.Number? && MIN_INT <= s.value <= MAX_INT {
      if s.value >= 0 {
        AtoiItoa(s.value);
      } else {
        DecimalRoundTrip(-s.value);
        assert Show(s)[1..] == Itoa(-s.value);
      }
    }
  }

  /******* What the walk computes *******/

  function Get(vars: Vars, key: string): Option<string> {
    if key in vars then Some(vars[key]) else None
  }

  function Or(a: Option<string>, b: Option<string>): Option<string> {
    if a.Some? then a else b
  }

  /** What a subtree at `prefix` says about a key. */
  function Found(n: Node, prefix: seq<string>, key: string): Option<string> {
    var path := Parse(key);
    if Render(path) == key && prefix <= path then At(n, path[|prefix|..]) else None
  }

  function FoundFrom(n: Node, i: nat, prefix: seq<string>, key: string): Option<string>
    requires i <= Size(n)
  {
    var path := Parse(key);
    if Render(path) == key && prefix <= path && prefix != path then AtFrom(n, i, path[|prefix|..]) else None
  }

  lemma FoundSplits(n: Node, i: nat, prefix: seq<string>, key: string)
    requires Good(n) && i < Size(n)
    ensures ChildKey(n, i).Str?
    ensures FoundFrom(n, i, prefix, key)
         == Or(FoundFrom(n, i + 1, prefix, key), Found(Child(n, i), prefix + [ChildKey(n, i).name], key))
  {
    KeyIsPlain(n, i);
    var e := ChildKey(n, i).name;
    var path := Parse(key);
    if Render(path) == key && prefix <= path && prefix != path {
      var rest := path[|prefix|..];
      assert prefix + [e] <= path <==> rest[0] == e;
      if rest[0] == e {
        assert path[|prefix + [e]|..] == rest[1..];
        forall j | i + 1 <= j < Size(n) ensures ChildKey(n, j) != Str(rest[0]) { KeysAreGood(n, i, j); }
        Misses(n, i + 1, rest);
      }
    }
  }

  /**
   For trees whose map keys are plain: every key of the result that is a leaf's path holds this leaf's text, and every
   other key is as before.
   */
  lemma {:induction false} WalkExactly(n: Node, prefix: seq<string>, vars: Vars, key: string)
    requires Good(n) && AllPlain(prefix)
    ensures var w := Walk(n, Render(prefix), vars);
            w.ok && Get(w.vars, key) == Or(Found(n, prefix, key), Get(vars, key))
    decreases n, 2, 0
  {
    if n.Leaf? {
      ParseRender(prefix);
      var path := Parse(key);
      if prefix <= path && path[|prefix|..] == [] { assert path == prefix; }
      if path == prefix { assert path[|prefix|..] == []; }
    } else {
      WalkFromExactly(n, 0, prefix, vars, key);
    }
  }

  lemma {:induction false} WalkFromExactly(n: Node, i: nat, prefix: seq<string>, vars: Vars, key: string)
    requires Good(n) && AllPlain(prefix) && i <= Size(n) && !n.Leaf?
    ensures var w := WalkFrom(n, i, Render(prefix), vars);
            w.ok && Get(w.vars, key) == Or(FoundFrom(n, i, prefix, key), Get(vars, key))
    decreases n, 1, Size(n) - i
  {
    if i < Size(n) {
      assert n.List? ==> Child(n, i) < n;
      assert n.Map? ==> n.entries[i] < n;
      KeyIsPlain(n, i);
      var e := ChildKey(n, i).name;
      JoinPlain(prefix, e);
      WalkExactly(Child(n, i), prefix + [e], vars, key);
      var w := Walk(Child(n, i), Render(prefix + [e]), vars);
      WalkFromExactly(n, i + 1, prefix, w.vars, key);
      FoundSplits(n, i, prefix, key);
    }
  }

  /** Each leaf's text is stored under its joined path, so distinct leaves have distinct keys. */
  lemma LeavesKeepTheirText(n: Node, vars: Vars, path: seq<string>)
    requires Good(n) && AllPlain(path) && At(n, path).Some?
    ensures Get(Walk(n, "/", vars).vars, Render(path)) == At(n, path)
    ensures forall other :: AllPlain(other) && Render(other) == Render(path) ==> other == path
  {
    assert Render([]) == "/";
    WalkExactly(n, [], vars, Render(path));
    ParseRender(path);
    assert path[0..] == path;
    forall other | AllPlain(other) && Render(other) == Render(path) ensures other == path { ParseRender(other); }
  }

  /******* Visiting order *******/

  function KeysOf(n: Node): set<Key> {
    set i | 0 <= i < Size(n) :: ChildKey(n, i)
  }

  /** The same document, with the entries of its maps visited in another order. */
  ghost predicate Reorders(a: Node, b: Node)
    decreases a
  {
    if Size(a) == 0 then a == b
    else
      && (a.List? <==> b.List?) && KeysOf(a) == KeysOf(b)
      && forall i, j :: 0 <= i < Size(a) && 0 <= j < Size(b) && ChildKey(a, i) == ChildKey(b, j) ==>
           Reorders(Child(a, i), Child(b, j))
  }

  ghost predicate StringKeys(n: Node) {
    forall i :: 0 <= i < Size(n) ==> ChildKey(n, i).Str? && StringKeys(Child(n, i))
  }

  /** The joined key and the text of every leaf. */
  ghost function Outputs(n: Node, key: string): set<(string, string)>
    requires StringKeys(n)
    decreases n, 2, 0
  {
    if n.Leaf? then {(key, Show(n.scalar))} else OutputsFrom(n, 0, key)
  }

  ghost function OutputsFrom(n: Node, i: nat, key: string): set<(string, string)>
    requires StringKeys(n) && i <= Size(n)
    decreases n, 1, Size(n) - i
  {
    if i == Size(n) then {}
    else
      assert n.List? ==> Child(n, i) < n;
      assert n.Map? ==> n.entries[i] < n;
      Outputs(Child(n, i), Join(key, ChildKey(n, i).name)) + OutputsFrom(n, i + 1, key)
  }

  /** No two leaves of different text have the same joined key. */
  ghost predicate NoCollision(outputs: set<(string, string)>) {
    forall x, y :: x in outputs && y in outputs && x.0 == y.0 ==> x == y
  }

  /** What the walk leaves at a key, given the leaves' joined keys. */
  ghost predicate Settles(outputs: set<(string, string)>, before: Vars, after: Vars, key: string) {
    && (forall text :: (key, text) in outputs ==> Get(after, key) == Some(text))
    && ((forall text :: (key, text) !in outputs) ==> Get(after, key) == Get(before, key))
  }

  lemma {:induction false} WalkSettles(n: Node, key: string, vars: Vars, k: string)
    requires StringKeys(n) && NoCollision(Outputs(n, key))
    ensures Walk(n, key, vars).ok && Settles(Outputs(n, key), vars, Walk(n, key, vars).vars, k)
    decreases n, 2, 0
  {
    if !n.Leaf? { WalkFromSettles(n, 0, key, vars, k); }
  }

  lemma OutputsInTwo(n: Node, i: nat, key: string)
    requires StringKeys(n) && i < Size(n)
    ensures OutputsFrom(n, i, key)
         == Outputs(Child(n, i), Join(key, ChildKey(n, i).name)) + OutputsFrom(n, i + 1, key)
  {
  }

  lemma WalkInTwo(n: Node, i: nat, key: string, vars: Vars)
    requires i < Size(n) && ChildKey(n, i).Str?
    ensures var w := Walk(Child(n, i), Join(key, ChildKey(n, i).name), vars);
            w.ok ==> WalkFrom(n, i, key, vars) == WalkFrom(n, i + 1, key, w.vars)
  {
  }

  lemma {:induction false} WalkFromSettles(n: Node, i: nat, key: string, vars: Vars, k: string)
    requires StringKeys(n) && i <= Size(n) && NoCollision(OutputsFrom(n, i, key))
    ensures WalkFrom(n, i, key, vars).ok && Settles(OutputsFrom(n, i, key), vars, WalkFrom(n, i, key, vars).vars, k)
    decreases n, 1, Size(n) - i
  {
    if i < Size(n) {
      OutputsInTwo(n, i, key);
      WalkInTwo(n, i, key, vars);
      ChildSettles(n, i, key, vars, k);
      var at := Join(key, ChildKey(n, i).name);
      var w, first, rest := Walk(Child(n, i), at, vars), Outputs(Child(n, i), at), OutputsFrom(n, i + 1, key);
      PartsDoNotCollide(first, rest);
      WalkFromSettles(n, i + 1, key, w.vars, k);
      BothSettle(first, rest, vars, w.vars, WalkFrom(n, i + 1, key, w.vars).vars, k);
    }
  }

  lemma {:induction false} ChildSettles(n: Node, i: nat, key: string, vars: Vars, k: string)
    requires StringKeys(n) && i < Size(n) && NoCollision(OutputsFrom(n, i, key))
    ensures var at := Join(key, ChildKey(n, i).name);
            var w := Walk(Child(n, i), at, vars);
            w.ok && Settles(Outputs(Child(n, i), at), vars, w.vars, k)
    decreases n, 0, 0
  {
    assert n.List? ==> Child(n, i) < n;
    assert n.Map? ==> n.entries[i] < n;
    var at := Join(key, ChildKey(n, i).name);
    OutputsInTwo(n, i, key);
    PartsDoNotCollide(Outputs(Child(n, i), at), OutputsFrom(n, i + 1, key));
    WalkSettles(Child(n, i), at, vars, k);
  }

  lemma PartsDoNotCollide(first: set<(string, string)>, rest: set<(string, string)>)
    requires NoCollision(first + rest)
    ensures NoCollision(first) && NoCollision(rest)
  {
    assert forall x :: x in first ==> x in first + rest;
    assert forall x :: x in rest ==> x in first + rest;
  }

  lemma BothSettle(first: set<(string, string)>, rest: set<(string, string)>, a: Vars, b: Vars, c: Vars, key: string)
    requires NoCollision(first + rest) && Settles(first, a, b, key) && Settles(rest, b, c, key)
    ensures Settles(first + rest, a, c, key)
  {
    forall text | (key, text) in first + rest ensures Get(c, key) == Some(text) {
      if other :| (key, other) in rest {
        assert (key, other) in first + rest;
        assert (key, other) == (key, text);
      }
    }
  }

  lemma {:induction false} ReorderedKeysAreStrings(a: Node, b: Node)
    requires Reorders(a, b) && StringKeys(a)
    ensures StringKeys(b)
    decreases a
  {
    if Size(a) > 0 {
      forall j | 0 <= j < Size(b) ensures ChildKey(b, j).Str? && StringKeys(Child(b, j)) {
        assert ChildKey(b, j) in KeysOf(a);
        var i :| 0 <= i < Size(a) && ChildKey(a, i) == ChildKey(b, j);
        assert a.List? ==> Child(a, i) < a;
        assert a.Map? ==> a.entries[i] < a;
        ReorderedKeysAreStrings(Child(a, i), Child(b, j));
      }
    }
  }

  lemma {:induction false} OutputOfChild(n: Node, i: nat, j: nat, key: string)
    requires StringKeys(n) && i <= j < Size(n)
    ensures Outputs(Child(n, j), Join(key, ChildKey(n, j).name)) <= OutputsFrom(n, i, key)
    decreases j - i
  {
    if i < j { OutputOfChild(n, i + 1, j, key); }
  }

  lemma {:induction false} OutputHasChild(n: Node, i: nat, key: string, x: (string, string)) returns (j: nat)
    requires StringKeys(n) && i <= Size(n) && x in OutputsFrom(n, i, key)
    ensures i <= j < Size(n) && x in Outputs(Child(n, j), Join(key, ChildKey(n, j).name))
    decreases Size(n) - i
  {
    if x in Outputs(Child(n, i), Join(key, ChildKey(n, i).name)) {
      j := i;
    } else {
      j := OutputHasChild(n, i + 1, key, x);
    }
  }

  lemma {:induction false} SameOutputs(a: Node, b: Node, key: string)
    requires Reorders(a, b) && StringKeys(a) && StringKeys(b)
    ensures Outputs(a, key) == Outputs(b, key)
    decreases a
  {
    if Size(a) > 0 {
      assert ChildKey(a, 0) in KeysOf(b);
      forall x | x in OutputsFrom(a, 0, key) ensures x in OutputsFrom(b, 0, key) {
        var i := OutputHasChild(a, 0, key, x);
        assert ChildKey(a, i) in KeysOf(b);
        var j: nat :| j < Size(b) && ChildKey(b, j) == ChildKey(a, i);
        ChildSameOutputs(a, b, i, j, key);
        OutputOfChild(b, 0, j, key);
      }
      forall x | x in OutputsFrom(b, 0, key) ensures x in OutputsFrom(a, 0, key) {
        var j := OutputHasChild(b, 0, key, x);
        assert ChildKey(b, j) in KeysOf(a);
        var i: nat :| i < Size(a) && ChildKey(a, i) == ChildKey(b, j);
        ChildSameOutputs(a, b, i, j, key);
        OutputOfChild(a, 0, i, key);
      }
    }
  }

  lemma {:induction false} ChildSameOutputs(a: Node, b: Node, i: nat, j: nat, key: string)
    requires Reorders(a, b) && StringKeys(a) && StringKeys(b)
    requires i < Size(a) && j < Size(b) && ChildKey(a, i) == ChildKey(b, j)
    ensures Outputs(Child(a, i), Join(key, ChildKey(a, i).name)) == Outputs(Child(b, j), Join(key, ChildKey(b, j).name))
    decreases a, 0
  {
    assert a.List? ==> Child(a, i) < a;
    assert a.Map? ==> a.entries[i] < a;
    SameOutputs(Child(a, i), Child(b, j), Join(key, ChildKey(a, i).name));
  }

  lemma SettledSame(outputs: set<(string, string)>, before: Vars, x: Vars, y: Vars)
    requires forall key :: Settles(outputs, before, x, key) && Settles(outputs, before, y, key)
    ensures x == y
  {
    forall key ensures Get(x, key) == Get(y, key) {
      assert Settles(outputs, before, x, key) && Settles(outputs, before, y, key);
      if text :| (key, text) in outputs { assert Get(x, key) == Some(text); }
    }
    SameMaps(x, y);
  }

  /**
   If no two leaves of different text have the same joined key, the result does not depend on the order in which the
   entries of maps are visited.
   */
  lemma OrderDoesNotMatter(a: Node, b: Node, vars: Vars)
    requires Reorders(a, b) && StringKeys(a) && NoCollision(Outputs(a, "/"))
    ensures Walk(a, "/", vars) == Walk(b, "/", vars)
  {
    ReorderedKeysAreStrings(a, b);
    SameOutputs(a, b, "/");
    var outputs, x, y := Outputs(a, "/"), Walk(a, "/", vars), Walk(b, "/", vars);
    WalkSettles(a, "/", vars, "");
    WalkSettles(b, "/", vars, "");
    forall key ensures Settles(outputs, vars, x.vars, key) && Settles(outputs, vars, y.vars, key) {
      WalkSettles(a, "/", vars, key);
      WalkSettles(b, "/", vars, key);
    }
    SettledSame(outputs, vars, x.vars, y.vars);
  }

  lemma SameMaps(x: Vars, y: Vars)
    requires forall key :: Get(x, key) == Get(y, key)
    ensures x == y
  {
    forall key ensures (key in x <==> key in y) && (key in x ==> x[key] == y[key]) {
      assert Get(x, key) == Get(y, key);
    }
  }

  /** Trees with plain keys have no collisions: a leaf's joined key leads back to this leaf. */
  lemma {:induction false} PlainKeysDoNotCollide(n: Node)
    requires Good(n)
    ensures StringKeys(n) && NoCollision(Outputs(n, "/"))
  {
    GoodKeysAreStrings(n);
    assert Render([]) == "/";
    forall x, y | x in Outputs(n, "/") && y in Outputs(n, "/") && x.0 == y.0 ensures x == y {
      OutputIsFound(n, [], x);
      OutputIsFound(n, [], y);
    }
  }

  lemma {:induction false} GoodKeysAreStrings(n: Node)
    requires Good(n)
    ensures StringKeys(n)
  {
    forall i | 0 <= i < Size(n) ensures ChildKey(n, i).Str? && StringKeys(Child(n, i)) {
      assert n.List? ==> Child(n, i) < n;
      assert n.Map? ==> n.entries[i] < n;
      GoodKeysAreStrings(Child(n, i));
    }
  }

  lemma {:induction false} OutputIsFound(n: Node, prefix: seq<string>, x: (string, string))
    requires Good(n) && StringKeys(n) && AllPlain(prefix) && x in Outputs(n, Render(prefix))
    ensures Found(n, prefix, x.0) == Some(x.1)
    decreases n
  {
    if n.Leaf? {
      ParseRender(prefix);
      assert Parse(x.0)[|prefix|..] == [];
    } else {
      var j := OutputHasChild(n, 0, Render(prefix), x);
      assert n.List? ==> Child(n, j) < n;
      assert n.Map? ==> n.entries[j] < n;
      KeyIsPlain(n, j);
      var e := ChildKey(n, j).name;
      JoinPlain(prefix, e);
      OutputIsFound(Child(n, j), prefix + [e], x);
      var path := Parse(x.0);
      assert path[|prefix|..][1..] == path[|prefix + [e]|..] && path[|prefix|..][0] == e;
      Hits(n, 0, j, path[|prefix|..]);
    }
  }

  lemma SlashedKey(a: string, b: string)
    requires Plain(a) && Plain(b)
    ensures Join("/", a + "/" + b) == Render([a, b])
  {
    var slashed := a + [SLASH] + b;
    assert Parse(slashed) == [a, b] by {
      SplitFirst(a, b);
      SplitOne(b);
      assert [a] + [b] == [a, b];
      ResolvePlain([a, b], []);
    }
    ParseSlash([SLASH] + slashed);
    ParseSlash(slashed);
    assert "/" + [SLASH] + slashed == [SLASH] + ([SLASH] + slashed);
    assert |slashed| > 0 && a + "/" + b == slashed;
    assert Join("/", slashed) == Render(Parse("/" + [SLASH] + slashed));
  }

  lemma WalkTwo(first: Entry, second: Entry, vars: Vars)
    requires first.key.Str? && second.key.Str?
    ensures var w := Walk(first.node, Join("/", first.key.name), vars);
            Walk(Map([first, second]), "/", vars) ==
            if w.ok then Walk(second.node, Join("/", second.key.name), w.vars) else w
  {
    var n := Map([first, second]);
    assert Child(n, 0) == first.node && Child(n, 1) == second.node;
    var w := Walk(first.node, Join("/", first.key.name), vars);
    if w.ok {
      var w2 := Walk(second.node, Join("/", second.key.name), w.vars);
      assert WalkFrom(n, 2, "/", w2.vars) == Walked(w2.vars, true);
      assert WalkFrom(n, 1, "/", w.vars) == w2;
    }
  }

  lemma WalkOne(only: Entry, key: string, vars: Vars)
    requires only.key.Str? && only.node.Leaf?
    ensures Walk(Map([only]), key, vars) == Walked(vars[Join(key, only.key.name) := Show(only.node.scalar)], true)
  {
    var n := Map([only]);
    assert Child(n, 0) == only.node;
    var w := Walk(only.node, Join(key, only.key.name), vars);
    assert WalkFrom(n, 1, key, w.vars) == w;
  }

  /** With other keys it can: a slash in a key may collide with a nested map, and then the entry visited last wins. */
  lemma SlashMakesOrderMatter(a: string, b: string, x: string, y: string)
    requires Plain(a) && Plain(b)
    ensures var slashed := Entry(Str(a + "/" + b), Leaf(Text(x)));
            var nested := Entry(Str(a), Map([Entry(Str(b), Leaf(Text(y)))]));
            && Get(Walk(Map([slashed, nested]), "/", map[]).vars, Render([a, b])) == Some(y)
            && Get(Walk(Map([nested, slashed]), "/", map[]).vars, Render([a, b])) == Some(x)
  {
    var slashed := Entry(Str(a + "/" + b), Leaf(Text(x)));
    var nested := Entry(Str(a), Map([Entry(Str(b), Leaf(Text(y)))]));
    SlashedKey(a, b);
    assert Render([]) == "/" && [] + [a] == [a] && [a] + [b] == [a, b];
    JoinPlain([], a);
    JoinPlain([a], b);
    WalkTwo(slashed, nested, map[]);
    WalkTwo(nested, slashed, map[]);
    WalkOne(Entry(Str(b), Leaf(Text(y))), Render([a]), map[]);
    WalkOne(Entry(Str(b), Leaf(Text(y))), Render([a]), map[Render([a, b]) := x]);
  }

  /******* Several contents *******/

  /** A document that does not parse as a map is an error. */
  datatype Content = Invalid | Parsed(root: Node)

  datatype Outcome = Ok | ParseError | Panic

  datatype Values = Values(vars: Vars, outcome: Outcome)

  method GetValues(contents: seq<Content>) returns (r: Values)
    ensures r == Combined(contents, map[])
  {
    var store := new Store();
    for i := 0 to |contents|
      invariant Combined(contents, map[]) == Combined(contents[i..], store.vars)
    {
      assert contents[i..][1..] == contents[i + 1..];
      if contents[i].Invalid? { return Values(store.vars, ParseError); }
      var ok := NodeWalk(contents[i].root, "/", store);
      if !ok { return Values(store.vars, Panic); }
    }
    return Values(store.vars, Ok);
  }

  function Combined(contents: seq<Content>, vars: Vars): Values
    decreases |contents|
  {
    if contents == [] then Values(vars, Ok)
    else if contents[0].Invalid? then Values(vars, ParseError)
    else
      var w := Walk(contents[0].root, "/", vars);
      if w.ok then Combined(contents[1..], w.vars) else Values(w.vars, Panic)
  }

  lemma {:induction false} PanicsOnOtherKeys(n: Node, key: string, vars: Vars)
    ensures Walk(n, key, vars).ok <==> StringKeys(n)
    decreases n, 2, 0
  {
    if !n.Leaf? { PanicsFrom(n, 0, key, vars); }
  }

  lemma {:induction false} PanicsFrom(n: Node, i: nat, key: string, vars: Vars)
    requires i <= Size(n)
    ensures WalkFrom(n, i, key, vars).ok <==>
              forall j :: i <= j < Size(n) ==> ChildKey(n, j).Str? && StringKeys(Child(n, j))
    decreases n, 1, Size(n) - i
  {
    if i < Size(n) && ChildKey(n, i).Str? {
      assert n.List? ==> Child(n, i) < n;
      assert n.Map? ==> n.entries[i] < n;
      var at := Join(key, ChildKey(n, i).name);
      PanicsOnOtherKeys(Child(n, i), at, vars);
      PanicsFrom(n, i + 1, key, Walk(Child(n, i), at, vars).vars);
    }
  }

  /** The first content that does not parse, or has a key that is not a string, ends the walk. */
  ghost function FirstTrouble(contents: seq<Content>): Outcome {
    if contents == [] then Ok
    else if contents[0].Invalid? then ParseError
    else if !StringKeys(contents[0].root) then Panic
    else FirstTrouble(contents[1..])
  }

  lemma {:induction false} OutcomeIsFirstTrouble(contents: seq<Content>, vars: Vars)
    ensures Combined(contents, vars).outcome == FirstTrouble(contents)
    decreases |contents|
  {
    if contents != [] && contents[0].Parsed? {
      PanicsOnOtherKeys(contents[0].root, "/", vars);
      OutcomeIsFirstTrouble(contents[1..], Walk(contents[0].root, "/", vars).vars);
    }
  }

  /** The last of the contents before the first invalid one that has a leaf for the key decides. */
  function LastFound(contents: seq<Content>, key: string): Option<string> {
    if contents == [] || contents[0].Invalid? then None
    else Or(LastFound(contents[1..], key), Found(contents[0].root, [], key))
  }

  /**
   Several contents combine to a right-biased union; one that does not parse is an error, after the values before it.
   */
  lemma {:induction false} UnionIsRightBiased(contents: seq<Content>, vars: Vars, key: string)
    requires forall i :: 0 <= i < |contents| && contents[i].Parsed? ==> Good(contents[i].root)
    ensures var r := Combined(contents, vars);
            && r.outcome == (if Invalid in contents then ParseError else Ok)
            && Get(r.vars, key) == Or(LastFound(contents, key), Get(vars, key))
    decreases |contents|
  {
    if contents != [] && contents[0].Parsed? {
      assert Render([]) == "/";
      WalkExactly(contents[0].root, [], vars, key);
      UnionIsRightBiased(contents[1..], Walk(contents[0].root, "/", vars).vars, key);
      assert contents == [contents[0]] + contents[1..];
    }
  }
}
