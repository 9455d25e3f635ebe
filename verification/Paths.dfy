/** Rooted slash-separated paths: how a key is extended by one element and cleaned. */
module Paths {
  const SLASH := '/'

  /** The pieces between slashes. */
  function Split(s: string): (pieces: seq<string>)
    ensures pieces != []
  {
    if s == [] then [[]]
    else
      var rest := Split(s[1..]);
      if s[0] == SLASH then [[]] + rest else [[s[0]] + rest[0]] + rest[1..]
  }

  /** Empty pieces and dots are dropped; two dots take back the element before them, if any. */
  function Resolve(pieces: seq<string>, done: seq<string>): seq<string>
    decreases |pieces|
  {
    if pieces == [] then done
    else if pieces[0] == "" || pieces[0] == "." then Resolve(pieces[1..], done)
    else if pieces[0] == ".." then Resolve(pieces[1..], if done == [] then [] else done[..|done| - 1])
    else Resolve(pieces[1..], done + [pieces[0]])
  }

  function Body(elements: seq<string>): string {
    if elements == [] then ""
    else elements[0] + (if |elements| == 1 then "" else [SLASH] + Body(elements[1..]))
  }

  function Render(elements: seq<string>): string {
    [SLASH] + Body(elements)
  }

  function Parse(key: string): seq<string> {
    Resolve(Split(key), [])
  }

  function Clean(key: string): string {
    Render(Parse(key))
  }

  /** `path.Join` of a rooted key and one element. */
  function Join(key: string, element: string): string {
    Clean(if element == "" then key else key + [SLASH] + element)
  }

  /** An element that a path keeps as it is. */
  predicate Plain(element: string) {
    element != "" && element != "." && element != ".." && SLASH !in element
  }

  predicate AllPlain(elements: seq<string>) {
    forall i :: 0 <= i < |elements| ==> Plain(elements[i])
  }

  lemma {:induction false} SplitOne(s: string)
    requires SLASH !in s
    ensures Split(s) == [s]
  {
    if s != [] {
      SplitOne(s[1..]);
      assert s == [s[0]] + s[1..];
    }
  }

  lemma {:induction false} SplitFirst(a: string, b: string)
    requires SLASH !in a
    ensures Split(a + [SLASH] + b) == [a] + Split(b)
  {
    var s := a + [SLASH] + b;
    if a == [] {
      assert s[1..] == b;
    } else {
      SplitFirst(a[1..], b);
      assert s[1..] == a[1..] + [SLASH] + b;
      assert a == [a[0]] + a[1..];
      assert s[0] == a[0] && a[0] in a;
      assert ([a[1..]] + Split(b))[1..] == Split(b);
    }
  }

  lemma {:induction false} SplitBody(elements: seq<string>)
    requires elements != [] && forall i :: 0 <= i < |elements| ==> SLASH !in elements[i]
    ensures Split(Body(elements)) == elements
  {
    if |elements| == 1 {
      SplitOne(elements[0]);
      assert elements[0] + "" == elements[0];
    } else {
      SplitBody(elements[1..]);
      SplitFirst(elements[0], Body(elements[1..]));
      assert Body(elements) == elements[0] + [SLASH] + Body(elements[1..]);
    }
  }

  lemma {:induction false} ResolvePlain(pieces: seq<string>, done: seq<string>)
    requires AllPlain(pieces)
    ensures Resolve(pieces, done) == done + pieces
    decreases |pieces|
  {
    if pieces != [] {
      assert Plain(pieces[0]);
      ResolvePlain(pieces[1..], done + [pieces[0]]);
    }
  }

  /** Plain elements are read back from the key they make, so different paths make different keys. */
  lemma ParseRender(elements: seq<string>)
    requires AllPlain(elements)
    ensures Parse(Render(elements)) == elements
  {
    ParseSlash(Body(elements));
    if elements == [] {
      ResolveEmptyFirst([], []);
      assert [""] + [] == [""];
      assert Resolve([""], []) == [];
      assert Split("") == [""];
    } else {
      assert forall i :: 0 <= i < |elements| ==> Plain(elements[i]);
      SplitBody(elements);
      ResolvePlain(elements, []);
    }
  }

  lemma {:induction false} BodySnoc(elements: seq<string>, e: string)
    requires elements != []
    ensures Body(elements + [e]) == Body(elements) + [SLASH] + e
  {
    if |elements| > 1 {
      BodySnoc(elements[1..], e);
      assert (elements + [e])[1..] == elements[1..] + [e];
    }
  }

  /** An empty piece in front changes nothing. */
  lemma ResolveEmptyFirst(pieces: seq<string>, done: seq<string>)
    ensures Resolve([""] + pieces, done) == Resolve(pieces, done)
  {
    assert ([""] + pieces)[1..] == pieces;
  }

  lemma ParseSlash(s: string)
    ensures Parse([SLASH] + s) == Parse(s)
  {
    SplitFirst("", s);
    assert "" + [SLASH] + s == [SLASH] + s;
    ResolveEmptyFirst(Split(s), []);
  }

  lemma JoinAtRoot(e: string)
    requires Plain(e)
    ensures Join(Render([]), e) == Render([e])
  {
    ParseSlash([SLASH] + e);
    ParseSlash(e);
    SplitOne(e);
    ResolvePlain([e], []);
    assert Render([]) + [SLASH] + e == [SLASH] + ([SLASH] + e);
  }

  /** Extending a key by a plain element extends its path by that element. */
  lemma JoinPlain(elements: seq<string>, e: string)
    requires AllPlain(elements) && Plain(e)
    ensures Join(Render(elements), e) == Render(elements + [e])
  {
    if elements == [] {
      JoinAtRoot(e);
      assert elements + [e] == [e];
    } else {
      BodySnoc(elements, e);
      assert Render(elements) + [SLASH] + e == Render(elements + [e]);
      ParseRender(elements + [e]);
    }
  }

  lemma JoinedPieces(elements: seq<string>, e: string)
    requires AllPlain(elements) && SLASH !in e
    ensures Join(Render(elements), e) == if e == "" then Render(elements) else Render(Resolve([e], elements))
  {
    if e == "" {
      ParseRender(elements);
    } else if elements == [] {
      assert Render([]) + [SLASH] + e == [SLASH] + ([SLASH] + e);
      ParseSlash([SLASH] + e);
      ParseSlash(e);
      SplitOne(e);
    } else {
      BodySnoc(elements, e);
      assert Render(elements) + [SLASH] + e == Render(elements + [e]);
      ParseSlash(Body(elements + [e]));
      assert forall i :: 0 <= i < |elements| ==> Plain(elements[i]);
      SplitBody(elements + [e]);
      ResolvePlainThen(elements, [e], []);
      assert [] + elements == elements;
    }
  }

  lemma {:induction false} ResolvePlainThen(pieces: seq<string>, more: seq<string>, done: seq<string>)
    requires AllPlain(pieces)
    ensures Resolve(pieces + more, done) == Resolve(more, done + pieces)
    decreases |pieces|
  {
    if pieces == [] {
      assert pieces + more == more && done + pieces == done;
    } else {
      assert Plain(pieces[0]);
      assert (pieces + more)[1..] == pieces[1..] + more;
      ResolvePlainThen(pieces[1..], more, done + [pieces[0]]);
      assert done + [pieces[0]] + pieces[1..] == done + pieces;
    }
  }

  /** An empty element and a single dot leave a key as it is; two dots take its last element back, if it has one. */
  lemma JoinDots(elements: seq<string>)
    requires AllPlain(elements)
    ensures Join(Render(elements), "") == Render(elements)
    ensures Join(Render(elements), ".") == Render(elements)
    ensures Join(Render(elements), "..") == Render(if elements == [] then [] else elements[..|elements| - 1])
  {
    JoinedPieces(elements, "");
    JoinedPieces(elements, ".");
    JoinedPieces(elements, "..");
  }
}
