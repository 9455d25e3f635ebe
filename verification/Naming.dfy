/**
 Unit names: printed as `<base>-<i>`, parsed back to an ordinal, and sorted in descending ordinal order.
 Go's `int` is 64 bits wide, which is what bounds the values `strconv.Atoi` accepts.
 */
module Naming {
  import opened Common

  const MAX_INT := 0x7FFF_FFFF_FFFF_FFFF
  const MIN_INT := -0x8000_0000_0000_0000

  /******* Printing and parsing numbers *******/

  predicate IsDigit(c: char) {
    '0' <= c <= '9'
  }

  function DigitChar(d: nat): (c: char)
    requires d < 10
    ensures IsDigit(c) && DigitValue(c) == d
  {
    ('0' as int + d) as char
  }

  function DigitValue(c: char): nat
    requires IsDigit(c)
  {
    c as int - '0' as int
  }

  function Itoa(n: nat): (s: string)
    ensures s != [] && AllDigits(s)
  {
    if n < 10 then [DigitChar(n)] else Itoa(n / 10) + [DigitChar(n % 10)]
  }

  predicate AllDigits(s: string) {
    forall i :: 0 <= i < |s| ==> IsDigit(s[i])
  }

  function DecimalValue(s: string): nat
    requires AllDigits(s)
  {
    if s == [] then 0 else 10 * DecimalValue(s[..|s| - 1]) + DigitValue(s[|s| - 1])
  }

  /** `strconv.Atoi`: an optional sign, at least one digit, and a value inside the machine range. */
  function Atoi(s: string): Option<int> {
    var signed := s != [] && (s[0] == '-' || s[0] == '+');
    var body := if signed then s[1..] else s;
    if body == [] || !AllDigits(body) then None
    else
      var v: int := DecimalValue(body);
      var value := if signed && s[0] == '-' then -v else v;
      if MIN_INT <= value <= MAX_INT then Some(value) else None
  }

  lemma {:induction false} DecimalRoundTrip(n: nat)
    ensures DecimalValue(Itoa(n)) == n
  {
    if n >= 10 {
      DecimalRoundTrip(n / 10);
      assert Itoa(n)[..|Itoa(n)| - 1] == Itoa(n / 10);
    }
  }

  lemma AtoiItoa(n: nat)
    ensures Atoi(Itoa(n)) == if n <= MAX_INT then Some(n) else None
  {
    DecimalRoundTrip(n);
    assert IsDigit(Itoa(n)[0]);
  }

  /** With a sign in front, the same number or its negative; there is one more negative number than positive ones. */
  lemma AtoiSigned(n: nat)
    ensures var v: int := n;
            && Atoi("-" + Itoa(n)) == (if v <= MAX_INT + 1 then Some(-v) else None)
            && Atoi("+" + Itoa(n)) == (if v <= MAX_INT then Some(v) else None)
  {
    DecimalRoundTrip(n);
    assert ("-" + Itoa(n))[1..] == Itoa(n) && ("+" + Itoa(n))[1..] == Itoa(n);
  }

  /** Anything but a digit is rejected, except for one sign in front. */
  lemma OtherCharactersRejected(s: string, i: nat)
    requires i < |s| && !IsDigit(s[i]) && (i > 0 || (s[0] != '-' && s[0] != '+'))
    ensures Atoi(s).None?
  {
    if s[0] == '-' || s[0] == '+' {
      assert s[1..][i - 1] == s[i] && !IsDigit(s[1..][i - 1]);
    }
  }

  /******* Unit names and their ordinals *******/

  function UnitName(base: string, i: nat): string {
    base + "-" + Itoa(i)
  }

  /** `strings.LastIndex` for a single character. */
  function LastIndex(s: string, c: char): (r: int)
    ensures -1 <= r < |s|
    ensures r == -1 <==> c !in s
    ensures r >= 0 ==> s[r] == c && forall k :: r < k < |s| ==> s[k] != c
  {
    if s == [] then -1
    else if s[|s| - 1] == c then |s| - 1
    else LastIndex(s[..|s| - 1], c)
  }

  function ExtractUnitOrdinal(unitName: string): Option<int> {
    var idx := LastIndex(unitName, '-');
    if idx == -1 || idx == |unitName| - 1 then None else Atoi(unitName[idx + 1..])
  }

  /** The ordinal is the number after the last dash; a name without a dash has none. */
  lemma OrdinalAfterLastDash(base: string, tail: string)
    requires '-' !in tail
    ensures ExtractUnitOrdinal(base + "-" + tail) == Atoi(tail)
    ensures ExtractUnitOrdinal(tail) == None
  {
    var name := base + "-" + tail;
    var idx := LastIndex(name, '-');
    assert name[|base|] == '-';
    forall k | |base| < k < |name| ensures name[k] != '-' {
      assert name[k] == tail[k - |base| - 1];
    }
    assert idx == |base|;
    assert name[idx + 1..] == tail;
  }

  /** Whatever dashes and digits the base contains, the printed ordinal is the one parsed back. */
  lemma OrdinalOfUnitName(base: string, i: nat)
    requires i <= MAX_INT
    ensures ExtractUnitOrdinal(UnitName(base, i)) == Some(i)
  {
    var name := UnitName(base, i);
    var idx := LastIndex(name, '-');
    assert name[|base|] == '-';
    forall k | |base| < k < |name| ensures name[k] != '-' {
      assert name[k] == Itoa(i)[k - |base| - 1];
    }
    assert idx == |base|;
    assert name[idx + 1..] == Itoa(i);
    AtoiItoa(i);
  }

  lemma UnitNameInjective(base: string, i: nat, j: nat)
    requires UnitName(base, i) == UnitName(base, j)
    ensures i == j
  {
    var name := UnitName(base, i);
    assert name[|base| + 1..] == Itoa(i);
    assert UnitName(base, j)[|base| + 1..] == Itoa(j);
    DecimalRoundTrip(i);
    DecimalRoundTrip(j);
  }

  /** The unit names a unit set with `n` units asks for, in the order they are generated. */
  function UnitNameSeq(base: string, n: nat): seq<string> {
    seq(n, i requires 0 <= i < n => UnitName(base, i))
  }

  /** The same names from the highest ordinal down. */
  function DescendingNames(base: string, n: nat): seq<string> {
    seq(n, i requires 0 <= i < n => UnitName(base, n - 1 - i))
  }

  lemma NamesDistinct(base: string, n: nat)
    ensures forall i, j :: 0 <= i < j < n ==> DescendingNames(base, n)[i] != DescendingNames(base, n)[j]
    ensures forall i :: 0 <= i < n ==> DescendingNames(base, n)[i] != ""
  {
    forall i, j | 0 <= i < j < n ensures DescendingNames(base, n)[i] != DescendingNames(base, n)[j] {
      if DescendingNames(base, n)[i] == DescendingNames(base, n)[j] {
        UnitNameInjective(base, n - 1 - i, n - 1 - j);
      }
    }
    forall i | 0 <= i < n ensures DescendingNames(base, n)[i] != "" {
      assert |UnitName(base, n - 1 - i)| > 0;
    }
  }

  method UnitNames(base: string, units: int) returns (names: seq<string>, index: map<string, string>)
    ensures names == UnitNameSeq(base, if units < 0 then 0 else units)
    ensures index.Keys == set n | n in names
    ensures forall i: nat :: i < units ==> UnitName(base, i) in index && index[UnitName(base, i)] == Itoa(i)
  {
    names, index := [], map[];
    var i := 0;
    while i < units
      invariant 0 <= i && (units >= 0 ==> i <= units) && (units < 0 ==> i == 0)
      invariant names == UnitNameSeq(base, i)
      invariant index.Keys == set n | n in names
      invariant forall k: nat :: k < i ==> UnitName(base, k) in index && index[UnitName(base, k)] == Itoa(k)
    {
      var unitName := UnitName(base, i);
      forall k: nat | k < i ensures UnitName(base, k) != unitName {
        if UnitName(base, k) == unitName { UnitNameInjective(base, k, i); }
      }
      names := names + [unitName];
      index := index[unitName := Itoa(i)];
      i := i + 1;
    }
  }

  /******* The sort order *******/

  /** Byte-wise string order. */
  predicate LexLess(a: string, b: string) {
    if b == [] then false
    else if a == [] then true
    else a[0] < b[0] || (a[0] == b[0] && LexLess(a[1..], b[1..]))
  }

  /** Up to `k` the strings agree; then the first one ends, or has the smaller character. */
  ghost predicate LessFrom(a: string, b: string, k: nat) {
    && k <= |a| && k < |b| && a[..k] == b[..k]
    && (k < |a| ==> a[k] < b[k])
  }

  lemma {:induction false} LessHasDifference(a: string, b: string) returns (k: nat)
    requires LexLess(a, b)
    ensures LessFrom(a, b, k)
  {
    if a == [] || a[0] < b[0] {
      k := 0;
    } else {
      var rest := LessHasDifference(a[1..], b[1..]);
      k := rest + 1;
      assert a[..k] == [a[0]] + a[1..][..rest] && b[..k] == [b[0]] + b[1..][..rest];
    }
  }

  lemma {:induction false} DifferenceDecides(a: string, b: string, k: nat)
    requires LessFrom(a, b, k)
    ensures LexLess(a, b)
    decreases k
  {
    if k > 0 {
      assert a[0] == a[..k][0] == b[..k][0] == b[0];
      assert a[1..][..k - 1] == a[..k][1..] == b[..k][1..] == b[1..][..k - 1];
      DifferenceDecides(a[1..], b[1..], k - 1);
    }
  }

  /** One string is less than the other exactly if it is at their first difference. */
  lemma LexLessExactly(a: string, b: string)
    ensures LexLess(a, b) <==> exists k: nat :: LessFrom(a, b, k)
  {
    if LexLess(a, b) {
      var _ := LessHasDifference(a, b);
    }
    if k: nat :| LessFrom(a, b, k) {
      DifferenceDecides(a, b, k);
    }
  }

  lemma {:induction false} LexLessIsStrictTotalOrder(a: string, b: string, c: string)
    ensures !LexLess(a, a)
    ensures LexLess(a, b) && LexLess(b, c) ==> LexLess(a, c)
    ensures a == b || LexLess(a, b) || LexLess(b, a)
    decreases |a| + |b| + |c|
  {
    if a != [] && b != [] {
      if c != [] {
        LexLessIsStrictTotalOrder(a[1..], b[1..], c[1..]);
      } else {
        LexLessIsStrictTotalOrder(a[1..], b[1..], c);
      }
      assert a == [a[0]] + a[1..] && b == [b[0]] + b[1..];
    } else if a != [] {
      LexLessIsStrictTotalOrder(a[1..], b, c);
    }
  }

  /** The comparison passed to the sort: higher ordinals first, names without an ordinal last. */
  predicate Before(a: string, b: string) {
    match (ExtractUnitOrdinal(a), ExtractUnitOrdinal(b))
    case (Some(i), Some(j)) => if i != j then i > j else LexLess(b, a)
    case (Some(_), None) => true
    case (None, Some(_)) => false
    case (None, None) => LexLess(b, a)
  }

  /** Names with ordinals in descending order of these, all others after them; ties in descending string order. */
  lemma BeforeExactly(a: string, b: string)
    ensures var i, j := ExtractUnitOrdinal(a), ExtractUnitOrdinal(b);
            && (i.Some? && j.Some? && i.value > j.value ==> Before(a, b) && !Before(b, a))
            && (i.Some? && j.None? ==> Before(a, b) && !Before(b, a))
            && (i == j ==> (Before(a, b) <==> exists k: nat :: LessFrom(b, a, k)))
  {
    LexLessExactly(b, a);
  }

  lemma BeforeIsStrictTotalOrder(a: string, b: string, c: string)
    ensures !Before(a, a)
    ensures Before(a, b) && Before(b, c) ==> Before(a, c)
    ensures a == b || Before(a, b) || Before(b, a)
  {
    LexLessIsStrictTotalOrder(c, b, a);
    LexLessIsStrictTotalOrder(a, b, c);
  }

  ghost predicate Sorted(s: seq<string>) {
    SortedBy(Before, s)
  }

  ghost predicate SortedBy<T>(before: (T, T) -> bool, s: seq<T>) {
    forall i, j :: 0 <= i < j < |s| ==> !before(s[j], s[i])
  }

  lemma SortedHeadsAgree<T(!new)>(before: (T, T) -> bool, a: seq<T>, b: seq<T>)
    requires forall x, y :: x == y || before(x, y) || before(y, x)
    requires SortedBy(before, a) && SortedBy(before, b) && multiset(a) == multiset(b)
    requires a != [] && b != []
    ensures a[0] == b[0]
  {
    assert a[0] in multiset(b) && b[0] in multiset(a);
    var x, y := a[0], b[0];
    assert x == y || before(x, y) || before(y, x);
  }

  lemma SameTails<T>(a: seq<T>, b: seq<T>)
    requires a != [] && b != [] && a[0] == b[0] && multiset(a) == multiset(b)
    ensures multiset(a[1..]) == multiset(b[1..])
  {
    assert a == [a[0]] + a[1..] && b == [a[0]] + b[1..];
    assert multiset(a[1..]) == multiset(a) - multiset{a[0]} == multiset(b[1..]);
  }

  /**
   If distinct elements are always ordered, one way or the other, only one arrangement of given elements is sorted.
   */
  lemma {:induction false} SortedByUnique<T(!new)>(before: (T, T) -> bool, a: seq<T>, b: seq<T>)
    requires forall x, y :: x == y || before(x, y) || before(y, x)
    requires SortedBy(before, a) && SortedBy(before, b) && multiset(a) == multiset(b)
    ensures a == b
    decreases |a|
  {
    assert |a| == |multiset(a)| && |multiset(b)| == |b|;
    if a != [] {
      SortedHeadsAgree(before, a, b);
      SameTails(a, b);
      SortedByUnique(before, a[1..], b[1..]);
      assert a == [a[0]] + a[1..] && b == [b[0]] + b[1..];
    }
  }

  /** So which sorting algorithm is used, stable or not, makes no difference to the order of unit names. */
  lemma SortedUnique(a: seq<string>, b: seq<string>)
    requires Sorted(a) && Sorted(b) && multiset(a) == multiset(b)
    ensures a == b
  {
    BeforeIsOrder();
    SortedByUnique(Before, a, b);
  }

  ghost predicate StrictTotalOrder<T(!new)>(before: (T, T) -> bool) {
    && (forall x :: !before(x, x))
    && (forall x, y, z :: before(x, y) && before(y, z) ==> before(x, z))
    && (forall x, y :: x == y || before(x, y) || before(y, x))
  }

  lemma BeforeIsOrder()
    ensures StrictTotalOrder(Before)
  {
    forall x, y, z
      ensures !Before(x, x)
      ensures Before(x, y) && Before(y, z) ==> Before(x, z)
      ensures x == y || Before(x, y) || Before(y, x)
    {
      BeforeIsStrictTotalOrder(x, y, z);
    }
  }

  /** Exchanging two neighbours keeps the multiset of elements. */
  function SwapBack<T>(s: seq<T>, j: nat): (r: seq<T>)
    requires 0 < j < |s|
    ensures |r| == |s| && multiset(r) == multiset(s)
  {
    var r := s[j := s[j - 1]][j - 1 := s[j]];
    assert s == s[..j - 1] + [s[j - 1], s[j]] + s[j + 1..];
    assert r == s[..j - 1] + [s[j], s[j - 1]] + s[j + 1..];
    r
  }

  method SortStable<T(!new)>(s: seq<T>, before: (T, T) -> bool) returns (sorted: seq<T>)
    requires StrictTotalOrder(before)
    ensures SortedBy(before, sorted) && multiset(sorted) == multiset(s)
  {
    sorted := s;
    var i := 0;
    while i < |s|
      invariant 0 <= i <= |s| == |sorted|
      invariant multiset(sorted) == multiset(s)
      invariant forall p, q :: 0 <= p < q < i ==> !before(sorted[q], sorted[p])
    {
      var j := i;
      while j > 0 && before(sorted[j], sorted[j - 1])
        invariant 0 <= j <= i < |s| == |sorted|
        invariant multiset(sorted) == multiset(s)
        invariant forall p, q :: 0 <= p < q <= i && q != j && p != j ==> !before(sorted[q], sorted[p])
        invariant forall q :: j < q <= i ==> !before(sorted[q], sorted[j])
      {
        sorted := SwapBack(sorted, j);
        j := j - 1;
      }
      forall p | 0 <= p < j ensures !before(sorted[j], sorted[p]) {
        if p < j - 1 {
          assert !before(sorted[j - 1], sorted[p]) && !before(sorted[j], sorted[j - 1]);
        }
      }
      i := i + 1;
    }
  }

  method SortUnitNamesByOrdinal(units: seq<string>) returns (sorted: seq<string>)
    ensures Sorted(sorted) && multiset(sorted) == multiset(units)
    ensures Sorted(units) ==> sorted == units
  {
    BeforeIsOrder();
    sorted := SortStable(units, Before);
    if Sorted(units) {
      SortedUnique(sorted, units);
    }
  }

  lemma {:induction false} SameNamesEitherWay(base: string, n: nat)
    ensures multiset(DescendingNames(base, n)) == multiset(UnitNameSeq(base, n))
  {
    if n > 0 {
      SameNamesEitherWay(base, n - 1);
      OneMoreName(base, n);
      SameElements(UnitName(base, n - 1), DescendingNames(base, n - 1), UnitNameSeq(base, n - 1));
    }
  }

  lemma OneMoreName(base: string, n: nat)
    requires n > 0
    ensures DescendingNames(base, n) == [UnitName(base, n - 1)] + DescendingNames(base, n - 1)
    ensures UnitNameSeq(base, n) == UnitNameSeq(base, n - 1) + [UnitName(base, n - 1)]
  {
  }

  lemma SameElements<T>(x: T, a: seq<T>, b: seq<T>)
    requires multiset(a) == multiset(b)
    ensures multiset([x] + a) == multiset(b + [x])
  {
  }

  /** Sorting the names of a unit set gives exactly `base-(n-1)` down to `base-0`. */
  lemma SortedUnitNames(base: string, n: nat, sorted: seq<string>)
    requires n <= MAX_INT
    requires Sorted(sorted) && multiset(sorted) == multiset(UnitNameSeq(base, n))
    ensures sorted == DescendingNames(base, n)
  {
    DescendingIsSorted(base, n);
    SameNamesEitherWay(base, n);
    SortedUnique(sorted, DescendingNames(base, n));
  }

  lemma HigherOrdinalFirst(low: string, high: string, base: string, i: nat, j: nat)
    requires low == UnitName(base, i) && high == UnitName(base, j) && i < j <= MAX_INT
    ensures !Before(low, high)
  {
    OrdinalOfUnitName(base, i);
    OrdinalOfUnitName(base, j);
  }

  lemma DescendingAt(base: string, n: nat, i: nat)
    requires i < n
    ensures DescendingNames(base, n)[i] == UnitName(base, n - 1 - i)
  {
  }

  lemma DescendingPair(base: string, n: nat, i: nat, j: nat)
    requires i < j < n <= MAX_INT
    ensures !Before(DescendingNames(base, n)[j], DescendingNames(base, n)[i])
  {
    var low, high := DescendingNames(base, n)[j], DescendingNames(base, n)[i];
    DescendingAt(base, n, i);
    DescendingAt(base, n, j);
    HigherOrdinalFirst(low, high, base, n - 1 - j, n - 1 - i);
  }

  lemma DescendingIsSorted(base: string, n: nat)
    requires n <= MAX_INT
    ensures Sorted(DescendingNames(base, n))
  {
    var down := DescendingNames(base, n);
    forall i, j | 0 <= i < j < |down| ensures !Before(down[j], down[i]) { DescendingPair(base, n, i, j); }
  }
}
