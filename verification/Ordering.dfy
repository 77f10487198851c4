/** Comparators, sorting by insertion, and the uniqueness of sorted sequences. */
module Ordering {

  datatype Order = Less | Equal | Greater {
    function Reverse(): Order {
      match this
      case Less => Greater
      case Equal => Equal
      case Greater => Less
    }
  }

  /** Code-point lexicographic order, the order of Rust strings. */
  function CompareText(a: string, b: string): Order {
    if a == [] then (if b == [] then Equal else Less)
    else if b == [] then Greater
    else if a[0] < b[0] then Less
    else if b[0] < a[0] then Greater
    else CompareText(a[1..], b[1..])
  }

  predicate TextLe(a: string, b: string) { CompareText(a, b) != Greater }

  predicate TextLt(a: string, b: string) { CompareText(a, b) == Less }

  /** The texts agree before position `k`, where `a` ends first or has the smaller character. */
  ghost predicate SmallerFrom(a: string, b: string, k: int) {
    && 0 <= k <= |a| && k < |b| && a[..k] == b[..k]
    && (k < |a| ==> a[k] < b[k])
  }

  /** The comparison is lexicographic: a text is smaller when it is so from some position on. */
  lemma {:induction false} CompareTextIsLexicographic(a: string, b: string)
    ensures CompareText(a, b) == Less <==> exists k :: SmallerFrom(a, b, k)
    ensures CompareText(a, b) == Greater <==> exists k :: SmallerFrom(b, a, k)
  {
    if a == [] || b == [] {
      if b != [] { assert SmallerFrom(a, b, 0); }
      if a != [] { assert SmallerFrom(b, a, 0); }
    } else {
      assert a[0] < b[0] ==> SmallerFrom(a, b, 0);
      assert b[0] < a[0] ==> SmallerFrom(b, a, 0);
      if k :| SmallerFrom(a, b, k) { assert k > 0 ==> a[..k][0] == b[..k][0]; }
      if k :| SmallerFrom(b, a, k) { assert k > 0 ==> a[..k][0] == b[..k][0]; }
      if a[0] == b[0] {
        CompareTextIsLexicographic(a[1..], b[1..]);
        SmallerInTail(a, b);
        SmallerInTail(b, a);
      }
    }
  }

  lemma SmallerInTail(a: string, b: string)
    requires a != [] && b != [] && a[0] == b[0]
    ensures (exists k :: SmallerFrom(a, b, k)) <==> exists k :: SmallerFrom(a[1..], b[1..], k)
  {
    if k :| SmallerFrom(a, b, k) {
      assert k > 0;
      assert a[1..][..k - 1] == a[..k][1..] && b[1..][..k - 1] == b[..k][1..];
      assert SmallerFrom(a[1..], b[1..], k - 1);
    }
    if k :| SmallerFrom(a[1..], b[1..], k) {
      assert a[..k + 1] == [a[0]] + a[1..][..k] && b[..k + 1] == [b[0]] + b[1..][..k];
      assert SmallerFrom(a, b, k + 1);
    }
  }

  lemma {:induction false} CompareTextReverses(a: string, b: string)
    ensures CompareText(b, a) == CompareText(a, b).Reverse()
    ensures CompareText(a, b) == Equal <==> a == b
  {
    if a == [] || b == [] {
    } else {
      CompareTextReverses(a[1..], b[1..]);
      assert a == [a[0]] + a[1..] && b == [b[0]] + b[1..];
    }
  }

  lemma {:induction false} CompareTextTransitive(a: string, b: string, c: string)
    requires TextLe(a, b) && TextLe(b, c)
    ensures TextLe(a, c)
    ensures CompareText(a, b) == Less || CompareText(b, c) == Less ==> CompareText(a, c) == Less
  {
    if a != [] && b != [] && c != [] && a[0] == b[0] == c[0] {
      CompareTextTransitive(a[1..], b[1..], c[1..]);
    }
  }

  // ----- Sorted sequences

  ghost predicate SortedBy<T>(le: (T, T) -> bool, xs: seq<T>) {
    forall i, j | 0 <= i < j < |xs| :: le(xs[i], xs[j])
  }

  ghost predicate Asymmetric<T>(lt: (T, T) -> bool, s: set<T>) {
    forall x, y | x in s && y in s :: !(lt(x, y) && lt(y, x))
  }

  ghost predicate TotalPreorder<T>(le: (T, T) -> bool, s: set<T>) {
    && (forall x, y | x in s && y in s :: le(x, y) || le(y, x))
    && (forall x, y, z | x in s && y in s && z in s && le(x, y) && le(y, z) :: le(x, z))
  }

  function Elements<T>(xs: seq<T>): set<T> { set x | x in xs }

  ghost predicate Distinct<T>(xs: seq<T>) {
    forall i, j | 0 <= i < j < |xs| :: xs[i] != xs[j]
  }

  /** Two sequences that hold the same elements and are both strictly sorted are one sequence. */
  lemma {:induction false} StrictlySortedUnique<T>(lt: (T, T) -> bool, xs: seq<T>, ys: seq<T>)
    requires Elements(xs) == Elements(ys)
    requires Asymmetric(lt, Elements(xs))
    requires SortedBy(lt, xs) && SortedBy(lt, ys)
    ensures xs == ys
  {
    assert xs != [] ==> xs[0] in Elements(ys);
    assert ys != [] ==> ys[0] in Elements(xs);
    if xs != [] && ys != [] {
      var j :| 0 <= j < |ys| && ys[j] == xs[0];
      var i :| 0 <= i < |xs| && xs[i] == ys[0];
      assert xs[0] == ys[0];
      TailElements(lt, xs);
      TailElements(lt, ys);
      StrictlySortedUnique(lt, xs[1..], ys[1..]);
    }
  }

  lemma TailElements<T>(lt: (T, T) -> bool, xs: seq<T>)
    requires xs != [] && SortedBy(lt, xs) && Asymmetric(lt, Elements(xs))
    ensures Elements(xs[1..]) == Elements(xs) - {xs[0]}
  {
    assert xs == [xs[0]] + xs[1..];
    forall k | 0 < k < |xs| ensures xs[k] != xs[0] {
      assert lt(xs[0], xs[k]) && xs[0] in Elements(xs);
    }
  }

  // ----- Insertion sort: a stable sort standing for the standard library's

  function Insert<T>(le: (T, T) -> bool, x: T, xs: seq<T>): (r: seq<T>)
    ensures multiset(r) == multiset{x} + multiset(xs)
  {
    if xs == [] then [x]
    else if le(x, xs[0]) then [x] + xs
    else
      assert xs == [xs[0]] + xs[1..];
      [xs[0]] + Insert(le, x, xs[1..])
  }

  function InsertionSort<T>(le: (T, T) -> bool, xs: seq<T>): (r: seq<T>)
    ensures multiset(r) == multiset(xs)
    ensures |r| == |xs|
  {
    if xs == [] then []
    else
      assert xs == [xs[0]] + xs[1..];
      var r := Insert(le, xs[0], InsertionSort(le, xs[1..]));
      assert |multiset(r)| == |r|;
      r
  }

  lemma SameElements<T>(xs: seq<T>, ys: seq<T>)
    requires multiset(xs) == multiset(ys)
    ensures Elements(xs) == Elements(ys)
    ensures |xs| == |ys|
  {
    forall x ensures x in xs <==> x in ys {
      assert x in xs <==> x in multiset(xs);
      assert x in ys <==> x in multiset(ys);
    }
    assert |multiset(xs)| == |xs| && |multiset(ys)| == |ys|;
  }

  lemma {:induction false} InsertSorted<T>(le: (T, T) -> bool, x: T, xs: seq<T>)
    requires TotalPreorder(le, Elements(xs) + {x}) && SortedBy(le, xs)
    ensures SortedBy(le, Insert(le, x, xs))
  {
    if xs == [] {
    } else if le(x, xs[0]) {
      forall k | 0 <= k < |xs| ensures le(x, xs[k]) {
        assert xs[0] in Elements(xs) && xs[k] in Elements(xs);
        if k > 0 { assert le(xs[0], xs[k]); }
      }
    } else {
      assert Elements(xs[1..]) <= Elements(xs);
      InsertSorted(le, x, xs[1..]);
      var rest := Insert(le, x, xs[1..]);
      forall k | 0 <= k < |rest| ensures le(xs[0], rest[k]) {
        assert rest[k] in multiset(rest);
        assert rest[k] == x || rest[k] in xs[1..];
        assert xs[0] in Elements(xs);
      }
    }
  }

  lemma ElementsOfTail<T>(xs: seq<T>)
    requires xs != []
    ensures Elements(xs) == Elements(xs[1..]) + {xs[0]}
  {
    assert xs == [xs[0]] + xs[1..];
  }

  lemma {:induction false} InsertionSortSorted<T>(le: (T, T) -> bool, xs: seq<T>)
    requires TotalPreorder(le, Elements(xs))
    ensures SortedBy(le, InsertionSort(le, xs))
    ensures Elements(InsertionSort(le, xs)) == Elements(xs)
  {
    SameElements(InsertionSort(le, xs), xs);
    if xs != [] {
      var rest := InsertionSort(le, xs[1..]);
      SameElements(rest, xs[1..]);
      ElementsOfTail(xs);
      InsertionSortSorted(le, xs[1..]);
      InsertSorted(le, xs[0], rest);
    }
  }

  lemma {:induction false} DistinctCount<T>(xs: seq<T>, x: T)
    requires Distinct(xs)
    ensures multiset(xs)[x] <= 1
  {
    if xs != [] {
      assert xs == [xs[0]] + xs[1..];
      DistinctCount(xs[1..], x);
    }
  }

  /** Sorting keeps the elements of a sequence distinct. */
  lemma SortKeepsDistinct<T>(le: (T, T) -> bool, xs: seq<T>)
    requires Distinct(xs)
    ensures Distinct(InsertionSort(le, xs))
  {
    var ys := InsertionSort(le, xs);
    forall i, j | 0 <= i < j < |ys| ensures ys[i] != ys[j] {
      if ys[i] == ys[j] {
        RepeatedElement(ys, i, j);
        DistinctCount(xs, ys[i]);
      }
    }
  }

  lemma RepeatedElement<T>(xs: seq<T>, i: nat, j: nat)
    requires i < j < |xs| && xs[i] == xs[j]
    ensures multiset(xs)[xs[i]] >= 2
  {
    assert xs == xs[..i] + [xs[i]] + xs[i + 1..j] + [xs[j]] + xs[j + 1..];
  }

  lemma TextLeTotal(s: set<string>)
    ensures TotalPreorder(TextLe, s)
    ensures Asymmetric(TextLt, s)
  {
    forall x, y ensures (TextLe(x, y) || TextLe(y, x)) && !(TextLt(x, y) && TextLt(y, x)) {
      CompareTextReverses(x, y);
    }
    forall x, y, z | TextLe(x, y) && TextLe(y, z) ensures TextLe(x, z) {
      CompareTextTransitive(x, y, z);
    }
  }
}
