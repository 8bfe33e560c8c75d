/**
 * `Array.prototype.sort` with a numeric comparator (section 23.1.3.30 of ECMA-262, 2023 edition):
 * a stable sort by an integer key.
 */
module Sorting {

  ghost predicate SortedBy<T>(xs: seq<T>, key: T -> int) {
    forall i, j :: 0 <= i < j < |xs| ==> key(xs[i]) <= key(xs[j])
  }

  /** Inserts `x` before the trailing elements with a greater key. */
  function Insert<T>(xs: seq<T>, x: T, key: T -> int): seq<T> {
    if xs == [] then [x]
    else if key(xs[|xs| - 1]) <= key(x) then xs + [x]
    else Insert(xs[..|xs| - 1], x, key) + [xs[|xs| - 1]]
  }

  function Sort<T>(xs: seq<T>, key: T -> int): seq<T> {
    if xs == [] then [] else Insert(Sort(xs[..|xs| - 1], key), xs[|xs| - 1], key)
  }

  lemma {:induction false} InsertPermutes<T>(xs: seq<T>, x: T, key: T -> int)
    ensures multiset(Insert(xs, x, key)) == multiset(xs) + multiset{x}
    decreases |xs|
  {
    if xs != [] && key(xs[|xs| - 1]) > key(x) {
      InsertPermutes(xs[..|xs| - 1], x, key);
      assert xs == xs[..|xs| - 1] + [xs[|xs| - 1]];
    }
  }

  lemma {:induction false} InsertSorts<T>(xs: seq<T>, x: T, key: T -> int)
    requires SortedBy(xs, key)
    ensures SortedBy(Insert(xs, x, key), key)
    ensures forall i :: 0 <= i < |Insert(xs, x, key)| ==>
              key(Insert(xs, x, key)[i]) <= key(x) || (xs != [] && key(Insert(xs, x, key)[i]) <= key(xs[|xs| - 1]))
    decreases |xs|
  {
    if xs != [] && key(xs[|xs| - 1]) > key(x) {
      InsertSorts(xs[..|xs| - 1], x, key);
    }
  }

  /** The result is sorted and holds the same elements. */
  lemma {:induction false} SortSorts<T>(xs: seq<T>, key: T -> int)
    ensures SortedBy(Sort(xs, key), key)
    ensures multiset(Sort(xs, key)) == multiset(xs)
    ensures |Sort(xs, key)| == |xs|
    decreases |xs|
  {
    if xs != [] {
      var front, last := xs[..|xs| - 1], xs[|xs| - 1];
      SortSorts(front, key);
      InsertSorts(Sort(front, key), last, key);
      InsertPermutes(Sort(front, key), last, key);
      assert xs == front + [last];
    }
    assert |Sort(xs, key)| == |multiset(Sort(xs, key))|;
  }

  function Itself(x: int): int {
    x
  }

  function SortNumbers(xs: seq<int>): (r: seq<int>)
    ensures SortedBy(r, Itself)
    ensures multiset(r) == multiset(xs)
    ensures |r| == |xs|
  {
    SortSorts(xs, Itself);
    Sort(xs, Itself)
  }

  lemma SortMembers<T>(xs: seq<T>, key: T -> int)
    ensures forall x :: x in Sort(xs, key) <==> x in xs
  {
    SortSorts(xs, key);
    assert forall x :: x in Sort(xs, key) <==> x in multiset(Sort(xs, key));
  }

  // ----- Stability -----

  /** By key, and where keys are equal by the number itself. */
  ghost predicate OrderedByKeyThenIndex(order: seq<int>, key: int -> int) {
    forall k, l :: 0 <= k < l < |order| ==>
      key(order[k]) < key(order[l]) || (key(order[k]) == key(order[l]) && order[k] < order[l])
  }

  predicate AllBelow(xs: seq<int>, x: int) {
    forall i :: 0 <= i < |xs| ==> xs[i] < x
  }

  lemma InsertMembers<T>(xs: seq<T>, x: T, key: T -> int, i: nat)
    requires i < |Insert(xs, x, key)|
    ensures Insert(xs, x, key)[i] in xs || Insert(xs, x, key)[i] == x
  {
    InsertPermutes(xs, x, key);
    assert Insert(xs, x, key)[i] in multiset(Insert(xs, x, key));
  }

  lemma {:induction false} InsertStably(xs: seq<int>, x: int, key: int -> int)
    requires OrderedByKeyThenIndex(xs, key) && AllBelow(xs, x)
    ensures OrderedByKeyThenIndex(Insert(xs, x, key), key)
    decreases |xs|
  {
    if xs != [] && key(xs[|xs| - 1]) > key(x) {
      var front, last := xs[..|xs| - 1], xs[|xs| - 1];
      InsertStably(front, x, key);
      var r := Insert(front, x, key);
      forall k | 0 <= k < |r|
        ensures key(r[k]) < key(last) || (key(r[k]) == key(last) && r[k] < last)
      {
        InsertMembers(front, x, key, k);
      }
    } else if xs != [] {
      assert forall k :: 0 <= k < |xs| ==> key(xs[k]) <= key(xs[|xs| - 1]);
    }
  }

  ghost predicate Increasing(xs: seq<int>) {
    forall i, j :: 0 <= i < j < |xs| ==> xs[i] < xs[j]
  }

  lemma SortedAllBelow(xs: seq<int>, key: int -> int, x: int)
    requires AllBelow(xs, x)
    ensures AllBelow(Sort(xs, key), x)
  {
    var order := Sort(xs, key);
    SortMembers(xs, key);
    assert forall k :: 0 <= k < |order| ==> order[k] in order;
  }

  /** The sort is stable: increasing numbers come out by key, and where keys are equal increasing. */
  lemma {:induction false} SortStably(xs: seq<int>, key: int -> int)
    requires Increasing(xs)
    ensures OrderedByKeyThenIndex(Sort(xs, key), key)
    decreases |xs|
  {
    if xs != [] {
      var front, last := xs[..|xs| - 1], xs[|xs| - 1];
      SortStably(front, key);
      SortedAllBelow(front, key, last);
      InsertStably(Sort(front, key), last, key);
    }
  }

  function Map<A, B>(xs: seq<A>, f: A -> B): (r: seq<B>)
    ensures |r| == |xs| && forall i :: 0 <= i < |xs| ==> r[i] == f(xs[i])
  {
    seq(|xs|, i requires 0 <= i < |xs| => f(xs[i]))
  }

  lemma {:induction false} InsertMapped<A, B>(xs: seq<A>, x: A, f: A -> B, ofB: B -> int, ofA: A -> int)
    requires forall a :: ofA(a) == ofB(f(a))
    ensures Insert(Map(xs, f), f(x), ofB) == Map(Insert(xs, x, ofA), f)
    decreases |xs|
  {
    if xs != [] && ofA(xs[|xs| - 1]) > ofA(x) {
      var front := xs[..|xs| - 1];
      InsertMapped(front, x, f, ofB, ofA);
      assert Map(xs, f)[..|xs| - 1] == Map(front, f);
    }
  }

  /** Sorting images by a key is sorting the originals by the key of their image. */
  lemma {:induction false} SortMapped<A, B>(xs: seq<A>, f: A -> B, ofB: B -> int, ofA: A -> int)
    requires forall a :: ofA(a) == ofB(f(a))
    ensures Sort(Map(xs, f), ofB) == Map(Sort(xs, ofA), f)
    decreases |xs|
  {
    if xs != [] {
      var front, last := xs[..|xs| - 1], xs[|xs| - 1];
      SortMapped(front, f, ofB, ofA);
      assert Map(xs, f)[..|xs| - 1] == Map(front, f);
      InsertMapped(Sort(front, ofA), last, f, ofB, ofA);
    }
  }

  // ----- Order statistics -----

  /** How many elements of `xs` are smaller than `v`. */
  function CountBelow(xs: seq<int>, v: int): (n: nat)
    ensures n <= |xs|
  {
    if xs == [] then 0 else CountBelow(xs[..|xs| - 1], v) + if xs[|xs| - 1] < v then 1 else 0
  }

  /** `v` is the element of rank `k` (from 0): at most `k` are smaller, more than `k` are not larger. */
  ghost predicate HasRank(xs: seq<int>, k: nat, v: int) {
    v in xs && CountBelow(xs, v) <= k < CountBelow(xs, v + 1)
  }

  lemma {:induction false} CountConcat(xs: seq<int>, ys: seq<int>, v: int)
    ensures CountBelow(xs + ys, v) == CountBelow(xs, v) + CountBelow(ys, v)
    decreases |ys|
  {
    if ys == [] {
      assert xs + ys == xs;
    } else {
      var n := |ys| - 1;
      assert (xs + ys)[..|xs + ys| - 1] == xs + ys[..n];
      CountConcat(xs, ys[..n], v);
    }
  }

  function Without<T>(xs: seq<T>, i: nat): seq<T>
    requires i < |xs|
  {
    xs[..i] + xs[i + 1..]
  }

  lemma CountWithout(xs: seq<int>, i: nat, v: int)
    requires i < |xs|
    ensures CountBelow(xs, v) == CountBelow(Without(xs, i), v) + if xs[i] < v then 1 else 0
    ensures multiset(Without(xs, i)) == multiset(xs) - multiset{xs[i]}
  {
    var low, x, high := xs[..i], [xs[i]], xs[i + 1..];
    assert xs == low + x + high;
    CountConcat(low, high, v);
    CountConcat(low, x, v);
    CountConcat(low + x, high, v);
    assert x[..0] == [];
  }

  /** Counting does not depend on the order. */
  lemma {:induction false} CountPermuted(xs: seq<int>, ys: seq<int>, v: int)
    requires multiset(xs) == multiset(ys)
    ensures CountBelow(xs, v) == CountBelow(ys, v)
    decreases |xs|
  {
    assert |xs| == |multiset(xs)| == |multiset(ys)| == |ys|;
    if xs != [] {
      assert xs[0] in multiset(ys);
      var i :| 0 <= i < |ys| && ys[i] == xs[0];
      CountWithout(xs, 0, v);
      CountWithout(ys, i, v);
      CountPermuted(Without(xs, 0), Without(ys, i), v);
    }
  }

  lemma PermutedRank(xs: seq<int>, ys: seq<int>, k: nat, v: int)
    requires multiset(xs) == multiset(ys) && HasRank(ys, k, v)
    ensures HasRank(xs, k, v)
  {
    CountPermuted(xs, ys, v);
    CountPermuted(xs, ys, v + 1);
    assert v in multiset(ys);
  }

  lemma {:induction false} CountAll(xs: seq<int>, v: int)
    requires forall i :: 0 <= i < |xs| ==> xs[i] < v
    ensures CountBelow(xs, v) == |xs|
  {
    if xs != [] {
      CountAll(xs[..|xs| - 1], v);
    }
  }

  lemma {:induction false} CountNone(xs: seq<int>, v: int)
    requires forall i :: 0 <= i < |xs| ==> xs[i] >= v
    ensures CountBelow(xs, v) == 0
  {
    if xs != [] {
      CountNone(xs[..|xs| - 1], v);
    }
  }

  lemma SortedRank(r: seq<int>, k: nat)
    requires SortedBy(r, Itself) && k < |r|
    ensures HasRank(r, k, r[k])
  {
    assert forall i :: 0 <= i < |r| ==> Itself(r[i]) == r[i];
    CountSplit(r, k, r[k]);
    CountNone(r[k..], r[k]);
    CountSplit(r, k + 1, r[k] + 1);
    CountAll(r[..k + 1], r[k] + 1);
  }

  lemma CountSplit(xs: seq<int>, k: nat, v: int)
    requires k <= |xs|
    ensures CountBelow(xs, v) == CountBelow(xs[..k], v) + CountBelow(xs[k..], v)
  {
    assert xs == xs[..k] + xs[k..];
    CountConcat(xs[..k], xs[k..], v);
  }

  /** Position `k` of the sorted list holds the element of rank `k`. */
  lemma SortedIndexHasRank(xs: seq<int>, k: nat)
    requires k < |xs|
    ensures HasRank(xs, k, SortNumbers(xs)[k])
  {
    SortedRank(SortNumbers(xs), k);
    PermutedRank(xs, SortNumbers(xs), k, SortNumbers(xs)[k]);
  }

  lemma {:induction false} CountMonotone(xs: seq<int>, v: int, w: int)
    requires v <= w
    ensures CountBelow(xs, v) <= CountBelow(xs, w)
  {
    if xs != [] {
      CountMonotone(xs[..|xs| - 1], v, w);
    }
  }

  /** A rank determines its element. */
  lemma RankIsUnique(xs: seq<int>, k: nat, v: int, w: int)
    requires HasRank(xs, k, v) && HasRank(xs, k, w)
    ensures v == w
  {
    if v < w {
      CountMonotone(xs, v + 1, w);
    } else if w < v {
      CountMonotone(xs, w + 1, v);
    }
  }
}
