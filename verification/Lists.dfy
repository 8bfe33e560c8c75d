/** `Array.prototype.filter` (section 23.1.3.8 of ECMA-262, 2023 edition). */
module Lists {

  function Filter<T>(xs: seq<T>, keep: T -> bool): (r: seq<T>)
    ensures |r| <= |xs|
  {
    if xs == [] then []
    else Filter(xs[..|xs| - 1], keep) + if keep(xs[|xs| - 1]) then [xs[|xs| - 1]] else []
  }

  /**
   * `at` lists, in increasing order, exactly the positions of `xs` that pass, and `r` holds their
   * elements: nothing else is kept, nothing is lost, and the order stays.
   */
  ghost predicate KeepsInOrder<T>(xs: seq<T>, keep: T -> bool, r: seq<T>, at: seq<nat>) {
    && |at| == |r|
    && (forall k :: 0 <= k < |at| ==> at[k] < |xs| && keep(xs[at[k]]) && r[k] == xs[at[k]])
    && (forall k, l :: 0 <= k < l < |at| ==> at[k] < at[l])
    && (forall i: nat :: i < |xs| && keep(xs[i]) ==> i in at)
  }

  lemma KeepLast<T>(xs: seq<T>, x: T, keep: T -> bool, r: seq<T>, at: seq<nat>)
    requires KeepsInOrder(xs, keep, r, at) && keep(x)
    ensures KeepsInOrder(xs + [x], keep, r + [x], at + [|xs|])
  {
    var more := at + [|xs|];
    assert forall i: nat :: i in at ==> i in more;
    assert more[|at|] == |xs|;
  }

  lemma SkipLast<T>(xs: seq<T>, x: T, keep: T -> bool, r: seq<T>, at: seq<nat>)
    requires KeepsInOrder(xs, keep, r, at) && !keep(x)
    ensures KeepsInOrder(xs + [x], keep, r, at)
  {}

  lemma {:induction false} FilterKeepsInOrder<T>(xs: seq<T>, keep: T -> bool) returns (at: seq<nat>)
    ensures KeepsInOrder(xs, keep, Filter(xs, keep), at)
    decreases |xs|
  {
    if xs == [] {
      at := [];
    } else {
      var front, last := xs[..|xs| - 1], xs[|xs| - 1];
      at := FilterKeepsInOrder(front, keep);
      assert xs == front + [last];
      if keep(last) {
        KeepLast(front, last, keep, Filter(front, keep), at);
        at := at + [|front|];
      } else {
        SkipLast(front, last, keep, Filter(front, keep), at);
        assert Filter(xs, keep) == Filter(front, keep);
      }
    }
  }

  lemma FilterMembers<T>(xs: seq<T>, keep: T -> bool)
    ensures forall x :: x in Filter(xs, keep) <==> x in xs && keep(x)
  {
    var at := FilterKeepsInOrder(xs, keep);
    var r := Filter(xs, keep);
    forall x
      ensures x in r <==> x in xs && keep(x)
    {
      if x in xs && keep(x) {
        var i: nat :| i < |xs| && xs[i] == x;
        var k :| 0 <= k < |at| && at[k] == i;
        assert r[k] == x;
      }
    }
  }
}
