/** What normalization leaves: no inner set that could be merged or unwrapped, and everything sorted. */
module QuorumNormalForm {
  import opened Sorting
  import opened QuorumSets

  /** Nowhere in the tree is there an inner set that stands for one validator, or a set that only wraps
      another one. */
  predicate Normal(q: QuorumSet)
    decreases q
  {
    !(q.threshold == 1 && q.validators == [] && |q.innerSets| == 1)
    && forall s :: s in q.innerSets ==>
         Normal(s) && !(s.threshold == 1 && |s.validators| == 1 && s.innerSets == [])
  }

  ghost predicate SortedEverywhere(q: QuorumSet, orders: Orders)
    decreases q
  {
    Sorted(q.validators, orders.node) && Sorted(q.innerSets, orders.quorumSet)
    && forall s :: s in q.innerSets ==> SortedEverywhere(s, orders)
  }

  lemma {:induction false} MergeLeavesNormal(sets: seq<QuorumSet>, validators: seq<NodeId>)
    ensures forall s :: s in Merge(sets, validators).1 ==>
              Normal(s) && !(s.threshold == 1 && |s.validators| == 1 && s.innerSets == [])
    decreases sets
  {
    if sets == [] {
    } else {
      var first := Simplify(sets[0]);
      SimplifyIsNormal(sets[0]);
      if IsSingleton(first) {
        MergeLeavesNormal(sets[1..], validators + [first.validators[0]]);
      } else {
        MergeLeavesNormal(sets[1..], validators);
      }
    }
  }

  lemma {:induction false} SimplifyIsNormal(q: QuorumSet)
    ensures Normal(Simplify(q))
    decreases q
  {
    MergeLeavesNormal(q.innerSets, q.validators);
  }

  /** A tree in normal form is left as it is. */
  lemma {:induction false} MergeKeepsNormal(sets: seq<QuorumSet>, validators: seq<NodeId>)
    requires forall s :: s in sets ==> Normal(s) && !(s.threshold == 1 && |s.validators| == 1 && s.innerSets == [])
    ensures Merge(sets, validators) == (validators, sets)
    decreases sets
  {
    if sets == [] {
    } else {
      assert sets == [sets[0]] + sets[1..];
      SimplifyKeepsNormal(sets[0]);
      MergeKeepsNormal(sets[1..], validators);
    }
  }

  lemma {:induction false} SimplifyKeepsNormal(q: QuorumSet)
    requires Normal(q)
    ensures Simplify(q) == q
    decreases q
  {
    MergeKeepsNormal(q.innerSets, q.validators);
  }

  lemma {:induction false} SortMembers<T>(s: seq<T>, le: (T, T) -> bool)
    ensures |SortBy(s, le)| == |s| && forall x :: x in SortBy(s, le) <==> x in s
  {
    SortPermutes(s, le);
    assert |SortBy(s, le)| == |multiset(SortBy(s, le))| == |multiset(s)|;
    forall x
      ensures x in SortBy(s, le) <==> x in s
    {
      assert x in s <==> x in multiset(s);
      assert x in SortBy(s, le) <==> x in multiset(SortBy(s, le));
    }
  }

  lemma {:induction false} ReorderAllMembers(sets: seq<QuorumSet>, orders: Orders)
    ensures |ReorderAll(sets, orders)| == |sets|
    ensures forall i :: 0 <= i < |sets| ==> ReorderAll(sets, orders)[i] == Reorder(sets[i], orders)
    decreases sets
  {
    if sets == [] {
    } else {
      ReorderAllMembers(sets[1..], orders);
    }
  }

  /** Every inner set of a reordered set is a reordered inner set. */
  lemma {:induction false} ReorderedMembers(q: QuorumSet, orders: Orders, s: QuorumSet) returns (from: QuorumSet)
    requires s in Reorder(q, orders).innerSets
    ensures from in q.innerSets && s == Reorder(from, orders)
  {
    var all := ReorderAll(q.innerSets, orders);
    SortMembers(all, orders.quorumSet);
    ReorderAllMembers(q.innerSets, orders);
    var i :| 0 <= i < |all| && all[i] == s;
    from := q.innerSets[i];
  }

  lemma {:induction false} ReorderSizes(q: QuorumSet, orders: Orders)
    ensures var r := Reorder(q, orders);
            r.threshold == q.threshold && |r.validators| == |q.validators| && |r.innerSets| == |q.innerSets|
  {
    SortMembers(q.validators, orders.node);
    SortMembers(ReorderAll(q.innerSets, orders), orders.quorumSet);
    ReorderAllMembers(q.innerSets, orders);
  }

  lemma {:induction false} ReorderKeepsNormal(q: QuorumSet, orders: Orders)
    requires Normal(q)
    ensures Normal(Reorder(q, orders))
    decreases q
  {
    ReorderSizes(q, orders);
    forall s | s in Reorder(q, orders).innerSets
      ensures Normal(s) && !(s.threshold == 1 && |s.validators| == 1 && s.innerSets == [])
    {
      var from := ReorderedMembers(q, orders, s);
      ReorderKeepsNormal(from, orders);
      ReorderSizes(from, orders);
    }
  }

  lemma {:induction false} ReorderSorts(q: QuorumSet, orders: Orders)
    requires TotalPreorder(orders.node) && TotalPreorder(orders.quorumSet)
    ensures SortedEverywhere(Reorder(q, orders), orders)
    decreases q
  {
    SortSorts(q.validators, orders.node);
    SortSorts(ReorderAll(q.innerSets, orders), orders.quorumSet);
    forall s | s in Reorder(q, orders).innerSets
      ensures SortedEverywhere(s, orders)
    {
      var from := ReorderedMembers(q, orders, s);
      ReorderSorts(from, orders);
    }
  }

  lemma {:induction false} SortKeepsSorted<T(!new)>(s: seq<T>, le: (T, T) -> bool)
    requires Sorted(s, le)
    ensures SortBy(s, le) == s
  {
    if s == [] {
    } else {
      SortKeepsSorted(s[1..], le);
      assert |s| > 1 ==> le(s[0], s[1]);
    }
  }

  lemma {:induction false} ReorderKeepsSorted(q: QuorumSet, orders: Orders)
    requires SortedEverywhere(q, orders)
    ensures Reorder(q, orders) == q
    decreases q
  {
    ReorderAllMembers(q.innerSets, orders);
    forall i | 0 <= i < |q.innerSets|
      ensures Reorder(q.innerSets[i], orders) == q.innerSets[i]
    {
      assert q.innerSets[i] in q.innerSets;
      ReorderKeepsSorted(q.innerSets[i], orders);
    }
    assert ReorderAll(q.innerSets, orders) == q.innerSets;
    SortKeepsSorted(q.validators, orders.node);
    SortKeepsSorted(q.innerSets, orders.quorumSet);
  }

  /** Normalization reaches a normal form: nothing is left to merge, to unwrap or to sort, so normalizing
      again changes nothing. Trees already normal and sorted are the only ones it keeps. */
  lemma {:induction false} NormalizeReachesNormalForm(q: QuorumSet, orders: Orders)
    requires TotalPreorder(orders.node) && TotalPreorder(orders.quorumSet)
    ensures Normal(Normalize(q, orders)) && SortedEverywhere(Normalize(q, orders), orders)
    ensures Normalize(Normalize(q, orders), orders) == Normalize(q, orders)
    ensures Normalize(q, orders) == q <==> Normal(q) && SortedEverywhere(q, orders)
  {
    var r := Normalize(q, orders);
    SimplifyIsNormal(q);
    ReorderKeepsNormal(Simplify(q), orders);
    ReorderSorts(Simplify(q), orders);
    SimplifyKeepsNormal(r);
    ReorderKeepsSorted(r, orders);
    if Normal(q) && SortedEverywhere(q, orders) {
      SimplifyKeepsNormal(q);
      ReorderKeepsSorted(q, orders);
    }
  }
}
