/** Exactly which quorum trees two disjoint node sets can both satisfy. */
module QuorumSplits {
  import opened Common
  import opened Thresholds
  import opened QuorumSets

  // ----- Splittable trees ---------------------------------------------------------------

  /** Two disjoint node sets fit into the tree: its threshold, met twice, is within its entries when
      each splittable inner set counts for both sides. */
  predicate Splits(c: QuorumSetConfig)
    decreases c
  {
    var n := |c.validators| + |c.innerSets|;
    1 <= n && 1 <= c.thresholdPercent <= 100 && 2 * FromPercent(n, c.thresholdPercent) <= n + SplitCount(c.innerSets)
  }

  function SplitCount(sets: seq<QuorumSetConfig>): (s: nat)
    ensures s <= |sets|
    decreases sets
  {
    if sets == [] then 0 else (if Splits(sets[0]) then 1 else 0) + SplitCount(sets[1..])
  }

  /** No node is listed twice. */
  ghost predicate ListsOnce(c: QuorumSetConfig, parse: KeyParser)
    decreases c
  {
    DistinctKeys(c.validators, parse) && DistinctSets(c.innerSets, parse)
    && (forall i, n: NodeId :: 0 <= i < |c.validators| && InLeaves(c.innerSets, parse, n) ==>
          parse(c.validators[i]) != Some(n))
    && (forall i :: 0 <= i < |c.innerSets| ==> ListsOnce(c.innerSets[i], parse))
  }

  ghost predicate DistinctKeys(keys: seq<string>, parse: KeyParser) {
    forall i, j :: 0 <= i < j < |keys| ==> parse(keys[i]) != parse(keys[j])
  }

  ghost predicate DistinctSets(sets: seq<QuorumSetConfig>, parse: KeyParser) {
    forall i, j :: 0 <= i < j < |sets| ==> Leaves(sets[i], parse) !! Leaves(sets[j], parse)
  }

  predicate InKeys(keys: seq<string>, parse: KeyParser, n: NodeId) {
    exists i :: 0 <= i < |keys| && parse(keys[i]) == Some(n)
  }

  predicate InLeaves(sets: seq<QuorumSetConfig>, parse: KeyParser, n: NodeId) {
    exists i :: 0 <= i < |sets| && n in Leaves(sets[i], parse)
  }

  lemma {:induction false} LeavesAre(c: QuorumSetConfig, parse: KeyParser, n: NodeId)
    ensures n in Leaves(c, parse) <==> InKeys(c.validators, parse, n) || InLeaves(c.innerSets, parse, n)
  {
  }

  // ----- More nodes never hurt ----------------------------------------------------------

  lemma {:induction false} MoreKeyVotes(keys: seq<string>, parse: KeyParser, a: set<NodeId>, b: set<NodeId>)
    requires a <= b
    ensures KeyVotes(keys, parse, a) <= KeyVotes(keys, parse, b)
  {
    if keys != [] {
      MoreKeyVotes(keys[1..], parse, a, b);
    }
  }

  lemma {:induction false} MoreApprovals(sets: seq<QuorumSetConfig>, parse: KeyParser, a: set<NodeId>, b: set<NodeId>)
    requires a <= b
    ensures Approvals(sets, parse, a) <= Approvals(sets, parse, b)
    decreases sets
  {
    if sets != [] {
      StillApproves(sets[0], parse, a, b);
      MoreApprovals(sets[1..], parse, a, b);
    }
  }

  lemma {:induction false} StillApproves(c: QuorumSetConfig, parse: KeyParser, a: set<NodeId>, b: set<NodeId>)
    requires a <= b
    ensures Approves(c, parse, a) ==> Approves(c, parse, b)
    decreases c
  {
    MoreKeyVotes(c.validators, parse, a, b);
    MoreApprovals(c.innerSets, parse, a, b);
  }

  // ----- Disjoint sets need a splittable tree -------------------------------------------

  lemma {:induction false} EachKeyOnce(keys: seq<string>, parse: KeyParser, a: set<NodeId>, b: set<NodeId>)
    requires a !! b
    ensures KeyVotes(keys, parse, a) + KeyVotes(keys, parse, b) <= |keys|
  {
    if keys != [] {
      EachKeyOnce(keys[1..], parse, a, b);
    }
  }

  lemma {:induction false} EachSetOnce(sets: seq<QuorumSetConfig>, parse: KeyParser, a: set<NodeId>, b: set<NodeId>)
    requires a !! b && forall i :: 0 <= i < |sets| ==> Convertible(sets[i], parse)
    ensures Approvals(sets, parse, a) + Approvals(sets, parse, b) <= |sets| + SplitCount(sets)
    decreases sets
  {
    if sets != [] {
      if Approves(sets[0], parse, a) && Approves(sets[0], parse, b) {
        NeedsSplit(sets[0], parse, a, b);
      }
      EachSetOnce(sets[1..], parse, a, b);
    }
  }

  lemma {:induction false} NeedsSplit(c: QuorumSetConfig, parse: KeyParser, a: set<NodeId>, b: set<NodeId>)
    requires a !! b && Convertible(c, parse) && Approves(c, parse, a) && Approves(c, parse, b)
    ensures Splits(c)
    decreases c
  {
    var n := |c.validators| + |c.innerSets|;
    EachKeyOnce(c.validators, parse, a, b);
    EachSetOnce(c.innerSets, parse, a, b);
    FromPercentIsCeiling(n, c.thresholdPercent,
                         KeyVotes(c.validators, parse, a) + Approvals(c.innerSets, parse, a));
    FromPercentIsCeiling(n, c.thresholdPercent,
                         KeyVotes(c.validators, parse, b) + Approvals(c.innerSets, parse, b));
  }

  // ----- A splittable tree can be split -------------------------------------------------

  /** The first `y` keys on one side, the others on the other. */
  lemma {:induction false} SplitKeys(keys: seq<string>, parse: KeyParser, y: nat)
    returns (a: set<NodeId>, b: set<NodeId>)
    requires y <= |keys| && DistinctKeys(keys, parse) && forall i :: 0 <= i < |keys| ==> parse(keys[i]).Some?
    ensures a !! b && forall n :: n in a + b ==> InKeys(keys, parse, n)
    ensures KeyVotes(keys, parse, a) >= y && KeyVotes(keys, parse, b) >= |keys| - y
  {
    if keys == [] {
      a, b := {}, {};
    } else {
      var id, rest := parse(keys[0]).value, keys[1..];
      var p, q := SplitKeys(rest, parse, if y == 0 then 0 else y - 1);
      forall n | n in p + q
        ensures n != id && InKeys(keys, parse, n)
      {
        var i :| 0 <= i < |rest| && parse(rest[i]) == Some(n);
        assert keys[i + 1] == rest[i];
      }
      assert InKeys(keys, parse, id);
      a, b := if y == 0 then p else p + {id}, if y == 0 then q + {id} else q;
      MoreKeyVotes(rest, parse, p, a);
      MoreKeyVotes(rest, parse, q, b);
    }
  }

  /** Splittable sets on both sides, the first `x` others on one side and the rest on the other. */
  lemma {:induction false} SplitSets(sets: seq<QuorumSetConfig>, parse: KeyParser, orders: Orders, x: nat)
    returns (a: set<NodeId>, b: set<NodeId>)
    requires x <= |sets| - SplitCount(sets) && DistinctSets(sets, parse)
    requires forall i :: 0 <= i < |sets| ==> Convertible(sets[i], parse) && ListsOnce(sets[i], parse)
    ensures a !! b && forall n :: n in a + b ==> InLeaves(sets, parse, n)
    ensures Approvals(sets, parse, a) >= SplitCount(sets) + x
    ensures Approvals(sets, parse, b) >= |sets| - x
    decreases sets
  {
    if sets == [] {
      a, b := {}, {};
    } else {
      var first, rest := sets[0], sets[1..];
      var fa: set<NodeId>, fb: set<NodeId>;
      var p: set<NodeId>, q: set<NodeId>;
      if Splits(first) {
        fa, fb := SplitTree(first, parse, orders);
        p, q := SplitSets(rest, parse, orders, x);
      } else {
        ConvertsExactly(first, parse, orders);
        LeavesApprove(first, parse, orders, Leaves(first, parse));
        fa, fb := if x == 0 then {} else Leaves(first, parse), if x == 0 then Leaves(first, parse) else {};
        p, q := SplitSets(rest, parse, orders, if x == 0 then 0 else x - 1);
      }
      JoinSides(sets, parse, fa, fb, p, q);
      a, b := p + fa, q + fb;
      MoreApprovals(rest, parse, p, a);
      MoreApprovals(rest, parse, q, b);
      StillApproves(first, parse, fa, a);
      StillApproves(first, parse, fb, b);
    }
  }

  lemma {:induction false} JoinSides(sets: seq<QuorumSetConfig>, parse: KeyParser, fa: set<NodeId>, fb: set<NodeId>,
                                     p: set<NodeId>, q: set<NodeId>)
    requires sets != [] && DistinctSets(sets, parse) && fa !! fb && p !! q
    requires fa + fb <= Leaves(sets[0], parse) && forall n :: n in p + q ==> InLeaves(sets[1..], parse, n)
    ensures p + fa !! q + fb && forall n :: n in p + fa + (q + fb) ==> InLeaves(sets, parse, n)
  {
    forall n | n in p + q
      ensures n !in Leaves(sets[0], parse) && InLeaves(sets, parse, n)
    {
      var i :| 0 <= i < |sets[1..]| && n in Leaves(sets[1..][i], parse);
      assert sets[i + 1] == sets[1..][i];
    }
  }

  lemma {:induction false} SplitTree(c: QuorumSetConfig, parse: KeyParser, orders: Orders)
    returns (a: set<NodeId>, b: set<NodeId>)
    requires Convertible(c, parse) && ListsOnce(c, parse) && Splits(c)
    ensures a !! b && a + b <= Leaves(c, parse) && Approves(c, parse, a) && Approves(c, parse, b)
    decreases c
  {
    var n, t := |c.validators| + |c.innerSets|, FromPercent(|c.validators| + |c.innerSets|, c.thresholdPercent);
    var y, x := ShareOut(|c.validators|, |c.innerSets|, SplitCount(c.innerSets), t);
    var ka, kb := SplitKeys(c.validators, parse, y);
    var sa, sb := SplitSets(c.innerSets, parse, orders, x);
    KeysBesideSets(c, parse, ka, kb, sa, sb);
    a, b := ka + sa, kb + sb;
    ReachesThreshold(c, parse, ka, sa, t);
    ReachesThreshold(c, parse, kb, sb, t);
  }

  /** How many keys and how many unsplittable sets the first side needs. */
  lemma {:induction false} ShareOut(keys: nat, sets: nat, s: nat, t: nat) returns (y: nat, x: nat)
    requires s <= sets && t <= keys + sets && 2 * t <= keys + sets + s
    ensures y <= keys && x <= sets - s && y + s + x >= t && keys - y + sets - x >= t
  {
    var want := if t > s then t - s else 0;
    y := if want <= keys then want else keys;
    x := want - y;
  }

  lemma {:induction false} ReachesThreshold(c: QuorumSetConfig, parse: KeyParser, k: set<NodeId>, s: set<NodeId>,
                                            t: nat)
    requires Convertible(c, parse) && t == FromPercent(|c.validators| + |c.innerSets|, c.thresholdPercent)
    requires KeyVotes(c.validators, parse, k) + Approvals(c.innerSets, parse, s) >= t
    ensures Approves(c, parse, k + s)
  {
    MoreKeyVotes(c.validators, parse, k, k + s);
    MoreApprovals(c.innerSets, parse, s, k + s);
    FromPercentIsCeiling(|c.validators| + |c.innerSets|, c.thresholdPercent,
                         KeyVotes(c.validators, parse, k + s) + Approvals(c.innerSets, parse, k + s));
  }

  lemma {:induction false} KeyOrLeaf(c: QuorumSetConfig, parse: KeyParser, n: NodeId)
    requires ListsOnce(c, parse)
    ensures !(InKeys(c.validators, parse, n) && InLeaves(c.innerSets, parse, n))
  {
  }

  lemma {:induction false} KeysBesideSets(c: QuorumSetConfig, parse: KeyParser, ka: set<NodeId>, kb: set<NodeId>,
                                          sa: set<NodeId>, sb: set<NodeId>)
    requires ListsOnce(c, parse) && ka !! kb && sa !! sb
    requires forall n :: n in ka + kb ==> InKeys(c.validators, parse, n)
    requires forall n :: n in sa + sb ==> InLeaves(c.innerSets, parse, n)
    ensures ka + sa !! kb + sb && ka + sa + (kb + sb) <= Leaves(c, parse)
  {
    forall n | n in ka
      ensures n !in sb
    {
      assert n in ka + kb;
      KeyOrLeaf(c, parse, n);
    }
    forall n | n in kb
      ensures n !in sa
    {
      assert n in ka + kb;
      KeyOrLeaf(c, parse, n);
    }
    forall n | n in ka + sa + (kb + sb)
      ensures n in Leaves(c, parse)
    {
      LeavesAre(c, parse, n);
    }
  }

  /** Two disjoint node sets both satisfy the tree. */
  ghost predicate AdmitsDisjoint(q: QuorumSet) {
    exists a, b :: a !! b && Satisfied(q, a) && Satisfied(q, b)
  }

  /** For a converted tree that lists no node twice, two disjoint node sets can both satisfy it exactly
      when it is splittable: quorum intersection holds exactly for the other trees. */
  lemma {:induction false} IntersectionIsExact(c: QuorumSetConfig, parse: KeyParser, orders: Orders)
    requires Convertible(c, parse) && ListsOnce(c, parse)
    ensures ToXdr(c, parse, orders).Ok? && (AdmitsDisjoint(ToXdr(c, parse, orders).value) <==> Splits(c))
  {
    ConvertsExactly(c, parse, orders);
    var q := ToXdr(c, parse, orders).value;
    if Splits(c) {
      var a, b := SplitTree(c, parse, orders);
      ToXdrMeaning(c, parse, orders, a);
      ToXdrMeaning(c, parse, orders, b);
      assert a !! b && Satisfied(q, a) && Satisfied(q, b);
    }
    if AdmitsDisjoint(q) {
      var a, b :| a !! b && Satisfied(q, a) && Satisfied(q, b);
      ToXdrMeaning(c, parse, orders, a);
      ToXdrMeaning(c, parse, orders, b);
      NeedsSplit(c, parse, a, b);
    }
  }

  /** Trees of majorities are never splittable. */
  lemma {:induction false} MajoritiesNeverSplit(c: QuorumSetConfig)
    requires MajorityEverywhere(c)
    ensures !Splits(c)
    decreases c
  {
    NoneSplit(c.innerSets);
    var n := |c.validators| + |c.innerSets|;
    if 1 <= n {
      var t := FromPercent(n, c.thresholdPercent);
      FromPercentIsCeiling(n, c.thresholdPercent, t);
      MoreThanHalf(n, c.thresholdPercent, t);
    }
  }

  lemma {:induction false} NoneSplit(sets: seq<QuorumSetConfig>)
    requires forall i :: 0 <= i < |sets| ==> MajorityEverywhere(sets[i])
    ensures SplitCount(sets) == 0
    decreases sets
  {
    if sets != [] {
      MajoritiesNeverSplit(sets[0]);
      NoneSplit(sets[1..]);
    }
  }
}
