/**
 Configured quorum sets, their conversion to protocol quorum sets (ceiling thresholds plus
 normalization), and what it means for a set of nodes to satisfy them.
 */
module QuorumSets {
  import opened Common
  import opened Sorting
  import opened Thresholds

  /** A configured quorum set: a percentage over its validators and its inner sets. */
  datatype QuorumSetConfig = QuorumSetConfig(
    thresholdPercent: nat,
    validators: seq<string>,
    innerSets: seq<QuorumSetConfig>)

  /** A 256-bit public key. */
  type NodeId = nat

  /** A protocol quorum set: a count over its validators and its inner sets. */
  datatype QuorumSet = QuorumSet(
    threshold: nat,
    validators: seq<NodeId>,
    innerSets: seq<QuorumSet>)

  datatype XdrError =
    | NoEntries
    | BadPercent(percent: nat)
    | BadKey(key: string)
    | InInnerSet(index: nat, error: XdrError)

  /** Decodes a printed public key. */
  type KeyParser = string -> Option<NodeId>

  /** Comparators used by the final sort; nothing below depends on which orders they are. */
  datatype Orders = Orders(node: (NodeId, NodeId) -> bool, quorumSet: (QuorumSet, QuorumSet) -> bool)

  // ----- Satisfaction -----------------------------------------------------------------

  function Votes(validators: seq<NodeId>, nodes: set<NodeId>): nat {
    if validators == [] then 0
    else (if validators[0] in nodes then 1 else 0) + Votes(validators[1..], nodes)
  }

  function InnerVotes(sets: seq<QuorumSet>, nodes: set<NodeId>): nat {
    if sets == [] then 0
    else (if Satisfied(sets[0], nodes) then 1 else 0) + InnerVotes(sets[1..], nodes)
  }

  /** At least `threshold` entries are satisfied; a zero threshold is unsatisfiable. */
  predicate Satisfied(q: QuorumSet, nodes: set<NodeId>) {
    0 < q.threshold <= Votes(q.validators, nodes) + InnerVotes(q.innerSets, nodes)
  }

  lemma {:induction false} VotesAppend(a: seq<NodeId>, b: seq<NodeId>, nodes: set<NodeId>)
    ensures Votes(a + b, nodes) == Votes(a, nodes) + Votes(b, nodes)
  {
    if a == [] {
      assert a + b == b;
    } else {
      assert (a + b)[1..] == a[1..] + b;
      VotesAppend(a[1..], b, nodes);
    }
  }

  lemma {:induction false} InnerVotesAppend(a: seq<QuorumSet>, b: seq<QuorumSet>, nodes: set<NodeId>)
    ensures InnerVotes(a + b, nodes) == InnerVotes(a, nodes) + InnerVotes(b, nodes)
  {
    if a == [] {
      assert a + b == b;
    } else {
      assert (a + b)[1..] == a[1..] + b;
      InnerVotesAppend(a[1..], b, nodes);
    }
  }

  lemma {:induction false} VotesPrefix(validators: seq<NodeId>, i: nat, nodes: set<NodeId>)
    requires i < |validators|
    ensures Votes(validators[..i + 1], nodes)
            == Votes(validators[..i], nodes) + (if validators[i] in nodes then 1 else 0)
            <= Votes(validators, nodes)
  {
    VotesAppend(validators[..i], [validators[i]], nodes);
    VotesAppend(validators[..i + 1], validators[i + 1..], nodes);
    assert validators[..i + 1] == validators[..i] + [validators[i]];
    assert validators[..i + 1] + validators[i + 1..] == validators;
  }

  lemma {:induction false} InnerVotesPrefix(sets: seq<QuorumSet>, i: nat, nodes: set<NodeId>)
    requires i < |sets|
    ensures InnerVotes(sets[..i + 1], nodes)
            == InnerVotes(sets[..i], nodes) + (if Satisfied(sets[i], nodes) then 1 else 0)
            <= InnerVotes(sets, nodes)
  {
    InnerVotesAppend(sets[..i], [sets[i]], nodes);
    InnerVotesAppend(sets[..i + 1], sets[i + 1..], nodes);
    assert sets[..i + 1] == sets[..i] + [sets[i]];
    assert sets[..i + 1] + sets[i + 1..] == sets;
  }

  /** Counts votes and leaves as soon as the threshold is reached. */
  method IsQuorumSlice(q: QuorumSet, nodes: set<NodeId>) returns (r: bool)
    ensures r == Satisfied(q, nodes)
    decreases q
  {
    if q.threshold == 0 {
      return false;
    }
    var count := 0;
    for i := 0 to |q.validators|
      invariant count == Votes(q.validators[..i], nodes) < q.threshold
    {
      VotesPrefix(q.validators, i, nodes);
      if q.validators[i] in nodes {
        count := count + 1;
        if count >= q.threshold {
          return true;
        }
      }
    }
    assert q.validators[..|q.validators|] == q.validators;
    ghost var direct := count;
    for i := 0 to |q.innerSets|
      invariant count == direct + InnerVotes(q.innerSets[..i], nodes) < q.threshold
    {
      InnerVotesPrefix(q.innerSets, i, nodes);
      var satisfied := IsQuorumSlice(q.innerSets[i], nodes);
      if satisfied {
        count := count + 1;
        if count >= q.threshold {
          return true;
        }
      }
    }
    assert q.innerSets[..|q.innerSets|] == q.innerSets;
    return count >= q.threshold;
  }

  // ----- Normalization ----------------------------------------------------------------

  /** A set that stands for its one validator. */
  predicate IsSingleton(q: QuorumSet) {
    q.threshold == 1 && |q.validators| == 1 && q.innerSets == []
  }

  /** Simplifies each inner set and merges the singletons into the validators. */
  function Merge(sets: seq<QuorumSet>, validators: seq<NodeId>): (seq<NodeId>, seq<QuorumSet>)
    decreases sets
  {
    if sets == [] then (validators, [])
    else
      var first := Simplify(sets[0]);
      if IsSingleton(first) then
        Merge(sets[1..], validators + [first.validators[0]])
      else
        var (vs, rest) := Merge(sets[1..], validators);
        (vs, [first] + rest)
  }

  /** Replaces a 1-of-1 wrapper by the set it wraps. */
  function Unwrap(q: QuorumSet): QuorumSet {
    if q.threshold == 1 && q.validators == [] && |q.innerSets| == 1 then q.innerSets[0] else q
  }

  function Simplify(q: QuorumSet): QuorumSet
    decreases q
  {
    var (validators, innerSets) := Merge(q.innerSets, q.validators);
    Unwrap(QuorumSet(q.threshold, validators, innerSets))
  }

  /** Simplification as it runs: inner sets are simplified in place and removed once merged. */
  method SimplifyInPlace(q: QuorumSet) returns (r: QuorumSet)
    ensures r == Simplify(q)
    decreases q
  {
    var innerSets, validators, idx := q.innerSets, q.validators, 0;
    ghost var done, goal := 0, Merge(q.innerSets, q.validators);
    assert innerSets[0..] == q.innerSets[0..] == q.innerSets;
    while idx < |innerSets|
      invariant 0 <= idx <= |innerSets| && 0 <= done <= |q.innerSets|
      invariant innerSets[idx..] == q.innerSets[done..]
      invariant goal.0 == Merge(innerSets[idx..], validators).0
      invariant goal.1 == innerSets[..idx] + Merge(innerSets[idx..], validators).1
      decreases |innerSets| - idx
    {
      assert innerSets[idx] == innerSets[idx..][0] == q.innerSets[done];
      assert q.innerSets[done..][1..] == q.innerSets[done + 1..];
      ghost var before := innerSets;
      assert before[idx..][1..] == before[idx + 1..];
      var simplified := SimplifyInPlace(innerSets[idx]);
      innerSets := innerSets[idx := simplified];
      if IsSingleton(simplified) {
        validators := validators + [simplified.validators[0]];
        innerSets := innerSets[..idx] + innerSets[idx + 1..];
        assert innerSets[..idx] == before[..idx];
        assert innerSets[idx..] == before[idx + 1..];
      } else {
        ghost var rest := Merge(before[idx + 1..], validators).1;
        idx := idx + 1;
        assert innerSets[idx..] == before[idx..];
        assert innerSets[..idx] + rest == before[..idx - 1] + ([simplified] + rest);
      }
      done := done + 1;
    }
    assert innerSets[..idx] + [] == innerSets;
    r := Unwrap(QuorumSet(q.threshold, validators, innerSets));
  }

  function ReorderAll(sets: seq<QuorumSet>, orders: Orders): seq<QuorumSet>
    decreases sets
  {
    if sets == [] then [] else [Reorder(sets[0], orders)] + ReorderAll(sets[1..], orders)
  }

  /** Sorts the validators and the inner sets of every level. */
  function Reorder(q: QuorumSet, orders: Orders): QuorumSet
    decreases q
  {
    QuorumSet(
      q.threshold,
      SortBy(q.validators, orders.node),
      SortBy(ReorderAll(q.innerSets, orders), orders.quorumSet))
  }

  function Normalize(q: QuorumSet, orders: Orders): QuorumSet {
    Reorder(Simplify(q), orders)
  }

  lemma {:induction false} MergePreservesVotes(sets: seq<QuorumSet>, validators: seq<NodeId>, nodes: set<NodeId>)
    ensures var (vs, rest) := Merge(sets, validators);
            Votes(vs, nodes) + InnerVotes(rest, nodes) == Votes(validators, nodes) + InnerVotes(sets, nodes)
    decreases sets
  {
    if sets == [] {
    } else {
      var first := Simplify(sets[0]);
      SimplifyPreserves(sets[0], nodes);
      if IsSingleton(first) {
        MergePreservesVotes(sets[1..], validators + [first.validators[0]], nodes);
        VotesAppend(validators, [first.validators[0]], nodes);
        assert Votes(first.validators, nodes) == if first.validators[0] in nodes then 1 else 0;
      } else {
        MergePreservesVotes(sets[1..], validators, nodes);
        var (vs, rest) := Merge(sets[1..], validators);
        InnerVotesAppend([first], rest, nodes);
      }
    }
  }

  lemma {:induction false} SimplifyPreserves(q: QuorumSet, nodes: set<NodeId>)
    ensures Satisfied(Simplify(q), nodes) == Satisfied(q, nodes)
    decreases q
  {
    MergePreservesVotes(q.innerSets, q.validators, nodes);
  }

  lemma {:induction false} InsertVotes(x: NodeId, s: seq<NodeId>, le: (NodeId, NodeId) -> bool, nodes: set<NodeId>)
    ensures Votes(Insert(x, s, le), nodes) == Votes([x] + s, nodes)
  {
    if s == [] || le(x, s[0]) {
    } else {
      InsertVotes(x, s[1..], le, nodes);
    }
  }

  lemma {:induction false} SortVotes(s: seq<NodeId>, le: (NodeId, NodeId) -> bool, nodes: set<NodeId>)
    ensures Votes(SortBy(s, le), nodes) == Votes(s, nodes)
  {
    if s == [] {
    } else {
      SortVotes(s[1..], le, nodes);
      InsertVotes(s[0], SortBy(s[1..], le), le, nodes);
    }
  }

  lemma {:induction false} InsertInnerVotes(x: QuorumSet, s: seq<QuorumSet>, le: (QuorumSet, QuorumSet) -> bool,
                                            nodes: set<NodeId>)
    ensures InnerVotes(Insert(x, s, le), nodes) == InnerVotes([x] + s, nodes)
  {
    if s == [] || le(x, s[0]) {
    } else {
      InsertInnerVotes(x, s[1..], le, nodes);
    }
  }

  lemma {:induction false} SortInnerVotes(s: seq<QuorumSet>, le: (QuorumSet, QuorumSet) -> bool, nodes: set<NodeId>)
    ensures InnerVotes(SortBy(s, le), nodes) == InnerVotes(s, nodes)
  {
    if s == [] {
    } else {
      SortInnerVotes(s[1..], le, nodes);
      InsertInnerVotes(s[0], SortBy(s[1..], le), le, nodes);
    }
  }

  lemma {:induction false} ReorderAllPreserves(sets: seq<QuorumSet>, orders: Orders, nodes: set<NodeId>)
    ensures InnerVotes(ReorderAll(sets, orders), nodes) == InnerVotes(sets, nodes)
    decreases sets
  {
    if sets == [] {
    } else {
      ReorderPreserves(sets[0], orders, nodes);
      ReorderAllPreserves(sets[1..], orders, nodes);
    }
  }

  lemma {:induction false} ReorderPreserves(q: QuorumSet, orders: Orders, nodes: set<NodeId>)
    ensures Satisfied(Reorder(q, orders), nodes) == Satisfied(q, nodes)
    decreases q
  {
    ReorderAllPreserves(q.innerSets, orders, nodes);
    SortVotes(q.validators, orders.node, nodes);
    SortInnerVotes(ReorderAll(q.innerSets, orders), orders.quorumSet, nodes);
  }

  /** Normalization never changes which node sets satisfy a quorum set. */
  lemma {:induction false} NormalizePreserves(q: QuorumSet, orders: Orders, nodes: set<NodeId>)
    ensures Satisfied(Normalize(q, orders), nodes) == Satisfied(q, nodes)
  {
    SimplifyPreserves(q, nodes);
    ReorderPreserves(Simplify(q), orders, nodes);
  }

  // ----- Conversion -------------------------------------------------------------------

  function ParseKeys(keys: seq<string>, parse: KeyParser): Result<seq<NodeId>, XdrError> {
    if keys == [] then Ok([])
    else match parse(keys[0])
      case None => Err(BadKey(keys[0]))
      case Some(id) =>
        match ParseKeys(keys[1..], parse)
        case Err(e) => Err(e)
        case Ok(ids) => Ok([id] + ids)
  }

  /** Converts `sets`, the first of which has position `index` in its parent. */
  function ConvertAll(sets: seq<QuorumSetConfig>, index: nat, parse: KeyParser, orders: Orders)
    : (r: Result<seq<QuorumSet>, XdrError>)
    ensures r.Ok? ==> |r.value| == |sets|
    decreases sets
  {
    if sets == [] then Ok([])
    else match ToXdr(sets[0], parse, orders)
      case Err(e) => Err(InInnerSet(index, e))
      case Ok(q) =>
        match ConvertAll(sets[1..], index + 1, parse, orders)
        case Err(e) => Err(e)
        case Ok(rest) => Ok([q] + rest)
  }

  function ToXdr(c: QuorumSetConfig, parse: KeyParser, orders: Orders): Result<QuorumSet, XdrError>
    decreases c
  {
    if c.validators == [] && c.innerSets == [] then Err(NoEntries)
    else if c.thresholdPercent == 0 || c.thresholdPercent > 100 then Err(BadPercent(c.thresholdPercent))
    else match ParseKeys(c.validators, parse)
      case Err(e) => Err(e)
      case Ok(ids) =>
        ParsedLength(c.validators, parse);
        match ConvertAll(c.innerSets, 0, parse, orders)
        case Err(e) => Err(e)
        case Ok(sets) =>
          Ok(Normalize(QuorumSet(FromPercent(|ids| + |sets|, c.thresholdPercent), ids, sets), orders))
  }

  lemma {:induction false} ParsedLength(keys: seq<string>, parse: KeyParser)
    ensures var r := ParseKeys(keys, parse); r.Ok? ==> |r.value| == |keys|
  {
    if keys != [] {
      ParsedLength(keys[1..], parse);
    }
  }

  lemma {:induction false} ParseKeysStep(keys: seq<string>, i: nat, parse: KeyParser)
    requires i < |keys|
    ensures match ParseKeys(keys[..i], parse)
            case Err(e) => ParseKeys(keys, parse) == Err(e)
            case Ok(ids) =>
              match parse(keys[i])
              case None => ParseKeys(keys, parse) == Err(BadKey(keys[i]))
              case Some(id) => ParseKeys(keys[..i + 1], parse) == Ok(ids + [id])
  {
    if i == 0 {
      assert keys[..1] == [keys[0]];
      assert ParseKeys(keys[..1][1..], parse) == Ok([]);
      assert parse(keys[0]).Some? ==> [] + [parse(keys[0]).value] == [parse(keys[0]).value] + [];
    } else {
      assert keys[..i][1..] == keys[1..][..i - 1];
      assert keys[..i + 1][1..] == keys[1..][..i];
      ParseKeysStep(keys[1..], i - 1, parse);
      if ParseKeys(keys[..i], parse).Ok? && parse(keys[i]).Some? {
        var first, ids := parse(keys[0]).value, ParseKeys(keys[1..][..i - 1], parse).value;
        assert [first] + (ids + [parse(keys[i]).value]) == ([first] + ids) + [parse(keys[i]).value];
      }
    }
  }

  lemma {:induction false} ConvertAllStep(sets: seq<QuorumSetConfig>, i: nat, index: nat, parse: KeyParser,
                                          orders: Orders)
    requires i < |sets|
    ensures match ConvertAll(sets[..i], index, parse, orders)
            case Err(e) => ConvertAll(sets, index, parse, orders) == Err(e)
            case Ok(qs) =>
              match ToXdr(sets[i], parse, orders)
              case Err(e) => ConvertAll(sets, index, parse, orders) == Err(InInnerSet(index + i, e))
              case Ok(q) => ConvertAll(sets[..i + 1], index, parse, orders) == Ok(qs + [q])
  {
    if i == 0 {
      assert sets[..1] == [sets[0]];
      assert ConvertAll(sets[..1][1..], index + 1, parse, orders) == Ok([]);
      var first := ToXdr(sets[0], parse, orders);
      assert first.Ok? ==> [] + [first.value] == [first.value] + [];
    } else {
      assert sets[..i][1..] == sets[1..][..i - 1];
      assert sets[..i + 1][1..] == sets[1..][..i];
      ConvertAllStep(sets[1..], i - 1, index + 1, parse, orders);
      if ConvertAll(sets[..i], index, parse, orders).Ok? && ToXdr(sets[i], parse, orders).Ok? {
        var first, last := ToXdr(sets[0], parse, orders).value, ToXdr(sets[i], parse, orders).value;
        var qs := ConvertAll(sets[1..][..i - 1], index + 1, parse, orders).value;
        assert [first] + (qs + [last]) == ([first] + qs) + [last];
      }
    }
  }

  /** The conversion as it runs: two loops pushing converted entries, then normalization. */
  method ConvertToXdr(c: QuorumSetConfig, parse: KeyParser, orders: Orders) returns (r: Result<QuorumSet, XdrError>)
    ensures r == ToXdr(c, parse, orders)
    decreases c
  {
    if c.validators == [] && c.innerSets == [] {
      return Err(NoEntries);
    }
    if c.thresholdPercent == 0 || c.thresholdPercent > 100 {
      return Err(BadPercent(c.thresholdPercent));
    }
    var validators := [];
    for i := 0 to |c.validators|
      invariant ParseKeys(c.validators[..i], parse) == Ok(validators) && |validators| == i
    {
      ParseKeysStep(c.validators, i, parse);
      match parse(c.validators[i]) {
        case None =>
          return Err(BadKey(c.validators[i]));
        case Some(id) =>
          validators := validators + [id];
      }
    }
    assert c.validators[..|c.validators|] == c.validators;
    var innerSets := [];
    for i := 0 to |c.innerSets|
      invariant ConvertAll(c.innerSets[..i], 0, parse, orders) == Ok(innerSets) && |innerSets| == i
    {
      ConvertAllStep(c.innerSets, i, 0, parse, orders);
      var inner := ConvertToXdr(c.innerSets[i], parse, orders);
      if inner.Err? {
        return Err(InInnerSet(i, inner.error));
      }
      innerSets := innerSets + [inner.value];
    }
    assert c.innerSets[..|c.innerSets|] == c.innerSets;
    var threshold := FromPercent(|validators| + |innerSets|, c.thresholdPercent);
    var simplified := SimplifyInPlace(QuorumSet(threshold, validators, innerSets));
    r := Ok(Reorder(simplified, orders));
  }

  // ----- Meaning of a configured set --------------------------------------------------

  /** Number of listed keys whose node is in `nodes`. */
  function KeyVotes(keys: seq<string>, parse: KeyParser, nodes: set<NodeId>): nat {
    if keys == [] then 0
    else (if parse(keys[0]).Some? && parse(keys[0]).value in nodes then 1 else 0)
         + KeyVotes(keys[1..], parse, nodes)
  }

  function Approvals(sets: seq<QuorumSetConfig>, parse: KeyParser, nodes: set<NodeId>): nat
    decreases sets
  {
    if sets == [] then 0
    else (if Approves(sets[0], parse, nodes) then 1 else 0) + Approvals(sets[1..], parse, nodes)
  }

  /** The intended reading of a configured set: the satisfied entries are at least
      `thresholdPercent` percent of all its entries. */
  predicate Approves(c: QuorumSetConfig, parse: KeyParser, nodes: set<NodeId>)
    decreases c
  {
    (|c.validators| + |c.innerSets|) * c.thresholdPercent
    <= 100 * (KeyVotes(c.validators, parse, nodes) + Approvals(c.innerSets, parse, nodes))
  }

  lemma {:induction false} ParsedVotes(keys: seq<string>, parse: KeyParser, nodes: set<NodeId>)
    ensures var r := ParseKeys(keys, parse);
            r.Ok? ==> |r.value| == |keys| && Votes(r.value, nodes) == KeyVotes(keys, parse, nodes)
  {
    if keys == [] {
    } else {
      ParsedVotes(keys[1..], parse, nodes);
    }
  }

  lemma {:induction false} ConvertedVotes(sets: seq<QuorumSetConfig>, index: nat, parse: KeyParser, orders: Orders,
                                          nodes: set<NodeId>)
    ensures var r := ConvertAll(sets, index, parse, orders);
            r.Ok? ==> InnerVotes(r.value, nodes) == Approvals(sets, parse, nodes)
    decreases sets
  {
    if sets == [] {
    } else {
      var r := ConvertAll(sets, index, parse, orders);
      if r.Ok? {
        ToXdrMeaning(sets[0], parse, orders, nodes);
        ConvertedVotes(sets[1..], index + 1, parse, orders, nodes);
        InnerVotesAppend([r.value[0]], r.value[1..], nodes);
      }
    }
  }

  /** Conversion preserves meaning through the ceiling threshold and normalization. */
  lemma {:induction false} ToXdrMeaning(c: QuorumSetConfig, parse: KeyParser, orders: Orders, nodes: set<NodeId>)
    ensures var r := ToXdr(c, parse, orders);
            r.Ok? ==> (Satisfied(r.value, nodes) <==> Approves(c, parse, nodes))
    decreases c
  {
    var r := ToXdr(c, parse, orders);
    if r.Ok? {
      var ids := ParseKeys(c.validators, parse).value;
      var sets := ConvertAll(c.innerSets, 0, parse, orders).value;
      ParsedVotes(c.validators, parse, nodes);
      ConvertedVotes(c.innerSets, 0, parse, orders, nodes);
      CeilingMeaning(ids, sets, c.thresholdPercent, orders, nodes);
    }
  }

  lemma {:induction false} CeilingMeaning(ids: seq<NodeId>, sets: seq<QuorumSet>, percent: nat, orders: Orders,
                                          nodes: set<NodeId>)
    requires 1 <= |ids| + |sets| && 1 <= percent <= 100
    ensures var n := |ids| + |sets|;
            Satisfied(Normalize(QuorumSet(FromPercent(n, percent), ids, sets), orders), nodes)
            <==> n * percent <= 100 * (Votes(ids, nodes) + InnerVotes(sets, nodes))
  {
    NormalizePreserves(QuorumSet(FromPercent(|ids| + |sets|, percent), ids, sets), orders, nodes);
    FromPercentIsCeiling(|ids| + |sets|, percent, Votes(ids, nodes) + InnerVotes(sets, nodes));
  }

  // ----- Quorum intersection ----------------------------------------------------------

  /** Every node of the tree demands more than half of its entries. */
  predicate MajorityEverywhere(c: QuorumSetConfig) {
    51 <= c.thresholdPercent <= 100
    && (c.validators != [] || c.innerSets != [])
    && forall i :: 0 <= i < |c.innerSets| ==> MajorityEverywhere(c.innerSets[i])
  }

  /** The nodes listed anywhere in the tree. */
  function Leaves(c: QuorumSetConfig, parse: KeyParser): set<NodeId> {
    (set i | 0 <= i < |c.validators| && parse(c.validators[i]).Some? :: parse(c.validators[i]).value)
    + (set i, n | 0 <= i < |c.innerSets| && n in Leaves(c.innerSets[i], parse) :: n)
  }

  lemma {:induction false} PigeonKeys(keys: seq<string>, parse: KeyParser, a: set<NodeId>, b: set<NodeId>)
    requires KeyVotes(keys, parse, a) + KeyVotes(keys, parse, b) > |keys|
    ensures exists i :: 0 <= i < |keys| && parse(keys[i]).Some? && parse(keys[i]).value in a * b
  {
    if parse(keys[0]).Some? && parse(keys[0]).value in a * b {
    } else {
      PigeonKeys(keys[1..], parse, a, b);
    }
  }

  lemma {:induction false} PigeonSets(sets: seq<QuorumSetConfig>, parse: KeyParser, a: set<NodeId>, b: set<NodeId>)
    requires Approvals(sets, parse, a) + Approvals(sets, parse, b) > |sets|
    ensures exists i :: 0 <= i < |sets| && Approves(sets[i], parse, a) && Approves(sets[i], parse, b)
  {
    if Approves(sets[0], parse, a) && Approves(sets[0], parse, b) {
    } else {
      PigeonSets(sets[1..], parse, a, b);
    }
  }

  lemma {:induction false} ConfigIntersection(c: QuorumSetConfig, parse: KeyParser, a: set<NodeId>, b: set<NodeId>)
    returns (shared: NodeId)
    requires MajorityEverywhere(c)
    requires Approves(c, parse, a) && Approves(c, parse, b)
    ensures shared in a && shared in b && shared in Leaves(c, parse)
    decreases c
  {
    var n := |c.validators| + |c.innerSets|;
    var ka, kb := KeyVotes(c.validators, parse, a), KeyVotes(c.validators, parse, b);
    var ia, ib := Approvals(c.innerSets, parse, a), Approvals(c.innerSets, parse, b);
    MoreThanHalf(n, c.thresholdPercent, ka + ia);
    MoreThanHalf(n, c.thresholdPercent, kb + ib);
    if ka + kb > |c.validators| {
      PigeonKeys(c.validators, parse, a, b);
      var i :| 0 <= i < |c.validators| && parse(c.validators[i]).Some? && parse(c.validators[i]).value in a * b;
      shared := parse(c.validators[i]).value;
    } else {
      PigeonSets(c.innerSets, parse, a, b);
      var i :| 0 <= i < |c.innerSets| && Approves(c.innerSets[i], parse, a) && Approves(c.innerSets[i], parse, b);
      shared := ConfigIntersection(c.innerSets[i], parse, a, b);
    }
  }

  lemma {:induction false} MoreThanHalf(n: nat, percent: nat, votes: nat)
    requires 1 <= n && 51 <= percent && n * percent <= 100 * votes
    ensures 2 * votes > n
  {
    assert n * percent >= n * 51;
  }

  /** Any two node sets that satisfy a converted set with majorities everywhere share a listed
      node, however often a key is listed. */
  lemma {:induction false} QuorumIntersection(c: QuorumSetConfig, parse: KeyParser, orders: Orders, a: set<NodeId>,
                                              b: set<NodeId>)
    requires MajorityEverywhere(c)
    requires var r := ToXdr(c, parse, orders); r.Ok? && Satisfied(r.value, a) && Satisfied(r.value, b)
    ensures a * b * Leaves(c, parse) != {}
  {
    ToXdrMeaning(c, parse, orders, a);
    ToXdrMeaning(c, parse, orders, b);
    var shared := ConfigIntersection(c, parse, a, b);
    assert shared in a * b * Leaves(c, parse);
  }

  /** No percentage of 50 or less is enough for all trees: some two disjoint single-node sets both
      satisfy a two-validator set. */
  lemma {:induction false} HalfIsNotEnough(percent: nat, parse: KeyParser, orders: Orders, k: string, l: string)
    requires 1 <= percent <= 50
    requires parse(k).Some? && parse(l).Some? && parse(k) != parse(l)
    ensures var c := QuorumSetConfig(percent, [k, l], []);
            var r := ToXdr(c, parse, orders);
            r.Ok? && Satisfied(r.value, {parse(k).value}) && Satisfied(r.value, {parse(l).value})
  {
    var c := QuorumSetConfig(percent, [k, l], []);
    assert [k, l][1..] == [l] && [l][1..] == [];
    assert ParseKeys([l][1..], parse).Ok?;
    assert ParseKeys([k, l][1..], parse).Ok?;
    forall x | x == parse(k).value || x == parse(l).value
      ensures Approves(c, parse, {x})
    {
      assert KeyVotes([l], parse, {x}) == if parse(l).value == x then 1 else 0;
    }
    ToXdrMeaning(c, parse, orders, {parse(k).value});
    ToXdrMeaning(c, parse, orders, {parse(l).value});
  }

  lemma {:induction false} AllKeysVote(keys: seq<string>, parse: KeyParser, nodes: set<NodeId>)
    requires forall i :: 0 <= i < |keys| ==> parse(keys[i]).Some? && parse(keys[i]).value in nodes
    ensures KeyVotes(keys, parse, nodes) == |keys|
  {
    if keys == [] {
    } else {
      AllKeysVote(keys[1..], parse, nodes);
    }
  }

  lemma {:induction false} AllSetsApprove(sets: seq<QuorumSetConfig>, parse: KeyParser, nodes: set<NodeId>)
    requires forall i :: 0 <= i < |sets| ==> Approves(sets[i], parse, nodes)
    ensures Approvals(sets, parse, nodes) == |sets|
  {
    if sets == [] {
    } else {
      AllSetsApprove(sets[1..], parse, nodes);
    }
  }

  lemma {:induction false} ParsedKeys(keys: seq<string>, parse: KeyParser)
    requires ParseKeys(keys, parse).Ok?
    ensures forall i :: 0 <= i < |keys| ==> parse(keys[i]).Some?
  {
    if keys == [] {
    } else {
      ParsedKeys(keys[1..], parse);
    }
  }

  lemma {:induction false} ConvertedSets(sets: seq<QuorumSetConfig>, index: nat, parse: KeyParser, orders: Orders)
    requires ConvertAll(sets, index, parse, orders).Ok?
    ensures forall i :: 0 <= i < |sets| ==> ToXdr(sets[i], parse, orders).Ok?
  {
    if sets == [] {
    } else {
      ConvertedSets(sets[1..], index + 1, parse, orders);
    }
  }

  lemma {:induction false} LeavesApprove(c: QuorumSetConfig, parse: KeyParser, orders: Orders, nodes: set<NodeId>)
    requires ToXdr(c, parse, orders).Ok?
    requires Leaves(c, parse) <= nodes
    ensures Approves(c, parse, nodes)
    decreases c
  {
    ParsedKeys(c.validators, parse);
    ConvertedSets(c.innerSets, 0, parse, orders);
    forall i | 0 <= i < |c.validators|
      ensures parse(c.validators[i]).value in nodes
    {
      assert parse(c.validators[i]).value in Leaves(c, parse);
    }
    forall i | 0 <= i < |c.innerSets|
      ensures Approves(c.innerSets[i], parse, nodes)
    {
      forall n | n in Leaves(c.innerSets[i], parse)
        ensures n in nodes
      {
        assert n in Leaves(c, parse);
      }
      LeavesApprove(c.innerSets[i], parse, orders, nodes);
    }
    AllKeysVote(c.validators, parse, nodes);
    AllSetsApprove(c.innerSets, parse, nodes);
    MulUpper(|c.validators| + |c.innerSets|, c.thresholdPercent);
  }

  /** Every converted set is satisfiable: the set of all its nodes satisfies it. */
  lemma {:induction false} LeavesSatisfy(c: QuorumSetConfig, parse: KeyParser, orders: Orders)
    requires ToXdr(c, parse, orders).Ok?
    ensures Satisfied(ToXdr(c, parse, orders).value, Leaves(c, parse))
  {
    LeavesApprove(c, parse, orders, Leaves(c, parse));
    ToXdrMeaning(c, parse, orders, Leaves(c, parse));
  }

  // ----- Which configurations convert ---------------------------------------------------

  /** Every node has entries, a proper percentage and readable keys. */
  predicate Convertible(c: QuorumSetConfig, parse: KeyParser)
    decreases c
  {
    (c.validators != [] || c.innerSets != [])
    && 1 <= c.thresholdPercent <= 100
    && (forall i :: 0 <= i < |c.validators| ==> parse(c.validators[i]).Some?)
    && (forall i :: 0 <= i < |c.innerSets| ==> Convertible(c.innerSets[i], parse))
  }

  lemma {:induction false} ReadableKeysParse(keys: seq<string>, parse: KeyParser)
    requires forall i :: 0 <= i < |keys| ==> parse(keys[i]).Some?
    ensures ParseKeys(keys, parse).Ok?
  {
    if keys != [] {
      ReadableKeysParse(keys[1..], parse);
    }
  }

  lemma {:induction false} ConvertibleSetsConvert(sets: seq<QuorumSetConfig>, index: nat, parse: KeyParser,
                                                  orders: Orders)
    requires forall i :: 0 <= i < |sets| ==> ToXdr(sets[i], parse, orders).Ok?
    ensures ConvertAll(sets, index, parse, orders).Ok?
  {
    if sets != [] {
      ConvertibleSetsConvert(sets[1..], index + 1, parse, orders);
    }
  }

  /** A configuration converts exactly when all its nodes are convertible: no bad inner set is
      ever dropped silently. */
  lemma {:induction false} ConvertsExactly(c: QuorumSetConfig, parse: KeyParser, orders: Orders)
    ensures ToXdr(c, parse, orders).Ok? <==> Convertible(c, parse)
    decreases c
  {
    forall i | 0 <= i < |c.innerSets|
      ensures ToXdr(c.innerSets[i], parse, orders).Ok? <==> Convertible(c.innerSets[i], parse)
    {
      ConvertsExactly(c.innerSets[i], parse, orders);
    }
    if ToXdr(c, parse, orders).Ok? {
      ParsedKeys(c.validators, parse);
      ConvertedSets(c.innerSets, 0, parse, orders);
    } else if Convertible(c, parse) {
      ReadableKeysParse(c.validators, parse);
      ConvertibleSetsConvert(c.innerSets, 0, parse, orders);
    }
  }
}
