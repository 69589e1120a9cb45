/** Which node sets satisfy a generated quorum set, and which entries are accepted, told from the entries. */
module GeneratedTolerance {
  import opened Common
  import opened Sorting
  import opened QuorumSets
  import opened QuorumGeneration
  import opened GeneratedQuorums

  type Group = seq<ValidatorEntry>

  // ----- Fault tolerance ----------------------------------------------------------------

  /** Number of entries whose node is in `nodes`. */
  function Present(group: Group, parse: KeyParser, nodes: set<NodeId>): nat {
    if group == [] then 0
    else (if parse(group[0].key).Some? && parse(group[0].key).value in nodes then 1 else 0)
         + Present(group[1..], parse, nodes)
  }

  /** A home domain is up when at least 51% of its validators are. */
  predicate DomainUp(group: Group, parse: KeyParser, nodes: set<NodeId>) {
    100 * Present(group, parse, nodes) >= 51 * |group|
  }

  function DomainsUp(groups: seq<Group>, parse: KeyParser, nodes: set<NodeId>): (n: nat)
    ensures n <= |groups|
  {
    if groups == [] then 0
    else (if DomainUp(groups[0], parse, nodes) then 1 else 0) + DomainsUp(groups[1..], parse, nodes)
  }

  /** A tier is up when all of its domains and the tiers below it are up, in the Critical tier, and when at
      least 67% of them are, in any other; all tiers below one count as one entry of it. */
  predicate TierUp(quality: Quality, groups: seq<Group>, parse: KeyParser, nodes: set<NodeId>)
    decreases |groups|, quality.Rank()
  {
    var n := Leading(groups, quality);
    if n == |groups| then
      Enough(quality, n, DomainsUp(groups, parse, nodes))
    else if groups[n] != [] && Worse(groups[n][0].quality, quality) then
      var below := if TierUp(groups[n][0].quality, groups[n..], parse, nodes) then 1 else 0;
      Enough(quality, n + 1, DomainsUp(groups[..n], parse, nodes) + below)
    else false
  }

  predicate Enough(quality: Quality, entries: nat, up: nat) {
    if quality == Critical then up >= entries else 100 * up >= 67 * entries
  }

  lemma {:induction false} KeysPresent(group: Group, parse: KeyParser, nodes: set<NodeId>)
    ensures KeyVotes(Keys(group), parse, nodes) == Present(group, parse, nodes)
  {
    if group == [] {
    } else {
      KeysPresent(group[1..], parse, nodes);
      assert Keys(group)[1..] == Keys(group[1..]);
    }
  }

  lemma {:induction false} DomainApproves(group: Group, parse: KeyParser, nodes: set<NodeId>)
    ensures Approves(DomainSet(group), parse, nodes) <==> DomainUp(group, parse, nodes)
  {
    KeysPresent(group, parse, nodes);
  }

  lemma {:induction false} DomainsApprove(groups: seq<Group>, parse: KeyParser, nodes: set<NodeId>)
    ensures Approvals(DomainSets(groups), parse, nodes) == DomainsUp(groups, parse, nodes)
  {
    if groups == [] {
    } else {
      DomainApproves(groups[0], parse, nodes);
      DomainsApprove(groups[1..], parse, nodes);
      assert DomainSets(groups)[1..] == DomainSets(groups[1..]);
    }
  }

  lemma {:induction false} ApprovalsAppend(a: seq<QuorumSetConfig>, c: QuorumSetConfig, parse: KeyParser,
                                           nodes: set<NodeId>)
    ensures Approvals(a + [c], parse, nodes)
            == Approvals(a, parse, nodes) + if Approves(c, parse, nodes) then 1 else 0
  {
    if a == [] {
      assert a + [c] == [c] && [c][1..] == [];
    } else {
      assert (a + [c])[1..] == a[1..] + [c];
      ApprovalsAppend(a[1..], c, parse, nodes);
    }
  }

  /** A tier without validators of its own in terms of how many of its entries are approved. */
  lemma {:induction false} TierApproves(c: QuorumSetConfig, quality: Quality, up: nat, parse: KeyParser,
                                        nodes: set<NodeId>)
    requires c.thresholdPercent == (if quality == Critical then 100 else 67) && c.validators == []
    requires Approvals(c.innerSets, parse, nodes) == up
    ensures Approves(c, parse, nodes) <==> Enough(quality, |c.innerSets|, up)
  {
  }

  lemma {:induction false} HoldingApproves(c: QuorumSetConfig, quality: Quality, groups: seq<Group>, parse: KeyParser,
                                           nodes: set<NodeId>)
    requires HoldsGroups(c, quality, groups)
    ensures Approves(c, parse, nodes) <==> TierUp(quality, groups, parse, nodes)
    decreases quality.Rank()
  {
    var n := Leading(groups, quality);
    DomainsApprove(groups[..n], parse, nodes);
    if n == |groups| {
      assert groups[..n] == groups;
      TierApproves(c, quality, DomainsUp(groups, parse, nodes), parse, nodes);
    } else {
      HoldingApproves(c.innerSets[n], groups[n][0].quality, groups[n..], parse, nodes);
      LowerTierVotes(c.innerSets, groups[..n], parse, nodes);
      TierApproves(c, quality, Approvals(c.innerSets, parse, nodes), parse, nodes);
    }
  }

  lemma {:induction false} LowerTierVotes(innerSets: seq<QuorumSetConfig>, groups: seq<Group>, parse: KeyParser,
                                          nodes: set<NodeId>)
    requires |innerSets| == |groups| + 1 && innerSets[..|groups|] == DomainSets(groups)
    ensures Approvals(innerSets, parse, nodes)
            == DomainsUp(groups, parse, nodes) + if Approves(innerSets[|groups|], parse, nodes) then 1 else 0
  {
    var low := innerSets[|groups|];
    assert innerSets == DomainSets(groups) + [low];
    ApprovalsAppend(DomainSets(groups), low, parse, nodes);
    DomainsApprove(groups, parse, nodes);
  }

  lemma {:induction false} AllDomainsUp(groups: seq<Group>, m: nat, parse: KeyParser, nodes: set<NodeId>)
    requires m < |groups| && DomainsUp(groups, parse, nodes) == |groups|
    ensures DomainUp(groups[m], parse, nodes)
  {
    if m > 0 {
      AllDomainsUp(groups[1..], m - 1, parse, nodes);
    }
  }

  /** No node set does without one of the Critical domains. */
  lemma {:induction false} EveryCriticalNeeded(groups: seq<Group>, m: nat, parse: KeyParser, nodes: set<NodeId>)
    requires ByQuality(groups) && forall k :: 0 <= k < |groups| ==> groups[k] != []
    requires m < |groups| && groups[m][0].quality == Critical && TierUp(Critical, groups, parse, nodes)
    ensures DomainUp(groups[m], parse, nodes)
  {
    LeadingIsAll(groups, Critical);
    var n := Leading(groups, Critical);
    if n == |groups| {
      assert groups[..n] == groups;
    }
    AllDomainsUp(groups[..n], m, parse, nodes);
  }

  // ----- Order of the domains -----------------------------------------------------------

  /** The strings agree up to a place where `a` ends or has the smaller character. */
  ghost predicate LexBefore(a: string, b: string) {
    exists k :: 0 <= k <= |a| && k < |b| && a[..k] == b[..k] && (k == |a| || a[k] < b[k])
  }

  lemma {:induction false} StringLeMeans(a: string, b: string)
    requires a != b
    ensures StringLe(a, b) <==> LexBefore(a, b)
  {
    if StringLe(a, b) {
      LeIsBefore(a, b);
    }
    if LexBefore(a, b) {
      var k :| 0 <= k <= |a| && k < |b| && a[..k] == b[..k] && (k == |a| || a[k] < b[k]);
      BeforeIsLe(a, b, k);
    }
  }

  lemma {:induction false} LeIsBefore(a: string, b: string)
    requires a != b && StringLe(a, b)
    ensures LexBefore(a, b)
  {
    if a == [] || a[0] < b[0] {
      assert a[..0] == b[..0];
    } else {
      assert a == [a[0]] + a[1..] && b == [b[0]] + b[1..];
      LeIsBefore(a[1..], b[1..]);
      var k :| 0 <= k <= |a[1..]| && k < |b[1..]| && a[1..][..k] == b[1..][..k]
               && (k == |a[1..]| || a[1..][k] < b[1..][k]);
      assert a[..k + 1] == [a[0]] + a[1..][..k] && b[..k + 1] == [b[0]] + b[1..][..k];
      assert k + 1 == |a| || a[k + 1] < b[k + 1];
    }
  }

  lemma {:induction false} BeforeIsLe(a: string, b: string, k: nat)
    requires k <= |a| && k < |b| && a[..k] == b[..k] && (k == |a| || a[k] < b[k])
    ensures StringLe(a, b)
  {
    if k > 0 {
      assert a[0] == a[..k][0] == b[..k][0] == b[0];
      assert a[1..][..k - 1] == a[..k][1..] && b[1..][..k - 1] == b[..k][1..];
      BeforeIsLe(a[1..], b[1..], k - 1);
    }
  }

  /** Within one quality the home domains come in ascending order. */
  ghost predicate ByDomain(groups: seq<Group>) {
    forall m, n :: 0 <= m < n < |groups| && groups[m] != [] && groups[n] != []
                   && groups[m][0].quality == groups[n][0].quality ==>
      LexBefore(groups[m][0].homeDomain, groups[n][0].homeDomain)
  }

  lemma {:induction false} HeadInTodo(todo: seq<ValidatorEntry>, i: nat, n: nat) returns (k: nat)
    requires i <= |todo| && n < |Groups(todo, i)|
    ensures Groups(todo, i)[n] != [] && i <= k < |todo| && todo[k] == Groups(todo, i)[n][0]
    decreases n
  {
    var j := PairEnd(todo, i + 1, todo[i]);
    assert Groups(todo, i) == [todo[i..j]] + Groups(todo, j);
    if n == 0 {
      k := i;
    } else {
      k := HeadInTodo(todo, j, n - 1);
    }
  }

  lemma {:induction false} LaterDomain(todo: seq<ValidatorEntry>, i: nat, k: nat)
    requires Sorted(todo, EntryLe) && i < k < |todo| && !SamePair(todo[k], todo[i])
    requires todo[k].quality == todo[i].quality
    ensures LexBefore(todo[i].homeDomain, todo[k].homeDomain)
  {
    assert EntryLe(todo[i], todo[k]);
    StringLeMeans(todo[i].homeDomain, todo[k].homeDomain);
  }

  lemma {:induction false} GroupsByDomain(todo: seq<ValidatorEntry>, i: nat)
    requires i <= |todo| && Sorted(todo, EntryLe)
    ensures ByDomain(Groups(todo, i))
    decreases |todo| - i
  {
    if i < |todo| {
      var j := PairEnd(todo, i + 1, todo[i]);
      GroupsByDomain(todo, j);
      var group: Group, groups: seq<Group> := todo[i..j], Groups(todo, j);
      assert group[0] == todo[i];
      forall n | 0 <= n < |groups| && groups[n] != [] && groups[n][0].quality == todo[i].quality
        ensures LexBefore(todo[i].homeDomain, groups[n][0].homeDomain)
      {
        var k := HeadInTodo(todo, j, n);
        PairDoesNotReturn(todo, i, j, k);
        LaterDomain(todo, i, k);
      }
    }
  }

  // ----- Acceptance ---------------------------------------------------------------------

  /** Two entries of one home domain and different qualities between which no entry sorts: the domain is
      the last one of its better quality and the first one of the next quality listed. */
  ghost predicate Clash(entries: seq<ValidatorEntry>, a: ValidatorEntry, b: ValidatorEntry) {
    a in entries && b in entries && a.homeDomain == b.homeDomain && Worse(b.quality, a.quality)
    && forall e :: e in entries ==>
         Worse(a.quality, e.quality) || Worse(e.quality, b.quality)
         || (e.quality == a.quality && !LexBefore(a.homeDomain, e.homeDomain))
         || (e.quality == b.quality && !LexBefore(e.homeDomain, b.homeDomain))
  }

  lemma {:induction false} EntryLeMeans(a: ValidatorEntry, b: ValidatorEntry)
    ensures EntryLe(a, b)
            <==> Worse(b.quality, a.quality) || (a.quality == b.quality && !LexBefore(b.homeDomain, a.homeDomain))
  {
    StringLeTotal(a.homeDomain, b.homeDomain);
    if a.homeDomain != b.homeDomain {
      StringLeMeans(b.homeDomain, a.homeDomain);
    }
  }

  /** A clash in terms of the sort order. */
  ghost predicate SortsAround(s: seq<ValidatorEntry>, a: ValidatorEntry, b: ValidatorEntry) {
    forall e :: e in s ==> EntryLe(e, a) || EntryLe(b, e)
  }

  lemma {:induction false} ClashMeans(entries: seq<ValidatorEntry>, a: ValidatorEntry, b: ValidatorEntry)
    requires Worse(b.quality, a.quality)
    ensures Clash(entries, a, b)
            <==> a in entries && b in entries && a.homeDomain == b.homeDomain && SortsAround(entries, a, b)
  {
    forall e
      ensures EntryLe(e, a) || EntryLe(b, e) <==>
              Worse(a.quality, e.quality) || Worse(e.quality, b.quality)
              || (e.quality == a.quality && !LexBefore(a.homeDomain, e.homeDomain))
              || (e.quality == b.quality && !LexBefore(e.homeDomain, b.homeDomain))
    {
      EntryLeMeans(e, a);
      EntryLeMeans(b, e);
    }
  }

  lemma {:induction false} NeighboursClash(todo: seq<ValidatorEntry>, i: nat)
    requires Sorted(todo, EntryLe) && i + 1 < |todo|
    requires todo[i].homeDomain == todo[i + 1].homeDomain && todo[i].quality != todo[i + 1].quality
    ensures Clash(todo, todo[i], todo[i + 1])
  {
    var a, b := todo[i], todo[i + 1];
    assert EntryLe(a, b);
    StringLeTotal(a.homeDomain, a.homeDomain);
    forall e | e in todo
      ensures EntryLe(e, a) || EntryLe(b, e)
    {
      var k :| 0 <= k < |todo| && todo[k] == e;
    }
    ClashMeans(todo, a, b);
  }

  lemma {:induction false} SqueezedBySamePair(a: ValidatorEntry, x: ValidatorEntry, y: ValidatorEntry)
    requires SamePair(a, x) && EntryLe(x, y) && EntryLe(y, a)
    ensures SamePair(y, a)
  {
    StringLeTotal(x.homeDomain, y.homeDomain);
  }

  lemma {:induction false} ClashHasNeighbours(todo: seq<ValidatorEntry>, a: ValidatorEntry, b: ValidatorEntry)
    requires Sorted(todo, EntryLe) && Clash(todo, a, b)
    ensures !NeighboursAgree(todo, 0)
  {
    ClashMeans(todo, a, b);
    var p: nat :| p < |todo| && todo[p] == a;
    var q: nat :| q < |todo| && todo[q] == b;
    while p + 1 < q
      invariant p < q < |todo| && SamePair(todo[p], a) && SamePair(todo[q], b)
    {
      assert EntryLe(todo[p], todo[p + 1]) && EntryLe(todo[p + 1], todo[q]);
      if EntryLe(todo[p + 1], a) {
        SqueezedBySamePair(a, todo[p], todo[p + 1]);
        p := p + 1;
      } else {
        SqueezedBySamePair(todo[q], b, todo[p + 1]);
        q := p + 1;
      }
    }
  }

  lemma {:induction false} SameClashes(s: seq<ValidatorEntry>, t: seq<ValidatorEntry>, a: ValidatorEntry,
                                       b: ValidatorEntry)
    requires multiset(s) == multiset(t)
    ensures Clash(s, a, b) <==> Clash(t, a, b)
  {
    forall e
      ensures e in s <==> e in t
    {
      assert e in s <==> e in multiset(s);
      assert e in t <==> e in multiset(t);
    }
  }

  ghost predicate NoClash(entries: seq<ValidatorEntry>) {
    forall a, b :: !Clash(entries, a, b)
  }

  lemma {:induction false} AgreeExactly(todo: seq<ValidatorEntry>)
    requires Sorted(todo, EntryLe)
    ensures NeighboursAgree(todo, 0) <==> NoClash(todo)
  {
    if !NeighboursAgree(todo, 0) {
      var i: nat :| i < |todo| - 1 && todo[i].homeDomain == todo[i + 1].homeDomain
                    && todo[i].quality != todo[i + 1].quality;
      NeighboursClash(todo, i);
    } else {
      forall a, b
        ensures !Clash(todo, a, b)
      {
        if Clash(todo, a, b) {
          ClashHasNeighbours(todo, a, b);
        }
      }
    }
  }

  /** Generation succeeds exactly when no home domain clashes and each High or Critical one lists at least
      three validators. */
  lemma {:induction false} AcceptsExactly(entries: seq<ValidatorEntry>)
    ensures Generate(entries).Ok?
            <==> NoClash(entries) && DomainsAreRedundant(entries)
  {
    GenerateAccepts(entries);
    var todo := SortBy(entries, EntryLe);
    SortedTodo(entries);
    AgreeExactly(todo);
    forall a, b
      ensures Clash(entries, a, b) <==> Clash(todo, a, b)
    {
      SameClashes(entries, todo, a, b);
    }
  }

  // ----- Main result --------------------------------------------------------------------

  /** The entries in groups, one per quality and home domain, each complete and in input order; better
      qualities first and home domains ascending within one quality. */
  ghost predicate GroupedEntries(groups: seq<Group>, entries: seq<ValidatorEntry>) {
    && multiset(Concat(groups)) == multiset(entries)
    && (forall m :: 0 <= m < |groups| ==> groups[m] != [] && groups[m] == OfPair(entries, groups[m][0]))
    && (forall m, n :: 0 <= m < n < |groups| && groups[m] != [] && groups[n] != [] ==>
          groups[m][0].quality != groups[n][0].quality || groups[m][0].homeDomain != groups[n][0].homeDomain)
    && ByQuality(groups) && ByDomain(groups)
  }

  /** A node set satisfies the converted tree exactly when the Critical tier of the entries is up. */
  lemma {:induction false} SatisfiedExactly(entries: seq<ValidatorEntry>, parse: KeyParser, orders: Orders,
                                            nodes: set<NodeId>)
    returns (groups: seq<Group>)
    requires Generate(entries).Ok? && ToXdr(Generate(entries).value, parse, orders).Ok?
    ensures GroupedEntries(groups, entries)
    ensures Satisfied(ToXdr(Generate(entries).value, parse, orders).value, nodes)
            <==> TierUp(Critical, groups, parse, nodes)
  {
    NothingToConvert(parse, orders);
    var todo := SortBy(entries, EntryLe);
    SortedTodo(entries);
    TiersHoldGroups(todo, 0, Critical);
    GroupsByQuality(todo, 0);
    GroupsByDomain(todo, 0);
    groups := InputGroups(entries);
    ToXdrMeaning(Generate(entries).value, parse, orders, nodes);
    HoldingApproves(Generate(entries).value, Critical, groups, parse, nodes);
  }
}
