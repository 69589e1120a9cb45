/** What a generated quorum set looks like, when one is generated, and why it is safe. */
module GeneratedQuorums {
  import opened Common
  import opened Sorting
  import opened QuorumSets
  import opened QuorumGeneration

  /** The entries with the quality and home domain of `e`, in order. */
  function OfPair(s: seq<ValidatorEntry>, e: ValidatorEntry): seq<ValidatorEntry> {
    if s == [] then []
    else if s[0].quality == e.quality && s[0].homeDomain == e.homeDomain then [s[0]] + OfPair(s[1..], e)
    else OfPair(s[1..], e)
  }

  function Concat<T>(parts: seq<seq<T>>): seq<T> {
    if parts == [] then [] else parts[0] + Concat(parts[1..])
  }

  /** The key lists of the innermost sets, left to right. */
  function DomainKeys(c: QuorumSetConfig): seq<seq<string>>
    decreases c
  {
    if c.innerSets == [] then [c.validators] else AllDomainKeys(c.innerSets)
  }

  function AllDomainKeys(sets: seq<QuorumSetConfig>): seq<seq<string>>
    decreases sets
  {
    if sets == [] then [] else DomainKeys(sets[0]) + AllDomainKeys(sets[1..])
  }

  function GroupKeys(groups: seq<seq<ValidatorEntry>>): seq<seq<string>> {
    if groups == [] then [] else [Keys(groups[0])] + GroupKeys(groups[1..])
  }

  /** Quality `a` is worse than `b`. */
  predicate Worse(a: Quality, b: Quality) {
    match a
    case Low => b != Low
    case Medium => b == High || b == Critical
    case High => b == Critical
    case Critical => false
  }

  predicate IsDomainSet(c: QuorumSetConfig) {
    c.thresholdPercent == 51 && c.validators != [] && c.innerSets == []
  }

  /** A tier holds no validators itself: only domain sets, then at most one lower tier. */
  predicate TierShaped(c: QuorumSetConfig, quality: Quality)
    decreases c
  {
    c.thresholdPercent == (if quality == Critical then 100 else 67)
    && c.validators == [] && c.innerSets != []
    && var last := |c.innerSets| - 1;
       (forall i :: 0 <= i < last ==> IsDomainSet(c.innerSets[i]))
       && (IsDomainSet(c.innerSets[last])
           || exists lower: Quality :: Worse(lower, quality) && TierShaped(c.innerSets[last], lower))
  }

  // ----- Groups -------------------------------------------------------------------------

  lemma {:induction false} Associate<T>(a: seq<T>, b: seq<T>, c: seq<T>)
    ensures a + (b + c) == a + b + c
  {
  }

  lemma {:induction false} OfPairCons(x: ValidatorEntry, s: seq<ValidatorEntry>, e: ValidatorEntry)
    ensures OfPair([x] + s, e) == if SamePair(x, e) then [x] + OfPair(s, e) else OfPair(s, e)
  {
    assert ([x] + s)[1..] == s;
  }

  lemma {:induction false} OfPairAppend(a: seq<ValidatorEntry>, b: seq<ValidatorEntry>, e: ValidatorEntry)
    ensures OfPair(a + b, e) == OfPair(a, e) + OfPair(b, e)
  {
    if a == [] {
      assert a + b == b;
    } else {
      OfPairAppend(a[1..], b, e);
      var x, rest := a[0], a[1..];
      OfPairCons(x, rest + b, e);
      assert a + b == [x] + (rest + b);
      assert OfPair(a, e) == if SamePair(x, e) then [x] + OfPair(rest, e) else OfPair(rest, e);
      Associate([x], OfPair(rest, e), OfPair(b, e));
    }
  }

  lemma {:induction false} OfPairAllOrNone(s: seq<ValidatorEntry>, e: ValidatorEntry)
    ensures (forall x :: x in s ==> SamePair(x, e)) ==> OfPair(s, e) == s
    ensures (forall x :: x in s ==> !SamePair(x, e)) ==> OfPair(s, e) == []
  {
    if s == [] {
    } else {
      OfPairAllOrNone(s[1..], e);
      assert s == [s[0]] + s[1..] && s[0] in s;
      OfPairCons(s[0], s[1..], e);
    }
  }

  /** Sorting is stable: it keeps the entries of one pair in input order. */
  lemma {:induction false} InsertIsStable(x: ValidatorEntry, s: seq<ValidatorEntry>, e: ValidatorEntry)
    ensures OfPair(Insert(x, s, EntryLe), e) == OfPair([x] + s, e)
  {
    if s == [] || EntryLe(x, s[0]) {
    } else {
      StringLeTotal(x.homeDomain, s[0].homeDomain);
      assert !SamePair(x, s[0]);
      InsertIsStable(x, s[1..], e);
      OfPairCons(s[0], Insert(x, s[1..], EntryLe), e);
      OfPairCons(x, s[1..], e);
      OfPairCons(x, s, e);
    }
  }

  lemma {:induction false} SortIsStable(s: seq<ValidatorEntry>, e: ValidatorEntry)
    ensures OfPair(SortBy(s, EntryLe), e) == OfPair(s, e)
  {
    if s == [] {
    } else {
      SortIsStable(s[1..], e);
      InsertIsStable(s[0], SortBy(s[1..], EntryLe), e);
      OfPairCons(s[0], SortBy(s[1..], EntryLe), e);
    }
  }

  /** In sorted entries, a pair never comes back after its run has ended. */
  lemma {:induction false} PairDoesNotReturn(todo: seq<ValidatorEntry>, i: nat, j: nat, k: nat)
    requires Sorted(todo, EntryLe) && i < j <= k < |todo|
    requires !SamePair(todo[j], todo[i])
    ensures !SamePair(todo[k], todo[i])
  {
    if SamePair(todo[k], todo[i]) && j < k {
      assert EntryLe(todo[i], todo[j]) && EntryLe(todo[j], todo[k]);
      StringLeTotal(todo[i].homeDomain, todo[j].homeDomain);
    }
  }

  /** `groups` are the pairs of `s`: each complete, in order, and listed once. */
  ghost predicate ArePairs(groups: seq<seq<ValidatorEntry>>, s: seq<ValidatorEntry>) {
    && Concat(groups) == s
    && (forall m :: 0 <= m < |groups| ==> groups[m] != [] && groups[m] == OfPair(s, groups[m][0]))
    && (forall m, n :: 0 <= m < n < |groups| && groups[m] != [] && groups[n] != [] ==>
          !SamePair(groups[m][0], groups[n][0]))
  }

  lemma {:induction false} GroupMembers(groups: seq<seq<ValidatorEntry>>, m: nat)
    requires m < |groups|
    ensures forall x :: x in groups[m] ==> x in Concat(groups)
  {
    if m > 0 {
      GroupMembers(groups[1..], m - 1);
    }
  }

  /** A run in front of entries it shares no pair with is one more group. */
  lemma {:induction false} PrependGroup(group: seq<ValidatorEntry>, groups: seq<seq<ValidatorEntry>>,
                                        rest: seq<ValidatorEntry>)
    requires group != [] && ArePairs(groups, rest)
    requires forall x :: x in group ==> SamePair(x, group[0])
    requires forall x :: x in rest ==> !SamePair(x, group[0])
    ensures ArePairs([group] + groups, group + rest)
  {
    var all := [group] + groups;
    assert all[0] == group && all[1..] == groups;
    OfPairAppend(group, rest, group[0]);
    OfPairAllOrNone(group, group[0]);
    OfPairAllOrNone(rest, group[0]);
    forall m | 0 <= m < |groups|
      ensures groups[m] == OfPair(group + rest, groups[m][0]) && !SamePair(group[0], groups[m][0])
    {
      GroupMembers(groups, m);
      assert groups[m][0] in rest;
      OfPairAppend(group, rest, groups[m][0]);
      OfPairAllOrNone(group, groups[m][0]);
    }
    assert forall m :: 0 < m < |all| ==> all[m] == groups[m - 1];
  }

  lemma {:induction false} GroupsArePairs(todo: seq<ValidatorEntry>, i: nat)
    requires i <= |todo| && Sorted(todo, EntryLe)
    ensures ArePairs(Groups(todo, i), todo[i..])
    decreases |todo| - i
  {
    if i < |todo| {
      var j := PairEnd(todo, i + 1, todo[i]);
      var group, rest := todo[i..j], todo[j..];
      GroupsArePairs(todo, j);
      assert todo[i..] == group + rest && group[0] == todo[i];
      forall x | x in rest
        ensures !SamePair(x, todo[i])
      {
        var k :| j <= k < |todo| && todo[k] == x;
        PairDoesNotReturn(todo, i, j, k);
      }
      PrependGroup(group, Groups(todo, j), rest);
    }
  }

  // ----- Shape --------------------------------------------------------------------------

  lemma {:induction false} AllDomainKeysAppend(a: seq<QuorumSetConfig>, b: seq<QuorumSetConfig>)
    ensures AllDomainKeys(a + b) == AllDomainKeys(a) + AllDomainKeys(b)
  {
    if a == [] {
      assert a + b == b;
    } else {
      assert (a + b)[1..] == a[1..] + b;
      AllDomainKeysAppend(a[1..], b);
    }
  }

  lemma {:induction false} PrependDomain(run: seq<ValidatorEntry>, sets: seq<QuorumSetConfig>,
                                         groups: seq<seq<ValidatorEntry>>)
    ensures AllDomainKeys([DomainSet(run)] + sets) == [Keys(run)] + AllDomainKeys(sets)
    ensures GroupKeys([run] + groups) == [Keys(run)] + GroupKeys(groups)
  {
    assert ([DomainSet(run)] + sets)[1..] == sets;
    assert ([run] + groups)[1..] == groups;
  }

  /** `sets` are domain sets listing the keys of `groups` up to those of `rest`. */
  ghost predicate Lists(sets: seq<QuorumSetConfig>, groups: seq<seq<ValidatorEntry>>,
                        rest: seq<seq<ValidatorEntry>>) {
    && (forall k :: 0 <= k < |sets| ==> IsDomainSet(sets[k]))
    && GroupKeys(groups) == AllDomainKeys(sets) + GroupKeys(rest)
  }

  lemma {:induction false} ListOneMore(run: seq<ValidatorEntry>, sets: seq<QuorumSetConfig>,
                                       groups: seq<seq<ValidatorEntry>>, rest: seq<seq<ValidatorEntry>>)
    requires run != [] && Lists(sets, groups, rest)
    ensures Lists([DomainSet(run)] + sets, [run] + groups, rest)
  {
    PrependDomain(run, sets, groups);
    Associate([Keys(run)], AllDomainKeys(sets), GroupKeys(rest));
    var all := [DomainSet(run)] + sets;
    assert all[0] == DomainSet(run) && forall k :: 0 < k < |all| ==> all[k] == sets[k - 1];
  }

  /** One home domain of a tier, and the group it is. */
  lemma {:induction false} TierStep(todo: seq<ValidatorEntry>, i: nat, quality: Quality) returns (j: nat)
    requires i < |todo| && todo[i].quality == quality && BuildTier(todo, i, quality).Ok?
    ensures i < j <= |todo| && BuildTier(todo, j, quality).Ok?
    ensures var below := BuildTier(todo, j, quality).value;
            BuildTier(todo, i, quality).value == Tier([DomainSet(todo[i..j])] + below.domainSets, below.end)
    ensures Groups(todo, i) == [todo[i..j]] + Groups(todo, j) && todo[i..j][0] == todo[i]
  {
    j := DomainEnd(todo, i, quality).value;
    PairEndIs(todo, i, j);
  }

  lemma {:induction false} TierFollowsGroups(todo: seq<ValidatorEntry>, i: nat, quality: Quality)
    requires i <= |todo| && BuildTier(todo, i, quality).Ok?
    ensures var t := BuildTier(todo, i, quality).value;
            Lists(t.domainSets, Groups(todo, i), Groups(todo, t.end))
    decreases |todo| - i
  {
    if i < |todo| && todo[i].quality == quality {
      var j := TierStep(todo, i, quality);
      TierFollowsGroups(todo, j, quality);
      var below := BuildTier(todo, j, quality).value;
      ListOneMore(todo[i..j], below.domainSets, Groups(todo, j), Groups(todo, below.end));
    } else {
      assert BuildTier(todo, i, quality).value == Tier([], i);
    }
  }

  /** A tier of domain sets, with a lower tier below it if there is one. */
  lemma {:induction false} AssembleTier(sets: seq<QuorumSetConfig>, low: Option<(QuorumSetConfig, Quality)>,
                                        quality: Quality)
    requires forall k :: 0 <= k < |sets| ==> IsDomainSet(sets[k])
    requires low.None? ==> sets != []
    requires low.Some? ==> TierShaped(low.value.0, low.value.1) && MajorityEverywhere(low.value.0)
    requires low.Some? ==> low.value.1.Rank() < quality.Rank()
    ensures var inner := if low.None? then sets else sets + [low.value.0];
            var c := QuorumSetConfig(TierPercent(quality), [], inner);
            && TierShaped(c, quality) && MajorityEverywhere(c)
            && DomainKeys(c) == AllDomainKeys(sets) + (if low.None? then [] else DomainKeys(low.value.0))
  {
    assert forall k :: 0 <= k < |sets| ==> MajorityEverywhere(sets[k]);
    if low.Some? {
      var inner := sets + [low.value.0];
      AllDomainKeysAppend(sets, [low.value.0]);
      assert [low.value.0][1..] == [];
      assert inner[|inner| - 1] == low.value.0;
      assert forall k :: 0 <= k < |sets| ==> inner[k] == sets[k];
    }
  }

  lemma {:induction false} TiersFollowGroups(todo: seq<ValidatorEntry>, from: nat, quality: Quality)
    requires from < |todo| && BuildTiers(todo, from, quality).Ok?
    ensures var c := BuildTiers(todo, from, quality).value;
            TierShaped(c, quality) && MajorityEverywhere(c) && DomainKeys(c) == GroupKeys(Groups(todo, from))
    decreases quality.Rank()
  {
    TierFollowsGroups(todo, from, quality);
    var t := BuildTier(todo, from, quality).value;
    if t.end < |todo| {
      TiersFollowGroups(todo, t.end, todo[t.end].quality);
      var low := BuildTiers(todo, t.end, todo[t.end].quality).value;
      AssembleTier(t.domainSets, Some((low, todo[t.end].quality)), quality);
    } else {
      assert t.domainSets != [];
      AssembleTier(t.domainSets, None, quality);
    }
  }

  // ----- Tiers --------------------------------------------------------------------------

  /** Number of groups of one quality at the front. */
  function Leading(groups: seq<seq<ValidatorEntry>>, quality: Quality): (n: nat)
    ensures n <= |groups|
    ensures forall m :: 0 <= m < n ==> groups[m] != [] && groups[m][0].quality == quality
    ensures n < |groups| && groups[n] != [] ==> groups[n][0].quality != quality
  {
    if groups == [] || groups[0] == [] || groups[0][0].quality != quality then 0 else 1 + Leading(groups[1..], quality)
  }

  function DomainSets(groups: seq<seq<ValidatorEntry>>): (sets: seq<QuorumSetConfig>)
    ensures |sets| == |groups| && forall m :: 0 <= m < |groups| ==> sets[m] == DomainSet(groups[m])
  {
    seq(|groups|, m requires 0 <= m < |groups| => DomainSet(groups[m]))
  }

  /** The tier of quality `quality` holds the domain sets of the leading groups, which are of that quality;
      the other groups are in the tier below, which has the quality of the first of them. */
  predicate HoldsGroups(c: QuorumSetConfig, quality: Quality, groups: seq<seq<ValidatorEntry>>)
    decreases quality.Rank()
  {
    var n := Leading(groups, quality);
    c.thresholdPercent == (if quality == Critical then 100 else 67) && c.validators == []
    && if n == |groups| then c.innerSets == DomainSets(groups)
       else groups[n] != [] && Worse(groups[n][0].quality, quality) && |c.innerSets| == n + 1
            && c.innerSets[..n] == DomainSets(groups[..n])
            && HoldsGroups(c.innerSets[n], groups[n][0].quality, groups[n..])
  }

  /** Groups come by descending quality. */
  ghost predicate ByQuality(groups: seq<seq<ValidatorEntry>>) {
    forall m, n :: 0 <= m < n < |groups| && groups[m] != [] && groups[n] != [] ==>
      !Worse(groups[m][0].quality, groups[n][0].quality)
  }

  /** A tier takes exactly the leading groups. */
  ghost predicate Takes(sets: seq<QuorumSetConfig>, groups: seq<seq<ValidatorEntry>>, rest: seq<seq<ValidatorEntry>>,
                        quality: Quality)
  {
    var n := Leading(groups, quality);
    sets == DomainSets(groups[..n]) && groups[n..] == rest
  }

  lemma {:induction false} TakeOneMore(group: seq<ValidatorEntry>, groups: seq<seq<ValidatorEntry>>,
                                       sets: seq<QuorumSetConfig>, rest: seq<seq<ValidatorEntry>>, quality: Quality)
    requires group != [] && group[0].quality == quality && Takes(sets, groups, rest, quality)
    ensures Takes([DomainSet(group)] + sets, [group] + groups, rest, quality)
  {
    var n, all := Leading(groups, quality), [group] + groups;
    assert all[1..] == groups && Leading(all, quality) == n + 1;
    assert all[..n + 1] == [group] + groups[..n] && all[n + 1..] == groups[n..];
    assert DomainSets(all[..n + 1]) == [DomainSet(group)] + DomainSets(groups[..n]);
  }

  lemma {:induction false} TakeNone(groups: seq<seq<ValidatorEntry>>, quality: Quality)
    requires groups != [] ==> groups[0] != [] && groups[0][0].quality != quality
    ensures Takes([], groups, groups, quality)
  {
    assert DomainSets(groups[..0]) == [] && groups[0..] == groups;
  }

  lemma {:induction false} FirstOfGroups(todo: seq<ValidatorEntry>, i: nat)
    requires i < |todo|
    ensures Groups(todo, i) != [] && Groups(todo, i)[0] != [] && Groups(todo, i)[0][0] == todo[i]
  {
  }

  lemma {:induction false} TierTakesLeading(todo: seq<ValidatorEntry>, i: nat, quality: Quality)
    requires i <= |todo| && BuildTier(todo, i, quality).Ok?
    ensures var t := BuildTier(todo, i, quality).value;
            Takes(t.domainSets, Groups(todo, i), Groups(todo, t.end), quality)
    decreases |todo| - i
  {
    if i < |todo| && todo[i].quality == quality {
      var j := TierStep(todo, i, quality);
      TierTakesLeading(todo, j, quality);
      var below := BuildTier(todo, j, quality).value;
      TakeOneMore(todo[i..j], Groups(todo, j), below.domainSets, Groups(todo, below.end), quality);
    } else {
      if i < |todo| {
        FirstOfGroups(todo, i);
      }
      assert BuildTier(todo, i, quality).value == Tier([], i);
      TakeNone(Groups(todo, i), quality);
    }
  }

  lemma {:induction false} TiersHoldGroups(todo: seq<ValidatorEntry>, from: nat, quality: Quality)
    requires from <= |todo| && BuildTiers(todo, from, quality).Ok?
    ensures HoldsGroups(BuildTiers(todo, from, quality).value, quality, Groups(todo, from))
    decreases quality.Rank()
  {
    TierTakesLeading(todo, from, quality);
    var t, groups := BuildTier(todo, from, quality).value, Groups(todo, from);
    if t.end < |todo| {
      FirstOfGroups(todo, t.end);
      TiersHoldGroups(todo, t.end, todo[t.end].quality);
      var low := BuildTiers(todo, t.end, todo[t.end].quality).value;
      AboveLower(t.domainSets, low, groups, Groups(todo, t.end), quality);
    } else {
      Lowest(t.domainSets, groups, quality);
    }
  }

  lemma {:induction false} Lowest(sets: seq<QuorumSetConfig>, groups: seq<seq<ValidatorEntry>>, quality: Quality)
    requires Takes(sets, groups, [], quality)
    ensures HoldsGroups(QuorumSetConfig(TierPercent(quality), [], sets), quality, groups)
  {
    var n := Leading(groups, quality);
    assert |groups[n..]| == |groups| - n;
    assert groups[..n] == groups;
  }

  lemma {:induction false} AboveLower(sets: seq<QuorumSetConfig>, low: QuorumSetConfig,
                                      groups: seq<seq<ValidatorEntry>>, rest: seq<seq<ValidatorEntry>>,
                                      quality: Quality)
    requires Takes(sets, groups, rest, quality) && rest != [] && rest[0] != []
    requires rest[0][0].quality.Rank() < quality.Rank() && HoldsGroups(low, rest[0][0].quality, rest)
    ensures HoldsGroups(QuorumSetConfig(TierPercent(quality), [], sets + [low]), quality, groups)
  {
    var n := Leading(groups, quality);
    assert |groups[n..]| == |groups| - n && groups[n] == rest[0];
    assert (sets + [low])[..n] == sets && (sets + [low])[n] == low;
  }

  lemma {:induction false} GroupsByQuality(todo: seq<ValidatorEntry>, i: nat)
    requires i <= |todo| && Descending(todo)
    ensures ByQuality(Groups(todo, i))
    ensures forall m :: 0 <= m < |Groups(todo, i)| ==>
              Groups(todo, i)[m] != [] && i < |todo| && todo[i].quality.Rank() >= Groups(todo, i)[m][0].quality.Rank()
    decreases |todo| - i
  {
    if i < |todo| {
      var j := PairEnd(todo, i + 1, todo[i]);
      GroupsByQuality(todo, j);
      var group: seq<ValidatorEntry>, groups: seq<seq<ValidatorEntry>> := todo[i..j], Groups(todo, j);
      assert group[0] == todo[i];
      forall m | 0 <= m < |groups|
        ensures todo[i].quality.Rank() >= groups[m][0].quality.Rank()
      {
        assert todo[i].quality.Rank() >= todo[j].quality.Rank();
      }
    }
  }

  /** Among groups of descending quality the leading ones are all those of the tier's quality. */
  lemma {:induction false} LeadingIsAll(groups: seq<seq<ValidatorEntry>>, quality: Quality)
    requires ByQuality(groups) && forall m :: 0 <= m < |groups| ==> groups[m] != []
    requires forall m :: 0 <= m < |groups| ==> !Worse(quality, groups[m][0].quality)
    ensures forall m :: 0 <= m < |groups| ==> (m < Leading(groups, quality) <==> groups[m][0].quality == quality)
  {
    var n := Leading(groups, quality);
    forall m | n <= m < |groups|
      ensures groups[m][0].quality != quality
    {
      assert n < m ==> groups[n][0].quality.Rank() >= groups[m][0].quality.Rank();
    }
  }

  // ----- Main results -------------------------------------------------------------------

  lemma {:induction false} SortedTodo(entries: seq<ValidatorEntry>)
    ensures var todo := SortBy(entries, EntryLe);
            Sorted(todo, EntryLe) && Descending(todo) && multiset(todo) == multiset(entries) && |todo| == |entries|
  {
    EntryLeIsPreorder();
    SortSorts(entries, EntryLe);
    SortPermutes(entries, EntryLe);
    assert |SortBy(entries, EntryLe)| == |multiset(SortBy(entries, EntryLe))| == |multiset(entries)|;
  }

  /** The groups of the sorted entries are the pairs of the input, in input order. */
  lemma {:induction false} InputGroups(entries: seq<ValidatorEntry>) returns (groups: seq<seq<ValidatorEntry>>)
    ensures groups == Groups(SortBy(entries, EntryLe), 0)
    ensures forall m :: 0 <= m < |groups| ==> groups[m] != [] && groups[m] == OfPair(entries, groups[m][0])
    ensures forall m, n :: 0 <= m < n < |groups| && groups[m] != [] && groups[n] != [] ==>
              !SamePair(groups[m][0], groups[n][0])
    ensures multiset(Concat(groups)) == multiset(entries)
  {
    var todo := SortBy(entries, EntryLe);
    SortedTodo(entries);
    GroupsArePairs(todo, 0);
    groups := Groups(todo, 0);
    assert todo[0..] == todo;
    forall m | 0 <= m < |groups|
      ensures groups[m] == OfPair(entries, groups[m][0])
    {
      SortIsStable(entries, groups[m][0]);
    }
  }

  lemma {:induction false} OfPairMembers(s: seq<ValidatorEntry>, e: ValidatorEntry)
    ensures forall x :: x in OfPair(s, e) ==> SamePair(x, e)
  {
    if s == [] {
    } else {
      OfPairMembers(s[1..], e);
    }
  }

  lemma {:induction false} OfPairOfPair(s: seq<ValidatorEntry>, a: ValidatorEntry, b: ValidatorEntry)
    requires SamePair(a, b)
    ensures OfPair(s, a) == OfPair(s, b)
  {
    if s == [] {
    } else {
      OfPairOfPair(s[1..], a, b);
    }
  }

  lemma {:induction false} GroupOf(groups: seq<seq<ValidatorEntry>>, e: ValidatorEntry) returns (m: nat)
    requires e in Concat(groups)
    ensures m < |groups| && e in groups[m]
  {
    if e in groups[0] {
      m := 0;
    } else {
      m := GroupOf(groups[1..], e);
      m := m + 1;
    }
  }

  predicate DomainsAreRedundant(entries: seq<ValidatorEntry>) {
    forall e :: e in entries && (e.quality == High || e.quality == Critical) ==> |OfPair(entries, e)| >= 3
  }

  ghost predicate PairsOf(groups: seq<seq<ValidatorEntry>>, entries: seq<ValidatorEntry>) {
    && multiset(Concat(groups)) == multiset(entries)
    && forall m :: 0 <= m < |groups| ==> groups[m] != [] && groups[m] == OfPair(entries, groups[m][0])
  }

  lemma {:induction false} SizeOfPair(entries: seq<ValidatorEntry>, groups: seq<seq<ValidatorEntry>>, e: ValidatorEntry)
    requires PairsOf(groups, entries) && GroupsAreRedundant(groups)
    requires e in entries && e.quality.NeedsRedundancy()
    ensures |OfPair(entries, e)| >= 3
  {
    assert e in multiset(Concat(groups));
    var m := GroupOf(groups, e);
    OfPairMembers(entries, groups[m][0]);
    OfPairOfPair(entries, groups[m][0], e);
    assert groups[m] in groups;
  }

  lemma {:induction false} SizeOfGroup(entries: seq<ValidatorEntry>, groups: seq<seq<ValidatorEntry>>, m: nat)
    requires PairsOf(groups, entries) && DomainsAreRedundant(entries)
    requires m < |groups| && groups[m][0].quality.NeedsRedundancy()
    ensures |groups[m]| >= 3
  {
    var e := groups[m][0];
    assert e in groups[m];
    GroupMembers(groups, m);
    assert e in Concat(groups);
    assert e in multiset(Concat(groups));
    assert e in entries;
  }

  lemma {:induction false} RedundancyOfInput(entries: seq<ValidatorEntry>, groups: seq<seq<ValidatorEntry>>)
    requires PairsOf(groups, entries)
    ensures GroupsAreRedundant(groups) <==> DomainsAreRedundant(entries)
  {
    if GroupsAreRedundant(groups) {
      forall e | e in entries && e.quality.NeedsRedundancy()
        ensures |OfPair(entries, e)| >= 3
      {
        SizeOfPair(entries, groups, e);
      }
    }
    if DomainsAreRedundant(entries) {
      forall g: seq<ValidatorEntry> | g in groups && g != [] && g[0].quality.NeedsRedundancy()
        ensures |g| >= 3
      {
        var m :| 0 <= m < |groups| && groups[m] == g;
        SizeOfGroup(entries, groups, m);
      }
    }
  }

  /** Generation succeeds exactly when every High or Critical domain lists three validators
      and no two neighbours in the sorted order share a home domain but not a quality. The
      "must be ascending" error never occurs. */
  lemma {:induction false} GenerateAccepts(entries: seq<ValidatorEntry>)
    ensures Generate(entries).Ok? <==>
              NeighboursAgree(SortBy(entries, EntryLe), 0) && DomainsAreRedundant(entries)
    ensures Generate(entries).Err? ==> !Generate(entries).error.NotAscending?
  {
    SortedTodo(entries);
    BuildTiersAccepts(SortBy(entries, EntryLe), 0, Critical);
    var groups := InputGroups(entries);
    RedundancyOfInput(entries, groups);
  }

  /** The generated tree: tiers of domain sets by descending quality, one domain set per (quality, home
      domain) pair, listing exactly that pair's keys in input order, in the tier of its quality. */
  lemma {:induction false} GeneratedShape(entries: seq<ValidatorEntry>) returns (groups: seq<seq<ValidatorEntry>>)
    requires entries != [] && Generate(entries).Ok?
    ensures TierShaped(Generate(entries).value, Critical)
    ensures HoldsGroups(Generate(entries).value, Critical, groups) && ByQuality(groups)
    ensures DomainKeys(Generate(entries).value) == GroupKeys(groups)
    ensures forall m :: 0 <= m < |groups| ==>
              groups[m] != [] && groups[m] == OfPair(entries, groups[m][0])
              && (groups[m][0].quality.NeedsRedundancy() ==> |groups[m]| >= 3)
    ensures forall m, n :: 0 <= m < n < |groups| && groups[m] != [] && groups[n] != [] ==>
              !SamePair(groups[m][0], groups[n][0])
    ensures multiset(Concat(groups)) == multiset(entries)
  {
    var todo := SortBy(entries, EntryLe);
    SortedTodo(entries);
    TiersFollowGroups(todo, 0, Critical);
    TiersHoldGroups(todo, 0, Critical);
    GroupsByQuality(todo, 0);
    BuildTiersAccepts(todo, 0, Critical);
    groups := InputGroups(entries);
    assert forall m :: 0 <= m < |groups| ==> groups[m] in groups;
  }

  lemma {:induction false} KeysOfConcat(groups: seq<seq<ValidatorEntry>>)
    ensures Concat(GroupKeys(groups)) == Keys(Concat(groups))
  {
    if groups == [] {
    } else {
      KeysOfConcat(groups[1..]);
      var keys := GroupKeys(groups);
      assert keys[0] == Keys(groups[0]) && keys[1..] == GroupKeys(groups[1..]);
    }
  }

  lemma {:induction false} KeysOfInsert(x: ValidatorEntry, s: seq<ValidatorEntry>)
    ensures multiset(Keys(Insert(x, s, EntryLe))) == multiset{x.key} + multiset(Keys(s))
  {
    if s == [] || EntryLe(x, s[0]) {
      assert Keys([x] + s) == [x.key] + Keys(s);
    } else {
      KeysOfInsert(x, s[1..]);
      assert Keys([s[0]] + Insert(x, s[1..], EntryLe)) == [s[0].key] + Keys(Insert(x, s[1..], EntryLe));
      assert Keys(s) == [s[0].key] + Keys(s[1..]);
    }
  }

  lemma {:induction false} KeysOfSort(s: seq<ValidatorEntry>)
    ensures multiset(Keys(SortBy(s, EntryLe))) == multiset(Keys(s))
  {
    if s == [] {
      assert Keys(SortBy(s, EntryLe)) == Keys(s);
    } else {
      KeysOfSort(s[1..]);
      KeysOfInsert(s[0], SortBy(s[1..], EntryLe));
      assert Keys(s) == [s[0].key] + Keys(s[1..]);
    }
  }

  /** No key is lost or invented. */
  lemma {:induction false} GeneratedLeaves(entries: seq<ValidatorEntry>)
    requires entries != [] && Generate(entries).Ok?
    ensures multiset(Concat(DomainKeys(Generate(entries).value))) == multiset(Keys(entries))
  {
    var todo := SortBy(entries, EntryLe);
    SortedTodo(entries);
    TiersFollowGroups(todo, 0, Critical);
    GroupsArePairs(todo, 0);
    assert todo[0..] == todo;
    KeysOfConcat(Groups(todo, 0));
    KeysOfSort(entries);
  }

  /** Quorum intersection for generated sets: whatever the entries, any two node sets that
      satisfy the converted set share a node. */
  lemma {:induction false} GeneratedIntersection(entries: seq<ValidatorEntry>, parse: KeyParser, orders: Orders,
                                                 a: set<NodeId>, b: set<NodeId>)
    requires Generate(entries).Ok?
    requires var r := ToXdr(Generate(entries).value, parse, orders);
             r.Ok? && Satisfied(r.value, a) && Satisfied(r.value, b)
    ensures a * b * Leaves(Generate(entries).value, parse) != {}
  {
    NothingToConvert(parse, orders);
    SortedTodo(entries);
    TiersFollowGroups(SortBy(entries, EntryLe), 0, Critical);
    QuorumIntersection(Generate(entries).value, parse, orders, a, b);
  }

  lemma {:induction false} NothingToConvert(parse: KeyParser, orders: Orders)
    ensures Generate([]).Ok? && ToXdr(Generate([]).value, parse, orders) == Err(NoEntries)
  {
    assert SortBy([], EntryLe) == [];
  }
}
