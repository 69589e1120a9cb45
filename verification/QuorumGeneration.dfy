/**
 Building a hierarchical quorum set from validator entries: one simple-majority set per home
 domain, tier below tier by quality.
 */
module QuorumGeneration {
  import opened Common
  import opened Sorting
  import opened QuorumSets

  datatype Quality = Low | Medium | High | Critical {
    function Rank(): nat {
      match this
      case Low => 0
      case Medium => 1
      case High => 2
      case Critical => 3
    }

    /** Domains of this quality must list at least three validators. */
    predicate NeedsRedundancy() {
      High? || Critical?
    }
  }

  datatype ValidatorEntry = ValidatorEntry(key: string, name: string, homeDomain: string, quality: Quality)

  datatype GenerateError =
    | MixedQuality(first: string, second: string)
    | TooFewValidators(homeDomain: string)
    | NotAscending(name: string)

  // ----- Sort order -------------------------------------------------------------------

  predicate StringLe(a: string, b: string) {
    a == [] || (b != [] && (a[0] < b[0] || (a[0] == b[0] && StringLe(a[1..], b[1..]))))
  }

  /** Quality descending, then home domain ascending. */
  predicate EntryLe(a: ValidatorEntry, b: ValidatorEntry) {
    a.quality.Rank() > b.quality.Rank()
    || (a.quality == b.quality && StringLe(a.homeDomain, b.homeDomain))
  }

  lemma {:induction false} StringLeTotal(a: string, b: string)
    ensures StringLe(a, b) || StringLe(b, a)
    ensures StringLe(a, b) && StringLe(b, a) ==> a == b
  {
    if a != [] && b != [] && a[0] == b[0] {
      StringLeTotal(a[1..], b[1..]);
      assert a == [a[0]] + a[1..] && b == [b[0]] + b[1..];
    }
  }

  lemma {:induction false} StringLeTransitive(a: string, b: string, c: string)
    requires StringLe(a, b) && StringLe(b, c)
    ensures StringLe(a, c)
  {
    if a != [] && a[0] == b[0] == c[0] {
      StringLeTransitive(a[1..], b[1..], c[1..]);
    }
  }

  lemma {:induction false} EntryLeIsPreorder()
    ensures TotalPreorder(EntryLe)
  {
    forall a, b
      ensures EntryLe(a, b) || EntryLe(b, a)
    {
      StringLeTotal(a.homeDomain, b.homeDomain);
    }
    forall a, b, c | EntryLe(a, b) && EntryLe(b, c)
      ensures EntryLe(a, c)
    {
      if a.quality == b.quality == c.quality {
        StringLeTransitive(a.homeDomain, b.homeDomain, c.homeDomain);
      }
    }
  }

  predicate SamePair(a: ValidatorEntry, b: ValidatorEntry) {
    a.quality == b.quality && a.homeDomain == b.homeDomain
  }

  // ----- Construction -----------------------------------------------------------------
  //
  // `todo` is the sorted vector; a subslice of it is its start position.

  function Keys(s: seq<ValidatorEntry>): (keys: seq<string>)
    ensures |keys| == |s|
    ensures forall i :: 0 <= i < |s| ==> keys[i] == s[i].key
  {
    seq(|s|, i requires 0 <= i < |s| => s[i].key)
  }

  /** End of the run of entries with this home domain. */
  function RunEnd(todo: seq<ValidatorEntry>, i: nat, homeDomain: string): (j: nat)
    requires i <= |todo|
    ensures i <= j <= |todo|
    ensures forall k :: i <= k < j ==> todo[k].homeDomain == homeDomain
    ensures j < |todo| ==> todo[j].homeDomain != homeDomain
    decreases |todo| - i
  {
    if i == |todo| || todo[i].homeDomain != homeDomain then i else RunEnd(todo, i + 1, homeDomain)
  }

  /** First position in todo[i..j] of another quality, or `j`. */
  function FirstOther(todo: seq<ValidatorEntry>, i: nat, j: nat, quality: Quality): (m: nat)
    requires i <= j <= |todo|
    ensures i <= m <= j
    ensures forall k :: i <= k < m ==> todo[k].quality == quality
    ensures m < j ==> todo[m].quality != quality
    decreases j - i
  {
    if i == j || todo[i].quality != quality then i else FirstOther(todo, i + 1, j, quality)
  }

  function DomainSet(run: seq<ValidatorEntry>): QuorumSetConfig {
    QuorumSetConfig(51, Keys(run), [])
  }

  function TierPercent(quality: Quality): nat {
    if quality == Critical then 100 else 67
  }

  /** Where the home domain group starting at `i` ends, or why it is rejected. */
  function DomainEnd(todo: seq<ValidatorEntry>, i: nat, quality: Quality): (r: Result<nat, GenerateError>)
    requires i < |todo| && todo[i].quality == quality
    ensures r.Ok? ==> i < r.value <= |todo|
    ensures r.Err? ==> !r.error.NotAscending?
  {
    var j := RunEnd(todo, i, todo[i].homeDomain);
    var m := FirstOther(todo, i, j, quality);
    if m < j then Err(MixedQuality(todo[i].name, todo[m].name))
    else if j - i < 3 && quality.NeedsRedundancy() then Err(TooFewValidators(todo[i].homeDomain))
    else Ok(j)
  }

  /** The domain sets of one tier and where the tier ends. */
  datatype Tier = Tier(domainSets: seq<QuorumSetConfig>, end: nat)

  function BuildTier(todo: seq<ValidatorEntry>, i: nat, quality: Quality): (r: Result<Tier, GenerateError>)
    requires i <= |todo|
    ensures r.Ok? ==> i <= r.value.end <= |todo|
    ensures r.Ok? && r.value.end < |todo| ==> todo[r.value.end].quality != quality
    ensures r.Err? ==> !r.error.NotAscending?
    decreases |todo| - i
  {
    if i == |todo| || todo[i].quality != quality then Ok(Tier([], i))
    else
      match DomainEnd(todo, i, quality)
      case Err(e) => Err(e)
      case Ok(j) =>
        match BuildTier(todo, j, quality)
        case Err(e) => Err(e)
        case Ok(t) => Ok(Tier([DomainSet(todo[i..j])] + t.domainSets, t.end))
  }

  /** Terminates because the quality drops even when the entries do not shrink. */
  function BuildTiers(todo: seq<ValidatorEntry>, from: nat, quality: Quality): Result<QuorumSetConfig, GenerateError>
    requires from <= |todo|
    decreases quality.Rank()
  {
    match BuildTier(todo, from, quality)
    case Err(e) => Err(e)
    case Ok(t) =>
      if t.end == |todo| then Ok(QuorumSetConfig(TierPercent(quality), [], t.domainSets))
      else if todo[t.end].quality.Rank() > quality.Rank() then Err(NotAscending(todo[t.end].name))
      else
        match BuildTiers(todo, t.end, todo[t.end].quality)
        case Err(e) => Err(e)
        case Ok(low) => Ok(QuorumSetConfig(TierPercent(quality), [], t.domainSets + [low]))
  }

  function Generate(entries: seq<ValidatorEntry>): Result<QuorumSetConfig, GenerateError> {
    BuildTiers(SortBy(entries, EntryLe), 0, Critical)
  }

  /** `innerSets` are the tier's domain sets found before position `i`. */
  ghost predicate Built(todo: seq<ValidatorEntry>, from: nat, i: nat, quality: Quality,
                        innerSets: seq<QuorumSetConfig>)
    requires from <= i <= |todo|
  {
    match BuildTier(todo, i, quality)
    case Err(e) => BuildTier(todo, from, quality) == Err(e)
    case Ok(t) => BuildTier(todo, from, quality) == Ok(Tier(innerSets + t.domainSets, t.end))
  }

  lemma {:induction false} NothingBuilt(todo: seq<ValidatorEntry>, from: nat, quality: Quality)
    requires from <= |todo|
    ensures Built(todo, from, from, quality, [])
  {
    var r := BuildTier(todo, from, quality);
    assert r.Ok? ==> [] + r.value.domainSets == r.value.domainSets;
  }

  lemma {:induction false} DomainBuilt(todo: seq<ValidatorEntry>, from: nat, i: nat, j: nat, quality: Quality,
                                       innerSets: seq<QuorumSetConfig>)
    requires from <= i < |todo| && todo[i].quality == quality && DomainEnd(todo, i, quality) == Ok(j)
    requires Built(todo, from, i, quality, innerSets)
    ensures Built(todo, from, j, quality, innerSets + [DomainSet(todo[i..j])])
  {
    var tail, domainSet := BuildTier(todo, j, quality), DomainSet(todo[i..j]);
    assert tail.Ok? ==>
        innerSets + ([domainSet] + tail.value.domainSets) == innerSets + [domainSet] + tail.value.domainSets;
  }

  /** The inner loop: `j` walks one home domain from `i` and collects its keys. */
  method CollectDomain(todo: seq<ValidatorEntry>, i: nat, curQuality: Quality)
    returns (r: Result<nat, GenerateError>, innerValidators: seq<string>)
    requires i < |todo| && todo[i].quality == curQuality
    ensures r == DomainEnd(todo, i, curQuality)
    ensures r.Ok? ==> innerValidators == Keys(todo[i..r.value])
  {
    var domain := todo[i].homeDomain;
    innerValidators := [];
    var j := i;
    while j < |todo| && todo[j].homeDomain == domain
      invariant i <= j <= |todo| && innerValidators == Keys(todo[i..j])
      invariant RunEnd(todo, i, domain) == RunEnd(todo, j, domain)
      invariant forall k :: i <= k < j ==> todo[k].quality == curQuality
      decreases |todo| - j
    {
      if todo[j].quality != todo[i].quality {
        assert FirstOther(todo, i, RunEnd(todo, i, domain), curQuality) == j;
        return Err(MixedQuality(todo[i].name, todo[j].name)), [];
      }
      innerValidators := innerValidators + [todo[j].key];
      j := j + 1;
    }
    assert FirstOther(todo, i, j, curQuality) == j;
    if |innerValidators| < 3 && (todo[i].quality == High || todo[i].quality == Critical) {
      return Err(TooFewValidators(domain)), [];
    }
    r := Ok(j);
  }

  /** The construction as it runs: `i` walks the tier one home domain at a time. */
  method GenerateHelper(todo: seq<ValidatorEntry>, from: nat, curQuality: Quality)
    returns (r: Result<QuorumSetConfig, GenerateError>)
    requires from <= |todo|
    ensures r == BuildTiers(todo, from, curQuality)
    decreases curQuality.Rank()
  {
    var innerSets: seq<QuorumSetConfig> := [];
    var i := from;
    NothingBuilt(todo, from, curQuality);
    while i < |todo| && todo[i].quality == curQuality
      invariant from <= i <= |todo| && Built(todo, from, i, curQuality, innerSets)
      decreases |todo| - i
    {
      var end, innerValidators := CollectDomain(todo, i, curQuality);
      if end.Err? {
        return Err(end.error);
      }
      DomainBuilt(todo, from, i, end.value, curQuality, innerSets);
      innerSets := innerSets + [QuorumSetConfig(51, innerValidators, [])];
      i := end.value;
    }
    assert innerSets + [] == innerSets;
    if i < |todo| {
      if todo[i].quality.Rank() > curQuality.Rank() {
        return Err(NotAscending(todo[i].name));
      }
      var low := GenerateHelper(todo, i, todo[i].quality);
      if low.Err? {
        return low;
      }
      innerSets := innerSets + [low.value];
    }
    r := Ok(QuorumSetConfig(if curQuality == Critical then 100 else 67, [], innerSets));
  }

  method GenerateQuorumSet(entries: seq<ValidatorEntry>) returns (r: Result<QuorumSetConfig, GenerateError>)
    ensures r == Generate(entries)
  {
    r := GenerateHelper(SortBy(entries, EntryLe), 0, Critical);
  }

  // ----- Which inputs are accepted ------------------------------------------------------

  /** End of the run of entries with the quality and home domain of `e`. */
  function PairEnd(todo: seq<ValidatorEntry>, i: nat, e: ValidatorEntry): (j: nat)
    requires i <= |todo|
    ensures i <= j <= |todo|
    ensures forall k :: i <= k < j ==> SamePair(todo[k], e)
    ensures j < |todo| ==> !SamePair(todo[j], e)
    decreases |todo| - i
  {
    if i == |todo| || !SamePair(todo[i], e) then i else PairEnd(todo, i + 1, e)
  }

  /** The entries from `i` on, cut into maximal runs of one quality and home domain. */
  function Groups(todo: seq<ValidatorEntry>, i: nat): seq<seq<ValidatorEntry>>
    requires i <= |todo|
    decreases |todo| - i
  {
    if i == |todo| then [] else var j := PairEnd(todo, i + 1, todo[i]); [todo[i..j]] + Groups(todo, j)
  }

  /** Neighbours of one home domain agree on the quality. */
  predicate NeighboursAgree(todo: seq<ValidatorEntry>, from: nat) {
    forall i :: from <= i < |todo| - 1 && todo[i].homeDomain == todo[i + 1].homeDomain
      ==> todo[i].quality == todo[i + 1].quality
  }

  predicate GroupsAreRedundant(groups: seq<seq<ValidatorEntry>>) {
    forall g: seq<ValidatorEntry> :: g in groups && g != [] && g[0].quality.NeedsRedundancy() ==> |g| >= 3
  }

  predicate Acceptable(todo: seq<ValidatorEntry>, from: nat)
    requires from <= |todo|
  {
    NeighboursAgree(todo, from) && GroupsAreRedundant(Groups(todo, from))
  }

  lemma {:induction false} MixedIsUnacceptable(todo: seq<ValidatorEntry>, i: nat, j: nat, m: nat)
    requires i < m < j <= |todo|
    requires forall k :: i <= k < j ==> todo[k].homeDomain == todo[i].homeDomain
    requires todo[m - 1].quality != todo[m].quality
    ensures !NeighboursAgree(todo, i)
  {
    assert todo[m - 1].homeDomain == todo[m - 1 + 1].homeDomain;
  }

  lemma {:induction false} PairEndIs(todo: seq<ValidatorEntry>, i: nat, j: nat)
    requires i < j <= |todo|
    requires forall k :: i <= k < j ==> SamePair(todo[k], todo[i])
    requires j < |todo| ==> todo[j].homeDomain != todo[i].homeDomain
    ensures Groups(todo, i) == [todo[i..j]] + Groups(todo, j)
    ensures NeighboursAgree(todo, i) <==> NeighboursAgree(todo, j)
  {
    assert PairEnd(todo, i + 1, todo[i]) == j;
  }

  lemma {:induction false} FirstGroupRedundant(group: seq<ValidatorEntry>, groups: seq<seq<ValidatorEntry>>)
    requires group != []
    ensures GroupsAreRedundant([group] + groups)
            <==> (group[0].quality.NeedsRedundancy() ==> |group| >= 3) && GroupsAreRedundant(groups)
  {
    assert forall g :: g in [group] + groups <==> g == group || g in groups;
  }

  /** A home domain group is rejected only in unacceptable input, and dropping an accepted
      group does not change acceptability. */
  lemma {:induction false} DomainEndAccepts(todo: seq<ValidatorEntry>, i: nat, quality: Quality)
    requires i < |todo| && todo[i].quality == quality
    ensures match DomainEnd(todo, i, quality)
            case Err(_) => !Acceptable(todo, i)
            case Ok(j) => Acceptable(todo, i) <==> Acceptable(todo, j)
  {
    var j := RunEnd(todo, i, todo[i].homeDomain);
    var m := FirstOther(todo, i, j, quality);
    if m < j {
      MixedIsUnacceptable(todo, i, j, m);
    } else {
      PairEndIs(todo, i, j);
      FirstGroupRedundant(todo[i..j], Groups(todo, j));
    }
  }

  lemma {:induction false} BuildTierAccepts(todo: seq<ValidatorEntry>, i: nat, quality: Quality)
    requires i <= |todo|
    ensures var r := BuildTier(todo, i, quality);
            r.Ok? && Acceptable(todo, r.value.end) <==> Acceptable(todo, i)
    decreases |todo| - i
  {
    if i < |todo| && todo[i].quality == quality {
      DomainEndAccepts(todo, i, quality);
      var r := DomainEnd(todo, i, quality);
      if r.Ok? {
        BuildTierAccepts(todo, r.value, quality);
      }
    }
  }

  predicate Descending(todo: seq<ValidatorEntry>) {
    forall i, j :: 0 <= i < j < |todo| ==> todo[i].quality.Rank() >= todo[j].quality.Rank()
  }

  lemma {:induction false} BuildTiersAccepts(todo: seq<ValidatorEntry>, from: nat, quality: Quality)
    requires from <= |todo| && Descending(todo)
    requires from < |todo| ==> todo[from].quality.Rank() <= quality.Rank()
    ensures BuildTiers(todo, from, quality).Ok? <==> Acceptable(todo, from)
    ensures BuildTiers(todo, from, quality).Err? ==> !BuildTiers(todo, from, quality).error.NotAscending?
    decreases quality.Rank()
  {
    BuildTierAccepts(todo, from, quality);
    var r := BuildTier(todo, from, quality);
    if r.Ok? && r.value.end < |todo| {
      BuildTiersAccepts(todo, r.value.end, todo[r.value.end].quality);
    }
  }
}
