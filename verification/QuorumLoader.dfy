/** Loading a configured quorum set from nested tables, and printing one back. */
module QuorumLoader {
  import opened Common
  import opened QuorumSets

  datatype TomlValue =
    | Integer(value: int)
    | Text(text: string)
    | Array(items: seq<TomlValue>)
    | Table(entries: seq<TomlEntry>)
    | Other

  /** A table is its entries in iteration order. */
  datatype TomlEntry = TomlEntry(key: string, value: TomlValue)

  /** What NODE_SEED gives for the node's own key. */
  datatype NodeSeed = NoSeed | BadSeed | Seed(publicKey: string)

  datatype LoadError =
    | TooManyLevels
    | InvalidThreshold
    | NotStrings
    | SeedNotSet
    | SeedInvalid
    | NotAGroup(key: string)
    | NoDefinition
    | InGroup(key: string, error: LoadError)

  const MAXIMUM_QUORUM_NESTING_LEVEL: nat := 4
  const DEFAULT_THRESHOLD_PERCENT: nat := 67
  const THRESHOLD_PERCENT := "THRESHOLD_PERCENT"
  const VALIDATORS := "VALIDATORS"

  predicate IsWhitespace(c: char) {
    '\t' <= c <= '\r' || c == ' ' || c == '\U{0085}' || c == '\U{00A0}' || c == '\U{1680}'
    || '\U{2000}' <= c <= '\U{200A}' || c == '\U{2028}' || c == '\U{2029}' || c == '\U{202F}'
    || c == '\U{205F}' || c == '\U{3000}'
  }

  /** The characters before the first whitespace. */
  function TakeToken(s: string): string {
    if s == [] || IsWhitespace(s[0]) then [] else [s[0]] + TakeToken(s[1..])
  }

  function SkipWhitespace(s: string): string {
    if s != [] && IsWhitespace(s[0]) then SkipWhitespace(s[1..]) else s
  }

  /** The first whitespace-delimited token; the string itself when it has none. */
  function FirstToken(s: string): string {
    var rest := SkipWhitespace(s);
    if rest == [] then s else TakeToken(rest)
  }

  function ResolveKey(s: string, seed: NodeSeed): Result<string, LoadError> {
    if s != "$self" then Ok(FirstToken(s))
    else match seed
      case NoSeed => Err(SeedNotSet)
      case BadSeed => Err(SeedInvalid)
      case Seed(publicKey) => Ok(publicKey)
  }

  function ResolveKeys(items: seq<TomlValue>, seed: NodeSeed): Result<seq<string>, LoadError> {
    if items == [] then Ok([])
    else if !items[0].Text? then Err(NotStrings)
    else match ResolveKey(items[0].text, seed)
      case Err(e) => Err(e)
      case Ok(key) =>
        match ResolveKeys(items[1..], seed)
        case Err(e) => Err(e)
        case Ok(rest) => Ok([key] + rest)
  }

  predicate AllText(items: seq<TomlValue>) {
    forall i :: 0 <= i < |items| ==> items[i].Text?
  }

  function LoadKeys(value: TomlValue, seed: NodeSeed): Result<seq<string>, LoadError> {
    if !value.Array? || !AllText(value.items) then Err(NotStrings) else ResolveKeys(value.items, seed)
  }

  /** Loads the remaining entries of a table on top of what its earlier entries gave. */
  function LoadEntries(entries: seq<TomlEntry>, level: nat, seed: NodeSeed, acc: QuorumSetConfig)
    : Result<QuorumSetConfig, LoadError>
    decreases entries, 0
  {
    if entries == [] then
      if acc.validators == [] && acc.innerSets == [] then Err(NoDefinition) else Ok(acc)
    else match LoadEntry(entries[0], level, seed, acc)
      case Err(e) => Err(e)
      case Ok(next) => LoadEntries(entries[1..], level, seed, next)
  }

  function LoadEntry(entry: TomlEntry, level: nat, seed: NodeSeed, acc: QuorumSetConfig)
    : Result<QuorumSetConfig, LoadError>
    decreases entry, 0
  {
    if entry.key == THRESHOLD_PERCENT then
      if !entry.value.Integer? || entry.value.value <= 0 || entry.value.value > 100 then Err(InvalidThreshold)
      else Ok(acc.(thresholdPercent := entry.value.value))
    else if entry.key == VALIDATORS then
      match LoadKeys(entry.value, seed)
      case Err(e) => Err(e)
      case Ok(keys) => Ok(acc.(validators := acc.validators + keys))
    else if !entry.value.Table? then Err(NotAGroup(entry.key))
    else match LoadTable(entry.value.entries, level + 1, seed)
      case Err(e) => Err(InGroup(entry.key, e))
      case Ok(inner) => Ok(acc.(innerSets := acc.innerSets + [inner]))
  }

  function LoadTable(entries: seq<TomlEntry>, level: nat, seed: NodeSeed): Result<QuorumSetConfig, LoadError>
    decreases entries, 1
  {
    if level > MAXIMUM_QUORUM_NESTING_LEVEL then Err(TooManyLevels)
    else LoadEntries(entries, level, seed, QuorumSetConfig(DEFAULT_THRESHOLD_PERCENT, [], []))
  }

  /** `keys` are the first `i` resolved keys. */
  ghost predicate Resolved(items: seq<TomlValue>, i: nat, seed: NodeSeed, keys: seq<string>)
    requires i <= |items|
  {
    match ResolveKeys(items[i..], seed)
    case Err(e) => ResolveKeys(items, seed) == Err(e)
    case Ok(rest) => ResolveKeys(items, seed) == Ok(keys + rest)
  }

  lemma {:induction false} Associate<T>(a: seq<T>, b: seq<T>, c: seq<T>)
    ensures a + (b + c) == a + b + c
  {
  }

  lemma {:induction false} NothingResolved(items: seq<TomlValue>, seed: NodeSeed)
    ensures Resolved(items, 0, seed, [])
  {
    assert items[0..] == items;
    var r := ResolveKeys(items, seed);
    assert r.Ok? ==> [] + r.value == r.value;
  }

  lemma {:induction false} OneResolved(items: seq<TomlValue>, i: nat, seed: NodeSeed, keys: seq<string>)
    requires i < |items| && items[i].Text? && Resolved(items, i, seed, keys)
    ensures match ResolveKey(items[i].text, seed)
            case Err(e) => ResolveKeys(items, seed) == Err(e)
            case Ok(key) => Resolved(items, i + 1, seed, keys + [key])
  {
    assert items[i..][0] == items[i] && items[i..][1..] == items[i + 1..];
    var key, rest := ResolveKey(items[i].text, seed), ResolveKeys(items[i + 1..], seed);
    if key.Ok? && rest.Ok? {
      Associate(keys, [key.value], rest.value);
    }
  }

  /** The VALIDATORS loop: resolve every listed key, stopping at the first error. */
  method LoadKeysLoop(items: seq<TomlValue>, seed: NodeSeed) returns (r: Result<seq<string>, LoadError>)
    requires AllText(items)
    ensures r == ResolveKeys(items, seed)
  {
    var keys: seq<string> := [];
    NothingResolved(items, seed);
    for i := 0 to |items|
      invariant Resolved(items, i, seed, keys)
    {
      OneResolved(items, i, seed, keys);
      var key := ResolveKey(items[i].text, seed);
      if key.Err? {
        return Err(key.error);
      }
      keys := keys + [key.value];
    }
    assert keys + [] == keys;
    r := Ok(keys);
  }

  /** Loading as it runs: one loop over the table, recursing into its subtables. */
  method LoadQset(table: seq<TomlEntry>, level: nat, seed: NodeSeed) returns (r: Result<QuorumSetConfig, LoadError>)
    ensures r == LoadTable(table, level, seed)
    decreases table
  {
    if level > MAXIMUM_QUORUM_NESTING_LEVEL {
      return Err(TooManyLevels);
    }
    var acc := QuorumSetConfig(DEFAULT_THRESHOLD_PERCENT, [], []);
    assert table[0..] == table;
    for i := 0 to |table|
      invariant LoadTable(table, level, seed) == LoadEntries(table[i..], level, seed, acc)
    {
      var entry := table[i];
      assert table[i..][0] == entry && table[i..][1..] == table[i + 1..];
      if entry.key == THRESHOLD_PERCENT {
        if !entry.value.Integer? || entry.value.value <= 0 || entry.value.value > 100 {
          return Err(InvalidThreshold);
        }
        acc := acc.(thresholdPercent := entry.value.value);
      } else if entry.key == VALIDATORS {
        if !entry.value.Array? || !AllText(entry.value.items) {
          return Err(NotStrings);
        }
        var keys := LoadKeysLoop(entry.value.items, seed);
        if keys.Err? {
          return Err(keys.error);
        }
        acc := acc.(validators := acc.validators + keys.value);
      } else if !entry.value.Table? {
        return Err(NotAGroup(entry.key));
      } else {
        var inner := LoadQset(entry.value.entries, level + 1, seed);
        if inner.Err? {
          return Err(InGroup(entry.key, inner.error));
        }
        acc := acc.(innerSets := acc.innerSets + [inner.value]);
      }
    }
    assert table[|table|..] == [];
    if acc.validators == [] && acc.innerSets == [] {
      return Err(NoDefinition);
    }
    r := Ok(acc);
  }

  // ----- Printing -----------------------------------------------------------------------

  /** Names for the subtables of a table, by position. */
  type Names = nat -> string

  ghost predicate NamesAreFree(names: Names) {
    forall i :: names(i) != THRESHOLD_PERCENT && names(i) != VALIDATORS
  }

  function PrintKeys(keys: seq<string>): (items: seq<TomlValue>)
    ensures |items| == |keys| && AllText(items)
    ensures forall i :: 0 <= i < |keys| ==> items[i] == Text(keys[i])
  {
    seq(|keys|, i requires 0 <= i < |keys| => Text(keys[i]))
  }

  function PrintSets(sets: seq<QuorumSetConfig>, index: nat, names: Names): seq<TomlEntry>
    decreases sets
  {
    if sets == [] then []
    else [TomlEntry(names(index), Table(PrintTable(sets[0], names)))] + PrintSets(sets[1..], index + 1, names)
  }

  function PrintTable(c: QuorumSetConfig, names: Names): seq<TomlEntry>
    decreases c
  {
    [TomlEntry(THRESHOLD_PERCENT, Integer(c.thresholdPercent)),
     TomlEntry(VALIDATORS, Array(PrintKeys(c.validators)))]
    + PrintSets(c.innerSets, 0, names)
  }

  /** A key that loads as itself: not the self marker, and without whitespace (or nothing else). */
  predicate LoadsAsItself(key: string) {
    key != "$self"
    && ((forall i :: 0 <= i < |key| ==> !IsWhitespace(key[i]))
        || (forall i :: 0 <= i < |key| ==> IsWhitespace(key[i])))
  }

  /** Every node within the nesting limit, with entries, a proper percentage and plain keys. */
  predicate Printable(c: QuorumSetConfig, level: nat)
    decreases c
  {
    level <= MAXIMUM_QUORUM_NESTING_LEVEL
    && (c.validators != [] || c.innerSets != [])
    && 1 <= c.thresholdPercent <= 100
    && (forall i :: 0 <= i < |c.validators| ==> LoadsAsItself(c.validators[i]))
    && (forall i :: 0 <= i < |c.innerSets| ==> Printable(c.innerSets[i], level + 1))
  }

  /** Number of levels of the tree. */
  function Levels(c: QuorumSetConfig): nat
    decreases c
  {
    1 + DeepestLevels(c.innerSets)
  }

  function DeepestLevels(sets: seq<QuorumSetConfig>): nat
    decreases sets
  {
    if sets == [] then 0
    else var rest := DeepestLevels(sets[1..]); var first := Levels(sets[0]); if first > rest then first else rest
  }

  lemma {:induction false} TokenIsPrefix(s: string)
    ensures forall i :: 0 <= i < |TakeToken(s)| ==> !IsWhitespace(TakeToken(s)[i])
    ensures (forall i :: 0 <= i < |s| ==> !IsWhitespace(s[i])) ==> TakeToken(s) == s
  {
    if s == [] || IsWhitespace(s[0]) {
    } else {
      TokenIsPrefix(s[1..]);
      assert s == [s[0]] + s[1..];
    }
  }

  lemma {:induction false} SkipSpec(s: string)
    ensures |SkipWhitespace(s)| <= |s|
    ensures SkipWhitespace(s) == [] <==> forall i :: 0 <= i < |s| ==> IsWhitespace(s[i])
    ensures s != [] && !IsWhitespace(s[0]) ==> SkipWhitespace(s) == s
  {
    if s != [] && IsWhitespace(s[0]) {
      SkipSpec(s[1..]);
    }
  }

  lemma {:induction false} FirstTokenFixed(s: string)
    requires s != "$self"
    ensures FirstToken(s) == s <==> LoadsAsItself(s)
  {
    SkipSpec(s);
    TokenIsPrefix(SkipWhitespace(s));
  }

  lemma {:induction false} SkippedPrefix(s: string)
    ensures var i := |s| - |SkipWhitespace(s)|;
            0 <= i <= |s| && SkipWhitespace(s) == s[i..]
            && (forall k :: 0 <= k < i ==> IsWhitespace(s[k])) && (i < |s| ==> !IsWhitespace(s[i]))
  {
    if s != [] && IsWhitespace(s[0]) {
      SkippedPrefix(s[1..]);
      var i := |s| - |SkipWhitespace(s)|;
      assert s[1..][i - 1..] == s[i..];
      forall k | 0 <= k < i
        ensures IsWhitespace(s[k])
      {
        assert k > 0 ==> s[k] == s[1..][k - 1];
      }
    }
  }

  lemma {:induction false} TakenPrefix(s: string)
    ensures var j := |TakeToken(s)|;
            j <= |s| && TakeToken(s) == s[..j]
            && (forall k :: 0 <= k < j ==> !IsWhitespace(s[k])) && (j < |s| ==> IsWhitespace(s[j]))
  {
    if s != [] && !IsWhitespace(s[0]) {
      TakenPrefix(s[1..]);
      var j := |TakeToken(s)|;
      assert s[..j] == [s[0]] + s[1..][..j - 1];
      forall k | 0 <= k < j
        ensures !IsWhitespace(s[k])
      {
        assert k > 0 ==> s[k] == s[1..][k - 1];
      }
    }
  }

  /** The token is the maximal run without whitespace after the leading whitespace, from `i` to `j`; a
      string of nothing but whitespace is its own token. */
  lemma {:induction false} FirstTokenMeans(s: string) returns (i: nat, j: nat)
    ensures i <= j <= |s| && forall k :: 0 <= k < i ==> IsWhitespace(s[k])
    ensures if i == |s| then FirstToken(s) == s
            else i < j && FirstToken(s) == s[i..j] && (forall k :: i <= k < j ==> !IsWhitespace(s[k]))
                 && (j < |s| ==> IsWhitespace(s[j]))
  {
    var rest := SkipWhitespace(s);
    SkippedPrefix(s);
    TakenPrefix(rest);
    i := |s| - |rest|;
    j := i + |TakeToken(rest)|;
    assert rest[..j - i] == s[i..j];
    forall k | i <= k < j
      ensures !IsWhitespace(s[k])
    {
      assert s[k] == rest[k - i];
    }
    assert j < |s| ==> s[j] == rest[j - i];
  }

  /** A key with a common name after it is read as the key alone. */
  lemma {:induction false} KeyWithAlias(key: string, alias: string)
    requires key != [] && forall k :: 0 <= k < |key| ==> !IsWhitespace(key[k])
    ensures FirstToken(key + " " + alias) == key
  {
    var s := key + " " + alias;
    var i, j := FirstTokenMeans(s);
    assert s[0] == key[0] && s[|key|] == ' ' && IsWhitespace(' ');
    assert forall k :: 0 <= k < |key| ==> s[k] == key[k];
    assert s[..|key|] == key;
  }

  /** What a listed text stands for: the node's own key when it is the self marker, its token otherwise. */
  function Named(text: string, seed: NodeSeed): string
    requires text == "$self" ==> seed.Seed?
  {
    if text == "$self" then seed.publicKey else FirstToken(text)
  }

  predicate Nameable(text: string, seed: NodeSeed) {
    text == "$self" ==> seed.Seed?
  }

  /** A list of keys is read one by one; only a self marker without a usable seed fails, and the kind of
      failure tells a missing seed from a bad one. */
  lemma {:induction false} KeysReadExactly(items: seq<TomlValue>, seed: NodeSeed)
    requires AllText(items)
    ensures var r := ResolveKeys(items, seed);
            (r.Ok? <==> forall i :: 0 <= i < |items| ==> Nameable(items[i].text, seed))
            && (r.Ok? ==> |r.value| == |items|
                          && forall i :: 0 <= i < |items| ==> r.value[i] == Named(items[i].text, seed))
            && (r.Err? ==> r.error == if seed == NoSeed then SeedNotSet else SeedInvalid)
            && (r.Err? ==> !seed.Seed?)
  {
    if items != [] {
      KeysReadExactly(items[1..], seed);
    }
  }

  lemma {:induction false} KeyLoadsAsItself(key: string, seed: NodeSeed)
    requires seed.Seed? ==> seed.publicKey != "$self"
    ensures Nameable(key, seed) && Named(key, seed) == key <==> LoadsAsItself(key)
  {
    if key != "$self" {
      FirstTokenFixed(key);
    }
  }

  /** A list of keys loads as itself exactly when each key does. */
  lemma {:induction false} KeysRoundTrip(keys: seq<string>, seed: NodeSeed)
    requires seed.Seed? ==> seed.publicKey != "$self"
    ensures ResolveKeys(PrintKeys(keys), seed) == Ok(keys)
            <==> forall i :: 0 <= i < |keys| ==> LoadsAsItself(keys[i])
  {
    var items := PrintKeys(keys);
    KeysReadExactly(items, seed);
    forall i | 0 <= i < |keys|
      ensures Nameable(items[i].text, seed) && Named(items[i].text, seed) == keys[i] <==> LoadsAsItself(keys[i])
    {
      KeyLoadsAsItself(keys[i], seed);
    }
    var r := ResolveKeys(items, seed);
    if r.Ok? && forall i :: 0 <= i < |keys| ==> r.value[i] == keys[i] {
      assert r.value == keys;
    }
  }

  /** Loading the printed inner sets one by one. */
  function LoadPrinted(sets: seq<QuorumSetConfig>, level: nat, names: Names, seed: NodeSeed)
    : Result<seq<QuorumSetConfig>, LoadError>
  {
    if sets == [] then Ok([])
    else match LoadTable(PrintTable(sets[0], names), level, seed)
      case Err(e) => Err(e)
      case Ok(first) =>
        match LoadPrinted(sets[1..], level, names, seed)
        case Err(e) => Err(e)
        case Ok(rest) => Ok([first] + rest)
  }

  function Finish(acc: QuorumSetConfig): Result<QuorumSetConfig, LoadError> {
    if acc.validators == [] && acc.innerSets == [] then Err(NoDefinition) else Ok(acc)
  }

  /** The subtable entries load the printed inner sets and append them. */
  lemma {:induction false} LoadPrintedEntries(sets: seq<QuorumSetConfig>, index: nat, level: nat, names: Names,
                                              seed: NodeSeed, acc: QuorumSetConfig)
    requires NamesAreFree(names)
    ensures var r := LoadEntries(PrintSets(sets, index, names), level, seed, acc);
            match LoadPrinted(sets, level + 1, names, seed)
            case Err(_) => r.Err?
            case Ok(loaded) => r == Finish(acc.(innerSets := acc.innerSets + loaded))
    decreases sets
  {
    if sets == [] {
      assert acc.innerSets + [] == acc.innerSets;
    } else {
      var entries := PrintSets(sets, index, names);
      assert entries[1..] == PrintSets(sets[1..], index + 1, names);
      var first := LoadTable(PrintTable(sets[0], names), level + 1, seed);
      if first.Ok? {
        var next := acc.(innerSets := acc.innerSets + [first.value]);
        LoadPrintedEntries(sets[1..], index + 1, level, names, seed, next);
        var rest := LoadPrinted(sets[1..], level + 1, names, seed);
        assert rest.Ok? ==> next.innerSets + rest.value == acc.innerSets + ([first.value] + rest.value);
      }
    }
  }

  lemma {:induction false} LoadPrintedTable(c: QuorumSetConfig, level: nat, names: Names, seed: NodeSeed)
    requires NamesAreFree(names)
    ensures var r := LoadTable(PrintTable(c, names), level, seed);
            var keys := ResolveKeys(PrintKeys(c.validators), seed);
            var sets := LoadPrinted(c.innerSets, level + 1, names, seed);
            if level <= MAXIMUM_QUORUM_NESTING_LEVEL && 1 <= c.thresholdPercent <= 100 && keys.Ok? && sets.Ok?
            then r == Finish(QuorumSetConfig(c.thresholdPercent, keys.value, sets.value))
            else r.Err?
  {
    var table := PrintTable(c, names);
    var subtables := PrintSets(c.innerSets, 0, names);
    var acc := QuorumSetConfig(DEFAULT_THRESHOLD_PERCENT, [], []);
    assert table[1..] == [table[1]] + subtables && table[1..][1..] == subtables;
    if level <= MAXIMUM_QUORUM_NESTING_LEVEL && 1 <= c.thresholdPercent <= 100 {
      var afterPercent := acc.(thresholdPercent := c.thresholdPercent);
      assert LoadEntry(table[0], level, seed, acc) == Ok(afterPercent);
      var keys := LoadKeys(table[1].value, seed);
      assert keys == ResolveKeys(PrintKeys(c.validators), seed);
      assert LoadEntries(table, level, seed, acc) == LoadEntries(table[1..], level, seed, afterPercent);
      assert table[1..][0] == table[1];
      if keys.Ok? {
        var afterKeys := QuorumSetConfig(c.thresholdPercent, [] + keys.value, []);
        assert LoadEntry(table[1], level, seed, afterPercent) == Ok(afterKeys);
        assert LoadEntries(table[1..], level, seed, afterPercent) == LoadEntries(subtables, level, seed, afterKeys);
        LoadPrintedEntries(c.innerSets, 0, level, names, seed, afterKeys);
        var sets := LoadPrinted(c.innerSets, level + 1, names, seed);
        assert [] + keys.value == keys.value;
        assert sets.Ok? ==> [] + sets.value == sets.value;
      } else {
        assert LoadEntry(table[1], level, seed, afterPercent).Err?;
      }
    } else if level <= MAXIMUM_QUORUM_NESTING_LEVEL {
      assert LoadEntry(table[0], level, seed, acc).Err?;
    }
  }

  lemma {:induction false} PrintedSetsRoundTrip(sets: seq<QuorumSetConfig>, level: nat, names: Names, seed: NodeSeed)
    requires NamesAreFree(names) && (seed.Seed? ==> seed.publicKey != "$self")
    ensures LoadPrinted(sets, level, names, seed) == Ok(sets)
            <==> forall i :: 0 <= i < |sets| ==> Printable(sets[i], level)
    decreases sets
  {
    if sets == [] {
    } else {
      RoundTrip(sets[0], level, names, seed);
      PrintedSetsRoundTrip(sets[1..], level, names, seed);
      assert sets == [sets[0]] + sets[1..];
    }
  }

  /** The parts a printed table is loaded from, by name only. */
  lemma {:induction false} LoadPrintedParts(c: QuorumSetConfig, level: nat, names: Names, seed: NodeSeed)
    returns (keys: Result<seq<string>, LoadError>, sets: Result<seq<QuorumSetConfig>, LoadError>,
             r: Result<QuorumSetConfig, LoadError>)
    requires NamesAreFree(names) && (seed.Seed? ==> seed.publicKey != "$self")
    ensures keys == Ok(c.validators) <==> forall i :: 0 <= i < |c.validators| ==> LoadsAsItself(c.validators[i])
    ensures sets == LoadPrinted(c.innerSets, level + 1, names, seed)
    ensures r == LoadTable(PrintTable(c, names), level, seed)
    ensures if level <= MAXIMUM_QUORUM_NESTING_LEVEL && 1 <= c.thresholdPercent <= 100 && keys.Ok? && sets.Ok?
            then r == Finish(QuorumSetConfig(c.thresholdPercent, keys.value, sets.value)) else r.Err?
  {
    LoadPrintedTable(c, level, names, seed);
    KeysRoundTrip(c.validators, seed);
    keys, sets := ResolveKeys(PrintKeys(c.validators), seed), LoadPrinted(c.innerSets, level + 1, names, seed);
    r := LoadTable(PrintTable(c, names), level, seed);
  }

  lemma {:induction false} PrintableStep(c: QuorumSetConfig, level: nat, keys: Result<seq<string>, LoadError>,
                                         sets: Result<seq<QuorumSetConfig>, LoadError>, r: Result<QuorumSetConfig,
                                         LoadError>)
    requires keys == Ok(c.validators) <==> forall i :: 0 <= i < |c.validators| ==> LoadsAsItself(c.validators[i])
    requires sets == Ok(c.innerSets) <==> forall i :: 0 <= i < |c.innerSets| ==> Printable(c.innerSets[i], level + 1)
    requires if level <= MAXIMUM_QUORUM_NESTING_LEVEL && 1 <= c.thresholdPercent <= 100 && keys.Ok? && sets.Ok?
             then r == Finish(QuorumSetConfig(c.thresholdPercent, keys.value, sets.value)) else r.Err?
    ensures r == Ok(c) <==> Printable(c, level)
  {
  }

  /** Printing a quorum tree and loading it gives the tree back exactly when the tree is
      printable: at most five levels, every node with entries and a percentage in 1..100. */
  lemma {:induction false} RoundTrip(c: QuorumSetConfig, level: nat, names: Names, seed: NodeSeed)
    requires NamesAreFree(names) && (seed.Seed? ==> seed.publicKey != "$self")
    ensures LoadTable(PrintTable(c, names), level, seed) == Ok(c) <==> Printable(c, level)
    decreases c
  {
    var keys, sets, r := LoadPrintedParts(c, level, names, seed);
    PrintedSetsRoundTrip(c.innerSets, level + 1, names, seed);
    PrintableStep(c, level, keys, sets, r);
  }

  lemma {:induction false} DeepSetsRejected(sets: seq<QuorumSetConfig>, level: nat, names: Names, seed: NodeSeed)
    requires NamesAreFree(names)
    requires level + DeepestLevels(sets) > 5 && sets != []
    ensures LoadPrinted(sets, level, names, seed).Err?
    decreases sets
  {
    if level + Levels(sets[0]) > 5 {
      TooDeepRejected(sets[0], level, names, seed);
    } else {
      DeepSetsRejected(sets[1..], level, names, seed);
    }
  }

  /** A tree reaching below the nesting limit never loads. */
  lemma {:induction false} TooDeepRejected(c: QuorumSetConfig, level: nat, names: Names, seed: NodeSeed)
    requires NamesAreFree(names)
    requires level + Levels(c) > 5
    ensures LoadTable(PrintTable(c, names), level, seed).Err?
    decreases c
  {
    LoadPrintedTable(c, level, names, seed);
    if c.innerSets != [] {
      DeepSetsRejected(c.innerSets, level + 1, names, seed);
    }
  }

  // ----- What loads ---------------------------------------------------------------------

  /** Within the nesting limit, with entries and a proper percentage at every node. */
  predicate WellFormed(c: QuorumSetConfig, level: nat)
    decreases c
  {
    level <= MAXIMUM_QUORUM_NESTING_LEVEL
    && (c.validators != [] || c.innerSets != [])
    && 1 <= c.thresholdPercent <= 100
    && (forall i :: 0 <= i < |c.innerSets| ==> WellFormed(c.innerSets[i], level + 1))
  }

  /** What has been gathered from the entries read so far. */
  ghost predicate Gathered(acc: QuorumSetConfig, level: nat) {
    1 <= acc.thresholdPercent <= 100
    && (forall i :: 0 <= i < |acc.innerSets| ==> WellFormed(acc.innerSets[i], level + 1))
  }

  /** Whatever the table, a tree that loads is well formed. */
  lemma {:induction false} LoadedIsWellFormed(entries: seq<TomlEntry>, level: nat, seed: NodeSeed)
    requires LoadTable(entries, level, seed).Ok?
    ensures WellFormed(LoadTable(entries, level, seed).value, level)
    decreases entries, 1
  {
    EntriesAreWellFormed(entries, level, seed, QuorumSetConfig(DEFAULT_THRESHOLD_PERCENT, [], []));
  }

  lemma {:induction false} EntriesAreWellFormed(entries: seq<TomlEntry>, level: nat, seed: NodeSeed,
                                                acc: QuorumSetConfig)
    requires level <= MAXIMUM_QUORUM_NESTING_LEVEL && Gathered(acc, level)
    requires LoadEntries(entries, level, seed, acc).Ok?
    ensures WellFormed(LoadEntries(entries, level, seed, acc).value, level)
    decreases entries, 0
  {
    if entries != [] {
      var entry := entries[0];
      if entry.key != THRESHOLD_PERCENT && entry.key != VALIDATORS {
        LoadedIsWellFormed(entry.value.entries, level + 1, seed);
      }
      EntriesAreWellFormed(entries[1..], level, seed, LoadEntry(entry, level, seed, acc).value);
    }
  }

  predicate HasPercent(entries: seq<TomlEntry>) {
    exists i :: 0 <= i < |entries| && entries[i].key == THRESHOLD_PERCENT
  }

  /** Without a percentage of its own a table keeps the one it starts from. */
  lemma {:induction false} PercentIsKept(entries: seq<TomlEntry>, level: nat, seed: NodeSeed, acc: QuorumSetConfig)
    requires !HasPercent(entries) && LoadEntries(entries, level, seed, acc).Ok?
    ensures LoadEntries(entries, level, seed, acc).value.thresholdPercent == acc.thresholdPercent
    decreases |entries|
  {
    if entries != [] {
      assert entries[0].key != THRESHOLD_PERCENT;
      forall i | 0 <= i < |entries[1..]|
        ensures entries[1..][i].key != THRESHOLD_PERCENT
      {
        assert entries[1..][i] == entries[i + 1];
      }
      PercentIsKept(entries[1..], level, seed, LoadEntry(entries[0], level, seed, acc).value);
    }
  }

  /** A table that names no percentage loads with 67. */
  lemma {:induction false} DefaultPercent(entries: seq<TomlEntry>, level: nat, seed: NodeSeed)
    requires !HasPercent(entries) && LoadTable(entries, level, seed).Ok?
    ensures LoadTable(entries, level, seed).value.thresholdPercent == 67
  {
    PercentIsKept(entries, level, seed, QuorumSetConfig(DEFAULT_THRESHOLD_PERCENT, [], []));
  }

  /** The entry is one its table can be loaded with. */
  predicate EntryLoads(entry: TomlEntry, level: nat, seed: NodeSeed)
    decreases entry, 0
  {
    if entry.key == "THRESHOLD_PERCENT" then entry.value.Integer? && 1 <= entry.value.value <= 100
    else if entry.key == "VALIDATORS" then
      entry.value.Array? && forall i :: 0 <= i < |entry.value.items| ==>
        entry.value.items[i].Text? && Nameable(entry.value.items[i].text, seed)
    else entry.value.Table? && Loadable(entry.value.entries, level + 1, seed)
  }

  /** The entry gives its table something to vote: a key or an inner set. */
  predicate Lists(entry: TomlEntry) {
    if entry.key == "VALIDATORS" then entry.value.Array? && entry.value.items != []
    else entry.key != "THRESHOLD_PERCENT"
  }

  /** At most five levels, every entry in order, and something listed. */
  predicate Loadable(entries: seq<TomlEntry>, level: nat, seed: NodeSeed)
    decreases entries, 1
  {
    level <= 4
    && (forall i :: 0 <= i < |entries| ==> EntryLoads(entries[i], level, seed))
    && exists i :: 0 <= i < |entries| && Lists(entries[i])
  }

  /** What one entry adds, and when it cannot. */
  lemma {:induction false} EntryLoadsExactly(entry: TomlEntry, level: nat, seed: NodeSeed, acc: QuorumSetConfig)
    ensures var r := LoadEntry(entry, level, seed, acc);
            (r.Ok? <==> EntryLoads(entry, level, seed))
            && (r.Ok? ==> (r.value.validators == [] && r.value.innerSets == [] <==>
                           acc.validators == [] && acc.innerSets == [] && !Lists(entry)))
    decreases entry, 0
  {
    if entry.key == VALIDATORS && entry.value.Array? && AllText(entry.value.items) {
      KeysReadExactly(entry.value.items, seed);
    } else if entry.key != THRESHOLD_PERCENT && entry.value.Table? {
      LoadsExactly(entry.value.entries, level + 1, seed);
    }
  }

  lemma {:induction false} EntriesLoadExactly(entries: seq<TomlEntry>, level: nat, seed: NodeSeed, acc: QuorumSetConfig)
    ensures LoadEntries(entries, level, seed, acc).Ok?
            <==> (forall i :: 0 <= i < |entries| ==> EntryLoads(entries[i], level, seed))
                 && (acc.validators != [] || acc.innerSets != [] || exists i :: 0 <= i < |entries| && Lists(entries[i]))
    decreases entries, 0
  {
    if entries != [] {
      EntryLoadsExactly(entries[0], level, seed, acc);
      var first := LoadEntry(entries[0], level, seed, acc);
      assert entries == [entries[0]] + entries[1..];
      if first.Ok? {
        EntriesLoadExactly(entries[1..], level, seed, first.value);
      }
    }
  }

  /** Exactly which tables load. */
  lemma {:induction false} LoadsExactly(entries: seq<TomlEntry>, level: nat, seed: NodeSeed)
    ensures LoadTable(entries, level, seed).Ok? <==> Loadable(entries, level, seed)
    decreases entries, 1
  {
    EntriesLoadExactly(entries, level, seed, QuorumSetConfig(DEFAULT_THRESHOLD_PERCENT, [], []));
  }

  // ----- The loaded tree ----------------------------------------------------------------

  /** What a list of texts stands for; nothing for an unresolvable one. */
  function NamesOf(items: seq<TomlValue>, seed: NodeSeed): (names: seq<string>)
    ensures |names| == |items|
  {
    seq(|items|, i requires 0 <= i < |items| =>
      if items[i].Text? && Nameable(items[i].text, seed) then Named(items[i].text, seed) else "")
  }

  /** The keys listed in a table, in order. */
  function KeysIn(entries: seq<TomlEntry>, seed: NodeSeed): seq<string> {
    if entries == [] then []
    else
      var first := entries[0];
      (if first.key == "VALIDATORS" && first.value.Array? then NamesOf(first.value.items, seed) else [])
      + KeysIn(entries[1..], seed)
  }

  /** The subtables of a table, in order. */
  function Subtables(entries: seq<TomlEntry>): seq<seq<TomlEntry>> {
    if entries == [] then []
    else
      var first := entries[0];
      (if first.key != "VALIDATORS" && first.key != "THRESHOLD_PERCENT" && first.value.Table?
       then [first.value.entries] else [])
      + Subtables(entries[1..])
  }

  /** The percentage a table names, or else the default. */
  function PercentIn(entries: seq<TomlEntry>, default: nat): nat {
    if entries == [] then default
    else
      var first := entries[0];
      PercentIn(entries[1..], if first.key == "THRESHOLD_PERCENT" && first.value.Integer? && first.value.value >= 0
                              then first.value.value else default)
  }

  /** The inner sets loaded from some tables. */
  predicate LoadedFrom(sets: seq<QuorumSetConfig>, tables: seq<seq<TomlEntry>>, level: nat, seed: NodeSeed) {
    |sets| == |tables| && forall i :: 0 <= i < |sets| ==> LoadTable(tables[i], level, seed) == Ok(sets[i])
  }

  /** `c` is `acc` with these keys and the inner sets of these tables added. */
  predicate Grown(acc: QuorumSetConfig, c: QuorumSetConfig, keys: seq<string>, percent: nat,
                  tables: seq<seq<TomlEntry>>, level: nat, seed: NodeSeed)
  {
    && c.validators == acc.validators + keys && c.thresholdPercent == percent
    && acc.innerSets <= c.innerSets && LoadedFrom(c.innerSets[|acc.innerSets|..], tables, level, seed)
  }

  predicate Add(entries: seq<TomlEntry>, level: nat, seed: NodeSeed, acc: QuorumSetConfig, c: QuorumSetConfig) {
    Grown(acc, c, KeysIn(entries, seed), PercentIn(entries, acc.thresholdPercent), Subtables(entries), level + 1, seed)
  }

  lemma {:induction false} GrownTwice(acc: QuorumSetConfig, next: QuorumSetConfig, c: QuorumSetConfig,
                                      keys: seq<string>, more: seq<string>, percent: nat, last: nat,
                                      tables: seq<seq<TomlEntry>>, rest: seq<seq<TomlEntry>>, level: nat,
                                      seed: NodeSeed)
    requires Grown(acc, next, keys, percent, tables, level, seed) && Grown(next, c, more, last, rest, level, seed)
    ensures Grown(acc, c, keys + more, last, tables + rest, level, seed)
  {
    Associate(acc.validators, keys, more);
    JoinLoaded(acc.innerSets, next.innerSets, c.innerSets, tables, rest, level, seed);
  }

  lemma {:induction false} JoinLoaded(a: seq<QuorumSetConfig>, b: seq<QuorumSetConfig>, c: seq<QuorumSetConfig>,
                                      first: seq<seq<TomlEntry>>, rest: seq<seq<TomlEntry>>, level: nat, seed: NodeSeed)
    requires a <= b <= c && LoadedFrom(b[|a|..], first, level, seed) && LoadedFrom(c[|b|..], rest, level, seed)
    ensures LoadedFrom(c[|a|..], first + rest, level, seed)
  {
    assert c[|a|..] == b[|a|..] + c[|b|..];
  }

  lemma {:induction false} EntryAdds(entry: TomlEntry, level: nat, seed: NodeSeed, acc: QuorumSetConfig)
    requires LoadEntry(entry, level, seed, acc).Ok?
    ensures Add([entry], level, seed, acc, LoadEntry(entry, level, seed, acc).value)
  {
    assert [entry][1..] == [];
    if entry.key == VALIDATORS {
      var keys := LoadKeys(entry.value, seed).value;
      KeysReadExactly(entry.value.items, seed);
      assert keys == NamesOf(entry.value.items, seed);
    }
  }

  lemma {:induction false} OneMoreList(entry: TomlEntry, rest: seq<TomlEntry>, seed: NodeSeed)
    ensures KeysIn([entry] + rest, seed) == KeysIn([entry], seed) + KeysIn(rest, seed)
  {
    assert [entry][1..] == [] && ([entry] + rest)[1..] == rest;
    assert KeysIn([], seed) == [];
  }

  lemma {:induction false} OneMoreSubtable(entry: TomlEntry, rest: seq<TomlEntry>)
    ensures Subtables([entry] + rest) == Subtables([entry]) + Subtables(rest)
  {
    assert [entry][1..] == [] && ([entry] + rest)[1..] == rest;
    assert Subtables([]) == [];
  }

  lemma {:induction false} OneMorePercent(entry: TomlEntry, rest: seq<TomlEntry>, percent: nat)
    ensures PercentIn([entry] + rest, percent) == PercentIn(rest, PercentIn([entry], percent))
  {
    assert [entry][1..] == [] && ([entry] + rest)[1..] == rest;
  }

  lemma {:induction false} AddTwice(entry: TomlEntry, rest: seq<TomlEntry>, level: nat, seed: NodeSeed,
                                    acc: QuorumSetConfig, next: QuorumSetConfig, c: QuorumSetConfig)
    requires Add([entry], level, seed, acc, next) && Add(rest, level, seed, next, c)
    ensures Add([entry] + rest, level, seed, acc, c)
  {
    OneMoreList(entry, rest, seed);
    OneMoreSubtable(entry, rest);
    OneMorePercent(entry, rest, acc.thresholdPercent);
    GrownTwice(acc, next, c, KeysIn([entry], seed), KeysIn(rest, seed), next.thresholdPercent, c.thresholdPercent,
               Subtables([entry]), Subtables(rest), level + 1, seed);
  }

  lemma {:induction false} EntriesAdd(entries: seq<TomlEntry>, level: nat, seed: NodeSeed, acc: QuorumSetConfig)
    requires LoadEntries(entries, level, seed, acc).Ok?
    ensures Add(entries, level, seed, acc, LoadEntries(entries, level, seed, acc).value)
    decreases |entries|
  {
    if entries != [] {
      var next := LoadEntry(entries[0], level, seed, acc).value;
      EntryAdds(entries[0], level, seed, acc);
      EntriesAdd(entries[1..], level, seed, next);
      AddTwice(entries[0], entries[1..], level, seed, acc, next, LoadEntries(entries, level, seed, acc).value);
      assert entries == [entries[0]] + entries[1..];
    }
  }

  /** A loaded tree lists what its table lists, in order: the named keys, an inner set for every subtable,
      and the percentage named last, or 67. */
  lemma {:induction false} LoadedTree(entries: seq<TomlEntry>, level: nat, seed: NodeSeed)
    requires LoadTable(entries, level, seed).Ok?
    ensures var c := LoadTable(entries, level, seed).value;
            c.validators == KeysIn(entries, seed) && c.thresholdPercent == PercentIn(entries, 67)
            && LoadedFrom(c.innerSets, Subtables(entries), level + 1, seed)
  {
    EntriesAdd(entries, level, seed, QuorumSetConfig(DEFAULT_THRESHOLD_PERCENT, [], []));
    var c := LoadTable(entries, level, seed).value;
    assert c.innerSets[0..] == c.innerSets;
  }
}
