/** An error of the conversion or of the loader names a fault that is there. */
module QuorumErrors {
  import opened Common
  import opened QuorumSets
  import opened QuorumLoader

  // ----- Conversion ---------------------------------------------------------------------

  /** Following the error into the tree leads to the fault it names. */
  predicate Faulty(c: QuorumSetConfig, e: XdrError, parse: KeyParser)
    decreases e
  {
    match e
    case NoEntries => c.validators == [] && c.innerSets == []
    case BadPercent(percent) => c.thresholdPercent == percent && (percent == 0 || percent > 100)
    case BadKey(key) => key in c.validators && parse(key).None?
    case InInnerSet(index, inner) => index < |c.innerSets| && Faulty(c.innerSets[index], inner, parse)
  }

  lemma {:induction false} BadKeyIsListed(keys: seq<string>, parse: KeyParser)
    requires ParseKeys(keys, parse).Err?
    ensures var e := ParseKeys(keys, parse).error; e.BadKey? && e.key in keys && parse(e.key).None?
  {
    if parse(keys[0]).Some? {
      BadKeyIsListed(keys[1..], parse);
    }
  }

  lemma {:induction false} FaultyInnerSet(sets: seq<QuorumSetConfig>, index: nat, parse: KeyParser, orders: Orders)
    requires ConvertAll(sets, index, parse, orders).Err?
    ensures var e := ConvertAll(sets, index, parse, orders).error;
            e.InInnerSet? && index <= e.index < index + |sets| && Faulty(sets[e.index - index], e.error, parse)
    decreases sets
  {
    if ToXdr(sets[0], parse, orders).Err? {
      ConversionErrorIsThere(sets[0], parse, orders);
    } else {
      FaultyInnerSet(sets[1..], index + 1, parse, orders);
    }
  }

  lemma {:induction false} ConversionErrorIsThere(c: QuorumSetConfig, parse: KeyParser, orders: Orders)
    requires ToXdr(c, parse, orders).Err?
    ensures Faulty(c, ToXdr(c, parse, orders).error, parse)
    decreases c
  {
    if c.validators == [] && c.innerSets == [] {
    } else if c.thresholdPercent == 0 || c.thresholdPercent > 100 {
    } else if ParseKeys(c.validators, parse).Err? {
      BadKeyIsListed(c.validators, parse);
    } else {
      FaultyInnerSet(c.innerSets, 0, parse, orders);
    }
  }

  // ----- Loading ------------------------------------------------------------------------

  /** Some entry of the table, or of the group the error names, has the fault. */
  predicate Misloads(entries: seq<TomlEntry>, level: nat, seed: NodeSeed, e: LoadError)
    decreases e, 1
  {
    match e
    case TooManyLevels => level > 4
    case NoDefinition => forall i :: 0 <= i < |entries| ==> !Lists(entries[i])
    case _ => exists i :: 0 <= i < |entries| && EntryMisloads(entries[i], level, seed, e)
  }

  predicate EntryMisloads(entry: TomlEntry, level: nat, seed: NodeSeed, e: LoadError)
    decreases e, 0
  {
    match e
    case InvalidThreshold =>
      entry.key == "THRESHOLD_PERCENT" && !(entry.value.Integer? && 1 <= entry.value.value <= 100)
    case NotStrings => entry.key == "VALIDATORS" && !(entry.value.Array? && AllText(entry.value.items))
    case SeedNotSet => entry.key == "VALIDATORS" && seed.NoSeed? && ListsSelf(entry.value)
    case SeedInvalid => entry.key == "VALIDATORS" && seed.BadSeed? && ListsSelf(entry.value)
    case NotAGroup(key) => entry.key == key && key != "THRESHOLD_PERCENT" && key != "VALIDATORS" && !entry.value.Table?
    case InGroup(key, inner) =>
      entry.key == key && entry.value.Table? && Misloads(entry.value.entries, level + 1, seed, inner)
    case _ => false
  }

  predicate ListsSelf(value: TomlValue) {
    value.Array? && exists i :: 0 <= i < |value.items| && value.items[i] == Text("$self")
  }

  lemma {:induction false} EntryErrorIsThere(entry: TomlEntry, level: nat, seed: NodeSeed, acc: QuorumSetConfig)
    requires LoadEntry(entry, level, seed, acc).Err?
    ensures EntryMisloads(entry, level, seed, LoadEntry(entry, level, seed, acc).error)
    decreases entry, 0
  {
    if entry.key == THRESHOLD_PERCENT {
    } else if entry.key == VALIDATORS {
      if entry.value.Array? && AllText(entry.value.items) {
        KeysReadExactly(entry.value.items, seed);
        assert exists i :: 0 <= i < |entry.value.items| && entry.value.items[i] == Text("$self");
      }
    } else if entry.value.Table? {
      LoadErrorIsThere(entry.value.entries, level + 1, seed);
    }
  }

  lemma {:induction false} EntriesErrorIsThere(entries: seq<TomlEntry>, level: nat, seed: NodeSeed,
                                               acc: QuorumSetConfig)
    requires LoadEntries(entries, level, seed, acc).Err?
    ensures var e := LoadEntries(entries, level, seed, acc).error;
            if e.NoDefinition? then acc.validators == [] && acc.innerSets == [] && Misloads(entries, level, seed, e)
            else exists i :: 0 <= i < |entries| && EntryMisloads(entries[i], level, seed, e)
    decreases entries, 0
  {
    if entries != [] {
      var first := LoadEntry(entries[0], level, seed, acc);
      if first.Err? {
        EntryErrorIsThere(entries[0], level, seed, acc);
      } else {
        EntryLoadsExactly(entries[0], level, seed, acc);
        EntriesErrorIsThere(entries[1..], level, seed, first.value);
        assert entries == [entries[0]] + entries[1..];
      }
    }
  }

  lemma {:induction false} LoadErrorIsThere(entries: seq<TomlEntry>, level: nat, seed: NodeSeed)
    requires LoadTable(entries, level, seed).Err?
    ensures Misloads(entries, level, seed, LoadTable(entries, level, seed).error)
    decreases entries, 1
  {
    if level <= MAXIMUM_QUORUM_NESTING_LEVEL {
      EntriesErrorIsThere(entries, level, seed, QuorumSetConfig(DEFAULT_THRESHOLD_PERCENT, [], []));
    }
  }
}
