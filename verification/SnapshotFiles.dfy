/** The key=value snapshot files: writing a dictionary and reading it back. */
module SnapshotFiles {
  import opened Numerals

  /** A dictionary in insertion order. */
  type Pairs = seq<(string, string)>

  predicate IsLineBreak(c: char) {
    '\n' <= c <= '\r' || '\U{1C}' <= c <= '\U{1E}' || c == '\U{85}' || c == '\U{2028}' || c == '\U{2029}'
  }

  predicate IsSpace(c: char) {
    IsLineBreak(c) || c == '\t' || c == '\U{1F}' || c == ' ' || c == '\U{A0}' || c == '\U{1680}'
    || '\U{2000}' <= c <= '\U{200A}' || c == '\U{202F}' || c == '\U{205F}' || c == '\U{3000}'
  }

  // ----- Strings ------------------------------------------------------------------------

  /** Characters before the first line break. */
  function FirstLine(text: string): string {
    if text == [] || IsLineBreak(text[0]) then [] else [text[0]] + FirstLine(text[1..])
  }

  /** What follows the first line and its break. */
  function AfterLine(text: string): (rest: string)
    ensures text != [] ==> |rest| < |text|
    ensures text == [] ==> rest == []
  {
    if text == [] then [] else if IsLineBreak(text[0]) then text[1..] else AfterLine(text[1..])
  }

  function StripLeft(s: string): string {
    if s != [] && IsSpace(s[0]) then StripLeft(s[1..]) else s
  }

  function StripRight(s: string): string {
    if s != [] && IsSpace(s[|s| - 1]) then StripRight(s[..|s| - 1]) else s
  }

  function Strip(s: string): string {
    StripRight(StripLeft(s))
  }

  /** The text before the first `=`; the whole text without one. */
  function BeforeEquals(s: string): string {
    if s == [] || s[0] == '=' then [] else [s[0]] + BeforeEquals(s[1..])
  }

  function AfterEquals(s: string): string {
    if s == [] then [] else if s[0] == '=' then s[1..] else AfterEquals(s[1..])
  }

  // ----- Reading and writing ------------------------------------------------------------

  /** One line of the file put into the dictionary; lines without `=` are ignored. */
  function AddLine(entries: map<string, string>, rawLine: string): map<string, string> {
    var line := Strip(rawLine);
    if '=' in line then entries[Strip(BeforeEquals(line)) := Strip(AfterEquals(line))] else entries
  }

  function ReadFrom(text: string, entries: map<string, string>): map<string, string>
    decreases |text|
  {
    if text == [] then entries else ReadFrom(AfterLine(text), AddLine(entries, FirstLine(text)))
  }

  method ReadSnapshot(text: string) returns (entries: map<string, string>)
    ensures entries == ReadFrom(text, map[])
  {
    entries := map[];
    var rest := text;
    while rest != []
      invariant ReadFrom(text, map[]) == ReadFrom(rest, entries)
      decreases |rest|
    {
      entries := AddLine(entries, FirstLine(rest));
      rest := AfterLine(rest);
    }
  }

  /** Lines joined by newlines. */
  function Join(pairs: Pairs): string {
    if pairs == [] then []
    else if |pairs| == 1 then Line(pairs[0])
    else Line(pairs[0]) + "\n" + Join(pairs[1..])
  }

  function Line(pair: (string, string)): string {
    pair.0 + "=" + pair.1
  }

  function WriteSnapshot(pairs: Pairs): string {
    Join(pairs) + "\n"
  }

  function Dictionary(pairs: Pairs, entries: map<string, string>): map<string, string> {
    if pairs == [] then entries else Dictionary(pairs[1..], entries[pairs[0].0 := pairs[0].1])
  }

  predicate DistinctKeys(pairs: Pairs) {
    forall i, j :: 0 <= i < j < |pairs| ==> pairs[i].0 != pairs[j].0
  }

  // ----- Round trip ---------------------------------------------------------------------

  /** No line break, and no whitespace at either end. */
  predicate Plain(s: string) {
    (forall c :: c in s ==> !IsLineBreak(c))
    && (s == [] || (!IsSpace(s[0]) && !IsSpace(s[|s| - 1])))
  }

  predicate CleanPair(key: string, value: string) {
    Plain(key) && '=' !in key && Plain(value)
  }

  predicate CleanPairs(pairs: Pairs) {
    forall p :: p in pairs ==> CleanPair(p.0, p.1)
  }

  lemma {:induction false} StripLeftPart(s: string)
    ensures var t := StripLeft(s);
            (forall c :: c in t ==> c in s) && (t == [] || !IsSpace(t[0]))
            && (s == [] || !IsSpace(s[0]) ==> t == s)
  {
    if s != [] && IsSpace(s[0]) {
      StripLeftPart(s[1..]);
    }
  }

  lemma {:induction false} StripRightPart(s: string)
    ensures var t := StripRight(s);
            (forall c :: c in t ==> c in s) && t <= s && (t == [] || !IsSpace(t[|t| - 1]))
            && (s == [] || !IsSpace(s[|s| - 1]) ==> t == s)
  {
    if s != [] && IsSpace(s[|s| - 1]) {
      StripRightPart(s[..|s| - 1]);
    }
  }

  /** Stripping a line leaves plain text, and leaves plain text alone. */
  lemma {:induction false} StripIsPlain(s: string)
    requires forall c :: c in s ==> !IsLineBreak(c)
    ensures Plain(Strip(s))
    ensures Plain(s) ==> Strip(s) == s
  {
    StripLeftPart(s);
    StripRightPart(StripLeft(s));
  }

  lemma {:induction false} StripKeeps(s: string)
    ensures forall c :: c in Strip(s) ==> c in s
  {
    StripLeftPart(s);
    StripRightPart(StripLeft(s));
  }

  lemma {:induction false} LineCharacters(text: string)
    ensures forall c :: c in FirstLine(text) ==> !IsLineBreak(c)
  {
    if text != [] && !IsLineBreak(text[0]) {
      LineCharacters(text[1..]);
    }
  }

  lemma {:induction false} EqualsParts(s: string)
    ensures '=' !in BeforeEquals(s)
    ensures forall c :: c in BeforeEquals(s) || c in AfterEquals(s) ==> c in s
  {
    if s != [] && s[0] != '=' {
      EqualsParts(s[1..]);
    }
  }

  ghost predicate CleanEntries(entries: map<string, string>) {
    forall k :: k in entries ==> CleanPair(k, entries[k])
  }

  lemma {:induction false} AddLineIsClean(entries: map<string, string>, rawLine: string)
    requires CleanEntries(entries) && forall c :: c in rawLine ==> !IsLineBreak(c)
    ensures CleanEntries(AddLine(entries, rawLine))
  {
    var line := Strip(rawLine);
    StripKeeps(rawLine);
    EqualsParts(line);
    StripIsPlain(BeforeEquals(line));
    StripIsPlain(AfterEquals(line));
    StripKeeps(BeforeEquals(line));
  }

  /** Whatever the file holds, what is read from it is clean. */
  lemma {:induction false} ReadIsClean(text: string, entries: map<string, string>)
    requires CleanEntries(entries)
    ensures CleanEntries(ReadFrom(text, entries))
    decreases |text|
  {
    if text != [] {
      LineCharacters(text);
      AddLineIsClean(entries, FirstLine(text));
      ReadIsClean(AfterLine(text), AddLine(entries, FirstLine(text)));
    }
  }

  lemma {:induction false} SplitLine(line: string, rest: string)
    requires forall c :: c in line ==> !IsLineBreak(c)
    ensures FirstLine(line + "\n" + rest) == line && AfterLine(line + "\n" + rest) == rest
  {
    var text := line + "\n" + rest;
    if line == [] {
      assert text[0] == '\n' && text[1..] == rest;
    } else {
      assert text[1..] == line[1..] + "\n" + rest;
      SplitLine(line[1..], rest);
    }
  }

  lemma {:induction false} SplitEquals(key: string, value: string)
    requires '=' !in key
    ensures BeforeEquals(key + "=" + value) == key && AfterEquals(key + "=" + value) == value
  {
    var s := key + "=" + value;
    if key == [] {
      assert s[0] == '=' && s[1..] == value;
    } else {
      assert s[1..] == key[1..] + "=" + value;
      SplitEquals(key[1..], value);
    }
  }

  lemma {:induction false} AddCleanLine(entries: map<string, string>, pair: (string, string))
    requires CleanPair(pair.0, pair.1)
    ensures AddLine(entries, Line(pair)) == entries[pair.0 := pair.1]
    ensures forall c :: c in Line(pair) ==> !IsLineBreak(c)
  {
    var line := Line(pair);
    assert line[|pair.0|] == '=';
    assert line[0] == if pair.0 == [] then '=' else pair.0[0];
    assert line[|line| - 1] == if pair.1 == [] then '=' else pair.1[|pair.1| - 1];
    StripIsPlain(line);
    SplitEquals(pair.0, pair.1);
    StripIsPlain(pair.0);
    StripIsPlain(pair.1);
  }

  /** A line without `=` is as good as none. */
  lemma {:induction false} StrayLineIgnored(line: string, rest: string, entries: map<string, string>)
    requires '=' !in line && forall c :: c in line ==> !IsLineBreak(c)
    ensures ReadFrom(line + "\n" + rest, entries) == ReadFrom(rest, entries)
  {
    SplitLine(line, rest);
    StripKeeps(line);
    assert line + "\n" + rest != [];
  }

  predicate AllSpace(s: string) {
    forall c :: c in s ==> IsSpace(c)
  }

  lemma {:induction false} StripLeftPad(pad: string, s: string)
    requires AllSpace(pad) && (s == [] || !IsSpace(s[0]))
    ensures StripLeft(pad + s) == s
  {
    if pad == [] {
      assert pad + s == s;
    } else {
      assert (pad + s)[1..] == pad[1..] + s;
      StripLeftPad(pad[1..], s);
    }
  }

  lemma {:induction false} StripRightPad(s: string, pad: string)
    requires AllSpace(pad) && (s == [] || !IsSpace(s[|s| - 1]))
    ensures StripRight(s + pad) == s
  {
    if pad == [] {
      assert s + pad == s;
    } else {
      assert (s + pad)[..|s + pad| - 1] == s + pad[..|pad| - 1];
      StripRightPad(s, pad[..|pad| - 1]);
    }
  }

  lemma {:induction false} StripPads(left: string, s: string, right: string)
    requires AllSpace(left) && AllSpace(right) && Plain(s)
    ensures Strip(left + s + right) == s
  {
    if s == [] {
      assert left + s + right == (left + right) + [];
      StripLeftPad(left + right, []);
    } else {
      assert left + s + right == left + (s + right);
      StripLeftPad(left, s + right);
      StripRightPad(s, right);
    }
  }

  lemma {:induction false} StripLeftOfEquals(s: string, rest: string)
    ensures StripLeft(s + "=" + rest) == StripLeft(s) + "=" + rest
  {
    var t := s + "=" + rest;
    if s != [] && IsSpace(s[0]) {
      assert t[0] == s[0] && t[1..] == s[1..] + "=" + rest;
      StripLeftOfEquals(s[1..], rest);
    } else {
      assert t[0] == if s == [] then '=' else s[0];
      assert StripLeft(s) == s && StripLeft(t) == t;
    }
  }

  lemma {:induction false} StripRightOfEquals(start: string, s: string)
    ensures StripRight(start + "=" + s) == start + "=" + StripRight(s)
  {
    var t := start + "=" + s;
    if s == [] {
      assert t == start + "=" && t[|t| - 1] == '=';
    } else {
      assert t[..|t| - 1] == start + "=" + s[..|s| - 1];
      StripRightOfEquals(start, s[..|s| - 1]);
    }
  }

  lemma {:induction false} StripLeftKeepsOut(s: string)
    requires '=' !in s
    ensures '=' !in StripLeft(s)
  {
    StripLeftPart(s);
  }

  /** Whitespace around a line, its key and its value does not count. */
  lemma {:induction false} PaddedLine(entries: map<string, string>, a: string, key: string, b: string, c: string,
                                      value: string, d: string)
    requires AllSpace(a) && AllSpace(b) && AllSpace(c) && AllSpace(d) && CleanPair(key, value)
    ensures AddLine(entries, (a + key + b) + "=" + (c + value + d)) == entries[key := value]
  {
    var left, right := a + key + b, c + value + d;
    StripLeftOfEquals(left, right);
    StripRightOfEquals(StripLeft(left), right);
    StripLeftKeepsOut(left);
    SplitEquals(StripLeft(left), StripRight(right));
    StripPads(a, key, b);
    StripPads(c, value, d);
    StripAgain(left, right);
    var line := StripLeft(left) + "=" + StripRight(right);
    assert line[|StripLeft(left)|] == '=';
  }

  /** Stripping one side first makes no difference. */
  lemma {:induction false} StripAgain(left: string, right: string)
    ensures Strip(StripLeft(left)) == Strip(left) && Strip(StripRight(right)) == Strip(right)
  {
    StripLeftPart(left);
    StripSidesCommute(right);
    StripRightPart(right);
    StripRightPart(StripLeft(right));
    StripRightPart(StripLeft(StripRight(right)));
  }

  lemma {:induction false} StripSidesCommute(s: string)
    ensures Strip(StripRight(s)) == Strip(s)
  {
    if s != [] && IsSpace(s[|s| - 1]) {
      StripSidesCommute(s[..|s| - 1]);
      StripLeftOfInit(s);
    } else {
      StripRightPart(s);
    }
  }

  /** A space at the end makes no difference to what is left after stripping. */
  lemma {:induction false} StripLeftOfInit(s: string)
    requires s != [] && IsSpace(s[|s| - 1])
    ensures Strip(s[..|s| - 1]) == Strip(s)
  {
    if IsSpace(s[0]) {
      if |s| > 1 {
        assert s[1..][..|s| - 2] == s[..|s| - 1][1..];
        StripLeftOfInit(s[1..]);
      }
    }
  }

  /** A dictionary of clean pairs reads back as written. */
  lemma {:induction false} ReadWritten(pairs: Pairs, entries: map<string, string>)
    requires CleanPairs(pairs)
    ensures ReadFrom(WriteSnapshot(pairs), entries) == Dictionary(pairs, entries)
  {
    var text := WriteSnapshot(pairs);
    if pairs == [] {
      SplitLine([], []);
      assert text == [] + "\n" + [];
      assert AddLine(entries, []) == entries;
    } else {
      var next := entries[pairs[0].0 := pairs[0].1];
      AddCleanLine(entries, pairs[0]);
      if |pairs| == 1 {
        SplitLine(Line(pairs[0]), []);
        assert text == Line(pairs[0]) + "\n" + [];
        assert Dictionary(pairs[1..], next) == next;
      } else {
        SplitLine(Line(pairs[0]), WriteSnapshot(pairs[1..]));
        assert text == Line(pairs[0]) + "\n" + WriteSnapshot(pairs[1..]);
        ReadWritten(pairs[1..], next);
      }
    }
  }

  lemma {:induction false} DictionaryHolds(pairs: Pairs, entries: map<string, string>, i: nat)
    requires DistinctKeys(pairs) && i < |pairs|
    ensures var d := Dictionary(pairs, entries); pairs[i].0 in d && d[pairs[i].0] == pairs[i].1
    decreases |pairs|
  {
    if i == 0 {
      DictionaryKeeps(pairs[1..], entries[pairs[0].0 := pairs[0].1], pairs[0].0);
    } else {
      DictionaryHolds(pairs[1..], entries[pairs[0].0 := pairs[0].1], i - 1);
    }
  }

  lemma {:induction false} DictionaryKeeps(pairs: Pairs, entries: map<string, string>, key: string)
    requires key in entries && forall i :: 0 <= i < |pairs| ==> pairs[i].0 != key
    ensures var d := Dictionary(pairs, entries); key in d && d[key] == entries[key]
  {
    if pairs != [] {
      DictionaryKeeps(pairs[1..], entries[pairs[0].0 := pairs[0].1], key);
    }
  }

  /** Reading a written snapshot gives the dictionary back exactly when every key is free of `=`
      and every key and value of line breaks and outer whitespace. */
  lemma {:induction false} SnapshotRoundTrip(pairs: Pairs)
    requires DistinctKeys(pairs)
    ensures ReadFrom(WriteSnapshot(pairs), map[]) == Dictionary(pairs, map[]) <==> CleanPairs(pairs)
  {
    if CleanPairs(pairs) {
      ReadWritten(pairs, map[]);
    } else {
      ReadIsClean(WriteSnapshot(pairs), map[]);
      var p :| p in pairs && !CleanPair(p.0, p.1);
      var i :| 0 <= i < |pairs| && pairs[i] == p;
      DictionaryHolds(pairs, map[], i);
    }
  }

  /** Numbers are always stored in clean form. */
  lemma {:induction false} NumeralsArePlain(n: nat)
    ensures Plain(Str(n))
  {
    var s := Str(n);
    assert forall c :: IsDigit(c) ==> !IsSpace(c) && !IsLineBreak(c);
    forall c | c in s
      ensures IsDigit(c)
    {
      var i :| 0 <= i < |s| && s[i] == c;
    }
  }
}
