/** Replacing the generated regions of a document between marker comments. */
module Markers {
  import opened Common

  const BEGIN_RECON := "<!-- BEGIN GENERATED " + "RECONCILIATION TABLE -->"
  const END_RECON := "<!-- END GENERATED " + "RECONCILIATION TABLE -->"
  const BEGIN_NON := "<!-- BEGIN GENERATED " + "NON-OVERLAPS TABLE -->"
  const END_NON := "<!-- END GENERATED " + "NON-OVERLAPS TABLE -->"

  // ----- Occurrences --------------------------------------------------------------------

  predicate MatchesFrom(s: string, m: string, i: nat, k: nat)
    requires i + |m| <= |s| && k <= |m|
    decreases |m| - k
  {
    k == |m| || (s[i + k] == m[k] && MatchesFrom(s, m, i, k + 1))
  }

  predicate OccursAt(s: string, m: string, i: int) {
    0 <= i && i + |m| <= |s| && MatchesFrom(s, m, i, 0)
  }

  lemma {:induction false} MatchesMeans(s: string, m: string, i: nat, k: nat)
    requires i + |m| <= |s| && k <= |m|
    ensures MatchesFrom(s, m, i, k) <==> forall l :: k <= l < |m| ==> s[i + l] == m[l]
    decreases |m| - k
  {
    if k < |m| {
      MatchesMeans(s, m, i, k + 1);
    }
  }

  lemma {:induction false} OccursMeans(s: string, m: string, i: int)
    ensures OccursAt(s, m, i) <==> 0 <= i && i + |m| <= |s| && forall k :: 0 <= k < |m| ==> s[i + k] == m[k]
  {
    if 0 <= i && i + |m| <= |s| {
      MatchesMeans(s, m, i, 0);
    }
  }

  /** The first occurrence at or after `from`, or -1. */
  function Find(s: string, m: string, from: nat): (i: int)
    ensures i == -1 || (from <= i && i + |m| <= |s|)
    decreases |s| - from
  {
    if from + |m| > |s| then -1
    else if OccursAt(s, m, from) then from
    else Find(s, m, from + 1)
  }

  lemma {:induction false} FindMeans(s: string, m: string, from: nat)
    ensures var i := Find(s, m, from);
            (i == -1 || OccursAt(s, m, i))
            && forall j :: from <= j && (i == -1 || j < i) ==> !OccursAt(s, m, j)
    decreases |s| - from
  {
    if from + |m| <= |s| && !OccursAt(s, m, from) {
      FindMeans(s, m, from + 1);
    }
  }

  /** The number of non-overlapping occurrences, scanning left to right. */
  function Count(s: string, m: string, from: nat): nat
    requires m != []
    decreases |s| - from
  {
    var i := Find(s, m, from);
    if i == -1 then 0 else 1 + Count(s, m, i + |m|)
  }

  /** The scan finds `m` once, at `i`. */
  predicate OnlyAt(s: string, m: string, i: nat)
    requires m != []
  {
    Find(s, m, 0) == i && Count(s, m, 0) == 1
  }

  predicate Clean(r: string, m: string) {
    Find(r, m, 0) == -1
  }

  lemma {:induction false} CleanMeans(r: string, m: string)
    ensures Clean(r, m) <==> forall j :: !OccursAt(r, m, j)
  {
    FindMeans(r, m, 0);
  }

  lemma {:induction false} OnlyMeans(s: string, m: string, i: nat)
    requires m != []
    ensures OnlyAt(s, m, i)
            <==> OccursAt(s, m, i) && forall j :: j < i || i + |m| <= j ==> !OccursAt(s, m, j)
  {
    FindMeans(s, m, 0);
    var first := Find(s, m, 0);
    if first != -1 {
      FindMeans(s, m, first + |m|);
      var second := Find(s, m, first + |m|);
      assert Count(s, m, 0) == 1 + Count(s, m, first + |m|);
      assert Count(s, m, 0) == 1 <==> second == -1;
    }
  }

  // ----- Replacement --------------------------------------------------------------------

  datatype MarkerError = Missing(marker: string) | Duplicate(marker: string) | OutOfOrder(begin: string, end: string)

  function Splice(s: string, begin: nat, end: nat, replacement: string): string
    requires begin <= end <= |s|
  {
    s[..begin] + "\n" + replacement + "\n" + s[end..]
  }

  function ReplaceBetweenMarkers(content: string, begin: string, end: string, replacement: string)
    : Result<string, MarkerError>
    requires begin != [] && end != []
  {
    var beginCount := Count(content, begin, 0);
    var endCount := Count(content, end, 0);
    if beginCount == 0 then Err(Missing(begin))
    else if endCount == 0 then Err(Missing(end))
    else if beginCount > 1 then Err(Duplicate(begin))
    else if endCount > 1 then Err(Duplicate(end))
    else
      var beginIdx := Find(content, begin, 0) + |begin|;
      var endIdx := Find(content, end, 0);
      if beginIdx > endIdx then Err(OutOfOrder(begin, end))
      else Ok(Splice(content, beginIdx, endIdx, replacement))
  }

  predicate IsAt(s: string, m: string, i: int) {
    0 <= i && i + |m| <= |s| && s[i..i + |m|] == m
  }

  /** `m` is at `i`, and nowhere before it or after its end. */
  ghost predicate Alone(s: string, m: string, i: int) {
    IsAt(s, m, i) && forall j :: j < i || i + |m| <= j ==> !IsAt(s, m, j)
  }

  /** The begin marker is alone and ends before the end marker, alone as well, starts. */
  ghost predicate Delimited(s: string, begin: string, end: string, i: int, j: int) {
    Alone(s, begin, i) && Alone(s, end, j) && i + |begin| <= j
  }

  lemma {:induction false} OccursSlice(s: string, m: string, i: int)
    ensures OccursAt(s, m, i) <==> IsAt(s, m, i)
  {
    OccursMeans(s, m, i);
    if 0 <= i && i + |m| <= |s| {
      var x := s[i..i + |m|];
      assert forall k :: 0 <= k < |m| ==> x[k] == s[i + k];
      assert (forall k :: 0 <= k < |m| ==> x[k] == m[k]) ==> x == m;
    }
  }

  lemma {:induction false} AloneIsOnly(s: string, m: string, i: nat)
    requires m != []
    ensures Alone(s, m, i) <==> OnlyAt(s, m, i)
  {
    OnlyMeans(s, m, i);
    forall j: int
      ensures OccursAt(s, m, j) <==> IsAt(s, m, j)
    {
      OccursSlice(s, m, j);
    }
  }

  lemma {:induction false} ReplacesAt(s: string, begin: string, end: string, r: string, i: nat, j: nat)
    requires begin != [] && end != [] && Delimited(s, begin, end, i, j)
    ensures ReplaceBetweenMarkers(s, begin, end, r) == Ok(s[..i + |begin|] + "\n" + r + "\n" + s[j..])
  {
    AloneIsOnly(s, begin, i);
    AloneIsOnly(s, end, j);
  }

  /** Replacement succeeds exactly when both markers are there once, in order, and then keeps all text up to
      the begin marker's end and from the end marker on. */
  lemma {:induction false} ReplacesExactly(s: string, begin: string, end: string, r: string)
    requires begin != [] && end != []
    ensures ReplaceBetweenMarkers(s, begin, end, r).Ok? <==> exists i, j :: Delimited(s, begin, end, i, j)
    ensures forall i, j :: Delimited(s, begin, end, i, j) ==>
              ReplaceBetweenMarkers(s, begin, end, r) == Ok(s[..i + |begin|] + "\n" + r + "\n" + s[j..])
  {
    if ReplaceBetweenMarkers(s, begin, end, r).Ok? {
      var i, j := Find(s, begin, 0), Find(s, end, 0);
      AloneIsOnly(s, begin, i);
      AloneIsOnly(s, end, j);
      assert Delimited(s, begin, end, i, j);
    }
    forall i, j | Delimited(s, begin, end, i, j)
      ensures ReplaceBetweenMarkers(s, begin, end, r) == Ok(s[..i + |begin|] + "\n" + r + "\n" + s[j..])
    {
      ReplacesAt(s, begin, end, r, i, j);
    }
  }

  /** None of m[from..to] is `c`. */
  predicate Avoids(m: string, c: char, from: nat, to: nat)
    requires from <= to <= |m|
    decreases |m| - from
  {
    from == to || (m[from] != c && Avoids(m, c, from + 1, to))
  }

  lemma {:induction false} AvoidsMeans(m: string, c: char, from: nat, to: nat)
    requires from <= to <= |m|
    ensures Avoids(m, c, from, to) <==> (forall k :: from <= k < to ==> m[k] != c)
    decreases |m| - from
  {
    if from < to {
      AvoidsMeans(m, c, from + 1, to);
    }
  }

  predicate OneLine(m: string) {
    m != [] && Avoids(m, '\n', 0, |m|)
  }

  /** A one-line marker does not reach over a newline. */
  lemma {:induction false} StaysOnLine(t: string, m: string, j: int, pos: nat)
    requires OneLine(m) && OccursAt(t, m, j) && pos < |t| && t[pos] == '\n'
    ensures pos < j || j + |m| <= pos
  {
    OccursMeans(t, m, j);
    var k := pos - j;
    assert 0 <= k < |m| ==> t[j + k] == m[k];
    AvoidsMeans(m, '\n', 0, |m|);
  }

  /** The same characters hold the same occurrences. */
  lemma {:induction false} SameOccurrence(s: string, i: nat, t: string, j: nat, m: string)
    requires i + |m| <= |s| && j + |m| <= |t|
    requires s[i..i + |m|] == t[j..j + |m|]
    ensures OccursAt(s, m, i) <==> OccursAt(t, m, j)
  {
    OccursMeans(s, m, i);
    OccursMeans(t, m, j);
    var x := s[i..i + |m|];
    assert forall k :: 0 <= k < |m| ==> x[k] == s[i + k] && x[k] == t[j + k];
  }

  lemma {:induction false} SplicedSlice(s: string, begin: nat, end: nat, r: string, j: nat, n: nat)
    requires begin <= end <= |s|
    ensures var t, shift := Splice(s, begin, end, r), begin + |r| + 2 - end;
            && |t| == |s| + shift && t[begin] == '\n' && t[begin + 1 + |r|] == '\n'
            && (j + n <= begin ==> t[j..j + n] == s[j..j + n])
            && (begin < j && j + n <= begin + 1 + |r| ==> t[j..j + n] == r[j - begin - 1..j - begin - 1 + n])
            && (end + shift <= j && j + n <= |t| ==> t[j..j + n] == s[j - shift..j - shift + n])
  {
  }

  /** Occurrences of a one-line marker in spliced text lie before, in or after the replacement:
      they cannot straddle the inserted newlines. */
  lemma {:induction false} SplicedOccurrences(s: string, begin: nat, end: nat, r: string, m: string, j: int)
    requires begin <= end <= |s| && OneLine(m)
    ensures var shift := begin + |r| + 2 - end;
            OccursAt(Splice(s, begin, end, r), m, j)
            <==> || (j + |m| <= begin && OccursAt(s, m, j))
                 || (begin < j && j + |m| <= begin + |r| + 1 && OccursAt(r, m, j - begin - 1))
                 || (end + shift <= j && OccursAt(s, m, j - shift))
  {
    if j >= 0 {
      var t, shift, n := Splice(s, begin, end, r), begin + |r| + 2 - end, |m|;
      SplicedSlice(s, begin, end, r, j, n);
      if OccursAt(t, m, j) {
        StaysOnLine(t, m, j, begin);
        StaysOnLine(t, m, j, begin + 1 + |r|);
      }
      if j + n <= begin {
        SameOccurrence(s, j, t, j, m);
      } else if begin < j && j + n <= begin + |r| + 1 {
        SameOccurrence(r, j - begin - 1, t, j, m);
      } else if end + shift <= j && j + n <= |t| {
        SameOccurrence(s, j - shift, t, j, m);
      }
    }
  }

  /** The region holds exactly this replacement, between markers that occur once. */
  predicate Filled(s: string, begin: string, end: string, r: string, i: nat, j: nat)
    requires begin != [] && end != []
  {
    OnlyAt(s, begin, i) && OnlyAt(s, end, j) && j == i + |begin| + |r| + 2
    && s[i + |begin|..j] == "\n" + r + "\n"
  }

  /** Replacing a filled region by what it holds changes nothing. */
  lemma {:induction false} FilledIsFixed(s: string, begin: string, end: string, r: string, i: nat, j: nat)
    requires begin != [] && end != [] && Filled(s, begin, end, r, i, j)
    ensures ReplaceBetweenMarkers(s, begin, end, r) == Ok(s)
  {
    RefillText(s, r, i + |begin|, j);
  }

  lemma {:induction false} RefillText(s: string, r: string, from: nat, to: nat)
    requires from <= to <= |s| && s[from..to] == "\n" + r + "\n"
    ensures Splice(s, from, to, r) == s
  {
    assert s == s[..from] + s[from..to] + s[to..];
  }

  lemma {:induction false} FillText(s: string, r: string, from: nat, to: nat)
    requires from <= to <= |s|
    ensures Splice(s, from, to, r)[from..from + |r| + 2] == "\n" + r + "\n"
  {
  }

  /** A marker before or after the spliced part stays the only one, moved along with its text. */
  lemma {:induction false} SpliceKeepsOnly(s: string, m: string, i: nat, from: nat, to: nat, r: string)
    requires OneLine(m) && Clean(r, m) && OnlyAt(s, m, i)
    requires from <= to <= |s| && (i + |m| <= from || to <= i)
    ensures OnlyAt(Splice(s, from, to, r), m, if to <= i then i + from + |r| + 2 - to else i)
  {
    var t, shift := Splice(s, from, to, r), from + |r| + 2 - to;
    var i' := if to <= i then i + shift else i;
    CleanMeans(r, m);
    OnlyMeans(s, m, i);
    OnlyMeans(t, m, i');
    SplicedOccurrences(s, from, to, r, m, i');
    forall k | k < i' || i' + |m| <= k
      ensures !OccursAt(t, m, k)
    {
      SplicedOccurrences(s, from, to, r, m, k);
    }
  }

  /** A successful replacement by clean text leaves a filled region. */
  lemma {:induction false} ReplaceFills(s: string, begin: string, end: string, r: string, i: nat, j: nat)
    requires OneLine(begin) && OneLine(end) && Clean(r, begin) && Clean(r, end)
    requires OnlyAt(s, begin, i) && OnlyAt(s, end, j) && i + |begin| <= j
    ensures Filled(Splice(s, i + |begin|, j, r), begin, end, r, i, i + |begin| + |r| + 2)
  {
    BeginStays(s, begin, i, j, r);
    SpliceKeepsOnly(s, end, j, i + |begin|, j, r);
    FillText(s, r, i + |begin|, j);
  }

  lemma {:induction false} BeginStays(s: string, begin: string, i: nat, j: nat, r: string)
    requires OneLine(begin) && Clean(r, begin) && OnlyAt(s, begin, i) && i + |begin| <= j <= |s|
    ensures OnlyAt(Splice(s, i + |begin|, j, r), begin, i)
  {
    assert j > i;
    SpliceKeepsOnly(s, begin, i, i + |begin|, j, r);
  }

  /** A marker inside the replacement is there besides the one that delimits it. */
  lemma {:induction false} MarkerTwice(s: string, m: string, i: nat, from: nat, to: nat, r: string)
    requires OneLine(m) && !Clean(r, m) && OnlyAt(s, m, i)
    requires from <= to <= |s| && (i + |m| <= from || to <= i)
    ensures Count(Splice(s, from, to, r), m, 0) > 1
  {
    var t, shift := Splice(s, from, to, r), from + |r| + 2 - to;
    var inside := from + 1 + Find(r, m, 0);
    var i' := if to <= i then i + shift else i;
    FindMeans(r, m, 0);
    OnlyMeans(s, m, i);
    SplicedOccurrences(s, from, to, r, m, inside);
    SplicedOccurrences(s, from, to, r, m, i');
    var low, high := if to <= i then inside else i', if to <= i then i' else inside;
    TwoOccurrences(t, m, low, high);
  }

  lemma {:induction false} TwoOccurrences(t: string, m: string, low: nat, high: nat)
    requires m != [] && OccursAt(t, m, low) && OccursAt(t, m, high) && low + |m| <= high
    ensures Count(t, m, 0) > 1
  {
    FindMeans(t, m, 0);
    var first := Find(t, m, 0);
    FindMeans(t, m, first + |m|);
    assert Count(t, m, 0) == 1 + Count(t, m, first + |m|);
  }

  /** Running a successful replacement again gives the same text exactly when the replacement
      contains neither marker. */
  lemma {:induction false} ReplaceIsIdempotent(s: string, begin: string, end: string, r: string)
    requires OneLine(begin) && OneLine(end)
    requires ReplaceBetweenMarkers(s, begin, end, r).Ok?
    ensures var t := ReplaceBetweenMarkers(s, begin, end, r).value;
            ReplaceBetweenMarkers(t, begin, end, r) == Ok(t) <==> Clean(r, begin) && Clean(r, end)
  {
    var i, j := Find(s, begin, 0), Find(s, end, 0);
    if Clean(r, begin) && Clean(r, end) {
      ReplaceFills(s, begin, end, r, i, j);
      FilledIsFixed(Splice(s, i + |begin|, j, r), begin, end, r, i, i + |begin| + |r| + 2);
    } else if !Clean(r, begin) {
      MarkerTwice(s, begin, i, i + |begin|, j, r);
    } else {
      MarkerTwice(s, end, j, i + |begin|, j, r);
    }
  }

  // ----- The two regions ------------------------------------------------------------------

  /** A marker comment: `<` only first, `>` only last, on one line. */
  predicate IsMarker(m: string) {
    |m| >= 2 && m[0] == '<' && m[|m| - 1] == '>'
    && Avoids(m, '<', 1, |m|) && Avoids(m, '>', 0, |m| - 1) && OneLine(m)
  }

  lemma {:induction false} MarkerMeans(m: string)
    requires |m| >= 2 && m[0] == '<' && m[|m| - 1] == '>'
    ensures IsMarker(m)
            <==> && (forall k :: 1 <= k < |m| ==> m[k] != '<')
                 && (forall k :: 0 <= k < |m| - 1 ==> m[k] != '>')
                 && (forall k :: 0 <= k < |m| ==> m[k] != '\n')
  {
    AvoidsMeans(m, '<', 1, |m|);
    AvoidsMeans(m, '>', 0, |m| - 1);
    AvoidsMeans(m, '\n', 0, |m|);
  }

  lemma {:induction false} BeginReconIsMarker()
    ensures IsMarker(BEGIN_RECON)
  {
    MarkerMeans(BEGIN_RECON);
  }

  lemma {:induction false} EndReconIsMarker()
    ensures IsMarker(END_RECON)
  {
    MarkerMeans(END_RECON);
  }

  lemma {:induction false} BeginNonIsMarker()
    ensures IsMarker(BEGIN_NON)
  {
    MarkerMeans(BEGIN_NON);
  }

  lemma {:induction false} EndNonIsMarker()
    ensures IsMarker(END_NON)
  {
    MarkerMeans(END_NON);
  }

  lemma {:induction false} MarkersDiffer()
    ensures BEGIN_RECON != END_RECON && BEGIN_RECON != BEGIN_NON && BEGIN_RECON != END_NON
    ensures END_RECON != BEGIN_NON && END_RECON != END_NON && BEGIN_NON != END_NON
  {
    assert |BEGIN_RECON| == 45 && |END_RECON| == 43 && |BEGIN_NON| == 43 && |END_NON| == 41;
    assert BEGIN_NON[5] == 'B' && END_RECON[5] == 'E';
  }

  lemma {:induction false} MarkersAreMarkers()
    ensures IsMarker(BEGIN_RECON) && IsMarker(END_RECON) && IsMarker(BEGIN_NON) && IsMarker(END_NON)
    ensures BEGIN_RECON != END_RECON && BEGIN_RECON != BEGIN_NON && BEGIN_RECON != END_NON
    ensures END_RECON != BEGIN_NON && END_RECON != END_NON && BEGIN_NON != END_NON
  {
    BeginReconIsMarker();
    EndReconIsMarker();
    BeginNonIsMarker();
    EndNonIsMarker();
    MarkersDiffer();
  }

  /** Characters two overlapping occurrences share. */
  lemma {:induction false} SharedCharacters(s: string, a: string, b: string, i: int, j: int)
    requires OccursAt(s, a, i) && OccursAt(s, b, j) && |a| > 0 && |b| > 0
    ensures i < j < i + |a| ==> a[j - i] == b[0]
    ensures i == j && |a| < |b| ==> b[|a| - 1] == a[|a| - 1]
    ensures i == j && |b| < |a| ==> a[|b| - 1] == b[|b| - 1]
    ensures i == j && |a| == |b| ==> a == b
  {
    OccursMeans(s, a, i);
    OccursMeans(s, b, j);
    if i < j < i + |a| {
      assert s[i + (j - i)] == a[j - i] && s[j + 0] == b[0];
    } else if i == j {
      assert forall k :: 0 <= k < |a| && k < |b| ==> s[i + k] == a[k] && s[j + k] == b[k];
    }
  }

  /** Two markers never overlap. */
  lemma {:induction false} MarkersDoNotOverlap(s: string, a: string, b: string, i: int, j: int)
    requires IsMarker(a) && IsMarker(b) && OccursAt(s, a, i) && OccursAt(s, b, j)
    requires i < j || (i == j && a != b)
    ensures i + |a| <= j
  {
    SharedCharacters(s, a, b, i, j);
    MarkerMeans(a);
    MarkerMeans(b);
  }

  lemma {:induction false} OnlyIsUnique(s: string, m: string, i: nat, j: int)
    requires IsMarker(m) && OnlyAt(s, m, i) && OccursAt(s, m, j)
    ensures i == j
  {
    OnlyMeans(s, m, i);
    if i < j {
      MarkersDoNotOverlap(s, m, m, i, j);
    }
  }

  datatype Tables = Tables(recon: string, nonOverlaps: string)

  /** The begin and end markers of the two regions. */
  datatype Markers = Markers(beginRecon: string, endRecon: string, beginNon: string, endNon: string)

  const DOCUMENT_MARKERS := Markers(BEGIN_RECON, END_RECON, BEGIN_NON, END_NON)

  predicate AreMarkers(m: Markers) {
    && IsMarker(m.beginRecon) && IsMarker(m.endRecon) && IsMarker(m.beginNon) && IsMarker(m.endNon)
    && m.beginRecon != m.endRecon && m.beginRecon != m.beginNon && m.beginRecon != m.endNon
    && m.endRecon != m.beginNon && m.endRecon != m.endNon && m.beginNon != m.endNon
  }

  /** The document with both regions regenerated. */
  function Generate(content: string, m: Markers, tables: Tables): Result<string, MarkerError>
    requires AreMarkers(m)
  {
    match ReplaceBetweenMarkers(content, m.beginRecon, m.endRecon, tables.recon)
    case Err(e) => Err(e)
    case Ok(half) => ReplaceBetweenMarkers(half, m.beginNon, m.endNon, tables.nonOverlaps)
  }

  /** What --check reports. */
  predicate UpToDate(content: string, m: Markers, tables: Tables)
    requires AreMarkers(m)
  {
    Generate(content, m, tables) == Ok(content)
  }

  predicate HasNoMarker(r: string, m: Markers) {
    Clean(r, m.beginRecon) && Clean(r, m.endRecon) && Clean(r, m.beginNon) && Clean(r, m.endNon)
  }

  predicate CleanTables(m: Markers, tables: Tables) {
    HasNoMarker(tables.recon, m) && HasNoMarker(tables.nonOverlaps, m)
  }

  /** BEGIN of the non-overlaps region comes before the reconciliation region, END after it. */
  predicate Nested(content: string, m: Markers) {
    var i, j := Find(content, m.beginRecon, 0), Find(content, m.endRecon, 0);
    i >= 0 && j >= 0
    && 0 <= Find(content, m.beginNon, 0) < i && Find(content, m.endNon, j) >= 0
  }

  /** Splicing elsewhere keeps a filled region filled. */
  lemma {:induction false} SpliceKeepsFilled(s: string, begin: string, end: string, r: string, i: nat, j: nat,
                                             from: nat, to: nat, other: string)
    requires IsMarker(begin) && IsMarker(end) && Clean(other, begin) && Clean(other, end)
    requires Filled(s, begin, end, r, i, j) && from <= to <= |s|
    requires j + |end| <= from || to <= i
    ensures var d := if to <= i then from + |other| + 2 - to else 0;
            Filled(Splice(s, from, to, other), begin, end, r, i + d, j + d)
  {
    SpliceKeepsOnly(s, begin, i, from, to, other);
    SpliceKeepsOnly(s, end, j, from, to, other);
    SplicedText(s, from, to, other, i + |begin|, j);
  }

  lemma {:induction false} SplicedText(s: string, from: nat, to: nat, other: string, i: nat, j: nat)
    requires from <= to <= |s| && i <= j <= |s| && (j <= from || to <= i)
    ensures var d := if to <= i then from + |other| + 2 - to else 0;
            j + d <= |Splice(s, from, to, other)| && Splice(s, from, to, other)[i + d..j + d] == s[i..j]
  {
  }

  /** Splicing over a begin marker removes it, so a second run fails. */
  lemma {:induction false} SpliceRemoves(s: string, m: string, i: nat, from: nat, to: nat, other: string)
    requires IsMarker(m) && Clean(other, m) && OnlyAt(s, m, i)
    requires from <= to <= |s| && from < i + |m| && i < to
    ensures Count(Splice(s, from, to, other), m, 0) == 0
  {
    var t, shift := Splice(s, from, to, other), from + |other| + 2 - to;
    CleanMeans(other, m);
    FindMeans(t, m, 0);
    forall k
      ensures !OccursAt(t, m, k)
    {
      SplicedOccurrences(s, from, to, other, m, k);
      if OccursAt(s, m, k) { OnlyIsUnique(s, m, i, k); }
      if OccursAt(s, m, k - shift) { OnlyIsUnique(s, m, i, k - shift); }
    }
  }

  /** Where a marker other than the region's own can be once the region is filled. */
  lemma {:induction false} BesideRegion(s: string, begin: string, end: string, r: string, i: nat, j0: nat, m: string,
                                        p: nat)
    requires IsMarker(begin) && IsMarker(end) && IsMarker(m) && m != begin && m != end && Clean(r, m)
    requires OnlyAt(s, begin, i) && OnlyAt(s, end, j0) && i + |begin| <= j0
    requires OccursAt(Splice(s, i + |begin|, j0, r), m, p)
    ensures var shift := i + |begin| + |r| + 2 - j0;
            (p + |m| <= i && OccursAt(s, m, p))
            || (j0 + shift + |end| <= p && OccursAt(s, m, p - shift))
  {
    var shift := i + |begin| + |r| + 2 - j0;
    CleanMeans(r, m);
    OnlyMeans(s, begin, i);
    OnlyMeans(s, end, j0);
    SplicedOccurrences(s, i + |begin|, j0, r, m, p);
    if p + |m| <= i + |begin| && OccursAt(s, m, p) {
      if p < i {
        MarkersDoNotOverlap(s, m, begin, p, i);
      } else {
        MarkersDoNotOverlap(s, begin, m, i, p);
      }
    } else {
      MarkersDoNotOverlap(s, end, m, j0, p - shift);
    }
  }

  /** The positions of the four markers after the first replacement. */
  predicate HalfWay(content: string, m: Markers, tables: Tables, half: string, i: nat, j0: nat, p: nat, q: nat)
    requires AreMarkers(m)
  {
    && OnlyAt(content, m.beginRecon, i) && OnlyAt(content, m.endRecon, j0) && i + |m.beginRecon| <= j0
    && half == Splice(content, i + |m.beginRecon|, j0, tables.recon)
    && OnlyAt(half, m.beginNon, p) && OnlyAt(half, m.endNon, q) && p + |m.beginNon| <= q
  }

  /** The non-overlaps region is beside the reconciliation region, or around it. */
  lemma {:induction false} BesideOrAround(content: string, m: Markers, tables: Tables, half: string, i: nat, j0: nat,
                                          p: nat, q: nat)
    requires AreMarkers(m) && CleanTables(m, tables) && HalfWay(content, m, tables, half, i, j0, p, q)
    ensures var j := i + |m.beginRecon| + |tables.recon| + 2;
            && (j + |m.endRecon| <= p || q + |m.endNon| <= i || (p + |m.beginNon| <= i && j < q))
            && (p < i && j < q <==> Nested(content, m))
  {
    var j := i + |m.beginRecon| + |tables.recon| + 2;
    var shift := j - j0;
    OnlyMeans(half, m.beginNon, p);
    OnlyMeans(half, m.endNon, q);
    BesideRegion(content, m.beginRecon, m.endRecon, tables.recon, i, j0, m.beginNon, p);
    BesideRegion(content, m.beginRecon, m.endRecon, tables.recon, i, j0, m.endNon, q);
    BeginBefore(content, m.beginRecon, tables.recon, i, j0, m.beginNon, p);
    EndAfter(content, m.beginRecon, m.endRecon, tables.recon, i, j0, m.endNon, q);
  }

  /** The non-overlaps BEGIN is before the region afterwards exactly when one was before. */
  lemma {:induction false} BeginBefore(s: string, begin: string, r: string, i: nat, j0: nat, m: string, p: nat)
    requires IsMarker(begin) && IsMarker(m) && m != begin && OnlyAt(s, begin, i) && i + |begin| <= j0 <= |s|
    requires OnlyAt(Splice(s, i + |begin|, j0, r), m, p)
    ensures p < i <==> 0 <= Find(s, m, 0) < i
  {
    var half := Splice(s, i + |begin|, j0, r);
    OnlyMeans(s, begin, i);
    OnlyMeans(half, m, p);
    FindMeans(s, m, 0);
    var p0 := Find(s, m, 0);
    SplicedOccurrences(s, i + |begin|, j0, r, m, p);
    if 0 <= p0 < i {
      MarkersDoNotOverlap(s, m, begin, p0, i);
      SplicedOccurrences(s, i + |begin|, j0, r, m, p0);
      OnlyIsUnique(half, m, p, p0);
    }
  }

  /** The non-overlaps END is after the region afterwards exactly when one was after. */
  lemma {:induction false} EndAfter(s: string, begin: string, end: string, r: string, i: nat, j0: nat, m: string,
                                    q: nat)
    requires IsMarker(begin) && IsMarker(end) && IsMarker(m) && m != begin && m != end && Clean(r, m)
    requires OnlyAt(s, begin, i) && OnlyAt(s, end, j0) && i + |begin| <= j0
    requires OnlyAt(Splice(s, i + |begin|, j0, r), m, q)
    ensures i + |begin| + |r| + 2 < q <==> Find(s, m, j0) >= 0
  {
    var half, shift := Splice(s, i + |begin|, j0, r), i + |begin| + |r| + 2 - j0;
    OnlyMeans(half, m, q);
    BesideRegion(s, begin, end, r, i, j0, m, q);
    FindMeans(s, m, j0);
    var q0 := Find(s, m, j0);
    if q0 >= 0 {
      SplicedOccurrences(s, i + |begin|, j0, r, m, q0 + shift);
      OnlyIsUnique(half, m, q, q0 + shift);
      OnlyMeans(s, end, j0);
      if q0 == j0 {
        MarkersDoNotOverlap(s, m, end, q0, j0);
      }
    }
  }

  /** Beside: the reconciliation region stays filled, where it was or moved along, so both are filled. */
  lemma {:induction false} SecondRunBeside(half: string, m: Markers, tables: Tables, i: nat, j: nat, p: nat, q: nat)
    requires AreMarkers(m) && CleanTables(m, tables)
    requires Filled(half, m.beginRecon, m.endRecon, tables.recon, i, j)
    requires OnlyAt(half, m.beginNon, p) && OnlyAt(half, m.endNon, q) && p + |m.beginNon| <= q
    requires j + |m.endRecon| <= p + |m.beginNon| || q <= i
    ensures UpToDate(Splice(half, p + |m.beginNon|, q, tables.nonOverlaps), m, tables)
  {
    var from, r := p + |m.beginNon|, tables.nonOverlaps;
    var full, d := Splice(half, from, q, r), if q <= i then from + |r| + 2 - q else 0;
    SpliceKeepsFilled(half, m.beginRecon, m.endRecon, tables.recon, i, j, from, q, r);
    FilledTwice(full, m, tables, half, i + d, j + d, p, q);
  }

  lemma {:induction false} FilledTwice(full: string, m: Markers, tables: Tables, half: string, i: nat, j: nat, p: nat,
                                       q: nat)
    requires AreMarkers(m) && CleanTables(m, tables)
    requires OnlyAt(half, m.beginNon, p) && OnlyAt(half, m.endNon, q) && p + |m.beginNon| <= q
    requires full == Splice(half, p + |m.beginNon|, q, tables.nonOverlaps)
    requires Filled(full, m.beginRecon, m.endRecon, tables.recon, i, j)
    ensures UpToDate(full, m, tables)
  {
    ReplaceFills(half, m.beginNon, m.endNon, tables.nonOverlaps, p, q);
    BothFilled(full, m, tables, i, j, p, p + |m.beginNon| + |tables.nonOverlaps| + 2);
  }

  lemma {:induction false} BothFilled(full: string, m: Markers, tables: Tables, i: nat, j: nat, p: nat, q: nat)
    requires AreMarkers(m)
    requires Filled(full, m.beginRecon, m.endRecon, tables.recon, i, j)
    requires Filled(full, m.beginNon, m.endNon, tables.nonOverlaps, p, q)
    ensures UpToDate(full, m, tables)
  {
    FilledIsFixed(full, m.beginRecon, m.endRecon, tables.recon, i, j);
    FilledIsFixed(full, m.beginNon, m.endNon, tables.nonOverlaps, p, q);
  }

  /** Around: writing erases a reconciliation marker, so the second run fails. */
  lemma {:induction false} SecondRunAround(half: string, m: Markers, tables: Tables, i: nat, p: nat, q: nat)
    requires AreMarkers(m) && CleanTables(m, tables) && OnlyAt(half, m.beginRecon, i)
    requires p + |m.beginNon| <= i < q <= |half|
    ensures !UpToDate(Splice(half, p + |m.beginNon|, q, tables.nonOverlaps), m, tables)
  {
    SpliceRemoves(half, m.beginRecon, i, p + |m.beginNon|, q, tables.nonOverlaps);
  }

  lemma {:induction false} SecondRun(content: string, m: Markers, tables: Tables, half: string, i: nat, j0: nat,
                                     p: nat, q: nat)
    requires AreMarkers(m) && CleanTables(m, tables) && HalfWay(content, m, tables, half, i, j0, p, q)
    ensures UpToDate(Splice(half, p + |m.beginNon|, q, tables.nonOverlaps), m, tables) <==> !Nested(content, m)
  {
    BesideOrAround(content, m, tables, half, i, j0, p, q);
    ReplaceFills(content, m.beginRecon, m.endRecon, tables.recon, i, j0);
    var j := i + |m.beginRecon| + |tables.recon| + 2;
    if p < i && j < q {
      SecondRunAround(half, m, tables, i, p, q);
    } else {
      SecondRunBeside(half, m, tables, i, j, p, q);
    }
  }

  /** What the two replacements of a successful run do. */
  lemma {:induction false} GenerateSteps(content: string, m: Markers, tables: Tables)
    returns (half: string, i: nat, j0: nat, p: nat, q: nat)
    requires AreMarkers(m) && Generate(content, m, tables).Ok?
    ensures HalfWay(content, m, tables, half, i, j0, p, q)
    ensures Generate(content, m, tables) == Ok(Splice(half, p + |m.beginNon|, q, tables.nonOverlaps))
  {
    half := ReplaceBetweenMarkers(content, m.beginRecon, m.endRecon, tables.recon).value;
    i, j0 := Find(content, m.beginRecon, 0), Find(content, m.endRecon, 0);
    p, q := Find(half, m.beginNon, 0), Find(half, m.endNon, 0);
  }

  /** Writing the document and then checking it reports up to date exactly when the
      reconciliation region was not inside the non-overlaps region: writing then erases its markers. */
  lemma {:induction false} CheckAfterWrite(content: string, m: Markers, tables: Tables)
    requires AreMarkers(m) && CleanTables(m, tables) && Generate(content, m, tables).Ok?
    ensures UpToDate(Generate(content, m, tables).value, m, tables) <==> !Nested(content, m)
  {
    var half, i, j0, p, q := GenerateSteps(content, m, tables);
    SecondRun(content, m, tables, half, i, j0, p, q);
  }

  /** The markers of the document are proper ones, so the result above is about them. */
  lemma {:induction false} DocumentMarkers()
    ensures AreMarkers(DOCUMENT_MARKERS)
  {
    MarkersAreMarkers();
  }
}
