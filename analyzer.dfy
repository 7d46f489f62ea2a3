/**
 * `analyze`: the paragraph count, the three heuristics in order, then one
 * `instability` observation and one unstable-paragraph entry for every
 * position rewritten at least twice, in the key order of the rewrite counts.
 */
module Analyzer {
  import opened Options
  import opened Text
  import opened Schemas
  import opened Paragraphs
  import opened Instability
  import opened Detectors

  /** Positions rewritten at least this often are unstable. */
  const UnstableThreshold: int := 2

  /** The heuristics' observations, in the order `analyze` collects them. */
  function Detections(ps: seq<string>): seq<Observation> {
    Scan(LongParagraph, ps) + Scan(UnsupportedClaim, ps) + Scan(VagueLanguage, ps)
  }

  /** Severity of an instability observation: 1 below four rewrites, 2 from four on. */
  function InstabilitySeverity(count: int): (s: int)
    ensures s == 1 <==> count < 4
    ensures s == 2 <==> count >= 4
  {
    if count < 4 then 1 else 2
  }

  // The texts of the instability reports.
  const InstabilityTitle := "Frequently rewritten"
  const InstabilityNoteHead := "This paragraph has been rewritten "
  const InstabilityNoteTail := " times."
  const InstabilityQuestion := "Are you struggling to express this idea clearly?"
  const UnstableNoteHead := "Rewritten "
  const UnstableNoteTail := " times across snapshots"

  /** The `instability` observation for a position rewritten `count` times. */
  function InstabilityReport(x: int, count: nat): Observation {
    Observation(Instability, InstabilitySeverity(count), x, InstabilityTitle,
      InstabilityNoteHead + NatToString(count) + InstabilityNoteTail, InstabilityQuestion)
  }

  /** The unstable-paragraph entry for a position rewritten `count` times. */
  function UnstableEntry(x: int, count: nat): UnstableParagraph {
    UnstableParagraph(x, count, UnstableNoteHead + NatToString(count) + UnstableNoteTail)
  }

  /** The keys of `order`, in that order, whose count reaches the threshold. */
  function Flagged(counts: map<int, int>, order: seq<int>): (keys: seq<int>)
    requires forall a | 0 <= a < |order| :: order[a] in counts
    ensures |keys| <= |order|
    ensures forall m | 0 <= m < |keys| :: keys[m] in counts && counts[keys[m]] >= UnstableThreshold && keys[m] in order
    decreases |order|
  {
    if order == [] then []
    else
      var n := |order| - 1;
      var front := order[..n];
      assert forall a | 0 <= a < n :: front[a] == order[a];
      Flagged(counts, front) + (if counts[order[n]] >= UnstableThreshold then [order[n]] else [])
  }

  /** The unstable-paragraph entries of the keys. */
  function Entries(counts: map<int, int>, keys: seq<int>): (r: seq<UnstableParagraph>)
    requires forall m | 0 <= m < |keys| :: keys[m] in counts && counts[keys[m]] >= 0
    ensures |r| == |keys|
    ensures forall m | 0 <= m < |keys| :: r[m].paragraph == keys[m] && r[m].rewriteCount == counts[keys[m]]
  {
    seq(|keys|, m requires 0 <= m < |keys| => UnstableEntry(keys[m], counts[keys[m]]))
  }

  /** The instability observations of the keys. */
  function Reports(counts: map<int, int>, keys: seq<int>): (r: seq<Observation>)
    requires forall m | 0 <= m < |keys| :: keys[m] in counts && counts[keys[m]] >= 0
    ensures |r| == |keys|
    ensures forall m | 0 <= m < |keys| :: r[m].kind == Instability && r[m].paragraph == keys[m]
  {
    seq(|keys|, m requires 0 <= m < |keys| => InstabilityReport(keys[m], counts[keys[m]]))
  }

  /**
   * The loop of `analyze` over the rewrite counts, in key order: every
   * position counted at least twice gets an instability observation appended
   * to `observations0` and an unstable-paragraph entry.
   */
  method ReportUnstable(counts: map<int, int>, order: seq<int>, observations0: seq<Observation>)
    returns (observations: seq<Observation>, unstable: seq<UnstableParagraph>)
    requires forall a | 0 <= a < |order| :: order[a] in counts
    ensures unstable == Entries(counts, Flagged(counts, order))
    ensures observations == observations0 + Reports(counts, Flagged(counts, order))
  {
    observations, unstable := observations0, [];
    var k := 0;
    while k < |order|
      invariant 0 <= k <= |order|
      invariant unstable == Entries(counts, Flagged(counts, order[..k]))
      invariant observations == observations0 + Reports(counts, Flagged(counts, order[..k]))
    {
      ghost var keys := Flagged(counts, order[..k]);
      assert order[..k + 1][..k] == order[..k];
      var paraIdx := order[k];
      var count := counts[paraIdx];
      if count >= 2 {
        observations := observations + [InstabilityReport(paraIdx, count)];
        unstable := unstable + [UnstableEntry(paraIdx, count)];
        assert Flagged(counts, order[..k + 1]) == keys + [paraIdx];
        assert Entries(counts, keys + [paraIdx]) == Entries(counts, keys) + [UnstableEntry(paraIdx, count)];
        assert Reports(counts, keys + [paraIdx]) == Reports(counts, keys) + [InstabilityReport(paraIdx, count)];
      } else {
        assert Flagged(counts, order[..k + 1]) == keys;
      }
      k := k + 1;
    }
    assert order[..k] == order;
  }

  /** A key whose count reaches the threshold is flagged. */
  lemma {:induction false} FlaggedComplete(counts: map<int, int>, order: seq<int>, a: nat)
    requires forall b | 0 <= b < |order| :: order[b] in counts
    requires a < |order| && counts[order[a]] >= UnstableThreshold
    ensures order[a] in Flagged(counts, order)
    decreases |order|
  {
    var n := |order| - 1;
    if a < n {
      var front := order[..n];
      assert front[a] == order[a];
      FlaggedComplete(counts, front, a);
    }
  }

  /** The flagged keys keep the order they have in `order`. */
  lemma {:induction false} FlaggedSorted(hs: seq<seq<string>>, counts: map<int, int>, order: seq<int>)
    requires forall a | 0 <= a < |order| :: order[a] in counts
    requires forall a, b | 0 <= a < b < |order| :: Precedes(hs, order[a], order[b])
    ensures forall m, m' | 0 <= m < m' < |Flagged(counts, order)| ::
      Precedes(hs, Flagged(counts, order)[m], Flagged(counts, order)[m'])
    decreases |order|
  {
    if order != [] {
      var n := |order| - 1;
      var front := order[..n];
      FlaggedSorted(hs, counts, front);
      var f, keys := Flagged(counts, front), Flagged(counts, order);
      forall m, m' | 0 <= m < m' < |keys|
        ensures Precedes(hs, keys[m], keys[m'])
      {
        assert keys[m] == f[m];
        if m' >= |f| {
          assert keys[m'] == order[n];
          var a :| 0 <= a < |front| && front[a] == f[m];
          assert Precedes(hs, order[a], order[n]);
        } else {
          assert keys[m'] == f[m'];
        }
      }
    }
  }

  /** The entries and reports of keys that reach the threshold, appended after `d`, match entry by entry. */
  lemma EntriesReported(counts: map<int, int>, keys: seq<int>, d: seq<Observation>)
    requires forall m | 0 <= m < |keys| :: keys[m] in counts && counts[keys[m]] >= UnstableThreshold
    ensures var observations, unstable := d + Reports(counts, keys), Entries(counts, keys);
      && |observations| == |d| + |unstable|
      && observations[..|d|] == d
      && forall m | 0 <= m < |unstable| ::
        var x := unstable[m].paragraph;
        && x in counts && counts[x] >= UnstableThreshold
        && unstable[m] == UnstableEntry(x, counts[x])
        && observations[|d| + m] == InstabilityReport(x, counts[x])
  {
    var observations, unstable := d + Reports(counts, keys), Entries(counts, keys);
    assert observations[..|d|] == d;
    forall m | 0 <= m < |unstable|
      ensures observations[|d| + m] == InstabilityReport(unstable[m].paragraph, counts[unstable[m].paragraph])
    {
      assert observations[|d| + m] == Reports(counts, keys)[m];
    }
  }

  /** When `order` lists every key, every key whose count reaches the threshold has an entry. */
  lemma EntriesComplete(counts: map<int, int>, order: seq<int>)
    requires forall a | 0 <= a < |order| :: order[a] in counts
    requires forall x | x in counts :: x in order
    ensures forall x | x in counts && counts[x] >= UnstableThreshold ::
      exists m | 0 <= m < |Entries(counts, Flagged(counts, order))| :: Entries(counts, Flagged(counts, order))[m].paragraph == x
  {
    var keys := Flagged(counts, order);
    var unstable := Entries(counts, keys);
    FlaggedAll(counts, order);
    forall x | x in counts && counts[x] >= UnstableThreshold
      ensures exists m | 0 <= m < |unstable| :: unstable[m].paragraph == x
    {
      var m :| 0 <= m < |keys| && keys[m] == x;
      assert unstable[m].paragraph == x;
    }
    assert unstable == Entries(counts, Flagged(counts, order));
  }

  /** The entries of the flagged keys follow the key order. */
  lemma EntriesSorted(hs: seq<seq<string>>, counts: map<int, int>, order: seq<int>)
    requires forall a | 0 <= a < |order| :: order[a] in counts
    requires forall a, b | 0 <= a < b < |order| :: Precedes(hs, order[a], order[b])
    ensures forall m, m' | 0 <= m < m' < |Entries(counts, Flagged(counts, order))| ::
      Precedes(hs, Entries(counts, Flagged(counts, order))[m].paragraph, Entries(counts, Flagged(counts, order))[m'].paragraph)
  {
    FlaggedSorted(hs, counts, order);
  }

  /** The flagged keys, reported after `d`, make up the instability part of a response. */
  lemma FlaggedReported(hs: seq<seq<string>>, counts: map<int, int>, order: seq<int>, d: seq<Observation>)
    requires InsertionOrdered(hs, order, counts)
    ensures forall a | 0 <= a < |order| :: order[a] in counts
    ensures var keys := Flagged(counts, order);
      UnstableReported(hs, counts, d, d + Reports(counts, keys), Entries(counts, keys))
  {
    assert forall a | 0 <= a < |order| :: order[a] in counts by {
      forall a | 0 <= a < |order| ensures order[a] in counts {
        assert order[a] in order;
      }
    }
    EntriesReported(counts, Flagged(counts, order), d);
    EntriesComplete(counts, order);
    EntriesSorted(hs, counts, order);
  }

  /** When `order` lists every key, every key whose count reaches the threshold is flagged. */
  lemma FlaggedAll(counts: map<int, int>, order: seq<int>)
    requires forall a | 0 <= a < |order| :: order[a] in counts
    requires forall x | x in counts :: x in order
    ensures forall x | x in counts && counts[x] >= UnstableThreshold :: x in Flagged(counts, order)
  {
    forall x | x in counts && counts[x] >= UnstableThreshold
      ensures x in Flagged(counts, order)
    {
      var a :| 0 <= a < |order| && order[a] == x;
      FlaggedComplete(counts, order, a);
    }
  }

  /** The three heuristics of `analyze`, run in order over the paragraphs. */
  method RunHeuristics(paragraphs: seq<string>) returns (observations: seq<Observation>)
    ensures observations == Detections(paragraphs)
    ensures forall m | 0 <= m < |observations| :: ValidObservation(observations[m])
  {
    var long := CheckLongParagraphs(paragraphs);
    var unsupported := CheckMissingEvidence(paragraphs);
    var vague := CheckUnclearClaims(paragraphs);
    observations := [] + long;
    observations := observations + unsupported;
    observations := observations + vague;
    assert [] + long == long;
    DetectionsValid(paragraphs);
  }

  /**
   * The instability part of a response: after the heuristics' observations
   * `d` come, for exactly the positions `counts` has rewritten at least
   * twice, in the order their keys entered the counts of the history `hs`,
   * an instability observation and an unstable-paragraph entry carrying the
   * count.
   */
  ghost predicate UnstableReported(hs: seq<seq<string>>, counts: map<int, int>, d: seq<Observation>,
                                   observations: seq<Observation>, unstable: seq<UnstableParagraph>)
  {
    && |observations| == |d| + |unstable|
    && observations[..|d|] == d
    && (forall m | 0 <= m < |unstable| ::
      var x := unstable[m].paragraph;
      && x in counts && counts[x] >= UnstableThreshold
      && unstable[m] == UnstableEntry(x, counts[x])
      && observations[|d| + m] == InstabilityReport(x, counts[x]))
    && (forall x | x in counts && counts[x] >= UnstableThreshold ::
      exists m | 0 <= m < |unstable| :: unstable[m].paragraph == x)
    && (forall m, m' | 0 <= m < m' < |unstable| :: Precedes(hs, unstable[m].paragraph, unstable[m'].paragraph))
  }

  /**
   * The instability half of `analyze`: the rewrite counts of the snapshots,
   * then an instability observation appended to `observations0` and an
   * unstable-paragraph entry for each position rewritten at least twice.
   */
  method FlagUnstable(snapshots: seq<Snapshot>, observations0: seq<Observation>)
    returns (observations: seq<Observation>, unstable: seq<UnstableParagraph>)
    ensures UnstableReported(History(snapshots), RewriteCounts(History(snapshots)), observations0, observations, unstable)
  {
    var rewriteCounts, order := ComputeInstability(snapshots);
    FlaggedReported(History(snapshots), rewriteCounts, order, observations0);
    observations, unstable := ReportUnstable(rewriteCounts, order, observations0);
  }

  /**
   * `analyze`. The snapshots default to none; `goal` is accepted and unused.
   * The response holds the paragraph count, then the heuristics'
   * observations, then the instability reports of the snapshot history.
   */
  method Analyze(text: string, snapshots: Option<seq<Snapshot>>, goal: Option<string>)
    returns (response: AnalyzeResponse)
    ensures response.meta == Meta(|ComputeParagraphs(text)|)
    ensures UnstableReported(History(snapshots.GetOr([])), RewriteCounts(History(snapshots.GetOr([]))),
                             Detections(ComputeParagraphs(text)), response.observations, response.unstable)
    ensures ValidResponse(response)
  {
    var paragraphs := ComputeParagraphs(text);
    var observations := RunHeuristics(paragraphs);
    ghost var d := observations;
    var unstable;
    observations, unstable := FlagUnstable(snapshots.GetOr([]), observations);
    response := AnalyzeResponse(observations := observations, unstable := unstable, meta := Meta(|paragraphs|));
    ResponseValid(History(snapshots.GetOr([])), d, response);
  }

  /** What `analyze` assembles satisfies the schema's field constraints. */
  lemma ResponseValid(hs: seq<seq<string>>, d: seq<Observation>, r: AnalyzeResponse)
    requires forall m | 0 <= m < |d| :: ValidObservation(d[m])
    requires UnstableReported(hs, RewriteCounts(hs), d, r.observations, r.unstable)
    requires r.meta.paragraphCount >= 0
    ensures ValidResponse(r)
  {
    forall m | 0 <= m < |r.observations|
      ensures ValidObservation(r.observations[m])
    {
      if m < |d| {
        assert r.observations[m] == r.observations[..|d|][m];
      } else {
        RewriteCountBounds(hs, r.unstable[m - |d|].paragraph);
      }
    }
    forall m | 0 <= m < |r.unstable|
      ensures ValidUnstableParagraph(r.unstable[m])
    {
      RewriteCountBounds(hs, r.unstable[m].paragraph);
    }
  }

  // ---------------------------------------------------------------- lemmas

  /** Every observation the heuristics produce is valid: severity 1 or 2, a paragraph index in range. */
  lemma DetectionsValid(ps: seq<string>)
    ensures forall m | 0 <= m < |Detections(ps)| ::
      ValidObservation(Detections(ps)[m]) && Detections(ps)[m].paragraph < |ps|
      && Detections(ps)[m].severity <= 2
  {
    ScanSound(LongParagraph, ps);
    ScanSound(UnsupportedClaim, ps);
    ScanSound(VagueLanguage, ps);
    var a, b, c := Scan(LongParagraph, ps), Scan(UnsupportedClaim, ps), Scan(VagueLanguage, ps);
    forall m | 0 <= m < |a + b + c|
      ensures ValidObservation((a + b + c)[m]) && (a + b + c)[m].paragraph < |ps| && (a + b + c)[m].severity <= 2
    {
      if m < |a| {
        assert (a + b + c)[m] == a[m];
      } else if m < |a| + |b| {
        assert (a + b + c)[m] == b[m - |a|];
      } else {
        assert (a + b + c)[m] == c[m - |a| - |b|];
      }
    }
  }

  /** The instability observation reports the rewrite count in its note, and it reads back. */
  lemma InstabilityNoteCount(x: int, count: nat)
    ensures var note := InstabilityReport(x, count).note;
      var digits := NatToString(count);
      note[34..34 + |digits|] == digits && ParseNat(note[34..34 + |digits|]) == count
  {
    ParseNatToString(count);
  }

  /** Two non-blank lines separated by a blank line are counted as two paragraphs. */
  lemma TwoLinesAreTwoParagraphs(a: string, b: string)
    requires a != [] && IsStripped(a) && '\n' !in a
    requires b != [] && IsStripped(b) && '\n' !in b
    ensures |ComputeParagraphs(a + "\n\n" + b)| == 2
  {
    LineIsParagraph(a);
    LineIsParagraph(b);
    TwoParagraphs(a, b);
  }

  /** `n` copies of "word" joined by single spaces. */
  function RepeatedWord(n: nat): string {
    Join(seq(n, _ => "word"), " ")
  }

  /** A non-empty run of copies of one word is one paragraph of that many words. */
  lemma RepeatedWordParagraph(n: nat)
    requires n > 0
    ensures ComputeParagraphs(RepeatedWord(n)) == [RepeatedWord(n)]
    ensures |Words(RepeatedWord(n))| == n
  {
    var ws := seq(n, _ => "word");
    var t := RepeatedWord(n);
    assert forall k | 0 <= k < |ws| :: ws[k] != [] && NoSpace(ws[k]);
    WordsOfJoin(ws);
    JoinFirst(ws, " ");
    JoinLast(ws, " ");
    JoinNoChar(ws, " ", '\n');
    LineIsParagraph(t);
    StrippedFixed(t);
    SingleParagraph(t);
  }

  /** A text of more than 150 copies of one word is a single paragraph, reported once as too long. */
  lemma RepeatedWordIsReported(n: nat)
    requires n > LongParagraphWords
    ensures var ps := ComputeParagraphs(RepeatedWord(n));
      |ps| == 1 && |Scan(LongParagraph, ps)| == 1 && Scan(LongParagraph, ps)[0].kind == Structure
  {
    RepeatedWordParagraph(n);
    ScanSingle(LongParagraph, RepeatedWord(n));
  }

  /** A join of strings without `c`, with a separator without `c`, has no `c`. */
  lemma {:induction false} JoinNoChar(parts: seq<string>, sep: string, c: char)
    requires c !in sep
    requires forall k | 0 <= k < |parts| :: c !in parts[k]
    ensures c !in Join(parts, sep)
  {
    if |parts| > 1 {
      JoinNoChar(parts[1..], sep, c);
    }
  }
}
