/**
 * The three deterministic heuristics of the analyser: long paragraphs,
 * strong claims without evidence, and vague language. The regular
 * expressions they search with are written out as predicates over the
 * lower-cased paragraph: `\b` is a boundary between a word character and a
 * non-word character (or an end of the string), `.` any character but a
 * newline, `\s` any whitespace character.
 */
module Detectors {
  import opened Text
  import opened Schemas

  /** Paragraphs with more words than this are reported as too long. */
  const LongParagraphWords: nat := 150

  const EvidenceKeywords: seq<string> :=
    ["because", "since", "therefore", "research shows", "according to", "study", "evidence", "data", "found that"]

  /** The alternatives of `\b(clearly|obviously|everyone knows|it is known)\b`. */
  const AbsolutePhrases: seq<string> := ["clearly", "obviously", "everyone knows", "it is known"]
  /** The two groups of `\b(always|never|all|none|every)\b.*\b(are|is|will|do)\b`. */
  const Quantifiers: seq<string> := ["always", "never", "all", "none", "every"]
  const Verbs: seq<string> := ["are", "is", "will", "do"]

  /** The alternatives of `\b(things|stuff|something|somehow|somewhat)\b`. */
  const VagueWords: seq<string> := ["things", "stuff", "something", "somehow", "somewhat"]
  /** The two groups of `\b(very|really|quite|rather)\s+(good|bad|important|interesting)\b`. */
  const Intensifiers: seq<string> := ["very", "really", "quite", "rather"]
  const Adjectives: seq<string> := ["good", "bad", "important", "interesting"]
  /** The alternatives of `\b(etc|and so on|and so forth)\b`. */
  const Etceteras: seq<string> := ["etc", "and so on", "and so forth"]

  /** The number of vague-language patterns, tried in order. */
  const VaguePatternCount: nat := 3

  // ---------------------------------------------------------------- patterns

  /** `\b` just before position `i`, where a word character starts. */
  predicate BoundaryBefore(s: string, i: nat)
    requires i <= |s|
  {
    i == 0 || !IsWordChar(s[i - 1])
  }

  /** `\b` at position `j`, where a word character has just ended. */
  predicate BoundaryAfter(s: string, j: nat)
    requires j <= |s|
  {
    j == |s| || !IsWordChar(s[j])
  }

  /** `w` occurs at `i` delimited by word boundaries (every `w` here starts and ends with a letter). */
  predicate WordAt(s: string, w: string, i: nat) {
    OccursAt(s, w, i) && BoundaryBefore(s, i) && BoundaryAfter(s, i + |w|)
  }

  /** A search for `\b(w1|w2|...)\b`. */
  predicate HasWord(s: string, ws: seq<string>) {
    exists k, i | 0 <= k < |ws| && 0 <= i <= |s| :: WordAt(s, ws[k], i)
  }

  /** No newline in `s[i..j]`: what `.*` can span. */
  predicate NoNewline(s: string, i: nat, j: nat)
    requires i <= j <= |s|
  {
    forall m | i <= m < j :: s[m] != '\n'
  }

  /** Only whitespace, and at least one character, in `s[i..j]`: what `\s+` matches. */
  predicate SpaceRun(s: string, i: nat, j: nat)
    requires i <= j <= |s|
  {
    i < j && forall m | i <= m < j :: IsSpace(s[m])
  }

  /** A search for `\b(always|never|all|none|every)\b.*\b(are|is|will|do)\b`. */
  predicate QuantifiedClaim(s: string) {
    exists k, i, l, j | 0 <= k < |Quantifiers| && 0 <= l < |Verbs| && 0 <= i && i + |Quantifiers[k]| <= j <= |s| ::
      WordAt(s, Quantifiers[k], i) && WordAt(s, Verbs[l], j) && NoNewline(s, i + |Quantifiers[k]|, j)
  }

  /** A search for `\b(very|really|quite|rather)\s+(good|bad|important|interesting)\b`. */
  predicate IntensifiedAdjective(s: string) {
    exists k, i, l, j | 0 <= k < |Intensifiers| && 0 <= l < |Adjectives| && 0 <= i && i + |Intensifiers[k]| <= j <= |s| ::
      WordAt(s, Intensifiers[k], i) && WordAt(s, Adjectives[l], j) && SpaceRun(s, i + |Intensifiers[k]|, j)
  }

  /** One of the two claim patterns matches. */
  predicate HasClaim(s: string) {
    HasWord(s, AbsolutePhrases) || QuantifiedClaim(s)
  }

  /** One of the evidence keywords occurs as a substring. */
  predicate HasEvidence(s: string) {
    exists k | 0 <= k < |EvidenceKeywords| :: Contains(s, EvidenceKeywords[k])
  }

  /** Vague-language pattern number `k` matches. */
  predicate VagueMatch(k: nat, s: string)
    requires k < VaguePatternCount
  {
    if k == 0 then HasWord(s, VagueWords)
    else if k == 1 then IntensifiedAdjective(s)
    else HasWord(s, Etceteras)
  }

  // ---------------------------------------------------------------- findings

  /** The three heuristics, in the order `analyze` runs them. */
  datatype Heuristic = LongParagraph | UnsupportedClaim | VagueLanguage

  /** The heuristic reports the paragraph. */
  predicate Fires(h: Heuristic, p: string) {
    match h
    case LongParagraph => |Words(p)| > LongParagraphWords
    case UnsupportedClaim => HasClaim(Lower(p)) && !HasEvidence(Lower(p))
    case VagueLanguage => exists k | 0 <= k < VaguePatternCount :: VagueMatch(k, Lower(p))
  }

  // The texts of the three reports.
  const LongTitle := "Long paragraph"
  const LongNoteHead := "This paragraph has "
  const LongNoteTail := " words. Consider breaking it into smaller chunks for readability."
  const LongQuestion := "Could this paragraph be split into more focused sections?"
  const ClaimTitle := "Unsupported claim"
  const ClaimNote := "This paragraph contains strong claims without apparent supporting evidence."
  const ClaimQuestion := "What evidence or reasoning supports this claim?"
  const VagueTitle := "Vague language"
  const VagueNote := "This paragraph contains vague language that could be more specific."
  const VagueQuestion := "Can you be more specific about what you mean here?"

  /** The observation the heuristic reports for paragraph `idx`. */
  function Report(h: Heuristic, idx: nat, p: string): Observation {
    match h
    case LongParagraph =>
      Observation(Structure, 2, idx, LongTitle, LongNoteHead + NatToString(|Words(p)|) + LongNoteTail, LongQuestion)
    case UnsupportedClaim =>
      Observation(MissingEvidence, 2, idx, ClaimTitle, ClaimNote, ClaimQuestion)
    case VagueLanguage =>
      Observation(UnclearClaim, 1, idx, VagueTitle, VagueNote, VagueQuestion)
  }

  /** The reports of a paragraph test over the paragraphs, one per paragraph it holds for, in paragraph order. */
  function Select(fires: string -> bool, report: (nat, string) -> Observation, ps: seq<string>): seq<Observation>
    decreases |ps|
  {
    if ps == [] then []
    else
      var n := |ps| - 1;
      Select(fires, report, ps[..n]) + (if fires(ps[n]) then [report(n, ps[n])] else [])
  }

  /** The heuristic's reports over the paragraphs. */
  function Scan(h: Heuristic, ps: seq<string>): seq<Observation> {
    Select(p => Fires(h, p), (idx: nat, p) => Report(h, idx, p), ps)
  }

  // ---------------------------------------------------------------- detectors

  /** `_check_long_paragraphs`. */
  method CheckLongParagraphs(paragraphs: seq<string>) returns (observations: seq<Observation>)
    ensures observations == Scan(LongParagraph, paragraphs)
  {
    observations := [];
    var idx := 0;
    while idx < |paragraphs|
      invariant 0 <= idx <= |paragraphs|
      invariant observations == Scan(LongParagraph, paragraphs[..idx])
    {
      assert paragraphs[..idx + 1][..idx] == paragraphs[..idx];
      var para := paragraphs[idx];
      var wordCount := |Words(para)|;
      if wordCount > 150 {
        observations := observations
          + [Observation(Structure, 2, idx, LongTitle, LongNoteHead + NatToString(wordCount) + LongNoteTail, LongQuestion)];
      }
      idx := idx + 1;
    }
    assert paragraphs[..idx] == paragraphs;
  }

  /** `_check_missing_evidence`. */
  method CheckMissingEvidence(paragraphs: seq<string>) returns (observations: seq<Observation>)
    ensures observations == Scan(UnsupportedClaim, paragraphs)
  {
    observations := [];
    var idx := 0;
    while idx < |paragraphs|
      invariant 0 <= idx <= |paragraphs|
      invariant observations == Scan(UnsupportedClaim, paragraphs[..idx])
    {
      assert paragraphs[..idx + 1][..idx] == paragraphs[..idx];
      var paraLower := Lower(paragraphs[idx]);
      var hasClaim := HasWord(paraLower, AbsolutePhrases) || QuantifiedClaim(paraLower);
      var hasEvidence := exists k | 0 <= k < |EvidenceKeywords| :: Contains(paraLower, EvidenceKeywords[k]);
      if hasClaim && !hasEvidence {
        observations := observations + [Observation(MissingEvidence, 2, idx, ClaimTitle, ClaimNote, ClaimQuestion)];
      }
      idx := idx + 1;
    }
    assert paragraphs[..idx] == paragraphs;
  }

  /** `_check_unclear_claims`: tries the patterns in order and stops at the first match. */
  method CheckUnclearClaims(paragraphs: seq<string>) returns (observations: seq<Observation>)
    ensures observations == Scan(VagueLanguage, paragraphs)
  {
    observations := [];
    var idx := 0;
    while idx < |paragraphs|
      invariant 0 <= idx <= |paragraphs|
      invariant observations == Scan(VagueLanguage, paragraphs[..idx])
    {
      assert paragraphs[..idx + 1][..idx] == paragraphs[..idx];
      var paraLower := Lower(paragraphs[idx]);
      var pattern := 0;
      var found := false;
      while pattern < VaguePatternCount
        invariant 0 <= pattern <= VaguePatternCount
        invariant found <==> exists k | 0 <= k < pattern :: VagueMatch(k, paraLower)
        invariant found ==> observations == Scan(VagueLanguage, paragraphs[..idx + 1])
        invariant !found ==> observations == Scan(VagueLanguage, paragraphs[..idx])
        decreases VaguePatternCount - pattern, !found
      {
        if VagueMatch(pattern, paraLower) {
          observations := observations + [Observation(UnclearClaim, 1, idx, VagueTitle, VagueNote, VagueQuestion)];
          found := true;
          break;
        }
        pattern := pattern + 1;
      }
      idx := idx + 1;
    }
    assert paragraphs[..idx] == paragraphs;
  }

  // ---------------------------------------------------------------- lemmas

  /** A report names the paragraph it was made for. */
  ghost predicate ReportsOwnIndex(report: (nat, string) -> Observation) {
    forall idx: nat, p: string :: report(idx, p).paragraph == idx
  }

  /**
   * Soundness: there are no more reports than paragraphs, and every report
   * is the report of a paragraph the test holds for.
   */
  lemma {:induction false} SelectSound(fires: string -> bool, report: (nat, string) -> Observation, ps: seq<string>)
    requires ReportsOwnIndex(report)
    ensures |Select(fires, report, ps)| <= |ps|
    ensures forall m | 0 <= m < |Select(fires, report, ps)| ::
      var o := Select(fires, report, ps)[m];
      0 <= o.paragraph < |ps| && fires(ps[o.paragraph]) && o == report(o.paragraph, ps[o.paragraph])
    decreases |ps|
  {
    if ps != [] {
      var n := |ps| - 1;
      var front := ps[..n];
      SelectSound(fires, report, front);
      var s, f := Select(fires, report, ps), Select(fires, report, front);
      forall m | 0 <= m < |s|
        ensures 0 <= s[m].paragraph < |ps| && fires(ps[s[m].paragraph])
        ensures s[m] == report(s[m].paragraph, ps[s[m].paragraph])
      {
        if m < |f| {
          assert s[m] == f[m];
          assert front[f[m].paragraph] == ps[f[m].paragraph];
        }
      }
    }
  }

  /** The reported paragraphs strictly increase: at most one report per paragraph. */
  lemma {:induction false} SelectIncreasing(fires: string -> bool, report: (nat, string) -> Observation, ps: seq<string>)
    requires ReportsOwnIndex(report)
    ensures forall m | 0 <= m < |Select(fires, report, ps)| :: Select(fires, report, ps)[m].paragraph < |ps|
    ensures forall m, m' | 0 <= m < m' < |Select(fires, report, ps)| ::
      Select(fires, report, ps)[m].paragraph < Select(fires, report, ps)[m'].paragraph
    decreases |ps|
  {
    if ps != [] {
      var n := |ps| - 1;
      SelectIncreasing(fires, report, ps[..n]);
      var s, f := Select(fires, report, ps), Select(fires, report, ps[..n]);
      forall m | 0 <= m < |s|
        ensures s[m].paragraph <= n
      {
        if m < |f| {
          assert s[m] == f[m];
        }
      }
      forall m, m' | 0 <= m < m' < |s|
        ensures s[m].paragraph < s[m'].paragraph
      {
        assert s[m] == f[m];
        if m' < |f| {
          assert s[m'] == f[m'];
        }
      }
    }
  }

  /** Completeness at one paragraph: a paragraph the test holds for is reported, at position `m`. */
  lemma {:induction false} SelectCompleteAt(fires: string -> bool, report: (nat, string) -> Observation, ps: seq<string>, k: nat)
    returns (m: nat)
    requires ReportsOwnIndex(report)
    requires k < |ps| && fires(ps[k])
    ensures m < |Select(fires, report, ps)| && Select(fires, report, ps)[m].paragraph == k
    decreases |ps|
  {
    var n := |ps| - 1;
    var front := ps[..n];
    if k < n {
      assert front[k] == ps[k];
      m := SelectCompleteAt(fires, report, front, k);
    } else {
      m := |Select(fires, report, front)|;
    }
  }

  /** A single paragraph is reported once if the heuristic fires on it, and not at all otherwise. */
  lemma ScanSingle(h: Heuristic, p: string)
    ensures Scan(h, [p]) == if Fires(h, p) then [Report(h, 0, p)] else []
  {
    assert [p][..0] == [];
    assert Scan(h, [p]) == Scan(h, []) + if Fires(h, p) then [Report(h, 0, p)] else [];
  }

  /** Every report is the heuristic's observation for a paragraph it fires on, and is valid. */
  lemma ScanSound(h: Heuristic, ps: seq<string>)
    ensures |Scan(h, ps)| <= |ps|
    ensures forall m | 0 <= m < |Scan(h, ps)| ::
      var o := Scan(h, ps)[m];
      0 <= o.paragraph < |ps| && Fires(h, ps[o.paragraph]) && o == Report(h, o.paragraph, ps[o.paragraph])
    ensures forall m | 0 <= m < |Scan(h, ps)| :: ValidObservation(Scan(h, ps)[m])
  {
    SelectSound(p => Fires(h, p), (idx: nat, p) => Report(h, idx, p), ps);
  }

  /** The paragraphs a heuristic reports strictly increase. */
  lemma ScanIncreasing(h: Heuristic, ps: seq<string>)
    ensures forall m | 0 <= m < |Scan(h, ps)| :: Scan(h, ps)[m].paragraph < |ps|
    ensures forall m, m' | 0 <= m < m' < |Scan(h, ps)| :: Scan(h, ps)[m].paragraph < Scan(h, ps)[m'].paragraph
  {
    SelectIncreasing(p => Fires(h, p), (idx: nat, p) => Report(h, idx, p), ps);
  }

  /** Completeness: every paragraph the heuristic fires on is reported. */
  lemma ScanComplete(h: Heuristic, ps: seq<string>)
    ensures forall k | 0 <= k < |ps| :: Fires(h, ps[k]) ==>
      exists m | 0 <= m < |Scan(h, ps)| :: Scan(h, ps)[m].paragraph == k
  {
    var s := Scan(h, ps);
    forall k | 0 <= k < |ps| && Fires(h, ps[k])
      ensures exists m | 0 <= m < |s| :: s[m].paragraph == k
    {
      var m := SelectCompleteAt(p => Fires(h, p), (idx: nat, p) => Report(h, idx, p), ps, k);
      assert s[m].paragraph == k;
    }
  }

  /** A paragraph is reported by a heuristic exactly when the heuristic fires on it. */
  lemma ReportedIffFires(h: Heuristic, ps: seq<string>, k: nat)
    requires k < |ps|
    ensures Fires(h, ps[k]) <==> exists m | 0 <= m < |Scan(h, ps)| :: Scan(h, ps)[m].paragraph == k
  {
    ScanSound(h, ps);
    ScanComplete(h, ps);
  }

  /** A paragraph with more than 150 words gets exactly one `structure` report of severity 2. */
  lemma LongParagraphReported(ps: seq<string>, k: nat)
    requires k < |ps| && |Words(ps[k])| > 150
    ensures exists m | 0 <= m < |Scan(LongParagraph, ps)| ::
      var o := Scan(LongParagraph, ps)[m];
      o.paragraph == k && o.kind == Structure && o.severity == 2
    ensures forall m, m' | 0 <= m < m' < |Scan(LongParagraph, ps)| ::
      Scan(LongParagraph, ps)[m].paragraph != Scan(LongParagraph, ps)[m'].paragraph
  {
    ScanComplete(LongParagraph, ps);
    ScanSound(LongParagraph, ps);
    ScanIncreasing(LongParagraph, ps);
  }

  /** The long-paragraph note carries the word count, which reads back from it. */
  lemma LongParagraphNoteCount(idx: nat, p: string)
    ensures var note := Report(LongParagraph, idx, p).note;
      var digits := NatToString(|Words(p)|);
      note[19..19 + |digits|] == digits && ParseNat(note[19..19 + |digits|]) == |Words(p)|
  {
    ParseNatToString(|Words(p)|);
  }

  /** The unsupported-claim heuristic fires exactly on a claim with none of the evidence keywords. */
  lemma UnsupportedClaimIff(p: string)
    ensures Fires(UnsupportedClaim, p) <==>
      (HasWord(Lower(p), AbsolutePhrases) || QuantifiedClaim(Lower(p)))
      && forall k | 0 <= k < |EvidenceKeywords| :: !Contains(Lower(p), EvidenceKeywords[k])
  {
  }

  /** A paragraph containing an evidence keyword is never reported as unsupported. */
  lemma EvidenceSilencesClaim(p: string, k: nat, i: nat)
    requires k < |EvidenceKeywords| && i <= |Lower(p)|
    requires OccursAt(Lower(p), EvidenceKeywords[k], i)
    ensures !Fires(UnsupportedClaim, p)
  {
  }

  /** A paragraph that is exactly one of the absolute phrases is a claim. */
  lemma AbsolutePhraseIsClaim(k: nat)
    requires k < |AbsolutePhrases|
    ensures HasClaim(AbsolutePhrases[k])
  {
    var s := AbsolutePhrases[k];
    assert WordAt(s, AbsolutePhrases[k], 0);
  }
}
