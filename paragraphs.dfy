/**
 * Paragraph segmentation and the paragraph fingerprint of the analyser:
 * `compute_paragraphs` splits the stripped text with the regex `\n\s*\n`,
 * strips every piece and drops the blank ones; `hash_paragraph` compares
 * paragraphs by their whitespace-normalised text.
 */
module Paragraphs {
  import opened Options
  import opened Text

  /** The characters of `s` from `a` up to, not including, `b` are all whitespace. */
  ghost predicate SpaceBetween(s: string, a: int, b: int) {
    0 <= a <= b <= |s| && forall i | a <= i < b :: IsSpace(s[i])
  }

  /** `s[k..e]` is a match of `\n\s*\n`: a newline, whitespace, and a newline that ends it. */
  ghost predicate IsSeparator(s: string, k: int, e: int) {
    0 <= k && k + 2 <= e <= |s| && s[k] == '\n' && s[e - 1] == '\n' && SpaceBetween(s, k, e)
  }

  /** No match of `\n\s*\n` occurs anywhere in `s`. */
  ghost predicate SeparatorFree(s: string) {
    forall k, e | 0 <= k :: !IsSeparator(s, k, e)
  }

  /**
   * Greedy scan of the `\s*\n` tail of the separator: walks the whitespace
   * run from `p` and returns the end of the longest prefix that ends in a
   * newline, or `best` if the run holds no newline after the ones seen.
   */
  function GreedyEnd(s: string, p: nat, best: nat): (e: nat)
    requires p <= |s| && best <= p
    ensures best <= e <= |s|
    ensures e == best || (p < e && s[e - 1] == '\n' && SpaceBetween(s, p, e))
    ensures forall j | p <= j < |s| && s[j] == '\n' && SpaceBetween(s, p, j + 1) :: j < e
    decreases |s| - p
  {
    if p < |s| && IsSpace(s[p]) then GreedyEnd(s, p + 1, if s[p] == '\n' then p + 1 else best)
    else best
  }

  /** End of the longest separator match that starts at `k`, or 0 when none starts there. */
  function SeparatorAt(s: string, k: nat): (e: nat)
    requires k < |s|
    ensures e == 0 || IsSeparator(s, k, e)
    ensures forall e' | IsSeparator(s, k, e') :: e' <= e
  {
    if s[k] == '\n' then
      var e := GreedyEnd(s, k + 1, 0);
      assert forall e' | IsSeparator(s, k, e') :: SpaceBetween(s, k + 1, e');
      e
    else 0
  }

  /** The leftmost separator match at or after `k`, as (start, end), taken as long as it goes. */
  function FindSeparator(s: string, k: nat): (r: Option<(nat, nat)>)
    requires k <= |s|
    ensures r.Some? ==> k <= r.value.0 && IsSeparator(s, r.value.0, r.value.1)
    ensures r.Some? ==> forall e' | IsSeparator(s, r.value.0, e') :: e' <= r.value.1
    ensures forall i, e' | k <= i && IsSeparator(s, i, e') :: r.Some? && r.value.0 <= i
    decreases |s| - k
  {
    if k == |s| then None
    else if SeparatorAt(s, k) > 0 then Some((k, SeparatorAt(s, k)))
    else FindSeparator(s, k + 1)
  }

  /** A match inside the slice `s[a..b]` is a match of `s`, shifted by `a`. */
  lemma SeparatorShift(s: string, a: nat, b: nat, k: int, e: int)
    requires a <= b <= |s| && IsSeparator(s[a..b], k, e)
    ensures IsSeparator(s, a + k, a + e)
  {
    var t := s[a..b];
    assert s[a + k] == t[k] && s[a + e - 1] == t[e - 1];
    forall i | a + k <= i < a + e ensures IsSpace(s[i]) {
      assert s[i] == t[i - a];
    }
  }

  /** Text before the leftmost match holds no match. */
  lemma LeftmostPrefixFree(s: string, i: nat, e: nat)
    requires FindSeparator(s, 0) == Some((i, e))
    ensures SeparatorFree(s[..i])
  {
    forall k, e' | 0 <= k && IsSeparator(s[..i], k, e') ensures false {
      SeparatorShift(s, 0, i, k, e');
    }
  }

  /** `re.split(r"\n\s*\n", s)`: the text between successive leftmost matches, none of it holding a match. */
  function SplitOnBlankLines(s: string): (pieces: seq<string>)
    ensures |pieces| >= 1
    ensures forall m | 0 <= m < |pieces| :: SeparatorFree(pieces[m])
    decreases |s|
  {
    match FindSeparator(s, 0)
    case None => [s]
    case Some((i, e)) =>
      LeftmostPrefixFree(s, i, e);
      [s[..i]] + SplitOnBlankLines(s[e..])
  }

  /** The pieces put back together with the separators between them. */
  function Interleave(pieces: seq<string>, seps: seq<string>): string
    requires |pieces| == |seps| + 1
    decreases |seps|
  {
    if seps == [] then pieces[0] else pieces[0] + seps[0] + Interleave(pieces[1..], seps[1..])
  }

  /** A separator as text: at least two characters, all whitespace, newlines at both ends. */
  predicate IsBlankRun(t: string) {
    |t| >= 2 && t[0] == '\n' && t[|t| - 1] == '\n' && AllSpace(t)
  }

  /** `compute_paragraphs`: the non-blank, stripped pieces of the stripped text. */
  function ComputeParagraphs(text: string): (ps: seq<string>)
    ensures forall k | 0 <= k < |ps| :: ps[k] != [] && IsStripped(ps[k])
  {
    StripNonBlank(SplitOnBlankLines(Strip(text)))
  }

  /** `hash_paragraph` without the digest: the whitespace-normalised paragraph. */
  function Fingerprint(paragraph: string): string {
    Normalize(paragraph)
  }

  /** A paragraph the splitter keeps whole: non-empty, stripped, no blank line inside. */
  predicate IsParagraph(p: string) {
    p != [] && IsStripped(p) && FindSeparator(p, 0) == None
  }

  // ---------------------------------------------------------------- the split

  /** The text a match covers is a blank-line run. */
  lemma SeparatorIsBlankRun(s: string, i: nat, e: nat)
    requires IsSeparator(s, i, e)
    ensures IsBlankRun(s[i..e])
  {
    forall j | 0 <= j < e - i ensures IsSpace(s[i..e][j]) {
      assert s[i..e][j] == s[i + j];
    }
  }

  /** Putting back one piece and one separator in front. */
  lemma InterleaveCons(p: string, sep: string, pieces: seq<string>, seps: seq<string>)
    requires |pieces| == |seps| + 1
    ensures Interleave([p] + pieces, [sep] + seps) == p + sep + Interleave(pieces, seps)
  {
    assert ([p] + pieces)[1..] == pieces;
    assert ([sep] + seps)[1..] == seps;
  }

  /**
   * The split loses nothing: the text is its pieces with a blank-line run
   * between each two, and the pieces themselves hold no separator.
   */
  lemma {:induction false} SplitRebuilds(s: string) returns (seps: seq<string>)
    ensures |SplitOnBlankLines(s)| == |seps| + 1
    ensures forall m | 0 <= m < |seps| :: IsBlankRun(seps[m])
    ensures Interleave(SplitOnBlankLines(s), seps) == s
    decreases |s|
  {
    var r := FindSeparator(s, 0);
    if r.None? {
      seps := [];
    } else {
      var i, e := r.value.0, r.value.1;
      assert SplitOnBlankLines(s) == [s[..i]] + SplitOnBlankLines(s[e..]);
      SeparatorIsBlankRun(s, i, e);
      var rest := SplitRebuilds(s[e..]);
      seps := [s[i..e]] + rest;
      InterleaveCons(s[..i], s[i..e], SplitOnBlankLines(s[e..]), rest);
      assert s == s[..i] + s[i..e] + s[e..];
    }
  }

  /** Stripping a text with no separator leaves a text with no separator. */
  lemma StripKeepsSeparatorFree(s: string)
    requires SeparatorFree(s)
    ensures SeparatorFree(Strip(s))
  {
    if Strip(s) != [] {
      var a := LeadingSpaces(s);
      var b := |s| - TrailingSpaces(s);
      forall k, e | 0 <= k && IsSeparator(Strip(s), k, e) ensures false {
        SeparatorShift(s, a, b, k, e);
      }
    }
  }

  /** Stripped, non-blank, separator-free pieces are paragraphs. */
  lemma {:induction false} StripNonBlankParagraphs(pieces: seq<string>)
    requires forall m | 0 <= m < |pieces| :: SeparatorFree(pieces[m])
    ensures forall k | 0 <= k < |StripNonBlank(pieces)| :: IsParagraph(StripNonBlank(pieces)[k])
  {
    if pieces != [] {
      StripKeepsSeparatorFree(pieces[0]);
      StripNonBlankParagraphs(pieces[1..]);
    }
  }

  /** Every paragraph the splitter returns is a paragraph it keeps whole. */
  lemma ComputedAreParagraphs(text: string)
    ensures forall k | 0 <= k < |ComputeParagraphs(text)| :: IsParagraph(ComputeParagraphs(text)[k])
  {
    StripNonBlankParagraphs(SplitOnBlankLines(Strip(text)));
  }

  /** Writing the paragraphs out with blank lines between them and splitting again changes nothing. */
  lemma ParagraphsStable(text: string)
    ensures ComputeParagraphs(Join(ComputeParagraphs(text), "\n\n")) == ComputeParagraphs(text)
  {
    ComputedAreParagraphs(text);
    ParagraphsOfJoin(ComputeParagraphs(text));
  }

  // ---------------------------------------------------------------- lemmas

  /** Text yields no paragraph exactly when it is empty or all whitespace. */
  lemma NoParagraphsIffBlank(text: string)
    ensures ComputeParagraphs(text) == [] <==> AllSpace(text)
  {
    var s := Strip(text);
    if !AllSpace(text) {
      var pieces := SplitOnBlankLines(s);
      var first := match FindSeparator(s, 0) case None => s case Some((i, e)) => s[..i];
      assert pieces[0] == first;
      assert first[0] == s[0];
      assert !AllSpace(first);
      assert pieces == [pieces[0]] + pieces[1..];
    }
  }

  /** Text with no blank-line separator is one paragraph: the stripped text. */
  lemma SingleParagraph(text: string)
    requires !AllSpace(text)
    requires FindSeparator(Strip(text), 0) == None
    ensures ComputeParagraphs(text) == [Strip(text)]
  {
    StripIdempotent(text);
  }

  /** Scanning a whitespace run that stops inside `t` never looks past `t`. */
  lemma {:induction false} GreedyEndPrefix(t: string, u: string, p: nat, best: nat)
    requires p < |t| && best <= p
    requires !IsSpace(t[|t| - 1])
    ensures GreedyEnd(t + u, p, best) == GreedyEnd(t, p, best)
    decreases |t| - p
  {
    var s := t + u;
    assert s[p] == t[p];
    if IsSpace(t[p]) {
      GreedyEndPrefix(t, u, p + 1, if t[p] == '\n' then p + 1 else best);
    }
  }

  /** A separator-free paragraph followed by anything has no separator inside it. */
  lemma {:induction false} NoSeparatorInside(p: string, u: string, k: nat)
    requires IsParagraph(p) && k <= |p|
    requires FindSeparator(p, k) == None
    ensures FindSeparator(p + u, k) == FindSeparator(p + u, |p|)
    decreases |p| - k
  {
    if k < |p| {
      var s := p + u;
      assert s[k] == p[k];
      if p[k] == '\n' {
        GreedyEndPrefix(p, u, k + 1, 0);
      }
      assert SeparatorAt(s, k) == SeparatorAt(p, k);
      NoSeparatorInside(p, u, k + 1);
    }
  }

  /** A string without newlines has no separator. */
  lemma {:induction false} NoNewlineNoSeparator(s: string, k: nat)
    requires k <= |s| && '\n' !in s
    ensures FindSeparator(s, k) == None
    decreases |s| - k
  {
    if k < |s| {
      assert s[k] != '\n';
      NoNewlineNoSeparator(s, k + 1);
    }
  }

  /** A non-empty stripped line is a paragraph. */
  lemma LineIsParagraph(p: string)
    requires p != [] && IsStripped(p) && '\n' !in p
    ensures IsParagraph(p)
  {
    NoNewlineNoSeparator(p, 0);
  }

  /** The leftmost match in a paragraph, a blank line and more text is exactly that blank line. */
  lemma JoinedSeparator(p: string, t: string)
    requires IsParagraph(p) && t != [] && !IsSpace(t[0])
    ensures FindSeparator(p + "\n\n" + t, 0) == Some((|p|, |p| + 2))
  {
    var s := p + "\n\n" + t;
    NoSeparatorInside(p, "\n\n" + t, 0);
    assert s == p + ("\n\n" + t);
    assert s[|p|] == '\n' && s[|p| + 1] == '\n' && s[|p| + 2] == t[0];
    assert GreedyEnd(s, |p| + 2, |p| + 2) == |p| + 2;
    assert SeparatorAt(s, |p|) == |p| + 2;
  }

  /** Splitting paragraphs joined by single blank lines gives the paragraphs back. */
  lemma {:induction false} SplitJoinedParagraphs(ps: seq<string>)
    requires ps != []
    requires forall k | 0 <= k < |ps| :: IsParagraph(ps[k])
    ensures SplitOnBlankLines(Join(ps, "\n\n")) == ps
  {
    if |ps| > 1 {
      var p := ps[0];
      var t := Join(ps[1..], "\n\n");
      var s := p + "\n\n" + t;
      assert Join(ps, "\n\n") == s;
      JoinFirst(ps[1..], "\n\n");
      assert t[0] == ps[1][0];
      JoinedSeparator(p, t);
      assert s[..|p|] == p;
      assert s[|p| + 2..] == t;
      SplitJoinedParagraphs(ps[1..]);
      assert [ps[0]] + ps[1..] == ps;
    }
  }

  /**
   * Round trip: paragraphs written out with one blank line between them are
   * segmented back into exactly those paragraphs.
   */
  lemma ParagraphsOfJoin(ps: seq<string>)
    requires forall k | 0 <= k < |ps| :: IsParagraph(ps[k])
    ensures ComputeParagraphs(Join(ps, "\n\n")) == ps
  {
    var s := Join(ps, "\n\n");
    if ps != [] {
      JoinedStripped(ps);
      StrippedFixed(s);
      SplitJoinedParagraphs(ps);
      StripNonBlankKeeps(ps);
    }
  }

  /** Paragraphs joined by blank lines start and end with a paragraph's first and last characters. */
  lemma JoinedStripped(ps: seq<string>)
    requires ps != []
    requires forall k | 0 <= k < |ps| :: IsParagraph(ps[k])
    ensures IsStripped(Join(ps, "\n\n"))
  {
    JoinFirst(ps, "\n\n");
    JoinLast(ps, "\n\n");
  }

  /** Two paragraphs separated by a blank line count as two. */
  lemma TwoParagraphs(a: string, b: string)
    requires IsParagraph(a) && IsParagraph(b)
    ensures ComputeParagraphs(a + "\n\n" + b) == [a, b]
  {
    ParagraphsOfJoin([a, b]);
    assert Join([a, b], "\n\n") == a + "\n\n" + Join([b], "\n\n");
  }

  /** The fingerprint ignores how words are spaced: equal exactly when the words are. */
  lemma FingerprintIgnoresSpacing(p: string, q: string)
    ensures Fingerprint(p) == Fingerprint(q) <==> Words(p) == Words(q)
  {
    NormalizeSameWords(p, q);
  }
}
