/**
 * The pure parts of the language-model client: cleaning the model's reply of
 * markdown code fences and picking the observation list out of the decoded
 * JSON (`parse_llm_response`), turning raw observation objects into validated
 * observations (`validate_and_convert_observations`), and the paragraph
 * listing and scope note of the prompt (`build_analysis_prompt`).
 */
module LlmOutput {
  import opened Options
  import opened Text
  import opened Sequences
  import opened Schemas

  /** A decoded JSON value as Python's `json.loads` returns it; a float's value plays no part here. */
  datatype Json =
    | JNull
    | JBool(b: bool)
    | JInt(i: int)
    | JFloat
    | JString(s: string)
    | JArray(items: seq<Json>)
    | JObject(fields: map<string, Json>)

  // ---------------------------------------------------------------- parse_llm_response

  const Fence := "```"

  /** A line that opens or closes a markdown code block. */
  predicate IsFence(line: string) {
    StartsWith(line, Fence)
  }

  /** Keeps a line that is not a fence. */
  function KeepLine(line: string): Option<string> {
    if IsFence(line) then None else Some(line)
  }

  /** The lines the fence-stripping loop keeps. */
  function NonFenceLines(lines: seq<string>): seq<string> {
    FilterMap(KeepLine, lines)
  }

  /** What is handed to the JSON decoder: the stripped reply, without its fence lines if it opens with one. */
  function Cleaned(content: string): string {
    var c := Strip(content);
    if IsFence(c) then Join(NonFenceLines(SplitOn(c, '\n')), "\n") else c
  }

  /** The accepted shapes: an object's `observations` member, or a whole array. */
  function SelectObservations(data: Option<Json>): (r: Option<Json>)
    ensures r.Some? <==> data.Some? && ((data.value.JObject? && "observations" in data.value.fields) || data.value.JArray?)
    ensures r.Some? && data.value.JObject? ==> r.value == data.value.fields["observations"]
    ensures r.Some? && data.value.JArray? ==> r.value == data.value
  {
    match data
    case Some(JObject(fields)) => if "observations" in fields then Some(fields["observations"]) else None
    case Some(JArray(items)) => Some(JArray(items))
    case _ => None
  }

  /**
   * `parse_llm_response`, with `json.loads` as the parameter `decode` (`None`
   * for a `JSONDecodeError`). The `in_block` flag of the loop never changes
   * which lines are kept: only fence lines are dropped.
   */
  method ParseLlmResponse(content: string, decode: string -> Option<Json>) returns (r: Option<Json>)
    ensures r == SelectObservations(decode(Cleaned(content)))
  {
    var cleaned := Strip(content);
    if StartsWith(cleaned, Fence) {
      var lines := SplitOn(cleaned, '\n');
      var jsonLines: seq<string> := [];
      var inBlock := false;
      for k := 0 to |lines|
        invariant jsonLines == NonFenceLines(lines[..k])
      {
        var line := lines[k];
        assert lines[..k + 1] == lines[..k] + [line];
        FilterMapAppend(KeepLine, lines[..k], [line]);
        if StartsWith(line, Fence) {
          inBlock := !inBlock;
        } else if inBlock || !StartsWith(line, Fence) {
          jsonLines := jsonLines + [line];
        }
      }
      assert lines[..|lines|] == lines;
      cleaned := Join(jsonLines, "\n");
    }
    var data := decode(cleaned);
    if data.Some? && data.value.JObject? && "observations" in data.value.fields {
      r := Some(data.value.fields["observations"]);
    } else if data.Some? && data.value.JArray? {
      r := data;
    } else {
      r := None;
    }
  }

  /**
   * Fence stripping drops exactly the fence lines and keeps every other line
   * in its original order: `picked` lists the kept positions.
   */
  lemma FenceLinesRemoved(lines: seq<string>) returns (picked: seq<nat>)
    ensures |picked| == |NonFenceLines(lines)|
    ensures IncreasingIndices(picked, |lines|)
    ensures forall m | 0 <= m < |picked| :: NonFenceLines(lines)[m] == lines[picked[m]]
    ensures forall k | 0 <= k < |lines| :: !IsFence(lines[k]) <==> k in picked
  {
    picked := FilterMapPicks(KeepLine, lines);
    forall m | 0 <= m < |picked|
      ensures NonFenceLines(lines)[m] == lines[picked[m]]
    {
      assert KeepLine(lines[picked[m]]) == Some(NonFenceLines(lines)[m]);
    }
  }

  /** No line of the cleaned text of a fenced reply is a fence. */
  lemma CleanedHasNoFenceLine(content: string)
    requires IsFence(Strip(content))
    ensures forall k | 0 <= k < |SplitOn(Cleaned(content), '\n')| :: !IsFence(SplitOn(Cleaned(content), '\n')[k])
  {
    var lines := SplitOn(Strip(content), '\n');
    var kept := NonFenceLines(lines);
    var picked := FenceLinesRemoved(lines);
    if kept == [] {
      assert Cleaned(content) == [];
      assert SplitOn([], '\n') == [[]];
    } else {
      assert forall m | 0 <= m < |kept| :: '\n' !in kept[m] && !IsFence(kept[m]);
      SplitJoin(kept, '\n');
    }
  }

  /** Lines framed by fences, joined by newlines, form a stripped text that opens with a fence. */
  lemma FramedText(open: string, body: seq<string>)
    requires IsFence(open)
    ensures IsStripped(Join([open] + body + [Fence], "\n"))
    ensures IsFence(Join([open] + body + [Fence], "\n"))
  {
    var s := Join([open] + body + [Fence], "\n");
    JoinAppend([open], body + [Fence], "\n");
    assert [open] + body + [Fence] == [open] + (body + [Fence]);
    assert s == open + ("\n" + Join(body + [Fence], "\n"));
    assert s[..|Fence|] == open[..|Fence|];
    JoinAppend([open] + body, [Fence], "\n");
    assert s == (Join([open] + body, "\n") + "\n") + Fence;
  }

  /** Of the framed lines exactly the body survives fence stripping. */
  lemma FramedLinesKeepBody(open: string, body: seq<string>)
    requires IsFence(open)
    requires forall k | 0 <= k < |body| :: !IsFence(body[k])
    ensures NonFenceLines([open] + body + [Fence]) == body
  {
    FilterMapAppend(KeepLine, [open] + body, [Fence]);
    FilterMapAppend(KeepLine, [open], body);
    FilterMapAll(KeepLine, body);
    assert FilterMap(KeepLine, [open]) == [] by {
      assert [open][..0] == [];
    }
    assert FilterMap(KeepLine, [Fence]) == [] by {
      assert [Fence][..0] == [];
    }
  }

  /**
   * Round trip: a body wrapped in an opening fence line (such as "```json")
   * and a closing fence comes out of cleaning as the body itself.
   */
  lemma FencedBodyRoundTrip(open: string, body: seq<string>)
    requires IsFence(open) && '\n' !in open
    requires forall k | 0 <= k < |body| :: '\n' !in body[k] && !IsFence(body[k])
    ensures Cleaned(Join([open] + body + [Fence], "\n")) == Join(body, "\n")
  {
    var lines := [open] + body + [Fence];
    var s := Join(lines, "\n");
    FramedText(open, body);
    StrippedFixed(s);
    assert forall k | 0 <= k < |lines| :: '\n' !in lines[k];
    SplitJoin(lines, '\n');
    FramedLinesKeepBody(open, body);
  }

  // ---------------------------------------------------------------- validate_and_convert_observations

  /** `raw.get(key, default)` on an object's members. */
  function Get(fields: map<string, Json>, key: string, default: Json): Json {
    if key in fields then fields[key] else default
  }

  /** The value of an `isinstance(v, int)` value; a JSON boolean is a Python `bool`, which is an `int`. */
  function AsPyInt(v: Json): Option<int> {
    match v
    case JInt(i) => Some(i)
    case JBool(b) => Some(if b then 1 else 0)
    case _ => None
  }

  function Max(a: int, b: int): int {
    if a < b then b else a
  }

  function Min(a: int, b: int): int {
    if a < b then a else b
  }

  /** The observation kind named by `v`; anything that is not one of the values becomes `unclear_claim`. */
  function TypeOf(v: Json): (t: ObservationType)
    ensures v.JString? && v.s in ObservationTypeValues ==> t.Value() == v.s
    ensures !(v.JString? && v.s in ObservationTypeValues) ==> t == UnclearClaim
  {
    if v.JString? then ParseObservationType(v.s).GetOr(UnclearClaim) else UnclearClaim
  }

  /** The paragraph index: a non-integer or negative index becomes 0, one past the end the last paragraph. */
  function ParagraphIndex(v: Json, paragraphCount: int): (p: int)
    ensures 0 <= p <= Max(0, paragraphCount - 1)
    ensures (AsPyInt(v).None? || AsPyInt(v).value < 0) ==> p == 0
    ensures AsPyInt(v).Some? && AsPyInt(v).value >= paragraphCount ==> p == Max(0, paragraphCount - 1)
    ensures AsPyInt(v).Some? && 0 <= AsPyInt(v).value < paragraphCount ==> p == AsPyInt(v).value
  {
    var i := if AsPyInt(v).Some? && AsPyInt(v).value >= 0 then AsPyInt(v).value else 0;
    if i >= paragraphCount then Max(0, paragraphCount - 1) else i
  }

  /** The severity: 2 when not an integer, then clamped into 1..5. */
  function SeverityOf(v: Json): (s: int)
    ensures 1 <= s <= 5
    ensures AsPyInt(v).None? ==> s == 2
    ensures AsPyInt(v).Some? && 1 <= AsPyInt(v).value <= 5 ==> s == AsPyInt(v).value
    ensures AsPyInt(v).Some? && AsPyInt(v).value > 5 ==> s == 5
    ensures AsPyInt(v).Some? && AsPyInt(v).value < 1 ==> s == 1
  {
    Max(1, Min(5, AsPyInt(v).GetOr(2)))
  }

  const DefaultTitle := "Observation"

  /**
   * One raw item converted: `None` when it is not an object, when its title,
   * note or question is not a string, or when the observation's own field
   * constraints reject it.
   */
  function ConvertOne(raw: Json, paragraphCount: int): (r: Option<Observation>)
    ensures !raw.JObject? ==> r.None?
    ensures r.Some? ==> ValidObservation(r.value)
    ensures r.Some? ==> r.value.paragraph <= Max(0, paragraphCount - 1)
  {
    match raw
    case JObject(fields) =>
      var title := Get(fields, "title", JString(DefaultTitle));
      var note := Get(fields, "note", JString(""));
      var question := Get(fields, "question", JString(""));
      if title.JString? && note.JString? && question.JString? then
        NewObservation(
          TypeOf(Get(fields, "type", JString(UnclearClaim.Value()))),
          SeverityOf(Get(fields, "severity", JInt(2))),
          ParagraphIndex(Get(fields, "paragraph", JInt(0)), paragraphCount),
          title.s, note.s, question.s)
      else None
    case _ => None
  }

  /** The converted observations: the items that convert, in order. */
  function ConvertAll(raws: seq<Json>, paragraphCount: int): seq<Observation> {
    FilterMap((raw: Json) => ConvertOne(raw, paragraphCount), raws)
  }

  /** The body of the conversion loop for one item: each field worked out step by step. */
  method ConvertItem(raw: Json, paragraphCount: int) returns (obs: Option<Observation>)
    ensures obs == ConvertOne(raw, paragraphCount)
  {
    obs := None;
    if raw.JObject? {
      var fields := raw.fields;
      var obsType := Get(fields, "type", JString(UnclearClaim.Value()));
      var kind := UnclearClaim;
      if obsType.JString? {
        match ParseObservationType(obsType.s) {
          case Some(t) => kind := t;
          case None =>
        }
      }
      var paraIdx := 0;
      match AsPyInt(Get(fields, "paragraph", JInt(0))) {
        case Some(i) => if i >= 0 { paraIdx := i; }
        case None =>
      }
      if paraIdx >= paragraphCount {
        paraIdx := Max(0, paragraphCount - 1);
      }
      var severity := 2;
      match AsPyInt(Get(fields, "severity", JInt(2))) {
        case Some(i) => severity := i;
        case None =>
      }
      severity := Max(1, Min(5, severity));
      var title := Get(fields, "title", JString(DefaultTitle));
      var note := Get(fields, "note", JString(""));
      var question := Get(fields, "question", JString(""));
      if title.JString? && note.JString? && question.JString? {
        obs := NewObservation(kind, severity, paraIdx, title.s, note.s, question.s);
      }
    }
  }

  /** `validate_and_convert_observations`: the loop that builds each item's fields step by step. */
  method ValidateAndConvertObservations(rawObservations: seq<Json>, paragraphCount: int)
    returns (observations: seq<Observation>)
    ensures observations == ConvertAll(rawObservations, paragraphCount)
  {
    var convert := (raw: Json) => ConvertOne(raw, paragraphCount);
    observations := [];
    for k := 0 to |rawObservations|
      invariant observations == FilterMap(convert, rawObservations[..k])
    {
      var raw := rawObservations[k];
      assert rawObservations[..k + 1] == rawObservations[..k] + [raw];
      FilterMapAppend(convert, rawObservations[..k], [raw]);
      assert FilterMap(convert, [raw]) == if convert(raw).Some? then [convert(raw).value] else [] by {
        assert [raw][..0] == [];
      }
      var obs := ConvertItem(raw, paragraphCount);
      if obs.Some? {
        observations := observations + [obs.value];
      }
    }
    assert rawObservations[..|rawObservations|] == rawObservations;
  }

  /**
   * The converted list is an in-order subsequence of the items: `picked`
   * lists, increasing, exactly the positions whose item converts, and the
   * m-th observation is the conversion of the m-th of them.
   */
  lemma ConvertedSubsequence(raws: seq<Json>, paragraphCount: int) returns (picked: seq<nat>)
    ensures |ConvertAll(raws, paragraphCount)| <= |raws|
    ensures |picked| == |ConvertAll(raws, paragraphCount)|
    ensures IncreasingIndices(picked, |raws|)
    ensures forall m | 0 <= m < |picked| :: ConvertOne(raws[picked[m]], paragraphCount) == Some(ConvertAll(raws, paragraphCount)[m])
    ensures forall k | 0 <= k < |raws| :: ConvertOne(raws[k], paragraphCount).Some? <==> k in picked
  {
    picked := FilterMapPicks((raw: Json) => ConvertOne(raw, paragraphCount), raws);
  }

  /** Every converted observation is valid and points at an existing paragraph (or 0 when there is none). */
  lemma ConvertedBounds(raws: seq<Json>, paragraphCount: int)
    ensures forall m | 0 <= m < |ConvertAll(raws, paragraphCount)| ::
      && ValidObservation(ConvertAll(raws, paragraphCount)[m])
      && ConvertAll(raws, paragraphCount)[m].paragraph <= Max(0, paragraphCount - 1)
  {
    var picked := ConvertedSubsequence(raws, paragraphCount);
  }

  /** An item whose integer severity clamps above 3 fails the severity constraint and is dropped. */
  lemma HighSeverityDropped(raw: Json, paragraphCount: int)
    requires raw.JObject? && "severity" in raw.fields
    requires AsPyInt(raw.fields["severity"]).Some? && AsPyInt(raw.fields["severity"]).value >= 4
    ensures ConvertOne(raw, paragraphCount) == None
  {
    assert SeverityOf(raw.fields["severity"]) >= 4;
  }

  /**
   * A well-formed item is taken over unchanged: a known type, an in-range
   * paragraph, a severity 1..3 and string texts give exactly that observation.
   */
  lemma WellFormedItemKept(raw: Json, paragraphCount: int, kind: ObservationType, severity: int, paragraph: int,
                           title: string, note: string, question: string)
    requires raw.JObject?
    requires Get(raw.fields, "type", JString(UnclearClaim.Value())) == JString(kind.Value())
    requires Get(raw.fields, "severity", JInt(2)) == JInt(severity) && 1 <= severity <= 3
    requires Get(raw.fields, "paragraph", JInt(0)) == JInt(paragraph) && 0 <= paragraph < paragraphCount
    requires Get(raw.fields, "title", JString(DefaultTitle)) == JString(title)
    requires Get(raw.fields, "note", JString("")) == JString(note)
    requires Get(raw.fields, "question", JString("")) == JString(question)
    ensures ConvertOne(raw, paragraphCount) == Some(Observation(kind, severity, paragraph, title, note, question))
  {
    ObservationTypeRoundTrip(kind);
    assert kind.Value() in ObservationTypeValues;
  }

  // ---------------------------------------------------------------- build_analysis_prompt

  const SelectionScope := "You are analyzing a TEXT SELECTION from a larger document."
  const FullDocumentScope := "You are analyzing the FULL DOCUMENT."

  /** The scope note of the system prompt: the selected-text wording exactly when a selection is analysed. */
  function ScopeNote(isSelection: bool): (note: string)
    ensures note == SelectionScope <==> isSelection
    ensures note == FullDocumentScope <==> !isSelection
  {
    if isSelection then SelectionScope else FullDocumentScope
  }

  const HeaderOpen := "[Paragraph "

  /** The label `[Paragraph i]` of paragraph `i`. */
  function ParagraphHeader(i: nat): string {
    HeaderOpen + NatToString(i) + "]"
  }

  /** One entry of the listing: the label, a newline and the paragraph. */
  function ParagraphEntry(i: nat, p: string): string {
    ParagraphHeader(i) + "\n" + p
  }

  /** `para_text`: the entries of all paragraphs, numbered from 0, separated by blank lines. */
  function ParagraphListing(paragraphs: seq<string>): string {
    Join(seq(|paragraphs|, i requires 0 <= i < |paragraphs| => ParagraphEntry(i, paragraphs[i])), "\n\n")
  }

  const UserPromptHead := "Please analyze the following text and provide feedback.\n\nTEXT TO ANALYZE:\n"
  const UserPromptTail := "\n\nRemember: Return ONLY valid JSON matching the schema. No markdown, no explanations outside the JSON."

  /** The user message: the fixed request around the paragraph listing. */
  function UserPrompt(paragraphs: seq<string>): (prompt: string)
    ensures |prompt| == |UserPromptHead| + |ParagraphListing(paragraphs)| + |UserPromptTail|
    ensures StartsWith(prompt, UserPromptHead)
    ensures prompt[|UserPromptHead|..|prompt| - |UserPromptTail|] == ParagraphListing(paragraphs)
    ensures prompt[|prompt| - |UserPromptTail|..] == UserPromptTail
  {
    var prompt := UserPromptHead + ParagraphListing(paragraphs) + UserPromptTail;
    assert prompt[..|UserPromptHead|] == UserPromptHead;
    assert prompt[|prompt| - |UserPromptTail|..] == UserPromptTail;
    prompt
  }

  /** The label of paragraph `i` reads back as `i`. */
  lemma HeaderNumber(i: nat)
    ensures StartsWith(ParagraphHeader(i), HeaderOpen)
    ensures ParagraphHeader(i)[|HeaderOpen|..|ParagraphHeader(i)| - 1] == NatToString(i)
    ensures ParseNat(ParagraphHeader(i)[|HeaderOpen|..|ParagraphHeader(i)| - 1]) == i
  {
    var h := ParagraphHeader(i);
    assert h[..|HeaderOpen|] == HeaderOpen;
    assert h[|HeaderOpen|..|h| - 1] == NatToString(i);
    ParseNatToString(i);
  }

  /** Different paragraphs carry different labels. */
  lemma HeadersDistinct(i: nat, j: nat)
    requires i != j
    ensures ParagraphHeader(i) != ParagraphHeader(j)
  {
    if ParagraphHeader(i) == ParagraphHeader(j) {
      HeaderNumber(i);
      HeaderNumber(j);
      NatToStringInjective(i, j);
    }
  }

  /** A single paragraph is listed as entry 0 alone. */
  lemma ListingSingle(p: string)
    ensures ParagraphListing([p]) == ParagraphEntry(0, p)
  {
    assert seq(1, i requires 0 <= i < 1 => ParagraphEntry(i, [p][i])) == [ParagraphEntry(0, p)];
  }

  /** Numbering follows the order: one more paragraph adds its entry, numbered by its position, after a blank line. */
  lemma ListingAppend(paragraphs: seq<string>, p: string)
    requires paragraphs != []
    ensures ParagraphListing(paragraphs + [p]) == ParagraphListing(paragraphs) + "\n\n" + ParagraphEntry(|paragraphs|, p)
  {
    var ps := paragraphs + [p];
    var a := seq(|paragraphs|, i requires 0 <= i < |paragraphs| => ParagraphEntry(i, paragraphs[i]));
    var b := seq(|ps|, i requires 0 <= i < |ps| => ParagraphEntry(i, ps[i]));
    assert b == a + [ParagraphEntry(|paragraphs|, p)];
    JoinAppend(a, [ParagraphEntry(|paragraphs|, p)], "\n\n");
  }
}
