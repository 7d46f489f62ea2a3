# fermatter backend core in Dafny

This project models the deterministic core of the fermatter writing-feedback
backend and proves properties of it. The core has five parts:

- **Paragraphs** (`paragraphs.dfy`): the paragraph splitter `compute_paragraphs`. It is the regex split on `\n\s*\n`, written out as a greedy, leftmost match, followed by strip-and-drop-blanks. The paragraph fingerprint `hash_paragraph` is modelled as whitespace normalisation.
- **Instability** (`instability.dfy`): `compute_instability`. It is a nested loop over consecutive snapshots that updates the `rewrite_counts` dictionary. The dictionary is modelled as a `map<int, int>` plus its insertion order, a `seq<int>`. Both are specified declaratively:
  - the count of a position is the number of consecutive snapshot pairs whose fingerprints differ at that position;
  - a position enters the order at the first transition that changes it, and positions entering at the same transition enter by index.
- **Detectors** (`detectors.dfy`): the three heuristic detectors (long paragraphs, unsupported claims, vague language). Their regular expressions are written as predicates on the lower-cased paragraph.
- **Analyzer** (`analyzer.dfy`): `analyze` builds the response from the detections, the rewrite counts, the threshold of 2 and the instability severity rule.
- **Schemas** (`schemas.dfy`): the API records, with their field constraints as validity predicates.

Around the core sit:

- **LlmOutput** (`llm_output.dfy`): the pure parts of the language-model client.
  - `parse_llm_response`: markdown fence stripping and shape selection. The JSON decoder is a parameter.
  - `validate_and_convert_observations`: clamps the paragraph index and severity, maps unknown kinds to `unclear_claim`, and skips the items that fail.
  - The paragraph listing and scope note of `build_analysis_prompt`.
- **SourcesLibrary** (`sources.dfy`): the demo source registry, lookup by id, and the prompt's source listing.
- **Config** (`config.py` in the source, `config.dfy` here): the parsing of `CORS_ORIGINS`.

`text.dfy` models the Python string operations the backend uses:
- `str.strip`;
- `split(sep)` and `split()`;
- `join`;
- `lower`;
- `startswith`;
- `in`;
- `str(n)`.

`sequences.dfy` holds the filtering comprehension `[g(x) for x in xs if g(x)]` shared by the converter, the source lookup and the origin parser. `options.dfy` holds the optional value.

Where the source changes state step by step, the model does too:
- the instability loop;
- the detector loops;
- the unstable-paragraph loop of `analyze`;
- the fence-stripping loop;
- the conversion loop;
- the two loops of the source listing.

Each of these is a `method` proved equal to a specification function, and the properties are lemmas about that function.

## Model

| member | source | states |
|---|---|---|
| Text.Strip | backend/src/fermatter/services/analyzer.py:35-36 | `str.strip` leaves no whitespace at either end, never lengthens, and gives the empty string exactly for all-whitespace input |
| Text.StripIdempotent | backend/src/fermatter/services/analyzer.py:36 | stripping twice is stripping once |
| Text.StripNonBlank | backend/src/fermatter/services/analyzer.py:36 | the strip-and-drop-blanks comprehension keeps only non-empty stripped pieces and never more pieces than it was given |
| Text.StripNonBlankKeeps | backend/src/fermatter/services/analyzer.py:36 | pieces that are already non-empty and stripped pass through unchanged |
| Text.SplitOn | backend/src/fermatter/core/config.py:26 | `s.split(c)` gives one more piece than there are separators, and no piece contains the separator |
| Text.JoinSplit | backend/src/fermatter/services/openai_client.py:145-153 | joining the pieces of a split with the same separator restores the string |
| Text.SplitJoin | backend/src/fermatter/core/config.py:26 | splitting a join of separator-free parts restores the parts |
| Text.NormalizeSameWords | backend/src/fermatter/services/analyzer.py:49 | `" ".join(p.split())` is equal for two strings exactly when their whitespace-separated words are |
| Text.ParseNatToString | backend/src/fermatter/services/analyzer.py:228 | the decimal rendering of a count reads back as that count |
| Schemas.ParseObservationType | backend/src/fermatter/models/schemas.py:9-16 | the enum lookup succeeds exactly for the five values and returns the member carrying that value |
| Schemas.ObservationTypeRoundTrip | backend/src/fermatter/models/schemas.py:9-16 | every member is found again from its value; the five values are distinct |
| Schemas.NewObservation | backend/src/fermatter/models/schemas.py:36-45 | construction succeeds exactly when 1 <= severity <= 3 and paragraph >= 0, and then keeps every field |
| Paragraphs.GreedyEnd | backend/src/fermatter/services/analyzer.py:35 | the greedy `\s*\n` scan either reports no match or ends just after a newline reached through whitespace only, and it ends past every newline of the whitespace run, so the match is the longest one |
| Paragraphs.SeparatorAt | backend/src/fermatter/services/analyzer.py:35 | the result is 0 or the end of a `\n\s*\n` match at k (newline, whitespace, newline); every match at k ends no later, so 0 means no match starts at k |
| Paragraphs.FindSeparator | backend/src/fermatter/services/analyzer.py:35 | a found match is a `\n\s*\n` match at or after the search start, no match starts before it, and it is the longest at its start; none is found exactly when no match exists |
| Paragraphs.SplitOnBlankLines | backend/src/fermatter/services/analyzer.py:35 | `re.split` yields at least one piece, and no piece holds a `\n\s*\n` match |
| Paragraphs.SplitRebuilds | backend/src/fermatter/services/analyzer.py:35 | the text is its pieces with one blank-line run (two or more whitespace characters, newlines at both ends) between each two |
| Paragraphs.StripKeepsSeparatorFree | backend/src/fermatter/services/analyzer.py:36 | stripping a piece without a separator leaves a text without a separator |
| Paragraphs.ComputedAreParagraphs | backend/src/fermatter/services/analyzer.py:23-36 | every paragraph returned is non-empty, stripped and free of blank lines |
| Paragraphs.ParagraphsStable | backend/src/fermatter/services/analyzer.py:23-36 | writing the paragraphs out with blank lines between them and splitting again gives the same paragraphs |
| Paragraphs.ComputeParagraphs | backend/src/fermatter/services/analyzer.py:23-36 | every paragraph is non-empty and has no surrounding whitespace |
| Paragraphs.NoParagraphsIffBlank | backend/src/fermatter/services/analyzer.py:35-36 | the paragraph list is empty exactly when the text is empty or all whitespace |
| Paragraphs.SingleParagraph | backend/src/fermatter/services/analyzer.py:35-36 | text with no blank-line separator is one paragraph, the stripped text |
| Paragraphs.SplitJoinedParagraphs | backend/src/fermatter/services/analyzer.py:35 | splitting paragraphs joined by single blank lines gives the paragraphs back |
| Paragraphs.ParagraphsOfJoin | backend/src/fermatter/services/analyzer.py:35-36 | round trip: paragraphs written out with blank lines between them segment back into exactly those paragraphs |
| Paragraphs.TwoParagraphs | backend/src/fermatter/services/analyzer.py:35-36 | two paragraphs separated by a blank line are segmented as those two |
| Paragraphs.FingerprintIgnoresSpacing | backend/src/fermatter/services/analyzer.py:39-50 | two paragraphs get the same fingerprint exactly when their words are the same |
| Instability.Fingerprints | backend/src/fermatter/services/analyzer.py:71-75 | a snapshot has one fingerprint per paragraph |
| Instability.History | backend/src/fermatter/services/analyzer.py:70-75 | one fingerprint list per snapshot |
| Instability.Rewrites | backend/src/fermatter/services/analyzer.py:79-84 | after n snapshots a position has been counted at most n - 1 times |
| Instability.MaxLen | backend/src/fermatter/services/analyzer.py:78 | the largest paragraph count bounds every snapshot's count |
| Instability.EntryFrom | backend/src/fermatter/services/analyzer.py:83-84 | the first transition at or after t that changes a position does change it, and none before it does |
| Instability.RewritesEntry | backend/src/fermatter/services/analyzer.py:83-84 | a position has a count after t snapshots exactly when its first change came before t |
| Instability.StepUnchanged | backend/src/fermatter/services/analyzer.py:83 | an unchanged position leaves the dictionary as it is |
| Instability.StepIncrement | backend/src/fermatter/services/analyzer.py:84 | a changed position already in the dictionary has its count raised by one |
| Instability.StepInsert | backend/src/fermatter/services/analyzer.py:84 | a changed position not yet in the dictionary is inserted with count 1, last in insertion order |
| Instability.TransitionDone | backend/src/fermatter/services/analyzer.py:78-84 | once every position up to the longer list is compared, the transition is fully counted |
| Instability.AllCounted | backend/src/fermatter/services/analyzer.py:70-86 | counting every transition gives exactly the specified rewrite counts |
| Instability.CountTransition | backend/src/fermatter/services/analyzer.py:71-84 | one pass of the outer loop counts transition t and keeps the insertion order |
| Instability.ComputeInstability | backend/src/fermatter/services/analyzer.py:53-86 | the dictionary equals the specified rewrite counts, and its key order is the insertion order |
| Instability.FewSnapshotsNoRewrites | backend/src/fermatter/services/analyzer.py:65-66 | fewer than two snapshots give the empty dictionary |
| Instability.UnchangedPosition | backend/src/fermatter/services/analyzer.py:83 | a position no transition changes has count 0 |
| Instability.UnchangedHistory | backend/src/fermatter/services/analyzer.py:70-86 | snapshots with pairwise equal fingerprints give the empty dictionary |
| Instability.RewritesMonotone | backend/src/fermatter/services/analyzer.py:70-84 | counts never decrease as snapshots are added |
| Instability.ChangeIsCounted | backend/src/fermatter/services/analyzer.py:83-84 | a position changed by any transition is a key with count at least 1 |
| Instability.OneSidedPositionCounted | backend/src/fermatter/services/analyzer.py:80-84 | a position present in only one of two consecutive snapshots counts as a change |
| Instability.RewriteCountBounds | backend/src/fermatter/services/analyzer.py:70-84 | every count lies in 1 .. len(snapshots) - 1, and every key is below the largest paragraph count of some snapshot |
| Instability.AlwaysChanged | backend/src/fermatter/services/analyzer.py:70-84 | a position changed by every transition reaches the maximum count |
| Instability.InResultIffChanged | backend/src/fermatter/services/analyzer.py:83-84 | a position is a key exactly when some transition changes it |
| Instability.RespacingIsNoRewrite | backend/src/fermatter/services/analyzer.py:74-75 | re-spacing the words of every paragraph leaves the fingerprints unchanged |
| Instability.PrecedesStrictTotal | backend/src/fermatter/services/analyzer.py:84 | the insertion order is a strict total order on positions |
| Instability.SortedUnique | backend/src/fermatter/services/analyzer.py:84 | two lists sorted by one strict total order with the same elements are equal |
| Instability.InsertionOrderUnique | backend/src/fermatter/services/analyzer.py:84 | the insertion order of the keys is unique |
| Detectors.CheckLongParagraphs | backend/src/fermatter/services/analyzer.py:94-111 | the loop's output is the long-paragraph scan of the paragraphs |
| Detectors.CheckMissingEvidence | backend/src/fermatter/services/analyzer.py:114-154 | the loop's output is the unsupported-claim scan of the paragraphs |
| Detectors.CheckUnclearClaims | backend/src/fermatter/services/analyzer.py:157-183 | the loop's output is the vague-language scan, at most one report per paragraph |
| Detectors.ScanSound | backend/src/fermatter/services/analyzer.py:94-183 | a detector reports at most once per paragraph, and only paragraphs it fires on, with that paragraph's report |
| Detectors.ScanIncreasing | backend/src/fermatter/services/analyzer.py:94-183 | reports come in strictly increasing paragraph order and name existing paragraphs |
| Detectors.ScanComplete | backend/src/fermatter/services/analyzer.py:94-183 | every paragraph a detector fires on is reported |
| Detectors.ReportedIffFires | backend/src/fermatter/services/analyzer.py:94-183 | a paragraph is reported exactly when the detector fires on it |
| Detectors.LongParagraphReported | backend/src/fermatter/services/analyzer.py:97-110 | a paragraph of more than 150 words gets a `structure` observation of severity 2 |
| Detectors.LongParagraphNoteCount | backend/src/fermatter/services/analyzer.py:107 | the long-paragraph note states the paragraph's word count |
| Detectors.UnsupportedClaimIff | backend/src/fermatter/services/analyzer.py:134-141 | the claim detector fires exactly when a claim pattern matches the lower-cased paragraph and no evidence keyword occurs in it |
| Detectors.EvidenceSilencesClaim | backend/src/fermatter/services/analyzer.py:139-141 | any evidence keyword as a substring silences the claim detector |
| Detectors.AbsolutePhraseIsClaim | backend/src/fermatter/services/analyzer.py:130 | each absolute phrase on its own is a claim |
| Analyzer.InstabilitySeverity | backend/src/fermatter/services/analyzer.py:225 | severity 1 exactly when the count is below 4, 2 exactly when it is 4 or more |
| Analyzer.Flagged | backend/src/fermatter/services/analyzer.py:218-219 | the flagged positions are keys with count at least 2, taken from the dictionary order |
| Analyzer.Entries | backend/src/fermatter/services/analyzer.py:232-238 | one unstable entry per flagged position, with that position and its count |
| Analyzer.Reports | backend/src/fermatter/services/analyzer.py:221-231 | one `instability` observation per flagged position, for that position |
| Analyzer.ReportUnstable | backend/src/fermatter/services/analyzer.py:216-238 | the loop appends the reports of the flagged positions to the observations and builds their unstable entries |
| Analyzer.FlaggedComplete | backend/src/fermatter/services/analyzer.py:218-219 | every listed key with count at least 2 is flagged |
| Analyzer.FlaggedSorted | backend/src/fermatter/services/analyzer.py:218 | flagged positions keep the dictionary's insertion order |
| Analyzer.FlaggedAll | backend/src/fermatter/services/analyzer.py:218-219 | every key of the dictionary with count at least 2 is flagged |
| Analyzer.EntriesReported | backend/src/fermatter/services/analyzer.py:218-238 | the heuristic observations come first, followed, entry for entry, by an instability observation and an unstable entry with the same position and count |
| Analyzer.EntriesComplete | backend/src/fermatter/services/analyzer.py:218-238 | every position with count at least 2 has an unstable entry |
| Analyzer.EntriesSorted | backend/src/fermatter/services/analyzer.py:218 | unstable entries follow the insertion order of the dictionary |
| Analyzer.FlaggedReported | backend/src/fermatter/services/analyzer.py:215-238 | the instability part of the response is complete, exact and in dictionary order |
| Analyzer.RunHeuristics | backend/src/fermatter/services/analyzer.py:209-212 | the detections are the long, then evidence, then vague reports, all valid |
| Analyzer.FlagUnstable | backend/src/fermatter/services/analyzer.py:215-238 | instability reports and unstable entries exactly for counts of at least 2, after the detections and in dictionary order |
| Analyzer.Analyze | backend/src/fermatter/services/analyzer.py:186-244 | `meta.paragraph_count` is the number of paragraphs; the observations are the detections followed by one instability report per position with count at least 2; the unstable list holds exactly those positions with their counts; the response is valid |
| Analyzer.ResponseValid | backend/src/fermatter/services/analyzer.py:240-244 | everything `analyze` builds satisfies the schema constraints |
| Analyzer.DetectionsValid | backend/src/fermatter/services/analyzer.py:94-183 | detector observations are valid, of severity at most 2, and point at existing paragraphs |
| Analyzer.InstabilityNoteCount | backend/src/fermatter/services/analyzer.py:228 | the instability note states the rewrite count |
| Analyzer.TwoLinesAreTwoParagraphs | backend/tests/test_health.py:30-39 | two lines separated by a blank line count as two paragraphs |
| Analyzer.RepeatedWordParagraph | backend/tests/test_health.py:44 | n copies of a word joined by spaces are one paragraph of n words |
| Analyzer.RepeatedWordIsReported | backend/tests/test_health.py:42-56 | more than 150 repeated words yield exactly one `structure` observation |
| LlmOutput.SelectObservations | backend/src/fermatter/services/openai_client.py:157-166 | an object's `observations` member or a whole array is returned; any other shape or a decode failure gives none |
| LlmOutput.ParseLlmResponse | backend/src/fermatter/services/openai_client.py:129-166 | the fence-stripping loop hands the cleaned text to the decoder and the result's shape is selected |
| LlmOutput.FenceLinesRemoved | backend/src/fermatter/services/openai_client.py:144-153 | every fence line is removed and every other line is kept, in its original order |
| LlmOutput.CleanedHasNoFenceLine | backend/src/fermatter/services/openai_client.py:141-153 | no line of a cleaned fenced reply starts with three backticks |
| LlmOutput.FencedBodyRoundTrip | backend/src/fermatter/services/openai_client.py:141-155 | a body wrapped in an opening fence line and a closing fence is cleaned back to the body |
| LlmOutput.TypeOf | backend/src/fermatter/services/openai_client.py:189-193 | a known type string gives its member; anything else gives `unclear_claim` |
| LlmOutput.ParagraphIndex | backend/src/fermatter/services/openai_client.py:196-200 | the index lies in 0 .. max(0, count - 1); a non-integer or negative index becomes 0, one at or past the paragraph count becomes the last paragraph, and an in-range integer is kept |
| LlmOutput.SeverityOf | backend/src/fermatter/services/openai_client.py:203-206 | severity is 2 when not an integer, then clamped into 1..5 |
| LlmOutput.ConvertOne | backend/src/fermatter/services/openai_client.py:186-221 | a non-object item converts to nothing; a converted item is valid and points at an existing paragraph or 0 |
| LlmOutput.ConvertItem | backend/src/fermatter/services/openai_client.py:186-221 | the step-by-step field normalisation of one item gives its conversion |
| LlmOutput.ValidateAndConvertObservations | backend/src/fermatter/services/openai_client.py:169-225 | the loop outputs the conversions of the items that convert, in order |
| LlmOutput.ConvertedSubsequence | backend/src/fermatter/services/openai_client.py:184-225 | the output is an in-order subsequence of the items, no longer than the input, holding exactly the items that convert |
| LlmOutput.ConvertedBounds | backend/src/fermatter/services/openai_client.py:196-206 | every converted observation is valid and its paragraph lies in 0 .. max(0, count - 1) |
| LlmOutput.HighSeverityDropped | backend/src/fermatter/models/schemas.py:41 | an item whose integer severity is 4 or more is dropped |
| LlmOutput.WellFormedItemKept | backend/src/fermatter/services/openai_client.py:186-221 | a well-formed item converts to exactly its own fields |
| LlmOutput.ScopeNote | backend/src/fermatter/services/openai_client.py:63-67 | the scope note is the selected-text wording exactly when a selection is analysed |
| LlmOutput.UserPrompt | backend/src/fermatter/services/openai_client.py:116-121 | the user message starts with the fixed request, continues with the paragraph listing and ends with the closing JSON reminder |
| LlmOutput.HeaderNumber | backend/src/fermatter/services/openai_client.py:112-114 | the label `[Paragraph i]` reads back as i |
| LlmOutput.HeadersDistinct | backend/src/fermatter/services/openai_client.py:112-114 | different paragraphs carry different labels |
| LlmOutput.ListingSingle | backend/src/fermatter/services/openai_client.py:112-114 | a single paragraph is listed as `[Paragraph 0]`, a newline and its text |
| LlmOutput.ListingAppend | backend/src/fermatter/services/openai_client.py:112-114 | one more paragraph adds its entry, numbered by its position, after a blank line |
| SourcesLibrary.LibraryIdsDistinct | backend/src/fermatter/services/sources_library.py:10-58 | the eight registry ids are pairwise distinct |
| SourcesLibrary.IndexByIdLookup | backend/src/fermatter/services/sources_library.py:62 | the id table holds exactly the ids of the list, and with distinct ids each id maps to its own entry |
| SourcesLibrary.RegistryKeyedById | backend/src/fermatter/services/sources_library.py:62 | the registry table files every entry under its own id |
| SourcesLibrary.GetSourceByIdCorrect | backend/src/fermatter/services/sources_library.py:70-72 | a source is found exactly for a registry id, and it is the entry with that id |
| SourcesLibrary.SourcesByIdsOrder | backend/src/fermatter/services/sources_library.py:75-77 | lookup keeps input order, drops unknown ids, keeps duplicates, and returns no more entries than ids |
| SourcesLibrary.SourcesByIdsFromInput | backend/src/fermatter/services/sources_library.py:77 | every returned source has an id that occurs in the input |
| SourcesLibrary.FormatSourcesForPrompt | backend/src/fermatter/services/sources_library.py:80-108 | the two loops build the specified listing text |
| SourcesLibrary.SourceLinesShape | backend/src/fermatter/services/sources_library.py:96-100 | each known library source gives exactly two lines, its header and its indented snippet |
| SourcesLibrary.IdAddsItsLines | backend/src/fermatter/services/sources_library.py:96-100 | an unknown library id adds nothing; a known one adds its two lines at the end |
| SourcesLibrary.UserLabels | backend/src/fermatter/services/sources_library.py:92-106 | user sources are labelled U1..Un in order, right after the library lines |
| SourcesLibrary.UserLabelsDistinct | backend/src/fermatter/services/sources_library.py:104 | different user sources get different labels |
| SourcesLibrary.NoSourcesIff | backend/src/fermatter/services/sources_library.py:108 | the listing is "No sources provided." exactly when no known library id and no user source is given |
| Config.ParseCorsOrigins | backend/src/fermatter/core/config.py:21-26 | every origin is non-empty and stripped; there are at most one more origins than commas |
| Config.OriginsInOrder | backend/src/fermatter/core/config.py:26 | the origins are the non-blank comma-separated pieces, stripped, in input order |
| Config.TrailingCommaIgnored | backend/src/fermatter/core/config.py:26 | a trailing comma changes nothing |
| Config.OriginsOfJoin | backend/src/fermatter/core/config.py:26 | stripped, non-empty, comma-free origins are parsed back from their comma join |
| Config.DefaultOrigins | backend/src/fermatter/core/config.py:23-26 | without the variable the origins are `http://localhost:5173` and `http://127.0.0.1:5173` |

## Left out

- Observation ids. The ids from `uuid.uuid4()` are random and no behaviour depends on them, so `Observation` has no id field. The field `type` is named `kind`.
- SHA-256 in `hash_paragraph`. The fingerprint is the whitespace-normalised paragraph itself. Two different paragraphs whose truncated digests collide would count as unchanged in the source, which the model does not capture.
- Unicode word and case rules. The regex class `\w` and `str.lower` are modelled for ASCII only. `\s` and `str.isspace` use Python's full whitespace set.
- The regular-expression engine. Only the patterns the backend uses are modelled, as predicates.
- `json.loads`. It is a parameter of `ParseLlmResponse`, with `None` standing for a decode error. `Json` does not record the value of a float, because the converter only asks whether a value is an integer.
- Pydantic behaviour assumed by `ConvertOne`:
  - a `bool` counts as an integer (0 or 1), as `isinstance` and lax integer validation treat it;
  - a non-string title, note or question fails validation;
  - extra arguments (`anchor_text`, `source_ids`) are ignored.
- ValidateAndConvertObservations takes the raw items as a list. Its caller `call_openai_analysis` (left out) passes whatever `parse_llm_response` selected, without checking that it is a list. Iterating a value that is not a list is not modelled. In the source:
  - a string `observations` value is iterated character by character, every `.get` fails inside the per-item `try`, and the result is an empty list reported as success;
  - an object value is iterated over its keys, with the same outcome;
  - a number raises a `TypeError` outside the per-item `try`, which the caller's `except` turns into a retry;
  - `null` is returned as `None` and treated as a parse failure by the caller, while `SelectObservations` returns it as a present `JNull` value.
- `get_client`, `call_openai_analysis` and `analyze_with_llm`. These are network calls, a lazily initialised global, a retry loop, and an async wrapper that only delegates.
- The system prompt prose and `MODE_PROMPTS` of `build_analysis_prompt`. They are constant text. The scope note, the paragraph listing and the user message are modelled. The source listing that fills the prompt's sources section is `FormatSourcesForPrompt`.
- `get_all_sources`. The response type `SourcesLibraryResponse` is not defined in `schemas.py`. `LibrarySource` is not defined there either, so the model declares it with the four fields its constructor calls use.
- `AnalysisMode`. It is imported from `schemas.py` but not defined there. The mode only selects prompt prose, which is left out.
- Settings and environment loading.
  - The `Settings` dataclass, `load_dotenv` and the other variables are left out.
  - `CorsOrigins` takes the `CORS_ORIGINS` value as an `Option<string>` instead of reading the environment.
  - Logging, the HTTP layer (`api.py`, `main.py`) and the health endpoint are also left out.
- The `goal` argument of `analyze`. The source reserves it and never reads it, so `Analyze` ignores it.
- Analyze: the body of `analyze` is split into `RunHeuristics` (the three detector calls) and `FlagUnstable` (instability counting and the threshold loop). Each is proved on its own, and `Analyze` composes them.
- `rewrite_counts.items()` iteration order. It is modelled as the dictionary's insertion order, which Python guarantees.
