/**
 * The demo source library: a fixed registry of eight reference works, lookup
 * by id, and the source listing that goes into the analysis prompt.
 */
module SourcesLibrary {
  import opened Options
  import opened Text
  import opened Sequences

  /** One library entry. */
  datatype LibrarySource = LibrarySource(id: string, title: string, url: string, snippet: string)

  const S1 := LibrarySource(
    "S1", "The Elements of Style",
    "https://en.wikipedia.org/wiki/The_Elements_of_Style",
    "Omit needless words. Vigorous writing is concise. A sentence should contain no unnecessary words, a paragraph no unnecessary sentences.")
  const S2 := LibrarySource(
    "S2", "On Writing Well - William Zinsser",
    "https://en.wikipedia.org/wiki/On_Writing_Well",
    "Clutter is the disease of American writing. We are a society strangling in unnecessary words, circular constructions, pompous frills and meaningless jargon.")
  const S3 := LibrarySource(
    "S3", "APA Publication Manual (7th ed.)",
    "https://apastyle.apa.org/",
    "Scholarly writing should be clear, concise, and free of bias. Every claim should be supported by evidence, properly cited.")
  const S4 := LibrarySource(
    "S4", "Chicago Manual of Style",
    "https://www.chicagomanualofstyle.org/",
    "Good writing is good thinking made visible. Structure your arguments logically and support claims with credible sources.")
  const S5 := LibrarySource(
    "S5", "Nature: How to Write a Paper",
    "https://www.nature.com/nature/for-authors/formatting-guide",
    "Scientific papers should present findings clearly. Avoid jargon where possible. State limitations explicitly.")
  const S6 := LibrarySource(
    "S6", "Plain Language Guidelines",
    "https://www.plainlanguage.gov/guidelines/",
    "Use simple words and short sentences. Write for your reader, not yourself. Organize information logically.")
  const S7 := LibrarySource(
    "S7", "Critical Thinking - Stanford Encyclopedia",
    "https://plato.stanford.edu/entries/critical-thinking/",
    "Critical thinking involves careful examination of claims and arguments. Identify assumptions, evaluate evidence, and consider alternative interpretations.")
  const S8 := LibrarySource(
    "S8", "Logical Fallacies - Purdue OWL",
    "https://owl.purdue.edu/owl/general_writing/academic_writing/logic_in_argumentative_writing/",
    "Common fallacies include ad hominem attacks, straw man arguments, false dichotomies, and appeals to authority without evidence.")

  /** `LIBRARY_SOURCES`, in registry order. */
  const LibrarySources: seq<LibrarySource> := [S1, S2, S3, S4, S5, S6, S7, S8]

  /** The dictionary comprehension `{s.id: s for s in sources}`: a later entry wins over an earlier one with its id. */
  function IndexById(sources: seq<LibrarySource>): map<string, LibrarySource> {
    if sources == [] then map[]
    else
      var last := sources[|sources| - 1];
      IndexById(sources[..|sources| - 1])[last.id := last]
  }

  /** `_SOURCES_BY_ID`. */
  const SourcesById: map<string, LibrarySource> := IndexById(LibrarySources)

  ghost predicate DistinctIds(sources: seq<LibrarySource>) {
    forall i, j | 0 <= i < j < |sources| :: sources[i].id != sources[j].id
  }

  /** A table that files every entry under its own id. */
  ghost predicate KeyedById(table: map<string, LibrarySource>) {
    forall id | id in table :: table[id].id == id
  }

  /** `dict.get` on a table of sources. */
  function Lookup(table: map<string, LibrarySource>, sourceId: string): Option<LibrarySource> {
    if sourceId in table then Some(table[sourceId]) else None
  }

  /** `get_source_by_id`: the entry with that id, if the registry has one. */
  function GetSourceById(sourceId: string): Option<LibrarySource> {
    Lookup(SourcesById, sourceId)
  }

  /** The entries a table holds for the ids, in the order of the ids. */
  function SourcesIn(table: map<string, LibrarySource>, sourceIds: seq<string>): seq<LibrarySource> {
    FilterMap((id: string) => Lookup(table, id), sourceIds)
  }

  /** `get_sources_by_ids`: the known entries for the ids, in the order of the ids. */
  function GetSourcesByIds(sourceIds: seq<string>): seq<LibrarySource> {
    SourcesIn(SourcesById, sourceIds)
  }

  const Indent := "    "
  const Dash := " \U{2014} "
  const UserProvided := " User-provided: "
  const NoSources := "No sources provided."

  /** The header line of a library source: `[id] title — url`. */
  function HeaderLine(source: LibrarySource): string {
    "[" + source.id + "] " + source.title + Dash + source.url
  }

  /** The two lines of each library source: its header and its indented snippet. */
  function SourceLines(sources: seq<LibrarySource>): seq<string> {
    if sources == [] then []
    else
      var last := sources[|sources| - 1];
      SourceLines(sources[..|sources| - 1]) + [HeaderLine(last), Indent + last.snippet]
  }

  /** The label `[Un]` of the user source numbered `n`. */
  function UserLabel(n: nat): string {
    "[U" + NatToString(n) + "]"
  }

  /** The line of the user source numbered `n`: `[Un] User-provided: source`. */
  function UserLine(n: nat, source: string): string {
    UserLabel(n) + UserProvided + source
  }

  /** The lines of the user sources, numbered from 1. */
  function UserLines(userSources: seq<string>): seq<string> {
    seq(|userSources|, i requires 0 <= i < |userSources| => UserLine(i + 1, userSources[i]))
  }

  /** All lines of the listing: the library sources the table knows, then the user sources. */
  function PromptLines(table: map<string, LibrarySource>, libraryIds: seq<string>, userSources: seq<string>): seq<string> {
    SourceLines(SourcesIn(table, libraryIds)) + UserLines(userSources)
  }

  /** The listing text: the lines joined by newlines, or the fixed notice when there are none. */
  function SourcesText(table: map<string, LibrarySource>, libraryIds: seq<string>, userSources: seq<string>): string {
    var lines := PromptLines(table, libraryIds, userSources);
    if lines == [] then NoSources else Join(lines, "\n")
  }

  /** `format_sources_for_prompt`: appends the lines in two loops, counting the user sources from 1. */
  method FormatSourcesForPrompt(libraryIds: seq<string>, userSources: seq<string>) returns (text: string)
    ensures text == SourcesText(SourcesById, libraryIds, userSources)
  {
    ghost var table := SourcesById;
    var lines: seq<string> := [];
    var counter := 1;
    for k := 0 to |libraryIds|
      invariant lines == SourceLines(SourcesIn(table, libraryIds[..k]))
    {
      var id := libraryIds[k];
      var source := GetSourceById(id);
      assert source == Lookup(table, id);
      ghost var before := SourcesIn(table, libraryIds[..k]);
      SourcesInStep(table, libraryIds, k);
      if source.Some? {
        assert SourcesIn(table, libraryIds[..k + 1]) == before + [source.value];
        SourceLinesAppend(before, source.value);
        lines := lines + [HeaderLine(source.value), Indent + source.value.snippet];
      } else {
        assert SourcesIn(table, libraryIds[..k + 1]) == before + [];
        assert before + [] == before;
      }
    }
    assert libraryIds[..|libraryIds|] == libraryIds;
    ghost var libraryLines := lines;
    for k := 0 to |userSources|
      invariant counter == k + 1
      invariant lines == libraryLines + UserLines(userSources[..k])
    {
      assert UserLines(userSources[..k + 1]) == UserLines(userSources[..k]) + [UserLine(counter, userSources[k])];
      lines := lines + [UserLine(counter, userSources[k])];
      counter := counter + 1;
    }
    assert userSources[..|userSources|] == userSources;
    if lines != [] {
      text := Join(lines, "\n");
    } else {
      text := NoSources;
    }
  }

  // ---------------------------------------------------------------- lemmas

  /** One more id adds its entry, if the table has one. */
  lemma SourcesInStep(table: map<string, LibrarySource>, sourceIds: seq<string>, k: nat)
    requires k < |sourceIds|
    ensures SourcesIn(table, sourceIds[..k + 1]) ==
      SourcesIn(table, sourceIds[..k]) + (if sourceIds[k] in table then [table[sourceIds[k]]] else [])
  {
    var f := (id: string) => Lookup(table, id);
    assert sourceIds[..k + 1] == sourceIds[..k] + [sourceIds[k]];
    FilterMapAppend(f, sourceIds[..k], [sourceIds[k]]);
    assert [sourceIds[k]][..0] == [];
  }

  /** One more source adds its two lines at the end. */
  lemma SourceLinesAppend(sources: seq<LibrarySource>, s: LibrarySource)
    ensures SourceLines(sources + [s]) == SourceLines(sources) + [HeaderLine(s), Indent + s.snippet]
  {
    assert (sources + [s])[..|sources|] == sources;
  }

  /** The index holds exactly the ids of the list, and with distinct ids each id maps to its own entry. */
  lemma {:induction false} IndexByIdLookup(sources: seq<LibrarySource>)
    ensures forall id :: id in IndexById(sources) <==> exists k | 0 <= k < |sources| :: sources[k].id == id
    ensures DistinctIds(sources) ==> forall k | 0 <= k < |sources| :: IndexById(sources)[sources[k].id] == sources[k]
  {
    if sources != [] {
      var n := |sources| - 1;
      var front := sources[..n];
      IndexByIdLookup(front);
      assert forall k | 0 <= k < n :: front[k] == sources[k];
    }
  }

  /** The registry ids S1..S8 are pairwise distinct. */
  lemma LibraryIdsDistinct()
    ensures |LibrarySources| == 8
    ensures DistinctIds(LibrarySources)
  {
  }

  /**
   * `get_source_by_id` finds a source exactly for the ids of the registry, and
   * then the entry with that id; every registry entry is found by its own id.
   */
  lemma GetSourceByIdCorrect(sourceId: string)
    ensures GetSourceById(sourceId).Some? <==> exists k | 0 <= k < |LibrarySources| :: LibrarySources[k].id == sourceId
    ensures GetSourceById(sourceId).Some? ==>
      GetSourceById(sourceId).value.id == sourceId && GetSourceById(sourceId).value in LibrarySources
    ensures forall k | 0 <= k < |LibrarySources| :: GetSourceById(LibrarySources[k].id) == Some(LibrarySources[k])
  {
    IndexByIdLookup(LibrarySources);
    LibraryIdsDistinct();
  }

  /** The registry table files every entry under its own id. */
  lemma RegistryKeyedById()
    ensures KeyedById(SourcesById)
  {
    IndexByIdLookup(LibrarySources);
    LibraryIdsDistinct();
  }

  /**
   * Looking ids up keeps input order, drops unknown ids and keeps duplicates:
   * `picked` lists, increasing, exactly the positions of ids the table
   * knows, and the m-th source is the entry of the m-th of them.
   */
  lemma SourcesByIdsOrder(table: map<string, LibrarySource>, sourceIds: seq<string>) returns (picked: seq<nat>)
    ensures |SourcesIn(table, sourceIds)| <= |sourceIds|
    ensures |picked| == |SourcesIn(table, sourceIds)|
    ensures IncreasingIndices(picked, |sourceIds|)
    ensures forall m | 0 <= m < |picked| :: sourceIds[picked[m]] in table && table[sourceIds[picked[m]]] == SourcesIn(table, sourceIds)[m]
    ensures forall k | 0 <= k < |sourceIds| :: sourceIds[k] in table <==> k in picked
  {
    var f := (id: string) => Lookup(table, id);
    picked := FilterMapPicks(f, sourceIds);
    assert forall m | 0 <= m < |picked| :: f(sourceIds[picked[m]]) == Some(SourcesIn(table, sourceIds)[m]);
  }

  /** Every source returned from a table keyed by id carries an id from the input. */
  lemma SourcesByIdsFromInput(table: map<string, LibrarySource>, sourceIds: seq<string>)
    requires KeyedById(table)
    ensures forall m | 0 <= m < |SourcesIn(table, sourceIds)| :: SourcesIn(table, sourceIds)[m].id in sourceIds
  {
    var picked := SourcesByIdsOrder(table, sourceIds);
    forall m | 0 <= m < |SourcesIn(table, sourceIds)|
      ensures SourcesIn(table, sourceIds)[m].id in sourceIds
    {
      assert SourcesIn(table, sourceIds)[m].id == sourceIds[picked[m]];
    }
  }

  /** Each source gives exactly two lines, its header and then its indented snippet. */
  lemma {:induction false} SourceLinesShape(sources: seq<LibrarySource>)
    ensures |SourceLines(sources)| == 2 * |sources|
    ensures forall m | 0 <= m < |sources| ::
      && SourceLines(sources)[2 * m] == HeaderLine(sources[m])
      && SourceLines(sources)[2 * m + 1] == Indent + sources[m].snippet
  {
    if sources != [] {
      var n := |sources| - 1;
      SourceLinesShape(sources[..n]);
      assert forall m | 0 <= m < n :: sources[..n][m] == sources[m];
    }
  }

  /** An unknown library id adds no line; a known one adds its header and snippet after the lines before it. */
  lemma IdAddsItsLines(table: map<string, LibrarySource>, libraryIds: seq<string>, id: string)
    ensures id !in table ==> SourceLines(SourcesIn(table, libraryIds + [id])) == SourceLines(SourcesIn(table, libraryIds))
    ensures id in table ==>
      SourceLines(SourcesIn(table, libraryIds + [id]))
      == SourceLines(SourcesIn(table, libraryIds)) + [HeaderLine(table[id]), Indent + table[id].snippet]
  {
    var ids := libraryIds + [id];
    SourcesInStep(table, ids, |libraryIds|);
    assert ids[..|libraryIds| + 1] == ids;
    assert ids[..|libraryIds|] == libraryIds;
    if id in table {
      SourceLinesAppend(SourcesIn(table, libraryIds), table[id]);
    } else {
      assert SourcesIn(table, libraryIds) + [] == SourcesIn(table, libraryIds);
    }
  }

  /**
   * User sources are labelled U1..Un in input order, right after the library
   * lines, however many library sources precede them.
   */
  lemma UserLabels(table: map<string, LibrarySource>, libraryIds: seq<string>, userSources: seq<string>)
    ensures |PromptLines(table, libraryIds, userSources)| == 2 * |SourcesIn(table, libraryIds)| + |userSources|
    ensures forall i | 0 <= i < |userSources| ::
      PromptLines(table, libraryIds, userSources)[2 * |SourcesIn(table, libraryIds)| + i] == UserLine(i + 1, userSources[i])
  {
    SourceLinesShape(SourcesIn(table, libraryIds));
  }

  /** Different numbers give different labels. */
  lemma UserLabelsDistinct(m: nat, n: nat)
    requires m != n
    ensures UserLabel(m) != UserLabel(n)
  {
    var lm := UserLabel(m);
    var ln := UserLabel(n);
    assert lm[2..|lm| - 1] == NatToString(m);
    assert ln[2..|ln| - 1] == NatToString(n);
    if lm == ln {
      NatToStringInjective(m, n);
    }
  }

  /** The listing is the fixed notice exactly when no known library id and no user source is given. */
  lemma NoSourcesIff(table: map<string, LibrarySource>, libraryIds: seq<string>, userSources: seq<string>)
    ensures SourcesText(table, libraryIds, userSources) == NoSources
      <==> SourcesIn(table, libraryIds) == [] && userSources == []
  {
    var lines := PromptLines(table, libraryIds, userSources);
    var sources := SourcesIn(table, libraryIds);
    SourceLinesShape(sources);
    if sources != [] {
      assert lines[0] == HeaderLine(sources[0]);
    } else if userSources != [] {
      assert lines[0] == UserLine(1, userSources[0]);
    }
    if lines != [] {
      assert lines[0][0] == '[';
      JoinFirst(lines, "\n");
      assert NoSources[0] == 'N';
    }
  }
}
