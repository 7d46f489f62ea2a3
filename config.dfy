/**
 * The allowed CORS origins of the settings: the `CORS_ORIGINS` environment
 * value (or its default) split at commas, each piece stripped, the blank
 * pieces dropped.
 */
module Config {
  import opened Options
  import opened Text
  import opened Sequences

  const LocalhostOrigin := "http://localhost:5173"
  const LoopbackOrigin := "http://127.0.0.1:5173"
  const DefaultCorsOrigins := "http://localhost:5173,http://127.0.0.1:5173"

  /** The comprehension of `_parse_cors_origins` over the comma-separated value. */
  function ParseCorsOrigins(originsStr: string): (origins: seq<string>)
    ensures forall k | 0 <= k < |origins| :: origins[k] != [] && IsStripped(origins[k])
    ensures |origins| <= Occurrences(originsStr, ',') + 1
  {
    StripNonBlank(SplitOn(originsStr, ','))
  }

  /** `_parse_cors_origins`, with the environment variable as `None` when unset. */
  function CorsOrigins(env: Option<string>): seq<string> {
    ParseCorsOrigins(env.GetOr(DefaultCorsOrigins))
  }

  /** A piece kept by the comprehension: its stripped form, unless that is empty. */
  function StripPiece(piece: string): Option<string> {
    if Strip(piece) == [] then None else Some(Strip(piece))
  }

  /** The strip-and-drop-blanks comprehension keeps, in order, what `StripPiece` keeps. */
  lemma {:induction false} StripNonBlankFilters(pieces: seq<string>)
    ensures StripNonBlank(pieces) == FilterMap(StripPiece, pieces)
  {
    if pieces != [] {
      var n := |pieces| - 1;
      StripNonBlankFilters(pieces[..n]);
      StripNonBlankAppend(pieces[..n], [pieces[n]]);
      assert pieces[..n] + [pieces[n]] == pieces;
      assert StripNonBlank([pieces[n]]) == (if Strip(pieces[n]) == [] then [] else [Strip(pieces[n])]);
    }
  }

  /**
   * The origins keep the order of the comma-separated pieces: `picked` lists,
   * increasing, exactly the pieces that are not blank, and the m-th origin is
   * the m-th of them stripped.
   */
  lemma OriginsInOrder(originsStr: string) returns (picked: seq<nat>)
    ensures |picked| == |ParseCorsOrigins(originsStr)|
    ensures IncreasingIndices(picked, |SplitOn(originsStr, ',')|)
    ensures forall m | 0 <= m < |picked| :: ParseCorsOrigins(originsStr)[m] == Strip(SplitOn(originsStr, ',')[picked[m]])
    ensures forall k | 0 <= k < |SplitOn(originsStr, ',')| :: Strip(SplitOn(originsStr, ',')[k]) != [] <==> k in picked
  {
    var pieces := SplitOn(originsStr, ',');
    StripNonBlankFilters(pieces);
    picked := FilterMapPicks(StripPiece, pieces);
    forall m | 0 <= m < |picked|
      ensures ParseCorsOrigins(originsStr)[m] == Strip(pieces[picked[m]])
    {
      assert StripPiece(pieces[picked[m]]) == Some(ParseCorsOrigins(originsStr)[m]);
    }
  }

  /** A trailing comma adds only a blank piece, which is dropped. */
  lemma TrailingCommaIgnored(originsStr: string)
    ensures ParseCorsOrigins(originsStr + ",") == ParseCorsOrigins(originsStr)
  {
    SplitOnSeparator(originsStr, [], ',');
    assert originsStr + "," == originsStr + [','] + [];
    StripNonBlankAppend(SplitOn(originsStr, ','), [[]]);
    assert Strip([]) == [];
    assert StripNonBlank([[]]) == [];
  }

  /** Round trip: origins that are stripped, non-empty and comma-free are parsed back from their comma join. */
  lemma OriginsOfJoin(origins: seq<string>)
    requires forall k | 0 <= k < |origins| :: origins[k] != [] && IsStripped(origins[k]) && ',' !in origins[k]
    ensures ParseCorsOrigins(Join(origins, ",")) == origins
  {
    if origins == [] {
      assert SplitOn([], ',') == [[]];
      assert Strip([]) == [];
    } else {
      SplitJoin(origins, ',');
      StripNonBlankKeeps(origins);
    }
  }

  /** Without the environment variable the two local development origins are allowed. */
  lemma DefaultOrigins()
    ensures CorsOrigins(None) == [LocalhostOrigin, LoopbackOrigin]
  {
    assert DefaultCorsOrigins == Join([LocalhostOrigin, LoopbackOrigin], ",");
    assert IsStripped(LocalhostOrigin) && ',' !in LocalhostOrigin;
    assert IsStripped(LoopbackOrigin) && ',' !in LoopbackOrigin;
    OriginsOfJoin([LocalhostOrigin, LoopbackOrigin]);
  }
}
