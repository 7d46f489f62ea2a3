/**
 * The API records of the backend: the closed observation-type enumeration and
 * the response records, each with the field constraints its schema declares
 * as a validity predicate.
 */
module Schemas {
  import opened Options

  /** The closed set of observation kinds. */
  datatype ObservationType = MissingEvidence | UnclearClaim | LogicGap | Structure | Instability {

    /** The string value each member carries. */
    function Value(): string {
      match this
      case MissingEvidence => "missing_evidence"
      case UnclearClaim => "unclear_claim"
      case LogicGap => "logic_gap"
      case Structure => "structure"
      case Instability => "instability"
    }
  }

  const ObservationTypeValues: seq<string> :=
    ["missing_evidence", "unclear_claim", "logic_gap", "structure", "instability"]

  /** The enum lookup by value, `ObservationType(s)`; `None` is the `ValueError` case. */
  function ParseObservationType(s: string): (r: Option<ObservationType>)
    ensures r.Some? <==> s in ObservationTypeValues
    ensures r.Some? ==> r.value.Value() == s
  {
    if s == "missing_evidence" then Some(MissingEvidence)
    else if s == "unclear_claim" then Some(UnclearClaim)
    else if s == "logic_gap" then Some(LogicGap)
    else if s == "structure" then Some(Structure)
    else if s == "instability" then Some(Instability)
    else None
  }

  /** Every member is found again from its value, and the five values are distinct. */
  lemma ObservationTypeRoundTrip(t: ObservationType)
    ensures ParseObservationType(t.Value()) == Some(t)
    ensures |ObservationTypeValues| == 5
    ensures forall i, j | 0 <= i < j < 5 :: ObservationTypeValues[i] != ObservationTypeValues[j]
  {
    match t
    case MissingEvidence =>
    case UnclearClaim =>
    case LogicGap =>
    case Structure =>
    case Instability =>
  }

  /** A text snapshot: an ISO-8601 timestamp and the text at that time. */
  datatype Snapshot = Snapshot(ts: string, text: string)

  /** The request body of the analysis endpoint; the history defaults to empty and the goal to none. */
  datatype AnalyzeRequest = AnalyzeRequest(
    text: string,
    snapshots: seq<Snapshot> := [],
    goal: Option<string> := None)

  /** One feedback item (`type` is named `kind` here). */
  datatype Observation = Observation(
    kind: ObservationType,
    severity: int,
    paragraph: int,
    title: string,
    note: string,
    question: string)

  /** Field constraints: severity between 1 and 3, paragraph index non-negative. */
  predicate ValidObservation(o: Observation) {
    1 <= o.severity <= 3 && o.paragraph >= 0
  }

  /** Constructing an `Observation` validates its fields; `None` is the `ValidationError`. */
  function NewObservation(kind: ObservationType, severity: int, paragraph: int,
                          title: string, note: string, question: string): (r: Option<Observation>)
    ensures r.Some? <==> 1 <= severity <= 3 && paragraph >= 0
    ensures r.Some? ==> ValidObservation(r.value)
    ensures r.Some? ==> r.value.kind == kind && r.value.severity == severity && r.value.paragraph == paragraph
    ensures r.Some? ==> r.value.title == title && r.value.note == note && r.value.question == question
  {
    var o := Observation(kind, severity, paragraph, title, note, question);
    if ValidObservation(o) then Some(o) else None
  }

  datatype UnstableParagraph = UnstableParagraph(paragraph: int, rewriteCount: int, note: string)

  predicate ValidUnstableParagraph(u: UnstableParagraph) {
    u.paragraph >= 0 && u.rewriteCount >= 0
  }

  datatype Meta = Meta(paragraphCount: int)

  predicate ValidMeta(m: Meta) {
    m.paragraphCount >= 0
  }

  /** The analysis result; both lists default to empty, `meta` has no default. */
  datatype AnalyzeResponse = AnalyzeResponse(
    meta: Meta,
    observations: seq<Observation> := [],
    unstable: seq<UnstableParagraph> := [])

  predicate ValidResponse(r: AnalyzeResponse) {
    && ValidMeta(r.meta)
    && (forall k | 0 <= k < |r.observations| :: ValidObservation(r.observations[k]))
    && (forall k | 0 <= k < |r.unstable| :: ValidUnstableParagraph(r.unstable[k]))
  }
}
