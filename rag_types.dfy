/**
 * The records exchanged by the question-answering service: the regulation chunks the
 * vector search returns, the structured answer the chat model is asked to produce, the
 * numbered source references shown beside it, and the response envelope.
 *
 * `null` in the original records is `None`; numbers that are similarity scores are `real`
 * (floating point is not modelled), counters are `nat`.
 */
module RagTypes {
  import opened Wrappers

  /** The licence group a regulatory point applies to. */
  datatype Group = Leger | Lourd | LesDeux

  /** The five fitness decisions an answer may propose. */
  datatype Decision = Apte | ApteTemporaire | ApteAvecRestrictions | Inapte | RenvoiCommission

  /** The wire spelling of a group. */
  function GroupTag(g: Group): (r: string)
    ensures GroupOfTag(r) == Some(g)
  {
    match g
    case Leger => "léger"
    case Lourd => "lourd"
    case LesDeux => "les deux"
  }

  /** The group a wire spelling names, if any. */
  function GroupOfTag(s: string): Option<Group>
  {
    if s == "léger" then Some(Leger)
    else if s == "lourd" then Some(Lourd)
    else if s == "les deux" then Some(LesDeux)
    else None
  }

  /** The wire spelling of a decision. */
  function DecisionTag(d: Decision): (r: string)
    ensures DecisionOfTag(r) == Some(d)
  {
    match d
    case Apte => "apte"
    case ApteTemporaire => "apte_temporaire"
    case ApteAvecRestrictions => "apte_avec_restrictions"
    case Inapte => "inapte"
    case RenvoiCommission => "renvoi_commission"
  }

  /** The decision a wire spelling names, if any. */
  function DecisionOfTag(s: string): Option<Decision>
  {
    if s == "apte" then Some(Apte)
    else if s == "apte_temporaire" then Some(ApteTemporaire)
    else if s == "apte_avec_restrictions" then Some(ApteAvecRestrictions)
    else if s == "inapte" then Some(Inapte)
    else if s == "renvoi_commission" then Some(RenvoiCommission)
    else None
  }

  datatype RegulatoryPoint = RegulatoryPoint(
    rule: string,
    group: Group,
    compatibility: string,
    conditions: Option<string>,
    duration: Option<string>)

  datatype ProposedOrientation = ProposedOrientation(
    decision: Decision,
    displayLabel: string,  // `label` in the record; `label` is a Dafny keyword
    suggestedDuration: Option<string>,
    restrictions: Option<string>,
    justification: string)

  datatype RagAnswer = RagAnswer(
    caseAnalysis: string,
    regulatoryFramework: string,
    regulatoryPoints: seq<RegulatoryPoint>,
    medicalReasoning: string,
    clarificationQuestions: seq<string>,
    proposedOrientation: ProposedOrientation,
    importantNotes: seq<string>,
    disclaimer: string)

  datatype SourceReference = SourceReference(
    sourceNumber: nat,
    chunkId: string,
    excerpt: string,
    similarity: real)

  datatype ResponseMetadata = ResponseMetadata(chunksUsed: nat, model: string, timestamp: string)

  datatype RagResponse = RagResponse(
    answer: RagAnswer,
    sources: seq<SourceReference>,
    metadata: ResponseMetadata)

  /** A chunk as the vector search ranks it; its free-form metadata record is not modelled. */
  datatype RegulationChunk = RegulationChunk(id: string, content: string, similarity: real)
}
