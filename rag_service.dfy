/**
 * The question-answering service: it embeds the doctor's question, fetches the eight
 * closest regulation chunks, and either answers with a fixed referral when nothing was
 * found, or asks the chat model for a structured answer and returns it with the numbered
 * sources the prompt cited.
 *
 * The embedding service, the vector search, the chat model, `JSON.parse` and the clock are
 * outside the model: `Ask` receives what each of them gave (or that it threw) as inputs,
 * and reports the calls it makes as a list.
 */
module RagService {
  import opened Wrappers
  import opened JsText
  import opened RagTypes
  import opened PromptBuilder

  // ---------------------------------------------------------------- cleanExcerpt

  /** `cleanExcerpt`: line breaks become spaces, every run of two or more white-space
      characters becomes one space, and the ends are trimmed. */
  function CleanExcerpt(raw: string): (r: string)
    ensures '\n' !in r
    ensures IsTrimmed(r)
    ensures NoRun(r, Space, 2)
    ensures forall i :: 0 <= i < |r| - 1 ==> !(IsWs(r[i]) && IsWs(r[i + 1]))
    ensures Words(r) == Words(raw)
  {
    var flat := ReplaceChar(raw, '\n', ' ');
    var collapsed := CollapseRuns(flat, Space, 2, " ");
    SpaceIsWs();
    WordsReplace(raw);
    WordsCollapse(flat, 2, " ");
    WordsTrim(collapsed);
    CollapseNoRun(flat, Space, 2, " ");
    TrimNoRun(collapsed, 2);
    NoRunAdjacent(Trim(collapsed), 2);
    var lo := LeadingRun(collapsed, Space);
    SliceMembers(collapsed, lo, lo + |Trim(collapsed)|);
    Trim(collapsed)
  }

  /** Cleaning only touches white space: the other characters come out unchanged and in
      order. */
  lemma {:induction false} CleanExcerptVisible(raw: string)
    ensures Visible(CleanExcerpt(raw)) == Visible(raw)
  {
    var flat := ReplaceChar(raw, '\n', ' ');
    SpaceIsWs();
    VisibleReplace(raw);
    VisibleCollapse(flat, 2, " ");
    VisibleTrim(CollapseRuns(flat, Space, 2, " "));
  }

  /** Cleaning a cleaned excerpt changes nothing. */
  lemma {:induction false} CleanExcerptIdempotent(raw: string)
    ensures CleanExcerpt(CleanExcerpt(raw)) == CleanExcerpt(raw)
  {
    var r := CleanExcerpt(raw);
    assert ReplaceChar(r, '\n', ' ') == r;
    CollapseIdentity(r, Space, 2, " ");
    TrimIdentity(r);
  }

  // ---------------------------------------------------------------- buildSources

  const ExcerptLimit: nat := 400

  /** A cleaned excerpt longer than 400 characters is cut to its first 400 and marked with
      an ellipsis. */
  function Excerpt(cleaned: string): (r: string)
    ensures |r| <= ExcerptLimit + 1
    ensures |cleaned| <= ExcerptLimit ==> r == cleaned
    ensures |cleaned| > ExcerptLimit ==>
      |r| == ExcerptLimit + 1 && r[..ExcerptLimit] == cleaned[..ExcerptLimit] && r[ExcerptLimit] == '…'
  {
    if |cleaned| > ExcerptLimit then cleaned[..ExcerptLimit] + "…" else cleaned
  }

  /** `Math.round(x * 10000) / 10000` on exact reals; `Math.round` rounds halves up. */
  function Round4(x: real): (r: real)
    ensures -1.0 / 20000.0 < r - x <= 1.0 / 20000.0
    ensures (r * 10000.0).Floor as real == r * 10000.0
  {
    (x * 10000.0 + 0.5).Floor as real / 10000.0
  }

  /** A rounded similarity rounds to itself. */
  lemma {:induction false} Round4Idempotent(x: real)
    ensures Round4(Round4(x)) == Round4(x)
  {
    var r := Round4(x);
    var k := (r * 10000.0).Floor;
    assert k as real == r * 10000.0;
    assert (r * 10000.0 + 0.5).Floor == k;
  }

  /** The reference shown for the chunk ranked `index` (from 0): it carries the number
      `index + 1` and the chunk's id, its excerpt is a cleaned prefix of the content of at
      most 401 characters with no line break, and its similarity is within half a unit of
      the fourth decimal. */
  function SourceFor(index: nat, chunk: RegulationChunk): (s: SourceReference)
    ensures var cleaned := CleanExcerpt(chunk.content);
      var n := Min(|cleaned|, ExcerptLimit);
      s.sourceNumber == index + 1 && s.chunkId == chunk.id
      && |s.excerpt| <= ExcerptLimit + 1 && '\n' !in s.excerpt
      && n <= |s.excerpt| && s.excerpt[..n] == cleaned[..n]
      && -1.0 / 20000.0 < s.similarity - chunk.similarity <= 1.0 / 20000.0
  {
    var cleaned := CleanExcerpt(chunk.content);
    ExcerptNoNewline(cleaned);
    SourceReference(index + 1, chunk.id, Excerpt(cleaned), Round4(chunk.similarity))
  }

  lemma {:induction false} ExcerptNoNewline(cleaned: string)
    requires '\n' !in cleaned
    ensures '\n' !in Excerpt(cleaned)
  {
    if |cleaned| > ExcerptLimit {
      assert Excerpt(cleaned) == cleaned[..ExcerptLimit] + "…";
      SliceMembers(cleaned, 0, ExcerptLimit);
      InAppend('\n', cleaned[..ExcerptLimit], "…");
    }
  }

  /** `buildSources`: one reference per chunk, in ranking order. */
  function BuildSources(chunks: seq<RegulationChunk>): (r: seq<SourceReference>)
    ensures |r| == |chunks|
    ensures forall i :: 0 <= i < |r| ==> r[i] == SourceFor(i, chunks[i])
  {
    seq(|chunks|, i requires 0 <= i < |chunks| => SourceFor(i, chunks[i]))
  }

  /** The reference numbered `k` and the prompt block labelled `[Source k]` are the same
      chunk: the numbers shown beside the answer are the ones the model was told to cite. */
  lemma {:induction false} SourcesMatchPrompt(chunks: seq<RegulationChunk>, percent: real -> string, i: nat)
    requires i < |chunks|
    ensures var l := SourceLabel(BuildSources(chunks)[i].sourceNumber);
      var b := Blocks(chunks, percent)[i];
      |l| <= |b| && b[..|l|] == l
      && b[|b| - |chunks[i].content|..] == chunks[i].content
      && BuildSources(chunks)[i].chunkId == chunks[i].id
  {
    assert Blocks(chunks, percent)[i] == Block(i, chunks[i], percent);
  }

  // ---------------------------------------------------------------- ask

  /** What an outside service gave back: a value, or an exception. */
  datatype Fetch<T> = Fetched(value: T) | Threw

  /** The chat completion: the call threw, or it returned with no message content
      (`null` or missing), or with this content. */
  datatype Completion = Failed | NoContent | Content(raw: string)

  datatype ChatRequest = ChatRequest(
    model: string,
    systemPrompt: string,
    userPrompt: string,
    temperature: real,
    maxTokens: nat,
    responseFormat: string)

  /** The calls `Ask` makes to outside services, in order. */
  datatype Call =
    | Embed(question: string)
    | Search(embedding: seq<real>, matchCount: nat)
    | Chat(request: ChatRequest)

  /** How a question ends: with a response, with the service's own HTTP error, or with an
      exception from the embedding or search service passed through unchanged. */
  datatype Outcome =
    | Answered(response: RagResponse)
    | HttpError(status: nat, message: string)
    | Propagated

  const MatchCount: nat := 8
  const InternalServerError: nat := 500
  const EmptyResponse: string := "Empty response from OpenAI"
  const GenerationFailed: string := "Failed to generate answer from OpenAI"

  /** The chat request for a question with its chunks. */
  function Request(chatModel: string, userPrompt: string): ChatRequest
  {
    ChatRequest(chatModel, BuildSystemPrompt(), userPrompt, 0.15, 4096, "json_object")
  }

  const InsufficientData: string := "Données réglementaires insuffisantes"
  const NothingFound: string := "La recherche dans la base réglementaire n'a retourné aucun résultat pertinent."
  const AiDisclaimer: string := "Cet avis est généré par une IA. Il ne se substitue pas au jugement clinique du médecin agréé."

  /** The answer given when the search finds nothing: a referral to the medical commission,
      with no regulatory points, questions, notes or sources. */
  function FallbackResponse(chatModel: string, timestamp: string): (r: RagResponse)
    ensures r.answer.proposedOrientation.decision == RenvoiCommission
    ensures DecisionTag(r.answer.proposedOrientation.decision) == "renvoi_commission"
    ensures r.answer.regulatoryPoints == [] && r.answer.clarificationQuestions == []
      && r.answer.importantNotes == []
    ensures r.sources == [] && r.metadata == ResponseMetadata(0, chatModel, timestamp)
  {
    var orientation := ProposedOrientation(
      RenvoiCommission,
      InsufficientData,
      None,
      None,
      NothingFound);
    var answer := RagAnswer(
      "", "", [], "", [], orientation, [],
      AiDisclaimer);
    RagResponse(answer, [], ResponseMetadata(0, chatModel, timestamp))
  }

  /** True when the question reached the chat model: both lookups returned and the search
      found at least one chunk. */
  predicate Generates(embedding: Fetch<seq<real>>, search: Fetch<seq<RegulationChunk>>)
  {
    embedding.Fetched? && search.Fetched? && search.value != []
  }

  /** True when the chat model returned non-empty content. */
  predicate Replied(completion: Completion)
  {
    completion.Content? && completion.raw != []
  }

  /** `ask`. `embedding` and `search` are what the embedding service and the vector search
      gave, `completion` what the chat model gave, `parse` what `JSON.parse` makes of a
      text (`None` when it throws), `percent` the rendering of a similarity in the prompt,
      and `timestamp` the clock's reading. */
  method Ask(
    question: string, chatModel: string,
    embedding: Fetch<seq<real>>, search: Fetch<seq<RegulationChunk>>,
    completion: Completion, parse: string -> Option<RagAnswer>,
    percent: real -> string, timestamp: string)
    returns (outcome: Outcome, calls: seq<Call>)
    // the question is embedded, and the embedding searched for eight chunks
    ensures 1 <= |calls| && calls[0] == Embed(question)
    ensures embedding.Threw? ==> outcome == Propagated && |calls| == 1
    ensures embedding.Fetched? ==> 2 <= |calls| && calls[1] == Search(embedding.value, MatchCount)
    ensures embedding.Fetched? && search.Threw? ==> outcome == Propagated && |calls| == 2
    // nothing found: the referral, and no chat call
    ensures embedding.Fetched? && search == Fetched([]) ==>
      outcome == Answered(FallbackResponse(chatModel, timestamp)) && |calls| == 2
    // otherwise exactly one chat call, with the two prompts and the fixed settings
    ensures Generates(embedding, search) <==> |calls| == 3
    ensures Generates(embedding, search) ==>
      calls[2] == Chat(Request(chatModel, BuildUserPrompt(question, search.value, percent)))
    // the error policy
    ensures Generates(embedding, search) && completion.Failed? ==>
      outcome == HttpError(InternalServerError, GenerationFailed)
    ensures Generates(embedding, search) && !completion.Failed? && !Replied(completion) ==>
      outcome == HttpError(InternalServerError, EmptyResponse)
    ensures Generates(embedding, search) && Replied(completion) && parse(completion.raw).None? ==>
      outcome == HttpError(InternalServerError, GenerationFailed)
    // the answer: the parsed text, with one source per chunk
    ensures Generates(embedding, search) && Replied(completion) && parse(completion.raw).Some? ==>
      outcome == Answered(RagResponse(parse(completion.raw).value, BuildSources(search.value),
        ResponseMetadata(|search.value|, chatModel, timestamp)))
    ensures outcome.Answered? ==>
      |outcome.response.sources| == outcome.response.metadata.chunksUsed
  {
    calls := [Embed(question)];
    if embedding.Threw? {
      return Propagated, calls;
    }
    calls := calls + [Search(embedding.value, MatchCount)];
    if search.Threw? {
      return Propagated, calls;
    }
    var chunks := search.value;
    if |chunks| == 0 {
      return Answered(FallbackResponse(chatModel, timestamp)), calls;
    }

    var systemPrompt := BuildSystemPrompt();
    var userPrompt := BuildUserPrompt(question, chunks, percent);
    calls := calls + [Chat(ChatRequest(chatModel, systemPrompt, userPrompt, 0.15, 4096, "json_object"))];
    if completion.Failed? {
      return HttpError(InternalServerError, GenerationFailed), calls;
    }
    if completion.NoContent? || completion.raw == [] {
      return HttpError(InternalServerError, EmptyResponse), calls;
    }
    var answer := parse(completion.raw);
    if answer.None? {
      return HttpError(InternalServerError, GenerationFailed), calls;
    }
    var sources := BuildSources(chunks);
    outcome := Answered(RagResponse(answer.value, sources, ResponseMetadata(|chunks|, chatModel, timestamp)));
  }
}
