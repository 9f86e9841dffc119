/**
 * The two prompts sent to the chat model: the fixed system instructions, and the user
 * prompt that lays out the retrieved chunks as numbered sources followed by the doctor's
 * question.
 *
 * The rendering of a similarity as a percentage with one decimal is floating-point
 * formatting; it is the parameter `percent`, applied to `similarity * 100`.
 */
module PromptBuilder {
  import opened Wrappers
  import opened JsText
  import opened RagTypes

  /** The fixed system instructions; their French text is not part of the model. */
  const SystemPrompt: string

  /** `buildSystemPrompt`: it takes nothing and gives back the one fixed text. */
  function BuildSystemPrompt(): (r: string)
    ensures r == SystemPrompt
  {
    SystemPrompt
  }

  const BlockSeparator: string := "\n\n---\n\n"
  const ContextHeader: string := "Contexte réglementaire extrait de l'Arrêté du 28 mars 2022 :\n===\n"
  const QuestionHeader: string := "\n===\n\nCas clinique / Question du médecin :\n"
  const Reminder: string := "\n\nRappel : cite les [Source X] dans ton analyse et ton raisonnement médical. Ne pose des questions que si elles sont réellement nécessaires à la décision."

  /** `[Source n]`. */
  function SourceLabel(n: nat): string
  {
    "[Source " + NatToString(n) + "]"
  }

  /** The block of the chunk ranked `index` (from 0): it opens with the label of its rank
      and ends with a line break and the chunk's content, verbatim. */
  function Block(index: nat, chunk: RegulationChunk, percent: real -> string): (b: string)
    ensures var l := SourceLabel(index + 1);
      |l| + |chunk.content| + 1 <= |b| && b[..|l|] == l
      && b[|b| - |chunk.content| - 1] == '\n' && b[|b| - |chunk.content|..] == chunk.content
  {
    var l := SourceLabel(index + 1);
    var p := percent(chunk.similarity * 100.0);
    var b := l + " (similarité: " + p + "%)\n" + chunk.content;
    FivePieces(l, " (similarité: ", p, "%)\n", chunk.content);
    var k := |l| + |" (similarité: "| + |p|;
    assert b[k..k + 3] == "%)\n";
    assert b[|b| - |chunk.content| - 1] == b[k..k + 3][2];
    b
  }

  /** One block per chunk, in ranking order. */
  function Blocks(chunks: seq<RegulationChunk>, percent: real -> string): (r: seq<string>)
    ensures |r| == |chunks|
  {
    seq(|chunks|, i requires 0 <= i < |chunks| => Block(i, chunks[i], percent))
  }

  /** The blocks joined by a horizontal rule: empty exactly when there are no chunks. */
  function Context(chunks: seq<RegulationChunk>, percent: real -> string): (r: string)
    ensures r == [] <==> chunks == []
  {
    var bs := Blocks(chunks, percent);
    if chunks == [] then Join(bs, BlockSeparator)
    else
      JoinPart(bs, BlockSeparator, 0);
      assert |bs[0]| > 0;
      Join(bs, BlockSeparator)
  }

  /** `buildUserPrompt`: the fixed header ending in `===`, the context, a line `===`, the
      question heading, the question verbatim, and the fixed reminder at the end. */
  function BuildUserPrompt(question: string, chunks: seq<RegulationChunk>, percent: real -> string): (r: string)
    ensures var c := Context(chunks, percent);
      var c0 := |ContextHeader|;
      var q0 := c0 + |c| + |QuestionHeader|;
      |r| == q0 + |question| + |Reminder|
      && r[..c0] == ContextHeader && r[c0..c0 + |c|] == c
      && r[c0 + |c|..q0] == QuestionHeader
      && r[q0..q0 + |question|] == question && r[q0 + |question|..] == Reminder
  {
    FivePieces(ContextHeader, Context(chunks, percent), QuestionHeader, question, Reminder);
    ContextHeader + Context(chunks, percent) + QuestionHeader + question + Reminder
  }

  /** The label names its number and nothing else: the digits between `[Source ` and `]`
      read back as `n`. */
  lemma {:induction false} LabelNumber(n: nat)
    ensures var l := SourceLabel(n);
      |l| == |NatToString(n)| + 9 && l[..8] == "[Source " && l[|l| - 1] == ']'
      && ParseNat(l[8..|l| - 1]) == n
  {
    var d := NatToString(n);
    var l := SourceLabel(n);
    assert l[8..|l| - 1] == d;
    ParseNatToString(n);
  }

  /** Different ranks get different labels. */
  lemma {:induction false} LabelsDistinct(n: nat, m: nat)
    requires n != m
    ensures SourceLabel(n) != SourceLabel(m)
  {
    LabelNumber(n);
    LabelNumber(m);
  }

  /** The block of chunk `i` sits verbatim at its offset in the context. */
  lemma {:induction false} ContextBlock(chunks: seq<RegulationChunk>, percent: real -> string, i: nat)
    requires i < |chunks|
    ensures var o := JoinOffset(Blocks(chunks, percent), BlockSeparator, i);
      var b := Block(i, chunks[i], percent);
      o + |b| <= |Context(chunks, percent)| && Context(chunks, percent)[o..o + |b|] == b
  {
    JoinPart(Blocks(chunks, percent), BlockSeparator, i);
  }

  /** Right after the block of every chunk but the last comes the separator, and right after
      the separator the next block. */
  lemma {:induction false} ContextSeparator(chunks: seq<RegulationChunk>, percent: real -> string, i: nat)
    requires i + 1 < |chunks|
    ensures var bs := Blocks(chunks, percent);
      var e := JoinOffset(bs, BlockSeparator, i) + |Block(i, chunks[i], percent)|;
      e + |BlockSeparator| <= |Context(chunks, percent)|
      && Context(chunks, percent)[e..e + |BlockSeparator|] == BlockSeparator
      && JoinOffset(bs, BlockSeparator, i + 1) == e + |BlockSeparator|
  {
    var bs := Blocks(chunks, percent);
    JoinSeparator(bs, BlockSeparator, i);
    JoinOffsetStep(bs, BlockSeparator, i);
  }

  /** No chunks give an empty context; otherwise the context starts with the first block
      and ends with the last, so with the two lemmas above it is the n blocks with exactly
      n - 1 separators. */
  lemma {:induction false} ContextExtent(chunks: seq<RegulationChunk>, percent: real -> string)
    ensures chunks == [] ==> Context(chunks, percent) == []
    ensures chunks != [] ==>
      var bs := Blocks(chunks, percent);
      var n := |chunks|;
      JoinOffset(bs, BlockSeparator, 0) == 0
      && JoinOffset(bs, BlockSeparator, n - 1) + |Block(n - 1, chunks[n - 1], percent)|
         == |Context(chunks, percent)|
  {
    if chunks != [] {
      var bs := Blocks(chunks, percent);
      var n := |chunks|;
      JoinOffsetStep(bs, BlockSeparator, n - 1);
    }
  }
}
