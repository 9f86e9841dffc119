# Driving-licence medical-fitness assistant: text pipelines in Dafny

The system answers doctors' questions about fitness to drive. It uses retrieval-augmented
generation over the French regulation (Arrêté du 28 mars 2022). This project models its
two string-level pipelines and proves properties of them.

- **Ingestion** (`scripts/ingest-regulation.ts`) has three steps:
  - `cleanPdfText` removes the recurring Journal Officiel page header and the
    `-- n of m --` page markers. It then normalises whitespace line by line, drops empty
    lines and trims the result.
  - `findSectionBreak` moves a cut position back to the last paragraph break in a search
    window. Failing that, it uses the last line break, then the first sentence end.
  - `chunkText` walks the text with a cursor. It cuts windows of at most 800 characters,
    trims them, keeps those longer than 50 characters, and steps back 150 characters for
    the overlap.
- **Answering** (`src/rag/rag.service.ts`, `src/rag/prompt-builder.service.ts`) has four
  parts:
  - `buildUserPrompt` lays out the retrieved chunks as numbered `[Source n]` blocks
    around the doctor's question.
  - `cleanExcerpt` and `buildSources` produce the numbered source references shown beside
    the answer.
  - `ask` runs the embed, search, chat-completion pipeline. It has a fallback answer when
    the search finds nothing, and an error policy for an empty or failed completion.

Modules, in dependency order:

- `Wrappers`: `Option` and sequence lemmas.
- `JsText`: the JavaScript string primitives the code relies on. These are the `\s`
  class, `trim`, run-collapsing `replace`, `split`/`join`, `slice` with clamping, and
  decimal rendering.
- `Patterns`: the three regular expressions, as token patterns. A greedy matcher is
  proved equal to their relational meaning.
- `Ingest`: `cleanPdfText` and `findSectionBreak`, written as functions.
- `Chunking`: `chunkText`, written as a method with a loop. It is proved against the
  function `Windows`, which lists the windows the loop visits.
- `RagTypes`: the records of `src/rag/interfaces/rag-response.interface.ts`.
- `PromptBuilder`: the two prompts.
- `RagService`: `cleanExcerpt`, `buildSources`, and `ask` as a method over its external
  results.

Strings are `seq<char>`. A Dafny `char` is a Unicode scalar value, while JavaScript
counts UTF-16 code units, so the model agrees with the code on text made only of
characters from the Basic Multilingual Plane. Similarities are `real`.

The comments in the code and the code itself differ in places. The model follows the code:

- The comments at `scripts/ingest-regulation.ts:43` and `:50` speak of single newlines
  kept "for paragraph breaks" and of a "double newline (paragraph separator)". The code
  filters out empty lines before rejoining, so cleaned text never contains `"\n\n"`.
  `Ingest.CleanPdfText` proves this. As a result, the `\n{3,}` collapse at line 51 never
  changes anything. On cleaned text the paragraph branch of `findSectionBreak`, preferred
  by the comment at line 64, never fires (`Ingest.NoParagraphBreakInCleanText`).
- One might expect cleaning to be idempotent; it is not claimed here. Only the line stage
  is idempotent (`Ingest.NormalizeLinesIdempotent`). Removing a page marker can join the
  two halves of a header, so the whole of `cleanPdfText` is not claimed idempotent.
- The sentence-end fallback uses `String.search`. It therefore takes the **first** sentence
  end in the window, not the last (`Ingest.FirstSentenceEnd`).

## Model

| member | source | states |
|---|---|---|
| JsText.Trim | scripts/ingest-regulation.ts:46 | `trim` leaves no whitespace at either end. The result is empty exactly when the input is all whitespace. It is the run of the input that starts after the leading whitespace and is followed only by whitespace. |
| JsText.TrimIdentity | scripts/ingest-regulation.ts:53 | `trim` leaves a string unchanged if and only if the string has no whitespace at either end. |
| JsText.CollapseRuns | scripts/ingest-regulation.ts:46 | A run-collapsing replace introduces no character that is in neither the input nor the replacement. |
| JsText.CollapseFirst | scripts/ingest-regulation.ts:46 | If position `i` starts the first run of `m` or more class characters, of length `n`, the replace keeps the text before `i`, puts the replacement in place of the whole run, and goes on after the run. |
| JsText.CollapsePrefix | src/rag/rag.service.ts:35 | Text before the first run of `m` or more class characters is kept verbatim, and the replace goes on from there. |
| JsText.CollapseNoRun | scripts/ingest-regulation.ts:46 | Replacing every run of `m` or more whitespace characters with a shorter whitespace string leaves no run of `m`. |
| JsText.CollapseIdentity | scripts/ingest-regulation.ts:51 | A run-collapsing replace does not change a string that has no run of `m`. |
| JsText.Split | scripts/ingest-regulation.ts:45 | `split` yields at least one part, and no part contains the separator. |
| JsText.SplitJoin | scripts/ingest-regulation.ts:45-48 | Splitting the join of separator-free parts gives back the parts. |
| JsText.JoinSplit | scripts/ingest-regulation.ts:45-48 | Joining the parts of a split with the same separator gives back the string. |
| JsText.JsSlice | scripts/ingest-regulation.ts:62 | `slice` clamps `to` to the length: when `from` lies inside the string and before `to`, the result is the piece from `from` to `min(to, length)`. Otherwise the result is empty. Within the string's bounds this is the ordinary slice, so out-of-range bounds need no precondition. |
| JsText.ReplaceChar | src/rag/rag.service.ts:34 | Replacing every newline with a space keeps the length and leaves no newline. A string without newlines is unchanged. |
| JsText.NatToString | src/rag/prompt-builder.service.ts:87 | A number renders as at least one decimal digit, with no leading zero. |
| JsText.ParseNatToString | src/rag/prompt-builder.service.ts:87 | Reading back the decimal rendering of `n` gives `n`. |
| JsText.NatToStringInjective | src/rag/prompt-builder.service.ts:87 | Different numbers render differently. |
| JsText.Join | scripts/ingest-regulation.ts:48 | A join of `n >= 1` parts is as long as the parts plus `n - 1` separators. |
| JsText.JoinPart | src/rag/prompt-builder.service.ts:89 | Every part appears verbatim in a join, at its computed offset. |
| JsText.JoinSeparator | src/rag/prompt-builder.service.ts:89 | The separator follows every part but the last. |
| JsText.VisibleTrim | scripts/ingest-regulation.ts:46 | `trim` removes only whitespace: the non-whitespace characters are kept, in order. |
| JsText.VisibleCollapse | scripts/ingest-regulation.ts:46 | Replacing runs of whitespace with whitespace keeps the non-whitespace characters, in order. |
| JsText.VisibleJoinNewline | scripts/ingest-regulation.ts:48 | Joining with `'\n'` adds no non-whitespace character: the result's are those of the parts, part after part. |
| JsText.WordsCollapse | scripts/ingest-regulation.ts:46 | Replacing runs of whitespace with a non-empty whitespace string keeps the words: the maximal whitespace-free pieces of the text, in order, are the same before and after. |
| JsText.WordsTrim | scripts/ingest-regulation.ts:46 | `trim` keeps the words. |
| JsText.WordsReplace | src/rag/rag.service.ts:34 | Replacing newlines with spaces keeps the words. |
| Patterns.MatchAt | scripts/ingest-regulation.ts:35-41 | A reported match length never exceeds the text. |
| Patterns.MatchAtIff | scripts/ingest-regulation.ts:35-41 | For the well-formed patterns used here, the greedy matcher matches a prefix of length `n` if and only if that prefix is in the regular language of the pattern. |
| Patterns.MatchAtSound | scripts/ingest-regulation.ts:35-41 | Every prefix the matcher reports is in the pattern's language. |
| Patterns.MatchAtComplete | scripts/ingest-regulation.ts:35-41 | Every prefix in the language of a well-formed pattern is the one the matcher reports. |
| Patterns.SearchFrom | scripts/ingest-regulation.ts:73 | The reported position holds a match, and no earlier position at or after the start does. "Not found" means no position matches. |
| Patterns.RemoveAll | scripts/ingest-regulation.ts:35-41 | A global `replace(…, '')` never lengthens the text. |
| Patterns.RemoveAllShortens | scripts/ingest-regulation.ts:35-41 | The removal shortens the text when some position holds a non-empty match, and leaves it unchanged when none does. |
| Patterns.RemovePrefix | scripts/ingest-regulation.ts:35-41 | Text before the first position that holds a non-empty match is kept verbatim, and the removal goes on from there. |
| Patterns.RemoveFirst | scripts/ingest-regulation.ts:35-41 | If position `i` holds the first non-empty match, of length `n`, the removal keeps the text before `i`, deletes those `n` characters, and removes from the rest of the text after them. |
| Patterns.HeaderWellFormed | scripts/ingest-regulation.ts:36 | The page-header pattern satisfies the matcher's well-formedness condition. |
| Patterns.PageMarkerWellFormed | scripts/ingest-regulation.ts:41 | The page-marker pattern satisfies it too. |
| Patterns.SentenceEndWellFormed | scripts/ingest-regulation.ts:73 | So does the sentence-end pattern `[.;]\s+[A-ZÀ-Ü]`. |
| Ingest.NormalizeLine | scripts/ingest-regulation.ts:46 | A normalised line has no whitespace at either end and no run of three whitespace characters. It gains no newline, and its non-whitespace characters are those of the input, in order. Its words are those of the input, so every run of whitespace between two words is kept as whitespace, not deleted. |
| Ingest.StripBoilerplate | scripts/ingest-regulation.ts:35-41 | Removing headers and then page markers never lengthens the text, and leaves it unchanged when neither pattern matches anywhere. |
| Ingest.NormalizeLines | scripts/ingest-regulation.ts:44-48 | The line stage keeps every non-whitespace character, in order. |
| Ingest.NonEmpty | scripts/ingest-regulation.ts:47 | The filter keeps exactly the non-empty lines: every line it keeps is a non-empty input line, and every non-empty input line is kept. It keeps everything when no line is empty. |
| Ingest.NonEmptyAppend | scripts/ingest-regulation.ts:47 | The filter keeps the input order: filtering a concatenation is filtering each half. |
| Ingest.NonEmptyVisible | scripts/ingest-regulation.ts:47 | Dropping empty lines drops no non-whitespace character. |
| Ingest.NormalizeEachVisible | scripts/ingest-regulation.ts:46 | Normalising every line keeps the non-whitespace characters of all lines, in order. |
| Ingest.NormalizedLinesGood | scripts/ingest-regulation.ts:44-48 | Every line the line stage keeps is non-empty, newline-free, trimmed and free of three-whitespace runs. |
| Ingest.JoinGoodLines | scripts/ingest-regulation.ts:48 | Joining such lines with `'\n'` gives trimmed text with no `"\n\n"` and no three-whitespace run. It is non-empty when there is a line. |
| Ingest.LineStageShape | scripts/ingest-regulation.ts:44-48 | The output of the line stage is trimmed, with no `"\n\n"` and no three-whitespace run. Splitting a non-empty output on `'\n'` gives back exactly the kept lines, and each is a good line. |
| Ingest.NormalizeLinesIdempotent | scripts/ingest-regulation.ts:44-48 | Running the line stage twice is the same as running it once. |
| Ingest.NoDoubleNewlineNoRun | scripts/ingest-regulation.ts:51 | Text without `"\n\n"` has no run of three newlines, so the `\n{3,}` replace does not apply to it. |
| Ingest.CollapseBlankLines | scripts/ingest-regulation.ts:51 | After the `\n{3,}` replace no run of three newlines is left. |
| Ingest.CleanPdfText | scripts/ingest-regulation.ts:31-54 | Cleaned text is trimmed and has no `"\n\n"`. No three consecutive characters are whitespace, and every line is a good line. It is the line stage applied after header removal, then page-marker removal, in that order. |
| Ingest.CleanPdfTextVisible | scripts/ingest-regulation.ts:43-53 | After the two removals, cleaning touches only whitespace: the non-whitespace characters of the result are those of the text left by the removals, in order. |
| Ingest.LastDoubleNewline | scripts/ingest-regulation.ts:65 | `lastIndexOf('\n\n')` reports a position holding `"\n\n"` with none after it, or that there is none. |
| Ingest.LastIndexOf | scripts/ingest-regulation.ts:69 | `lastIndexOf('\n')` reports a newline with none after it, or that there is none. |
| Ingest.FindSectionBreak | scripts/ingest-regulation.ts:60-77 | The cut lies in `[max(0, position - searchWindow), position]`. |
| Ingest.SectionBreakPlaced | scripts/ingest-regulation.ts:60-77 | The order of preference: if the window has a `"\n\n"`, the cut is just after the last one, even when a later single newline exists. Otherwise, if it has a newline, the cut is just after the last one. Otherwise it is just after the punctuation of the first sentence end. Otherwise it is the position itself. |
| Ingest.BreakOffsetPlaced | scripts/ingest-regulation.ts:64-76 | The same order of preference, stated as an offset into the search slice. |
| Ingest.FirstSentenceEnd | scripts/ingest-regulation.ts:73-74 | The sentence end that `search` finds is the first in the slice. |
| Ingest.NoParagraphBreakInCleanText | scripts/ingest-regulation.ts:65-66 | On cleaned text, no search slice contains `"\n\n"`, so the paragraph branch never fires. |
| Chunking.WindowEnd | scripts/ingest-regulation.ts:84-89 | A window is non-empty and at most `size` long. It ends at the end of the text exactly when `start + size` reaches it. Otherwise it is cut no earlier than the last fifth (`size / 5`) of the window. |
| Chunking.NextStart | scripts/ingest-regulation.ts:96-97 | The cursor strictly advances and never passes `end`. It steps back to `end - overlap` exactly when that is past `start`, and goes to `end` otherwise. |
| Chunking.ChunkText | scripts/ingest-regulation.ts:79-101 | The loop pushes exactly the trimmed windows longer than 50 characters, in window order, over the windows `Windows` lists. |
| Chunking.WindowsFrom | scripts/ingest-regulation.ts:83-98 | From cursor `start` the loop visits no window exactly when `start` is at or past the end of the text, and at most one window per remaining character. |
| Chunking.Windows | scripts/ingest-regulation.ts:83-98 | From cursor 0 the loop visits no window exactly on empty text, and at most one window per character. |
| Chunking.WindowsFromShape | scripts/ingest-regulation.ts:83-98 | From cursor `start` the loop visits at most `|text| - start` windows, and none only when `start` is past the text. The first window opens at `start` and the last ends at the end of the text. Each window fits the text, and each opens where the previous one's next cursor is. |
| Chunking.WindowsCover | scripts/ingest-regulation.ts:83-98 | From 0 the loop runs at most `|text|` times and runs not at all only on empty text. Its windows are chained from 0 to the end: each next window starts `overlap` characters before the previous one ends when that is past the previous start, and right at its end otherwise. Every position of the text lies in some window. |
| Chunking.KeepLong | scripts/ingest-regulation.ts:92-94 | The filter keeps only chunks longer than 50 characters. |
| Chunking.KeepLongIff | scripts/ingest-regulation.ts:92-94 | A chunk is kept if and only if it was cut and is longer than 50 characters. |
| Chunking.EmittedIff | scripts/ingest-regulation.ts:91-94 | A string is emitted if and only if it is the trimmed content of some visited window and is longer than 50 characters. |
| Chunking.ChunkInWindow | scripts/ingest-regulation.ts:91 | An emitted chunk is trimmed. It is the text between the window's leading whitespace and its trailing whitespace, and it is empty exactly when the window is all whitespace. |
| Chunking.TailWindowsNested | scripts/ingest-regulation.ts:96-97 | After a window that reaches the end of the text, the loop can still open another window. That window starts later and also reaches the end, so it is nested in the previous one. |
| Chunking.NoBreakInPlainText | scripts/ingest-regulation.ts:60-77 | In text without newlines or sentence ends, `findSectionBreak` returns the position unchanged. |
| Chunking.RedundantTailWindow | scripts/ingest-regulation.ts:96-97 | On 900 letters with sizes 800 and 150, the code as written emits three chunks. The third is a suffix of the second. |
| Chunking.StoppingWindowsShape | scripts/ingest-regulation.ts:83-98 | A loop that stops once a window reaches the end visits a prefix of the same windows. Only its last window reaches the end, and its windows still cover the whole text. |
| Chunking.StoppingOmitsTail | scripts/ingest-regulation.ts:96-97 | On the same 900 letters, the stopping loop visits only two windows. |
| RagTypes.GroupTag | src/rag/interfaces/rag-response.interface.ts:3 | The three group spellings read back as the group they spell. |
| RagTypes.DecisionTag | src/rag/interfaces/rag-response.interface.ts:10 | The five decision spellings read back as the decision they spell. |
| PromptBuilder.BuildSystemPrompt | src/rag/prompt-builder.service.ts:79-81 | Always the one fixed system text. |
| PromptBuilder.Blocks | src/rag/prompt-builder.service.ts:84-88 | One block per chunk. |
| PromptBuilder.LabelNumber | src/rag/prompt-builder.service.ts:87 | The label is `[Source `, a decimal number, and `]`, and the number reads back as `n`. |
| PromptBuilder.LabelsDistinct | src/rag/prompt-builder.service.ts:84-88 | Different ranks get different labels. |
| PromptBuilder.Block | src/rag/prompt-builder.service.ts:84-88 | The block of chunk `i` opens with `[Source i+1]` and ends with a newline followed by the chunk's content verbatim. |
| PromptBuilder.Context | src/rag/prompt-builder.service.ts:84-89 | The context is empty exactly when there are no chunks. |
| PromptBuilder.ContextBlock | src/rag/prompt-builder.service.ts:84-89 | Every chunk's block appears verbatim in the context, at its offset and in ranking order. |
| PromptBuilder.ContextSeparator | src/rag/prompt-builder.service.ts:89 | Between the blocks of consecutive chunks there is exactly `"\n\n---\n\n"`. |
| PromptBuilder.ContextExtent | src/rag/prompt-builder.service.ts:84-89 | No chunks give an empty context. Otherwise the context starts with the first block and ends with the last, so `n` chunks give `n - 1` separators. |
| PromptBuilder.BuildUserPrompt | src/rag/prompt-builder.service.ts:83-100 | The user prompt is, in order: the fixed header ending in `===`, the context, `\n===\n\n` and the question heading, the question verbatim, and the fixed reminder. |
| RagService.CleanExcerpt | src/rag/rag.service.ts:32-37 | A cleaned excerpt has no newline, no whitespace at either end and no two adjacent whitespace characters. Its words are those of the input, so each gap between two words becomes exactly one whitespace character. |
| RagService.CleanExcerptVisible | src/rag/rag.service.ts:32-37 | Cleaning keeps every non-whitespace character, in order. |
| RagService.CleanExcerptIdempotent | src/rag/rag.service.ts:32-37 | Cleaning a cleaned excerpt changes nothing. |
| RagService.Excerpt | src/rag/rag.service.ts:45-48 | An excerpt of at most 400 characters is kept whole. A longer one becomes its first 400 characters followed by `…`. Either way the result has at most 401 characters. |
| RagService.Round4 | src/rag/rag.service.ts:49 | The rounded similarity has at most four decimals, and lies within half a ten-thousandth of the input. |
| RagService.Round4Idempotent | src/rag/rag.service.ts:49 | Rounding a rounded similarity changes nothing. |
| RagService.BuildSources | src/rag/rag.service.ts:39-52 | Exactly one reference per chunk, in input order. |
| RagService.SourceFor | src/rag/rag.service.ts:40-51 | Reference `i` carries the number `i + 1` and the chunk's id. Its excerpt has at most 401 characters, no newline, and opens with the first 400 characters of the cleaned content. Its similarity is within half a ten-thousandth of the chunk's. |
| RagService.SourcesMatchPrompt | src/rag/rag.service.ts:43 | The number of source `i` is the one whose label opens the block of chunk `i` in the user prompt, and that block ends with that chunk's content. |
| RagService.FallbackResponse | src/rag/rag.service.ts:63-90 | The fallback answer refers the case to the medical commission. Its decision is spelt `renvoi_commission` on the wire. It has no regulatory points, questions or notes, no sources, and `chunks_used` 0. |
| RagService.Ask | src/rag/rag.service.ts:54-137 | See the breakdown below. |

`RagService.Ask` states the following:

- The question is embedded first. The embedding is then searched for 8 chunks.
- A failure in either call propagates unchanged.
- No chunks give the fallback answer, with no chat call.
- Otherwise there is exactly one chat call. It carries the system prompt, the user prompt, temperature 0.15, 4096 tokens and the JSON response format.
- A failed completion fails with 500 "Failed to generate answer from OpenAI".
- A missing or empty completion fails with 500 "Empty response from OpenAI".
- Text that does not parse fails with 500 "Failed to generate answer from OpenAI".
- Otherwise the result is the parsed answer with one source per chunk, and `chunks_used` equal to the number of chunks.

## Left out

- Embeddings and vector search are results passed into `RagService.Ask`:
  - the embedding call of `src/rag/embedding.service.ts`;
  - the Supabase RPC of `src/rag/vector-search.service.ts`.
  A thrown error is `Threw`, and an empty or null result is the empty sequence.
- The OpenAI chat call is a `Completion` passed in. A thrown error is `Failed`, and a
  missing `choices[0].message.content` is `NoContent`.
- `JSON.parse` is the `parse` parameter. The code only casts the parsed value, with no
  schema validation, so none is modelled.
- `main`, `generateEmbedding` and the file I/O, database writes and console output of
  `scripts/ingest-regulation.ts` are I/O plumbing.
- The NestJS controller, modules, configuration, DTO validation and logger calls are
  framework glue.
- RagService.Ask: one `timestamp` parameter stands for both `new Date().toISOString()` calls.
  No clock is modelled.
- PromptBuilder.BuildSystemPrompt: the French text of the system instructions is an opaque
  constant.
- PromptBuilder.Block: `(similarity * 100).toFixed(1)` is floating-point formatting. It is
  the `percent` parameter.
- RagService.Ask: replies that parse as JSON but do not fit `RagAnswer` (an unknown
  decision or group spelling, missing fields) are outside the model. The code casts them
  and answers with them; the `parse` parameter can only report them as `None`, which the
  model then treats as a reply that does not parse.
- RagService.Round4: `Math.round(x * 10000) / 10000` is computed on exact reals, not on
  binary64 floating point.
- Similarity scores are `real`.
- RagService.SourceFor: `String(chunk.id)` is the identity, because chunk ids are modelled
  as strings.
- RagTypes.RegulationChunk: the chunk's free-form `metadata` record is not modelled.
- Chunking.ChunkText: requires `size >= 1`. With size 0 the source loop never advances.
- Chunking.WindowEnd: `Math.floor(size * 0.2)` is written `size / 5`, on exact integers.
  In binary64 the two agree for every size below 10^15, the script's 800 included. For
  much larger sizes the rounding of the floating-point product can make them differ
  (`Math.floor(7000000000000004 * 0.2)` is 1400000000000001), which the model does not
  capture.
- Ingest.CleanPdfText: the contract does not claim that the header and page-marker
  patterns are absent from the result. A removal can join text into a new match, which
  is also why cleaning as a whole is not idempotent.
- JsText.IsWs: `\s` is the 25 characters ECMAScript counts as whitespace or line
  terminators. There is no Unicode normalisation.
- Characters outside the Basic Multilingual Plane are not modelled. JavaScript counts such
  a character as two UTF-16 code units, but the model counts it as one `char`. On such
  text the lengths differ, and so do the `> 50` filter, the 400-character excerpt cut
  and the window arithmetic of `chunkText`.

## Findings

| source | as written | input that shows it | evidently intended | confidence | as-written member | corrected member |
|---|---|---|---|---|---|---|
| scripts/ingest-regulation.ts:96-97 | After a window that reaches the end of the text, `start = end - overlap` still advances, so the loop opens another window nested in the last one and pushes a redundant tail chunk | 900 letters, size 800, overlap 150: windows [0,800), [650,900), [750,900); the third chunk is a suffix of the second | stop once a window reaches the end of the text, so the windows still cover the text and only the last reaches its end | medium, not executed | Chunking.RedundantTailWindow | Chunking.StoppingWindowsShape |
