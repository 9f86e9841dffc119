/**
 * `chunkText` of the ingestion script: a cursor walks the cleaned text, cuts a window of
 * at most `size` characters (moved back to a section break when it does not reach the end
 * of the text), keeps the trimmed window when it is longer than 50 characters, and steps
 * back by `overlap` characters for the next window unless that would not move forward.
 *
 * The windows the loop visits are specified by the function `WindowsFrom`; the method
 * `ChunkText` is proved to emit exactly the long chunks of those windows.
 */
module Chunking {
  import opened Wrappers
  import opened JsText
  import opened Patterns
  import opened Ingest

  /** `CHUNK_SIZE` and `CHUNK_OVERLAP` of the ingestion script. */
  const ChunkSize: nat := 800
  const ChunkOverlap: nat := 150

  /** Chunks of this length or less are dropped. */
  const MinChunkLength: nat := 50

  /** The half-open range `[start, end)` of the text that one iteration slices. */
  datatype Window = Window(start: nat, end: nat)

  /** The end of the window opened at `start`: `start + size` clamped to the text, and
      moved back to a section break found in the last fifth of the window when the text
      goes on. */
  function WindowEnd(text: seq<char>, start: nat, size: nat): (end: nat)
    requires start < |text| && size >= 1
    ensures start < end <= |text| && end <= start + size
    ensures end < |text| ==> start + size - size / 5 <= end
    ensures end == |text| <==> start + size >= |text|
  {
    var end := Min(start + size, |text|);
    if end < |text| then FindSectionBreak(text, end, size / 5) else end
  }

  /** `nextStart <= start ? end : nextStart` with `nextStart = end - overlap`. */
  function NextStart(start: nat, end: nat, overlap: nat): (next: nat)
    requires start < end
    ensures start < next <= end
    ensures next == end - overlap || next == end
    ensures end - overlap > start ==> next == end - overlap
    ensures end - overlap <= start ==> next == end
  {
    if end - overlap <= start then end else end - overlap
  }

  /** The windows the loop visits from cursor `start` on. */
  function WindowsFrom(text: seq<char>, start: nat, size: nat, overlap: nat): (ws: seq<Window>)
    requires size >= 1
    ensures ws == [] <==> start >= |text|
    ensures start <= |text| ==> |ws| <= |text| - start
    decreases |text| - start
  {
    if start >= |text| then []
    else
      var end := WindowEnd(text, start, size);
      [Window(start, end)] + WindowsFrom(text, NextStart(start, end, overlap), size, overlap)
  }

  /** The windows the loop visits from cursor 0: none exactly for empty text, and at most
      one per character. */
  function Windows(text: seq<char>, size: nat, overlap: nat): (ws: seq<Window>)
    requires size >= 1
    ensures ws == [] <==> text == []
    ensures |ws| <= |text|
  {
    WindowsFrom(text, 0, size, overlap)
  }

  /** One iteration of the loop: the window at the cursor, then the windows after it. */
  lemma {:induction false} WindowsFromStep(text: seq<char>, start: nat, size: nat, overlap: nat)
    requires size >= 1 && start < |text|
    ensures var end := WindowEnd(text, start, size);
      WindowsFrom(text, start, size, overlap)
      == [Window(start, end)] + WindowsFrom(text, NextStart(start, end, overlap), size, overlap)
  {
  }

  /** `text.slice(start, end).trim()`. */
  function ChunkOf(text: seq<char>, w: Window): seq<char>
  {
    Trim(JsSlice(text, w.start, w.end))
  }

  /** The trimmed text of every window, in order. */
  function Chunks(text: seq<char>, ws: seq<Window>): (cs: seq<seq<char>>)
    ensures |cs| == |ws|
    decreases |ws|
  {
    if ws == [] then [] else [ChunkOf(text, ws[0])] + Chunks(text, ws[1..])
  }

  lemma {:induction false} ChunksCons(text: seq<char>, w: Window, rest: seq<Window>)
    ensures Chunks(text, [w] + rest) == [ChunkOf(text, w)] + Chunks(text, rest)
  {
    assert ([w] + rest)[0] == w && ([w] + rest)[1..] == rest;
  }

  /** The chunk at index `k` is the trimmed text of window `k`. */
  lemma {:induction false} ChunksIndex(text: seq<char>, ws: seq<Window>, k: nat)
    requires k < |ws|
    ensures Chunks(text, ws)[k] == ChunkOf(text, ws[k])
    decreases k
  {
    var w, tail := ws[0], ws[1..];
    ChunksTail(text, ws, w, tail);
    if k > 0 {
      ChunksIndex(text, tail, k - 1);
      assert tail[k - 1] == ws[k];
    }
  }

  lemma {:induction false} ChunksTail(text: seq<char>, ws: seq<Window>, w: Window, tail: seq<Window>)
    requires ws != [] && w == ws[0] && tail == ws[1..]
    ensures Chunks(text, ws) == [ChunkOf(text, w)] + Chunks(text, tail)
  {
    var w, tail := ws[0], ws[1..];
    assert ws == [w] + tail;
    ChunksCons(text, w, tail);
  }

  /** The `chunk.length > 50` filter: the chunks kept, in order. */
  function KeepLong(cs: seq<seq<char>>): (kept: seq<seq<char>>)
    ensures |kept| <= |cs|
    ensures forall i :: 0 <= i < |kept| ==> |kept[i]| > MinChunkLength
    decreases |cs|
  {
    if cs == [] then [] else KeepOne(cs[0]) + KeepLong(cs[1..])
  }

  function KeepOne(c: seq<char>): seq<seq<char>>
  {
    if |c| > MinChunkLength then [c] else []
  }

  lemma {:induction false} KeepLongCons(c: seq<char>, cs: seq<seq<char>>)
    ensures KeepLong([c] + cs) == KeepOne(c) + KeepLong(cs)
  {
    assert ([c] + cs)[1..] == cs;
  }

  /** A chunk is kept exactly when it is one of the chunks and longer than 50 characters. */
  lemma {:induction false} KeepLongIff(cs: seq<seq<char>>, c: seq<char>)
    ensures c in KeepLong(cs) <==> c in cs && |c| > MinChunkLength
    decreases |cs|
  {
    if cs != [] {
      KeepLongIff(cs[1..], c);
      HeadTail(cs);
      InAppend(c, KeepOne(cs[0]), KeepLong(cs[1..]));
      InAppend(c, [cs[0]], cs[1..]);
    }
  }

  /** The chunks pushed for the windows `ws`, in order. */
  function Emitted(text: seq<char>, ws: seq<Window>): seq<seq<char>>
  {
    KeepLong(Chunks(text, ws))
  }

  /** `chunkText`. */
  method ChunkText(text: seq<char>, size: nat, overlap: nat) returns (chunks: seq<seq<char>>)
    requires size >= 1
    ensures chunks == Emitted(text, Windows(text, size, overlap))
    ensures forall i :: 0 <= i < |chunks| ==> |chunks[i]| > MinChunkLength
  {
    chunks := [];
    var start: nat := 0;
    while start < |text|
      invariant chunks + Emitted(text, WindowsFrom(text, start, size, overlap))
             == Emitted(text, Windows(text, size, overlap))
      decreases |text| - start
    {
      var end: nat := Min(start + size, |text|);
      if end < |text| {
        end := FindSectionBreak(text, end, size / 5);
      }
      assert end == WindowEnd(text, start, size);
      var chunk := Trim(JsSlice(text, start, end));
      ChunkStep(text, start, size, overlap, chunks);
      ghost var w := Window(start, end);
      assert chunk == ChunkOf(text, w);
      ghost var kept := chunks + KeepOne(ChunkOf(text, w));
      if |chunk| > MinChunkLength {
        chunks := chunks + [chunk];
      } else {
        assert chunks + [] == chunks;
      }
      assert chunks == kept;
      ghost var next := NextStart(start, end, overlap);
      start := if end - overlap <= start then end else end - overlap;
      assert start == next;
    }
    assert chunks + [] == chunks;
  }

  /** One iteration of `chunkText` in terms of what is left to push. */
  lemma {:induction false} ChunkStep(text: seq<char>, start: nat, size: nat, overlap: nat, chunks: seq<seq<char>>)
    requires size >= 1 && start < |text|
    ensures var w := Window(start, WindowEnd(text, start, size));
      chunks + Emitted(text, WindowsFrom(text, start, size, overlap))
      == (chunks + KeepOne(ChunkOf(text, w))) + Emitted(text, WindowsFrom(text, NextStart(start, w.end, overlap), size, overlap))
  {
    var w := Window(start, WindowEnd(text, start, size));
    var rest := WindowsFrom(text, NextStart(start, w.end, overlap), size, overlap);
    WindowsFromStep(text, start, size, overlap);
    ChunksCons(text, w, rest);
    KeepLongCons(ChunkOf(text, w), Chunks(text, rest));
    AppendAssoc(chunks, KeepOne(ChunkOf(text, w)), Emitted(text, rest));
  }

  // ---------------------------------------------------------------- shape of the windows

  /** A window is non-empty, inside the text, at most `size` long, and loses at most a fifth
      of `size` to the section break unless it reaches the end of the text. */
  predicate WindowFits(text: seq<char>, w: Window, size: nat)
  {
    && w.start < w.end <= |text|
    && w.end <= w.start + size
    && (w.end < |text| ==> w.start + size - size / 5 <= w.end)
  }

  predicate AllFit(text: seq<char>, ws: seq<Window>, size: nat)
  {
    forall i :: 0 <= i < |ws| ==> WindowFits(text, ws[i], size)
  }

  /** Window `b` follows window `a`: it starts later, but no later than `a` ends; it
      overlaps `a` by `overlap` characters when that still moves forward, and starts right
      at the end of `a` otherwise. */
  predicate Follows(a: Window, b: Window, overlap: nat)
  {
    && a.start < b.start <= a.end
    && (a.end - overlap > a.start ==> b.start == a.end - overlap)
    && (a.end - overlap <= a.start ==> b.start == a.end)
  }

  predicate Chained(ws: seq<Window>, overlap: nat)
  {
    forall i :: 0 <= i < |ws| - 1 ==> Follows(ws[i], ws[i + 1], overlap)
  }

  lemma {:induction false} AllFitCons(text: seq<char>, w: Window, rest: seq<Window>, size: nat)
    requires WindowFits(text, w, size) && AllFit(text, rest, size)
    ensures AllFit(text, [w] + rest, size)
  {
    forall i | 0 < i < |rest| + 1 ensures WindowFits(text, ([w] + rest)[i], size) {
      ConsIndex(w, rest, i);
    }
  }

  lemma {:induction false} ChainedCons(w: Window, rest: seq<Window>, overlap: nat)
    requires Chained(rest, overlap) && (rest != [] ==> Follows(w, rest[0], overlap))
    ensures Chained([w] + rest, overlap)
  {
    forall i | 0 < i < |rest| ensures Follows(([w] + rest)[i], ([w] + rest)[i + 1], overlap) {
      ConsIndex(w, rest, i);
      ConsIndex(w, rest, i + 1);
    }
  }

  /** Every iteration makes progress, so there are at most as many windows as characters
      left; the windows fit and follow each other, the first opens at the cursor and the
      last reaches the end of the text. */
  lemma {:induction false} WindowsFromShape(text: seq<char>, start: nat, size: nat, overlap: nat)
    requires size >= 1
    ensures var ws := WindowsFrom(text, start, size, overlap);
      && (ws == [] <==> start >= |text|)
      && (start <= |text| ==> |ws| <= |text| - start)
      && (ws != [] ==> ws[0].start == start && ws[|ws| - 1].end == |text|)
      && AllFit(text, ws, size) && Chained(ws, overlap)
    decreases |text| - start
  {
    if start < |text| {
      var end := WindowEnd(text, start, size);
      var next := NextStart(start, end, overlap);
      var w := Window(start, end);
      var rest := WindowsFrom(text, next, size, overlap);
      WindowsFromStep(text, start, size, overlap);
      WindowsFromShape(text, next, size, overlap);
      AllFitCons(text, w, rest, size);
      ChainedCons(w, rest, overlap);
      if rest != [] {
        ConsIndex(w, rest, |rest|);
      }
    }
  }

  /** Character `p` lies in window `w`. */
  predicate Covers(w: Window, p: int)
  {
    w.start <= p < w.end
  }

  predicate Covered(ws: seq<Window>, p: int)
  {
    exists i :: 0 <= i < |ws| && Covers(ws[i], p)
  }

  lemma {:induction false} CoveredCons(w: Window, rest: seq<Window>, p: int)
    requires Covered(rest, p)
    ensures Covered([w] + rest, p)
  {
    var i :| 0 <= i < |rest| && Covers(rest[i], p);
    ConsIndex(w, rest, i + 1);
  }

  lemma {:induction false} CoverFrom(text: seq<char>, start: nat, size: nat, overlap: nat)
    requires size >= 1
    ensures forall p :: start <= p < |text| ==> Covered(WindowsFrom(text, start, size, overlap), p)
    decreases |text| - start
  {
    if start < |text| {
      var end := WindowEnd(text, start, size);
      var next := NextStart(start, end, overlap);
      var w := Window(start, end);
      var rest := WindowsFrom(text, next, size, overlap);
      WindowsFromStep(text, start, size, overlap);
      CoverFrom(text, next, size, overlap);
      forall p | start <= p < |text| ensures Covered([w] + rest, p) {
        if p < end {
          assert ([w] + rest)[0] == w;
          assert Covers(w, p);
        } else {
          CoveredCons(w, rest, p);
        }
      }
    }
  }

  /** The windows of `chunkText` start at 0, end at the end of the text, fit, follow each
      other, and leave no gap: every character lies in some window. */
  lemma {:induction false} WindowsCover(text: seq<char>, size: nat, overlap: nat)
    requires size >= 1
    ensures var ws := Windows(text, size, overlap);
      && |ws| <= |text| && (ws == [] <==> text == [])
      && (text != [] ==> ws[0].start == 0 && ws[|ws| - 1].end == |text|)
      && AllFit(text, ws, size) && Chained(ws, overlap)
      && forall p :: 0 <= p < |text| ==> Covered(ws, p)
  {
    WindowsFromShape(text, 0, size, overlap);
    CoverFrom(text, 0, size, overlap);
  }

  // ---------------------------------------------------------------- the chunks

  /** A chunk is pushed exactly when some window's trimmed text is that chunk and is longer
      than 50 characters. */
  lemma {:induction false} EmittedIff(text: seq<char>, ws: seq<Window>, c: seq<char>)
    ensures c in Emitted(text, ws)
        <==> (exists k :: 0 <= k < |ws| && ChunkOf(text, ws[k]) == c) && |c| > MinChunkLength
  {
    var cs := Chunks(text, ws);
    KeepLongIff(cs, c);
    if c in cs {
      var k :| 0 <= k < |cs| && cs[k] == c;
      ChunksIndex(text, ws, k);
    }
    if exists k :: 0 <= k < |ws| && ChunkOf(text, ws[k]) == c {
      var k :| 0 <= k < |ws| && ChunkOf(text, ws[k]) == c;
      ChunksIndex(text, ws, k);
    }
  }

  /** A chunk is trimmed and is the text of the window with its leading and trailing
      whitespace removed: it starts after the leading run and ends inside the window. */
  lemma {:induction false} ChunkInWindow(text: seq<char>, w: Window)
    requires w.start <= w.end <= |text|
    ensures var c := ChunkOf(text, w);
      var a := w.start + LeadingRun(text[w.start..w.end], Space);
      && IsTrimmed(c)
      && a + |c| <= w.end && c == text[a..a + |c|]
      && (c == [] <==> AllIn(text[w.start..w.end], Space))
  {
    var s := text[w.start..w.end];
    assert JsSlice(text, w.start, w.end) == s;
    var lo := LeadingRun(s, Space);
    SliceOfSlice(text, w.start, w.end, lo, lo + |Trim(s)|);
  }

  // ---------------------------------------------------------------- the redundant tail window

  /** Once a window reaches the end of the text, so does the next one, which starts later:
      the loop goes on stepping back by `overlap` and slices a suffix of the last window. */
  lemma {:induction false} NestedFrom(text: seq<char>, start: nat, size: nat, overlap: nat, i: nat)
    requires size >= 1
    requires i + 1 < |WindowsFrom(text, start, size, overlap)|
    requires WindowsFrom(text, start, size, overlap)[i].end == |text|
    ensures var ws := WindowsFrom(text, start, size, overlap);
      ws[i + 1].end == |text| && ws[i].start < ws[i + 1].start
    decreases |text| - start
  {
    var ws := WindowsFrom(text, start, size, overlap);
    var end := WindowEnd(text, start, size);
    var next := NextStart(start, end, overlap);
    var w := Window(start, end);
    var rest := WindowsFrom(text, next, size, overlap);
    WindowsFromStep(text, start, size, overlap);
    assert ws == [w] + rest;
    ConsIndex(w, rest, i + 1);
    assert ws[i + 1] == rest[i];
    if i == 0 {
      assert end == |text|;
      NestedHead(text, next, size, overlap, start);
    } else {
      ConsIndex(w, rest, i);
      NestedFrom(text, next, size, overlap, i - 1);
    }
  }

  /** The window that opens at `next`, after a window from `start` that reached the end,
      reaches the end too. */
  lemma {:induction false} NestedHead(text: seq<char>, next: nat, size: nat, overlap: nat, start: nat)
    requires size >= 1 && start < next < |text| && start + size >= |text|
    ensures var rest := WindowsFrom(text, next, size, overlap);
      |rest| > 0 && rest[0].end == |text| && rest[0].start == next
  {
    WindowsFromStep(text, next, size, overlap);
  }

  lemma {:induction false} TailWindowsNested(text: seq<char>, size: nat, overlap: nat, i: nat)
    requires size >= 1
    requires i + 1 < |Windows(text, size, overlap)|
    requires Windows(text, size, overlap)[i].end == |text|
    ensures var ws := Windows(text, size, overlap);
      ws[i + 1].end == |text| && ws[i].start < ws[i + 1].start
  {
    NestedFrom(text, 0, size, overlap, i);
  }

  /** Text without newlines and without sentence punctuation. */
  predicate PlainText(s: seq<char>)
  {
    forall i :: 0 <= i < |s| ==> s[i] != '\n' && s[i] != '.' && s[i] != ';'
  }

  lemma {:induction false} PlainSlice(s: seq<char>, from: nat, to: nat)
    requires PlainText(s)
    ensures PlainText(JsSlice(s, from, to))
  {
    var r := JsSlice(s, from, to);
    assert forall i :: 0 <= i < |r| ==> r[i] == s[from + i];
  }

  lemma {:induction false} PlainNoNewline(s: seq<char>)
    requires PlainText(s)
    ensures LastDoubleNewline(s).None? && LastIndexOf(s, '\n').None?
  {
  }

  lemma {:induction false} PlainNoSentenceEnd(s: seq<char>)
    requires PlainText(s)
    ensures Search(s, SentenceEndPattern).None?
  {
    forall e | 0 <= e <= |s| ensures MatchFrom(s, SentenceEndPattern, e).None? {
      if e < |s| {
        assert s[e..][0] == s[e];
      }
    }
  }

  /** A text with no newline and no sentence punctuation offers no section break. */
  lemma {:induction false} NoBreakInPlainText(text: seq<char>, position: nat, searchWindow: nat)
    requires PlainText(text)
    ensures FindSectionBreak(text, position, searchWindow) == position
  {
    var slice := SearchSlice(text, position, searchWindow);
    PlainSlice(text, WindowStart(position, searchWindow), position);
    PlainNoNewline(slice);
    PlainNoSentenceEnd(slice);
  }

  /** A text of 900 letters `A`. */
  predicate Letters900(text: seq<char>)
  {
    |text| == 900 && forall i :: 0 <= i < |text| ==> text[i] == 'A'
  }

  /** With the script's constants, the ends of the windows opened at 0, 650 and 750 in 900
      letters: the first is cut at 800 since letters offer no section break. */
  lemma {:induction false} PlainEnds(text: seq<char>)
    requires Letters900(text)
    ensures WindowEnd(text, 0, ChunkSize) == 800
    ensures WindowEnd(text, 650, ChunkSize) == 900 && WindowEnd(text, 750, ChunkSize) == 900
  {
    NoBreakInPlainText(text, 800, 160);
    assert ChunkSize / 5 == 160 && Min(ChunkSize, |text|) == 800;
  }

  /** On 900 letters with the script's constants the loop visits [0, 800), [650, 900) and
      then [750, 900), which lies inside the one before. */
  lemma {:induction false} PlainWindows(text: seq<char>)
    requires Letters900(text)
    ensures Windows(text, ChunkSize, ChunkOverlap)
         == [Window(0, 800), Window(650, 900), Window(750, 900)]
  {
    PlainEnds(text);
    WindowsFromStep(text, 0, 800, 150);
    WindowsFromStep(text, 650, 800, 150);
    WindowsFromStep(text, 750, 800, 150);
  }

  lemma {:induction false} PlainChunk(text: seq<char>, a: nat, b: nat)
    requires a <= b <= |text| && Letters900(text)
    ensures ChunkOf(text, Window(a, b)) == text[a..b]
  {
    var s := text[a..b];
    if s != [] {
      PrintableNotWs();
      assert s[0] == 'A' && s[|s| - 1] == 'A';
    }
    TrimIdentity(s);
  }

  lemma {:induction false} PlainChunks(text: seq<char>)
    requires Letters900(text)
    ensures Chunks(text, [Window(0, 800), Window(650, 900), Window(750, 900)])
         == [text[..800], text[650..], text[750..]]
  {
    var w0, w1, w2 := Window(0, 800), Window(650, 900), Window(750, 900);
    PlainChunk(text, 0, 800);
    PlainChunk(text, 650, 900);
    PlainChunk(text, 750, 900);
    assert text[0..800] == text[..800];
    assert text[650..900] == text[650..] && text[750..900] == text[750..];
    ConsThree(w0, w1, w2);
    ChunksCons(text, w2, []);
    ChunksCons(text, w1, [w2] + []);
    ChunksCons(text, w0, [w1] + ([w2] + []));
    ConsThree(ChunkOf(text, w0), ChunkOf(text, w1), ChunkOf(text, w2));
  }

  /** Chunks that are all long enough pass the filter unchanged. */
  lemma {:induction false} KeepLongAllLong(cs: seq<seq<char>>)
    requires forall i :: 0 <= i < |cs| ==> |cs[i]| > MinChunkLength
    ensures KeepLong(cs) == cs
    decreases |cs|
  {
    if cs != [] {
      KeepLongAllLong(cs[1..]);
      HeadTail(cs);
      KeepLongCons(cs[0], cs[1..]);
    }
  }

  lemma {:induction false} PlainEmitted(text: seq<char>)
    requires Letters900(text)
    ensures Emitted(text, [Window(0, 800), Window(650, 900), Window(750, 900)])
         == [text[..800], text[650..], text[750..]]
  {
    var a, b, c := text[..800], text[650..], text[750..];
    PlainChunks(text);
    KeepLongThree(a, b, c);
  }

  lemma {:induction false} KeepLongThree(a: seq<char>, b: seq<char>, c: seq<char>)
    requires |a| > MinChunkLength && |b| > MinChunkLength && |c| > MinChunkLength
    ensures KeepLong([a, b, c]) == [a, b, c]
  {
    var cs := [a, b, c];
    assert cs[0] == a && cs[1] == b && cs[2] == c;
    KeepLongAllLong(cs);
  }

  /** The third chunk pushed on 900 letters is the last 150 characters of the text, which
      the second chunk already holds. */
  lemma {:induction false} RedundantTailWindow(text: seq<char>)
    requires Letters900(text)
    ensures Emitted(text, Windows(text, ChunkSize, ChunkOverlap))
         == [text[..800], text[650..], text[750..]]
    ensures text[750..] == text[650..][100..]
  {
    PlainWindows(text);
    PlainEmitted(text);
    DropDrop(text, 650, 100);
  }

  /** The intended loop: stop as soon as a window reaches the end of the text. */
  function StoppingWindowsFrom(text: seq<char>, start: nat, size: nat, overlap: nat): seq<Window>
    requires size >= 1
    decreases |text| - start
  {
    if start >= |text| then []
    else
      var end := WindowEnd(text, start, size);
      if end == |text| then [Window(start, end)]
      else [Window(start, end)] + StoppingWindowsFrom(text, NextStart(start, end, overlap), size, overlap)
  }

  function StoppingWindows(text: seq<char>, size: nat, overlap: nat): seq<Window>
    requires size >= 1
  {
    StoppingWindowsFrom(text, 0, size, overlap)
  }

  /** No window but the last reaches the end of the text. */
  predicate OnlyLastReachesEnd(text: seq<char>, ws: seq<Window>)
  {
    forall i :: 0 <= i < |ws| - 1 ==> ws[i].end < |text|
  }

  /** With the early stop the windows are those of the source loop up to and including the
      first that reaches the end of the text, and no other reaches it. */
  lemma {:induction false} StoppingWindowsFromShape(text: seq<char>, start: nat, size: nat, overlap: nat)
    requires size >= 1
    ensures var sw, ws := StoppingWindowsFrom(text, start, size, overlap), WindowsFrom(text, start, size, overlap);
      && |sw| <= |ws| && sw == ws[..|sw|]
      && (sw == [] <==> start >= |text|)
      && (sw != [] ==> sw[|sw| - 1].end == |text|)
      && OnlyLastReachesEnd(text, sw)
    decreases |text| - start
  {
    if start < |text| {
      var end := WindowEnd(text, start, size);
      var next := NextStart(start, end, overlap);
      var w := Window(start, end);
      var rest := WindowsFrom(text, next, size, overlap);
      WindowsFromStep(text, start, size, overlap);
      if end < |text| {
        var srest := StoppingWindowsFrom(text, next, size, overlap);
        StoppingWindowsFromShape(text, next, size, overlap);
        ConsPrefix(w, srest, rest);
        ConsIndex(w, srest, |srest|);
        forall i | 0 < i < |srest| ensures ([w] + srest)[i].end < |text| {
          ConsIndex(w, srest, i);
        }
      }
    }
  }

  /** The stopping loop still leaves no gap: every character lies in one of its windows. */
  lemma {:induction false} StoppingCoverFrom(text: seq<char>, start: nat, size: nat, overlap: nat)
    requires size >= 1
    ensures forall p :: start <= p < |text| ==> Covered(StoppingWindowsFrom(text, start, size, overlap), p)
    decreases |text| - start
  {
    if start < |text| {
      var end := WindowEnd(text, start, size);
      var next := NextStart(start, end, overlap);
      var w := Window(start, end);
      if end == |text| {
        forall p | start <= p < |text| ensures Covered([w], p) {
          assert Covers([w][0], p);
        }
      } else {
        var rest := StoppingWindowsFrom(text, next, size, overlap);
        StoppingCoverFrom(text, next, size, overlap);
        forall p | start <= p < |text| ensures Covered([w] + rest, p) {
          if p < end {
            assert Covers(([w] + rest)[0], p);
          } else {
            CoveredCons(w, rest, p);
          }
        }
      }
    }
  }

  lemma {:induction false} StoppingWindowsShape(text: seq<char>, size: nat, overlap: nat)
    requires size >= 1
    ensures var sw, ws := StoppingWindows(text, size, overlap), Windows(text, size, overlap);
      && |sw| <= |ws| && sw == ws[..|sw|]
      && (text != [] ==> sw != [] && sw[|sw| - 1].end == |text|)
      && OnlyLastReachesEnd(text, sw)
      && forall p :: 0 <= p < |text| ==> Covered(sw, p)
  {
    StoppingWindowsFromShape(text, 0, size, overlap);
    StoppingCoverFrom(text, 0, size, overlap);
  }

  /** On the same 900 letters the stopping loop visits two windows only. */
  lemma {:induction false} StoppingOmitsTail(text: seq<char>)
    requires Letters900(text)
    ensures StoppingWindows(text, ChunkSize, ChunkOverlap) == [Window(0, 800), Window(650, 900)]
  {
    PlainEnds(text);
    assert StoppingWindowsFrom(text, 650, 800, 150) == [Window(650, 900)];
  }
}
