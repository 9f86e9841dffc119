/**
 * The text side of the ingestion script (scripts/ingest-regulation.ts): `cleanPdfText`,
 * which strips the recurring page header and the page markers and normalises whitespace
 * line by line, and `findSectionBreak`, which moves a cut position back to the nearest
 * paragraph, line or sentence boundary inside a search window.
 */
module Ingest {
  import opened Wrappers
  import opened JsText
  import opened Patterns

  // ---------------------------------------------------------------- cleanPdfText

  /** `line.replace(/\s{3,}/g, ' ').trim()`. */
  function NormalizeLine(line: seq<char>): (r: seq<char>)
    ensures IsTrimmed(r) && NoRun(r, Space, 3)
    ensures '\n' !in line ==> '\n' !in r
    ensures Visible(r) == Visible(line)
    ensures Words(r) == Words(line)
  {
    NormalizeLineShape(line);
    SpaceIsWs();
    VisibleCollapse(line, 3, " ");
    VisibleTrim(CollapseRuns(line, Space, 3, " "));
    WordsCollapse(line, 3, " ");
    WordsTrim(CollapseRuns(line, Space, 3, " "));
    Trim(CollapseRuns(line, Space, 3, " "))
  }

  lemma {:induction false} NormalizeLineShape(line: seq<char>)
    ensures var r := Trim(CollapseRuns(line, Space, 3, " "));
      && NoRun(r, Space, 3) && ('\n' !in line ==> '\n' !in r)
  {
    var c := CollapseRuns(line, Space, 3, " ");
    var r := Trim(c);
    var lo := LeadingRun(c, Space);
    SliceMembers(c, lo, lo + |r|);
    NormalizeLineNoRun(line);
  }

  lemma {:induction false} NormalizeLineNoRun(line: seq<char>)
    ensures NoRun(Trim(CollapseRuns(line, Space, 3, " ")), Space, 3)
  {
    SpaceIsWs();
    CollapseNoRun(line, Space, 3, " ");
    TrimNoRun(CollapseRuns(line, Space, 3, " "), 3);
  }

  /** `.filter((line) => line.length > 0)`. */
  function NonEmpty(lines: seq<seq<char>>): (r: seq<seq<char>>)
    ensures |r| <= |lines|
    ensures forall i :: 0 <= i < |r| ==> r[i] != [] && r[i] in lines
    ensures (forall i :: 0 <= i < |lines| ==> lines[i] != []) ==> r == lines
    ensures forall l :: l in lines && l != [] ==> l in r
    decreases |lines|
  {
    if lines == [] then []
    else
      var rest := NonEmpty(lines[1..]);
      assert forall x :: x in lines[1..] ==> x in lines;
      assert forall x :: x in lines ==> x == lines[0] || x in lines[1..];
      if lines[0] == [] then rest else [lines[0]] + rest
  }

  /** The filter keeps the order: filtering a concatenation filters each half. */
  lemma {:induction false} NonEmptyAppend(a: seq<seq<char>>, b: seq<seq<char>>)
    ensures NonEmpty(a + b) == NonEmpty(a) + NonEmpty(b)
    decreases |a|
  {
    if a != [] {
      assert (a + b)[1..] == a[1..] + b;
      NonEmptyAppend(a[1..], b);
    } else {
      assert a + b == b;
    }
  }

  /** Dropping empty lines drops no visible character. */
  lemma {:induction false} NonEmptyVisible(lines: seq<seq<char>>)
    ensures VisibleConcat(NonEmpty(lines)) == VisibleConcat(lines)
    decreases |lines|
  {
    if lines != [] {
      NonEmptyVisible(lines[1..]);
      var rest := NonEmpty(lines[1..]);
      if lines[0] != [] {
        assert ([lines[0]] + rest)[1..] == rest;
      }
    }
  }

  /** `.map((line) => line.replace(/\s{3,}/g, ' ').trim())`. */
  function NormalizeEach(lines: seq<seq<char>>): seq<seq<char>>
  {
    seq(|lines|, i requires 0 <= i < |lines| => NormalizeLine(lines[i]))
  }

  /** Normalising every line keeps the visible characters of each. */
  lemma {:induction false} NormalizeEachVisible(lines: seq<seq<char>>)
    ensures VisibleConcat(NormalizeEach(lines)) == VisibleConcat(lines)
    decreases |lines|
  {
    if lines != [] {
      assert NormalizeEach(lines)[1..] == NormalizeEach(lines[1..]);
      NormalizeEachVisible(lines[1..]);
    }
  }

  /** A line as the line stage leaves it: not empty, no newline, no whitespace at either
      end and no run of three whitespace characters. */
  predicate GoodLine(line: seq<char>)
  {
    line != [] && '\n' !in line && IsTrimmed(line) && NoRun(line, Space, 3)
  }

  predicate NoDoubleNewline(s: seq<char>)
  {
    forall i :: 0 <= i < |s| - 1 ==> !(s[i] == '\n' && s[i + 1] == '\n')
  }

  /** The line stage of `cleanPdfText`: split on newlines, normalise every line, drop the
      empty ones and join the rest with single newlines. */
  function NormalizeLines(text: seq<char>): (r: seq<char>)
    ensures Visible(r) == Visible(text)
  {
    var lines := Split(text, '\n');
    var kept := NonEmpty(NormalizeEach(lines));
    JoinSplit(text, '\n');
    VisibleJoinNewline(lines);
    NormalizeEachVisible(lines);
    NonEmptyVisible(NormalizeEach(lines));
    VisibleJoinNewline(kept);
    Join(kept, "\n")
  }

  /** The lines the line stage keeps are good lines. */
  lemma {:induction false} NormalizedLinesGood(text: seq<char>)
    ensures forall l :: l in NonEmpty(NormalizeEach(Split(text, '\n'))) ==> GoodLine(l)
  {
    var parts := Split(text, '\n');
    var each := NormalizeEach(parts);
    forall l | l in each ensures '\n' !in l && IsTrimmed(l) && NoRun(l, Space, 3) {
      var i :| 0 <= i < |each| && each[i] == l;
      assert '\n' !in parts[i];
    }
  }

  /** `text.replace(/\n{3,}/g, '\n\n')`. */
  function CollapseBlankLines(text: seq<char>): (r: seq<char>)
    ensures NoRun(r, Newline, 3)
  {
    CollapseNoRun(text, Newline, 3, "\n\n");
    CollapseRuns(text, Newline, 3, "\n\n")
  }

  /** The two regular-expression removals, header first, then page markers. They never
      lengthen the text, and text with neither a header nor a page marker passes unchanged. */
  function StripBoilerplate(raw: seq<char>): (r: seq<char>)
    ensures |r| <= |raw|
    ensures !HasMatch(raw, HeaderPattern) && !HasMatch(raw, PageMarkerPattern) ==> r == raw
  {
    RemoveAllShortens(raw, HeaderPattern);
    var t := RemoveAll(raw, HeaderPattern);
    RemoveAllShortens(t, PageMarkerPattern);
    RemoveAll(t, PageMarkerPattern)
  }

  /** `cleanPdfText`. */
  function CleanPdfText(raw: seq<char>): (r: seq<char>)
    ensures IsTrimmed(r)
    ensures NoDoubleNewline(r)
    ensures forall i :: 0 <= i < |r| - 2 ==> !(IsWs(r[i]) && IsWs(r[i + 1]) && IsWs(r[i + 2]))
    ensures r != [] ==> forall line :: line in Split(r, '\n') ==> GoodLine(line)
    ensures r == NormalizeLines(StripBoilerplate(raw))
  {
    var lines := NormalizeLines(StripBoilerplate(raw));
    LineStageShape(StripBoilerplate(raw));
    NoDoubleNewlineNoRun(lines);
    CollapseIdentity(lines, Newline, 3, "\n\n");
    TrimIdentity(lines);
    NoRunAdjacent(lines, 3);
    Trim(CollapseBlankLines(lines))
  }

  /** Cleaning only removes boilerplate and white space: every other character of the text
      left after the two removals comes out unchanged and in order. */
  lemma {:induction false} CleanPdfTextVisible(raw: seq<char>)
    ensures Visible(CleanPdfText(raw)) == Visible(StripBoilerplate(raw))
  {
    assert CleanPdfText(raw) == NormalizeLines(StripBoilerplate(raw));
  }

  // ---------------------------------------------------------------- properties of the line stage

  lemma {:induction false} NoDoubleNewlineNoRun(s: seq<char>)
    requires NoDoubleNewline(s)
    ensures NoRun(s, Newline, 3)
  {
    forall i | 0 <= i < |s| ensures RunAt(s, i, Newline) < 2 {
      var t := s[i..];
      if |t| > 1 && t[0] == '\n' {
        assert t[1..][0] == s[i + 1];
      }
    }
  }

  /** A run that stops inside `u` is not lengthened by what follows `u`. */
  lemma {:induction false} LeadingRunStops(u: seq<char>, v: seq<char>, cls: CharClass)
    requires LeadingRun(u, cls) < |u|
    ensures LeadingRun(u + v, cls) == LeadingRun(u, cls)
    decreases |u|
  {
    if InClass(u[0], cls) {
      assert (u + v)[1..] == u[1..] + v;
      LeadingRunStops(u[1..], v, cls);
    }
  }

  /** Joining good lines with single newlines gives text with no whitespace at either end,
      no empty line and no run of three whitespace characters. */
  lemma {:induction false} JoinGoodLines(lines: seq<seq<char>>)
    requires forall l :: l in lines ==> GoodLine(l)
    ensures var j := Join(lines, "\n");
      && IsTrimmed(j) && NoDoubleNewline(j) && NoRun(j, Space, 3) && (lines != [] ==> j != [])
    decreases |lines|
  {
    if |lines| == 1 {
      assert lines[0] in lines;
      NoNewlineNoPair(lines[0]);
    } else if |lines| > 1 {
      assert lines[0] in lines;
      assert forall x :: x in lines[1..] ==> x in lines;
      JoinGoodLines(lines[1..]);
      var t := Join(lines[1..], "\n");
      LineBeforeText(lines[0], t);
    }
  }

  lemma {:induction false} NoNewlineNoPair(l: seq<char>)
    requires '\n' !in l
    ensures NoDoubleNewline(l)
  {
    forall i | 0 <= i < |l| - 1 ensures l[i] != '\n' {
      assert l[i] in l;
    }
  }

  /** A good line, a newline, then trimmed text without "\n\n" or long whitespace runs. */
  lemma {:induction false} LineBeforeText(l: seq<char>, t: seq<char>)
    requires GoodLine(l) && t != [] && IsTrimmed(t) && NoDoubleNewline(t) && NoRun(t, Space, 3)
    ensures var j := l + "\n" + t;
      IsTrimmed(j) && NoDoubleNewline(j) && NoRun(j, Space, 3)
  {
    var j := l + "\n" + t;
    assert j[|j| - 1] == t[|t| - 1];
    LineBeforeTextPairs(l, t);
    LineBeforeTextRuns(l, t);
  }

  lemma {:induction false} LineBeforeTextPairs(l: seq<char>, t: seq<char>)
    requires GoodLine(l) && t != [] && IsTrimmed(t) && NoDoubleNewline(t)
    ensures NoDoubleNewline(l + "\n" + t)
  {
    var j := l + "\n" + t;
    NoNewlineNoPair(l);
    forall i | 0 <= i < |j| - 1 ensures !(j[i] == '\n' && j[i + 1] == '\n') {
      if i < |l| - 1 {
        assert j[i] == l[i] && j[i + 1] == l[i + 1];
      } else if i == |l| - 1 {
        assert j[i] == l[|l| - 1];
      } else if i == |l| {
        assert j[i + 1] == t[0];
      } else {
        assert j[i] == t[i - |l| - 1] && j[i + 1] == t[i - |l|];
      }
    }
  }

  lemma {:induction false} LineBeforeTextRuns(l: seq<char>, t: seq<char>)
    requires GoodLine(l) && t != [] && IsTrimmed(t) && NoRun(t, Space, 3)
    ensures NoRun(l + "\n" + t, Space, 3)
  {
    var j := l + ("\n" + t);
    AppendAssoc(l, "\n", t);
    forall i | 0 <= i < |j| ensures RunAt(j, i, Space) < 3 {
      if i < |l| {
        RunInLine(l, "\n" + t, i);
      } else if i == |l| {
        DropRight(l, "\n" + t, i);
        NewlineThenText(t);
      } else {
        RunInText(l, t, i);
      }
    }
  }

  /** A run starting inside the text after the newline is a run of that text. */
  lemma {:induction false} RunInText(l: seq<char>, t: seq<char>, i: nat)
    requires NoRun(t, Space, 3) && |l| < i < |l| + 1 + |t|
    ensures RunAt(l + ("\n" + t), i, Space) < 3
  {
    DropRight(l, "\n" + t, i);
    DropRight("\n", t, i - |l|);
    assert RunAt(t, i - |l| - 1, Space) < 3;
  }

  /** A newline in front of trimmed text is a run of one white-space character. */
  lemma {:induction false} NewlineThenText(t: seq<char>)
    requires t != [] && IsTrimmed(t)
    ensures LeadingRun("\n" + t, Space) == 1
  {
    assert IsWs('\n');
    ConsIndex('\n', t, 1);
    assert LeadingRun(t, Space) == 0;
  }

  /** A run starting inside a good line stops at its last character, whatever follows. */
  lemma {:induction false} RunInLine(l: seq<char>, rest: seq<char>, i: nat)
    requires GoodLine(l) && i < |l|
    ensures RunAt(l + rest, i, Space) < 3
  {
    DropLeft(l, rest, i);
    assert l[i..][|l| - i - 1] == l[|l| - 1];
    LeadingRunStops(l[i..], rest, Space);
    assert RunAt(l, i, Space) < 3;
  }

  /** The line stage yields trimmed text without empty lines or long whitespace runs, and
      the lines of its result are exactly the good lines it kept. */
  lemma {:induction false} LineStageShape(text: seq<char>)
    ensures var r := NormalizeLines(text);
      && IsTrimmed(r) && NoDoubleNewline(r) && NoRun(r, Space, 3)
      && (r != [] ==> Split(r, '\n') == NonEmpty(NormalizeEach(Split(text, '\n'))))
      && (r != [] ==> forall line :: line in Split(r, '\n') ==> GoodLine(line))
  {
    var kept := NonEmpty(NormalizeEach(Split(text, '\n')));
    NormalizedLinesGood(text);
    JoinGoodLines(kept);
    if kept != [] {
      SplitJoin(kept, '\n');
    }
  }

  /** Running the line stage twice changes nothing. (The whole of `cleanPdfText` is not
      idempotent: removing a page marker can bring the two halves of a header or of
      another marker together.) */
  lemma {:induction false} NormalizeLinesIdempotent(text: seq<char>)
    ensures NormalizeLines(NormalizeLines(text)) == NormalizeLines(text)
  {
    var kept := NonEmpty(NormalizeEach(Split(text, '\n')));
    var r := NormalizeLines(text);
    LineStageShape(text);
    if r == [] {
      NormalizeLinesEmpty();
    } else {
      NormalizedLinesGood(text);
      NormalizeEachGood(kept);
    }
  }

  lemma {:induction false} NormalizeLinesEmpty()
    ensures NormalizeLines([]) == []
  {
    assert Split([], '\n') == [[]];
    assert NormalizeLine([]) == [];
    assert NormalizeEach([[]]) == [[]];
  }

  /** Good lines are left as they are by the per-line normalisation. */
  lemma {:induction false} NormalizeEachGood(lines: seq<seq<char>>)
    requires forall l :: l in lines ==> GoodLine(l)
    ensures NormalizeEach(lines) == lines
  {
    var each := NormalizeEach(lines);
    forall i | 0 <= i < |lines| ensures each[i] == lines[i] {
      assert lines[i] in lines;
      CollapseIdentity(lines[i], Space, 3, " ");
      TrimIdentity(lines[i]);
    }
  }

  // ---------------------------------------------------------------- findSectionBreak

  /** `Math.max(0, position - searchWindow)`. */
  function WindowStart(position: nat, searchWindow: nat): nat
  {
    if position >= searchWindow then position - searchWindow else 0
  }

  /** `"\n\n"` starts at position `i` of `s`. */
  predicate PairAt(s: seq<char>, i: int)
  {
    0 <= i && i + 1 < |s| && s[i] == '\n' && s[i + 1] == '\n'
  }

  /** `s.lastIndexOf('\n\n')`; `None` stands for -1. */
  function LastDoubleNewline(s: seq<char>): (r: Option<nat>)
    ensures r.Some? ==> PairAt(s, r.value) && forall j :: r.value < j ==> !PairAt(s, j)
    ensures r.None? ==> forall j :: !PairAt(s, j)
    decreases |s|
  {
    if |s| < 2 then None
    else if s[|s| - 2] == '\n' && s[|s| - 1] == '\n' then Some(|s| - 2)
    else
      var r := LastDoubleNewline(s[..|s| - 1]);
      assert forall j :: PairAt(s, j) && j < |s| - 2 ==> PairAt(s[..|s| - 1], j);
      r
  }

  /** `c` does not occur in `s` at position `from` or later. */
  predicate Absent(s: seq<char>, c: char, from: nat)
  {
    forall j :: from <= j < |s| ==> s[j] != c
  }

  /** `s.lastIndexOf(c)` for one character; `None` stands for -1. */
  function LastIndexOf(s: seq<char>, c: char): (r: Option<nat>)
    ensures r.Some? ==> r.value < |s| && s[r.value] == c && Absent(s, c, r.value + 1)
    ensures r.None? ==> Absent(s, c, 0)
    decreases |s|
  {
    if s == [] then None
    else if s[|s| - 1] == c then Some(|s| - 1)
    else
      var r := LastIndexOf(s[..|s| - 1], c);
      r
  }

  /** The text of the search window: `text.slice(searchStart, position)`. */
  function SearchSlice(text: seq<char>, position: nat, searchWindow: nat): seq<char>
  {
    JsSlice(text, WindowStart(position, searchWindow), position)
  }

  /** A sentence end (`[.;]`, whitespace, an upper-case letter) starts at `i` of `s`. */
  predicate SentenceEndAt(s: seq<char>, i: int)
  {
    0 <= i <= |s| && MatchFrom(s, SentenceEndPattern, i).Some?
  }

  /** Where `findSectionBreak` cuts, as an offset `k` into the search slice: just after the
      last "\n\n" if there is one; else just after the last newline if there is one; else
      just after the punctuation of the first sentence end if there is one; else at
      `fallback`, the offset of the original position. */
  predicate BreakPlaced(slice: seq<char>, k: nat, fallback: nat)
  {
    if exists i :: 0 <= i < |slice| && PairAt(slice, i) then
      k >= 2 && PairAt(slice, k - 2) && forall j :: k - 2 < j < |slice| ==> !PairAt(slice, j)
    else if !Absent(slice, '\n', 0) then
      1 <= k <= |slice| && slice[k - 1] == '\n' && Absent(slice, '\n', k)
    else if exists i :: 0 <= i <= |slice| && SentenceEndAt(slice, i) then
      k >= 1 && SentenceEndAt(slice, k - 1) && forall j :: 0 <= j < k - 1 ==> !SentenceEndAt(slice, j)
    else
      k == fallback
  }

  /** The offset into the search slice where `findSectionBreak` cuts: after the last
      "\n\n", else after the last newline, else after the punctuation of the first
      sentence end, else `fallback`, the offset of the original position. */
  function BreakOffset(slice: seq<char>, fallback: nat): (k: nat)
    ensures k <= |slice| || k == fallback
  {
    match LastDoubleNewline(slice)
    case Some(d) => d + 2
    case None =>
      match LastIndexOf(slice, '\n')
      case Some(n) => n + 1
      case None =>
        match Search(slice, SentenceEndPattern)
        case Some(e) =>
          SentenceEndInside(slice, e);
          e + 1
        case None => fallback
  }

  /** `findSectionBreak`: the cut position, moved back to a boundary inside the window
      before `position`; `SectionBreakPlaced` says which boundary. */
  function FindSectionBreak(text: seq<char>, position: nat, searchWindow: nat): (r: nat)
    ensures WindowStart(position, searchWindow) <= r <= position
  {
    var searchStart := WindowStart(position, searchWindow);
    var slice := SearchSlice(text, position, searchWindow);
    assert |slice| <= position - searchStart;
    searchStart + BreakOffset(slice, position - searchStart)
  }

  /** The priority order of `findSectionBreak`: paragraph break, then line break, then the
      first sentence end, then the position itself. */
  lemma {:induction false} SectionBreakPlaced(text: seq<char>, position: nat, searchWindow: nat)
    ensures var lo := WindowStart(position, searchWindow);
      BreakPlaced(SearchSlice(text, position, searchWindow),
                  FindSectionBreak(text, position, searchWindow) - lo, position - lo)
  {
    var lo := WindowStart(position, searchWindow);
    var slice := SearchSlice(text, position, searchWindow);
    assert FindSectionBreak(text, position, searchWindow) - lo == BreakOffset(slice, position - lo);
    BreakOffsetPlaced(slice, position - lo);
  }

  lemma {:induction false} BreakOffsetPlaced(slice: seq<char>, fallback: nat)
    ensures BreakPlaced(slice, BreakOffset(slice, fallback), fallback)
  {
    var k := BreakOffset(slice, fallback);
    match LastDoubleNewline(slice)
    case Some(d) =>
      ParagraphBreak(slice, d, k, fallback);
    case None =>
      match LastIndexOf(slice, '\n')
      case Some(n) =>
        LineBreak(slice, n, k, fallback);
      case None =>
        match Search(slice, SentenceEndPattern)
        case Some(e) =>
          SentenceBreak(slice, e, k, fallback);
        case None =>
          NoBreak(slice, k, fallback);
  }

  /** A sentence end needs at least one character, so it never starts at the very end. */
  lemma {:induction false} SentenceEndInside(slice: seq<char>, e: nat)
    requires e <= |slice| && MatchFrom(slice, SentenceEndPattern, e).Some?
    ensures e < |slice|
  {
  }

  lemma {:induction false} ParagraphBreak(slice: seq<char>, d: nat, k: nat, fallback: nat)
    requires LastDoubleNewline(slice) == Some(d) && k == d + 2
    ensures BreakPlaced(slice, k, fallback)
  {
  }

  lemma {:induction false} LineBreak(slice: seq<char>, n: nat, k: nat, fallback: nat)
    requires LastDoubleNewline(slice) == None && LastIndexOf(slice, '\n') == Some(n) && k == n + 1
    ensures BreakPlaced(slice, k, fallback)
  {
  }

  lemma {:induction false} SentenceBreak(slice: seq<char>, e: nat, k: nat, fallback: nat)
    requires LastDoubleNewline(slice) == None && LastIndexOf(slice, '\n') == None
    requires Search(slice, SentenceEndPattern) == Some(e) && k == e + 1
    ensures BreakPlaced(slice, k, fallback)
  {
    FirstSentenceEnd(slice, e);
  }

  lemma {:induction false} FirstSentenceEnd(slice: seq<char>, e: nat)
    requires Search(slice, SentenceEndPattern) == Some(e)
    ensures SentenceEndAt(slice, e) && forall j :: 0 <= j < e ==> !SentenceEndAt(slice, j)
  {
  }

  lemma {:induction false} NoBreak(slice: seq<char>, k: nat, fallback: nat)
    requires LastDoubleNewline(slice) == None && LastIndexOf(slice, '\n') == None
    requires Search(slice, SentenceEndPattern) == None && k == fallback
    ensures BreakPlaced(slice, k, fallback)
  {
    assert forall i :: 0 <= i <= |slice| ==> !SentenceEndAt(slice, i);
  }

  /** On cleaned text the paragraph branch of `findSectionBreak` never fires: cleaned text
      has no "\n\n", so the break falls after a newline, after a sentence end, or stays. */
  lemma {:induction false} NoParagraphBreakInCleanText(raw: seq<char>, position: nat, searchWindow: nat)
    ensures forall i :: !PairAt(SearchSlice(CleanPdfText(raw), position, searchWindow), i)
  {
    NoPairInSlice(CleanPdfText(raw), WindowStart(position, searchWindow), position);
  }

  /** A slice of text without "\n\n" has none either. */
  lemma {:induction false} NoPairInSlice(text: seq<char>, from: nat, to: nat)
    requires NoDoubleNewline(text)
    ensures forall i :: !PairAt(JsSlice(text, from, to), i)
  {
    var slice := JsSlice(text, from, to);
    forall i | 0 <= i < |slice| - 1 ensures !(slice[i] == '\n' && slice[i + 1] == '\n') {
      assert slice[i] == text[from + i] && slice[i + 1] == text[from + i + 1];
    }
  }
}
