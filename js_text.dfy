/**
 * The JavaScript string primitives the ingestion script and the answer shaping rely on:
 * the `\s` character class, `trim`, global replacement of character runs, `split` and
 * `join`, `slice`, and the decimal rendering of a number inside a template string.
 * A string is a `seq<char>` of Unicode scalar values; the model agrees with JavaScript,
 * which counts UTF-16 code units, only on text from the Basic Multilingual Plane.
 */
module JsText {
  import opened Wrappers

  /** The class `\s` of JavaScript regular expressions, which is also what
      `String.prototype.trim` removes: the ECMAScript WhiteSpace and LineTerminator
      code points, `WsChar(0)` to `WsChar(WsCount - 1)`. */
  predicate IsWs(c: char)
  {
    WsFrom(c, 0)
  }

  const WsCount: nat := 25

  /** `c` is one of `WsChar(k)`, ..., `WsChar(WsCount - 1)`. */
  predicate WsFrom(c: char, k: nat)
    decreases WsCount - k
  {
    k < WsCount && (c == WsChar(k) || WsFrom(c, k + 1))
  }

  /** The white-space code points in increasing order. */
  function WsChar(k: nat): char
    requires k < WsCount
  {
    match k
    case 0 => '\t'
    case 1 => '\n'
    case 2 => '\U{000B}'
    case 3 => '\U{000C}'
    case 4 => '\r'
    case 5 => ' '
    case 6 => '\U{00A0}'
    case 7 => '\U{1680}'
    case 8 => '\U{2000}'
    case 9 => '\U{2001}'
    case 10 => '\U{2002}'
    case 11 => '\U{2003}'
    case 12 => '\U{2004}'
    case 13 => '\U{2005}'
    case 14 => '\U{2006}'
    case 15 => '\U{2007}'
    case 16 => '\U{2008}'
    case 17 => '\U{2009}'
    case 18 => '\U{200A}'
    case 19 => '\U{2028}'
    case 20 => '\U{2029}'
    case 21 => '\U{202F}'
    case 22 => '\U{205F}'
    case 23 => '\U{3000}'
    case 24 => '\U{FEFF}'
  }

  /** Printable ASCII and Latin-1 characters other than the no-break space. */
  predicate Printable(c: char)
  {
    ('!' <= c <= '~') || ('\U{00A1}' <= c <= '\U{00FF}')
  }

  /** No printable character is white space. */
  lemma {:induction false} PrintableNotWs()
    ensures forall c :: Printable(c) ==> !IsWs(c)
  {
    forall c | Printable(c) ensures !IsWs(c) {
      NotWsFrom(c, 0);
    }
  }

  lemma {:induction false} NotWsFrom(c: char, k: nat)
    requires Printable(c)
    ensures !WsFrom(c, k)
    decreases WsCount - k
  {
    if k < WsCount {
      NotWsFrom(c, k + 1);
    }
  }

  /** The regular-expression class `\d`. */
  predicate IsDigit(c: char)
  {
    '0' <= c <= '9'
  }

  /** The character classes that occur in the system's regular expressions:
      `\s`, `\n`, `\d`, `[.;]` and `[A-ZÀ-Ü]`. */
  datatype CharClass = Space | Newline | Digit | SentencePunct | UpperLatin

  predicate InClass(c: char, cls: CharClass)
  {
    match cls
    case Space => IsWs(c)
    case Newline => c == '\n'
    case Digit => IsDigit(c)
    case SentencePunct => c == '.' || c == ';'
    case UpperLatin => ('A' <= c <= 'Z') || ('\U{00C0}' <= c <= '\U{00DC}')
  }

  predicate AllIn(s: seq<char>, cls: CharClass)
  {
    forall i :: 0 <= i < |s| ==> InClass(s[i], cls)
  }

  /** Length of the longest prefix of `s` made of characters of `cls`. */
  function LeadingRun(s: seq<char>, cls: CharClass): (n: nat)
    ensures n <= |s|
    ensures AllIn(s[..n], cls)
    ensures n < |s| ==> !InClass(s[n], cls)
  {
    if s == [] || !InClass(s[0], cls) then 0 else 1 + LeadingRun(s[1..], cls)
  }

  /** Length of the longest suffix of `s` made of characters of `cls`. */
  function TrailingRun(s: seq<char>, cls: CharClass): (n: nat)
    ensures n <= |s|
    ensures AllIn(s[|s| - n..], cls)
    ensures n < |s| ==> !InClass(s[|s| - n - 1], cls)
  {
    if s == [] || !InClass(s[|s| - 1], cls) then 0 else 1 + TrailingRun(s[..|s| - 1], cls)
  }

  lemma {:induction false} LeadingRunConcat(u: seq<char>, v: seq<char>, cls: CharClass)
    requires AllIn(u, cls)
    ensures LeadingRun(u + v, cls) == |u| + LeadingRun(v, cls)
  {
    if u != [] {
      assert (u + v)[1..] == u[1..] + v;
      LeadingRunConcat(u[1..], v, cls);
    } else {
      assert u + v == v;
    }
  }

  /** The leading run ends at the first character outside the class. */
  lemma {:induction false} LeadingRunExact(s: seq<char>, j: nat, cls: CharClass)
    requires j < |s| && !InClass(s[j], cls)
    requires forall i :: 0 <= i < j ==> InClass(s[i], cls)
    ensures LeadingRun(s, cls) == j
  {
    if j > 0 {
      LeadingRunExact(s[1..], j - 1, cls);
    }
  }

  /** A run that starts inside a prefix cannot be longer than the run in the whole string. */
  lemma {:induction false} LeadingRunPrefix(t: seq<char>, u: seq<char>, cls: CharClass)
    requires |t| <= |u| && t == u[..|t|]
    ensures LeadingRun(t, cls) <= LeadingRun(u, cls)
  {
    if t != [] && InClass(t[0], cls) {
      assert t[1..] == u[1..][..|t| - 1];
      LeadingRunPrefix(t[1..], u[1..], cls);
    }
  }

  // ---------------------------------------------------------------- trim

  /** No whitespace at either end. */
  predicate IsTrimmed(s: seq<char>)
  {
    s == [] || (!IsWs(s[0]) && !IsWs(s[|s| - 1]))
  }

  /** `String.prototype.trim`. */
  function Trim(s: seq<char>): (r: seq<char>)
    ensures IsTrimmed(r)
    ensures r == [] <==> AllIn(s, Space)
    ensures var lo := LeadingRun(s, Space);
      lo + |r| <= |s| && r == s[lo..lo + |r|] && AllIn(s[lo + |r|..], Space)
  {
    var lo := LeadingRun(s, Space);
    if lo == |s| then
      assert s[..lo] == s;
      []
    else
      var n := TrailingRun(s, Space);
      StripBounds(s, Space, lo, n);
      NotAllIn(s, lo, Space);
      s[lo..|s| - n]
  }

  /** When `s` has a character outside `cls`, its leading and trailing runs of `cls` do not
      overlap, and what lies between them starts and ends outside `cls`. */
  lemma {:induction false} StripBounds(s: seq<char>, cls: CharClass, lo: nat, n: nat)
    requires lo == LeadingRun(s, cls) < |s| && n == TrailingRun(s, cls)
    ensures lo < |s| - n
    ensures var r := s[lo..|s| - n];
      !InClass(r[0], cls) && !InClass(r[|r| - 1], cls)
  {
    SuffixMember(s, |s| - n, lo, cls);
    SliceEnds(s, lo, |s| - n);
  }

  lemma {:induction false} NotAllIn(s: seq<char>, i: nat, cls: CharClass)
    requires i < |s| && !InClass(s[i], cls)
    ensures !AllIn(s, cls)
  {
  }

  /** Every character at or after `k` is in a suffix that lies in `cls`. */
  lemma {:induction false} SuffixMember(s: seq<char>, k: nat, i: nat, cls: CharClass)
    requires k <= |s| && i < |s|
    ensures AllIn(s[k..], cls) && k <= i ==> InClass(s[i], cls)
  {
    if k <= i {
      assert s[k..][i - k] == s[i];
    }
  }

  /** Trimming changes a string exactly when it has whitespace at one of its ends. */
  lemma {:induction false} TrimIdentity(s: seq<char>)
    ensures Trim(s) == s <==> IsTrimmed(s)
  {
    if IsTrimmed(s) && s != [] {
      assert LeadingRun(s, Space) == 0;
      assert TrailingRun(s, Space) == 0;
    }
  }

  // ---------------------------------------------------------------- run replacement

  /** `s.replace(/X{m,}/g, repl)` where `X` is the class `cls`: the scan is leftmost first,
      and since the quantifier is greedy each match is a whole maximal run of at least `m`
      characters of the class. */
  function CollapseRuns(s: seq<char>, cls: CharClass, m: nat, repl: seq<char>): (r: seq<char>)
    requires m >= 1
    ensures forall c :: c in r ==> c in s || c in repl
    decreases |s|
  {
    if s == [] then []
    else
      var k := LeadingRun(s, cls);
      if k >= m then repl + CollapseRuns(s[k..], cls, m, repl)
      else [s[0]] + CollapseRuns(s[1..], cls, m, repl)
  }

  /** No run of `m` or more characters of `cls` anywhere in `s`. */
  predicate NoRun(s: seq<char>, cls: CharClass, m: nat)
  {
    forall i :: 0 <= i < |s| ==> RunAt(s, i, cls) < m
  }

  /** Length of the run of `cls` that starts at position `i` of `s`. */
  function RunAt(s: seq<char>, i: nat, cls: CharClass): nat
    requires i <= |s|
  {
    LeadingRun(s[i..], cls)
  }

  /** The replacement opens the result when a long run opens the input; otherwise the
      leading run is untouched. */
  lemma {:induction false} CollapseLeadingRun(s: seq<char>, cls: CharClass, m: nat, repl: seq<char>)
    requires m >= 1 && AllIn(repl, cls)
    ensures LeadingRun(CollapseRuns(s, cls, m, repl), cls)
         == if LeadingRun(s, cls) >= m then |repl| else LeadingRun(s, cls)
    decreases |s|
  {
    if s != [] {
      var k := LeadingRun(s, cls);
      var r := CollapseRuns(s, cls, m, repl);
      if k >= m {
        var t := CollapseRuns(s[k..], cls, m, repl);
        assert r == repl + t;
        if t != [] {
          assert s[k..] != [];
          assert t[0] == s[k];
        }
        LeadingRunConcat(repl, t, cls);
      } else if k == 0 {
        assert r[0] == s[0];
      } else {
        var t := CollapseRuns(s[1..], cls, m, repl);
        assert r == [s[0]] + t;
        CollapseLeadingRun(s[1..], cls, m, repl);
        assert r[1..] == t;
      }
    }
  }

  /** After the replacement no run of `m` characters of the class is left, provided the
      replacement itself is a shorter run of the class. */
  lemma {:induction false} CollapseNoRun(s: seq<char>, cls: CharClass, m: nat, repl: seq<char>)
    requires m >= 1 && AllIn(repl, cls) && |repl| < m
    ensures NoRun(CollapseRuns(s, cls, m, repl), cls, m)
    decreases |s|
  {
    if s != [] {
      var k := LeadingRun(s, cls);
      if k >= m {
        CollapseNoRun(s[k..], cls, m, repl);
        LeadingRunRest(s, cls);
        CollapseLeadingRun(s[k..], cls, m, repl);
        NoRunAfter(repl, CollapseRuns(s[k..], cls, m, repl), cls, m);
      } else {
        CollapseNoRun(s[1..], cls, m, repl);
        CollapseLeadingRun(s, cls, m, repl);
        NoRunCons(s[0], CollapseRuns(s[1..], cls, m, repl), cls, m);
      }
    }
  }

  /** No run of `m` or more characters of `cls` starts before position `k`. */
  predicate NoRunBefore(s: seq<char>, cls: CharClass, m: nat, k: nat)
  {
    k <= |s| && forall j :: 0 <= j < k ==> RunAt(s, j, cls) < m
  }

  /** What a run-collapsing replace does: the text before the first run of `m` or more is
      kept, that whole run becomes `repl`, and the replace resumes right after the run. */
  lemma {:induction false} CollapseFirst(s: seq<char>, cls: CharClass, m: nat, repl: seq<char>, i: nat)
    requires m >= 1 && i < |s| && RunAt(s, i, cls) >= m && NoRunBefore(s, cls, m, i)
    ensures var n := RunAt(s, i, cls);
      i + n <= |s|
      && CollapseRuns(s, cls, m, repl) == s[..i] + repl + CollapseRuns(s[i + n..], cls, m, repl)
  {
    var u := s[i..];
    var n := LeadingRun(u, cls);
    CollapsePrefix(s, cls, m, repl, i);
    assert u[n..] == s[i + n..];
    AppendAssoc(s[..i], repl, CollapseRuns(s[i + n..], cls, m, repl));
  }

  /** Text in which no long run starts is kept as it is. */
  lemma {:induction false} CollapsePrefix(s: seq<char>, cls: CharClass, m: nat, repl: seq<char>, k: nat)
    requires m >= 1 && NoRunBefore(s, cls, m, k)
    ensures CollapseRuns(s, cls, m, repl) == s[..k] + CollapseRuns(s[k..], cls, m, repl)
    decreases k
  {
    if k == 0 {
      assert s[0..] == s;
    } else {
      assert RunAt(s, k - 1, cls) < m;
      CollapsePrefix(s, cls, m, repl, k - 1);
      CollapsePrefixStep(s, cls, m, repl, k);
    }
  }

  lemma {:induction false} CollapsePrefixStep(s: seq<char>, cls: CharClass, m: nat, repl: seq<char>, k: nat)
    requires m >= 1 && 0 < k <= |s| && RunAt(s, k - 1, cls) < m
    ensures s[..k - 1] + CollapseRuns(s[k - 1..], cls, m, repl)
         == s[..k] + CollapseRuns(s[k..], cls, m, repl)
  {
    var u := s[k - 1..];
    assert u[0] == s[k - 1] && u[1..] == s[k..];
    AppendAssoc(s[..k - 1], [s[k - 1]], CollapseRuns(s[k..], cls, m, repl));
    assert s[..k - 1] + [s[k - 1]] == s[..k];
  }

  /** Nothing of the class follows the leading run. */
  lemma {:induction false} LeadingRunRest(s: seq<char>, cls: CharClass)
    ensures LeadingRun(s[LeadingRun(s, cls)..], cls) == 0
  {
    var k := LeadingRun(s, cls);
    if k < |s| {
      assert s[k..][0] == s[k];
    }
  }

  /** A short run of the class in front of a string that starts outside the class and has
      no long run makes no long run. */
  lemma {:induction false} NoRunAfter(u: seq<char>, t: seq<char>, cls: CharClass, m: nat)
    requires AllIn(u, cls) && |u| < m && NoRun(t, cls, m) && LeadingRun(t, cls) == 0
    ensures NoRun(u + t, cls, m)
  {
    var r := u + t;
    forall i | 0 <= i < |r| ensures RunAt(r, i, cls) < m {
      if i < |u| {
        DropLeft(u, t, i);
        LeadingRunConcat(u[i..], t, cls);
      } else {
        DropRight(u, t, i);
        assert RunAt(t, i - |u|, cls) < m;
      }
    }
  }

  /** One character in front of a string with no long run, when it opens no long run. */
  lemma {:induction false} NoRunCons(c: char, t: seq<char>, cls: CharClass, m: nat)
    requires NoRun(t, cls, m) && LeadingRun([c] + t, cls) < m
    ensures NoRun([c] + t, cls, m)
  {
    var r := [c] + t;
    forall i | 0 <= i < |r| ensures RunAt(r, i, cls) < m {
      if i > 0 {
        DropRight([c], t, i);
        assert RunAt(t, i - 1, cls) < m;
      } else {
        assert r[0..] == r;
      }
    }
  }

  /** A string with no long run is left unchanged by the replacement. */
  lemma {:induction false} CollapseIdentity(s: seq<char>, cls: CharClass, m: nat, repl: seq<char>)
    requires m >= 1 && NoRun(s, cls, m)
    ensures CollapseRuns(s, cls, m, repl) == s
    decreases |s|
  {
    if s != [] {
      assert s[0..] == s && RunAt(s, 0, cls) < m;
      forall i | 0 <= i < |s[1..]| ensures RunAt(s[1..], i, cls) < m {
        assert s[1..][i..] == s[i + 1..];
        assert RunAt(s, i + 1, cls) < m;
      }
      CollapseIdentity(s[1..], cls, m, repl);
    }
  }

  /** A slice of a string with no long run has no long run. */
  lemma {:induction false} NoRunSlice(s: seq<char>, a: nat, b: nat, cls: CharClass, m: nat)
    requires a <= b <= |s| && NoRun(s, cls, m)
    ensures NoRun(s[a..b], cls, m)
  {
    forall i | 0 <= i < b - a ensures RunAt(s[a..b], i, cls) < m {
      assert s[a..b][i..] == s[a + i..][..b - a - i];
      LeadingRunPrefix(s[a..b][i..], s[a + i..], cls);
      assert RunAt(s, a + i, cls) < m;
    }
  }

  /** Trimming does not create a run. */
  lemma {:induction false} TrimNoRun(s: seq<char>, m: nat)
    requires NoRun(s, Space, m)
    ensures NoRun(Trim(s), Space, m)
  {
    var r, lo := Trim(s), LeadingRun(s, Space);
    var hi := lo + |r|;
    assert r == s[lo..hi];
    NoRunSlice(s, lo, hi, Space, m);
  }

  /** The space character is white space. */
  lemma {:induction false} SpaceIsWs()
    ensures AllIn(" ", Space)
  {
    assert " "[0] == ' ';
  }

  /** The run condition spelt out for runs of two and three whitespace characters. */
  lemma {:induction false} NoRunAdjacent(s: seq<char>, m: nat)
    requires NoRun(s, Space, m) && (m == 2 || m == 3)
    ensures m == 2 ==> forall i :: 0 <= i < |s| - 1 ==> !(IsWs(s[i]) && IsWs(s[i + 1]))
    ensures m == 3 ==> forall i :: 0 <= i < |s| - 2 ==> !(IsWs(s[i]) && IsWs(s[i + 1]) && IsWs(s[i + 2]))
  {
    forall i | 0 <= i < |s| - 1 && IsWs(s[i]) && IsWs(s[i + 1])
      ensures RunAt(s, i, Space) >= 2
      ensures i < |s| - 2 && IsWs(s[i + 2]) ==> RunAt(s, i, Space) >= 3
    {
      assert s[i..][1..] == s[i + 1..];
      assert s[i + 1..][1..] == s[i + 2..];
    }
  }

  /** `s.replace(/x/g, y)` for a single character `x`. */
  function ReplaceChar(s: seq<char>, x: char, y: char): (r: seq<char>)
    ensures |r| == |s|
    ensures x != y ==> x !in r
    ensures x !in s ==> r == s
  {
    seq(|s|, i requires 0 <= i < |s| => if s[i] == x then y else s[i])
  }

  // ---------------------------------------------------------------- split and join

  /** `s.split(sep)` for a one-character separator: never empty, an empty string gives `[""]`. */
  function Split(s: seq<char>, sep: char): (r: seq<seq<char>>)
    ensures |r| >= 1
    ensures forall i :: 0 <= i < |r| ==> sep !in r[i]
    decreases |s|
  {
    if s == [] then [[]]
    else
      var rest := Split(s[1..], sep);
      if s[0] == sep then [[]] + rest
      else [[s[0]] + rest[0]] + rest[1..]
  }

  /** `parts.join(sep)`: an empty array gives the empty string. */
  function Join<T>(parts: seq<seq<T>>, sep: seq<T>): (r: seq<T>)
    ensures |parts| >= 1 ==> |r| + |sep| == JoinOffset(parts, sep, |parts|)
    decreases |parts|
  {
    if |parts| == 0 then []
    else if |parts| == 1 then parts[0]
    else parts[0] + sep + Join(parts[1..], sep)
  }

  lemma {:induction false} SplitPrefix(u: seq<char>, v: seq<char>, sep: char)
    requires sep !in u
    ensures Split(u + [sep] + v, sep) == [u] + Split(v, sep)
    ensures Split(u, sep) == [u]
    decreases |u|
  {
    if u == [] {
      assert [] + [sep] + v == [sep] + v;
      assert ([sep] + v)[1..] == v;
    } else {
      assert (u + [sep] + v)[1..] == u[1..] + [sep] + v;
      SplitPrefix(u[1..], v, sep);
      assert [u[0]] + u[1..] == u;
    }
  }

  /** Splitting a join gives back the parts, when no part holds the separator. */
  lemma {:induction false} SplitJoin(parts: seq<seq<char>>, sep: char)
    requires |parts| >= 1
    requires forall i :: 0 <= i < |parts| ==> sep !in parts[i]
    ensures Split(Join(parts, [sep]), sep) == parts
    decreases |parts|
  {
    if |parts| == 1 {
      SplitPrefix(parts[0], [], sep);
    } else {
      SplitJoin(parts[1..], sep);
      SplitPrefix(parts[0], Join(parts[1..], [sep]), sep);
      assert [parts[0]] + parts[1..] == parts;
    }
  }

  /** Joining a split gives back the string. */
  lemma {:induction false} JoinSplit(s: seq<char>, sep: char)
    ensures Join(Split(s, sep), [sep]) == s
    decreases |s|
  {
    if s != [] {
      var rest := Split(s[1..], sep);
      JoinSplit(s[1..], sep);
      if s[0] == sep {
        assert ([[]] + rest)[1..] == rest;
      } else {
        var r := [[s[0]] + rest[0]] + rest[1..];
        if |rest| == 1 {
          assert r == [[s[0]] + rest[0]];
        } else {
          assert r[1..] == rest[1..];
        }
      }
    }
  }

  /** Where part `i` starts in `Join(parts, sep)`. */
  function JoinOffset<T>(parts: seq<seq<T>>, sep: seq<T>, i: nat): nat
    requires i <= |parts|
    decreases i
  {
    if i == 0 then 0 else |parts[0]| + |sep| + JoinOffset(parts[1..], sep, i - 1)
  }

  lemma {:induction false} JoinOffsetStep<T>(parts: seq<seq<T>>, sep: seq<T>, i: nat)
    requires i < |parts|
    ensures JoinOffset(parts, sep, i + 1) == JoinOffset(parts, sep, i) + |parts[i]| + |sep|
    decreases i
  {
    if i > 0 {
      JoinOffsetStep(parts[1..], sep, i - 1);
    }
  }

  /** Part `i` sits verbatim at its offset. */
  lemma {:induction false} JoinPart<T>(parts: seq<seq<T>>, sep: seq<T>, i: nat)
    requires i < |parts|
    ensures JoinOffset(parts, sep, i) + |parts[i]| <= |Join(parts, sep)|
    ensures Join(parts, sep)[JoinOffset(parts, sep, i)..JoinOffset(parts, sep, i) + |parts[i]|] == parts[i]
    decreases |parts|
  {
    if i == 0 {
      JoinHead(parts, sep);
    } else {
      JoinPart(parts[1..], sep, i - 1);
      JoinShift(parts, sep, JoinOffset(parts[1..], sep, i - 1), |parts[i]|);
    }
  }

  lemma {:induction false} JoinHead<T>(parts: seq<seq<T>>, sep: seq<T>)
    requires |parts| >= 1
    ensures |parts[0]| <= |Join(parts, sep)| && Join(parts, sep)[..|parts[0]|] == parts[0]
  {
    if |parts| > 1 {
      AppendAssoc(parts[0], sep, Join(parts[1..], sep));
      SliceLeft(parts[0], sep + Join(parts[1..], sep));
    }
  }

  /** A slice of the join of the later parts, seen in the whole join. */
  lemma {:induction false} JoinShift<T>(parts: seq<seq<T>>, sep: seq<T>, o: nat, len: nat)
    requires |parts| > 1 && o + len <= |Join(parts[1..], sep)|
    ensures var d := |parts[0]| + |sep|;
      d + o + len <= |Join(parts, sep)|
      && Join(parts, sep)[d + o..d + o + len] == Join(parts[1..], sep)[o..o + len]
  {
    SliceRight(parts[0] + sep, Join(parts[1..], sep), o, len);
  }

  /** Exactly one separator follows every part but the last. */
  lemma {:induction false} JoinSeparator<T>(parts: seq<seq<T>>, sep: seq<T>, i: nat)
    requires i + 1 < |parts|
    ensures JoinOffset(parts, sep, i) + |parts[i]| + |sep| <= |Join(parts, sep)|
    ensures Join(parts, sep)[JoinOffset(parts, sep, i) + |parts[i]|..JoinOffset(parts, sep, i) + |parts[i]| + |sep|] == sep
    decreases |parts|
  {
    if i == 0 {
      JoinFirstSeparator(parts, sep);
    } else {
      JoinSeparator(parts[1..], sep, i - 1);
      JoinShift(parts, sep, JoinOffset(parts[1..], sep, i - 1) + |parts[i]|, |sep|);
    }
  }

  lemma {:induction false} JoinFirstSeparator<T>(parts: seq<seq<T>>, sep: seq<T>)
    requires |parts| > 1
    ensures |parts[0]| + |sep| <= |Join(parts, sep)|
      && Join(parts, sep)[|parts[0]|..|parts[0]| + |sep|] == sep
  {
    var tail := Join(parts[1..], sep);
    SliceRight(parts[0], sep + tail, 0, |sep|);
    AppendAssoc(parts[0], sep, tail);
    SliceLeft(sep, tail);
  }

  // ---------------------------------------------------------------- slice

  /** `s.slice(from, to)` for non-negative arguments: both ends are clamped to the length,
      and the result is empty when `from >= to`. */
  function JsSlice(s: seq<char>, from: nat, to: nat): (r: seq<char>)
    ensures |r| <= to - from || |r| == 0
    ensures |r| > 0 ==> from + |r| <= |s| && r == s[from..from + |r|]
    ensures to <= |s| && from <= to ==> r == s[from..to]
    ensures from < |s| && from < to ==> r == s[from..Min(to, |s|)]
    ensures from >= |s| || from >= to ==> r == []
  {
    var a := Min(from, |s|);
    var b := Min(to, |s|);
    if a >= b then [] else s[a..b]
  }

  // ---------------------------------------------------------------- decimal numbers

  function DigitChar(d: nat): (c: char)
    requires d < 10
    ensures IsDigit(c)
  {
    (('0' as int) + d) as char
  }

  function DigitValue(c: char): nat
  {
    if IsDigit(c) then (c as int) - ('0' as int) else 0
  }

  /** The decimal text of a natural number, as `${n}` renders it. */
  function NatToString(n: nat): (r: seq<char>)
    ensures |r| >= 1
    ensures forall i :: 0 <= i < |r| ==> IsDigit(r[i])
    ensures n > 0 ==> r[0] != '0'
    decreases n
  {
    if n < 10 then [DigitChar(n)] else NatToString(n / 10) + [DigitChar(n % 10)]
  }

  /** Reads a string of decimal digits back as a number. */
  function ParseNat(s: seq<char>): nat
    decreases |s|
  {
    if s == [] then 0 else 10 * ParseNat(s[..|s| - 1]) + DigitValue(s[|s| - 1])
  }

  /** The decimal rendering loses nothing. */
  lemma {:induction false} ParseNatToString(n: nat)
    ensures ParseNat(NatToString(n)) == n
    decreases n
  {
    var r := NatToString(n);
    if n >= 10 {
      ParseNatToString(n / 10);
      assert r[..|r| - 1] == NatToString(n / 10);
    }
  }

  /** So different numbers render differently. */
  lemma {:induction false} NatToStringInjective(a: nat, b: nat)
    requires a != b
    ensures NatToString(a) != NatToString(b)
  {
    ParseNatToString(a);
    ParseNatToString(b);
  }

  // ---------------------------------------------------------------- visible characters

  /** The characters of `s` that are not white space, in order. */
  function Visible(s: seq<char>): seq<char>
    decreases |s|
  {
    if s == [] then [] else (if IsWs(s[0]) then [] else [s[0]]) + Visible(s[1..])
  }

  lemma {:induction false} VisibleAppend(a: seq<char>, b: seq<char>)
    ensures Visible(a + b) == Visible(a) + Visible(b)
    decreases |a|
  {
    if a == [] {
      assert a + b == b;
    } else {
      assert (a + b)[1..] == a[1..] + b;
      VisibleAppend(a[1..], b);
    }
  }

  lemma {:induction false} VisibleBlank(s: seq<char>)
    requires AllIn(s, Space)
    ensures Visible(s) == []
    decreases |s|
  {
    if s != [] {
      VisibleBlank(s[1..]);
    }
  }

  lemma {:induction false} VisibleReplace(s: seq<char>)
    ensures Visible(ReplaceChar(s, '\n', ' ')) == Visible(s)
    decreases |s|
  {
    if s != [] {
      var t := ReplaceChar(s, '\n', ' ');
      assert t[1..] == ReplaceChar(s[1..], '\n', ' ');
      assert IsWs('\n') && IsWs(' ');
      VisibleReplace(s[1..]);
    }
  }

  lemma {:induction false} VisibleCollapse(s: seq<char>, m: nat, repl: seq<char>)
    requires m >= 1 && AllIn(repl, Space)
    ensures Visible(CollapseRuns(s, Space, m, repl)) == Visible(s)
    decreases |s|
  {
    if s != [] {
      var k := LeadingRun(s, Space);
      if k >= m {
        var rest := CollapseRuns(s[k..], Space, m, repl);
        VisibleCollapse(s[k..], m, repl);
        VisibleAppend(repl, rest);
        VisibleBlank(repl);
        assert s == s[..k] + s[k..];
        VisibleAppend(s[..k], s[k..]);
        VisibleBlank(s[..k]);
      } else {
        var rest := CollapseRuns(s[1..], Space, m, repl);
        VisibleCollapse(s[1..], m, repl);
        assert ([s[0]] + rest)[1..] == rest;
      }
    }
  }

  /** Cutting white space off both ends leaves the visible characters alone. */
  lemma {:induction false} VisibleBetween(s: seq<char>, lo: nat, hi: nat)
    requires lo <= hi <= |s| && AllIn(s[..lo], Space) && AllIn(s[hi..], Space)
    ensures Visible(s[lo..hi]) == Visible(s)
  {
    assert s == s[..lo] + s[lo..hi] + s[hi..];
    VisibleAppend(s[..lo] + s[lo..hi], s[hi..]);
    VisibleAppend(s[..lo], s[lo..hi]);
    VisibleBlank(s[..lo]);
    VisibleBlank(s[hi..]);
  }

  lemma {:induction false} VisibleTrim(s: seq<char>)
    ensures Visible(Trim(s)) == Visible(s)
  {
    var r, lo := Trim(s), LeadingRun(s, Space);
    var hi := lo + |r|;
    assert r == s[lo..hi];
    VisibleBetween(s, lo, hi);
  }

  /** The visible characters of each part, one part after the other. */
  function VisibleConcat(parts: seq<seq<char>>): seq<char>
    decreases |parts|
  {
    if parts == [] then [] else Visible(parts[0]) + VisibleConcat(parts[1..])
  }

  /** Joining with line breaks adds no visible character. */
  lemma {:induction false} VisibleJoinNewline(parts: seq<seq<char>>)
    ensures Visible(Join(parts, "\n")) == VisibleConcat(parts)
    decreases |parts|
  {
    if |parts| == 1 {
      assert parts[1..] == [];
    } else if |parts| > 1 {
      var rest := Join(parts[1..], "\n");
      VisibleJoinNewline(parts[1..]);
      VisibleAppend(parts[0] + "\n", rest);
      VisibleAppend(parts[0], "\n");
      assert IsWs('\n');
    }
  }

  // ---------------------------------------------------------------- words

  /** Length of the word that opens `s`: its longest prefix without white space. */
  function WordLength(s: seq<char>): (n: nat)
    ensures n <= |s|
    ensures forall i :: 0 <= i < n ==> !IsWs(s[i])
    ensures n < |s| ==> IsWs(s[n])
    decreases |s|
  {
    if s == [] || IsWs(s[0]) then 0
    else
      var n := WordLength(s[1..]);
      assert forall i :: 1 <= i < n + 1 ==> s[i] == s[1..][i - 1];
      1 + n
  }

  /** The words of `s`: its maximal runs of non-white-space characters, in order. */
  function Words(s: seq<char>): seq<seq<char>>
    decreases |s|
  {
    if s == [] then []
    else if IsWs(s[0]) then Words(s[1..])
    else
      var n := WordLength(s);
      [s[..n]] + Words(s[n..])
  }

  lemma {:induction false} WordLengthExact(s: seq<char>, n: nat)
    requires n <= |s| && (n < |s| ==> IsWs(s[n]))
    requires forall i :: 0 <= i < n ==> !IsWs(s[i])
    ensures WordLength(s) == n
    decreases n
  {
    if n > 0 {
      assert s[1..][n - 1..] == s[n..];
      WordLengthExact(s[1..], n - 1);
    }
  }

  /** White space holds no word. */
  lemma {:induction false} WordsBlank(s: seq<char>)
    requires AllIn(s, Space)
    ensures Words(s) == []
    decreases |s|
  {
    if s != [] {
      assert InClass(s[0], Space);
      WordsBlank(s[1..]);
    }
  }

  /** Words do not run across white space at the seam of a concatenation. */
  lemma {:induction false} WordsAppend(u: seq<char>, v: seq<char>)
    requires u == [] || v == [] || IsWs(u[|u| - 1]) || IsWs(v[0])
    ensures Words(u + v) == Words(u) + Words(v)
    decreases |u|
  {
    if u == [] {
      assert u + v == v;
    } else if v == [] {
      assert u + v == u;
    } else if IsWs(u[0]) {
      WordsAppend(u[1..], v);
      WordsAppendSpace(u, v);
    } else {
      var n := WordLength(u);
      WordsAppend(u[n..], v);
      WordsAppendWord(u, v, n);
    }
  }

  lemma {:induction false} WordsAppendSpace(u: seq<char>, v: seq<char>)
    requires u != [] && IsWs(u[0]) && Words(u[1..] + v) == Words(u[1..]) + Words(v)
    ensures Words(u + v) == Words(u) + Words(v)
  {
    var w := u + v;
    assert w[0] == u[0] && w[1..] == u[1..] + v;
  }

  lemma {:induction false} WordsAppendWord(u: seq<char>, v: seq<char>, n: nat)
    requires u != [] && v != [] && !IsWs(u[0]) && (IsWs(u[|u| - 1]) || IsWs(v[0]))
    requires n == WordLength(u) && Words(u[n..] + v) == Words(u[n..]) + Words(v)
    ensures Words(u + v) == Words(u) + Words(v)
  {
    var w := u + v;
    WordLengthExact(w, n);
    assert w[..n] == u[..n] && w[n..] == u[n..] + v;
    AppendAssoc([u[..n]], Words(u[n..]), Words(v));
  }

  /** The word that opens `u` is the one that opens `u + v` when `v` starts with white
      space or is empty. */
  lemma {:induction false} WordsWordFirst(u: seq<char>, v: seq<char>)
    requires u != [] && forall i :: 0 <= i < |u| ==> !IsWs(u[i])
    requires v == [] || IsWs(v[0])
    ensures Words(u + v) == [u] + Words(v)
  {
    var w := u + v;
    WordLengthExact(w, |u|);
    assert w[..|u|] == u && w[|u|..] == v;
  }

  /** Replacing runs of white space with non-empty white space keeps every word. */
  lemma {:induction false} WordsCollapse(s: seq<char>, m: nat, repl: seq<char>)
    requires m >= 1 && repl != [] && AllIn(repl, Space)
    ensures Words(CollapseRuns(s, Space, m, repl)) == Words(s)
    decreases |s|
  {
    if s != [] {
      var k := LeadingRun(s, Space);
      if k >= m {
        WordsCollapse(s[k..], m, repl);
        WordsCollapseRun(s, m, repl, k);
      } else if IsWs(s[0]) {
        WordsCollapse(s[1..], m, repl);
        WordsCollapseSpace(s, m, repl);
      } else {
        var n := WordLength(s);
        WordsCollapse(s[n..], m, repl);
        WordsCollapseWord(s, m, repl, n);
      }
    }
  }

  lemma {:induction false} WordsCollapseRun(s: seq<char>, m: nat, repl: seq<char>, k: nat)
    requires m >= 1 && repl != [] && AllIn(repl, Space)
    requires s != [] && k == LeadingRun(s, Space) && k >= m
    requires Words(CollapseRuns(s[k..], Space, m, repl)) == Words(s[k..])
    ensures Words(CollapseRuns(s, Space, m, repl)) == Words(s)
  {
    var rest := CollapseRuns(s[k..], Space, m, repl);
    assert CollapseRuns(s, Space, m, repl) == repl + rest;
    WordsAppend(repl, rest);
    WordsBlank(repl);
    assert s == s[..k] + s[k..];
    WordsAppend(s[..k], s[k..]);
    WordsBlank(s[..k]);
  }

  lemma {:induction false} WordsCollapseSpace(s: seq<char>, m: nat, repl: seq<char>)
    requires m >= 1 && s != [] && IsWs(s[0]) && LeadingRun(s, Space) < m
    requires Words(CollapseRuns(s[1..], Space, m, repl)) == Words(s[1..])
    ensures Words(CollapseRuns(s, Space, m, repl)) == Words(s)
  {
    var rest := CollapseRuns(s[1..], Space, m, repl);
    var r := [s[0]] + rest;
    assert CollapseRuns(s, Space, m, repl) == r;
    assert r[0] == s[0] && r[1..] == rest;
  }

  lemma {:induction false} WordsCollapseWord(s: seq<char>, m: nat, repl: seq<char>, n: nat)
    requires m >= 1 && repl != [] && AllIn(repl, Space) && s != [] && !IsWs(s[0])
    requires n == WordLength(s) && Words(CollapseRuns(s[n..], Space, m, repl)) == Words(s[n..])
    ensures Words(CollapseRuns(s, Space, m, repl)) == Words(s)
  {
    var tail := s[n..];
    forall j | 0 <= j < n ensures RunAt(s, j, Space) < m {
      assert s[j..][0] == s[j];
    }
    CollapsePrefix(s, Space, m, repl, n);
    var rest := CollapseRuns(tail, Space, m, repl);
    if tail != [] {
      assert tail[0] == s[n];
      CollapseLeadingRun(tail, Space, m, repl);
      assert rest[..1][0] == rest[0];
    }
    WordsWordFirst(s[..n], rest);
  }

  /** Trimming keeps every word. */
  lemma {:induction false} WordsTrim(s: seq<char>)
    ensures Words(Trim(s)) == Words(s)
  {
    var r, lo := Trim(s), LeadingRun(s, Space);
    var hi := lo + |r|;
    assert r == s[lo..hi];
    assert s == s[..lo] + (r + s[hi..]);
    WordsBetween(s[..lo], r, s[hi..]);
  }

  /** White space around a string adds no word. */
  lemma {:induction false} WordsBetween(a: seq<char>, r: seq<char>, b: seq<char>)
    requires AllIn(a, Space) && AllIn(b, Space)
    ensures Words(a + (r + b)) == Words(r)
  {
    if b != [] {
      assert InClass(b[0], Space);
    }
    WordsAppend(r, b);
    WordsBlank(b);
    if a != [] {
      assert InClass(a[|a| - 1], Space);
    }
    WordsAppend(a, r + b);
    WordsBlank(a);
  }

  /** Words depend only on where white space is and on the other characters. */
  predicate SameShape(s: seq<char>, t: seq<char>)
  {
    |s| == |t| && forall i :: 0 <= i < |s| ==> IsWs(s[i]) == IsWs(t[i]) && (!IsWs(s[i]) ==> s[i] == t[i])
  }

  lemma {:induction false} SameShapeDrop(s: seq<char>, t: seq<char>, k: nat)
    requires SameShape(s, t) && k <= |s|
    ensures SameShape(s[k..], t[k..]) && (forall i :: 0 <= i < k ==> IsWs(s[i]) == IsWs(t[i]))
  {
    forall i | 0 <= i < |s| - k ensures IsWs(s[k..][i]) == IsWs(t[k..][i]) {
      assert s[k..][i] == s[k + i] && t[k..][i] == t[k + i];
    }
  }

  lemma {:induction false} WordsSameShape(s: seq<char>, t: seq<char>)
    requires SameShape(s, t)
    ensures Words(s) == Words(t)
    decreases |s|
  {
    if s != [] {
      if IsWs(s[0]) {
        SameShapeDrop(s, t, 1);
        WordsSameShape(s[1..], t[1..]);
      } else {
        var n := WordLength(s);
        WordLengthExact(t, n);
        assert s[..n] == t[..n];
        SameShapeDrop(s, t, n);
        WordsSameShape(s[n..], t[n..]);
      }
    }
  }

  /** Turning line breaks into spaces keeps every word. */
  lemma {:induction false} WordsReplace(s: seq<char>)
    ensures Words(ReplaceChar(s, '\n', ' ')) == Words(s)
  {
    assert IsWs('\n') && IsWs(' ');
    WordsSameShape(ReplaceChar(s, '\n', ' '), s);
  }
}
