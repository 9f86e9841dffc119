/**
 * The three regular expressions of the ingestion script, written as token patterns:
 *
 *   header        /3\s*avril\s*2022\s+JOURNAL\s+OFFICIEL\s+DE\s+LA\s+RÉPUBLIQUE\s+FRANÇAISE\s+Texte\s+27\s+sur\s+92/g
 *   page marker   /--\s*\d+\s+of\s+\d+\s*--/g
 *   sentence end  /[.;]\s+[A-ZÀ-Ü]/
 *
 * `InLang` is the language a pattern denotes; `MatchAt` is a greedy left-to-right matcher.
 * For a well-formed pattern (every quantified class is followed by something that cannot
 * start with a character of that class) the two agree and a match at a position is unique,
 * so any backtracking engine, the JavaScript one included, finds exactly the match
 * `MatchAt` computes.
 */
module Patterns {
  import opened Wrappers
  import opened JsText

  datatype Token =
    | Lit(text: seq<char>)    // a literal string
    | One(cls: CharClass)     // one character of the class
    | Star(cls: CharClass)    // any number of characters of the class, greedy
    | Plus(cls: CharClass)    // at least one character of the class, greedy

  /** `w` as a whole is matched by `p`. */
  predicate InLang(w: seq<char>, p: seq<Token>)
    decreases |p|, |w|
  {
    if p == [] then w == []
    else match p[0]
      case Lit(t) => |t| <= |w| && w[..|t|] == t && InLang(w[|t|..], p[1..])
      case One(c) => |w| >= 1 && InClass(w[0], c) && InLang(w[1..], p[1..])
      case Star(c) => InLang(w, p[1..]) || (|w| >= 1 && InClass(w[0], c) && InLang(w[1..], p))
      case Plus(c) => |w| >= 1 && InClass(w[0], c) && InLang(w[1..], [Star(c)] + p[1..])
  }

  function Shift(r: Option<nat>, k: nat): Option<nat>
  {
    if r.Some? then Some(r.value + k) else None
  }

  /** Length of the match of `p` at the start of `s`: each quantified class takes its whole run. */
  function MatchAt(s: seq<char>, p: seq<Token>): (r: Option<nat>)
    ensures r.Some? ==> r.value <= |s|
    decreases |p|
  {
    if p == [] then Some(0)
    else match p[0]
      case Lit(t) =>
        if |t| <= |s| && s[..|t|] == t then Shift(MatchAt(s[|t|..], p[1..]), |t|) else None
      case One(c) =>
        if |s| >= 1 && InClass(s[0], c) then Shift(MatchAt(s[1..], p[1..]), 1) else None
      case Star(c) =>
        var k := LeadingRun(s, c);
        Shift(MatchAt(s[k..], p[1..]), k)
      case Plus(c) =>
        var k := LeadingRun(s, c);
        if k >= 1 then Shift(MatchAt(s[k..], p[1..]), k) else None
  }

  // ---------------------------------------------------------------- well-formed patterns

  /** Classes that share no character. */
  predicate Disjoint(a: CharClass, b: CharClass)
  {
    a != b && !(a == Space && b == Newline) && !(a == Newline && b == Space)
  }

  lemma {:induction false} DisjointSound(a: CharClass, b: CharClass, c: char)
    requires Disjoint(a, b)
    ensures !(InClass(c, a) && InClass(c, b))
  {
    PrintableNotWs();
  }

  /** No word of `q` can start with a character of `c`. */
  predicate ExcludesFirst(q: seq<Token>, c: CharClass)
    decreases |q|
  {
    q != [] &&
    match q[0]
    case Lit(t) => |t| > 0 && !InClass(t[0], c)
    case One(d) => Disjoint(d, c)
    case Plus(d) => Disjoint(d, c)
    case Star(d) => Disjoint(d, c) && ExcludesFirst(q[1..], c)
  }

  predicate WellFormed(p: seq<Token>)
  {
    && (forall i :: 0 <= i < |p| && p[i].Lit? ==> |p[i].text| > 0)
    && (forall i :: 0 <= i < |p| && (p[i].Star? || p[i].Plus?) ==> ExcludesFirst(p[i + 1..], p[i].cls))
  }

  lemma {:induction false} WellFormedTail(p: seq<Token>)
    requires p != [] && WellFormed(p)
    ensures WellFormed(p[1..])
  {
    forall i | 0 <= i < |p| - 1 && (p[1..][i].Star? || p[1..][i].Plus?)
      ensures ExcludesFirst(p[1..][i + 1..], p[1..][i].cls)
    {
      assert p[1..][i + 1..] == p[i + 2..];
    }
  }

  // ---------------------------------------------------------------- soundness

  /** A run of the class followed by a word of `q` is a word of `Star(c)` then `q`. */
  lemma {:induction false} StarIntro(u: seq<char>, v: seq<char>, c: CharClass, q: seq<Token>)
    requires AllIn(u, c) && InLang(v, q)
    ensures InLang(u + v, [Star(c)] + q)
    decreases |u|
  {
    assert ([Star(c)] + q)[1..] == q;
    if u == [] {
      assert u + v == v;
    } else {
      StarIntro(u[1..], v, c, q);
      assert (u + v)[1..] == u[1..] + v;
    }
  }

  /** The match after the first token, when the whole pattern matches. */
  function RestMatch(s: seq<char>, p: seq<Token>): (r: (nat, nat))
    requires p != [] && MatchAt(s, p).Some?
    ensures r.0 <= |s| && MatchAt(s[r.0..], p[1..]).Some?
    ensures MatchAt(s, p).value == r.0 + r.1 && r.1 == MatchAt(s[r.0..], p[1..]).value
  {
    match p[0]
    case Lit(t) => (|t|, MatchAt(s[|t|..], p[1..]).value)
    case One(c) => (1, MatchAt(s[1..], p[1..]).value)
    case Star(c) => (LeadingRun(s, c), MatchAt(s[LeadingRun(s, c)..], p[1..]).value)
    case Plus(c) => (LeadingRun(s, c), MatchAt(s[LeadingRun(s, c)..], p[1..]).value)
  }

  lemma {:induction false} SoundLit(s: seq<char>, t: seq<char>, q: seq<Token>, n: nat)
    requires |t| <= |s| && s[..|t|] == t && n <= |s| - |t| && InLang(s[|t|..][..n], q)
    ensures InLang(s[..|t| + n], [Lit(t)] + q)
  {
    var w := s[..|t| + n];
    assert ([Lit(t)] + q)[0] == Lit(t) && ([Lit(t)] + q)[1..] == q;
    assert w[..|t|] == t;
    assert w[|t|..] == s[|t|..][..n];
  }

  lemma {:induction false} SoundOne(s: seq<char>, c: CharClass, q: seq<Token>, n: nat)
    requires 1 <= |s| && InClass(s[0], c) && n <= |s| - 1 && InLang(s[1..][..n], q)
    ensures InLang(s[..1 + n], [One(c)] + q)
  {
    var w := s[..1 + n];
    assert ([One(c)] + q)[0] == One(c) && ([One(c)] + q)[1..] == q;
    assert w[1..] == s[1..][..n];
  }

  lemma {:induction false} SoundStar(s: seq<char>, c: CharClass, q: seq<Token>, k: nat, n: nat)
    requires k <= |s| && AllIn(s[..k], c) && n <= |s| - k && InLang(s[k..][..n], q)
    ensures InLang(s[..k + n], [Star(c)] + q)
  {
    assert s[..k + n] == s[..k] + s[k..][..n];
    StarIntro(s[..k], s[k..][..n], c, q);
  }

  lemma {:induction false} SoundPlus(s: seq<char>, c: CharClass, q: seq<Token>, k: nat, n: nat)
    requires 1 <= k <= |s| && AllIn(s[..k], c) && n <= |s| - k && InLang(s[k..][..n], q)
    ensures InLang(s[..k + n], [Plus(c)] + q)
  {
    var w := s[..k + n];
    assert ([Plus(c)] + q)[0] == Plus(c) && ([Plus(c)] + q)[1..] == q;
    assert s[..k][0] == s[0];
    assert w[1..] == s[1..k] + s[k..][..n];
    assert AllIn(s[1..k], c) by {
      forall i | 0 <= i < k - 1 ensures InClass(s[1..k][i], c) {
        assert s[1..k][i] == s[..k][i + 1];
      }
    }
    StarIntro(s[1..k], s[k..][..n], c, q);
  }

  /** What the matcher consumes is a word of the pattern. */
  lemma {:induction false} MatchAtSound(s: seq<char>, p: seq<Token>)
    requires MatchAt(s, p).Some?
    ensures InLang(s[..MatchAt(s, p).value], p)
    decreases |p|
  {
    if p != [] {
      var (k, n) := RestMatch(s, p);
      MatchAtSound(s[k..], p[1..]);
      var q := p[1..];
      HeadTail(p);
      match p[0]
      case Lit(t) => SoundLit(s, t, q, n);
      case One(c) => SoundOne(s, c, q, n);
      case Star(c) => SoundStar(s, c, q, k, n);
      case Plus(c) => SoundPlus(s, c, q, k, n);
    }
  }

  // ---------------------------------------------------------------- completeness

  /** A word of `Star(c)` then `q` splits into a run of the class and a word of `q`. */
  lemma {:induction false} StarElim(w: seq<char>, c: CharClass, q: seq<Token>) returns (j: nat)
    requires InLang(w, [Star(c)] + q)
    ensures j <= |w| && AllIn(w[..j], c) && InLang(w[j..], q)
    decreases |w|
  {
    assert ([Star(c)] + q)[0] == Star(c) && ([Star(c)] + q)[1..] == q;
    if InLang(w, q) {
      j := 0;
      assert w[0..] == w;
    } else {
      var j' := StarElim(w[1..], c, q);
      j := j' + 1;
      assert w[j..] == w[1..][j'..];
      assert w[..j] == [w[0]] + w[1..][..j'];
    }
  }

  /** A word of a pattern that excludes `c` at the start is not empty and does not start with `c`. */
  lemma {:induction false} FirstExcluded(v: seq<char>, q: seq<Token>, c: CharClass)
    requires ExcludesFirst(q, c) && InLang(v, q)
    ensures |v| >= 1 && !InClass(v[0], c)
    decreases |q|
  {
    match q[0]
    case Lit(t) =>
      assert v[0] == v[..|t|][0];
    case One(d) =>
      DisjointSound(d, c, v[0]);
    case Plus(d) =>
      DisjointSound(d, c, v[0]);
    case Star(d) =>
      if InLang(v, q[1..]) {
        FirstExcluded(v, q[1..], c);
      } else {
        DisjointSound(d, c, v[0]);
      }
  }

  /** The run a quantified class takes in any word is the whole run at the start of `s`. */
  lemma {:induction false} RunIsMaximal(s: seq<char>, n: nat, j: nat, c: CharClass, q: seq<Token>)
    requires n <= |s| && j <= n
    requires AllIn(s[..n][..j], c) && InLang(s[..n][j..], q) && ExcludesFirst(q, c)
    ensures j == LeadingRun(s, c)
  {
    FirstExcluded(s[..n][j..], q, c);
    assert s[..n][j..][0] == s[j];
    assert forall i :: 0 <= i < j ==> s[..n][..j][i] == s[i];
    LeadingRunExact(s, j, c);
  }

  lemma {:induction false} CompleteLit(s: seq<char>, t: seq<char>, q: seq<Token>, n: nat)
    requires n <= |s| && InLang(s[..n], [Lit(t)] + q)
    ensures |t| <= n && s[..|t|] == t && InLang(s[|t|..][..n - |t|], q)
  {
    var w := s[..n];
    assert ([Lit(t)] + q)[0] == Lit(t) && ([Lit(t)] + q)[1..] == q;
    assert s[..|t|] == w[..|t|];
    assert w[|t|..] == s[|t|..][..n - |t|];
  }

  lemma {:induction false} CompleteOne(s: seq<char>, c: CharClass, q: seq<Token>, n: nat)
    requires n <= |s| && InLang(s[..n], [One(c)] + q)
    ensures 1 <= n && InClass(s[0], c) && InLang(s[1..][..n - 1], q)
  {
    var w := s[..n];
    assert ([One(c)] + q)[0] == One(c) && ([One(c)] + q)[1..] == q;
    assert w[1..] == s[1..][..n - 1];
  }

  lemma {:induction false} CompleteStar(s: seq<char>, c: CharClass, q: seq<Token>, n: nat)
    requires n <= |s| && InLang(s[..n], [Star(c)] + q) && ExcludesFirst(q, c)
    ensures LeadingRun(s, c) <= n && InLang(s[LeadingRun(s, c)..][..n - LeadingRun(s, c)], q)
  {
    var w := s[..n];
    var j := StarElim(w, c, q);
    RunIsMaximal(s, n, j, c, q);
    assert w[j..] == s[j..][..n - j];
  }

  /** A word of `Plus(c)` then `q` splits into a non-empty run of the class and a word of `q`. */
  lemma {:induction false} PlusElim(w: seq<char>, c: CharClass, q: seq<Token>) returns (j: nat)
    requires InLang(w, [Plus(c)] + q)
    ensures 1 <= j <= |w| && AllIn(w[..j], c) && InLang(w[j..], q)
  {
    assert ([Plus(c)] + q)[0] == Plus(c) && ([Plus(c)] + q)[1..] == q;
    assert InClass(w[0], c) && InLang(w[1..], [Star(c)] + q);
    var j' := StarElim(w[1..], c, q);
    j := j' + 1;
    assert w[..j] == [w[0]] + w[1..][..j'];
    assert w[j..] == w[1..][j'..];
  }

  lemma {:induction false} CompletePlus(s: seq<char>, c: CharClass, q: seq<Token>, n: nat)
    requires n <= |s| && InLang(s[..n], [Plus(c)] + q) && ExcludesFirst(q, c)
    ensures 1 <= LeadingRun(s, c) <= n && InLang(s[LeadingRun(s, c)..][..n - LeadingRun(s, c)], q)
  {
    var w := s[..n];
    var j := PlusElim(w, c, q);
    RunIsMaximal(s, n, j, c, q);
    assert w[j..] == s[j..][..n - j];
  }

  /** For a well-formed pattern every word at the start of `s` is the one the matcher finds. */
  lemma {:induction false} MatchAtComplete(s: seq<char>, p: seq<Token>, n: nat)
    requires WellFormed(p) && n <= |s| && InLang(s[..n], p)
    ensures MatchAt(s, p) == Some(n)
    decreases |p|
  {
    if p != [] {
      WellFormedTail(p);
      var k := FirstTake(s, p, n);
      MatchAtComplete(s[k..], p[1..], n - k);
      MatchStep(s, p, k, n);
    }
  }

  /** In a word of a well-formed pattern, the first token spans exactly what the matcher
      takes for it. */
  lemma {:induction false} FirstTake(s: seq<char>, p: seq<Token>, n: nat) returns (k: nat)
    requires p != [] && WellFormed(p) && n <= |s| && InLang(s[..n], p)
    ensures k <= n && Takes(s, p[0], k) && InLang(s[k..][..n - k], p[1..])
  {
    HeadTail(p);
    match p[0]
    case Lit(t) =>
      CompleteLit(s, t, p[1..], n);
      k := |t|;
    case One(c) =>
      CompleteOne(s, c, p[1..], n);
      k := 1;
    case Star(c) =>
      CompleteStar(s, c, p[1..], n);
      k := LeadingRun(s, c);
    case Plus(c) =>
      CompletePlus(s, c, p[1..], n);
      k := LeadingRun(s, c);
  }

  /** The matcher takes `k` characters for the first token and the rest of the match
      for the other tokens. */
  lemma {:induction false} MatchStep(s: seq<char>, p: seq<Token>, k: nat, n: nat)
    requires p != [] && k <= n <= |s| && MatchAt(s[k..], p[1..]) == Some(n - k)
    requires Takes(s, p[0], k)
    ensures MatchAt(s, p) == Some(n)
  {
  }

  /** The matcher takes `k` characters of `s` for the token. */
  predicate Takes(s: seq<char>, tok: Token, k: nat)
  {
    match tok
    case Lit(t) => k == |t| <= |s| && s[..k] == t
    case One(c) => k == 1 <= |s| && InClass(s[0], c)
    case Star(c) => k == LeadingRun(s, c)
    case Plus(c) => k == LeadingRun(s, c) && k >= 1
  }

  /** For a well-formed pattern: the matcher succeeds with length `n` exactly when the
      first `n` characters form a word of the pattern; so the match is unique. */
  lemma {:induction false} MatchAtIff(s: seq<char>, p: seq<Token>, n: nat)
    requires WellFormed(p) && n <= |s|
    ensures MatchAt(s, p) == Some(n) <==> InLang(s[..n], p)
  {
    if MatchAt(s, p) == Some(n) {
      MatchAtSound(s, p);
    }
    if InLang(s[..n], p) {
      MatchAtComplete(s, p, n);
    }
  }

  // ---------------------------------------------------------------- search and replace

  /** The match of `p` that starts at position `j` of `s`. */
  function MatchFrom(s: seq<char>, p: seq<Token>, j: nat): Option<nat>
    requires j <= |s|
  {
    MatchAt(s[j..], p)
  }

  /** `s.search(re)` from position `i` on: the first position where the pattern matches. */
  function SearchFrom(s: seq<char>, p: seq<Token>, i: nat): (r: Option<nat>)
    requires i <= |s|
    ensures r.Some? ==> i <= r.value <= |s| && MatchFrom(s, p, r.value).Some?
    ensures r.Some? ==> NoMatchIn(s, p, i, r.value)
    ensures r.None? ==> NoMatchIn(s, p, i, |s| + 1)
    decreases |s| - i
  {
    if MatchFrom(s, p, i).Some? then Some(i)
    else if i == |s| then None
    else
      var r := SearchFrom(s, p, i + 1);
      NoMatchExtend(s, p, i, if r.Some? then r.value else |s| + 1);
      r
  }

  /** The pattern matches at no position of `s` from `a` up to but excluding `b`. */
  predicate NoMatchIn(s: seq<char>, p: seq<Token>, a: nat, b: nat)
  {
    forall j :: a <= j < b && j <= |s| ==> MatchFrom(s, p, j).None?
  }

  lemma {:induction false} NoMatchExtend(s: seq<char>, p: seq<Token>, a: nat, b: nat)
    requires a <= |s| && MatchFrom(s, p, a).None? && NoMatchIn(s, p, a + 1, b)
    ensures NoMatchIn(s, p, a, b)
  {
  }

  /** `s.search(re)`; `None` stands for -1. */
  function Search(s: seq<char>, p: seq<Token>): Option<nat>
  {
    SearchFrom(s, p, 0)
  }

  /** A match of positive length starts at position `i`. */
  predicate MatchesAt(s: seq<char>, p: seq<Token>, i: nat)
  {
    i < |s| && MatchAt(s[i..], p).Some? && MatchAt(s[i..], p).value > 0
  }

  /** A match of positive length starts somewhere in `s`. */
  predicate HasMatch(s: seq<char>, p: seq<Token>)
  {
    exists i: nat :: i < |s| && MatchesAt(s, p, i)
  }

  /** `s.replace(re, '')` with the global flag: the scan is leftmost first, each match is
      deleted and the scan resumes after it; an empty match deletes nothing and the scan
      moves on by one character. */
  function RemoveAll(s: seq<char>, p: seq<Token>): (r: seq<char>)
    ensures |r| <= |s|
    decreases |s|
  {
    if s == [] then []
    else
      var m := MatchAt(s, p);
      if m.Some? && m.value > 0 then RemoveAll(s[m.value..], p)
      else [s[0]] + RemoveAll(s[1..], p)
  }

  /** A removal shortens the text exactly when there is something to remove: with a
      match of positive length somewhere the result is shorter, and without one the text
      comes back unchanged. */
  lemma {:induction false} RemoveAllShortens(s: seq<char>, p: seq<Token>)
    ensures HasMatch(s, p) ==> |RemoveAll(s, p)| < |s|
    ensures !HasMatch(s, p) ==> RemoveAll(s, p) == s
    decreases |s|
  {
    if s != [] {
      var m := MatchAt(s, p);
      if m.Some? && m.value > 0 {
        MatchesAtStart(s, p);
      } else {
        MatchesShift(s, p);
        RemoveAllShortens(s[1..], p);
        HeadTail(s);
      }
    }
  }

  /** No match of positive length starts before position `i`. */
  predicate NoMatchBefore(s: seq<char>, p: seq<Token>, i: nat)
  {
    forall j: nat :: j < i ==> !MatchesAt(s, p, j)
  }

  /** What a global removal deletes: the text before the first non-empty match is kept,
      the match is deleted, and the removal resumes right after it. */
  lemma {:induction false} RemoveFirst(s: seq<char>, p: seq<Token>, i: nat, n: nat)
    requires MatchesAt(s, p, i) && n == MatchAt(s[i..], p).value
    requires NoMatchBefore(s, p, i)
    ensures i + n <= |s| && RemoveAll(s, p) == s[..i] + RemoveAll(s[i + n..], p)
  {
    var u := s[i..];
    RemovePrefix(s, p, i);
    assert u[0..] == u;
    RemoveAtMatch(u, p);
    assert u[n..] == s[i + n..];
  }

  /** Text in which no match starts is kept as it is. */
  lemma {:induction false} RemovePrefix(s: seq<char>, p: seq<Token>, k: nat)
    requires k <= |s| && NoMatchBefore(s, p, k)
    ensures RemoveAll(s, p) == s[..k] + RemoveAll(s[k..], p)
    decreases k
  {
    if k == 0 {
      assert s[0..] == s;
    } else {
      RemovePrefix(s, p, k - 1);
      RemovePrefixStep(s, p, k);
    }
  }

  lemma {:induction false} RemovePrefixStep(s: seq<char>, p: seq<Token>, k: nat)
    requires 0 < k <= |s| && !MatchesAt(s, p, k - 1)
    ensures s[..k - 1] + RemoveAll(s[k - 1..], p) == s[..k] + RemoveAll(s[k..], p)
  {
    var u := s[k - 1..];
    assert u[0..] == u;
    RemoveSkip(u, p);
    assert u[1..] == s[k..];
    AppendAssoc(s[..k - 1], [s[k - 1]], RemoveAll(s[k..], p));
    assert s[..k - 1] + [s[k - 1]] == s[..k];
  }

  lemma {:induction false} RemoveAtMatch(s: seq<char>, p: seq<Token>)
    requires MatchesAt(s, p, 0)
    ensures var n := MatchAt(s[0..], p).value;
      n <= |s| && RemoveAll(s, p) == RemoveAll(s[n..], p)
  {
    assert s[0..] == s;
  }

  lemma {:induction false} RemoveSkip(s: seq<char>, p: seq<Token>)
    requires s != [] && !MatchesAt(s, p, 0)
    ensures RemoveAll(s, p) == [s[0]] + RemoveAll(s[1..], p)
  {
    if MatchAt(s, p).Some? && MatchAt(s, p).value > 0 {
      MatchesAtStart(s, p);
    }
  }

  lemma {:induction false} MatchesAtStart(s: seq<char>, p: seq<Token>)
    requires s != [] && MatchAt(s, p).Some? && MatchAt(s, p).value > 0
    ensures MatchesAt(s, p, 0)
  {
    assert s[0..] == s;
  }

  /** Without a match at the start, `s` has a match exactly when its tail has one. */
  lemma {:induction false} MatchesShift(s: seq<char>, p: seq<Token>)
    requires s != [] && !MatchesAt(s, p, 0)
    ensures HasMatch(s, p) <==> HasMatch(s[1..], p)
  {
    forall i: nat | MatchesAt(s[1..], p, i) ensures MatchesAt(s, p, i + 1) {
      assert s[1..][i..] == s[i + 1..];
    }
    if i: nat :| MatchesAt(s, p, i) {
      assert i > 0 && s[1..][i - 1..] == s[i..];
      assert MatchesAt(s[1..], p, i - 1);
    }
  }

  // ---------------------------------------------------------------- the three patterns

  /** The recurring page header of the regulation text. */
  const HeaderPattern: seq<Token> := [
    Lit("3"), Star(Space), Lit("avril"), Star(Space), Lit("2022"), Plus(Space),
    Lit("JOURNAL"), Plus(Space), Lit("OFFICIEL"), Plus(Space), Lit("DE"), Plus(Space),
    Lit("LA"), Plus(Space), Lit("R\U{00C9}PUBLIQUE"), Plus(Space), Lit("FRAN\U{00C7}AISE"), Plus(Space),
    Lit("Texte"), Plus(Space), Lit("27"), Plus(Space), Lit("sur"), Plus(Space), Lit("92")]

  /** A page marker such as "-- 12 of 46 --". */
  const PageMarkerPattern: seq<Token> := [
    Lit("--"), Star(Space), Plus(Digit), Plus(Space), Lit("of"), Plus(Space), Plus(Digit),
    Star(Space), Lit("--")]

  /** A full stop or semicolon, whitespace, then an upper-case letter. */
  const SentenceEndPattern: seq<Token> := [One(SentencePunct), Plus(Space), One(UpperLatin)]

  /** A quantified class directly followed by a token that cannot start with that class. */
  predicate StepExcludes(a: Token, b: Token)
  {
    (a.Star? || a.Plus?) ==> ExcludesFirst([b], a.cls)
  }

  lemma {:induction false} WellFormedBySteps(p: seq<Token>)
    requires p != [] && !p[|p| - 1].Star? && !p[|p| - 1].Plus?
    requires forall i :: 0 <= i < |p| && p[i].Lit? ==> |p[i].text| > 0
    requires forall i :: 0 <= i < |p| - 1 ==> StepExcludes(p[i], p[i + 1])
    ensures WellFormed(p)
  {
    forall i | 0 <= i < |p| && (p[i].Star? || p[i].Plus?) ensures ExcludesFirst(p[i + 1..], p[i].cls) {
      assert StepExcludes(p[i], p[i + 1]);
      assert p[i + 1..][0] == [p[i + 1]][0];
    }
  }

  lemma {:induction false} HeaderWellFormed()
    ensures WellFormed(HeaderPattern)
  {
    PrintableNotWs();
    WellFormedBySteps(HeaderPattern);
  }

  lemma {:induction false} PageMarkerWellFormed()
    ensures WellFormed(PageMarkerPattern)
  {
    var m := PageMarkerPattern;
    PrintableNotWs();
    forall i | 0 <= i < |m| && (m[i].Star? || m[i].Plus?) ensures ExcludesFirst(m[i + 1..], m[i].cls) {
      assert m[i + 1..][0] == m[i + 1];
    }
  }

  lemma {:induction false} SentenceEndWellFormed()
    ensures WellFormed(SentenceEndPattern)
  {
    var e := SentenceEndPattern;
    assert e[2..][0] == One(UpperLatin);
  }
}
