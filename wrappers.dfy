/** The optional-value datatype used where the system returns -1, null or undefined, and
    small facts about sequences that every other module uses. */
module Wrappers {

  datatype Option<+T> = None | Some(value: T)

  function Min(a: int, b: int): int
  {
    if a <= b then a else b
  }

  /** Concatenation is associative; stated generically so that the solver does not compare
      the elements themselves. */
  lemma {:induction false} AppendAssoc<T>(x: seq<T>, y: seq<T>, z: seq<T>)
    ensures x + (y + z) == (x + y) + z
  {
  }

  /** What a slice holds, the whole sequence holds. */
  lemma {:induction false} SliceMembers<T>(s: seq<T>, a: nat, b: nat)
    requires a <= b <= |s|
    ensures forall x :: x in s[a..b] ==> x in s
  {
    forall x | x in s[a..b] ensures x in s {
      var i :| 0 <= i < b - a && s[a..b][i] == x;
      assert s[a + i] == x;
    }
  }

  /** A slice of the right operand of a concatenation, taken in the concatenation. */
  lemma {:induction false} SliceRight<T>(a: seq<T>, b: seq<T>, o: nat, len: nat)
    requires o + len <= |b|
    ensures (a + b)[|a| + o..|a| + o + len] == b[o..o + len]
  {
  }

  /** The left operand is a prefix of a concatenation. */
  lemma {:induction false} SliceLeft<T>(a: seq<T>, b: seq<T>)
    ensures (a + b)[..|a|] == a
  {
  }

  /** A suffix of a concatenation that starts in the left operand. */
  lemma {:induction false} DropLeft<T>(a: seq<T>, b: seq<T>, i: nat)
    requires i <= |a|
    ensures (a + b)[i..] == a[i..] + b
  {
  }

  /** A suffix of a concatenation that starts in the right operand. */
  lemma {:induction false} DropRight<T>(a: seq<T>, b: seq<T>, i: nat)
    requires |a| <= i <= |a| + |b|
    ensures (a + b)[i..] == b[i - |a|..]
  {
  }

  /** The first and last elements of a non-empty slice. */
  lemma {:induction false} SliceEnds<T>(s: seq<T>, a: nat, b: nat)
    requires a < b <= |s|
    ensures s[a..b][0] == s[a] && s[a..b][b - a - 1] == s[b - 1]
  {
  }

  /** A non-empty sequence is its head in front of its tail. */
  lemma {:induction false} HeadTail<T>(s: seq<T>)
    requires s != []
    ensures s == [s[0]] + s[1..]
  {
  }

  /** Indexing and dropping past the head of a sequence built by `[x] + s`. */
  lemma {:induction false} ConsIndex<T>(x: T, s: seq<T>, i: nat)
    requires 0 < i <= |s|
    ensures ([x] + s)[i] == s[i - 1] && ([x] + s)[1..] == s
  {
  }

  /** A prefix stays a prefix when the same head is put in front of both. */
  lemma {:induction false} ConsPrefix<T>(x: T, a: seq<T>, b: seq<T>)
    requires |a| <= |b| && a == b[..|a|]
    ensures [x] + a == ([x] + b)[..|a| + 1]
  {
  }

  /** A slice of a slice is a slice of the whole. */
  lemma {:induction false} SliceOfSlice<T>(s: seq<T>, a: nat, b: nat, i: nat, j: nat)
    requires a <= b <= |s| && i <= j <= b - a
    ensures s[a..b][i..j] == s[a + i..a + j]
  {
    forall k | 0 <= k < j - i ensures s[a..b][i..j][k] == s[a + i..a + j][k] {
      assert s[a..b][i..j][k] == s[a..b][i + k] == s[a + i + k];
    }
  }

  /** Membership in either operand is membership in a concatenation. */
  lemma {:induction false} InAppend<T>(x: T, a: seq<T>, b: seq<T>)
    ensures x in a + b <==> x in a || x in b
  {
  }

  /** A three-element display built by consing. */
  lemma {:induction false} ConsThree<T>(x: T, y: T, z: T)
    ensures [x] + ([y] + ([z] + [])) == [x, y, z]
  {
  }

  /** Dropping twice is dropping once. */
  lemma {:induction false} DropDrop<T>(s: seq<T>, a: nat, b: nat)
    requires a + b <= |s|
    ensures s[a..][b..] == s[a + b..]
  {
  }

  /** The pieces of a five-way concatenation sit at the running sums of their lengths. */
  lemma {:induction false} FivePieces<T>(a: seq<T>, b: seq<T>, c: seq<T>, d: seq<T>, e: seq<T>)
    ensures var s := a + b + c + d + e;
      var i := |a|; var j := i + |b|; var k := j + |c|; var l := k + |d|;
      |s| == l + |e| && s[..i] == a && s[i..j] == b && s[j..k] == c && s[k..l] == d && s[l..] == e
  {
  }
}
