/** String helpers used by every component: ASCII case folding and the
    prefix, suffix and substring tests of Python's `str`. */
module Text {

  /** yt-dlp's `sanitize_filename(name, restricted=False)`, whose rules this
      model does not see: every statement holds for every such function. */
  type Sanitizer = string -> string

  /** One character of Python's `str.lower()`, restricted to ASCII. */
  function LowerChar(c: char): char {
    if 'A' <= c <= 'Z' then (c as int - 'A' as int + 'a' as int) as char else c
  }

  /** `s.lower()` (ASCII letters only). */
  function Lower(s: string): (r: string)
    ensures |r| == |s|
    ensures forall i {:trigger r[i]} :: 0 <= i < |s| ==> r[i] == LowerChar(s[i])
  {
    seq(|s|, i requires 0 <= i < |s| => LowerChar(s[i]))
  }

  lemma LowerIdempotent(s: string)
    ensures Lower(Lower(s)) == Lower(s)
  {
  }

  lemma LowerAppend(a: string, b: string)
    ensures Lower(a + b) == Lower(a) + Lower(b)
  {
  }

  predicate StartsWith(s: string, prefix: string) {
    |prefix| <= |s| && s[..|prefix|] == prefix
  }

  predicate EndsWith(s: string, suffix: string) {
    |suffix| <= |s| && s[|s| - |suffix|..] == suffix
  }

  /** `t` occurs in `s` at position `i`. */
  predicate OccursAt(s: string, t: string, i: int) {
    0 <= i && i + |t| <= |s| && s[i..i + |t|] == t
  }

  /** Python's `t in s` for strings. */
  predicate Contains(s: string, t: string) {
    exists i | 0 <= i <= |s| - |t| :: OccursAt(s, t, i)
  }

  /** A substring of a substring is a substring. */
  lemma ContainsTransitive(s: string, t: string, u: string)
    requires Contains(s, t) && Contains(t, u)
    ensures Contains(s, u)
  {
    var i :| 0 <= i <= |s| - |t| && OccursAt(s, t, i);
    var j :| 0 <= j <= |t| - |u| && OccursAt(t, u, j);
    forall k | 0 <= k < |u|
      ensures s[i + j..i + j + |u|][k] == u[k]
    {
      assert u[k] == t[j + k] == s[i..i + |t|][j + k];
    }
    assert OccursAt(s, u, i + j);
  }

  /** Text after an occurrence does not hide it. */
  lemma ContainsExtend(s: string, t: string, more: string)
    requires Contains(s, t)
    ensures Contains(s + more, t)
  {
    var i :| 0 <= i <= |s| - |t| && OccursAt(s, t, i);
    assert (s + more)[i..i + |t|] == s[i..i + |t|];
    assert OccursAt(s + more, t, i);
  }

  /** No character of `s` is `c`. */
  predicate Free(s: string, c: char) {
    forall i | 0 <= i < |s| :: s[i] != c
  }

  /** `a` is `b` with some elements left out, order kept. */
  predicate Subsequence<T(==)>(a: seq<T>, b: seq<T>)
    decreases |b|
  {
    a == [] || (b != [] && ((a[0] == b[0] && Subsequence(a[1..], b[1..])) || Subsequence(a, b[1..])))
  }

  /** Dropping a prefix of `b` keeps a subsequence of the rest a
      subsequence of the whole. */
  lemma {:induction false} SubsequenceOfSuffix<T>(a: seq<T>, b: seq<T>, k: nat)
    requires k <= |b| && Subsequence(a, b[k..])
    ensures Subsequence(a, b)
    decreases k
  {
    if k > 0 {
      assert b[1..][k - 1..] == b[k..];
      SubsequenceOfSuffix(a, b[1..], k - 1);
    }
  }

  /** A list that starts with `a + [x]` starts with `a`, and what follows `a`
      is `x` and then what follows `a + [x]`. */
  lemma ExtendedPrefix<T>(a: seq<T>, x: T, r: seq<T>)
    requires |a| + 1 <= |r| && r[..|a| + 1] == a + [x]
    ensures r[..|a|] == a && r[|a|..] == [x] + r[|a| + 1..]
  {
    assert r[..|a|] == r[..|a| + 1][..|a|];
  }

  /** Cutting out position `p` keeps what is before it and shifts what is
      after it down by one. */
  lemma SkipAt<T>(a: seq<T>, p: nat)
    requires p < |a|
    ensures var r := a[..p] + a[p + 1..];
      && |r| == |a| - 1
      && (forall j | 0 <= j < p :: r[j] == a[j])
      && (forall j | p < j < |a| :: r[j - 1] == a[j])
  {
  }

  /** Concatenation regroups freely; stated once so that large proofs can
      cite it instead of rediscovering it. */
  lemma AppendAssoc<T>(a: seq<T>, b: seq<T>, c: seq<T>)
    ensures (a + b) + c == a + (b + c)
  {
  }

  /** Two lists with a common head and tail are equal exactly when their
      middles are. */
  lemma MiddleDetermines<T>(head: seq<T>, m1: seq<T>, m2: seq<T>, tail: seq<T>)
    ensures head + m1 + tail == head + m2 + tail <==> m1 == m2
  {
    if head + m1 + tail == head + m2 + tail {
      assert |m1| == |m2|;
      assert m1 == (head + m1 + tail)[|head|..|head| + |m1|];
      assert m2 == (head + m2 + tail)[|head|..|head| + |m2|];
    }
  }
}
