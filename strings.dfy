/**
 * Literal text search and replace-all, as the customisation scripts use it:
 * Python `pat in s`, `str.replace` and `re.sub` on patterns that are literals
 * (such as `{time}ms`), optionally with a trailing word boundary `\b`.
 */
module Strings {

  type Text = seq<char>

  /** `pat` occurs in `s` starting at index `k`. */
  predicate OccursAt(s: Text, pat: Text, k: int)
  {
    0 <= k && k + |pat| <= |s| && s[k..k + |pat|] == pat
  }

  /** Python's `pat in s`. */
  predicate Contains(s: Text, pat: Text)
  {
    exists k | 0 <= k <= |s| - |pat| :: OccursAt(s, pat, k)
  }

  /**
   * A character that `\w` matches. ASCII letters, digits and '_' are exact;
   * every non-ASCII character counts as a word character (kana and kanji do).
   */
  predicate IsWordChar(c: char)
  {
    ('a' <= c <= 'z') || ('A' <= c <= 'Z') || ('0' <= c <= '9') || c == '_' || c > '\U{7F}'
  }

  /** Position `e` is followed by the end of the text or by a non-word character. */
  predicate AtWordEnd(s: Text, e: int)
    requires 0 <= e <= |s|
  {
    e == |s| || !IsWordChar(s[e])
  }

  /**
   * The characters of `pat` from offset `j` on agree with `s` from `k + j`
   * on and, when `boundary` holds, the match ends at a word end.
   */
  predicate MatchFrom(s: Text, pat: Text, k: nat, j: nat, boundary: bool)
    requires k + |pat| <= |s| && j <= |pat|
    decreases |pat| - j
  {
    if j == |pat| then !boundary || AtWordEnd(s, k + j)
    else s[k + j] == pat[j] && MatchFrom(s, pat, k, j + 1, boundary)
  }

  /**
   * A match the rewrite accepts at `k`: `pat` occurs there and, when
   * `boundary` holds (a pattern ending in a word character followed by `\b`),
   * the match is followed by the end of the text or by a non-word character.
   */
  predicate MatchAt(s: Text, pat: Text, k: int, boundary: bool)
  {
    0 <= k && k + |pat| <= |s| && MatchFrom(s, pat, k, 0, boundary)
  }

  /** Some accepted match exists. */
  predicate Matches(s: Text, pat: Text, boundary: bool)
  {
    exists k | 0 <= k <= |s| - |pat| :: MatchAt(s, pat, k, boundary)
  }

  /** A slice of a slice is a slice of the whole. */
  lemma SliceOfSlice(s: Text, lo: nat, hi: nat, k: nat, n: nat)
    requires lo <= hi <= |s| && k + n <= hi - lo
    ensures s[lo..hi][k..k + n] == s[lo + k..lo + k + n]
  {
    var t := s[lo..hi][k..k + n];
    assert forall i | 0 <= i < n :: t[i] == s[lo + k + i];
  }

  /** Adjacent slices join into one. */
  lemma SliceJoin(s: Text, a: nat, b: nat, c: nat)
    requires a <= b <= c <= |s|
    ensures s[a..b] + s[b..c] == s[a..c]
  {
  }

  /** The recursive agreement check is the slice comparison it stands for. */
  lemma {:induction false} MatchFromSlice(s: Text, pat: Text, k: nat, j: nat, boundary: bool)
    requires k + |pat| <= |s| && j <= |pat|
    ensures MatchFrom(s, pat, k, j, boundary) <==>
              s[k + j..k + |pat|] == pat[j..] && (!boundary || AtWordEnd(s, k + |pat|))
    decreases |pat| - j
  {
    if j < |pat| {
      MatchFromSlice(s, pat, k, j + 1, boundary);
      var a, b := s[k + j..k + |pat|], pat[j..];
      assert a == [s[k + j]] + s[k + j + 1..k + |pat|];
      assert b == [pat[j]] + pat[j + 1..];
    }
  }

  /** An accepted match is an occurrence, plus the word end when asked for. */
  lemma MatchAtOccurs(s: Text, pat: Text, k: int, boundary: bool)
    ensures MatchAt(s, pat, k, boundary) <==>
              OccursAt(s, pat, k) && (!boundary || AtWordEnd(s, k + |pat|))
  {
    if 0 <= k && k + |pat| <= |s| {
      MatchFromSlice(s, pat, k, 0, boundary);
    }
  }

  /** Without a boundary condition, an accepted match is just an occurrence. */
  lemma PlainMatches(s: Text, pat: Text)
    ensures Matches(s, pat, false) <==> Contains(s, pat)
  {
    forall k ensures MatchAt(s, pat, k, false) <==> OccursAt(s, pat, k) {
      MatchAtOccurs(s, pat, k, false);
    }
  }

  /** The index of the leftmost accepted match at or after `k`, or -1 when there is none. */
  function FindFrom(s: Text, pat: Text, boundary: bool, k: nat): (r: int)
    requires |pat| > 0
    ensures r == -1 || k <= r <= |s| - |pat|
    ensures r >= 0 ==> MatchAt(s, pat, r, boundary)
    decreases |s| - k
  {
    if k + |pat| > |s| then -1
    else if MatchAt(s, pat, k, boundary) then k
    else FindFrom(s, pat, boundary, k + 1)
  }

  /**
   * The index of the leftmost accepted match, or -1 when there is none
   * (Python's `str.find`, and where `re.sub` makes its first replacement).
   */
  function Find(s: Text, pat: Text, boundary: bool): (r: int)
    requires |pat| > 0
    ensures r == -1 || 0 <= r <= |s| - |pat|
    ensures r >= 0 ==> MatchAt(s, pat, r, boundary)
  {
    FindFrom(s, pat, boundary, 0)
  }

  /** No accepted match lies between `k` and the one `FindFrom` reports. */
  lemma {:induction false} FindFromLeftmost(s: Text, pat: Text, boundary: bool, k: nat, j: nat)
    requires |pat| > 0 && k <= j < FindFrom(s, pat, boundary, k)
    ensures !MatchAt(s, pat, j, boundary)
    decreases j - k
  {
    if j > k {
      FindFromLeftmost(s, pat, boundary, k + 1, j);
    }
  }

  /** An accepted match at `j` is found by a search starting at or before `j`. */
  lemma {:induction false} FindFromFinds(s: Text, pat: Text, boundary: bool, k: nat, j: nat)
    requires |pat| > 0 && k <= j && MatchAt(s, pat, j, boundary)
    ensures 0 <= FindFrom(s, pat, boundary, k) <= j
    decreases j - k
  {
    if k < j && !MatchAt(s, pat, k, boundary) {
      FindFromFinds(s, pat, boundary, k + 1, j);
    }
  }

  /** `Find` reports -1 exactly when there is no accepted match. */
  lemma FindNone(s: Text, pat: Text, boundary: bool)
    requires |pat| > 0
    ensures Find(s, pat, boundary) < 0 <==> !Matches(s, pat, boundary)
  {
    if k :| 0 <= k <= |s| - |pat| && MatchAt(s, pat, k, boundary) {
      FindFromFinds(s, pat, boundary, 0, k);
    }
  }

  /**
   * Replace every accepted match at or after `k`, scanning left to right and
   * resuming after each replaced match (leftmost, non-overlapping); the text
   * before `k` is dropped.
   */
  function ReplaceFrom(s: Text, pat: Text, rep: Text, boundary: bool, k: nat): Text
    requires |pat| > 0 && k <= |s|
    decreases |s| - k
  {
    var i := FindFrom(s, pat, boundary, k);
    if i < 0 then s[k..] else s[k..i] + rep + ReplaceFrom(s, pat, rep, boundary, i + |pat|)
  }

  /** Replace every accepted match of `pat` in `s` by `rep`. */
  function Replace(s: Text, pat: Text, rep: Text, boundary: bool): Text
    requires |pat| > 0
  {
    ReplaceFrom(s, pat, rep, boundary, 0)
  }

  /** Python `s.replace(pat, rep)` and `re.sub(pat, rep, s)` for a literal pattern. */
  function ReplaceAll(s: Text, pat: Text, rep: Text): Text
    requires |pat| > 0
  {
    Replace(s, pat, rep, false)
  }

  /** `re.sub(pat + r'\b', rep, s)` for a literal pattern ending in a word character. */
  function ReplaceAtWordEnd(s: Text, pat: Text, rep: Text): Text
    requires |pat| > 0
  {
    Replace(s, pat, rep, true)
  }

  /** A guarded rule: skipped when `marker` is already in the text. */
  function ReplaceUnless(s: Text, marker: Text, pat: Text, rep: Text, boundary: bool): Text
    requires |pat| > 0
  {
    if Contains(s, marker) then s else Replace(s, pat, rep, boundary)
  }

  // ---------------------------------------------------------------------------
  // Substrings

  /** An occurrence inside a slice is an occurrence in the whole text. */
  lemma ContainsSlice(s: Text, lo: nat, hi: nat, q: Text)
    requires lo <= hi <= |s|
    requires Contains(s[lo..hi], q)
    ensures Contains(s, q)
  {
    var k :| 0 <= k <= hi - lo - |q| && OccursAt(s[lo..hi], q, k);
    SliceOfSlice(s, lo, hi, k, |q|);
    assert OccursAt(s, q, lo + k);
  }

  /** The middle of a concatenation occurs in it. */
  lemma ContainsMiddle(a: Text, m: Text, b: Text)
    ensures Contains(a + m + b, m)
  {
    var t := a + m + b;
    assert t[|a|..|a| + |m|] == m;
    assert OccursAt(t, m, |a|);
  }

  /** Each of five joined pieces occurs in the join at the sum of the lengths before it. */
  lemma JoinPieces(a: Text, b: Text, c: Text, d: Text, e: Text)
    ensures var t := a + b + c + d + e;
            OccursAt(t, a, 0) && OccursAt(t, b, |a|) && OccursAt(t, c, |a| + |b|) &&
            OccursAt(t, d, |a| + |b| + |c|) && OccursAt(t, e, |t| - |e|)
  {
    var t := a + b + c + d + e;
    assert t[..|a|] == a;
    assert t[|a|..|a| + |b|] == b;
    assert t[|a| + |b|..|a| + |b| + |c|] == c;
    assert t[|a| + |b| + |c|..|a| + |b| + |c| + |d|] == d;
    assert t[|t| - |e|..] == e;
  }

  /** A text contains its own prefix. */
  lemma ContainsLeft(a: Text, b: Text)
    ensures Contains(a + b, a)
  {
    assert (a + b)[0..|a|] == a;
    assert OccursAt(a + b, a, 0);
  }

  /** What the right part of a join contains, the join contains. */
  lemma ContainsRight(a: Text, b: Text, q: Text)
    requires Contains(b, q)
    ensures Contains(a + b, q)
  {
    var k :| 0 <= k <= |b| - |q| && OccursAt(b, q, k);
    assert (a + b)[|a| + k..|a| + k + |q|] == b[k..k + |q|];
    assert OccursAt(a + b, q, |a| + k);
  }

  /** `s.endswith(tail)`. */
  predicate EndsWith(s: Text, tail: Text)
  {
    |tail| <= |s| && s[|s| - |tail|..] == tail
  }

  /** A join ends with whatever its right part ends with. */
  lemma EndsWithJoin(a: Text, b: Text, tail: Text)
    requires EndsWith(b, tail)
    ensures EndsWith(a + b, tail)
  {
    assert (a + b)[|a + b| - |tail|..] == b[|b| - |tail|..];
  }

  /** A text containing `a + b` contains `b`. */
  lemma ContainsTail(s: Text, a: Text, b: Text)
    requires Contains(s, a + b)
    ensures Contains(s, b)
  {
    ContainsMiddle(a, b, []);
    assert a + b + [] == a + b;
    ContainsTrans(s, a + b, b);
  }

  /** Occurrence is transitive: a text containing `m` contains everything `m` contains. */
  lemma ContainsTrans(s: Text, m: Text, q: Text)
    requires Contains(s, m) && Contains(m, q)
    ensures Contains(s, q)
  {
    var k :| 0 <= k <= |s| - |m| && OccursAt(s, m, k);
    assert s[k..k + |m|] == m;
    ContainsSlice(s, k, k + |m|, q);
  }

  // ---------------------------------------------------------------------------
  // What a replacement can and cannot create

  /** No character of `t` is `c`. */
  predicate Free(c: char, t: Text)
  {
    forall i | 0 <= i < |t| :: t[i] != c
  }

  /** A character absent from two texts is absent from their concatenation. */
  lemma FreeConcat(c: char, a: Text, b: Text)
    requires Free(c, a) && Free(c, b)
    ensures Free(c, a + b)
  {
  }

  /** Some index below both lengths at which `a` and `b` differ. */
  predicate PrefixClash(a: Text, b: Text)
  {
    exists k | 0 <= k < |a| && k < |b| :: a[k] != b[k]
  }

  /** The `k`-th character counting from the end. */
  function FromEnd(a: Text, k: nat): char
    requires k < |a|
  {
    a[|a| - 1 - k]
  }

  /** Some distance from the end below both lengths at which `a` and `b` differ. */
  predicate SuffixClash(a: Text, b: Text)
  {
    exists k | 0 <= k < |a| && k < |b| :: FromEnd(a, k) != FromEnd(b, k)
  }

  /**
   * Inserting `rep` cannot complete an occurrence of `q` that starts before
   * it, inside it or at it: the first characters of `q` and `rep` do not recur
   * in the other, and the two differ somewhere at the start.
   */
  predicate HeadSeparated(q: Text, rep: Text)
  {
    && |q| > 0 && |rep| > 0
    && (forall i | 1 <= i < |q| :: q[i] != rep[0])
    && (forall i | 1 <= i < |rep| :: rep[i] != q[0])
    && PrefixClash(q, rep)
  }

  /** The mirror image of `HeadSeparated`, seen from the last characters. */
  predicate TailSeparated(q: Text, rep: Text)
  {
    && |q| > 0 && |rep| > 0
    && (forall i | 0 <= i < |rep| - 1 :: rep[i] != q[|q| - 1])
    && (forall i | 0 <= i < |q| - 1 :: q[i] != rep[|rep| - 1])
    && SuffixClash(q, rep)
  }

  /** No occurrence of `q` can straddle an inserted `rep`. */
  predicate Separated(q: Text, rep: Text)
  {
    HeadSeparated(q, rep) || TailSeparated(q, rep)
  }

  /** An occurrence lying wholly inside one piece of a concatenation. */
  lemma OccursInPiece(t: Text, lo: nat, hi: nat, q: Text, k: nat)
    requires lo <= k && k + |q| <= hi <= |t|
    requires !Contains(t[lo..hi], q)
    ensures !OccursAt(t, q, k)
  {
    assert !OccursAt(t[lo..hi], q, k - lo);
    SliceOfSlice(t, lo, hi, k - lo, |q|);
  }

  /** A head-separated `rep` at `n` blocks every occurrence of `q` overlapping it. */
  lemma HeadBlocks(t: Text, n: nat, rep: Text, q: Text, k: nat)
    requires HeadSeparated(q, rep)
    requires n + |rep| <= |t| && t[n..n + |rep|] == rep
    requires k < n + |rep| && n < k + |q| <= |t|
    ensures !OccursAt(t, q, k)
  {
    var e := k + |q|;
    if k < n {
      assert t[n] == t[n..n + |rep|][0] == rep[0];
      assert t[k..e][n - k] == t[n] != q[n - k];
    } else if k == n {
      var j :| 0 <= j < |q| && j < |rep| && q[j] != rep[j];
      assert t[k..e][j] == t[n..n + |rep|][j] == rep[j];
    } else {
      assert t[k..e][0] == t[n..n + |rep|][k - n] == rep[k - n] != q[0];
    }
  }

  /** A tail-separated `rep` at `n` blocks every occurrence of `q` overlapping it. */
  lemma TailBlocks(t: Text, n: nat, rep: Text, q: Text, k: nat)
    requires TailSeparated(q, rep)
    requires n + |rep| <= |t| && t[n..n + |rep|] == rep
    requires k < n + |rep| && n < k + |q| <= |t|
    ensures !OccursAt(t, q, k)
  {
    var e, m := k + |q|, |rep|;
    if e < n + m {
      assert t[k..e][|q| - 1] == t[n..n + m][e - 1 - n] == rep[e - 1 - n] != q[|q| - 1];
    } else if e == n + m {
      var j :| 0 <= j < |q| && j < |rep| && FromEnd(q, j) != FromEnd(rep, j);
      assert t[k..e][|q| - 1 - j] == t[n..n + m][m - 1 - j] == rep[m - 1 - j];
    } else {
      var p := n + m - 1;
      assert t[k..e][p - k] == t[n..n + m][m - 1] == rep[m - 1] != q[p - k];
    }
  }

  /** Gluing two `q`-free texts around a separated `rep` gives a `q`-free text. */
  lemma NoStraddle(a: Text, rep: Text, b: Text, q: Text)
    requires Separated(q, rep)
    requires !Contains(a, q) && !Contains(b, q)
    ensures !Contains(a + rep + b, q)
  {
    var t := a + rep + b;
    var n, m := |a|, |rep|;
    assert t[..n] == a && t[n..n + m] == rep && t[n + m..] == b;
    forall k | 0 <= k <= |t| - |q| ensures !OccursAt(t, q, k) {
      if k + |q| <= n {
        OccursInPiece(t, 0, n, q, k);
      } else if k >= n + m {
        assert t[n + m..|t|] == b;
        OccursInPiece(t, n + m, |t|, q, k);
      } else if HeadSeparated(q, rep) {
        HeadBlocks(t, n, rep, q, k);
      } else {
        TailBlocks(t, n, rep, q, k);
      }
    }
  }


  /** Matching in a suffix of a text is matching at the shifted position in the text. */
  lemma SuffixMatch(t: Text, off: nat, u: Text, pat: Text, j: nat, boundary: bool)
    requires off <= |t| && t[off..] == u
    ensures MatchAt(t, pat, off + j, boundary) <==> MatchAt(u, pat, j, boundary)
  {
    MatchAtOccurs(t, pat, off + j, boundary);
    MatchAtOccurs(u, pat, j, boundary);
    if j + |pat| <= |u| {
      assert t[off..] == t[off..|t|];
      SliceOfSlice(t, off, |t|, j, |pat|);
      if j + |pat| < |u| {
        assert t[off + j + |pat|] == u[j + |pat|];
      }
    }
  }

  /**
   * A match inside the text copied before a replaced match was a match of
   * the source already, provided the pattern starts with a non-word
   * character (what follows the copy is then its first character).
   */
  lemma GapMatch(s: Text, pat: Text, boundary: bool, k: nat, i: nat, rep: Text, b: Text, j: nat)
    requires k <= i && MatchAt(s, pat, i, boundary) && |pat| > 0 && |rep| > 0
    requires boundary ==> !IsWordChar(pat[0])
    requires j + |pat| <= i - k
    requires MatchAt(s[k..i] + rep + b, pat, j, boundary)
    ensures MatchAt(s, pat, k + j, boundary)
  {
    var a, t := s[k..i], s[k..i] + rep + b;
    var e := j + |pat|;
    MatchAtOccurs(t, pat, j, boundary);
    MatchAtOccurs(s, pat, k + j, boundary);
    MatchAtOccurs(s, pat, i, boundary);
    assert t[j..e] == a[j..e] == s[k + j..k + e];
    if boundary {
      if e < |a| {
        assert t[e] == a[e] == s[k + e];
      } else {
        assert s[i] == s[i..i + |pat|][0] == pat[0];
      }
    }
  }

  /**
   * One step of a rule whose replacement is separated from its pattern:
   * a match in the copied gap, the replacement and the rest would have
   * been a match of the source before the match it replaced, or one of
   * the rest.
   */
  lemma StepLeavesNoneAt(s: Text, pat: Text, rep: Text, boundary: bool, k: nat, i: nat, b: Text, j: nat)
    requires |pat| > 0 && k <= i && i == FindFrom(s, pat, boundary, k) && Separated(pat, rep)
    requires boundary ==> !IsWordChar(pat[0])
    requires !Matches(b, pat, boundary)
    ensures !MatchAt(s[k..i] + rep + b, pat, j, boundary)
  {
    var a, t := s[k..i], s[k..i] + rep + b;
    MatchAtOccurs(t, pat, j, boundary);
    if j + |pat| <= |a| {
      if MatchAt(t, pat, j, boundary) {
        GapMatch(s, pat, boundary, k, i, rep, b, j);
        FindFromLeftmost(s, pat, boundary, k, k + j);
      }
    } else if j >= |a| + |rep| {
      assert t[|a| + |rep|..] == b;
      SuffixMatch(t, |a| + |rep|, b, pat, j - |a| - |rep|, boundary);
    } else if j + |pat| <= |t| {
      assert t[|a|..|a| + |rep|] == rep;
      if HeadSeparated(pat, rep) {
        HeadBlocks(t, |a|, rep, pat, j);
      } else {
        TailBlocks(t, |a|, rep, pat, j);
      }
    }
  }

  /**
   * A rule whose replacement is separated from its pattern leaves no match
   * it would accept; with a word-end check this needs a pattern that starts
   * with a non-word character.
   */
  lemma {:induction false} ReplaceFromLeavesNone(s: Text, pat: Text, rep: Text, boundary: bool, k: nat)
    requires |pat| > 0 && k <= |s| && Separated(pat, rep)
    requires boundary ==> !IsWordChar(pat[0])
    ensures !Matches(ReplaceFrom(s, pat, rep, boundary, k), pat, boundary)
    decreases |s| - k
  {
    var i := FindFrom(s, pat, boundary, k);
    var t := ReplaceFrom(s, pat, rep, boundary, k);
    if i < 0 {
      forall j | 0 <= j <= |t| - |pat| ensures !MatchAt(t, pat, j, boundary) {
        SuffixMatch(s, k, t, pat, j, boundary);
        if MatchAt(t, pat, j, boundary) {
          FindFromFinds(s, pat, boundary, k, k + j);
        }
      }
    } else {
      var b := ReplaceFrom(s, pat, rep, boundary, i + |pat|);
      ReplaceFromLeavesNone(s, pat, rep, boundary, i + |pat|);
      forall j | 0 <= j <= |t| - |pat| ensures !MatchAt(t, pat, j, boundary) {
        StepLeavesNoneAt(s, pat, rep, boundary, k, i, b, j);
      }
    }
  }

  /** A rule whose replacement is separated from its pattern leaves no match it would accept. */
  lemma ReplaceLeavesNone(s: Text, pat: Text, rep: Text, boundary: bool)
    requires |pat| > 0 && Separated(pat, rep)
    requires boundary ==> !IsWordChar(pat[0])
    ensures !Matches(Replace(s, pat, rep, boundary), pat, boundary)
  {
    ReplaceFromLeavesNone(s, pat, rep, boundary, 0);
  }

  /** A plain rule with a separated replacement leaves no occurrence of its pattern. */
  lemma ReplaceEliminates(s: Text, pat: Text, rep: Text)
    requires |pat| > 0 && Separated(pat, rep)
    ensures !Contains(ReplaceAll(s, pat, rep), pat)
  {
    ReplaceLeavesNone(s, pat, rep, false);
    PlainMatches(ReplaceAll(s, pat, rep), pat);
  }

  /** A rule with a replacement separated from `q` does not create a `q`. */
  lemma {:induction false} ReplaceFromKeepsAbsent(s: Text, pat: Text, rep: Text, boundary: bool, q: Text, k: nat)
    requires |pat| > 0 && k <= |s| && Separated(q, rep) && !Contains(s, q)
    ensures !Contains(ReplaceFrom(s, pat, rep, boundary, k), q)
    decreases |s| - k
  {
    var i := FindFrom(s, pat, boundary, k);
    if i < 0 {
      assert s[k..] == s[k..|s|];
      if Contains(s[k..|s|], q) { ContainsSlice(s, k, |s|, q); }
    } else {
      if Contains(s[k..i], q) { ContainsSlice(s, k, i, q); }
      ReplaceFromKeepsAbsent(s, pat, rep, boundary, q, i + |pat|);
      NoStraddle(s[k..i], rep, ReplaceFrom(s, pat, rep, boundary, i + |pat|), q);
    }
  }

  /** A rule with a replacement separated from `q` does not create a `q`. */
  lemma ReplaceKeepsAbsent(s: Text, pat: Text, rep: Text, boundary: bool, q: Text)
    requires |pat| > 0 && Separated(q, rep) && !Contains(s, q)
    ensures !Contains(Replace(s, pat, rep, boundary), q)
  {
    ReplaceFromKeepsAbsent(s, pat, rep, boundary, q, 0);
  }

  /** A rule with nothing to rewrite leaves the text as it is. */
  lemma NoMatchUnchanged(s: Text, pat: Text, rep: Text, boundary: bool)
    requires |pat| > 0 && !Matches(s, pat, boundary)
    ensures Replace(s, pat, rep, boundary) == s
  {
    FindNone(s, pat, boundary);
    assert s[0..] == s;
  }

  /** A plain rule with a separated replacement is idempotent. */
  lemma ReplaceAllIdempotent(s: Text, pat: Text, rep: Text)
    requires |pat| > 0 && Separated(pat, rep)
    ensures ReplaceAll(ReplaceAll(s, pat, rep), pat, rep) == ReplaceAll(s, pat, rep)
  {
    var once := ReplaceAll(s, pat, rep);
    ReplaceEliminates(s, pat, rep);
    forall k | 0 <= k <= |once| - |pat| ensures !MatchAt(once, pat, k, false) {
      MatchAtOccurs(once, pat, k, false);
    }
    NoMatchUnchanged(once, pat, rep, false);
  }

  // ---------------------------------------------------------------------------
  // When a replacement changes nothing

  /** Replacing a pattern by itself changes nothing. */
  lemma {:induction false} ReplaceFromBySelf(s: Text, pat: Text, boundary: bool, k: nat)
    requires |pat| > 0 && k <= |s|
    ensures ReplaceFrom(s, pat, pat, boundary, k) == s[k..]
    decreases |s| - k
  {
    var i := FindFrom(s, pat, boundary, k);
    if i >= 0 {
      var d := i + |pat|;
      ReplaceFromBySelf(s, pat, boundary, d);
      MatchAtOccurs(s, pat, i, boundary);
      assert s[k..i] + s[i..d] == s[k..d];
      assert s[k..d] + s[d..] == s[k..];
    }
  }

  /** Replacing a pattern by itself changes nothing. */
  lemma ReplaceBySelf(s: Text, pat: Text, boundary: bool)
    requires |pat| > 0
    ensures Replace(s, pat, pat, boundary) == s
  {
    ReplaceFromBySelf(s, pat, boundary, 0);
    assert s[0..] == s;
  }

  /** A rule whose replacement is at least as long as its pattern never shortens the text. */
  lemma {:induction false} ReplaceNotShorter(s: Text, pat: Text, rep: Text, boundary: bool, k: nat)
    requires |pat| > 0 && k <= |s| && |rep| >= |pat|
    ensures |ReplaceFrom(s, pat, rep, boundary, k)| >= |s| - k
    decreases |s| - k
  {
    var i := FindFrom(s, pat, boundary, k);
    if i >= 0 {
      ReplaceNotShorter(s, pat, rep, boundary, i + |pat|);
    }
  }

  /** A rule whose replacement is at most as long as its pattern never lengthens the text. */
  lemma {:induction false} ReplaceNotLonger(s: Text, pat: Text, rep: Text, boundary: bool, k: nat)
    requires |pat| > 0 && k <= |s| && |rep| <= |pat|
    ensures |ReplaceFrom(s, pat, rep, boundary, k)| <= |s| - k
    decreases |s| - k
  {
    var i := FindFrom(s, pat, boundary, k);
    if i >= 0 {
      ReplaceNotLonger(s, pat, rep, boundary, i + |pat|);
    }
  }

  /** A rule whose replacement has the pattern's length keeps the length. */
  lemma {:induction false} ReplaceSameLength(s: Text, pat: Text, rep: Text, boundary: bool, k: nat)
    requires |pat| > 0 && k <= |s| && |rep| == |pat|
    ensures |ReplaceFrom(s, pat, rep, boundary, k)| == |s| - k
    decreases |s| - k
  {
    var i := FindFrom(s, pat, boundary, k);
    if i >= 0 {
      ReplaceSameLength(s, pat, rep, boundary, i + |pat|);
    }
  }

  /** A rule that rewrites a match into something longer lengthens the text. */
  lemma RewriteLengthens(s: Text, pat: Text, rep: Text, boundary: bool)
    requires |pat| > 0 && |rep| > |pat| && Find(s, pat, boundary) >= 0
    ensures |Replace(s, pat, rep, boundary)| > |s|
  {
    var i := Find(s, pat, boundary);
    ReplaceNotShorter(s, pat, rep, boundary, i + |pat|);
  }

  /** A rule that rewrites a match into something shorter shortens the text. */
  lemma RewriteShortens(s: Text, pat: Text, rep: Text, boundary: bool)
    requires |pat| > 0 && |rep| < |pat| && Find(s, pat, boundary) >= 0
    ensures |Replace(s, pat, rep, boundary)| < |s|
  {
    var i := Find(s, pat, boundary);
    ReplaceNotLonger(s, pat, rep, boundary, i + |pat|);
  }

  /** An equal-length rewrite of the first match changes it where `pat` and `rep` differ. */
  lemma RewriteChangesChar(s: Text, pat: Text, rep: Text, boundary: bool, j: nat)
    requires |pat| > 0 && |rep| == |pat| && j < |pat| && pat[j] != rep[j]
    requires Find(s, pat, boundary) >= 0
    ensures Find(s, pat, boundary) + j < |Replace(s, pat, rep, boundary)|
    ensures Replace(s, pat, rep, boundary)[Find(s, pat, boundary) + j] != s[Find(s, pat, boundary) + j]
  {
    var i := Find(s, pat, boundary);
    MatchAtOccurs(s, pat, i, boundary);
    assert Replace(s, pat, rep, boundary)[i + j] == rep[j];
    assert s[i + j] == s[i..i + |pat|][j] == pat[j];
  }

  /** A rule that finds a match and does not rewrite it into itself changes the text. */
  lemma RewriteChanges(s: Text, pat: Text, rep: Text, boundary: bool)
    requires |pat| > 0 && rep != pat && Matches(s, pat, boundary)
    ensures Replace(s, pat, rep, boundary) != s
  {
    FindNone(s, pat, boundary);
    if |rep| > |pat| {
      RewriteLengthens(s, pat, rep, boundary);
    } else if |rep| < |pat| {
      RewriteShortens(s, pat, rep, boundary);
    } else {
      assert exists j | 0 <= j < |pat| :: pat[j] != rep[j];
      var j :| 0 <= j < |pat| && pat[j] != rep[j];
      RewriteChangesChar(s, pat, rep, boundary, j);
    }
  }

  /**
   * A rule leaves the text byte-identical exactly when it finds nothing to
   * rewrite or rewrites a pattern into itself.
   */
  lemma ReplaceUnchangedIff(s: Text, pat: Text, rep: Text, boundary: bool)
    requires |pat| > 0
    ensures Replace(s, pat, rep, boundary) == s <==> (!Matches(s, pat, boundary) || rep == pat)
  {
    if rep == pat {
      ReplaceBySelf(s, pat, boundary);
    } else if Matches(s, pat, boundary) {
      RewriteChanges(s, pat, rep, boundary);
    } else {
      NoMatchUnchanged(s, pat, rep, boundary);
    }
  }

  /** When the rule rewrites something, its replacement text is in the result. */
  lemma ReplaceEmitsReplacement(s: Text, pat: Text, rep: Text, boundary: bool)
    requires |pat| > 0 && Matches(s, pat, boundary)
    ensures Contains(Replace(s, pat, rep, boundary), rep)
  {
    FindNone(s, pat, boundary);
    var i := Find(s, pat, boundary);
    ContainsMiddle(s[0..i], rep, ReplaceFrom(s, pat, rep, boundary, i + |pat|));
  }

  /**
   * A guarded rule whose replacement contains its own guard marker is
   * idempotent: once it has fired, the marker blocks it.
   */
  lemma GuardedIdempotent(s: Text, marker: Text, pat: Text, rep: Text, boundary: bool)
    requires |pat| > 0 && Contains(rep, marker)
    ensures var once := ReplaceUnless(s, marker, pat, rep, boundary);
            ReplaceUnless(once, marker, pat, rep, boundary) == once
  {
    if !Contains(s, marker) {
      if Matches(s, pat, boundary) {
        ReplaceEmitsReplacement(s, pat, rep, boundary);
        ContainsTrans(Replace(s, pat, rep, boundary), rep, marker);
      } else {
        NoMatchUnchanged(s, pat, rep, boundary);
      }
    }
  }

  // ---------------------------------------------------------------------------
  // Equal-length rules

  /**
   * Under an equal-length rule a character changes only inside a rewritten
   * match, at an offset where the pattern and the replacement differ: where
   * every match covering `x` agrees with `rep` at `x`, the character stays.
   */
  lemma {:induction false} ReplaceFromPointwise(s: Text, pat: Text, rep: Text, boundary: bool, k: nat, x: nat)
    requires |pat| > 0 && |rep| == |pat| && k <= x < |s|
    requires forall m | k <= m <= x < m + |pat| && MatchAt(s, pat, m, boundary) :: pat[x - m] == rep[x - m]
    ensures |ReplaceFrom(s, pat, rep, boundary, k)| == |s| - k
    ensures ReplaceFrom(s, pat, rep, boundary, k)[x - k] == s[x]
    decreases |s| - k
  {
    ReplaceSameLength(s, pat, rep, boundary, k);
    var i := FindFrom(s, pat, boundary, k);
    var r := ReplaceFrom(s, pat, rep, boundary, k);
    if i < 0 {
      assert r[x - k] == s[k..][x - k];
    } else {
      var d := i + |pat|;
      if x < i {
        assert r[x - k] == s[k..i][x - k];
      } else if x < d {
        MatchAtOccurs(s, pat, i, boundary);
        assert r[x - k] == rep[x - i];
        assert s[x] == s[i..d][x - i] == pat[x - i];
      } else {
        ReplaceFromPointwise(s, pat, rep, boundary, d, x);
        ReplaceSameLength(s, pat, rep, boundary, d);
        assert r[x - k] == ReplaceFrom(s, pat, rep, boundary, d)[x - d];
      }
    }
  }

  /**
   * Under an equal-length rule a character changes only inside a rewritten
   * match, at an offset where the pattern and the replacement differ.
   */
  lemma ReplacePointwise(s: Text, pat: Text, rep: Text, boundary: bool, x: nat)
    requires |pat| > 0 && |rep| == |pat| && x < |s|
    requires forall m | 0 <= m <= x < m + |pat| && MatchAt(s, pat, m, boundary) :: pat[x - m] == rep[x - m]
    ensures |Replace(s, pat, rep, boundary)| == |s|
    ensures Replace(s, pat, rep, boundary)[x] == s[x]
  {
    ReplaceFromPointwise(s, pat, rep, boundary, 0, x);
  }

  /** A literal replace-all with a different replacement leaves the text as it was exactly when the pattern is absent. */
  lemma ReplaceAllUnchangedIff(s: Text, pat: Text, rep: Text)
    requires |pat| > 0 && rep != pat
    ensures ReplaceAll(s, pat, rep) == s <==> !Contains(s, pat)
  {
    ReplaceUnchangedIff(s, pat, rep, false);
    PlainMatches(s, pat);
  }

  /** A literal replace-all leaves text without the pattern as it was. */
  lemma AbsentUnchanged(s: Text, pat: Text, rep: Text)
    requires |pat| > 0 && !Contains(s, pat)
    ensures ReplaceAll(s, pat, rep) == s
  {
    PlainMatches(s, pat);
    NoMatchUnchanged(s, pat, rep, false);
  }

  /**
   * Head separation from the characters: the first characters differ, and
   * neither occurs in the rest of the other text.
   */
  lemma HeadSeparatedBy(qh: Text, qt: Text, rh: Text, rt: Text)
    requires |qh| == 1 && |rh| == 1 && qh[0] != rh[0]
    requires Free(rh[0], qt) && Free(qh[0], rt)
    ensures HeadSeparated(qh + qt, rh + rt)
  {
    var q, rep := qh + qt, rh + rt;
    assert forall i | 1 <= i < |q| :: q[i] == qt[i - 1];
    assert forall i | 1 <= i < |rep| :: rep[i] == rt[i - 1];
    assert q[0] != rep[0];
  }

  /**
   * Tail separation from the characters: neither last character occurs in
   * the rest of the other text, and the texts differ somewhere from the end.
   */
  lemma TailSeparatedBy(qb: Text, qe: Text, rb: Text, re: Text)
    requires |qe| == 1 && |re| == 1
    requires Free(qe[0], rb) && Free(re[0], qb)
    requires SuffixClash(qb + qe, rb + re)
    ensures TailSeparated(qb + qe, rb + re)
  {
    var q, rep := qb + qe, rb + re;
    assert forall i | 0 <= i < |q| - 1 :: q[i] == qb[i];
    assert forall i | 0 <= i < |rep| - 1 :: rep[i] == rb[i];
  }
}
