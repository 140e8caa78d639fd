/**
 * `re.sub` over an abstract regular-expression engine. The engine itself
 * (DOTALL `.*?`, `\s*`, `[^>]*`, `\w+`, lookahead) is not modelled: a rule
 * receives the matches the engine reports for its pattern as a list of
 * hits, and `Sub` rebuilds the text from the gaps between them and what the
 * replacement emits for each.
 */
module Regex {
  import opened Strings

  /** One reported match: the span `[start, end)` it covers and its capture groups (group 0 is the whole match). */
  datatype Hit = Hit(start: nat, end: nat, groups: seq<Text>)

  /** Capture group `n` of a hit; a group the pattern does not have reads as empty. */
  function Group(h: Hit, n: nat): Text
  {
    if n < |h.groups| then h.groups[n] else []
  }

  /** A piece of a replacement template: literal text, or a back-reference `\n`. */
  datatype Part = Lit(text: Text) | Ref(group: nat)

  /** What `re.sub` is given as its replacement: a template string or a function of the match. */
  datatype Replacement = Template(parts: seq<Part>) | Callback(f: Hit -> Text)

  /** The text a template produces for one hit. */
  function Expand(parts: seq<Part>, h: Hit): Text
    decreases |parts|
  {
    if |parts| == 0 then []
    else
      var head := match parts[0] case Lit(t) => t case Ref(n) => Group(h, n);
      head + Expand(parts[1..], h)
  }

  /** The text a replacement produces for one hit. */
  function Emit(r: Replacement, h: Hit): Text
  {
    match r
    case Template(parts) => Expand(parts, h)
    case Callback(f) => f(h)
  }

  /** A replacement without back-references. */
  function Literal(t: Text): (r: Replacement)
    ensures forall h :: Emit(r, h) == t
  {
    var r := Template([Lit(t)]);
    assert forall h :: Expand(r.parts, h) == t + [];
    r
  }

  /**
   * The hits are what an engine scanning left to right reports: each lies in
   * `s`, starts at or after `pos` and at or after the end of the previous one.
   */
  predicate Ordered(s: Text, hits: seq<Hit>, pos: nat)
    decreases |hits|
  {
    |hits| == 0 || (pos <= hits[0].start <= hits[0].end <= |s| && Ordered(s, hits[1..], hits[0].end))
  }

  /**
   * Rebuild `s` from `pos` on: the text up to each hit is kept, the hit's span
   * is replaced by what `r` emits for it. A hit that is not ordered after the
   * previous one is ignored (an engine never reports one).
   */
  function SubFrom(s: Text, hits: seq<Hit>, r: Replacement, pos: nat): Text
    requires pos <= |s|
    decreases |hits|
  {
    if |hits| == 0 then s[pos..]
    else
      var h := hits[0];
      if pos <= h.start <= h.end <= |s| then s[pos..h.start] + Emit(r, h) + SubFrom(s, hits[1..], r, h.end)
      else SubFrom(s, hits[1..], r, pos)
  }

  /** `re.sub(pattern, r, s)` where the engine reports `hits` for the pattern on `s`. */
  function Sub(s: Text, hits: seq<Hit>, r: Replacement): Text
  {
    SubFrom(s, hits, r, 0)
  }

  /** A pattern the engine does not find leaves the text as it is. */
  lemma SubNone(s: Text, r: Replacement)
    ensures Sub(s, [], r) == s
  {
    assert s[0..] == s;
  }

  /** When the engine finds something, what the replacement emits for the first match is in the result. */
  lemma SubEmits(s: Text, hits: seq<Hit>, r: Replacement)
    requires |hits| > 0 && Ordered(s, hits, 0)
    ensures Contains(Sub(s, hits, r), Emit(r, hits[0]))
  {
    var h := hits[0];
    ContainsMiddle(s[0..h.start], Emit(r, h), SubFrom(s, hits[1..], r, h.end));
  }

  /** When the engine finds something, a literal replacement is in the result. */
  lemma SubInstalls(s: Text, hits: seq<Hit>, t: Text)
    requires |hits| > 0 && Ordered(s, hits, 0)
    ensures Contains(Sub(s, hits, Literal(t)), t)
  {
    SubEmits(s, hits, Literal(t));
  }

  /** When the replacement ends with `m`, `m` is in the result. */
  lemma SubInstallsTail(s: Text, hits: seq<Hit>, a: Text, m: Text)
    requires |hits| > 0 && Ordered(s, hits, 0)
    ensures Contains(Sub(s, hits, Literal(a + m)), m)
  {
    SubInstalls(s, hits, a + m);
    ContainsMiddle(a, m, []);
    assert a + m + [] == a + m;
    ContainsTrans(Sub(s, hits, Literal(a + m)), a + m, m);
  }

  /**
   * The first reported match is replaced where it lies, wherever that is,
   * and the text before it is kept.
   */
  lemma SubFirstAt(s: Text, hits: seq<Hit>, t: Text)
    requires |hits| > 0 && Ordered(s, hits, 0)
    ensures OccursAt(Sub(s, hits, Literal(t)), t, hits[0].start)
    ensures Sub(s, hits, Literal(t))[..hits[0].start] == s[..hits[0].start]
  {
    var h := hits[0];
    var rest := SubFrom(s, hits[1..], Literal(t), h.end);
    assert Sub(s, hits, Literal(t)) == s[0..h.start] + t + rest;
    assert (s[0..h.start] + t + rest)[h.start..h.start + |t|] == t;
  }

  /** The text between two neighbouring hits, or before the first one: the gap that precedes hit `k`. */
  function GapStart(hits: seq<Hit>, pos: nat, k: nat): int
    requires k < |hits|
  {
    if k == 0 then pos else hits[k - 1].end
  }

  /** One step of `SubFrom` on ordered hits: the gap, the replacement, then the rest. */
  lemma SubFromHead(s: Text, hits: seq<Hit>, t: Text, pos: nat)
    requires pos <= |s| && Ordered(s, hits, pos) && |hits| > 0
    ensures pos <= hits[0].start <= hits[0].end <= |s| && Ordered(s, hits[1..], hits[0].end)
    ensures SubFrom(s, hits, Literal(t), pos)
            == s[pos..hits[0].start] + t + SubFrom(s, hits[1..], Literal(t), hits[0].end)
  {
  }

  /** The step of `SubFromEach`: what the rest of the result contains, the result contains. */
  lemma SubFromEachStep(s: Text, hits: seq<Hit>, t: Text, pos: nat, k: nat)
    requires pos <= |s| && Ordered(s, hits, pos) && 0 < k < |hits| && hits[0].end <= |s|
    requires GapStart(hits[1..], hits[0].end, k - 1) <= hits[1..][k - 1].start <= hits[1..][k - 1].end <= |s|
    requires Contains(SubFrom(s, hits[1..], Literal(t), hits[0].end),
                      s[GapStart(hits[1..], hits[0].end, k - 1)..hits[1..][k - 1].start] + t)
    ensures GapStart(hits, pos, k) <= hits[k].start <= hits[k].end <= |s|
    ensures Contains(SubFrom(s, hits, Literal(t), pos), s[GapStart(hits, pos, k)..hits[k].start] + t)
  {
    SubFromHead(s, hits, t, pos);
    assert hits[1..][k - 1] == hits[k];
    assert GapStart(hits[1..], hits[0].end, k - 1) == GapStart(hits, pos, k);
    ContainsRight(s[pos..hits[0].start] + t, SubFrom(s, hits[1..], Literal(t), hits[0].end),
                  s[GapStart(hits, pos, k)..hits[k].start] + t);
  }

  /**
   * Every reported match is replaced, not only the first: the gap before hit
   * `k`, followed by the replacement, is in the result.
   */
  lemma {:induction false} SubFromEach(s: Text, hits: seq<Hit>, t: Text, pos: nat, k: nat)
    requires pos <= |s| && Ordered(s, hits, pos) && k < |hits|
    ensures GapStart(hits, pos, k) <= hits[k].start <= hits[k].end <= |s|
    ensures Contains(SubFrom(s, hits, Literal(t), pos), s[GapStart(hits, pos, k)..hits[k].start] + t)
    decreases |hits|
  {
    SubFromHead(s, hits, t, pos);
    if k == 0 {
      ContainsLeft(s[pos..hits[0].start] + t, SubFrom(s, hits[1..], Literal(t), hits[0].end));
    } else {
      SubFromEach(s, hits[1..], t, hits[0].end, k - 1);
      SubFromEachStep(s, hits, t, pos, k);
    }
  }

  /** `SubFromEach` for the whole text. */
  lemma SubEach(s: Text, hits: seq<Hit>, t: Text, k: nat)
    requires Ordered(s, hits, 0) && k < |hits|
    ensures GapStart(hits, 0, k) <= hits[k].start <= hits[k].end <= |s|
    ensures Contains(Sub(s, hits, Literal(t)), s[GapStart(hits, 0, k)..hits[k].start] + t)
  {
    SubFromEach(s, hits, t, 0, k);
  }

  /** Where the last of `hits` ends. */
  function LastEnd(hits: seq<Hit>): int
    requires |hits| > 0
  {
    hits[|hits| - 1].end
  }

  /** The base case of `SubFromLast`: one hit. */
  lemma SubFromLastOne(s: Text, hits: seq<Hit>, t: Text, pos: nat)
    requires pos <= |s| && Ordered(s, hits, pos) && |hits| == 1
    ensures LastEnd(hits) <= |s| && EndsWith(SubFrom(s, hits, Literal(t), pos), s[LastEnd(hits)..])
  {
    SubFromHead(s, hits, t, pos);
    assert hits[1..] == [];
    EndsWithJoin(s[pos..hits[0].start] + t, s[hits[0].end..], s[hits[0].end..]);
  }

  /** The step of `SubFromLast`: what the rest of the result ends with, the result ends with. */
  lemma SubFromLastStep(s: Text, hits: seq<Hit>, t: Text, pos: nat)
    requires pos <= |s| && Ordered(s, hits, pos) && |hits| > 1
    requires hits[0].end <= |s| && LastEnd(hits[1..]) <= |s|
    requires EndsWith(SubFrom(s, hits[1..], Literal(t), hits[0].end), s[LastEnd(hits[1..])..])
    ensures LastEnd(hits) <= |s| && EndsWith(SubFrom(s, hits, Literal(t), pos), s[LastEnd(hits)..])
  {
    SubFromHead(s, hits, t, pos);
    assert LastEnd(hits[1..]) == LastEnd(hits);
    EndsWithJoin(s[pos..hits[0].start] + t, SubFrom(s, hits[1..], Literal(t), hits[0].end), s[LastEnd(hits)..]);
  }

  /** The text after the last reported match ends the result unchanged. */
  lemma {:induction false} SubFromLast(s: Text, hits: seq<Hit>, t: Text, pos: nat)
    requires pos <= |s| && Ordered(s, hits, pos) && |hits| > 0
    ensures LastEnd(hits) <= |s| && EndsWith(SubFrom(s, hits, Literal(t), pos), s[LastEnd(hits)..])
    decreases |hits|
  {
    if |hits| == 1 {
      SubFromLastOne(s, hits, t, pos);
    } else {
      SubFromHead(s, hits, t, pos);
      SubFromLast(s, hits[1..], t, hits[0].end);
      SubFromLastStep(s, hits, t, pos);
    }
  }

  /**
   * A deletion keeps everything outside the reported matches: the text before
   * the first one, every gap between two of them, and the text after the last.
   */
  lemma SubDeletesKeeps(s: Text, hits: seq<Hit>)
    requires Ordered(s, hits, 0) && |hits| > 0
    ensures hits[0].start <= |s| && Sub(s, hits, Literal([]))[..hits[0].start] == s[..hits[0].start]
    ensures forall k | 0 <= k < |hits| ::
              GapStart(hits, 0, k) <= hits[k].start <= |s| &&
              Contains(Sub(s, hits, Literal([])), s[GapStart(hits, 0, k)..hits[k].start])
    ensures LastEnd(hits) <= |s| && EndsWith(Sub(s, hits, Literal([])), s[LastEnd(hits)..])
  {
    SubFirstAt(s, hits, []);
    forall k | 0 <= k < |hits|
      ensures GapStart(hits, 0, k) <= hits[k].start <= |s|
      ensures Contains(Sub(s, hits, Literal([])), s[GapStart(hits, 0, k)..hits[k].start])
    {
      SubEach(s, hits, [], k);
      assert s[GapStart(hits, 0, k)..hits[k].start] + [] == s[GapStart(hits, 0, k)..hits[k].start];
    }
    SubFromLast(s, hits, [], 0);
  }

  /** A literal replacement separated from `q` does not create a `q`. */
  lemma {:induction false} SubFromKeepsAbsent(s: Text, hits: seq<Hit>, t: Text, q: Text, pos: nat)
    requires pos <= |s| && Separated(q, t) && !Contains(s, q)
    ensures !Contains(SubFrom(s, hits, Literal(t), pos), q)
    decreases |hits|
  {
    if |hits| == 0 {
      assert s[pos..] == s[pos..|s|];
      if Contains(s[pos..|s|], q) { ContainsSlice(s, pos, |s|, q); }
    } else {
      var h := hits[0];
      SubFromKeepsAbsent(s, hits[1..], t, q, if pos <= h.start <= h.end <= |s| then h.end else pos);
      if pos <= h.start <= h.end <= |s| {
        if Contains(s[pos..h.start], q) { ContainsSlice(s, pos, h.start, q); }
        NoStraddle(s[pos..h.start], t, SubFrom(s, hits[1..], Literal(t), h.end), q);
      }
    }
  }

  /** A literal replacement separated from `q` does not create a `q`. */
  lemma SubKeepsAbsent(s: Text, hits: seq<Hit>, t: Text, q: Text)
    requires Separated(q, t) && !Contains(s, q)
    ensures !Contains(Sub(s, hits, Literal(t)), q)
  {
    SubFromKeepsAbsent(s, hits, t, q, 0);
  }

  /** Inner spans, one per hit, each lying within its hit. */
  predicate Nested(hits: seq<Hit>, inner: seq<Hit>)
    decreases |hits|
  {
    && |inner| == |hits|
    && (|hits| == 0 ||
        (hits[0].start <= inner[0].start <= inner[0].end <= hits[0].end && Nested(hits[1..], inner[1..])))
  }

  /** Each hit is rewritten to its own text with only its inner span replaced by `x`. */
  predicate ReEmits(s: Text, hits: seq<Hit>, inner: seq<Hit>, r: Replacement, x: Text)
    requires Nested(hits, inner)
    decreases |hits|
  {
    |hits| == 0 ||
    (&& (hits[0].end <= |s| ==>
          Emit(r, hits[0]) == s[hits[0].start..inner[0].start] + x + s[inner[0].end..hits[0].end])
     && ReEmits(s, hits[1..], inner[1..], r, x))
  }

  /** Regrouping the pieces around one rewritten match. */
  lemma Regroup(a: Text, gap: Text, g: Text, p: Text, x: Text, b: Text, rest: Text, irest: Text)
    requires a + gap == g && b + rest == irest
    ensures a + (gap + (p + x + b) + rest) == (g + p) + x + irest
  {
  }

  /** Rewriting a hit into prefix + `x` + suffix of its own text rewrites only the inner span. */
  lemma {:induction false} SubFromInner(s: Text, hits: seq<Hit>, inner: seq<Hit>, r: Replacement, x: Text, lo: nat, pos: nat)
    requires lo <= pos <= |s| && Ordered(s, hits, pos)
    requires Nested(hits, inner) && ReEmits(s, hits, inner, r, x)
    ensures s[lo..pos] + SubFrom(s, hits, r, pos) == SubFrom(s, inner, Literal(x), lo)
    decreases |hits|
  {
    if |hits| == 0 {
      SliceJoin(s, lo, pos, |s|);
      assert s[pos..] == s[pos..|s|] && s[lo..] == s[lo..|s|];
    } else {
      var h, i := hits[0], inner[0];
      SubFromInner(s, hits[1..], inner[1..], r, x, i.end, h.end);
      var rest := SubFrom(s, hits[1..], r, h.end);
      var irest := SubFrom(s, inner[1..], Literal(x), i.end);
      SliceJoin(s, lo, pos, h.start);
      SliceJoin(s, lo, h.start, i.start);
      Regroup(s[lo..pos], s[pos..h.start], s[lo..h.start], s[h.start..i.start], x, s[i.end..h.end], rest, irest);
    }
  }

  /**
   * A rule that re-emits the text around an inner span of each match and
   * replaces only that span by `x` is the rule that replaces the inner spans
   * by `x`: everything else in the text is kept.
   */
  lemma SubInner(s: Text, hits: seq<Hit>, inner: seq<Hit>, r: Replacement, x: Text)
    requires Ordered(s, hits, 0) && Nested(hits, inner) && ReEmits(s, hits, inner, r, x)
    ensures Sub(s, hits, r) == Sub(s, inner, Literal(x))
  {
    SubFromInner(s, hits, inner, r, x, 0, 0);
  }

  /** The number of characters the hits cover. */
  function Covered(hits: seq<Hit>): int
    decreases |hits|
  {
    if |hits| == 0 then 0 else hits[0].end - hits[0].start + Covered(hits[1..])
  }

  /** Deleting the matches removes exactly the characters they cover. */
  lemma {:induction false} SubFromDeletes(s: Text, hits: seq<Hit>, pos: nat)
    requires pos <= |s| && Ordered(s, hits, pos)
    ensures |SubFrom(s, hits, Literal([]), pos)| == |s| - pos - Covered(hits)
    decreases |hits|
  {
    if |hits| > 0 {
      SubFromDeletes(s, hits[1..], hits[0].end);
    }
  }

  /** Deleting the matches removes exactly the characters they cover. */
  lemma SubDeletes(s: Text, hits: seq<Hit>)
    requires Ordered(s, hits, 0)
    ensures |Sub(s, hits, Literal([]))| == |s| - Covered(hits)
  {
    SubFromDeletes(s, hits, 0);
  }

  // ---------------------------------------------------------------------------
  // Literal patterns

  /** Every hit spans an occurrence of `pat`. */
  predicate Occurrences(s: Text, pat: Text, hits: seq<Hit>)
    decreases |hits|
  {
    |hits| == 0 ||
    (&& hits[0].end == hits[0].start + |pat|
     && OccursAt(s, pat, hits[0].start)
     && Occurrences(s, pat, hits[1..]))
  }

  /** What the engine reports for a literal pattern: its leftmost non-overlapping accepted matches from `k` on. */
  function LiteralHitsFrom(s: Text, pat: Text, boundary: bool, k: nat): seq<Hit>
    requires |pat| > 0 && k <= |s|
    decreases |s| - k
  {
    var i := FindFrom(s, pat, boundary, k);
    if i < 0 then [] else [Hit(i, i + |pat|, [pat])] + LiteralHitsFrom(s, pat, boundary, i + |pat|)
  }

  /** The hits of a literal pattern are ordered occurrences of it. */
  lemma {:induction false} LiteralHitsOccur(s: Text, pat: Text, boundary: bool, k: nat)
    requires |pat| > 0 && k <= |s|
    ensures Occurrences(s, pat, LiteralHitsFrom(s, pat, boundary, k))
    ensures Ordered(s, LiteralHitsFrom(s, pat, boundary, k), k)
    decreases |s| - k
  {
    var i := FindFrom(s, pat, boundary, k);
    if i >= 0 {
      var hits := LiteralHitsFrom(s, pat, boundary, k);
      LiteralHitsOccur(s, pat, boundary, i + |pat|);
      MatchAtOccurs(s, pat, i, boundary);
      assert hits[1..] == LiteralHitsFrom(s, pat, boundary, i + |pat|);
    }
  }

  /** One step of a literal substitution. */
  lemma SubStep(s: Text, h: Hit, rest: seq<Hit>, rep: Text, k: nat)
    requires k <= h.start <= h.end <= |s|
    ensures SubFrom(s, [h] + rest, Literal(rep), k) == s[k..h.start] + rep + SubFrom(s, rest, Literal(rep), h.end)
  {
    assert ([h] + rest)[1..] == rest;
  }
  /**
   * A single match whose end is followed by `q` (a lookahead that the match
   * does not consume): after the rule the replacement is followed by `q`.
   */
  lemma SubOneFollowed(s: Text, h: Hit, t: Text, q: Text)
    requires h.start <= h.end <= |s| && OccursAt(s, q, h.end)
    ensures Contains(Sub(s, [h], Literal(t)), t + q)
  {
    SubStep(s, h, [], t, 0);
    assert [h] + [] == [h];
    var rest := s[h.end..];
    assert rest == q + rest[|q|..];
    ContainsMiddle(s[0..h.start], t + q, rest[|q|..]);
    assert s[0..h.start] + t + rest == s[0..h.start] + (t + q) + rest[|q|..];
  }

  /**
   * When, moreover, the replacement itself ends with `q`, the result holds
   * `q` twice in a row.
   */
  lemma SubOneDoubles(s: Text, hits: seq<Hit>, head: Text, q: Text)
    requires |hits| == 1 && Ordered(s, hits, 0) && OccursAt(s, q, hits[0].end)
    ensures Contains(Sub(s, hits, Literal(head + q)), head + q + q)
    ensures Contains(Sub(s, hits, Literal(head + q)), q + q)
  {
    var h := hits[0];
    assert hits == [h];
    SubOneFollowed(s, h, head + q, q);
    var r := Sub(s, hits, Literal(head + q));
    assert head + q + q == head + (q + q);
    ContainsTail(r, head, q + q);
  }

  /** The hits of a literal pattern from `k` on: the leftmost match, then the hits after it. */
  lemma LiteralHitsStep(s: Text, pat: Text, boundary: bool, k: nat, i: nat)
    requires |pat| > 0 && k <= |s| && FindFrom(s, pat, boundary, k) == i
    ensures i + |pat| <= |s|
    ensures LiteralHitsFrom(s, pat, boundary, k) == [Hit(i, i + |pat|, [pat])] + LiteralHitsFrom(s, pat, boundary, i + |pat|)
  {
  }

  /** Substituting at the matches of a literal pattern is replacing the pattern. */
  lemma {:induction false} LiteralSubFrom(s: Text, pat: Text, rep: Text, boundary: bool, k: nat)
    requires |pat| > 0 && k <= |s|
    ensures SubFrom(s, LiteralHitsFrom(s, pat, boundary, k), Literal(rep), k) == ReplaceFrom(s, pat, rep, boundary, k)
    decreases |s| - k
  {
    var i := FindFrom(s, pat, boundary, k);
    if i >= 0 {
      var h := Hit(i, i + |pat|, [pat]);
      var rest := LiteralHitsFrom(s, pat, boundary, i + |pat|);
      LiteralHitsStep(s, pat, boundary, k, i);
      LiteralSubFrom(s, pat, rep, boundary, i + |pat|);
      SubStep(s, h, rest, rep, k);
    }
  }

  /** `re.sub` on a pattern without metacharacters is `str.replace` (and `\b` after it is `ReplaceAtWordEnd`). */
  lemma LiteralSub(s: Text, pat: Text, rep: Text, boundary: bool)
    requires |pat| > 0
    ensures Sub(s, LiteralHitsFrom(s, pat, boundary, 0), Literal(rep)) == Replace(s, pat, rep, boundary)
  {
    LiteralSubFrom(s, pat, rep, boundary, 0);
  }

  /** The part of each hit from offset `off` on, `len` characters long. */
  function Narrow(hits: seq<Hit>, off: nat, len: nat): (r: seq<Hit>)
    ensures |r| == |hits|
    decreases |hits|
  {
    if |hits| == 0 then []
    else [Hit(hits[0].start + off, hits[0].start + off + len, hits[0].groups)] + Narrow(hits[1..], off, len)
  }

  /** `rep` is `pat` with its `len` characters from offset `off` replaced by `x`. */
  predicate MiddleRule(pat: Text, rep: Text, off: nat, len: nat, x: Text)
  {
    off + len <= |pat| && rep == pat[..off] + x + pat[off + len..]
  }

  /** At a match of `pat`, a middle rule's replacement is the match with its middle replaced. */
  lemma MatchParts(s: Text, i: nat, pat: Text, rep: Text, off: nat, len: nat, x: Text)
    requires MiddleRule(pat, rep, off, len, x) && OccursAt(s, pat, i)
    ensures rep == s[i..i + off] + x + s[i + off + len..i + |pat|]
  {
    SliceOfSlice(s, i, i + |pat|, 0, off);
    SliceOfSlice(s, i, i + |pat|, off + len, |pat| - off - len);
  }

  /** Occurrences narrowed to a span inside the pattern lie inside them. */
  lemma {:induction false} NarrowNested(s: Text, pat: Text, hits: seq<Hit>, off: nat, len: nat)
    requires off + len <= |pat| && Occurrences(s, pat, hits)
    ensures Nested(hits, Narrow(hits, off, len))
    decreases |hits|
  {
    if |hits| > 0 {
      NarrowNested(s, pat, hits[1..], off, len);
    }
  }

  /** A middle rule re-emits each occurrence of its pattern with only the middle replaced. */
  lemma {:induction false} NarrowReEmits(s: Text, pat: Text, rep: Text, off: nat, len: nat, x: Text, hits: seq<Hit>)
    requires MiddleRule(pat, rep, off, len, x) && Occurrences(s, pat, hits)
    ensures Nested(hits, Narrow(hits, off, len))
    ensures ReEmits(s, hits, Narrow(hits, off, len), Literal(rep), x)
    decreases |hits|
  {
    NarrowNested(s, pat, hits, off, len);
    if |hits| > 0 {
      var h, inner := hits[0], Narrow(hits, off, len);
      NarrowReEmits(s, pat, rep, off, len, x, hits[1..]);
      assert inner[0] == Hit(h.start + off, h.start + off + len, h.groups);
      assert inner[1..] == Narrow(hits[1..], off, len);
      MatchParts(s, h.start, pat, rep, off, len, x);
      assert Emit(Literal(rep), h) == rep;
    }
  }

  /**
   * A literal rule whose pattern `P + M + Q` and replacement `P + x + Q`
   * differ only in the middle rewrites nothing but the `M` of each match:
   * it is the substitution of `x` for those middles.
   */
  lemma LiteralMiddle(s: Text, p: Text, m: Text, q: Text, x: Text, boundary: bool)
    requires |p + m + q| > 0
    ensures Replace(s, p + m + q, p + x + q, boundary)
            == Sub(s, Narrow(LiteralHitsFrom(s, p + m + q, boundary, 0), |p|, |m|), Literal(x))
  {
    var pat, rep := p + m + q, p + x + q;
    var hits := LiteralHitsFrom(s, pat, boundary, 0);
    assert pat[..|p|] == p && pat[|p| + |m|..] == q;
    LiteralHitsOccur(s, pat, boundary, 0);
    LiteralSubFrom(s, pat, rep, boundary, 0);
    NarrowReEmits(s, pat, rep, |p|, |m|, x, hits);
    SubInner(s, hits, Narrow(hits, |p|, |m|), Literal(rep), x);
  }

  // ---------------------------------------------------------------------------
  // Patterns of three capture groups: `(A)(B)(C)` rewritten to `\1x\3`

  /** Each hit's text is its groups 1, 2 and 3 in a row, as for a pattern `(A)(B)(C)`. */
  predicate Framed(s: Text, hits: seq<Hit>)
    decreases |hits|
  {
    |hits| == 0 ||
    (&& hits[0].start <= hits[0].end <= |s|
     && s[hits[0].start..hits[0].end] == Group(hits[0], 1) + Group(hits[0], 2) + Group(hits[0], 3)
     && Framed(s, hits[1..]))
  }

  /** The span of group 2 in each hit. */
  function Middles(hits: seq<Hit>): (r: seq<Hit>)
    ensures |r| == |hits|
    decreases |hits|
  {
    if |hits| == 0 then []
    else
      var h := hits[0];
      var lo := h.start + |Group(h, 1)|;
      [Hit(lo, lo + |Group(h, 2)|, h.groups)] + Middles(hits[1..])
  }

  /** The template `\1x\3`: keep groups 1 and 3, put `x` in place of group 2. */
  function Reframe(x: Text): Replacement
  {
    Template([Ref(1), Lit(x), Ref(3)])
  }

  /** What `\1x\3` emits for a hit. */
  lemma ReframeEmits(x: Text, h: Hit)
    ensures Emit(Reframe(x), h) == Group(h, 1) + x + Group(h, 3)
  {
    var parts := [Ref(1), Lit(x), Ref(3)];
    assert parts[1..] == [Lit(x), Ref(3)] && parts[1..][1..] == [Ref(3)] && [Ref(3)][1..] == [];
    assert Expand([Ref(3)], h) == Group(h, 3) + [];
    assert Expand(parts[1..], h) == x + Group(h, 3);
    assert Expand(parts, h) == Group(h, 1) + (x + Group(h, 3));
  }

  /** Group 1 and group 3 of a framed hit are the text before and after its middle. */
  lemma FrameParts(s: Text, h: Hit)
    requires h.start <= h.end <= |s| && s[h.start..h.end] == Group(h, 1) + Group(h, 2) + Group(h, 3)
    ensures var lo := h.start + |Group(h, 1)|;
            && s[h.start..lo] == Group(h, 1)
            && s[lo + |Group(h, 2)|..h.end] == Group(h, 3)
  {
    var g1, g2, g3 := Group(h, 1), Group(h, 2), Group(h, 3);
    SliceOfSlice(s, h.start, h.end, 0, |g1|);
    SliceOfSlice(s, h.start, h.end, |g1| + |g2|, |g3|);
    assert (g1 + g2 + g3)[..|g1|] == g1;
    assert (g1 + g2 + g3)[|g1| + |g2|..] == g3;
  }

  /** `\1x\3` re-emits each framed hit with only its middle replaced by `x`. */
  lemma {:induction false} FramedReEmits(s: Text, hits: seq<Hit>, x: Text)
    requires Framed(s, hits)
    ensures Nested(hits, Middles(hits))
    ensures ReEmits(s, hits, Middles(hits), Reframe(x), x)
    decreases |hits|
  {
    if |hits| > 0 {
      var h, inner := hits[0], Middles(hits);
      FramedReEmits(s, hits[1..], x);
      assert inner[1..] == Middles(hits[1..]);
      FrameParts(s, h);
      ReframeEmits(x, h);
    }
  }

  /**
   * A rewrite `(A)(B)(C)` to `\1x\3` re-emits groups 1 and 3 verbatim and
   * changes only group 2: it is the substitution of `x` for the middles.
   */
  lemma GroupMiddle(s: Text, hits: seq<Hit>, x: Text)
    requires Ordered(s, hits, 0) && Framed(s, hits)
    ensures Sub(s, hits, Reframe(x)) == Sub(s, Middles(hits), Literal(x))
  {
    FramedReEmits(s, hits, x);
    SubInner(s, hits, Middles(hits), Reframe(x), x);
  }

  /**
   * A literal rule whose pattern `P + Q` and replacement `P + x + Q` differ
   * only by the insertion of `x` inserts `x` after the `P` of each match and
   * changes nothing else.
   */
  lemma LiteralInsert(s: Text, p: Text, q: Text, x: Text, boundary: bool)
    requires |p + q| > 0
    ensures Replace(s, p + q, p + x + q, boundary)
            == Sub(s, Narrow(LiteralHitsFrom(s, p + q, boundary, 0), |p|, 0), Literal(x))
  {
    assert p + [] + q == p + q;
    LiteralMiddle(s, p, [], q, x, boundary);
  }
}
