/**
 * Python's `content.split('\n')` and `'\n'.join(lines)`, the line view the
 * ranking-page filter works on.
 */
module Lines {
  import opened Strings

  const NewLine: char := '\n'

  /** Python `s.split('\n')`: the pieces between line breaks, at least one. */
  function Split(s: Text): (r: seq<Text>)
    ensures |r| >= 1
    ensures forall i | 0 <= i < |r| :: NewLine !in r[i]
    decreases |s|
  {
    if |s| == 0 then [[]]
    else
      var rest := Split(s[1..]);
      if s[0] == NewLine then [[]] + rest
      else [[s[0]] + rest[0]] + rest[1..]
  }

  /** Python `'\n'.join(lines)`. */
  function Join(lines: seq<Text>): Text
    decreases |lines|
  {
    if |lines| == 0 then []
    else if |lines| == 1 then lines[0]
    else lines[0] + [NewLine] + Join(lines[1..])
  }

  /** Joining the pieces of a split gives the text back byte for byte. */
  lemma {:induction false} JoinSplit(s: Text)
    ensures Join(Split(s)) == s
    decreases |s|
  {
    if |s| > 0 {
      var rest := Split(s[1..]);
      JoinSplit(s[1..]);
      if s[0] == NewLine {
        assert ([[]] + rest)[1..] == rest;
      } else {
        var first := [s[0]] + rest[0];
        var r := [first] + rest[1..];
        assert r[1..] == rest[1..];
        if |rest| > 1 {
          assert Join(rest) == rest[0] + [NewLine] + Join(rest[1..]);
        }
      }
    }
  }

  /** A text without a line break is a single line. */
  lemma {:induction false} SplitOneLine(a: Text)
    requires NewLine !in a
    ensures Split(a) == [a]
    decreases |a|
  {
    if |a| > 0 {
      SplitOneLine(a[1..]);
      assert [a[0]] + a[1..] == a;
    }
  }

  /** A break after a first line without breaks splits that line off. */
  lemma {:induction false} SplitFirstLine(a: Text, b: Text)
    requires NewLine !in a
    ensures Split(a + [NewLine] + b) == [a] + Split(b)
    decreases |a|
  {
    var t := a + [NewLine] + b;
    if |a| == 0 {
      assert t[1..] == b;
    } else {
      assert t[1..] == a[1..] + [NewLine] + b;
      SplitFirstLine(a[1..], b);
      assert [a[0]] + a[1..] == a;
    }
  }

  /** Splitting a join of break-free lines gives the lines back. */
  lemma {:induction false} SplitJoin(lines: seq<Text>)
    requires |lines| >= 1
    requires forall i | 0 <= i < |lines| :: NewLine !in lines[i]
    ensures Split(Join(lines)) == lines
    decreases |lines|
  {
    if |lines| == 1 {
      SplitOneLine(lines[0]);
    } else {
      SplitJoin(lines[1..]);
      SplitFirstLine(lines[0], Join(lines[1..]));
      assert [lines[0]] + lines[1..] == lines;
    }
  }

  /**
   * `a` is a subsequence of `b`: `b` with some elements left out, the rest
   * in their original order.
   */
  predicate Subsequence(a: seq<Text>, b: seq<Text>)
    decreases |b|
  {
    if |a| == 0 then true
    else if |b| == 0 then false
    else (a[|a| - 1] == b[|b| - 1] && Subsequence(a[..|a| - 1], b[..|b| - 1]))
         || Subsequence(a, b[..|b| - 1])
  }
}
