/**
 * The millisecond-to-second display rules the three customisation scripts
 * share: a JSX expression `{v}ms` becomes `{(v/1000).toFixed(3)}s`, and an
 * expression already divided but still labelled `ms` has its label fixed.
 * The lemmas say when such a rule removes every occurrence of what it
 * rewrites, keeps other rules' work intact, and changes a single character.
 */
module Units {
  import opened Strings
  import opened Regex

  /** An expression the rules name: it holds no `{` and no `(`. */
  predicate Name(v: Text)
  {
    Free('{', v) && Free('(', v)
  }

  /** The divisor as most rules write it. */
  const Div: Text := "/1000"

  /** The divisor as the ranking-page rules write it. */
  const SpacedDiv: Text := " / 1000"

  /** `{v}ms`: the value of `v` shown in milliseconds. */
  function Ms(v: Text): Text
  {
    "{" + v + "}ms"
  }

  /** `(v/1000).toFixed(3)`: the value of `v` converted to seconds, three decimals. */
  function InSeconds(v: Text, div: Text): Text
  {
    "(" + v + div + ").toFixed(3)"
  }

  /** `{(v/1000).toFixed(3)}s`: the converted value shown in seconds. */
  function Seconds(v: Text, div: Text): Text
  {
    "{" + InSeconds(v, div) + "}s"
  }

  /** `{(v/1000).toFixed(3)}`: the converted value without a unit. */
  function Bare(v: Text, div: Text): Text
  {
    "{" + InSeconds(v, div) + "}"
  }

  /** `(v/1000).toFixed(3)}ms`: a converted value still labelled `ms`. */
  function StaleMs(v: Text): Text
  {
    InSeconds(v, Div) + "}" + "m" + "s"
  }

  /** `(v/1000).toFixed(3)}s`: the same value with its label fixed. */
  function FixedS(v: Text): Text
  {
    InSeconds(v, Div) + "}" + "" + "s"
  }

  // The expressions the rules convert.
  const Time: Text := "time"
  const Reaction: Text := "reaction"
  const StatsAverage: Text := "stats.average"
  const StatsStdDev: Text := "stats.stdDev"
  const RTime: Text := "r.time"
  const RReaction: Text := "r.reaction"
  const ResultTime: Text := "result.time"
  const ResultAvgTime: Text := "result.avgTime"
  const RecordAvgTime: Text := "record.avgTime"

  /** Every expression the rules convert is a name. */
  lemma NamesArePlain()
    ensures Name(Time) && Name(Reaction) && Name(StatsAverage) && Name(StatsStdDev)
    ensures Name(RTime) && Name(RReaction) && Name(ResultTime) && Name(ResultAvgTime) && Name(RecordAvgTime)
  {
  }

  /**
   * A replacement that starts with `(` or `{(` and has no other `{` cannot
   * complete an occurrence of `{v}ms` together with the text around it.
   */
  lemma MsSeparated(v: Text, rep: Text)
    requires Name(v)
    requires |rep| >= 2 && (forall i | 1 <= i < |rep| :: rep[i] != '{')
    requires rep[0] == '(' || (rep[0] == '{' && rep[1] == '(')
    ensures HeadSeparated(Ms(v), rep) && Separated(Ms(v), rep)
  {
    var q := Ms(v);
    assert forall i | 1 <= i < |q| :: q[i] == (if i <= |v| then v[i - 1] else "}ms"[i - |v| - 1]);
    if rep[0] == '(' {
      assert q[0] != rep[0];
    } else {
      assert q[1] != rep[1];
    }
  }

  /** The seconds form of a name never recreates any `{v}ms`. */
  lemma SecondsSeparated(v: Text, w: Text, div: Text)
    requires Name(v) && Free('{', w) && Free('{', div)
    ensures Separated(Ms(v), Seconds(w, div)) && Separated(Ms(v), Bare(w, div))
  {
    var rep, bare := Seconds(w, div), Bare(w, div);
    assert forall i | 1 <= i < |rep| :: rep[i] == (InSeconds(w, div) + "}s")[i - 1];
    assert forall i | 1 <= i < |bare| :: bare[i] == (InSeconds(w, div) + "}")[i - 1];
    MsSeparated(v, rep);
    MsSeparated(v, bare);
  }

  /** The fixed-up label never recreates any `{v}ms`. */
  lemma FixedSSeparated(v: Text, w: Text)
    requires Name(v) && Free('{', w)
    ensures Separated(Ms(v), FixedS(w))
  {
    var rep := FixedS(w);
    assert forall i | 1 <= i < |rep| :: rep[i] == ("" + w + Div + ").toFixed(3)" + "}" + "" + "s")[i - 1];
    MsSeparated(v, rep);
  }

  /** The seconds form holds the converted expression, so a rule guarded by it runs at most once. */
  lemma SecondsMarked(v: Text, div: Text)
    ensures Contains(Seconds(v, div), InSeconds(v, div))
    ensures Contains(Bare(v, div), InSeconds(v, div))
  {
    ContainsMiddle("{", InSeconds(v, div), "}s");
    ContainsMiddle("{", InSeconds(v, div), "}");
  }

  /** The unit rule for `v`: every `{v}ms` becomes `{(v/1000).toFixed(3)}s`. */
  function ToSeconds(c: Text, v: Text): Text
  {
    ReplaceAll(c, Ms(v), Seconds(v, Div))
  }

  /** After the unit rule for a name, no `{v}ms` remains, and running it again changes nothing. */
  lemma ToSecondsClean(c: Text, v: Text)
    requires Name(v)
    ensures !Contains(ToSeconds(c, v), Ms(v))
    ensures ToSeconds(ToSeconds(c, v), v) == ToSeconds(c, v)
  {
    SecondsSeparated(v, v, Div);
    ReplaceEliminates(c, Ms(v), Seconds(v, Div));
    ReplaceAllIdempotent(c, Ms(v), Seconds(v, Div));
  }

  /** The unit rule for one name does not bring back `{w}ms` for another. */
  lemma ToSecondsKeeps(c: Text, v: Text, w: Text)
    requires Name(v) && Name(w) && !Contains(c, Ms(w))
    ensures !Contains(ToSeconds(c, v), Ms(w))
  {
    SecondsSeparated(w, v, Div);
    ReplaceKeepsAbsent(c, Ms(v), Seconds(v, Div), false, Ms(w));
  }

  /** The label fix for `v`: every `(v/1000).toFixed(3)}ms` becomes `(v/1000).toFixed(3)}s`. */
  function FixLabel(c: Text, v: Text): Text
  {
    ReplaceAll(c, StaleMs(v), FixedS(v))
  }

  /**
   * The label fix deletes the `m` of each stale label and touches nothing
   * else: it is the substitution of the empty text for the one-character
   * span after `(v/1000).toFixed(3)}` in each match.
   */
  lemma FixLabelDeletesM(c: Text, v: Text)
    ensures FixLabel(c, v)
            == Sub(c, Narrow(LiteralHitsFrom(c, StaleMs(v), false, 0), |InSeconds(v, Div)| + 1, 1), Literal(""))
  {
    LiteralMiddle(c, InSeconds(v, Div) + "}", "m", "s", "", false);
  }

  /** The label fix does not bring back any `{w}ms`. */
  lemma FixLabelKeeps(c: Text, v: Text, w: Text)
    requires Name(w) && Free('{', v) && !Contains(c, Ms(w))
    ensures !Contains(FixLabel(c, v), Ms(w))
  {
    FixedSSeparated(w, v);
    ReplaceKeepsAbsent(c, StaleMs(v), FixedS(v), false, Ms(w));
  }
}
