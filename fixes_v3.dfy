/**
 * The third patch script (`apply_shimane_fixes_v3.py`): the title revert
 * again, a badge rewrite gated on the simple-mode section, a ranking area
 * that ends the JSX fragment, the ranking page's sprint button, grid and
 * unit displays, and a longer list of training-page unit rules, the first
 * four of them folded over a list.
 */
module FixesV3 {
  import opened Strings
  import opened Regex
  import opened Units
  import opened Disk
  import FixesV2

  /** The rules of the script whose patterns are real regular expressions. */
  datatype Pattern =
    | SimpleSection  // the simple-mode card, searched for but not rewritten
    | BadgePair      // the 認知 badge, blanks, the 行動 badge
    | RankingArea    // the ranking area up to the `</>` that closes the fragment
    | SprintButton   // the `<button>` that filters on the sprint mode
    | BestRecord     // the user's best time, `{userBestRecord.reactionTime}` and an `ms` span
    | RecordTime     // a ranking entry's time
    | AverageTime    // the mean of the filtered records, rounded
    | FastestTime    // the fastest filtered record
    | Participants   // the participant count
    | TimeSpan       // `{time}`, blanks, a span holding `ms`
    | ReactionSpan   // `{reaction}`, blanks, a span holding `ms`

  /** What the engine reports for each pattern on a text. */
  type Engine = (Pattern, Text) -> seq<Hit>

  // ---------------------------------------------------------------------------
  // app/page.tsx

  /** The three badges, without the surrounding row. */
  function BadgesV3(): Text
  {
    FixesV2.RedBadge + FixesV2.Indent + FixesV2.BlueBadge + FixesV2.Indent + FixesV2.GreenBadge
  }

  /** `</>`: the close of a JSX fragment. */
  const FragmentClose: Text := "</>"

  /** The ranking area of the second script and the indent of the line after it. */
  function RankingHead(): Text
  {
    FixesV2.NewRankingSection + "\n        "
  }

  /**
   * The ranking rule's replacement: the ranking area, then a fragment close
   * on its own line, although the rule leaves the page's own `</>` in place.
   */
  function RankingV3(): Text
  {
    RankingHead() + FragmentClose
  }

  /** The badge rule: applied to the whole page, but only when the simple-mode section is found. */
  function GatedBadges(c: Text, rx: Engine): Text
  {
    if rx(SimpleSection, c) == [] then c else Sub(c, rx(BadgePair, c), Literal(BadgesV3()))
  }

  /** `fix_page_tsx`: title revert, gated badge rule, ranking area. */
  function FixPageV3(c: Text, rx: Engine): Text
  {
    var b := GatedBadges(FixesV2.Reverted(c), rx);
    Sub(b, rx(RankingArea, b), Literal(RankingV3()))
  }

  /**
   * Without the simple-mode section the badges are left alone, whatever
   * badge pairs the page has. A sanity fact that follows from the rule's guard.
   */
  lemma BadgesNeedSection(c: Text, rx: Engine)
    requires rx(SimpleSection, c) == []
    ensures GatedBadges(c, rx) == c
  {
  }

  /**
   * With the section found, the rewrite is not confined to it, and it is not
   * limited to one pair: every badge pair the engine reports anywhere in the
   * page is replaced where it lies. The text before the first pair is kept,
   * and each pair's new badges follow the text between it and the previous pair.
   */
  lemma BadgesAnywhere(c: Text, rx: Engine, k: nat)
    requires rx(SimpleSection, c) != []
    requires Ordered(c, rx(BadgePair, c), 0) && k < |rx(BadgePair, c)|
    ensures OccursAt(GatedBadges(c, rx), BadgesV3(), rx(BadgePair, c)[0].start)
    ensures GatedBadges(c, rx)[..rx(BadgePair, c)[0].start] == c[..rx(BadgePair, c)[0].start]
    ensures GapStart(rx(BadgePair, c), 0, k) <= rx(BadgePair, c)[k].start <= |c|
    ensures Contains(GatedBadges(c, rx), c[GapStart(rx(BadgePair, c), 0, k)..rx(BadgePair, c)[k].start] + BadgesV3())
  {
    SubFirstAt(c, rx(BadgePair, c), BadgesV3());
    SubEach(c, rx(BadgePair, c), BadgesV3(), k);
  }

  /** When the engine finds the ranking area, the new area, with its trailing `</>`, is on the page. */
  lemma FixPageV3InstallsArea(c: Text, rx: Engine)
    requires var b := GatedBadges(FixesV2.Reverted(c), rx);
             |rx(RankingArea, b)| > 0 && Ordered(b, rx(RankingArea, b), 0)
    ensures Contains(FixPageV3(c, rx), RankingV3())
  {
    var b := GatedBadges(FixesV2.Reverted(c), rx);
    SubInstalls(b, rx(RankingArea, b), RankingV3());
  }

  /**
   * The ranking pattern ends in the lookahead `(?=</>)`: the match stops
   * before the page's own `</>`, which stays. The replacement ends with a
   * `</>` of its own, so the page then closes the fragment twice.
   */
  lemma FixPageV3DoublesClose(c: Text, rx: Engine)
    requires var b := GatedBadges(FixesV2.Reverted(c), rx);
             var hs := rx(RankingArea, b);
             |hs| == 1 && Ordered(b, hs, 0) && OccursAt(b, FragmentClose, hs[0].end)
    ensures Contains(FixPageV3(c, rx), RankingV3() + FragmentClose)
    ensures Contains(FixPageV3(c, rx), FragmentClose + FragmentClose)
  {
    var b := GatedBadges(FixesV2.Reverted(c), rx);
    SubOneDoubles(b, rx(RankingArea, b), RankingHead(), FragmentClose);
  }

  // ---------------------------------------------------------------------------
  // app/ranking/page.tsx

  /** `grid-cols-2 md:grid-cols-`: the grid classes up to the column count. */
  const GridHead: Text := "grid-cols-2 md:grid-cols-"

  /** The five-column grid. */
  function GridOld(): Text
  {
    GridHead + "5"
  }

  /** The four-column grid. */
  function GridNew(): Text
  {
    GridHead + "4"
  }

  /** Every five-column grid becomes a four-column one. */
  function Regrid(c: Text): Text
  {
    ReplaceAll(c, GridOld(), GridNew())
  }

  /** The grid rule changes the column count of each match and nothing else. */
  lemma RegridOnlyCount(c: Text)
    ensures Regrid(c) == Sub(c, Narrow(LiteralHitsFrom(c, GridOld(), false, 0), |GridHead|, 1), Literal("4"))
  {
    assert GridOld() == GridHead + "5" + [] && GridNew() == GridHead + "4" + [];
    LiteralMiddle(c, GridHead, "5", [], "4", false);
  }

  /** The grid head holds neither column count. */
  lemma GridHeadFree()
    ensures Free('5', GridHead) && Free('4', GridHead)
  {
    var a, b: Text := "grid-cols-2 md:g", "rid-cols-";
    assert Free('5', a) && Free('4', a);
    assert Free('5', b) && Free('4', b);
    FreeConcat('5', a, b);
    FreeConcat('4', a, b);
  }

  /** After the grid rule no five-column grid is left, and a second run changes nothing. */
  lemma RegridClean(c: Text)
    ensures !Contains(Regrid(c), GridOld())
    ensures Regrid(Regrid(c)) == Regrid(c)
  {
    GridHeadFree();
    var five, four: Text := "5", "4";
    assert FromEnd(GridHead + five, 0) != FromEnd(GridHead + four, 0);
    TailSeparatedBy(GridHead, five, GridHead, four);
    ReplaceEliminates(c, GridOld(), GridNew());
    ReplaceAllIdempotent(c, GridOld(), GridNew());
  }

  // The replacements of the five display rules: an opening tag, the value, and the unit span.
  const BestOpen: Text :=
    "<p className=\"text-4xl font-bold\">\n" +
    "                "
  const BestValue: Text := "userBestRecord.reactionTime"
  const BestUnit: Text :=
    "\n" +
    "                <span className=\"text-xl\">s</span>"
  const RecordOpen: Text :=
    "<p className=\"text-xl font-bold text-gray-800\">\n" +
    "                      "
  const RecordValue: Text := "record.reactionTime"
  const RecordUnit: Text :=
    "\n" +
    "                      <span className=\"text-sm text-gray-500 ml-1\">s</span>"
  const StatOpen: Text :=
    "<p className=\"text-xl font-bold\">\n" +
    "                "
  const AverageValue: Text :=
    "{(\n" +
    "                  filteredRecords.reduce((sum, r) => sum + r.reactionTime, 0) /\n" +
    "                    filteredRecords.length / 1000\n" +
    "                ).toFixed(3)}"
  const FastestValue: Text := "(filteredRecords[0]?.reactionTime || 0)"
  const StatUnit: Text :=
    "\n" +
    "                <span className=\"text-sm\">s</span>"
  const ParticipantsValue: Text := "{new Set(filteredRecords.map(r => r.userId)).size}人"

  /** What a display rule writes: the value divided by 1000 to three decimals, then a span holding `s`. */
  function SecondsDisplay(open: Text, v: Text, unit: Text): Text
  {
    open + (Bare(v, SpacedDiv) + unit)
  }

  /** The replacement each display rule writes. */
  function DisplayRep(p: Pattern): Text
  {
    match p
    case BestRecord => SecondsDisplay(BestOpen, BestValue, BestUnit)
    case RecordTime => SecondsDisplay(RecordOpen, RecordValue, RecordUnit)
    case AverageTime => StatOpen + AverageValue + StatUnit
    case FastestTime => SecondsDisplay(StatOpen, FastestValue, StatUnit)
    case _ => StatOpen + ParticipantsValue
  }

  /** One display rule. */
  function Display(c: Text, rx: Engine, p: Pattern): Text
  {
    Sub(c, rx(p, c), Literal(DisplayRep(p)))
  }

  /** `fix_ranking_page_complete`: sprint button, grid, then the five display rules in order. */
  function FixRankingV3(c: Text, rx: Engine): Text
  {
    var c1 := Regrid(Sub(c, rx(SprintButton, c), Literal([])));
    var c2 := Display(Display(c1, rx, BestRecord), rx, RecordTime);
    Display(Display(Display(c2, rx, AverageTime), rx, FastestTime), rx, Participants)
  }

  /**
   * Removing the sprint buttons deletes as many characters as the engine
   * reports and keeps the rest: the text before the first button, every gap
   * between two buttons, and the text after the last. It deletes nothing
   * when the engine reports none.
   */
  lemma SprintRemoval(c: Text, rx: Engine)
    requires Ordered(c, rx(SprintButton, c), 0)
    ensures |Sub(c, rx(SprintButton, c), Literal([]))| == |c| - Covered(rx(SprintButton, c))
    ensures rx(SprintButton, c) == [] ==> Sub(c, rx(SprintButton, c), Literal([])) == c
    ensures var hits, r := rx(SprintButton, c), Sub(c, rx(SprintButton, c), Literal([]));
            |hits| > 0 ==>
              hits[0].start <= |c| && r[..hits[0].start] == c[..hits[0].start] &&
              (forall k | 0 <= k < |hits| ::
                 GapStart(hits, 0, k) <= hits[k].start <= |c| && Contains(r, c[GapStart(hits, 0, k)..hits[k].start])) &&
              LastEnd(hits) <= |c| && EndsWith(r, c[LastEnd(hits)..])
  {
    SubDeletes(c, rx(SprintButton, c));
    SubNone(c, Literal([]));
    if rx(SprintButton, c) != [] {
      SubDeletesKeeps(c, rx(SprintButton, c));
    }
  }

  /**
   * A rewritten time display shows the same value divided by 1000 with
   * `toFixed(3)`, followed by a span holding the unit `s`.
   */
  lemma DisplayInSeconds(c: Text, rx: Engine, p: Pattern)
    requires p == BestRecord || p == RecordTime || p == FastestTime
    requires |rx(p, c)| > 0 && Ordered(c, rx(p, c), 0)
    ensures p == BestRecord ==> Contains(Display(c, rx, p), Bare(BestValue, SpacedDiv) + BestUnit)
    ensures p == RecordTime ==> Contains(Display(c, rx, p), Bare(RecordValue, SpacedDiv) + RecordUnit)
    ensures p == FastestTime ==> Contains(Display(c, rx, p), Bare(FastestValue, SpacedDiv) + StatUnit)
  {
    var hits := rx(p, c);
    if p == BestRecord {
      SubInstallsTail(c, hits, BestOpen, Bare(BestValue, SpacedDiv) + BestUnit);
    } else if p == RecordTime {
      SubInstallsTail(c, hits, RecordOpen, Bare(RecordValue, SpacedDiv) + RecordUnit);
    } else {
      SubInstallsTail(c, hits, StatOpen, Bare(FastestValue, SpacedDiv) + StatUnit);
    }
  }

  // ---------------------------------------------------------------------------
  // Training pages

  /** The names of the rule list the script loops over, in its order. */
  const LoopNames: seq<Text> := [Time, Reaction, RTime, RReaction]

  /** The unit rules for `names` applied left to right, each to the previous one's output. */
  function Fold(c: Text, names: seq<Text>): Text
    decreases |names|
  {
    if |names| == 0 then c else Fold(ToSeconds(c, names[0]), names[1..])
  }

  /** The loop over the rule list. */
  method ConvertNames(c: Text, names: seq<Text>) returns (r: Text)
    ensures r == Fold(c, names)
  {
    r := c;
    for i := 0 to |names|
      invariant Fold(r, names[i..]) == Fold(c, names)
    {
      assert names[i..][1..] == names[i + 1..];
      r := ToSeconds(r, names[i]);
    }
    assert names[|names|..] == [];
  }

  /** The fold over the script's list is its four rules in order. */
  lemma FoldLoopNames(c: Text)
    ensures Fold(c, LoopNames) == ToSeconds(ToSeconds(ToSeconds(ToSeconds(c, Time), Reaction), RTime), RReaction)
  {
    var n := LoopNames;
    assert n[1..] == [Reaction, RTime, RReaction] && n[1..][1..] == [RTime, RReaction];
    assert n[1..][1..][1..] == [RReaction] && n[1..][1..][1..][1..] == [];
    var c1 := ToSeconds(c, Time);
    var c2 := ToSeconds(c1, Reaction);
    var c3 := ToSeconds(c2, RTime);
    assert Fold(c, n) == Fold(c1, n[1..]);
    assert Fold(c1, n[1..]) == Fold(c2, n[1..][1..]);
    assert Fold(c2, n[1..][1..]) == Fold(c3, n[1..][1..][1..]);
    assert Fold(c3, n[1..][1..][1..]) == Fold(ToSeconds(c3, RReaction), []);
  }

  /** Every name in the list is a name. */
  predicate AllNames(names: seq<Text>)
  {
    forall i | 0 <= i < |names| :: Name(names[i])
  }

  /** The fold does not bring back a `{w}ms` that is not there. */
  lemma {:induction false} FoldKeeps(c: Text, names: seq<Text>, w: Text)
    requires AllNames(names) && Name(w) && !Contains(c, Ms(w))
    ensures !Contains(Fold(c, names), Ms(w))
    decreases |names|
  {
    if |names| > 0 {
      ToSecondsKeeps(c, names[0], w);
      assert AllNames(names[1..]) by {
        forall i | 0 <= i < |names| - 1 ensures Name(names[1..][i]) {
          assert names[1..][i] == names[i + 1];
        }
      }
      FoldKeeps(ToSeconds(c, names[0]), names[1..], w);
    }
  }

  /** After the fold, no `{v}ms` is left for any name `v` in the list. */
  lemma {:induction false} FoldClean(c: Text, names: seq<Text>, j: nat)
    requires AllNames(names) && j < |names|
    ensures !Contains(Fold(c, names), Ms(names[j]))
    decreases |names|
  {
    var c1 := ToSeconds(c, names[0]);
    assert AllNames(names[1..]) by {
      forall i | 0 <= i < |names| - 1 ensures Name(names[1..][i]) {
        assert names[1..][i] == names[i + 1];
      }
    }
    if j == 0 {
      ToSecondsClean(c, names[0]);
      FoldKeeps(c1, names[1..], names[0]);
    } else {
      assert names[1..][j - 1] == names[j];
      FoldClean(c1, names[1..], j - 1);
    }
  }

  /** `{(v/1000).toFixed(3)}<span className="text-sm">s</span>`: a split display joined and converted. */
  const SecondsSpan: Text := "<span className=\"text-sm\">s</span>"

  function SpanRep(v: Text): Text
  {
    Bare(v, Div) + SecondsSpan
  }

  /** The converted names before the label fix-ups: the fold, then the two stats rules. */
  function ConvertedV3(c: Text): Text
  {
    ToSeconds(ToSeconds(Fold(c, LoopNames), StatsAverage), StatsStdDev)
  }

  /** The label fix-ups for the four divided expressions. */
  function RelabeledV3(c: Text): Text
  {
    FixLabel(FixLabel(FixLabel(FixLabel(c, Time), Reaction), StatsAverage), StatsStdDev)
  }

  /** The two rules that join a split `ms` display. */
  function JoinedV3(c: Text, rx: Engine): Text
  {
    var c1 := Sub(c, rx(TimeSpan, c), Literal(SpanRep(Time)));
    Sub(c1, rx(ReactionSpan, c1), Literal(SpanRep(Reaction)))
  }

  /** `fix_training_page_units` on one page. */
  function FixTrainingV3(c: Text, rx: Engine): Text
  {
    JoinedV3(RelabeledV3(ConvertedV3(c)), rx)
  }

  /** The rules as the script runs them: the loop over the list, then the rules written out. */
  method FixTrainingUnits(c: Text, rx: Engine) returns (r: Text)
    ensures r == FixTrainingV3(c, rx)
  {
    r := ConvertNames(c, LoopNames);
    r := ToSeconds(ToSeconds(r, StatsAverage), StatsStdDev);
    r := RelabeledV3(r);
    r := JoinedV3(r, rx);
  }

  /** The span a split display is joined into holds no `{`. */
  lemma SecondsSpanFree()
    ensures Free('{', SecondsSpan)
  {
    var a, b, d: Text := "<span className=", "\"text-sm\">s</spa", "n>";
    assert Free('{', a) && Free('{', b) && Free('{', d);
    FreeConcat('{', a, b);
    FreeConcat('{', a + b, d);
  }

  /** A joined display cannot complete any `{w}ms`. */
  lemma SpanRepSeparated(w: Text, v: Text)
    requires Name(w) && Name(v)
    ensures Separated(Ms(w), SpanRep(v))
  {
    SecondsSpanFree();
    var rep := SpanRep(v);
    assert forall i | 1 <= i < |rep| :: rep[i] == (InSeconds(v, Div) + "}" + SecondsSpan)[i - 1];
    MsSeparated(w, rep);
  }

  /** The names the training rules convert, the loop's and the two stats names. */
  lemma V3Names()
    ensures AllNames(LoopNames)
    ensures LoopNames[0] == Time && LoopNames[1] == Reaction && LoopNames[2] == RTime && LoopNames[3] == RReaction
  {
    NamesArePlain();
  }

  /** The steps after the fold keep a name's `{w}ms` away. */
  lemma AfterFoldKeeps(c: Text, rx: Engine, w: Text)
    requires Name(w) && !Contains(c, Ms(w))
    ensures !Contains(JoinedV3(RelabeledV3(ToSeconds(ToSeconds(c, StatsAverage), StatsStdDev)), rx), Ms(w))
  {
    NamesArePlain();
    var c1 := ToSeconds(c, StatsAverage);
    ToSecondsKeeps(c, StatsAverage, w);
    ToSecondsKeeps(c1, StatsStdDev, w);
    LaterStepsKeep(ToSeconds(c1, StatsStdDev), rx, w);
  }

  /**
   * After the training rules no `{time}ms`, `{reaction}ms`, `{r.time}ms`,
   * `{r.reaction}ms`, `{stats.average}ms` or `{stats.stdDev}ms` is left,
   * whatever the engine reports for the split displays.
   */
  lemma TrainingV3Clean(c: Text, rx: Engine)
    ensures !Contains(FixTrainingV3(c, rx), Ms(Time))
    ensures !Contains(FixTrainingV3(c, rx), Ms(Reaction))
    ensures !Contains(FixTrainingV3(c, rx), Ms(RTime))
    ensures !Contains(FixTrainingV3(c, rx), Ms(RReaction))
    ensures !Contains(FixTrainingV3(c, rx), Ms(StatsAverage))
    ensures !Contains(FixTrainingV3(c, rx), Ms(StatsStdDev))
  {
    V3Names();
    var f := Fold(c, LoopNames);
    FoldClean(c, LoopNames, 0);
    FoldClean(c, LoopNames, 1);
    FoldClean(c, LoopNames, 2);
    FoldClean(c, LoopNames, 3);
    AfterFoldKeeps(f, rx, Time);
    AfterFoldKeeps(f, rx, Reaction);
    AfterFoldKeeps(f, rx, RTime);
    AfterFoldKeeps(f, rx, RReaction);
    StatsClean(f, rx);
  }

  /** The two stats rules leave no `{stats.average}ms` or `{stats.stdDev}ms`, and the later steps keep it so. */
  lemma StatsClean(f: Text, rx: Engine)
    ensures !Contains(JoinedV3(RelabeledV3(ToSeconds(ToSeconds(f, StatsAverage), StatsStdDev)), rx), Ms(StatsAverage))
    ensures !Contains(JoinedV3(RelabeledV3(ToSeconds(ToSeconds(f, StatsAverage), StatsStdDev)), rx), Ms(StatsStdDev))
  {
    NamesArePlain();
    var c1 := ToSeconds(f, StatsAverage);
    var c2 := ToSeconds(c1, StatsStdDev);
    ToSecondsClean(f, StatsAverage);
    ToSecondsKeeps(c1, StatsStdDev, StatsAverage);
    ToSecondsClean(c1, StatsStdDev);
    LaterStepsKeep(c2, rx, StatsAverage);
    LaterStepsKeep(c2, rx, StatsStdDev);
  }

  /** The label fix-ups and the span rules keep a name's `{w}ms` away. */
  lemma LaterStepsKeep(c: Text, rx: Engine, w: Text)
    requires Name(w) && !Contains(c, Ms(w))
    ensures !Contains(JoinedV3(RelabeledV3(c), rx), Ms(w))
  {
    NamesArePlain();
    var l1 := FixLabel(c, Time);
    var l2 := FixLabel(l1, Reaction);
    var l3 := FixLabel(l2, StatsAverage);
    FixLabelKeeps(c, Time, w);
    FixLabelKeeps(l1, Reaction, w);
    FixLabelKeeps(l2, StatsAverage, w);
    FixLabelKeeps(l3, StatsStdDev, w);
    var l4 := RelabeledV3(c);
    var j1 := Sub(l4, rx(TimeSpan, l4), Literal(SpanRep(Time)));
    SpanRepSeparated(w, Time);
    SpanRepSeparated(w, Reaction);
    SubKeepsAbsent(l4, rx(TimeSpan, l4), SpanRep(Time), Ms(w));
    SubKeepsAbsent(j1, rx(ReactionSpan, j1), SpanRep(Reaction), Ms(w));
  }

  // ---------------------------------------------------------------------------
  // The script

  const BackupV3: Path := "backup_v3_complete"

  /** The files the script backs up, in its order. */
  const V3Targets: seq<Path> := [Page, RankingPage, SimplePage, ColorPage, DualPage]

  /** The training pages the final loop rewrites. */
  const TrainingPages: seq<Path> := [SimplePage, ColorPage, DualPage]

  /** The rewrite the script applies to each of its targets. */
  function FixV3(rx: Engine, t: Path, c: Text): Text
  {
    if t == Page then FixPageV3(c, rx)
    else if t == RankingPage then FixRankingV3(c, rx)
    else if t == SimplePage || t == ColorPage || t == DualPage then FixTrainingV3(c, rx)
    else c
  }

  /** The rewrite as a patch. */
  function FixerV3(rx: Engine): (Path, Text) -> Text
  {
    (t, c) => FixV3(rx, t, c)
  }

  /** The files after the script: nothing happens without `app/page.tsx`. */
  function FixedV3(fs: Files, rx: Engine): Files
  {
    if Page !in fs then fs else Scripted(fs, BackupV3, V3Targets, FixerV3(rx))
  }

  /** The writes of the script, in order: the backups, then the rewrites. */
  function FixedV3Log(fs: Files): seq<Op>
  {
    if Page !in fs then [] else ScriptedLog(fs, BackupV3, V3Targets)
  }

  /** `main`: check for `app/page.tsx`, back up, rewrite the top and ranking pages, then loop over the training pages. */
  method RunFixesV3(fs: Files, rx: Engine) returns (out: Files, log: seq<Op>)
    ensures Page !in fs ==> out == fs && log == []
    ensures out == FixedV3(fs, rx) && log == FixedV3Log(fs)
  {
    if Page !in fs {
      return fs, [];
    }
    var backed, blog := Backup(fs, BackupV3, V3Targets);
    var patch := FixerV3(rx);
    var f1, s1 := PatchFile(backed, Page, patch);
    var f2, s2 := PatchFile(f1, RankingPage, patch);
    var f3, s3 := PatchEach(f2, TrainingPages, patch);
    assert V3Targets == [Page] + ([RankingPage] + TrainingPages);
    PatchCons(backed, Page, [RankingPage] + TrainingPages, patch);
    PatchCons(f1, RankingPage, TrainingPages, patch);
    out, log := f3, blog + (s1 + (s2 + s3));
  }

  /** The targets have distinct paths and backups that collide with nothing. */
  lemma V3LaidOut()
    ensures BackupSafe(BackupV3, V3Targets)
  {
    BackupSafeByLength(BackupV3, V3Targets);
  }

  /** When the script runs, each target ends up as its rewrite of the content it had; a missing one stays missing. */
  lemma FixedV3Target(fs: Files, rx: Engine, k: nat)
    requires Page in fs && k < |V3Targets|
    ensures V3Targets[k] in FixedV3(fs, rx) <==> V3Targets[k] in fs
    ensures V3Targets[k] in fs ==> FixedV3(fs, rx)[V3Targets[k]] == FixV3(rx, V3Targets[k], fs[V3Targets[k]])
  {
    V3LaidOut();
    ScriptedTarget(fs, BackupV3, V3Targets, FixerV3(rx), k);
  }

  /** When the script runs, each present target's backup in `backup_v3_complete` holds the content it had before. */
  lemma FixedV3Backup(fs: Files, rx: Engine, k: nat)
    requires Page in fs && k < |V3Targets| && V3Targets[k] in fs
    ensures BackupPath(BackupV3, V3Targets[k]) in FixedV3(fs, rx)
    ensures FixedV3(fs, rx)[BackupPath(BackupV3, V3Targets[k])] == fs[V3Targets[k]]
  {
    V3LaidOut();
    ScriptedBackup(fs, BackupV3, V3Targets, FixerV3(rx), k);
  }

  /** Every file that is neither a target nor a backup is left as it was. */
  lemma FixedV3Elsewhere(fs: Files, rx: Engine, p: Path)
    requires forall k | 0 <= k < |V3Targets| :: p != V3Targets[k] && p != BackupPath(BackupV3, V3Targets[k])
    ensures p in FixedV3(fs, rx) <==> p in fs
    ensures p in fs ==> FixedV3(fs, rx)[p] == fs[p]
  {
    if Page in fs {
      ScriptedElsewhere(fs, BackupV3, V3Targets, FixerV3(rx), p);
    }
  }

  /**
   * A second run backs up the already fixed files over the first backups:
   * the backup then holds the fixed content, and the original is gone.
   */
  lemma V3RerunOverwritesBackup(fs: Files, rx: Engine, k: nat)
    requires Page in fs && k < |V3Targets| && V3Targets[k] in fs
    ensures BackupPath(BackupV3, V3Targets[k]) in FixedV3(FixedV3(fs, rx), rx)
    ensures FixedV3(FixedV3(fs, rx), rx)[BackupPath(BackupV3, V3Targets[k])] == FixV3(rx, V3Targets[k], fs[V3Targets[k]])
  {
    V3LaidOut();
    FixedV3Target(fs, rx, 0);
    ScriptedRerun(fs, BackupV3, V3Targets, FixerV3(rx), k);
  }
}
