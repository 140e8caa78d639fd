/**
 * The first customisation script: it rewrites the layout, the home page,
 * the three training pages and the ranking page of the app for the Oda City
 * edition, after backing every target up, and then removes the sprint mode.
 */
module Customization {
  import opened Strings
  import opened Lines
  import opened Units
  import opened Disk

  // ---------------------------------------------------------------------------
  // app/layout.tsx: title, description, footer and copyright

  const TitleOld: Text := "⚡ リアクショントレーニングシステム"
  const TitleNew: Text := "⚡リアクショントレーニングシステム⚡<br />⛰️島根県大田市限定版⛰️"
  const DescOld: Text := DescOldHead + DescTail + FullStop
  const DescNew: Text := DescNewHead + DescTail + FullStop
  const FooterOld: Text := "認" + FooterOldRest
  const FooterNew: Text := FooterNewBody + "す"
  const CopyOld: Text := "©" + CopyOldRest
  const CopyNew: Text := "B" + CopyNewRest

  // The pieces the layout strings are made of.
  const DescOldHead: Text := "本" + DescOldRest
  const DescOldRest: Text := "システムは2025年11月9日開催の島根県大田市と学校法人日本体育大学の"
  // Written in two pieces, one per `<br />` line: the verifier reasons about
  // the characters of a literal this long only piece by piece.
  const DescNewHead: Text := "本システムは2025年11月9日開催の<br />" + "島根県大田市と学校法人日本体育大学の<br />"
  const DescTail: Text := "自治体連携協定推進事業に際して作成されました"
  const FullStop: Text := "。"
  const FooterOldRest: Text := "知・判断・行動を科学的にトレーニング"
  const FooterNewBody: Text := "島根県大田市内の方々にご利用いただけま"
  const CopyOldRest: Text := " 2025 島根県大田市 × 学校法人日本体育大学 自治体連携協定推進事業"
  const CopyNewRest: Text := "uilt by Kedo Bot and Yuzu Bot / NSSU"

  /** The four layout replacements, in the order the script applies them. */
  function ModifyLayout(c: Text): Text
  {
    var c1 := ReplaceAll(c, TitleOld, TitleNew);
    var c2 := ReplaceAll(c1, DescOld, DescNew);
    var c3 := ReplaceAll(c2, FooterOld, FooterNew);
    ReplaceAll(c3, CopyOld, CopyNew)
  }

  /** A layout holding none of the four original strings is returned as it was. */
  lemma ModifyLayoutUnchanged(c: Text)
    requires !Contains(c, TitleOld) && !Contains(c, DescOld) && !Contains(c, FooterOld) && !Contains(c, CopyOld)
    ensures ModifyLayout(c) == c
  {
    AbsentUnchanged(c, TitleOld, TitleNew);
    AbsentUnchanged(c, DescOld, DescNew);
    AbsentUnchanged(c, FooterOld, FooterNew);
    AbsentUnchanged(c, CopyOld, CopyNew);
  }

  // Which characters the pieces of the layout strings avoid.
  lemma DescOldHeadFree()
    ensures Free('。', DescOldHead) && Free('す', DescOldHead) && Free('B', DescOldRest)
  {
  }

  lemma DescNewHeadFree()
    ensures Free('。', DescNewHead)
  {
    FreeConcat('。', "本システムは2025年11月9日開催の<br />", "島根県大田市と学校法人日本体育大学の<br />");
  }

  lemma DescTailFree()
    ensures Free('。', DescTail) && Free('す', DescTail) && Free('B', DescTail + FullStop)
  {
  }

  lemma FooterFree()
    ensures Free('。', FooterNewBody) && Free('認', FooterNewBody + "す") && Free('島', FooterOldRest)
    ensures Free('B', FooterOldRest)
  {
  }

  lemma CopyFree()
    ensures Free('©', CopyNewRest) && Free('本', CopyNewRest) && Free('認', CopyNewRest)
    ensures Free('B', CopyOldRest)
  {
  }

  /** The characters the separation arguments below rely on. */
  lemma LayoutPiecesFree()
    ensures Free('。', DescOldHead) && Free('。', DescNewHead) && Free('。', DescTail)
    ensures Free('。', FooterNewBody) && Free('す', DescOldHead) && Free('す', DescTail)
    ensures Free('認', FooterNewBody + "す") && Free('島', FooterOldRest)
    ensures Free('©', CopyNewRest) && Free('B', CopyOldRest)
    ensures Free('B', DescOldRest + DescTail + FullStop) && Free('本', CopyNewRest)
    ensures Free('B', FooterOldRest) && Free('認', CopyNewRest)
  {
    DescOldHeadFree();
    DescNewHeadFree();
    DescTailFree();
    FooterFree();
    CopyFree();
    FreeConcat('B', DescOldRest, DescTail + FullStop);
  }

  /** The last character of a text with a known last piece. */
  lemma LastOfConcat(a: Text, t: Text, e: Text)
    requires |a| > 0
    ensures FromEnd(a + t + e, |t| + |e|) == a[|a| - 1]
  {
  }

  lemma DescSeparated()
    ensures TailSeparated(DescOld, DescNew)
  {
    LayoutPiecesFree();
    FreeConcat('。', DescOldHead, DescTail);
    FreeConcat('。', DescNewHead, DescTail);
    LastOfConcat(DescOldHead, DescTail, FullStop);
    LastOfConcat(DescNewHead, DescTail, FullStop);
    assert DescOldHead[|DescOldHead| - 1] == 'の';
    assert DescNewHead[|DescNewHead| - 1] == '>';
    assert FromEnd(DescOld, |DescTail| + 1) != FromEnd(DescNew, |DescTail| + 1);
    TailSeparatedBy(DescOldHead + DescTail, FullStop, DescNewHead + DescTail, FullStop);
  }

  lemma DescFooterSeparated()
    ensures TailSeparated(DescOld, FooterNew)
  {
    LayoutPiecesFree();
    FreeConcat('す', DescOldHead, DescTail);
    assert FromEnd(DescOld, 0) != FromEnd(FooterNew, 0);
    TailSeparatedBy(DescOldHead + DescTail, FullStop, FooterNewBody, "す");
  }

  lemma FooterSeparated()
    ensures HeadSeparated(FooterOld, FooterNew)
  {
    LayoutPiecesFree();
    assert FooterNew == "島" + FooterNew[1..];
    HeadSeparatedBy("認", FooterOldRest, "島", FooterNew[1..]);
  }

  lemma CopySeparated()
    ensures HeadSeparated(CopyOld, CopyNew)
  {
    LayoutPiecesFree();
    HeadSeparatedBy("©", CopyOldRest, "B", CopyNewRest);
  }

  lemma DescCopySeparated()
    ensures HeadSeparated(DescOld, CopyNew)
  {
    LayoutPiecesFree();
    assert DescOld == "本" + (DescOldRest + DescTail + FullStop);
    HeadSeparatedBy("本", DescOldRest + DescTail + FullStop, "B", CopyNewRest);
  }

  lemma FooterCopySeparated()
    ensures HeadSeparated(FooterOld, CopyNew)
  {
    LayoutPiecesFree();
    HeadSeparatedBy("認", FooterOldRest, "B", CopyNewRest);
  }

  /**
   * After the layout rewrite no original description, footer or copyright
   * text remains: no replacement, nor anything a later one writes, can form
   * one of them again.
   */
  lemma ModifyLayoutClears(c: Text)
    ensures !Contains(ModifyLayout(c), DescOld)
    ensures !Contains(ModifyLayout(c), FooterOld)
    ensures !Contains(ModifyLayout(c), CopyOld)
  {
    DescSeparated();
    DescFooterSeparated();
    FooterSeparated();
    CopySeparated();
    DescCopySeparated();
    FooterCopySeparated();
    var c1 := ReplaceAll(c, TitleOld, TitleNew);
    var c2 := ReplaceAll(c1, DescOld, DescNew);
    var c3 := ReplaceAll(c2, FooterOld, FooterNew);
    ReplaceEliminates(c1, DescOld, DescNew);
    ReplaceEliminates(c2, FooterOld, FooterNew);
    ReplaceKeepsAbsent(c2, FooterOld, FooterNew, false, DescOld);
    ReplaceEliminates(c3, CopyOld, CopyNew);
    ReplaceKeepsAbsent(c3, CopyOld, CopyNew, false, DescOld);
    ReplaceKeepsAbsent(c3, CopyOld, CopyNew, false, FooterOld);
  }

  // ---------------------------------------------------------------------------
  // app/page.tsx: the simple-mode title, the NEW! badge and the ranking hint

  const H3Head: Text := "<h3 className=\"text-xl font-bold text-gray-800 mb-2 group-hover:text-blue-600\">\n              "
  const H3Tail: Text := "\n            </h3>\n            <p className=\"text-sm text-gray-600 mb-3\">\n              シグナルに反応する速さを測定"
  const SimpleTitle: Text := "シンプル反応"
  const JudgeSuffix: Text := "・判断"
  const NewBadge: Text := "<span className=\"bg-purple-100 text-purple-700 px-2 py-1 rounded text-xs font-bold\">NEW!</span>"
  const RankingHint: Text := "<p className=\"text-sm text-gray-700 mt-1\">\n                みんなの記録を見て、目標を立てよう！\n              </p>"

  /** The simple-mode heading block as the page has it. */
  function H3Old(): Text
  {
    H3Head + SimpleTitle + H3Tail
  }

  /** The same block with `・判断` after the title. */
  function H3New(): Text
  {
    H3Head + SimpleTitle + JudgeSuffix + H3Tail
  }

  /** Retitle the simple mode, drop the NEW! badge, drop the ranking hint. */
  function ModifyPage(c: Text): Text
  {
    var c1 := ReplaceAll(c, H3Old(), H3New());
    var c2 := ReplaceAll(c1, NewBadge, "");
    ReplaceAll(c2, RankingHint, "")
  }

  /** A page holding none of the three blocks is returned as it was. */
  lemma ModifyPageUnchanged(c: Text)
    requires !Contains(c, H3Old()) && !Contains(c, NewBadge) && !Contains(c, RankingHint)
    ensures ModifyPage(c) == c
  {
    AbsentUnchanged(c, H3Old(), H3New());
    AbsentUnchanged(c, NewBadge, "");
    AbsentUnchanged(c, RankingHint, "");
  }

  /**
   * The retitling inserts `・判断` right after the title in each matching
   * heading block and changes nothing else.
   */
  lemma RetitleInsertsOnly(c: Text)
    ensures ReplaceAll(c, H3Old(), H3New())
            == Regex.Sub(c, Regex.Narrow(Regex.LiteralHitsFrom(c, H3Old(), false, 0), |H3Head + SimpleTitle|, 0), Regex.Literal(JudgeSuffix))
  {
    assert H3Old() == H3Head + SimpleTitle + [] + H3Tail;
    assert H3New() == H3Head + SimpleTitle + JudgeSuffix + H3Tail;
    Regex.LiteralMiddle(c, H3Head + SimpleTitle, [], H3Tail, JudgeSuffix, false);
  }

  /** Each removal changes the page exactly when its block is present, and then shortens it. */
  lemma RemovalsEffect(c: Text)
    ensures ReplaceAll(c, NewBadge, "") == c <==> !Contains(c, NewBadge)
    ensures ReplaceAll(c, RankingHint, "") == c <==> !Contains(c, RankingHint)
    ensures Contains(c, NewBadge) ==> |ReplaceAll(c, NewBadge, "")| < |c|
    ensures Contains(c, RankingHint) ==> |ReplaceAll(c, RankingHint, "")| < |c|
  {
    ReplaceAllUnchangedIff(c, NewBadge, "");
    ReplaceAllUnchangedIff(c, RankingHint, "");
    PlainMatches(c, NewBadge);
    PlainMatches(c, RankingHint);
    FindNone(c, NewBadge, false);
    FindNone(c, RankingHint, false);
    if Contains(c, NewBadge) {
      RewriteShortens(c, NewBadge, "", false);
    }
    if Contains(c, RankingHint) {
      RewriteShortens(c, RankingHint, "", false);
    }
  }

  // ---------------------------------------------------------------------------
  // Training pages: milliseconds to seconds, and the colour page's signal size

  /** The marker whose presence skips the stdDev rule. */
  function StdDevMarker(): Text
  {
    InSeconds(StatsStdDev, Div)
  }

  /** The stdDev rule: skipped when the converted expression is already there. */
  function StdDevRule(c: Text): Text
  {
    ReplaceUnless(c, StdDevMarker(), Ms(StatsStdDev), Seconds(StatsStdDev, Div), false)
  }

  /** The unit rules of the simple, colour and dual pages, in order. */
  function ConvertUnits(c: Text): Text
  {
    StdDevRule(ToSeconds(ToSeconds(ToSeconds(c, Time), Reaction), StatsAverage))
  }

  /** After the unit rules, no `{time}ms`, `{reaction}ms` or `{stats.average}ms` remains. */
  lemma ConvertUnitsClean(c: Text)
    ensures !Contains(ConvertUnits(c), Ms(Time))
    ensures !Contains(ConvertUnits(c), Ms(Reaction))
    ensures !Contains(ConvertUnits(c), Ms(StatsAverage))
  {
    NamesArePlain();
    var c1 := ToSeconds(c, Time);
    var c2 := ToSeconds(c1, Reaction);
    var c3 := ToSeconds(c2, StatsAverage);
    ToSecondsClean(c, Time);
    ToSecondsClean(c1, Reaction);
    ToSecondsClean(c2, StatsAverage);
    ToSecondsKeeps(c1, Reaction, Time);
    ToSecondsKeeps(c2, StatsAverage, Time);
    ToSecondsKeeps(c2, StatsAverage, Reaction);
    if !Contains(c3, StdDevMarker()) {
      ToSecondsKeeps(c3, StatsStdDev, Time);
      ToSecondsKeeps(c3, StatsStdDev, Reaction);
      ToSecondsKeeps(c3, StatsStdDev, StatsAverage);
    }
  }

  /**
   * The stdDev rule leaves the content as it was exactly when the converted
   * expression is already present or there is no `{stats.stdDev}ms`.
   */
  lemma StdDevRuleEffect(c: Text)
    ensures StdDevRule(c) == c <==> (Contains(c, StdDevMarker()) || !Contains(c, Ms(StatsStdDev)))
  {
    assert |Seconds(StatsStdDev, Div)| != |Ms(StatsStdDev)|;
    ReplaceAllUnchangedIff(c, Ms(StatsStdDev), Seconds(StatsStdDev, Div));
  }

  /** The stdDev rule writes its own marker, so it never runs twice. */
  lemma StdDevRuleIdempotent(c: Text)
    ensures StdDevRule(StdDevRule(c)) == StdDevRule(c)
  {
    SecondsMarked(StatsStdDev, Div);
    GuardedIdempotent(c, StdDevMarker(), Ms(StatsStdDev), Seconds(StatsStdDev, Div), false);
  }

  /** Running the unit rules on their own output changes nothing. */
  lemma ConvertUnitsIdempotent(c: Text)
    ensures ConvertUnits(ConvertUnits(c)) == ConvertUnits(c)
  {
    var once := ConvertUnits(c);
    var c3 := ToSeconds(ToSeconds(ToSeconds(c, Time), Reaction), StatsAverage);
    ConvertUnitsClean(c);
    AbsentUnchanged(once, Ms(Time), Seconds(Time, Div));
    AbsentUnchanged(once, Ms(Reaction), Seconds(Reaction, Div));
    AbsentUnchanged(once, Ms(StatsAverage), Seconds(StatsAverage, Div));
    StdDevRuleIdempotent(c3);
  }

  const SizeHead: Text := "className=\"w-["
  const SizeMid: Text := "px] h-["
  const SizeTail: Text := "px]"

  /** The colour page's signal box at 150px. */
  function SignalOld(): Text
  {
    SizeHead + "150" + SizeMid + "150" + SizeTail
  }

  /** The same box at 200px, as the dual page has it. */
  function SignalNew(): Text
  {
    SizeHead + "200" + SizeMid + "200" + SizeTail
  }

  /**
   * The resize rule. Its three groups capture fixed text, so re-emitting
   * them around the new numbers writes the 200px box.
   */
  function ResizeSignal(c: Text): Text
  {
    ReplaceAll(c, SignalOld(), SignalNew())
  }

  /** The colour page: the resize rule, then the unit rules. */
  function ModifyColorPage(c: Text): Text
  {
    ConvertUnits(ResizeSignal(c))
  }

  /** The offsets of the two size numbers inside the box. */
  predicate SizeDigit(j: int)
  {
    14 <= j < 17 || 24 <= j < 27
  }

  /** The old and new boxes agree everywhere but at the size numbers. */
  lemma SignalsAgree()
    ensures |SignalOld()| == |SignalNew()| == 30
    ensures forall j | 0 <= j < 30 && !SizeDigit(j) :: SignalOld()[j] == SignalNew()[j]
  {
  }

  /** No 150px box survives the resize rule. */
  lemma ResizeEliminates(c: Text)
    ensures !Contains(ResizeSignal(c), SignalOld())
  {
    var q, rep := SignalOld(), SignalNew();
    assert forall i | 1 <= i < |q| :: q[i] != 'c';
    assert forall i | 1 <= i < |rep| :: rep[i] != 'c';
    assert q[14] != rep[14];
    ReplaceEliminates(c, q, rep);
  }

  /**
   * The resize rule changes no character outside the size numbers of the
   * boxes it rewrites: the page keeps its length and every other character.
   */
  lemma ResizeOnlyDigits(c: Text, x: nat)
    requires x < |c|
    requires forall m | 0 <= m <= x < m + 30 && MatchAt(c, SignalOld(), m, false) :: !SizeDigit(x - m)
    ensures |ResizeSignal(c)| == |c|
    ensures ResizeSignal(c)[x] == c[x]
  {
    SignalsAgree();
    ReplacePointwise(c, SignalOld(), SignalNew(), false, x);
  }

  // ---------------------------------------------------------------------------
  // app/ranking/page.tsx: the course-name line filter

  /** A line that mentions a course, or a session inside a `className` element. */
  predicate Trigger(line: Text)
  {
    Contains(line, "講座") || (Contains(line, "session") && Contains(line, "className"))
  }

  const RecordSession: Text := "record.session"

  /** A line that shows the session value. */
  predicate Follower(line: Text)
  {
    Contains(line, RecordSession) || Contains(line, "{" + RecordSession + "Name}")
  }

  /** The second alternative of a follower is already covered by the first. */
  lemma FollowerSubsumed(line: Text)
    ensures Follower(line) <==> Contains(line, RecordSession)
  {
    var long := "{" + RecordSession + "Name}";
    ContainsMiddle("{", RecordSession, "Name}");
    if Contains(line, long) {
      ContainsTrans(line, long, RecordSession);
    }
  }

  /** Line `i` is skipped by the one-line lookahead: the line before it triggered, was not itself skipped, and this one shows the session. */
  predicate SkipAt(lines: seq<Text>, i: nat)
    decreases i
  {
    0 < i < |lines| && !SkipAt(lines, i - 1) && Trigger(lines[i - 1]) && Follower(lines[i])
  }

  /** Line `i` is left out of the output. */
  predicate Dropped(lines: seq<Text>, i: nat)
    requires i < |lines|
  {
    SkipAt(lines, i) || Trigger(lines[i])
  }

  /** The lines among the first `n` that the filter keeps, in order. */
  function Kept(lines: seq<Text>, n: nat): seq<Text>
    requires n <= |lines|
  {
    if n == 0 then []
    else Kept(lines, n - 1) + (if Dropped(lines, n - 1) then [] else [lines[n - 1]])
  }

  /** The ranking page, by the filter's specification. */
  function RankingFiltered(content: Text): Text
  {
    var lines := Split(content);
    Join(Kept(lines, |lines|))
  }

  /** The filter loop with its `skip_next` flag. */
  method FilterLines(lines: seq<Text>) returns (kept: seq<Text>)
    ensures kept == Kept(lines, |lines|)
  {
    kept := [];
    var skip := false;
    var i := 0;
    while i < |lines|
      invariant i <= |lines|
      invariant skip == SkipAt(lines, i)
      invariant kept == Kept(lines, i)
    {
      if skip {
        skip := false;
      } else if Trigger(lines[i]) {
        skip := i + 1 < |lines| && Follower(lines[i + 1]);
      } else {
        kept := kept + [lines[i]];
      }
      i := i + 1;
    }
  }

  /** Split the page into lines, filter them, join them back. */
  method ModifyRankingPage(content: Text) returns (r: Text)
    ensures r == RankingFiltered(content)
  {
    var lines := Split(content);
    var kept := FilterLines(lines);
    r := Join(kept);
  }

  /** The kept lines are a subsequence of the input lines, in their original order. */
  lemma {:induction false} KeptSubsequence(lines: seq<Text>, n: nat)
    requires n <= |lines|
    ensures Subsequence(Kept(lines, n), lines[..n])
  {
    if n > 0 {
      KeptSubsequence(lines, n - 1);
      assert lines[..n][..n - 1] == lines[..n - 1];
      if !Dropped(lines, n - 1) {
        var k := Kept(lines, n);
        assert k[..|k| - 1] == Kept(lines, n - 1);
      } else {
        var k, b := Kept(lines, n), lines[..n];
        assert k == Kept(lines, n - 1) + [] == Kept(lines, n - 1);
        assert b[..|b| - 1] == lines[..n - 1];
        assert Subsequence(k, b[..|b| - 1]);
      }
    }
  }

  /** No kept line triggers the filter; in particular none mentions a course. */
  lemma {:induction false} KeptNoTrigger(lines: seq<Text>, n: nat, j: nat)
    requires n <= |lines| && j < |Kept(lines, n)|
    ensures !Trigger(Kept(lines, n)[j])
    ensures !Contains(Kept(lines, n)[j], "講座")
  {
    if j < |Kept(lines, n - 1)| {
      KeptNoTrigger(lines, n - 1, j);
    }
  }

  /** Kept lines hold no line break when the input lines hold none. */
  lemma {:induction false} KeptFlat(lines: seq<Text>, n: nat)
    requires n <= |lines|
    requires forall i | 0 <= i < |lines| :: NewLine !in lines[i]
    ensures forall j | 0 <= j < |Kept(lines, n)| :: NewLine !in Kept(lines, n)[j]
  {
    if n > 0 {
      KeptFlat(lines, n - 1);
    }
  }

  /** When no line triggers, every line is kept. */
  lemma {:induction false} KeptAll(lines: seq<Text>, n: nat)
    requires n <= |lines|
    requires forall i | 0 <= i < |lines| :: !Trigger(lines[i])
    ensures Kept(lines, n) == lines[..n]
  {
    if n > 0 {
      KeptAll(lines, n - 1);
      assert lines[..n] == lines[..n - 1] + [lines[n - 1]];
    }
  }

  /** A line that neither triggers nor directly follows a triggering line as a session value is kept, as the next output line. */
  lemma KeptKeeps(lines: seq<Text>, i: nat)
    requires i < |lines| && !Trigger(lines[i])
    requires i == 0 || !Trigger(lines[i - 1]) || !Follower(lines[i])
    ensures Kept(lines, i + 1) == Kept(lines, i) + [lines[i]]
  {
  }

  /** A page in which no line triggers comes out byte for byte as it went in. */
  lemma RankingUnchanged(content: Text)
    requires forall i | 0 <= i < |Split(content)| :: !Trigger(Split(content)[i])
    ensures RankingFiltered(content) == content
  {
    var lines := Split(content);
    KeptAll(lines, |lines|);
    assert lines[..|lines|] == lines;
    JoinSplit(content);
  }

  /** When some line is kept, the lines of the output are exactly the kept lines. */
  lemma RankingLines(content: Text)
    requires |Kept(Split(content), |Split(content)|)| > 0
    ensures Split(RankingFiltered(content)) == Kept(Split(content), |Split(content)|)
    ensures forall j | 0 <= j < |Split(RankingFiltered(content))| :: !Contains(Split(RankingFiltered(content))[j], "講座")
  {
    var lines := Split(content);
    KeptFlat(lines, |lines|);
    SplitJoin(Kept(lines, |lines|));
    forall j | 0 <= j < |Kept(lines, |lines|)| ensures !Contains(Kept(lines, |lines|)[j], "講座") {
      KeptNoTrigger(lines, |lines|, j);
    }
  }

  // ---------------------------------------------------------------------------
  // The script: backup, the six rewrites, removal of the sprint mode

  const BackupDir: Path := "backup_before_shimane"

  /** The files the script backs up and rewrites, in its order. */
  const Targets: seq<Path> := [Layout, Page, SimplePage, ColorPage, DualPage, RankingPage]

  /** The rewrite each target gets; the simple and dual pages share their unit rules. */
  function Patch(t: Path, c: Text): Text
  {
    if t == Layout then ModifyLayout(c)
    else if t == Page then ModifyPage(c)
    else if t == SimplePage || t == DualPage then ConvertUnits(c)
    else if t == ColorPage then ModifyColorPage(c)
    else if t == RankingPage then RankingFiltered(c)
    else c
  }

  /** The six rewrite steps in the script's order are the rewrite steps over `Targets`. */
  lemma RewritesInOrder(fs: Files, f1: Files, f2: Files, f3: Files, f4: Files, f5: Files)
    requires f1 == Rewrite(fs, Layout, Patch) && f2 == Rewrite(f1, Page, Patch)
    requires f3 == Rewrite(f2, SimplePage, Patch) && f4 == Rewrite(f3, ColorPage, Patch)
    requires f5 == Rewrite(f4, DualPage, Patch)
    ensures Rewrite(f5, RankingPage, Patch) == PatchAll(fs, Targets, Patch)
    ensures Touch(fs, Layout) + (Touch(f1, Page) + (Touch(f2, SimplePage) + (Touch(f3, ColorPage)
              + (Touch(f4, DualPage) + (Touch(f5, RankingPage) + [])))))
            == PatchLog(fs, Targets)
  {
    PatchCons(f5, RankingPage, [], Patch);
    PatchCons(f4, DualPage, [RankingPage], Patch);
    PatchCons(f3, ColorPage, [DualPage, RankingPage], Patch);
    PatchCons(f2, SimplePage, [ColorPage, DualPage, RankingPage], Patch);
    PatchCons(f1, Page, [SimplePage, ColorPage, DualPage, RankingPage], Patch);
    PatchCons(fs, Layout, [Page, SimplePage, ColorPage, DualPage, RankingPage], Patch);
    assert Targets == [Layout] + [Page, SimplePage, ColorPage, DualPage, RankingPage];
  }

  /** The files after the script, by its specification. */
  function Customized(fs: Files): Files
  {
    if Layout !in fs then fs
    else
      var patched := Scripted(fs, BackupDir, Targets, Patch);
      if Exists(patched, SprintDir) then RemoveTree(patched, SprintDir) else patched
  }

  /** The writes and removals the script performs, in order. */
  function CustomizedLog(fs: Files): seq<Op>
  {
    if Layout !in fs then []
    else
      ScriptedLog(fs, BackupDir, Targets)
      + (if Exists(Scripted(fs, BackupDir, Targets, Patch), SprintDir) then [Remove(SprintDir)] else [])
  }

  /** The six rewrite blocks of the script, each guarded by the file's existence. */
  method RewriteTargets(backed: Files) returns (out: Files, log: seq<Op>)
    ensures out == PatchAll(backed, Targets, Patch)
    ensures log == PatchLog(backed, Targets)
  {
    var f1, s1 := PatchFile(backed, Layout, Patch);
    var f2, s2 := PatchFile(f1, Page, Patch);
    var f3, s3 := PatchFile(f2, SimplePage, Patch);
    var f4, s4 := PatchFile(f3, ColorPage, Patch);
    var f5, s5 := PatchFile(f4, DualPage, Patch);
    out, log := f5, [];
    if RankingPage in f5 {
      var filtered := ModifyRankingPage(f5[RankingPage]);
      assert filtered == Patch(RankingPage, f5[RankingPage]);
      out, log := f5[RankingPage := filtered], [Write(RankingPage)];
    }
    RewritesInOrder(backed, f1, f2, f3, f4, f5);
    log := s1 + (s2 + (s3 + (s4 + (s5 + (log + [])))));
  }

  /**
   * The script's main routine: give up when there is no layout, back up the
   * targets, rewrite each one that exists, then remove the sprint directory.
   */
  method ApplyCustomization(fs: Files) returns (out: Files, log: seq<Op>)
    ensures out == Customized(fs)
    ensures log == CustomizedLog(fs)
  {
    if Layout !in fs {
      return fs, [];
    }
    var backed, blog := Backup(fs, BackupDir, Targets);
    var plog;
    out, plog := RewriteTargets(backed);
    log := blog + plog;
    if Exists(out, SprintDir) {
      out := RemoveTree(out, SprintDir);
      log := log + [Remove(SprintDir)];
    }
  }

  /** The targets and their backups are laid out so that no step disturbs another. */
  lemma TargetsLaidOut()
    ensures BackupSafe(BackupDir, Targets)
    ensures forall i, j | 0 <= i < j < |Targets| :: Targets[i] != Targets[j]
    ensures forall k | 0 <= k < |Targets| :: !Under(Targets[k], SprintDir)
    ensures forall k | 0 <= k < |Targets| :: !Under(BackupPath(BackupDir, Targets[k]), SprintDir)
  {
    BackupSafeByLength(BackupDir, Targets);
    forall k | 0 <= k < |Targets| ensures !Under(Targets[k], SprintDir) {
      NotUnder(Targets[k], SprintDir, 5);
    }
    forall k | 0 <= k < |Targets| ensures !Under(BackupPath(BackupDir, Targets[k]), SprintDir) {
      BackupPathLength(BackupDir, Targets[k]);
      assert BackupPath(BackupDir, Targets[k])[0] == BackupDir[0];
      NotUnder(BackupPath(BackupDir, Targets[k]), SprintDir, 0);
    }
  }

  /** Outside `app/sprint`, the script's result is that of its backup and rewrite steps. */
  lemma CustomizedShape(fs: Files, p: Path)
    requires Layout in fs && !Under(p, SprintDir)
    ensures p in Customized(fs) <==> p in Scripted(fs, BackupDir, Targets, Patch)
    ensures p in Customized(fs) ==> Customized(fs)[p] == Scripted(fs, BackupDir, Targets, Patch)[p]
  {
  }

  /**
   * When the script runs, each target ends up as its rewrite of the content
   * it had, and a missing target stays missing.
   */
  lemma CustomizedTarget(fs: Files, k: nat)
    requires Layout in fs && k < |Targets|
    ensures Targets[k] in Customized(fs) <==> Targets[k] in fs
    ensures Targets[k] in fs ==> Customized(fs)[Targets[k]] == Patch(Targets[k], fs[Targets[k]])
  {
    TargetsLaidOut();
    ScriptedTarget(fs, BackupDir, Targets, Patch, k);
    CustomizedShape(fs, Targets[k]);
  }

  /** When the script runs, each present target's backup holds the content it had before. */
  lemma CustomizedBackup(fs: Files, k: nat)
    requires Layout in fs && k < |Targets| && Targets[k] in fs
    ensures BackupPath(BackupDir, Targets[k]) in Customized(fs)
    ensures Customized(fs)[BackupPath(BackupDir, Targets[k])] == fs[Targets[k]]
  {
    TargetsLaidOut();
    ScriptedBackup(fs, BackupDir, Targets, Patch, k);
    CustomizedShape(fs, BackupPath(BackupDir, Targets[k]));
  }

  /** When the script runs, nothing is left at or below `app/sprint`. */
  lemma CustomizedSprintGone(fs: Files)
    requires Layout in fs
    ensures !Exists(Customized(fs), SprintDir)
  {
    RemoveTreeGone(Scripted(fs, BackupDir, Targets, Patch), SprintDir);
  }

  /** Every other file outside `app/sprint` is left as it was. */
  lemma CustomizedElsewhere(fs: Files, p: Path)
    requires !Under(p, SprintDir)
    requires forall k | 0 <= k < |Targets| :: p != Targets[k] && p != BackupPath(BackupDir, Targets[k])
    ensures p in Customized(fs) <==> p in fs
    ensures p in fs ==> Customized(fs)[p] == fs[p]
  {
    if Layout in fs {
      ScriptedElsewhere(fs, BackupDir, Targets, Patch, p);
      CustomizedShape(fs, p);
    }
  }

  /**
   * Running the script a second time backs up the already customised files
   * over the first backup, so the original content is no longer there.
   */
  lemma RerunOverwritesBackup(fs: Files, k: nat)
    requires Layout in fs && k < |Targets| && Targets[k] in fs
    ensures BackupPath(BackupDir, Targets[k]) in Customized(Customized(fs))
    ensures Customized(Customized(fs))[BackupPath(BackupDir, Targets[k])] == Patch(Targets[k], fs[Targets[k]])
  {
    CustomizedTarget(fs, 0);
    CustomizedTarget(fs, k);
    CustomizedBackup(Customized(fs), k);
  }
}
