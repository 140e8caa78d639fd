/**
 * The second patch script (`apply_shimane_fixes_v2.py`): it reverts the
 * simple-mode title and adds a 判断 badge on the top page, replaces the
 * top page's ranking area, removes the sprint filter and evens out the
 * result sizes on the ranking page, and converts the remaining millisecond
 * displays of the ranking and training pages to seconds.
 */
module FixesV2 {
  import opened Strings
  import opened Regex
  import opened Units
  import opened Disk
  import Customization

  /** The rules of the script whose patterns are real regular expressions. */
  datatype Pattern =
    | RankingArea    // the ranking area of the top page, up to its closing `</div>\s*</div>`
    | SprintButton   // the `<button>` that selects the sprint mode
    | ColorTimeSize  // the colour-mode mean time, in three groups around its size class
    | AccuracySize   // an accuracy figure, in three groups around its size class
    | DualTimeSize   // the dual-task mean time, in three groups around its size class

  /** What the engine reports for each pattern on a text. */
  type Engine = (Pattern, Text) -> seq<Hit>

  // ---------------------------------------------------------------------------
  // app/page.tsx

  /** The title with the suffix the first script added. */
  function JudgedTitle(): Text
  {
    Customization.SimpleTitle + Customization.JudgeSuffix
  }

  /** Undo the retitling: every `シンプル反応・判断` becomes `シンプル反応` again. */
  function Reverted(c: Text): Text
  {
    ReplaceAll(c, JudgedTitle(), Customization.SimpleTitle)
  }

  // The badge block: the 認知 badge, then (in the new block) the 判断 badge, then the 行動 badge.
  const BadgeRow: Text := "<div className=\"flex items-center space-x-2\">"
  const Indent: Text := "\n              "
  const RedBadge: Text := "<span className=\"bg-red-100 text-red-700 px-2 py-1 rounded text-xs\">認知</span>"
  const BlueBadge: Text := "<span className=\"bg-blue-100 text-blue-700 px-2 py-1 rounded text-xs\">判断</span>"
  const GreenBadge: Text := "<span className=\"bg-green-100 text-green-700 px-2 py-1 rounded text-xs\">行動</span>"
  const RowEnd: Text := "\n            </div>"

  const BadgeHead: Text := BadgeRow + Indent + RedBadge
  const JudgeBadge: Text := Indent + BlueBadge
  const BadgeTail: Text := Indent + GreenBadge + RowEnd

  /** The two-badge block the page has. */
  function OldBadges(): Text
  {
    BadgeHead + BadgeTail
  }

  /** The three-badge block the script writes. */
  function NewBadges(): Text
  {
    BadgeHead + JudgeBadge + BadgeTail
  }

  /** The ranking area the script puts in place of the old one. */
  const NewRankingSection: Text :=
    "<!-- ランキングエリア -->\n" +
    "        <div className=\"bg-gradient-to-r from-yellow-400 to-yellow-500 rounded-2xl shadow-xl p-8 mb-8\">\n" +
    "          <div className=\"flex items-center justify-between\">\n" +
    "            <h3 className=\"text-2xl font-bold text-gray-800 flex items-center\">\n" +
    "              🏆 ランキング\n" +
    "            </h3>\n" +
    "            <button\n" +
    "              onClick={() => router.push('/ranking')}\n" +
    "              className=\"bg-white text-yellow-700 px-6 py-3 rounded-lg font-bold hover:bg-yellow-50 transition-all shadow-md hover:shadow-lg flex items-center space-x-2\"\n" +
    "            >\n" +
    "              <span>ランキングを見る</span>\n" +
    "              <span>→</span>\n" +
    "            </button>\n" +
    "          </div>\n" +
    "        </div>"

  /** The title revert, then the badge replacement. */
  function Badged(c: Text): Text
  {
    ReplaceAll(Reverted(c), OldBadges(), NewBadges())
  }

  /** `fix_page_tsx`: the two literal rules, then the ranking area replaced by the new one. */
  function FixPage(c: Text, rx: Engine): Text
  {
    var b := Badged(c);
    Sub(b, rx(RankingArea, b), Literal(NewRankingSection))
  }

  /** The revert deletes the `・判断` after each matched title and changes nothing else. */
  lemma RevertDeletesSuffix(c: Text)
    ensures Reverted(c)
            == Sub(c, Narrow(LiteralHitsFrom(c, JudgedTitle(), false, 0), |Customization.SimpleTitle|, |Customization.JudgeSuffix|), Literal([]))
  {
    var t, j := Customization.SimpleTitle, Customization.JudgeSuffix;
    assert JudgedTitle() == t + j + [] && t == t + [] + [];
    LiteralMiddle(c, t, j, [], [], false);
  }

  /** The revert changes the page exactly when the suffixed title is in it, and then shortens it. */
  lemma RevertEffect(c: Text)
    ensures Reverted(c) == c <==> !Contains(c, JudgedTitle())
    ensures Contains(c, JudgedTitle()) ==> |Reverted(c)| < |c|
  {
    var p, t := JudgedTitle(), Customization.SimpleTitle;
    assert |t| < |p|;
    ReplaceAllUnchangedIff(c, p, t);
    if Contains(c, p) {
      PlainMatches(c, p);
      RewriteShortens(c, p, t, false);
    }
  }

  /**
   * One pass does not revert a title that had the suffix twice: the match
   * consumes the first suffix and the second one completes a new
   * `シンプル反応・判断` that the pass has already moved past.
   */
  lemma RevertLeavesDoubled()
    ensures var doubled := JudgedTitle() + Customization.JudgeSuffix;
            Reverted(doubled) == JudgedTitle()
  {
    var p, t, j := JudgedTitle(), Customization.SimpleTitle, Customization.JudgeSuffix;
    var s := p + j;
    assert s[0..|p|] == p;
    MatchAtOccurs(s, p, 0, false);
    assert FindFrom(s, p, false, 0) == 0;
    assert FindFrom(s, p, false, |p|) == -1;
    assert s[|p|..] == j && s[0..0] == [];
    assert ReplaceFrom(s, p, t, false, |p|) == j;
  }

  /** The badge rule inserts the 判断 badge after the 認知 badge of each old block and changes nothing else. */
  lemma BadgeInsertsOnly(c: Text)
    ensures ReplaceAll(c, OldBadges(), NewBadges())
            == Sub(c, Narrow(LiteralHitsFrom(c, OldBadges(), false, 0), |BadgeHead|, 0), Literal(JudgeBadge))
  {
    LiteralInsert(c, BadgeHead, BadgeTail, JudgeBadge, false);
  }

  /** The badge rule changes the page exactly when it holds the old block, and then lengthens it. */
  lemma BadgeEffect(c: Text)
    ensures ReplaceAll(c, OldBadges(), NewBadges()) == c <==> !Contains(c, OldBadges())
    ensures Contains(c, OldBadges()) ==> |ReplaceAll(c, OldBadges(), NewBadges())| > |c|
    ensures Contains(c, OldBadges()) ==> Contains(ReplaceAll(c, OldBadges(), NewBadges()), NewBadges())
  {
    var p, r := OldBadges(), NewBadges();
    assert |p| < |r|;
    ReplaceAllUnchangedIff(c, p, r);
    if Contains(c, p) {
      PlainMatches(c, p);
      RewriteLengthens(c, p, r, false);
      ReplaceEmitsReplacement(c, p, r, false);
    }
  }

  /** A page without a ranking area gets only the two literal rules. */
  lemma FixPageWithoutArea(c: Text, rx: Engine)
    requires rx(RankingArea, Badged(c)) == []
    ensures FixPage(c, rx) == Badged(c)
  {
    SubNone(Badged(c), Literal(NewRankingSection));
  }

  /** When the engine finds the ranking area, the new ranking section is on the page. */
  lemma FixPageInstallsArea(c: Text, rx: Engine)
    requires |rx(RankingArea, Badged(c))| > 0 && Ordered(Badged(c), rx(RankingArea, Badged(c)), 0)
    ensures Contains(FixPage(c, rx), NewRankingSection)
  {
    SubInstalls(Badged(c), rx(RankingArea, Badged(c)), NewRankingSection);
  }

  /** A page with neither the suffixed title, nor the old badges, nor a ranking area is kept as it was. */
  lemma FixPageUnchanged(c: Text, rx: Engine)
    requires !Contains(c, JudgedTitle()) && !Contains(c, OldBadges()) && rx(RankingArea, c) == []
    ensures FixPage(c, rx) == c
  {
    AbsentUnchanged(c, JudgedTitle(), Customization.SimpleTitle);
    AbsentUnchanged(c, OldBadges(), NewBadges());
    SubNone(c, Literal(NewRankingSection));
  }

  // ---------------------------------------------------------------------------
  // app/ranking/page.tsx

  /** `\1text-xl\3`: the size rules' replacement. */
  function SizeRule(): Replacement
  {
    Reframe("text-xl")
  }

  /** Remove every sprint button the engine reports. */
  function RemoveSprint(c: Text, rx: Engine): Text
  {
    Sub(c, rx(SprintButton, c), Literal([]))
  }

  /** One size rule: the size class of each match becomes `text-xl`. */
  function Resize(c: Text, rx: Engine, p: Pattern): Text
  {
    Sub(c, rx(p, c), SizeRule())
  }

  /** The four size rules in order; the accuracy rule runs twice. */
  function Resized(c: Text, rx: Engine): Text
  {
    Resize(Resize(Resize(Resize(c, rx, ColorTimeSize), rx, AccuracySize), rx, DualTimeSize), rx, AccuracySize)
  }

  /** The mark whose presence anywhere in the page skips both conversions. */
  const Fixed3: Text := ".toFixed(3)"

  /** `{v}`: a value displayed without a unit. */
  function Braced(v: Text): Text
  {
    "{" + v + "}"
  }

  /**
   * The guarded conversion: unless `.toFixed(3)` is somewhere in the page,
   * `{record.avgTime}ms` becomes seconds, then every remaining
   * `{record.avgTime}` becomes the divided value without a unit.
   */
  function AvgTimeRules(c: Text): Text
  {
    if Contains(c, Fixed3) then c
    else
      var c1 := ReplaceAll(c, Ms(RecordAvgTime), Seconds(RecordAvgTime, SpacedDiv));
      ReplaceAll(c1, Braced(RecordAvgTime), Bare(RecordAvgTime, SpacedDiv))
  }

  /** `fix_ranking_page`: sprint button, sizes, guarded conversion, then the label fix-up. */
  function FixRanking(c: Text, rx: Engine): Text
  {
    FixLabel(AvgTimeRules(Resized(RemoveSprint(c, rx), rx)), RecordAvgTime)
  }

  /**
   * Removing the sprint buttons deletes as many characters as the engine
   * reports and keeps the rest: the text before the first button, every gap
   * between two buttons, and the text after the last.
   */
  lemma RemoveSprintDeletes(c: Text, rx: Engine)
    requires Ordered(c, rx(SprintButton, c), 0)
    ensures |RemoveSprint(c, rx)| == |c| - Covered(rx(SprintButton, c))
    ensures var hits, r := rx(SprintButton, c), RemoveSprint(c, rx);
            |hits| > 0 ==>
              hits[0].start <= |c| && r[..hits[0].start] == c[..hits[0].start] &&
              (forall k | 0 <= k < |hits| ::
                 GapStart(hits, 0, k) <= hits[k].start <= |c| && Contains(r, c[GapStart(hits, 0, k)..hits[k].start])) &&
              LastEnd(hits) <= |c| && EndsWith(r, c[LastEnd(hits)..])
  {
    SubDeletes(c, rx(SprintButton, c));
    if rx(SprintButton, c) != [] {
      SubDeletesKeeps(c, rx(SprintButton, c));
    }
  }

  /**
   * A size rule re-emits capture groups 1 and 3 verbatim and replaces only
   * group 2, the size class, by `text-xl`.
   */
  lemma ResizeKeepsFrame(c: Text, rx: Engine, p: Pattern)
    requires Ordered(c, rx(p, c), 0) && Framed(c, rx(p, c))
    ensures Resize(c, rx, p) == Sub(c, Middles(rx(p, c)), Literal("text-xl"))
  {
    GroupMiddle(c, rx(p, c), "text-xl");
  }

  /** `.toFixed(3)` anywhere in the page, even far from any `record.avgTime`, skips both conversions. */
  lemma AvgTimeGuardAnywhere(a: Text, b: Text)
    ensures AvgTimeRules(a + Fixed3 + b) == a + Fixed3 + b
  {
    ContainsMiddle(a, Fixed3, b);
  }

  /** `{v}` has no other `{` than its first character, unlike the divided value. */
  lemma BracedSeparated(v: Text, w: Text, div: Text)
    requires Name(v) && Free('{', w) && Free('{', div)
    ensures Separated(Braced(v), Bare(w, div))
  {
    var q, rep := Braced(v), Bare(w, div);
    assert forall i | 1 <= i < |q| :: q[i] == (v + "}")[i - 1];
    assert forall i | 1 <= i < |rep| :: rep[i] == (InSeconds(w, div) + "}")[i - 1];
    assert q[1] != rep[1] by {
      if |v| == 0 {
        assert q[1] == '}';
      } else {
        assert q[1] == v[0];
      }
    }
  }

  /** `{v}ms` contains `{v}`. */
  lemma MsHasBraced(v: Text)
    ensures Contains(Ms(v), Braced(v))
  {
    assert Ms(v) == [] + Braced(v) + "ms";
    ContainsMiddle([], Braced(v), "ms");
  }

  /** The divided value contains the guard's mark. */
  lemma SecondsHaveFixed3(v: Text, div: Text)
    ensures Contains(Seconds(v, div), Fixed3)
    ensures Contains(Bare(v, div), Fixed3)
  {
    assert Seconds(v, div) == ("{(" + v + div + ")") + Fixed3 + "}s";
    assert Bare(v, div) == ("{(" + v + div + ")") + Fixed3 + "}";
    ContainsMiddle("{(" + v + div + ")", Fixed3, "}s");
    ContainsMiddle("{(" + v + div + ")", Fixed3, "}");
  }

  /** When the guard lets the conversions run, no `{record.avgTime}` display is left, with or without `ms`. */
  lemma AvgTimeConverted(c: Text)
    requires !Contains(c, Fixed3)
    ensures !Contains(AvgTimeRules(c), Braced(RecordAvgTime))
    ensures !Contains(AvgTimeRules(c), Ms(RecordAvgTime))
  {
    NamesArePlain();
    var c1 := ReplaceAll(c, Ms(RecordAvgTime), Seconds(RecordAvgTime, SpacedDiv));
    BracedSeparated(RecordAvgTime, RecordAvgTime, SpacedDiv);
    ReplaceEliminates(c1, Braced(RecordAvgTime), Bare(RecordAvgTime, SpacedDiv));
    MsHasBraced(RecordAvgTime);
    if Contains(AvgTimeRules(c), Ms(RecordAvgTime)) {
      ContainsTrans(AvgTimeRules(c), Ms(RecordAvgTime), Braced(RecordAvgTime));
    }
  }

  /** A page with a `{record.avgTime}` display gets the guard's mark from the conversions. */
  lemma AvgTimeMarks(c: Text)
    requires Contains(c, Braced(RecordAvgTime))
    ensures Contains(AvgTimeRules(c), Fixed3)
  {
    if !Contains(c, Fixed3) {
      var ms, sec := Ms(RecordAvgTime), Seconds(RecordAvgTime, SpacedDiv);
      var br, bare := Braced(RecordAvgTime), Bare(RecordAvgTime, SpacedDiv);
      var c1 := ReplaceAll(c, ms, sec);
      SecondsHaveFixed3(RecordAvgTime, SpacedDiv);
      if Contains(c1, br) {
        PlainMatches(c1, br);
        ReplaceEmitsReplacement(c1, br, bare, false);
        ContainsTrans(AvgTimeRules(c), bare, Fixed3);
      } else {
        AbsentUnchanged(c1, br, bare);
        if Contains(c, ms) {
          PlainMatches(c, ms);
          ReplaceEmitsReplacement(c, ms, sec, false);
          ContainsTrans(c1, sec, Fixed3);
        } else {
          AbsentUnchanged(c, ms, sec);
        }
      }
    }
  }

  /** The guarded conversion run on its own output changes nothing. */
  lemma AvgTimeIdempotent(c: Text)
    ensures AvgTimeRules(AvgTimeRules(c)) == AvgTimeRules(c)
  {
    if !Contains(c, Fixed3) {
      if Contains(c, Braced(RecordAvgTime)) {
        AvgTimeMarks(c);
      } else {
        MsHasBraced(RecordAvgTime);
        if Contains(c, Ms(RecordAvgTime)) {
          ContainsTrans(c, Ms(RecordAvgTime), Braced(RecordAvgTime));
        }
        AbsentUnchanged(c, Ms(RecordAvgTime), Seconds(RecordAvgTime, SpacedDiv));
        AbsentUnchanged(c, Braced(RecordAvgTime), Bare(RecordAvgTime, SpacedDiv));
      }
    }
  }

  // ---------------------------------------------------------------------------
  // Training pages

  /** A unit rule with `\b`: `{v}ms` becomes seconds only where `ms` ends a word. */
  function WordEndRule(c: Text, v: Text): Text
  {
    ReplaceAtWordEnd(c, Ms(v), Seconds(v, Div))
  }

  /** The stdDev rule with `\b`, skipped when the converted expression is already present. */
  function StdDevWordEndRule(c: Text): Text
  {
    ReplaceUnless(c, Customization.StdDevMarker(), Ms(StatsStdDev), Seconds(StatsStdDev, Div), true)
  }

  /** The eight conversions of `fix_all_training_pages`, in order. */
  function ConvertedV2(c: Text): Text
  {
    var c3 := WordEndRule(WordEndRule(WordEndRule(c, Time), Reaction), StatsAverage);
    var c4 := StdDevWordEndRule(c3);
    WordEndRule(WordEndRule(WordEndRule(WordEndRule(c4, RTime), RReaction), ResultTime), ResultAvgTime)
  }

  /** `fix_all_training_pages`: the conversions, then the three label fix-ups. */
  function FixTrainingPage(c: Text): Text
  {
    FixLabel(FixLabel(FixLabel(ConvertedV2(c), Time), Reaction), StatsAverage)
  }

  /** After a word-end rule for a name, no `{v}ms` that ends a word is left. */
  lemma WordEndRuleClean(c: Text, v: Text)
    requires Name(v)
    ensures !Matches(WordEndRule(c, v), Ms(v), true)
  {
    SecondsSeparated(v, v, Div);
    ReplaceLeavesNone(c, Ms(v), Seconds(v, Div), true);
  }

  /** A word-end rule changes the page exactly when some `{v}ms` ends a word. */
  lemma WordEndRuleEffect(c: Text, v: Text)
    ensures WordEndRule(c, v) == c <==> !Matches(c, Ms(v), true)
  {
    assert |Ms(v)| < |Seconds(v, Div)|;
    ReplaceUnchangedIff(c, Ms(v), Seconds(v, Div), true);
  }

  /** A `{v}ms` followed by a word character, such as `{time}msec`, is not rewritten. */
  lemma WordEndRuleSpares(c: Text, v: Text)
    requires forall k | OccursAt(c, Ms(v), k) :: k + |Ms(v)| < |c| && IsWordChar(c[k + |Ms(v)|])
    ensures WordEndRule(c, v) == c
  {
    forall k | 0 <= k <= |c| - |Ms(v)| ensures !MatchAt(c, Ms(v), k, true) {
      MatchAtOccurs(c, Ms(v), k, true);
    }
    NoMatchUnchanged(c, Ms(v), Seconds(v, Div), true);
  }

  /**
   * The stdDev rule leaves the page as it was exactly when the converted
   * expression is already present or no `{stats.stdDev}ms` ends a word; it
   * writes its own marker, so it never runs twice.
   */
  lemma StdDevWordEndEffect(c: Text)
    ensures StdDevWordEndRule(c) == c <==> (Contains(c, Customization.StdDevMarker()) || !Matches(c, Ms(StatsStdDev), true))
    ensures StdDevWordEndRule(StdDevWordEndRule(c)) == StdDevWordEndRule(c)
  {
    assert |Ms(StatsStdDev)| < |Seconds(StatsStdDev, Div)|;
    ReplaceUnchangedIff(c, Ms(StatsStdDev), Seconds(StatsStdDev, Div), true);
    SecondsMarked(StatsStdDev, Div);
    GuardedIdempotent(c, Customization.StdDevMarker(), Ms(StatsStdDev), Seconds(StatsStdDev, Div), true);
  }

  /** Every pattern of the training rules ends in `}ms`. */
  lemma UnitMark(c: Text, v: Text)
    requires !Contains(c, "}ms")
    ensures !Matches(c, Ms(v), true)
    ensures !Contains(c, StaleMs(v))
  {
    assert Ms(v) == ("{" + v) + "}ms" + [];
    ContainsMiddle("{" + v, "}ms", []);
    assert StaleMs(v) == InSeconds(v, Div) + "}ms" + [];
    ContainsMiddle(InSeconds(v, Div), "}ms", []);
    if Matches(c, Ms(v), true) {
      var k :| 0 <= k <= |c| - |Ms(v)| && MatchAt(c, Ms(v), k, true);
      MatchAtOccurs(c, Ms(v), k, true);
      ContainsTrans(c, Ms(v), "}ms");
    }
    if Contains(c, StaleMs(v)) {
      ContainsTrans(c, StaleMs(v), "}ms");
    }
  }

  /** A training page without any `}ms` is returned as it was. */
  lemma TrainingPageUnchanged(c: Text)
    requires !Contains(c, "}ms")
    ensures FixTrainingPage(c) == c
  {
    UnitMark(c, Time);
    UnitMark(c, Reaction);
    UnitMark(c, StatsAverage);
    UnitMark(c, StatsStdDev);
    UnitMark(c, RTime);
    UnitMark(c, RReaction);
    UnitMark(c, ResultTime);
    UnitMark(c, ResultAvgTime);
    NoMatchUnchanged(c, Ms(Time), Seconds(Time, Div), true);
    NoMatchUnchanged(c, Ms(Reaction), Seconds(Reaction, Div), true);
    NoMatchUnchanged(c, Ms(StatsAverage), Seconds(StatsAverage, Div), true);
    NoMatchUnchanged(c, Ms(StatsStdDev), Seconds(StatsStdDev, Div), true);
    NoMatchUnchanged(c, Ms(RTime), Seconds(RTime, Div), true);
    NoMatchUnchanged(c, Ms(RReaction), Seconds(RReaction, Div), true);
    NoMatchUnchanged(c, Ms(ResultTime), Seconds(ResultTime, Div), true);
    NoMatchUnchanged(c, Ms(ResultAvgTime), Seconds(ResultAvgTime, Div), true);
    assert ConvertedV2(c) == c;
    AbsentUnchanged(c, StaleMs(Time), FixedS(Time));
    AbsentUnchanged(c, StaleMs(Reaction), FixedS(Reaction));
    AbsentUnchanged(c, StaleMs(StatsAverage), FixedS(StatsAverage));
  }

  // ---------------------------------------------------------------------------
  // The script

  const BackupV2: Path := "backup_v2"

  /** The files the script backs up, in its order. */
  const V2Targets: seq<Path> := [Page, RankingPage, SimplePage, ColorPage, DualPage]

  /** The training pages the final loop rewrites. */
  const TrainingPages: seq<Path> := [SimplePage, ColorPage, DualPage]

  /** The rewrite the script applies to each of its targets. */
  function Fix(rx: Engine, t: Path, c: Text): Text
  {
    if t == Page then FixPage(c, rx)
    else if t == RankingPage then FixRanking(c, rx)
    else if t == SimplePage || t == ColorPage || t == DualPage then FixTrainingPage(c)
    else c
  }

  /** The rewrite as a patch. */
  function Fixer(rx: Engine): (Path, Text) -> Text
  {
    (t, c) => Fix(rx, t, c)
  }

  /** The files after the script: nothing happens without `app/page.tsx`. */
  function FixedV2(fs: Files, rx: Engine): Files
  {
    if Page !in fs then fs else Scripted(fs, BackupV2, V2Targets, Fixer(rx))
  }

  /** The writes of the script, in order: the backups, then the rewrites. */
  function FixedV2Log(fs: Files): seq<Op>
  {
    if Page !in fs then [] else ScriptedLog(fs, BackupV2, V2Targets)
  }

  /** `main`: check for `app/page.tsx`, back up, rewrite the top and ranking pages, then loop over the training pages. */
  method RunFixesV2(fs: Files, rx: Engine) returns (out: Files, log: seq<Op>)
    ensures Page !in fs ==> out == fs && log == []
    ensures out == FixedV2(fs, rx) && log == FixedV2Log(fs)
  {
    if Page !in fs {
      return fs, [];
    }
    var backed, blog := Backup(fs, BackupV2, V2Targets);
    var patch := Fixer(rx);
    var f1, s1 := PatchFile(backed, Page, patch);
    var f2, s2 := PatchFile(f1, RankingPage, patch);
    var f3, s3 := PatchEach(f2, TrainingPages, patch);
    assert V2Targets == [Page] + ([RankingPage] + TrainingPages);
    PatchCons(backed, Page, [RankingPage] + TrainingPages, patch);
    PatchCons(f1, RankingPage, TrainingPages, patch);
    out, log := f3, blog + (s1 + (s2 + s3));
  }

  /** The targets have distinct paths and backups that collide with nothing. */
  lemma V2LaidOut()
    ensures BackupSafe(BackupV2, V2Targets)
  {
    BackupSafeByLength(BackupV2, V2Targets);
  }

  /** When the script runs, each target ends up as its rewrite of the content it had; a missing one stays missing. */
  lemma FixedV2Target(fs: Files, rx: Engine, k: nat)
    requires Page in fs && k < |V2Targets|
    ensures V2Targets[k] in FixedV2(fs, rx) <==> V2Targets[k] in fs
    ensures V2Targets[k] in fs ==> FixedV2(fs, rx)[V2Targets[k]] == Fix(rx, V2Targets[k], fs[V2Targets[k]])
  {
    V2LaidOut();
    ScriptedTarget(fs, BackupV2, V2Targets, Fixer(rx), k);
  }

  /** When the script runs, each present target's backup in `backup_v2` holds the content it had before. */
  lemma FixedV2Backup(fs: Files, rx: Engine, k: nat)
    requires Page in fs && k < |V2Targets| && V2Targets[k] in fs
    ensures BackupPath(BackupV2, V2Targets[k]) in FixedV2(fs, rx)
    ensures FixedV2(fs, rx)[BackupPath(BackupV2, V2Targets[k])] == fs[V2Targets[k]]
  {
    V2LaidOut();
    ScriptedBackup(fs, BackupV2, V2Targets, Fixer(rx), k);
  }

  /** Every file that is neither a target nor a backup is left as it was. */
  lemma FixedV2Elsewhere(fs: Files, rx: Engine, p: Path)
    requires forall k | 0 <= k < |V2Targets| :: p != V2Targets[k] && p != BackupPath(BackupV2, V2Targets[k])
    ensures p in FixedV2(fs, rx) <==> p in fs
    ensures p in fs ==> FixedV2(fs, rx)[p] == fs[p]
  {
    if Page in fs {
      ScriptedElsewhere(fs, BackupV2, V2Targets, Fixer(rx), p);
    }
  }

  /** A second run backs up the already fixed files over the first backups. */
  lemma V2RerunOverwritesBackup(fs: Files, rx: Engine, k: nat)
    requires Page in fs && k < |V2Targets| && V2Targets[k] in fs
    ensures BackupPath(BackupV2, V2Targets[k]) in FixedV2(FixedV2(fs, rx), rx)
    ensures FixedV2(FixedV2(fs, rx), rx)[BackupPath(BackupV2, V2Targets[k])] == Fix(rx, V2Targets[k], fs[V2Targets[k]])
  {
    V2LaidOut();
    FixedV2Target(fs, rx, 0);
    ScriptedRerun(fs, BackupV2, V2Targets, Fixer(rx), k);
  }
}
