# Shimane customization scripts, modelled in Dafny

The repository ships a reaction-training web application and five Python
scripts that patch its source text for one deployment: they back up the
pages they touch, rewrite titles, badges, ranking areas, display sizes and
time units with `str.replace` and `re.sub`, remove the sprint mode, and,
in two later scripts, turn synchronous `getUser()` calls into awaited ones.
This project models those scripts and proves what each rewrite does to the
text and what each script does to the files.

Layout, one module per file:

- `strings.dfy` (`Strings`): `str.replace` (leftmost, non-overlapping), the
  same with a trailing `\b`, and a guarded variant; separation conditions
  under which a replacement cannot re-create its own pattern.
- `lines.dfy` (`Lines`): `split('\n')` and `'\n'.join`.
- `regex.dfy` (`Regex`): `re.sub` over an abstract engine. A rule receives
  the matches the engine reports (spans and capture groups); templates with
  back-references and callback replacements are modelled exactly, and a
  literal pattern is proved to behave as `str.replace`.
- `units.dfy` (`Units`): the `{v}ms` to `{(v/1000).toFixed(3)}s` rules
  shared by the scripts.
- `disk.dfy` (`Disk`): the file tree as a map from paths to contents, the
  backup loop, the guarded read-patch-write steps, `shutil.rmtree`, and the
  write-only-when-changed loop of the async scripts; every method also
  returns the ordered list of writes and removals it performs.
- `customization.dfy` (`Customization`): `apply_shimane_customization.py`.
- `fixes_v2.dfy` (`FixesV2`): `apply_shimane_fixes_v2.py`.
- `fixes_v3.dfy` (`FixesV3`): `apply_shimane_fixes_v3.py`.
- `async_fix.dfy` (`AsyncFix`): `fix-all-async.py`.
- `async_pages.dfy` (`AsyncPages`): `fix-async-pages.py`.

Each script's rewrite functions are pure functions of the content (and of
the engine `rx` for the real regular expressions). Each script's main
routine is a method over the file map that is proved equal to a
specification function. Lemmas about that function then say what ends up
in each target, in each backup and everywhere else.

Behaviours of the scripts worth knowing, each stated by a lemma:

- Backups are overwritten on every run, so after a second run the backup
  holds the already patched text (`RerunOverwritesBackup` and its v2/v3
  counterparts).
- Not every rule is idempotent: reverting the title of a page that carries
  the suffix twice leaves it once (`FixesV2.RevertLeavesDoubled`).
- The v2 unit guard skips the ranking page's conversion when
  `.toFixed(3)` appears anywhere in the file, not only at the display
  (`FixesV2.AvgTimeGuardAnywhere`).
- The v3 ranking rule stops before the page's own fragment close `</>`
  (a lookahead), and its replacement ends with a `</>` of its own, so the
  page then closes the fragment twice (`FixesV3.FixPageV3DoublesClose`).
- The scripts report only through `print`; the async script counts the
  files it wrote.

## Model

| member | source | states |
|---|---|---|
| Lines.Split | apply_shimane_customization.py:150 | splitting always yields at least one piece and no piece holds a line break |
| Lines.JoinSplit | apply_shimane_customization.py:150-168 | joining the split lines gives back the content exactly |
| Lines.SplitJoin | apply_shimane_customization.py:150-168 | splitting joined lines that hold no line break gives back those lines |
| Regex.LiteralSub | apply_shimane_customization.py:84-85 | a `re.sub` whose pattern is a plain literal behaves as `str.replace`, with or without a trailing `\b` |
| Regex.SubNone | apply_shimane_fixes_v2.py:68-73 | a pattern the engine does not find leaves the text unchanged |
| Regex.GroupMiddle | apply_shimane_fixes_v2.py:93-98 | a `\1text-xl\3` rule on matches made of three groups replaces only the middle group of each match |
| Regex.SubEach | apply_shimane_fixes_v3.py:47 | `re.sub` replaces every reported match, not only the first: for each match, the text between it and the previous match, followed by the replacement, is in the result |
| Regex.SubFromLast | apply_shimane_fixes_v3.py:47 | the text after the last reported match ends the result unchanged |
| Regex.SubDeletesKeeps | apply_shimane_fixes_v2.py:83-88 | a deletion keeps the text before the first match, every gap between two matches, and the text after the last |
| Units.ToSecondsClean | apply_shimane_customization.py:84-85 | after a unit rule, no `{v}ms` for that name is left, and running it again changes nothing |
| Units.ToSecondsKeeps | apply_shimane_customization.py:84-92 | a unit rule for one name does not create a `{w}ms` for another name |
| Units.FixLabelDeletesM | apply_shimane_fixes_v2.py:176-192 | the label fix-up only deletes the `m` of each `(v/1000).toFixed(3)}ms` |
| Units.FixLabelKeeps | apply_shimane_fixes_v2.py:176-192 | the label fix-up does not create a `{w}ms` |
| Disk.RemoveTree | apply_shimane_customization.py:249-252 | after removing `app/sprint`, no path below it is left, every other file is kept unchanged, and no file is added |
| Disk.RemoveTreeGone | apply_shimane_customization.py:249-255 | after removal the directory no longer exists |
| Disk.RemoveTreeIdempotent | apply_shimane_customization.py:249-255 | removing an already removed tree changes nothing |
| Disk.BackupNameFlat | apply_shimane_customization.py:202 | a backup name keeps the path's length and holds no `/` |
| Disk.Backup | apply_shimane_customization.py:199-204 | the backup loop's files and writes are those of its specification |
| Disk.BackupsHold | apply_shimane_customization.py:199-204 | after the backup loop, each present target's backup holds the target's content at that time, whatever an earlier run left there |
| Disk.PatchFile | apply_shimane_customization.py:212-215 | an existing target gets its patched content and is written once; a missing one is skipped; no other file changes |
| Disk.PatchEach | apply_shimane_fixes_v2.py:253-257 | the loop over the training pages equals the rewrite steps over the list, in order |
| Disk.ScriptedRerun | apply_shimane_fixes_v3.py:192-196 | a second run of a script backs up the patched content over the original backup |
| Disk.SettleAllAt | fix-all-async.py:69-76 | after a write-if-changed loop over distinct files, each present file holds its rewrite, and it was written exactly when the rewrite changed it |
| Disk.SettleAllElsewhere | fix-async-pages.py:27-45 | a write-if-changed loop leaves every unlisted file as it was and never writes it |
| Disk.SettleLogBound | fix-all-async.py:79-84 | a write-if-changed loop writes at most once per listed file |
| Disk.SettleNone | fix-async-pages.py:40-45 | when no listed file changes, nothing is written and no file changes |
| Customization.ModifyLayoutUnchanged | apply_shimane_customization.py:26-47 | a layout holding none of the four original strings is returned as it was |
| Customization.ModifyLayoutClears | apply_shimane_customization.py:32-47 | after the layout rewrite no original description, footer or copyright text is left |
| Customization.ModifyPageUnchanged | apply_shimane_customization.py:57-73 | a page holding none of the three blocks is returned as it was |
| Customization.RetitleInsertsOnly | apply_shimane_customization.py:57-60 | retitling inserts `・判断` after the title of each matching heading block and changes nothing else |
| Customization.RemovalsEffect | apply_shimane_customization.py:63-73 | removing the NEW! badge or the ranking hint changes the page exactly when the block is present, and then shortens it |
| Customization.ConvertUnitsClean | apply_shimane_customization.py:84-100 | after the unit rules no `{time}ms`, `{reaction}ms` or `{stats.average}ms` is left |
| Customization.StdDevRuleEffect | apply_shimane_customization.py:95-100 | the stdDev rule leaves the page as it was exactly when the converted expression is present or there is no `{stats.stdDev}ms` |
| Customization.StdDevRuleIdempotent | apply_shimane_customization.py:95-100 | running the stdDev rule twice is running it once |
| Customization.ConvertUnitsIdempotent | apply_shimane_customization.py:84-100 | running the unit rules on their own output changes nothing |
| Customization.SignalsAgree | apply_shimane_customization.py:111-115 | the 150px and 200px boxes have the same length and differ only at the size numbers |
| Customization.ResizeEliminates | apply_shimane_customization.py:111-115 | no 150px box survives the resize rule |
| Customization.ResizeOnlyDigits | apply_shimane_customization.py:111-115 | the resize rule keeps the page's length and every character outside the size numbers of the boxes it rewrites |
| Customization.FollowerSubsumed | apply_shimane_customization.py:162 | the second alternative of the lookahead test is implied by the first |
| Customization.FilterLines | apply_shimane_customization.py:150-166 | the loop with its `skip_next` flag keeps exactly the lines of the filter's specification |
| Customization.ModifyRankingPage | apply_shimane_customization.py:150-168 | split, filter and join give the filtered page |
| Customization.KeptSubsequence | apply_shimane_customization.py:150-166 | the kept lines are a subsequence of the input lines, in their order |
| Customization.KeptNoTrigger | apply_shimane_customization.py:160-164 | no kept line triggers the filter; in particular none mentions `講座` |
| Customization.KeptFlat | apply_shimane_customization.py:150-166 | kept lines hold no line break |
| Customization.KeptAll | apply_shimane_customization.py:154-166 | when no line triggers, every line is kept |
| Customization.KeptKeeps | apply_shimane_customization.py:154-166 | a line that neither triggers nor is a session value after a trigger is kept, as the next output line |
| Customization.RankingUnchanged | apply_shimane_customization.py:150-168 | a page in which no line triggers comes out exactly as it went in |
| Customization.RankingLines | apply_shimane_customization.py:150-168 | the output's lines are exactly the kept lines, and none mentions `講座` |
| Customization.RewritesInOrder | apply_shimane_customization.py:211-245 | the six guarded rewrite blocks, in the script's order, are the rewrite steps over the target list, with the same writes |
| Customization.RewriteTargets | apply_shimane_customization.py:211-245 | the method performing the six blocks equals those steps |
| Customization.ApplyCustomization | apply_shimane_customization.py:180-255 | the main routine's files and ordered writes and removals are those of its specification: nothing without a layout, else backups, rewrites, then the sprint removal |
| Customization.TargetsLaidOut | apply_shimane_customization.py:186-202 | targets are distinct, backups collide with nothing, and nothing of either lies under `app/sprint` |
| Customization.CustomizedShape | apply_shimane_customization.py:247-255 | outside `app/sprint`, the result is that of the backup and rewrite steps |
| Customization.CustomizedTarget | apply_shimane_customization.py:211-245 | each target ends up as its rewrite of the content it had; a missing target stays missing |
| Customization.CustomizedBackup | apply_shimane_customization.py:199-204 | each present target's backup holds its content from before the run |
| Customization.CustomizedSprintGone | apply_shimane_customization.py:249-255 | after a run nothing is left at or below `app/sprint` |
| Customization.CustomizedElsewhere | apply_shimane_customization.py:180-255 | every other file outside `app/sprint` is left as it was |
| Customization.RerunOverwritesBackup | apply_shimane_customization.py:199-204 | after a second run the backup holds the customised content, not the original |
| FixesV2.RevertDeletesSuffix | apply_shimane_fixes_v2.py:27-31 | the title revert deletes `・判断` after each `シンプル反応` that carries it and changes nothing else |
| FixesV2.RevertEffect | apply_shimane_fixes_v2.py:27-31 | the revert changes the page exactly when the suffixed title is present, and then shortens it |
| FixesV2.RevertLeavesDoubled | apply_shimane_fixes_v2.py:27-31 | a title carrying the suffix twice keeps it once after the revert |
| FixesV2.BadgeInsertsOnly | apply_shimane_fixes_v2.py:34-45 | the badge rewrite inserts the 判断 badge between the two old badges of each matching row and changes nothing else |
| FixesV2.BadgeEffect | apply_shimane_fixes_v2.py:34-45 | the badge rewrite changes the page exactly when the old row is present, and then lengthens it and writes the new row |
| FixesV2.FixPageWithoutArea | apply_shimane_fixes_v2.py:68-73 | when the engine finds no ranking area the page is that of the first two rules |
| FixesV2.FixPageInstallsArea | apply_shimane_fixes_v2.py:51-73 | when the engine finds a ranking area the new one is on the page |
| FixesV2.FixPageUnchanged | apply_shimane_fixes_v2.py:21-76 | a page without the suffixed title, the old badge row and a ranking area is returned as it was |
| FixesV2.RemoveSprintDeletes | apply_shimane_fixes_v2.py:83-88 | removing the sprint buttons deletes as many characters as the engine reports, and keeps the text before the first button, every gap between two buttons, and the text after the last |
| FixesV2.ResizeKeepsFrame | apply_shimane_fixes_v2.py:93-120 | a size rule replaces only the size class of each match and keeps the text around it |
| FixesV2.AvgTimeGuardAnywhere | apply_shimane_fixes_v2.py:124 | any `.toFixed(3)` anywhere in the page switches both average-time rules off |
| FixesV2.MsHasBraced | apply_shimane_fixes_v2.py:126-136 | each `{v}ms` holds `{v}`, so the second rule sees what the first missed |
| FixesV2.SecondsHaveFixed3 | apply_shimane_fixes_v2.py:124-136 | every converted display holds `.toFixed(3)` |
| FixesV2.AvgTimeConverted | apply_shimane_fixes_v2.py:124-136 | when the guard lets the rules run, no `{record.avgTime}` or `{record.avgTime}ms` is left |
| FixesV2.AvgTimeMarks | apply_shimane_fixes_v2.py:124-136 | after the rules, a page that showed `{record.avgTime}` holds `.toFixed(3)` |
| FixesV2.AvgTimeIdempotent | apply_shimane_fixes_v2.py:124-136 | running the guarded rules twice is running them once |
| FixesV2.WordEndRuleClean | apply_shimane_fixes_v2.py:157-158 | after a `\b` unit rule no `{v}ms` followed by a word boundary is left |
| FixesV2.WordEndRuleEffect | apply_shimane_fixes_v2.py:157-173 | a `\b` unit rule changes the page exactly when such a `{v}ms` is present |
| FixesV2.WordEndRuleSpares | apply_shimane_fixes_v2.py:157-173 | a `{v}ms` followed by a word character, such as `{time}msec`, is not converted |
| FixesV2.StdDevWordEndEffect | apply_shimane_fixes_v2.py:164-165 | the guarded stdDev rule leaves the page as it was exactly when the converted expression is present or no such `{stats.stdDev}ms` is present, and is idempotent |
| FixesV2.UnitMark | apply_shimane_fixes_v2.py:157-192 | a page without `}ms` offers none of the rules anything to match |
| FixesV2.TrainingPageUnchanged | apply_shimane_fixes_v2.py:149-195 | a training page without `}ms` is returned as it was |
| FixesV2.RunFixesV2 | apply_shimane_fixes_v2.py:197-257 | the main routine does nothing without `app/page.tsx`, and otherwise its files and ordered writes are those of its specification |
| FixesV2.V2LaidOut | apply_shimane_fixes_v2.py:210-227 | the five targets and their `backup_v2` copies collide with nothing |
| FixesV2.FixedV2Target | apply_shimane_fixes_v2.py:235-257 | each target ends up as its rewrite of its content; a missing target stays missing |
| FixesV2.FixedV2Backup | apply_shimane_fixes_v2.py:222-227 | each present target's backup holds its content from before the run |
| FixesV2.FixedV2Elsewhere | apply_shimane_fixes_v2.py:197-257 | every other file is left as it was |
| FixesV2.V2RerunOverwritesBackup | apply_shimane_fixes_v2.py:222-227 | after a second run the backup holds the patched content |
| FixesV3.BadgesNeedSection | apply_shimane_fixes_v3.py:34-40 | without the simple-mode section the badge rule does nothing |
| FixesV3.BadgesAnywhere | apply_shimane_fixes_v3.py:40-47 | once the section is found, every badge pair the engine reports anywhere in the page is rewritten where it lies: the text before the first pair is kept, and the new badges of each pair follow the text between it and the previous pair |
| FixesV3.FixPageV3InstallsArea | apply_shimane_fixes_v3.py:51-70 | when the engine finds the ranking area, the replacement area, which ends in a `</>` of its own, is on the page |
| FixesV3.FixPageV3DoublesClose | apply_shimane_fixes_v3.py:51-68 | the pattern's lookahead leaves the page's own `</>` after the match, so with one reported area the replacement is directly followed by that `</>` and the page holds `</></>` |
| FixesV3.SprintRemoval | apply_shimane_fixes_v3.py:80-81 | removing the sprint button deletes as many characters as the engine reports, keeps the text before the first button, every gap between two buttons and the text after the last, and deletes nothing when the engine reports none |
| FixesV3.RegridOnlyCount | apply_shimane_fixes_v3.py:84-87 | the grid rule changes only the column count of each match |
| FixesV3.RegridClean | apply_shimane_fixes_v3.py:84-87 | no five-column grid is left, and a second run changes nothing |
| FixesV3.DisplayInSeconds | apply_shimane_fixes_v3.py:94-119 | a rewritten best, record or fastest time shows the same value divided by 1000 with `toFixed(3)`, then an `s` span |
| FixesV3.ConvertNames | apply_shimane_fixes_v3.py:139-147 | the loop over the rule list applies its rules in order |
| FixesV3.FoldLoopNames | apply_shimane_fixes_v3.py:139-147 | the list's rules are the `time`, `reaction`, `r.time` and `r.reaction` rules in that order |
| FixesV3.FoldKeeps | apply_shimane_fixes_v3.py:146-147 | the list's rules do not create a `{w}ms` that is not there |
| FixesV3.FoldClean | apply_shimane_fixes_v3.py:146-147 | after the list's rules no `{v}ms` is left for any name in the list |
| FixesV3.SpanRepSeparated | apply_shimane_fixes_v3.py:160-161 | a joined display cannot complete any `{w}ms` |
| FixesV3.StatsClean | apply_shimane_fixes_v3.py:150-161 | after the stats rules and the later steps, no `{stats.average}ms` or `{stats.stdDev}ms` is left |
| FixesV3.LaterStepsKeep | apply_shimane_fixes_v3.py:154-161 | the label fix-ups and the span rules do not create a `{w}ms` |
| FixesV3.AfterFoldKeeps | apply_shimane_fixes_v3.py:150-161 | the steps after the list do not create a `{w}ms` |
| FixesV3.TrainingV3Clean | apply_shimane_fixes_v3.py:131-164 | after the training rules none of the six `{v}ms` displays is left, whatever the engine reports |
| FixesV3.FixTrainingUnits | apply_shimane_fixes_v3.py:131-164 | the method's result is that of the training rules |
| FixesV3.RunFixesV3 | apply_shimane_fixes_v3.py:166-226 | the main routine does nothing without `app/page.tsx`, and otherwise its files and ordered writes are those of its specification |
| FixesV3.V3LaidOut | apply_shimane_fixes_v3.py:178-196 | the five targets and their `backup_v3_complete` copies collide with nothing |
| FixesV3.FixedV3Target | apply_shimane_fixes_v3.py:203-226 | each target ends up as its rewrite of its content; a missing target stays missing |
| FixesV3.FixedV3Backup | apply_shimane_fixes_v3.py:191-196 | each present target's backup holds its content from before the run |
| FixesV3.FixedV3Elsewhere | apply_shimane_fixes_v3.py:166-226 | every other file is left as it was |
| FixesV3.V3RerunOverwritesBackup | apply_shimane_fixes_v3.py:192-196 | after a second run the backup holds the patched content |
| AsyncFix.LoadDataGuarded | fix-all-async.py:27-42 | the loadData rule changes a page only when both markers are present and the engine finds the effect; then the async effect is on the page |
| AsyncFix.LoadUserGuarded | fix-all-async.py:45-58 | the loadUser rules change a page only when `const currentUser = getUser();` is on it |
| AsyncFix.CloseKeepsUpdate | fix-all-async.py:54-58 | the closing rule keeps the matched state update and dependency list, and puts the loader's end and call between them |
| AsyncFix.LoadUserAwaits | fix-all-async.py:48-56 | the loader is async, awaits `getUser()`, and is called |
| AsyncFix.HandlerOnlyArrow | fix-all-async.py:62-67 | a matched handler keeps its name and body; only its arrow becomes async |
| AsyncFix.AsyncifyEmits | fix-all-async.py:62-67 | when the engine finds a handler its async form is on the page |
| AsyncFix.FixFile | fix-all-async.py:13-76 | a missing page returns False and writes nothing; otherwise the page is written, and True returned, exactly when the rewrite changed it |
| AsyncFix.FixEach | fix-all-async.py:79-84 | the counting loop's files and writes are those of the write-if-changed loop, and the count equals the number of writes |
| AsyncFix.FixAll | fix-all-async.py:4-11 | the same, over the script's six pages |
| AsyncFix.FixAllAt | fix-all-async.py:69-84 | each listed page that exists holds the rewrite of its original content, and was written exactly when that changed it |
| AsyncFix.FixAllCount | fix-all-async.py:79-84 | the count is at most six, and zero exactly when no listed page changes; then no file changes |
| AsyncPages.FixPattern2 | fix-async-pages.py:21-25 | the result holds groups 1, 2 and 3 verbatim and in order, with the async loader after group 1 and its end and call before group 3 |
| AsyncPages.FixPattern2Frames | fix-async-pages.py:19-25 | on a match, the synchronous read becomes the async loader and the loader is closed before the dependency list; all other matched text is kept |
| AsyncPages.FixPattern2Awaits | fix-async-pages.py:21-25 | the rewritten effect holds `async () => {`, `await getUser();` and `loadUser();` |
| AsyncPages.FixTextAwaits | fix-async-pages.py:38 | when the engine finds the effect, the awaited read is on the page |
| Disk.SettleEach | fix-async-pages.py:27-45 | the loop skips missing pages, rewrites each listed page in order, and writes a page exactly when the rewrite changed it; the final files and the writes are those of the write-if-changed loop |
| AsyncPages.FixPages | fix-async-pages.py:4-10 | the same, over the script's five pages |
| AsyncPages.FixPagesAt | fix-async-pages.py:27-45 | each listed page that exists holds the rewrite of its original content, and was written exactly when that changed it |
| AsyncPages.FixPagesElsewhere | fix-async-pages.py:4-10 | the top page and every other unlisted file are left alone |
| AsyncPages.FixPagesNoMatch | fix-async-pages.py:38-45 | when the engine finds nothing on any listed page, nothing is written |

## Left out

- Regular-expression matching itself (`.*?` with DOTALL, `\s*`, `[^>]*`, `\w+`, the `(?=</>)` lookahead) is not modelled. For those rules the engine is a parameter that reports matches. Lemmas about them assume the matches are ordered left to right, and where a frame is needed, that the groups spell the matched text. The literal patterns are modelled exactly.
- Strings.IsWordChar: `\b` treats ASCII letters, digits and `_` as Python does. It also treats every non-ASCII character as a word character, although Python does not count non-ASCII punctuation and symbols.
- File I/O, UTF-8 decoding, `os.path.exists`, `mkdir(exist_ok=True)` and directories: files are a map from paths to contents, and directories exist only through the paths below them.
- I/O errors and exceptions are not modelled.
- Console output (`print`) is not modelled. The models keep the effects that printing reports: the writes, and the fixed count.
- The unused assignments `pattern1`/`replacement1` (fix-all-async.py:24-25, fix-async-pages.py:13-16) and `ranking_pattern` (apply_shimane_fixes_v2.py:49) have no effect and are not modelled.
- Running different scripts one after another is not composed into one model. Each script is modelled, and reruns are modelled per script.
- FixesV2.BadgeEffect: does not state that a second run adds no second 判断 badge. The separation arguments used here are per character and do not reach the shared row prefix.
- Customization.ModifyLayoutClears: does not state that the old title is gone after the rewrite. That case is not proved here.
- FixesV3.DisplayInSeconds: covers the three rules that divide a single value. The average rule (rounded mean) and the participants rule are modelled by their replacement texts, with no lemma of their own.
- The application's own code (`lib/*.ts`, the middleware, `next.config`) is not part of this model.
