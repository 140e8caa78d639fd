/**
 * The working tree the scripts run in, as a map from relative paths to file
 * contents, and the operations they perform on it: backing files up under a
 * flattened name, writing a file, and removing a directory tree.
 */
module Disk {
  import opened Strings

  type Path = Text

  /** The files of the working tree; directories exist only through the files below them. */
  type Files = map<Path, Text>

  /** What a run does to the tree, in order. */
  datatype Op = Write(path: Path) | Remove(dir: Path)

  // The files of the Next.js app the scripts patch.
  const Layout: Path := "app/layout.tsx"
  const Page: Path := "app/page.tsx"
  const SimplePage: Path := "app/simple/page.tsx"
  const ColorPage: Path := "app/color/page.tsx"
  const DualPage: Path := "app/dual/page.tsx"
  const RankingPage: Path := "app/ranking/page.tsx"
  const SprintDir: Path := "app/sprint"
  const SprintPage: Path := "app/sprint/page.tsx"

  /** `p` is `dir` itself or lies below it. */
  predicate Under(p: Path, dir: Path)
  {
    p == dir || (|dir| < |p| && p[..|dir|] == dir && p[|dir|] == '/')
  }

  /** A path that differs from `dir` at some index before either ends does not lie below it. */
  lemma NotUnder(p: Path, dir: Path, j: nat)
    requires j < |dir| && j < |p| && p[j] != dir[j]
    ensures !Under(p, dir)
  {
    if |dir| < |p| {
      assert p[..|dir|][j] == p[j];
    }
  }

  /** `Path(dir).exists()`: `dir` is a file or some file lies below it. */
  predicate Exists(fs: Files, dir: Path)
  {
    exists p | p in fs :: Under(p, dir)
  }

  /** `shutil.rmtree(dir)`: every file at or below `dir` is gone, every other file is kept. */
  function RemoveTree(fs: Files, dir: Path): (r: Files)
    ensures forall p | p in r :: !Under(p, dir)
    ensures forall p | p in fs && !Under(p, dir) :: p in r && r[p] == fs[p]
    ensures forall p | p in r :: p in fs
  {
    map p | p in fs && !Under(p, dir) :: fs[p]
  }

  /** Removing a tree twice is removing it once. */
  lemma RemoveTreeIdempotent(fs: Files, dir: Path)
    ensures RemoveTree(RemoveTree(fs, dir), dir) == RemoveTree(fs, dir)
  {
  }

  /** After a removal the tree no longer exists. */
  lemma RemoveTreeGone(fs: Files, dir: Path)
    ensures !Exists(RemoveTree(fs, dir), dir)
  {
  }

  /** The name a file is backed up under: its path with every '/' replaced by '_'. */
  function BackupName(p: Path): Text
  {
    ReplaceAll(p, "/", "_")
  }

  /** Where a file is backed up in directory `dir`. */
  function BackupPath(dir: Path, p: Path): Path
  {
    dir + "/" + BackupName(p)
  }

  /** A backup name is as long as the path and holds no '/', so the backup sits directly in its directory. */
  lemma BackupNameFlat(p: Path)
    ensures |BackupName(p)| == |p|
    ensures !Contains(BackupName(p), "/")
  {
    var slash, underscore: Text := "/", "_";
    assert slash[0] != underscore[0];
    assert HeadSeparated(slash, underscore);
    ReplaceEliminates(p, slash, underscore);
    ReplaceSameLength(p, slash, underscore, false, 0);
  }

  /** The length of a backup path. */
  lemma BackupPathLength(dir: Path, p: Path)
    ensures |BackupPath(dir, p)| == |dir| + 1 + |p|
    ensures BackupPath(dir, p)[..|dir|] == dir
  {
    BackupNameFlat(p);
  }

  /**
   * The backup loop can keep every copy: the targets are distinct, no two
   * targets share a backup path and no backup path is a target.
   */
  predicate BackupSafe(dir: Path, targets: seq<Path>)
  {
    && (forall i, j | 0 <= i < j < |targets| :: targets[i] != targets[j])
    && (forall i, j | 0 <= i < j < |targets| :: BackupPath(dir, targets[i]) != BackupPath(dir, targets[j]))
    && (forall i, j | 0 <= i < |targets| && 0 <= j < |targets| :: BackupPath(dir, targets[i]) != targets[j])
  }

  /**
   * The backup loop: for each target in order, if it exists, its current
   * content is written to its backup path (replacing an older backup).
   */
  function Backups(fs: Files, dir: Path, targets: seq<Path>): Files
    decreases |targets|
  {
    if |targets| == 0 then fs
    else
      var t := targets[0];
      Backups(if t in fs then fs[BackupPath(dir, t) := fs[t]] else fs, dir, targets[1..])
  }

  /** The writes the backup loop performs, in order. */
  function BackupLog(fs: Files, dir: Path, targets: seq<Path>): seq<Op>
    decreases |targets|
  {
    if |targets| == 0 then []
    else
      var t := targets[0];
      if t in fs then [Write(BackupPath(dir, t))] + BackupLog(fs[BackupPath(dir, t) := fs[t]], dir, targets[1..])
      else BackupLog(fs, dir, targets[1..])
  }

  /** The conditions for a safe backup loop hold for the targets after the first. */
  lemma BackupSafeTail(dir: Path, targets: seq<Path>)
    requires |targets| > 0 && BackupSafe(dir, targets)
    ensures BackupSafe(dir, targets[1..])
  {
    forall i | 0 <= i < |targets| - 1 ensures targets[1..][i] == targets[i + 1] { }
  }

  /** The backup loop touches no path other than the targets' backup paths. */
  lemma {:induction false} BackupsElsewhere(fs: Files, dir: Path, targets: seq<Path>, p: Path)
    requires forall j | 0 <= j < |targets| :: BackupPath(dir, targets[j]) != p
    ensures p in Backups(fs, dir, targets) <==> p in fs
    ensures p in fs ==> Backups(fs, dir, targets)[p] == fs[p]
    decreases |targets|
  {
    if |targets| > 0 {
      var t := targets[0];
      BackupsElsewhere(if t in fs then fs[BackupPath(dir, t) := fs[t]] else fs, dir, targets[1..], p);
    }
  }

  /**
   * After a safe backup loop, a present target's backup holds the content
   * the target had when the loop ran, whatever an earlier run left there.
   */
  lemma {:induction false} BackupsHold(fs: Files, dir: Path, targets: seq<Path>, k: nat)
    requires BackupSafe(dir, targets) && k < |targets| && targets[k] in fs
    ensures BackupPath(dir, targets[k]) in Backups(fs, dir, targets)
    ensures Backups(fs, dir, targets)[BackupPath(dir, targets[k])] == fs[targets[k]]
    decreases |targets|
  {
    var t := targets[0];
    var fs1 := if t in fs then fs[BackupPath(dir, t) := fs[t]] else fs;
    BackupSafeTail(dir, targets);
    if k == 0 {
      forall j | 0 <= j < |targets| - 1 ensures BackupPath(dir, targets[1..][j]) != BackupPath(dir, t) {
        assert targets[1..][j] == targets[j + 1];
      }
      BackupsElsewhere(fs1, dir, targets[1..], BackupPath(dir, t));
    } else {
      assert targets[1..][k - 1] == targets[k];
      BackupsHold(fs1, dir, targets[1..], k - 1);
    }
  }

  /**
   * Targets of different lengths, none starting with the backup directory's
   * first character, make the backup loop safe.
   */
  lemma BackupSafeByLength(dir: Path, targets: seq<Path>)
    requires |dir| > 0
    requires forall i, j | 0 <= i < j < |targets| :: |targets[i]| != |targets[j]|
    requires forall i | 0 <= i < |targets| :: |targets[i]| > 0 && targets[i][0] != dir[0]
    ensures BackupSafe(dir, targets)
  {
    forall i | 0 <= i < |targets|
      ensures |BackupPath(dir, targets[i])| == |dir| + 1 + |targets[i]|
      ensures BackupPath(dir, targets[i])[0] == dir[0]
    {
      BackupPathLength(dir, targets[i]);
    }
  }

  /** The backup loop, as the scripts run it before any rewrite. */
  method Backup(fs: Files, dir: Path, targets: seq<Path>) returns (out: Files, log: seq<Op>)
    ensures out == Backups(fs, dir, targets)
    ensures log == BackupLog(fs, dir, targets)
  {
    out, log := fs, [];
    var i := 0;
    while i < |targets|
      invariant i <= |targets|
      invariant Backups(out, dir, targets[i..]) == Backups(fs, dir, targets)
      invariant log + BackupLog(out, dir, targets[i..]) == BackupLog(fs, dir, targets)
    {
      var t := targets[i];
      assert targets[i..][1..] == targets[i + 1..];
      if t in out {
        log := log + [Write(BackupPath(dir, t))];
        out := out[BackupPath(dir, t) := out[t]];
      }
      i := i + 1;
    }
  }

  /** One rewrite step: if `t` exists, its content is replaced by what `patch` makes of it. */
  function Rewrite(fs: Files, t: Path, patch: (Path, Text) -> Text): Files
  {
    if t in fs then fs[t := patch(t, fs[t])] else fs
  }

  /** The write one rewrite step performs: one when `t` exists, none otherwise. */
  function Touch(fs: Files, t: Path): seq<Op>
  {
    if t in fs then [Write(t)] else []
  }

  /** The rewrite steps for each target in order. */
  function PatchAll(fs: Files, targets: seq<Path>, patch: (Path, Text) -> Text): Files
    decreases |targets|
  {
    if |targets| == 0 then fs
    else PatchAll(Rewrite(fs, targets[0], patch), targets[1..], patch)
  }

  /** The writes the rewrite steps perform, in order. */
  function PatchLog(fs: Files, targets: seq<Path>): seq<Op>
    decreases |targets|
  {
    if |targets| == 0 then []
    else Touch(fs, targets[0]) + PatchLog(fs, targets[1..])
  }

  /** The writes depend only on which files exist. */
  lemma {:induction false} PatchLogKeys(fs: Files, gs: Files, targets: seq<Path>)
    requires fs.Keys == gs.Keys
    ensures PatchLog(fs, targets) == PatchLog(gs, targets)
    decreases |targets|
  {
    if |targets| > 0 {
      PatchLogKeys(fs, gs, targets[1..]);
    }
  }

  /** Rewriting the first target, then the rest, is rewriting them all. */
  lemma PatchCons(fs: Files, t: Path, rest: seq<Path>, patch: (Path, Text) -> Text)
    ensures PatchAll(fs, [t] + rest, patch) == PatchAll(Rewrite(fs, t, patch), rest, patch)
    ensures PatchLog(fs, [t] + rest) == Touch(fs, t) + PatchLog(Rewrite(fs, t, patch), rest)
  {
    assert ([t] + rest)[1..] == rest;
    PatchLogKeys(fs, Rewrite(fs, t, patch), rest);
  }

  /**
   * One rewrite step as the scripts write it: `if os.path.exists(t)`, read
   * `t`, patch the content and write it back.
   */
  method PatchFile(fs: Files, t: Path, patch: (Path, Text) -> Text) returns (out: Files, log: seq<Op>)
    ensures t in out <==> t in fs
    ensures t in fs ==> out[t] == patch(t, fs[t])
    ensures forall p | p != t :: (p in out <==> p in fs) && (p in fs ==> out[p] == fs[p])
    ensures out == Rewrite(fs, t, patch) && log == Touch(fs, t)
  {
    out, log := fs, [];
    if t in fs {
      out := fs[t := patch(t, fs[t])];
      log := [Write(t)];
    }
  }

  /** The rewrite loop over a list of targets, as the later scripts run it for the training pages. */
  method PatchEach(fs: Files, targets: seq<Path>, patch: (Path, Text) -> Text) returns (out: Files, log: seq<Op>)
    ensures out == PatchAll(fs, targets, patch)
    ensures log == PatchLog(fs, targets)
  {
    out, log := fs, [];
    var i := 0;
    while i < |targets|
      invariant i <= |targets|
      invariant PatchAll(out, targets[i..], patch) == PatchAll(fs, targets, patch)
      invariant log + PatchLog(out, targets[i..]) == PatchLog(fs, targets)
    {
      var step, next;
      next, step := PatchFile(out, targets[i], patch);
      assert targets[i..] == [targets[i]] + targets[i + 1..];
      PatchCons(out, targets[i], targets[i + 1..], patch);
      out, log := next, log + step;
      i := i + 1;
    }
  }

  /** The rewrite steps touch no path other than the targets. */
  lemma {:induction false} PatchAllElsewhere(fs: Files, targets: seq<Path>, patch: (Path, Text) -> Text, p: Path)
    requires forall j | 0 <= j < |targets| :: targets[j] != p
    ensures p in PatchAll(fs, targets, patch) <==> p in fs
    ensures p in fs ==> PatchAll(fs, targets, patch)[p] == fs[p]
    decreases |targets|
  {
    if |targets| > 0 {
      var t := targets[0];
      PatchAllElsewhere(Rewrite(fs, t, patch), targets[1..], patch, p);
    }
  }

  /**
   * With distinct targets, each target ends up patched from the content it
   * had before the rewrite steps, and a missing target stays missing.
   */
  lemma {:induction false} PatchAllAt(fs: Files, targets: seq<Path>, patch: (Path, Text) -> Text, k: nat)
    requires k < |targets|
    requires forall i, j | 0 <= i < j < |targets| :: targets[i] != targets[j]
    ensures targets[k] in PatchAll(fs, targets, patch) <==> targets[k] in fs
    ensures targets[k] in fs ==> PatchAll(fs, targets, patch)[targets[k]] == patch(targets[k], fs[targets[k]])
    decreases |targets|
  {
    var t := targets[0];
    var fs1 := Rewrite(fs, t, patch);
    if k == 0 {
      forall j | 0 <= j < |targets| - 1 ensures targets[1..][j] != t {
        assert targets[1..][j] == targets[j + 1];
      }
      PatchAllElsewhere(fs1, targets[1..], patch, t);
    } else {
      assert targets[1..][k - 1] == targets[k];
      forall i, j | 0 <= i < j < |targets| - 1 ensures targets[1..][i] != targets[1..][j] {
        assert targets[1..][i] == targets[i + 1] && targets[1..][j] == targets[j + 1];
      }
      PatchAllAt(fs1, targets[1..], patch, k - 1);
    }
  }

  /** Rewriting never adds or removes a file. */
  lemma {:induction false} PatchAllKeys(fs: Files, targets: seq<Path>, patch: (Path, Text) -> Text)
    ensures PatchAll(fs, targets, patch).Keys == fs.Keys
    decreases |targets|
  {
    if |targets| > 0 {
      PatchAllKeys(Rewrite(fs, targets[0], patch), targets[1..], patch);
    }
  }

  /** Rewriting two lists of targets in turn is rewriting their concatenation. */
  lemma {:induction false} PatchAllAppend(fs: Files, a: seq<Path>, b: seq<Path>, patch: (Path, Text) -> Text)
    ensures PatchAll(fs, a + b, patch) == PatchAll(PatchAll(fs, a, patch), b, patch)
    ensures PatchLog(fs, a + b) == PatchLog(fs, a) + PatchLog(PatchAll(fs, a, patch), b)
    decreases |a|
  {
    PatchAllKeys(fs, a, patch);
    PatchLogKeys(fs, PatchAll(fs, a, patch), b);
    if |a| > 0 {
      assert (a + b)[0] == a[0] && (a + b)[1..] == a[1..] + b;
      PatchAllAppend(Rewrite(fs, a[0], patch), a[1..], b, patch);
      PatchAllKeys(Rewrite(fs, a[0], patch), a[1..], patch);
      PatchLogKeys(fs, Rewrite(fs, a[0], patch), a[1..] + b);
      PatchLogKeys(fs, Rewrite(fs, a[0], patch), a[1..]);
    } else {
      assert a + b == b;
    }
  }

  // ---------------------------------------------------------------------------
  // A patch script: back the targets up, then rewrite each one that exists

  /** The files after backing up `targets` into `dir` and rewriting them with `patch`. */
  function Scripted(fs: Files, dir: Path, targets: seq<Path>, patch: (Path, Text) -> Text): Files
  {
    PatchAll(Backups(fs, dir, targets), targets, patch)
  }

  /** The writes of such a script: the backups, then the rewrites. */
  function ScriptedLog(fs: Files, dir: Path, targets: seq<Path>): seq<Op>
  {
    BackupLog(fs, dir, targets) + PatchLog(Backups(fs, dir, targets), targets)
  }

  /** Each target ends up as its rewrite of the content it had; a missing target stays missing. */
  lemma ScriptedTarget(fs: Files, dir: Path, targets: seq<Path>, patch: (Path, Text) -> Text, k: nat)
    requires BackupSafe(dir, targets) && k < |targets|
    ensures targets[k] in Scripted(fs, dir, targets, patch) <==> targets[k] in fs
    ensures targets[k] in fs ==> Scripted(fs, dir, targets, patch)[targets[k]] == patch(targets[k], fs[targets[k]])
  {
    var t := targets[k];
    forall j | 0 <= j < |targets| ensures BackupPath(dir, targets[j]) != t {
      assert BackupPath(dir, targets[j]) != targets[k];
    }
    BackupsElsewhere(fs, dir, targets, t);
    PatchAllAt(Backups(fs, dir, targets), targets, patch, k);
  }

  /** Each present target's backup holds the content it had before the script. */
  lemma ScriptedBackup(fs: Files, dir: Path, targets: seq<Path>, patch: (Path, Text) -> Text, k: nat)
    requires BackupSafe(dir, targets) && k < |targets| && targets[k] in fs
    ensures BackupPath(dir, targets[k]) in Scripted(fs, dir, targets, patch)
    ensures Scripted(fs, dir, targets, patch)[BackupPath(dir, targets[k])] == fs[targets[k]]
  {
    var b := BackupPath(dir, targets[k]);
    BackupsHold(fs, dir, targets, k);
    forall j | 0 <= j < |targets| ensures targets[j] != b {
      assert BackupPath(dir, targets[k]) != targets[j];
    }
    PatchAllElsewhere(Backups(fs, dir, targets), targets, patch, b);
  }

  /** Every file that is neither a target nor a backup is left as it was. */
  lemma ScriptedElsewhere(fs: Files, dir: Path, targets: seq<Path>, patch: (Path, Text) -> Text, p: Path)
    requires forall k | 0 <= k < |targets| :: p != targets[k] && p != BackupPath(dir, targets[k])
    ensures p in Scripted(fs, dir, targets, patch) <==> p in fs
    ensures p in fs ==> Scripted(fs, dir, targets, patch)[p] == fs[p]
  {
    BackupsElsewhere(fs, dir, targets, p);
    PatchAllElsewhere(Backups(fs, dir, targets), targets, patch, p);
  }

  /**
   * Running a script a second time backs the rewritten files up over the
   * first backups, so a backup then holds the rewritten content, not the
   * original.
   */
  lemma ScriptedRerun(fs: Files, dir: Path, targets: seq<Path>, patch: (Path, Text) -> Text, k: nat)
    requires BackupSafe(dir, targets) && k < |targets| && targets[k] in fs
    ensures var twice := Scripted(Scripted(fs, dir, targets, patch), dir, targets, patch);
            BackupPath(dir, targets[k]) in twice && twice[BackupPath(dir, targets[k])] == patch(targets[k], fs[targets[k]])
  {
    ScriptedTarget(fs, dir, targets, patch, k);
    ScriptedBackup(Scripted(fs, dir, targets, patch), dir, targets, patch, k);
  }

  // ---------------------------------------------------------------------------
  // A fix loop: rewrite each file and write it back only when it changed

  /** Rewriting `p` with `fix` changes something: the file exists and its new content differs. */
  predicate Changes(fs: Files, p: Path, fix: Text -> Text)
  {
    p in fs && fix(fs[p]) != fs[p]
  }

  /** One step of a fix loop: `p` gets `fix` of its content when that differs; otherwise nothing is written. */
  function Settle(fs: Files, p: Path, fix: Text -> Text): Files
  {
    if Changes(fs, p, fix) then fs[p := fix(fs[p])] else fs
  }

  /** The write one step performs: one exactly when the content changes. */
  function SettleWrite(fs: Files, p: Path, fix: Text -> Text): seq<Op>
  {
    if Changes(fs, p, fix) then [Write(p)] else []
  }

  /** The fix loop over a list of files, each step seeing the files the previous ones left. */
  function SettleAll(fs: Files, files: seq<Path>, fix: Text -> Text): Files
    decreases |files|
  {
    if |files| == 0 then fs else SettleAll(Settle(fs, files[0], fix), files[1..], fix)
  }

  /** The writes of the fix loop, in order. */
  function SettleLog(fs: Files, files: seq<Path>, fix: Text -> Text): seq<Op>
    decreases |files|
  {
    if |files| == 0 then [] else SettleWrite(fs, files[0], fix) + SettleLog(Settle(fs, files[0], fix), files[1..], fix)
  }

  /** The fix loop from position `i` on is the step at `i`, then the loop from `i + 1` on. */
  lemma SettleStep(fs: Files, files: seq<Path>, fix: Text -> Text, i: nat)
    requires i < |files|
    ensures SettleAll(fs, files[i..], fix) == SettleAll(Settle(fs, files[i], fix), files[i + 1..], fix)
    ensures SettleLog(fs, files[i..], fix) == SettleWrite(fs, files[i], fix) + SettleLog(Settle(fs, files[i], fix), files[i + 1..], fix)
  {
    assert files[i..][1..] == files[i + 1..];
  }

  /** One turn of the fix loop keeps the loop's invariant: what is left to do, and what was logged, add up to the whole loop. */
  lemma SettleAdvance(fs: Files, files: seq<Path>, fix: Text -> Text, i: nat, out: Files, log: seq<Op>)
    requires i < |files|
    requires SettleAll(out, files[i..], fix) == SettleAll(fs, files, fix)
    requires log + SettleLog(out, files[i..], fix) == SettleLog(fs, files, fix)
    ensures SettleAll(Settle(out, files[i], fix), files[i + 1..], fix) == SettleAll(fs, files, fix)
    ensures log + SettleWrite(out, files[i], fix) + SettleLog(Settle(out, files[i], fix), files[i + 1..], fix) == SettleLog(fs, files, fix)
  {
    SettleStep(out, files, fix, i);
  }

  /**
   * The fix loop as the scripts write it: skip a missing file, read it,
   * rewrite it, and write it back only when the rewrite changed it.
   */
  method SettleEach(fs: Files, files: seq<Path>, fix: Text -> Text) returns (out: Files, log: seq<Op>)
    ensures out == SettleAll(fs, files, fix) && log == SettleLog(fs, files, fix)
  {
    out, log := fs, [];
    for i := 0 to |files|
      invariant SettleAll(out, files[i..], fix) == SettleAll(fs, files, fix)
      invariant log + SettleLog(out, files[i..], fix) == SettleLog(fs, files, fix)
    {
      var file := files[i];
      SettleAdvance(fs, files, fix, i, out, log);
      ghost var before, logged := out, log;
      if file in out {
        var content := out[file];
        var rewritten := fix(content);
        if rewritten != content {
          out, log := out[file := rewritten], log + [Write(file)];
        }
      }
      assert out == Settle(before, file, fix) && log == logged + SettleWrite(before, file, fix);
    }
    assert files[|files|..] == [];
  }

  /** No path occurs twice in the list. */
  predicate Distinct(ps: seq<Path>)
  {
    forall i, j | 0 <= i < j < |ps| :: ps[i] != ps[j]
  }

  /** The paths after the first of a distinct list are distinct and do not include the first. */
  lemma DistinctTail(ps: seq<Path>)
    requires |ps| > 0 && Distinct(ps)
    ensures Distinct(ps[1..])
    ensures forall j | 0 <= j < |ps| - 1 :: ps[1..][j] != ps[0]
  {
    forall j | 0 <= j < |ps| - 1 ensures ps[1..][j] == ps[j + 1] { }
  }

  /** A fix loop leaves every file not in its list as it was, and writes only the files in its list, each at most once. */
  lemma {:induction false} SettleAllElsewhere(fs: Files, files: seq<Path>, fix: Text -> Text, p: Path)
    requires forall j | 0 <= j < |files| :: files[j] != p
    ensures p in SettleAll(fs, files, fix) <==> p in fs
    ensures p in fs ==> SettleAll(fs, files, fix)[p] == fs[p]
    ensures Write(p) !in SettleLog(fs, files, fix)
    decreases |files|
  {
    if |files| > 0 {
      forall j | 0 <= j < |files| - 1 ensures files[1..][j] != p {
        assert files[1..][j] == files[j + 1];
      }
      SettleAllElsewhere(Settle(fs, files[0], fix), files[1..], fix, p);
    }
  }

  /**
   * After a fix loop over distinct files, each listed file that exists holds
   * `fix` of its original content (written, or already equal to it), a
   * missing one is still missing, and it was written exactly when its
   * content changed.
   */
  lemma {:induction false} SettleAllAt(fs: Files, files: seq<Path>, fix: Text -> Text, k: nat)
    requires Distinct(files) && k < |files|
    ensures files[k] in SettleAll(fs, files, fix) <==> files[k] in fs
    ensures files[k] in fs ==> SettleAll(fs, files, fix)[files[k]] == fix(fs[files[k]])
    ensures Write(files[k]) in SettleLog(fs, files, fix) <==> Changes(fs, files[k], fix)
    decreases |files|
  {
    var f0 := files[0];
    var fs1 := Settle(fs, f0, fix);
    DistinctTail(files);
    if k == 0 {
      SettleAllElsewhere(fs1, files[1..], fix, f0);
    } else {
      assert files[1..][k - 1] == files[k];
      SettleAllAt(fs1, files[1..], fix, k - 1);
    }
  }

  /** A fix loop writes each listed file at most once. */
  lemma {:induction false} SettleLogBound(fs: Files, files: seq<Path>, fix: Text -> Text)
    ensures |SettleLog(fs, files, fix)| <= |files|
    decreases |files|
  {
    if |files| > 0 {
      SettleLogBound(Settle(fs, files[0], fix), files[1..], fix);
    }
  }

  /** When no listed file changes, a fix loop writes nothing and leaves every file as it was. */
  lemma {:induction false} SettleNone(fs: Files, files: seq<Path>, fix: Text -> Text)
    requires forall j | 0 <= j < |files| :: !Changes(fs, files[j], fix)
    ensures SettleAll(fs, files, fix) == fs && SettleLog(fs, files, fix) == []
    decreases |files|
  {
    if |files| > 0 {
      assert Settle(fs, files[0], fix) == fs;
      forall j | 0 <= j < |files| - 1 ensures !Changes(fs, files[1..][j], fix) {
        assert files[1..][j] == files[j + 1];
      }
      SettleNone(fs, files[1..], fix);
    }
  }
}
