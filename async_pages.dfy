/**
 * `fix-async-pages.py`: a narrower variant of the async fix. For each
 * listed page one rule, whose replacement is a function of the match, wraps
 * the effect's synchronous `getUser()` in an async `loadUser` and calls it;
 * a page is written back only when the rule changed it.
 */
module AsyncPages {
  import opened Strings
  import opened Regex
  import opened Disk
  import AsyncFix

  /**
   * What the engine reports for the script's one rule: the effect's
   * opening (group 1), `const currentUser = getUser();`, the guard and the
   * state update (group 2), and the start of the dependency list (group 3).
   */
  type Engine = Text -> seq<Hit>

  /** The pages the script visits, in its order. */
  const PageFiles: seq<Path> := [ColorPage, SimplePage, SprintPage, DualPage, RankingPage]

  /**
   * `fix_pattern2`: the three groups in their order, the synchronous read
   * replaced by an async loader that awaits it, and the loader closed and
   * called before the dependency list.
   */
  function FixPattern2(h: Hit): (r: Text)
    ensures OccursAt(r, Group(h, 1), 0)
    ensures OccursAt(r, AsyncFix.LoadUserOpen, |Group(h, 1)|)
    ensures OccursAt(r, Group(h, 2), |Group(h, 1)| + |AsyncFix.LoadUserOpen|)
    ensures OccursAt(r, AsyncFix.LoadUserClose, |Group(h, 1)| + |AsyncFix.LoadUserOpen| + |Group(h, 2)|)
    ensures OccursAt(r, Group(h, 3), |r| - |Group(h, 3)|)
    ensures |r| == |Group(h, 1)| + |Group(h, 2)| + |Group(h, 3)| + |AsyncFix.LoadUserOpen| + |AsyncFix.LoadUserClose|
  {
    var g1, g2, g3 := Group(h, 1), Group(h, 2), Group(h, 3);
    JoinPieces(g1, AsyncFix.LoadUserOpen, g2, AsyncFix.LoadUserClose, g3);
    g1 + AsyncFix.LoadUserOpen + g2 + AsyncFix.LoadUserClose + g3
  }

  /** The rule's replacement. */
  function Wrap(): Replacement
  {
    Callback(FixPattern2)
  }

  /**
   * On a match of the rule the text before the synchronous read, the text
   * between it and the dependency list, and the dependency list are kept
   * verbatim; the read becomes the async loader, and the loader is closed
   * and called just before the dependency list.
   */
  lemma FixPattern2Frames(s: Text, h: Hit)
    requires h.start <= h.end <= |s|
    requires s[h.start..h.end] == Group(h, 1) + AsyncFix.CurrentUserCall + Group(h, 2) + Group(h, 3)
    ensures var m, i, j := s[h.start..h.end], |Group(h, 1)|, |Group(h, 1)| + |AsyncFix.CurrentUserCall|;
            var k := |m| - |Group(h, 3)|;
            0 <= i <= j <= k <= |m| &&
            Emit(Wrap(), h) == m[..i] + AsyncFix.LoadUserOpen + m[j..k] + AsyncFix.LoadUserClose + m[k..]
  {
    var g1, g2, g3 := Group(h, 1), Group(h, 2), Group(h, 3);
    var m := s[h.start..h.end];
    var i, j := |g1|, |g1| + |AsyncFix.CurrentUserCall|;
    var k := |m| - |g3|;
    assert m[..i] == g1;
    assert m[j..k] == g2;
    assert m[k..] == g3;
  }

  /** The rewritten effect awaits the user in an async loader and calls the loader. */
  lemma FixPattern2Awaits(h: Hit)
    ensures Contains(FixPattern2(h), "await getUser();")
    ensures Contains(FixPattern2(h), "async () => {")
    ensures Contains(FixPattern2(h), "loadUser();")
  {
    var r := FixPattern2(h);
    AsyncFix.LoadUserAwaits();
    assert Contains(r, AsyncFix.LoadUserOpen);
    assert Contains(r, AsyncFix.LoadUserClose);
    ContainsTrans(r, AsyncFix.LoadUserOpen, "await getUser();");
    ContainsTrans(r, AsyncFix.LoadUserOpen, "async () => {");
    ContainsTrans(r, AsyncFix.LoadUserClose, "loadUser();");
  }

  /** The script's rewrite of one page's content. */
  function FixText(c: Text, rx: Engine): Text
  {
    Sub(c, rx(c), Wrap())
  }

  /** When the engine finds the effect, the async loader that awaits the user is on the page. */
  lemma FixTextAwaits(c: Text, rx: Engine)
    requires |rx(c)| > 0 && Ordered(c, rx(c), 0)
    ensures Contains(FixText(c, rx), FixPattern2(rx(c)[0]))
    ensures Contains(FixText(c, rx), "await getUser();")
  {
    SubEmits(c, rx(c), Wrap());
    FixPattern2Awaits(rx(c)[0]);
    ContainsTrans(FixText(c, rx), FixPattern2(rx(c)[0]), "await getUser();");
  }

  /** The rewrite as a fix. */
  function Fixer(rx: Engine): Text -> Text
  {
    c => FixText(c, rx)
  }

  /** The script's top level: the write-if-changed loop over its five pages. */
  method FixPages(fs: Files, rx: Engine) returns (out: Files, log: seq<Op>)
    ensures out == SettleAll(fs, PageFiles, Fixer(rx)) && log == SettleLog(fs, PageFiles, Fixer(rx))
  {
    out, log := SettleEach(fs, PageFiles, Fixer(rx));
  }

  /** The listed pages are distinct. */
  lemma PageFilesDistinct()
    ensures Distinct(PageFiles)
  {
    assert SimplePage[5] != SprintPage[5];
  }

  /**
   * After the loop each listed page that exists holds the rewrite of its
   * original content, a missing one is still missing, and a page was written
   * exactly when the rule changed it.
   */
  lemma FixPagesAt(fs: Files, rx: Engine, k: nat)
    requires k < |PageFiles|
    ensures PageFiles[k] in SettleAll(fs, PageFiles, Fixer(rx)) <==> PageFiles[k] in fs
    ensures PageFiles[k] in fs ==> SettleAll(fs, PageFiles, Fixer(rx))[PageFiles[k]] == FixText(fs[PageFiles[k]], rx)
    ensures Write(PageFiles[k]) in SettleLog(fs, PageFiles, Fixer(rx))
            <==> PageFiles[k] in fs && FixText(fs[PageFiles[k]], rx) != fs[PageFiles[k]]
  {
    PageFilesDistinct();
    SettleAllAt(fs, PageFiles, Fixer(rx), k);
  }

  /** The top page is not in the list: the script leaves it, and every other unlisted file, alone. */
  lemma FixPagesElsewhere(fs: Files, rx: Engine, p: Path)
    requires forall k | 0 <= k < |PageFiles| :: PageFiles[k] != p
    ensures p in SettleAll(fs, PageFiles, Fixer(rx)) <==> p in fs
    ensures p in fs ==> SettleAll(fs, PageFiles, Fixer(rx))[p] == fs[p]
    ensures Write(p) !in SettleLog(fs, PageFiles, Fixer(rx))
  {
    SettleAllElsewhere(fs, PageFiles, Fixer(rx), p);
  }

  /** When the engine finds the effect on no listed page, nothing is written. */
  lemma FixPagesNoMatch(fs: Files, rx: Engine)
    requires forall k | 0 <= k < |PageFiles| :: PageFiles[k] in fs ==> rx(fs[PageFiles[k]]) == []
    ensures SettleAll(fs, PageFiles, Fixer(rx)) == fs && SettleLog(fs, PageFiles, Fixer(rx)) == []
  {
    forall k | 0 <= k < |PageFiles| ensures !Changes(fs, PageFiles[k], Fixer(rx)) {
      if PageFiles[k] in fs {
        SubNone(fs[PageFiles[k]], Wrap());
      }
    }
    SettleNone(fs, PageFiles, Fixer(rx));
  }
}
