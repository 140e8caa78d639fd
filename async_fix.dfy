/**
 * `fix-all-async.py`: after the storage layer became asynchronous, the pages
 * still call `getUser()` and friends synchronously. For each listed page the
 * script wraps those calls in an async loader inside the `useEffect`, marks
 * the event handlers that `await` as `async`, writes the page back only when
 * it changed, and counts the pages it fixed.
 */
module AsyncFix {
  import opened Strings
  import opened Regex
  import opened Disk

  /** The rules of the script whose patterns are real regular expressions. */
  datatype Pattern =
    | LoadDataEffect  // the top page's `useEffect` that reads the user and the session
    | UserEffectHead  // `useEffect(() => {`, blanks, `const currentUser = getUser();`
    | UserEffectEnd   // `setUser(currentUser);` (group 1), blanks, `}, [router]);` (group 2)
    | Handler         // `const handleX = () => {` (name in group 1), a body with `await ` and no `}` (group 2), `}`

  /** What the engine reports for each pattern on a text. */
  type Engine = (Pattern, Text) -> seq<Hit>

  /** The pages the script visits, in its order. */
  const AsyncFiles: seq<Path> := [Page, ColorPage, SimplePage, SprintPage, DualPage, RankingPage]

  // ---------------------------------------------------------------------------
  // The top page's effect

  const UserCall: Text := "const user = getUser();"
  const SetCurrentUserCall: Text := "setCurrentUser(user);"

  /** The effect with the user and the session read by an async `loadData`, which is then called. */
  const LoadDataEffectRep: Text :=
    "useEffect(() => {\n" +
    "    const loadData = async () => {\n" +
    "      const user = await getUser();\n" +
    "      setCurrentUser(user);\n" +
    "      \n" +
    "      const sessionData = await getCurrentSession();\n" +
    "      setSession(sessionData);\n" +
    "    };\n" +
    "    loadData();\n" +
    "  }, []);"

  /** The top page's rule, tried only when both the synchronous read and the state update are on the page. */
  function LoadData(c: Text, rx: Engine): Text
  {
    if Contains(c, UserCall) && Contains(c, SetCurrentUserCall) then Sub(c, rx(LoadDataEffect, c), Literal(LoadDataEffectRep))
    else c
  }

  /**
   * The rule changes a page only when both markers are on it and the
   * engine finds the effect; then the async effect is on the page.
   */
  lemma LoadDataGuarded(c: Text, rx: Engine)
    ensures LoadData(c, rx) != c ==> Contains(c, UserCall) && Contains(c, SetCurrentUserCall) && rx(LoadDataEffect, c) != []
    ensures Contains(c, UserCall) && Contains(c, SetCurrentUserCall) && |rx(LoadDataEffect, c)| > 0 && Ordered(c, rx(LoadDataEffect, c), 0)
            ==> Contains(LoadData(c, rx), LoadDataEffectRep)
  {
    SubNone(c, Literal(LoadDataEffectRep));
    if Contains(c, UserCall) && Contains(c, SetCurrentUserCall) && |rx(LoadDataEffect, c)| > 0 && Ordered(c, rx(LoadDataEffect, c), 0) {
      SubInstalls(c, rx(LoadDataEffect, c), LoadDataEffectRep);
    }
  }

  // ---------------------------------------------------------------------------
  // The other pages' effect

  const CurrentUserCall: Text := "const currentUser = getUser();"

  /** The opening of an effect body. */
  const EffectOpen: Text :=
    "useEffect(() => {\n" +
    "    "

  /** An async `loadUser` that awaits the user. */
  const LoadUserOpen: Text :=
    "const loadUser = async () => {\n" +
    "      const currentUser = await getUser();"

  /** The end of `loadUser`, and the call to it. */
  const LoadUserClose: Text :=
    "\n" +
    "    };\n" +
    "    loadUser();"

  /** The dependency list of the effect, as both the pattern and the replacement write it. */
  const RouterDeps: Text := "}, [router]);"

  /** `\1\n    };\n    loadUser();\n  }, [router]);`: keep the state update, close and call the loader. */
  function CloseRule(): Replacement
  {
    Template([Ref(1), Lit(LoadUserClose + "\n  " + RouterDeps)])
  }

  /** The wrapping rules, tried only when the synchronous read is on the page. */
  function LoadUser(c: Text, rx: Engine): Text
  {
    if Contains(c, CurrentUserCall) then
      var c1 := Sub(c, rx(UserEffectHead, c), Literal(EffectOpen + LoadUserOpen));
      Sub(c1, rx(UserEffectEnd, c1), CloseRule())
    else c
  }

  /** Without the synchronous read the wrapping rules do nothing: a sanity fact that follows from the guard. */
  lemma LoadUserGuarded(c: Text, rx: Engine)
    ensures LoadUser(c, rx) != c ==> Contains(c, CurrentUserCall)
  {
  }

  /**
   * The closing rule keeps the state update and the dependency list it
   * matched, and puts the end of the loader and the call to it between them.
   */
  lemma CloseKeepsUpdate(s: Text, h: Hit, w: Text)
    requires h.start <= h.end <= |s| && Group(h, 2) == RouterDeps
    requires s[h.start..h.end] == Group(h, 1) + w + Group(h, 2)
    ensures var m := s[h.start..h.end];
            Emit(CloseRule(), h) == m[..|Group(h, 1)|] + LoadUserClose + "\n  " + m[|m| - |RouterDeps|..]
  {
    var parts := CloseRule().parts;
    assert parts[1..][1..] == [];
    assert Expand(parts[1..], h) == LoadUserClose + "\n  " + RouterDeps + [];
    var m := s[h.start..h.end];
    assert m[..|Group(h, 1)|] == Group(h, 1);
    assert m[|m| - |RouterDeps|..] == RouterDeps;
  }

  /**
   * The wrapped effect awaits the user in an async loader: a sanity fact
   * about the loader's text, which the page-level lemmas build on.
   */
  lemma LoadUserAwaits()
    ensures Contains(LoadUserOpen, "async () => {")
    ensures Contains(LoadUserOpen, "await getUser();")
    ensures Contains(LoadUserClose, "loadUser();")
  {
    assert OccursAt(LoadUserOpen, "async () => {", 17);
    assert OccursAt(LoadUserOpen, "await getUser();", 57);
    assert OccursAt(LoadUserClose, "loadUser();", 12);
  }

  // ---------------------------------------------------------------------------
  // Handlers

  const PlainArrow: Text := " = () => {"
  const AsyncArrow: Text := " = async () => {"

  /** `const \1 = async () => {\2}`. */
  function HandlerRule(): Replacement
  {
    Template([Lit("const "), Ref(1), Lit(AsyncArrow), Ref(2), Lit("}")])
  }

  /** The handler rule, applied to every page. */
  function Asyncify(c: Text, rx: Engine): Text
  {
    Sub(c, rx(Handler, c), HandlerRule())
  }

  /**
   * A matched handler keeps its name and its body: the only change is that
   * its arrow becomes an async arrow.
   */
  lemma HandlerOnlyArrow(s: Text, h: Hit)
    requires h.start <= h.end <= |s|
    requires s[h.start..h.end] == "const " + Group(h, 1) + PlainArrow + Group(h, 2) + "}"
    ensures var m, n := s[h.start..h.end], 6 + |Group(h, 1)|;
            Emit(HandlerRule(), h) == m[..n] + AsyncArrow + m[n + |PlainArrow|..]
  {
    var parts := HandlerRule().parts;
    var g1, g2 := Group(h, 1), Group(h, 2);
    assert parts[1..][1..][1..][1..][1..] == [];
    assert Expand(parts[1..][1..][1..][1..], h) == "}" + [];
    assert Expand(parts[1..][1..][1..], h) == g2 + ("}" + []);
    assert Expand(parts[1..][1..], h) == AsyncArrow + (g2 + ("}" + []));
    assert Expand(parts[1..], h) == g1 + (AsyncArrow + (g2 + ("}" + [])));
    var m, n := s[h.start..h.end], 6 + |g1|;
    assert m[..n] == "const " + g1;
    assert m[n + |PlainArrow|..] == g2 + "}";
  }

  /** When the engine finds a handler, its async form is on the page. */
  lemma AsyncifyEmits(c: Text, rx: Engine)
    requires |rx(Handler, c)| > 0 && Ordered(c, rx(Handler, c), 0)
    ensures Contains(Asyncify(c, rx), Emit(HandlerRule(), rx(Handler, c)[0]))
  {
    SubEmits(c, rx(Handler, c), HandlerRule());
  }

  // ---------------------------------------------------------------------------
  // The script

  /** `fix_file`'s rewrite of one page's content. */
  function FixContent(c: Text, rx: Engine): Text
  {
    Asyncify(LoadUser(LoadData(c, rx), rx), rx)
  }

  /** The rewrite as a fix. */
  function Fixer(rx: Engine): Text -> Text
  {
    c => FixContent(c, rx)
  }

  /**
   * `fix_file`: a missing page is skipped; otherwise the page is rewritten
   * and written back, and reported fixed, exactly when its content changed.
   */
  method FixFile(fs: Files, p: Path, rx: Engine) returns (out: Files, fixed: bool, log: seq<Op>)
    ensures p !in fs ==> !fixed && out == fs && log == []
    ensures fixed <==> p in fs && FixContent(fs[p], rx) != fs[p]
    ensures out == Settle(fs, p, Fixer(rx)) && log == SettleWrite(fs, p, Fixer(rx))
    ensures |log| == if fixed then 1 else 0
  {
    if p !in fs {
      return fs, false, [];
    }
    var content := fs[p];
    var original := content;
    content := LoadData(content, rx);
    content := LoadUser(content, rx);
    content := Asyncify(content, rx);
    if content != original {
      out, fixed, log := fs[p := content], true, [Write(p)];
    } else {
      out, fixed, log := fs, false, [];
    }
  }

  /** The loop of the script over a list of pages, counting the ones `fix_file` reports fixed. */
  method FixEach(fs: Files, files: seq<Path>, rx: Engine) returns (out: Files, fixedCount: nat, log: seq<Op>)
    ensures out == SettleAll(fs, files, Fixer(rx)) && log == SettleLog(fs, files, Fixer(rx))
    ensures fixedCount == |log|
  {
    var fix := Fixer(rx);
    out, fixedCount, log := fs, 0, [];
    for i := 0 to |files|
      invariant SettleAll(out, files[i..], fix) == SettleAll(fs, files, fix)
      invariant log + SettleLog(out, files[i..], fix) == SettleLog(fs, files, fix)
      invariant fixedCount == |log|
    {
      SettleAdvance(fs, files, fix, i, out, log);
      var next, fixed, step := FixFile(out, files[i], rx);
      if fixed {
        fixedCount := fixedCount + 1;
      }
      out, log := next, log + step;
    }
    assert files[|files|..] == [];
  }

  /** The script's top level: the loop over its six pages. */
  method FixAll(fs: Files, rx: Engine) returns (out: Files, fixedCount: nat, log: seq<Op>)
    ensures out == SettleAll(fs, AsyncFiles, Fixer(rx)) && log == SettleLog(fs, AsyncFiles, Fixer(rx))
    ensures fixedCount == |log|
  {
    out, fixedCount, log := FixEach(fs, AsyncFiles, rx);
  }

  /** The listed pages are distinct. */
  lemma AsyncFilesDistinct()
    ensures Distinct(AsyncFiles)
  {
    assert SimplePage[5] != SprintPage[5];
  }

  /**
   * After the loop each listed page that exists holds the rewrite of its
   * original content, and it was written exactly when that changed it.
   */
  lemma FixAllAt(fs: Files, rx: Engine, k: nat)
    requires k < |AsyncFiles|
    ensures AsyncFiles[k] in SettleAll(fs, AsyncFiles, Fixer(rx)) <==> AsyncFiles[k] in fs
    ensures AsyncFiles[k] in fs ==> SettleAll(fs, AsyncFiles, Fixer(rx))[AsyncFiles[k]] == FixContent(fs[AsyncFiles[k]], rx)
    ensures Write(AsyncFiles[k]) in SettleLog(fs, AsyncFiles, Fixer(rx))
            <==> AsyncFiles[k] in fs && FixContent(fs[AsyncFiles[k]], rx) != fs[AsyncFiles[k]]
  {
    AsyncFilesDistinct();
    SettleAllAt(fs, AsyncFiles, Fixer(rx), k);
  }

  /**
   * The count is at most the number of listed pages, and it is zero exactly
   * when no listed page changes; then nothing is written at all.
   */
  lemma FixAllCount(fs: Files, rx: Engine)
    ensures |SettleLog(fs, AsyncFiles, Fixer(rx))| <= |AsyncFiles|
    ensures SettleLog(fs, AsyncFiles, Fixer(rx)) == []
            <==> forall k | 0 <= k < |AsyncFiles| :: !Changes(fs, AsyncFiles[k], Fixer(rx))
    ensures SettleLog(fs, AsyncFiles, Fixer(rx)) == [] ==> SettleAll(fs, AsyncFiles, Fixer(rx)) == fs
  {
    SettleLogBound(fs, AsyncFiles, Fixer(rx));
    AsyncFilesDistinct();
    if forall k | 0 <= k < |AsyncFiles| :: !Changes(fs, AsyncFiles[k], Fixer(rx)) {
      SettleNone(fs, AsyncFiles, Fixer(rx));
    } else {
      var k :| 0 <= k < |AsyncFiles| && Changes(fs, AsyncFiles[k], Fixer(rx));
      SettleAllAt(fs, AsyncFiles, Fixer(rx), k);
    }
  }
}
