/** The working directory of a session: when it disappears, and when `PWD` stops naming it. */
module Cwd {
  import opened Text
  import opened Paths
  import opened FlatFs
  import opened Shell
  import opened Session
  import opened Arguments

  // A directory that is gone

  ghost predicate CwdExists(s: State) {
    Exists(s.fs, s.cwd)
  }

  /** An operand makes the working directory disappear exactly when it is removed with success at or above
      the place where the directory is looked up. */
  lemma CwdGoesWhenRemoved(h: Host, each: Each, target: string, s: State)
    requires Inv(s) && CwdExists(s)
    ensures !CwdExists(RunOne(h, each, target, s).state) <==>
      Removed(each, target, s) != {} && Slot(Normalize(target, s.cwd)) <= Parts(s.cwd)
  {
    hide Normalize, Parts, Slot, IsDir, Children, Remove, Inv, RunOne;
    RunOneKeeps(h, each, target, s);
    var removed := Removed(each, target, s);
    assert removed != {} ==> removed == {Slot(Normalize(target, s.cwd))};
    assert Doomed(Parts(s.cwd), removed) <==> removed != {} && Slot(Normalize(target, s.cwd)) <= Parts(s.cwd) by {
      assert removed != {} ==> Slot(Normalize(target, s.cwd)) in removed;
    }
  }

  /** A whole command does so exactly when one of the slots its operands remove is at or above that place. */
  lemma CwdGoesWithCommand(h: Host, words: seq<string>, s: State)
    requires Inv(s) && CwdExists(s) && words != [] && HandlerOf(words[0]).Some?
    ensures var s' := RunHandler(h, HandlerOf(words[0]).value, words[0], words[1..], s).state;
      !CwdExists(s') <==> Doomed(Parts(s.cwd), RemovedByWords(h, words, s))
  {
    hide Parts, Inv, HandlerOf, RunEach, RunExport, RemovedByEach, Canonical, Doomed, LsEach;
    var s' := RunHandler(h, HandlerOf(words[0]).value, words[0], words[1..], s).state;
    RunHandlerKeeps(h, words, s);
    if s'.cwd != s.cwd {
      OnlyCdMoves(h, HandlerOf(words[0]).value, words[0], words[1..], s);
      NothingIsDoomed(Parts(s.cwd));
    }
  }

  lemma NothingIsDoomed(p: Path)
    ensures !Doomed(p, {})
  {
  }

  lemma OnlyCdMoves(h: Host, handler: Handler, cmd: string, args: seq<string>, s: State)
    ensures RunHandler(h, handler, cmd, args, s).state.cwd != s.cwd ==> handler == Cd
  {
    hide RunEach, LsEach, LsArguments, RunCd, Operands, Join;
    RunExportKeeps(args, s);
    forall each ensures RunEach(h, each, Operands(args), s).state.cwd == s.cwd {
      RunEachStaysPut(h, each, Operands(args), s);
    }
  }

  /** So `rm .` leaves a session without its directory wherever that is an entry of its own, the root not
      being one. */
  lemma RmDotLeavesNothing(h: Host, force: bool, s: State)
    requires Inv(s) && CwdExists(s) && Canonical(s.cwd) && SlotIsPath(s.cwd)
    ensures var r := RunOne(h, RmEach(force), ".", s);
      && r.status == 0 && !CwdExists(r.state) && r.state.cwd == s.cwd
  {
    DotIsCwd(s.cwd);
    SlotIsPathExactly(s.cwd);
    RemoveIsExact(s.fs, s.cwd);
    hide Normalize, Parts, Slot, WellFormed, NamesAreFlat, Canonical, Remove;
    assert s.cwd != "/" by { RootIsNoSlot(); }
    CwdGoesWhenRemoved(h, RmEach(force), ".", s);
  }

  lemma RootIsNoSlot()
    ensures !SlotIsPath("/")
  {
  }

  lemma DotIsCwd(cwd: string)
    requires Canonical(cwd)
    ensures Normalize(".", cwd) == cwd
  {
    NormpathOfAbsolute(cwd);
    ResolvedOfJoin(cwd, ".");
    NormpathOfAbsolute(JoinPath(cwd, "."));
    SplitWithoutSeparator(".", '/');
    assert PushAll(Resolved(cwd), ["."], true) == PushAll(Resolved(cwd), [], true) == Resolved(cwd);
  }

  const TMP_FS: Flat := map[[] := NewDir("root"), ["tmp"] := NewDir("root")]

  lemma TmpPath()
    ensures Canonical("/tmp") && Parts("/tmp") == ["tmp"] && SlotIsPath("/tmp")
  {
    assert Clean("tmp");
    assert Render(1, ["tmp"]) == "/tmp";
    RenderReadsBack(1, ["tmp"]);
    PartsOfCanonical(1, ["tmp"]);
    SlotOfCanonical(1, ["tmp"]);
  }

  lemma TmpFsIsOk()
    ensures WellFormed(TMP_FS) && NamesAreFlat(TMP_FS)
  {
    assert Up(["tmp"]) == [];
  }

  /** Such sessions exist. */
  lemma DirectoryCanBeGone(h: Host, env: map<string, string>)
    ensures var s := State(TMP_FS, "/tmp", env, []);
      Inv(s) && CwdExists(s) && !CwdExists(RunOne(h, RmEach(false), ".", s).state)
  {
    hide Parts, Normpath, SlotIsPath, WellFormed, NamesAreFlat, RunOne;
    TmpPath();
    TmpFsIsOk();
    RmDotLeavesNothing(h, false, State(TMP_FS, "/tmp", env, []));
  }

  /** No command of the trace removed the directory it left the session in, or anything above that. */
  ghost predicate CwdSpared(trace: seq<Executed>) {
    forall k | 0 <= k < |trace| :: !Doomed(Parts(trace[k].after.cwd), trace[k].removed)
  }

  lemma {:induction false} CwdStaysAlong(s: State, trace: seq<Executed>, end: State)
    requires IsTrace(s, trace, end) && CwdExists(s) && CwdSpared(trace)
    ensures CwdExists(end)
    decreases |trace|
  {
    hide Parts, Doomed;
    if trace != [] {
      var first := trace[0];
      assert !Doomed(Parts(first.after.cwd), first.removed);
      assert CwdExists(first.after);
      assert forall k | 0 <= k < |trace| - 1 :: trace[1..][k] == trace[k + 1];
      CwdStaysAlong(first.after, trace[1..], end);
    }
  }

  /** Over any session, a working directory that is gone was removed, by a command that succeeded. */
  lemma CwdStays(h: Host, lines: seq<string>, s: State)
    requires Inv(s) && CwdExists(s) && CwdSpared(TraceOfSession(h, lines, s))
    ensures CwdExists(After(h, lines, s))
  {
    hide Inv, IsTrace, CwdExists, CwdSpared, After, TraceOfSession;
    SessionIsTrace(h, lines, s);
    CwdStaysAlong(s, TraceOfSession(h, lines, s), After(h, lines, s));
  }

  // PWD

  ghost predicate PwdIsCwd(s: State) {
    ValueIn(s.env, "PWD") == Some(s.cwd)
  }

  /** `export` leaves `PWD` naming something else exactly when its last argument for it says so, or when it
      has none and `PWD` did already. */
  lemma ExportDecidesPwd(args: seq<string>, s: State)
    ensures PwdIsCwd(RunExport(args, s).state) <==>
      if LastAssigned(args, "PWD").Some? then LastAssigned(args, "PWD").value == s.cwd else PwdIsCwd(s)
  {
    ExportAssigns(args, s, "PWD");
  }

  lemma {:induction false} RunEachStaysPut(h: Host, each: Each, targets: seq<string>, s: State)
    ensures var s' := RunEach(h, each, targets, s).state; s'.env == s.env && s'.cwd == s.cwd
  {
    if targets != [] {
      OneStaysPut(h, each, targets[0], s);
      hide RunOne;
      RunEachStaysPut(h, each, targets[1..], RunOne(h, each, targets[0], s).state);
    }
  }

  lemma OneStaysPut(h: Host, each: Each, target: string, s: State)
    ensures var s' := RunOne(h, each, target, s).state; s'.env == s.env && s'.cwd == s.cwd
  {
    hide Normalize, Mkdir, Makedirs, WriteFile, Remove, Read, IsDir, Exists, Children;
  }

  /** `cd` puts it right whenever it succeeds; no other command touches it. */
  lemma HandlersDecidePwd(h: Host, handler: Handler, cmd: string, args: seq<string>, s: State)
    ensures var r := RunHandler(h, handler, cmd, args, s);
      && (handler == Cd && r.Ran? && r.status == 0 ==> PwdIsCwd(r.state))
      && (handler == Cd && r.Ran? && r.status != 0 ==> r.state == s)
      && (handler != Cd && handler != Export ==> (PwdIsCwd(r.state) <==> PwdIsCwd(s)))
  {
    hide RunEach, LsEach, LsArguments, Normalize, Exists, IsDir, CdTarget, Operands, Join;
    forall each ensures RunEach(h, each, Operands(args), s).state.env == s.env
                && RunEach(h, each, Operands(args), s).state.cwd == s.cwd {
      RunEachStaysPut(h, each, Operands(args), s);
    }
  }

  /** The input: after `export PWD=/` somewhere else the two differ. */
  lemma ExportCanMislead(h: Host, s: State)
    requires s.cwd != "/"
    ensures !PwdIsCwd(RunHandler(h, Export, "export", ["PWD=/"], s).state)
  {
    assert "PWD" + "=" == "PWD=/"[..4];
    assert "PWD=/"[4..] == "/";
    assert LastAssigned(["PWD=/"][1..], "PWD") == None;
    assert LastAssigned(["PWD=/"], "PWD") == Some("/");
    ExportDecidesPwd(["PWD=/"], s);
  }
}
