/** What whole sessions keep, over every sequence of command lines: what each command that really ran
    removed and wrote, and what is still there unchanged because none did. */
module Session {
  import opened Text
  import opened Paths
  import opened FlatFs
  import opened Scanner
  import opened Shell
  import opened Expand

  /** Every reachable session: a well-formed filesystem with flat names and an absolute working directory.
      The directory itself may be gone. */
  ghost predicate Inv(s: State) {
    WellFormed(s.fs) && NamesAreFlat(s.fs) && Absolute(s.cwd)
  }

  // What a command removes and writes

  ghost predicate Doomed(p: Path, slots: set<Path>) {
    exists d | d in slots :: d <= p
  }

  /** Everything not at or below one of `removed` is still there, directories as directories and files as
      files, and unless it is one of `written` it is wholly unchanged. */
  ghost predicate Kept(m: Flat, m': Flat, removed: set<Path>, written: set<Path>) {
    forall p | p in m && !Doomed(p, removed) ::
      p in m' && m'[p].isDir == m[p].isDir && (p !in written ==> m'[p] == m[p])
  }

  /** And everything at or below one of `removed` is gone. */
  ghost predicate KeptExactly(m: Flat, m': Flat, removed: set<Path>, written: set<Path>) {
    Kept(m, m', removed, written) && forall p | p in m && Doomed(p, removed) :: p !in m'
  }

  lemma KeptTwice(m: Flat, m1: Flat, m2: Flat, a: set<Path>, b: set<Path>, v: set<Path>, w: set<Path>)
    requires Kept(m, m1, a, v) && Kept(m1, m2, b, w)
    ensures Kept(m, m2, a + b, v + w)
  {
    forall p | p in m && !Doomed(p, a + b)
      ensures p in m2 && m2[p].isDir == m[p].isDir && (p !in v + w ==> m2[p] == m[p])
    {
      DoomedByEither(p, a, b);
    }
  }

  lemma DoomedByEither(p: Path, a: set<Path>, b: set<Path>)
    ensures Doomed(p, a + b) <==> Doomed(p, a) || Doomed(p, b)
  {
    assert forall d | d in a || d in b :: d in a + b;
  }

  lemma KeptExactlyTwice(m: Flat, m1: Flat, m2: Flat, a: set<Path>, b: set<Path>, v: set<Path>, w: set<Path>)
    requires KeptExactly(m, m1, a, v) && KeptExactly(m1, m2, b, w)
    requires m2.Keys <= m1.Keys || a == b == {}
    ensures KeptExactly(m, m2, a + b, v + w)
  {
    KeptTwice(m, m1, m2, a, b, v, w);
    forall p | p in m && Doomed(p, a + b) ensures p !in m2 {
      DoomedByEither(p, a, b);
    }
  }

  lemma KeptSame(m: Flat)
    ensures KeptExactly(m, m, {}, {})
  {
  }

  ghost predicate Removes(each: Each) {
    each.RmEach? || each.RmdirEach?
  }

  /** The slot an operand removes, if it does: `rm` whenever the entry is there, `rmdir` an empty directory. */
  ghost function Removed(each: Each, target: string, s: State): set<Path> {
    var abspath := Normalize(target, s.cwd);
    var tries := each.RmEach? ||
      (each.RmdirEach? && IsDir(s.fs, abspath) && Children(s.fs, Parts(abspath)) == {});
    if tries && Remove(s.fs, abspath).error.None? then {Slot(abspath)} else {}
  }

  ghost function RemovedByEach(h: Host, each: Each, targets: seq<string>, s: State): set<Path> {
    if targets == [] || !Removes(each) then {}
    else
      Removed(each, targets[0], s) + RemovedByEach(h, each, targets[1..], RunOne(h, each, targets[0], s).state)
  }

  /** The file an operand empties: `touch` writes where its path is not found, and if that is not where the
      path is looked up, a file may be there. */
  ghost function Emptied(each: Each, target: string, s: State): set<Path> {
    var abspath := Normalize(target, s.cwd);
    if each.TouchEach? && !Exists(s.fs, abspath) && Slot(abspath) in s.fs && !s.fs[Slot(abspath)].isDir
    then {Slot(abspath)} else {}
  }

  ghost function EmptiedByEach(h: Host, each: Each, targets: seq<string>, s: State): set<Path> {
    if targets == [] then {}
    else
      var one := RunOne(h, each, targets[0], s);
      Emptied(each, targets[0], s) + if one.status != 0 then {} else EmptiedByEach(h, each, targets[1..], one.state)
  }

  /** It takes a path like "//x", which is not its own slot. */
  lemma OnlyOddPathsAreEmptied(each: Each, target: string, s: State)
    ensures Emptied(each, target, s) != {} ==> each.TouchEach? && !SlotIsPath(Normalize(target, s.cwd))
  {
    hide Normalize, Parts, ParentOf, NameOf, SlotIsPath;
    SlotIsPathExactly(Normalize(target, s.cwd));
  }

  lemma CreationKeeps(m: Flat, abspath: string, content: string, owner: string)
    requires WellFormed(m)
    ensures KeptExactly(m, Mkdir(m, abspath, owner).fs, {}, {})
    ensures KeptExactly(m, Makedirs(m, Split(Strip(abspath, IsSlash), '/'), owner).fs, {}, {})
    ensures WellFormed(Makedirs(m, Split(Strip(abspath, IsSlash), '/'), owner).fs)
    ensures KeptExactly(m, WriteFile(m, abspath, content, owner).fs, {},
                        if Slot(abspath) in m && !m[Slot(abspath)].isDir then {Slot(abspath)} else {})
  {
    hide Slot, Mkdir, WriteFile, Makedirs, WellFormed, Split, Strip, KeptExactly;
    var parts := Split(Strip(abspath, IsSlash), '/');
    MakedirsIsExact(m, parts, owner);
    MakedirsKeepsWellFormed(m, parts, owner);
    MkdirIsExact(m, abspath, owner);
    WriteFileIsExact(m, abspath, content, owner);
    NothingIsLost(m, Makedirs(m, parts, owner).fs, {});
    NothingIsLost(m, Mkdir(m, abspath, owner).fs, {});
    NothingIsLost(m, WriteFile(m, abspath, content, owner).fs,
                  if Slot(abspath) in m && !m[Slot(abspath)].isDir then {Slot(abspath)} else {});
  }

  lemma NothingIsLost(m: Flat, m': Flat, written: set<Path>)
    requires forall p | p in m :: p in m' && m'[p].isDir == m[p].isDir && (p !in written ==> m'[p] == m[p])
    ensures KeptExactly(m, m', {}, written)
  {
  }

  lemma RemoveKeeps(m: Flat, abspath: string)
    requires WellFormed(m)
    ensures var r := Remove(m, abspath);
      && r.fs.Keys <= m.Keys
      && KeptExactly(m, r.fs, if r.error.None? then {Slot(abspath)} else {}, {})
  {
    hide Slot, Lookup, ParentOf, WellFormed;
    var r := Remove(m, abspath);
    var removed := if r.error.None? then {Slot(abspath)} else {};
    RemoveIsExact(m, abspath);
    forall p | p in m ensures Doomed(p, removed) <==> r.error.None? && Slot(abspath) <= p {
      assert r.error.None? ==> Slot(abspath) in removed;
    }
  }

  /** One operand removes exactly what it is said to, leaves every other entry wholly unchanged unless it
      empties it, and leaves a reachable session. */
  lemma RunOneKeeps(h: Host, each: Each, target: string, s: State)
    requires Inv(s)
    ensures var r := RunOne(h, each, target, s);
      && Inv(r.state) && r.state == s.(fs := r.state.fs)
      && KeptExactly(s.fs, r.state.fs, Removed(each, target, s), Emptied(each, target, s))
      && (Removes(each) ==> r.state.fs.Keys <= s.fs.Keys)
  {
    hide Normalize, Mkdir, Makedirs, WriteFile, Remove, Read, Children, Exists, IsDir;
    hide KeptExactly, WellFormed, NamesAreFlat, Absolute, Slot, Split, Strip, Parts;
    var abspath := Normalize(target, s.cwd);
    OperationsKeepWellFormed(s.fs, abspath, "", h.username);
    OperationsKeepNames(s.fs, abspath, "", h.username);
    CreationKeeps(s.fs, abspath, "", h.username);
    RemoveKeeps(s.fs, abspath);
    KeptSame(s.fs);
  }

  lemma {:induction false} RunEachKeeps(h: Host, each: Each, targets: seq<string>, s: State)
    requires Inv(s)
    ensures var r := RunEach(h, each, targets, s);
      && Inv(r.state) && r.state == s.(fs := r.state.fs)
      && KeptExactly(s.fs, r.state.fs, RemovedByEach(h, each, targets, s), EmptiedByEach(h, each, targets, s))
      && (Removes(each) ==> r.state.fs.Keys <= s.fs.Keys)
  {
    hide RunOne, Inv, KeptExactly, Removed, Emptied;
    KeptSame(s.fs);
    if targets != [] {
      var one := RunOne(h, each, targets[0], s);
      RunOneKeeps(h, each, targets[0], s);
      NothingRemoved(each, targets[0], s);
      OnlyRemovals(h, each, targets[1..], one.state);
      var removed, emptied := Removed(each, targets[0], s), Emptied(each, targets[0], s);
      assert removed + {} == removed && emptied + {} == emptied;
      if one.status == 0 || !each.TouchEach? {
        RunEachKeeps(h, each, targets[1..], one.state);
        KeptExactlyTwice(s.fs, one.state.fs, RunEach(h, each, targets[1..], one.state).state.fs,
                         removed, RemovedByEach(h, each, targets[1..], one.state),
                         emptied, EmptiedByEach(h, each, targets[1..], one.state));
        NothingEmptied(h, each, targets, s);
        NothingEmptied(h, each, targets[1..], one.state);
      }
    }
  }

  lemma NothingRemoved(each: Each, target: string, s: State)
    ensures !Removes(each) ==> Removed(each, target, s) == {}
  {
  }

  lemma {:induction false} NothingEmptied(h: Host, each: Each, targets: seq<string>, s: State)
    ensures !each.TouchEach? ==> EmptiedByEach(h, each, targets, s) == {}
    ensures targets != [] && !each.TouchEach? ==> Emptied(each, targets[0], s) == {}
  {
    if targets != [] && !each.TouchEach? {
      hide RunOne;
      NothingEmptied(h, each, targets[1..], RunOne(h, each, targets[0], s).state);
    }
  }

  lemma RunCdKeeps(h: Host, args: seq<string>, s: State)
    ensures var r := RunCd(h, args, s);
      && r.state == s.(cwd := r.state.cwd, env := r.state.env)
      && (Absolute(s.cwd) ==> Absolute(r.state.cwd))
      && (Canonical(s.cwd) ==> Canonical(r.state.cwd))
      && (r.state.cwd != s.cwd ==> Exists(s.fs, r.state.cwd))
  {
    hide Exists, IsDir, CdTarget, LeadingSlashes, Resolved, Parts;
    var target := CdTarget(h, args, s);
    if Absolute(s.cwd) { NormalizeIsAbsolute(target, s.cwd); }
    if Canonical(s.cwd) { NormalizeIsCanonical(target, s.cwd); }
  }

  lemma NormalizeIsAbsolute(path: string, cwd: string)
    requires Absolute(cwd)
    ensures Absolute(Normalize(path, cwd))
    ensures path != "" ==> Canonical(Normalize(path, cwd))
  {
    hide Normpath;
    if path != "" {
      NormpathOfAbsolute(if Absolute(path) then path else JoinPath(cwd, path));
    }
  }

  lemma {:induction false} RunExportKeeps(args: seq<string>, s: State)
    ensures var r := RunExport(args, s).state; r == s.(env := r.env)
  {
    if args != [] {
      var i := IndexFrom(args[0], '=', 0);
      RunExportKeeps(args[1..], if i < |args[0]| then s.(env := s.env[args[0][..i] := args[0][i + 1..]]) else s);
    }
  }

  /** The slots a command with these words removes. */
  ghost function RemovedByWords(h: Host, words: seq<string>, s: State): set<Path> {
    if words == [] then {}
    else if HandlerOf(words[0]) == Some(Rm) then
      RemovedByEach(h, RmEach(AnyFlagWith(words[1..], 'f')), Operands(words[1..]), s)
    else if HandlerOf(words[0]) == Some(Rmdir) then RemovedByEach(h, RmdirEach, Operands(words[1..]), s)
    else {}
  }

  /** The files a command with these words empties. */
  ghost function EmptiedByWords(h: Host, words: seq<string>, s: State): set<Path> {
    if words == [] || HandlerOf(words[0]) != Some(Touch) then {}
    else EmptiedByEach(h, TouchEach, Operands(words[1..]), s)
  }

  /** What one command does to the working directory and its spelling. */
  ghost predicate Moved(s: State, s': State) {
    && (Canonical(s.cwd) ==> Canonical(s'.cwd))
    && (s'.cwd != s.cwd ==> Exists(s'.fs, s'.cwd))
    && s'.history == s.history
  }

  /** A command removes exactly what it is said to remove, leaves all else unchanged but what `touch` empties,
      moves to an existing directory if at all, and leaves a reachable session. */
  lemma RunHandlerKeeps(h: Host, words: seq<string>, s: State)
    requires Inv(s) && words != [] && HandlerOf(words[0]).Some?
    ensures var r := RunHandler(h, HandlerOf(words[0]).value, words[0], words[1..], s);
      && Inv(r.state) && Moved(s, r.state)
      && KeptExactly(s.fs, r.state.fs, RemovedByWords(h, words, s), EmptiedByWords(h, words, s))
  {
    hide RunEach, RunCd, RunExport, KeptExactly, Operands, WellFormed, NamesAreFlat, Absolute, Canonical, HandlerOf;
    hide RemovedByEach, EmptiedByEach, LsEach, LsArguments, Join, Exists;
    var args := words[1..];
    var ops := Operands(args);
    KeptSame(s.fs);
    match HandlerOf(words[0]).value
    case Cd => RunCdKeeps(h, args, s);
    case Cat => OthersKeep(h, CatEach, ops, s);
    case MakeDir => OthersKeep(h, MkdirEach("-p" in args || "--parents" in args), ops, s);
    case Rmdir => OthersKeep(h, RmdirEach, ops, s);
    case Rm => OthersKeep(h, RmEach(AnyFlagWith(args, 'f')), ops, s);
    case Touch => OthersKeep(h, TouchEach, ops, s);
    case Export => RunExportKeeps(args, s);
    case _ =>
  }

  lemma OthersKeep(h: Host, each: Each, targets: seq<string>, s: State)
    requires Inv(s)
    ensures var r := RunEach(h, each, targets, s);
      && Inv(r.state) && r.state == s.(fs := r.state.fs)
      && KeptExactly(s.fs, r.state.fs, if Removes(each) then RemovedByEach(h, each, targets, s) else {},
                     if each.TouchEach? then EmptiedByEach(h, each, targets, s) else {})
  {
    hide KeptExactly, EmptiedByEach, RemovedByEach, RunEach;
    RunEachKeeps(h, each, targets, s);
    NothingEmptied(h, each, targets, s);
    OnlyRemovals(h, each, targets, s);
  }

  lemma OnlyRemovals(h: Host, each: Each, targets: seq<string>, s: State)
    ensures !Removes(each) ==> RemovedByEach(h, each, targets, s) == {}
  {
  }

  /** The file a redirect replaces, if there is one. */
  ghost function Replaced(to: Redirect, s: State): set<Path> {
    var slot := Slot(Normalize(to.target, s.cwd));
    if slot in s.fs && !s.fs[slot].isDir then {slot} else {}
  }

  lemma RedirectedKeeps(h: Host, to: Redirect, ran: Ran)
    requires ran.Ran? && Inv(ran.state)
    ensures var r := Redirected(h, to, ran);
      && Inv(r.state) && r.state == ran.state.(fs := r.state.fs)
      && Kept(ran.state.fs, r.state.fs, {}, Replaced(to, ran.state))
  {
    hide Normalize, WriteFile, Read, Exists, WellFormed, NamesAreFlat, Absolute, Mkdir, Makedirs, Remove, Slot, Doomed;
    var abspath := Normalize(to.target, ran.state.cwd);
    var before := if to.append && Exists(ran.state.fs, abspath) then Read(ran.state.fs, abspath) else Found("");
    var content := if before.Found? then before.value + ran.text else "";
    OperationsKeepWellFormed(ran.state.fs, abspath, content, h.username);
    OperationsKeepNames(ran.state.fs, abspath, content, h.username);
    CreationKeeps(ran.state.fs, abspath, content, h.username);
  }

  /** Whose content a command changes: what its redirect replaces and what its `touch` empties. */
  ghost function WrittenByParsed(h: Host, p: Parsed, s: State): set<Path> {
    EmptiedByWords(h, p.words, s) +
    if p.words == [] || HandlerOf(p.words[0]).None? || p.redirect.None? then {}
    else
      var ran := RunHandler(h, HandlerOf(p.words[0]).value, p.words[0], p.words[1..], s);
      if ran.Raised? then {} else Replaced(p.redirect.value, ran.state)
  }

  lemma RunParsedKeeps(h: Host, p: Parsed, s: State)
    requires Inv(s)
    ensures var r := RunParsed(h, p, s).0;
      && Inv(r.state) && Moved(s, r.state)
      && Kept(s.fs, r.state.fs, RemovedByWords(h, p.words, s), WrittenByParsed(h, p, s))
  {
    hide RunHandler, Redirected, HandlerOf, Kept, Inv, Canonical, Basename, RemovedByEach, EmptiedByEach, Exists;
    hide Replaced;
    KeptSame(s.fs);
    var removed, emptied := RemovedByWords(h, p.words, s), EmptiedByWords(h, p.words, s);
    assert emptied + {} == emptied && removed + {} == removed;
    if p.words != [] && HandlerOf(p.words[0]).Some? {
      var ran := RunHandler(h, HandlerOf(p.words[0]).value, p.words[0], p.words[1..], s);
      RunHandlerKeeps(h, p.words, s);
      if ran.Ran? && p.redirect.Some? {
        var end := Redirected(h, p.redirect.value, ran);
        RedirectedKeeps(h, p.redirect.value, ran);
        var written := Replaced(p.redirect.value, ran.state);
        KeptTwice(s.fs, ran.state.fs, end.state.fs, removed, {}, emptied, written);
        KeptPath(ran.state.fs, end.state.fs, written, ran.state.cwd);
      }
    }
  }

  lemma KeptPath(m: Flat, m': Flat, written: set<Path>, abspath: string)
    requires Kept(m, m', {}, written)
    ensures Exists(m, abspath) ==> Exists(m', abspath)
  {
    hide Parts;
  }

  /** The command a segment is, once parsed in the session it meets. */
  ghost function CommandOf(h: Host, text: string, s: State): Parsed {
    var command := StripSpace(text);
    if command == "" then Parsed([], None, false) else ParseCommand(h, command, s.env)
  }

  lemma RunSegmentKeeps(h: Host, text: string, s: State)
    requires Inv(s)
    ensures var r := RunSegment(h, text, s).0; var p := CommandOf(h, text, s);
      && Inv(r.state) && Moved(s, r.state)
      && Kept(s.fs, r.state.fs, RemovedByWords(h, p.words, s), WrittenByParsed(h, p, s))
  {
    hide RunParsed, ParseCommand, StripSpace, RemovedByWords, WrittenByParsed, Kept, Inv, Canonical, Exists;
    if StripSpace(text) == "" {
      NoWords(h, s);
    } else {
      RunParsedKeeps(h, ParseCommand(h, StripSpace(text), s.env), s);
    }
  }

  lemma NoWords(h: Host, s: State)
    ensures RemovedByWords(h, [], s) == {} && WrittenByParsed(h, Parsed([], None, false), s) == {}
    ensures Moved(s, s) && Kept(s.fs, s.fs, {}, {})
  {
  }

  lemma RemovedIsSlot(each: Each, target: string, s: State, p: Path)
    ensures p in Removed(each, target, s) + Emptied(each, target, s) ==>
      p == Slot(Normalize(target, s.cwd)) && (Removes(each) || each.TouchEach?)
  {
    hide Normalize, Slot, Parts, Children, Remove;
  }

  /** Only `rm` and `rmdir` remove, and only `touch` and redirects change a text. */
  lemma OnlyTheseTouch(h: Host, p: Parsed, s: State)
    ensures RemovedByWords(h, p.words, s) != {} ==> p.words != [] && p.words[0] in {"rm", "rmdir"}
    ensures WrittenByParsed(h, p, s) != {} ==> p.words != [] && (p.words[0] == "touch" || p.redirect.Some?)
    ensures p.words == [] || p.words[0] != "touch" ==> forall q | q in WrittenByParsed(h, p, s) ::
      q == Slot(Normalize(p.redirect.value.target, RunParsed(h, p.(redirect := None), s).0.state.cwd))
  {
    hide RemovedByEach, EmptiedByEach, RunHandler, Normalize, Slot, Operands;
  }

  // The commands a session really ran

  /** One command that ran: what it was, the session it met, the session it left, what it removed and whose
      content it changed. */
  datatype Executed = Executed(command: Parsed, before: State, after: State, removed: set<Path>, written: set<Path>)

  ghost function ExecutedAs(h: Host, text: string, s: State): Executed {
    var p := CommandOf(h, text, s);
    Executed(p, s, RunSegment(h, text, s).0.state, RemovedByWords(h, p.words, s), WrittenByParsed(h, p, s))
  }

  ghost function TraceOfSegments(h: Host, segs: seq<Segment>, s: State, last: int): seq<Executed> {
    if segs == [] then []
    else if segs[0].sep == "&&" && last != 0 then TraceOfSegments(h, segs[1..], s, last)
    else
      var ran := RunSegment(h, segs[0].text, s).0;
      [ExecutedAs(h, segs[0].text, s)] +
        if ran.Raised? then [] else TraceOfSegments(h, segs[1..], ran.state, ran.status)
  }

  ghost function TraceOfLine(h: Host, commandLine: string, s: State): seq<Executed> {
    var line := StripSpace(commandLine);
    if line == "" || EndsSession(line) then []
    else TraceOfSegments(h, SplitSequence(line), s.(history := s.history + [line]), 0)
  }

  ghost function TraceOfSession(h: Host, lines: seq<string>, s: State): seq<Executed>
    decreases |lines|
  {
    if lines == [] then []
    else
      var r := Respond(h, lines[0], s);
      TraceOfLine(h, lines[0], s) + if r.Over() then [] else TraceOfSession(h, lines[1..], r.state)
  }

  /** The session after its lines have been answered; the line that ends it is the last one read. */
  ghost function After(h: Host, lines: seq<string>, s: State): State
    decreases |lines|
  {
    if lines == [] then s
    else
      var r := Respond(h, lines[0], s);
      if r.Over() then r.state else After(h, lines[1..], r.state)
  }

  ghost function RemovedIn(trace: seq<Executed>): set<Path> {
    if trace == [] then {} else trace[0].removed + RemovedIn(trace[1..])
  }

  ghost function WrittenIn(trace: seq<Executed>): set<Path> {
    if trace == [] then {} else trace[0].written + WrittenIn(trace[1..])
  }

  ghost predicate SamePlace(s: State, s': State) {
    s.fs == s'.fs && s.cwd == s'.cwd
  }

  /** Each command meets the place the one before it left, and keeps what it does not remove. */
  ghost predicate IsTrace(s: State, trace: seq<Executed>, end: State)
    decreases |trace|
  {
    if trace == [] then SamePlace(s, end)
    else
      && SamePlace(s, trace[0].before)
      && Kept(s.fs, trace[0].after.fs, trace[0].removed, trace[0].written)
      && Moved(trace[0].before, trace[0].after)
      && IsTrace(trace[0].after, trace[1..], end)
  }

  lemma {:induction false} TraceAppend(s: State, a: seq<Executed>, mid: State, b: seq<Executed>, end: State)
    requires IsTrace(s, a, mid) && IsTrace(mid, b, end)
    ensures IsTrace(s, a + b, end)
    decreases |a|
  {
    hide Kept, Moved;
    if a == [] {
      assert a + b == b;
      if b == [] { assert SamePlace(s, end); }
    } else {
      assert (a + b)[1..] == a[1..] + b;
      TraceAppend(a[0].after, a[1..], mid, b, end);
    }
  }

  lemma {:induction false} RunSegmentsKeeps(h: Host, segs: seq<Segment>, s: State, last: int)
    requires Inv(s)
    ensures var end := RunSegments(h, segs, s, last).state;
      && Inv(end) && end.history == s.history
      && IsTrace(s, TraceOfSegments(h, segs, s, last), end)
  {
    hide RunSegment, RemovedByWords, WrittenByParsed, CommandOf, Kept, Inv, Canonical, Exists;
    if segs != [] {
      if segs[0].sep == "&&" && last != 0 {
        RunSegmentsKeeps(h, segs[1..], s, last);
      } else {
        var ran := RunSegment(h, segs[0].text, s).0;
        RunSegmentKeeps(h, segs[0].text, s);
        var trace := TraceOfSegments(h, segs, s, last);
        if ran.Ran? {
          RunSegmentsKeeps(h, segs[1..], ran.state, ran.status);
          assert trace[1..] == TraceOfSegments(h, segs[1..], ran.state, ran.status);
        } else {
          assert trace[1..] == [];
        }
      }
    }
  }

  /** One line: a reachable session stays one, its trace accounts for every entry that disappeared, and the
      line is the one addition to the history. */
  lemma RespondKeeps(h: Host, commandLine: string, s: State)
    requires Inv(s)
    ensures var r := Respond(h, commandLine, s);
      && Inv(r.state) && IsTrace(s, TraceOfLine(h, commandLine, s), r.state)
      && r.state.history == if StripSpace(commandLine) == "" then s.history else s.history + [StripSpace(commandLine)]
  {
    hide RunSegments, SplitSequence, TraceOfSegments, EndsSession, StripSpace, WellFormed, NamesAreFlat, Absolute;
    var line := StripSpace(commandLine);
    var s' := s.(history := s.history + [line]);
    RunSegmentsKeeps(h, SplitSequence(line), s', 0);
    SameStart(s', TraceOfSegments(h, SplitSequence(line), s', 0), RunSegments(h, SplitSequence(line), s', 0).state, s);
  }

  lemma SameStart(s: State, trace: seq<Executed>, end: State, s': State)
    requires IsTrace(s, trace, end) && SamePlace(s, s')
    ensures IsTrace(s', trace, end)
  {
  }

  /** What is there at any point of a trace: everything no command so far removed. */
  lemma {:induction false} KeptAlong(s: State, trace: seq<Executed>, end: State, j: nat)
    requires IsTrace(s, trace, end) && j <= |trace|
    ensures Kept(s.fs, StateAt(trace, end, j).fs, RemovedIn(trace[..j]), WrittenIn(trace[..j]))
    decreases j
  {
    hide Moved;
    if j == 0 {
      assert trace[..0] == [];
      KeptSame(s.fs);
    } else {
      hide Kept;
      var first := trace[0];
      KeptAlong(first.after, trace[1..], end, j - 1);
      assert trace[..j][1..] == trace[1..][..j - 1];
      KeptTwice(s.fs, first.after.fs, StateAt(trace, end, j).fs, first.removed, RemovedIn(trace[1..][..j - 1]),
                first.written, WrittenIn(trace[1..][..j - 1]));
    }
  }

  /** The session that command `j` of a trace meets, or the end. */
  ghost function StateAt(trace: seq<Executed>, end: State, j: nat): State
    requires j <= |trace|
  {
    if j < |trace| then trace[j].before else end
  }

  lemma {:induction false} CanonicalAlong(s: State, trace: seq<Executed>, end: State)
    requires IsTrace(s, trace, end)
    ensures Canonical(s.cwd) ==> Canonical(end.cwd)
    decreases |trace|
  {
    hide Kept, Canonical, Exists;
    if trace != [] {
      CanonicalAlong(trace[0].after, trace[1..], end);
    }
  }

  /** Over any session: the filesystem stays well formed with flat names, the working directory stays
      absolute, and canonical if it was; an entry only disappears if some `rm` or `rmdir` that ran and
      succeeded removed it or something above it; and its content, owner and mode only change if a redirect
      replaced it, or a `touch` of a path that is not its own slot emptied it. */
  lemma {:induction false} SessionsKeep(h: Host, lines: seq<string>, s: State)
    requires Inv(s)
    ensures var end := After(h, lines, s); var trace := TraceOfSession(h, lines, s);
      && Inv(end) && IsTrace(s, trace, end)
      && Kept(s.fs, end.fs, RemovedIn(trace), WrittenIn(trace))
      && (Canonical(s.cwd) ==> Canonical(end.cwd))
    decreases |lines|
  {
    SessionIsTrace(h, lines, s);
    hide Inv, IsTrace, Kept, Canonical, After, TraceOfSession;
    var end, trace := After(h, lines, s), TraceOfSession(h, lines, s);
    KeptAlong(s, trace, end, |trace|);
    assert trace[..|trace|] == trace;
    CanonicalAlong(s, trace, end);
  }

  lemma {:induction false} SessionIsTrace(h: Host, lines: seq<string>, s: State)
    requires Inv(s)
    ensures Inv(After(h, lines, s)) && IsTrace(s, TraceOfSession(h, lines, s), After(h, lines, s))
    decreases |lines|
  {
    hide Respond, TraceOfLine, Inv;
    if lines != [] {
      var r := Respond(h, lines[0], s);
      RespondKeeps(h, lines[0], s);
      if r.Over() {
        assert TraceOfLine(h, lines[0], s) + [] == TraceOfLine(h, lines[0], s);
      } else {
        hide IsTrace;
        SessionIsTrace(h, lines[1..], r.state);
        TraceAppend(s, TraceOfLine(h, lines[0], s), r.state, TraceOfSession(h, lines[1..], r.state),
                    After(h, lines[1..], r.state));
      }
    }
  }

  // Directories that were made

  /** The rest of a session, from inside a line: the segments not run yet and the lines after. */
  ghost function RestTrace(h: Host, segs: seq<Segment>, lines: seq<string>, s: State, last: int): seq<Executed> {
    var r := RunSegments(h, segs, s, last);
    TraceOfSegments(h, segs, s, last) + if r.Over() then [] else TraceOfSession(h, lines, r.state)
  }

  ghost function RestEnd(h: Host, segs: seq<Segment>, lines: seq<string>, s: State, last: int): State {
    var r := RunSegments(h, segs, s, last);
    if r.Over() then r.state else After(h, lines, r.state)
  }

  lemma RestIsTrace(h: Host, segs: seq<Segment>, lines: seq<string>, s: State, last: int)
    requires Inv(s)
    ensures IsTrace(s, RestTrace(h, segs, lines, s, last), RestEnd(h, segs, lines, s, last))
  {
    hide RunSegments, TraceOfSegments, After, TraceOfSession, IsTrace, Inv;
    var r := RunSegments(h, segs, s, last);
    RunSegmentsKeeps(h, segs, s, last);
    if r.Over() {
      assert TraceOfSegments(h, segs, s, last) + [] == TraceOfSegments(h, segs, s, last);
    } else {
      SessionIsTrace(h, lines, r.state);
      TraceAppend(s, TraceOfSegments(h, segs, s, last), r.state, TraceOfSession(h, lines, r.state),
                  After(h, lines, r.state));
    }
  }

  /** Where `mkdir` puts a directory; `-p` skips empty components. */
  ghost function MadePath(parents: bool, abspath: string): Path {
    if parents then Solid(Split(Strip(abspath, IsSlash), '/')) else Slot(abspath)
  }

  ghost predicate IsListed(m: Flat, p: Path) {
    p in m && m[p].isDir && (p != [] ==> p[|p| - 1] in Children(m, Up(p)))
  }

  lemma MkdirMakes(h: Host, parents: bool, target: string, s: State)
    requires Inv(s) && RunOne(h, MkdirEach(parents), target, s).status == 0
    ensures var m := RunOne(h, MkdirEach(parents), target, s).state.fs;
      var p := MadePath(parents, Normalize(target, s.cwd)); p in m && m[p].isDir
  {
    hide Normalize, Slot, Split, Strip, UsableParent, Makedirs, WellFormed, Failing, NoFileOn;
    var abspath := Normalize(target, s.cwd);
    var parts := Split(Strip(abspath, IsSlash), '/');
    FailingSays(s, Makedirs(s.fs, parts, h.username), "mkdir: cannot create directory '", target);
    FailingSays(s, Mkdir(s.fs, abspath, h.username), "mkdir: cannot create directory '", target);
    MakedirsIsExact(s.fs, parts, h.username);
    assert Solid(parts)[..|Solid(parts)|] == Solid(parts);
  }

  lemma FailingSays(s: State, r: Changed, prefix: string, target: string)
    ensures var ran := Failing(s.(fs := r.fs), r.error, prefix, target);
      ran.state == s.(fs := r.fs) && (ran.status == 0 <==> r.error.None?)
  {
  }

  lemma KeptDirIsListed(m: Flat, m': Flat, removed: set<Path>, written: set<Path>, p: Path)
    requires Kept(m, m', removed, written) && p in m && m[p].isDir && !Doomed(p, removed)
    ensures IsListed(m', p)
  {
    if p != [] {
      assert Up(p) <= p && |p| == |Up(p)| + 1;
    }
  }

  lemma {:induction false} RunEachFrom(h: Host, each: Each, targets: seq<string>, i: nat, s: State)
    requires i <= |targets| && !each.TouchEach?
    ensures RunEach(h, each, targets, s).state
      == RunEach(h, each, targets[i..], RunEach(h, each, targets[..i], s).state).state
  {
    hide RunOne;
    if i == 0 {
      assert targets[0..] == targets && targets[..0] == [];
    } else {
      assert targets[..i][1..] == targets[1..][..i - 1] && targets[i..] == targets[1..][i - 1..];
      RunEachFrom(h, each, targets[1..], i - 1, RunOne(h, each, targets[0], s).state);
    }
  }

  /** The flag that makes `mkdir` create parents. */
  predicate MakesParents(args: seq<string>) {
    "-p" in args || "--parents" in args
  }

  /** Operand `i` of a `mkdir` command reports no error. */
  ghost predicate MkdirSucceeds(h: Host, args: seq<string>, i: nat, s: State)
    requires i < |Operands(args)|
  {
    var each := MkdirEach(MakesParents(args));
    var before := RunEach(h, each, Operands(args)[..i], s).state;
    RunOne(h, each, Operands(args)[i], before).status == 0
  }

  /** It is there when the command has worked through all its operands. */
  lemma MkdirOperandMakes(h: Host, args: seq<string>, i: nat, s: State)
    requires Inv(s) && i < |Operands(args)|
    ensures Inv(RunMkdir(h, args, s).state)
    ensures var m := RunMkdir(h, args, s).state.fs;
      var made := MadePath(MakesParents(args), Normalize(Operands(args)[i], s.cwd));
      MkdirSucceeds(h, args, i, s) ==> made in m && m[made].isDir
  {
    hide RunOne, Inv, Normalize, MadePath, Operands, RemovedByEach, EmptiedByEach, KeptExactly;
    var ops, each := Operands(args), MkdirEach(MakesParents(args));
    RunEachFrom(h, each, ops, i, s);
    RunEachKeeps(h, each, ops, s);
    RunEachKeeps(h, each, ops[..i], s);
    var before := RunEach(h, each, ops[..i], s).state;
    var made := RunOne(h, each, ops[i], before).state;
    RunOneKeeps(h, each, ops[i], before);
    assert ops[i..][1..] == ops[i + 1..];
    assert RunMkdir(h, args, s).state == RunEach(h, each, ops[i + 1..], made).state;
    if MkdirSucceeds(h, args, i, s) {
      MkdirMakes(h, each.parents, ops[i], before);
      DirectoriesStay(h, each, ops[i + 1..], made, MadePath(each.parents, Normalize(ops[i], s.cwd)));
    }
  }

  lemma DirectoriesStay(h: Host, each: Each, targets: seq<string>, s: State, p: Path)
    requires Inv(s) && each.MkdirEach? && p in s.fs && s.fs[p].isDir
    ensures var m := RunEach(h, each, targets, s).state.fs; p in m && m[p].isDir
  {
    hide Inv, RunEach, RemovedByEach, EmptiedByEach;
    RunEachKeeps(h, each, targets, s);
    OnlyRemovals(h, each, targets, s);
  }

  lemma MkdirCommandMakes(h: Host, p: Parsed, i: nat, s: State)
    requires Inv(s) && p.words != [] && p.words[0] == "mkdir"
    requires i < |Operands(p.words[1..])|
    ensures RunParsed(h, p, s).0.Ran?
    ensures var m := RunParsed(h, p, s).0.state.fs;
      var made := MadePath(MakesParents(p.words[1..]), Normalize(Operands(p.words[1..])[i], s.cwd));
      MkdirSucceeds(h, p.words[1..], i, s) ==> made in m && m[made].isDir
  {
    hide Inv, Normalize, MadePath, Redirected, Operands, HandlerOf, MkdirSucceeds, MakesParents, RunMkdir, Slot;
    MkdirIsHandled();
    var ran := RunMkdir(h, p.words[1..], s);
    MkdirOperandMakes(h, p.words[1..], i, s);
    if p.redirect.Some? { RedirectedKeeps(h, p.redirect.value, ran); }
  }

  lemma MkdirIsHandled()
    ensures HandlerOf("mkdir") == Some(MakeDir)
  {
  }

  /** A directory that an operand of `mkdir` made shows in every later listing of its parent, in the same line
      or any later one, however the command was redirected and however long the session goes on, until a
      removal that succeeds names it or something above it. */
  lemma MadeDirectoryStaysListed(h: Host, p: Parsed, i: nat, s: State,
                                 segs: seq<Segment>, lines: seq<string>, j: nat)
    requires Inv(s) && p.words != [] && p.words[0] == "mkdir"
    requires i < |Operands(p.words[1..])|
    ensures RunParsed(h, p, s).0.Ran?
    ensures var ran := RunParsed(h, p, s).0;
      var abspath := Normalize(Operands(p.words[1..])[i], s.cwd);
      var made := MadePath(MakesParents(p.words[1..]), abspath);
      var trace := RestTrace(h, segs, lines, ran.state, ran.status);
      var end := RestEnd(h, segs, lines, ran.state, ran.status);
      MkdirSucceeds(h, p.words[1..], i, s) && j <= |trace| && !Doomed(made, RemovedIn(trace[..j])) ==>
        && IsListed(StateAt(trace, end, j).fs, made)
        && (!MakesParents(p.words[1..]) && SlotIsPath(abspath) ==> IsDir(StateAt(trace, end, j).fs, abspath))
  {
    hide RunParsed, Operands, Normalize, RestTrace, RestEnd, MkdirSucceeds;
    hide IsTrace, Kept, Doomed, IsListed, Inv, SlotIsPath;
    var ran := RunParsed(h, p, s).0;
    var abspath := Normalize(Operands(p.words[1..])[i], s.cwd);
    var made := MadePath(MakesParents(p.words[1..]), abspath);
    MkdirCommandMakes(h, p, i, s);
    RunParsedKeeps(h, p, s);
    RestIsTrace(h, segs, lines, ran.state, ran.status);
    var trace := RestTrace(h, segs, lines, ran.state, ran.status);
    var end := RestEnd(h, segs, lines, ran.state, ran.status);
    if MkdirSucceeds(h, p.words[1..], i, s) && j <= |trace| && !Doomed(made, RemovedIn(trace[..j])) {
      KeptAlong(ran.state, trace, end, j);
      KeptDirIsListed(ran.state.fs, StateAt(trace, end, j).fs, RemovedIn(trace[..j]), WrittenIn(trace[..j]), made);
      SlotIsPathExactly(abspath);
      ListedIsDir(StateAt(trace, end, j).fs, abspath, made);
    }
  }

  lemma ListedIsDir(m: Flat, abspath: string, p: Path)
    requires IsListed(m, p)
    ensures p == Parts(abspath) ==> IsDir(m, abspath)
  {
    hide Parts;
  }

  /** A redirect that reports nothing has stored exactly what the command would have printed, after the old
      text if it appends; `cat` of the same target prints that, and the status is the command's own. */
  lemma RedirectThenCat(h: Host, p: Parsed, s: State)
    requires p.words != [] && HandlerOf(p.words[0]).Some? && p.redirect.Some?
    ensures var plain := RunParsed(h, p.(redirect := None), s).0;
      var ran := RunParsed(h, p, s).0;
      var to := p.redirect.value;
      var abspath := Normalize(to.target, plain.state.cwd);
      var before := if to.append && Exists(plain.state.fs, abspath) then Read(plain.state.fs, abspath) else Found("");
      && (plain.Raised? ==> ran == plain)
      && (plain.Ran? ==>
          && ran.Ran?
          && (ran.text != "" <==> before.Failed? || WriteFile(plain.state.fs, abspath, "", h.username).error.Some?)
          && (ran.text == "" && SlotIsPath(abspath) ==>
              && ran.status == plain.status
              && RunOne(h, CatEach, to.target, ran.state)
                == Ran(ran.state, WithNewline(before.value + plain.text), 0))
          && (ran.text != "" ==> ran.status == 1 && ran.state == plain.state))
  {
    hide RunHandler, Normalize, HandlerOf, SlotIsPath, Read, UsableParent, Slot, Exists, ErrnoText;
    var plain := RunParsed(h, p.(redirect := None), s).0;
    var to := p.redirect.value;
    var m, abspath := plain.state.fs, Normalize(to.target, plain.state.cwd);
    var before := if to.append && Exists(m, abspath) then Read(m, abspath) else Found("");
    if plain.Ran? && before.Found? && WriteFile(m, abspath, before.value + plain.text, h.username).error.None? {
      WriteThenRead(m, abspath, before.value + plain.text, h.username);
    }
  }
}
