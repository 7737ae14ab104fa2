/** The vanilla engine: the handlers and the line executor of `engine/vanilla.py`, changing a
    `SessionState` in place, proved against the definitions in `Shell`. */
module Engine {
  import opened Text
  import opened Paths
  import opened FlatFs
  import opened Scanner
  import opened Expand
  import opened Shell
  import opened Vfs
  import Arguments
  import Names

  class SessionState {
    const host: Host
    const fs: VirtualFS
    var cwd: string
    var env: map<string, string>
    var history: seq<string>

    ghost predicate Valid()
      reads this, fs, fs.nodes.Values
    {
      fs.Valid()
    }

    ghost function Abs(): State
      reads this, fs
    {
      State(fs.Flat(), cwd, env, history)
    }

    constructor (host: Host, fs: VirtualFS, cwd: string, env: map<string, string>)
      requires fs.Valid()
      ensures Valid() && this.host == host && this.fs == fs && Abs() == State(fs.Flat(), cwd, env, [])
    {
      this.host, this.fs, this.cwd, this.env, history := host, fs, cwd, env, [];
    }
  }

  /** How a handler ends: with a text and a status, or with an exception. */
  datatype Outcome = Done(text: string, status: int) | Thrown

  ghost function Ending(s: State, out: Outcome): Ran {
    if out.Done? then Ran(s, out.text, out.status) else Raised(s)
  }

  // One argument of a command that takes several

  method MkdirOne(parents: bool, target: string, state: SessionState) returns (text: string, status: int)
    requires state.Valid()
    modifies state.fs, state.fs.nodes.Values
    ensures state.Valid() && fresh(state.fs.nodes.Values - old(state.fs.nodes.Values))
    ensures Ran(state.Abs(), text, status) == RunOne(state.host, MkdirEach(parents), target, old(state.Abs()))
  {
    hide VirtualFS.Valid, FlatOf;
    var abspath := Normalize(target, state.cwd);
    var error;
    if parents {
      error := state.fs.Makedirs(abspath, state.host.username);
    } else {
      error := state.fs.Mkdir(abspath, state.host.username);
    }
    if error.Some? {
      return "mkdir: cannot create directory '" + target + "': " + ErrnoText(error.value) + "\n", 1;
    }
    return "", 0;
  }

  method RmdirOne(target: string, state: SessionState) returns (text: string, status: int)
    requires state.Valid()
    modifies state.fs, state.fs.nodes.Values
    ensures state.Valid() && fresh(state.fs.nodes.Values - old(state.fs.nodes.Values))
    ensures Ran(state.Abs(), text, status) == RunOne(state.host, RmdirEach, target, old(state.Abs()))
  {
    hide VirtualFS.Valid, FlatOf;
    var abspath := Normalize(target, state.cwd);
    var error;
    var isDir := state.fs.IsDir(abspath);
    if !isDir {
      error := Some(NotADirectory);
    } else {
      var names := state.fs.ListDir(abspath);
      EmptyListing(Children(state.fs.Flat(), Parts(abspath)));
      if names.value != [] {
        error := Some(NotEmpty);
      } else {
        error := state.fs.Remove(abspath);
      }
    }
    if error.Some? {
      return "rmdir: failed to remove '" + target + "': " + ErrnoText(error.value) + "\n", 1;
    }
    return "", 0;
  }

  lemma EmptyListing(s: set<string>)
    ensures Names.Listing(s) == [] <==> s == {}
  {
    var names := Names.Listing(s);
    assert names != [] ==> names[0] in names;
    if s != {} {
      var n :| n in s;
      assert n in names;
    }
  }

  method RmOne(force: bool, target: string, state: SessionState) returns (text: string, status: int)
    requires state.Valid()
    modifies state.fs, state.fs.nodes.Values
    ensures state.Valid() && fresh(state.fs.nodes.Values - old(state.fs.nodes.Values))
    ensures Ran(state.Abs(), text, status) == RunOne(state.host, RmEach(force), target, old(state.Abs()))
  {
    hide VirtualFS.Valid, FlatOf;
    var error := state.fs.Remove(Normalize(target, state.cwd));
    if error.Some? && !force {
      return "rm: cannot remove '" + target + "': " + ErrnoText(error.value) + "\n", 1;
    }
    return "", 0;
  }

  method TouchOne(target: string, state: SessionState) returns (text: string, status: int)
    requires state.Valid()
    modifies state.fs, state.fs.nodes.Values
    ensures state.Valid() && fresh(state.fs.nodes.Values - old(state.fs.nodes.Values))
    ensures Ran(state.Abs(), text, status) == RunOne(state.host, TouchEach, target, old(state.Abs()))
  {
    hide VirtualFS.Valid, FlatOf, Normalize;
    var abspath := Normalize(target, state.cwd);
    var found := state.fs.Exists(abspath);
    if !found {
      var error := state.fs.WriteFile(abspath, "", state.host.username);
      if error.Some? {
        return "touch: cannot touch '" + target + "': " + ErrnoText(error.value) + "\n", 1;
      }
    }
    return "", 0;
  }

  method CatOne(target: string, state: SessionState) returns (text: string, status: int)
    requires state.Valid()
    ensures Ran(state.Abs(), text, status) == RunOne(state.host, CatEach, target, state.Abs())
  {
    hide VirtualFS.Valid, FlatOf;
    var content := state.fs.Read(Normalize(target, state.cwd));
    match content
    case Found(c) => return WithNewline(c), 0;
    case Failed(e) => return "cat: " + target + ": " + ErrnoText(e) + "\n", 1;
  }

  method DoOne(each: Each, target: string, state: SessionState) returns (text: string, status: int)
    requires state.Valid()
    modifies state.fs, state.fs.nodes.Values
    ensures state.Valid() && fresh(state.fs.nodes.Values - old(state.fs.nodes.Values))
    ensures Ran(state.Abs(), text, status) == RunOne(state.host, each, target, old(state.Abs()))
  {
    hide VirtualFS.Valid, FlatOf;
    match each
    case MkdirEach(parents) => text, status := MkdirOne(parents, target, state);
    case RmdirEach => text, status := RmdirOne(target, state);
    case RmEach(force) => text, status := RmOne(force, target, state);
    case TouchEach => text, status := TouchOne(target, state);
    case CatEach => text, status := CatOne(target, state);
  }

  /** What has been printed so far, followed by what is still to come. */
  ghost function Continued(msgs: string, status: int, rest: Ran): Ran
    requires rest.Ran?
  {
    Ran(rest.state, msgs + rest.text, if status != 0 then 1 else rest.status)
  }

  lemma RunOneStatus(h: Host, each: Each, target: string, s: State)
    ensures RunOne(h, each, target, s).status in {0, 1}
    ensures each.TouchEach? && RunOne(h, each, target, s).status == 0 ==> RunOne(h, each, target, s).text == ""
  {
  }

  lemma RunEachStep(h: Host, each: Each, targets: seq<string>, i: nat, s: State, msgs: string, status: int)
    requires i < |targets| && status in {0, 1}
    ensures var one := RunOne(h, each, targets[i], s);
      && one.status in {0, 1}
      && (each.TouchEach? && one.status == 0 ==> one.text == "")
      && (each.TouchEach? && one.status != 0 ==> RunEach(h, each, targets[i..], s) == one)
      && (!(each.TouchEach? && one.status != 0) ==>
          Continued(msgs, status, RunEach(h, each, targets[i..], s))
          == Continued(msgs + one.text, if one.status != 0 then 1 else status,
                       RunEach(h, each, targets[i + 1..], one.state)))
  {
    hide RunOne;
    RunOneStatus(h, each, targets[i], s);
    assert targets[i..][1..] == targets[i + 1..];
    var one := RunOne(h, each, targets[i], s);
    var rest := RunEach(h, each, targets[i + 1..], one.state);
    assert msgs + (one.text + rest.text) == msgs + one.text + rest.text;
  }

  /** The loop every such command has. */
  method DoEach(each: Each, targets: seq<string>, state: SessionState) returns (text: string, status: int)
    requires state.Valid()
    modifies state.fs, state.fs.nodes.Values
    ensures state.Valid() && fresh(state.fs.nodes.Values - old(state.fs.nodes.Values))
    ensures Ran(state.Abs(), text, status) == RunEach(state.host, each, targets, old(state.Abs()))
  {
    hide VirtualFS.Valid, FlatOf, RunOne;
    text, status := "", 0;
    assert targets[0..] == targets;
    ghost var all := RunEach(state.host, each, targets, state.Abs());
    assert "" + all.text == all.text;
    for i := 0 to |targets|
      invariant state.Valid() && fresh(state.fs.nodes.Values - old(state.fs.nodes.Values))
      invariant status in {0, 1} && (each.TouchEach? ==> status == 0 && text == "")
      invariant Continued(text, status, RunEach(state.host, each, targets[i..], state.Abs()))
        == RunEach(state.host, each, targets, old(state.Abs()))
    {
      RunEachStep(state.host, each, targets, i, state.Abs(), text, status);
      var msg, failed := DoOne(each, targets[i], state);
      if each.TouchEach? && failed != 0 {
        return msg, failed;
      }
      text := text + msg;
      status := if failed != 0 then 1 else status;
    }
  }

  // The handlers

  method CmdEcho(args: seq<string>, state: SessionState) returns (text: string, status: int)
    requires state.Valid()
    ensures Ran(state.Abs(), text, status) == RunEcho(args, state.Abs())
    ensures var words := Arguments.Printed(args);
      words != [] && (forall w | w in words :: ' ' !in w) ==> Split(Arguments.EchoLine(args, text), ' ') == words
  {
    var words := Arguments.Printed(args);
    if words != [] && forall w | w in words :: ' ' !in w {
      Arguments.EchoKeepsWords(args, state.Abs());
    }
    var newline := true;
    var rest := args;
    if args != [] && args[0] == "-n" {
      newline := false;
      rest := args[1..];
    }
    text := Join(rest, " ");
    return if newline then text + "\n" else text, 0;
  }

  method CmdCd(args: seq<string>, state: SessionState) returns (text: string, status: int)
    requires state.Valid()
    modifies state
    ensures state.Valid()
    ensures Ran(state.Abs(), text, status) == RunCd(state.host, args, old(state.Abs()))
  {
    hide VirtualFS.Valid, FlatOf, Normalize, FlatFs.Exists, FlatFs.IsDir, Home;
    var home := Home(state.host.username);
    var target := if args != [] then args[0] else home;
    if target == "-" {
      target := if "OLDPWD" in state.env then state.env["OLDPWD"] else state.cwd;
    }
    if target != "" && target[0] == '~' {
      target := home + target[1..];
    }
    var abspath := Normalize(target, state.cwd);
    var found := state.fs.Exists(abspath);
    if !found {
      return "bash: cd: " + target + ": No such file or directory\n", 1;
    }
    var isDir := state.fs.IsDir(abspath);
    if !isDir {
      return "bash: cd: " + target + ": Not a directory\n", 1;
    }
    state.env := state.env["OLDPWD" := state.cwd];
    state.cwd := abspath;
    state.env := state.env["PWD" := abspath];
    return "", 0;
  }

  method CmdExport(args: seq<string>, state: SessionState) returns (text: string, status: int)
    requires state.Valid()
    modifies state`env
    ensures state.Valid()
    ensures Ran(state.Abs(), text, status) == RunExport(args, old(state.Abs()))
  {
    assert args[0..] == args;
    for n := 0 to |args|
      invariant RunExport(args[n..], state.Abs()) == RunExport(args, old(state.Abs()))
    {
      assert args[n..][1..] == args[n + 1..];
      var a := args[n];
      var i := IndexFrom(a, '=', 0);
      if i < |a| {
        state.env := state.env[a[..i] := a[i + 1..]];
      }
    }
    return "", 0;
  }

  lemma NoOperands()
    ensures Operands([]) == []
  {
  }

  /** One round of the loops that sort flags from operands. */
  lemma ArgumentStep(args: seq<string>, i: nat, targets: seq<string>)
    requires i < |args|
    ensures targets + Operands(args[i..])
      == (if IsFlag(args[i]) then targets else targets + [args[i]]) + Operands(args[i + 1..])
    ensures forall a :: a in args[..i + 1] <==> a in args[..i] || a == args[i]
  {
    assert args[i..][1..] == args[i + 1..];
    assert args[..i + 1] == args[..i] + [args[i]];
    var rest := Operands(args[i + 1..]);
    assert targets + ([args[i]] + rest) == targets + [args[i]] + rest;
    assert [] + rest == rest;
  }

  method CmdMkdir(args: seq<string>, state: SessionState) returns (text: string, status: int)
    requires state.Valid()
    modifies state.fs, state.fs.nodes.Values
    ensures state.Valid() && fresh(state.fs.nodes.Values - old(state.fs.nodes.Values))
    ensures Ran(state.Abs(), text, status) == RunMkdir(state.host, args, old(state.Abs()))
  {
    hide VirtualFS.Valid, FlatOf, RunEach, Operands;
    var parents := false;
    var targets: seq<string> := [];
    assert args[0..] == args;
    for i := 0 to |args|
      modifies {}
      invariant targets + Operands(args[i..]) == Operands(args)
      invariant parents == ("-p" in args[..i] || "--parents" in args[..i])
    {
      ArgumentStep(args, i, targets);
      if args[i] == "-p" || args[i] == "--parents" {
        parents := true;
      } else if !IsFlag(args[i]) {
        targets := targets + [args[i]];
      }
    }
    assert args[..|args|] == args && args[|args|..] == [] && targets + Operands([]) == targets by { NoOperands(); }
    if targets == [] {
      return "mkdir: missing operand\n", 1;
    }
    text, status := DoEach(MkdirEach(parents), targets, state);
  }

  method CmdRm(args: seq<string>, state: SessionState) returns (text: string, status: int)
    requires state.Valid()
    modifies state.fs, state.fs.nodes.Values
    ensures state.Valid() && fresh(state.fs.nodes.Values - old(state.fs.nodes.Values))
    ensures Ran(state.Abs(), text, status)
      == RunEach(state.host, RmEach(AnyFlagWith(args, 'f')), Operands(args), old(state.Abs()))
  {
    hide VirtualFS.Valid, FlatOf, RunEach, Operands;
    var force := false;
    var targets: seq<string> := [];
    assert args[0..] == args;
    for i := 0 to |args|
      modifies {}
      invariant targets + Operands(args[i..]) == Operands(args)
      invariant force == AnyFlagWith(args[..i], 'f')
    {
      ArgumentStep(args, i, targets);
      if IsFlag(args[i]) {
        if 'f' in args[i] {
          force := true;
        }
      } else {
        targets := targets + [args[i]];
      }
    }
    assert args[..|args|] == args && args[|args|..] == [] && targets + Operands([]) == targets by { NoOperands(); }
    text, status := DoEach(RmEach(force), targets, state);
  }

  method CmdLs(args: seq<string>, state: SessionState) returns (out: Outcome)
    requires state.Valid()
    ensures Ending(state.Abs(), out) == RunLs(state.host, args, state.Abs())
  {
    hide VirtualFS.Valid, FlatOf, LsOne, LsEach, LsSoFar;
    var opts := ReadLsArguments(args);
    var targets := LsTargets(opts);
    var text, status := "", 0;
    assert targets[0..] == targets;
    ghost var all := LsEach(state.host, opts, targets, state.Abs());
    LsStarts(all);
    for i := 0 to |targets|
      invariant status in {0, 2}
      invariant all == LsSoFar(text, status, LsEach(state.host, opts, targets[i..], state.Abs()))
    {
      LsStep(state.host, opts, targets, i, state.Abs(), text, status);
      var block := LsTarget(opts, targets[i], state);
      if block.StatRaised? {
        return Thrown;
      }
      text := text + block.text;
      if block.missing {
        status := 2;
      }
    }
    LsEnds(state.host, opts, targets, state.Abs(), text, status);
    out := Done(text, status);
  }

  /** What the targets so far have given, followed by what the rest will. */
  ghost function LsSoFar(text: string, status: int, rest: Option<(string, int)>): Option<(string, int)> {
    if rest.None? then None else Some((text + rest.value.0, if status != 0 then 2 else rest.value.1))
  }

  lemma LsStarts(all: Option<(string, int)>)
    ensures LsSoFar("", 0, all) == all
  {
    assert all.Some? ==> "" + all.value.0 == all.value.0;
  }

  lemma LsStep(h: Host, opts: LsOptions, targets: seq<string>, i: nat, s: State, text: string, status: int)
    requires i < |targets| && status in {0, 2}
    ensures var one := LsOne(h, opts, targets[i], s); var rest := LsEach(h, opts, targets[i + 1..], s);
      LsSoFar(text, status, LsEach(h, opts, targets[i..], s))
      == if one.StatRaised? then None
         else LsSoFar(text + one.text, if one.missing then 2 else status, rest)
  {
    hide LsOne;
    assert targets[i..][1..] == targets[i + 1..];
    var one, rest := LsOne(h, opts, targets[i], s), LsEach(h, opts, targets[i + 1..], s);
    if one.Block? && rest.Some? {
      assert text + (one.text + rest.value.0) == text + one.text + rest.value.0;
    }
  }

  lemma LsEnds(h: Host, opts: LsOptions, targets: seq<string>, s: State, text: string, status: int)
    requires status in {0, 2}
    ensures LsSoFar(text, status, LsEach(h, opts, targets[|targets|..], s)) == Some((text, status))
  {
    assert text + "" == text;
  }

  /** The options read so far, followed by what is still to come. */
  ghost function WithMore(opts: LsOptions, more: LsOptions): LsOptions {
    LsOptions(opts.all || more.all, opts.long || more.long, opts.paths + more.paths)
  }

  method ReadLsArguments(args: seq<string>) returns (opts: LsOptions)
    ensures opts == LsArguments(args)
    ensures opts.paths == Operands(args)
    ensures opts.all <==> exists a :: a in args && Arguments.AsksForAll(a)
    ensures opts.long <==> exists a :: a in args && Arguments.AsksForLong(a)
  {
    opts := LsOptions(false, false, []);
    assert args[0..] == args;
    assert [] + LsArguments(args).paths == LsArguments(args).paths;
    for i := 0 to |args|
      invariant WithMore(opts, LsArguments(args[i..])) == LsArguments(args)
    {
      var a := args[i];
      assert args[i..][1..] == args[i + 1..];
      ghost var rest := LsArguments(args[i + 1..]);
      assert opts.paths + ([a] + rest.paths) == opts.paths + [a] + rest.paths;
      if IsFlag(a) && |a| > 1 && a[1] != '-' {
        if 'a' in a {
          opts := opts.(all := true);
        }
        if 'l' in a {
          opts := opts.(long := true);
        }
      } else if a == "--all" {
        opts := opts.(all := true);
      } else if !IsFlag(a) {
        opts := opts.(paths := opts.paths + [a]);
      }
    }
    assert opts.paths + [] == opts.paths;
    Arguments.LsArgumentsAre(args);
  }

  method LsTarget(opts: LsOptions, target: string, state: SessionState) returns (block: Block)
    requires state.Valid()
    ensures block == LsOne(state.host, opts, target, state.Abs())
  {
    hide VirtualFS.Valid, FlatOf, StatEach;
    var abspath := Normalize(target, state.cwd);
    var found := state.fs.Exists(abspath);
    if !found {
      return Block("ls: cannot access '" + target + "': No such file or directory\n", true);
    }
    var isDir := state.fs.IsDir(abspath);
    if !isDir {
      return Block(target + "\n", false);
    }
    var listing := state.fs.ListDir(abspath);
    var names := if opts.all then [".", ".."] + listing.value else listing.value;
    if opts.long {
      var rows := StatRows(abspath, names, state);
      return if rows.None? then StatRaised else Block(state.host.longListing(rows.value), false);
    }
    return Block(if names == [] then "" else Join(names, "  ") + "\n", false);
  }

  /** What `_ls_long` looks up, in order; none at the first `stat` that raises. */
  method StatRows(abspath: string, names: seq<string>, state: SessionState)
    returns (rows: Option<seq<(string, Option<NodeInfo>)>>)
    requires state.Valid()
    ensures rows == StatEach(state.fs.Flat(), abspath, names)
  {
    hide VirtualFS.Valid, FlatOf, Normalize, FlatFs.Stat;
    ghost var all := StatEach(state.fs.Flat(), abspath, names);
    var done: seq<(string, Option<NodeInfo>)> := [];
    assert names[0..] == names;
    assert all.Some? ==> [] + all.value == all.value;
    for i := 0 to |names|
      invariant all == RowsSoFar(done, StatEach(state.fs.Flat(), abspath, names[i..]))
    {
      assert names[i..][1..] == names[i + 1..];
      ghost var rest := StatEach(state.fs.Flat(), abspath, names[i + 1..]);
      var row := (names[i], None);
      if !IsDots(names[i]) {
        var info := state.fs.Stat(Normalize(names[i], abspath));
        if info.Failed? {
          return None;
        }
        row := (names[i], Some(info.value));
      }
      assert rest.Some? ==> done + ([row] + rest.value) == done + [row] + rest.value;
      done := done + [row];
    }
    assert done + [] == done;
    rows := Some(done);
  }

  ghost function RowsSoFar<T>(done: seq<T>, rest: Option<seq<T>>): Option<seq<T>> {
    if rest.None? then None else Some(done + rest.value)
  }

  method Dispatch(handler: Handler, cmd: string, args: seq<string>, state: SessionState) returns (out: Outcome)
    requires state.Valid()
    modifies state, state.fs, state.fs.nodes.Values
    ensures state.Valid() && fresh(state.fs.nodes.Values - old(state.fs.nodes.Values))
    ensures Ending(state.Abs(), out) == RunHandler(state.host, handler, cmd, args, old(state.Abs()))
  {
    hide VirtualFS.Valid, FlatOf, RunEach, RunMkdir, RunLs, RunCd, RunExport, RunEcho;
    if handler == Ls {
      out := CmdLs(args, state);
      return;
    }
    var text, status;
    match handler {
      case Echo => text, status := CmdEcho(args, state);
      case Pwd => text, status := state.cwd + "\n", 0;
      case Whoami => text, status := state.host.username + "\n", 0;
      case Cd => text, status := CmdCd(args, state);
      case Cat => text, status := DoEach(CatEach, Operands(args), state);
      case MakeDir => text, status := CmdMkdir(args, state);
      case Rmdir => text, status := DoEach(RmdirEach, Operands(args), state);
      case Rm => text, status := CmdRm(args, state);
      case Touch => text, status := DoEach(TouchEach, Operands(args), state);
      case Export => text, status := CmdExport(args, state);
      case Canned =>
        var r := state.host.canned(cmd, args, state.env, state.history);
        text, status := r.0, r.1;
    }
    out := Done(text, status);
  }

  // One command

  method ParseLine(command: string, state: SessionState) returns (p: Parsed)
    ensures p == ParseCommand(state.host, command, state.env)
  {
    hide DropSudo, Expansion, SplitOnce;
    var text := command;
    var at := Find(text, "|");
    var piped := at != -1;
    if piped {
      text := StripSpace(SplitOnce(text, "|").0);
    }
    var redirect := None;
    var double := Find(text, ">>");
    var single := Find(text, ">");
    if double != -1 {
      var (cmd, target) := SplitOnce(text, ">>");
      redirect := Some(Redirect(true, StripSpace(target)));
      text := StripSpace(cmd);
    } else if single != -1 {
      var (cmd, target) := SplitOnce(text, ">");
      redirect := Some(Redirect(false, StripSpace(target)));
      text := StripSpace(cmd);
    }
    var words := state.host.shlex(text).GetOr(Words(text));
    words := WithoutSudo(words);
    words := ExpandWords(words, state);
    p := Parsed(words, redirect, piped);
  }

  method WithoutSudo(words: seq<string>) returns (rest: seq<string>)
    ensures rest == DropSudo(words)
    ensures var k := |words| - |rest|;
      && k >= 0 && rest == words[k..]
      && (forall i | 0 <= i < k :: Arguments.IsSudoWord(words[i]))
      && (words != [] && words[0] == "sudo" ==> k > 0 && (rest != [] ==> !Arguments.IsSudoWord(rest[0])))
      && (words != [] && words[0] != "sudo" ==> k == 0)
  {
    hide IsFlag;
    rest := words;
    while rest != [] && rest[0] == "sudo"
      invariant DropSudo(rest) == DropSudo(words)
      decreases |rest|
    {
      rest := rest[1..];
      ghost var afterSudo := rest;
      while rest != [] && IsFlag(rest[0])
        invariant |rest| <= |afterSudo| && DropFlags(rest) == DropFlags(afterSudo)
        decreases |rest|
      {
        rest := rest[1..];
      }
      if rest != [] && rest[0] == "-u" && |rest| > 1 {
        rest := rest[2..];
      }
    }
    Arguments.DropSudoIsExact(words);
  }

  method ExpandWords(words: seq<string>, state: SessionState) returns (expanded: seq<string>)
    ensures expanded == ExpandAll(state.host, words, state.env)
  {
    hide Expansion;
    expanded := [];
    assert words[0..] == words;
    for i := 0 to |words|
      invariant expanded + ExpandAll(state.host, words[i..], state.env) == ExpandAll(state.host, words, state.env)
    {
      assert words[i..][1..] == words[i + 1..];
      var word := ExpandEnv(words[i], state.env, state.host.abc);
      expanded := expanded + [word];
    }
  }

  method ApplyRedirect(to: Redirect, text: string, status: int, state: SessionState)
    returns (text': string, status': int)
    requires state.Valid()
    modifies state.fs, state.fs.nodes.Values
    ensures state.Valid() && fresh(state.fs.nodes.Values - old(state.fs.nodes.Values))
    ensures Ran(state.Abs(), text', status') == Redirected(state.host, to, Ran(old(state.Abs()), text, status))
  {
    hide VirtualFS.Valid, FlatOf, Normalize, FlatFs.WriteFile, FlatFs.Read;
    var abspath := Normalize(to.target, state.cwd);
    var existing := "";
    var found := state.fs.Exists(abspath);
    if to.append && found {
      var content := state.fs.Read(abspath);
      if content.Failed? {
        return RedirectError(to.target, content.error), 1;
      }
      existing := content.value;
    }
    var error := state.fs.WriteFile(abspath, existing + text, state.host.username);
    if error.Some? {
      return RedirectError(to.target, error.value), 1;
    }
    return "", status;
  }

  method RunOneSegment(text: string, state: SessionState) returns (out: Outcome, meta: Meta)
    requires state.Valid()
    modifies state, state.fs, state.fs.nodes.Values
    ensures state.Valid() && fresh(state.fs.nodes.Values - old(state.fs.nodes.Values))
    ensures (Ending(state.Abs(), out), meta) == RunSegment(state.host, text, old(state.Abs()))
  {
    hide VirtualFS.Valid, FlatOf, RunHandler, ParseCommand, Redirected, Basename, HandlerOf;
    var command := StripSpace(text);
    if command == "" {
      return Done("", 0), NO_META;
    }
    var p := ParseLine(command, state);
    meta := Meta(p.piped, None);
    if p.words == [] {
      return Done("", 0), meta;
    }
    var handler := HandlerOf(p.words[0]);
    if handler.None? {
      out := Done(Basename(p.words[0]) + ": command not found\n", 127);
      return out, meta.(unknownCommand := Some(p.words[0]));
    }
    out := Dispatch(handler.value, p.words[0], p.words[1..], state);
    if out.Done? && p.redirect.Some? {
      var output, status := ApplyRedirect(p.redirect.value, out.text, out.status, state);
      out := Done(output, status);
    }
  }

  datatype Result = Result(output: string, status: int, close: bool, meta: Meta) | NoResult

  ghost function Replied(s: State, r: Result): Reply {
    if r.Result? then Reply(s, r.output, r.status, r.close, r.meta) else NoReply(s)
  }

  method RespondSync(commandLine: string, state: SessionState) returns (r: Result)
    requires state.Valid()
    modifies state, state.fs, state.fs.nodes.Values
    ensures state.Valid() && fresh(state.fs.nodes.Values - old(state.fs.nodes.Values))
    ensures Replied(state.Abs(), r) == Respond(state.host, commandLine, old(state.Abs()))
  {
    hide VirtualFS.Valid, FlatOf, RunSegment, RunSegments, SoFar, SplitSequence;
    var line := StripSpace(commandLine);
    if line != "" {
      state.history := state.history + [line];
    }
    if line == "" {
      return Result("", 0, false, NO_META);
    }
    if EndsSession(line) {
      return Result("logout\n", 0, true, NO_META);
    }
    var segments := SplitLine(line);
    var outputs := "";
    var lastStatus := 0;
    var meta := NO_META;
    ghost var goal := RunSegments(state.host, segments, state.Abs(), 0);
    SegmentsStart(segments, goal);
    for i := 0 to |segments|
      invariant state.Valid() && fresh(state.fs.nodes.Values - old(state.fs.nodes.Values))
      invariant goal == SoFar(outputs, meta, RunSegments(state.host, segments[i..], state.Abs(), lastStatus))
    {
      SegmentStep(state.host, segments, i, state.Abs(), lastStatus, outputs, meta);
      if segments[i].sep == "&&" && lastStatus != 0 {
        continue;
      }
      var out, segMeta := RunOneSegment(segments[i].text, state);
      if out.Thrown? {
        return NoResult;
      }
      outputs := outputs + out.text;
      lastStatus := out.status;
      meta := meta.Update(segMeta);
    }
    SegmentsEnd(state.host, segments, state.Abs(), lastStatus, outputs, meta);
    r := Result(outputs, lastStatus, false, meta);
  }

  /** The reply so far, followed by what the remaining segments will add. */
  ghost function SoFar(outputs: string, meta: Meta, rest: Reply): Reply {
    if rest.NoReply? then rest
    else rest.(output := outputs + rest.output, meta := meta.Update(rest.meta))
  }

  lemma SegmentsStart(segments: seq<Segment>, goal: Reply)
    ensures SoFar("", NO_META, goal) == goal && segments[0..] == segments
  {
    assert goal.Reply? ==> "" + goal.output == goal.output;
  }

  lemma SegmentStep(h: Host, segments: seq<Segment>, i: nat, s: State, last: int, outputs: string, meta: Meta)
    requires i < |segments|
    ensures var goal := SoFar(outputs, meta, RunSegments(h, segments[i..], s, last));
      if segments[i].sep == "&&" && last != 0 then
        goal == SoFar(outputs, meta, RunSegments(h, segments[i + 1..], s, last))
      else
        var (ran, more) := RunSegment(h, segments[i].text, s);
        if ran.Raised? then goal == NoReply(ran.state)
        else
          goal == SoFar(outputs + ran.text, meta.Update(more),
                        RunSegments(h, segments[i + 1..], ran.state, ran.status))
  {
    hide RunSegment;
    assert segments[i..][1..] == segments[i + 1..];
    var (ran, more) := RunSegment(h, segments[i].text, s);
    if ran.Ran? {
      var rest := RunSegments(h, segments[i + 1..], ran.state, ran.status);
      assert rest.Reply? ==> outputs + (ran.text + rest.output) == outputs + ran.text + rest.output;
    }
  }

  lemma SegmentsEnd(h: Host, segments: seq<Segment>, s: State, last: int, outputs: string, meta: Meta)
    ensures SoFar(outputs, meta, RunSegments(h, segments[|segments|..], s, last))
      == Reply(s, outputs, last, false, meta)
  {
    assert outputs + "" == outputs;
  }
}
