/** What one simulated shell session does, as functions of its state: the commands that look at or
    change the filesystem, one command with its redirect, and a whole line. `Engine` proves the
    methods of `engine/vanilla.py` against these definitions. */
module Shell {
  import opened Text
  import opened Paths
  import opened FlatFs
  import opened Scanner
  import opened Expand
  import Names

  /** A session as the shell sees it. `env` is the variable table without its display order. */
  datatype State = State(fs: Flat, cwd: string, env: map<string, string>, history: seq<string>)

  /** Everything a session does not change, and the parts of the program this model leaves open:
      the tokenizer (`None` when it raises), the alphabet, the commands whose answers look at no more
      than the variables and the history, and the format of a long listing. */
  datatype Host = Host(
    username: string,
    shlex: string -> Option<seq<string>>,
    abc: Alphabet,
    canned: (string, seq<string>, map<string, string>, seq<string>) -> (string, int),
    longListing: seq<(string, Option<NodeInfo>)> -> string
  )

  /** What a command comes to: a text and a status, or an exception that nothing catches. */
  datatype Ran = Ran(state: State, text: string, status: int) | Raised(state: State)

  /** What a line reports about itself besides its output. */
  datatype Meta = Meta(pipeUnhandled: bool, unknownCommand: Option<string>) {
    /** `meta.update(later)` */
    function Update(later: Meta): Meta {
      Meta(pipeUnhandled || later.pipeUnhandled,
           if later.unknownCommand.Some? then later.unknownCommand else unknownCommand)
    }
  }

  const NO_META := Meta(false, None)

  function ErrnoText(e: VfsError): string {
    match e
    case NoSuchFile => "No such file or directory"
    case NotADirectory => "Not a directory"
    case IsADirectory => "Is a directory"
    case FileExists => "File exists"
    case NotPermitted => "Operation not permitted"
    case NotEmpty => "Directory not empty"
  }

  predicate IsFlag(arg: string) {
    arg != "" && arg[0] == '-'
  }

  function Home(username: string): string {
    if username == "root" then "/root" else "/home/" + username
  }

  /** `SessionState.display_cwd` */
  function DisplayCwd(cwd: string, home: string): string {
    if cwd == home then "~"
    else if home + "/" <= cwd then "~" + cwd[|home|..]
    else cwd
  }

  // Commands that work through their arguments one by one

  datatype Each = MkdirEach(parents: bool) | RmdirEach | RmEach(force: bool) | TouchEach | CatEach

  /** One argument: the new filesystem, the text printed and whether it failed. */
  ghost function RunOne(h: Host, each: Each, target: string, s: State): (r: Ran)
    ensures r.Ran?
  {
    var abspath := Normalize(target, s.cwd);
    match each
    case MkdirEach(parents) =>
      var r := if parents then Makedirs(s.fs, Split(Strip(abspath, IsSlash), '/'), h.username)
               else Mkdir(s.fs, abspath, h.username);
      Failing(s.(fs := r.fs), r.error, "mkdir: cannot create directory '", target)
    case RmdirEach =>
      if !IsDir(s.fs, abspath) then Failing(s, Some(NotADirectory), "rmdir: failed to remove '", target)
      else if Children(s.fs, Parts(abspath)) != {} then Failing(s, Some(NotEmpty), "rmdir: failed to remove '", target)
      else
        var r := Remove(s.fs, abspath);
        Failing(s.(fs := r.fs), r.error, "rmdir: failed to remove '", target)
    case RmEach(force) =>
      var r := Remove(s.fs, abspath);
      Failing(s.(fs := r.fs), if force then None else r.error, "rm: cannot remove '", target)
    case TouchEach =>
      if Exists(s.fs, abspath) then Ran(s, "", 0)
      else
        var r := WriteFile(s.fs, abspath, "", h.username);
        Failing(s.(fs := r.fs), r.error, "touch: cannot touch '", target)
    case CatEach =>
      match Read(s.fs, abspath)
      case Found(content) => Ran(s, WithNewline(content), 0)
      case Failed(e) => Ran(s, "cat: " + target + ": " + ErrnoText(e) + "\n", 1)
  }

  function WithNewline(content: string): string {
    if content == "" || content[|content| - 1] == '\n' then content else content + "\n"
  }

  function Failing(s: State, error: Option<VfsError>, prefix: string, target: string): (r: Ran)
    ensures r.Ran?
  {
    if error.None? then Ran(s, "", 0)
    else Ran(s, prefix + target + "': " + ErrnoText(error.value) + "\n", 1)
  }

  /** All arguments in order. `touch` stops at the first failure and prints only that. */
  ghost function RunEach(h: Host, each: Each, targets: seq<string>, s: State): (r: Ran)
    ensures r.Ran?
  {
    if targets == [] then Ran(s, "", 0)
    else
      var one := RunOne(h, each, targets[0], s);
      if each.TouchEach? && one.status != 0 then one
      else
        var rest := RunEach(h, each, targets[1..], one.state);
        Ran(rest.state, one.text + rest.text, if one.status != 0 then 1 else rest.status)
  }

  function Operands(args: seq<string>): seq<string> {
    if args == [] then [] else (if IsFlag(args[0]) then [] else [args[0]]) + Operands(args[1..])
  }

  /** Some flag among the arguments contains `c`. */
  predicate AnyFlagWith(args: seq<string>, c: char) {
    exists a | a in args :: IsFlag(a) && c in a
  }

  // The other commands

  function RunEcho(args: seq<string>, s: State): (r: Ran)
    ensures r.Ran?
  {
    if args != [] && args[0] == "-n" then Ran(s, Join(args[1..], " "), 0)
    else Ran(s, Join(args, " ") + "\n", 0)
  }

  /** Where `cd` is asked to go, after `-` and `~`. */
  function CdTarget(h: Host, args: seq<string>, s: State): string {
    var home := Home(h.username);
    var first := if args != [] then args[0] else home;
    var target := if first == "-" then (if "OLDPWD" in s.env then s.env["OLDPWD"] else s.cwd) else first;
    if target != "" && target[0] == '~' then home + target[1..] else target
  }

  function RunCd(h: Host, args: seq<string>, s: State): (r: Ran)
    ensures r.Ran?
  {
    var target := CdTarget(h, args, s);
    var abspath := Normalize(target, s.cwd);
    if !Exists(s.fs, abspath) then Ran(s, "bash: cd: " + target + ": No such file or directory\n", 1)
    else if !IsDir(s.fs, abspath) then Ran(s, "bash: cd: " + target + ": Not a directory\n", 1)
    else Ran(s.(cwd := abspath, env := s.env["OLDPWD" := s.cwd]["PWD" := abspath]), "", 0)
  }

  /** `a.partition("=")`, when there is an `=`. */
  function RunExport(args: seq<string>, s: State): (r: Ran)
    ensures r.Ran?
  {
    if args == [] then Ran(s, "", 0)
    else
      var i := IndexFrom(args[0], '=', 0);
      RunExport(args[1..], if i < |args[0]| then s.(env := s.env[args[0][..i] := args[0][i + 1..]]) else s)
  }

  datatype LsOptions = LsOptions(all: bool, long: bool, paths: seq<string>)

  function LsArguments(args: seq<string>): LsOptions {
    if args == [] then LsOptions(false, false, [])
    else
      var a, rest := args[0], LsArguments(args[1..]);
      if IsFlag(a) && |a| > 1 && a[1] != '-' then rest.(all := rest.all || 'a' in a, long := rest.long || 'l' in a)
      else if a == "--all" then rest.(all := true)
      else if IsFlag(a) then rest
      else rest.(paths := [a] + rest.paths)
  }

  predicate IsDots(name: string) {
    name == "." || name == ".."
  }

  /** What a long listing finds for each name; none if a `stat` raises. It looks up no dots. */
  ghost function StatEach(m: Flat, abspath: string, names: seq<string>): Option<seq<(string, Option<NodeInfo>)>> {
    if names == [] then Some([])
    else if IsDots(names[0]) then Prepend((names[0], None), StatEach(m, abspath, names[1..]))
    else
      match Stat(m, Normalize(names[0], abspath))
      case Failed(_) => None
      case Found(info) => Prepend((names[0], Some(info)), StatEach(m, abspath, names[1..]))
  }

  function Prepend<T>(x: T, rest: Option<seq<T>>): Option<seq<T>> {
    if rest.None? then None else Some([x] + rest.value)
  }

  /** One block of `ls` output, and whether the path was missing; or the exception of a `stat`. */
  datatype Block = Block(text: string, missing: bool) | StatRaised

  ghost function LsOne(h: Host, opts: LsOptions, target: string, s: State): Block {
    var abspath := Normalize(target, s.cwd);
    if !Exists(s.fs, abspath) then Block("ls: cannot access '" + target + "': No such file or directory\n", true)
    else if !IsDir(s.fs, abspath) then Block(target + "\n", false)
    else
      var listed := Names.Listing(Children(s.fs, Parts(abspath)));
      var names := if opts.all then [".", ".."] + listed else listed;
      if opts.long then
        var rows := StatEach(s.fs, abspath, names);
        if rows.None? then StatRaised else Block(h.longListing(rows.value), false)
      else Block(if names == [] then "" else Join(names, "  ") + "\n", false)
  }

  /** All blocks and the status; none as soon as one raises. */
  ghost function LsEach(h: Host, opts: LsOptions, targets: seq<string>, s: State): Option<(string, int)> {
    if targets == [] then Some(("", 0))
    else
      var one := LsOne(h, opts, targets[0], s);
      var rest := LsEach(h, opts, targets[1..], s);
      if one.StatRaised? || rest.None? then None
      else Some((one.text + rest.value.0, if one.missing then 2 else rest.value.1))
  }

  function LsTargets(opts: LsOptions): seq<string> {
    if opts.paths == [] then ["."] else opts.paths
  }

  ghost function RunLs(h: Host, args: seq<string>, s: State): Ran {
    var opts := LsArguments(args);
    var all := LsEach(h, opts, LsTargets(opts), s);
    if all.None? then Raised(s) else Ran(s, all.value.0, all.value.1)
  }

  ghost function RunMkdir(h: Host, args: seq<string>, s: State): (r: Ran)
    ensures r.Ran?
  {
    var parents := "-p" in args || "--parents" in args;
    if Operands(args) == [] then Ran(s, "mkdir: missing operand\n", 1)
    else RunEach(h, MkdirEach(parents), Operands(args), s)
  }

  // Dispatch

  datatype Handler = Echo | Pwd | Whoami | Ls | Cd | Cat | MakeDir | Rmdir | Rm | Touch | Export | Canned

  const CANNED: seq<string> := [
    "id", "hostname", "uname", "env", "printenv", "set", "which", "history", "clear", "ps",
    "uptime", "w", "who", "free", "df", "wget", "curl"]

  /** The handler table. */
  function HandlerOf(cmd: string): Option<Handler> {
    if cmd == "echo" then Some(Echo)
    else if cmd == "pwd" then Some(Pwd)
    else if cmd == "whoami" then Some(Whoami)
    else if cmd == "ls" || cmd == "dir" then Some(Ls)
    else if cmd == "cd" then Some(Cd)
    else if cmd == "cat" then Some(Cat)
    else if cmd == "mkdir" then Some(MakeDir)
    else if cmd == "rmdir" then Some(Rmdir)
    else if cmd == "rm" then Some(Rm)
    else if cmd == "touch" then Some(Touch)
    else if cmd == "export" then Some(Export)
    else if cmd in CANNED then Some(Canned)
    else None
  }

  ghost function RunHandler(h: Host, handler: Handler, cmd: string, args: seq<string>, s: State): (r: Ran)
    ensures handler != Ls ==> r.Ran?
  {
    match handler
    case Echo => RunEcho(args, s)
    case Pwd => Ran(s, s.cwd + "\n", 0)
    case Whoami => Ran(s, h.username + "\n", 0)
    case Ls => RunLs(h, args, s)
    case Cd => RunCd(h, args, s)
    case Cat => RunEach(h, CatEach, Operands(args), s)
    case MakeDir => RunMkdir(h, args, s)
    case Rmdir => RunEach(h, RmdirEach, Operands(args), s)
    case Rm => RunEach(h, RmEach(AnyFlagWith(args, 'f')), Operands(args), s)
    case Touch => RunEach(h, TouchEach, Operands(args), s)
    case Export => RunExport(args, s)
    case Canned => var (text, status) := h.canned(cmd, args, s.env, s.history); Ran(s, text, status)
  }

  // One command

  datatype Redirect = Redirect(append: bool, target: string)

  /** A command cut into what will be run: its pipe and redirect taken off, its words, `sudo` gone,
      variables expanded. No words means there is nothing to run. */
  datatype Parsed = Parsed(words: seq<string>, redirect: Option<Redirect>, piped: bool)

  function DropFlags(words: seq<string>): seq<string> {
    if words != [] && IsFlag(words[0]) then DropFlags(words[1..]) else words
  }

  /** A `-u` and its argument. */
  function DropUser(words: seq<string>): seq<string> {
    if |words| > 1 && words[0] == "-u" then words[2..] else words
  }

  /** A leading `sudo` and its options, as the loop takes them off. */
  function DropSudo(words: seq<string>): seq<string>
    decreases |words|
  {
    if words != [] && words[0] == "sudo" then
      DropFlagsShrinks(words[1..]);
      DropSudo(DropUser(DropFlags(words[1..])))
    else words
  }

  lemma {:induction false} DropFlagsShrinks(words: seq<string>)
    ensures |DropFlags(words)| <= |words|
  {
    if words != [] && IsFlag(words[0]) {
      DropFlagsShrinks(words[1..]);
    }
  }

  function ExpandAll(h: Host, words: seq<string>, env: map<string, string>): seq<string> {
    if words == [] then [] else [Expansion(words[0], env, h.abc)] + ExpandAll(h, words[1..], env)
  }

  function TakeRedirect(command: string): (string, Option<Redirect>) {
    if HasTopLevel(command, ">>") then
      var (cmd, target) := SplitOnce(command, ">>");
      (StripSpace(cmd), Some(Redirect(true, StripSpace(target))))
    else if HasTopLevel(command, ">") then
      var (cmd, target) := SplitOnce(command, ">");
      (StripSpace(cmd), Some(Redirect(false, StripSpace(target))))
    else (command, None)
  }

  function ParseCommand(h: Host, command: string, env: map<string, string>): Parsed {
    var piped := HasTopLevel(command, "|");
    var stage := if piped then StripSpace(SplitOnce(command, "|").0) else command;
    var (text, redirect) := TakeRedirect(stage);
    var words := h.shlex(text).GetOr(Words(text));
    Parsed(ExpandAll(h, DropSudo(words), env), redirect, piped)
  }

  /** What a redirect does with the output of a command that has run. */
  ghost function Redirected(h: Host, to: Redirect, ran: Ran): (r: Ran)
    requires ran.Ran?
    ensures r.Ran?
  {
    var s := ran.state;
    var abspath := Normalize(to.target, s.cwd);
    var before := if to.append && Exists(s.fs, abspath) then Read(s.fs, abspath) else Found("");
    if before.Failed? then Ran(s, RedirectError(to.target, before.error), 1)
    else
      var r := WriteFile(s.fs, abspath, before.value + ran.text, h.username);
      if r.error.None? then Ran(s.(fs := r.fs), "", ran.status)
      else Ran(s.(fs := r.fs), RedirectError(to.target, r.error.value), 1)
  }

  function RedirectError(target: string, e: VfsError): string {
    "bash: " + target + ": " + ErrnoText(e) + "\n"
  }

  /** `_basename` */
  function Basename(cmd: string): string {
    cmd[LastSlash(cmd) + 1..]
  }

  ghost function RunParsed(h: Host, p: Parsed, s: State): (Ran, Meta) {
    var meta := Meta(p.piped, None);
    if p.words == [] then (Ran(s, "", 0), meta)
    else
      var handler := HandlerOf(p.words[0]);
      if handler.None? then
        (Ran(s, Basename(p.words[0]) + ": command not found\n", 127), meta.(unknownCommand := Some(p.words[0])))
      else
        var ran := RunHandler(h, handler.value, p.words[0], p.words[1..], s);
        (if ran.Raised? || p.redirect.None? then ran else Redirected(h, p.redirect.value, ran), meta)
  }

  /** `_run_segment` */
  ghost function RunSegment(h: Host, text: string, s: State): (Ran, Meta) {
    var command := StripSpace(text);
    if command == "" then (Ran(s, "", 0), NO_META)
    else RunParsed(h, ParseCommand(h, command, s.env), s)
  }

  // A line

  /** The reply to a line, or the exception that takes its place. */
  datatype Reply =
    | Reply(state: State, output: string, status: int, close: bool, meta: Meta)
    | NoReply(state: State)
  {
    /** No further line is read. */
    predicate Over() {
      NoReply? || close
    }
  }

  /** The reply to two parts of a line, the second run in the state the first left. */
  function Then(a: Reply, b: Reply): Reply {
    if a.NoReply? then a
    else if b.NoReply? then b
    else b.(output := a.output + b.output, meta := a.meta.Update(b.meta))
  }

  function ReplyOf(ran: Ran, meta: Meta): Reply {
    if ran.Raised? then NoReply(ran.state) else Reply(ran.state, ran.text, ran.status, false, meta)
  }

  /** The loop over the segments, `last` being the status of the command that ran last. */
  ghost function RunSegments(h: Host, segs: seq<Segment>, s: State, last: int): Reply {
    if segs == [] then Reply(s, "", last, false, NO_META)
    else if segs[0].sep == "&&" && last != 0 then RunSegments(h, segs[1..], s, last)
    else
      var (ran, meta) := RunSegment(h, segs[0].text, s);
      if ran.Raised? then NoReply(ran.state)
      else Then(ReplyOf(ran, meta), RunSegments(h, segs[1..], ran.state, ran.status))
  }

  predicate EndsSession(line: string) {
    var ws := Words(line);
    ws != [] && (ws[0] == "exit" || ws[0] == "logout" || ws[0] == "quit")
  }

  /** `_respond_sync` */
  ghost function Respond(h: Host, commandLine: string, s: State): Reply {
    var line := StripSpace(commandLine);
    if line == "" then Reply(s, "", 0, false, NO_META)
    else
      var s' := s.(history := s.history + [line]);
      if EndsSession(line) then Reply(s', "logout\n", 0, true, NO_META)
      else RunSegments(h, SplitSequence(line), s', 0)
  }

  lemma OneSegmentReply(h: Host, text: string, s: State)
    ensures var (ran, meta) := RunSegment(h, text, s);
      RunSegments(h, [Segment("", text)], s, 0) == ReplyOf(ran, meta)
  {
    hide RunSegment;
    var (ran, meta) := RunSegment(h, text, s);
    assert [Segment("", text)][1..] == [];
    assert ran.Ran? ==> ran.text + "" == ran.text;
  }
}
