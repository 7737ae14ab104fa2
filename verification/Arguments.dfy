/** What the shell makes of the words of a command: plain tokens, `sudo` and its options, the flags of
    `ls`, the text of `echo` and the assignments of `export`. */
module Arguments {
  import opened Text
  import opened Scanner
  import opened Expand
  import opened Shell

  // A command without operators

  lemma OperatorIsThere(s: string, op: string)
    requires op != ""
    ensures HasTopLevel(s, op) ==> op[0] in s
  {
    if HasTopLevel(s, op) {
      assert s[FindTopLevel(s, op)..][0] == op[0];
    }
  }

  function Tokens(h: Host, command: string): seq<string> {
    h.shlex(command).GetOr(Text.Words(command))
  }

  lemma {:induction false} ExpandPlain(h: Host, words: seq<string>, env: map<string, string>)
    requires forall w | w in words :: '$' !in w
    ensures ExpandAll(h, words, env) == words
  {
    if words != [] {
      NoDollarNoChange(words[0], env, h.abc);
      ExpandPlain(h, words[1..], env);
      assert words == [words[0]] + words[1..];
    }
  }

  lemma {:induction false} WordsAreExpanded(h: Host, words: seq<string>, env: map<string, string>)
    ensures |ExpandAll(h, words, env)| == |words|
    ensures forall i | 0 <= i < |words| :: ExpandAll(h, words, env)[i] == Expansion(words[i], env, h.abc)
  {
    hide Expansion;
    if words != [] {
      WordsAreExpanded(h, words[1..], env);
    }
  }

  /** Without a pipe or a redirect nothing of a command is lost but a leading `sudo`; without that and
      without variables either, its tokens are run as they are. */
  lemma PlainCommand(h: Host, command: string, env: map<string, string>)
    requires '|' !in command && '>' !in command
    ensures var tokens := Tokens(h, command);
      && ParseCommand(h, command, env) == Parsed(ExpandAll(h, DropSudo(tokens), env), None, false)
      && ((tokens == [] || tokens[0] != "sudo") && (forall t | t in tokens :: '$' !in t) ==>
            ParseCommand(h, command, env) == Parsed(tokens, None, false))
  {
    hide SplitOnce;
    OperatorIsThere(command, "|");
    OperatorIsThere(command, ">>");
    OperatorIsThere(command, ">");
    var tokens := Tokens(h, command);
    if forall t | t in tokens :: '$' !in t {
      ExpandPlain(h, tokens, env);
    }
  }

  /** A redirect target is the text of the line: neither the tokenizer nor the variables have a say. */
  lemma RedirectTargetIsRaw(h: Host, h': Host, command: string, env: map<string, string>, env': map<string, string>)
    ensures ParseCommand(h, command, env).redirect == ParseCommand(h', command, env').redirect
    ensures ParseCommand(h, command, env).piped <==> HasTopLevel(command, "|")
  {
  }

  // Pipes and redirects

  lemma OneCharacterAt(s: string, c: char, i: int)
    requires 0 <= i < |s|
    ensures TopLevelAt(s, [c], i) <==> s[i] == c && !Flags(s, None)[i]
  {
    hide Flags;
    assert s[i..][0] == s[i];
  }

  lemma OneCharacterOperator(s: string, c: char)
    ensures !HasTopLevel(s, [c]) <==> forall i | 0 <= i < |s| :: s[i] == c ==> Flags(s, None)[i]
  {
    hide Flags, FindTopLevelFrom;
    forall i | 0 <= i < |s| ensures TopLevelAt(s, [c], i) <==> s[i] == c && !Flags(s, None)[i] {
      OneCharacterAt(s, c, i);
    }
  }

  /** None of the operators stands outside quotes. */
  ghost predicate IsOneStage(s: string) {
    !HasTopLevel(s, "|") && !HasTopLevel(s, ">")
  }

  lemma PlainTextIsOneStage(s: string)
    requires forall c | c in s :: c !in {'|', '>', '\'', '\"'}
    ensures IsOneStage(s) && QuoteAfter(s, None).None?
  {
    OperatorIsThere(s, "|");
    OperatorIsThere(s, ">");
    PlainFlags(s);
  }

  /** An operator after closed quotes is outside quotes, and both sides keep their own flags. */
  lemma AroundOperator(a: string, op: string, t: string)
    requires QuoteAfter(a, None).None? && (op == "|" || op == ">" || op == ">>")
    ensures var s := a + op + t; var flags := Flags(s, None); var n := |a| + |op|;
      && (forall i | 0 <= i < |a| :: s[i] == a[i] && flags[i] == Flags(a, None)[i])
      && (forall i | |a| <= i < n :: s[i] == op[i - |a|] && !flags[i])
      && (forall i | n <= i < |s| :: s[i] == t[i - n] && flags[i] == Flags(t, None)[i - n])
  {
    hide Flags, QuoteAfter;
    assert a + op + t == a + (op + t);
    FlagsAppend(a, op + t, None);
    FlagsAppend(op, t, None);
    PlainFlags(op);
  }

  lemma NoPipeAround(a: string, op: string, t: string)
    requires (op == ">" || op == ">>") && QuoteAfter(a, None).None? && IsOneStage(a) && IsOneStage(t)
    ensures !HasTopLevel(a + op + t, "|")
  {
    hide Flags, QuoteAfter, FindTopLevel;
    AroundOperator(a, op, t);
    OneCharacterOperator(a, '|');
    OneCharacterOperator(t, '|');
    OneCharacterOperator(a + op + t, '|');
  }

  lemma ArrowsAre(a: string, op: string, t: string)
    requires (op == ">" || op == ">>") && QuoteAfter(a, None).None? && IsOneStage(a) && IsOneStage(t)
    ensures var s := a + op + t;
      forall i | 0 <= i < |s| :: s[i] == '>' && !Flags(s, None)[i] <==> |a| <= i < |a| + |op|
  {
    hide Flags, QuoteAfter, FindTopLevel;
    AroundOperator(a, op, t);
    OneCharacterOperator(a, '>');
    OneCharacterOperator(t, '>');
  }

  lemma FirstArrow(a: string, op: string, t: string)
    requires (op == ">" || op == ">>") && QuoteAfter(a, None).None? && IsOneStage(a) && IsOneStage(t)
    ensures FindTopLevel(a + op + t, op) == |a|
    ensures op == ">" ==> !HasTopLevel(a + op + t, ">>")
  {
    hide Flags, QuoteAfter, FindTopLevelFrom, IsOneStage;
    var s := a + op + t;
    ArrowsAre(a, op, t);
    assert TopLevelAt(s, op, |a|) by {
      assert s[|a|..][..|op|] == op;
    }
    forall i, o | 0 <= i < |s| && (o == ">" || o == ">>") && TopLevelAt(s, o, i)
      ensures |a| <= i <= |a| + |op| - |o|
    {
      assert s[i..][0] == s[i] && s[i..][|o| - 1] == s[i + |o| - 1];
    }
  }

  /** What stands in front of the first `>>` outside quotes runs, or of the first `>` if there is none, and all
      behind it is the target; two arrows append. */
  lemma FirstRedirectCounts(h: Host, a: string, op: string, t: string, env: map<string, string>)
    requires op == ">>" || (op == ">" && !HasTopLevel(a + op + t, ">>"))
    requires FindTopLevel(a + op + t, op) == |a| && !HasTopLevel(a + op + t, "|")
    ensures ParseCommand(h, a + op + t, env) ==
      Parsed(ExpandAll(h, DropSudo(Tokens(h, StripSpace(a))), env), Some(Redirect(op == ">>", StripSpace(t))), false)
  {
    hide StripSpace, FindTopLevel, DropSudo, ExpandAll;
    var s := a + op + t;
    assert s[..|a|] == a && s[|a| + |op|..] == t;
  }

  /** A command in front of a redirect runs, and what stands behind it is the target. */
  lemma RedirectIsCut(h: Host, a: string, op: string, t: string, env: map<string, string>)
    requires op == ">" || op == ">>"
    requires IsOneStage(a) && QuoteAfter(a, None).None? && IsOneStage(t)
    ensures ParseCommand(h, a + op + t, env) ==
      Parsed(ExpandAll(h, DropSudo(Tokens(h, StripSpace(a))), env), Some(Redirect(op == ">>", StripSpace(t))), false)
  {
    hide StripSpace, FindTopLevel, ParseCommand, IsOneStage, QuoteAfter, DropSudo, ExpandAll;
    NoPipeAround(a, op, t);
    FirstArrow(a, op, t);
    FirstRedirectCounts(h, a, op, t, env);
  }

  lemma QuotesOfBlanks(x: string)
    requires forall c | c in x :: IsSpace(c)
    ensures QuoteAfter(x, None).None?
  {
    PlainFlags(x);
  }

  /** Blanks around a text hide no operator. */
  lemma StripKeepsOperators(s: string, op: string)
    requires op != ""
    ensures HasTopLevel(StripSpace(s), op) ==> HasTopLevel(s, op)
  {
    hide QuoteAfter, Flags, FindTopLevelFrom;
    LStripFacts(s, IsSpace);
    var l := LStrip(s, IsSpace);
    RStripFacts(l, IsSpace);
    var m := StripSpace(s);
    var n := |s| - |l|;
    var x, y := s[..n], l[|m|..];
    assert s == x + (m + y) && m == l[..|m|];
    QuotesOfBlanks(x);
    FlagsAppend(x, m + y, None);
    FlagsAppend(m, y, None);
    var i := FindTopLevel(m, op);
    if i >= 0 {
      assert s[n + i..][..|op|] == m[i..][..|op|];
      forall k | n + i <= k < n + i + |op| ensures !Flags(s, None)[k] {
        assert Flags(s, None)[k] == Flags(m, None)[k - n];
      }
      assert TopLevelAt(s, op, n + i);
    }
  }

  /** What stands before the first pipe is all that runs. */
  lemma OnlyTheFirstStageRuns(h: Host, a: string, t: string, env: map<string, string>)
    requires !HasTopLevel(a, "|") && QuoteAfter(a, None).None?
    ensures ParseCommand(h, a + "|" + t, env) == ParseCommand(h, StripSpace(a), env).(piped := true)
  {
    hide StripSpace, Flags, QuoteAfter, FindTopLevelFrom, TakeRedirect, DropSudo, ExpandAll;
    var s := a + "|" + t;
    AroundOperator(a, "|", t);
    OneCharacterOperator(a, '|');
    StripKeepsOperators(a, "|");
    OneCharacterAt(s, '|', |a|);
    forall i | 0 <= i < |a| ensures !TopLevelAt(s, "|", i) {
      OneCharacterAt(s, '|', i);
    }
    assert s[..|a|] == a;
  }

  // sudo

  lemma {:induction false} DropFlagsFacts(words: seq<string>)
    ensures var rest := DropFlags(words); var k := |words| - |rest|;
      && k >= 0 && rest == words[k..]
      && (forall i | 0 <= i < k :: IsFlag(words[i]))
      && (rest != [] ==> !IsFlag(rest[0]))
  {
    if words != [] && IsFlag(words[0]) {
      DropFlagsFacts(words[1..]);
      var k := |words| - |DropFlags(words)|;
      forall i | 0 <= i < k ensures IsFlag(words[i]) {
        assert i > 0 ==> words[i] == words[1..][i - 1];
      }
      assert words[1..][k - 1..] == words[k..];
    }
  }

  /** Once the flags are gone no `-u` is left in front: that branch never does anything. */
  lemma UserOptionIsNeverSeen(words: seq<string>)
    ensures DropUser(DropFlags(words)) == DropFlags(words)
  {
    DropFlagsFacts(words);
    var rest := DropFlags(words);
    assert IsFlag("-u");
  }

  predicate IsSudoWord(word: string) {
    word == "sudo" || IsFlag(word)
  }

  lemma SuffixOfSuffix(words: seq<string>, flagless: seq<string>, rest: seq<string>)
    requires |rest| <= |flagless| < |words|
    requires flagless == words[1..][|words| - 1 - |flagless|..] && rest == flagless[|flagless| - |rest|..]
    requires IsSudoWord(words[0])
    requires forall i | 0 <= i < |words| - 1 - |flagless| :: IsFlag(words[1..][i])
    requires forall i | 0 <= i < |flagless| - |rest| :: IsSudoWord(flagless[i])
    ensures rest == words[|words| - |rest|..]
    ensures forall i | 0 <= i < |words| - |rest| :: IsSudoWord(words[i])
  {
    hide IsFlag;
    var j := |words| - |flagless|;
    assert flagless == words[j..];
    forall i | 0 <= i < |words| - |rest| ensures IsSudoWord(words[i]) {
      assert 0 < i < j ==> words[i] == words[1..][i - 1];
      assert i >= j ==> words[i] == flagless[i - j];
    }
  }

  /** What is left of a command is a suffix of it: all of it unless it begins with `sudo`, and then what
      follows the longest run of `sudo` and flags. */
  lemma {:induction false} DropSudoIsExact(words: seq<string>)
    ensures var rest := DropSudo(words); var k := |words| - |rest|;
      && k >= 0 && rest == words[k..]
      && (forall i | 0 <= i < k :: IsSudoWord(words[i]))
      && (words != [] && words[0] == "sudo" ==> k > 0 && (rest != [] ==> !IsSudoWord(rest[0])))
      && (words != [] && words[0] != "sudo" ==> k == 0)
    decreases |words|
  {
    if words != [] && words[0] == "sudo" {
      var flagless := DropFlags(words[1..]);
      DropFlagsFacts(words[1..]);
      UserOptionIsNeverSeen(words[1..]);
      DropSudoIsExact(flagless);
      hide DropFlags, IsFlag;
      SuffixOfSuffix(words, flagless, DropSudo(flagless));
    } else {
      assert words[0..] == words;
    }
  }

  /** The words after the options, where a `-u` takes the next word along, as the branch meant it. */
  function AfterOptions(words: seq<string>): (rest: seq<string>)
    ensures |rest| <= |words|
    decreases |words|
  {
    if words == [] || !IsFlag(words[0]) then words
    else if words[0] == "-u" && |words| > 1 then AfterOptions(words[2..])
    else AfterOptions(words[1..])
  }

  function AfterSudo(words: seq<string>): (rest: seq<string>)
    ensures |rest| <= |words|
    decreases |words|
  {
    if words != [] && words[0] == "sudo" then AfterSudo(AfterOptions(words[1..])) else words
  }

  /** The first user that a `-u` names with a word that is no flag. */
  function NamedUser(words: seq<string>): Option<string>
    decreases |words|
  {
    if words == [] || !IsFlag(words[0]) then None
    else if words[0] == "-u" && |words| > 1 then
      if IsFlag(words[1]) then NamedUser(words[2..]) else Some(words[1])
    else NamedUser(words[1..])
  }

  /** No leading `sudo` is given a user, or none but one called "sudo". */
  predicate NamesNoUser(words: seq<string>)
    decreases |words|
  {
    if words == [] || words[0] != "sudo" then true
    else
      DropFlagsShrinks(words[1..]);
      NamedUser(words[1..]).GetOr("sudo") == "sudo" && NamesNoUser(DropFlags(words[1..]))
  }

  lemma {:induction false} FlagsAgainstOptions(words: seq<string>)
    ensures NamedUser(words).None? ==> AfterOptions(words) == DropFlags(words)
    ensures NamedUser(words).Some? ==> var rest := DropFlags(words);
      rest != [] && rest[0] == NamedUser(words).value && AfterOptions(words) == AfterOptions(rest[1..])
    decreases |words|
  {
    if words != [] && IsFlag(words[0]) {
      if words[0] == "-u" && |words| > 1 {
        assert words[1..][1..] == words[2..] && words[1..][0] == words[1];
        if IsFlag(words[1]) {
          FlagsAgainstOptions(words[2..]);
          assert DropFlags(words) == DropFlags(words[1..]) == DropFlags(words[2..]);
        } else {
          assert DropFlags(words) == DropFlags(words[1..]) == words[1..];
        }
      } else {
        FlagsAgainstOptions(words[1..]);
      }
    }
  }

  /** A `sudo` line runs the words after its options exactly when it names no user. */
  lemma {:induction false} SudoRunsWhatFollows(words: seq<string>)
    ensures DropSudo(words) == AfterSudo(words) <==> NamesNoUser(words)
    decreases |words|
  {
    if words != [] && words[0] == "sudo" {
      var options := words[1..];
      var rest := DropFlags(options);
      UserOptionIsNeverSeen(options);
      FlagsAgainstOptions(options);
      DropFlagsShrinks(options);
      SudoRunsWhatFollows(rest);
    }
  }

  const SUDO_LINE: seq<string> := ["sudo", "-u", "root", "ls"]

  lemma SudoLineIsCut()
    ensures DropSudo(SUDO_LINE) == ["root", "ls"] && AfterSudo(SUDO_LINE) == ["ls"]
  {
    var options := ["-u", "root", "ls"];
    assert SUDO_LINE[1..] == options && options[2..] == ["ls"] && options[1..] == ["root", "ls"];
    assert IsFlag("-u") && !IsFlag("root") && !IsFlag("ls");
    assert DropFlags(options) == DropFlags(["root", "ls"]) == ["root", "ls"];
    UserOptionIsNeverSeen(options);
    assert AfterOptions(options) == AfterOptions(["ls"]) == ["ls"];
  }

  /** So `sudo -u root ls` runs `root`. */
  lemma SudoUserIsRun(h: Host, command: string, s: State)
    requires command != "" && StripSpace(command) == command && '|' !in command && '>' !in command
    requires Tokens(h, command) == SUDO_LINE
    ensures AfterSudo(Tokens(h, command)) == ["ls"]
    ensures RunSegment(h, command, s) == (Ran(s, "root: command not found\n", 127), Meta(false, Some("root")))
  {
    hide StripSpace, DropSudo, AfterSudo, ParseCommand, ExpandAll, RunParsed, HandlerOf;
    SudoLineIsCut();
    PlainCommand(h, command, s.env);
    ExpandPlain(h, ["root", "ls"], s.env);
    RootIsNoCommand(h, s);
  }

  lemma RootHasNoHandler()
    ensures HandlerOf("root") == None
  {
    assert |"root"| == 4 && "root"[0] == 'r' && "root"[1] == 'o';
  }

  lemma RootIsNoCommand(h: Host, s: State)
    ensures RunParsed(h, Parsed(["root", "ls"], None, false), s)
      == (Ran(s, "root: command not found\n", 127), Meta(false, Some("root")))
  {
    hide RunHandler, Redirected, Basename, HandlerOf;
    RootHasNoHandler();
    NoSlash("root");
    assert "root" + ": command not found\n" == "root: command not found\n";
  }

  lemma NoSlash(cmd: string)
    requires '/' !in cmd
    ensures Basename(cmd) == cmd
  {
  }

  // ls

  predicate IsFlagGroup(arg: string) {
    IsFlag(arg) && |arg| > 1 && arg[1] != '-'
  }

  predicate AsksForAll(arg: string) {
    (IsFlagGroup(arg) && 'a' in arg) || arg == "--all"
  }

  predicate AsksForLong(arg: string) {
    IsFlagGroup(arg) && 'l' in arg
  }

  /** What `ls` takes from its arguments, wherever they stand. */
  lemma {:induction false} LsArgumentsAre(args: seq<string>)
    ensures var opts := LsArguments(args);
      && opts.paths == Operands(args)
      && (opts.all <==> exists a :: a in args && AsksForAll(a))
      && (opts.long <==> exists a :: a in args && AsksForLong(a))
  {
    if args != [] {
      LsArgumentsAre(args[1..]);
      var opts, rest := LsArguments(args), LsArguments(args[1..]);
      assert IsFlag("--all") && !IsFlagGroup("--all");
      assert [] + Operands(args[1..]) == Operands(args[1..]);
      assert opts.all <==> AsksForAll(args[0]) || rest.all;
      assert opts.long <==> AsksForLong(args[0]) || rest.long;
      hide AsksForAll, AsksForLong, LsArguments, Operands;
      assert forall a :: a in args <==> a == args[0] || a in args[1..];
    }
  }

  // echo

  function Printed(args: seq<string>): seq<string> {
    if args != [] && args[0] == "-n" then args[1..] else args
  }

  /** The text without its newline. */
  function EchoLine(args: seq<string>, text: string): string {
    if Printed(args) == args && text != "" then text[..|text| - 1] else text
  }

  /** Words without blanks can be read off what `echo` prints. */
  lemma EchoKeepsWords(args: seq<string>, s: State)
    requires Printed(args) != [] && forall w | w in Printed(args) :: ' ' !in w
    ensures var ran := RunEcho(args, s);
      && ran.state == s && ran.status == 0
      && Split(EchoLine(args, ran.text), ' ') == Printed(args)
      && (Printed(args) == args ==> ran.text[|ran.text| - 1] == '\n')
  {
    var words := Printed(args);
    SplitJoin(words, ' ');
    var line := Join(words, " ");
    assert (line + "\n")[..|line|] == line;
    assert |words| < |args| ==> words != args;
  }

  // export

  predicate Assigns(arg: string, name: string) {
    '=' !in name && name + "=" <= arg
  }

  function LastAssigned(args: seq<string>, name: string): Option<string> {
    if args == [] then None
    else
      var later := LastAssigned(args[1..], name);
      if later.Some? then later
      else if Assigns(args[0], name) then Some(args[0][|name| + 1..])
      else None
  }

  function ValueIn(env: map<string, string>, name: string): Option<string> {
    if name in env then Some(env[name]) else None
  }

  lemma InPrefix(s: string, n: nat)
    requires n <= |s|
    ensures forall j | 0 <= j < n :: s[j] in s[..n]
  {
    forall j | 0 <= j < n ensures s[j] in s[..n] {
      assert s[..n][j] == s[j];
    }
  }

  lemma AssignmentIs(arg: string, name: string)
    ensures var i := IndexFrom(arg, '=', 0);
      && (Assigns(arg, name) <==> i < |arg| && arg[..i] == name)
      && (Assigns(arg, name) ==> i == |name|)
  {
    var i := IndexFrom(arg, '=', 0);
    IndexFromIsFirst(arg, '=', 0);
    assert arg[0..i] == arg[..i];
    InPrefix(arg, i);
    if Assigns(arg, name) {
      assert arg[|name|] == (name + "=")[|name|] == '=';
      assert arg[..|name|] == name;
      InPrefix(arg, |name|);
    }
    if i < |arg| && arg[..i] == name {
      assert name + "=" == arg[..i + 1];
    }
  }

  /** `export` sets each variable to what the last argument for it says and leaves the others alone. */
  lemma {:induction false} ExportAssigns(args: seq<string>, s: State, name: string)
    ensures var ran := RunExport(args, s); var last := LastAssigned(args, name);
      && ran.state == s.(env := ran.state.env) && ran.text == "" && ran.status == 0
      && ValueIn(ran.state.env, name) == if last.Some? then last else ValueIn(s.env, name)
    decreases |args|
  {
    if args != [] {
      var i := IndexFrom(args[0], '=', 0);
      AssignmentIs(args[0], name);
      ExportAssigns(args[1..], if i < |args[0]| then s.(env := s.env[args[0][..i] := args[0][i + 1..]]) else s, name);
    }
  }
}
