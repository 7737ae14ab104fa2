/** When a long listing raises, and what that does to a line. */
module Listing {
  import opened Text
  import opened Paths
  import opened FlatFs
  import opened Scanner
  import opened Shell
  import opened Session
  import opened Arguments
  import Names

  ghost predicate StatRaises(m: Flat, abspath: string, name: string) {
    !IsDots(name) && Stat(m, Normalize(name, abspath)).Failed?
  }

  lemma {:induction false} StatEachRaises(m: Flat, abspath: string, names: seq<string>)
    ensures StatEach(m, abspath, names).None? <==> exists n :: n in names && StatRaises(m, abspath, n)
  {
    hide Stat, Normalize;
    if names != [] {
      StatEachRaises(m, abspath, names[1..]);
      assert StatEach(m, abspath, names).None? <==>
        StatRaises(m, abspath, names[0]) || StatEach(m, abspath, names[1..]).None?;
      hide StatRaises, StatEach;
      assert forall n :: n in names <==> n == names[0] || n in names[1..];
    }
  }

  /** A listed name is looked up where the directory lexically is; the empty name stands for the directory. */
  lemma StatOfChild(m: Flat, abspath: string, name: string)
    requires Absolute(abspath) && Parts(abspath) in m && '/' !in name
    ensures StatRaises(m, abspath, name) <==> !IsDots(name) && name != "" && Resolved(abspath) + [name] !in m
  {
    hide Parts, Resolved, Normpath;
    if !IsDots(name) && name != "" {
      PathOfChild(abspath, name);
    }
  }

  lemma PathOfChild(abspath: string, name: string)
    requires Absolute(abspath) && Clean(name)
    ensures Parts(Normalize(name, abspath)) == Resolved(abspath) + [name]
  {
    hide Parts, Resolved, LeadingSlashes, Normpath;
    var comps := Resolved(abspath) + [name];
    var k := LeadingSlashes(abspath);
    assert !Absolute(name) by { assert name[0] in name; }
    ResolvedOfJoin(abspath, name);
    SplitWithoutSeparator(name, '/');
    assert PushAll(Resolved(abspath), [name], true) == comps by {
      ResolvedIsClean(abspath);
      PushAllKeepsClean(Resolved(abspath), [name]);
    }
    NormpathOfAbsolute(JoinPath(abspath, name));
    ResolvedIsClean(abspath);
    assert Normalize(name, abspath) == Render(k, comps);
    PartsOfCanonical(k, comps);
  }

  lemma ResolvedOfCanonical(p: string)
    requires Canonical(p)
    ensures p != "//" ==> Parts(p) == Resolved(p)
    ensures p == "//" ==> Parts(p) == [""] && Resolved(p) == []
  {
    hide Parts, Resolved, LeadingSlashes, PushAll;
    NormpathOfAbsolute(p);
    ResolvedIsClean(p);
    var n, comps := LeadingSlashes(p), Resolved(p);
    PartsOfCanonical(n, comps);
    if p == "//" {
      RenderReadsBack(2, []);
      PartsOfCanonical(2, []);
      assert Render(2, []) == "//";
    } else if n == 2 {
      assert Slashes(2) == "//" && Join([], "/") == "" && Slashes(2) + "" == "//";
      assert comps != [];
    }
  }

  /** A block of a long listing raises exactly when the listed directory holds a name whose lexical place is
      empty. From a canonical path that is only ever "//": its entries are looked up in the root. */
  lemma LongListingRaises(h: Host, opts: LsOptions, target: string, s: State)
    requires Inv(s)
    ensures var abspath := Normalize(target, s.cwd);
      && (LsOne(h, opts, target, s).StatRaised? <==>
          && opts.long && IsDir(s.fs, abspath)
          && exists n :: n in Children(s.fs, Parts(abspath)) && !IsDots(n) && n != ""
                         && Resolved(abspath) + [n] !in s.fs)
      && (Canonical(abspath) ==>
          (LsOne(h, opts, target, s).StatRaised? <==>
           && opts.long && abspath == "//" && IsDir(s.fs, "//")
           && exists n :: n in Children(s.fs, [""]) && !IsDots(n) && n != "" && [n] !in s.fs))
      && (target != "" ==> Canonical(abspath))
  {
    hide Parts, Resolved, Normalize, Canonical, WellFormed, StatRaises, StatEach;
    var abspath := Normalize(target, s.cwd);
    NormalizeIsAbsolute(target, s.cwd);
    var m, p := s.fs, Parts(abspath);
    if IsDir(m, abspath) {
      var listed := Names.Listing(Children(m, p));
      var names := if opts.all then [".", ".."] + listed else listed;
      StatEachRaises(m, abspath, names);
      assert forall n :: n in names && !IsDots(n) <==> n in Children(m, p) && !IsDots(n);
      DotsNeverRaise(m, abspath);
      forall n | n in Children(m, p)
        ensures StatRaises(m, abspath, n) <==> !IsDots(n) && n != "" && Resolved(abspath) + [n] !in m
      {
        ChildIsFlat(m, p, n);
        StatOfChild(m, abspath, n);
      }
      if Canonical(abspath) {
        ResolvedOfCanonical(abspath);
        assert forall n: string :: Resolved("//") == [] ==> Resolved("//") + [n] == [n];
        forall n | n in Children(m, p) ensures p + [n] in m { ChildrenAreOneBelow(m, p, n); }
      }
    }
  }

  lemma DotsNeverRaise(m: Flat, abspath: string)
    ensures forall n | IsDots(n) :: !StatRaises(m, abspath, n)
  {
  }

  lemma ChildIsFlat(m: Flat, p: Path, name: string)
    requires NamesAreFlat(m) && name in Children(m, p)
    ensures '/' !in name
  {
    var q :| q in m && |q| == |p| + 1 && p <= q && q[|p|] == name;
    assert name in q;
  }

  /** `ls` raises exactly when the block of some target does. */
  lemma {:induction false} LsEachRaises(h: Host, opts: LsOptions, targets: seq<string>, s: State)
    ensures LsEach(h, opts, targets, s).None? <==> exists t :: t in targets && LsOne(h, opts, t, s).StatRaised?
  {
    hide LsOne;
    if targets != [] {
      LsEachRaises(h, opts, targets[1..], s);
      assert LsEach(h, opts, targets, s).None? <==>
        LsOne(h, opts, targets[0], s).StatRaised? || LsEach(h, opts, targets[1..], s).None?;
      hide LsEach;
      assert forall t :: t in targets <==> t == targets[0] || t in targets[1..];
    }
  }

  // A line that dies

  /** A line of one plain command. */
  ghost predicate IsPlain(h: Host, word: string, rest: string, tokens: seq<string>) {
    var line := word + " " + rest;
    && word != "" && rest != "" && !IsSpace(rest[|rest| - 1]) && (forall c | c in word :: !IsSpace(c))
    && word !in {"exit", "logout", "quit"}
    && (forall c | c in line :: c !in {';', '&', '|', '>', '\'', '\"'})
    && Tokens(h, line) == tokens && tokens != [] && tokens[0] != "sudo"
    && (forall t | t in tokens :: '$' !in t)
  }

  lemma PlainLine(h: Host, word: string, rest: string, tokens: seq<string>)
    requires IsPlain(h, word, rest, tokens)
    ensures var line := word + " " + rest;
      && line != "" && StripSpace(line) == line && !EndsSession(line) && tokens != []
      && NoOperator(line, None) && QuoteAfter(line, None).None? && SplitSequence(line) == [Segment("", line)]
      && forall env :: ParseCommand(h, line, env) == Parsed(tokens, None, false)
  {
    var line := word + " " + rest;
    assert word[0] in word;
    StripIdentity(line, IsSpace);
    SessionGoesOn(word, rest);
    AmpersandIsThere(line);
    OneCommandLine(line);
    NoOperatorInLine(line, None);
    PlainFlags(line);
    forall env ensures ParseCommand(h, line, env) == Parsed(tokens, None, false) {
      PlainCommand(h, line, env);
    }
  }

  lemma SessionGoesOn(word: string, rest: string)
    requires word != "" && word !in {"exit", "logout", "quit"} && forall c | c in word :: !IsSpace(c)
    ensures !EndsSession(word + " " + rest)
  {
    hide WordsFrom;
    WordsOfSpaced(word, rest, "");
    assert "" + word == word;
  }

  lemma PlainSegment(h: Host, word: string, rest: string, tokens: seq<string>, s: State)
    requires IsPlain(h, word, rest, tokens) && HandlerOf(tokens[0]).Some?
    ensures RunSegment(h, word + " " + rest, s)
      == (RunHandler(h, HandlerOf(tokens[0]).value, tokens[0], tokens[1..], s), NO_META)
  {
    hide ParseCommand, StripSpace, IsPlain, HandlerOf, RunHandler;
    PlainLine(h, word, rest, tokens);
  }

  lemma PlainReply(h: Host, word: string, rest: string, tokens: seq<string>, s: State)
    requires IsPlain(h, word, rest, tokens) && HandlerOf(tokens[0]).Some?
    ensures var line := word + " " + rest;
      var ran := RunHandler(h, HandlerOf(tokens[0]).value, tokens[0], tokens[1..], s.(history := s.history + [line]));
      Respond(h, line, s) == ReplyOf(ran, NO_META)
  {
    hide ParseCommand, StripSpace, IsPlain, HandlerOf, RunHandler, RunSegment, SplitSequence, EndsSession;
    var line := word + " " + rest;
    var s' := s.(history := s.history + [line]);
    PlainLine(h, word, rest, tokens);
    PlainSegment(h, word, rest, tokens, s');
    OneSegmentReply(h, line, s');
  }

  lemma MkdirReply(h: Host, rest: string, s: State)
    requires IsPlain(h, "mkdir", rest, ["mkdir", rest]) && !IsFlag(rest)
    requires Mkdir(s.fs, Normalize(rest, s.cwd), h.username).error.None?
    ensures var line := "mkdir " + rest;
      var made := Mkdir(s.fs, Normalize(rest, s.cwd), h.username).fs;
      Respond(h, line, s) == Reply(s.(fs := made, history := s.history + [line]), "", 0, false, NO_META)
  {
    hide Mkdir, Normalize, IsPlain, HandlerOf, Respond;
    var s' := s.(history := s.history + ["mkdir " + rest]);
    assert "mkdir" + " " + rest == "mkdir " + rest;
    MkdirIsHandled();
    PlainReply(h, "mkdir", rest, ["mkdir", rest], s);
    assert ["mkdir", rest][1..] == [rest];
    OneOperand(rest);
    var each := MkdirEach(false);
    assert RunEach(h, each, [], RunOne(h, each, rest, s').state) == Ran(RunOne(h, each, rest, s').state, "", 0);
    assert [rest][1..] == [];
    assert RunEach(h, each, [rest], s') == Ran(s'.(fs := Mkdir(s.fs, Normalize(rest, s.cwd), h.username).fs), "", 0);
  }

  lemma OneOperand(arg: string)
    requires !IsFlag(arg)
    ensures Operands([arg]) == [arg] && "-p" !in [arg] && "--parents" !in [arg]
  {
    assert [arg][1..] == [];
    assert IsFlag("-p") && IsFlag("--parents");
  }

  lemma RootCornerPaths(cwd: string)
    ensures Normalize("/", cwd) == "/" && ParentOf("/") == [] && NameOf("/") == ""
    ensures Normalize("//x", cwd) == "//x" && ParentOf("//x") == [""] && NameOf("//x") == "x" && Parts("//x") == ["x"]
    ensures Normalize("//", cwd) == "//" && Canonical("//") && Parts("//") == [""]
  {
    hide Normpath, Parts, PathSplit;
    CornerPath(1, []);
    CornerPath(2, []);
    assert Clean("x") && Join(["x"], "/") == "x";
    CornerPath(2, ["x"]);
    assert Slashes(1) + "" == "/" && Slashes(2) + "" == "//" && Slashes(2) + "x" == "//x";
    CornerSplits();
  }

  lemma CornerSplits()
    ensures PathSplit("/") == ("/", "") && PathSplit("//x") == ("//", "x")
  {
    LastSlashIs("/", 0);
    LastSlashIs("//x", 1);
    assert "/"[..1] == "/" == Slashes(1) && "/"[1..] == "" && "//x"[..2] == "//" == Slashes(2) && "//x"[2..] == "x";
  }

  lemma CornerPath(n: nat, comps: Path)
    requires 1 <= n <= 2 && AllClean(comps)
    ensures var p := Slashes(n) + Join(comps, "/");
      && Normpath(p) == p && Absolute(p)
      && Parts(p) == if n == 2 && comps == [] then [""] else comps
  {
    RenderReadsBack(n, comps);
    PartsOfCanonical(n, comps);
  }

  /** The session after `mkdir /` and `mkdir //x`. */
  ghost function WithCorners(m: Flat, owner: string): Flat {
    m[[""] := NewDir(owner)][["", "x"] := NewDir(owner)]
  }

  lemma CornersAreMade(m: Flat, cwd: string, owner: string)
    requires WellFormed(m) && [""] !in m
    ensures Mkdir(m, Normalize("/", cwd), owner) == Changed(m[[""] := NewDir(owner)], None)
    ensures Mkdir(m[[""] := NewDir(owner)], Normalize("//x", cwd), owner) == Changed(WithCorners(m, owner), None)
  {
    hide Normalize, ParentOf, NameOf;
    RootCornerPaths(cwd);
    assert [] + [""] == [""] && [""] + ["x"] == ["", "x"];
    assert Up(["", "x"]) == [""];
  }

  lemma CornerListingRaises(h: Host, s: State)
    requires Inv(s) && [""] in s.fs && s.fs[[""]].isDir && ["", "x"] in s.fs && ["x"] !in s.fs
    ensures RunHandler(h, Ls, "ls", ["-l", "//"], s) == Raised(s)
  {
    hide LsArguments, LsOne, Inv, Normalize, Parts, Canonical;
    var args := ["-l", "//"];
    LsArgumentsAre(args);
    assert args[0] == "-l" && AsksForLong("-l");
    assert !IsFlag("//") && IsFlag("-l") && args[1..] == ["//"] && ["//"][1..] == [];
    assert Operands(args) == ["//"];
    var opts := LsArguments(args);
    RootCornerPaths(s.cwd);
    LongListingRaises(h, opts, "//", s);
    assert "x" in Children(s.fs, [""]) by {
      assert ["", "x"][1] == "x" && [""] <= ["", "x"];
    }
    LsEachRaises(h, opts, LsTargets(opts), s);
  }

  /** Three lines, the last of which gets no reply: the second `mkdir` is not found by the `stat` of the
      listing, and the command after it does not run. */
  lemma LineCanDie(h: Host, s: State)
    requires Inv(s) && [""] !in s.fs && ["x"] !in s.fs
    requires IsPlain(h, "mkdir", "/", ["mkdir", "/"])
    requires IsPlain(h, "mkdir", "//x", ["mkdir", "//x"])
    requires IsPlain(h, "ls", "-l //", ["ls", "-l", "//"])
    ensures var first := Respond(h, "mkdir /", s);
      var second := Respond(h, "mkdir //x", first.state);
      var third := Respond(h, DEAD_LINE, second.state);
      && first.Reply? && first.status == 0 && second.Reply? && second.status == 0
      && third == NoReply(second.state.(history := second.state.history + [DEAD_LINE]))
  {
    assert WellFormed(s.fs);
    hide Respond, IsPlain, Inv, WellFormed, WithCorners, IsTrace, TraceOfLine, StripSpace;
    CornersReply(h, s);
    var first := Respond(h, "mkdir /", s).state;
    var second := Respond(h, "mkdir //x", first).state;
    RespondKeeps(h, "mkdir /", s);
    RespondKeeps(h, "mkdir //x", first);
    CornersAreThere(s.fs, h.username);
    DeadLine(h, second);
  }

  const DEAD_LINE := "ls -l //; touch /t"

  lemma CornersReply(h: Host, s: State)
    requires WellFormed(s.fs) && [""] !in s.fs
    requires IsPlain(h, "mkdir", "/", ["mkdir", "/"]) && IsPlain(h, "mkdir", "//x", ["mkdir", "//x"])
    ensures var first := Respond(h, "mkdir /", s); var second := Respond(h, "mkdir //x", first.state);
      && first.Reply? && first.status == 0 && second.Reply? && second.status == 0
      && second.state.fs == WithCorners(s.fs, h.username)
  {
    hide Respond, IsPlain, WellFormed, WithCorners, Mkdir, Normalize;
    CornersAreMade(s.fs, s.cwd, h.username);
    assert !IsFlag("/") && !IsFlag("//x");
    assert "mkdir " + "/" == "mkdir /" && "mkdir " + "//x" == "mkdir //x";
    MkdirReply(h, "/", s);
    MkdirReply(h, "//x", Respond(h, "mkdir /", s).state);
  }

  lemma CornersAreThere(m: Flat, owner: string)
    ensures var m' := WithCorners(m, owner);
      && [""] in m' && m'[[""]].isDir && ["", "x"] in m' && (["x"] in m' <==> ["x"] in m)
  {
    assert ["x"][0] != "";
  }

  lemma DeadLine(h: Host, s: State)
    requires Inv(s) && [""] in s.fs && s.fs[[""]].isDir && ["", "x"] in s.fs && ["x"] !in s.fs
    requires IsPlain(h, "ls", "-l //", ["ls", "-l", "//"])
    ensures Respond(h, DEAD_LINE, s) == NoReply(s.(history := s.history + [DEAD_LINE]))
  {
    var s' := s.(history := s.history + [DEAD_LINE]);
    assert Inv(s');
    hide IsPlain, Inv, RunSegment, RunSegments, SplitSequence, EndsSession, StripSpace;
    DeadLineIsCut(h);
    DeadSegment(h, s');
    FirstSegmentRaises(h, "ls -l //", " touch /t", s');
  }

  lemma DeadSegment(h: Host, s: State)
    requires Inv(s) && [""] in s.fs && s.fs[[""]].isDir && ["", "x"] in s.fs && ["x"] !in s.fs
    requires IsPlain(h, "ls", "-l //", ["ls", "-l", "//"])
    ensures RunSegment(h, "ls -l //", s).0 == Raised(s)
  {
    hide IsPlain, Inv, RunSegment, RunHandler, HandlerOf;
    LsIsHandled();
    CornerListingRaises(h, s);
    PlainSegment(h, "ls", "-l //", ["ls", "-l", "//"], s);
    assert "ls" + " " + "-l //" == "ls -l //";
    assert ["ls", "-l", "//"][1..] == ["-l", "//"];
  }

  lemma FirstSegmentRaises(h: Host, a: string, b: string, s: State)
    requires RunSegment(h, a, s).0 == Raised(s)
    ensures RunSegments(h, [Segment("", a), Segment(";", b)], s, 0) == NoReply(s)
  {
    hide RunSegment;
  }

  lemma LsIsHandled()
    ensures HandlerOf("ls") == Some(Ls)
  {
  }

  lemma DeadLineIsCut(h: Host)
    requires IsPlain(h, "ls", "-l //", ["ls", "-l", "//"])
    ensures StripSpace(DEAD_LINE) == DEAD_LINE && !EndsSession(DEAD_LINE)
    ensures SplitSequence(DEAD_LINE) == [Segment("", "ls -l //"), Segment(";", " touch /t")]
  {
    hide IsPlain, EndsSession, StripSpace, SplitSequence, NoOperator, QuoteAfter, IsSpace;
    PlainLine(h, "ls", "-l //", ["ls", "-l", "//"]);
    assert "ls" + " " + "-l //" == "ls -l //";
    assert "ls" + " " + "-l //; touch /t" == DEAD_LINE;
    DeadLineIsStripped();
    LettersAreNoSpace();
    SessionGoesOn("ls", "-l //; touch /t");
    CutAtOperator("ls -l //", ";", " touch /t");
    assert "ls -l //" + ";" + " touch /t" == DEAD_LINE;
  }

  lemma LettersAreNoSpace()
    ensures forall c | c in "ls" :: !IsSpace(c)
  {
  }

  lemma DeadLineIsStripped()
    ensures StripSpace(DEAD_LINE) == DEAD_LINE
  {
    assert DEAD_LINE[0] == 'l' && DEAD_LINE[|DEAD_LINE| - 1] == 't';
    StripIdentity(DEAD_LINE, IsSpace);
  }
}
