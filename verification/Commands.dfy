/** What the commands answer and do, told from the words of a command alone: the messages, the statuses
    and the one entry each of them touches. */
module Commands {
  import opened Text
  import opened Paths
  import opened FlatFs
  import opened Shell
  import opened Session
  import opened Arguments
  import opened Scanner
  import Listing

  function Command(words: seq<string>): Parsed {
    Parsed(words, None, false)
  }

  /** What the answer calls a path that is not found. */
  ghost function NotFound(m: Flat, p: Path): string {
    if FileInTheWay(m, p) then "Not a directory" else "No such file or directory"
  }

  lemma HandlersAre()
    ensures HandlerOf("cat") == Some(Cat) && HandlerOf("mkdir") == Some(MakeDir) && HandlerOf("rmdir") == Some(Rmdir)
    ensures HandlerOf("rm") == Some(Rm) && HandlerOf("touch") == Some(Touch) && HandlerOf("cd") == Some(Cd)
    ensures HandlerOf("pwd") == Some(Pwd) && HandlerOf("whoami") == Some(Whoami) && HandlerOf("ls") == Some(Ls)
    ensures HandlerOf("dir") == Some(Ls) && HandlerOf("echo") == Some(Echo) && HandlerOf("export") == Some(Export)
  {
  }

  lemma CommandRuns(h: Host, cmd: string, args: seq<string>, s: State)
    requires HandlerOf(cmd).Some?
    ensures RunParsed(h, Command([cmd] + args), s) == (RunHandler(h, HandlerOf(cmd).value, cmd, args, s), NO_META)
  {
    hide RunHandler, HandlerOf;
    assert ([cmd] + args)[1..] == args;
  }

  // Operands

  lemma {:induction false} OperandsAppend(args: seq<string>, more: seq<string>)
    ensures Operands(args + more) == Operands(args) + Operands(more)
  {
    hide IsFlag;
    if args == [] {
      assert args + more == more;
    } else {
      assert (args + more)[0] == args[0] && (args + more)[1..] == args[1..] + more;
      OperandsAppend(args[1..], more);
      var first := if IsFlag(args[0]) then [] else [args[0]];
      assert first + (Operands(args[1..]) + Operands(more)) == first + Operands(args[1..]) + Operands(more);
    }
  }

  /** The operands are the arguments that do not begin with a dash, in order. */
  lemma {:induction false} OperandsAre(args: seq<string>)
    ensures forall a :: a in Operands(args) <==> a in args && (a == "" || a[0] != '-')
    ensures (forall a | a in args :: a == "" || a[0] != '-') ==> Operands(args) == args
  {
    if args != [] {
      OperandsAre(args[1..]);
      assert args == [args[0]] + args[1..];
      var first := if IsFlag(args[0]) then [] else [args[0]];
      assert Operands(args) == first + Operands(args[1..]);
      hide Operands;
      assert forall a :: a in args <==> a == args[0] || a in args[1..];
    }
  }

  lemma StatusIsFlag(h: Host, each: Each, target: string, s: State)
    ensures RunOne(h, each, target, s).status in {0, 1}
  {
    hide Normalize, Mkdir, Makedirs, WriteFile, Remove, Read, IsDir, Exists, Children;
  }

  /** One operand, and one list of operands after another: `touch` stops at a failure, the others go on and
      report it at the end. */
  lemma {:induction false} OperandsInTurn(h: Host, each: Each, a: seq<string>, b: seq<string>, s: State)
    ensures var x := RunEach(h, each, a, s); var y := RunEach(h, each, b, x.state);
      && x.status in {0, 1}
      && RunEach(h, each, a + b, s) ==
        if each.TouchEach? && x.status == 1 then x
        else Ran(y.state, x.text + y.text, if x.status == 1 then 1 else y.status)
    ensures forall f :: RunEach(h, each, [f], s) == RunOne(h, each, f, s)
    ensures RunEach(h, each, [], s) == Ran(s, "", 0)
  {
    hide RunOne;
    forall f ensures RunEach(h, each, [f], s) == RunOne(h, each, f, s) {
      StatusIsFlag(h, each, f, s);
      var one := RunOne(h, each, f, s);
      assert [f][1..] == [] && one.text + "" == one.text;
    }
    if a == [] {
      var y := RunEach(h, each, b, s);
      assert a + b == b && "" + y.text == y.text;
    } else {
      var one := RunOne(h, each, a[0], s);
      StatusIsFlag(h, each, a[0], s);
      assert (a + b)[0] == a[0] && (a + b)[1..] == a[1..] + b;
      OperandsInTurn(h, each, a[1..], b, one.state);
      var x := RunEach(h, each, a[1..], one.state);
      var y := RunEach(h, each, b, x.state);
      assert one.text + x.text + y.text == one.text + (x.text + y.text);
    }
  }

  lemma OneOperand(h: Host, each: Each, f: string, s: State)
    requires !IsFlag(f)
    ensures Operands([f]) == [f] && RunEach(h, each, [f], s) == RunOne(h, each, f, s)
    ensures forall flag | IsFlag(flag) :: Operands([flag, f]) == [f]
  {
    hide RunOne;
    OperandsInTurn(h, each, [], [], s);
    assert [f][1..] == [];
    forall flag | IsFlag(flag) ensures Operands([flag, f]) == [f] {
      assert [flag, f][1..] == [f] && [] + Operands([f]) == Operands([f]);
    }
  }

  /** Which flags each command looks for, wherever they stand, and that all operands are worked through. */
  lemma OperandCommands(h: Host, args: seq<string>, s: State)
    ensures RunParsed(h, Command(["cat"] + args), s).0 == RunEach(h, CatEach, Operands(args), s)
    ensures RunParsed(h, Command(["rmdir"] + args), s).0 == RunEach(h, RmdirEach, Operands(args), s)
    ensures RunParsed(h, Command(["touch"] + args), s).0 == RunEach(h, TouchEach, Operands(args), s)
    ensures var force := exists a :: a in args && a != "" && a[0] == '-' && 'f' in a;
      RunParsed(h, Command(["rm"] + args), s).0 == RunEach(h, RmEach(force), Operands(args), s)
    ensures RunParsed(h, Command(["mkdir"] + args), s).0 ==
      if forall a | a in args :: a != "" && a[0] == '-' then Ran(s, "mkdir: missing operand\n", 1)
      else RunEach(h, MkdirEach("-p" in args || "--parents" in args), Operands(args), s)
  {
    hide HandlerOf, RunEach, RunParsed, Operands, RunEcho, RunCd, RunExport, RunLs;
    HandlersAre();
    NoOperands(args);
    forall cmd | cmd in {"cat", "rmdir", "touch", "rm", "mkdir"}
      ensures RunParsed(h, Command([cmd] + args), s) == (RunHandler(h, HandlerOf(cmd).value, cmd, args, s), NO_META)
    {
      CommandRuns(h, cmd, args, s);
    }
  }

  lemma NoOperands(args: seq<string>)
    ensures Operands(args) == [] <==> forall a | a in args :: a != "" && a[0] == '-'
  {
    OperandsAre(args);
    hide Operands;
    assert Operands(args) != [] ==> Operands(args)[0] in Operands(args);
  }

  // One operand each

  lemma ErrorTexts()
    ensures ErrnoText(NoSuchFile) == "No such file or directory" && ErrnoText(NotADirectory) == "Not a directory"
    ensures ErrnoText(IsADirectory) == "Is a directory" && ErrnoText(FileExists) == "File exists"
    ensures ErrnoText(NotPermitted) == "Operation not permitted" && ErrnoText(NotEmpty) == "Directory not empty"
  {
  }

  /** `cat f`. */
  lemma CatAnswers(h: Host, f: string, s: State)
    requires !IsFlag(f)
    ensures var ran := RunParsed(h, Command(["cat", f]), s).0; var p := Parts(Normalize(f, s.cwd));
      && (p !in s.fs ==> ran == Ran(s, "cat: " + f + ": " + NotFound(s.fs, p) + "\n", 1))
      && (p in s.fs && s.fs[p].isDir ==> ran == Ran(s, "cat: " + f + ": Is a directory\n", 1))
      && (p in s.fs && !s.fs[p].isDir ==>
          var c := s.fs[p].content; ran == Ran(s, if c == "" || c[|c| - 1] == '\n' then c else c + "\n", 0))
  {
    hide Normalize, Parts, HandlerOf, ErrnoText, Lookup, FileInTheWay;
    HandlersAre();
    ErrorTexts();
    CommandRuns(h, "cat", [f], s);
    assert ["cat"] + [f] == ["cat", f];
    OneOperand(h, CatEach, f, s);
    ReadIsExact(s.fs, Normalize(f, s.cwd));
    LookupIsExact(s.fs, Parts(Normalize(f, s.cwd)));
  }

  /** `mkdir f` makes one empty directory of the user's, or says why not. */
  lemma MkdirAnswers(h: Host, f: string, s: State)
    requires Inv(s) && !IsFlag(f)
    ensures var ran := RunParsed(h, Command(["mkdir", f]), s).0;
      var abspath := Normalize(f, s.cwd); var parent, slot := ParentOf(abspath), Slot(abspath);
      var why := "mkdir: cannot create directory '" + f + "': ";
      && (parent in s.fs && s.fs[parent].isDir && slot !in s.fs ==>
          ran == Ran(s.(fs := s.fs[slot := Entry(true, "", h.username, "rwxr-xr-x")]), "", 0))
      && (slot in s.fs ==> ran == Ran(s, why + "File exists" + "\n", 1))
      && (parent in s.fs && !s.fs[parent].isDir ==> ran == Ran(s, why + "Not a directory" + "\n", 1))
      && (parent !in s.fs ==> ran == Ran(s, why + NotFound(s.fs, parent) + "\n", 1))
  {
    hide Normalize, ParentOf, NameOf, HandlerOf, ErrnoText, Lookup, FileInTheWay, Makedirs, WellFormed, NamesAreFlat;
    HandlersAre();
    ErrorTexts();
    CommandRuns(h, "mkdir", [f], s);
    assert ["mkdir"] + [f] == ["mkdir", f];
    OneOperand(h, MkdirEach(false), f, s);
    assert IsFlag("-p") && IsFlag("--parents");
    MkdirIsExact(s.fs, Normalize(f, s.cwd), h.username);
    LookupIsExact(s.fs, ParentOf(Normalize(f, s.cwd)));
  }

  /** `mkdir -p f` makes every directory on the way, unless a file is on it. */
  lemma MkdirParentsAnswers(h: Host, f: string, s: State)
    requires Inv(s) && !IsFlag(f)
    ensures var ran := RunParsed(h, Command(["mkdir", "-p", f]), s).0; var m := ran.state.fs;
      var abspath := Normalize(f, s.cwd); var cs := Solid(Split(Strip(abspath, IsSlash), '/'));
      && (NoFileOn(s.fs, cs) ==>
          && ran == Ran(s.(fs := m), "", 0)
          && m.Keys == s.fs.Keys + (set k | 0 <= k <= |cs| :: cs[..k])
          && (forall p | p in s.fs :: m[p] == s.fs[p])
          && (forall p | p in m && p !in s.fs :: m[p] == Entry(true, "", h.username, "rwxr-xr-x")))
      && (!NoFileOn(s.fs, cs) ==> ran == Ran(s, "mkdir: cannot create directory '" + f + "': Not a directory\n", 1))
  {
    hide Normalize, ErrnoText, WellFormed, NamesAreFlat, Split, Strip, Makedirs, NoFileOn, Solid, RunParsed;
    ErrorTexts();
    MkdirParentsRuns(h, f, s);
    MakedirsMakes(s.fs, Split(Strip(Normalize(f, s.cwd), IsSlash), '/'), h.username);
  }

  lemma MkdirParentsRuns(h: Host, f: string, s: State)
    requires !IsFlag(f)
    ensures RunParsed(h, Command(["mkdir", "-p", f]), s).0 == RunOne(h, MkdirEach(true), f, s)
  {
    hide HandlerOf, RunOne, RunEach, RunParsed;
    HandlersAre();
    CommandRuns(h, "mkdir", ["-p", f], s);
    assert ["mkdir"] + ["-p", f] == ["mkdir", "-p", f];
    assert IsFlag("-p") && ["-p", f][0] == "-p";
    OneOperand(h, MkdirEach(true), f, s);
  }

  lemma MakedirsMakes(m: Flat, parts: Path, owner: string)
    requires WellFormed(m)
    ensures var r := Makedirs(m, parts, owner); var cs := Solid(parts);
      && (!NoFileOn(m, cs) ==> r == Changed(m, Some(NotADirectory)))
      && (NoFileOn(m, cs) ==>
          && r.error.None? && r.fs.Keys == m.Keys + (set k | 0 <= k <= |cs| :: cs[..k])
          && (forall p | p in m :: r.fs[p] == m[p])
          && (forall p | p in r.fs && p !in m :: r.fs[p] == Entry(true, "", owner, "rwxr-xr-x")))
  {
    hide WellFormed, Makedirs, NoFileOn, Solid;
    var r, cs := Makedirs(m, parts, owner), Solid(parts);
    MakedirsIsExact(m, parts, owner);
    MakedirsFails(m, parts, owner);
    if NoFileOn(m, cs) {
      forall p | p in r.fs ensures p in m.Keys + (set k | 0 <= k <= |cs| :: cs[..k]) {
        assert p <= cs ==> cs[..|p|] == p;
      }
    }
  }

  lemma MakedirsFails(m: Flat, parts: Path, owner: string)
    ensures var r := Makedirs(m, parts, owner); r.error.Some? ==> r == Changed(m, Some(NotADirectory))
  {
  }

  /** `rmdir f` takes an empty directory away, and nothing else. */
  lemma RmdirAnswers(h: Host, f: string, s: State)
    requires Inv(s) && !IsFlag(f)
    ensures var ran := RunParsed(h, Command(["rmdir", f]), s).0; var abspath := Normalize(f, s.cwd);
      var why := "rmdir: failed to remove '" + f + "': ";
      && (!IsDir(s.fs, abspath) ==> ran == Ran(s, why + "Not a directory" + "\n", 1))
      && (IsDir(s.fs, abspath) && (exists n :: Parts(abspath) + [n] in s.fs) ==>
          ran == Ran(s, why + "Directory not empty" + "\n", 1))
      && (IsDir(s.fs, abspath) && (forall n :: Parts(abspath) + [n] !in s.fs) && SlotIsPath(abspath) ==>
          ran == Ran(s.(fs := s.fs - {Parts(abspath)}), "", 0))
  {
    hide Normalize, HandlerOf, ErrnoText, NamesAreFlat, Parts, Slot, SlotIsPath, Children, Remove, WellFormed;
    HandlersAre();
    ErrorTexts();
    CommandRuns(h, "rmdir", [f], s);
    assert ["rmdir"] + [f] == ["rmdir", f];
    OneOperand(h, RmdirEach, f, s);
    var abspath := Normalize(f, s.cwd);
    EmptyMeans(s.fs, Parts(abspath));
    if IsDir(s.fs, abspath) && SlotIsPath(abspath) && Children(s.fs, Parts(abspath)) == {} {
      RemoveEmpty(s.fs, abspath);
    }
  }

  lemma EmptyMeans(m: Flat, p: Path)
    ensures Children(m, p) == {} <==> forall n :: p + [n] !in m
  {
    forall n ensures n in Children(m, p) <==> p + [n] in m {
      ChildrenAreOneBelow(m, p, n);
    }
    hide Children;
    if Children(m, p) != {} {
      var n :| n in Children(m, p);
    }
  }

  lemma RemoveEmpty(m: Flat, abspath: string)
    requires WellFormed(m) && Parts(abspath) in m && SlotIsPath(abspath)
    requires forall n :: Parts(abspath) + [n] !in m
    ensures Remove(m, abspath) == Changed(m - {Parts(abspath)}, None)
  {
    hide Parts, Slot, Remove, SlotIsPath, WellFormed;
    var p := Parts(abspath);
    SlotIsPathExactly(abspath);
    RemoveIsExact(m, abspath);
    assert abspath != "/" by { RootIsNoSlot(); }
    forall q | q in m && p <= q ensures q == p {
      if q != p { SomethingBetween(m, p, q); }
    }
    var r := Remove(m, abspath);
    assert r.fs == m - {p} by {
      assert forall q :: q in r.fs <==> q in m && q != p;
    }
    assert r == Changed(r.fs, r.error);
  }

  lemma SomethingBetween(m: Flat, p: Path, q: Path)
    requires WellFormed(m) && q in m && p <= q && p != q
    ensures p + [q[|p|]] in m
  {
    PrefixesExist(m, q, |p| + 1);
    assert q[..|p| + 1] == p + [q[|p|]];
  }

  lemma RootIsNoSlot()
    ensures !SlotIsPath("/")
  {
  }

  /** `rm f` takes an entry away with all below it; only an `f` among its flags keeps it quiet when it
      cannot. */
  lemma RmAnswers(h: Host, flag: string, f: string, s: State)
    requires Inv(s) && IsFlag(flag) && !IsFlag(f)
    ensures var ran := RunParsed(h, Command(["rm", flag, f]), s).0; var abspath := Normalize(f, s.cwd);
      var parent, slot := ParentOf(abspath), Slot(abspath);
      var refused := (why: string) => if 'f' in flag then Ran(s, "", 0)
        else Ran(s, "rm: cannot remove '" + f + "': " + why + "\n", 1);
      && (abspath == "/" ==> ran == refused("Operation not permitted"))
      && (abspath != "/" && slot in s.fs ==> ran == Ran(s.(fs := map q | q in s.fs && !(slot <= q) :: s.fs[q]), "", 0))
      && (abspath != "/" && parent in s.fs && slot !in s.fs ==> ran == refused("No such file or directory"))
      && (abspath != "/" && parent !in s.fs ==> ran == refused(NotFound(s.fs, parent)))
  {
    hide Normalize, HandlerOf, ErrnoText, NamesAreFlat, ParentOf, NameOf, FileInTheWay, Remove, Lookup;
    HandlersAre();
    ErrorTexts();
    CommandRuns(h, "rm", [flag, f], s);
    assert ["rm"] + [flag, f] == ["rm", flag, f];
    OneOperand(h, RmEach('f' in flag), f, s);
    assert AnyFlagWith([flag, f], 'f') <==> 'f' in flag by { assert [flag, f][0] == flag && [flag, f][1] == f; }
    var abspath := Normalize(f, s.cwd);
    RemoveIsExact(s.fs, abspath);
    RemoveErrors(s.fs, abspath);
    ParentOfSlot(s.fs, abspath);
    LookupIsExact(s.fs, ParentOf(abspath));
    RemovedMap(s.fs, abspath);
  }

  lemma RemovedMap(m: Flat, abspath: string)
    requires WellFormed(m)
    ensures var r := Remove(m, abspath);
      r.fs == if r.error.None? then map q | q in m && !(Slot(abspath) <= q) :: m[q] else m
  {
    hide Parts, ParentOf, NameOf, Lookup;
  }

  /** Without flags it says what is wrong. */
  lemma RmPlainAnswers(h: Host, f: string, s: State)
    requires !IsFlag(f)
    ensures RunParsed(h, Command(["rm", f]), s) == RunParsed(h, Command(["rm", "-r", f]), s)
  {
    hide Normalize, HandlerOf, Remove, RunEach;
    HandlersAre();
    CommandRuns(h, "rm", [f], s);
    CommandRuns(h, "rm", ["-r", f], s);
    assert ["rm"] + [f] == ["rm", f] && ["rm"] + ["-r", f] == ["rm", "-r", f];
    assert IsFlag("-r") && 'f' !in "-r";
    OneOperand(h, RmEach(false), f, s);
    assert ["-r", f][0] == "-r" && ["-r", f][1] == f;
  }

  /** `touch f` leaves what is there alone, and otherwise puts one empty file of the user's. */
  lemma TouchAnswers(h: Host, f: string, s: State)
    requires Inv(s) && !IsFlag(f)
    ensures var ran := RunParsed(h, Command(["touch", f]), s).0; var abspath := Normalize(f, s.cwd);
      var parent, slot := ParentOf(abspath), Slot(abspath);
      var why := "touch: cannot touch '" + f + "': ";
      && (Parts(abspath) in s.fs ==> ran == Ran(s, "", 0))
      && (Parts(abspath) !in s.fs && parent in s.fs && s.fs[parent].isDir && (slot in s.fs ==> !s.fs[slot].isDir) ==>
          ran == Ran(s.(fs := s.fs[slot := Entry(false, "", h.username, "rw-r--r--")]), "", 0))
      && (Parts(abspath) !in s.fs && slot in s.fs && s.fs[slot].isDir ==>
          ran == Ran(s, why + "Is a directory" + "\n", 1))
      && (Parts(abspath) !in s.fs && parent in s.fs && !s.fs[parent].isDir ==>
          ran == Ran(s, why + "Not a directory" + "\n", 1))
      && (Parts(abspath) !in s.fs && parent !in s.fs ==> ran == Ran(s, why + NotFound(s.fs, parent) + "\n", 1))
  {
    hide Normalize, HandlerOf, ErrnoText, NamesAreFlat, ParentOf, NameOf, Parts, FileInTheWay, Lookup, WellFormed;
    HandlersAre();
    ErrorTexts();
    CommandRuns(h, "touch", [f], s);
    assert ["touch"] + [f] == ["touch", f];
    OneOperand(h, TouchEach, f, s);
    WriteFileIsExact(s.fs, Normalize(f, s.cwd), "", h.username);
    LookupIsExact(s.fs, ParentOf(Normalize(f, s.cwd)));
  }

  /** The only way for `touch` to lose a text: the path is not found, but where it would be created a file
      stands. */
  lemma TouchCanEmpty(h: Host, env: map<string, string>)
    ensures var file := Entry(false, "hi", "root", "rw-r--r--");
      var s := State(map[[] := NewDir("root"), [""] := NewDir("root"), ["", "x"] := file], "/", env, []);
      && Inv(s)
      && RunParsed(h, Command(["touch", "//x"]), s).0
        == Ran(s.(fs := s.fs[["", "x"] := file.(content := "", owner := h.username)]), "", 0)
  {
    hide Normalize, Parts, ParentOf, NameOf, RunParsed;
    var file := Entry(false, "hi", "root", "rw-r--r--");
    var s := State(map[[] := NewDir("root"), [""] := NewDir("root"), ["", "x"] := file], "/", env, []);
    assert Up([""]) == [] && Up(["", "x"]) == [""];
    assert !IsFlag("//x") && [""] + ["x"] == ["", "x"];
    assert ["x"][0] != [""][0];
    Listing.RootCornerPaths("/");
    TouchAnswers(h, "//x", s);
  }

  // Redirects

  /** A redirect stores what the command printed, behind the old text if it appends, or says why not. */
  lemma RedirectAnswers(h: Host, to: Redirect, text: string, status: int, s: State)
    requires Inv(s)
    ensures var ran := Redirected(h, to, Ran(s, text, status)); var abspath := Normalize(to.target, s.cwd);
      var parent, slot := ParentOf(abspath), Slot(abspath);
      var before := if to.append && Exists(s.fs, abspath) then s.fs[Parts(abspath)].content else "";
      var why := "bash: " + to.target + ": ";
      && (to.append && IsDir(s.fs, abspath) ==> ran == Ran(s, why + "Is a directory" + "\n", 1))
      && (!(to.append && IsDir(s.fs, abspath)) ==>
          && (parent in s.fs && s.fs[parent].isDir && (slot in s.fs ==> !s.fs[slot].isDir) ==>
              ran == Ran(s.(fs := s.fs[slot := Entry(false, before + text, h.username, "rw-r--r--")]), "", status))
          && (slot in s.fs && s.fs[slot].isDir ==> ran == Ran(s, why + "Is a directory" + "\n", 1))
          && (parent in s.fs && !s.fs[parent].isDir ==> ran == Ran(s, why + "Not a directory" + "\n", 1))
          && (parent !in s.fs ==> ran == Ran(s, why + NotFound(s.fs, parent) + "\n", 1)))
  {
    hide Normalize, ErrnoText, NamesAreFlat, ParentOf, NameOf, Parts, FileInTheWay, Lookup, WellFormed, WriteFile, Read;
    ErrorTexts();
    var abspath := Normalize(to.target, s.cwd);
    var before := if to.append && Exists(s.fs, abspath) then s.fs[Parts(abspath)].content else "";
    ReadIsExact(s.fs, abspath);
    assert to.append && Exists(s.fs, abspath) && !IsDir(s.fs, abspath) ==> Read(s.fs, abspath) == Found(before);
    assert !to.append || !Exists(s.fs, abspath) ==> before == "";
    WriteFileIsExact(s.fs, abspath, before + text, h.username);
    LookupIsExact(s.fs, ParentOf(abspath));
    Written(s.fs, WriteFile(s.fs, abspath, before + text, h.username).fs, Slot(abspath), before + text, h.username);
  }

  lemma Written(m: Flat, m': Flat, slot: Path, content: string, owner: string)
    ensures (&& m'.Keys == m.Keys + {slot}
             && m'[slot] == Entry(false, content, owner, "rw-r--r--")
             && (forall q | q in m && q != slot :: m'[q] == m[q]))
      ==> m' == m[slot := Entry(false, content, owner, "rw-r--r--")]
  {
  }

  /** From the characters of the line to the file: `echo words > t` and `echo words >> t`. */
  lemma EchoIntoFile(h: Host, a: string, op: string, t: string, words: seq<string>, s: State)
    requires op == ">" || op == ">>"
    requires IsOneStage(a) && QuoteAfter(a, None).None? && IsOneStage(t) && StripSpace(a + op + t) == a + op + t
    requires Tokens(h, StripSpace(a)) == ["echo"] + words && (words != [] ==> words[0] != "-n")
    requires forall w | w in words :: '$' !in w
    requires Inv(s)
    requires var abspath := Normalize(StripSpace(t), s.cwd);
      && ParentOf(abspath) in s.fs && s.fs[ParentOf(abspath)].isDir && !IsDir(s.fs, abspath)
      && (Slot(abspath) in s.fs ==> !s.fs[Slot(abspath)].isDir)
    ensures var abspath := Normalize(StripSpace(t), s.cwd);
      var before := if op == ">>" && Exists(s.fs, abspath) then s.fs[Parts(abspath)].content else "";
      var file := Entry(false, before + (Join(words, " ") + "\n"), h.username, "rw-r--r--");
      RunSegment(h, a + op + t, s) == (Ran(s.(fs := s.fs[Slot(abspath) := file]), "", 0), NO_META)
  {
    hide Normalize, Parts, ParentOf, NameOf, StripSpace, IsOneStage, QuoteAfter, ParseCommand, Redirected, HandlerOf;
    hide WellFormed, NamesAreFlat, Join, ExpandAll;
    RedirectIsCut(h, a, op, t, s.env);
    assert DropSudo(["echo"] + words) == ["echo"] + words;
    ExpandPlain(h, ["echo"] + words, s.env);
    var to := Redirect(op == ">>", StripSpace(t));
    HandlersAre();
    assert (["echo"] + words)[1..] == words;
    RedirectAnswers(h, to, Join(words, " ") + "\n", 0, s);
  }

  // Commands about the session itself

  lemma SessionAnswers(h: Host, s: State)
    ensures RunParsed(h, Command(["pwd"]), s).0 == Ran(s, s.cwd + "\n", 0)
    ensures RunParsed(h, Command(["whoami"]), s).0 == Ran(s, h.username + "\n", 0)
  {
    hide HandlerOf;
    HandlersAre();
    CommandRuns(h, "pwd", [], s);
    CommandRuns(h, "whoami", [], s);
    assert ["pwd"] + [] == ["pwd"] && ["whoami"] + [] == ["whoami"];
  }

  /** The commands this model leaves open see their own name, their arguments, the variables and the history. */
  lemma OpenCommands(h: Host, cmd: string, args: seq<string>, s: State)
    requires cmd in CANNED
    ensures RunParsed(h, Command([cmd] + args), s).0
      == Ran(s, h.canned(cmd, args, s.env, s.history).0, h.canned(cmd, args, s.env, s.history).1)
  {
    hide HandlerOf;
    CannedIsCanned(cmd);
    CommandRuns(h, cmd, args, s);
  }

  lemma CannedIsCanned(cmd: string)
    requires cmd in CANNED
    ensures HandlerOf(cmd) == Some(Canned)
  {
    var i :| 0 <= i < |CANNED| && CANNED[i] == cmd;
    CannedAt(i);
  }

  lemma CannedAt(i: nat)
    requires i < |CANNED|
    ensures HandlerOf(CANNED[i]) == Some(Canned)
  {
  }

  /** `cd` remembers where it left in OLDPWD and where it is in PWD, or says why it stays. */
  lemma CdAnswers(h: Host, target: string, s: State)
    requires target != "-" && (target == "" || target[0] != '~')
    ensures var ran := RunParsed(h, Command(["cd", target]), s).0; var to := Normalize(target, s.cwd);
      && (!Exists(s.fs, to) ==> ran == Ran(s, "bash: cd: " + target + ": No such file or directory\n", 1))
      && (Exists(s.fs, to) && !IsDir(s.fs, to) ==> ran == Ran(s, "bash: cd: " + target + ": Not a directory\n", 1))
      && (IsDir(s.fs, to) ==>
          && ran == Ran(State(s.fs, to, ran.state.env, s.history), "", 0)
          && ran.state.env.Keys == s.env.Keys + {"OLDPWD", "PWD"}
          && ran.state.env["OLDPWD"] == s.cwd && ran.state.env["PWD"] == to
          && forall v | v in s.env && v != "OLDPWD" && v != "PWD" :: ran.state.env[v] == s.env[v])
  {
    hide HandlerOf, Normalize, Parts;
    HandlersAre();
    CommandRuns(h, "cd", [target], s);
    assert ["cd"] + [target] == ["cd", target];
    assert "OLDPWD" != "PWD";
  }

  /** A bare `cd` goes home, `~` stands for home at the front of a path, and `-` is the old directory if one is
      known and the present one if not. */
  lemma CdSpecialTargets(h: Host, target: string, s: State)
    requires target != "-" && (target == "" || target[0] != '~')
    ensures var home := if h.username == "root" then "/root" else "/home/" + h.username;
      && RunCd(h, [], s) == RunCd(h, ["~"], s) == RunCd(h, [home], s)
      && RunCd(h, ["~" + target], s) == RunCd(h, [home + target], s)
    ensures "OLDPWD" in s.env && s.env["OLDPWD"] == target ==> RunCd(h, ["-"], s) == RunCd(h, [target], s)
    ensures "OLDPWD" !in s.env && s.cwd == target ==> RunCd(h, ["-"], s) == RunCd(h, [target], s)
  {
    hide Normalize, Exists, IsDir;
    var home := Home(h.username);
    assert home + "" == home && "~"[1..] == "" && ("~" + target)[1..] == target;
  }

  /** From a directory that still is one, `cd d` and then `cd -` come back. */
  lemma ThereAndBack(h: Host, target: string, s: State)
    requires Absolute(s.cwd) && Canonical(s.cwd) && IsDir(s.fs, s.cwd)
    ensures var there := RunCd(h, [target], s); var back := RunCd(h, ["-"], there.state);
      there.status == 0 ==>
        && back.status == 0 && back.state.cwd == s.cwd && back.state.fs == s.fs
        && back.state.env["PWD"] == s.cwd && back.state.env["OLDPWD"] == there.state.cwd
  {
    hide Parts, Normpath, CdTarget;
    var there := RunCd(h, [target], s);
    if there.status == 0 {
      assert there.state.env["OLDPWD"] == s.cwd by { assert "OLDPWD" != "PWD"; }
      BackTarget(h, there.state);
    }
  }

  lemma BackTarget(h: Host, s: State)
    requires "OLDPWD" in s.env && Absolute(s.env["OLDPWD"])
    ensures CdTarget(h, ["-"], s) == s.env["OLDPWD"]
  {
  }

  /** A command that is not in the table is not found, under the last component of its name. */
  lemma UnknownCommand(h: Host, name: string, args: seq<string>, piped: bool, redirect: Option<Redirect>, s: State)
    requires HandlerOf(name).None?
    ensures RunParsed(h, Parsed([name] + args, redirect, piped), s)
      == (Ran(s, Basename(name) + ": command not found\n", 127), Meta(piped, Some(name)))
    ensures forall dir, base | name == dir + "/" + base && '/' !in base :: Basename(name) == base
    ensures '/' !in name ==> Basename(name) == name
  {
    hide HandlerOf, Redirected, RunHandler;
    forall dir, base | name == dir + "/" + base && '/' !in base ensures Basename(name) == base {
      LastSlashIs(name, |dir|);
    }
  }

  const KNOWN: set<string> := {
    "echo", "pwd", "whoami", "id", "hostname", "uname", "ls", "dir", "cd", "cat", "mkdir", "rmdir", "rm", "touch",
    "env", "printenv", "set", "export", "which", "history", "clear", "ps", "uptime", "w", "who", "free", "df",
    "wget", "curl"}

  lemma KnownCommands(name: string)
    ensures HandlerOf(name).Some? <==> name in KNOWN
  {
  }
}
