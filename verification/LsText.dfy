/** What `ls` prints: the names of a directory, which can be read back, the details a long listing gives of
    each, and the messages. */
module LsText {
  import opened Text
  import opened Paths
  import opened FlatFs
  import opened Shell
  import opened Session
  import opened Commands
  import Names
  import Listing

  // Targets

  lemma Blocks(h: Host, opts: LsOptions, t: string, s: State)
    ensures var one := LsOne(h, opts, t, s);
      LsEach(h, opts, [t], s) == if one.StatRaised? then None else Some((one.text, if one.missing then 2 else 0))
  {
    hide LsOne;
    assert [t][1..] == [];
    var one := LsOne(h, opts, t, s);
    assert one.Block? ==> one.text + "" == one.text;
  }

  /** One list of targets after another: the blocks follow each other, and one missing path makes the
      status 2. */
  lemma {:induction false} TargetsInTurn(h: Host, opts: LsOptions, a: seq<string>, b: seq<string>, s: State)
    ensures var x, y := LsEach(h, opts, a, s), LsEach(h, opts, b, s);
      && LsEach(h, opts, a + b, s) ==
        (if x.None? || y.None? then None
         else Some((x.value.0 + y.value.0, if x.value.1 == 2 then 2 else y.value.1)))
      && (x.Some? ==> x.value.1 in {0, 2})
  {
    hide LsOne;
    var y := LsEach(h, opts, b, s);
    if a == [] {
      assert a + b == b;
      assert y.Some? ==> "" + y.value.0 == y.value.0;
    } else {
      assert (a + b)[0] == a[0] && (a + b)[1..] == a[1..] + b;
      TargetsInTurn(h, opts, a[1..], b, s);
      var one, x := LsOne(h, opts, a[0], s), LsEach(h, opts, a[1..], s);
      if one.Block? && x.Some? && y.Some? {
        assert one.text + x.value.0 + y.value.0 == one.text + (x.value.0 + y.value.0);
      }
    }
  }

  lemma LsRuns(h: Host, cmd: string, opts: LsOptions, args: seq<string>, t: string, s: State)
    requires cmd == "ls" || cmd == "dir"
    requires LsArguments(args) == opts && (opts.paths == [t] || (opts.paths == [] && t == "."))
    ensures var one := LsOne(h, opts, t, s);
      RunParsed(h, Command([cmd] + args), s).0 ==
        if one.StatRaised? then Raised(s) else Ran(s, one.text, if one.missing then 2 else 0)
  {
    hide LsArguments, HandlerOf, LsOne;
    HandlersAre();
    CommandRuns(h, cmd, args, s);
    Blocks(h, opts, t, s);
  }

  lemma PlainTarget(t: string)
    requires !IsFlag(t)
    ensures LsArguments([]) == LsOptions(false, false, []) && LsArguments([t]) == LsOptions(false, false, [t])
    ensures LsArguments(["-a", t]) == LsOptions(true, false, [t])
    ensures LsArguments(["-l", t]) == LsOptions(false, true, [t])
    ensures LsArguments(["-la", t]) == LsOptions(true, true, [t])
  {
    assert [t][1..] == [] && [t] + [] == [t];
    assert ["-a", t][1..] == [t] && ["-l", t][1..] == [t] && ["-la", t][1..] == [t];
    assert 'a' in "-a" && 'l' !in "-a" && 'l' in "-l" && 'a' !in "-l" && "-la"[1] == 'l' && "-la"[2] == 'a';
  }

  // Short listings

  /** `names` is what a directory holds, in code-point order. */
  ghost predicate Holds(m: Flat, p: Path, names: seq<string>) {
    Names.Ascending(names) && forall n :: n in names <==> p + [n] in m
  }

  lemma ListingHolds(m: Flat, p: Path)
    ensures Holds(m, p, Names.Listing(Children(m, p)))
    ensures forall names | Holds(m, p, names) :: names == Names.Listing(Children(m, p))
  {
    hide Children;
    var listed := Names.Listing(Children(m, p));
    forall n ensures n in listed <==> p + [n] in m {
      ChildrenAreOneBelow(m, p, n);
    }
    forall names | Holds(m, p, names) ensures names == listed {
      Names.ListingIsUnique(names, listed, Children(m, p));
    }
  }

  /** `ls t` and `ls -a t`: the names in order, in columns that can be told apart unless a name has a blank in
      it; nothing for an empty directory; the path itself if it is a file. */
  lemma LsAnswers(h: Host, all: bool, t: string, names: seq<string>, s: State)
    requires !IsFlag(t)
    ensures var ran := RunParsed(h, Command(["ls"] + if all then ["-a", t] else [t]), s).0;
      var p := Parts(Normalize(t, s.cwd));
      && (p !in s.fs ==> ran == Ran(s, "ls: cannot access '" + t + "': No such file or directory\n", 2))
      && (p in s.fs && !s.fs[p].isDir ==> ran == Ran(s, t + "\n", 0))
      && (p in s.fs && s.fs[p].isDir && Holds(s.fs, p, names) ==>
          var shown := if all then [".", ".."] + names else names;
          && ran.Ran? && ran.state == s && ran.status == 0
          && (shown == [] <==> ran.text == "")
          && (AreWords(shown) && shown != [] ==> ran.text == Join(shown, "  ") + "\n" && Words(ran.text) == shown))
  {
    hide Normalize, Parts, LsArguments, HandlerOf, RunParsed, Holds, Join, IsWord;
    var opts := LsOptions(all, false, [t]);
    PlainTarget(t);
    LsRuns(h, "ls", opts, if all then ["-a", t] else [t], t, s);
    var p := Parts(Normalize(t, s.cwd));
    ListingHolds(s.fs, p);
    if p in s.fs && s.fs[p].isDir && Holds(s.fs, p, names) {
      var shown := if all then [".", ".."] + names else names;
      if AreWords(shown) && shown != [] { WordsOfColumns(shown); }
      assert shown != [] ==> |Join(shown, "  ") + "\n"| > 0;
    }
  }

  /** Without a path it is the working directory; `dir` is `ls`. */
  lemma LsOfNothing(h: Host, s: State)
    ensures RunParsed(h, Command(["ls"]), s).0 == RunParsed(h, Command(["ls", "."]), s).0
    ensures RunParsed(h, Command(["dir"]), s).0 == RunParsed(h, Command(["ls"]), s).0
  {
    hide LsArguments, HandlerOf, RunParsed, LsOne;
    assert !IsFlag(".");
    PlainTarget(".");
    assert ["ls"] + [] == ["ls"] && ["dir"] + [] == ["dir"] && ["ls"] + ["."] == ["ls", "."];
    LsRuns(h, "ls", LsOptions(false, false, []), [], ".", s);
    LsRuns(h, "dir", LsOptions(false, false, []), [], ".", s);
    LsRuns(h, "ls", LsOptions(false, false, ["."]), ["."], ".", s);
    SameBlock(h, s);
  }

  lemma SameBlock(h: Host, s: State)
    ensures LsOne(h, LsOptions(false, false, []), ".", s) == LsOne(h, LsOptions(false, false, ["."]), ".", s)
  {
    hide Normalize, Exists, IsDir, Children;
  }

  // Long listings

  lemma {:induction false} RowsAre(m: Flat, abspath: string, names: seq<string>)
    ensures var rows := StatEach(m, abspath, names);
      rows.Some? ==>
        && |rows.value| == |names|
        && forall i | 0 <= i < |names| ::
          && rows.value[i].0 == names[i]
          && (IsDots(names[i]) ==> rows.value[i].1 == None)
          && (!IsDots(names[i]) ==>
              var info := Stat(m, Normalize(names[i], abspath)); info.Found? && rows.value[i].1 == Some(info.value))
  {
    hide Stat, Normalize, IsDots;
    if names != [] {
      RowsAre(m, abspath, names[1..]);
    }
  }

  /** The row a long listing has for an entry: its name, kind, size, owner and mode. */
  function RowOf(name: string, e: Entry): (string, Option<NodeInfo>) {
    (name, Some(NodeInfo(name, e.isDir, if e.isDir then 4096 else Utf8Length(e.content), e.owner, e.mode)))
  }

  /** `ls -l t` and `ls -la t` give the details of each entry of the directory, wherever lookups go where
      listings do, and none of the dots. */
  lemma LongListingShows(h: Host, all: bool, t: string, names: seq<string>, s: State)
    requires Inv(s) && !IsFlag(t)
    requires var abspath := Normalize(t, s.cwd);
      Canonical(abspath) && abspath != "//" && IsDir(s.fs, abspath) && Holds(s.fs, Parts(abspath), names)
    requires forall n | n in names :: Clean(n)
    ensures var p := Parts(Normalize(t, s.cwd)); var shown := if all then [".", ".."] + names else names;
      RunParsed(h, Command(["ls"] + [if all then "-la" else "-l", t]), s).0
        == Ran(s, h.longListing(seq(|shown|, i requires 0 <= i < |shown| =>
             if p + [shown[i]] in s.fs then RowOf(shown[i], s.fs[p + [shown[i]]]) else (shown[i], None))), 0)
  {
    hide Normalize, Parts, LsArguments, HandlerOf, RunParsed, Resolved, Clean, StatEach, WellFormed, Utf8Length;
    hide Canonical, NamesAreFlat;
    var opts := LsOptions(all, true, [t]);
    var m, abspath := s.fs, Normalize(t, s.cwd);
    var p, shown := Parts(abspath), if all then [".", ".."] + names else names;
    PlainTarget(t);
    LsRuns(h, "ls", opts, [if all then "-la" else "-l", t], t, s);
    ListingHolds(m, p);
    Listing.LongListingRaises(h, opts, t, s);
    RowsAre(m, abspath, shown);
    DotsAreNotClean();
    var rows := StatEach(m, abspath, shown).value;
    forall i | 0 <= i < |shown|
      ensures rows[i] == if p + [shown[i]] in m then RowOf(shown[i], m[p + [shown[i]]]) else (shown[i], None)
    {
      if shown[i] in names {
        RowOfChild(m, abspath, shown[i]);
      } else {
        assert IsDots(shown[i]);
      }
    }
    assert rows == seq(|shown|, i requires 0 <= i < |shown| =>
      if p + [shown[i]] in m then RowOf(shown[i], m[p + [shown[i]]]) else (shown[i], None));
  }

  lemma DotsAreNotClean()
    ensures !Clean(".") && !Clean("..")
  {
  }

  lemma RowOfChild(m: Flat, abspath: string, name: string)
    requires Canonical(abspath) && abspath != "//" && Clean(name) && Parts(abspath) + [name] in m
    ensures !IsDots(name)
    ensures var e := m[Parts(abspath) + [name]];
      Stat(m, Normalize(name, abspath)) == Found(RowOf(name, e).1.value)
  {
    hide Normalize, Parts, Resolved, Canonical, Utf8Length, Normpath;
    Listing.ResolvedOfCanonical(abspath);
    CanonicalIsAbsolute(abspath);
    Listing.PathOfChild(abspath, name);
  }

  lemma CanonicalIsAbsolute(abspath: string)
    ensures Canonical(abspath) ==> Absolute(abspath)
  {
  }
}
