/** Home directories and the prompt: `session/state.py`, and how `cd` reads what it prints. */
module HomeDirs {
  import opened Text
  import opened Paths
  import opened FlatFs
  import opened Shell
  import opened Vfs
  import Engine
  import Session

  /** Typing what the prompt shows goes nowhere else: `cd` resolves the display form to the working
      directory itself. It arrives at the same spelling exactly when that spelling is canonical. */
  lemma CdToDisplayedDirectory(h: Host, s: State)
    requires Absolute(s.cwd)
    ensures var shown := DisplayCwd(s.cwd, Home(h.username));
      var r := RunCd(h, [shown], s);
      && CdTarget(h, [shown], s) == s.cwd
      && (r.status == 0 <==> IsDir(s.fs, Normpath(s.cwd)))
      && (r.status != 0 ==> r.state == s)
      && (r.status == 0 ==> (r.state.cwd == s.cwd <==> Canonical(s.cwd)))
  {
    hide Normpath, Parts;
    var home := Home(h.username);
    var shown := DisplayCwd(s.cwd, home);
    if s.cwd == home {
      assert shown[1..] == "" && home + "" == home;
    } else if home + "/" <= s.cwd {
      assert shown[1..] == s.cwd[|home|..];
      assert s.cwd[..|home|] == home && home + s.cwd[|home|..] == s.cwd;
    }
    assert Normalize(s.cwd, s.cwd) == Normpath(s.cwd);
  }

  /** What the prompt shows: a tilde for the home directory and in front of what is below it. */
  lemma DisplayIs(cwd: string, username: string)
    ensures var home := if username == "root" then "/root" else "/home/" + username;
      && (cwd == home ==> DisplayCwd(cwd, home) == "~")
      && (Absolute(cwd) && DisplayCwd(cwd, home) == "~" ==> cwd == home)
      && (forall below | cwd == home + "/" + below :: DisplayCwd(cwd, home) == "~/" + below)
      && ((forall below :: cwd != home + "/" + below) && cwd != home ==> DisplayCwd(cwd, home) == cwd)
  {
    var home := Home(username);
    forall below | cwd == home + "/" + below ensures DisplayCwd(cwd, home) == "~/" + below {
      assert home + "/" <= cwd && cwd[|home|..] == "/" + below;
      assert "~" + ("/" + below) == "~/" + below;
    }
    if home + "/" <= cwd {
      assert cwd == home + "/" + cwd[|home| + 1..];
      assert ("~" + cwd[|home|..])[1] == '/';
    }
  }

  /** A login name gives a canonical home directory exactly when each of its components is a proper
      name: "", "a/..", "." and "x/" do not. */
  lemma HomeIsCanonical(username: string)
    ensures Canonical(Home(username)) <==> username == "root" || AllClean(Split(username, '/'))
  {
    if username == "root" {
      assert Clean("root");
      RenderReadsBack(1, ["root"]);
      assert Home(username) == Render(1, ["root"]);
    } else {
      HomeParts(username);
      var comps := ["home"] + Split(username, '/');
      CanonicalComponents(Home(username), comps);
      assert Clean("home");
      assert forall c :: c in comps <==> c == "home" || c in Split(username, '/');
    }
  }

  lemma HomeParts(username: string)
    ensures Split("/home/" + username, '/') == [""] + (["home"] + Split(username, '/'))
    ensures LeadingSlashes("/home/" + username) == 1
  {
    var home := "/home/" + username;
    assert home == "/home" + ['/'] + username && home[1] == 'h';
    hide Split;
    SplitAround("/home", '/', username);
    assert "/home" == "" + ['/'] + "home";
    SplitAround("", '/', "home");
    SplitWithoutSeparator("home", '/');
    SplitWithoutSeparator("", '/');
    var tail := Split(username, '/');
    assert [""] + ["home"] + tail == [""] + (["home"] + tail);
  }

  /** How `build_session_state` makes sure of the home directory. */
  ghost function PrepareHome(m: Flat, username: string): Changed {
    var home := Home(username);
    if IsDir(m, home) then Changed(m, None) else Makedirs(m, Split(Strip(home, IsSlash), '/'), username)
  }

  method EnsureHome(fs: VirtualFS, username: string) returns (error: Option<VfsError>)
    requires fs.Valid()
    modifies fs, fs.nodes.Values
    ensures fs.Valid() && fresh(fs.nodes.Values - old(fs.nodes.Values))
    ensures Changed(fs.Flat(), error) == PrepareHome(old(fs.Flat()), username)
  {
    hide Home, Split, Strip, FlatFs.Makedirs;
    var home := Home(username);
    var found := fs.IsDir(home);
    if !found {
      error := fs.Makedirs(home, username);
    } else {
      error := None;
    }
  }

  /** After that the session starts in an existing directory exactly when it was there before, or no
      component of the path is empty. */
  lemma HomeExistsAfterwards(m: Flat, username: string)
    requires WellFormed(m) && PrepareHome(m, username).error.None?
    ensures IsDir(PrepareHome(m, username).fs, Home(username)) <==>
      IsDir(m, Home(username)) || forall c | c in Parts(Home(username)) :: c != ""
  {
    var home := Home(username);
    assert home != "/" by { assert |home| > 1; }
    if !IsDir(m, home) {
      MakedirsThenLookup(m, Parts(home), username);
      MakedirsIsExact(m, Parts(home), username);
      SolidOfSolid(Parts(home));
      var cs := Solid(Parts(home));
      assert cs[..|cs|] == cs;
      var m' := PrepareHome(m, username).fs;
    }
  }

  // A new session

  /** What `_seed_fs` fills a filesystem with, one call at a time. */
  datatype Seed = SeedDir(path: string, owner: string) | SeedFile(path: string, content: string, owner: string)

  ghost function Planted(m: Flat, seed: Seed): Changed {
    match seed
    case SeedDir(path, owner) => Makedirs(m, Split(Strip(path, IsSlash), '/'), owner)
    case SeedFile(path, content, owner) => WriteFile(m, path, content, owner)
  }

  /** None if one of the calls raises. */
  ghost function Seeded(m: Flat, seeds: seq<Seed>): Option<Flat>
    decreases |seeds|
  {
    if seeds == [] then Some(m)
    else
      var r := Planted(m, seeds[0]);
      if r.error.Some? then None else Seeded(r.fs, seeds[1..])
  }

  const EMPTY_FS: Flat := map[[] := NewDir("root")]

  /** `build_session_state`; none if it raises. */
  ghost function BuildSession(username: string, seeds: seq<Seed>, env: map<string, string>): Option<State> {
    var m := Seeded(EMPTY_FS, seeds);
    if m.None? || PrepareHome(m.value, username).error.Some? then None
    else
      var home := Home(username);
      Some(State(PrepareHome(m.value, username).fs, home, env["HOME" := home]["PWD" := home], []))
  }

  lemma PlantedKeeps(m: Flat, seed: Seed)
    requires WellFormed(m) && NamesAreFlat(m)
    ensures WellFormed(Planted(m, seed).fs) && NamesAreFlat(Planted(m, seed).fs)
  {
    hide WellFormed, NamesAreFlat, Makedirs, WriteFile, Split, Strip;
    var content := if seed.SeedFile? then seed.content else "";
    OperationsKeepWellFormed(m, seed.path, content, seed.owner);
    OperationsKeepNames(m, seed.path, content, seed.owner);
    MakedirsKeepsWellFormed(m, Split(Strip(seed.path, IsSlash), '/'), seed.owner);
  }

  lemma {:induction false} SeededKeeps(m: Flat, seeds: seq<Seed>)
    requires WellFormed(m) && NamesAreFlat(m)
    ensures Seeded(m, seeds).Some? ==> WellFormed(Seeded(m, seeds).value) && NamesAreFlat(Seeded(m, seeds).value)
    decreases |seeds|
  {
    hide WellFormed, NamesAreFlat, Planted;
    if seeds != [] {
      PlantedKeeps(m, seeds[0]);
      SeededKeeps(Planted(m, seeds[0]).fs, seeds[1..]);
    }
  }

  /** Every session that is built is a reachable one, whatever the login name, and `PWD` names its working
      directory; that directory is canonical exactly for the login names above. */
  lemma BuiltSessionIsReachable(username: string, seeds: seq<Seed>, env: map<string, string>)
    ensures var s := BuildSession(username, seeds, env);
      s.Some? ==>
        && Session.Inv(s.value)
        && s.value.env["PWD"] == s.value.cwd
        && (Canonical(s.value.cwd) <==> username == "root" || AllClean(Split(username, '/')))
  {
    hide WellFormed, NamesAreFlat, Makedirs, Split, Strip, Canonical, AllClean, IsDir;
    HomeIsCanonical(username);
    EmptyFsIsOk();
    SeededKeeps(EMPTY_FS, seeds);
    var m := Seeded(EMPTY_FS, seeds);
    if m.Some? {
      var home := Home(username);
      assert Absolute(home);
      OperationsKeepNames(m.value, home, "", username);
      MakedirsKeepsWellFormed(m.value, Split(Strip(home, IsSlash), '/'), username);
    }
  }

  /** It starts at home, says so in HOME and PWD, has no history, and a home that was missing is the user's. */
  lemma SessionStarts(username: string, seeds: seq<Seed>, env: map<string, string>)
    ensures var s := BuildSession(username, seeds, env); var m := Seeded(EMPTY_FS, seeds);
      var home := if username == "root" then "/root" else "/home/" + username;
      s.Some? ==>
        && m.Some? && s.value.cwd == home && s.value.history == []
        && s.value.env == env + map["HOME" := home, "PWD" := home]
        && (forall p | p in m.value :: p in s.value.fs && s.value.fs[p] == m.value[p])
        && (forall p | p in s.value.fs && p !in m.value :: s.value.fs[p] == Entry(true, "", username, "rwxr-xr-x"))
  {
    hide WellFormed, NamesAreFlat, Makedirs, Split, Strip, IsDir, Seeded;
    EmptyFsIsOk();
    SeededKeeps(EMPTY_FS, seeds);
    var m := Seeded(EMPTY_FS, seeds);
    if m.Some? {
      MakedirsIsExact(m.value, Split(Strip(Home(username), IsSlash), '/'), username);
    }
  }

  /** One seed after another, until a call raises. */
  lemma {:induction false} SeedsInTurn(m: Flat, seeds: seq<Seed>, seed: Seed)
    ensures var before := Seeded(m, seeds);
      Seeded(m, seeds + [seed]) ==
        if before.None? then None
        else
          var r := Planted(before.value, seed);
          if r.error.Some? then None else Some(r.fs)
    decreases |seeds|
  {
    hide Planted;
    if seeds == [] {
      assert seeds + [seed] == [seed] && [seed][1..] == [];
    } else {
      assert (seeds + [seed])[0] == seeds[0] && (seeds + [seed])[1..] == seeds[1..] + [seed];
      SeedsInTurn(Planted(m, seeds[0]).fs, seeds[1..], seed);
    }
  }

  lemma EmptyFsIsOk()
    ensures WellFormed(EMPTY_FS) && NamesAreFlat(EMPTY_FS)
  {
  }

  method SeedFs(seeds: seq<Seed>) returns (fs: Option<VirtualFS>)
    ensures fs.Some? ==> fresh(fs.value) && fs.value.Valid() && fresh(fs.value.nodes.Values)
    ensures Seeded(EMPTY_FS, seeds) == if fs.Some? then Some(fs.value.Flat()) else None
  {
    hide VirtualFS.Valid, FlatOf, FlatFs.Makedirs, FlatFs.WriteFile, Split, Strip;
    var made := new VirtualFS();
    assert seeds[0..] == seeds;
    for i := 0 to |seeds|
      invariant made.Valid() && fresh(made) && fresh(made.nodes.Values)
      invariant Seeded(EMPTY_FS, seeds) == Seeded(made.Flat(), seeds[i..])
    {
      assert seeds[i..][1..] == seeds[i + 1..];
      var error;
      match seeds[i] {
        case SeedDir(path, owner) => error := made.Makedirs(path, owner);
        case SeedFile(path, content, owner) => error := made.WriteFile(path, content, owner);
      }
      if error.Some? {
        return None;
      }
    }
    fs := Some(made);
  }

  method BuildSessionState(host: Host, seeds: seq<Seed>, env: map<string, string>)
    returns (state: Option<Engine.SessionState>)
    ensures state.Some? ==> fresh(state.value) && state.value.Valid() && state.value.host == host
    ensures BuildSession(host.username, seeds, env) == if state.Some? then Some(state.value.Abs()) else None
  {
    hide VirtualFS.Valid, FlatOf, PrepareHome, Seeded, Home;
    var fs := SeedFs(seeds);
    if fs.None? {
      return None;
    }
    var error := EnsureHome(fs.value, host.username);
    if error.Some? {
      return None;
    }
    var home := Home(host.username);
    var made := new Engine.SessionState(host, fs.value, home, env["HOME" := home]["PWD" := home]);
    state := Some(made);
  }
}
