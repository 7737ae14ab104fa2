/** The simple filesystem the node tree stands for: a finite map from component lists to entries.
    Each operation is defined here once, on the map; `Vfs` proves the tree operations against it. */
module FlatFs {
  import opened Text
  import opened Paths

  datatype VfsError = NoSuchFile | NotADirectory | IsADirectory | FileExists | NotPermitted | NotEmpty

  datatype Found<+T> = Found(value: T) | Failed(error: VfsError)

  datatype Entry = Entry(isDir: bool, content: string, owner: string, mode: string)

  type Flat = map<Path, Entry>

  /** What `stat` tells of a node. */
  datatype NodeInfo = NodeInfo(name: string, isDir: bool, size: nat, owner: string, mode: string)

  function NodeName(p: Path): string {
    if p == [] then "/" else p[|p| - 1]
  }

  /** `len(content.encode("utf-8"))` */
  function Utf8Length(content: string): nat {
    if content == "" then 0
    else
      var c := content[0];
      (if c < '\U{80}' then 1 else if c < '\U{800}' then 2 else if c < '\U{10000}' then 3 else 4)
      + Utf8Length(content[1..])
  }

  /** A changed filesystem, and the error the caller sees, if any. */
  datatype Changed = Changed(fs: Flat, error: Option<VfsError>)

  function NewDir(owner: string): Entry {
    Entry(true, "", owner, "rwxr-xr-x")
  }

  function NewFile(content: string, owner: string): Entry {
    Entry(false, content, owner, "rw-r--r--")
  }

  /** What every reachable filesystem satisfies: there is a root directory, and every other entry
      sits in a directory. So files have no children. */
  ghost predicate WellFormed(m: Flat) {
    && [] in m && m[[]].isDir
    && forall p | p in m && p != [] :: Up(p) in m && m[Up(p)].isDir
  }

  function Up(p: Path): Path
    requires p != []
  {
    p[..|p| - 1]
  }

  /** Some proper prefix of `p` is a file. */
  ghost predicate BlockedByFile(m: Flat, p: Path) {
    p != [] && ((Up(p) in m && !m[Up(p)].isDir) || BlockedByFile(m, Up(p)))
  }

  /** `_resolve`: a missing path is "Not a directory" when a file stands in the way. */
  ghost function Lookup(m: Flat, p: Path): Found<Entry> {
    if p in m then Found(m[p]) else Failed(if BlockedByFile(m, p) then NotADirectory else NoSuchFile)
  }

  ghost function Read(m: Flat, abspath: string): Found<string> {
    match Lookup(m, Parts(abspath))
    case Failed(e) => Failed(e)
    case Found(entry) => if entry.isDir then Failed(IsADirectory) else Found(entry.content)
  }

  ghost function Stat(m: Flat, abspath: string): Found<NodeInfo> {
    match Lookup(m, Parts(abspath))
    case Failed(e) => Failed(e)
    case Found(entry) =>
      var size := if entry.isDir then 4096 else Utf8Length(entry.content);
      Found(NodeInfo(NodeName(Parts(abspath)), entry.isDir, size, entry.owner, entry.mode))
  }

  predicate Exists(m: Flat, abspath: string) {
    Parts(abspath) in m
  }

  predicate IsDir(m: Flat, abspath: string) {
    Parts(abspath) in m && m[Parts(abspath)].isDir
  }

  ghost function Children(m: Flat, p: Path): set<string> {
    set q | q in m && |q| == |p| + 1 && p <= q :: q[|p|]
  }

  /** The directory `mkdir` and `write_file` would put a new entry in, if it can be used. */
  ghost function UsableParent(m: Flat, abspath: string): Option<VfsError> {
    match Lookup(m, ParentOf(abspath))
    case Failed(e) => Some(e)
    case Found(dir) => if dir.isDir then None else Some(NotADirectory)
  }

  ghost function Mkdir(m: Flat, abspath: string, owner: string): Changed {
    var bad := UsableParent(m, abspath);
    if bad.Some? then Changed(m, bad)
    else if Slot(abspath) in m then Changed(m, Some(FileExists))
    else Changed(m[Slot(abspath) := NewDir(owner)], None)
  }

  ghost function WriteFile(m: Flat, abspath: string, content: string, owner: string): Changed {
    var bad := UsableParent(m, abspath);
    if bad.Some? then Changed(m, bad)
    else if Slot(abspath) in m && m[Slot(abspath)].isDir then Changed(m, Some(IsADirectory))
    else Changed(m[Slot(abspath) := NewFile(content, owner)], None)
  }

  /** The map without `p` and everything below it. */
  ghost function Prune(m: Flat, p: Path): Flat {
    map q | q in m && !(p <= q) :: m[q]
  }

  ghost function Remove(m: Flat, abspath: string): Changed {
    if abspath == "/" then Changed(m, Some(NotPermitted))
    else
      match Lookup(m, ParentOf(abspath))
      case Failed(e) => Changed(m, Some(e))
      case Found(_) =>
        if Slot(abspath) in m then Changed(Prune(m, Slot(abspath)), None) else Changed(m, Some(NoSuchFile))
  }

  /** The components `makedirs` walks: it skips empty ones. */
  function Solid(parts: Path): (cs: Path)
    ensures forall c | c in cs :: c != ""
  {
    if parts == [] then [] else (if parts[0] == "" then [] else [parts[0]]) + Solid(parts[1..])
  }

  /** Every missing prefix of `cs`, as an empty directory. */
  ghost function MissingDirs(m: Flat, cs: Path, owner: string): Flat {
    if cs == [] then map[]
    else if cs in m then MissingDirs(m, Up(cs), owner)
    else MissingDirs(m, Up(cs), owner)[cs := NewDir(owner)]
  }

  /** All or nothing: a file anywhere on the way, the last component included, leaves the map alone. */
  ghost function Makedirs(m: Flat, parts: Path, owner: string): Changed {
    var cs := Solid(parts);
    if BlockedByFile(m, cs) || (cs in m && !m[cs].isDir) then Changed(m, Some(NotADirectory))
    else Changed(m + MissingDirs(m, cs, owner), None)
  }

  /** The same, one component at a time from the directory `cs`. */
  ghost function MakedirsFrom(m: Flat, cs: Path, parts: Path, owner: string): Changed
    decreases |parts|
  {
    if parts == [] then Changed(m, None)
    else if parts[0] == "" then MakedirsFrom(m, cs, parts[1..], owner)
    else
      var next := cs + [parts[0]];
      if next !in m then MakedirsFrom(m[next := NewDir(owner)], next, parts[1..], owner)
      else if m[next].isDir then MakedirsFrom(m, next, parts[1..], owner)
      else Changed(m, Some(NotADirectory))
  }

  /** One round of that walk. */
  lemma MakedirsStep(m: Flat, cs: Path, parts: Path, i: nat, owner: string)
    requires i < |parts|
    ensures var next := cs + [parts[i]]; var rest := parts[i + 1..];
      MakedirsFrom(m, cs, parts[i..], owner) ==
        if parts[i] == "" then MakedirsFrom(m, cs, rest, owner)
        else if next !in m then MakedirsFrom(m[next := NewDir(owner)], next, rest, owner)
        else if m[next].isDir then MakedirsFrom(m, next, rest, owner)
        else Changed(m, Some(NotADirectory))
  {
    assert parts[i..][1..] == parts[i + 1..];
  }

  lemma MakedirsEnds(m: Flat, cs: Path, parts: Path, owner: string)
    ensures MakedirsFrom(m, cs, parts[|parts|..], owner) == Changed(m, None)
  {
  }

  // What every operation keeps

  lemma {:induction false} PrefixesExist(m: Flat, p: Path, k: nat)
    requires WellFormed(m) && p in m && k <= |p|
    ensures p[..k] in m && (k < |p| ==> m[p[..k]].isDir)
  {
    if k == |p| {
      assert p[..k] == p;
    } else {
      PrefixesExist(m, Up(p), k);
      assert Up(p)[..k] == p[..k];
      assert k == |p| - 1 ==> p[..k] == Up(p);
    }
  }

  lemma {:induction false} NotBlocked(m: Flat, p: Path)
    requires WellFormed(m) && p in m
    ensures !BlockedByFile(m, p)
  {
    if p != [] {
      NotBlocked(m, Up(p));
    }
  }

  lemma AncestorsExist(m: Flat, p: Path)
    requires WellFormed(m)
    ensures forall q | q in m && p <= q :: p in m
  {
    forall q | q in m && p <= q ensures p in m {
      PrefixesExist(m, q, |p|);
      assert q[..|p|] == p;
    }
  }

  /** The walk along `parts` ends where the first prefix is missing; what it met there says why. */
  lemma {:induction false} LookupStops(m: Flat, parts: Path, i: nat)
    requires WellFormed(m) && i < |parts| && parts[..i] in m && parts[..i + 1] !in m
    ensures parts !in m && Lookup(m, parts) == Failed(if m[parts[..i]].isDir then NoSuchFile else NotADirectory)
  {
    if |parts| == i + 1 {
      assert parts[..i + 1] == parts && Up(parts) == parts[..i];
      NotBlocked(m, parts[..i]);
    } else {
      assert Up(parts)[..i] == parts[..i] && Up(parts)[..i + 1] == parts[..i + 1];
      LookupStops(m, Up(parts), i);
    }
  }

  lemma AddKeepsWellFormed(m: Flat, p: Path, name: string, entry: Entry)
    requires WellFormed(m) && p in m && m[p].isDir
    requires p + [name] in m ==> m[p + [name]].isDir == entry.isDir
    ensures WellFormed(m[p + [name] := entry])
  {
    var m' := m[p + [name] := entry];
    forall q | q in m' && q != [] ensures Up(q) in m' && m'[Up(q)].isDir {
      if q == p + [name] { assert Up(q) == p; }
    }
  }

  lemma PruneKeepsWellFormed(m: Flat, p: Path)
    requires WellFormed(m) && p != []
    ensures WellFormed(Prune(m, p))
  {
    var m' := Prune(m, p);
    forall q | q in m' && q != [] ensures Up(q) in m' && m'[Up(q)].isDir {
      assert p <= Up(q) ==> p <= q;
    }
  }

  lemma {:induction false} MissingDirsAre(m: Flat, cs: Path, owner: string)
    requires WellFormed(m)
    ensures forall q :: q in MissingDirs(m, cs, owner) <==> q <= cs && q !in m
    ensures forall q | q in MissingDirs(m, cs, owner) :: MissingDirs(m, cs, owner)[q] == NewDir(owner)
  {
    if cs != [] {
      MissingDirsAre(m, Up(cs), owner);
      forall q ensures q in MissingDirs(m, cs, owner) <==> q <= cs && q !in m {
        if q <= cs && q != cs { assert q == cs[..|q|] == Up(cs)[..|q|]; }
      }
    }
  }

  lemma {:induction false} NoneMissing(m: Flat, cs: Path, owner: string)
    requires WellFormed(m) && cs in m
    ensures MissingDirs(m, cs, owner) == map[]
  {
    if cs != [] {
      NoneMissing(m, Up(cs), owner);
    }
  }

  lemma {:induction false} NotBlockedMeans(m: Flat, cs: Path, k: nat)
    requires k <= |cs|
    requires !BlockedByFile(m, cs) && (cs in m ==> m[cs].isDir)
    ensures cs[..k] in m ==> m[cs[..k]].isDir
  {
    if k == |cs| {
      assert cs[..k] == cs;
    } else {
      assert Up(cs)[..k] == cs[..k];
      NotBlockedMeans(m, Up(cs), k);
    }
  }

  lemma {:induction false} BlockedMeans(m: Flat, cs: Path) returns (k: nat)
    requires BlockedByFile(m, cs)
    ensures k < |cs| && cs[..k] in m && !m[cs[..k]].isDir
  {
    if Up(cs) in m && !m[Up(cs)].isDir {
      k := |cs| - 1;
    } else {
      k := BlockedMeans(m, Up(cs));
      assert Up(cs)[..k] == cs[..k];
    }
  }

  /** No prefix of `cs`, itself included, is a file. */
  ghost predicate NoFileOn(m: Flat, cs: Path) {
    forall k | 0 <= k <= |cs| :: cs[..k] in m ==> m[cs[..k]].isDir
  }

  lemma NoFileOnMeans(m: Flat, cs: Path)
    ensures NoFileOn(m, cs) <==> !BlockedByFile(m, cs) && (cs in m ==> m[cs].isDir)
  {
    assert cs[..|cs|] == cs;
    if BlockedByFile(m, cs) {
      var k := BlockedMeans(m, cs);
    } else if cs in m ==> m[cs].isDir {
      forall k | 0 <= k <= |cs| ensures cs[..k] in m ==> m[cs[..k]].isDir {
        NotBlockedMeans(m, cs, k);
      }
    }
  }

  lemma MakedirsKeepsWellFormed(m: Flat, parts: Path, owner: string)
    requires WellFormed(m)
    ensures WellFormed(Makedirs(m, parts, owner).fs)
  {
    var cs := Solid(parts);
    var m' := Makedirs(m, parts, owner).fs;
    MissingDirsAre(m, cs, owner);
    if m' != m {
      forall q | q in m' && q != [] ensures Up(q) in m' && m'[Up(q)].isDir {
        if q !in m {
          assert Up(q) == cs[..|q| - 1];
          NotBlockedMeans(m, cs, |q| - 1);
        }
      }
    }
  }

  /** Reachable filesystems stay reachable. */
  lemma OperationsKeepWellFormed(m: Flat, abspath: string, content: string, owner: string)
    requires WellFormed(m)
    ensures WellFormed(Mkdir(m, abspath, owner).fs)
    ensures WellFormed(WriteFile(m, abspath, content, owner).fs)
    ensures WellFormed(Remove(m, abspath).fs)
    ensures WellFormed(Makedirs(m, Parts(abspath), owner).fs)
  {
    var p := ParentOf(abspath);
    if p in m && m[p].isDir {
      if Slot(abspath) !in m { AddKeepsWellFormed(m, p, NameOf(abspath), NewDir(owner)); }
      if Slot(abspath) !in m || !m[Slot(abspath)].isDir {
        AddKeepsWellFormed(m, p, NameOf(abspath), NewFile(content, owner));
      }
    }
    PruneKeepsWellFormed(m, Slot(abspath));
    MakedirsKeepsWellFormed(m, Parts(abspath), owner);
  }

  /** No name in the filesystem holds a slash. Names may be empty or dots. */
  ghost predicate NamesAreFlat(m: Flat) {
    forall p, c | p in m && c in p :: '/' !in c
  }

  lemma {:induction false} SolidIsPart(parts: Path)
    ensures forall c | c in Solid(parts) :: c in parts
  {
    if parts != [] {
      SolidIsPart(parts[1..]);
      assert forall c :: c in parts <==> c == parts[0] || c in parts[1..];
    }
  }

  lemma NameIsFlat(abspath: string)
    ensures '/' !in NameOf(abspath)
  {
  }

  /** Reachable filesystems have flat names. */
  lemma OperationsKeepNames(m: Flat, abspath: string, content: string, owner: string)
    requires WellFormed(m) && NamesAreFlat(m)
    ensures NamesAreFlat(Mkdir(m, abspath, owner).fs)
    ensures NamesAreFlat(WriteFile(m, abspath, content, owner).fs)
    ensures NamesAreFlat(Remove(m, abspath).fs)
    ensures NamesAreFlat(Makedirs(m, Split(Strip(abspath, IsSlash), '/'), owner).fs)
  {
    hide ParentOf, NameOf, WellFormed, Split, Strip, MissingDirs;
    NameIsFlat(abspath);
    forall p | p in m ensures forall c | c in p + [NameOf(abspath)] :: '/' !in c {}
    var parts := Split(Strip(abspath, IsSlash), '/');
    SplitHasNoSeparator(Strip(abspath, IsSlash), '/');
    SolidIsPart(parts);
    MissingDirsAre(m, Solid(parts), owner);
  }

  // What the operations achieve together

  /** A directory that `mkdir` reports made is there under the name it was asked for, and listed by its
      parent, exactly when the path is its own slot. The new entry is always somewhere. */
  lemma MkdirThenLookup(m: Flat, abspath: string, owner: string)
    requires WellFormed(m) && Mkdir(m, abspath, owner).error.None?
    ensures var m' := Mkdir(m, abspath, owner).fs;
      && (SlotIsPath(abspath) ==> !Exists(m, abspath) && IsDir(m', abspath))
      && (!SlotIsPath(abspath) ==> (Exists(m', abspath) <==> Exists(m, abspath)))
      && Children(m', ParentOf(abspath)) == Children(m, ParentOf(abspath)) + {NameOf(abspath)}
      && Children(m', Slot(abspath)) == {}
  {
    SlotIsPathExactly(abspath);
    var m' := Mkdir(m, abspath, owner).fs;
    var p, slot := ParentOf(abspath), Slot(abspath);
    assert slot in m' && p <= slot && slot[|p|] == NameOf(abspath);
    forall name | name in Children(m', p) ensures name in Children(m, p) + {NameOf(abspath)} {
      var q :| q in m' && |q| == |p| + 1 && p <= q && q[|p|] == name;
      if q == slot { assert name == NameOf(abspath); }
    }
    AncestorsExist(m, slot);
  }

  /** Writing then reading gives the text back, under the same condition on the path; and a second
      write overrides the first. */
  lemma WriteThenRead(m: Flat, abspath: string, content: string, owner: string)
    requires WriteFile(m, abspath, content, owner).error.None?
    ensures var m' := WriteFile(m, abspath, content, owner).fs;
      && (SlotIsPath(abspath) ==> Read(m', abspath) == Found(content))
      && (!SlotIsPath(abspath) && Exists(m, abspath) ==> Read(m', abspath) == Read(m, abspath))
      && (!SlotIsPath(abspath) && !Exists(m, abspath) ==> !Exists(m', abspath))
      && forall c2, o2 :: WriteFile(m', abspath, c2, o2) == WriteFile(m, abspath, c2, o2)
  {
    SlotIsPathExactly(abspath);
    var m' := WriteFile(m, abspath, content, owner).fs;
    var q, slot := Parts(abspath), Slot(abspath);
    assert ParentOf(abspath) != slot;
    forall c2, o2 ensures WriteFile(m', abspath, c2, o2) == WriteFile(m, abspath, c2, o2) {
      assert m'[slot := NewFile(c2, o2)] == m[slot := NewFile(c2, o2)];
    }
  }

  /** `remove` drops exactly the entry and everything below it, and nothing else changes. */
  lemma RemoveIsExact(m: Flat, abspath: string)
    requires WellFormed(m)
    ensures Remove(m, abspath).error.None? <==>
      abspath != "/" && Slot(abspath) in m
    ensures Remove(m, abspath).error.None? ==>
      forall q :: (q in Remove(m, abspath).fs <==> q in m && !(Slot(abspath) <= q))
    ensures forall q :: q in Remove(m, abspath).fs ==> q in m && Remove(m, abspath).fs[q] == m[q]
  {
    if Slot(abspath) in m {
      PrefixesExist(m, Slot(abspath), |ParentOf(abspath)|);
      assert Slot(abspath)[..|ParentOf(abspath)|] == ParentOf(abspath);
    }
  }

  /** Removing what a successful `mkdir` made, or a write to a new path, restores the filesystem. */
  lemma RemoveUndoesCreation(m: Flat, abspath: string, content: string, owner: string)
    requires WellFormed(m) && Slot(abspath) !in m && abspath != "/"
    ensures Mkdir(m, abspath, owner).error.None? ==>
      Remove(Mkdir(m, abspath, owner).fs, abspath) == Changed(m, None)
    ensures WriteFile(m, abspath, content, owner).error.None? ==>
      Remove(WriteFile(m, abspath, content, owner).fs, abspath) == Changed(m, None)
  {
    var slot := Slot(abspath);
    AncestorsExist(m, slot);
    assert Prune(m[slot := NewDir(owner)], slot) == m;
    assert Prune(m[slot := NewFile(content, owner)], slot) == m;
    assert slot != ParentOf(abspath);
  }

  lemma {:induction false} SolidOfSolid(parts: Path)
    ensures (forall c | c in parts :: c != "") <==> Solid(parts) == parts
    ensures |Solid(parts)| <= |parts|
  {
    if parts != [] {
      SolidOfSolid(parts[1..]);
      assert parts == [parts[0]] + parts[1..];
      assert forall c :: c in parts <==> c == parts[0] || c in parts[1..];
      if parts[0] != "" {
        assert Solid(parts)[1..] == Solid(parts[1..]);
      } else {
        assert parts[0] in parts;
      }
    }
  }

  /** The tree while `makedirs` walks: `now` is `was` with the missing prefixes of `cs` added, and no
      file has been met. */
  ghost predicate Walking(was: Flat, now: Flat, cs: Path, owner: string) {
    WellFormed(was) && now == was + MissingDirs(was, cs, owner) && NoFileOn(was, cs)
  }

  lemma WalkOneStep(was: Flat, now: Flat, cs: Path, name: string, owner: string)
    requires Walking(was, now, cs, owner)
    ensures var next := cs + [name];
      && (next in now ==> next in was && now[next] == was[next])
      && (next in now && !now[next].isDir ==> now == was)
      && (next in now && now[next].isDir ==> Walking(was, now, next, owner))
      && (next !in now ==> Walking(was, now[next := NewDir(owner)], next, owner))
  {
    var next := cs + [name];
    assert Up(next) == cs;
    MissingDirsAre(was, cs, owner);
    NoFileOnMeans(was, cs);
    NoFileOnMeans(was, next);
    if next in was {
      NoneMissing(was, cs, owner);
      assert was + map[] == was;
    }
  }

  lemma {:induction false} WalkFrom(was: Flat, now: Flat, cs: Path, parts: Path, all: Path, owner: string)
    requires Walking(was, now, cs, owner) && Solid(all) == cs + Solid(parts)
    ensures MakedirsFrom(now, cs, parts, owner) == Makedirs(was, all, owner)
    decreases |parts|
  {
    if parts == [] {
      assert Solid(all) == cs;
      NoFileOnMeans(was, cs);
    } else if parts[0] == "" {
      WalkFrom(was, now, cs, parts[1..], all, owner);
    } else {
      var next := cs + [parts[0]];
      assert Solid(all) == next + Solid(parts[1..]);
      WalkOneStep(was, now, cs, parts[0], owner);
      if next !in now {
        WalkFrom(was, now[next := NewDir(owner)], next, parts[1..], all, owner);
      } else if now[next].isDir {
        WalkFrom(was, now, next, parts[1..], all, owner);
      } else {
        assert Solid(all)[..|next|] == next;
        NoFileOnMeans(was, Solid(all));
      }
    }
  }

  /** Walking creates as it goes and still is all or nothing: a file it meets was there from the start,
      and then so was everything above it. */
  lemma MakedirsWalks(was: Flat, parts: Path, owner: string)
    requires WellFormed(was)
    ensures MakedirsFrom(was, [], parts, owner) == Makedirs(was, parts, owner)
  {
    assert was + MissingDirs(was, [], owner) == was;
    NoFileOnMeans(was, []);
    assert Solid(parts) == [] + Solid(parts);
    WalkFrom(was, was, [], parts, parts, owner);
  }

  /** A `makedirs` that reports success made every prefix a directory, added nothing else and changed no
      entry; one that reports failure changed nothing. Doing it again changes nothing. */
  lemma MakedirsIsExact(m: Flat, parts: Path, owner: string)
    requires WellFormed(m)
    ensures var r := Makedirs(m, parts, owner);
      && (r.error.Some? ==> r.fs == m)
      && (r.error.None? <==> NoFileOn(m, Solid(parts)))
      && (r.error.None? ==> forall k | 0 <= k <= |Solid(parts)| ::
            Solid(parts)[..k] in r.fs && r.fs[Solid(parts)[..k]].isDir)
      && (forall q | q in m :: q in r.fs && r.fs[q] == m[q])
      && (forall q | q in r.fs && q !in m :: q <= Solid(parts) && r.fs[q] == NewDir(owner))
      && Makedirs(r.fs, parts, owner) == r
  {
    var cs := Solid(parts);
    var r := Makedirs(m, parts, owner);
    assert cs[..|cs|] == cs;
    MissingDirsAre(m, cs, owner);
    NoFileOnMeans(m, cs);
    if r.error.None? {
      MakedirsKeepsWellFormed(m, parts, owner);
      NotBlocked(r.fs, cs);
      NoneMissing(r.fs, cs, owner);
      assert r.fs + map[] == r.fs;
    }
  }

  /** After a successful `makedirs` the path is a directory to every later lookup exactly when no
      component of it is empty or the literal path was there already. */
  lemma MakedirsThenLookup(m: Flat, parts: Path, owner: string)
    requires WellFormed(m) && Makedirs(m, parts, owner).error.None?
    ensures parts in Makedirs(m, parts, owner).fs <==> parts in m || forall c | c in parts :: c != ""
  {
    MakedirsIsExact(m, parts, owner);
    SolidOfSolid(parts);
    var r := Makedirs(m, parts, owner);
    if parts in r.fs && parts !in m {
      assert parts <= Solid(parts);
    }
    assert Solid(parts)[..|Solid(parts)|] == Solid(parts);
  }

  // Single operations, without their definitions

  /** A file stands above `p`. */
  ghost predicate FileInTheWay(m: Flat, p: Path) {
    exists k | 0 <= k < |p| :: p[..k] in m && !m[p[..k]].isDir
  }

  /** Why a path is not found: a file stands above it, or nothing does. */
  lemma LookupIsExact(m: Flat, p: Path)
    ensures Lookup(m, p)
      == if p in m then Found(m[p]) else Failed(if FileInTheWay(m, p) then NotADirectory else NoSuchFile)
  {
    if p !in m {
      NoFileOnMeans(m, p);
      assert p[..|p|] == p;
    }
  }

  /** `read` fails on directories, and otherwise gives the content of exactly the files that are there. */
  lemma ReadIsExact(m: Flat, abspath: string)
    ensures Read(m, abspath) == Failed(IsADirectory) <==> IsDir(m, abspath)
    ensures forall c :: Read(m, abspath) == Found(c) <==>
      Exists(m, abspath) && !IsDir(m, abspath) && m[Parts(abspath)].content == c
    ensures !Exists(m, abspath) ==>
      Lookup(m, Parts(abspath)).Failed? && Read(m, abspath) == Failed(Lookup(m, Parts(abspath)).error)
  {
    hide Parts;
  }

  /** A file is as long as its characters are in UTF-8 (section 3 of RFC 3629): one byte for seven bits, two
      for eleven, three for sixteen and four for the rest. */
  lemma {:induction false} Utf8LengthIs(a: string, c: char)
    ensures Utf8Length(a + [c]) == Utf8Length(a) + Utf8Length([c])
    ensures var n := c as int;
      Utf8Length([c]) == if n < 128 then 1 else if n < 2048 then 2 else if n < 65536 then 3 else 4
  {
    assert [c][1..] == "" && Utf8Length("") == 0;
    if a == "" {
      assert a + [c] == [c];
    } else {
      assert (a + [c])[1..] == a[1..] + [c];
      Utf8LengthIs(a[1..], c);
    }
  }

  /** The listing of a directory names exactly what is one level below. */
  lemma ChildrenAreOneBelow(m: Flat, p: Path, name: string)
    ensures name in Children(m, p) <==> p + [name] in m
  {
    if name in Children(m, p) {
      var q :| q in m && |q| == |p| + 1 && p <= q && q[|p|] == name;
      assert q == p + [name];
    }
    if p + [name] in m {
      assert (p + [name])[|p|] == name;
    }
  }

  /** `mkdir` adds one empty directory of the caller's, exactly when its parent is a directory and the name
      is free, and changes nothing otherwise. */
  lemma MkdirIsExact(m: Flat, abspath: string, owner: string)
    requires WellFormed(m)
    ensures var r := Mkdir(m, abspath, owner); var parent := ParentOf(abspath);
      && (r.error.None? <==> parent in m && m[parent].isDir && Slot(abspath) !in m)
      && (r.error == Some(FileExists) <==> Slot(abspath) in m)
      && (r.error.Some? ==> r.fs == m)
      && (r.error.None? ==>
          && r.fs.Keys == m.Keys + {Slot(abspath)}
          && r.fs[Slot(abspath)] == Entry(true, "", owner, "rwxr-xr-x")
          && forall q | q in m :: r.fs[q] == m[q])
      && (parent !in m ==> r.error == Some(Lookup(m, parent).error))
      && (parent in m && !m[parent].isDir ==> r.error == Some(NotADirectory))
  {
    hide ParentOf, NameOf, WellFormed;
    ParentOfSlot(m, abspath);
  }

  lemma ParentOfSlot(m: Flat, abspath: string)
    requires WellFormed(m)
    ensures Slot(abspath) in m ==> ParentOf(abspath) in m && m[ParentOf(abspath)].isDir
  {
    hide ParentOf, NameOf;
    assert Up(Slot(abspath)) == ParentOf(abspath);
  }

  /** `write_file` puts one file of the caller's, exactly when its parent is a directory and no directory has
      the name, and changes nothing otherwise. */
  lemma WriteFileIsExact(m: Flat, abspath: string, content: string, owner: string)
    requires WellFormed(m)
    ensures var r := WriteFile(m, abspath, content, owner); var parent, slot := ParentOf(abspath), Slot(abspath);
      && (r.error.None? <==> parent in m && m[parent].isDir && (slot in m ==> !m[slot].isDir))
      && (r.error == Some(IsADirectory) <==> slot in m && m[slot].isDir)
      && (r.error.Some? ==> r.fs == m)
      && (r.error.None? ==>
          && r.fs.Keys == m.Keys + {slot}
          && r.fs[slot] == Entry(false, content, owner, "rw-r--r--")
          && forall q | q in m && q != slot :: r.fs[q] == m[q])
      && (parent !in m ==> r.error == Some(Lookup(m, parent).error))
      && (parent in m && !m[parent].isDir ==> r.error == Some(NotADirectory))
  {
    hide ParentOf, NameOf, WellFormed;
    ParentOfSlot(m, abspath);
  }

  /** What `remove` says when it removes nothing. */
  lemma RemoveErrors(m: Flat, abspath: string)
    requires WellFormed(m)
    ensures var r := Remove(m, abspath); var parent := ParentOf(abspath);
      && (r.error == Some(NotPermitted) <==> abspath == "/")
      && (abspath != "/" && parent in m && Slot(abspath) !in m ==> r.error == Some(NoSuchFile))
      && (abspath != "/" && parent !in m ==> r.error == Some(Lookup(m, parent).error))
  {
    hide ParentOf, NameOf, WellFormed;
    ParentOfSlot(m, abspath);
  }
}
