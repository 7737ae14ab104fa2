/** The in-memory filesystem of `session/vfs.py`: a tree of nodes whose `children` maps are changed
    in place. Every operation is proved against its definition on the flat map of `FlatFs`. */
module Vfs {
  import opened Text
  import opened Paths
  import opened FlatFs
  import Names

  class Node {
    const name: string
    const isDir: bool
    const content: string
    const owner: string
    const mode: string
    var children: map<string, Node>

    constructor (name: string, entry: Entry)
      ensures this.name == name && children == map[] && Value() == entry
    {
      this.name := name;
      isDir, content, owner, mode := entry.isDir, entry.content, entry.owner, entry.mode;
      children := map[];
    }

    function Value(): Entry {
      Entry(isDir, content, owner, mode)
    }
  }

  ghost function FlatOf(nodes: map<Path, Node>): Flat {
    map p | p in nodes :: nodes[p].Value()
  }

  lemma FlatOfUpdate(nodes: map<Path, Node>, p: Path, node: Node)
    ensures FlatOf(nodes[p := node]) == FlatOf(nodes)[p := node.Value()]
  {
  }

  // The tree as values: which node each path leads to, and which children each path has

  ghost predicate IsLinked(nodes: map<Path, Node>, kids: map<Path, map<string, Node>>, p: Path)
    requires p in nodes && p != [] && kids.Keys == nodes.Keys
  {
    var up, name := Up(p), p[|p| - 1];
    up in nodes && nodes[up].isDir && name in kids[up] && kids[up][name] == nodes[p]
  }

  ghost predicate LeadsOn(nodes: map<Path, Node>, kids: map<Path, map<string, Node>>, p: Path, name: string)
    requires p in kids && name in kids[p]
  {
    p + [name] in nodes && nodes[p + [name]] == kids[p][name]
  }

  ghost predicate AreDistinct(nodes: map<Path, Node>, p: Path, q: Path)
    requires p in nodes && q in nodes
  {
    nodes[p] != nodes[q]
  }

  ghost predicate IsNamed(nodes: map<Path, Node>, p: Path)
    requires p in nodes
  {
    nodes[p].name == NodeName(p)
  }

  /** Every node but the root hangs, under the last component of its path, in a directory and bears that
      name; every child has a path; and no node has two. */
  ghost predicate IsTree(root: Node, nodes: map<Path, Node>, kids: map<Path, map<string, Node>>) {
    && kids.Keys == nodes.Keys
    && [] in nodes && nodes[[]] == root && root.isDir
    && (forall p {:trigger IsLinked(nodes, kids, p)} | p in nodes && p != [] :: IsLinked(nodes, kids, p))
    && (forall p {:trigger IsNamed(nodes, p)} | p in nodes :: IsNamed(nodes, p))
    && (forall p, name {:trigger LeadsOn(nodes, kids, p, name)} | p in nodes && name in kids[p] ::
          LeadsOn(nodes, kids, p, name))
    && (forall p, q {:trigger AreDistinct(nodes, p, q)} | p in nodes && q in nodes && p != q ::
          AreDistinct(nodes, p, q))
  }

  /** The same once `child` has come in as the child `name` of `p`. */
  ghost function KidsWith(kids: map<Path, map<string, Node>>, p: Path, name: string, child: Node)
    : (r: map<Path, map<string, Node>>)
    requires p in kids
    ensures r.Keys == kids.Keys + {p + [name]}
    ensures forall q | q in r ::
      r[q] == if q == p + [name] then map[] else if q == p then kids[p][name := child] else kids[q]
  {
    assert |p + [name]| == |p| + 1;
    kids[p := kids[p][name := child]][p + [name] := map[]]
  }

  lemma GraftedIsTree(root: Node, nodes: map<Path, Node>, kids: map<Path, map<string, Node>>,
                      p: Path, name: string, child: Node)
    requires IsTree(root, nodes, kids) && p in nodes && nodes[p].isDir
    requires child !in nodes.Values && child.name == name
    requires p + [name] in nodes ==> !nodes[p + [name]].isDir
    ensures IsTree(root, nodes[p + [name] := child], KidsWith(kids, p, name, child))
  {
    var slot := p + [name];
    assert Up(slot) == p && slot[|p|] == name;
    var nodes' := nodes[slot := child];
    var kids' := KidsWith(kids, p, name, child);
    forall q | q in nodes' && q != [] ensures IsLinked(nodes', kids', q) {
      assert q == Up(q) + [q[|q| - 1]];
      if q != slot { assert IsLinked(nodes, kids, q); }
    }
    forall q | q in nodes' ensures IsNamed(nodes', q) {
      if q != slot { assert IsNamed(nodes, q); }
    }
    forall q, n | q in nodes' && n in kids'[q] ensures LeadsOn(nodes', kids', q, n) {
      assert Up(q + [n]) == q && (q + [n])[|q|] == n;
      if (q, n) != (p, name) { assert LeadsOn(nodes, kids, q, n); }
    }
    forall q, r | q in nodes' && r in nodes' && q != r ensures AreDistinct(nodes', q, r) {
      if q != slot && r != slot { assert AreDistinct(nodes, q, r); }
    }
  }

  /** What is left once the child `name` of `p` is cut off. */
  ghost function NodesWithout(nodes: map<Path, Node>, slot: Path): map<Path, Node> {
    map q | q in nodes && !(slot <= q) :: nodes[q]
  }

  ghost function KidsWithout(kids: map<Path, map<string, Node>>, p: Path, name: string): map<Path, map<string, Node>> {
    map q | q in kids && !(p + [name] <= q) :: if q == p then kids[p] - {name} else kids[q]
  }

  lemma PrunedIsTree(root: Node, nodes: map<Path, Node>, kids: map<Path, map<string, Node>>, p: Path, name: string)
    requires IsTree(root, nodes, kids) && p in nodes && name in kids[p]
    ensures IsTree(root, NodesWithout(nodes, p + [name]), KidsWithout(kids, p, name))
  {
    var slot := p + [name];
    assert Up(slot) == p && slot[|p|] == name;
    var nodes', kids' := NodesWithout(nodes, slot), KidsWithout(kids, p, name);
    forall q | q in nodes' && q != [] ensures IsLinked(nodes', kids', q) {
      assert q == Up(q) + [q[|q| - 1]];
      assert IsLinked(nodes, kids, q);
      assert slot <= Up(q) ==> slot <= q;
    }
    forall q | q in nodes' ensures IsNamed(nodes', q) {
      assert IsNamed(nodes, q);
    }
    forall q, n | q in nodes' && n in kids'[q] ensures LeadsOn(nodes', kids', q, n) {
      assert LeadsOn(nodes, kids, q, n);
      assert slot <= q + [n] ==> slot <= q || slot == q + [n];
      assert Up(q + [n]) == q && (q + [n])[|q|] == n;
    }
    forall q, r | q in nodes' && r in nodes' && q != r ensures AreDistinct(nodes', q, r) {
      assert AreDistinct(nodes, q, r);
    }
  }

  lemma FlatOfNodesWithout(nodes: map<Path, Node>, slot: Path)
    ensures FlatOf(NodesWithout(nodes, slot)) == Prune(FlatOf(nodes), slot)
    ensures NodesWithout(nodes, slot).Values <= nodes.Values
  {
  }

  class VirtualFS {
    const root: Node
    /** Which node each path leads to, and which children it has. */
    ghost var nodes: map<Path, Node>
    ghost var kids: map<Path, map<string, Node>>

    ghost predicate Valid()
      reads this, nodes.Values
    {
      IsTree(root, nodes, kids) && forall p | p in nodes :: nodes[p].children == kids[p]
    }

    /** The filesystem as a map. */
    ghost function Flat(): Flat
      reads this
    {
      FlatOf(nodes)
    }

    lemma FlatIsWellFormed()
      requires Valid()
      ensures WellFormed(Flat())
    {
      forall p | p in nodes && p != [] ensures Up(p) in nodes && nodes[Up(p)].isDir {
        assert IsLinked(nodes, kids, p);
      }
    }

    lemma ChildIsNext(p: Path, name: string)
      requires Valid() && p in nodes
      ensures p + [name] in nodes <==> name in nodes[p].children
      ensures name in nodes[p].children ==> nodes[p].isDir && nodes[p + [name]] == nodes[p].children[name]
    {
      var next := p + [name];
      assert Up(next) == p;
      if next in nodes { assert IsLinked(nodes, kids, next); }
      if name in nodes[p].children {
        assert LeadsOn(nodes, kids, p, name);
        assert IsLinked(nodes, kids, next);
      }
    }

    constructor ()
      ensures Valid() && fresh(nodes.Values)
      ensures Flat() == map[[] := NewDir("root")]
    {
      var r := new Node("/", NewDir("root"));
      root := r;
      nodes, kids := map[[] := r], map[[] := map[]];
    }

    method Resolve(abspath: string) returns (r: Found<Node>)
      requires Valid()
      ensures r.Found? ==> Parts(abspath) in nodes && r.value == nodes[Parts(abspath)]
      ensures r.Failed? ==> Parts(abspath) !in nodes && Lookup(Flat(), Parts(abspath)) == Failed(r.error)
    {
      if abspath == "/" {
        return Found(root);
      }
      FlatIsWellFormed();
      var node := root;
      var parts := Split(Strip(abspath, IsSlash), '/');
      assert parts == Parts(abspath);
      for i := 0 to |parts|
        invariant parts[..i] in nodes && node == nodes[parts[..i]]
      {
        ChildIsNext(parts[..i], parts[i]);
        assert parts[..i + 1] == parts[..i] + [parts[i]];
        if parts[i] !in node.children { LookupStops(Flat(), parts, i); }
        if !node.isDir {
          return Failed(NotADirectory);
        }
        if parts[i] !in node.children {
          return Failed(NoSuchFile);
        }
        node := node.children[parts[i]];
      }
      assert parts[..|parts|] == parts;
      r := Found(node);
    }

    method Exists(abspath: string) returns (b: bool)
      requires Valid()
      ensures b == FlatFs.Exists(Flat(), abspath)
    {
      var r := Resolve(abspath);
      b := r.Found?;
    }

    method IsDir(abspath: string) returns (b: bool)
      requires Valid()
      ensures b == FlatFs.IsDir(Flat(), abspath)
    {
      var r := Resolve(abspath);
      b := r.Found? && r.value.isDir;
    }

    method ListDir(abspath: string) returns (r: Found<seq<string>>)
      requires Valid()
      ensures r == match Lookup(Flat(), Parts(abspath))
        case Failed(e) => Failed(e)
        case Found(entry) =>
          if entry.isDir then Found(Names.Listing(Children(Flat(), Parts(abspath)))) else Failed(NotADirectory)
    {
      var n := Resolve(abspath);
      if n.Failed? {
        return Failed(n.error);
      }
      if !n.value.isDir {
        return Failed(NotADirectory);
      }
      var left := n.value.children.Keys;
      var names: seq<string> := [];
      while left != {}
        invariant left <= n.value.children.Keys
        invariant Names.IsListing(names, n.value.children.Keys - left)
        decreases |left|
      {
        var name :| name in left;
        Names.InsertIntoListing(names, n.value.children.Keys - left, name);
        names := Names.Insert(names, name);
        assert n.value.children.Keys - (left - {name}) == n.value.children.Keys - left + {name};
        left := left - {name};
      }
      assert n.value.children.Keys - {} == n.value.children.Keys;
      ChildrenAreKeys(Parts(abspath));
      Names.ListingIsUnique(names, Names.Listing(n.value.children.Keys), n.value.children.Keys);
      r := Found(names);
    }

    lemma ChildrenAreKeys(p: Path)
      requires Valid() && p in nodes
      ensures Children(Flat(), p) == nodes[p].children.Keys
    {
      forall name ensures name in Children(Flat(), p) <==> name in nodes[p].children {
        if name in Children(Flat(), p) {
          var q :| q in nodes && |q| == |p| + 1 && p <= q && q[|p|] == name;
          assert IsLinked(nodes, kids, q) && Up(q) == p;
        }
        if name in nodes[p].children {
          assert LeadsOn(nodes, kids, p, name);
          assert p + [name] in Flat() && (p + [name])[|p|] == name;
        }
      }
    }

    method Read(abspath: string) returns (r: Found<string>)
      requires Valid()
      ensures r == FlatFs.Read(Flat(), abspath)
    {
      var n := Resolve(abspath);
      if n.Failed? {
        return Failed(n.error);
      }
      r := if n.value.isDir then Failed(IsADirectory) else Found(n.value.content);
    }

    method Stat(abspath: string) returns (r: Found<NodeInfo>)
      requires Valid()
      ensures r == FlatFs.Stat(Flat(), abspath)
    {
      var n := Resolve(abspath);
      match n
      case Failed(e) => r := Failed(e);
      case Found(node) =>
        assert IsNamed(nodes, Parts(abspath));
        var size := if node.isDir then 4096 else Utf8Length(node.content);
        r := Found(NodeInfo(node.name, node.isDir, size, node.owner, node.mode));
    }

    /** `parent.children[name] = child`, for a new childless node that does not replace a directory. */
    method Link(ghost p: Path, parent: Node, name: string, child: Node)
      requires Valid() && p in nodes && nodes[p] == parent && parent.isDir
      requires child !in nodes.Values && child.children == map[] && child.name == name
      requires p + [name] in nodes ==> !nodes[p + [name]].isDir
      modifies this`nodes, this`kids, parent`children
      ensures Valid() && nodes == old(nodes)[p + [name] := child]
      ensures Flat() == old(Flat())[p + [name] := child.Value()]
    {
      FlatOfUpdate(nodes, p + [name], child);
      assert kids.Keys == nodes.Keys;
      hide FlatOf, IsTree, KidsWith;
      ghost var slot := p + [name];
      GraftedIsTree(root, nodes, kids, p, name, child);
      OnlyOneIs(p);
      parent.children := parent.children[name := child];
      nodes, kids := nodes[slot := child], KidsWith(kids, p, name, child);
    }

    lemma OnlyOneIs(p: Path)
      requires Valid() && p in nodes
      ensures forall q | q in nodes && q != p :: nodes[q] != nodes[p]
    {
      forall q | q in nodes && q != p ensures nodes[q] != nodes[p] {
        assert AreDistinct(nodes, q, p);
      }
    }

    /** One round of the loop in `makedirs`: the child directory, made if it is missing; none if a
        file has the name. */
    method Enter(ghost p: Path, node: Node, name: string, owner: string) returns (child: Option<Node>)
      requires Valid() && p in nodes && nodes[p] == node && node.isDir
      modifies this`nodes, this`kids, nodes.Values
      ensures Valid() && fresh(nodes.Values - old(nodes.Values))
      ensures child.None? <==> p + [name] in old(Flat()) && !old(Flat())[p + [name]].isDir
      ensures child.None? ==> Flat() == old(Flat())
      ensures child.Some? ==> p + [name] in nodes && nodes[p + [name]] == child.value && child.value.isDir
      ensures child.Some? ==>
        Flat() == if p + [name] in old(Flat()) then old(Flat()) else old(Flat())[p + [name] := NewDir(owner)]
    {
      ChildIsNext(p, name);
      if name !in node.children {
        var made := new Node(name, NewDir(owner));
        Link(p, node, name, made);
        return Some(made);
      }
      var found := node.children[name];
      child := if found.isDir then Some(found) else None;
    }

    lemma WalkStarts(parts: Path, owner: string)
      requires Valid()
      ensures [] in nodes && nodes[[]] == root && root.isDir
      ensures MakedirsFrom(Flat(), [], parts[0..], owner) == FlatFs.Makedirs(Flat(), parts, owner)
    {
      FlatIsWellFormed();
      MakedirsWalks(Flat(), parts, owner);
      assert parts[0..] == parts;
    }

    method Makedirs(abspath: string, owner: string) returns (error: Option<VfsError>)
      requires Valid()
      modifies this`nodes, this`kids, nodes.Values
      ensures Valid() && fresh(nodes.Values - old(nodes.Values))
      ensures Changed(Flat(), error) == FlatFs.Makedirs(old(Flat()), Split(Strip(abspath, IsSlash), '/'), owner)
    {
      hide Valid, IsTree, FlatOf, FlatFs.Makedirs, MakedirsFrom, Split, Strip;
      var parts := Split(Strip(abspath, IsSlash), '/');
      ghost var goal := FlatFs.Makedirs(Flat(), parts, owner);
      WalkStarts(parts, owner);
      ghost var cs: Path := [];
      var node := root;
      for i := 0 to |parts|
        invariant Valid() && fresh(nodes.Values - old(nodes.Values))
        invariant cs in nodes && nodes[cs] == node && node.isDir
        invariant MakedirsFrom(Flat(), cs, parts[i..], owner) == goal
      {
        MakedirsStep(Flat(), cs, parts, i, owner);
        if parts[i] != "" {
          var child := Enter(cs, node, parts[i], owner);
          if child.None? {
            return Some(NotADirectory);
          }
          cs := cs + [parts[i]];
          node := child.value;
        }
      }
      MakedirsEnds(Flat(), cs, parts, owner);
      error := None;
    }

    method Mkdir(abspath: string, owner: string) returns (error: Option<VfsError>)
      requires Valid()
      modifies this`nodes, this`kids, nodes.Values
      ensures Valid() && fresh(nodes.Values - old(nodes.Values))
      ensures Changed(Flat(), error) == FlatFs.Mkdir(old(Flat()), abspath, owner)
    {
      hide Valid, IsTree;
      var (head, name) := PathSplit(abspath);
      var parent := Resolve(if head == "" then "/" else head);
      if parent.Failed? {
        return Some(parent.error);
      }
      if !parent.value.isDir {
        return Some(NotADirectory);
      }
      ChildIsNext(ParentOf(abspath), name);
      if name in parent.value.children {
        return Some(FileExists);
      }
      var child := new Node(name, NewDir(owner));
      Link(ParentOf(abspath), parent.value, name, child);
      error := None;
    }

    method WriteFile(abspath: string, content: string, owner: string) returns (error: Option<VfsError>)
      requires Valid()
      modifies this`nodes, this`kids, nodes.Values
      ensures Valid() && fresh(nodes.Values - old(nodes.Values))
      ensures Changed(Flat(), error) == FlatFs.WriteFile(old(Flat()), abspath, content, owner)
    {
      hide Valid, IsTree;
      var (head, name) := PathSplit(abspath);
      var parent := Resolve(if head == "" then "/" else head);
      if parent.Failed? {
        return Some(parent.error);
      }
      if !parent.value.isDir {
        return Some(NotADirectory);
      }
      ChildIsNext(ParentOf(abspath), name);
      if name in parent.value.children && parent.value.children[name].isDir {
        return Some(IsADirectory);
      }
      var child := new Node(name, NewFile(content, owner));
      Link(ParentOf(abspath), parent.value, name, child);
      error := None;
    }

    method Remove(abspath: string) returns (error: Option<VfsError>)
      requires Valid()
      modifies this`nodes, this`kids, nodes.Values
      ensures Valid() && nodes.Values <= old(nodes.Values)
      ensures Changed(Flat(), error) == FlatFs.Remove(old(Flat()), abspath)
    {
      hide Valid, IsTree;
      if abspath == "/" {
        return Some(NotPermitted);
      }
      var (head, name) := PathSplit(abspath);
      var parent := Resolve(if head == "" then "/" else head);
      if parent.Failed? {
        return Some(parent.error);
      }
      ChildIsNext(ParentOf(abspath), name);
      if name !in parent.value.children {
        return Some(NoSuchFile);
      }
      Unlink(ParentOf(abspath), parent.value, name);
      error := None;
    }

    /** `del parent.children[name]`: the whole subtree goes. */
    method Unlink(ghost p: Path, parent: Node, name: string)
      requires Valid() && p in nodes && nodes[p] == parent && name in parent.children
      modifies this`nodes, this`kids, parent`children
      ensures Valid() && nodes.Values <= old(nodes.Values)
      ensures Flat() == Prune(old(Flat()), p + [name])
    {
      hide IsTree, FlatOf, Prune;
      ghost var slot := p + [name];
      assert !(slot <= p) by { assert |slot| == |p| + 1; }
      PrunedIsTree(root, nodes, kids, p, name);
      FlatOfNodesWithout(nodes, slot);
      OnlyOneIs(p);
      parent.children := parent.children - {name};
      nodes, kids := NodesWithout(nodes, slot), KidsWithout(kids, p, name);
    }
  }
}
