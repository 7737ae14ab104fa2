/** Lexical path handling: `VirtualFS.normalize`, the way the filesystem cuts an absolute path
    into components, and the parts of Python's `posixpath` both rely on. */
module Paths {
  import opened Text

  type Path = seq<string>

  predicate IsSlash(c: char) { c == '/' }

  /** `p.startswith("/")`. */
  predicate Absolute(p: string) {
    p != "" && p[0] == '/'
  }

  // posixpath

  /** One step of the loop in `posixpath.normpath`; `rooted` says the path began with a slash. */
  function Push(stack: Path, comp: string, rooted: bool): Path {
    if comp == "" || comp == "." then stack
    else if comp != ".." || (!rooted && stack == []) || (stack != [] && stack[|stack| - 1] == "..") then stack + [comp]
    else if stack != [] then stack[..|stack| - 1]
    else stack
  }

  function PushAll(stack: Path, comps: Path, rooted: bool): Path
    decreases |comps|
  {
    if comps == [] then stack else PushAll(Push(stack, comps[0], rooted), comps[1..], rooted)
  }

  /** Exactly two leading slashes are kept; three or more collapse to one. */
  function LeadingSlashes(p: string): (n: nat)
    ensures n <= 2 && (n == 0 <==> (p == "" || p[0] != '/'))
  {
    if !Absolute(p) then 0
    else if |p| >= 2 && p[1] == '/' && !(|p| >= 3 && p[2] == '/') then 2
    else 1
  }

  function Slashes(n: nat): string {
    seq(n, _ => '/')
  }

  function Normpath(p: string): string {
    if p == "" then "."
    else
      var n := LeadingSlashes(p);
      var out := Slashes(n) + Join(PushAll([], Split(p, '/'), n > 0), "/");
      if out == "" then "." else out
  }

  function JoinPath(a: string, b: string): string {
    if Absolute(b) then b else WithSlash(a) + b
  }

  function WithSlash(a: string): string {
    if a == "" || a[|a| - 1] == '/' then a else a + "/"
  }

  /** `posixpath.split`: everything up to the last slash, and the rest. */
  function PathSplit(p: string): (r: (string, string)) {
    var i := LastSlash(p) + 1;
    var head, tail := p[..i], p[i..];
    if head != "" && head != Slashes(|head|) then (RStrip(head, IsSlash), tail) else (head, tail)
  }

  /** `p.rfind("/")`. */
  function LastSlash(p: string): (i: int)
    ensures -1 <= i < |p|
    ensures i >= 0 ==> p[i] == '/'
    ensures forall j | i < j < |p| :: p[j] != '/'
  {
    if p == "" then -1 else if p[|p| - 1] == '/' then |p| - 1 else LastSlash(p[..|p| - 1])
  }

  // The filesystem's own view of a path

  /** `VirtualFS.normalize`. Normpath never returns the empty string, so its `or "/"` is dead code. */
  function Normalize(path: string, cwd: string): string {
    if path == "" then cwd
    else Normpath(if Absolute(path) then path else JoinPath(cwd, path))
  }

  /** The components `_resolve` walks: none for "/" itself, otherwise `strip("/").split("/")`. */
  function Parts(abspath: string): Path {
    if abspath == "/" then [] else Split(Strip(abspath, IsSlash), '/')
  }

  /** The directory `mkdir`, `write_file` and `remove` resolve, and the name they use in it. */
  function ParentOf(abspath: string): Path {
    var head := PathSplit(abspath).0;
    Parts(if head == "" then "/" else head)
  }

  function NameOf(abspath: string): string {
    PathSplit(abspath).1
  }

  /** Where those three operations put or look for the entry. */
  function Slot(abspath: string): Path {
    ParentOf(abspath) + [NameOf(abspath)]
  }

  // Canonical paths

  ghost predicate Clean(comp: string) {
    comp != "" && comp != "." && comp != ".." && '/' !in comp
  }

  ghost predicate AllClean(comps: Path) {
    forall c | c in comps :: Clean(c)
  }

  function Render(n: nat, comps: Path): string {
    Slashes(n) + Join(comps, "/")
  }

  /** An absolute path that normalisation leaves alone. */
  ghost predicate Canonical(p: string) {
    Absolute(p) && Normpath(p) == p
  }

  /** What is left of an absolute path once dots and empty components are gone. */
  function Resolved(p: string): Path {
    PushAll([], Split(p, '/'), true)
  }

  // Lemmas about the component stack

  lemma {:induction false} PushAllAppend(stack: Path, xs: Path, ys: Path, rooted: bool)
    ensures PushAll(stack, xs + ys, rooted) == PushAll(PushAll(stack, xs, rooted), ys, rooted)
    decreases |xs|
  {
    if xs == [] {
      assert xs + ys == ys;
    } else {
      assert (xs + ys)[1..] == xs[1..] + ys;
      PushAllAppend(Push(stack, xs[0], rooted), xs[1..], ys, rooted);
    }
  }

  lemma {:induction false} PushAllStaysClean(stack: Path, comps: Path)
    requires AllClean(stack)
    requires forall c | c in comps :: '/' !in c
    ensures AllClean(PushAll(stack, comps, true))
    decreases |comps|
  {
    if comps != [] {
      PushAllStaysClean(Push(stack, comps[0], true), comps[1..]);
    }
  }

  lemma {:induction false} PushAllKeepsClean(stack: Path, comps: Path)
    requires AllClean(comps)
    ensures PushAll(stack, comps, true) == stack + comps
    decreases |comps|
  {
    if comps != [] {
      assert Clean(comps[0]);
      PushAllKeepsClean(stack + [comps[0]], comps[1..]);
      assert stack + [comps[0]] + comps[1..] == stack + comps;
    }
  }

  lemma ResolvedIsClean(p: string)
    ensures AllClean(Resolved(p))
  {
    SplitHasNoSeparator(p, '/');
    PushAllStaysClean([], Split(p, '/'));
  }

  lemma {:induction false} JoinEnds(comps: Path)
    requires comps != [] && AllClean(comps)
    ensures var j := Join(comps, "/"); j != "" && j[0] != '/' && j[|j| - 1] != '/'
  {
    assert Clean(comps[0]);
    if |comps| > 1 {
      JoinEnds(comps[1..]);
    }
  }

  lemma SplitOfRender(n: nat, comps: Path)
    requires 1 <= n <= 2 && AllClean(comps)
    ensures Split(Render(n, comps), '/') == (if n == 1 then [""] else ["", ""]) + (if comps == [] then [""] else comps)
  {
    var p, j := Render(n, comps), Join(comps, "/");
    if comps != [] { SplitJoin(comps, '/'); }
    if n == 1 {
      assert p[1..] == j;
    } else {
      assert p[1..][1..] == j;
      assert Split(p, '/') == [""] + ([""] + Split(j, '/'));
    }
  }

  lemma {:induction false} PushBlanks(stack: Path, rooted: bool)
    ensures PushAll(stack, [""], rooted) == stack && PushAll(stack, ["", ""], rooted) == stack
  {
    assert PushAll(stack, ["", ""], rooted) == PushAll(stack, [""], rooted) == PushAll(stack, [], rooted);
  }

  /** A rendered path reads back as the components and slashes it was rendered from. */
  lemma RenderReadsBack(n: nat, comps: Path)
    requires 1 <= n <= 2 && AllClean(comps)
    ensures LeadingSlashes(Render(n, comps)) == n
    ensures Resolved(Render(n, comps)) == comps
    ensures Normpath(Render(n, comps)) == Render(n, comps)
  {
    SplitOfRender(n, comps);
    PushBlanks([], true);
    PushAllAppend([], if n == 1 then [""] else ["", ""], if comps == [] then [""] else comps, true);
    PushAllKeepsClean([], comps);
    if comps != [] { JoinEnds(comps); }
  }

  /** Canonical paths are exactly one or two slashes followed by clean components. */
  lemma CanonicalForm(p: string)
    ensures Canonical(p) <==> exists n: nat, comps :: 1 <= n <= 2 && AllClean(comps) && p == Render(n, comps)
  {
    if Canonical(p) {
      ResolvedIsClean(p);
      assert p == Render(LeadingSlashes(p), Resolved(p));
    }
    if n: nat, comps :| 1 <= n <= 2 && AllClean(comps) && p == Render(n, comps) {
      RenderReadsBack(n, comps);
    }
  }

  lemma CanonicalComponents(p: string, comps: Path)
    requires |p| > 1 && LeadingSlashes(p) == 1 && Split(p, '/') == [""] + comps
    ensures Canonical(p) <==> AllClean(comps)
  {
    hide PushAll, LeadingSlashes;
    if AllClean(comps) {
      JoinSplit(p, '/');
      assert Split(p, '/')[1..] == comps;
      assert comps == [] ==> p == "";
      assert p == "" + "/" + Join(comps, "/") == Render(1, comps);
      RenderReadsBack(1, comps);
    }
    if Canonical(p) {
      ResolvedIsClean(p);
      assert p == Render(1, Resolved(p));
      SplitOfRender(1, Resolved(p));
      assert Split(p, '/')[1..] == comps;
      assert Resolved(p) == [] ==> |p| == 1;
    }
  }

  lemma NormpathOfAbsolute(p: string)
    requires Absolute(p)
    ensures Normpath(p) == Render(LeadingSlashes(p), Resolved(p))
    ensures Canonical(Normpath(p))
    ensures LeadingSlashes(Normpath(p)) == LeadingSlashes(p) && Resolved(Normpath(p)) == Resolved(p)
  {
    ResolvedIsClean(p);
    RenderReadsBack(LeadingSlashes(p), Resolved(p));
  }

  /** Whatever is typed, the result is canonical: it never keeps a dot component and never climbs
      above the root. */
  lemma NormalizeIsCanonical(path: string, cwd: string)
    requires Canonical(cwd)
    ensures Canonical(Normalize(path, cwd))
    ensures AllClean(Resolved(Normalize(path, cwd)))
    ensures Normalize(Normalize(path, cwd), cwd) == Normalize(path, cwd)
  {
    ResolvedIsClean(Normalize(path, cwd));
    if path != "" {
      var p := if Absolute(path) then path else JoinPath(cwd, path);
      NormpathOfAbsolute(p);
    }
  }

  /** Joining a relative path pushes its components on those already there. */
  lemma ResolvedOfJoin(p: string, q: string)
    requires Absolute(p) && !Absolute(q)
    ensures Absolute(JoinPath(p, q)) && LeadingSlashes(JoinPath(p, q)) == LeadingSlashes(p)
    ensures Resolved(JoinPath(p, q)) == PushAll(Resolved(p), Split(q, '/'), true)
  {
    if p[|p| - 1] == '/' {
      var y := p[..|p| - 1];
      assert p == y + ['/'] + "" && JoinPath(p, q) == y + ['/'] + q;
      SplitAround(y, '/', "");
      SplitAround(y, '/', q);
      PushAllAppend([], Split(y, '/'), [""], true);
      PushAllAppend([], Split(y, '/'), Split(q, '/'), true);
      PushBlanks(PushAll([], Split(y, '/'), true), true);
    } else {
      assert JoinPath(p, q) == p + ['/'] + q;
      SplitAround(p, '/', q);
      PushAllAppend([], Split(p, '/'), Split(q, '/'), true);
    }
  }

  lemma NormpathAbsorbs(p: string, q: string)
    requires Absolute(p) && !Absolute(q)
    ensures Absolute(Normpath(p)) && Normpath(JoinPath(Normpath(p), q)) == Normpath(JoinPath(p, q))
  {
    NormpathOfAbsolute(p);
    ResolvedOfJoin(p, q);
    ResolvedOfJoin(Normpath(p), q);
    NormpathOfAbsolute(JoinPath(p, q));
    NormpathOfAbsolute(JoinPath(Normpath(p), q));
  }

  lemma JoinPathAssociates(a: string, p: string, q: string)
    requires Absolute(a) && p != "" && !Absolute(p) && !Absolute(q)
    ensures JoinPath(a, JoinPath(p, q)) == JoinPath(JoinPath(a, p), q)
  {
    var ap := WithSlash(a) + p;
    assert ap[|ap| - 1] == p[|p| - 1];
    assert WithSlash(ap) == WithSlash(a) + WithSlash(p);
    assert WithSlash(a) + (WithSlash(p) + q) == WithSlash(a) + WithSlash(p) + q;
  }

  /** Resolving in two steps is resolving once: moving by `p` and then by `q` is moving by the
      joined path, from any absolute working directory. */
  lemma NormalizeComposes(cwd: string, p: string, q: string)
    requires Absolute(cwd)
    ensures Normalize(q, Normalize(p, cwd)) == Normalize(JoinPath(p, q), cwd)
  {
    if !Absolute(q) && p != "" {
      var x := if Absolute(p) then p else JoinPath(cwd, p);
      assert JoinPath(p, q)[0] == p[0];
      if !Absolute(p) { JoinPathAssociates(cwd, p, q); }
      NormpathAbsorbs(x, q);
      if q == "" {
        NormpathOfAbsolute(x);
        NormpathAbsorbs(x, "");
        ResolvedOfJoin(x, "");
        NormpathOfAbsolute(JoinPath(x, ""));
        PushBlanks(Resolved(x), true);
      }
    } else if p == "" {
      assert JoinPath(p, q) == q;
    }
  }

  // Components of canonical paths

  lemma PartsOfCanonical(n: nat, comps: Path)
    requires 1 <= n <= 2 && AllClean(comps)
    ensures Parts(Render(n, comps)) == if n == 2 && comps == [] then [""] else comps
  {
    var j := Join(comps, "/");
    if comps == [] {
      assert Render(1, comps) == "/";
      assert LStrip("//", IsSlash) == LStrip("/", IsSlash) == LStrip("", IsSlash);
      assert n == 2 ==> Render(n, comps) == "//";
    } else {
      JoinEnds(comps);
      SplitJoin(comps, '/');
      assert Render(1, comps) == ['/'] + j;
      assert Render(2, comps) == ['/'] + (['/'] + j);
      assert LStrip(Render(1, comps), IsSlash) == j by { assert Render(1, comps)[1..] == j; }
      assert LStrip(Render(2, comps), IsSlash) == j by {
        assert Render(2, comps)[1..] == Render(1, comps);
      }
      StripIdentity(j, IsSlash);
    }
  }

  /** True when the slot the mutating operations use is the place `_resolve` looks the path up. The path
      must not end in a slash, and its last slash must be a lone one. */
  predicate SlotIsPath(p: string) {
    && (p == "" || p[|p| - 1] != '/')
    && (LastSlash(p) < 1 || p[LastSlash(p) - 1] != '/')
  }

  lemma {:induction false} LStripSlashes(k: nat, t: string)
    requires t != "" ==> t[0] != '/'
    ensures LStrip(Slashes(k) + t, IsSlash) == t
  {
    if k == 0 {
      assert Slashes(k) + t == t;
    } else {
      assert (Slashes(k) + t)[1..] == Slashes(k - 1) + t;
      LStripSlashes(k - 1, t);
    }
  }

  lemma {:induction false} SplitSlashes(k: nat, t: string)
    requires '/' !in t
    ensures |Split(Slashes(k) + t, '/')| == k + 1
    ensures k == 0 ==> Split(Slashes(k) + t, '/') == [t]
  {
    if k == 0 {
      assert Slashes(k) + t == t;
      SplitWithoutSeparator(t, '/');
    } else {
      assert (Slashes(k) + t)[1..] == Slashes(k - 1) + t;
      SplitSlashes(k - 1, t);
    }
  }

  /** Cuts a path with a real directory part into that part, the slashes after it and the name. */
  lemma CutAtLastSlash(p: string) returns (h: string, k: nat, t: string)
    requires exists i :: 0 <= i < LastSlash(p) && p[i] != '/'
    ensures h != "" && h[|h| - 1] != '/' && k >= 1 && '/' !in t && p == h + Slashes(k) + t
    ensures PathSplit(p) == (h, t) && LastSlash(p) == |h| + k - 1
  {
    var i := LastSlash(p);
    var head := p[..i + 1];
    t := p[i + 1..];
    var j :| 0 <= j < i && p[j] != '/';
    assert head[j] != '/' && head != Slashes(|head|);
    h := RStrip(head, IsSlash);
    RStripFacts(head, IsSlash);
    k := |head| - |h|;
    assert IsSlash(head[j]) == false;
    assert head == h + Slashes(k) by {
      forall m | |h| <= m < |head| ensures head[m] == '/' { assert IsSlash(head[m]); }
    }
    assert head[|head| - 1] == '/';
  }

  lemma RStripNothing(s: string)
    requires s != "" && s[|s| - 1] != '/'
    ensures RStrip(s, IsSlash) == s
  {
  }

  lemma StripOfCut(h: string, k: nat, t: string)
    requires h != "" && h[|h| - 1] != '/' && '/' !in t
    ensures var l := LStrip(h, IsSlash);
      && l != "" && l[|l| - 1] != '/'
      && Strip(h + (Slashes(k) + t), IsSlash) == if t == "" then l else l + (Slashes(k) + t)
  {
    hide LStrip, RStrip, Slashes;
    var l := LStrip(h, IsSlash);
    LStripFacts(h, IsSlash);
    assert !IsSlash(h[|h| - 1]);
    assert l[|l| - 1] == h[|h| - 1];
    var rest := Slashes(k) + t;
    LStripOfPrefix(h + rest, |h| - 1);
    assert (h + rest)[..|h|] == h && (h + rest)[|h|..] == rest;
    if t == "" {
      RStripSlashes(l, k);
      assert rest == Slashes(k);
    } else {
      assert (l + rest)[|l + rest| - 1] == t[|t| - 1] && t[|t| - 1] in t;
      RStripNothing(l + rest);
    }
  }

  lemma PartsOfLong(p: string)
    requires |p| != 1 || p[0] != '/'
    ensures Parts(p) == Split(Strip(p, IsSlash), '/')
  {
  }

  lemma PartsOfCut(p: string, h: string, k: nat, t: string)
    requires h != "" && h[|h| - 1] != '/' && k >= 1 && '/' !in t && p == h + (Slashes(k) + t)
    ensures var l := LStrip(h, IsSlash);
      && l != "" && l[|l| - 1] != '/' && Parts(h) == Split(l, '/')
      && Parts(p) == Split(if t == "" then l else l + (Slashes(k) + t), '/')
  {
    StripOfCut(h, k, t);
    PartsOfLong(p);
    StripOfCut(h, 0, "");
    assert h + (Slashes(0) + "") == h;
    PartsOfLong(h);
  }

  lemma SplitOfCut(l: string, k: nat, t: string)
    requires k >= 1 && '/' !in t
    ensures |Split(l + (Slashes(k) + t), '/')| == |Split(l, '/')| + k
    ensures k == 1 ==> Split(l + (Slashes(k) + t), '/') == Split(l, '/') + [t]
  {
    assert l + (Slashes(k) + t) == l + ['/'] + (Slashes(k - 1) + t);
    SplitAround(l, '/', Slashes(k - 1) + t);
    SplitSlashes(k - 1, t);
  }

  lemma SlotWithDirectory(p: string)
    requires exists i :: 0 <= i < LastSlash(p) && p[i] != '/'
    ensures Slot(p) == Parts(p) <==> SlotIsPath(p)
  {
    hide LStrip, Split, Parts, PathSplit, LastSlash;
    var h, k, t := CutAtLastSlash(p);
    assert p == h + (Slashes(k) + t);
    PartsOfCut(p, h, k, t);
    var l := LStrip(h, IsSlash);
    assert Slot(p) == Split(l, '/') + [t];
    if t == "" {
      assert p[|p| - 1] == '/';
      SplitLast(l, '/');
      assert Slot(p)[|Slot(p)| - 1] == "";
    } else {
      assert p[|p| - 1] == t[|t| - 1] && t[|t| - 1] in t;
      assert p[LastSlash(p) - 1] == '/' <==> k > 1;
      SplitOfCut(l, k, t);
    }
  }

  lemma {:induction false} RStripSlashes(l: string, k: nat)
    requires l != "" && l[|l| - 1] != '/'
    ensures RStrip(l + Slashes(k), IsSlash) == l
  {
    if k == 0 {
      assert l + Slashes(k) == l;
    } else {
      assert (l + Slashes(k))[..|l| + k - 1] == l + Slashes(k - 1);
      RStripSlashes(l, k - 1);
    }
  }

  lemma PartsOfSlashes(p: string, n: nat, t: string)
    requires '/' !in t && p == Slashes(n) + t
    ensures Parts(p) == if n == 1 && t == "" then [] else [t]
  {
    assert t != "" ==> t[0] in t && t[|t| - 1] in t;
    LStripSlashes(n, t);
    StripIdentity(t, IsSlash);
    SplitWithoutSeparator(t, '/');
    if n == 1 && t == "" {
      assert p == "/";
    } else {
      if n == 0 && t != "" { assert p[0] == t[0]; }
      PartsOfLong(p);
    }
  }

  lemma ParentOfTopName(p: string, n: nat)
    requires n == LastSlash(p) + 1 && p[..n] == Slashes(n)
    ensures ParentOf(p) == (if n <= 1 then [] else [""]) && NameOf(p) == p[n..]
  {
    assert p[..n] == Slashes(n) + "";
    PartsOfSlashes(p[..n], n, "");
    if n == 0 { assert p[..n] == ""; }
  }

  lemma SlotWithoutDirectory(p: string)
    requires forall i | 0 <= i < LastSlash(p) :: p[i] == '/'
    ensures Slot(p) == Parts(p) <==> SlotIsPath(p)
  {
    hide Parts, ParentOf, NameOf, LastSlash;
    var n := LastSlash(p) + 1;
    assert p[..n] == Slashes(n);
    ParentOfTopName(p, n);
    assert p == Slashes(n) + p[n..];
    PartsOfSlashes(p, n, p[n..]);
  }

  /** `mkdir`, `write_file` and `remove` act on the very path that lookups walk exactly when the path
      does not end in a slash and its last slash is a lone one. "/" and "//x" are the ones that fail. */
  lemma SlotIsPathExactly(p: string)
    ensures Slot(p) == Parts(p) <==> SlotIsPath(p)
  {
    if exists i :: 0 <= i < LastSlash(p) && p[i] != '/' {
      SlotWithDirectory(p);
    } else {
      SlotWithoutDirectory(p);
    }
  }

  lemma {:induction false} LStripOfPrefix(p: string, i: nat)
    requires i < |p| && p[i] != '/'
    ensures LStrip(p, IsSlash) == LStrip(p[..i + 1], IsSlash) + p[i + 1..]
    ensures LStrip(p[..i + 1], IsSlash) != ""
  {
    var head := p[..i + 1];
    assert head[0] == p[0] && p == head + p[i + 1..];
    if p[0] == '/' {
      LStripOfPrefix(p[1..], i - 1);
      assert p[1..][..i] == head[1..];
      assert p[1..][i..] == p[i + 1..];
      assert LStrip(head, IsSlash) == LStrip(head[1..], IsSlash);
    } else {
      assert LStrip(head, IsSlash) == head;
    }
  }

  lemma {:induction false} JoinLast(comps: Path)
    requires |comps| >= 2
    ensures Join(comps, "/") == Join(comps[..|comps| - 1], "/") + (['/'] + comps[|comps| - 1])
  {
    if |comps| > 2 {
      JoinLast(comps[1..]);
      assert comps[1..][..|comps| - 2] == comps[..|comps| - 1][1..];
    } else {
      assert Join(comps[1..], "/") == comps[1];
    }
  }

  lemma LastSlashIs(p: string, i: int)
    requires -1 <= i < |p| && (i >= 0 ==> p[i] == '/') && forall j | i < j < |p| :: p[j] != '/'
    ensures LastSlash(p) == i
  {
  }

  /** Of the canonical paths only the roots "/" and "//", and "//name", are not their own slot. */
  lemma SlotOfCanonical(n: nat, comps: Path)
    requires 1 <= n <= 2 && AllClean(comps)
    ensures SlotIsPath(Render(n, comps)) <==> comps != [] && !(n == 2 && |comps| == 1)
  {
    var p := Render(n, comps);
    if |comps| == 0 {
      assert p == Slashes(n) && p[|p| - 1] == '/';
    } else {
      JoinEnds(comps);
      assert p[|p| - 1] == Join(comps, "/")[|Join(comps, "/")| - 1];
      var last := comps[|comps| - 1];
      assert Clean(last);
      if |comps| == 1 {
        LastSlashIs(p, n - 1);
      } else {
        var init := comps[..|comps| - 1];
        JoinLast(comps);
        JoinEnds(init);
        var i := n + |Join(init, "/")|;
        assert p[i - 1] == Join(init, "/")[|Join(init, "/")| - 1];
        assert p[i..] == ['/'] + last;
        forall j | i < j < |p| ensures p[j] != '/' { assert p[j] == last[j - i - 1]; }
        LastSlashIs(p, i);
      }
    }
  }

  // Single steps

  /** From a canonical directory a name leads one level down, two dots lead one level up and stop at the
      root, and one dot or nothing stays. */
  lemma OneStep(n: nat, comps: Path, name: string, cwd: string)
    requires 1 <= n <= 2 && AllClean(comps) && Clean(name)
    ensures var here := Render(n, comps);
      && Normalize(name, here) == Render(n, comps + [name])
      && Normalize("..", here) == Render(n, if comps == [] then [] else comps[..|comps| - 1])
      && Normalize(".", here) == here
      && Normalize("", here) == here
      && Normalize(here, cwd) == here
  {
    hide Normpath, Render, Resolved, Split;
    var here := Render(n, comps);
    StartsWithSlash(n, comps);
    RenderReadsBack(n, comps);
    assert !Absolute(name) by { assert name[0] in name; }
    StepOf(here, name);
    StepOf(here, "..");
    StepOf(here, ".");
    assert comps + [name] == PushAll(comps, [name], true) by { PushOne(comps, name); }
    PushOne(comps, "..");
    PushOne(comps, ".");
    NoDots(comps);
  }

  lemma NoDots(comps: Path)
    requires AllClean(comps)
    ensures comps != [] ==> comps[|comps| - 1] != ".."
  {
    assert comps != [] ==> comps[|comps| - 1] in comps;
  }

  lemma StartsWithSlash(n: nat, comps: Path)
    requires 1 <= n
    ensures Absolute(Render(n, comps))
  {
  }

  lemma PushOne(stack: Path, comp: string)
    ensures PushAll(stack, [comp], true) == Push(stack, comp, true)
  {
    assert [comp][1..] == [];
  }

  /** A step by one component. */
  lemma StepOf(p: string, comp: string)
    requires Absolute(p) && !Absolute(comp) && comp != "" && '/' !in comp
    ensures Normalize(comp, p) == Render(LeadingSlashes(p), PushAll(Resolved(p), [comp], true))
  {
    hide Normpath, PushAll;
    ResolvedOfJoin(p, comp);
    SplitWithoutSeparator(comp, '/');
    NormpathOfAbsolute(JoinPath(p, comp));
  }

  /** Slashes in front of an absolute path: two are kept, any other number is one. */
  lemma SlashesInFront(k: nat, t: string, cwd: string)
    requires k >= 1 && (t != "" ==> t[0] != '/')
    ensures Normalize(Slashes(k) + t, cwd) == Render(if k == 2 then 2 else 1, PushAll([], Split(t, '/'), true))
  {
    hide Normpath, PushAll, Split;
    var p := Slashes(k) + t;
    assert p[0] == '/' && (k >= 2 ==> p[1] == '/') && (k >= 3 ==> p[2] == '/');
    assert k == 2 && t != "" ==> p[2] == t[0];
    assert k == 1 && t != "" ==> p[1] == t[0];
    NormpathOfAbsolute(p);
    LeadingBlanks(k, t);
  }

  lemma {:induction false} LeadingBlanks(k: nat, t: string)
    ensures PushAll([], Split(Slashes(k) + t, '/'), true) == PushAll([], Split(t, '/'), true)
  {
    if k == 0 {
      assert Slashes(0) + t == t;
    } else {
      assert (Slashes(k) + t)[1..] == Slashes(k - 1) + t;
      assert Split(Slashes(k) + t, '/') == [""] + Split(Slashes(k - 1) + t, '/');
      PushBlanks([], true);
      PushAllAppend([], [""], Split(Slashes(k - 1) + t, '/'), true);
      LeadingBlanks(k - 1, t);
    }
  }
}
