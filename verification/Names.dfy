/** `sorted(names)` over distinct names, in code-point order. */
module Names {

  predicate Before(a: string, b: string) {
    b != "" && (a == "" || a[0] < b[0] || (a[0] == b[0] && Before(a[1..], b[1..])))
  }

  ghost predicate Ascending(names: seq<string>) {
    forall i, j | 0 <= i < j < |names| :: Before(names[i], names[j])
  }

  ghost predicate IsListing(names: seq<string>, s: set<string>) {
    Ascending(names) && forall n :: n in names <==> n in s
  }

  function Insert(names: seq<string>, name: string): seq<string> {
    if names == [] then [name]
    else if Before(name, names[0]) then [name] + names
    else [names[0]] + Insert(names[1..], name)
  }

  /** The one ascending sequence of the elements of `s`. */
  ghost function Listing(s: set<string>): (names: seq<string>)
    ensures IsListing(names, s)
  {
    if s == {} then []
    else
      var n :| n in s;
      InsertIntoListing(Listing(s - {n}), s - {n}, n);
      Insert(Listing(s - {n}), n)
  }

  lemma {:induction false} BeforeIsTransitive(a: string, b: string, c: string)
    requires Before(a, b) && Before(b, c)
    ensures Before(a, c)
  {
    if a != "" && a[0] == b[0] == c[0] {
      BeforeIsTransitive(a[1..], b[1..], c[1..]);
    }
  }

  lemma {:induction false} BeforeIsTotal(a: string, b: string)
    ensures Before(a, b) || Before(b, a) || a == b
  {
    if a != "" && b != "" && a[0] == b[0] {
      BeforeIsTotal(a[1..], b[1..]);
      assert a == [a[0]] + a[1..] && b == [b[0]] + b[1..];
    }
  }

  lemma {:induction false} BeforeIsIrreflexive(a: string)
    ensures !Before(a, a)
  {
    if a != "" {
      BeforeIsIrreflexive(a[1..]);
    }
  }

  lemma {:induction false} InsertIntoListing(names: seq<string>, s: set<string>, name: string)
    requires IsListing(names, s) && name !in s
    ensures IsListing(Insert(names, name), s + {name})
  {
    if names != [] {
      var head, rest := names[0], names[1..];
      var r := Insert(names, name);
      assert names == [head] + rest;
      if Before(name, head) {
        forall j | 0 < j < |names| ensures Before(name, names[j]) {
          BeforeIsTransitive(name, head, names[j]);
        }
      } else {
        assert head in names;
        BeforeIsTotal(name, head);
        BeforeIsIrreflexive(head);
        DropFirst(names, s);
        InsertIntoListing(rest, s - {head}, name);
        var tail := Insert(rest, name);
        forall j | 0 <= j < |tail| ensures Before(head, tail[j]) {
          assert tail[j] in tail;
          if tail[j] != name {
            var i :| 0 <= i < |rest| && rest[i] == tail[j];
            assert Before(names[0], names[i + 1]);
          }
        }
      }
    }
  }

  lemma {:induction false} ListingIsUnique(a: seq<string>, b: seq<string>, s: set<string>)
    requires IsListing(a, s) && IsListing(b, s)
    ensures a == b
    decreases |a|
  {
    assert b != [] ==> b[0] in b;
    if a != [] {
      assert a[0] in a;
      var i :| 0 <= i < |b| && b[i] == a[0];
      assert b[0] in b;
      var j :| 0 <= j < |a| && a[j] == b[0];
      if i > 0 {
        assert Before(b[0], b[i]);
        if j > 0 { assert Before(a[0], a[j]); BeforeIsTransitive(a[0], b[0], a[0]); }
        BeforeIsIrreflexive(a[0]);
      }
      DropFirst(a, s);
      DropFirst(b, s);
      ListingIsUnique(a[1..], b[1..], s - {a[0]});
    }
  }

  lemma DropFirst(a: seq<string>, s: set<string>)
    requires IsListing(a, s) && a != []
    ensures IsListing(a[1..], s - {a[0]})
  {
    BeforeIsIrreflexive(a[0]);
    assert a == [a[0]] + a[1..];
    forall i | 0 <= i < |a[1..]| ensures a[1..][i] != a[0] {
      assert Before(a[0], a[i + 1]);
    }
  }

  /** `i` is the first place where the two differ: one of them ends there, or has the smaller character. */
  predicate DiffersAt(a: string, b: string, i: nat) {
    && i <= |a| && i < |b| && a[..i] == b[..i]
    && (i == |a| || a[i] < b[i])
  }

  /** The order is that of code points at the first difference, a prefix coming first. */
  lemma {:induction false} BeforeIsCodePointOrder(a: string, b: string)
    ensures Before(a, b) <==> exists i: nat :: DiffersAt(a, b, i)
  {
    if Before(a, b) {
      FirstDifference(a, b);
    }
    if i: nat :| DiffersAt(a, b, i) {
      DifferenceDecides(a, b, i);
    }
  }

  lemma {:induction false} FirstDifference(a: string, b: string)
    requires Before(a, b)
    ensures exists i: nat :: DiffersAt(a, b, i)
  {
    if a != "" && a[0] == b[0] {
      FirstDifference(a[1..], b[1..]);
      var i: nat :| DiffersAt(a[1..], b[1..], i);
      assert a[..i + 1] == [a[0]] + a[1..][..i] && b[..i + 1] == [b[0]] + b[1..][..i];
      assert DiffersAt(a, b, i + 1);
    } else {
      assert DiffersAt(a, b, 0);
    }
  }

  lemma {:induction false} DifferenceDecides(a: string, b: string, i: nat)
    requires DiffersAt(a, b, i)
    ensures Before(a, b)
  {
    if i > 0 {
      assert a[..i][0] == a[0] && b[..i][0] == b[0];
      assert a[1..][..i - 1] == a[..i][1..] && b[1..][..i - 1] == b[..i][1..];
      DifferenceDecides(a[1..], b[1..], i - 1);
    }
  }
}
