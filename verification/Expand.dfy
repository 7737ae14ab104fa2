/** `_expand_env` of `engine/vanilla.py`: environment variables inside one token. */
module Expand {
  /** What a token is made of: plain characters (a stray `$` among them), `$name` and `${name}`. */
  datatype Fragment = Plain(c: char) | Variable(name: string, braced: bool)

  /** Which characters count as letters, and as letters or digits. */
  datatype Alphabet = Alphabet(alpha: char -> bool, alnum: char -> bool) {
    predicate Starts(c: char) { alpha(c) || c == '_' }
    predicate Continues(c: char) { alnum(c) || c == '_' }
  }

  /** `s.find(c, i)`, with |s| for "not found". */
  function IndexFrom(s: string, c: char, i: nat): (j: nat)
    requires i <= |s|
    ensures i <= j <= |s| && (j < |s| ==> s[j] == c)
    decreases |s| - i
  {
    if i == |s| || s[i] == c then i else IndexFrom(s, c, i + 1)
  }

  function NameEnd(s: string, i: nat, abc: Alphabet): (j: nat)
    requires i <= |s|
    ensures i <= j <= |s|
    decreases |s| - i
  {
    if i < |s| && abc.Continues(s[i]) then NameEnd(s, i + 1, abc) else i
  }

  /** The fragment at `i`, and where the next one starts. */
  function FragmentAt(s: string, i: nat, abc: Alphabet): (r: (Fragment, nat))
    requires i < |s|
    ensures i < r.1 <= |s|
  {
    if s[i] == '$' && i + 1 < |s| then
      var end := IndexFrom(s, '}', i + 2);
      if s[i + 1] == '{' && end < |s| then (Variable(s[i + 2..end], true), end + 1)
      else if abc.Starts(s[i + 1]) then
        var j := NameEnd(s, i + 1, abc);
        (Variable(s[i + 1..j], false), j)
      else (Plain('$'), i + 1)
    else (Plain(s[i]), i + 1)
  }

  function ParseFrom(s: string, i: nat, abc: Alphabet): seq<Fragment>
    requires i <= |s|
    decreases |s| - i
  {
    if i == |s| then []
    else
      var (f, next) := FragmentAt(s, i, abc);
      [f] + ParseFrom(s, next, abc)
  }

  function Parse(token: string, abc: Alphabet): seq<Fragment> {
    ParseFrom(token, 0, abc)
  }

  function SourceOf(f: Fragment): string {
    match f
    case Plain(c) => [c]
    case Variable(name, true) => ['$', '{'] + name + ['}']
    case Variable(name, false) => ['$'] + name
  }

  function Source(fs: seq<Fragment>): string {
    if fs == [] then "" else SourceOf(fs[0]) + Source(fs[1..])
  }

  function ValueOf(f: Fragment, env: map<string, string>): string {
    match f
    case Plain(c) => [c]
    case Variable(name, _) => if name in env then env[name] else ""
  }

  /** Every fragment replaced by its value; a value is copied, never read again. */
  function Render(fs: seq<Fragment>, env: map<string, string>): string {
    if fs == [] then "" else ValueOf(fs[0], env) + Render(fs[1..], env)
  }

  function Expansion(token: string, env: map<string, string>, abc: Alphabet): string {
    Render(Parse(token, abc), env)
  }

  /** A name in braces stops at the first brace; a bare one takes only name characters. */
  ghost predicate IsFragment(f: Fragment, abc: Alphabet) {
    f.Variable? ==> if f.braced then '}' !in f.name else forall c | c in f.name :: abc.Continues(c)
  }

  lemma {:induction false} IndexFromIsFirst(s: string, c: char, i: nat)
    requires i <= |s|
    ensures c !in s[i..IndexFrom(s, c, i)]
    decreases |s| - i
  {
    var j := IndexFrom(s, c, i);
    if i < |s| && s[i] != c {
      IndexFromIsFirst(s, c, i + 1);
      assert s[i..j] == [s[i]] + s[i + 1..j];
    }
  }

  lemma {:induction false} NameIsName(s: string, i: nat, abc: Alphabet)
    requires i <= |s|
    ensures forall c | c in s[i..NameEnd(s, i, abc)] :: abc.Continues(c)
    decreases |s| - i
  {
    var j := NameEnd(s, i, abc);
    if i < |s| && abc.Continues(s[i]) {
      NameIsName(s, i + 1, abc);
      assert s[i..j] == [s[i]] + s[i + 1..j];
    }
  }

  lemma FragmentIsText(s: string, i: nat, abc: Alphabet)
    requires i < |s|
    ensures var r := FragmentAt(s, i, abc); SourceOf(r.0) == s[i..r.1] && IsFragment(r.0, abc)
  {
    var r := FragmentAt(s, i, abc);
    if i + 1 < |s| {
      IndexFromIsFirst(s, '}', i + 2);
      NameIsName(s, i + 1, abc);
    }
    if r.0.Variable? && r.0.braced {
      assert s[i..r.1] == [s[i], s[i + 1]] + s[i + 2..r.1 - 1] + [s[r.1 - 1]];
    } else {
      assert s[i..r.1] == [s[i]] + s[i + 1..r.1];
    }
  }

  lemma ParseStep(s: string, i: nat, abc: Alphabet)
    requires i < |s|
    ensures var (first, next) := FragmentAt(s, i, abc);
      && ParseFrom(s, i, abc) == [first] + ParseFrom(s, next, abc)
      && Source(ParseFrom(s, i, abc)) == SourceOf(first) + Source(ParseFrom(s, next, abc))
  {
    hide FragmentAt, SourceOf;
    var (first, next) := FragmentAt(s, i, abc);
    assert ([first] + ParseFrom(s, next, abc))[1..] == ParseFrom(s, next, abc);
  }

  lemma SlicesJoin(s: string, i: nat, j: nat)
    requires i <= j <= |s|
    ensures s[i..j] + s[j..] == s[i..]
  {
  }

  lemma FragmentsOfCons(first: Fragment, rest: seq<Fragment>, abc: Alphabet)
    requires IsFragment(first, abc) && forall f | f in rest :: IsFragment(f, abc)
    ensures forall f | f in [first] + rest :: IsFragment(f, abc)
  {
    hide IsFragment;
    forall f | f in [first] + rest ensures IsFragment(f, abc) {
      assert f == first || f in rest;
    }
  }

  lemma {:induction false} ParseFromIsLossless(s: string, i: nat, abc: Alphabet)
    requires i <= |s|
    ensures Source(ParseFrom(s, i, abc)) == s[i..]
    ensures forall f | f in ParseFrom(s, i, abc) :: IsFragment(f, abc)
    decreases |s| - i
  {
    if i == |s| {
      hide IsFragment;
      assert ParseFrom(s, i, abc) == [] && s[i..] == "";
    } else {
      hide FragmentAt, ParseFrom, Source, SourceOf, IsFragment;
      var (first, next) := FragmentAt(s, i, abc);
      FragmentIsText(s, i, abc);
      ParseStep(s, i, abc);
      ParseFromIsLossless(s, next, abc);
      FragmentsOfCons(first, ParseFrom(s, next, abc), abc);
      SlicesJoin(s, i, next);
    }
  }

  /** Parsing loses nothing of the token, and every piece of it is a proper fragment. */
  lemma ParseIsLossless(token: string, abc: Alphabet)
    ensures Source(Parse(token, abc)) == token
    ensures forall f | f in Parse(token, abc) :: IsFragment(f, abc)
  {
    ParseFromIsLossless(token, 0, abc);
    assert token[0..] == token;
  }

  lemma {:induction false} PlainFrom(s: string, i: nat, env: map<string, string>, abc: Alphabet)
    requires i <= |s| && '$' !in s
    ensures Render(ParseFrom(s, i, abc), env) == s[i..]
    decreases |s| - i
  {
    if i < |s| {
      assert s[i] in s;
      PlainFrom(s, i + 1, env, abc);
      assert s[i..] == [s[i]] + s[i + 1..];
    }
  }

  /** A token without `$` stands for itself, in every environment. */
  lemma NoDollarNoChange(token: string, env: map<string, string>, abc: Alphabet)
    requires '$' !in token
    ensures Expansion(token, env, abc) == token
  {
    PlainFrom(token, 0, env, abc);
    assert token[0..] == token;
  }

  /** Two environments that agree on the variables a token names expand it alike. */
  lemma {:induction false} OnlyNamedVariablesMatter(fs: seq<Fragment>,
                                                    env: map<string, string>, env': map<string, string>)
    requires forall f | f in fs && f.Variable? :: ValueOf(f, env) == ValueOf(f, env')
    ensures Render(fs, env) == Render(fs, env')
  {
    if fs != [] {
      assert fs[0] in fs;
      OnlyNamedVariablesMatter(fs[1..], env, env');
    }
  }

  lemma {:induction false} IndexFromShifts(a: string, s: string, c: char, i: nat)
    requires i <= |s|
    ensures IndexFrom(a + s, c, |a| + i) == |a| + IndexFrom(s, c, i)
    decreases |s| - i
  {
    if i < |s| && s[i] != c {
      IndexFromShifts(a, s, c, i + 1);
    }
  }

  lemma {:induction false} NameEndShifts(a: string, s: string, i: nat, abc: Alphabet)
    requires i <= |s|
    ensures NameEnd(a + s, |a| + i, abc) == |a| + NameEnd(s, i, abc)
    decreases |s| - i
  {
    if i < |s| && abc.Continues(s[i]) {
      NameEndShifts(a, s, i + 1, abc);
    }
  }

  lemma FragmentShifts(a: string, s: string, i: nat, abc: Alphabet)
    requires i < |s|
    ensures FragmentAt(a + s, |a| + i, abc).0 == FragmentAt(s, i, abc).0
    ensures FragmentAt(a + s, |a| + i, abc).1 == |a| + FragmentAt(s, i, abc).1
  {
    if i + 1 < |s| {
      IndexFromShifts(a, s, '}', i + 2);
      NameEndShifts(a, s, i + 1, abc);
    }
    var j := FragmentAt(s, i, abc).1;
    assert forall k, l | 0 <= k <= l <= |s| :: (a + s)[|a| + k..|a| + l] == s[k..l];
  }

  /** What stands before a fragment does not change how it is read. */
  lemma {:induction false} ParseShifts(a: string, s: string, i: nat, abc: Alphabet)
    requires i <= |s|
    ensures ParseFrom(a + s, |a| + i, abc) == ParseFrom(s, i, abc)
    decreases |s| - i
  {
    hide FragmentAt;
    if i < |s| {
      FragmentShifts(a, s, i, abc);
      ParseShifts(a, s, FragmentAt(s, i, abc).1, abc);
    }
  }

  lemma {:induction false} PlainPrefix(a: string, b: string, env: map<string, string>, abc: Alphabet, i: nat)
    requires '$' !in a && i <= |a|
    ensures Render(ParseFrom(a + b, i, abc), env) == a[i..] + Expansion(b, env, abc)
    decreases |a| - i
  {
    hide Render;
    if i == |a| {
      ParseShifts(a, b, 0, abc);
      assert a[i..] + Expansion(b, env, abc) == Expansion(b, env, abc);
    } else {
      assert (a + b)[i] == a[i] && a[i] in a;
      RenderStep(a + b, i, env, abc);
      PlainPrefix(a, b, env, abc, i + 1);
      assert a[i..] == [a[i]] + a[i + 1..];
      var rest := Expansion(b, env, abc);
      assert [a[i]] + (a[i + 1..] + rest) == [a[i]] + a[i + 1..] + rest;
    }
  }

  /** A value is copied whatever it contains: it is not read again, and neither it nor what stands before it
      changes how the rest is read. */
  lemma ValueIsCopied(a: string, name: string, b: string, env: map<string, string>, abc: Alphabet)
    requires '$' !in a && '}' !in name
    ensures Expansion(a + (['$', '{'] + name + ['}'] + b), env, abc)
      == a + ((if name in env then env[name] else "") + Expansion(b, env, abc))
  {
    hide Render, ParseFrom;
    var head := ['$', '{'] + name + ['}'];
    var s := head + b;
    PlainPrefix(a, s, env, abc, 0);
    assert a[0..] == a;
    assert s[|head| - 1] == '}' && s[2..|head| - 1] == name;
    FirstBrace(s, |head| - 1);
    RenderStep(s, 0, env, abc);
    ParseShifts(head, b, 0, abc);
  }

  lemma FirstBrace(s: string, j: nat)
    requires 2 <= j < |s| && s[j] == '}' && '}' !in s[2..j]
    ensures IndexFrom(s, '}', 2) == j
  {
    IndexFromStops(s, '}', 2, j);
  }

  lemma {:induction false} IndexFromStops(s: string, c: char, i: nat, j: nat)
    requires i <= j < |s| && s[j] == c && c !in s[i..j]
    ensures IndexFrom(s, c, i) == j
    decreases j - i
  {
    if i < j {
      assert s[i..j][0] == s[i];
      assert s[i..j] == [s[i]] + s[i + 1..j];
      IndexFromStops(s, c, i + 1, j);
    }
  }

  method ExpandEnv(token: string, env: map<string, string>, abc: Alphabet) returns (r: string)
    ensures r == Expansion(token, env, abc)
  {
    if '$' !in token {
      NoDollarNoChange(token, env, abc);
      return token;
    }
    r := "";
    var i := 0;
    ghost var goal := Expansion(token, env, abc);
    ExpansionStarts(token, env, abc);
    hide Expanded, Expansion, FragmentAt, ValueOf;
    while i < |token|
      invariant 0 <= i <= |token|
      invariant Expanded(r, token, i, env, abc) == goal
    {
      ExpansionStep(r, token, i, env, abc);
      var piece, next := ExpandOne(token, i, env, abc);
      r := r + piece;
      i := next;
    }
    NothingLeft(r, token, env, abc);
  }

  /** The text so far, followed by what the rest of the token stands for. */
  ghost function Expanded(r: string, token: string, i: nat, env: map<string, string>, abc: Alphabet): string
    requires i <= |token|
  {
    r + Render(ParseFrom(token, i, abc), env)
  }

  lemma ExpansionStarts(token: string, env: map<string, string>, abc: Alphabet)
    ensures Expanded("", token, 0, env, abc) == Expansion(token, env, abc)
  {
    assert "" + Expansion(token, env, abc) == Expansion(token, env, abc);
  }

  lemma ExpansionStep(r: string, token: string, i: nat, env: map<string, string>, abc: Alphabet)
    requires i < |token|
    ensures var (f, next) := FragmentAt(token, i, abc);
      Expanded(r, token, i, env, abc) == Expanded(r + ValueOf(f, env), token, next, env, abc)
  {
    hide ParseFrom, Render, FragmentAt, ValueOf;
    var (f, next) := FragmentAt(token, i, abc);
    RenderStep(token, i, env, abc);
    var piece, rest := ValueOf(f, env), Render(ParseFrom(token, next, abc), env);
    assert r + (piece + rest) == r + piece + rest;
  }

  lemma NothingLeft(r: string, token: string, env: map<string, string>, abc: Alphabet)
    ensures Expanded(r, token, |token|, env, abc) == r
  {
    assert r + "" == r;
  }

  lemma RenderStep(token: string, i: nat, env: map<string, string>, abc: Alphabet)
    requires i < |token|
    ensures var (f, next) := FragmentAt(token, i, abc);
      Render(ParseFrom(token, i, abc), env) == ValueOf(f, env) + Render(ParseFrom(token, next, abc), env)
  {
    assert ParseFrom(token, i, abc)[1..] == ParseFrom(token, FragmentAt(token, i, abc).1, abc);
  }

  /** One round of the loop: the text appended, and where the next round starts. */
  method ExpandOne(token: string, i: nat, env: map<string, string>, abc: Alphabet) returns (piece: string, next: nat)
    requires i < |token|
    ensures piece == ValueOf(FragmentAt(token, i, abc).0, env) && next == FragmentAt(token, i, abc).1
  {
    var ch := token[i];
    if ch == '$' && i + 1 < |token| {
      var nxt := token[i + 1];
      if nxt == '{' {
        var end := IndexFrom(token, '}', i + 2);
        if end < |token| {
          var name := token[i + 2..end];
          return if name in env then env[name] else "", end + 1;
        }
      }
      if abc.Starts(nxt) {
        var j := i + 1;
        while j < |token| && abc.Continues(token[j])
          invariant i < j <= |token| && NameEnd(token, j, abc) == NameEnd(token, i + 1, abc)
        {
          j := j + 1;
        }
        var name := token[i + 1..j];
        return if name in env then env[name] else "", j;
      }
    }
    return [ch], i + 1;
  }

  // Variables without braces

  lemma {:induction false} NameEndStops(s: string, i: nat, j: nat, abc: Alphabet)
    requires i <= j <= |s| && (forall c | c in s[i..j] :: abc.Continues(c))
    requires j == |s| || !abc.Continues(s[j])
    ensures NameEnd(s, i, abc) == j
    decreases j - i
  {
    if i < j {
      assert s[i..j][0] == s[i];
      assert s[i..j] == [s[i]] + s[i + 1..j];
      NameEndStops(s, i + 1, j, abc);
    }
  }

  /** A bare name is as long as it can be, and its value is copied, too. */
  lemma NameIsExpanded(a: string, name: string, b: string, env: map<string, string>, abc: Alphabet)
    requires '$' !in a && name != "" && name[0] != '{' && abc.Starts(name[0])
    requires (forall c | c in name :: abc.Continues(c)) && (b == "" || !abc.Continues(b[0]))
    ensures Expansion(a + (['$'] + name + b), env, abc)
      == a + ((if name in env then env[name] else "") + Expansion(b, env, abc))
  {
    hide Render, ParseFrom;
    var head := ['$'] + name;
    var s := head + b;
    PlainPrefix(a, s, env, abc, 0);
    assert a[0..] == a;
    assert s[1] == name[0] && s[1..|head|] == name && s[|head|..] == b;
    NameEndStops(s, 1, |head|, abc);
    RenderStep(s, 0, env, abc);
    ParseShifts(head, b, 0, abc);
  }

  /** A `$` that opens neither form is copied. */
  lemma StrayDollarIsCopied(a: string, b: string, env: map<string, string>, abc: Alphabet)
    requires '$' !in a
    requires b == "" || ((b[0] == '{' ==> '}' !in b[1..]) && !abc.Starts(b[0]))
    ensures Expansion(a + (['$'] + b), env, abc) == a + (['$'] + Expansion(b, env, abc))
  {
    hide Render, ParseFrom;
    var s := ['$'] + b;
    PlainPrefix(a, s, env, abc, 0);
    assert a[0..] == a;
    if b != "" {
      assert s[1] == b[0] && s[2..] == b[1..];
      if b[0] == '{' { NoBrace(s, '}', 2); }
    }
    RenderStep(s, 0, env, abc);
    ParseShifts(['$'], b, 0, abc);
  }

  lemma {:induction false} NoBrace(s: string, c: char, i: nat)
    requires i <= |s| && c !in s[i..]
    ensures IndexFrom(s, c, i) == |s|
    decreases |s| - i
  {
    if i < |s| {
      assert s[i] in s[i..];
      assert s[i..][1..] == s[i + 1..];
      NoBrace(s, c, i + 1);
    }
  }
}
