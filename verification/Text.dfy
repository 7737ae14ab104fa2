/** Python string operations the program leans on, and the laws that connect them. */
module Text {

  datatype Option<+T> = None | Some(value: T) {
    function GetOr(default: T): T {
      match this
      case Some(v) => v
      case None => default
    }
  }

  /** `s.split(d)` for a one-character separator. */
  function Split(s: string, d: char): (parts: seq<string>)
    ensures |parts| >= 1
  {
    if s == "" then [""]
    else if s[0] == d then [""] + Split(s[1..], d)
    else
      var rest := Split(s[1..], d);
      [[s[0]] + rest[0]] + rest[1..]
  }

  /** `sep.join(parts)`. */
  function Join(parts: seq<string>, sep: string): string {
    if |parts| == 0 then ""
    else if |parts| == 1 then parts[0]
    else parts[0] + sep + Join(parts[1..], sep)
  }

  /** `"".join(parts)`. */
  function Concat(parts: seq<string>): string {
    if |parts| == 0 then "" else parts[0] + Concat(parts[1..])
  }

  /** `s[i:i + len(op)] == op`. */
  predicate OccursAt(s: string, i: int, op: string) {
    0 <= i <= |s| && op <= s[i..]
  }

  /** `op in s` for strings. */
  predicate Contains(s: string, op: string) {
    exists i :: 0 <= i <= |s| && OccursAt(s, i, op)
  }

  function LStrip(s: string, drop: char -> bool): string {
    if s != "" && drop(s[0]) then LStrip(s[1..], drop) else s
  }

  function RStrip(s: string, drop: char -> bool): string {
    if s != "" && drop(s[|s| - 1]) then RStrip(s[..|s| - 1], drop) else s
  }

  function Strip(s: string, drop: char -> bool): string {
    RStrip(LStrip(s, drop), drop)
  }

  /** The characters Python's `str.isspace` accepts; `strip()` and `split()` cut on them. */
  predicate IsSpace(c: char) {
    || '\t' <= c <= '\r' || '\U{1C}' <= c <= ' ' || c == '\U{85}' || c == '\U{A0}' || c == '\U{1680}'
    || '\U{2000}' <= c <= '\U{200A}' || c == '\U{2028}' || c == '\U{2029}' || c == '\U{202F}'
    || c == '\U{205F}' || c == '\U{3000}'
  }

  function StripSpace(s: string): string {
    Strip(s, IsSpace)
  }

  /** `s.split()`: the maximal runs of non-space characters. */
  function Words(s: string): (ws: seq<string>)
    ensures forall w | w in ws :: w != "" && forall c | c in w :: !IsSpace(c)
  {
    WordsFrom(s, "")
  }

  function WordsFrom(s: string, word: string): (ws: seq<string>)
    requires forall c | c in word :: !IsSpace(c)
    ensures forall w | w in ws :: w != "" && forall c | c in w :: !IsSpace(c)
    decreases |s|
  {
    var flush := if word == "" then [] else [word];
    if s == "" then flush
    else if IsSpace(s[0]) then flush + WordsFrom(s[1..], "")
    else WordsFrom(s[1..], word + [s[0]])
  }

  // Laws of Split and Join

  lemma {:induction false} SplitAround(a: string, d: char, b: string)
    ensures Split(a + [d] + b, d) == Split(a, d) + Split(b, d)
  {
    if a == "" {
      assert a + [d] + b == [d] + b;
    } else {
      assert a + [d] + b == [a[0]] + (a[1..] + [d] + b);
      SplitAround(a[1..], d, b);
    }
  }

  lemma {:induction false} SplitHasNoSeparator(s: string, d: char)
    ensures forall p | p in Split(s, d) :: d !in p
  {
    if s != "" {
      SplitHasNoSeparator(s[1..], d);
    }
  }

  lemma {:induction false} SplitWithoutSeparator(s: string, d: char)
    requires d !in s
    ensures Split(s, d) == [s]
  {
    if s != "" {
      assert s[0] in s;
      SplitWithoutSeparator(s[1..], d);
      assert s == [s[0]] + s[1..];
    }
  }

  lemma {:induction false} SplitJoin(parts: seq<string>, d: char)
    requires |parts| >= 1 && forall p | p in parts :: d !in p
    ensures Split(Join(parts, [d]), d) == parts
  {
    SplitWithoutSeparator(parts[0], d);
    if |parts| > 1 {
      SplitAround(parts[0], d, Join(parts[1..], [d]));
      SplitJoin(parts[1..], d);
      assert parts == [parts[0]] + parts[1..];
    }
  }

  lemma {:induction false} JoinSplit(s: string, d: char)
    ensures Join(Split(s, d), [d]) == s
  {
    if s != "" {
      JoinSplit(s[1..], d);
      var rest := Split(s[1..], d);
      if s[0] == d {
        assert Split(s, d)[1..] == rest;
      } else {
        assert Split(s, d)[1..] == rest[1..];
      }
    }
  }

  lemma {:induction false} SplitLast(s: string, d: char)
    requires s != "" && s[|s| - 1] != d
    ensures var ps := Split(s, d); ps[|ps| - 1] != ""
  {
    if |s| > 1 {
      SplitLast(s[1..], d);
    }
  }

  lemma {:induction false} StripIdentity(s: string, drop: char -> bool)
    requires s != "" ==> !drop(s[0]) && !drop(s[|s| - 1])
    ensures Strip(s, drop) == s
  {
  }

  lemma {:induction false} LStripFacts(s: string, drop: char -> bool)
    ensures var r := LStrip(s, drop); |r| <= |s| && r == s[|s| - |r|..] && (r != "" ==> !drop(r[0]))
    ensures forall i | 0 <= i < |s| - |LStrip(s, drop)| :: drop(s[i])
  {
    if s != "" && drop(s[0]) {
      LStripFacts(s[1..], drop);
      var r := LStrip(s, drop);
      assert r == s[1..][|s| - 1 - |r|..];
      forall i | 0 <= i < |s| - |r| ensures drop(s[i]) {
        if i > 0 { assert s[i] == s[1..][i - 1]; }
      }
    }
  }

  lemma {:induction false} RStripFacts(s: string, drop: char -> bool)
    ensures var r := RStrip(s, drop); |r| <= |s| && r == s[..|r|] && (r != "" ==> !drop(r[|r| - 1]))
    ensures forall i | |RStrip(s, drop)| <= i < |s| :: drop(s[i])
  {
    if s != "" && drop(s[|s| - 1]) {
      RStripFacts(s[..|s| - 1], drop);
    }
  }

  lemma {:induction false} ConcatAppend(a: seq<string>, b: seq<string>)
    ensures Concat(a + b) == Concat(a) + Concat(b)
  {
    if a == [] {
      assert a + b == b;
    } else {
      assert (a + b)[1..] == a[1..] + b;
      ConcatAppend(a[1..], b);
    }
  }

  lemma {:induction false} WordsOfSpaced(word: string, rest: string, before: string)
    requires forall c | c in before :: !IsSpace(c)
    requires forall c | c in word :: !IsSpace(c)
    requires before + word != ""
    ensures WordsFrom(word + " " + rest, before) == [before + word] + Words(rest)
    ensures WordsFrom(word, before) == [before + word]
    decreases |word|
  {
    if word == "" {
      assert word + " " + rest == " " + rest && (" " + rest)[1..] == rest;
      assert before + word == before;
    } else {
      assert (word + " " + rest)[1..] == word[1..] + " " + rest;
      assert word[0] in word;
      assert before + [word[0]] + word[1..] == before + word;
      WordsOfSpaced(word[1..], rest, before + [word[0]]);
    }
  }

  // Words that can be told apart

  ghost predicate IsWord(w: string) {
    w != "" && forall c | c in w :: !IsSpace(c)
  }

  ghost predicate AreWords(words: seq<string>) {
    forall w | w in words :: IsWord(w)
  }

  lemma {:induction false} WordsOfCut(word: string, c: char, rest: string, before: string)
    requires (forall d | d in before :: !IsSpace(d)) && (forall d | d in word :: !IsSpace(d))
    requires before + word != "" && IsSpace(c)
    ensures WordsFrom(word + ([c] + rest), before) == [before + word] + Words(rest)
    decreases |word|
  {
    hide IsSpace;
    if word == "" {
      assert word + ([c] + rest) == [c] + rest && ([c] + rest)[1..] == rest && before + word == before;
    } else {
      assert (word + ([c] + rest))[1..] == word[1..] + ([c] + rest);
      assert word[0] in word && before + [word[0]] + word[1..] == before + word;
      WordsOfCut(word[1..], c, rest, before + [word[0]]);
    }
  }

  /** Words in columns can be read back. */
  lemma {:induction false} WordsOfColumns(words: seq<string>)
    requires AreWords(words) && words != []
    ensures Words(Join(words, "  ") + "\n") == words
  {
    hide WordsFrom, IsSpace;
    var w, rest := words[0], words[1..];
    assert IsWord(w) && "" + w == w && words == [w] + rest;
    OnlyBlanks();
    if rest == [] {
      WordsOfCut(w, '\n', "", "");
      assert w + (['\n'] + "") == w + "\n";
    } else {
      var line := Join(rest, "  ") + "\n";
      WordsOfColumns(rest);
      WordsOfCut(w, ' ', " " + line, "");
      BlankFirst(line);
      assert w + "  " + Join(rest, "  ") + "\n" == w + ([' '] + (" " + line));
    }
  }

  lemma BlankFirst(s: string)
    ensures Words(" " + s) == Words(s)
  {
    assert (" " + s)[1..] == s && [] + WordsFrom(s, "") == WordsFrom(s, "");
  }

  lemma OnlyBlanks()
    ensures IsSpace(' ') && IsSpace('\n') && Words("") == []
  {
  }
}
