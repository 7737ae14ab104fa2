/** The line scanners of `engine/vanilla.py`: which characters are quoted, where an operator first
    stands outside quotes, and how a line is cut at top-level `;` and `&&`. */
module Scanner {
  import opened Text

  /** The quote character the scanner is inside of, if any. */
  type Quote = Option<char>

  predicate IsQuote(c: char) { c == '\'' || c == '"' }

  function Next(q: Quote, c: char): Quote {
    if q.Some? then (if c == q.value then None else q)
    else if IsQuote(c) then Some(c)
    else None
  }

  /** The flag the scanner gives `c`; the quote characters themselves count as quoted. */
  predicate InQuote(q: Quote, c: char) {
    q.Some? || IsQuote(c)
  }

  function QuoteAfter(s: string, q: Quote): Quote {
    if s == "" then q else QuoteAfter(s[1..], Next(q, s[0]))
  }

  function Flags(s: string, q: Quote): (flags: seq<bool>)
    ensures |flags| == |s|
  {
    if s == "" then [] else [InQuote(q, s[0])] + Flags(s[1..], Next(q, s[0]))
  }

  /** `_iter_top_level_quotes`, collected. */
  method IterTopLevelQuotes(s: string) returns (chars: seq<(int, char, bool)>)
    ensures |chars| == |s|
    ensures forall i | 0 <= i < |s| :: chars[i] == (i, s[i], Flags(s, None)[i])
  {
    var quote: Quote := None;
    chars := [];
    for idx := 0 to |s|
      invariant |chars| == idx && quote == QuoteAfter(s[..idx], None)
      invariant forall i | 0 <= i < idx :: chars[i] == (i, s[i], Flags(s, None)[i])
    {
      var ch := s[idx];
      ScanStep(s, idx);
      if quote.Some? {
        if ch == quote.value {
          quote := None;
        }
        chars := chars + [(idx, ch, true)];
      } else if IsQuote(ch) {
        quote := Some(ch);
        chars := chars + [(idx, ch, true)];
      } else {
        chars := chars + [(idx, ch, false)];
      }
    }
  }

  lemma {:induction false} QuoteAfterAppend(a: string, b: string, q: Quote)
    ensures QuoteAfter(a + b, q) == QuoteAfter(b, QuoteAfter(a, q))
  {
    if a == "" {
      assert a + b == b;
    } else {
      assert (a + b)[1..] == a[1..] + b;
      QuoteAfterAppend(a[1..], b, Next(q, a[0]));
    }
  }

  lemma {:induction false} FlagAt(s: string, q: Quote, i: nat)
    requires i < |s|
    ensures Flags(s, q)[i] == InQuote(QuoteAfter(s[..i], q), s[i])
    ensures QuoteAfter(s[..i + 1], q) == Next(QuoteAfter(s[..i], q), s[i])
  {
    assert s[..i + 1][1..] == s[1..][..i];
    if i > 0 {
      assert s[..i][1..] == s[1..][..i - 1];
      FlagAt(s[1..], Next(q, s[0]), i - 1);
    }
  }

  lemma ScanStep(s: string, i: nat)
    requires i < |s|
    ensures Flags(s, None)[i] == InQuote(QuoteAfter(s[..i], None), s[i])
    ensures QuoteAfter(s[..i + 1], None) == Next(QuoteAfter(s[..i], None), s[i])
    ensures s[i..][1..] == s[i + 1..]
  {
    FlagAt(s, None, i);
  }

  /** Scanning a line is scanning its first part and then the rest from where the quotes stand. */
  lemma {:induction false} FlagsAppend(a: string, b: string, q: Quote)
    ensures Flags(a + b, q) == Flags(a, q) + Flags(b, QuoteAfter(a, q))
  {
    if a == "" {
      assert a + b == b;
    } else {
      assert (a + b)[1..] == a[1..] + b;
      FlagsAppend(a[1..], b, Next(q, a[0]));
    }
  }

  // Operators outside quotes

  /** `op` stands at `i` and every character of it is outside quotes. */
  predicate TopLevelAt(s: string, op: string, i: int) {
    && OccursAt(s, i, op)
    && forall k | i <= k < i + |op| :: !Flags(s, None)[k]
  }

  /** `_find_top_level`: the first such place, or -1. */
  function FindTopLevel(s: string, op: string): (pos: int)
    requires op != ""
    ensures -1 <= pos < |s|
    ensures pos >= 0 ==> TopLevelAt(s, op, pos)
    ensures forall i | 0 <= i < |s| && TopLevelAt(s, op, i) :: 0 <= pos <= i
  {
    FindTopLevelFrom(s, op, 0)
  }

  function FindTopLevelFrom(s: string, op: string, i: nat): (pos: int)
    requires op != "" && i <= |s|
    ensures pos == -1 || i <= pos < |s|
    ensures pos >= 0 ==> TopLevelAt(s, op, pos)
    ensures forall j | i <= j < |s| && TopLevelAt(s, op, j) :: 0 <= pos <= j
    decreases |s| - i
  {
    if i == |s| then -1
    else if TopLevelAt(s, op, i) then i
    else FindTopLevelFrom(s, op, i + 1)
  }

  method Find(s: string, op: string) returns (pos: int)
    requires op != ""
    ensures pos == FindTopLevel(s, op)
  {
    var n := |op|;
    var chars := IterTopLevelQuotes(s);
    var i := 0;
    while i < |chars|
      invariant 0 <= i <= |s|
      invariant FindTopLevelFrom(s, op, 0) == FindTopLevelFrom(s, op, i)
    {
      var (idx, _, inQuote) := chars[i];
      if !inQuote && OccursAt(s, idx, op) {
        if forall k | idx <= k < idx + n && k < |chars| :: !chars[k].2 {
          return idx;
        }
        var k :| idx <= k < idx + n && k < |chars| && chars[k].2;
        assert Flags(s, None)[k];
      }
      i := i + 1;
    }
    return -1;
  }

  predicate HasTopLevel(s: string, op: string)
    requires op != ""
  {
    FindTopLevel(s, op) != -1
  }

  function SplitOnce(s: string, op: string): (r: (string, string))
    requires op != ""
    ensures HasTopLevel(s, op) ==> s == r.0 + op + r.1
    ensures !HasTopLevel(s, op) ==> r == (s, "")
  {
    var pos := FindTopLevel(s, op);
    if pos == -1 then (s, "") else (s[..pos], s[pos + |op|..])
  }

  /** The part before the first operator has no such operator left. */
  lemma SplitOnceFirst(s: string, op: string)
    requires op != ""
    ensures !HasTopLevel(SplitOnce(s, op).0, op)
  {
    var pos := FindTopLevel(s, op);
    if pos >= 0 {
      var a, b := s[..pos], s[pos..];
      assert s == a + b;
      FlagsAppend(a, b, None);
      forall i | 0 <= i < |a| && TopLevelAt(a, op, i) ensures TopLevelAt(s, op, i) {
        assert s[i..][..|op|] == a[i..][..|op|];
      }
    }
  }

  // Cutting a line into commands

  /** A command and the operator before it ("" for the first). */
  datatype Segment = Segment(sep: string, text: string)

  predicate AtAnd(s: string) {
    |s| >= 2 && s[0] == '&' && s[1] == '&'
  }

  /** The rest of the cut once the scanner stands before `s`, with `buf` read of the current command. */
  function SplitFrom(s: string, q: Quote, sep: string, buf: string): (segs: seq<Segment>)
    ensures segs != []
    decreases |s|
  {
    if s == "" then [Segment(sep, buf)]
    else if !InQuote(q, s[0]) && AtAnd(s) then [Segment(sep, buf)] + SplitFrom(s[2..], q, "&&", "")
    else if !InQuote(q, s[0]) && s[0] == ';' then [Segment(sep, buf)] + SplitFrom(s[1..], q, ";", "")
    else SplitFrom(s[1..], Next(q, s[0]), sep, buf + [s[0]])
  }

  /** `_split_sequence`. */
  function SplitSequence(line: string): seq<Segment> {
    SplitFrom(line, None, "", "")
  }

  /** One round of the loop below. */
  lemma CutStep(done: seq<Segment>, s: string, q: Quote, sep: string, buf: string)
    requires s != ""
    ensures var all := done + SplitFrom(s, q, sep, buf); var next := done + [Segment(sep, buf)];
      if !InQuote(q, s[0]) && AtAnd(s) then all == next + SplitFrom(s[2..], q, "&&", "")
      else if !InQuote(q, s[0]) && s[0] == ';' then all == next + SplitFrom(s[1..], q, ";", "")
      else all == done + SplitFrom(s[1..], Next(q, s[0]), sep, buf + [s[0]])
  {
    var one := [Segment(sep, buf)];
    if !InQuote(q, s[0]) && AtAnd(s) {
      var rest := SplitFrom(s[2..], q, "&&", "");
      assert done + (one + rest) == done + one + rest;
    } else if !InQuote(q, s[0]) && s[0] == ';' {
      var rest := SplitFrom(s[1..], q, ";", "");
      assert done + (one + rest) == done + one + rest;
    }
  }

  method SplitLine(line: string) returns (segments: seq<Segment>)
    ensures segments == SplitSequence(line)
  {
    segments := [];
    var buf := "";
    var sep := "";
    var i := 0;
    var chars := IterTopLevelQuotes(line);
    assert line[0..] == line;
    ghost var q: Quote := None;
    assert QuoteAfter(line[..0], None) == None;
    hide Flags, QuoteAfter;
    while i < |line|
      invariant 0 <= i <= |line| && q == QuoteAfter(line[..i], None)
      invariant segments + SplitFrom(line[i..], q, sep, buf) == SplitSequence(line)
    {
      var inQuote := chars[i].2;
      ScanStep(line, i);
      if !inQuote && AtAnd(line[i..]) {
        ScanStep(line, i + 1);
        assert line[i..][2..] == line[i + 2..];
        CutStep(segments, line[i..], q, sep, buf);
        segments := segments + [Segment(sep, buf)];
        buf := "";
        sep := "&&";
        i := i + 2;
        continue;
      }
      CutStep(segments, line[i..], q, sep, buf);
      if !inQuote && line[i] == ';' {
        segments := segments + [Segment(sep, buf)];
        buf := "";
        sep := ";";
        i := i + 1;
        continue;
      }
      buf := buf + [line[i]];
      q := Next(q, line[i]);
      i := i + 1;
    }
    segments := segments + [Segment(sep, buf)];
  }

  function Unsplit(segs: seq<Segment>): string {
    if segs == [] then "" else segs[0].sep + segs[0].text + Unsplit(segs[1..])
  }

  /** No top-level `;` or `&&`, scanning from `q`. */
  ghost predicate NoOperator(s: string, q: Quote) {
    s == "" || (!(!InQuote(q, s[0]) && (s[0] == ';' || AtAnd(s))) && NoOperator(s[1..], Next(q, s[0])))
  }

  /** The text ends in an `&` outside quotes, so a `&&` after it would start one character early. */
  ghost predicate EndsInAmp(s: string, q: Quote) {
    s != "" && s[|s| - 1] == '&' && QuoteAfter(s[..|s| - 1], q).None?
  }

  /** What a cut consists of: the first segment has no separator and every other one has; no segment
      holds an operator when scanned by itself; all but the last close their quotes; and none before
      a `&&` ends in a bare `&`. */
  ghost predicate IsCut(segs: seq<Segment>) {
    segs != [] && segs[0].sep == "" && IsCutFrom(segs)
  }

  ghost predicate IsCutFrom(segs: seq<Segment>)
    requires segs != []
  {
    && NoOperator(segs[0].text, None)
    && (|segs| > 1 ==>
      && QuoteAfter(segs[0].text, None).None?
      && (segs[1].sep == ";" || (segs[1].sep == "&&" && !EndsInAmp(segs[0].text, None)))
      && IsCutFrom(segs[1..]))
  }

  lemma {:induction false} NoOperatorAppend(a: string, b: string, q: Quote)
    requires NoOperator(a, q) && NoOperator(b, QuoteAfter(a, q))
    requires EndsInAmp(a, q) ==> b == "" || b[0] != '&'
    ensures NoOperator(a + b, q)
  {
    if a == "" {
      assert a + b == b;
    } else {
      assert (a + b)[1..] == a[1..] + b;
      assert |a| > 1 ==> a[..|a| - 1][1..] == a[1..][..|a| - 2];
      assert |a| == 1 ==> a[..|a| - 1] == "";
      NoOperatorAppend(a[1..], b, Next(q, a[0]));
    }
  }

  lemma {:induction false} CutRebuilds(s: string, q: Quote, sep: string, buf: string)
    ensures Unsplit(SplitFrom(s, q, sep, buf)) == sep + buf + s
    decreases |s|
  {
    if s != "" && !InQuote(q, s[0]) && AtAnd(s) {
      CutRebuilds(s[2..], q, "&&", "");
      assert s == "&&" + s[2..];
    } else if s != "" && !InQuote(q, s[0]) && s[0] == ';' {
      CutRebuilds(s[1..], q, ";", "");
    } else if s != "" {
      CutRebuilds(s[1..], Next(q, s[0]), sep, buf + [s[0]]);
    }
  }

  lemma BufferGrows(buf: string, c: char)
    requires NoOperator(buf, None) && !(QuoteAfter(buf, None).None? && c == ';')
    requires EndsInAmp(buf, None) ==> c != '&'
    ensures NoOperator(buf + [c], None) && QuoteAfter(buf + [c], None) == Next(QuoteAfter(buf, None), c)
    ensures EndsInAmp(buf + [c], None) <==> c == '&' && QuoteAfter(buf, None).None?
  {
    assert (buf + [c])[..|buf|] == buf;
    NoOperatorAppend(buf, [c], None);
    QuoteAfterAppend(buf, [c], None);
  }

  lemma {:induction false} CutIsGood(s: string, q: Quote, sep: string, buf: string)
    requires NoOperator(buf, None) && q == QuoteAfter(buf, None)
    requires EndsInAmp(buf, None) ==> s == "" || s[0] != '&'
    ensures var segs := SplitFrom(s, q, sep, buf); segs[0].sep == sep && IsCutFrom(segs)
    decreases |s|
  {
    if s != "" && !InQuote(q, s[0]) && AtAnd(s) {
      CutIsGood(s[2..], q, "&&", "");
    } else if s != "" && !InQuote(q, s[0]) && s[0] == ';' {
      CutIsGood(s[1..], q, ";", "");
    } else if s != "" {
      BufferGrows(buf, s[0]);
      CutIsGood(s[1..], Next(q, s[0]), sep, buf + [s[0]]);
    }
  }

  /** The scanner walks over operator-free text without cutting. */
  lemma {:induction false} CutSkips(t: string, u: string, q: Quote, sep: string, buf: string)
    requires NoOperator(t, q)
    requires EndsInAmp(t, q) ==> u == "" || u[0] != '&'
    ensures SplitFrom(t + u, q, sep, buf) == SplitFrom(u, QuoteAfter(t, q), sep, buf + t)
  {
    if t == "" {
      assert t + u == u && buf + t == buf;
    } else {
      assert (t + u)[1..] == t[1..] + u;
      assert buf + [t[0]] + t[1..] == buf + t;
      assert |t| > 1 ==> t[..|t| - 1][1..] == t[1..][..|t| - 2];
      assert |t| == 1 ==> t[..|t| - 1] == "";
      CutSkips(t[1..], u, Next(q, t[0]), sep, buf + [t[0]]);
    }
  }

  /** The scanner cuts where the next segment begins, and starts afresh behind its separator. */
  lemma CutAtNext(t: string, sep: string, next: Segment, rest: string)
    requires NoOperator(t, None) && QuoteAfter(t, None).None?
    requires next.sep == ";" || (next.sep == "&&" && !EndsInAmp(t, None))
    ensures SplitFrom(t + (next.sep + rest), None, sep, "") == [Segment(sep, t)] + SplitFrom(rest, None, next.sep, "")
  {
    hide NoOperator, EndsInAmp, QuoteAfter;
    var u := next.sep + rest;
    CutSkips(t, u, None, sep, "");
    assert "" + t == t;
    assert u[|next.sep|..] == rest && AtAnd(u) == (next.sep == "&&");
  }

  lemma {:induction false} CutOfRebuilt(segs: seq<Segment>)
    requires segs != [] && IsCutFrom(segs)
    ensures SplitFrom(segs[0].text + Unsplit(segs[1..]), None, segs[0].sep, "") == segs
  {
    hide NoOperator, EndsInAmp, QuoteAfter, SplitFrom;
    var t := segs[0].text;
    if |segs| == 1 {
      WholeTextIsCut(t, segs[0].sep);
      assert t + Unsplit(segs[1..]) == t && segs == [segs[0]];
    } else {
      var next := segs[1];
      var rest := next.text + Unsplit(segs[2..]);
      assert segs[1..][1..] == segs[2..];
      assert Unsplit(segs[1..]) == next.sep + rest;
      CutAtNext(t, segs[0].sep, next, rest);
      CutOfRebuilt(segs[1..]);
      assert segs == [segs[0]] + segs[1..];
    }
  }

  lemma WholeTextIsCut(t: string, sep: string)
    requires NoOperator(t, None)
    ensures SplitFrom(t, None, sep, "") == [Segment(sep, t)]
  {
    hide NoOperator;
    CutSkips(t, "", None, sep, "");
    assert t + "" == t && "" + t == t;
  }

  /** Cutting and gluing are inverse to each other: gluing a cut gives the line back, every cut is
      well formed, and every well-formed cut is what its own text is cut into. */
  lemma SplitSequenceIsExact(line: string, segs: seq<Segment>)
    ensures Unsplit(SplitSequence(line)) == line
    ensures IsCut(SplitSequence(line))
    ensures IsCut(segs) ==> SplitSequence(Unsplit(segs)) == segs
  {
    CutRebuilds(line, None, "", "");
    CutIsGood(line, None, "", "");
    assert "" + "" + line == line;
    hide NoOperator, QuoteAfter, EndsInAmp, SplitFrom;
    if IsCut(segs) {
      CutOfRebuilt(segs);
      assert Unsplit(segs) == segs[0].text + Unsplit(segs[1..]);
    }
  }

  /** The line up to the text of segment `i`. */
  function UpTo(segs: seq<Segment>, i: nat): string
    requires i < |segs|
  {
    if i == 0 then segs[0].sep else segs[0].sep + segs[0].text + UpTo(segs[1..], i - 1)
  }

  /** A segment scanned by itself gets the flags it has in the whole line: every segment starts outside
      quotes. */
  lemma SegmentKeepsFlags(line: string, i: nat)
    requires i < |SplitSequence(line)|
    ensures var segs := SplitSequence(line);
      var before, text, after := UpTo(segs, i), segs[i].text, Unsplit(segs[i + 1..]);
      && line == before + (text + after)
      && Flags(line, None) == Flags(before, None) + (Flags(text, None) + Flags(after, QuoteAfter(text, None)))
  {
    hide SplitSequence, Flags, QuoteAfter;
    var segs := SplitSequence(line);
    var before, text, after := UpTo(segs, i), segs[i].text, Unsplit(segs[i + 1..]);
    SplitSequenceIsExact(line, []);
    SegmentStartsUnquoted(segs, i);
    FlagsAppend(before, text + after, None);
    FlagsAppend(text, after, None);
  }

  lemma {:induction false} SegmentStartsUnquoted(segs: seq<Segment>, i: nat)
    requires i < |segs| && IsCutFrom(segs) && segs[0].sep in {"", ";", "&&"}
    ensures Unsplit(segs) == UpTo(segs, i) + (segs[i].text + Unsplit(segs[i + 1..]))
    ensures QuoteAfter(UpTo(segs, i), None) == None
  {
    hide QuoteAfter, NoOperator, EndsInAmp;
    var sep, text := segs[0].sep, segs[0].text;
    SeparatorIsUnquoted(sep);
    if i == 0 {
      assert sep + text + Unsplit(segs[1..]) == sep + (text + Unsplit(segs[1..]));
    } else {
      SegmentStartsUnquoted(segs[1..], i - 1);
      assert segs[1..][i..] == segs[i + 1..] && segs[1..][i - 1] == segs[i];
      QuoteAfterAppend(sep, text, None);
      QuoteAfterAppend(sep + text, UpTo(segs[1..], i - 1), None);
      var rest := segs[i].text + Unsplit(segs[i + 1..]);
      assert sep + text + (UpTo(segs[1..], i - 1) + rest) == sep + text + UpTo(segs[1..], i - 1) + rest;
    }
  }

  lemma SeparatorIsUnquoted(sep: string)
    requires sep in {"", ";", "&&"}
    ensures QuoteAfter(sep, None) == None
  {
    assert sep == "&&" ==> sep[1..] == "&" && sep[1..][1..] == "";
  }

  /** A line without the two operators anywhere is one command. */
  lemma {:induction false} NoOperatorInLine(s: string, q: Quote)
    requires ';' !in s && !Contains(s, "&&")
    ensures NoOperator(s, q)
  {
    if s != "" {
      forall i | 0 <= i <= |s[1..]| && OccursAt(s[1..], i, "&&") ensures OccursAt(s, i + 1, "&&") {
        assert s[i + 1..] == s[1..][i..];
      }
      assert AtAnd(s) ==> OccursAt(s, 0, "&&");
      NoOperatorInLine(s[1..], Next(q, s[0]));
    }
  }

  lemma OneCommandLine(line: string)
    requires ';' !in line && !Contains(line, "&&")
    ensures SplitSequence(line) == [Segment("", line)]
  {
    NoOperatorInLine(line, None);
    SplitSequenceIsExact("", [Segment("", line)]);
    assert Unsplit([Segment("", line)]) == line;
  }

  // What quotes do

  /** Text between two like quotes is quoted, whatever it holds, and behind it the scan goes on as at the
      start; text without quotes is not quoted; an open quote reaches to the end. */
  lemma QuotesGroup(before: string, q: char, text: string, after: string)
    requires (forall c | c in before :: c != '\'' && c != '\"') && (q == '\'' || q == '\"') && q !in text
    ensures var quoted := [q] + text + [q];
      && Flags(before + (quoted + after), None) == Same(|before|, false) + (Same(|quoted|, true) + Flags(after, None))
      && Flags(before + ([q] + text), None) == Same(|before|, false) + Same(1 + |text|, true)
  {
    hide Flags, QuoteAfter;
    var quoted := [q] + text + [q];
    PlainFlags(before);
    FlagsAppend(before, quoted + after, None);
    FlagsAppend(before, [q] + text, None);
    FlagsAppend([q] + text, [q], None);
    FlagsAppend([q], text, None);
    FlagsAppend(quoted, after, None);
    QuoteAfterAppend([q], text, None);
    QuoteAfterAppend([q] + text, [q], None);
    OpeningQuote(q);
    InsideFlags(text, q);
    assert Same(1, true) + Same(|text|, true) == Same(1 + |text|, true);
    assert Same(1 + |text|, true) + Same(1, true) == Same(|quoted|, true);
  }

  function Same(n: nat, flag: bool): (flags: seq<bool>)
    ensures |flags| == n
  {
    seq(n, _ => flag)
  }

  lemma OpeningQuote(q: char)
    requires q == '\'' || q == '\"'
    ensures Flags([q], None) == Same(1, true) && QuoteAfter([q], None) == Some(q)
    ensures Flags([q], Some(q)) == Same(1, true) && QuoteAfter([q], Some(q)) == None
  {
    assert [q][1..] == "";
  }

  lemma {:induction false} PlainFlags(s: string)
    requires forall c | c in s :: c != '\'' && c != '\"'
    ensures Flags(s, None) == Same(|s|, false) && QuoteAfter(s, None) == None
  {
    if s != "" {
      assert s[0] in s && forall c | c in s[1..] :: c in s;
      PlainFlags(s[1..]);
      assert Same(|s|, false) == [false] + Same(|s| - 1, false);
    }
  }

  lemma {:induction false} InsideFlags(s: string, q: char)
    requires q !in s
    ensures Flags(s, Some(q)) == Same(|s|, true) && QuoteAfter(s, Some(q)) == Some(q)
  {
    if s != "" {
      InsideFlags(s[1..], q);
      assert Same(|s|, true) == [true] + Same(|s| - 1, true);
    }
  }

  /** A line is cut at a bare `;` or `&&`, and nowhere in text without them. */
  lemma CutAtOperator(a: string, op: string, b: string)
    requires op == ";" || op == "&&"
    requires forall c | c in a + b :: c != ';' && c != '&' && c != '\'' && c != '\"'
    ensures SplitSequence(a + op + b) == [Segment("", a), Segment(op, b)]
  {
    hide NoOperator, QuoteAfter, SplitSequence, Flags;
    var segs := [Segment("", a), Segment(op, b)];
    assert forall c | c in a || c in b :: c in a + b;
    PlainFlags(a);
    NoAmpersands(a);
    NoAmpersands(b);
    assert !EndsInAmp(a, None) by { assert a != "" ==> a[|a| - 1] in a; }
    assert segs[1..] == [Segment(op, b)] && segs[1..][1..] == [];
    assert Unsplit(segs[1..]) == op + b;
    assert Unsplit(segs) == a + op + b;
    assert IsCutFrom(segs[1..]) && IsCut(segs);
    SplitSequenceIsExact("", segs);
  }

  lemma AmpersandIsThere(s: string)
    ensures Contains(s, "&&") ==> '&' in s
  {
    if Contains(s, "&&") {
      var i :| 0 <= i <= |s| && OccursAt(s, i, "&&");
      assert s[i..][0] == '&';
    }
  }

  lemma NoAmpersands(s: string)
    requires ';' !in s && '&' !in s
    ensures NoOperator(s, None)
  {
    AmpersandIsThere(s);
    NoOperatorInLine(s, None);
  }
}
