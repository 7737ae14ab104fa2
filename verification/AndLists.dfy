/** The flat loop over segments against the shell's own grammar: a line is a sequential list of AND
    lists (section 2.9.3 of the POSIX.1-2017 Shell Command Language). */
module AndLists {
  import opened Scanner
  import opened Shell

  /** Commands joined by `&&`. */
  datatype AndList = AndList(first: string, rest: seq<string>)

  /** How many of the leading segments are attached by `&&`. */
  function Attached(segs: seq<Segment>): (n: nat)
    ensures n <= |segs|
  {
    if segs != [] && segs[0].sep == "&&" then 1 + Attached(segs[1..]) else 0
  }

  function Texts(segs: seq<Segment>): seq<string> {
    if segs == [] then [] else [segs[0].text] + Texts(segs[1..])
  }

  /** The AND lists of a line, one for each segment that no `&&` attaches. */
  function Lists(segs: seq<Segment>): seq<AndList>
    decreases |segs|
  {
    if segs == [] then []
    else
      var n := Attached(segs[1..]);
      [AndList(segs[0].text, Texts(segs[1..][..n]))] + Lists(segs[1..][n..])
  }

  ghost function One(h: Host, text: string, s: State): Reply {
    var (ran, meta) := RunSegment(h, text, s);
    ReplyOf(ran, meta)
  }

  /** An AND list runs on only while commands succeed, and stops at the first that does not. */
  ghost function RunRest(h: Host, texts: seq<string>, s: State, status: int): Reply {
    if texts == [] || status != 0 then Reply(s, "", status, false, NO_META)
    else
      var one := One(h, texts[0], s);
      if one.NoReply? then one else Then(one, RunRest(h, texts[1..], one.state, one.status))
  }

  ghost function RunAndList(h: Host, a: AndList, s: State): Reply {
    var one := One(h, a.first, s);
    if one.NoReply? then one else Then(one, RunRest(h, a.rest, one.state, one.status))
  }

  /** A list runs every AND list in order, whatever the status of those before; only an exception
      stops it. */
  ghost function RunLists(h: Host, lists: seq<AndList>, s: State, status: int): Reply {
    if lists == [] then Reply(s, "", status, false, NO_META)
    else
      var r := RunAndList(h, lists[0], s);
      if r.NoReply? then r else Then(r, RunLists(h, lists[1..], r.state, r.status))
  }

  lemma ThenAssociates(a: Reply, b: Reply, c: Reply)
    ensures Then(a, Then(b, c)) == Then(Then(a, b), c)
  {
    if a.Reply? && b.Reply? && c.Reply? {
      assert a.output + (b.output + c.output) == a.output + b.output + c.output;
    }
  }

  lemma ThenNothing(s: State, status: int, b: Reply)
    ensures Then(Reply(s, "", status, false, NO_META), b) == b
  {
    if b.Reply? {
      assert "" + b.output == b.output;
    }
  }

  lemma {:induction false} FailureSkipsAttached(h: Host, segs: seq<Segment>, s: State, status: int)
    requires status != 0
    ensures RunSegments(h, segs, s, status) == RunSegments(h, segs[Attached(segs)..], s, status)
  {
    hide RunSegment;
    if Attached(segs) == 0 {
      assert segs[0..] == segs;
    } else {
      FailureSkipsAttached(h, segs[1..], s, status);
      assert segs[1..][Attached(segs[1..])..] == segs[Attached(segs)..];
    }
  }

  lemma {:induction false} AttachedIsRest(h: Host, segs: seq<Segment>, s: State, status: int)
    ensures var n := Attached(segs);
      var r := RunRest(h, Texts(segs[..n]), s, status);
      RunSegments(h, segs, s, status) == if r.NoReply? then r else Then(r, RunSegments(h, segs[n..], r.state, r.status))
  {
    hide RunSegment;
    var n := Attached(segs);
    if status != 0 {
      FailureSkipsAttached(h, segs, s, status);
      ThenNothing(s, status, RunSegments(h, segs[n..], s, status));
    } else if n == 0 {
      assert segs[0..] == segs && segs[..0] == [];
      ThenNothing(s, status, RunSegments(h, segs, s, status));
    } else {
      var one := One(h, segs[0].text, s);
      assert segs[..n][1..] == segs[1..][..n - 1];
      if one.Reply? {
        AttachedIsRest(h, segs[1..], one.state, one.status);
        var r := RunRest(h, Texts(segs[1..][..n - 1]), one.state, one.status);
        assert segs[1..][n - 1..] == segs[n..];
        if r.Reply? {
          ThenAssociates(one, r, RunSegments(h, segs[n..], r.state, r.status));
        }
      }
    }
  }

  lemma {:induction false} LoopIsLists(h: Host, segs: seq<Segment>, s: State, status: int)
    requires segs != [] ==> segs[0].sep != "&&"
    ensures RunSegments(h, segs, s, status) == RunLists(h, Lists(segs), s, status)
    decreases |segs|
  {
    hide RunSegment;
    if segs != [] {
      var one := One(h, segs[0].text, s);
      if one.Reply? {
        var rest := segs[1..];
        var n := Attached(rest);
        AttachedIsRest(h, rest, one.state, one.status);
        var r := RunRest(h, Texts(rest[..n]), one.state, one.status);
        AttachedStops(rest);
        if r.Reply? {
          LoopIsLists(h, rest[n..], r.state, r.status);
          ThenAssociates(one, r, RunSegments(h, rest[n..], r.state, r.status));
        }
      }
    }
  }

  lemma {:induction false} AttachedStops(segs: seq<Segment>)
    ensures segs[Attached(segs)..] != [] ==> segs[Attached(segs)..][0].sep != "&&"
  {
    if Attached(segs) != 0 {
      AttachedStops(segs[1..]);
      assert segs[1..][Attached(segs[1..])..] == segs[Attached(segs)..];
    }
  }

  /** The loop in `_respond_sync` evaluates the line as the grammar says: state, output, status and
      the reported meta data are those of the list of AND lists. */
  lemma LineIsListOfAndLists(h: Host, line: string, s: State)
    ensures RunSegments(h, SplitSequence(line), s, 0) == RunLists(h, Lists(SplitSequence(line)), s, 0)
  {
    SplitSequenceIsExact(line, []);
    LoopIsLists(h, SplitSequence(line), s, 0);
  }
}
