/** Whole lines: the order in which commands run, what ends a session, and what a line reports of itself. */
module Lines {
  import opened Text
  import opened Scanner
  import opened Shell
  import opened Session
  import opened Arguments

  /** A blank command does nothing. Neither does a redirect without a command: its file is not created. */
  lemma NothingToRun(h: Host, blank: string, op: string, t: string, s: State)
    requires StripSpace(blank) == "" && (op == ">" || op == ">>") && IsOneStage(t) && StripSpace(op + t) == op + t
    requires Tokens(h, "") == []
    ensures RunSegment(h, blank, s) == (Ran(s, "", 0), NO_META)
    ensures RunSegment(h, op + t, s) == (Ran(s, "", 0), NO_META)
  {
    hide StripSpace, ParseCommand, IsOneStage;
    NothingIsStripped();
    RedirectIsCut(h, "", op, t, s.env);
    assert "" + op + t == op + t;
  }

  lemma NothingIsStripped()
    ensures StripSpace("") == "" && IsOneStage("") && QuoteAfter("", None).None?
  {
  }

  /** One more command at the end of a line: it does not run behind an exception, nor after `&&` and a failure;
      otherwise it runs in the state that was left, its output is added and its status stays. */
  lemma {:induction false} OneMoreCommand(h: Host, segs: seq<Segment>, seg: Segment, s: State, last: int)
    ensures var r := RunSegments(h, segs, s, last); var all := RunSegments(h, segs + [seg], s, last);
      && (r.NoReply? || (seg.sep == "&&" && r.status != 0) ==> all == r)
      && (r.Reply? && !(seg.sep == "&&" && r.status != 0) ==>
          var (ran, meta) := RunSegment(h, seg.text, r.state);
          all == if ran.Raised? then NoReply(ran.state) else
            Reply(ran.state, r.output + ran.text, ran.status, false,
                  Meta(r.meta.pipeUnhandled || meta.pipeUnhandled,
                       if meta.unknownCommand.Some? then meta.unknownCommand else r.meta.unknownCommand)))
  {
    hide RunSegment;
    if segs == [] {
      assert segs + [seg] == [seg] && [seg][1..] == [];
      var ran := RunSegment(h, seg.text, s).0;
      assert ran.Ran? ==> ran.text + "" == ran.text && "" + ran.text == ran.text;
    } else {
      assert (segs + [seg])[0] == segs[0] && (segs + [seg])[1..] == segs[1..] + [seg];
      if segs[0].sep == "&&" && last != 0 {
        OneMoreCommand(h, segs[1..], seg, s, last);
      } else {
        var one := RunSegment(h, segs[0].text, s).0;
        if one.Ran? {
          OneMoreCommand(h, segs[1..], seg, one.state, one.status);
          var rest := RunSegments(h, segs[1..], one.state, one.status);
          if rest.Reply? {
            SegmentsDoNotClose(h, segs[1..], one.state, one.status);
            var ran := RunSegment(h, seg.text, rest.state).0;
            assert ran.Ran? ==> one.text + (rest.output + ran.text) == one.text + rest.output + ran.text;
          }
        }
      }
    }
  }

  predicate SaysGoodbye(line: string) {
    Words(line) != [] && Words(line)[0] in {"exit", "logout", "quit"}
  }

  lemma {:induction false} SegmentsDoNotClose(h: Host, segs: seq<Segment>, s: State, last: int)
    ensures var r := RunSegments(h, segs, s, last); r.Reply? ==> !r.close
  {
    hide RunSegment;
    if segs != [] {
      SegmentsDoNotClose(h, segs[1..], s, last);
      var ran := RunSegment(h, segs[0].text, s).0;
      if ran.Ran? { SegmentsDoNotClose(h, segs[1..], ran.state, ran.status); }
    }
  }

  /** A blank line does nothing at all. A line that begins with `exit`, `logout` or `quit` closes the session
      and does nothing else, whatever follows the word; no other line closes it. */
  lemma WhatCloses(h: Host, commandLine: string, s: State)
    ensures var line := StripSpace(commandLine); var r := Respond(h, commandLine, s);
      && (line == "" ==> r == Reply(s, "", 0, false, NO_META))
      && (line != "" && SaysGoodbye(line) ==>
          r == Reply(s.(history := s.history + [line]), "logout\n", 0, true, NO_META))
      && (r.Reply? && r.close ==> line != "" && SaysGoodbye(line))
  {
    hide RunSegments, StripSpace, SplitSequence;
    var line := StripSpace(commandLine);
    SegmentsDoNotClose(h, SplitSequence(line), s.(history := s.history + [line]), 0);
  }

  /** The last command of a trace that is not in the table. */
  ghost function LastUnknown(trace: seq<Executed>): Option<string> {
    if trace == [] then None
    else
      var words := trace[|trace| - 1].command.words;
      if words != [] && HandlerOf(words[0]).None? then Some(words[0]) else LastUnknown(trace[..|trace| - 1])
  }

  lemma {:induction false} LastUnknownOfCons(first: Executed, rest: seq<Executed>)
    ensures LastUnknown([first] + rest)
      == if LastUnknown(rest).Some? then LastUnknown(rest) else LastUnknown([first])
  {
    hide HandlerOf;
    if rest == [] {
      assert [first] + rest == [first];
    } else {
      var n := |rest|;
      assert ([first] + rest)[..n] == [first] + rest[..n - 1] && ([first] + rest)[n] == rest[n - 1];
      LastUnknownOfCons(first, rest[..n - 1]);
    }
  }

  lemma MetaOfOne(h: Host, text: string, s: State)
    ensures RunSegment(h, text, s).1
      == Meta(ExecutedAs(h, text, s).command.piped, LastUnknown([ExecutedAs(h, text, s)]))
  {
    hide HandlerOf, RunHandler, Redirected, ParseCommand, StripSpace, RemovedByWords, WrittenByParsed;
    var e := ExecutedAs(h, text, s);
    assert [e][..0] == [];
  }

  /** What a line tells about itself: whether any command that ran had a pipe, and which was the last that
      was not found. */
  lemma {:induction false} MetaOfSegments(h: Host, segs: seq<Segment>, s: State, last: int)
    ensures var r := RunSegments(h, segs, s, last); var trace := TraceOfSegments(h, segs, s, last);
      r.Reply? ==>
        && (r.meta.pipeUnhandled <==> exists e :: e in trace && e.command.piped)
        && r.meta.unknownCommand == LastUnknown(trace)
  {
    hide RunSegment, ExecutedAs, LastUnknown;
    if segs == [] {
      assert LastUnknown([]) == None by { NothingUnknown(); }
    } else if segs[0].sep == "&&" && last != 0 {
      MetaOfSegments(h, segs[1..], s, last);
    } else {
      var ran := RunSegment(h, segs[0].text, s).0;
      if ran.Ran? {
        var e := ExecutedAs(h, segs[0].text, s);
        var rest := TraceOfSegments(h, segs[1..], ran.state, ran.status);
        MetaOfOne(h, segs[0].text, s);
        MetaOfSegments(h, segs[1..], ran.state, ran.status);
        LastUnknownOfCons(e, rest);
        assert forall x :: x in [e] + rest <==> x == e || x in rest;
      }
    }
  }

  lemma NothingUnknown()
    ensures LastUnknown([]) == None
  {
  }
}
