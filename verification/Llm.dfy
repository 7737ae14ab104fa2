/** The LLM engine of `engine/llm.py` next to the vanilla one: many sessions share one cache, each
    line is first answered by the vanilla engine, and only a line it does not know may be answered
    from the cache or a provider instead. */
module Llm {
  import opened Text
  import opened Scanner
  import opened Shell
  import opened Cache
  import opened Serving
  import Engine
  import Session

  const OPERATORS: seq<string> := ["|", ";", "&&", "||", ">", "<", "`", "$("]

  predicate HasOperator(line: string) {
    exists i | 0 <= i < |OPERATORS| :: Contains(line, OPERATORS[i])
  }

  /** `_llm_eligible`; an empty command name is no name, and a line without a reply never gets there. */
  predicate Eligible(line: string, r: Reply) {
    r.Reply? && r.meta.unknownCommand.GetOr("") != "" && !HasOperator(line)
  }

  // What the vanilla engine did on an eligible line

  lemma StripIsPart(s: string)
    ensures exists i, j :: 0 <= i <= j <= |s| && StripSpace(s) == s[i..j]
  {
    LStripFacts(s, IsSpace);
    var l := LStrip(s, IsSpace);
    RStripFacts(l, IsSpace);
    var i := |s| - |l|;
    var n := |RStrip(l, IsSpace)|;
    assert StripSpace(s) == s[i..][..n] == s[i..i + n];
  }

  lemma PartContains(s: string, i: nat, j: nat, op: string)
    requires i <= j <= |s| && Contains(s[i..j], op)
    ensures Contains(s, op)
  {
    var k :| 0 <= k <= |s[i..j]| && OccursAt(s[i..j], k, op);
    assert s[i..j][k..][..|op|] == s[i + k..][..|op|];
    assert OccursAt(s, i + k, op);
  }

  lemma NoOperatorAfterStrip(line: string)
    requires !HasOperator(line)
    ensures var s := StripSpace(line); ';' !in s && !Contains(s, "&&") && !Contains(s, "|")
  {
    hide StripSpace;
    var s := StripSpace(line);
    StripIsPart(line);
    var i, j :| 0 <= i <= j <= |line| && s == line[i..j];
    assert OPERATORS[0] == "|" && OPERATORS[1] == ";" && OPERATORS[2] == "&&";
    if Contains(s, "&&") { PartContains(line, i, j, "&&"); }
    if Contains(s, "|") { PartContains(line, i, j, "|"); }
    if ';' in s {
      var k :| 0 <= k < |s| && s[k] == ';';
      assert OccursAt(s, k, ";");
      PartContains(line, i, j, ";");
    }
  }

  lemma NoPipe(command: string)
    requires !Contains(command, "|")
    ensures !HasTopLevel(command, "|")
  {
    var pos := FindTopLevel(command, "|");
    assert pos >= 0 ==> OccursAt(command, pos, "|");
  }

  lemma {:induction false} StripTwice(line: string)
    ensures StripSpace(StripSpace(line)) == StripSpace(line)
  {
    LStripFacts(line, IsSpace);
    var l := LStrip(line, IsSpace);
    RStripFacts(l, IsSpace);
    var r := RStrip(l, IsSpace);
    assert r != "" ==> r[0] == l[0];
    StripIdentity(r, IsSpace);
  }

  /** On every eligible line the vanilla engine ran one command with no handler: it changed nothing but
      the history, kept the session open and answered "command not found". */
  lemma EligibleLineChangesNothing(h: Host, line: string, s: State)
    requires Eligible(line, Respond(h, line, s))
    ensures var r := Respond(h, line, s);
      && r.state == s.(history := s.history + [StripSpace(line)])
      && !r.close && r.status == 127
      && r.output == Basename(r.meta.unknownCommand.value) + ": command not found\n"
      && !r.meta.pipeUnhandled
  {
    hide StripSpace, SplitSequence, EndsSession, RunHandler, Redirected, HandlerOf, Basename, HasOperator;
    hide Words, HasTopLevel;
    var command := StripSpace(line);
    var s' := s.(history := s.history + [command]);
    NoOperatorAfterStrip(line);
    OneCommandLine(command);
    StripTwice(line);
    OneSegmentReply(h, command, s');
    NoPipe(command);
  }

  // Sessions sharing a cache

  datatype Output = Output(text: string, status: int, close: bool) | Crash

  function Answer(r: Reply): Output {
    if r.NoReply? then Crash else Output(r.output, r.status, r.close)
  }

  /** One session: how it began, the lines it has sent, what it has been shown, the vanilla answer held
      back while a provider is asked, and whether it is over. */
  datatype Client = Client(host: Host, persona: string, start: State, lines: seq<string>,
                           state: State, shown: seq<Output>, pending: Option<Output>, ended: bool)

  datatype World = World(serving: Machine, clients: map<Id, Client>)

  /** `Line` and `Completed` are the two halves of `respond`; `Warm` and the completion of an id that
      is no session are those of `prewarm`. */
  datatype Input =
    | Line(id: Id, line: string)
    | Warm(id: Id, key: Key)
    | Completed(id: Id, tries: seq<Option<Completion>>)

  datatype Settings = Settings(config: Config, semantic: bool)

  function Show(c: Client, out: Output): Client {
    c.(shown := c.shown + [out], pending := None, ended := out.Crash? || out.close)
  }

  ghost function Receive(cfg: Settings, w: World, id: Id, line: string): World
    requires id in w.clients
  {
    var c := w.clients[id];
    var r := Respond(c.host, line, c.state);
    var told := c.(lines := c.lines + [line], state := r.state);
    var key := KeyOf(cfg.semantic, c.persona, line);
    if !Eligible(line, r) then w.(clients := w.clients[id := Show(told, Answer(r))])
    else
      var cached := Lookup(cfg.config, w.serving, key);
      World(Serving.Step(cfg.config, w.serving, Ask(id, key)),
            w.clients[id := if cached.Some? then Show(told, Output(cached.value, 0, false))
                            else told.(pending := Some(Answer(r)))])
  }

  /** What a session is shown once its providers have returned, `pending` being the vanilla answer. */
  function Outcome(cfg: Settings, m: Machine, key: Key, pending: Output, tries: seq<Option<Completion>>): Output {
    var clean := Accepted(cfg.config.guard, tries);
    if clean.None? then pending
    else
      var text := cfg.config.Finish(clean.value);
      if StoreText(cfg.config, m.cache, key, text).None? then Crash else Output(text, 0, false)
  }

  predicate MaySpeak(w: World, id: Id) {
    id in w.clients && w.clients[id].pending.None? && !w.clients[id].ended
  }

  /** A session sends its next line only when the last one is answered and it is not over; other inputs
      that make no sense change nothing. */
  ghost function React(cfg: Settings, w: World, input: Input): World {
    match input
    case Line(id, line) =>
      if MaySpeak(w, id) then Receive(cfg, w, id, line) else w
    case Warm(id, key) =>
      if id in w.clients then w else w.(serving := Serving.Step(cfg.config, w.serving, Ask(id, key)))
    case Completed(id, tries) =>
      if id in w.clients && (w.clients[id].pending.None? || id !in w.serving.waiting) then w
      else
        var serving := Serving.Step(cfg.config, w.serving, Return(id, tries));
        if id !in w.clients then w.(serving := serving)
        else
          var c := w.clients[id];
          var out := Outcome(cfg, w.serving, w.serving.waiting[id], c.pending.value, tries);
          World(serving, w.clients[id := Show(c, out)])
  }

  ghost function ReactAll(cfg: Settings, w: World, inputs: seq<Input>): World
    decreases |inputs|
  {
    if inputs == [] then w else ReactAll(cfg, React(cfg, w, inputs[0]), inputs[1..])
  }

  /** The replies of the vanilla engine alone to the same lines. */
  ghost function VanillaReplies(h: Host, lines: seq<string>, s: State): (replies: seq<Reply>)
    ensures |replies| == |lines|
    decreases |lines|
  {
    if lines == [] then []
    else
      var r := Respond(h, lines[0], s);
      [r] + VanillaReplies(h, lines[1..], r.state)
  }

  ghost predicate NoneOver(replies: seq<Reply>) {
    forall i | 0 <= i < |replies| :: !replies[i].Over()
  }

  /** Either the vanilla answer; or on an eligible line a text that a provider gave for its key, or the
      crash of a cache without room. */
  ghost predicate Faithful(cfg: Settings, m: Machine, c: Client, line: string, out: Output, r: Reply) {
    || out == Answer(r)
    || (&& Eligible(line, r)
        && (|| (&& out.Output? && out.status == 0 && !out.close
                && Genuine(cfg.config, m.log, KeyOf(cfg.semantic, c.persona, line), out.text))
            || (out == Crash && HasNoRoom(cfg.config))))
  }

  ghost predicate ClientOk(cfg: Settings, m: Machine, id: Id, c: Client) {
    var n := |c.shown|;
    var replies := VanillaReplies(c.host, c.lines, c.start);
    && |c.lines| == n + (if c.pending.Some? then 1 else 0)
    && c.state == Session.After(c.host, c.lines, c.start)
    && (forall i | 0 <= i < n :: Faithful(cfg, m, c, c.lines[i], c.shown[i], replies[i]))
    && (forall i | 0 <= i < n - 1 :: !replies[i].Over() && !c.shown[i].Crash?)
    && (c.ended <==> n > 0 && c.pending.None? && (replies[n - 1].Over() || c.shown[n - 1].Crash?))
    && (!c.ended ==> NoneOver(replies) && forall i | 0 <= i < n :: !c.shown[i].Crash?)
    && (c.pending.Some? ==>
        && c.pending.value == Answer(replies[n]) && Eligible(c.lines[n], replies[n])
        && id in m.waiting && m.waiting[id] == KeyOf(cfg.semantic, c.persona, c.lines[n]))
    && (c.pending.None? ==> id !in m.waiting)
  }

  ghost predicate WorldOk(cfg: Settings, w: World) {
    && Safe(cfg.config, w.serving)
    && forall id | id in w.clients :: ClientOk(cfg, w.serving, id, w.clients[id])
  }

  lemma {:induction false} OneMoreLine(h: Host, lines: seq<string>, line: string, s: State)
    requires NoneOver(VanillaReplies(h, lines, s))
    ensures var r := Respond(h, line, Session.After(h, lines, s));
      && Session.After(h, lines + [line], s) == r.state
      && VanillaReplies(h, lines + [line], s) == VanillaReplies(h, lines, s) + [r]
    decreases |lines|
  {
    hide Respond;
    if lines == [] {
      assert [line][1..] == [] && lines + [line] == [line];
    } else {
      var replies := VanillaReplies(h, lines, s);
      var first := Respond(h, lines[0], s);
      assert !replies[0].Over() && replies[0] == first;
      assert (lines + [line])[1..] == lines[1..] + [line];
      assert replies[1..] == VanillaReplies(h, lines[1..], first.state);
      assert NoneOver(replies[1..]) by {
        forall i | 0 <= i < |replies[1..]| ensures !replies[1..][i].Over() { assert !replies[i + 1].Over(); }
      }
      OneMoreLine(h, lines[1..], line, first.state);
    }
  }

  // One input

  /** A step of the machine forgets no provider answer and touches no other request. */
  lemma StepGrows(c: Config, m: Machine, e: Event)
    ensures var m' := Serving.Step(c, m, e);
      && (forall key, text | Genuine(c, m.log, key, text) :: Genuine(c, m'.log, key, text))
      && (forall id | id != e.id ::
            (id in m'.waiting <==> id in m.waiting) && (id in m.waiting ==> m'.waiting[id] == m.waiting[id]))
  {
    hide Put, Genuine, Accepted, StoreText;
    if e.Return? && e.id in m.waiting {
      LogGrows(c, m.log, (m.waiting[e.id], e.tries));
    }
  }

  lemma OthersStayOk(cfg: Settings, m: Machine, e: Event, id: Id, c: Client)
    requires ClientOk(cfg, m, id, c) && id != e.id
    ensures ClientOk(cfg, Serving.Step(cfg.config, m, e), id, c)
  {
    hide Serving.Step, VanillaReplies, Session.After, Eligible, KeyOf, Genuine, Answer, NoneOver;
    StepGrows(cfg.config, m, e);
  }

  ghost predicate Grows(c: Config, m: Machine, m': Machine) {
    forall key, text | Genuine(c, m.log, key, text) :: Genuine(c, m'.log, key, text)
  }

  lemma FaithfulStays(cfg: Settings, m: Machine, m': Machine, c: Client, line: string, out: Output, r: Reply)
    requires Faithful(cfg, m, c, line, out, r) && Grows(cfg.config, m, m')
    ensures Faithful(cfg, m', c, line, out, r)
  {
    hide Genuine, Eligible, Answer, KeyOf;
  }

  /** A client that is told something more keeps what it was told before. */
  lemma TellKeepsOk(cfg: Settings, m: Machine, m': Machine, id: Id, c: Client, line: string, out: Output)
    requires ClientOk(cfg, m, id, c) && c.pending.None? && !c.ended && Grows(cfg.config, m, m')
    requires Faithful(cfg, m', c, line, out, Respond(c.host, line, c.state)) && id !in m'.waiting
    requires out.Output? ==> (out.close <==> Respond(c.host, line, c.state).Over())
    ensures ClientOk(cfg, m', id,
      Show(c.(lines := c.lines + [line], state := Respond(c.host, line, c.state).state), out))
  {
    hide VanillaReplies, Session.After, Eligible, KeyOf, Genuine, Respond, Grows, Answer, Faithful;
    OneMoreLine(c.host, c.lines, line, c.start);
    var r := Respond(c.host, line, c.state);
    var c' := Show(c.(lines := c.lines + [line], state := r.state), out);
    var replies, replies' := VanillaReplies(c.host, c.lines, c.start), VanillaReplies(c.host, c'.lines, c.start);
    var n := |c.shown|;
    forall i | 0 <= i < |c'.shown| ensures Faithful(cfg, m', c', c'.lines[i], c'.shown[i], replies'[i]) {
      if i < n {
        FaithfulStays(cfg, m, m', c, c.lines[i], c.shown[i], replies[i]);
        SameSpeaker(cfg, m', c, c', c.lines[i], c.shown[i], replies[i]);
      } else {
        SameSpeaker(cfg, m', c, c', line, out, r);
      }
    }
    assert forall i | 0 <= i < n :: replies'[i] == replies[i] && c'.shown[i] == c.shown[i];
  }

  lemma SameSpeaker(cfg: Settings, m: Machine, c: Client, c': Client, line: string, out: Output, r: Reply)
    requires Faithful(cfg, m, c, line, out, r) && c'.persona == c.persona
    ensures Faithful(cfg, m, c', line, out, r)
  {
    hide Genuine, Eligible, Answer, KeyOf;
  }

  lemma HoldKeepsOk(cfg: Settings, m: Machine, m': Machine, id: Id, c: Client, line: string)
    requires ClientOk(cfg, m, id, c) && c.pending.None? && !c.ended && Grows(cfg.config, m, m')
    requires Eligible(line, Respond(c.host, line, c.state)) && !Respond(c.host, line, c.state).Over()
    requires id in m'.waiting && m'.waiting[id] == KeyOf(cfg.semantic, c.persona, line)
    ensures ClientOk(cfg, m', id,
      c.(lines := c.lines + [line], state := Respond(c.host, line, c.state).state,
         pending := Some(Answer(Respond(c.host, line, c.state)))))
  {
    hide VanillaReplies, Session.After, Eligible, KeyOf, Genuine, Respond, Grows, Answer, Faithful;
    OneMoreLine(c.host, c.lines, line, c.start);
    var r := Respond(c.host, line, c.state);
    var c' := c.(lines := c.lines + [line], state := r.state, pending := Some(Answer(r)));
    var replies, replies' := VanillaReplies(c.host, c.lines, c.start), VanillaReplies(c.host, c'.lines, c.start);
    forall i | 0 <= i < |c'.shown| ensures Faithful(cfg, m', c', c'.lines[i], c'.shown[i], replies'[i]) {
      FaithfulStays(cfg, m, m', c, c.lines[i], c.shown[i], replies[i]);
      SameSpeaker(cfg, m', c, c', c.lines[i], c.shown[i], replies[i]);
    }
    assert forall i | 0 <= i < |replies| :: replies'[i] == replies[i];
  }

  lemma ReleaseKeepsOk(cfg: Settings, m: Machine, m': Machine, id: Id, c: Client, out: Output)
    requires ClientOk(cfg, m, id, c) && c.pending.Some? && Grows(cfg.config, m, m') && id !in m'.waiting
    requires
      || out == c.pending.value
      || (out.Output? && out.status == 0 && !out.close && Genuine(cfg.config, m'.log, m.waiting[id], out.text))
      || (out == Crash && HasNoRoom(cfg.config))
    ensures ClientOk(cfg, m', id, Show(c, out))
  {
    hide VanillaReplies, Session.After, Eligible, KeyOf, Genuine, Respond, Grows;
    var c' := Show(c, out);
    var n := |c.shown|;
    var replies := VanillaReplies(c.host, c.lines, c.start);
    EligibleAnswer(c.lines[n], replies[n]);
    forall i | 0 <= i < |c'.shown| ensures Faithful(cfg, m', c', c'.lines[i], c'.shown[i], replies[i]) {
      if i < n {
        FaithfulStays(cfg, m, m', c, c.lines[i], c.shown[i], replies[i]);
        SameSpeaker(cfg, m', c, c', c.lines[i], c.shown[i], replies[i]);
      }
    }
    assert forall i | 0 <= i < n :: c'.shown[i] == c.shown[i];
    assert !replies[n].Over();
  }

  lemma EligibleAnswer(line: string, r: Reply)
    requires Eligible(line, r)
    ensures r.Reply? && Answer(r) == Output(r.output, r.status, r.close)
  {
  }

  lemma ReceiveKeepsOk(cfg: Settings, w: World, id: Id, line: string)
    requires WorldOk(cfg, w) && MaySpeak(w, id)
    ensures WorldOk(cfg, Receive(cfg, w, id, line))
  {
    hide ClientOk, Safe, Respond, Eligible, KeyOf, Genuine, Serving.Step;
    var c := w.clients[id];
    var key := KeyOf(cfg.semantic, c.persona, line);
    var m := w.serving;
    var r := Respond(c.host, line, c.state);
    IdleIsNotWaiting(cfg, m, id, c);
    if !Eligible(line, r) {
      TellKeepsOk(cfg, m, m, id, c, line, Answer(r));
    } else {
      EligibleLineChangesNothing(c.host, line, c.state);
      EligibleAnswer(line, r);
      var e := Ask(id, key);
      var m' := Serving.Step(cfg.config, m, e);
      StepIsSafe(cfg.config, m, e);
      StepGrows(cfg.config, m, e);
      AskDoes(cfg.config, m, id, key);
      var cached := Lookup(cfg.config, m, key);
      if cached.Some? {
        CachedIsGenuine(cfg.config, m, key);
        TellKeepsOk(cfg, m, m', id, c, line, Output(cached.value, 0, false));
      } else {
        HoldKeepsOk(cfg, m, m', id, c, line);
      }
      forall other | other in w.clients && other != id ensures ClientOk(cfg, m', other, w.clients[other]) {
        OthersStayOk(cfg, m, e, other, w.clients[other]);
      }
    }
  }

  lemma IdleIsNotWaiting(cfg: Settings, m: Machine, id: Id, c: Client)
    requires ClientOk(cfg, m, id, c)
    ensures c.pending.None? <==> id !in m.waiting
  {
    hide VanillaReplies, Faithful, Session.After;
  }

  lemma AskDoes(c: Config, m: Machine, id: Id, key: Key)
    requires id !in m.waiting
    ensures var m' := Serving.Step(c, m, Ask(id, key));
      && m'.log == m.log
      && (Lookup(c, m, key).Some? ==> id !in m'.waiting)
      && (Lookup(c, m, key).None? ==> id in m'.waiting && m'.waiting[id] == key)
  {
  }

  lemma CachedIsGenuine(c: Config, m: Machine, key: Key)
    requires Safe(c, m)
    ensures Lookup(c, m, key).Some? ==> Genuine(c, m.log, key, Lookup(c, m, key).value)
  {
    hide AfterPuts, PutsOf;
  }

  lemma ReturnDoes(cfg: Settings, m: Machine, id: Id, pending: Output, tries: seq<Option<Completion>>)
    requires Safe(cfg.config, m) && id in m.waiting
    ensures var m' := Serving.Step(cfg.config, m, Return(id, tries));
      var out := Outcome(cfg, m, m.waiting[id], pending, tries);
      && id !in m'.waiting
      && (|| out == pending
          || (out.Output? && out.status == 0 && !out.close && Genuine(cfg.config, m'.log, m.waiting[id], out.text))
          || (out == Crash && HasNoRoom(cfg.config)))
  {
    hide Accepted, Put, AfterPuts, StoreText, PutsOf, Genuine;
    var c, key := cfg.config, m.waiting[id];
    LogGrows(c, m.log, (key, tries));
    if Accepted(c.guard, tries).Some? {
      var text := c.Finish(Accepted(c.guard, tries).value);
      AfterOnePut(c, PutsOf(c, m.log), key, text);
      assert Gave(c, (key, tries), key, text);
    }
  }

  lemma CompletedKeepsOk(cfg: Settings, w: World, id: Id, tries: seq<Option<Completion>>)
    requires WorldOk(cfg, w)
    requires id in w.clients ==> w.clients[id].pending.Some?
    ensures WorldOk(cfg, React(cfg, w, Completed(id, tries)))
  {
    hide ClientOk, Safe, Respond, Eligible, KeyOf, Genuine, Serving.Step, Accepted, Outcome;
    var m := w.serving;
    var e := Return(id, tries);
    StepIsSafe(cfg.config, m, e);
    forall other | other in w.clients && other != id
      ensures ClientOk(cfg, Serving.Step(cfg.config, m, e), other, w.clients[other])
    {
      OthersStayOk(cfg, m, e, other, w.clients[other]);
    }
    if id in w.clients {
      var c := w.clients[id];
      IdleIsNotWaiting(cfg, m, id, c);
      ReturnDoes(cfg, m, id, c.pending.value, tries);
      StepGrows(cfg.config, m, e);
      ReleaseKeepsOk(cfg, m, Serving.Step(cfg.config, m, e), id, c,
                     Outcome(cfg, m, m.waiting[id], c.pending.value, tries));
    }
  }

  lemma WarmKeepsOk(cfg: Settings, w: World, id: Id, key: Key)
    requires WorldOk(cfg, w) && id !in w.clients
    ensures WorldOk(cfg, React(cfg, w, Warm(id, key)))
  {
    hide ClientOk, Safe, Serving.Step;
    var e := Ask(id, key);
    StepIsSafe(cfg.config, w.serving, e);
    forall other | other in w.clients
      ensures ClientOk(cfg, Serving.Step(cfg.config, w.serving, e), other, w.clients[other])
    {
      OthersStayOk(cfg, w.serving, e, other, w.clients[other]);
    }
  }

  lemma ReactKeepsOk(cfg: Settings, w: World, input: Input)
    requires WorldOk(cfg, w)
    ensures WorldOk(cfg, React(cfg, w, input))
  {
    hide WorldOk, Receive, Serving.Step, Outcome;
    match input
    case Line(id, line) =>
      if MaySpeak(w, id) { ReceiveKeepsOk(cfg, w, id, line); }
    case Warm(id, key) =>
      if id !in w.clients { WarmKeepsOk(cfg, w, id, key); }
    case Completed(id, tries) =>
      if id in w.clients ==> w.clients[id].pending.Some? { CompletedKeepsOk(cfg, w, id, tries); }
  }

  lemma {:induction false} WorldStaysOk(cfg: Settings, w: World, inputs: seq<Input>)
    requires WorldOk(cfg, w)
    ensures WorldOk(cfg, ReactAll(cfg, w, inputs))
    decreases |inputs|
  {
    hide WorldOk, React;
    if inputs != [] {
      ReactKeepsOk(cfg, w, inputs[0]);
      WorldStaysOk(cfg, React(cfg, w, inputs[0]), inputs[1..]);
    }
  }

  ghost predicate IsStart(w: World) {
    && w.serving == START
    && forall id | id in w.clients :: IsNew(w.clients[id])
  }

  predicate IsNew(c: Client) {
    c.lines == [] && c.shown == [] && c.pending.None? && !c.ended && c.state == c.start
  }

  /** LLM mode keeps state exactly as vanilla mode does: after any interleaving of lines, warm-ups and
      provider completions, with any providers, each session is in the state the vanilla engine alone
      reaches on the same lines. What it was shown is the vanilla answer line by line, except on
      eligible lines, where it may be a text that a provider gave for the key of that line and the guard
      accepted. Both modes end the session at the same line; only a cache that is on and has no room at all
      can end it at an eligible line, which vanilla mode never does. */
  lemma LlmModeKeepsVanillaState(cfg: Settings, w: World, inputs: seq<Input>, id: Id)
    requires IsStart(w) && id in w.clients
    ensures var end := ReactAll(cfg, w, inputs);
      id in end.clients && var c := end.clients[id];
      var replies := VanillaReplies(c.host, c.lines, c.start);
      var n := |c.shown|;
      && c.host == w.clients[id].host && c.start == w.clients[id].start && c.lines == Taken(cfg, w, inputs, id)
      && c.state == Session.After(c.host, c.lines, c.start)
      && |c.lines| == n + (if c.pending.Some? then 1 else 0)
      && (forall i | 0 <= i < n ::
            || c.shown[i] == Answer(replies[i])
            || (&& Eligible(c.lines[i], replies[i]) && c.shown[i].Output? && !c.shown[i].close && !replies[i].Over()
                && Genuine(cfg.config, end.serving.log, KeyOf(cfg.semantic, c.persona, c.lines[i]), c.shown[i].text))
            || (Eligible(c.lines[i], replies[i]) && c.shown[i].Crash? && !replies[i].Over() && HasNoRoom(cfg.config)))
      && (forall i | 0 <= i < n - 1 :: !replies[i].Over())
      && (!HasNoRoom(cfg.config) ==> (c.ended <==> n > 0 && c.pending.None? && replies[n - 1].Over()))
  {
    hide React, ReactAll, Respond, Eligible, Genuine, KeyOf, Taken, VanillaReplies, Session.After, Safe, ClientOk;
    StartIsOk(cfg, w);
    SessionsStaySeparate(cfg, w, inputs, id);
    assert [] + Taken(cfg, w, inputs, id) == Taken(cfg, w, inputs, id);
    WorldStaysOk(cfg, w, inputs);
    var end := ReactAll(cfg, w, inputs);
    ClientOkMeans(cfg, end.serving, id, end.clients[id]);
  }

  lemma ClientOkMeans(cfg: Settings, m: Machine, id: Id, c: Client)
    requires ClientOk(cfg, m, id, c)
    ensures var replies := VanillaReplies(c.host, c.lines, c.start); var n := |c.shown|;
      && c.state == Session.After(c.host, c.lines, c.start)
      && |c.lines| == n + (if c.pending.Some? then 1 else 0)
      && (forall i | 0 <= i < n ::
            || c.shown[i] == Answer(replies[i])
            || (&& Eligible(c.lines[i], replies[i]) && c.shown[i].Output? && !c.shown[i].close && !replies[i].Over()
                && Genuine(cfg.config, m.log, KeyOf(cfg.semantic, c.persona, c.lines[i]), c.shown[i].text))
            || (Eligible(c.lines[i], replies[i]) && c.shown[i].Crash? && !replies[i].Over() && HasNoRoom(cfg.config)))
      && (forall i | 0 <= i < n - 1 :: !replies[i].Over())
      && (!HasNoRoom(cfg.config) ==> (c.ended <==> n > 0 && c.pending.None? && replies[n - 1].Over()))
  {
    hide Respond, Eligible, Genuine, KeyOf, VanillaReplies, Session.After, Answer;
    var replies := VanillaReplies(c.host, c.lines, c.start);
    forall i | 0 <= i < |c.shown| ensures Eligible(c.lines[i], replies[i]) ==> !replies[i].Over() {
      EligibleGoesOn(c.host, c.lines, c.start, i);
    }
    forall i | 0 <= i < |c.shown|
      ensures Faithful(cfg, m, c, c.lines[i], c.shown[i], replies[i])
      ensures !HasNoRoom(cfg.config) ==> (c.shown[i].Crash? ==> replies[i].Over())
    {
      if !HasNoRoom(cfg.config) { CrashOnlyWithoutRoom(cfg, m, c, c.lines[i], c.shown[i], replies[i]); }
    }
  }

  lemma CrashOnlyWithoutRoom(cfg: Settings, m: Machine, c: Client, line: string, out: Output, r: Reply)
    requires Faithful(cfg, m, c, line, out, r) && !HasNoRoom(cfg.config)
    ensures out.Crash? ==> r.Over()
  {
    hide Genuine, KeyOf;
  }

  lemma {:induction false} EligibleGoesOn(h: Host, lines: seq<string>, s: State, i: nat)
    requires i < |lines|
    ensures var r := VanillaReplies(h, lines, s)[i]; Eligible(lines[i], r) ==> !r.Over()
    decreases |lines|
  {
    hide Respond, Eligible;
    var r := Respond(h, lines[0], s);
    if i > 0 {
      EligibleGoesOn(h, lines[1..], r.state, i - 1);
    } else if Eligible(lines[0], r) {
      EligibleLineChangesNothing(h, lines[0], s);
      EligibleAnswer(lines[0], r);
    }
  }

  /** The lines of one session that were taken, in order: those sent while nothing was pending and the
      session was not over. */
  ghost function Taken(cfg: Settings, w: World, inputs: seq<Input>, id: Id): seq<string>
    decreases |inputs|
  {
    if inputs == [] then []
    else
      (if inputs[0].Line? && inputs[0].id == id && MaySpeak(w, id) then [inputs[0].line] else [])
      + Taken(cfg, React(cfg, w, inputs[0]), inputs[1..], id)
  }

  /** One input leaves a session what it was, and adds its own line at most. */
  lemma ReactKeepsIdentity(cfg: Settings, w: World, input: Input, id: Id)
    ensures var w' := React(cfg, w, input);
      && (id in w'.clients <==> id in w.clients)
      && (id in w.clients ==>
          && w'.clients[id].host == w.clients[id].host
          && w'.clients[id].persona == w.clients[id].persona
          && w'.clients[id].start == w.clients[id].start
          && w'.clients[id].lines == w.clients[id].lines +
            if input.Line? && input.id == id && MaySpeak(w, id) then [input.line] else [])
  {
    hide Respond, Serving.Step, Eligible, KeyOf, Accepted, Outcome;
    if id in w.clients {
      assert w.clients[id].lines + [] == w.clients[id].lines;
    }
  }

  /** No session ever changes into another: its identity stays, and its lines are its own. */
  lemma {:induction false} SessionsStaySeparate(cfg: Settings, w: World, inputs: seq<Input>, id: Id)
    ensures var end := ReactAll(cfg, w, inputs);
      && (id in end.clients <==> id in w.clients)
      && (id in w.clients ==>
          && end.clients[id].host == w.clients[id].host
          && end.clients[id].persona == w.clients[id].persona
          && end.clients[id].start == w.clients[id].start
          && end.clients[id].lines == w.clients[id].lines + Taken(cfg, w, inputs, id))
    decreases |inputs|
  {
    hide React;
    if inputs == [] {
      if id in w.clients { assert w.clients[id].lines + [] == w.clients[id].lines; }
    } else {
      var w' := React(cfg, w, inputs[0]);
      ReactKeepsIdentity(cfg, w, inputs[0], id);
      SessionsStaySeparate(cfg, w', inputs[1..], id);
      if id in w.clients {
        var before := w.clients[id].lines;
        var now := if inputs[0].Line? && inputs[0].id == id && MaySpeak(w, id) then [inputs[0].line] else [];
        var later := Taken(cfg, w', inputs[1..], id);
        assert before + now + later == before + (now + later);
      }
    }
  }

  lemma StartIsOk(cfg: Settings, w: World)
    requires IsStart(w)
    ensures WorldOk(cfg, w)
  {
    hide Respond;
  }

  // The engine itself

  /** `LLMEngine`, its `respond` cut where it waits for a provider. Each half is one step of the world,
      whatever the other sessions are doing. */
  class LLMEngine {
    const cache: ResponseCache
    const guard: Guard

    constructor (cache: ResponseCache, guard: Guard)
      ensures this.cache == cache && this.guard == guard
    {
      this.cache, this.guard := cache, guard;
    }

    function SettingsNow(): Settings
      reads cache
    {
      Settings(Config(cache.enabled, cache.maxsize, true, guard), cache.semantic)
    }

    /** Up to the provider call. If the line is not answered yet, `out` is the vanilla answer, kept
        for the case that no provider helps. */
    method Begin(commandLine: string, persona: string, state: Engine.SessionState, ghost id: Id, ghost w: World)
      returns (answered: bool, out: Output)
      requires state.Valid() && cache.Valid() && cache.Contents() == w.serving.cache
      requires MaySpeak(w, id) && id !in w.serving.waiting
      requires var c := w.clients[id]; c.host == state.host && c.persona == persona && c.state == state.Abs()
      modifies state, state.fs, state.fs.nodes.Values, cache`hits, cache`misses
      ensures state.Valid() && fresh(state.fs.nodes.Values - old(state.fs.nodes.Values))
      ensures cache.Valid()
      ensures var c := w.clients[id];
        var w' := React(SettingsNow(), w, Line(id, commandLine)); var c' := w'.clients[id];
        && w'.serving.cache == cache.Contents()
        && c'.state == state.Abs() && c'.lines == c.lines + [commandLine]
        && c'.shown == c.shown + (if answered then [out] else [])
        && c'.pending == if answered then None else Some(out)
    {
      hide Respond, Eligible, KeyOf;
      assert w.clients[id].shown + [] == w.clients[id].shown;
      var vanilla := Engine.RespondSync(commandLine, state);
      EligibleMeans(commandLine, Engine.Replied(state.Abs(), vanilla));
      if vanilla.NoResult? {
        return true, Crash;
      }
      out := Output(vanilla.output, vanilla.status, vanilla.close);
      var unknown := vanilla.meta.unknownCommand.GetOr("") != "";
      var eligible := unknown && !HasOperator(commandLine);
      if !eligible {
        return true, out;
      }
      var cached := cache.Get(persona, commandLine);
      if cached.Some? {
        return true, Output(cached.value, 0, false);
      }
      answered := false;
    }

    lemma EligibleMeans(line: string, r: Reply)
      ensures Eligible(line, r) <==> r.Reply? && r.meta.unknownCommand.GetOr("") != "" && !HasOperator(line)
    {
    }

    /** From the provider call on, with the cache as other sessions have left it meanwhile. */
    method Finish(commandLine: string, persona: string, vanilla: Output, tries: seq<Option<Completion>>,
                  ghost id: Id, ghost w: World)
      returns (out: Output)
      requires cache.Valid() && cache.Contents() == w.serving.cache
      requires id in w.clients && w.clients[id].pending == Some(vanilla)
      requires id in w.serving.waiting && w.serving.waiting[id] == KeyOf(cache.semantic, persona, commandLine)
      modifies cache`values, cache`order
      ensures cache.Valid()
      ensures var w' := React(SettingsNow(), w, Completed(id, tries));
        && w'.serving.cache == cache.Contents()
        && w'.clients[id] == Show(w.clients[id], out)
    {
      hide KeyOf, Put;
      var completion := TryProviders(tries);
      if completion.None? || completion.value.provider == "static" {
        return vanilla;
      }
      var clean := guard.Validate(completion.value.text);
      if clean.None? {
        return vanilla;
      }
      var text := clean.value;
      var output := if text != "" && text[|text| - 1] == '\n' then text else text + "\n";
      PutKeepsStore(cache.Contents(), cache.maxsize, KeyOf(cache.semantic, persona, commandLine), output);
      var raised := cache.Set(persona, commandLine, output);
      out := if raised then Crash else Output(output, 0, false);
    }
  }
}
