/** What a request comes to: text from the cache at once, fresh text that was accepted, or the answer without
    a model; and which lines of a shell ask for one at all. */
module Answers {
  import opened Text
  import opened Scanner
  import opened Shell
  import opened Arguments
  import opened Cache
  import opened Serving
  import opened Llm
  import Commands
  import Lines

  // What the providers gave

  /** Provider `i` is the first that did not raise, it is a real one, and `clean` is what it wrote, its fences
      off, neither blank nor a leak. */
  predicate GaveUsable(g: Guard, tries: seq<Option<Completion>>, i: int, clean: string) {
    && 0 <= i < |tries| && tries[i].Some? && (forall j | 0 <= j < i :: tries[j].None?)
    && tries[i].value.provider != "static"
    && clean == g.stripFences(tries[i].value.text) && StripSpace(clean) != "" && !g.leaks(clean)
  }

  ghost predicate Usable(g: Guard, tries: seq<Option<Completion>>, clean: string) {
    exists i :: GaveUsable(g, tries, i, clean)
  }

  lemma {:induction false} FirstIsFirst(tries: seq<Option<Completion>>, i: nat)
    requires i < |tries| && tries[i].Some? && forall j | 0 <= j < i :: tries[j].None?
    ensures FirstCompletion(tries) == tries[i]
  {
    if i > 0 {
      assert tries[0].None?;
      forall j | 0 <= j < i - 1 ensures tries[1..][j].None? { assert tries[j + 1].None?; }
      FirstIsFirst(tries[1..], i - 1);
    }
  }

  lemma {:induction false} SomeIsFirst(tries: seq<Option<Completion>>) returns (i: nat)
    requires FirstCompletion(tries).Some?
    ensures i < |tries| && tries[i].Some? && forall j | 0 <= j < i :: tries[j].None?
  {
    if tries[0].Some? {
      i := 0;
    } else {
      var k := SomeIsFirst(tries[1..]);
      i := k + 1;
      forall j | 0 <= j < i ensures tries[j].None? { assert j > 0 ==> tries[j] == tries[1..][j - 1]; }
    }
  }

  /** A text is accepted exactly when a provider gave it that way. */
  lemma AcceptedMeans(g: Guard, tries: seq<Option<Completion>>)
    ensures forall clean :: Accepted(g, tries) == Some(clean) <==> Usable(g, tries, clean)
    ensures Accepted(g, tries) == None <==> forall clean :: !Usable(g, tries, clean)
  {
    hide FirstCompletion;
    forall clean ensures Accepted(g, tries) == Some(clean) <==> Usable(g, tries, clean) {
      if Usable(g, tries, clean) {
        var i :| GaveUsable(g, tries, i, clean);
        FirstIsFirst(tries, i);
      }
      if Accepted(g, tries) == Some(clean) {
        var i := SomeIsFirst(tries);
        FirstIsFirst(tries, i);
        assert GaveUsable(g, tries, i, clean);
      }
    }
  }

  /** The text as a shell prints it, on lines of its own. */
  function AsLines(clean: string): string {
    if clean != "" && clean[|clean| - 1] == '\n' then clean else clean + "\n"
  }

  lemma StoredIs(c: Config, cache: Store, key: Key, text: string)
    requires IsStore(cache, c.maxsize)
    ensures var stored := StoreText(c, cache, key, text);
      && (stored.None? <==> c.cacheOn && c.maxsize <= 0)
      && (stored.Some? && c.cacheOn ==> key in stored.value.values && stored.value.values[key] == text)
      && (!c.cacheOn ==> stored == Some(cache))
  {
    hide Put, Consistent;
    PutKeepsStore(cache, c.maxsize, key, text);
  }

  // One request

  /** A key that is cached is served at once; any other waits, and nothing is served yet. */
  lemma AskServes(c: Config, m: Machine, id: Id, key: Key)
    requires id !in m.waiting
    ensures var m' := Serving.Step(c, m, Ask(id, key));
      if c.cacheOn && key in m.cache.values
      then m' == m.(served := m.served + [Served(id, key, Some(m.cache.values[key]))])
      else m' == m.(waiting := m.waiting[id := key])
  {
  }

  /** A usable text is served and cached, on lines of its own for a shell and as it is for the other services;
      without one the request falls back and the cache is untouched. Only a cache without room spoils it. */
  lemma ReturnServes(c: Config, m: Machine, id: Id, tries: seq<Option<Completion>>)
    requires id in m.waiting && IsStore(m.cache, c.maxsize)
    ensures var m' := Serving.Step(c, m, Return(id, tries)); var key := m.waiting[id];
      && m'.waiting == m.waiting - {id}
      && (forall clean | Usable(c.guard, tries, clean) ::
            var text := if c.shell then AsLines(clean) else clean;
            if c.cacheOn && c.maxsize <= 0
            then m'.served == m.served + [Crashed(id, key)] && m'.cache == m.cache
            else
              && m'.served == m.served + [Served(id, key, Some(text))]
              && (c.cacheOn ==> key in m'.cache.values && m'.cache.values[key] == text)
              && (!c.cacheOn ==> m'.cache == m.cache))
      && ((forall clean :: !Usable(c.guard, tries, clean)) ==>
          m'.served == m.served + [Served(id, key, None)] && m'.cache == m.cache)
  {
    hide Accepted, Usable, StoreText, IsStore;
    AcceptedMeans(c.guard, tries);
    if Accepted(c.guard, tries).Some? {
      StoredIs(c, m.cache, m.waiting[id], c.Finish(Accepted(c.guard, tries).value));
    }
  }

  // One line of a shell

  /** The operators that keep a line from the model, by their characters. */
  lemma OperatorsAre(line: string)
    ensures HasOperator(line) <==>
      || (exists c :: c in line && c in {'|', ';', '>', '<', '`'})
      || (exists a, b :: line == a + "&&" + b)
      || (exists a, b :: line == a + "$(" + b)
  {
    OperatorList();
    ContainsOne(line, '|');
    ContainsOne(line, ';');
    ContainsOne(line, '>');
    ContainsOne(line, '<');
    ContainsOne(line, '`');
    ContainsMeans(line, "&&");
    ContainsMeans(line, "||");
    ContainsMeans(line, "$(");
    if Contains(line, "||") {
      var i :| 0 <= i <= |line| && OccursAt(line, i, "||");
      assert line[i] == line[i..][0] == '|';
    }
    assert HasOperator(line) <==>
      || Contains(line, "|") || Contains(line, ";") || Contains(line, "&&") || Contains(line, "||")
      || Contains(line, ">") || Contains(line, "<") || Contains(line, "`") || Contains(line, "$(");
  }

  lemma OperatorList()
    ensures |OPERATORS| == 8 && OPERATORS[0] == "|" && OPERATORS[1] == ";" && OPERATORS[2] == "&&"
    ensures OPERATORS[3] == "||" && OPERATORS[4] == ">" && OPERATORS[5] == "<" && OPERATORS[6] == "`"
    ensures OPERATORS[7] == "$("
  {
  }

  lemma ContainsOne(s: string, c: char)
    ensures Contains(s, [c]) <==> c in s
  {
    if Contains(s, [c]) {
      var i :| 0 <= i <= |s| && OccursAt(s, i, [c]);
      assert s[i..][0] == s[i];
    }
    if c in s {
      var i :| 0 <= i < |s| && s[i] == c;
      assert OccursAt(s, i, [c]);
    }
  }

  lemma ContainsMeans(s: string, op: string)
    ensures Contains(s, op) <==> exists a, b :: s == a + op + b
  {
    if Contains(s, op) {
      var i :| 0 <= i <= |s| && OccursAt(s, i, op);
      assert s == s[..i] + op + s[i..][|op|..];
    }
    if a, b :| s == a + op + b {
      assert s[|a|..] == op + b;
      assert OccursAt(s, |a|, op);
    }
  }

  lemma OneCommandReply(h: Host, line: string, s: State)
    requires !HasOperator(line) && StripSpace(line) != "" && !Lines.SaysGoodbye(StripSpace(line))
    ensures var text := StripSpace(line); var s' := s.(history := s.history + [text]);
      var (ran, meta) := RunParsed(h, Parsed(ExpandAll(h, DropSudo(Tokens(h, text)), s.env), None, false), s');
      Respond(h, line, s) == ReplyOf(ran, meta)
  {
    hide StripSpace, SplitSequence, HasOperator, DropSudo, ExpandAll, Words, RunParsed, ParseCommand, Contains;
    var text := StripSpace(line);
    NoOperatorAfterStrip(line);
    OneCommandLine(text);
    StripTwice(line);
    OneSegmentReply(h, text, s.(history := s.history + [text]));
    NoArrow(line);
    PlainCommand(h, text, s.env);
  }

  lemma UnknownOf(h: Host, words: seq<string>, s: State)
    ensures var meta := RunParsed(h, Parsed(words, None, false), s).1;
      meta.unknownCommand.GetOr("") != "" <==> words != [] && words[0] != "" && words[0] !in Commands.KNOWN
    ensures var ran := RunParsed(h, Parsed(words, None, false), s).0;
      words != [] && words[0] !in Commands.KNOWN ==> ran.Ran?
  {
    hide RunHandler, Basename, HandlerOf;
    if words != [] { Commands.KnownCommands(words[0]); }
  }

  /** A model is asked about a line exactly when it holds none of the operators, says no goodbye, and its
      command, once variables are expanded and `sudo` is gone, has a name that is not in the table. */
  lemma WhenModelsAreAsked(h: Host, line: string, s: State)
    ensures var text := StripSpace(line); var words := ExpandAll(h, DropSudo(Tokens(h, text)), s.env);
      Eligible(line, Respond(h, line, s)) <==>
        && !HasOperator(line) && text != "" && !Lines.SaysGoodbye(text)
        && words != [] && words[0] != "" && words[0] !in Commands.KNOWN
  {
    hide StripSpace, SplitSequence, HasOperator, DropSudo, ExpandAll, RunParsed, RunSegments, Respond;
    var text := StripSpace(line);
    var words := ExpandAll(h, DropSudo(Tokens(h, text)), s.env);
    Lines.WhatCloses(h, line, s);
    if !HasOperator(line) && text != "" && !Lines.SaysGoodbye(text) {
      OneCommandReply(h, line, s);
      UnknownOf(h, words, s.(history := s.history + [text]));
    }
  }

  lemma NoArrow(line: string)
    requires !HasOperator(line)
    ensures '>' !in StripSpace(line) && '|' !in StripSpace(line)
  {
    hide StripSpace;
    OperatorsAre(line);
    StripIsPart(line);
    var i, j :| 0 <= i <= j <= |line| && StripSpace(line) == line[i..j];
    assert forall c | c in line[i..j] :: c in line;
  }

  /** A line that does not ask for a model is answered by the vanilla engine. One that does is shown what is
      cached for its key at once; if nothing is, the session waits, the vanilla answer held back. */
  lemma LineShows(cfg: Settings, w: World, id: Id, line: string)
    requires MaySpeak(w, id) && id !in w.serving.waiting
    ensures id in React(cfg, w, Line(id, line)).clients
    ensures var c := w.clients[id]; var w' := React(cfg, w, Line(id, line)); var c' := w'.clients[id];
      var r := Respond(c.host, line, c.state); var key := KeyOf(cfg.semantic, c.persona, line);
      && (!Eligible(line, r) && r.Reply? ==>
          && c'.shown == c.shown + [Output(r.output, r.status, r.close)] && c'.pending == None
          && w'.serving == w.serving && (c'.ended <==> r.close))
      && (r.NoReply? ==> c'.shown == c.shown + [Crash] && c'.ended)
      && (Eligible(line, r) && cfg.config.cacheOn && key in w.serving.cache.values ==>
          && c'.shown == c.shown + [Output(w.serving.cache.values[key], 0, false)]
          && c'.pending == None && !c'.ended && w'.serving.waiting == w.serving.waiting)
      && (Eligible(line, r) && !(cfg.config.cacheOn && key in w.serving.cache.values) ==>
          && c'.shown == c.shown
          && c'.pending == Some(Output(Basename(r.meta.unknownCommand.value) + ": command not found\n", 127, false))
          && w'.serving.waiting == w.serving.waiting[id := key])
  {
    hide Respond, KeyOf, Serving.Step, Basename, HasOperator;
    var c := w.clients[id];
    AskServes(cfg.config, w.serving, id, KeyOf(cfg.semantic, c.persona, line));
    if Eligible(line, Respond(c.host, line, c.state)) {
      EligibleLineChangesNothing(c.host, line, c.state);
    }
  }

  /** What the session is shown when its providers have returned: a usable text on lines of its own, with status
      0, cached for the others; without one the vanilla answer; and nothing at all if the cache has no room. */
  lemma CompletedShows(cfg: Settings, w: World, id: Id, tries: seq<Option<Completion>>)
    requires cfg.config.shell && IsStore(w.serving.cache, cfg.config.maxsize)
    requires id in w.clients && w.clients[id].pending.Some? && id in w.serving.waiting
    ensures id in React(cfg, w, Completed(id, tries)).clients
    ensures var c := w.clients[id]; var w' := React(cfg, w, Completed(id, tries)); var c' := w'.clients[id];
      var key := w.serving.waiting[id]; var full := cfg.config.cacheOn && cfg.config.maxsize <= 0;
      && c'.pending == None && c'.state == c.state && c'.lines == c.lines
      && (forall clean | Usable(cfg.config.guard, tries, clean) ::
            && c'.shown == c.shown + [if full then Crash else Output(AsLines(clean), 0, false)]
            && (c'.ended <==> full)
            && (cfg.config.cacheOn && !full ==>
                key in w'.serving.cache.values && w'.serving.cache.values[key] == AsLines(clean)))
      && ((forall clean :: !Usable(cfg.config.guard, tries, clean)) ==>
          && c'.shown == c.shown + [c.pending.value] && w'.serving.cache == w.serving.cache
          && (c'.ended <==> c.pending.value.Crash? || c.pending.value.close))
  {
    hide Accepted, Usable, StoreText, IsStore;
    var c, key := w.clients[id], w.serving.waiting[id];
    AcceptedMeans(cfg.config.guard, tries);
    ReturnServes(cfg.config, w.serving, id, tries);
    if Accepted(cfg.config.guard, tries).Some? {
      StoredIs(cfg.config, w.serving.cache, key, cfg.config.Finish(Accepted(cfg.config.guard, tries).value));
    }
  }

  lemma SafeIsStore(c: Config, m: Machine)
    requires Safe(c, m)
    ensures IsStore(m.cache, c.maxsize)
  {
    hide PutsOf, Genuine, ServedSafely;
  }

  lemma {:induction false} OthersLeaveItWaiting(cfg: Settings, w: World, inputs: seq<Input>, id: Id)
    requires id in w.clients && id in w.serving.waiting && forall i | 0 <= i < |inputs| :: inputs[i].id != id
    ensures var w' := ReactAll(cfg, w, inputs);
      && id in w'.clients && w'.clients[id] == w.clients[id]
      && id in w'.serving.waiting && w'.serving.waiting[id] == w.serving.waiting[id]
    decreases |inputs|
  {
    hide Respond, Eligible, KeyOf, Serving.Step, Outcome;
    if inputs != [] {
      assert inputs[0].id != id;
      OneLeavesItWaiting(cfg, w, inputs[0], id);
      hide React;
      OthersLeaveItWaiting(cfg, React(cfg, w, inputs[0]), inputs[1..], id);
    }
  }

  lemma OneLeavesItWaiting(cfg: Settings, w: World, input: Input, id: Id)
    requires id in w.clients && id in w.serving.waiting && input.id != id
    ensures var w' := React(cfg, w, input);
      && id in w'.clients && w'.clients[id] == w.clients[id]
      && id in w'.serving.waiting && w'.serving.waiting[id] == w.serving.waiting[id]
  {
    hide Respond, Eligible, KeyOf, Serving.Step, Outcome;
    StepGrows(cfg.config, w.serving, if input.Completed? then Return(input.id, input.tries) else
      Ask(input.id, if input.Warm? then input.key else
        if input.id in w.clients then KeyOf(cfg.semantic, w.clients[input.id].persona, input.line) else ("", "")));
  }

  /** From the line to its answer, whatever the other sessions do meanwhile: a line that asks for a model and is
      not cached is shown the usable text its providers gave, or, if they gave none, that the command is not
      found. */
  lemma ModelAnswerIsShown(cfg: Settings, w: World, id: Id, line: string, between: seq<Input>,
                           tries: seq<Option<Completion>>)
    requires WorldOk(cfg, w) && MaySpeak(w, id) && cfg.config.shell && !HasNoRoom(cfg.config)
    requires var c := w.clients[id]; Eligible(line, Respond(c.host, line, c.state))
    requires Lookup(cfg.config, w.serving, KeyOf(cfg.semantic, w.clients[id].persona, line)).None?
    requires forall i | 0 <= i < |between| :: between[i].id != id
    ensures var c := w.clients[id]; var waiting := ReactAll(cfg, React(cfg, w, Line(id, line)), between);
      id in waiting.clients && waiting.clients[id].pending.Some? && id in waiting.serving.waiting
    ensures var c := w.clients[id]; var waiting := ReactAll(cfg, React(cfg, w, Line(id, line)), between);
      var end := React(cfg, waiting, Completed(id, tries));
      var name := Respond(c.host, line, c.state).meta.unknownCommand;
      && id in end.clients && end.clients[id].pending == None && !end.clients[id].ended
      && (forall clean | Usable(cfg.config.guard, tries, clean) ::
            end.clients[id].shown == c.shown + [Output(AsLines(clean), 0, false)])
      && ((forall clean :: !Usable(cfg.config.guard, tries, clean)) ==>
          end.clients[id].shown == c.shown + [Output(Basename(name.value) + ": command not found\n", 127, false)])
  {
    hide Respond, KeyOf, Basename, React, ReactAll, Usable, Safe, ClientOk, Eligible;
    var told := React(cfg, w, Line(id, line));
    IdleIsNotWaiting(cfg, w.serving, id, w.clients[id]);
    LineShows(cfg, w, id, line);
    OthersLeaveItWaiting(cfg, told, between, id);
    ReactKeepsOk(cfg, w, Line(id, line));
    WorldStaysOk(cfg, told, between);
    var waiting := ReactAll(cfg, told, between);
    SafeIsStore(cfg.config, waiting.serving);
    CompletedShows(cfg, waiting, id, tries);
    ReactKeepsIdentity(cfg, waiting, Completed(id, tries), id);
    var guard := cfg.config.guard;
    assert (forall clean :: !Usable(guard, tries, clean)) || exists clean :: Usable(guard, tries, clean);
  }
}
