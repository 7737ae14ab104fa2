/** Model answers behind one shared cache: the protocol `engine/llm.py` and `engine/augment.py` share.
    A request looks the key up, waits for a provider if it must, and on its return stores what the
    output guard accepted. Any number of requests may be waiting at once, and they come back in any
    order; each event below is what happens between two awaits. */
module Serving {
  import opened Text
  import opened Cache

  /** What a provider returned. */
  datatype Completion = Completion(text: string, provider: string)

  /** `validate_output`, its patterns left open: how code fences are stripped, and what is a leak. */
  datatype Guard = Guard(stripFences: string -> string, leaks: string -> bool) {
    function Validate(text: string): Option<string> {
      var cleaned := stripFences(text);
      if StripSpace(cleaned) == "" || leaks(cleaned) then None else Some(cleaned)
    }
  }

  /** The providers are tried in order; `None` is one that raised. */
  function FirstCompletion(tries: seq<Option<Completion>>): Option<Completion> {
    if tries == [] then None
    else if tries[0].Some? then tries[0]
    else FirstCompletion(tries[1..])
  }

  method TryProviders(tries: seq<Option<Completion>>) returns (r: Option<Completion>)
    ensures r == FirstCompletion(tries)
    ensures r.Some? <==> exists t | t in tries :: t.Some?
  {
    assert tries[0..] == tries;
    for i := 0 to |tries|
      invariant FirstCompletion(tries[i..]) == FirstCompletion(tries)
      invariant forall t | t in tries[..i] :: t.None?
    {
      assert tries[i..][1..] == tries[i + 1..];
      if tries[i].Some? {
        return tries[i];
      }
      assert tries[..i + 1] == tries[..i] + [tries[i]];
    }
    assert tries[..|tries|] == tries;
    return None;
  }

  /** The text a round of provider calls may be used for, if any. */
  function Accepted(g: Guard, tries: seq<Option<Completion>>): Option<string> {
    var c := FirstCompletion(tries);
    if c.None? || c.value.provider == "static" then None else g.Validate(c.value.text)
  }

  /** The shell adds a final newline where it is missing; the other services take the text as it is. */
  datatype Config = Config(cacheOn: bool, maxsize: int, shell: bool, guard: Guard) {
    function Finish(clean: string): string {
      if !shell || (clean != "" && clean[|clean| - 1] == '\n') then clean else clean + "\n"
    }
  }

  type Id = int

  datatype Event = Ask(id: Id, key: Key) | Return(id: Id, tries: seq<Option<Completion>>)

  /** A finished request: no text means the caller falls back to its own template. A cache that cannot take
      the text raises, and the request ends without an answer. */
  datatype Served = Served(id: Id, key: Key, text: Option<string>) | Crashed(id: Id, key: Key)

  /** The shared cache, the requests that are waiting, those that are finished, and a log of what the
      providers gave to whom. */
  datatype Machine = Machine(cache: Store, waiting: map<Id, Key>, served: seq<Served>,
                             log: seq<(Key, seq<Option<Completion>>)>)

  const START := Machine(EMPTY, map[], [], [])

  function Lookup(c: Config, m: Machine, key: Key): Option<string> {
    if c.cacheOn && key in m.cache.values then Some(m.cache.values[key]) else None
  }

  /** What the cache becomes; none if it raises. */
  function StoreText(c: Config, cache: Store, key: Key, text: string): Option<Store> {
    if c.cacheOn then Put(cache, c.maxsize, key, text) else Some(cache)
  }

  /** Events that cannot happen (an id asking twice, a return nobody waits for) change nothing. */
  function Step(c: Config, m: Machine, e: Event): Machine {
    match e
    case Ask(id, key) =>
      if id in m.waiting then m
      else if Lookup(c, m, key).Some? then m.(served := m.served + [Served(id, key, Lookup(c, m, key))])
      else m.(waiting := m.waiting[id := key])
    case Return(id, tries) =>
      if id !in m.waiting then m
      else
        var key := m.waiting[id];
        var clean := Accepted(c.guard, tries);
        var done := m.(waiting := m.waiting - {id}, log := m.log + [(key, tries)]);
        if clean.None? then done.(served := m.served + [Served(id, key, None)])
        else
          var text := c.Finish(clean.value);
          var stored := StoreText(c, m.cache, key, text);
          if stored.None? then done.(served := m.served + [Crashed(id, key)])
          else done.(cache := stored.value, served := m.served + [Served(id, key, Some(text))])
  }

  function Run(c: Config, m: Machine, events: seq<Event>): Machine
    decreases |events|
  {
    if events == [] then m else Run(c, Step(c, m, events[0]), events[1..])
  }

  /** Some provider gave this text for this very key, and the guard let it through. */
  ghost predicate Genuine(c: Config, log: seq<(Key, seq<Option<Completion>>)>, key: Key, text: string) {
    exists i | 0 <= i < |log| :: Gave(c, log[i], key, text)
  }

  predicate Gave(c: Config, entry: (Key, seq<Option<Completion>>), key: Key, text: string) {
    entry.0 == key && Accepted(c.guard, entry.1).Some? && text == c.Finish(Accepted(c.guard, entry.1).value)
  }

  /** The puts the log amounts to. */
  function PutsOf(c: Config, log: seq<(Key, seq<Option<Completion>>)>): History {
    if log == [] then []
    else
      var (key, tries) := log[|log| - 1];
      var clean := Accepted(c.guard, tries);
      PutsOf(c, log[..|log| - 1]) + if c.cacheOn && clean.Some? then [(key, c.Finish(clean.value))] else []
  }

  /** The cache is the last writes of the log, what is in it and what was served is genuine, and a request
      only crashed on a cache without any room. */
  ghost predicate Safe(c: Config, m: Machine) {
    && m.cache == AfterPuts(PutsOf(c, m.log), c.maxsize)
    && (forall k | k in m.cache.values :: Genuine(c, m.log, k, m.cache.values[k]))
    && (forall i | 0 <= i < |m.served| :: ServedSafely(c, m.log, m.served[i]))
  }

  ghost predicate ServedSafely(c: Config, log: seq<(Key, seq<Option<Completion>>)>, s: Served) {
    match s
    case Served(_, key, Some(text)) => Genuine(c, log, key, text)
    case Served(_, _, None) => true
    case Crashed(_, _) => HasNoRoom(c)
  }

  predicate HasNoRoom(c: Config) {
    c.cacheOn && c.maxsize <= 0
  }

  lemma LogGrows(c: Config, log: seq<(Key, seq<Option<Completion>>)>, entry: (Key, seq<Option<Completion>>))
    ensures forall key, text | Genuine(c, log, key, text) :: Genuine(c, log + [entry], key, text)
    ensures forall key, text | Gave(c, entry, key, text) :: Genuine(c, log + [entry], key, text)
  {
    forall key, text | Genuine(c, log, key, text) ensures Genuine(c, log + [entry], key, text) {
      var i :| 0 <= i < |log| && Gave(c, log[i], key, text);
      assert (log + [entry])[i] == log[i];
    }
    assert (log + [entry])[|log|] == entry;
  }

  lemma StepIsSafe(c: Config, m: Machine, e: Event)
    requires Safe(c, m)
    ensures Safe(c, Step(c, m, e))
  {
    hide Put, FirstCompletion, Genuine, AfterPuts, Accepted, StoreText;
    if e.Return? && e.id in m.waiting {
      var key := m.waiting[e.id];
      var entry := (key, e.tries);
      LogGrows(c, m.log, entry);
      assert (m.log + [entry])[..|m.log|] == m.log;
      var puts := PutsOf(c, m.log);
      if Accepted(c.guard, e.tries).Some? {
        var text := c.Finish(Accepted(c.guard, e.tries).value);
        assert Gave(c, entry, key, text);
        AfterOnePut(c, puts, key, text);
      }
      assert puts + [] == puts;
    }
  }

  /** One more put, in the cache and in its history. */
  lemma AfterOnePut(c: Config, puts: History, key: Key, text: string)
    ensures var before := AfterPuts(puts, c.maxsize);
      var after := StoreText(c, before, key, text);
      && (after.None? <==> HasNoRoom(c))
      && after.GetOr(before) == AfterPuts(if c.cacheOn then puts + [(key, text)] else puts, c.maxsize)
      && (after.Some? ==> forall k | k in after.value.values ::
            (c.cacheOn && k == key && after.value.values[k] == text)
            || (k in before.values && after.value.values[k] == before.values[k]))
  {
    hide Put;
    assert (puts + [(key, text)])[..|puts|] == puts;
    PutKeepsStore(AfterPuts(puts, c.maxsize), c.maxsize, key, text);
  }

  lemma {:induction false} RunIsSafe(c: Config, m: Machine, events: seq<Event>)
    requires Safe(c, m)
    ensures Safe(c, Run(c, m, events))
    decreases |events|
  {
    hide Safe, Step;
    if events != [] {
      StepIsSafe(c, m, events[0]);
      RunIsSafe(c, Step(c, m, events[0]), events[1..]);
    }
  }

  /** Whatever the providers do and however the requests interleave: each text in the cache, and each
      one served, was given by a provider for the same key and passed the guard; so it is not blank
      and not a leak, up to the one newline the shell adds. The cache itself is the last writes of
      that history, and no request crashes unless the cache is on and has no room at all. */
  lemma OnlyAcceptedTextIsServed(c: Config, events: seq<Event>)
    ensures var m := Run(c, START, events);
      && (forall k | k in m.cache.values :: Genuine(c, m.log, k, m.cache.values[k]))
      && (forall i | 0 <= i < |m.served| && m.served[i].Served? && m.served[i].text.Some? ::
            Genuine(c, m.log, m.served[i].key, m.served[i].text.value))
      && m.cache == AfterPuts(PutsOf(c, m.log), c.maxsize)
      && (forall i | 0 <= i < |m.served| && m.served[i].Crashed? :: HasNoRoom(c))
  {
    RunIsSafe(c, START, events);
    var m := Run(c, START, events);
    assert forall i | 0 <= i < |m.served| :: ServedSafely(c, m.log, m.served[i]);
  }

  lemma GenuineTextIsClean(c: Config, log: seq<(Key, seq<Option<Completion>>)>, key: Key, text: string)
    requires Genuine(c, log, key, text)
    ensures exists clean ::
      StripSpace(clean) != "" && !c.guard.leaks(clean) && (text == clean || (c.shell && text == clean + "\n"))
  {
    var i :| 0 <= i < |log| && Gave(c, log[i], key, text);
    var clean := Accepted(c.guard, log[i].1).value;
    assert StripSpace(clean) != "" && !c.guard.leaks(clean);
  }

  // The engine of the other services

  /** `LLMAugmentor`, its `generate` cut where it waits for a provider. Each half is one step of the
      machine, whatever the other requests are doing. */
  class LLMAugmentor {
    const cache: ResponseCache
    const guard: Guard

    constructor (cache: ResponseCache, guard: Guard)
      ensures this.cache == cache && this.guard == guard
    {
      this.cache, this.guard := cache, guard;
    }

    function ConfigNow(): Config
      reads cache
    {
      Config(cache.enabled, cache.maxsize, false, guard)
    }

    /** A cached text answers the request at once. */
    method Begin(persona: string, cacheKey: string, ghost id: Id, ghost m: Machine) returns (cached: Option<string>)
      requires cache.Valid() && cache.Contents() == m.cache && id !in m.waiting
      modifies cache`hits, cache`misses
      ensures cache.Valid()
      ensures var key := KeyOf(cache.semantic, persona, cacheKey);
        var next := Step(ConfigNow(), m, Ask(id, key));
        && next.cache == cache.Contents() && next.log == m.log
        && next.served == m.served + (if cached.Some? then [Served(id, key, cached)] else [])
        && next.waiting == if cached.Some? then m.waiting else m.waiting[id := key]
    {
      cached := cache.Get(persona, cacheKey);
      assert m.served + [] == m.served;
    }

    /** From the provider call on, with the cache as others have left it meanwhile. */
    method Finish(persona: string, cacheKey: string, tries: seq<Option<Completion>>, ghost id: Id, ghost m: Machine)
      returns (text: Option<string>, raised: bool)
      requires cache.Valid() && cache.Contents() == m.cache
      requires id in m.waiting && m.waiting[id] == KeyOf(cache.semantic, persona, cacheKey)
      modifies cache`values, cache`order
      ensures cache.Valid()
      ensures var next := Step(ConfigNow(), m, Return(id, tries));
        && next.cache == cache.Contents() && next.waiting == m.waiting - {id}
        && next.served == m.served + [if raised then Crashed(id, m.waiting[id]) else Served(id, m.waiting[id], text)]
      ensures raised ==> HasNoRoom(ConfigNow())
    {
      hide KeyOf, Put;
      var completion := TryProviders(tries);
      if completion.None? || completion.value.provider == "static" {
        return None, false;
      }
      text := guard.Validate(completion.value.text);
      if text.None? {
        return None, false;
      }
      PutKeepsStore(cache.Contents(), cache.maxsize, KeyOf(cache.semantic, persona, cacheKey), text.value);
      raised := cache.Set(persona, cacheKey, text.value);
    }
  }
}
