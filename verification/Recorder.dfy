/** The recording handle of `telemetry/recorder.py`. A call numbers its event at once and writes the
    row from a worker thread, so any number of writes may be on their way and land in any order. */
module Recorder {
  import opened Text

  /** A handle and its rows: the event numbers on their way, the event numbers written, whether `close`
      was called, the count it took along, and the count in the session row once that is written. The
      last field counts the close writes. */
  datatype Handle = Handle(last: nat, pending: set<nat>, rows: seq<nat>,
                           closed: bool, closing: Option<nat>, eventCount: Option<nat>, closes: nat)

  const OPENED := Handle(0, {}, [], false, None, None, 0)

  datatype Event = Record | EventLands(n: nat) | Close | CloseLands

  function Step(h: Handle, e: Event): Handle {
    match e
    case Record => h.(last := h.last + 1, pending := h.pending + {h.last + 1})
    case EventLands(n) => if n in h.pending then h.(pending := h.pending - {n}, rows := h.rows + [n]) else h
    case Close => if h.closed then h else h.(closed := true, closing := Some(h.last))
    case CloseLands =>
      if h.closing.None? then h else h.(closing := None, eventCount := h.closing, closes := h.closes + 1)
  }

  function Run(h: Handle, events: seq<Event>): Handle
    decreases |events|
  {
    if events == [] then h else Run(Step(h, events[0]), events[1..])
  }

  /** How many events were begun before the first close. */
  function BegunBeforeClose(events: seq<Event>): nat {
    if events == [] || events[0] == Close then 0
    else (if events[0] == Record then 1 else 0) + BegunBeforeClose(events[1..])
  }

  function Begun(events: seq<Event>): nat {
    if events == [] then 0 else (if events[0] == Record then 1 else 0) + Begun(events[1..])
  }

  ghost predicate NoDuplicates(rows: seq<nat>) {
    forall i, j | 0 <= i < j < |rows| :: rows[i] != rows[j]
  }

  /** Every number from 1 to the last one given out is either on its way or written, and written at
      most once; `close` took effect at most once. */
  ghost predicate Inv(h: Handle) {
    && NoDuplicates(h.rows)
    && (forall n :: n in h.rows ==> n !in h.pending)
    && (forall n: nat :: 1 <= n <= h.last <==> n in h.pending || n in h.rows)
    && h.closes == (if h.eventCount.Some? then 1 else 0)
    && (h.closed <==> h.closing.Some? || h.eventCount.Some?)
    && !(h.closing.Some? && h.eventCount.Some?)
    && (h.closing.Some? ==> h.closing.value <= h.last)
    && (h.eventCount.Some? ==> h.eventCount.value <= h.last)
  }

  lemma StepKeepsInv(h: Handle, e: Event)
    requires Inv(h)
    ensures Inv(Step(h, e))
  {
    var h' := Step(h, e);
    match e
    case Record =>
      forall n: nat ensures 1 <= n <= h'.last <==> n in h'.pending || n in h'.rows {
        assert 1 <= n <= h'.last <==> 1 <= n <= h.last || n == h'.last;
      }
      assert h'.last !in h.rows;
    case EventLands(n) =>
      forall k: nat ensures 1 <= k <= h'.last <==> k in h'.pending || k in h'.rows {}
    case _ =>
  }

  /** What a close would store now, or has stored. */
  function Taken(h: Handle): nat {
    if h.closing.Some? then h.closing.value else if h.eventCount.Some? then h.eventCount.value else h.last
  }

  lemma {:induction false} RunKeeps(h: Handle, events: seq<Event>)
    requires Inv(h)
    ensures var end := Run(h, events);
      && Inv(end) && end.last == h.last + Begun(events)
      && Taken(end) == (if h.closed then Taken(h) else h.last + BegunBeforeClose(events))
      && (end.closed <==> h.closed || Close in events)
    decreases |events|
  {
    if events != [] {
      hide Inv;
      StepKeepsInv(h, events[0]);
      var h' := Step(h, events[0]);
      RunKeeps(h', events[1..]);
      TakenSteps(h, events[0]);
    }
  }

  lemma TakenSteps(h: Handle, e: Event)
    requires Inv(h)
    ensures var h' := Step(h, e);
      && Taken(h') == (if e == Record && !h.closed then h.last + 1 else Taken(h))
      && h'.last == h.last + (if e == Record then 1 else 0)
      && (h'.closed <==> h.closed || e == Close)
      && (!h.closed ==> Taken(h) == h.last)
  {
  }

  lemma {:induction false} AllNumbersOnce(rows: seq<nat>, n: nat)
    requires NoDuplicates(rows) && forall k: nat :: 1 <= k <= n <==> k in rows
    ensures |rows| == n
  {
    assert rows != [] ==> rows[0] in rows;
    if n != 0 {
      assert n in rows;
      var i :| 0 <= i < |rows| && rows[i] == n;
      var rest := rows[..i] + rows[i + 1..];
      forall k: nat ensures 1 <= k <= n - 1 <==> k in rest {
        if k in rows && k != n {
          var j :| 0 <= j < |rows| && rows[j] == k;
          assert rest[if j < i then j else j - 1] == k;
        }
        if k in rest {
          var j :| 0 <= j < |rest| && rest[j] == k;
          assert rows[if j < i then j else j + 1] == k;
        }
      }
      AllNumbersOnce(rest, n - 1);
    }
  }

  /** Over every interleaving: the rows carry pairwise distinct numbers. Once all writes have landed they
      are exactly 1 to the number of events begun, and if the handle was closed, the close was written
      once with the number of events begun before it. That is the number of rows exactly when no event
      was begun after the close. */
  lemma NumbersAndCount(events: seq<Event>)
    ensures var h := Run(OPENED, events);
      && NoDuplicates(h.rows)
      && (h.pending == {} && h.closing.None? ==>
        && (forall n: nat :: 1 <= n <= Begun(events) <==> n in h.rows)
        && |h.rows| == Begun(events)
        && h.closes == (if Close in events then 1 else 0)
        && (Close in events ==> h.eventCount == Some(BegunBeforeClose(events)))
        && (Close in events ==> (h.eventCount.value == |h.rows| <==> BegunBeforeClose(events) == Begun(events))))
  {
    RunKeeps(OPENED, events);
    var h := Run(OPENED, events);
    if h.pending == {} {
      AllNumbersOnce(h.rows, h.last);
    }
  }

  /** From every state the writes on their way can all land; then nothing is on its way. */
  lemma {:induction false} WritesLand(h: Handle) returns (events: seq<Event>)
    ensures var end := Run(h, events);
      && end.pending == {} && end.closing.None? && end.last == h.last && end.closed == h.closed
      && (forall n :: n in end.rows <==> n in h.rows || n in h.pending)
      && (h.closing.Some? ==> end.eventCount == h.closing)
    ensures forall e | e in events :: e.EventLands? || e == CloseLands
    decreases h.pending
  {
    if n :| n in h.pending {
      var h' := Step(h, EventLands(n));
      var later := WritesLand(h');
      events := [EventLands(n)] + later;
      assert events[1..] == later;
      assert forall k :: k in h.pending <==> k == n || k in h'.pending;
    } else {
      events := [CloseLands];
      assert events[1..] == [];
    }
  }

  /** The handle's own fields, changed before each await. */
  class SessionHandle {
    var last: nat
    var closed: bool

    constructor ()
      ensures last == OPENED.last && closed == OPENED.closed
    {
      last, closed := 0, false;
    }

    /** `record_event` up to the write: the number of the event. */
    method BeginEvent() returns (n: nat)
      modifies this
      ensures n == old(last) + 1 && last == n && closed == old(closed)
      ensures forall h: Handle | h.last == old(last) && h.closed == old(closed) ::
        var h' := Step(h, Record); h'.last == last && h'.closed == closed && h'.pending == h.pending + {n}
    {
      last := last + 1;
      n := last;
    }

    /** `close` up to the write: the count to write, if there is anything to do. */
    method BeginClose() returns (count: Option<nat>)
      modifies this
      ensures closed && last == old(last)
      ensures count == if old(closed) then None else Some(last)
      ensures forall h: Handle | h.last == old(last) && h.closed == old(closed) ::
        var h' := Step(h, Close); h'.last == last && h'.closed == closed && (count.Some? ==> h'.closing == count)
    {
      if closed {
        return None;
      }
      closed := true;
      count := Some(last);
    }
  }
}
