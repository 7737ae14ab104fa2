/** One SSH connection of `services/ssh/server.py`: password callbacks, the process handler, the loss
    of the connection and the finaliser it schedules, as steps between awaits that interleave freely.
    A connection has at most one channel. */
module Ssh {
  import opened Text

  datatype Credential = Credential(username: string, password: string, accepted: bool)

  /** A session row and its credential rows. `closeCalled` is the handle's own flag, `closes` counts
      the close writes that reached the row. */
  datatype Row = Row(probe: bool, credentials: seq<Credential>, closeCalled: bool, closes: nat)

  /** Where the process handler stands: the row is being created; credential number `next` is being
      written; the shell runs; the handler's own close is on its way; over, having closed or not. */
  datatype Process =
    | NoProcess
    | Creating
    | Flushing(row: nat, next: nat)
    | Running(row: nat)
    | Closing(row: nat)
    | Done(row: nat, closed: bool)

  /** The same for the finaliser that the lost connection schedules. `own` tells a row it opened itself
      from the process handler's. */
  datatype Finaliser =
    | NotScheduled
    | Scheduled
    | FinCreating
    | FinFlushing(row: nat, next: nat)
    | FinClosing(row: nat, own: bool)
    | FinDone(row: nat, own: bool)
    | FinSkipped

  /** `_ConnCtx` and the rows written for it. `bodies` counts how often the finaliser body was entered,
      and `raced` whether it met, or was met by, an open that was not complete. */
  datatype Conn = Conn(pending: seq<Credential>, handle: Option<nat>, finalized: bool, lost: bool,
                       process: Process, finaliser: Finaliser, rows: seq<Row>, bodies: nat, raced: bool)

  const CONNECTED := Conn([], None, false, false, NoProcess, NotScheduled, [], 0, false)

  datatype Policy = Policy(acceptAfter: int, accepted: set<string>)

  datatype Event =
    | Attempt(username: string, password: string)  // validate_password
    | Start                                        // the process handler begins and opens a session
    | Landed                                       // the process handler's pending write lands
    | End                                          // the shell ends, the handler enters its finally
    | Lose                                         // connection_lost
    | Finalise                                     // the scheduled finaliser begins
    | FinLanded                                    // the finaliser's pending write lands

  /** Passwords are tried before any channel opens. */
  function Validate(p: Policy, c: Conn, username: string, password: string): Conn {
    var accept := username + ":" + password in p.accepted || |c.pending| + 1 >= p.acceptAfter;
    c.(pending := c.pending + [Credential(username, password, accept)])
  }

  function AddCredential(c: Conn, row: nat, k: nat): Conn
    requires row < |c.rows| && k < |c.pending|
  {
    c.(rows := c.rows[row := c.rows[row].(credentials := c.rows[row].credentials + [c.pending[k]])])
  }

  function CallClose(c: Conn, row: nat): Conn
    requires row < |c.rows|
  {
    c.(rows := c.rows[row := c.rows[row].(closeCalled := true)])
  }

  function LandClose(c: Conn, row: nat): Conn
    requires row < |c.rows|
  {
    c.(rows := c.rows[row := c.rows[row].(closes := c.rows[row].closes + 1)])
  }

  /** The loop of `_open_session` goes on with credential `k`, or the open is complete. */
  function ProcessFlush(c: Conn, row: nat, k: nat): Conn {
    if k < |c.pending| then c.(process := Flushing(row, k)) else c.(handle := Some(row), process := Running(row))
  }

  /** Likewise for the finaliser, which closes the session right away. */
  function FinFlush(c: Conn, row: nat, k: nat): Conn
    requires row < |c.rows|
  {
    if k < |c.pending| then c.(finaliser := FinFlushing(row, k))
    else CallClose(c, row).(finaliser := FinClosing(row, true))
  }

  function ProcessLanded(c: Conn): Conn {
    match c.process
    case Creating => ProcessFlush(c.(rows := c.rows + [Row(false, [], false, 0)]), |c.rows|, 0)
    case Flushing(row, k) =>
      if row < |c.rows| && k < |c.pending| then ProcessFlush(AddCredential(c, row, k), row, k + 1) else c
    case Closing(row) =>
      if row < |c.rows| then LandClose(c, row).(process := Done(row, true)) else c
    case _ => c
  }

  function ProcessEnd(c: Conn): Conn {
    match c.process
    case Running(row) =>
      if c.finalized || row >= |c.rows| then c.(process := Done(row, false))
      else
        var entered := c.(finalized := true, bodies := c.bodies + 1);
        if c.rows[row].closeCalled then entered.(process := Done(row, false))
        else CallClose(entered, row).(process := Closing(row))
    case _ => c
  }

  /** `_finalize_ctx` up to its first await. */
  function FinaliserBegins(c: Conn): Conn {
    if c.finalized then c.(finaliser := FinSkipped)
    else
      var entered := c.(finalized := true, bodies := c.bodies + 1);
      if c.handle.None? then entered.(finaliser := FinCreating, raced := c.raced || !c.process.NoProcess?)
      else if c.handle.value >= |c.rows| || c.rows[c.handle.value].closeCalled then entered.(finaliser := FinSkipped)
      else CallClose(entered, c.handle.value).(finaliser := FinClosing(c.handle.value, false))
  }

  function FinaliserLanded(c: Conn): Conn {
    match c.finaliser
    case FinCreating => FinFlush(c.(rows := c.rows + [Row(true, [], false, 0)]), |c.rows|, 0)
    case FinFlushing(row, k) =>
      if row < |c.rows| && k < |c.pending| then FinFlush(AddCredential(c, row, k), row, k + 1) else c
    case FinClosing(row, own) =>
      if row < |c.rows| then LandClose(c, row).(finaliser := FinDone(row, own)) else c
    case _ => c
  }

  /** Events that cannot happen in a state leave it alone. */
  function Step(p: Policy, c: Conn, e: Event): Conn {
    match e
    case Attempt(u, pw) => if c.process.NoProcess? && !c.lost then Validate(p, c, u, pw) else c
    case Start => if c.process.NoProcess? then c.(process := Creating, raced := c.raced || c.finalized) else c
    case Landed => ProcessLanded(c)
    case End => ProcessEnd(c)
    case Lose => if c.lost then c else c.(lost := true, finaliser := if c.finalized then c.finaliser else Scheduled)
    case Finalise => if c.finaliser.Scheduled? then FinaliserBegins(c) else c
    case FinLanded => FinaliserLanded(c)
  }

  function Run(p: Policy, c: Conn, events: seq<Event>): Conn
    decreases |events|
  {
    if events == [] then c else Run(p, Step(p, c, events[0]), events[1..])
  }

  // The invariant

  predicate HasRow(pr: Process) {
    !pr.NoProcess? && !pr.Creating?
  }

  predicate OwnsRow(f: Finaliser) {
    f.FinFlushing? || (f.FinClosing? && f.own) || (f.FinDone? && f.own)
  }

  /** The finaliser task entered the body, rather than finding it entered. */
  predicate FinEntered(f: Finaliser) {
    f.FinCreating? || f.FinFlushing? || f.FinClosing? || f.FinDone?
  }

  predicate ProcessEntered(pr: Process) {
    pr.Closing? || (pr.Done? && pr.closed)
  }

  predicate FinOpens(f: Finaliser) {
    f.FinCreating? || OwnsRow(f)
  }

  /** What the row of a task must hold by now. */
  ghost predicate RowIs(c: Conn, row: nat, probe: bool, written: nat, called: bool, closes: nat) {
    row < |c.rows| && written <= |c.pending| && c.rows[row] == Row(probe, c.pending[..written], called, closes)
  }

  ghost predicate ProcessRowOk(c: Conn) {
    var closed := if c.finaliser.FinDone? && !c.finaliser.own then 1 else 0;
    var called := (c.finaliser.FinClosing? || c.finaliser.FinDone?) && !c.finaliser.own;
    match c.process
    case NoProcess => true
    case Creating => true
    case Flushing(row, k) => k < |c.pending| && RowIs(c, row, false, k, false, 0)
    case Running(row) => RowIs(c, row, false, |c.pending|, called, closed)
    case Closing(row) => RowIs(c, row, false, |c.pending|, true, 0)
    case Done(row, closedHere) =>
      RowIs(c, row, false, |c.pending|, closedHere || called, if closedHere then 1 else closed)
  }

  ghost predicate FinRowOk(c: Conn) {
    match c.finaliser
    case FinFlushing(row, k) => k < |c.pending| && RowIs(c, row, true, k, false, 0)
    case FinClosing(row, true) => RowIs(c, row, true, |c.pending|, true, 0)
    case FinDone(row, true) => RowIs(c, row, true, |c.pending|, true, 1)
    case FinClosing(row, false) => c.handle == Some(row)
    case FinDone(row, false) => c.handle == Some(row)
    case _ => true
  }

  ghost predicate Inv(c: Conn) {
    && ProcessRowOk(c) && FinRowOk(c)
    && |c.rows| == (if HasRow(c.process) then 1 else 0) + (if OwnsRow(c.finaliser) then 1 else 0)
    && (HasRow(c.process) && OwnsRow(c.finaliser) ==> c.process.row != c.finaliser.row)
    && c.handle == (if HasRow(c.process) && !c.process.Flushing? then Some(c.process.row) else None)
    && (c.finalized <==> FinEntered(c.finaliser) || ProcessEntered(c.process))
    && !(FinEntered(c.finaliser) && ProcessEntered(c.process))
    && (c.process.Done? && !c.process.closed ==> FinEntered(c.finaliser))
    && c.bodies == (if c.finalized then 1 else 0)
    && (c.raced <==> FinOpens(c.finaliser) && !c.process.NoProcess?)
    && (!c.lost ==> c.finaliser.NotScheduled?)
    && (c.lost && (c.finaliser.NotScheduled? || c.finaliser.FinSkipped?) ==> ProcessEntered(c.process))
  }

  lemma WriteLandsKeepsInv(c: Conn)
    requires Inv(c) && c.process.Flushing?
    ensures Inv(ProcessLanded(c))
  {
    var k := c.process.next;
    assert c.pending[..k] + [c.pending[k]] == c.pending[..k + 1];
  }

  lemma LandedKeepsInv(c: Conn)
    requires Inv(c)
    ensures Inv(ProcessLanded(c))
  {
    if c.process.Flushing? {
      WriteLandsKeepsInv(c);
    } else if c.process.Creating? {
      assert c.pending[..0] == [];
    }
  }

  lemma FinWriteLandsKeepsInv(c: Conn)
    requires Inv(c) && c.finaliser.FinFlushing?
    ensures Inv(FinaliserLanded(c))
  {
    var k := c.finaliser.next;
    assert c.pending[..k] + [c.pending[k]] == c.pending[..k + 1];
  }

  lemma FinLandedKeepsInv(c: Conn)
    requires Inv(c)
    ensures Inv(FinaliserLanded(c))
  {
    if c.finaliser.FinFlushing? {
      FinWriteLandsKeepsInv(c);
    } else if c.finaliser.FinCreating? {
      assert c.pending[..0] == [];
    }
  }

  lemma StepKeepsInv(p: Policy, c: Conn, e: Event)
    requires Inv(c)
    ensures Inv(Step(p, c, e))
  {
    match e
    case Landed => LandedKeepsInv(c);
    case FinLanded => FinLandedKeepsInv(c);
    case _ =>
  }

  lemma {:induction false} RunKeepsInv(p: Policy, c: Conn, events: seq<Event>)
    requires Inv(c)
    ensures Inv(Run(p, c, events))
    decreases |events|
  {
    hide Inv, Step;
    if events != [] {
      StepKeepsInv(p, c, events[0]);
      RunKeepsInv(p, Step(p, c, events[0]), events[1..]);
    }
  }

  /** The connection is gone and no task has anything left to do. */
  predicate Quiescent(c: Conn) {
    && c.lost
    && (c.finaliser.NotScheduled? || c.finaliser.FinDone? || c.finaliser.FinSkipped?)
    && (c.process.NoProcess? || c.process.Done?)
  }

  /** Two rows for one connection: the process handler's, never closed, and the finaliser's probe. */
  predicate IsSplit(c: Conn) {
    && |c.rows| == 2 && c.process.Done? && !c.process.closed && c.process.row < 2
    && c.rows[c.process.row] == Row(false, c.pending, false, 0)
    && c.rows[1 - c.process.row] == Row(true, c.pending, true, 1)
  }

  const LEAVING: Conn := CONNECTED.(finalized := true, lost := true, process := Creating, finaliser := FinCreating,
                                    bodies := 1, raced := true)

  const WRITTEN: Conn := LEAVING.(handle := Some(0), process := Running(0), finaliser := FinClosing(1, true))

  function TwoRows(attempt: Credential, called: bool, closes: nat): seq<Row> {
    [Row(false, [attempt], false, 0), Row(true, [attempt], called, closes)]
  }

  /** The client leaves right after its channel was granted; both tasks are creating a row. */
  lemma BothCreate(p: Policy, attempt: Credential)
    requires attempt == Validate(p, CONNECTED, attempt.username, attempt.password).pending[0]
    ensures Run(p, CONNECTED, [Attempt(attempt.username, attempt.password), Start, Lose, Finalise])
      == LEAVING.(pending := [attempt])
  {
    RunInSteps(p, CONNECTED, [Attempt(attempt.username, attempt.password), Start, Lose, Finalise]);
    assert [] + [attempt] == [attempt];
  }

  lemma BothWrite(p: Policy, attempt: Credential)
    ensures Run(p, LEAVING.(pending := [attempt]), [Landed, FinLanded, Landed, FinLanded])
      == WRITTEN.(pending := [attempt], rows := TwoRows(attempt, true, 0))
  {
    var c := LEAVING.(pending := [attempt]);
    RunInSteps(p, c, [Landed, FinLanded, Landed, FinLanded]);
    var open, probe := Row(false, [], false, 0), Row(true, [], false, 0);
    assert [] + [open] == [open] && [open] + [probe] == [open, probe] && [] + [attempt] == [attempt];
    assert ProcessLanded(c) == c.(rows := [open], process := Flushing(0, 0));
    assert FinaliserLanded(ProcessLanded(c))
      == c.(rows := [open, probe], process := Flushing(0, 0), finaliser := FinFlushing(1, 0));
  }

  lemma BothEnd(p: Policy, attempt: Credential)
    ensures Run(p, WRITTEN.(pending := [attempt], rows := TwoRows(attempt, true, 0)), [FinLanded, End, End, End])
      == WRITTEN.(pending := [attempt], rows := TwoRows(attempt, true, 1),
                  process := Done(0, false), finaliser := FinDone(1, true))
  {
    RunInSteps(p, WRITTEN.(pending := [attempt], rows := TwoRows(attempt, true, 0)), [FinLanded, End, End, End]);
  }

  /** The overlap can happen. */
  lemma SplitIsReachable(p: Policy, username: string, password: string)
    ensures exists events :: Quiescent(Run(p, CONNECTED, events)) && IsSplit(Run(p, CONNECTED, events))
  {
    hide Run, Step;
    var attempt := Validate(p, CONNECTED, username, password).pending[0];
    var events := [Attempt(username, password), Start, Lose, Finalise];
    var later := [Landed, FinLanded, Landed, FinLanded];
    var last := [FinLanded, End, End, End];
    BothCreate(p, attempt);
    BothWrite(p, attempt);
    BothEnd(p, attempt);
    RunAppend(p, CONNECTED, events, later);
    RunAppend(p, CONNECTED, events + later, last);
    var end := Run(p, CONNECTED, events + later + last);
    assert Quiescent(end) && IsSplit(end);
  }

  lemma RunInSteps(p: Policy, c: Conn, es: seq<Event>)
    requires |es| == 4
    ensures Run(p, c, es) == Step(p, Step(p, Step(p, Step(p, c, es[0]), es[1]), es[2]), es[3])
  {
    hide Step;
    var c1 := Step(p, c, es[0]);
    var c2 := Step(p, c1, es[1]);
    var c3 := Step(p, c2, es[2]);
    assert es[1..][1..] == es[2..] && es[2..][1..] == es[3..] && es[3..][1..] == [];
    assert Run(p, c, es) == Run(p, c1, es[1..]);
    assert Run(p, c1, es[1..]) == Run(p, c2, es[2..]);
    assert Run(p, c2, es[2..]) == Run(p, c3, es[3..]);
    assert Run(p, c3, es[3..]) == Run(p, Step(p, c3, es[3]), []);
  }

  lemma {:induction false} RunAppend(p: Policy, c: Conn, a: seq<Event>, b: seq<Event>)
    ensures Run(p, c, a + b) == Run(p, Run(p, c, a), b)
    decreases |a|
  {
    hide Step;
    if a == [] {
      assert a + b == b;
    } else {
      assert (a + b)[1..] == a[1..] + b;
      RunAppend(p, Step(p, c, a[0]), a[1..], b);
    }
  }

  /** In every interleaving the finaliser body is entered at most once. When everything has come to
      rest, either the finaliser never overlapped an open, and there is exactly one session row, marked
      as a probe if no channel opened, closed exactly once and holding every attempt once and in order;
      or it did, and there are two rows with all attempts each, the process handler's never closed. */
  lemma EveryConnectionIsRecordedOnce(p: Policy, events: seq<Event>)
    ensures var c := Run(p, CONNECTED, events);
      && c.bodies <= 1
      && (Quiescent(c) ==>
        && c.bodies == 1
        && (!c.raced <==> |c.rows| == 1)
        && (!c.raced ==> c.rows == [Row(c.process.NoProcess?, c.pending, true, 1)])
        && (c.raced ==> IsSplit(c)))
  {
    RunKeepsInv(p, CONNECTED, events);
    var c := Run(p, CONNECTED, events);
    assert c.pending[..|c.pending|] == c.pending;
  }

  /** Which attempts are let in: those on the list, and everything from the configured number on. */
  ghost predicate AttemptsFollow(p: Policy, c: Conn) {
    forall i | 0 <= i < |c.pending| ::
      var a := c.pending[i];
      a.accepted <==> a.username + ":" + a.password in p.accepted || i + 1 >= p.acceptAfter
  }

  lemma {:induction false} AttemptsAreJudged(p: Policy, c: Conn, events: seq<Event>)
    requires AttemptsFollow(p, c)
    ensures AttemptsFollow(p, Run(p, c, events)) && c.pending <= Run(p, c, events).pending
    decreases |events|
  {
    hide ProcessLanded, FinaliserLanded, ProcessEnd, FinaliserBegins;
    if events != [] {
      OnlyAttemptsAddAttempts(p, c, events[0]);
      AttemptsAreJudged(p, Step(p, c, events[0]), events[1..]);
    }
  }

  lemma OnlyAttemptsAddAttempts(p: Policy, c: Conn, e: Event)
    ensures Step(p, c, e).pending == c.pending
      || (e.Attempt? && Step(p, c, e) == Validate(p, c, e.username, e.password))
  {
  }

  /** The passwords tried before anything else happens are recorded one by one, as they came. */
  lemma {:induction false} AttemptsAreRecorded(p: Policy, c: Conn, events: seq<Event>)
    requires c.process.NoProcess? && !c.lost && forall i | 0 <= i < |events| :: events[i].Attempt?
    ensures var c' := Run(p, c, events); var n := |c.pending|;
      && c'.process.NoProcess? && !c'.lost && |c'.pending| == n + |events| && c'.pending[..n] == c.pending
      && forall i | 0 <= i < |events| ::
        c'.pending[n + i].username == events[i].username && c'.pending[n + i].password == events[i].password
    decreases |events|
  {
    if events != [] {
      var e, n := events[0], |c.pending|;
      var c1 := Step(p, c, e);
      AttemptsAreRecorded(p, c1, events[1..]);
      var c' := Run(p, c, events);
      assert c'.pending[..n + 1][..n] == c'.pending[..n] && c'.pending[..n + 1][n] == c'.pending[n];
      forall i | 0 < i < |events|
        ensures c'.pending[n + i].username == events[i].username && c'.pending[n + i].password == events[i].password
      {
        assert events[i] == events[1..][i - 1];
      }
    }
  }

  // Nothing gets stuck

  /** What the two coroutines of a connection still have to do, until it is lost and after. */
  function Work(c: Conn): int {
    var n := |c.pending|;
    (match c.process
     case Creating => n + 4
     case Flushing(_, k) => n - k + 3
     case Running(_) => 2
     case Closing(_) => 1
     case _ => 0)
    + if !c.lost then n + 6 else
     match c.finaliser
     case Scheduled => n + 5
     case FinCreating => n + 4
     case FinFlushing(_, k) => n - k + 3
     case FinClosing(_, _) => 1
     case _ => 0
  }

  /** An event that moves one of them on: a write lands, the shell ends, the connection goes. */
  function NextEvent(c: Conn): Event {
    if c.process.Creating? || c.process.Flushing? || c.process.Closing? then Landed
    else if c.process.Running? then End
    else if !c.lost then Lose
    else if c.finaliser.Scheduled? then Finalise
    else FinLanded
  }

  lemma WorkGetsLess(p: Policy, c: Conn)
    requires Inv(c)
    ensures Work(c) >= 0 && (!Quiescent(c) ==> Work(Step(p, c, NextEvent(c))) < Work(c))
  {
  }

  /** From every state the connection can come to rest without another attempt or channel: when the shell ends,
      the client leaves and what is being written lands. */
  lemma {:induction false} EverythingFinishes(p: Policy, c: Conn) returns (events: seq<Event>)
    requires Inv(c)
    ensures Quiescent(Run(p, c, events))
    ensures forall e | e in events :: !e.Attempt? && !e.Start?
    decreases Work(c)
  {
    hide Step, Inv, Work;
    WorkGetsLess(p, c);
    if Quiescent(c) {
      events := [];
    } else {
      var e := NextEvent(c);
      StepKeepsInv(p, c, e);
      var later := EverythingFinishes(p, Step(p, c, e));
      events := [e] + later;
      assert events[1..] == later;
    }
  }

  // The connection context, changed in place

  /** The rows of one connection in the datastore. */
  class Datastore {
    var rows: seq<Row>

    constructor ()
      ensures rows == []
    {
      rows := [];
    }

    method CreateSession(probe: bool) returns (row: nat)
      modifies this
      ensures row == |old(rows)| && rows == old(rows) + [Row(probe, [], false, 0)]
    {
      row := |rows|;
      rows := rows + [Row(probe, [], false, 0)];
    }

    method WriteCredential(row: nat, credential: Credential)
      requires row < |rows|
      modifies this
      ensures rows == old(rows)[row := old(rows)[row].(credentials := old(rows)[row].credentials + [credential])]
    {
      rows := rows[row := rows[row].(credentials := rows[row].credentials + [credential])];
    }
  }

  /** What `_finalize_ctx` goes on to do after its test. */
  datatype Duty = Nothing | OpenProbe | CloseSession(row: nat)

  class ConnCtx {
    var attempts: nat
    var pending: seq<Credential>
    var handle: Option<nat>
    var finalized: bool

    ghost predicate Matches(c: Conn)
      reads this
    {
      attempts == |pending| && pending == c.pending && handle == c.handle && finalized == c.finalized
    }

    constructor ()
      ensures Matches(CONNECTED)
    {
      attempts, pending, handle, finalized := 0, [], None, false;
    }

    method ValidatePassword(p: Policy, username: string, password: string, ghost c: Conn) returns (accept: bool)
      requires Matches(c)
      modifies this
      ensures var c' := Validate(p, c, username, password);
        Matches(c') && accept == c'.pending[|c.pending|].accepted
    {
      attempts := attempts + 1;
      accept := username + ":" + password in p.accepted || attempts >= p.acceptAfter;
      pending := pending + [Credential(username, password, accept)];
    }

    /** The first part of `_finalize_ctx`, as the scheduled task runs it. */
    method EnterFinaliser(ghost c: Conn) returns (duty: Duty)
      requires Matches(c) && Inv(c)
      modifies this
      ensures Matches(FinaliserBegins(c))
      ensures duty == match FinaliserBegins(c).finaliser
        case FinCreating => OpenProbe
        case FinClosing(row, _) => CloseSession(row)
        case _ => Nothing
    {
      if finalized {
        return Nothing;
      }
      finalized := true;
      duty := if handle.None? then OpenProbe else CloseSession(handle.value);
    }

    /** `_open_session` of the process handler up to its next await, once the row is there; and once
        credential `k` is written. Each is one step, whatever other tasks did meanwhile. The last one
        leaves the handle in the context. */
    method RowCreated(db: Datastore, ghost c: Conn) returns (row: nat)
      requires Matches(c) && c.process.Creating? && db.rows == c.rows
      modifies this, db
      ensures row == |c.rows| && Matches(ProcessLanded(c)) && db.rows == ProcessLanded(c).rows
    {
      row := db.CreateSession(false);
      if pending == [] {
        handle := Some(row);
      }
    }

    method CredentialWritten(db: Datastore, row: nat, k: nat, ghost c: Conn)
      requires Matches(c) && c.process == Flushing(row, k) && k < |pending| && row < |db.rows| && db.rows == c.rows
      modifies this, db
      ensures Matches(ProcessLanded(c)) && db.rows == ProcessLanded(c).rows
    {
      db.WriteCredential(row, pending[k]);
      if k + 1 == |pending| {
        handle := Some(row);
      }
    }

    /** All of it when nothing comes between: a new row with every attempt. */
    method OpenSession(db: Datastore, p: Policy, ghost c: Conn) returns (ghost c': Conn)
      requires Matches(c) && c.process.Creating? && db.rows == c.rows
      modifies this, db
      ensures c' == Run(p, c, seq(|pending| + 1, i => Landed))
      ensures Matches(c') && db.rows == c'.rows && c'.process == Running(|c.rows|)
      ensures db.rows == c.rows + [Row(false, c.pending, false, 0)]
    {
      hide Run, Step, Inv, ProcessLanded, Opening;
      var row := RowCreated(db, c);
      c' := ProcessLanded(c);
      RunLanded(p, c, 0);
      OpeningBegins(c);
      for k := 0 to |pending|
        invariant Matches(c') && pending == c.pending && row == |c.rows| && db.rows == c'.rows
        invariant c' == Opening(c, k) && c' == Run(p, c, seq(k + 1, i => Landed))
      {
        OpeningStep(c, k);
        CredentialWritten(db, row, k, c');
        RunLanded(p, c, k + 1);
        c' := ProcessLanded(c');
      }
      OpeningEnds(c);
    }
  }

  /** How far an undisturbed open has come: the row and `k` of its credentials are written. */
  function Opening(c: Conn, k: nat): (c': Conn)
    requires k <= |c.pending|
    ensures c'.pending == c.pending
  {
    ProcessFlush(c.(rows := c.rows + [Row(false, c.pending[..k], false, 0)]), |c.rows|, k)
  }

  lemma OpeningBegins(c: Conn)
    requires c.process.Creating?
    ensures ProcessLanded(c) == Opening(c, 0)
  {
    assert c.pending[..0] == [];
  }

  lemma OpeningStep(c: Conn, k: nat)
    requires k < |c.pending|
    ensures ProcessLanded(Opening(c, k)) == Opening(c, k + 1)
    ensures Opening(c, k).process == Flushing(|c.rows|, k) && |Opening(c, k).rows| == |c.rows| + 1
  {
    assert c.pending[..k + 1] == c.pending[..k] + [c.pending[k]];
    var now, next := Row(false, c.pending[..k], false, 0), Row(false, c.pending[..k + 1], false, 0);
    assert (c.rows + [now])[|c.rows| := next] == c.rows + [next];
  }

  lemma OpeningEnds(c: Conn)
    ensures var c' := Opening(c, |c.pending|);
      c'.process == Running(|c.rows|) && c'.rows == c.rows + [Row(false, c.pending, false, 0)]
  {
    assert c.pending[..|c.pending|] == c.pending;
  }

  lemma RunLanded(p: Policy, c: Conn, n: nat)
    ensures Run(p, c, seq(n + 1, i => Landed)) == ProcessLanded(Run(p, c, seq(n, i => Landed)))
    ensures Run(p, c, seq(0, i => Landed)) == c
  {
    hide ProcessLanded;
    var before := seq(n, i => Landed);
    assert seq(n + 1, i => Landed) == before + [Landed];
    RunAppend(p, c, before, [Landed]);
    var d := Run(p, c, before);
    assert [Landed][1..] == [];
    assert Run(p, d, [Landed]) == Run(p, Step(p, d, Landed), []);
  }
}
