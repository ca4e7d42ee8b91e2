/** The local detector's scheduler as a state machine (client/apps/rtc_console/local_yolo.cpp).
    Every method and each of the worker's critical sections holds one mutex and is one step;
    detection runs between two worker steps, without the mutex. The log records what happened;
    times are microseconds. */
module YoloScheduler {
  import opened Options

  const MAX_PENDING := 32
  const MAX_SIDE := 16384

  type Key = string

  datatype Frame = Frame(key: Key, source: string, width: int, height: int, pixelBytes: nat, received: int)

  /** An accepted frame, numbered in order of acceptance. */
  datatype Ticket = Ticket(id: nat, frame: Frame)

  /** The worker thread: none, at its wait, or detecting outside the mutex on a frame taken
      under some generation. */
  datatype Worker = NoWorker | Idle | Busy(ticket: Ticket, generation: nat)

  datatype Obs =
    | Started(period: nat)
    | Stopped
    | Cleared
    | Accepted(id: nat, key: Key)
    | Taken(id: nat, key: Key, at: int)
    | Succeeded(id: nat)                // the result callback ran
    | Failed(id: nat)                   // the failure callback ran

  datatype State = State(pending: map<Key, Ticket>, next: map<Key, int>, generation: nat, stopped: bool,
                         period: nat, worker: Worker, accepted: nat, log: seq<Obs>)

  const INITIAL := State(map[], map[], 0, true, 0, NoWorker, 0, [])

  datatype Event =
    | StartWorker(maxFps: int)  // Start, once its Stop has joined the old worker and the detector was made
    | Stop                      // raises the flag and clears; the join ends with WorkerExit
    | WorkerExit
    | Submit(frame: Frame)
    | Clear
    | Take(key: Key, now: int)  // the worker selects this key at this time
    | Finish(succeeded: bool, hasFailure: bool)

  predicate Acceptable(f: Frame) {
    && 0 < f.width <= MAX_SIDE && 0 < f.height <= MAX_SIDE
    && f.pixelBytes == f.width * f.height * 4
  }

  /** `operator[]` makes a missing entry the clock's epoch. */
  function NextTime(next: map<Key, int>, key: Key): int {
    if key in next then next[key] else 0
  }

  predicate Due(s: State, key: Key, now: int) {
    key in s.pending && NextTime(s.next, key) <= now
  }

  predicate Enabled(s: State, e: Event) {
    match e
    case StartWorker(maxFps) => s.worker == NoWorker && s.stopped && 1 <= maxFps <= 240
    case Stop => true
    case WorkerExit => s.worker == Idle && s.stopped
    case Submit(_) => true
    case Clear => true
    case Take(key, now) => s.worker == Idle && !s.stopped && Due(s, key, now) && IsOldestDue(s, key, now)
    case Finish(_, _) => s.worker.Busy?
  }

  /** No due key has a frame received earlier. */
  predicate IsOldestDue(s: State, key: Key, now: int)
    requires key in s.pending
  {
    forall k :: k in s.pending && Due(s, k, now) ==> s.pending[key].frame.received <= s.pending[k].frame.received
  }

  function Step(s: State, e: Event): State
    requires Enabled(s, e)
  {
    match e
    case StartWorker(maxFps) =>
      s.(stopped := false, worker := Idle, next := map[], period := 1000000 / maxFps,
         log := s.log + [Started(1000000 / maxFps)])
    case Stop => s.(stopped := true, pending := map[], log := s.log + [Stopped])
    case WorkerExit => s.(worker := NoWorker)
    case Submit(frame) =>
      if !Acceptable(frame) || s.stopped || (frame.key !in s.pending && |s.pending| >= MAX_PENDING) then s
      else s.(pending := s.pending[frame.key := Ticket(s.accepted, frame)], accepted := s.accepted + 1,
              log := s.log + [Accepted(s.accepted, frame.key)])
    case Clear => s.(generation := s.generation + 1, pending := map[], log := s.log + [Cleared])
    case Take(key, now) =>
      var ticket := s.pending[key];
      s.(pending := s.pending - {key}, next := s.next[key := now + s.period],
         worker := Busy(ticket, s.generation), log := s.log + [Taken(ticket.id, key, now)])
    case Finish(succeeded, hasFailure) =>
      var t := s.(worker := Idle);
      if !s.stopped && s.worker.generation == s.generation && (succeeded || hasFailure)
      then t.(log := s.log + [if succeeded then Succeeded(s.worker.ticket.id) else Failed(s.worker.ticket.id)]) else t
  }

  /** A step that is not enabled does not happen. */
  function Run(events: seq<Event>): State {
    if |events| == 0 then INITIAL
    else
      var s, e := Run(events[..|events| - 1]), events[|events| - 1];
      if Enabled(s, e) then Step(s, e) else s
  }

  // ----- What a log tells -----

  /** The frame waiting under a key: the newest accepted one, unless it was taken or dropped since. */
  function Waiting(log: seq<Obs>, key: Key): Option<nat> {
    if |log| == 0 then None
    else
      match log[|log| - 1]
      case Stopped => None
      case Cleared => None
      case Accepted(id, k) => if k == key then Some(id) else Waiting(log[..|log| - 1], key)
      case Taken(_, k, _) => if k == key then None else Waiting(log[..|log| - 1], key)
      case _ => Waiting(log[..|log| - 1], key)
  }

  /** Frame id was accepted and neither Clear nor Stop came since. */
  predicate Live(log: seq<Obs>, id: nat) {
    if |log| == 0 then false
    else
      match log[|log| - 1]
      case Stopped => false
      case Cleared => false
      case Accepted(i, _) => i == id || Live(log[..|log| - 1], id)
      case _ => Live(log[..|log| - 1], id)
  }

  /** When the current worker last took a frame of this key. */
  function LastTaken(log: seq<Obs>, key: Key): Option<int> {
    if |log| == 0 then None
    else
      match log[|log| - 1]
      case Started(_) => None
      case Taken(_, k, at) => if k == key then Some(at) else LastTaken(log[..|log| - 1], key)
      case _ => LastTaken(log[..|log| - 1], key)
  }

  function CurrentPeriod(log: seq<Obs>): nat {
    if |log| == 0 then 0
    else
      match log[|log| - 1]
      case Started(period) => period
      case _ => CurrentPeriod(log[..|log| - 1])
  }

  function AcceptedCount(log: seq<Obs>): nat {
    if |log| == 0 then 0 else AcceptedCount(log[..|log| - 1]) + if log[|log| - 1].Accepted? then 1 else 0
  }

  predicate WasTaken(log: seq<Obs>, id: nat) {
    exists i :: 0 <= i < |log| && log[i].Taken? && log[i].id == id
  }

  predicate IsReport(o: Obs) { o.Succeeded? || o.Failed? }

  predicate WasReported(log: seq<Obs>, id: nat) {
    Succeeded(id) in log || Failed(id) in log
  }

  /** What each entry promises, given the log before it. */
  predicate EntryOk(prior: seq<Obs>, o: Obs) {
    match o
    case Accepted(id, _) => id == AcceptedCount(prior)
    case Taken(id, key, at) =>
      && Waiting(prior, key) == Some(id) && !WasTaken(prior, id)
      && (LastTaken(prior, key).Some? ==> at >= LastTaken(prior, key).value + CurrentPeriod(prior))
    case Succeeded(id) => Live(prior, id) && WasTaken(prior, id) && !WasReported(prior, id)
    case Failed(id) => Live(prior, id) && WasTaken(prior, id) && !WasReported(prior, id)
    case _ => true
  }

  predicate LogOk(log: seq<Obs>) {
    forall j :: 0 <= j < |log| ==> EntryOk(log[..j], log[j])
  }

  // ----- The invariant -----

  ghost predicate TicketOk(s: State, k: Key, t: Ticket) {
    && t.frame.key == k && t.id < s.accepted
    && Live(s.log, t.id) && !WasTaken(s.log, t.id) && !WasReported(s.log, t.id)
  }

  ghost predicate DistinctIds(pending: map<Key, Ticket>) {
    forall k, k' :: k in pending && k' in pending && pending[k].id == pending[k'].id ==> k == k'
  }

  ghost predicate TicketsInv(s: State) {
    && |s.pending| <= MAX_PENDING
    && (forall k :: k in s.pending ==> TicketOk(s, k, s.pending[k]))
    && DistinctIds(s.pending)
  }

  /** The pending frames are those the log shows as waiting. */
  ghost predicate WaitingInv(s: State) {
    forall k :: Waiting(s.log, k) == if k in s.pending then Some(s.pending[k].id) else None
  }

  ghost predicate WorkerInv(s: State) {
    && (s.worker == NoWorker ==> s.stopped)
    && (s.worker.Busy? ==>
          && s.worker.generation <= s.generation
          && (s.worker.generation == s.generation && !s.stopped <==> Live(s.log, s.worker.ticket.id))
          && WasTaken(s.log, s.worker.ticket.id) && !WasReported(s.log, s.worker.ticket.id))
  }

  /** A key the current worker took a frame of is barred until a period later. */
  ghost predicate ClockInv(s: State) {
    && CurrentPeriod(s.log) == s.period
    && (s.worker != NoWorker ==> forall k ::
          if k in s.next then LastTaken(s.log, k) == Some(s.next[k] - s.period) else LastTaken(s.log, k) == None)
  }

  ghost predicate LogInv(s: State) {
    && LogOk(s.log) && s.accepted == AcceptedCount(s.log)
    && (forall id: nat :: WasTaken(s.log, id) || WasReported(s.log, id) ==> id < s.accepted)
  }

  ghost predicate Inv(s: State) {
    LogInv(s) && TicketsInv(s) && WaitingInv(s) && WorkerInv(s) && ClockInv(s)
  }

  // ----- One step -----

  /** What one more entry does to each reading of the log. */
  lemma OneMore(log: seq<Obs>, o: Obs)
    ensures (log + [o])[..|log|] == log && (log + [o])[|log|] == o
    ensures forall id: nat :: WasTaken(log + [o], id) <==> WasTaken(log, id) || (o.Taken? && o.id == id)
    ensures forall id: nat :: WasReported(log + [o], id) <==> WasReported(log, id) || (IsReport(o) && o.id == id)
    ensures LogOk(log) && EntryOk(log, o) ==> LogOk(log + [o])
  {
    var more := log + [o];
    assert more[..|log|] == log;
    forall id: nat ensures WasTaken(more, id) <==> WasTaken(log, id) || (o.Taken? && o.id == id) {
      if WasTaken(log, id) {
        var i :| 0 <= i < |log| && log[i].Taken? && log[i].id == id;
        assert more[i] == log[i];
      }
      if o.Taken? && o.id == id { assert more[|log|] == o; }
    }
    if LogOk(log) && EntryOk(log, o) {
      forall j | 0 <= j < |more| ensures EntryOk(more[..j], more[j]) {
        assert j < |log| ==> more[..j] == log[..j];
      }
    }
  }

  lemma StartKeepsInv(s: State, maxFps: int)
    requires Inv(s) && Enabled(s, StartWorker(maxFps))
    ensures Inv(Step(s, StartWorker(maxFps)))
  {
    hide LogOk, WasTaken, WasReported, Waiting, Live, LastTaken, CurrentPeriod, AcceptedCount;
    var period: nat := 1000000 / maxFps;
    OneMore(s.log, Started(period));
    StartReads(s.log, period);
  }

  lemma StartReads(log: seq<Obs>, period: nat)
    ensures var more := log + [Started(period)];
      && (forall k :: Waiting(more, k) == Waiting(log, k) && LastTaken(more, k) == None)
      && (forall id: nat :: Live(more, id) == Live(log, id))
      && CurrentPeriod(more) == period && AcceptedCount(more) == AcceptedCount(log)
  {
    assert (log + [Started(period)])[..|log|] == log;
  }

  lemma StopOrClearKeepsInv(s: State, e: Event)
    requires Inv(s) && (e == Stop || e == Clear)
    ensures Inv(Step(s, e))
  {
    hide LogOk, WasTaken, WasReported, Waiting, Live, LastTaken, CurrentPeriod, AcceptedCount, TicketOk;
    var o := if e == Stop then Stopped else Cleared;
    OneMore(s.log, o);
    StopReads(s.log, o);
  }

  lemma StopReads(log: seq<Obs>, o: Obs)
    requires o == Stopped || o == Cleared
    ensures var more := log + [o];
      && (forall k :: Waiting(more, k) == None && LastTaken(more, k) == LastTaken(log, k))
      && (forall id: nat :: !Live(more, id))
      && CurrentPeriod(more) == CurrentPeriod(log) && AcceptedCount(more) == AcceptedCount(log)
  {
    assert (log + [o])[..|log|] == log;
  }

  ghost predicate Accepts(s: State, f: Frame) {
    Acceptable(f) && !s.stopped && (f.key in s.pending || |s.pending| < MAX_PENDING)
  }

  lemma NewestIsDistinct(pending: map<Key, Ticket>, key: Key, t: Ticket)
    requires DistinctIds(pending) && forall k :: k in pending ==> pending[k].id < t.id
    ensures DistinctIds(pending[key := t]) && |pending[key := t]| <= |pending| + if key in pending then 0 else 1
  {
    assert pending[key := t].Keys == pending.Keys + {key};
  }

  lemma SubmitKeepsTickets(s: State, frame: Frame)
    requires Inv(s) && Accepts(s, frame)
    ensures TicketsInv(Step(s, Submit(frame)))
  {
    hide LogOk, ClockInv, WorkerInv, WaitingInv, AcceptedCount, Acceptable, DistinctIds;
    OneMore(s.log, Accepted(s.accepted, frame.key));
    hide WasTaken, WasReported;
    var s' := Step(s, Submit(frame));
    forall k | k in s'.pending ensures TicketOk(s', k, s'.pending[k]) {
      assert k != frame.key ==> TicketOk(s, k, s.pending[k]);
    }
    forall k | k in s.pending ensures s.pending[k].id < s.accepted {
      assert TicketOk(s, k, s.pending[k]);
    }
    NewestIsDistinct(s.pending, frame.key, Ticket(s.accepted, frame));
  }

  lemma SubmitKeepsWaiting(s: State, frame: Frame)
    requires Inv(s) && Accepts(s, frame)
    ensures WaitingInv(Step(s, Submit(frame)))
  {
    hide LogInv, ClockInv, WorkerInv, TicketsInv, Acceptable;
    OneMore(s.log, Accepted(s.accepted, frame.key));
    hide WasTaken, WasReported;
  }

  lemma SubmitKeepsWorker(s: State, frame: Frame)
    requires Inv(s) && Accepts(s, frame)
    ensures WorkerInv(Step(s, Submit(frame))) && ClockInv(Step(s, Submit(frame)))
  {
    hide TicketsInv, WaitingInv, Acceptable, LogOk, WasTaken, WasReported, Live, LastTaken, CurrentPeriod, AcceptedCount;
    OneMore(s.log, Accepted(s.accepted, frame.key));
    AcceptReads(s.log, s.accepted, frame.key);
  }

  lemma AcceptReads(log: seq<Obs>, id: nat, key: Key)
    ensures var more := log + [Accepted(id, key)];
      && (forall k :: LastTaken(more, k) == LastTaken(log, k))
      && (forall i: nat :: Live(more, i) <==> i == id || Live(log, i))
      && CurrentPeriod(more) == CurrentPeriod(log)
  {
    assert (log + [Accepted(id, key)])[..|log|] == log;
  }

  lemma SubmitKeepsLog(s: State, frame: Frame)
    requires Inv(s) && Accepts(s, frame)
    ensures LogInv(Step(s, Submit(frame)))
  {
    hide ClockInv, WorkerInv, TicketsInv, WaitingInv, LogOk, Acceptable;
    OneMore(s.log, Accepted(s.accepted, frame.key));
    hide WasTaken, WasReported;
  }

  lemma SubmitKeepsInv(s: State, frame: Frame)
    requires Inv(s)
    ensures Inv(Step(s, Submit(frame)))
  {
    if Accepts(s, frame) {
      hide ClockInv, WorkerInv, TicketsInv, WaitingInv, LogInv;
      SubmitKeepsTickets(s, frame);
      SubmitKeepsWaiting(s, frame);
      SubmitKeepsWorker(s, frame);
      SubmitKeepsLog(s, frame);
    } else {
      assert Step(s, Submit(frame)) == s;
    }
  }

  lemma TakeKeepsTickets(s: State, key: Key, now: int)
    requires Inv(s) && Enabled(s, Take(key, now))
    ensures TicketsInv(Step(s, Take(key, now))) && TicketOk(s, key, s.pending[key])
  {
    hide LogOk, ClockInv, WorkerInv, WaitingInv, LogInv, IsOldestDue, TicketOk, DistinctIds;
    var s' := Step(s, Take(key, now));
    forall k | k in s'.pending ensures TicketOk(s', k, s'.pending[k]) {
      assert TicketOk(s, k, s.pending[k]);
      OthersKeepTickets(s, key, now, k);
    }
    DistinctWithout(s.pending, key);
    assert TicketOk(s, key, s.pending[key]);
  }

  lemma DistinctWithout(pending: map<Key, Ticket>, key: Key)
    requires DistinctIds(pending)
    ensures DistinctIds(pending - {key}) && |pending - {key}| <= |pending|
  {
    assert (pending - {key}).Keys == pending.Keys - {key};
  }

  /** Another key's frame was not the one taken. */
  lemma OthersKeepTickets(s: State, key: Key, now: int, k: Key)
    requires Enabled(s, Take(key, now)) && DistinctIds(s.pending) && k in s.pending && k != key
    requires TicketOk(s, k, s.pending[k])
    ensures TicketOk(Step(s, Take(key, now)), k, s.pending[k])
  {
    hide IsOldestDue, WasTaken, WasReported, Live, Waiting, AcceptedCount;
    OneMore(s.log, Taken(s.pending[key].id, key, now));
    TakenReads(s.log, s.pending[key].id, key, now);
  }

  lemma TakeKeepsWaiting(s: State, key: Key, now: int)
    requires Inv(s) && Enabled(s, Take(key, now))
    ensures WaitingInv(Step(s, Take(key, now)))
  {
    hide LogInv, ClockInv, WorkerInv, TicketsInv, IsOldestDue, Waiting, WasTaken, WasReported;
    var t := s.pending[key];
    var s' := Step(s, Take(key, now));
    forall k ensures Waiting(s'.log, k) == if k in s'.pending then Some(s'.pending[k].id) else None {
      assert Waiting(s.log, k) == if k in s.pending then Some(s.pending[k].id) else None;
      TakenReads(s.log, t.id, key, now);
    }
  }

  lemma TakenReads(log: seq<Obs>, id: nat, key: Key, now: int)
    ensures var more := log + [Taken(id, key, now)];
      && (forall k :: Waiting(more, k) == if k == key then None else Waiting(log, k))
      && (forall i: nat :: Live(more, i) == Live(log, i))
      && AcceptedCount(more) == AcceptedCount(log)
  {
    assert (log + [Taken(id, key, now)])[..|log|] == log;
  }

  lemma TakeKeepsWorker(s: State, key: Key, now: int)
    requires Inv(s) && Enabled(s, Take(key, now)) && TicketOk(s, key, s.pending[key])
    ensures WorkerInv(Step(s, Take(key, now))) && ClockInv(Step(s, Take(key, now)))
  {
    hide LogInv, TicketsInv, WaitingInv, IsOldestDue;
    OneMore(s.log, Taken(s.pending[key].id, key, now));
    hide WasTaken, WasReported;
  }

  /** The selected frame is the waiting one of its key, and its key was due. */
  lemma TakenIsOk(s: State, key: Key, now: int)
    requires WaitingInv(s) && ClockInv(s)
    requires Enabled(s, Take(key, now)) && TicketOk(s, key, s.pending[key])
    ensures EntryOk(s.log, Taken(s.pending[key].id, key, now))
  {
    hide WasTaken, WasReported, Waiting, LastTaken, Live, CurrentPeriod, IsOldestDue;
    assert Waiting(s.log, key) == Some(s.pending[key].id);
  }

  lemma TakeKeepsLog(s: State, key: Key, now: int)
    requires Inv(s) && Enabled(s, Take(key, now)) && TicketOk(s, key, s.pending[key])
    ensures LogInv(Step(s, Take(key, now)))
  {
    hide TicketsInv, WorkerInv, WaitingInv, ClockInv, LogOk, EntryOk, IsOldestDue, WasTaken,
      WasReported, AcceptedCount, Live;
    var id := s.pending[key].id;
    OneMore(s.log, Taken(id, key, now));
    TakenIsOk(s, key, now);
    TakenReads(s.log, id, key, now);
  }

  lemma TakeKeepsInv(s: State, key: Key, now: int)
    requires Inv(s) && Enabled(s, Take(key, now))
    ensures Inv(Step(s, Take(key, now)))
  {
    hide ClockInv, WorkerInv, TicketsInv, WaitingInv, LogInv, TicketOk;
    TakeKeepsTickets(s, key, now);
    TakeKeepsWaiting(s, key, now);
    TakeKeepsWorker(s, key, now);
    TakeKeepsLog(s, key, now);
  }

  lemma FinishKeepsInv(s: State, succeeded: bool, hasFailure: bool)
    requires Inv(s) && Enabled(s, Finish(succeeded, hasFailure))
    ensures Inv(Step(s, Finish(succeeded, hasFailure)))
  {
    hide LogOk, WasTaken, WasReported, Waiting, Live, LastTaken, CurrentPeriod, AcceptedCount, DistinctIds, TicketOk;
    var s' := Step(s, Finish(succeeded, hasFailure));
    var report := if succeeded then Succeeded(s.worker.ticket.id) else Failed(s.worker.ticket.id);
    OneMore(s.log, report);
    ReportReads(s.log, report);
    forall k | k in s'.pending ensures TicketOk(s', k, s'.pending[k]) {
      assert TicketOk(s, k, s.pending[k]);
      ReportKeepsTicket(s, s', k, s.pending[k]);
    }
  }

  lemma ReportReads(log: seq<Obs>, report: Obs)
    requires IsReport(report)
    ensures var more := log + [report];
      && (forall k :: Waiting(more, k) == Waiting(log, k) && LastTaken(more, k) == LastTaken(log, k))
      && (forall i: nat :: Live(more, i) == Live(log, i))
      && CurrentPeriod(more) == CurrentPeriod(log) && AcceptedCount(more) == AcceptedCount(log)
  {
    assert (log + [report])[..|log|] == log;
  }

  /** The reported frame was taken, so it is not a pending one. */
  lemma ReportKeepsTicket(s: State, s': State, k: Key, t: Ticket)
    requires TicketOk(s, k, t) && s.worker.Busy? && WasTaken(s.log, s.worker.ticket.id)
    requires s'.accepted == s.accepted
    requires s'.log == s.log || s'.log == s.log + [Succeeded(s.worker.ticket.id)]
             || s'.log == s.log + [Failed(s.worker.ticket.id)]
    ensures TicketOk(s', k, t)
  {
    hide WasTaken, WasReported, Live;
    OneMore(s.log, Succeeded(s.worker.ticket.id));
    OneMore(s.log, Failed(s.worker.ticket.id));
    ReportReads(s.log, Succeeded(s.worker.ticket.id));
    ReportReads(s.log, Failed(s.worker.ticket.id));
  }

  lemma ExitKeepsInv(s: State)
    requires Inv(s) && Enabled(s, WorkerExit)
    ensures Inv(Step(s, WorkerExit))
  {
    hide LogOk, WasTaken, WasReported;
    var s' := Step(s, WorkerExit);
    forall k | k in s'.pending ensures TicketOk(s', k, s'.pending[k]) {
      assert TicketOk(s, k, s.pending[k]);
    }
  }

  lemma StepKeepsInv(s: State, e: Event)
    requires Inv(s) && Enabled(s, e)
    ensures Inv(Step(s, e))
  {
    hide Inv, Step, Enabled;
    match e
    case StartWorker(maxFps) => StartKeepsInv(s, maxFps);
    case WorkerExit => ExitKeepsInv(s);
    case Submit(frame) => SubmitKeepsInv(s, frame);
    case Take(key, now) => TakeKeepsInv(s, key, now);
    case Finish(succeeded, hasFailure) => FinishKeepsInv(s, succeeded, hasFailure);
    case Stop => StopOrClearKeepsInv(s, e);
    case Clear => StopOrClearKeepsInv(s, e);
  }

  lemma {:induction false} RunKeepsInv(events: seq<Event>)
    ensures Inv(Run(events))
  {
    hide Inv;
    if |events| > 0 {
      RunKeepsInv(events[..|events| - 1]);
      var s, e := Run(events[..|events| - 1]), events[|events| - 1];
      if Enabled(s, e) { StepKeepsInv(s, e); }
    } else {
      InitialInv();
    }
  }

  lemma InitialInv()
    ensures Inv(INITIAL)
  {
  }

  // ----- What every run's log shows -----

  lemma {:induction false} AcceptedBefore(log: seq<Obs>, i: nat)
    requires i < |log| && log[i].Accepted? && LogOk(log)
    ensures log[i].id < AcceptedCount(log)
  {
    if i < |log| - 1 {
      PrefixOk(log, |log| - 1);
      AcceptedBefore(log[..|log| - 1], i);
    } else {
      assert EntryOk(log[..i], log[i]);
    }
  }

  lemma PrefixOk(log: seq<Obs>, j: nat)
    requires LogOk(log) && j <= |log|
    ensures LogOk(log[..j])
  {
    forall i | 0 <= i < j ensures EntryOk(log[..j][..i], log[..j][i]) {
      assert log[..j][..i] == log[..i];
    }
  }

  /** Numbers are given out once. */
  lemma AcceptedOnce(log: seq<Obs>, i: nat, j: nat)
    requires LogOk(log) && i < j < |log| && log[i].Accepted? && log[j].Accepted?
    ensures log[i].id != log[j].id
  {
    assert EntryOk(log[..j], log[j]);
    PrefixOk(log, j);
    AcceptedBefore(log[..j], i);
  }

  lemma {:induction false} LiveMeans(log: seq<Obs>, id: nat) returns (a: nat)
    requires Live(log, id)
    ensures a < |log| && log[a].Accepted? && log[a].id == id
    ensures forall b :: a < b < |log| ==> log[b] != Cleared && log[b] != Stopped
  {
    var last := log[|log| - 1];
    if last.Accepted? && last.id == id {
      a := |log| - 1;
    } else {
      a := LiveMeans(log[..|log| - 1], id);
    }
  }

  /** No result or failure callback runs for a frame submitted before a Clear or Stop that has
      returned. */
  lemma NoStaleReport(events: seq<Event>, i: nat, k: nat, j: nat)
    requires var log := Run(events).log;
      i < k < j < |log| && log[i].Accepted? && (log[k] == Cleared || log[k] == Stopped) && IsReport(log[j])
    ensures Run(events).log[j].id != Run(events).log[i].id
  {
    RunKeepsInv(events);
    var log := Run(events).log;
    assert EntryOk(log[..j], log[j]);
    var a := LiveMeans(log[..j], log[j].id);
    assert log[a] == log[..j][a] && log[k] == log[..j][k];
    assert a >= k;
    AcceptedOnce(log, i, a);
  }

  lemma {:induction false} LiveWhen(log: seq<Obs>, id: nat, a: nat)
    requires a < |log| && log[a].Accepted? && log[a].id == id
    requires forall b :: a < b < |log| ==> log[b] != Cleared && log[b] != Stopped
    ensures Live(log, id)
    decreases |log|
  {
    if a < |log| - 1 {
      LiveWhen(log[..|log| - 1], id, a);
    }
  }

  /** A frame that finishes detection is always reported while no Clear or Stop came since it was
      accepted: to the result callback on success, to the failure callback, if there is one, else. */
  lemma FinishReports(events: seq<Event>, succeeded: bool, hasFailure: bool, a: nat)
    requires var s := Run(events);
      && s.worker.Busy?
      && a < |s.log| && s.log[a].Accepted? && s.log[a].id == s.worker.ticket.id
    ensures var s := Run(events);
      var t, id := Step(s, Finish(succeeded, hasFailure)), s.worker.ticket.id;
      && t.worker == Idle && t.pending == s.pending && t.next == s.next
      && t.log == s.log + (if exists b :: a < b < |s.log| && (s.log[b] == Cleared || s.log[b] == Stopped) then []
                           else if succeeded then [Succeeded(id)]
                           else if hasFailure then [Failed(id)]
                           else [])
  {
    hide Live, LogOk, WasTaken, WasReported, TicketsInv, WaitingInv, ClockInv, Run, AcceptedCount;
    RunKeepsInv(events);
    var s := Run(events);
    LiveIff(s.log, s.worker.ticket.id, a);
  }

  lemma LiveIff(log: seq<Obs>, id: nat, a: nat)
    requires LogOk(log) && a < |log| && log[a].Accepted? && log[a].id == id
    ensures Live(log, id) <==> !exists b :: a < b < |log| && (log[b] == Cleared || log[b] == Stopped)
  {
    hide LogOk, Live;
    if forall b :: a < b < |log| ==> log[b] != Cleared && log[b] != Stopped {
      LiveWhen(log, id, a);
    } else if Live(log, id) {
      var c := LiveMeans(log, id);
      OnlyAcceptance(log, a, c);
    }
  }

  lemma OnlyAcceptance(log: seq<Obs>, a: nat, c: nat)
    requires LogOk(log) && a < |log| && c < |log| && log[a].Accepted? && log[c].Accepted? && log[a].id == log[c].id
    ensures a == c
  {
    if a < c { AcceptedOnce(log, a, c); }
    if c < a { AcceptedOnce(log, c, a); }
  }

  /** A frame is accepted exactly when its sides are 1 to 16384 with four bytes a pixel, the worker runs
      and its key is pending already or fewer than 32 keys are; it replaces the older one. */
  lemma SubmitAccepts(s: State, frame: Frame)
    ensures var t := Step(s, Submit(frame));
      if && 1 <= frame.width <= 16384 && 1 <= frame.height <= 16384
         && frame.pixelBytes == 4 * frame.width * frame.height
         && !s.stopped && (frame.key in s.pending || |s.pending| < 32)
      then
        t == s.(pending := s.pending[frame.key := Ticket(s.accepted, frame)], accepted := s.accepted + 1,
                log := s.log + [Accepted(s.accepted, frame.key)])
      else t == s
  {
    assert frame.width * frame.height * 4 == 4 * frame.width * frame.height;
  }

  /** In terms of the log, a pending key is due exactly when its worker took no frame of it, or took the
      last at least a period before. */
  lemma DueIff(events: seq<Event>, key: Key, now: int)
    requires Run(events).worker != NoWorker
    ensures var s := Run(events);
      Due(s, key, now) <==>
        && key in s.pending
        && match LastTaken(s.log, key)
           case None => 0 <= now
           case Some(at) => at + s.period <= now
  {
    RunKeepsInv(events);
    hide LogInv, TicketsInv, WaitingInv, WorkerInv, LastTaken;
  }

  /** A selection takes a due frame than which no due frame was received earlier, and bars its key. */
  lemma TakesOldest(s: State, key: Key, now: int)
    requires Enabled(s, Take(key, now))
    ensures s.worker == Idle && !s.stopped && Due(s, key, now)
    ensures forall k :: Due(s, k, now) ==> s.pending[key].frame.received <= s.pending[k].frame.received
    ensures var t := Step(s, Take(key, now));
      && t.pending.Keys == s.pending.Keys - {key} && (forall k :: k in t.pending ==> t.pending[k] == s.pending[k])
      && t.worker.Busy? && t.worker.ticket == s.pending[key]
      && NextTime(t.next, key) == now + s.period
      && (forall k :: k != key ==> NextTime(t.next, k) == NextTime(s.next, k))
  {
  }

  /** Clear and Stop drop what is pending; only Stop ends the worker's loop. */
  lemma ClearAndStop(s: State)
    ensures Step(s, Clear).pending == map[] && Step(s, Clear).stopped == s.stopped
    ensures Step(s, Clear).worker == s.worker && Step(s, Clear).next == s.next
    ensures Step(s, Stop).pending == map[] && Step(s, Stop).stopped && Step(s, Stop).worker == s.worker
  {
  }

  lemma TakenStaysTaken(log: seq<Obs>, i: nat, j: nat, id: nat)
    requires i <= j <= |log| && WasTaken(log[..i], id)
    ensures WasTaken(log[..j], id)
  {
    var t :| 0 <= t < |log[..i]| && log[..i][t].Taken? && log[..i][t].id == id;
    assert log[..j][t] == log[..i][t];
  }

  /** Each accepted frame is taken at most once and reported at most once, after it was taken. */
  lemma ProcessedOnce(events: seq<Event>, i: nat, j: nat)
    requires i < j < |Run(events).log|
    ensures var log := Run(events).log;
      && (log[i].Taken? && log[j].Taken? ==> log[i].id != log[j].id)
      && (IsReport(log[i]) && IsReport(log[j]) ==> log[i].id != log[j].id)
      && (IsReport(log[i]) && log[j].Taken? ==> log[i].id != log[j].id)
  {
    RunKeepsInv(events);
    var log := Run(events).log;
    assert EntryOk(log[..j], log[j]) && EntryOk(log[..i], log[i]);
    assert log[..j][i] == log[i];
    if IsReport(log[i]) {
      TakenStaysTaken(log, i, j, log[i].id);
    }
  }

  lemma {:induction false} WaitingMeans(log: seq<Obs>, key: Key) returns (a: nat)
    requires Waiting(log, key).Some?
    ensures a < |log| && log[a] == Accepted(Waiting(log, key).value, key)
    ensures forall b :: a < b < |log| ==>
      && !(log[b].Accepted? && log[b].key == key) && !(log[b].Taken? && log[b].key == key)
      && log[b] != Cleared && log[b] != Stopped
  {
    var last := log[|log| - 1];
    if last.Accepted? && last.key == key {
      a := |log| - 1;
    } else {
      a := WaitingMeans(log[..|log| - 1], key);
    }
  }

  /** The frame taken for a key is the newest accepted for it, with no Clear or Stop since. */
  lemma TakesNewest(events: seq<Event>, j: nat) returns (a: nat)
    requires j < |Run(events).log| && Run(events).log[j].Taken?
    ensures var log := Run(events).log;
      && a < j && log[a] == Accepted(log[j].id, log[j].key)
      && forall b :: a < b < j ==> !(log[b].Accepted? && log[b].key == log[j].key) && log[b] != Cleared && log[b] != Stopped
  {
    RunKeepsInv(events);
    var log := Run(events).log;
    assert EntryOk(log[..j], log[j]);
    a := WaitingMeans(log[..j], log[j].key);
    assert log[a] == log[..j][a];
    forall b | a < b < j ensures !(log[b].Accepted? && log[b].key == log[j].key) && log[b] != Cleared && log[b] != Stopped {
      assert log[b] == log[..j][b];
    }
  }

  ghost predicate NoStart(log: seq<Obs>, i: nat, j: nat) {
    forall b :: i < b < j && b < |log| ==> !log[b].Started?
  }

  /** Within one worker run, the last selection of a key is not before an earlier one. */
  lemma {:induction false} LastTakenAfter(log: seq<Obs>, i: nat, key: Key)
    requires LogOk(log) && i < |log| && log[i].Taken? && log[i].key == key && NoStart(log, i, |log|)
    ensures LastTaken(log, key).Some? && LastTaken(log, key).value >= log[i].at
    ensures CurrentPeriod(log) == CurrentPeriod(log[..i])
  {
    if i < |log| - 1 {
      var before, last := log[..|log| - 1], log[|log| - 1];
      PrefixOk(log, |log| - 1);
      assert NoStart(before, i, |before|);
      LastTakenAfter(before, i, key);
      assert before[..i] == log[..i];
      assert EntryOk(before, last);
    }
  }

  /** Two selections of one key by the same worker are at least its period apart. */
  lemma SelectionsSpaced(events: seq<Event>, i: nat, j: nat)
    requires var log := Run(events).log;
      && i < j < |log| && log[i].Taken? && log[j].Taken? && log[i].key == log[j].key && NoStart(log, i, j)
    ensures var log := Run(events).log;
      log[j].at >= log[i].at + CurrentPeriod(log[..i])
  {
    RunKeepsInv(events);
    var log := Run(events).log;
    assert EntryOk(log[..j], log[j]);
    PrefixOk(log, j);
    assert log[..j][i] == log[i] && NoStart(log[..j], i, j);
    LastTakenAfter(log[..j], i, log[i].key);
    assert log[..j][..i] == log[..i];
  }

  /** The period is the one its Start set: 1000000 / max_fps microseconds. */
  lemma {:induction false} PeriodFromStart(events: seq<Event>) returns (maxFps: int)
    requires Run(events).worker != NoWorker
    ensures 1 <= maxFps <= 240 && Run(events).period == 1000000 / maxFps
    ensures CurrentPeriod(Run(events).log) == Run(events).period
  {
    hide LogInv, TicketsInv, WaitingInv, WorkerInv, CurrentPeriod, LastTaken, IsOldestDue, Due, Acceptable;
    RunKeepsInv(events);
    var before, e := events[..|events| - 1], events[|events| - 1];
    if Enabled(Run(before), e) && e.StartWorker? {
      maxFps := e.maxFps;
    } else {
      maxFps := PeriodFromStart(before);
    }
  }

  /** At most 32 keys are ever pending. */
  lemma PendingBounded(events: seq<Event>)
    ensures |Run(events).pending| <= MAX_PENDING
  {
    RunKeepsInv(events);
  }
}
