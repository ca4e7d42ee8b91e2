/** The local detector's object (client/apps/rtc_console/local_yolo.cpp): each critical
    section refines a step of the scheduler. Detection itself is in Tiles. A walk
    over the pending frames takes them in any order, so a tie goes to any oldest frame. */
module LocalDetection {
  import opened Options
  import opened YoloScheduler

  class LocalYolo {
    var pending: map<Key, Ticket>
    var generation: nat
    var stopped: bool
    var worker: Worker
    /** The worker's own variables: when a key is due again, and the time between selections. */
    var next: map<Key, int>
    var period: nat
    /** Numbers the accepted frames. */
    var accepted: nat
    ghost var log: seq<Obs>

    ghost function Abs(): State
      reads this
    {
      State(pending, next, generation, stopped, period, worker, accepted, log)
    }

    constructor ()
      ensures Abs() == INITIAL
    {
      pending, generation, stopped, worker := map[], 0, true, NoWorker;
      next, period, accepted, log := map[], 0, 0, [];
    }

    /** Start after it has stopped the previous worker. */
    method StartWorker(maxFps: int, hasResult: bool, detectorMade: bool) returns (ok: bool)
      requires worker == NoWorker && stopped
      modifies this
      ensures ok <==> 1 <= maxFps <= 240 && hasResult && detectorMade
      ensures ok ==> Abs() == Step(old(Abs()), Event.StartWorker(maxFps))
      ensures !ok ==> Abs() == old(Abs())
    {
      if maxFps < 1 || maxFps > 240 || !hasResult {
        return false;
      }
      if !detectorMade {
        return false;
      }
      stopped := false;
      next := map[];
      period := 1000000 / maxFps;
      worker := Idle;
      log := log + [Started(period)];
      return true;
    }

    method Submit(frame: Frame)
      modifies this
      ensures Abs() == Step(old(Abs()), Event.Submit(frame))
    {
      if frame.width <= 0 || frame.height <= 0 || frame.width > MAX_SIDE || frame.height > MAX_SIDE ||
         frame.pixelBytes != frame.width * frame.height * 4 {
        return;
      }
      if stopped {
        return;
      }
      if frame.key !in pending && |pending| >= MAX_PENDING {
        return;
      }
      pending := pending[frame.key := Ticket(accepted, frame)];
      log := log + [Accepted(accepted, frame.key)];
      accepted := accepted + 1;
    }

    method Clear()
      modifies this
      ensures Abs() == Step(old(Abs()), Event.Clear)
    {
      generation := generation + 1;
      pending := map[];
      log := log + [Cleared];
    }

    /** The critical section of Stop. */
    method RequestStop()
      modifies this
      ensures Abs() == Step(old(Abs()), Event.Stop)
    {
      stopped := true;
      pending := map[];
      log := log + [Stopped];
    }

    /** The search: the oldest-received frame among the due keys, if there is one, and the earliest
        time any pending key is due. */
    method Search(now: int) returns (selected: Option<Key>, deadline: Option<int>)
      ensures selected.Some? ==> Due(Abs(), selected.value, now) && IsOldestDue(Abs(), selected.value, now)
      ensures selected.Some? ==> forall k :: k in pending && NextTime(next, k) <= now ==>
        pending[selected.value].frame.received <= pending[k].frame.received
      ensures selected.None? ==> forall k :: k in pending ==> NextTime(next, k) > now
      ensures deadline.None? <==> pending == map[]
      ensures deadline.Some? ==> exists k :: k in pending && NextTime(next, k) == deadline.value
      ensures deadline.Some? ==> forall k :: k in pending ==> NextTime(next, k) >= deadline.value
    {
      hide NextTime;
      selected, deadline := None, None;
      var todo := pending.Keys;
      while todo != {}
        invariant todo <= pending.Keys
        invariant selected.Some? ==> Due(Abs(), selected.value, now)
        invariant selected.Some? ==> forall k :: k in pending && k !in todo && NextTime(next, k) <= now ==>
          pending[selected.value].frame.received <= pending[k].frame.received
        invariant selected.None? ==> forall k :: k in pending && k !in todo ==> NextTime(next, k) > now
        invariant deadline.None? <==> todo == pending.Keys
        invariant deadline.Some? ==> exists k :: k in pending && NextTime(next, k) == deadline.value
        invariant deadline.Some? ==> forall k :: k in pending && k !in todo ==> NextTime(next, k) >= deadline.value
        decreases todo
      {
        var key :| key in todo;
        var time := NextTime(next, key);
        if time <= now &&
           (selected.None? || pending[key].frame.received < pending[selected.value].frame.received) {
          selected := Some(key);
        }
        if deadline.None? || time < deadline.value {
          deadline := Some(time);
        }
        todo := todo - {key};
      }
      assert pending.Keys == {} <==> pending == map[];
    }

    /** The worker's critical section between its wait and detection. Either it takes the oldest
        due frame, or no key is due and it has the earliest time one will be. */
    method Select(now: int) returns (selected: Option<Key>, deadline: Option<int>)
      requires worker == Idle && !stopped && pending != map[]
      modifies this
      ensures selected.Some? ==>
        Enabled(old(Abs()), Take(selected.value, now)) && Abs() == Step(old(Abs()), Take(selected.value, now))
      ensures selected.Some? ==> forall k :: k in old(pending) && NextTime(old(next), k) <= now ==>
        old(pending)[selected.value].frame.received <= old(pending)[k].frame.received
      ensures selected.None? ==> Abs() == old(Abs()) && deadline.Some? && deadline.value > now
      ensures selected.None? ==> exists k :: k in pending && NextTime(next, k) == deadline.value
      ensures selected.None? ==> forall k :: k in pending ==> NextTime(next, k) >= deadline.value
    {
      hide NextTime, IsOldestDue;
      selected, deadline := Search(now);
      if selected.None? {
        return;
      }
      var key := selected.value;
      var ticket := pending[key];
      pending := pending - {key};
      next := next[key := now + period];
      worker := Busy(ticket, generation);
      log := log + [Taken(ticket.id, key, now)];
    }

    /** The worker's critical section after detection. */
    method Finish(succeeded: bool, hasFailure: bool) returns (reported: bool)
      requires worker.Busy?
      modifies this
      ensures Abs() == Step(old(Abs()), Event.Finish(succeeded, hasFailure))
      ensures reported <==> log != old(log)
      ensures reported <==> old(!stopped && worker.generation == generation) && (succeeded || hasFailure)
    {
      reported := false;
      if !stopped && worker.generation == generation {
        if succeeded {
          reported := true;
        } else if hasFailure {
          reported := true;
        }
      }
      if reported {
        log := log + [if succeeded then Succeeded(worker.ticket.id) else Failed(worker.ticket.id)];
      }
      worker := Idle;
    }

    /** Waits for a worker that was asked to stop: it finishes the frame it is on, reports nothing
        and leaves its loop. */
    method Join()
      requires stopped
      modifies this
      ensures Abs() == old(Abs()).(worker := NoWorker)
    {
      if worker.Busy? {
        var succeeded: bool, hasFailure: bool := *, *;
        var reported := Finish(succeeded, hasFailure);
      }
      if worker == Idle {
        worker := NoWorker;
      }
    }

    /** No callback runs once the flag is up, and the worker is gone on return. */
    method Stop()
      modifies this
      ensures Abs() == Step(old(Abs()), Event.Stop).(worker := NoWorker)
    {
      RequestStop();
      Join();
    }

    /** Restarts with the given limit, or is left stopped on bad arguments or without a detector. */
    method Start(maxFps: int, hasResult: bool, detectorMade: bool) returns (ok: bool)
      modifies this
      ensures ok <==> 1 <= maxFps <= 240 && hasResult && detectorMade
      ensures var stop := Step(old(Abs()), Event.Stop).(worker := NoWorker);
        Abs() == if ok then Step(stop, Event.StartWorker(maxFps)) else stop
    {
      Stop();
      ok := StartWorker(maxFps, hasResult, detectorMade);
    }
  }
}
