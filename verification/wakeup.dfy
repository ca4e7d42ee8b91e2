/** The packetizer's worker and its counting semaphore (vtsrtc/src/packet/semaphore.h and the
    worker loop of packetizer.cpp), interleaved step by step with any number of producers.

    A step is one critical section: a queue operation, a signal, or the test a wait makes while
    it holds the semaphore's lock. A parked worker has released that lock and is woken by a
    notification or spuriously. */
module WakeUp {

  /** Where the worker is. `k` counts the packets of the current item still to go to the callback. */
  datatype Place =
    | LookMessages        // `packetizer_queue_.Empty()` of the wait condition
    | LookResends         // `resend_queue_.Empty()` of the wait condition
    | EnterWait           // about to take the semaphore's lock
    | Parked              // waiting on the condition variable
    | Woken               // notified, about to test the count again
    | ChooseResend        // the test before ResendPacket
    | ChooseMessage       // the test before SendPacket
    | Emitting(k: nat)    // handing packets to the callback
    | SignalOwn(k: nat)   // it queued a packet again and has yet to signal

  /** `due` producers have pushed a message and not yet signalled. */
  datatype State = State(messages: nat, resends: nat, count: nat, due: nat, worker: Place)

  const INITIAL := State(0, 0, 0, 0, LookMessages)

  // ----- Steps -----

  datatype Step =
    | Push                     // a producer's Split queues a message
    | Signal                   // and then signals
    | Spurious                 // the condition variable wakes without notification
    | Work(packets: nat, congested: bool)  // the worker's next step

  predicate Enabled(s: State, e: Step) {
    match e
    case Push => true
    case Signal => s.due > 0
    case Spurious => s.worker == Parked
    case Work(_, _) => s.worker != Parked
  }

  function Next(s: State, e: Step): State
    requires Enabled(s, e)
  {
    match e
    case Push => s.(messages := s.messages + 1, due := s.due + 1)
    case Signal => s.(due := s.due - 1, count := s.count + 1,
                      worker := if s.worker == Parked then Woken else s.worker)
    case Spurious => s.(worker := Woken)
    case Work(packets, congested) => WorkerStep(s, packets, congested)
  }

  /** `packets` is how many a popped message is cut into, `congested` the callback's decision. */
  function WorkerStep(s: State, packets: nat, congested: bool): State
    requires s.worker != Parked
  {
    match s.worker
    case LookMessages => s.(worker := if s.messages == 0 then LookResends else ChooseResend)
    case LookResends => s.(worker := if s.resends == 0 then EnterWait else ChooseResend)
    case EnterWait => Wait(s)
    case Woken => Wait(s)
    case ChooseResend =>
      if s.resends > 0 then s.(resends := s.resends - 1, worker := Emitting(1)) else s.(worker := ChooseMessage)
    case ChooseMessage =>
      if s.messages > 0 then s.(messages := s.messages - 1, worker := Emitting(packets)) else s.(worker := LookMessages)
    case Emitting(k) =>
      if k == 0 then s.(worker := LookMessages)
      else if congested then s.(resends := s.resends + 1, worker := SignalOwn(k - 1))
      else s.(worker := Emitting(k - 1))
    case SignalOwn(k) => s.(count := s.count + 1, worker := Emitting(k))
  }

  /** The wait's test under the lock: take a count, or park. */
  function Wait(s: State): State {
    if s.count > 0 then s.(count := s.count - 1, worker := LookMessages) else s.(worker := Parked)
  }

  /** The semaphore. Its wait repeats `Test` under the lock, parking between two tests. */
  class Semaphore {
    var count: nat

    constructor (count: nat)
      ensures this.count == count
    {
      this.count := count;
    }

    method Test() returns (taken: bool)
      modifies this
      ensures taken <==> old(count) > 0
      ensures count == if taken then old(count) - 1 else old(count)
    {
      taken := count > 0;
      if taken {
        count := count - 1;
      }
    }

    method Signal()
      modifies this
      ensures count == old(count) + 1
    {
      count := count + 1;
    }
  }

  predicate Waiting(p: Place) { p == EnterWait || p == Parked || p == Woken }

  // ----- No lost wake-up -----

  /** From the moment the worker saw no message, each message queued since is matched by a
      signal that was counted or is still due; a parked worker has no count to take. */
  predicate Inv(s: State) {
    && (s.worker == LookResends || Waiting(s.worker) ==> s.messages <= s.count + s.due)
    && (Waiting(s.worker) ==> s.resends == 0)
    && (s.worker == Parked ==> s.count == 0)
  }

  /** Signals given or due that no wait has taken yet. */
  function Credit(s: State): nat {
    s.count + s.due + if s.worker.SignalOwn? then 1 else 0
  }

  /** Every item queued, a message or a packet queued again, brings exactly one signal, and only a wait
      takes one: a step that queues an item raises the credit by one, a wait that takes a count lowers
      it by one, and no other step changes it. */
  lemma OneSignalPerItem(s: State, e: Step)
    requires Enabled(s, e)
    ensures var t := Next(s, e);
      var queued := t.messages + t.resends > s.messages + s.resends;
      var taken := (s.worker == EnterWait || s.worker == Woken) && s.count > 0 && e.Work?;
      Credit(t) == Credit(s) + (if queued then 1 else 0) - (if taken then 1 else 0)
  {
  }

  /** A packet of a message is queued again exactly when the channel is congested. */
  lemma CongestedQueuesAgain(s: State, packets: nat, congested: bool)
    requires s.worker.Emitting? && s.worker.k > 0
    ensures var t := WorkerStep(s, packets, congested);
      t.resends == s.resends + (if congested then 1 else 0) && t.messages == s.messages && t.worker.k == s.worker.k - 1
  {
  }

  function Run(steps: seq<Step>): State {
    if |steps| == 0 then INITIAL
    else
      var s, e := Run(steps[..|steps| - 1]), steps[|steps| - 1];
      if Enabled(s, e) then Next(s, e) else s
  }

  lemma {:induction false} RunKeepsInv(steps: seq<Step>)
    ensures Inv(Run(steps))
  {
    if |steps| == 0 {
    } else {
      RunKeepsInv(steps[..|steps| - 1]);
    }
  }

  /** In every interleaving a parked worker has nothing to retry, and each queued message has a
      producer that has yet to signal. */
  lemma NoLostWakeUp(steps: seq<Step>)
    requires Run(steps).worker == Parked
    ensures Run(steps).resends == 0 && Run(steps).messages <= Run(steps).due
  {
    RunKeepsInv(steps);
  }

  // ----- The queues drain -----

  /** The worker's steps with no producer active and an open channel; `packets(i)` is the size
      of the message popped at step i. A parked worker stays parked. */
  function Alone(s: State, packets: nat -> nat, n: nat): State {
    if n == 0 then s
    else
      var t := Alone(s, packets, n - 1);
      if t.worker == Parked then t else WorkerStep(t, packets(n - 1), false)
  }

  lemma {:induction false} AloneFromSecond(s: State, packets: nat -> nat, n: nat)
    requires s.worker != Parked
    ensures Alone(s, packets, n + 1) == Alone(WorkerStep(s, packets(0), false), (i: nat) => packets(i + 1), n)
  {
    var later := (i: nat) => packets(i + 1);
    if n > 0 {
      AloneFromSecond(s, packets, n - 1);
      assert packets(n) == later(n - 1);
    } else {
      assert Alone(s, packets, 0) == s;
      assert Alone(s, packets, 1) == WorkerStep(s, packets(0), false);
    }
  }

  function Owed(s: State): nat { s.count + if s.worker.SignalOwn? then 1 else 0 }

  /** Distance to the next pop, count taken or park. */
  function Distance(s: State): nat {
    match s.worker
    case ChooseMessage => if s.messages > 0 then 0 else 6
    case ChooseResend => if s.resends > 0 then 0 else if s.messages > 0 then 1 else 7
    case LookResends => if s.resends == 0 then 4 else 1
    case LookMessages => if s.messages == 0 then 5 else 2
    case EnterWait => 3
    case Woken => 3
    case Emitting(k) => 8 + 2 * k
    case SignalOwn(k) => 9 + 2 * k
    case Parked => 0
  }

  function Queued(s: State): nat { s.messages + s.resends }

  /** What a worker's step does to the distance to being done. */
  predicate Closer(s: State, t: State) {
    || Queued(t) < Queued(s)
    || (Queued(t) == Queued(s) && Owed(t) < Owed(s))
    || (Queued(t) == Queued(s) && Owed(t) == Owed(s) && Distance(t) < Distance(s))
  }

  lemma StepKeepsInv(s: State, packets: nat, congested: bool)
    requires Inv(s) && s.worker != Parked
    ensures Inv(WorkerStep(s, packets, congested)) && WorkerStep(s, packets, congested).due == s.due
  {
  }

  lemma StepGetsCloser(s: State, packets: nat)
    requires Inv(s) && s.worker != Parked
    ensures Closer(s, WorkerStep(s, packets, false))
  {
  }

  /** Once the producers are done and the channel is open, the worker empties both queues and
      then parks: nothing is ever left behind. */
  lemma {:induction false} Drains(s: State, packets: nat -> nat) returns (n: nat)
    requires Inv(s) && s.due == 0
    ensures var t := Alone(s, packets, n);
      t.worker == Parked && t.messages == 0 && t.resends == 0
    decreases Queued(s), Owed(s), Distance(s)
  {
    hide WorkerStep, Queued, Owed, Distance;
    if s.worker == Parked {
      n := 0;
    } else {
      StepKeepsInv(s, packets(0), false);
      StepGetsCloser(s, packets(0));
      var m := Drains(WorkerStep(s, packets(0), false), (i: nat) => packets(i + 1));
      AloneFromSecond(s, packets, m);
      n := m + 1;
    }
  }
}
