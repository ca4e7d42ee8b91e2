/** The sending side as a stepped protocol (vtsrtc/src/packet/packetizer.cpp and the
    congestion decision of vtsrtc/src/rtc_connection.cpp). The worker either retries one
    packet from the resend queue or, when that queue is empty, cuts up the next message;
    each packet reaches the wire or is queued again. */
module Sender {
  import opened Bytes
  import opened PacketFormat

  const QUEUE_LIMIT: nat := 64 * 1024 * 1024
  const CHANNEL_LIMIT: nat := 16 * 1024 * 1024

  /** Longest message of which no packet can be dropped: 57359 slices. */
  const SAFE_LENGTH: nat := 66_651_158

  function TotalBytes(q: seq<Buffer>): nat {
    if |q| == 0 then 0 else TotalBytes(q[..|q| - 1]) + |q[|q| - 1].bytes|
  }

  /** `started` are the messages cut up so far, `lost` the packets a full resend queue refused. */
  datatype State = State(queue: seq<Buffer>, resend: seq<Buffer>, mainSeq: nat,
                         wire: seq<Buffer>, started: seq<Buffer>, lost: seq<Buffer>)

  const INITIAL := State([], [], 0, [], [], [])

  function Split(s: State, message: Buffer): State {
    if TotalBytes(s.queue) < QUEUE_LIMIT then s.(queue := s.queue + [message]) else s
  }

  function Resend(s: State, packet: Buffer): State {
    if TotalBytes(s.resend) < QUEUE_LIMIT then s.(resend := s.resend + [packet])
    else s.(lost := s.lost + [packet])
  }

  /** `amount` is what the data channel reports as buffered. */
  function PacketsCallback(s: State, packet: Buffer, amount: nat): State {
    if amount + |packet.bytes| >= CHANNEL_LIMIT then Resend(s, packet)
    else s.(wire := s.wire + [packet])
  }

  /** The first n packets handed to the callback; amounts(i) is seen by packet i. */
  function Emit(s: State, packets: seq<Buffer>, amounts: nat -> nat, n: nat): State
    requires n <= |packets|
  {
    if n == 0 then s else PacketsCallback(Emit(s, packets, amounts, n - 1), packets[n - 1], amounts(n - 1))
  }

  function SendPacket(s: State, amounts: nat -> nat): State
    requires s.queue != []
  {
    var message := s.queue[0];
    var packets := PacketsOf(message, s.mainSeq);
    var popped := s.(queue := s.queue[1..], started := s.started + [message]);
    Emit(popped, packets, amounts, |packets|).(mainSeq := (s.mainSeq + 1) % UINT16)
  }

  function ResendPacket(s: State, amounts: nat -> nat): State
    requires s.resend != []
  {
    PacketsCallback(s.(resend := s.resend[1..]), s.resend[0], amounts(0))
  }

  /** One round of the worker loop. */
  function Work(s: State, amounts: nat -> nat): State {
    if s.resend != [] then ResendPacket(s, amounts)
    else if s.queue != [] then SendPacket(s, amounts)
    else s
  }

  datatype Event = Submit(message: Buffer) | Round(amounts: nat -> nat)

  function Step(s: State, e: Event): State {
    match e
    case Submit(message) => Split(s, message)
    case Round(amounts) => Work(s, amounts)
  }

  function Run(s: State, events: seq<Event>): State {
    if |events| == 0 then s else Step(Run(s, events[..|events| - 1]), events[|events| - 1])
  }

  // ----- The invariant -----

  function SeqOf(i: nat): nat { i % UINT16 }

  function LastPackets(started: seq<Buffer>): seq<Buffer>
    requires started != []
  {
    PacketsOf(started[|started| - 1], SeqOf(|started| - 1))
  }

  /** The wire holds the packets of each message in one contiguous block, message by
      message, each packet exactly once; `missing` are those of the last block still to come. */
  ghost predicate Blocks(started: seq<Buffer>, wire: seq<Buffer>, missing: seq<Buffer>)
    decreases |started|
  {
    if started == [] then wire == [] && missing == []
    else
      var ps := LastPackets(started);
      && |missing| <= |ps| && |ps| - |missing| <= |wire|
      && var from := |wire| - (|ps| - |missing|);
         && multiset(wire[from..]) + multiset(missing) == multiset(ps)
         && Blocks(started[..|started| - 1], wire[..from], [])
  }

  ghost predicate Safe(q: seq<Buffer>) {
    forall i :: 0 <= i < |q| ==> |q[i].bytes| <= SAFE_LENGTH
  }

  ghost predicate Inv(s: State) {
    && s.mainSeq == SeqOf(|s.started|)
    && s.lost == []
    && Safe(s.queue) && Safe(s.started)
    && Blocks(s.started, s.wire, s.resend)
  }

  // ----- Byte counts -----

  lemma TotalAppend(q: seq<Buffer>, b: Buffer)
    ensures TotalBytes(q + [b]) == TotalBytes(q) + |b.bytes|
  {
    assert (q + [b])[..|q|] == q;
  }

  lemma {:induction false} TotalConcat(q: seq<Buffer>, r: seq<Buffer>)
    ensures TotalBytes(q + r) == TotalBytes(q) + TotalBytes(r)
  {
    if r == [] {
      assert q + r == q;
    } else {
      var r', b := r[..|r| - 1], r[|r| - 1];
      TotalConcat(q, r');
      assert q + r == (q + r') + [b];
      TotalAppend(q + r', b);
    }
  }

  lemma WithoutOne(r: seq<Buffer>, i: nat)
    requires i < |r|
    ensures multiset(r[..i] + r[i + 1..]) == multiset(r) - multiset{r[i]}
    ensures TotalBytes(r[..i] + r[i + 1..]) + |r[i].bytes| == TotalBytes(r)
  {
    assert r == (r[..i] + [r[i]]) + r[i + 1..];
    TotalConcat(r[..i], r[i + 1..]);
    TotalAppend(r[..i], r[i]);
    TotalConcat(r[..i] + [r[i]], r[i + 1..]);
  }

  /** The count depends on what is queued, not on the order. */
  lemma {:induction false} TotalOfPermutation(q: seq<Buffer>, r: seq<Buffer>)
    requires multiset(q) == multiset(r)
    ensures TotalBytes(q) == TotalBytes(r)
  {
    if |q| == 0 {
      assert |multiset(r)| == 0;
    } else {
      var q', b := q[..|q| - 1], q[|q| - 1];
      assert q == q' + [b];
      assert b in multiset(r);
      var i :| 0 <= i < |r| && r[i] == b;
      WithoutOne(r, i);
      TotalOfPermutation(q', r[..i] + r[i + 1..]);
    }
  }

  lemma TailTotal(q: seq<Buffer>)
    requires q != []
    ensures TotalBytes(q) == |q[0].bytes| + TotalBytes(q[1..])
  {
    assert q == [q[0]] + q[1..];
    assert TotalBytes([q[0]]) == |q[0].bytes| by { TotalAppend([], q[0]); }
    TotalConcat([q[0]], q[1..]);
  }

  // ----- Packet sizes -----

  /** Every packet but the last is full, and the last is the smallest. */
  lemma PacketSizes(message: Buffer, mainSeq: nat, i: nat)
    requires i < SliceCount(|message.bytes|)
    ensures var ps := PacketsOf(message, mainSeq);
      && |ps[|ps| - 1].bytes| <= |ps[i].bytes| <= HEADER + MAX_DATA
      && (i + 1 < |ps| ==> |ps[i].bytes| == HEADER + MAX_DATA)
  {
  }

  lemma {:induction false} FullPackets(message: Buffer, mainSeq: nat, n: nat)
    requires n < SliceCount(|message.bytes|)
    ensures TotalBytes(PacketsOf(message, mainSeq)[..n]) == n * (HEADER + MAX_DATA)
  {
    if n == 0 {
    } else {
      var ps := PacketsOf(message, mainSeq);
      FullPackets(message, mainSeq, n - 1);
      PacketSizes(message, mainSeq, n - 1);
      assert ps[..n][..n - 1] == ps[..n - 1];
    }
  }

  /** SAFE_LENGTH is the bound the queue limit amounts to. */
  lemma SafeLength(message: Buffer, mainSeq: nat)
    ensures var ps := PacketsOf(message, mainSeq);
      |message.bytes| <= SAFE_LENGTH <==> ps == [] || TotalBytes(ps[..|ps| - 1]) < QUEUE_LIMIT
  {
    hide PacketsOf, TotalBytes;
    var count := SliceCount(|message.bytes|);
    if count > 0 {
      FullPackets(message, mainSeq, count - 1);
    }
  }

  /** The sufficient condition in bytes of packets: at most the queue limit. */
  lemma AtMostLimitIsSafe(message: Buffer, mainSeq: nat)
    requires TotalBytes(PacketsOf(message, mainSeq)) <= QUEUE_LIMIT
    ensures |message.bytes| <= SAFE_LENGTH
  {
    SafeLength(message, mainSeq);
  }

  // ----- Sending one message -----

  /** Since s, the packets `sofar` went to the callback and each is on the wire or queued again. */
  ghost predicate Emitted(s: State, e: State, sofar: seq<Buffer>) {
    && e.queue == s.queue && e.started == s.started && e.mainSeq == s.mainSeq && e.lost == s.lost
    && s.wire <= e.wire
    && multiset(e.wire[|s.wire|..]) + multiset(e.resend) == multiset(sofar)
    && TotalBytes(e.resend) <= TotalBytes(sofar)
  }

  lemma SentOne(s: State, e: State, sofar: seq<Buffer>, p: Buffer)
    requires Emitted(s, e, sofar)
    ensures Emitted(s, e.(wire := e.wire + [p]), sofar + [p])
  {
    hide TotalBytes;
    TotalAppend(sofar, p);
    assert (e.wire + [p])[|s.wire|..] == e.wire[|s.wire|..] + [p];
  }

  lemma QueuedOne(s: State, e: State, sofar: seq<Buffer>, p: Buffer)
    requires Emitted(s, e, sofar)
    ensures Emitted(s, e.(resend := e.resend + [p]), sofar + [p])
    ensures TotalBytes(e.resend) <= TotalBytes(sofar)
  {
    hide TotalBytes;
    TotalAppend(e.resend, p);
    TotalAppend(sofar, p);
  }

  lemma CallbackKeepsPackets(s: State, e: State, sofar: seq<Buffer>, p: Buffer, amount: nat)
    requires Emitted(s, e, sofar) && TotalBytes(sofar) < QUEUE_LIMIT
    ensures Emitted(s, PacketsCallback(e, p, amount), sofar + [p])
  {
    hide TotalBytes, Emitted;
    SentOne(s, e, sofar, p);
    QueuedOne(s, e, sofar, p);
  }

  lemma {:induction false} EmitKeepsPackets(s: State, message: Buffer, mainSeq: nat, amounts: nat -> nat, n: nat)
    requires s.resend == [] && n <= SliceCount(|message.bytes|) && |message.bytes| <= SAFE_LENGTH
    ensures Emitted(s, Emit(s, PacketsOf(message, mainSeq), amounts, n), PacketsOf(message, mainSeq)[..n])
  {
    hide Emitted, PacketsOf, SliceCount, PacketsCallback;
    var ps := PacketsOf(message, mainSeq);
    if n > 0 {
      EmitKeepsPackets(s, message, mainSeq, amounts, n - 1);
      FullPackets(message, mainSeq, n - 1);
      CountFits(message, n - 1);
      CallbackKeepsPackets(s, Emit(s, ps, amounts, n - 1), ps[..n - 1], ps[n - 1], amounts(n - 1));
      assert ps[..n] == ps[..n - 1] + [ps[n - 1]];
    } else {
      NothingEmitted(s);
      assert ps[..0] == [];
    }
  }

  lemma CountFits(message: Buffer, n: nat)
    requires n < SliceCount(|message.bytes|) && |message.bytes| <= SAFE_LENGTH
    ensures n * (HEADER + MAX_DATA) < QUEUE_LIMIT
  {
  }

  lemma NothingEmitted(s: State)
    requires s.resend == []
    ensures Emitted(s, s, [])
  {
    assert s.wire[|s.wire|..] == [];
  }

  /** A further message adds its own block. */
  lemma NewBlock(started: seq<Buffer>, wire: seq<Buffer>, message: Buffer, cur: seq<Buffer>, missing: seq<Buffer>)
    requires Blocks(started, wire, [])
    requires multiset(cur) + multiset(missing) == multiset(PacketsOf(message, SeqOf(|started|)))
    ensures Blocks(started + [message], wire + cur, missing)
  {
    hide PacketsOf;
    var ps, more := PacketsOf(message, SeqOf(|started|)), started + [message];
    assert |cur| + |missing| == |multiset(cur) + multiset(missing)| == |ps|;
    assert more[..|more| - 1] == started && LastPackets(more) == ps;
    assert (wire + cur)[..|wire|] == wire && (wire + cur)[|wire|..] == cur;
  }

  lemma SendKeepsInv(s: State, amounts: nat -> nat)
    requires Inv(s) && s.resend == [] && s.queue != []
    ensures Inv(SendPacket(s, amounts))
  {
    hide PacketsOf, SliceCount, Emit, Blocks, TotalBytes;
    var message, s' := s.queue[0], SendPacket(s, amounts);
    var ps := PacketsOf(message, s.mainSeq);
    var popped := s.(queue := s.queue[1..], started := s.started + [message]);
    EmitKeepsPackets(popped, message, s.mainSeq, amounts, |ps|);
    assert ps[..|ps|] == ps;
    var cur := s'.wire[|s.wire|..];
    NewBlock(s.started, s.wire, message, cur, s'.resend);
    assert s'.wire == s.wire + cur;
  }

  // ----- Retrying one packet -----

  /** What waits of a message leaves room for one packet to be queued again. */
  lemma WaitingFits(message: Buffer, mainSeq: nat, sent: seq<Buffer>, waiting: seq<Buffer>)
    requires |message.bytes| <= SAFE_LENGTH && waiting != []
    requires multiset(sent) + multiset(waiting) == multiset(PacketsOf(message, mainSeq))
    ensures TotalBytes(waiting[1..]) < QUEUE_LIMIT
  {
    var ps := PacketsOf(message, mainSeq);
    hide PacketsOf, SliceCount;
    assert multiset(sent + waiting) == multiset(ps);
    TotalOfPermutation(sent + waiting, ps);
    TotalConcat(sent, waiting);
    TailTotal(waiting);
    assert waiting[0] in multiset(waiting) && waiting[0] in multiset(ps);
    var i :| 0 <= i < |ps| && ps[i] == waiting[0];
    PacketSizes(message, mainSeq, i);
    SafeLength(message, mainSeq);
  }

  lemma ResendIsAdmitted(s: State)
    requires Inv(s) && s.resend != []
    ensures TotalBytes(s.resend[1..]) < QUEUE_LIMIT
  {
    hide PacketsOf, SliceCount, TotalBytes;
    var ps, last := LastPackets(s.started), |s.started| - 1;
    WaitingFits(s.started[last], SeqOf(last), s.wire[|s.wire| - (|ps| - |s.resend|)..], s.resend);
  }

  /** The last block with one missing packet put on the wire, or put last in the queue. */
  lemma RetriedBlock(started: seq<Buffer>, wire: seq<Buffer>, p: Buffer, rest: seq<Buffer>)
    requires Blocks(started, wire, [p] + rest)
    ensures Blocks(started, wire + [p], rest) && Blocks(started, wire, rest + [p])
  {
    hide LastPackets;
    assert started != [];
    var from := |wire| - (|LastPackets(started)| - |[p] + rest|);
    assert (wire + [p])[from..] == wire[from..] + [p] && (wire + [p])[..from] == wire[..from];
  }

  lemma ResendKeepsInv(s: State, amounts: nat -> nat)
    requires Inv(s) && s.resend != []
    ensures Inv(ResendPacket(s, amounts))
  {
    hide PacketsOf, SliceCount, TotalBytes, Blocks;
    ResendIsAdmitted(s);
    assert s.resend == [s.resend[0]] + s.resend[1..];
    RetriedBlock(s.started, s.wire, s.resend[0], s.resend[1..]);
  }

  // ----- Whole runs -----

  ghost predicate SafeEvents(events: seq<Event>) {
    forall i :: 0 <= i < |events| && events[i].Submit? ==> |events[i].message.bytes| <= SAFE_LENGTH
  }

  /** Every step keeps the invariant, whatever the congestion. */
  lemma StepKeepsInv(s: State, e: Event)
    requires Inv(s) && (e.Submit? ==> |e.message.bytes| <= SAFE_LENGTH)
    ensures Inv(Step(s, e))
  {
    match e
    case Submit(_) =>
    case Round(amounts) =>
      if s.resend != [] {
        ResendKeepsInv(s, amounts);
      } else if s.queue != [] {
        SendKeepsInv(s, amounts);
      }
  }

  lemma {:induction false} RunKeepsInv(events: seq<Event>)
    requires SafeEvents(events)
    ensures Inv(Run(INITIAL, events))
  {
    if |events| == 0 {
    } else {
      RunKeepsInv(events[..|events| - 1]);
      StepKeepsInv(Run(INITIAL, events[..|events| - 1]), events[|events| - 1]);
    }
  }

  function AllPackets(started: seq<Buffer>): seq<Buffer> {
    if started == [] then [] else AllPackets(started[..|started| - 1]) + LastPackets(started)
  }

  lemma LastOfAll(started: seq<Buffer>, wire: seq<Buffer>, missing: seq<Buffer>)
    requires started != [] && Blocks(started, wire, missing)
    ensures AllPackets(started) == AllPackets(started[..|started| - 1]) + LastPackets(started)
    ensures |missing| <= |LastPackets(started)| && |LastPackets(started)| - |missing| <= |wire|
    ensures var from := |wire| - (|LastPackets(started)| - |missing|);
      && Blocks(started[..|started| - 1], wire[..from], [])
      && multiset(wire[from..]) + multiset(missing) == multiset(LastPackets(started))
  {
    hide LastPackets;
  }

  lemma SplitBag(q: seq<Buffer>, i: nat)
    requires i <= |q|
    ensures multiset(q) == multiset(q[..i]) + multiset(q[i..])
  {
    assert q == q[..i] + q[i..];
  }

  lemma NothingConserved(wire: seq<Buffer>, missing: seq<Buffer>)
    requires Blocks([], wire, missing)
    ensures multiset(wire) + multiset(missing) == multiset(AllPackets([]))
  {
  }

  lemma {:induction false} BlocksConserve(started: seq<Buffer>, wire: seq<Buffer>, missing: seq<Buffer>)
    requires Blocks(started, wire, missing)
    ensures multiset(wire) + multiset(missing) == multiset(AllPackets(started))
  {
    hide PacketsOf, SliceCount, LastPackets, AllPackets, Blocks;
    if started == [] {
      NothingConserved(wire, missing);
    } else {
      LastOfAll(started, wire, missing);
      var from := |wire| - (|LastPackets(started)| - |missing|);
      BlocksConserve(started[..|started| - 1], wire[..from], []);
      SplitBag(wire, from);
    }
  }

  /** For any run and any congestion, every packet of every message cut up so far is on the
      wire or in the resend queue exactly once, and no packet is lost. */
  lemma NoLoss(events: seq<Event>)
    requires SafeEvents(events)
    ensures var s := Run(INITIAL, events);
      s.lost == [] && multiset(s.wire) + multiset(s.resend) == multiset(AllPackets(s.started))
  {
    RunKeepsInv(events);
    var s := Run(INITIAL, events);
    BlocksConserve(s.started, s.wire, s.resend);
  }

  /** The wire carries nothing but the first i messages' packets, all of them, before the
      first packet of message i. */
  lemma {:induction false} BlocksInOrder(started: seq<Buffer>, wire: seq<Buffer>, missing: seq<Buffer>, i: nat)
    returns (cut: nat)
    requires Blocks(started, wire, missing) && i < |started|
    ensures cut <= |wire| && Blocks(started[..i], wire[..cut], [])
    ensures multiset(wire[..cut]) == multiset(AllPackets(started[..i]))
  {
    var last := |started| - 1;
    var from := |wire| - (|LastPackets(started)| - |missing|);
    if i == last {
      cut := from;
    } else {
      cut := BlocksInOrder(started[..last], wire[..from], [], i);
      assert started[..last][..i] == started[..i] && wire[..from][..cut] == wire[..cut];
    }
    BlocksConserve(started[..i], wire[..cut], []);
  }

  lemma MessagesDoNotMix(events: seq<Event>, i: nat) returns (cut: nat)
    requires SafeEvents(events)
    ensures var s := Run(INITIAL, events);
      i < |s.started| ==> cut <= |s.wire| && multiset(s.wire[..cut]) == multiset(AllPackets(s.started[..i]))
  {
    RunKeepsInv(events);
    var s := Run(INITIAL, events);
    cut := 0;
    if i < |s.started| {
      cut := BlocksInOrder(s.started, s.wire, s.resend, i);
    }
  }

  // ----- The bound is exact -----

  function Congested(): nat -> nat { i => CHANNEL_LIMIT }

  lemma {:induction false} CongestedEmit(s: State, packets: seq<Buffer>, n: nat)
    requires s.resend == [] && n <= |packets|
    ensures var e := Emit(s, packets, Congested(), n);
      && s.lost <= e.lost
      && (e.lost == s.lost ==> e.resend == packets[..n])
  {
    hide TotalBytes;
    if n == 0 {
    } else {
      CongestedEmit(s, packets, n - 1);
      assert packets[..n] == packets[..n - 1] + [packets[n - 1]];
    }
  }

  /** On a channel that admits nothing a longer message loses a packet. */
  lemma CongestedLoses(s: State)
    requires s.resend == [] && s.queue != [] && |s.queue[0].bytes| > SAFE_LENGTH
    ensures SendPacket(s, Congested()).lost != s.lost
  {
    hide PacketsOf, SliceCount;
    var message := s.queue[0];
    var ps := PacketsOf(message, s.mainSeq);
    var popped := s.(queue := s.queue[1..], started := s.started + [message]);
    SafeLength(message, s.mainSeq);
    CongestedEmit(popped, ps, |ps| - 1);
    CongestedEmit(popped, ps, |ps|);
  }

  /** Sending a message loses no packet under any congestion exactly when the message is at
      most SAFE_LENGTH bytes long. */
  lemma NoLossIffSafe(s: State)
    requires s.resend == [] && s.queue != []
    ensures (forall amounts: nat -> nat :: SendPacket(s, amounts).lost == s.lost)
       <==> |s.queue[0].bytes| <= 66_651_158
  {
    hide PacketsOf, SliceCount;
    var message := s.queue[0];
    var ps := PacketsOf(message, s.mainSeq);
    var popped := s.(queue := s.queue[1..], started := s.started + [message]);
    if |message.bytes| <= SAFE_LENGTH {
      forall amounts: nat -> nat ensures SendPacket(s, amounts).lost == s.lost {
        EmitKeepsPackets(popped, message, s.mainSeq, amounts, |ps|);
      }
    } else {
      CongestedLoses(s);
    }
  }

  ghost predicate OnlySubmits(events: seq<Event>, messages: set<Buffer>) {
    forall i :: 0 <= i < |events| && events[i].Submit? ==> events[i].message in messages
  }

  ghost predicate NeverLoses(messages: set<Buffer>) {
    forall events :: OnlySubmits(events, messages) ==> Run(INITIAL, events).lost == []
  }

  /** Submitting one longer message and then sending on a congested channel loses a packet. */
  lemma LongMessageLoses(message: Buffer)
    requires |message.bytes| > SAFE_LENGTH
    ensures Run(INITIAL, [Submit(message), Round(Congested())]).lost != []
  {
    hide SendPacket;
    var first, second := Submit(message), Round(Congested());
    assert [first, second][..1] == [first] && [first][..0] == [];
    var queued := INITIAL.(queue := [message]);
    assert Run(INITIAL, [first]) == Split(INITIAL, message) == queued;
    assert Run(INITIAL, [first, second]) == SendPacket(queued, Congested());
    CongestedLoses(queued);
  }

  /** No run that submits some of the messages, at any times and under any congestion, loses a
      packet exactly when each of them is at most SAFE_LENGTH bytes long. */
  lemma NoRunLosesIff(messages: set<Buffer>)
    ensures NeverLoses(messages) <==> forall m :: m in messages ==> |m.bytes| <= 66_651_158
  {
    if forall m :: m in messages ==> |m.bytes| <= SAFE_LENGTH {
      forall events | OnlySubmits(events, messages) ensures Run(INITIAL, events).lost == [] {
        NoLoss(events);
      }
    } else {
      var message :| message in messages && |message.bytes| > SAFE_LENGTH;
      LongMessageLoses(message);
      assert OnlySubmits([Submit(message), Round(Congested())], messages);
    }
  }

  // ----- What an open channel carries -----

  /** A packet goes out at once while the channel stays below 16 MiB with it; at or above that bound
      it is queued again, or lost when 64 MiB are queued already. */
  lemma SentIffBelowBound(s: State, packet: Buffer, amount: nat)
    ensures var t := PacketsCallback(s, packet, amount);
      if amount + |packet.bytes| < 16 * 1024 * 1024 then t == s.(wire := s.wire + [packet])
      else if TotalBytes(s.resend) < 64 * 1024 * 1024 then t == s.(resend := s.resend + [packet])
      else t == s.(lost := s.lost + [packet])
  {
  }

  ghost predicate OpenFor(packets: seq<Buffer>, amounts: nat -> nat, n: nat)
    requires n <= |packets|
  {
    forall i :: 0 <= i < n ==> amounts(i) + |packets[i].bytes| < 16 * 1024 * 1024
  }

  lemma {:induction false} OpenChannelSends(s: State, packets: seq<Buffer>, amounts: nat -> nat, n: nat)
    requires n <= |packets| && OpenFor(packets, amounts, n)
    ensures Emit(s, packets, amounts, n) == s.(wire := s.wire + packets[..n])
  {
    if n == 0 {
    } else {
      OpenChannelSends(s, packets, amounts, n - 1);
      assert packets[..n] == packets[..n - 1] + [packets[n - 1]];
    }
  }

  lemma {:induction false} FullChannelSendsNothing(s: State, packets: seq<Buffer>, amounts: nat -> nat, n: nat)
    requires n <= |packets| && forall i :: 0 <= i < n ==> amounts(i) + |packets[i].bytes| >= 16 * 1024 * 1024
    ensures Emit(s, packets, amounts, n).wire == s.wire
  {
    hide PacketsCallback, TotalBytes;
    if n == 0 {
    } else {
      SentIffBelowBound(Emit(s, packets, amounts, n - 1), packets[n - 1], amounts(n - 1));
      FullChannelSendsNothing(s, packets, amounts, n - 1);
    }
  }

  /** Room for any packet: none has more than 1170 bytes. */
  ghost predicate Open(amounts: nat -> nat) {
    forall i: nat :: amounts(i) + 1170 < 16 * 1024 * 1024
  }

  lemma OpenForMessage(message: Buffer, mainSeq: nat, amounts: nat -> nat)
    requires Open(amounts)
    ensures var packets := PacketsOf(message, mainSeq); OpenFor(packets, amounts, |packets|)
  {
    var packets := PacketsOf(message, mainSeq);
    forall i | 0 <= i < |packets| ensures amounts(i) + |packets[i].bytes| < 16 * 1024 * 1024 {
      PacketSizes(message, mainSeq, i);
    }
  }

  /** On an open channel a message goes out whole, under the next number. */
  lemma OpenChannelSendsMessage(s: State, amounts: nat -> nat)
    requires s.queue != [] && Open(amounts)
    ensures SendPacket(s, amounts)
         == s.(queue := s.queue[1..], started := s.started + [s.queue[0]], mainSeq := (s.mainSeq + 1) % 65536,
               wire := s.wire + PacketsOf(s.queue[0], s.mainSeq))
  {
    hide PacketsOf, Emit;
    var packets := PacketsOf(s.queue[0], s.mainSeq);
    OpenForMessage(s.queue[0], s.mainSeq, amounts);
    OpenChannelSends(s.(queue := s.queue[1..], started := s.started + [s.queue[0]]), packets, amounts, |packets|);
    assert packets[..|packets|] == packets;
  }

  ghost predicate SmallPackets(q: seq<Buffer>) {
    forall i :: 0 <= i < |q| ==> |q[i].bytes| <= 1170
  }

  /** On an open channel the oldest refused packet goes out. */
  lemma OpenChannelResends(s: State, amounts: nat -> nat)
    requires s.resend != [] && SmallPackets(s.resend) && Open(amounts)
    ensures ResendPacket(s, amounts) == s.(resend := s.resend[1..], wire := s.wire + [s.resend[0]])
  {
  }

  /** The packets of the messages of a queue, the first of them under number mainSeq. */
  function PacketsFrom(queue: seq<Buffer>, mainSeq: nat): seq<Buffer> {
    if |queue| == 0 then []
    else PacketsOf(queue[0], mainSeq) + PacketsFrom(queue[1..], (mainSeq + 1) % 65536)
  }

  /** n rounds of the worker without a new message. */
  function Rounds(s: State, amounts: nat -> nat -> nat, n: nat): State
    decreases n
  {
    if n == 0 then s else Rounds(Work(s, amounts(0)), (i: nat) => amounts(i + 1), n - 1)
  }

  lemma NothingFrom(mainSeq: nat)
    ensures PacketsFrom([], mainSeq) == []
  {
  }

  /** A round on an open channel moves packets to the wire and leaves the order of all that is sent,
      waits or is queued. */
  lemma OpenRound(s: State, amounts: nat -> nat)
    requires SmallPackets(s.resend) && Open(amounts) && s.mainSeq < 65536 && |s.resend| + |s.queue| > 0
    ensures var t := Work(s, amounts);
      && |t.resend| + |t.queue| == |s.resend| + |s.queue| - 1
      && SmallPackets(t.resend) && t.mainSeq < 65536 && t.lost == s.lost
      && t.started + t.queue == s.started + s.queue
      && t.wire + t.resend + PacketsFrom(t.queue, t.mainSeq) == s.wire + s.resend + PacketsFrom(s.queue, s.mainSeq)
  {
    hide SendPacket, ResendPacket, PacketsOf;
    if s.resend != [] {
      OpenChannelResends(s, amounts);
      assert s.resend == [s.resend[0]] + s.resend[1..];
    } else {
      OpenChannelSendsMessage(s, amounts);
      assert s.queue == [s.queue[0]] + s.queue[1..];
    }
  }

  /** While the channel stays open the worker empties the resend queue, oldest packet first, and then
      the message queue, oldest message first. */
  lemma {:induction false} OpenChannelDrains(s: State, amounts: nat -> nat -> nat)
    requires SmallPackets(s.resend) && s.mainSeq < 65536 && forall i: nat :: Open(amounts(i))
    ensures var t := Rounds(s, amounts, |s.resend| + |s.queue|);
      && t.queue == [] && t.resend == [] && t.lost == s.lost
      && t.started == s.started + s.queue
      && t.wire == s.wire + s.resend + PacketsFrom(s.queue, s.mainSeq)
    decreases |s.resend| + |s.queue|
  {
    hide Work, PacketsOf, PacketsFrom, Open, SmallPackets;
    var later, n := (i: nat) => amounts(i + 1), |s.resend| + |s.queue|;
    if n == 0 {
      NothingFrom(s.mainSeq);
      assert s.wire == s.wire + [] + [] && s.started == s.started + [];
    } else {
      OpenRound(s, amounts(0));
      var t := Work(s, amounts(0));
      assert forall i: nat :: later(i) == amounts(i + 1);
      OpenChannelDrains(t, later);
      assert Rounds(s, amounts, n) == Rounds(t, later, n - 1);
      assert s.wire + s.resend + PacketsFrom(s.queue, s.mainSeq) == t.wire + t.resend + PacketsFrom(t.queue, t.mainSeq);
    }
  }

  lemma {:induction false} RoundsKeepInv(s: State, amounts: nat -> nat -> nat, n: nat)
    requires Inv(s)
    ensures Inv(Rounds(s, amounts, n))
    decreases n
  {
    hide Inv;
    if n == 0 {
    } else {
      StepKeepsInv(s, Round(amounts(0)));
      RoundsKeepInv(Work(s, amounts(0)), (i: nat) => amounts(i + 1), n - 1);
    }
  }

  /** What waits to be resent are packets of the last message, so none is longer than 1170 bytes. */
  lemma WaitingIsSmall(s: State)
    requires Inv(s)
    ensures SmallPackets(s.resend) && s.mainSeq < 65536
  {
    hide PacketsOf, LastPackets, Blocks, AllPackets;
    forall i | 0 <= i < |s.resend| ensures |s.resend[i].bytes| <= 1170 {
      SomethingWaits(s.started, s.wire, s.resend);
      LastOfAll(s.started, s.wire, s.resend);
      InLastPackets(s.started, s.resend[i]);
    }
  }

  lemma SomethingWaits(started: seq<Buffer>, wire: seq<Buffer>, missing: seq<Buffer>)
    requires Blocks(started, wire, missing) && missing != []
    ensures started != []
  {
  }

  lemma InLastPackets(started: seq<Buffer>, p: Buffer)
    requires started != [] && p in multiset(LastPackets(started))
    ensures |p.bytes| <= 1170
  {
    var last, mainSeq := started[|started| - 1], SeqOf(|started| - 1);
    var i :| 0 <= i < |PacketsOf(last, mainSeq)| && PacketsOf(last, mainSeq)[i] == p;
    PacketSizes(last, mainSeq, i);
  }

  // ----- Messages are taken in order -----

  function Submitted(events: seq<Event>): seq<Buffer> {
    if |events| == 0 then []
    else
      var e := events[|events| - 1];
      Submitted(events[..|events| - 1]) + if e.Submit? then [e.message] else []
  }

  /** A message is queued last, exactly when less than 64 MiB are queued before it. */
  lemma AcceptedIffBelowLimit(s: State, message: Buffer)
    ensures Split(s, message)
         == if TotalBytes(s.queue) < 64 * 1024 * 1024 then s.(queue := s.queue + [message]) else s
  {
  }

  lemma WorkTakesInOrder(s: State, amounts: nat -> nat)
    ensures var t := Work(s, amounts);
      t.started + t.queue == s.started + s.queue && TotalBytes(t.queue) <= TotalBytes(s.queue)
  {
    hide TotalBytes;
    if s.resend == [] && s.queue != [] {
      var popped := s.(queue := s.queue[1..], started := s.started + [s.queue[0]]);
      var packets := PacketsOf(s.queue[0], s.mainSeq);
      EmitKeepsQueue(popped, packets, amounts, |packets|);
      TailTotal(s.queue);
      assert s.queue == [s.queue[0]] + s.queue[1..];
    }
  }

  lemma {:induction false} EmitKeepsQueue(s: State, packets: seq<Buffer>, amounts: nat -> nat, n: nat)
    requires n <= |packets|
    ensures Emit(s, packets, amounts, n).queue == s.queue && Emit(s, packets, amounts, n).started == s.started
  {
    if n == 0 {
    } else {
      EmitKeepsQueue(s, packets, amounts, n - 1);
    }
  }

  /** As long as all submitted bytes are less than 64 MiB, the messages started and those still queued
      are the submitted ones, in order: none is refused. */
  lemma {:induction false} StartedInOrder(events: seq<Event>)
    requires TotalBytes(Submitted(events)) < 64 * 1024 * 1024
    ensures var s := Run(INITIAL, events);
      s.started + s.queue == Submitted(events) && TotalBytes(s.queue) <= TotalBytes(Submitted(events))
  {
    hide Work, TotalBytes;
    if |events| == 0 {
      assert Submitted(events) == [];
    } else {
      var before, e := events[..|events| - 1], events[|events| - 1];
      var s := Run(INITIAL, before);
      match e
      case Submit(message) =>
        TotalAppend(Submitted(before), message);
        StartedInOrder(before);
        TotalAppend(s.queue, message);
      case Round(amounts) =>
        assert Submitted(events) == Submitted(before);
        StartedInOrder(before);
        WorkTakesInOrder(s, amounts);
    }
  }
}
