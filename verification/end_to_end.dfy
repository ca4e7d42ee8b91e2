/** Sender and receiver together: what the wire carries, received in order, hands back the
    messages in order, however congested the channel was and however often the 16-bit main
    sequence number wrapped. */
module EndToEnd {
  import opened Bytes
  import opened PacketFormat
  import Sender
  import opened Receiver

  predicate Framed(ps: seq<Buffer>) {
    forall i :: 0 <= i < |ps| ==> |ps[i].bytes| >= HEADER
  }

  lemma FramedPrefix(ps: seq<Buffer>, k: nat)
    requires Framed(ps) && k <= |ps|
    ensures Framed(ps[..k])
  {
  }

  function ReceiveAll(s: State, ps: seq<Buffer>): State
    requires Framed(ps)
  {
    if |ps| == 0 then s else Receive(ReceiveAll(s, ps[..|ps| - 1]), ps[|ps| - 1])
  }

  lemma {:induction false} ReceiveConcat(s: State, ps: seq<Buffer>, qs: seq<Buffer>)
    requires Framed(ps) && Framed(qs)
    ensures ReceiveAll(s, ps + qs) == ReceiveAll(ReceiveAll(s, ps), qs)
  {
    hide Receive;
    if qs == [] {
      assert ps + qs == ps;
    } else {
      var qs' := qs[..|qs| - 1];
      ReceiveConcat(s, ps, qs');
      assert (ps + qs)[..|ps + qs| - 1] == ps + qs';
    }
  }

  // ----- One message's packets in any order -----

  ghost predicate NoRepeat(ps: seq<Buffer>) {
    forall i, j :: 0 <= i < j < |ps| ==> ps[i] != ps[j]
  }

  lemma {:induction false} NoRepeatBag(ps: seq<Buffer>, x: Buffer)
    requires NoRepeat(ps)
    ensures multiset(ps)[x] <= 1
  {
    if ps == [] {
    } else {
      var ps' := ps[..|ps| - 1];
      NoRepeatBag(ps', x);
      assert ps == ps' + [ps[|ps| - 1]];
      assert ps[|ps| - 1] !in multiset(ps');
    }
  }

  /** A permutation of a sequence without repetition has none either. */
  lemma NoRepeatPermutation(ps: seq<Buffer>, qs: seq<Buffer>)
    requires NoRepeat(ps) && multiset(qs) == multiset(ps)
    ensures NoRepeat(qs)
  {
    forall i, j | 0 <= i < j < |qs| ensures qs[i] != qs[j] {
      NoRepeatBag(ps, qs[i]);
      assert qs == qs[..j] + [qs[j]] + qs[j + 1..];
      assert qs[..j][i] in multiset(qs[..j]);
    }
  }

  lemma PacketsDiffer(message: Buffer, mainSeq: nat)
    requires |message.bytes| <= MAX_MESSAGE && mainSeq < UINT16
    ensures NoRepeat(PacketsOf(message, mainSeq))
  {
    var ps := PacketsOf(message, mainSeq);
    forall i, j | 0 <= i < j < |ps| ensures ps[i] != ps[j] {
      ArrivingFields(message, mainSeq, i);
      ArrivingFields(message, mainSeq, j);
    }
  }

  /** Where a packet of a message belongs. */
  function SubOf(p: Buffer): nat {
    if |p.bytes| >= HEADER then HeaderOf(p.bytes).subSeq else 0
  }

  ghost predicate IsBlock(message: Buffer, mainSeq: nat, block: seq<Buffer>) {
    && |message.bytes| <= MAX_MESSAGE && mainSeq < UINT16
    && multiset(block) == multiset(PacketsOf(message, mainSeq))
  }

  lemma BlockPacket(message: Buffer, mainSeq: nat, block: seq<Buffer>, k: nat)
    requires IsBlock(message, mainSeq, block) && k < |block|
    ensures SubOf(block[k]) < SliceCount(|message.bytes|)
    ensures block[k] == PacketAt(message, mainSeq, SubOf(block[k])) && |block[k].bytes| >= HEADER
  {
    var ps := PacketsOf(message, mainSeq);
    assert block[k] in multiset(block) && block[k] in multiset(ps);
    var i :| 0 <= i < |ps| && ps[i] == block[k];
    ArrivingFields(message, mainSeq, i);
  }

  lemma BlockFramed(message: Buffer, mainSeq: nat, block: seq<Buffer>)
    requires IsBlock(message, mainSeq, block)
    ensures Framed(block) && |block| == SliceCount(|message.bytes|)
    ensures |message.bytes| <= MAX_MESSAGE && mainSeq < UINT16
  {
    assert |multiset(block)| == |multiset(PacketsOf(message, mainSeq))|;
    forall k | 0 <= k < |block| ensures |block[k].bytes| >= HEADER {
      BlockPacket(message, mainSeq, block, k);
    }
  }

  /** The sub packet numbers still missing after the first k packets of a block. */
  ghost function Missing(message: Buffer, block: seq<Buffer>, k: nat): set<int>
    requires k <= |block|
  {
    if k == 0 then Upto(SliceCount(|message.bytes|)) else Missing(message, block, k - 1) - {SubOf(block[k - 1])}
  }

  lemma BlockDiffers(message: Buffer, mainSeq: nat, block: seq<Buffer>)
    requires IsBlock(message, mainSeq, block)
    ensures NoRepeat(block)
  {
    BlockFramed(message, mainSeq, block);
    hide PacketsOf;
    PacketsDiffer(message, mainSeq);
    NoRepeatPermutation(PacketsOf(message, mainSeq), block);
  }

  lemma {:induction false} MissingLater(message: Buffer, mainSeq: nat, block: seq<Buffer>, k: nat, j: nat)
    requires IsBlock(message, mainSeq, block) && k <= j < |block|
    ensures SubOf(block[j]) in Missing(message, block, k)
  {
    hide IsBlock, PacketsOf, PacketAt, SubOf, SliceCount;
    BlockPacket(message, mainSeq, block, j);
    if k == 0 {
    } else {
      MissingLater(message, mainSeq, block, k - 1, j);
      BlockPacket(message, mainSeq, block, k - 1);
      BlockDiffers(message, mainSeq, block);
      assert block[k - 1] != block[j];
    }
  }

  lemma AllMissing(message: Buffer, block: seq<Buffer>)
    ensures Missing(message, block, 0) == Upto(SliceCount(|message.bytes|))
  {
  }

  lemma NoLongerMissing(message: Buffer, block: seq<Buffer>, k: nat)
    requires 0 < k <= |block| && SubOf(block[k - 1]) in Missing(message, block, k - 1)
    ensures Missing(message, block, k) <= Missing(message, block, k - 1)
    ensures |Missing(message, block, k)| == |Missing(message, block, k - 1)| - 1
  {
    hide SubOf;
  }

  lemma {:induction false} MissingSize(message: Buffer, mainSeq: nat, block: seq<Buffer>, k: nat)
    requires IsBlock(message, mainSeq, block) && k <= |block|
    ensures Missing(message, block, k) <= Upto(SliceCount(|message.bytes|))
    ensures |Missing(message, block, k)| == |block| - k
  {
    hide IsBlock, SubOf, SliceCount, Framed, Missing, Upto;
    BlockFramed(message, mainSeq, block);
    if k == 0 {
      AllMissing(message, block);
    } else {
      MissingSize(message, mainSeq, block, k - 1);
      MissingLater(message, mainSeq, block, k - 1, k - 1);
      NoLongerMissing(message, block, k);
    }
  }

  /** t is s after part of a message arrived: its slices are filed, nothing is handed over. */
  ghost predicate PartReceived(s: State, t: State, message: Buffer, mainSeq: nat, rest: set<int>) {
    && t.delivered == s.delivered && t.incomplete - {mainSeq} == s.incomplete
    && FiledSlices(t, mainSeq, message.bytes, rest)
  }

  lemma PartStep(s: State, t: State, message: Buffer, mainSeq: nat, rest: set<int>, sub: nat)
    requires 1 <= |message.bytes| <= MAX_MESSAGE && mainSeq < UINT16
    requires rest <= Upto(SliceCount(|message.bytes|)) && sub in rest && rest != {sub}
    requires PartReceived(s, t, message, mainSeq, rest)
    ensures |PacketAt(message, mainSeq, sub).bytes| >= HEADER
    ensures PartReceived(s, Receive(t, PacketAt(message, mainSeq, sub)), message, mainSeq, rest - {sub})
  {
    hide PacketAt, Arrived, SliceCount, Receive, Upto;
    ReceiveArrival(t, message, mainSeq, rest, sub);
    var parts := Arrived(message.bytes, rest - {sub});
    var t' := t.(incomplete := t.incomplete[mainSeq := parts]);
    NowFiled(t', mainSeq, message.bytes, rest, sub);
    hide FiledSlices;
    assert t'.incomplete - {mainSeq} == t.incomplete - {mainSeq};
  }

  lemma NothingReceived(s: State, message: Buffer, mainSeq: nat)
    requires mainSeq !in s.incomplete
    ensures PartReceived(s, s, message, mainSeq, Upto(SliceCount(|message.bytes|)))
  {
    assert s.incomplete - {mainSeq} == s.incomplete;
  }

  lemma {:induction false} PartOfBlock(s: State, message: Buffer, mainSeq: nat, block: seq<Buffer>, k: nat)
    requires IsBlock(message, mainSeq, block) && mainSeq !in s.incomplete && k < |block|
    ensures Framed(block[..k])
    ensures PartReceived(s, ReceiveAll(s, block[..k]), message, mainSeq, Missing(message, block, k))
  {
    hide Receive, PacketAt, PartReceived, SliceCount, IsBlock, SubOf, Framed, Upto, PacketsOf;
    BlockFramed(message, mainSeq, block);
    FramedPrefix(block, k);
    if k == 0 {
      NothingReceived(s, message, mainSeq);
    } else {
      PartOfBlock(s, message, mainSeq, block, k - 1);
      BlockPacket(message, mainSeq, block, k - 1);
      MissingLater(message, mainSeq, block, k - 1, k - 1);
      MissingSize(message, mainSeq, block, k - 1);
      NonemptyWithSlices(message);
      var t, rest, sub := ReceiveAll(s, block[..k - 1]), Missing(message, block, k - 1), SubOf(block[k - 1]);
      NotSingle(rest, sub);
      PartStep(s, t, message, mainSeq, rest, sub);
      assert block[..k][..k - 1] == block[..k - 1];
    }
  }

  lemma NotSingle(s: set<int>, x: int)
    requires |s| > 1
    ensures s != {x}
  {
  }

  lemma NonemptyWithSlices(message: Buffer)
    requires SliceCount(|message.bytes|) > 0
    ensures |message.bytes| >= 1
  {
  }

  /** All packets of a message, in any order, hand over exactly that message. */
  lemma BlockDelivers(s: State, message: Buffer, mainSeq: nat, block: seq<Buffer>)
    requires IsBlock(message, mainSeq, block) && mainSeq !in s.incomplete && message.bytes != []
    ensures Framed(block)
    ensures ReceiveAll(s, block) == s.(delivered := s.delivered + [message])
  {
    BlockFramed(message, mainSeq, block);
    FramedPrefix(block, |block| - 1);
    SomeSlices(message.bytes);
    hide Receive, PacketAt, Arrived, SliceCount, FiledSlices;
    var last := |block| - 1;
    PartOfBlock(s, message, mainSeq, block, last);
    var t, rest, sub := ReceiveAll(s, block[..last]), Missing(message, block, last), SubOf(block[last]);
    BlockPacket(message, mainSeq, block, last);
    MissingLater(message, mainSeq, block, last, last);
    MissingSize(message, mainSeq, block, last);
    ReceiveArrival(t, message, mainSeq, rest, sub);
    OneElement(rest, sub);
  }

  lemma OneElement(s: set<int>, x: int)
    requires |s| == 1 && x in s
    ensures s == {x}
  {
    assert |s - {x}| == 0;
  }

  // ----- The wire delivers the messages -----

  /** The nonempty buffers among ps that belong to one of the channels. */
  function OnChannels(ps: seq<Buffer>, channels: set<nat>): seq<Buffer> {
    if |ps| == 0 then []
    else
      var last := ps[|ps| - 1];
      OnChannels(ps[..|ps| - 1], channels) + (if last.channel in channels && last.bytes != [] then [last] else [])
  }

  lemma {:induction false} OnChannelsConcat(ps: seq<Buffer>, qs: seq<Buffer>, channels: set<nat>)
    ensures OnChannels(ps + qs, channels) == OnChannels(ps, channels) + OnChannels(qs, channels)
  {
    if qs == [] {
      assert ps + qs == ps;
    } else {
      OnChannelsConcat(ps, qs[..|qs| - 1], channels);
      assert (ps + qs)[..|ps + qs| - 1] == ps + qs[..|qs| - 1];
    }
  }

  lemma {:induction false} OnOneChannel(ps: seq<Buffer>, channel: nat, channels: set<nat>)
    requires forall i :: 0 <= i < |ps| ==> ps[i].channel == channel && ps[i].bytes != []
    ensures OnChannels(ps, channels) == if channel in channels then ps else []
  {
    if ps == [] {
    } else {
      OnOneChannel(ps[..|ps| - 1], channel, channels);
    }
  }

  lemma {:induction false} OnChannelsFramed(ps: seq<Buffer>, channels: set<nat>)
    requires Framed(ps)
    ensures Framed(OnChannels(ps, channels))
  {
    if ps == [] {
    } else {
      OnChannelsFramed(ps[..|ps| - 1], channels);
    }
  }

  lemma OnOneMessage(message: Buffer, channels: set<nat>)
    ensures OnChannels([message], channels)
         == if message.channel in channels && message.bytes != [] then [message] else []
  {
    assert [message][..0] == [];
  }

  /** A block's packets are all on the message's channel and none is empty. */
  lemma BlockOnOneChannel(message: Buffer, mainSeq: nat, block: seq<Buffer>, channels: set<nat>)
    requires IsBlock(message, mainSeq, block)
    ensures OnChannels(block, channels) == if message.channel in channels then block else []
    ensures message.bytes == [] ==> block == []
  {
    BlockFramed(message, mainSeq, block);
    hide IsBlock, PacketsOf, OnChannels, Packet;
    forall k | 0 <= k < |block| ensures block[k].channel == message.channel && block[k].bytes != [] {
      BlockPacket(message, mainSeq, block, k);
    }
    OnOneChannel(block, message.channel, channels);
  }

  /** One block, seen by a receiver of some channels. */
  lemma BlockOnChannels(s: State, message: Buffer, mainSeq: nat, block: seq<Buffer>, channels: set<nat>)
    requires IsBlock(message, mainSeq, block) && s.incomplete == map[]
    ensures Framed(block) && Framed(OnChannels(block, channels))
    ensures ReceiveAll(s, OnChannels(block, channels))
         == s.(delivered := s.delivered + OnChannels([message], channels))
  {
    hide Receive, PacketsOf, PacketAt, IsBlock, SliceCount, OnChannels;
    OnOneMessage(message, channels);
    BlockOnOneChannel(message, mainSeq, block, channels);
    if message.bytes != [] {
      BlockDelivers(s, message, mainSeq, block);
    }
  }

  lemma LastBlock(started: seq<Buffer>, wire: seq<Buffer>)
    requires Sender.Safe(started) && started != [] && Sender.Blocks(started, wire, [])
    ensures var n, from := |started| - 1, |wire| - |Sender.LastPackets(started)|;
      && 0 <= from && Sender.Safe(started[..n]) && Sender.Blocks(started[..n], wire[..from], [])
      && IsBlock(started[n], Sender.SeqOf(n), wire[from..])
  {
    hide PacketsOf, SliceCount, Sender.LastPackets, Sender.Blocks, Sender.AllPackets, IsBlock;
    Sender.LastOfAll(started, wire, []);
    var from := |wire| - |Sender.LastPackets(started)|;
    assert multiset(wire[from..]) + multiset([]) == multiset(wire[from..]);
    MakesBlock(started, wire[from..]);
  }

  lemma MakesBlock(started: seq<Buffer>, block: seq<Buffer>)
    requires Sender.Safe(started) && started != [] && multiset(block) == multiset(Sender.LastPackets(started))
    ensures IsBlock(started[|started| - 1], Sender.SeqOf(|started| - 1), block)
  {
    hide PacketsOf;
  }

  /** Receiving two stretches of the wire, one after the other. */
  lemma TwoStretches(s: State, before: seq<Buffer>, block: seq<Buffer>, channels: set<nat>)
    requires Framed(before) && Framed(block)
    ensures Framed(before + block) && Framed(OnChannels(before + block, channels))
    ensures Framed(OnChannels(before, channels)) && Framed(OnChannels(block, channels))
    ensures ReceiveAll(s, OnChannels(before + block, channels))
         == ReceiveAll(ReceiveAll(s, OnChannels(before, channels)), OnChannels(block, channels))
  {
    hide Receive, ReceiveAll, OnChannels;
    FramedConcat(before, block);
    OnChannelsFramed(before, channels);
    OnChannelsFramed(block, channels);
    OnChannelsFramed(before + block, channels);
    OnChannelsConcat(before, block, channels);
    ReceiveConcat(s, OnChannels(before, channels), OnChannels(block, channels));
  }

  lemma EmptyWire(wire: seq<Buffer>, channels: set<nat>)
    requires Sender.Blocks([], wire, [])
    ensures Framed(wire) && Framed(OnChannels(wire, channels))
    ensures ReceiveAll(INITIAL, OnChannels(wire, channels)) == State(map[], OnChannels([], channels))
  {
  }

  lemma {:induction false} BlocksDeliver(started: seq<Buffer>, wire: seq<Buffer>, channels: set<nat>)
    requires Sender.Safe(started) && Sender.Blocks(started, wire, [])
    ensures Framed(wire) && Framed(OnChannels(wire, channels))
    ensures ReceiveAll(INITIAL, OnChannels(wire, channels)) == State(map[], OnChannels(started, channels))
  {
    hide PacketsOf, Receive, SliceCount, Sender.Blocks, IsBlock, Sender.Safe, Sender.LastPackets, ReceiveAll, Framed,
      OnChannels;
    if started == [] {
      EmptyWire(wire, channels);
    } else {
      LastBlock(started, wire);
      var n, from := |started| - 1, |wire| - |Sender.LastPackets(started)|;
      var before, block := wire[..from], wire[from..];
      BlocksDeliver(started[..n], before, channels);
      var t := State(map[], OnChannels(started[..n], channels));
      BlockOnChannels(t, started[n], Sender.SeqOf(n), block, channels);
      assert wire == before + block && started == started[..n] + [started[n]];
      OnChannelsConcat(started[..n], [started[n]], channels);
      TwoStretches(INITIAL, before, block, channels);
    }
  }

  lemma FramedConcat(ps: seq<Buffer>, qs: seq<Buffer>)
    requires Framed(ps) && Framed(qs)
    ensures Framed(ps + qs)
  {
  }

  // ----- While packets wait to be resent -----

  /** What is on the wire of the last message, with what waits, is its block. */
  lemma LastBlockUnfinished(started: seq<Buffer>, wire: seq<Buffer>, missing: seq<Buffer>)
    requires Sender.Safe(started) && Sender.Blocks(started, wire, missing) && missing != []
    ensures started != []
    ensures var n, from := |started| - 1, |wire| - (|Sender.LastPackets(started)| - |missing|);
      && 0 <= from <= |wire| && Sender.Safe(started[..n]) && Sender.Blocks(started[..n], wire[..from], [])
      && IsBlock(started[n], Sender.SeqOf(n), wire[from..] + missing)
  {
    hide PacketsOf, SliceCount, Sender.LastPackets, Sender.Blocks, Sender.AllPackets, IsBlock;
    SomethingStarted(started, wire, missing);
    Sender.LastOfAll(started, wire, missing);
    var from := |wire| - (|Sender.LastPackets(started)| - |missing|);
    assert multiset(wire[from..] + missing) == multiset(wire[from..]) + multiset(missing);
    MakesBlock(started, wire[from..] + missing);
  }

  lemma SomethingStarted(started: seq<Buffer>, wire: seq<Buffer>, missing: seq<Buffer>)
    requires Sender.Blocks(started, wire, missing) && missing != []
    ensures started != []
  {
  }

  /** The packets of `part` are filed, and nothing more is handed over. */
  lemma PartOnChannels(s: State, message: Buffer, mainSeq: nat, part: seq<Buffer>, missing: seq<Buffer>,
                       channels: set<nat>)
    returns (rest: set<int>)
    requires IsBlock(message, mainSeq, part + missing) && missing != [] && s.incomplete == map[]
    ensures Framed(part) && Framed(OnChannels(part, channels))
    ensures message.channel !in channels ==> ReceiveAll(s, OnChannels(part, channels)) == s
    ensures message.channel in channels ==>
              && |rest| == |missing|
              && PartReceived(s, ReceiveAll(s, OnChannels(part, channels)), message, mainSeq, rest)
  {
    hide Receive, PacketsOf, PacketAt, IsBlock, SliceCount, OnChannels, PartReceived, Missing, SubOf;
    var block, k := part + missing, |part|;
    BlockFramed(message, mainSeq, block);
    assert block[..k] == part;
    FramedPrefix(block, k);
    OnChannelsFramed(part, channels);
    forall i | 0 <= i < |part| ensures part[i].channel == message.channel && part[i].bytes != [] {
      assert part[i] == block[i];
      BlockPacketPlace(message, mainSeq, block, i);
    }
    OnOneChannel(part, message.channel, channels);
    PartOfBlock(s, message, mainSeq, block, k);
    MissingSize(message, mainSeq, block, k);
    rest := Missing(message, block, k);
  }

  lemma BlockPacketPlace(message: Buffer, mainSeq: nat, block: seq<Buffer>, k: nat)
    requires IsBlock(message, mainSeq, block) && k < |block|
    ensures block[k].channel == message.channel && block[k].bytes != []
  {
    BlockPacket(message, mainSeq, block, k);
  }

  /** What a peer of some channels holds: `n` messages are handed over, and if there are unfinished
      packets, only those of the next message are filed. */
  ghost predicate HoldsSoFar(t: State, started: seq<Buffer>, missing: seq<Buffer>, channels: set<nat>, rest: set<int>) {
    if missing == [] then t == State(map[], OnChannels(started, channels))
    else
      && started != []
      && var n := |started| - 1;
         && t.delivered == OnChannels(started[..n], channels)
         && (started[n].channel !in channels ==> t.incomplete == map[])
         && (started[n].channel in channels ==>
               && t.incomplete.Keys <= {Sender.SeqOf(n)} && |rest| == |missing|
               && FiledSlices(t, Sender.SeqOf(n), started[n].bytes, rest))
  }

  lemma PartHeld(s: State, t: State, started: seq<Buffer>, missing: seq<Buffer>, channels: set<nat>, rest: set<int>)
    requires started != [] && missing != [] && s == State(map[], OnChannels(started[..|started| - 1], channels))
    requires started[|started| - 1].channel !in channels ==> t == s
    requires started[|started| - 1].channel in channels ==>
               && |rest| == |missing|
               && PartReceived(s, t, started[|started| - 1], Sender.SeqOf(|started| - 1), rest)
    ensures HoldsSoFar(t, started, missing, channels, rest)
  {
    hide OnChannels, FiledSlices;
    var m := Sender.SeqOf(|started| - 1);
    if started[|started| - 1].channel in channels {
      assert forall k :: k in t.incomplete && k != m ==> k in t.incomplete - {m};
    }
  }

  /** Whatever the congestion and whenever one looks, a peer that was given the wire's packets of any
      set of channels, in order, has been handed exactly the nonempty messages sent on those channels,
      in the order they were sent, but for the last message while packets of it wait to be resent;
      it then holds the slices of that message that were sent, and nothing else. */
  lemma WireDeliversMessages(events: seq<Sender.Event>, channels: set<nat>) returns (rest: set<int>)
    requires Sender.SafeEvents(events)
    ensures var s := Sender.Run(Sender.INITIAL, events);
      && Framed(OnChannels(s.wire, channels))
      && HoldsSoFar(ReceiveAll(INITIAL, OnChannels(s.wire, channels)), s.started, s.resend, channels, rest)
  {
    hide PacketsOf, Receive, SliceCount, Sender.Blocks, IsBlock, Sender.Safe, Sender.LastPackets, ReceiveAll, Framed,
      OnChannels, PartReceived, FiledSlices, Sender.Run;
    Sender.RunKeepsInv(events);
    var s := Sender.Run(Sender.INITIAL, events);
    rest := {};
    if s.resend == [] {
      BlocksDeliver(s.started, s.wire, channels);
    } else {
      LastBlockUnfinished(s.started, s.wire, s.resend);
      var n, from := |s.started| - 1, |s.wire| - (|Sender.LastPackets(s.started)| - |s.resend|);
      var before, part := s.wire[..from], s.wire[from..];
      BlocksDeliver(s.started[..n], before, channels);
      var t := State(map[], OnChannels(s.started[..n], channels));
      rest := PartOnChannels(t, s.started[n], Sender.SeqOf(n), part, s.resend, channels);
      assert s.wire == before + part;
      TwoStretches(INITIAL, before, part, channels);
      PartHeld(t, ReceiveAll(t, OnChannels(part, channels)), s.started, s.resend, channels, rest);
    }
  }

  // ----- Once the channel opens -----

  /** After any run and any congestion, once the channel stays open the worker's next rounds bring
      every message started or queued to the peers, in order: as many rounds as packets wait and
      messages are queued. */
  lemma EverythingArrives(events: seq<Sender.Event>, amounts: nat -> nat -> nat, channels: set<nat>)
    requires Sender.SafeEvents(events) && forall i: nat :: Sender.Open(amounts(i))
    ensures var s := Sender.Run(Sender.INITIAL, events);
      var t := Sender.Rounds(s, amounts, |s.resend| + |s.queue|);
      && Framed(OnChannels(t.wire, channels))
      && ReceiveAll(INITIAL, OnChannels(t.wire, channels)) == State(map[], OnChannels(s.started + s.queue, channels))
  {
    hide Sender.Run, Sender.Rounds, Sender.Blocks, Sender.Open, Sender.PacketsFrom, Receive, ReceiveAll, Framed, OnChannels;
    Sender.RunKeepsInv(events);
    var s := Sender.Run(Sender.INITIAL, events);
    Sender.WaitingIsSmall(s);
    Sender.OpenChannelDrains(s, amounts);
    Sender.RoundsKeepInv(s, amounts, |s.resend| + |s.queue|);
    var t := Sender.Rounds(s, amounts, |s.resend| + |s.queue|);
    BlocksDeliver(t.started, t.wire, channels);
  }

  /** So whatever is submitted arrives, when it is less than 64 MiB in all. */
  lemma SubmittedArrives(events: seq<Sender.Event>, amounts: nat -> nat -> nat, channels: set<nat>)
    requires Sender.SafeEvents(events) && forall i: nat :: Sender.Open(amounts(i))
    requires Sender.TotalBytes(Sender.Submitted(events)) < 64 * 1024 * 1024
    ensures var s := Sender.Run(Sender.INITIAL, events);
      var t := Sender.Rounds(s, amounts, |s.resend| + |s.queue|);
      && Framed(OnChannels(t.wire, channels))
      && ReceiveAll(INITIAL, OnChannels(t.wire, channels)) == State(map[], OnChannels(Sender.Submitted(events), channels))
  {
    hide Sender.Run, Sender.Rounds, Sender.Open, Sender.TotalBytes, Sender.Submitted, ReceiveAll, Framed, OnChannels;
    Sender.StartedInOrder(events);
    EverythingArrives(events, amounts, channels);
  }

  // ----- The longest message that survives -----

  ghost function FirstParts(bytes: seq<byte>, k: nat): Parts
    requires k <= SliceCount(|bytes|)
  {
    map i | i in Upto(k) :: Slice(bytes, i)
  }

  lemma FirstPartsGrow(bytes: seq<byte>, k: nat)
    requires k < SliceCount(|bytes|)
    ensures FirstParts(bytes, k + 1) == FirstParts(bytes, k)[k := Slice(bytes, k)]
    ensures |FirstParts(bytes, k)| == k
  {
    assert FirstParts(bytes, k).Keys == Upto(k);
  }

  /** The fields of any packet; count and number are cut to 16 bits. */
  lemma AnyFields(message: Buffer, mainSeq: nat, i: nat)
    requires mainSeq < UINT16 && i < SliceCount(|message.bytes|)
    ensures var p, n := PacketAt(message, mainSeq, i), SliceCount(|message.bytes|);
      && |p.bytes| >= HEADER && p.channel == message.channel
      && HeaderOf(p.bytes) == Header(1, |Slice(message.bytes, i)|, n % UINT16, mainSeq, i % UINT16)
      && PayloadOf(p.bytes) == Slice(message.bytes, i)
  {
    hide Slice, SliceCount;
    PacketRoundTrip(SliceCount(|message.bytes|) % UINT16, mainSeq, i % UINT16, Slice(message.bytes, i));
    hide Packet, HeaderOf, PayloadOf;
  }

  lemma PacketsFramed(message: Buffer, mainSeq: nat)
    requires mainSeq < UINT16
    ensures Framed(PacketsOf(message, mainSeq))
  {
    var ps := PacketsOf(message, mainSeq);
    forall i | 0 <= i < |ps| ensures |ps[i].bytes| >= HEADER {
      AnyFields(message, mainSeq, i);
    }
  }

  lemma ReceiveGrows(s: State, p: Buffer)
    requires |p.bytes| >= HEADER
    ensures s.delivered <= Receive(s, p).delivered
  {
  }

  lemma {:induction false} DeliveredGrows(s: State, ps: seq<Buffer>, k: nat)
    requires Framed(ps) && k <= |ps|
    ensures ReceiveAll(s, ps[..k]).delivered <= ReceiveAll(s, ps).delivered
  {
    hide Receive;
    if k == |ps| {
      assert ps[..k] == ps;
    } else {
      var before := ps[..|ps| - 1];
      DeliveredGrows(s, before, k);
      assert before[..k] == ps[..k];
      ReceiveGrows(ReceiveAll(s, before), ps[|ps| - 1]);
    }
  }

  /** What is filed after the first k packets of a long message, in order. */
  ghost function FiledInOrder(message: Buffer, mainSeq: nat, k: nat): map<int, Parts>
    requires k <= SliceCount(|message.bytes|)
  {
    if k == 0 then map[] else map[mainSeq := FirstParts(message.bytes, k)]
  }

  lemma FileNext(message: Buffer, mainSeq: nat, k: nat, h: Header)
    requires k < SliceCount(|message.bytes|) && h.mainSeq == mainSeq && h.subSeq == k
    ensures Insert(FiledInOrder(message, mainSeq, k), h, Slice(message.bytes, k))
         == FiledInOrder(message, mainSeq, k + 1)
         == FiledInOrder(message, mainSeq, k)[mainSeq := FirstParts(message.bytes, k + 1)]
  {
    hide Slice, SliceCount, Upto;
    FirstPartsGrow(message.bytes, k);
    if k == 0 { assert FirstParts(message.bytes, 0) == map[]; }
  }

  /** Before the announced (truncated) count is reached, packets are only filed. */
  lemma {:induction false} OnlyFiled(message: Buffer, mainSeq: nat, k: nat)
    requires mainSeq < UINT16 && SliceCount(|message.bytes|) >= UINT16
    requires k < SliceCount(|message.bytes|) % UINT16
    ensures Framed(PacketsOf(message, mainSeq)[..k])
    ensures ReceiveAll(INITIAL, PacketsOf(message, mainSeq)[..k]) == State(FiledInOrder(message, mainSeq, k), [])
  {
    hide PacketAt, Framed, SliceCount, Slice, Receive, Insert, Upto, HeaderOf, PayloadOf;
    var ps, n := PacketsOf(message, mainSeq), SliceCount(|message.bytes|);
    PacketsFramed(message, mainSeq);
    FramedPrefix(ps, k);
    if k == 0 {
    } else {
      OnlyFiled(message, mainSeq, k - 1);
      AnyFields(message, mainSeq, k - 1);
      var h := Header(1, |Slice(message.bytes, k - 1)|, n % UINT16, mainSeq, k - 1);
      FileNext(message, mainSeq, k - 1, h);
      FirstPartsGrow(message.bytes, k);
      ReceiveFiled(State(FiledInOrder(message, mainSeq, k - 1), []), ps[k - 1], h, FirstParts(message.bytes, k));
      assert ps[..k][..k - 1] == ps[..k - 1] && ps[k - 1] == PacketAt(message, mainSeq, k - 1);
    }
  }

  lemma FirstPartAt(bytes: seq<byte>, k: nat, i: nat)
    requires k <= SliceCount(|bytes|)
    ensures i in FirstParts(bytes, k) <==> i < k
    ensures i < k ==> FirstParts(bytes, k)[i] == Slice(bytes, i)
  {
  }

  lemma {:induction false} JoinFirst(bytes: seq<byte>, k: nat, n: nat)
    requires k < SliceCount(|bytes|)
    ensures JoinParts(FirstParts(bytes, k), n) == Joined(bytes, if n <= k then n else k)
  {
    hide FirstParts, SliceCount, Slice;
    if n == 0 {
    } else {
      JoinFirst(bytes, k, n - 1);
      FirstPartAt(bytes, k, n - 1);
    }
  }

  lemma ShortOfTheEnd(length: nat, n: nat)
    requires n < SliceCount(length)
    ensures n * MAX_DATA < length
  {
  }

  /** At the truncated count a mere prefix of a long message is handed over. */
  lemma PrefixHandedOver(message: Buffer, mainSeq: nat)
    requires mainSeq < UINT16 && SliceCount(|message.bytes|) >= UINT16
    requires SliceCount(|message.bytes|) % UINT16 > 0
    ensures var t := SliceCount(|message.bytes|) % UINT16;
      && Framed(PacketsOf(message, mainSeq)[..t])
      && t * MAX_DATA < |message.bytes|
      && ReceiveAll(INITIAL, PacketsOf(message, mainSeq)[..t]).delivered
         == [Buffer(message.channel, message.bytes[..t * MAX_DATA])]
  {
    hide PacketAt, Framed, SliceCount, Slice, Receive, Insert, Upto, HeaderOf, PayloadOf, JoinParts;
    var ps, t := PacketsOf(message, mainSeq), SliceCount(|message.bytes|) % UINT16;
    PacketsFramed(message, mainSeq);
    FramedPrefix(ps, t);
    OnlyFiled(message, mainSeq, t - 1);
    AnyFields(message, mainSeq, t - 1);
    var h := Header(1, |Slice(message.bytes, t - 1)|, t, mainSeq, t - 1);
    FileNext(message, mainSeq, t - 1, h);
    FirstPartsGrow(message.bytes, t);
    ReceiveFiled(State(FiledInOrder(message, mainSeq, t - 1), []), ps[t - 1], h, FirstParts(message.bytes, t));
    JoinFirst(message.bytes, t, UINT16);
    JoinedIsPrefix(message.bytes, t);
    ShortOfTheEnd(|message.bytes|, t);
    assert ps[..t][..t - 1] == ps[..t - 1] && ps[t - 1] == PacketAt(message, mainSeq, t - 1);
  }

  lemma ZeroTotalNeverCompletes(s: State, p: Buffer)
    requires |p.bytes| >= HEADER && HeaderOf(p.bytes).total == 0
    ensures Receive(s, p).delivered == s.delivered
  {
    var h := HeaderOf(p.bytes);
    var parts := Insert(s.incomplete, h, PayloadOf(p.bytes))[h.mainSeq];
    assert h.subSeq in parts.Keys;
    assert |parts| == |parts.Keys| > 0;
  }

  lemma {:induction false} NothingHandedOver(message: Buffer, mainSeq: nat, k: nat)
    requires mainSeq < UINT16 && SliceCount(|message.bytes|) % UINT16 == 0
    requires k <= SliceCount(|message.bytes|)
    ensures Framed(PacketsOf(message, mainSeq)[..k])
    ensures ReceiveAll(INITIAL, PacketsOf(message, mainSeq)[..k]).delivered == []
  {
    hide PacketAt, Framed, SliceCount, Slice, Receive, HeaderOf, PayloadOf;
    var ps := PacketsOf(message, mainSeq);
    PacketsFramed(message, mainSeq);
    FramedPrefix(ps, k);
    if k == 0 {
    } else {
      NothingHandedOver(message, mainSeq, k - 1);
      AnyFields(message, mainSeq, k - 1);
      assert ps[..k][..k - 1] == ps[..k - 1] && ps[k - 1] == PacketAt(message, mainSeq, k - 1);
      ZeroTotalNeverCompletes(ReceiveAll(INITIAL, ps[..k - 1]), ps[k - 1]);
    }
  }

  lemma CountsAtTheBound(length: nat)
    ensures length > MAX_MESSAGE <==> SliceCount(length) >= UINT16
    ensures length == 0 <==> SliceCount(length) == 0
  {
  }

  /** A message's own packets, received in order, hand back exactly that message precisely when
      it has between 1 and 65535 * 1162 bytes: an empty message has no packets, and beyond the
      bound the 16-bit packet count announces too few slices. */
  lemma RoundTripIff(message: Buffer, mainSeq: nat)
    requires mainSeq < UINT16
    ensures Framed(PacketsOf(message, mainSeq))
    ensures ReceiveAll(INITIAL, PacketsOf(message, mainSeq)).delivered == [message]
       <==> 1 <= |message.bytes| <= 65535 * 1162
  {
    hide PacketAt, Framed, SliceCount, Slice, Receive, ReceiveAll;
    var ps, n := PacketsOf(message, mainSeq), SliceCount(|message.bytes|);
    PacketsFramed(message, mainSeq);
    CountsAtTheBound(|message.bytes|);
    assert ps[..n] == ps;
    if n % UINT16 == 0 {
      NothingHandedOver(message, mainSeq, n);
    } else if n < UINT16 {
      assert IsBlock(message, mainSeq, ps);
      BlockDelivers(INITIAL, message, mainSeq, ps);
    } else {
      PrefixHandedOver(message, mainSeq);
      DeliveredGrows(INITIAL, ps, n % UINT16);
      var prefix := message.bytes[..n % UINT16 * MAX_DATA];
      var delivered := ReceiveAll(INITIAL, ps).delivered;
      assert delivered != [] && delivered[0] == Buffer(message.channel, prefix);
      assert |prefix| < |message.bytes|;
    }
  }
}
