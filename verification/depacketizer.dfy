/** The depacketizer's object (vtsrtc/src/packet/depacketizer.cpp), whose worker round refines
    one receiver step. */
module Depacketizing {
  import opened Bytes
  import opened PacketFormat
  import opened Receiver
  import EndToEnd
  import Packetizing
  import WakeUp

  // ----- What can be put together -----

  /** The slices are numbered from 0 without a gap and all but the last are full, so that they fill
      the buffer sized from their number and the last one. */
  ghost predicate Assembles(parts: Parts, total: nat) {
    && 0 < total < UINT16
    && (forall i :: i in parts <==> 0 <= i < total)
    && (forall i :: 0 <= i < total - 1 ==> |parts[i]| == MAX_DATA)
  }

  /** A packet of this version and its announced length that, if it completes an entry, completes
      one that can be put together. */
  ghost predicate Receivable(s: State, packet: Buffer) {
    && |packet.bytes| >= HEADER
    && var h := HeaderOf(packet.bytes);
    var parts := Insert(s.incomplete, h, PayloadOf(packet.bytes))[h.mainSeq];
    h.version == 1 && h.payloadSize == |packet.bytes| - HEADER && (|parts| == h.total ==> Assembles(parts, h.total))
  }

  lemma {:induction false} JoinedLength(parts: Parts, total: nat, n: nat)
    requires Assembles(parts, total) && n <= total
    ensures |JoinParts(parts, n)| == if n < total then n * MAX_DATA else (n - 1) * MAX_DATA + |parts[n - 1]|
  {
    if n == 0 {
    } else {
      JoinedLength(parts, total, n - 1);
    }
  }

  lemma {:induction false} JoinStops(parts: Parts, total: nat, n: nat)
    requires Assembles(parts, total) && total <= n
    ensures JoinParts(parts, n) == JoinParts(parts, total)
    decreases n
  {
    if total < n {
      JoinStops(parts, total, n - 1);
    }
  }

  /** Every packet of a message in flight is receivable, the repeated ones included. */
  lemma InFlightReceivable(s: State, message: Buffer, mainSeq: nat, remaining: set<int>, sub: nat)
    requires 1 <= |message.bytes| <= MAX_MESSAGE && mainSeq < UINT16
    requires remaining <= Upto(SliceCount(|message.bytes|)) && remaining != {} && sub < SliceCount(|message.bytes|)
    requires FiledSlices(s, mainSeq, message.bytes, remaining)
    ensures Receivable(s, PacketAt(message, mainSeq, sub))
  {
    hide Slice, SliceCount, Packet, HeaderOf, PayloadOf, Upto, Insert, JoinParts, Arrived, FiledSlices;
    var n := SliceCount(|message.bytes|);
    var h := Header(1, |Slice(message.bytes, sub)|, n, mainSeq, sub);
    ArrivingFields(message, mainSeq, sub);
    PacketLength(message, mainSeq, sub);
    CountBelow(|message.bytes|);
    if sub in remaining {
      InsertFiled(s, h, message.bytes, remaining);
      ArrivedSize(message.bytes, remaining - {sub});
      if |remaining - {sub}| == 0 {
        assert remaining - {sub} == {};
        AllArrivedAssembles(message.bytes);
      }
    } else {
      RepeatChangesNothing(s, h, message.bytes, remaining);
      ArrivedSize(message.bytes, remaining);
    }
  }

  /** So are the packets of a message too long for the 16-bit count, up to the first hand-over. */
  lemma LongMessageReceivable(message: Buffer, mainSeq: nat, k: nat)
    requires mainSeq < UINT16 && SliceCount(|message.bytes|) >= UINT16
    requires k < SliceCount(|message.bytes|) % UINT16
    ensures Receivable(State(EndToEnd.FiledInOrder(message, mainSeq, k), []), PacketAt(message, mainSeq, k))
  {
    hide Packet, PacketAt, HeaderOf, PayloadOf, Insert, JoinParts, SliceCount, Slice, Assembles,
      EndToEnd.FirstParts, EndToEnd.FiledInOrder;
    var n := SliceCount(|message.bytes|);
    EndToEnd.AnyFields(message, mainSeq, k);
    PacketLength(message, mainSeq, k);
    var h := Header(1, |Slice(message.bytes, k)|, n % UINT16, mainSeq, k);
    EndToEnd.FileNext(message, mainSeq, k, h);
    EndToEnd.FirstPartsGrow(message.bytes, k + 1);
    FirstPartsAssemble(message.bytes, k + 1);
  }

  lemma FirstPartsAssemble(bytes: seq<byte>, n: nat)
    requires 0 < n < UINT16 && n < SliceCount(|bytes|)
    ensures Assembles(EndToEnd.FirstParts(bytes, n), n)
  {
    hide SliceCount;
    var parts := EndToEnd.FirstParts(bytes, n);
    assert forall i :: 0 <= i < n ==> |parts[i]| == MAX_DATA;
  }

  lemma PacketLength(message: Buffer, mainSeq: nat, sub: nat)
    requires sub < SliceCount(|message.bytes|)
    ensures |PacketAt(message, mainSeq, sub).bytes| - HEADER == |Slice(message.bytes, sub)|
  {
  }

  lemma CountBelow(length: nat)
    requires 1 <= length <= MAX_MESSAGE
    ensures 0 < SliceCount(length) < UINT16
  {
  }

  lemma AllArrivedAssembles(bytes: seq<byte>)
    requires 1 <= |bytes| <= MAX_MESSAGE
    ensures Assembles(Arrived(bytes, {}), SliceCount(|bytes|))
  {
    CountBelow(|bytes|);
    hide SliceCount;
    assert forall i :: i in Arrived(bytes, {}) <==> 0 <= i < SliceCount(|bytes|);
  }

  lemma RepeatChangesNothing(s: State, h: Header, bytes: seq<byte>, remaining: set<int>)
    requires remaining <= Upto(SliceCount(|bytes|)) && h.subSeq < SliceCount(|bytes|) && h.subSeq !in remaining
    requires FiledSlices(s, h.mainSeq, bytes, remaining)
    ensures Insert(s.incomplete, h, Slice(bytes, h.subSeq))[h.mainSeq] == Arrived(bytes, remaining)
  {
    hide SliceCount, Slice;
  }

  lemma BelowCount(parts: Parts, total: nat)
    requires Assembles(parts, total)
    ensures JoinParts(parts, UINT16) == JoinParts(parts, total)
  {
    JoinStops(parts, total, UINT16);
  }

  method CopyPart(complete: array<byte>, offset: nat, part: seq<byte>)
    requires offset + |part| <= complete.Length
    modifies complete
    ensures complete[..offset + |part|] == old(complete[..offset]) + part
  {
    forall i | 0 <= i < |part| {
      complete[offset + i] := part[i];
    }
  }

  // ----- The class -----

  class Depacketizer {
    const depacketizerQueue: Packetizing.SafeQueue
    const sem: WakeUp.Semaphore
    var version: nat
    var payloadSize: nat
    var totalSubPacketNumb: nat
    var mainPacketSeq: nat
    var subPacketSeq: nat
    var incompletePacket: map<int, Parts>
    /** What the data callback was given, in order. */
    var delivered: seq<Buffer>

    ghost predicate Valid()
      reads this, depacketizerQueue
    {
      depacketizerQueue.Valid()
    }

    ghost function Abs(): State
      reads this
    {
      State(incompletePacket, delivered)
    }

    constructor ()
      ensures Valid() && Abs() == INITIAL && depacketizerQueue.queue == []
      ensures fresh(depacketizerQueue) && fresh(sem) && sem.count == 0
    {
      sem := new WakeUp.Semaphore(0);
      depacketizerQueue := new Packetizing.SafeQueue();
      version, payloadSize, totalSubPacketNumb, mainPacketSeq, subPacketSeq := 1, 0, 0, 0, 0;
      incompletePacket, delivered := map[], [];
    }

    method Combine(packet: Buffer)
      requires Valid()
      modifies depacketizerQueue, sem
      ensures Valid() && depacketizerQueue.queue == old(depacketizerQueue.queue) + [packet]
      ensures sem.count == old(sem.count) + 1
    {
      depacketizerQueue.Push(packet);
      sem.Signal();
    }

    /** Fills the header registers and takes as many bytes as the header announces. An empty packet
        is refused, and so is one of another version, which leaves the other registers alone. */
    method DoDepacketize(packet: seq<byte>) returns (ok: bool, payload: seq<byte>)
      requires packet == [] || |packet| >= HEADER
      requires packet != [] && HeaderOf(packet).version == 1 ==> HeaderOf(packet).payloadSize <= |packet| - HEADER
      modifies `version, `payloadSize, `totalSubPacketNumb, `mainPacketSeq, `subPacketSeq
      ensures version == if packet == [] then old(version) else HeaderOf(packet).version
      ensures ok <==> packet != [] && version == 1
      ensures ok ==> Header(version, payloadSize, totalSubPacketNumb, mainPacketSeq, subPacketSeq) == HeaderOf(packet)
      ensures ok ==> payload == packet[HEADER..HEADER + payloadSize]
      ensures !ok ==> unchanged(`payloadSize, `totalSubPacketNumb, `mainPacketSeq, `subPacketSeq)
    {
      if |packet| == 0 {
        return false, [];
      }
      var high: nat, low: nat := packet[0], packet[1];
      var first := high * 256 + low;
      version := first / 0x4000;
      if version != 1 {
        return false, [];
      }
      payloadSize := first % 0x4000;
      high, low := packet[2], packet[3];
      totalSubPacketNumb := high * 256 + low;
      high, low := packet[4], packet[5];
      mainPacketSeq := high * 256 + low;
      high, low := packet[6], packet[7];
      subPacketSeq := high * 256 + low;
      return true, packet[HEADER..HEADER + payloadSize];
    }

    /** Copies the slices, in ascending order, into a buffer sized from the packet count and the
        last slice: the copies fit the buffer exactly. */
    method Assemble(parts: Parts) returns (complete: array<byte>)
      requires Assembles(parts, totalSubPacketNumb) && |parts| == totalSubPacketNumb
      ensures fresh(complete) && complete[..] == JoinParts(parts, totalSubPacketNumb)
    {
      var total := totalSubPacketNumb;
      var last := parts[|parts| - 1];
      var totalPayloadSizeReal := totalSubPacketNumb * MAX_DATA - MAX_DATA + |last|;
      complete := new byte[totalPayloadSizeReal](_ => 0);
      var offset := 0;
      var key := 0;
      JoinedLength(parts, total, total);
      while key < |parts|
        invariant key <= |parts| == total
        invariant offset == |JoinParts(parts, key)| <= complete.Length
        invariant complete[..offset] == JoinParts(parts, key)
      {
        JoinedLength(parts, total, key);
        JoinedLength(parts, total, key + 1);
        var part := parts[key];
        CopyPart(complete, offset, part);
        offset := offset + |part|;
        key := key + 1;
      }
      assert complete[..offset] == complete[..];
    }

    /** One round of the worker loop on the packet at the front of the queue, or a wait when the
        queue is empty. */
    method ProcessOnce() returns (blocked: bool)
      requires Valid()
      requires depacketizerQueue.queue != [] ==> Receivable(Abs(), depacketizerQueue.queue[0])
      modifies this, depacketizerQueue, sem
      ensures Valid()
      ensures blocked <==> old(depacketizerQueue.queue == [] && sem.count == 0)
      ensures old(depacketizerQueue.queue) == [] ==> Abs() == old(Abs()) && depacketizerQueue.queue == []
      ensures old(depacketizerQueue.queue) != [] ==>
                && depacketizerQueue.queue == old(depacketizerQueue.queue)[1..]
                && Abs() == Receive(old(Abs()), old(depacketizerQueue.queue[0]))
    {
      hide Packet, HeaderOf, Assembles, JoinParts;
      blocked := false;
      var empty := depacketizerQueue.Empty();
      if empty {
        var taken := sem.Test();
        return !taken;
      }
      ghost var s := Abs();
      var buffer := depacketizerQueue.Front();
      var ok, processed := DoDepacketize(buffer.bytes);
      assert processed == PayloadOf(buffer.bytes);
      hide PayloadOf;
      var parts := if mainPacketSeq in incompletePacket then incompletePacket[mainPacketSeq] else map[];
      parts := parts[subPacketSeq := processed];
      incompletePacket := incompletePacket[mainPacketSeq := parts];
      assert incompletePacket == Insert(s.incomplete, HeaderOf(buffer.bytes), PayloadOf(buffer.bytes));
      if |parts| == totalSubPacketNumb {
        var complete := Assemble(parts);
        BelowCount(parts, totalSubPacketNumb);
        delivered := delivered + [Buffer(buffer.channel, complete[..])];
        incompletePacket := incompletePacket - {mainPacketSeq};
      }
      depacketizerQueue.Pop();
    }
  }
}
