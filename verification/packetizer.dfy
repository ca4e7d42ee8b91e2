/** The packetizer's objects (vtsrtc/src/packet/squeue.h, packetizer.cpp and
    RtcConnectionBase::PacketsCallback), each method refining a step of the sender protocol.
    Allocation succeeds; a queue never holds 2^32 buffers or 2^64 bytes, so its two counters
    are exact. */
module Packetizing {
  import opened Bytes
  import opened PacketFormat
  import Sender
  import WakeUp

  /** A FIFO with a running byte count. */
  class SafeQueue {
    var queue: seq<Buffer>
    var size: nat
    var capacity: nat

    ghost predicate Valid()
      reads this
    {
      size == |queue| && capacity == Sender.TotalBytes(queue)
    }

    constructor ()
      ensures Valid() && queue == []
    {
      queue, size, capacity := [], 0, 0;
    }

    method Push(buffer: Buffer)
      requires Valid()
      modifies this
      ensures Valid() && queue == old(queue) + [buffer]
    {
      Sender.TotalAppend(queue, buffer);
      queue := queue + [buffer];
      size := size + 1;
      capacity := capacity + |buffer.bytes|;
    }

    method Front() returns (buffer: Buffer)
      requires Valid() && queue != []
      ensures buffer == queue[0]
    {
      buffer := queue[0];
    }

    method Pop()
      requires Valid() && queue != []
      modifies this
      ensures Valid() && queue == old(queue)[1..]
    {
      Sender.TailTotal(queue);
      capacity := capacity - |queue[0].bytes|;
      queue := queue[1..];
      size := size - 1;
    }

    method Empty() returns (b: bool)
      requires Valid()
      ensures b <==> queue == []
    {
      b := queue == [];
    }

    method Capacity() returns (n: nat)
      requires Valid()
      ensures n == Sender.TotalBytes(queue)
    {
      n := capacity;
    }
  }

  lemma ModStep(i: nat)
    ensures (i % UINT16 + 1) % UINT16 == (i + 1) % UINT16
  {
  }

  lemma NextSlice(bytes: seq<byte>, i: nat, len: nat, size: nat)
    requires len > 0 && i * MAX_DATA + len == |bytes| && size == if len < MAX_DATA then len else MAX_DATA
    ensures i < SliceCount(|bytes|) && size == |Slice(bytes, i)|
    ensures len == size ==> i + 1 == SliceCount(|bytes|)
  {
  }

  datatype Code = PackOk | PackSendQueueFull

  class Packetizer {
    const packetizerQueue: SafeQueue
    const resendQueue: SafeQueue
    const sem: WakeUp.Semaphore
    var totalSubPacketNumb: nat
    var mainPacketSeq: nat
    var subPacketSeq: nat
    /** What the data channels were given, in order. */
    var wire: seq<Buffer>
    ghost var started: seq<Buffer>
    ghost var lost: seq<Buffer>

    ghost predicate Valid()
      reads this, packetizerQueue, resendQueue
    {
      && packetizerQueue != resendQueue
      && packetizerQueue.Valid() && resendQueue.Valid()
      && totalSubPacketNumb < UINT16 && mainPacketSeq < UINT16 && subPacketSeq < UINT16
    }

    ghost function Abs(): Sender.State
      reads this, packetizerQueue, resendQueue
    {
      Sender.State(packetizerQueue.queue, resendQueue.queue, mainPacketSeq, wire, started, lost)
    }

    constructor ()
      ensures Valid() && subPacketSeq == 0 && Abs() == Sender.INITIAL
      ensures fresh(packetizerQueue) && fresh(resendQueue) && fresh(sem) && sem.count == 0
    {
      packetizerQueue := new SafeQueue();
      resendQueue := new SafeQueue();
      sem := new WakeUp.Semaphore(0);
      totalSubPacketNumb, mainPacketSeq, subPacketSeq := 0, 0, 0;
      wire, started, lost := [], [], [];
    }

    method Split(message: Buffer) returns (code: Code)
      requires Valid()
      modifies packetizerQueue, sem
      ensures Valid() && Abs() == Sender.Split(old(Abs()), message)
      ensures code == PackOk <==> Abs().queue == old(Abs().queue) + [message]
      ensures sem.count == old(sem.count) + |packetizerQueue.queue| - old(|packetizerQueue.queue|)
    {
      var capacity := packetizerQueue.Capacity();
      if capacity < Sender.QUEUE_LIMIT {
        packetizerQueue.Push(message);
        sem.Signal();
        return PackOk;
      }
      return PackSendQueueFull;
    }

    method Resend(packet: Buffer) returns (code: Code)
      requires Valid()
      modifies resendQueue, `lost, sem
      ensures Valid() && Abs() == Sender.Resend(old(Abs()), packet)
      ensures code == PackOk <==> lost == old(lost)
      ensures sem.count == old(sem.count) + |resendQueue.queue| - old(|resendQueue.queue|)
    {
      var capacity := resendQueue.Capacity();
      if capacity < Sender.QUEUE_LIMIT {
        resendQueue.Push(packet);
        sem.Signal();
        return PackOk;
      }
      lost := lost + [packet];
      return PackSendQueueFull;
    }

    /** `bufferedAmount` is what the packet's data channel reports. A refused packet is dropped:
        the resend's return code is ignored. */
    method PacketsCallback(packet: Buffer, bufferedAmount: nat)
      requires Valid()
      modifies resendQueue, `lost, `wire, sem
      ensures Valid() && Abs() == Sender.PacketsCallback(old(Abs()), packet, bufferedAmount)
      ensures bufferedAmount + |packet.bytes| < 16 * 1024 * 1024 ==>
                wire == old(wire) + [packet] && resendQueue.queue == old(resendQueue.queue) && lost == old(lost)
      ensures bufferedAmount + |packet.bytes| >= 16 * 1024 * 1024 ==> wire == old(wire)
      ensures sem.count == old(sem.count) + |resendQueue.queue| - old(|resendQueue.queue|)
    {
      if bufferedAmount + |packet.bytes| >= 16 * 1024 * 1024 {
        var code := Resend(packet);
      } else {
        wire := wire + [packet];
      }
    }

    /** Header fields are written high byte first. */
    method DoPacketize(data: seq<byte>) returns (packet: seq<byte>)
      requires Valid() && 0 < |data| <= MAX_DATA
      ensures packet == Packet(totalSubPacketNumb, mainPacketSeq, subPacketSeq, data)
    {
      var first := 1 * 0x4000 + |data|;
      packet := [first / 256 % 256, first % 256];
      packet := packet + [totalSubPacketNumb / 256 % 256, totalSubPacketNumb % 256];
      packet := packet + [mainPacketSeq / 256 % 256, mainPacketSeq % 256];
      packet := packet + [subPacketSeq / 256 % 256, subPacketSeq % 256];
      packet := packet + data;
    }

    /** The body of the sending loop: slice i, of `size` bytes at offset `data`. */
    method SendSlice(buffer: Buffer, data: nat, size: nat, amount: nat, ghost i: nat)
      requires Valid() && i < SliceCount(|buffer.bytes|)
      requires data == i * MAX_DATA && size == |Slice(buffer.bytes, i)|
      requires totalSubPacketNumb == SliceCount(|buffer.bytes|) % UINT16 && subPacketSeq == i % UINT16
      modifies `subPacketSeq, `wire, `lost, resendQueue, sem
      ensures Valid() && subPacketSeq == (i + 1) % UINT16
      ensures Abs() == Sender.PacketsCallback(old(Abs()), PacketAt(buffer, mainPacketSeq, i), amount)
      ensures sem.count == old(sem.count) + |resendQueue.queue| - old(|resendQueue.queue|)
    {
      hide Sender.PacketsCallback, Packet;
      var slice := buffer.bytes[data..data + size];
      assert slice == Slice(buffer.bytes, i);
      var packet := DoPacketize(slice);
      PacketsCallback(Buffer(buffer.channel, packet), amount);
      ModStep(i);
      subPacketSeq := (subPacketSeq + 1) % UINT16;
    }

    /** The sending loop. */
    method SendSlices(buffer: Buffer, amounts: nat -> nat)
      requires Valid() && subPacketSeq == 0
      modifies `totalSubPacketNumb, `subPacketSeq, `wire, `lost, resendQueue, sem
      ensures Valid()
      ensures var packets := PacketsOf(buffer, mainPacketSeq);
        Abs() == Sender.Emit(old(Abs()), packets, amounts, |packets|)
      ensures sem.count == old(sem.count) + |resendQueue.queue| - old(|resendQueue.queue|)
    {
      hide Sender.PacketsCallback, Sender.TotalBytes, Packet, Slice, PacketAt;
      ghost var packets := PacketsOf(buffer, mainPacketSeq);
      var len := |buffer.bytes|;
      var data := 0;  // offset of the unsent part
      totalSubPacketNumb := (if len % MAX_DATA != 0 then len / MAX_DATA + 1 else len / MAX_DATA) % UINT16;
      var i := 0;  // callbacks made for this message
      while len > 0
        invariant Valid() && i <= |packets|
        invariant totalSubPacketNumb == |packets| % UINT16 && subPacketSeq == i % UINT16
        invariant if len > 0 then data == i * MAX_DATA && data + len == |buffer.bytes| else i == |packets|
        invariant Abs() == Sender.Emit(old(Abs()), packets, amounts, i)
        invariant sem.count == old(sem.count) + |resendQueue.queue| - old(|resendQueue.queue|)
      {
        var size := if len < MAX_DATA then len else MAX_DATA;
        NextSlice(buffer.bytes, i, len, size);
        assert packets[i] == PacketAt(buffer, mainPacketSeq, i);
        hide PacketsOf, SliceCount;
        SendSlice(buffer, data, size, amounts(i), i);
        data := data + size;
        len := len - size;
        i := i + 1;
      }
    }

    method SendPacket(amounts: nat -> nat)
      requires Valid() && subPacketSeq == 0 && packetizerQueue.queue != []
      modifies this, packetizerQueue, resendQueue, sem
      ensures Valid() && subPacketSeq == 0
      ensures Abs() == Sender.SendPacket(old(Abs()), amounts)
      ensures sem.count == old(sem.count) + |resendQueue.queue| - old(|resendQueue.queue|)
    {
      hide Sender.Emit, Sender.TotalBytes, PacketsOf;
      var buffer := packetizerQueue.Front();
      packetizerQueue.Pop();
      started := started + [buffer];
      SendSlices(buffer, amounts);
      subPacketSeq := 0;
      mainPacketSeq := (mainPacketSeq + 1) % UINT16;
    }

    method ResendPacket(amounts: nat -> nat)
      requires Valid() && resendQueue.queue != []
      modifies this, resendQueue, sem
      ensures Valid() && subPacketSeq == old(subPacketSeq)
      ensures Abs() == Sender.ResendPacket(old(Abs()), amounts)
      ensures sem.count == old(sem.count) + |resendQueue.queue| - (old(|resendQueue.queue|) - 1)
    {
      var buffer := resendQueue.Front();
      resendQueue.Pop();
      PacketsCallback(buffer, amounts(0));
    }

    /** One round of the worker loop. With both queues empty it takes a count of the semaphore, or
        is `blocked` in its wait. */
    method ProcessOnce(amounts: nat -> nat) returns (blocked: bool)
      requires Valid() && subPacketSeq == 0
      modifies this, packetizerQueue, resendQueue, sem
      ensures Valid() && subPacketSeq == 0
      ensures Abs() == Sender.Work(old(Abs()), amounts)
      ensures blocked <==> old(packetizerQueue.queue == [] && resendQueue.queue == [] && sem.count == 0)
      ensures blocked ==> sem.count == 0
      ensures old(packetizerQueue.queue == [] && resendQueue.queue == [] && sem.count > 0) ==>
                sem.count == old(sem.count) - 1
    {
      hide Sender.SendPacket, Sender.ResendPacket;
      blocked := false;
      var packetizerEmpty := packetizerQueue.Empty();
      var resendEmpty := resendQueue.Empty();
      if packetizerEmpty && resendEmpty {
        var taken := sem.Test();
        return !taken;
      }
      if !resendEmpty {
        ResendPacket(amounts);
        return;
      }
      if !packetizerEmpty {
        SendPacket(amounts);
      }
    }
  }
}
