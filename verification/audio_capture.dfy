/** The audio capture loop (client/modules/audio/src/audio_device.cpp), related to the stream
    of bytes it took from the device. The SDL stream is a byte queue that the device may extend
    at any call and whose calls may fail or fall short. */
module AudioCapture {
  import opened Bytes

  const MAX_QUEUED_MS := 20

  /** A call to the stream and its answer. */
  datatype DeviceCall = Asked(available: int) | Got(capacity: nat, size: int) | Emptied

  class AudioStream {
    var data: seq<byte>
    /** Every byte that ever left the stream, in order. */
    ghost var taken: seq<byte>
    ghost var calls: seq<DeviceCall>

    /** Everything the device has delivered so far. */
    ghost function Captured(): seq<byte>
      reads this
    {
      taken + data
    }

    constructor ()
      ensures data == [] && taken == [] && calls == []
    {
      data, taken, calls := [], [], [];
    }

    method Available() returns (n: int)
      modifies `data, `calls
      ensures old(Captured()) <= Captured() && calls == old(calls) + [Asked(n)]
      ensures n < 0 || n == |data|
    {
      var more: seq<byte> := *;
      data := data + more;
      var failed: bool := *;
      n := if failed then -1 else |data|;
      calls := calls + [Asked(n)];
    }

    method GetData(capacity: nat) returns (bytes: seq<byte>, n: int)
      modifies this
      ensures n <= capacity && |bytes| == (if n <= 0 then 0 else n)
      ensures taken == old(taken) + bytes && old(Captured()) <= Captured()
      ensures calls == old(calls) + [Got(capacity, n)]
    {
      var more: seq<byte> := *;
      data := data + more;
      var k: int := *;
      bytes, n := [], 0;
      if 0 < k <= capacity && k <= |data| {
        bytes, n := data[..k], k;
        data := data[k..];
        assert old(data) + more == bytes + data;
      }
      taken, calls := taken + bytes, calls + [Got(capacity, n)];
    }

    method Clear()
      modifies this
      ensures data == [] && taken == old(Captured()) && calls == old(calls) + [Emptied]
    {
      taken, data, calls := taken + data, [], calls + [Emptied];
    }
  }

  /** The flag that asks the capture thread to end, set by another thread at any time. */
  class StopFlag {
    /** Whether a load has seen it set. */
    var seen: bool

    constructor ()
      ensures !seen
    {
      seen := false;
    }

    method Load() returns (requested: bool)
      modifies this
      ensures seen == (old(seen) || requested)
    {
      requested := *;
      seen := seen || requested;
    }
  }

  // ----- The order of the calls -----

  function Min(a: nat, b: nat): nat { if a < b then a else b }

  /** What must follow the answer that n bytes are available: above the limit, a read of the surplus or
      of a full scratch buffer; else a read of all or of a full buffer; another question if none are. */
  predicate Follows(n: int, next: DeviceCall, limit: nat, packetBytes: nat) {
    if n <= 0 then next.Asked?
    else if n > limit then next.Got? && next.capacity == Min(n - limit, 4 * packetBytes)
    else next.Got? && next.capacity == Min(n, 4 * packetBytes)
  }

  /** Every question from the given call on is followed up. */
  ghost predicate FollowedUp(calls: seq<DeviceCall>, from: nat, limit: nat, packetBytes: nat) {
    forall i :: from <= i < |calls| - 1 && calls[i].Asked? ==>
      Follows(calls[i].available, calls[i + 1], limit, packetBytes)
  }

  /** The last call, if it is one of those, does not wait to be followed up by a read. */
  predicate Rests(calls: seq<DeviceCall>, from: nat) {
    |calls| > from ==> !(calls[|calls| - 1].Asked? && calls[|calls| - 1].available > 0)
  }

  lemma AskFollows(calls: seq<DeviceCall>, from: nat, n: int, limit: nat, packetBytes: nat)
    requires FollowedUp(calls, from, limit, packetBytes) && Rests(calls, from)
    ensures FollowedUp(calls + [Asked(n)], from, limit, packetBytes)
  {
  }

  lemma ReadsFollow(calls: seq<DeviceCall>, from: nat, more: seq<DeviceCall>, limit: nat, packetBytes: nat)
    requires FollowedUp(calls, from, limit, packetBytes)
    requires more != [] && forall i :: 0 <= i < |more| ==> !more[i].Asked?
    requires |calls| > from && calls[|calls| - 1].Asked? ==>
               Follows(calls[|calls| - 1].available, more[0], limit, packetBytes)
    ensures FollowedUp(calls + more, from, limit, packetBytes) && Rests(calls + more, from)
  {
  }

  ghost predicate OnlyReads(calls: seq<DeviceCall>) {
    forall i :: 0 <= i < |calls| ==> calls[i].Got?
  }

  /** Reads and drops bytes; it fails only when a read does, and then fewer than asked are gone. */
  method DiscardAudioStreamData(stream: AudioStream, bytesToDiscard: nat, scratchSize: nat) returns (ok: bool)
    requires scratchSize > 0
    modifies stream
    ensures old(stream.taken) <= stream.taken && old(stream.Captured()) <= stream.Captured()
    ensures |stream.taken| - |old(stream.taken)| <= bytesToDiscard
    ensures ok <==> |stream.taken| - |old(stream.taken)| == bytesToDiscard
    ensures old(stream.calls) <= stream.calls && OnlyReads(stream.calls[|old(stream.calls)|..])
    ensures bytesToDiscard > 0 ==>
              && |stream.calls| > |old(stream.calls)|
              && stream.calls[|old(stream.calls)|].capacity == Min(bytesToDiscard, scratchSize)
    ensures !ok ==> |stream.calls| > |old(stream.calls)| && stream.calls[|stream.calls| - 1].size <= 0
  {
    var left: nat := bytesToDiscard;
    while left > 0
      invariant old(stream.taken) <= stream.taken && old(stream.Captured()) <= stream.Captured()
      invariant |stream.taken| - |old(stream.taken)| == bytesToDiscard - left
      invariant old(stream.calls) <= stream.calls && OnlyReads(stream.calls[|old(stream.calls)|..])
      invariant if |stream.calls| == |old(stream.calls)| then left == bytesToDiscard
                else stream.calls[|old(stream.calls)|].capacity == Min(bytesToDiscard, scratchSize)
    {
      var discardSize := if left < scratchSize then left else scratchSize;
      ghost var before, captured := stream.taken, stream.Captured();
      var bytes, discarded := stream.GetData(discardSize);
      assert stream.taken == before + bytes && captured <= stream.Captured();
      if discarded <= 0 {
        return false;
      }
      left := left - discarded;
    }
    return true;
  }

  lemma NothingAsked(calls: seq<DeviceCall>, limit: nat, packetBytes: nat)
    ensures FollowedUp(calls, |calls|, limit, packetBytes) && Rests(calls, |calls|)
  {
  }

  lemma NothingAvailable(calls: seq<DeviceCall>, from: nat)
    requires calls != [] && calls[|calls| - 1].Asked? && calls[|calls| - 1].available <= 0
    ensures Rests(calls, from)
  {
  }

  lemma ReadIsNext(available: nat, call: DeviceCall, limit: nat, packetBytes: nat)
    requires 0 < available <= limit && call.Got?
    requires call.capacity == Min(available, 4 * packetBytes)
    ensures Follows(available, call, limit, packetBytes)
  {
  }

  // ----- What was handed to the callback -----

  function Flatten(packets: seq<seq<byte>>): seq<byte> {
    if |packets| == 0 then [] else Flatten(packets[..|packets| - 1]) + packets[|packets| - 1]
  }

  /** Each packet is the `size` bytes of the captured stream at its offset; packets come in order
      and never overlap; they end at or before `position`. */
  ghost predicate Cut(taken: seq<byte>, packets: seq<seq<byte>>, offsets: seq<nat>, size: nat, position: int) {
    && |offsets| == |packets| && 0 <= position <= |taken|
    && (forall i :: 0 <= i < |packets| ==>
          offsets[i] + size <= position && packets[i] == taken[offsets[i]..offsets[i] + size])
    && (forall i, j :: 0 <= i < j < |offsets| ==> offsets[i] + size <= offsets[j])
  }

  lemma CutExtends(taken: seq<byte>, taken': seq<byte>, packets: seq<seq<byte>>, offsets: seq<nat>, size: nat,
                   position: int, position': int)
    requires Cut(taken, packets, offsets, size, position) && taken <= taken' && position <= position' <= |taken'|
    ensures Cut(taken', packets, offsets, size, position')
  {
    forall i | 0 <= i < |packets|
      ensures offsets[i] + size <= position' && packets[i] == taken'[offsets[i]..offsets[i] + size]
    {
      assert taken'[..|taken|] == taken;
    }
  }

  lemma CutAppend(taken: seq<byte>, packets: seq<seq<byte>>, offsets: seq<nat>, size: nat, position: int)
    requires Cut(taken, packets, offsets, size, position) && position + size <= |taken|
    ensures Cut(taken, packets + [taken[position..position + size]], offsets + [position], size, position + size)
    ensures |Flatten(packets + [taken[position..position + size]])| == |Flatten(packets)| + size
  {
    var packet := taken[position..position + size];
    assert (packets + [packet])[..|packets|] == packets;
  }

  lemma CutLast(taken: seq<byte>, packets: seq<seq<byte>>, offsets: seq<nat>, size: nat, position: int)
    requires Cut(taken, packets, offsets, size, position) && packets != []
    ensures |offsets| == |packets|
    ensures var k := |packets| - 1;
      && Cut(taken, packets[..k], offsets[..k], size, offsets[k])
      && offsets[k] + size <= position <= |taken| && packets[k] == taken[offsets[k]..offsets[k] + size]
  {
  }

  lemma FlattenLast(packets: seq<seq<byte>>)
    requires packets != []
    ensures Flatten(packets) == Flatten(packets[..|packets| - 1]) + packets[|packets| - 1]
  {
  }

  lemma TakenUpTo(taken: seq<byte>, i: nat, j: nat)
    requires i <= j <= |taken|
    ensures taken[..i] + taken[i..j] == taken[..j]
  {
  }

  /** The packets never hold more than was read, and when they hold as much they are the stream
      itself from its start, so a gap needs a dropped byte. */
  lemma {:induction false} NothingMissing(taken: seq<byte>, packets: seq<seq<byte>>, offsets: seq<nat>, size: nat,
                                          position: int)
    requires Cut(taken, packets, offsets, size, position)
    ensures 0 <= |Flatten(packets)| <= position <= |taken|
    ensures |Flatten(packets)| == position ==> Flatten(packets) == taken[..position]
  {
    if packets == [] {
    } else {
      hide Cut, Flatten;
      var k := |packets| - 1;
      CutLast(taken, packets, offsets, size, position);
      FlattenLast(packets);
      NothingMissing(taken, packets[..k], offsets[..k], size, offsets[k]);
      TakenUpTo(taken, offsets[k], offsets[k] + size);
    }
  }

  /** The buffer is the end of what was taken from the stream, what lies before its unread part was
      delivered or dropped, and both are counted. */
  ghost predicate Accounts(taken: seq<byte>, pending: seq<byte>, consumed: nat, packets: seq<seq<byte>>,
                           offsets: seq<nat>, dropped: nat, size: nat) {
    && consumed <= |pending| <= |taken|
    && pending == taken[|taken| - |pending|..]
    && Cut(taken, packets, offsets, size, |taken| - |pending| + consumed)
    && |taken| - |pending| + consumed == |Flatten(packets)| + dropped
  }

  lemma DropAccounts(taken: seq<byte>, taken': seq<byte>, pending: seq<byte>, consumed: nat, packets: seq<seq<byte>>,
                     offsets: seq<nat>, dropped: nat, size: nat)
    requires Accounts(taken, pending, consumed, packets, offsets, dropped, size) && taken <= taken'
    ensures Accounts(taken', [], 0, packets, offsets, dropped + |pending| - consumed + |taken'| - |taken|, size)
  {
    CutExtends(taken, taken', packets, offsets, size, |taken| - |pending| + consumed, |taken'|);
  }

  lemma ReadAccounts(taken: seq<byte>, bytes: seq<byte>, pending: seq<byte>, consumed: nat, packets: seq<seq<byte>>,
                     offsets: seq<nat>, dropped: nat, size: nat)
    requires Accounts(taken, pending, consumed, packets, offsets, dropped, size)
    ensures Accounts(taken + bytes, pending + bytes, consumed, packets, offsets, dropped, size)
  {
    var position := |taken| - |pending| + consumed;
    CutExtends(taken, taken + bytes, packets, offsets, size, position, position);
    assert taken == taken[..|taken| - |pending|] + pending;
    assert taken + bytes == taken[..|taken| - |pending|] + (pending + bytes);
  }

  lemma DeliverAccounts(taken: seq<byte>, pending: seq<byte>, consumed: nat, packets: seq<seq<byte>>,
                        offsets: seq<nat>, dropped: nat, size: nat)
    requires Accounts(taken, pending, consumed, packets, offsets, dropped, size) && consumed + size <= |pending|
    ensures |pending| <= |taken|
    ensures Accounts(taken, pending, consumed + size, packets + [pending[consumed..consumed + size]],
                     offsets + [|taken| - |pending| + consumed], dropped, size)
  {
    hide Cut, Flatten;
    var position := |taken| - |pending| + consumed;
    CutAppend(taken, packets, offsets, size, position);
    assert pending[consumed..consumed + size] == taken[position..position + size];
  }

  lemma EraseAccounts(taken: seq<byte>, pending: seq<byte>, consumed: nat, packets: seq<seq<byte>>,
                      offsets: seq<nat>, dropped: nat, size: nat)
    requires Accounts(taken, pending, consumed, packets, offsets, dropped, size)
    ensures Accounts(taken, pending[consumed..], 0, packets, offsets, dropped, size)
  {
    assert pending[consumed..] == taken[|taken| - |pending| + consumed..];
  }

  lemma CountsAdd(taken: seq<byte>, pending: seq<byte>, consumed: nat, packets: seq<seq<byte>>,
                  offsets: seq<nat>, dropped: nat, size: nat)
    requires Accounts(taken, pending, consumed, packets, offsets, dropped, size)
    ensures |taken| == |Flatten(packets)| + dropped + |pending| - consumed
  {
  }

  predicate ValidOptions(sampleRate: int, channels: int, frameDurationMs: int) {
    && 0 < sampleRate <= 384000 && 0 < channels <= 32 && 0 < frameDurationMs <= 1000
    && sampleRate * frameDurationMs % 1000 == 0
  }

  /** Between rounds less than a packet waits to be delivered, and at most four delivered packets
      are still at the front of the buffer. */
  predicate Settled(pendingSize: nat, consumed: nat, packetBytes: nat) {
    && consumed <= pendingSize < consumed + packetBytes
    && consumed < 4 * packetBytes
  }

  lemma PacketHasBytes(sampleRate: int, channels: int, frameDurationMs: int)
    requires ValidOptions(sampleRate, channels, frameDurationMs)
    ensures sampleRate * frameDurationMs / 1000 * channels * 2 > 0
  {
    assert sampleRate * frameDurationMs > 0;
    assert sampleRate * frameDurationMs / 1000 > 0;
  }

  /** The most whole packets that last at most 20 ms, but at least one. */
  lemma PacketsInQueueTime(frameDurationMs: int)
    requires frameDurationMs > 0
    ensures var n := if MAX_QUEUED_MS / frameDurationMs > 1 then MAX_QUEUED_MS / frameDurationMs else 1;
      (n == 1 || n * frameDurationMs <= 20) && (n + 1) * frameDurationMs > 20
  {
    var q := 20 / frameDurationMs;
    assert 20 == q * frameDurationMs + 20 % frameDurationMs;
    assert (q + 1) * frameDurationMs == q * frameDurationMs + frameDurationMs;
    assert q == 0 ==> frameDurationMs > 20;
  }

  lemma FewerPackets(left: nat, packetBytes: nat, packets: nat)
    requires packetBytes > 0 && left < packetBytes + packetBytes * packets
    ensures left / packetBytes <= packets
  {
    assert left < packetBytes * (packets + 1);
    assert left == packetBytes * (left / packetBytes) + left % packetBytes;
    QuotientBound(packetBytes, left / packetBytes, packets + 1);
  }

  lemma QuotientBound(size: nat, a: nat, b: nat)
    requires size * a < size * b
    ensures a < b
  {
    assert a >= b ==> size * a >= size * b;
  }

  class Capture {
    const stream: AudioStream
    const stopRequested: StopFlag
    const packetBytes: nat
    const maxBufferedPackets: nat
    var pending: seq<byte>
    var consumed: nat
    /** The frames passed to the callback. */
    var packets: seq<seq<byte>>
    ghost var offsets: seq<nat>
    /** Bytes taken from the stream that no packet will hold. */
    ghost var dropped: nat
    /** The largest the buffer has been. */
    ghost var peak: nat

    ghost predicate Valid()
      reads this, stream
    {
      && packetBytes > 0 && maxBufferedPackets > 0
      && Accounts(stream.taken, pending, consumed, packets, offsets, dropped, packetBytes)
      && consumed <= |pending| <= peak < 9 * packetBytes
    }

    constructor (stream: AudioStream, stopRequested: StopFlag, sampleRate: int, channels: int, frameDurationMs: int)
      requires ValidOptions(sampleRate, channels, frameDurationMs) && stream.taken == []
      ensures this.stream == stream && this.stopRequested == stopRequested
      ensures Valid() && Settled(|pending|, consumed, packetBytes)
      ensures packetBytes == sampleRate * frameDurationMs / 1000 * channels * 2
      ensures maxBufferedPackets == 1 || (maxBufferedPackets > 1 && maxBufferedPackets * frameDurationMs <= 20)
      ensures (maxBufferedPackets + 1) * frameDurationMs > 20
      ensures packets == [] && dropped == 0
    {
      PacketsInQueueTime(frameDurationMs);
      PacketHasBytes(sampleRate, channels, frameDurationMs);
      this.stream, this.stopRequested := stream, stopRequested;
      packetBytes := sampleRate * frameDurationMs / 1000 * channels * 2;
      maxBufferedPackets := if MAX_QUEUED_MS / frameDurationMs > 1 then MAX_QUEUED_MS / frameDurationMs else 1;
      pending, consumed, packets, offsets, dropped, peak := [], 0, [], [], 0, 0;
    }

    /** The calls of one pass of the discarding loop: reads, and when one fails the stream is emptied. */
    static ghost predicate Dropping(calls: seq<DeviceCall>, ok: bool) {
      && (forall i :: 0 <= i < |calls| ==> !calls[i].Asked?)
      && (ok ==> OnlyReads(calls))
      && (!ok ==> |calls| > 1 && calls[|calls| - 1] == Emptied && calls[|calls| - 2].Got? && calls[|calls| - 2].size <= 0)
    }

    /** One pass of the discarding loop: drops what is pending and all but the newest allowed
        bytes of the stream; when that fails, the whole stream. */
    method DropOldest(available: nat) returns (ok: bool)
      requires Valid() && available > packetBytes * maxBufferedPackets
      modifies this, stream
      ensures Valid() && pending == [] && consumed == 0 && packets == old(packets)
      ensures old(stream.taken) <= stream.taken && old(stream.Captured()) <= stream.Captured()
      ensures ok ==> |stream.taken| == |old(stream.taken)| + available - packetBytes * maxBufferedPackets
      ensures !ok ==> stream.data == []
      ensures old(stream.calls) < stream.calls && Dropping(stream.calls[|old(stream.calls)|..], ok)
      ensures Follows(available, stream.calls[|old(stream.calls)|], packetBytes * maxBufferedPackets, packetBytes)
      ensures dropped - old(dropped) == old(|pending| - consumed) + |stream.taken| - |old(stream.taken)|
    {
      hide Accounts;
      pending := [];
      consumed := 0;
      ok := DiscardAudioStreamData(stream, available - packetBytes * maxBufferedPackets, 4 * packetBytes);
      if !ok {
        stream.Clear();
      }
      dropped := dropped + old(|pending| - consumed) + |stream.taken| - |old(stream.taken)|;
      DropAccounts(old(stream.taken), stream.taken, old(pending), old(consumed), packets, offsets, old(dropped),
                   packetBytes);
    }

    /** Hands whole packets to the callback until less than one is left or a stop is seen. */
    method Deliver() returns (stopped: bool)
      requires Valid()
      modifies `consumed, `packets, `offsets, stopRequested
      ensures Valid() && old(packets) <= packets && old(consumed) <= consumed
      ensures if stopped then stopRequested.seen else |pending| - consumed < packetBytes
      ensures old(stopRequested.seen) ==> stopRequested.seen
    {
      hide Accounts;
      stopped := false;
      while |pending| - consumed >= packetBytes
        invariant Valid() && old(packets) <= packets && old(consumed) <= consumed
        invariant old(stopRequested.seen) ==> stopRequested.seen
        decreases |pending| - consumed
      {
        stopped := stopRequested.Load();
        if stopped {
          break;
        }
        DeliverAccounts(stream.taken, pending, consumed, packets, offsets, dropped, packetBytes);
        packets := packets + [pending[consumed..consumed + packetBytes]];
        offsets := offsets + [|stream.taken| - |pending| + consumed];
        consumed := consumed + packetBytes;
      }
    }

    /** One read from the stream to the end of the buffer. */
    method Read(available: nat) returns (readSize: int)
      requires Valid() && Settled(|pending|, consumed, packetBytes)
      modifies this`pending, this`peak, stream
      ensures Valid()
      ensures old(stream.taken) <= stream.taken && old(stream.Captured()) <= stream.Captured()
      ensures readSize <= 4 * packetBytes && readSize <= available
      ensures |pending| == old(|pending|) + (if readSize <= 0 then 0 else readSize)
      ensures pending == old(pending) + stream.taken[|old(stream.taken)|..]
      ensures stream.calls == old(stream.calls) + [Got(Min(available, 4 * packetBytes), readSize)]
    {
      hide Accounts;
      var capacity := if 4 * packetBytes < available then 4 * packetBytes else available;
      var bytes;
      bytes, readSize := stream.GetData(capacity);
      ReadAccounts(old(stream.taken), bytes, pending, consumed, packets, offsets, dropped, packetBytes);
      pending := pending + bytes;
      peak := if peak < |pending| then |pending| else peak;
    }

    /** Reads once and delivers, so that less than a packet of all that was read or dropped so far waits.
        The source's second limit, on whole packets pending, can never be exceeded here. */
    method ReadAndDeliver(available: nat) returns (stopped: bool)
      requires Valid() && Settled(|pending|, consumed, packetBytes)
      requires available <= packetBytes * maxBufferedPackets
      modifies this, stream, stopRequested
      ensures Valid() && old(packets) <= packets && dropped == old(dropped)
      ensures old(stream.taken) <= stream.taken && old(stream.Captured()) <= stream.Captured()
      ensures |stream.calls| == |old(stream.calls)| + 1 && old(stream.calls) < stream.calls
      ensures var last := stream.calls[|stream.calls| - 1];
        && last.Got? && last.capacity == Min(available, 4 * packetBytes)
        && |stream.taken| == |old(stream.taken)| + if last.size <= 0 then 0 else last.size
      ensures if stopped then stopRequested.seen
              else Settled(|pending|, consumed, packetBytes)
                   && |stream.taken| < |Flatten(packets)| + dropped + packetBytes
      ensures old(stopRequested.seen) ==> stopRequested.seen
    {
      hide Accounts, Flatten;
      var readSize := Read(available);
      if readSize <= 0 {
        CountsAdd(stream.taken, pending, consumed, packets, offsets, dropped, packetBytes);
        return false;
      }
      FewerPackets(|pending| - consumed, packetBytes, maxBufferedPackets);
      var pendingPackets := (|pending| - consumed) / packetBytes;
      if pendingPackets > maxBufferedPackets {
        assert false;
      }

      stopped := Deliver();
      if consumed > 0 && (consumed == |pending| || consumed >= packetBytes * 4) {
        EraseAccounts(stream.taken, pending, consumed, packets, offsets, dropped, packetBytes);
        pending := pending[consumed..];
        consumed := 0;
      }
      CountsAdd(stream.taken, pending, consumed, packets, offsets, dropped, packetBytes);
    }

    /** The capture thread: any number of rounds against any behaviour of the device. `fuel` bounds
        how much of the run is looked at, not what may happen in it: unless a stop was seen, at least
        so many calls were made. Every question how much is available is followed up. */
    method CaptureLoop(fuel: nat) returns (stopped: bool)
      requires Valid() && Settled(|pending|, consumed, packetBytes)
      modifies this, stream, stopRequested
      ensures Valid() && old(packets) <= packets && old(dropped) <= dropped
      ensures old(stream.taken) <= stream.taken && old(stream.Captured()) <= stream.Captured()
      ensures old(stream.calls) <= stream.calls
      ensures FollowedUp(stream.calls, |old(stream.calls)|, packetBytes * maxBufferedPackets, packetBytes)
      ensures if stopped then stopRequested.seen
              else Settled(|pending|, consumed, packetBytes) && |stream.calls| - |old(stream.calls)| >= fuel
    {
      hide Accounts, FollowedUp, Follows, Rests;
      var left := fuel;
      ghost var from, limit := |stream.calls|, packetBytes * maxBufferedPackets;
      NothingAsked(stream.calls, limit, packetBytes);
      stopped := stopRequested.Load();
      while !stopped && left > 0
        invariant 0 <= left
        invariant Valid() && old(packets) <= packets && old(dropped) <= dropped
        invariant old(stream.taken) <= stream.taken && old(stream.Captured()) <= stream.Captured()
        invariant old(stream.calls) <= stream.calls && |stream.calls| - from >= fuel - left
        invariant FollowedUp(stream.calls, from, limit, packetBytes) && (left > 0 && !stopped ==> Rests(stream.calls, from))
        invariant if stopped then stopRequested.seen else Settled(|pending|, consumed, packetBytes)
      {
        left := left - 1;
        ghost var before := stream.calls;
        var available := stream.Available();
        AskFollows(before, from, available, limit, packetBytes);
        var discardFailed := false;
        while available > packetBytes * maxBufferedPackets && left > 0 && !discardFailed
          invariant 0 <= left < fuel
          invariant Valid() && Settled(|pending|, consumed, packetBytes)
          invariant old(packets) <= packets && old(dropped) <= dropped
          invariant old(stream.taken) <= stream.taken && old(stream.Captured()) <= stream.Captured()
          invariant old(stream.calls) <= stream.calls && |stream.calls| - from >= fuel - left
          invariant |stream.calls| > from && FollowedUp(stream.calls, from, limit, packetBytes)
          invariant if discardFailed then Rests(stream.calls, from) else stream.calls[|stream.calls| - 1] == Asked(available)
          decreases left
        {
          left := left - 1;
          before := stream.calls;
          var ok := DropOldest(available);
          assert stream.calls == before + stream.calls[|before|..];
          ReadsFollow(before, from, stream.calls[|before|..], limit, packetBytes);
          discardFailed := !ok;
          if ok {
            before := stream.calls;
            available := stream.Available();
            AskFollows(before, from, available, limit, packetBytes);
          }
        }
        if 0 < available <= packetBytes * maxBufferedPackets && !discardFailed {
          before := stream.calls;
          stopped := ReadAndDeliver(available);
          assert stream.calls == before + [stream.calls[|before|]];
          ReadIsNext(available, stream.calls[|before|], limit, packetBytes);
          ReadsFollow(before, from, [stream.calls[|before|]], limit, packetBytes);
        } else if !discardFailed && available <= 0 {
          NothingAvailable(stream.calls, from);
        }
        if !stopped {
          stopped := stopRequested.Load();
        }
      }
    }
  }

  /** What every state of a run promises: the stream taken is accounted for to the byte, packets
      are whole, in order and disjoint, and with nothing dropped they are the stream's beginning. */
  lemma Accounted(capture: Capture)
    requires capture.Valid()
    ensures |capture.stream.taken| == |Flatten(capture.packets)| + capture.dropped + |capture.pending| - capture.consumed
    ensures forall i :: 0 <= i < |capture.packets| ==> |capture.packets[i]| == capture.packetBytes
    ensures capture.dropped == 0 ==> Flatten(capture.packets) <= capture.stream.taken
    ensures capture.dropped == 0 ==>
              Flatten(capture.packets) + capture.pending[capture.consumed..] == capture.stream.taken
  {
    var taken, read := capture.stream.taken, |capture.stream.taken| - |capture.pending| + capture.consumed;
    NothingMissing(taken, capture.packets, capture.offsets, capture.packetBytes, read);
  }
}
