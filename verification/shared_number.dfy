/** Two messages in flight under one main packet number, as two peers' packetizers can produce: the
    depacketizer (vtsrtc/src/packet/depacketizer.cpp) files slices by that number alone. */
module SharedNumber {
  import opened Bytes
  import opened PacketFormat
  import opened Receiver
  import opened EndToEnd

  /** `ps` interleaves the two sequences, each in its own order. */
  ghost predicate Merge(ps: seq<Buffer>, qs: seq<Buffer>, rs: seq<Buffer>)
    decreases |ps|
  {
    if ps == [] then qs == [] && rs == []
    else
      var before, last := ps[..|ps| - 1], ps[|ps| - 1];
      || (qs != [] && qs[|qs| - 1] == last && Merge(before, qs[..|qs| - 1], rs))
      || (rs != [] && rs[|rs| - 1] == last && Merge(before, qs, rs[..|rs| - 1]))
  }

  lemma {:induction false} MergeSwaps(ps: seq<Buffer>, qs: seq<Buffer>, rs: seq<Buffer>)
    requires Merge(ps, qs, rs)
    ensures Merge(ps, rs, qs)
    decreases |ps|
  {
    if ps == [] {
    } else {
      var before, last := ps[..|ps| - 1], ps[|ps| - 1];
      if qs != [] && qs[|qs| - 1] == last && Merge(before, qs[..|qs| - 1], rs) {
        MergeSwaps(before, qs[..|qs| - 1], rs);
      } else {
        MergeSwaps(before, qs, rs[..|rs| - 1]);
      }
    }
  }

  lemma {:induction false} MergeLeft(ps: seq<Buffer>, qs: seq<Buffer>, rs: seq<Buffer>, more: seq<Buffer>)
    requires Merge(ps, qs, rs)
    ensures Merge(ps + more, qs + more, rs)
    decreases |more|
  {
    if more == [] {
      assert ps + more == ps && qs + more == qs;
    } else {
      var rest, last := more[..|more| - 1], more[|more| - 1];
      MergeLeft(ps, qs, rs, rest);
      assert (ps + more)[..|ps + more| - 1] == ps + rest && (qs + more)[..|qs + more| - 1] == qs + rest;
    }
  }

  /** First one packet, then all of the other message, then the rest of the first message. */
  lemma AroundIsMerge(first: seq<Buffer>, all: seq<Buffer>, rest: seq<Buffer>)
    ensures Merge(first + all + rest, first + rest, all)
  {
    assert [] + first == first && [] + all == all;
    MergeLeft([], [], [], first);
    MergeSwaps(first, first, []);
    MergeLeft(first, [], first, all);
    MergeSwaps(first + all, all, first);
    MergeLeft(first + all, first, all, rest);
  }

  // ----- A second message takes the first one's place -----

  lemma FirstSlice(bytes: seq<byte>)
    requires SliceCount(|bytes|) > 1
    ensures 0 in Upto(SliceCount(|bytes|)) && Upto(SliceCount(|bytes|)) != {0}
    ensures Arrived(bytes, Upto(SliceCount(|bytes|)) - {0}) == map[0 := Slice(bytes, 0)]
  {
    hide Slice, SliceCount;
    assert 1 in Upto(SliceCount(|bytes|));
    assert Upto(SliceCount(|bytes|)) - (Upto(SliceCount(|bytes|)) - {0}) == {0};
  }

  /** The first packet of a message of several slices is filed alone. */
  lemma FirstFiled(a: Buffer, mainSeq: nat)
    requires 1 <= |a.bytes| <= MAX_MESSAGE && mainSeq < UINT16 && SliceCount(|a.bytes|) > 1
    ensures |PacketAt(a, mainSeq, 0).bytes| >= HEADER
    ensures Receive(INITIAL, PacketAt(a, mainSeq, 0)) == State(map[mainSeq := map[0 := Slice(a.bytes, 0)]], [])
  {
    hide Receive, PacketAt, Arrived, Slice, Upto, SliceCount;
    FirstSlice(a.bytes);
    NothingFiled(INITIAL, mainSeq, a.bytes);
    ReceiveArrival(INITIAL, a, mainSeq, Upto(SliceCount(|a.bytes|)), 0);
  }

  /** Another packet number 0 overwrites it. */
  lemma FirstReplaced(mainSeq: nat, slice: seq<byte>, p: Buffer)
    requires |p.bytes| >= HEADER && HeaderOf(p.bytes).mainSeq == mainSeq && HeaderOf(p.bytes).subSeq == 0
    ensures Receive(State(map[mainSeq := map[0 := slice]], []), p) == Receive(INITIAL, p)
  {
    hide HeaderOf, PayloadOf, JoinParts;
    assert map[0 := slice][0 := PayloadOf(p.bytes)] == map[0 := PayloadOf(p.bytes)];
    assert Insert(map[mainSeq := map[0 := slice]], HeaderOf(p.bytes), PayloadOf(p.bytes))
        == Insert(map[], HeaderOf(p.bytes), PayloadOf(p.bytes));
  }

  lemma ReceiveOne(s: State, p: Buffer)
    requires |p.bytes| >= HEADER
    ensures Framed([p]) && ReceiveAll(s, [p]) == Receive(s, p)
  {
    hide Receive;
    assert [p][..0] == [];
  }

  lemma PacketsAreBlock(message: Buffer, mainSeq: nat)
    requires |message.bytes| <= MAX_MESSAGE && mainSeq < UINT16
    ensures IsBlock(message, mainSeq, PacketsOf(message, mainSeq))
  {
  }

  /** The first message's slice is gone when the second message's packets arrive after it. */
  lemma SecondDelivered(a: Buffer, b: Buffer, mainSeq: nat)
    requires 1 <= |a.bytes| <= MAX_MESSAGE && 1 <= |b.bytes| <= MAX_MESSAGE && mainSeq < UINT16
    requires SliceCount(|a.bytes|) > 1
    ensures Framed([PacketAt(a, mainSeq, 0)] + PacketsOf(b, mainSeq))
    ensures ReceiveAll(INITIAL, [PacketAt(a, mainSeq, 0)] + PacketsOf(b, mainSeq)) == State(map[], [b])
  {
    hide Receive, ReceiveAll, PacketAt, PacketsOf, IsBlock, Slice, SliceCount, Framed, HeaderOf;
    var first, all := PacketAt(a, mainSeq, 0), PacketsOf(b, mainSeq);
    PacketsAreBlock(b, mainSeq);
    BlockDelivers(INITIAL, b, mainSeq, all);
    FirstFiled(a, mainSeq);
    FirstPacket(b, mainSeq);
    var head, tail := all[0], all[1..];
    assert all == [head] + tail && [first] + all == [first] + [head] + tail;
    FirstReplaced(mainSeq, Slice(a.bytes, 0), head);
    ReceiveOne(INITIAL, first);
    ReceiveOne(INITIAL, head);
    ReceiveOne(Receive(INITIAL, first), head);
    FramedSuffix(all, 1);
    FramedConcat([first], [head]);
    ReceiveConcat(INITIAL, [first], [head]);
    ReceiveConcat(INITIAL, [first] + [head], tail);
    ReceiveConcat(INITIAL, [head], tail);
    FramedConcat([first] + [head], tail);
  }

  lemma FramedSuffix(ps: seq<Buffer>, k: nat)
    requires Framed(ps) && k <= |ps|
    ensures Framed(ps[k..])
  {
  }

  lemma FirstPacket(b: Buffer, mainSeq: nat)
    requires 1 <= |b.bytes| <= MAX_MESSAGE && mainSeq < UINT16
    ensures var ps := PacketsOf(b, mainSeq);
      && ps != [] && ps[0] == PacketAt(b, mainSeq, 0) && |ps[0].bytes| >= HEADER
      && HeaderOf(ps[0].bytes).mainSeq == mainSeq && HeaderOf(ps[0].bytes).subSeq == 0
  {
    SomeSlices(b.bytes);
    hide HeaderOf, Packet, PacketAt;
    ArrivingFields(b, mainSeq, 0);
  }

  /** The rest of a message without its first packet hands over nothing. */
  lemma RestHandsOverNothing(s: State, a: Buffer, mainSeq: nat)
    requires 1 <= |a.bytes| <= MAX_MESSAGE && mainSeq < UINT16 && mainSeq !in s.incomplete
    ensures PacketsOf(a, mainSeq) != [] && Framed(PacketsOf(a, mainSeq)[1..])
    ensures ReceiveAll(s, PacketsOf(a, mainSeq)[1..]).delivered == s.delivered
  {
    SomeSlices(a.bytes);
    var ps := PacketsOf(a, mainSeq);
    hide PacketsOf, PacketAt, Receive, ReceiveAll, SliceCount, FiledSlices, Missing;
    var block := ps[1..] + [ps[0]];
    assert ps == [ps[0]] + ps[1..];
    assert block[..|ps| - 1] == ps[1..];
    PartOfBlock(s, a, mainSeq, block, |ps| - 1);
  }

  /** In this interleaving the second message is handed over and the first is lost. */
  lemma FirstMessageLost(a: Buffer, b: Buffer, mainSeq: nat)
    requires 1 <= |a.bytes| <= MAX_MESSAGE && 1 <= |b.bytes| <= MAX_MESSAGE && mainSeq < UINT16
    requires SliceCount(|a.bytes|) > 1
    ensures var ps := [PacketAt(a, mainSeq, 0)] + PacketsOf(b, mainSeq) + PacketsOf(a, mainSeq)[1..];
      && Merge(ps, PacketsOf(a, mainSeq), PacketsOf(b, mainSeq))
      && Framed(ps) && ReceiveAll(INITIAL, ps).delivered == [b]
  {
    hide Merge, Receive, ReceiveAll, PacketAt, PacketsOf, SliceCount, Framed, HeaderOf;
    var first, all, rest := [PacketAt(a, mainSeq, 0)], PacketsOf(b, mainSeq), PacketsOf(a, mainSeq)[1..];
    FirstPacket(a, mainSeq);
    assert PacketsOf(a, mainSeq) == first + rest;
    AroundIsMerge(first, all, rest);
    SecondDelivered(a, b, mainSeq);
    RestHandsOverNothing(State(map[], [b]), a, mainSeq);
    FramedConcat(first + all, rest);
    ReceiveConcat(INITIAL, first + all, rest);
  }

  // ----- The exact condition -----

  /** Every interleaving of the two messages' packets hands over both. */
  ghost predicate BothAlwaysDelivered(a: Buffer, b: Buffer, mainSeq: nat) {
    forall ps :: Merge(ps, PacketsOf(a, mainSeq), PacketsOf(b, mainSeq)) ==>
      Framed(ps) && multiset(ReceiveAll(INITIAL, ps).delivered) == multiset{a, b}
  }

  lemma {:induction false} OnlyRight(ps: seq<Buffer>, rs: seq<Buffer>)
    requires Merge(ps, [], rs)
    ensures ps == rs
    decreases |ps|
  {
    if ps == [] {
    } else {
      OnlyRight(ps[..|ps| - 1], rs[..|rs| - 1]);
      assert ps == ps[..|ps| - 1] + [ps[|ps| - 1]] && rs == rs[..|rs| - 1] + [rs[|rs| - 1]];
    }
  }

  lemma MergeOfSingles(ps: seq<Buffer>, p: Buffer, q: Buffer)
    requires Merge(ps, [p], [q])
    ensures ps == [p, q] || ps == [q, p]
  {
    assert [p][..0] == [] && [q][..0] == [];
    var before := ps[..|ps| - 1];
    assert ps == before + [ps[|ps| - 1]];
    if ps[|ps| - 1] == p && Merge(before, [], [q]) {
      OnlyRight(before, [q]);
    } else {
      MergeSwaps(before, [p], []);
      OnlyRight(before, [p]);
    }
  }

  lemma OneSlice(s: State, message: Buffer, mainSeq: nat)
    requires 1 <= |message.bytes| <= MAX_DATA && mainSeq < UINT16 && s.incomplete == map[]
    ensures PacketsOf(message, mainSeq) == [PacketAt(message, mainSeq, 0)]
    ensures |PacketAt(message, mainSeq, 0).bytes| >= HEADER
    ensures Receive(s, PacketAt(message, mainSeq, 0)) == s.(delivered := s.delivered + [message])
  {
    assert SliceCount(|message.bytes|) == 1;
    FirstPacket(message, mainSeq);
    PacketsAreBlock(message, mainSeq);
    hide Receive, PacketAt, HeaderOf, IsBlock;
    BlockDelivers(s, message, mainSeq, PacketsOf(message, mainSeq));
    ReceiveOne(s, PacketAt(message, mainSeq, 0));
  }

  lemma TwoSlices(a: Buffer, b: Buffer, mainSeq: nat)
    requires 1 <= |a.bytes| <= MAX_DATA && 1 <= |b.bytes| <= MAX_DATA && mainSeq < UINT16
    ensures var ps := [PacketAt(a, mainSeq, 0), PacketAt(b, mainSeq, 0)];
      Framed(ps) && multiset(ReceiveAll(INITIAL, ps).delivered) == multiset{a, b}
  {
    hide Receive, PacketAt, PacketsOf, ReceiveAll, Framed;
    var p, q, t := PacketAt(a, mainSeq, 0), PacketAt(b, mainSeq, 0), State(map[], [a]);
    OneSlice(INITIAL, a, mainSeq);
    OneSlice(t, b, mainSeq);
    ReceiveOne(INITIAL, p);
    ReceiveOne(t, q);
    FramedConcat([p], [q]);
    ReceiveConcat(INITIAL, [p], [q]);
    assert [p] + [q] == [p, q] && [] + [a] == [a];
    assert ReceiveAll(INITIAL, [p]) == t;
    assert ReceiveAll(INITIAL, [p, q]).delivered == [a] + [b];
  }

  lemma SeveralSlices(length: nat)
    ensures length > MAX_DATA <==> SliceCount(length) > 1
  {
  }

  lemma LongNotDelivered(a: Buffer, b: Buffer, mainSeq: nat)
    requires MAX_DATA < |a.bytes| <= MAX_MESSAGE && 1 <= |b.bytes| <= MAX_MESSAGE && mainSeq < UINT16
    ensures !BothAlwaysDelivered(a, b, mainSeq)
  {
    SeveralSlices(|a.bytes|);
    hide Merge, Receive, ReceiveAll, PacketAt, PacketsOf, Framed, SliceCount, BothAlwaysDelivered;
    FirstMessageLost(a, b, mainSeq);
    var ps := [PacketAt(a, mainSeq, 0)] + PacketsOf(b, mainSeq) + PacketsOf(a, mainSeq)[1..];
    BothDelivered(a, b, mainSeq, ps);
    OneIsNotTwo(a, b);
  }

  lemma BothDelivered(a: Buffer, b: Buffer, mainSeq: nat, ps: seq<Buffer>)
    requires Merge(ps, PacketsOf(a, mainSeq), PacketsOf(b, mainSeq)) && Framed(ps)
    ensures BothAlwaysDelivered(a, b, mainSeq) ==> multiset(ReceiveAll(INITIAL, ps).delivered) == multiset{a, b}
  {
    hide Merge, Receive, ReceiveAll, PacketsOf, Framed;
  }

  lemma OneIsNotTwo(a: Buffer, b: Buffer)
    ensures multiset([b]) != multiset{a, b}
  {
    assert |multiset([b])| == 1 && |multiset{a, b}| == 2;
  }

  lemma OrderIrrelevant(a: Buffer, b: Buffer, mainSeq: nat)
    ensures BothAlwaysDelivered(a, b, mainSeq) ==> BothAlwaysDelivered(b, a, mainSeq)
  {
    hide Merge, Receive, ReceiveAll, PacketsOf, Framed;
    forall ps | BothAlwaysDelivered(a, b, mainSeq) && Merge(ps, PacketsOf(b, mainSeq), PacketsOf(a, mainSeq))
      ensures Framed(ps) && multiset(ReceiveAll(INITIAL, ps).delivered) == multiset{b, a}
    {
      MergeSwaps(ps, PacketsOf(b, mainSeq), PacketsOf(a, mainSeq));
      assert multiset{a, b} == multiset{b, a};
    }
  }

  lemma SinglesDelivered(a: Buffer, b: Buffer, mainSeq: nat)
    requires 1 <= |a.bytes| <= MAX_DATA && 1 <= |b.bytes| <= MAX_DATA && mainSeq < UINT16
    ensures BothAlwaysDelivered(a, b, mainSeq)
  {
    hide Merge, Receive, ReceiveAll, PacketAt, PacketsOf, Framed, SliceCount;
    OneSlice(INITIAL, a, mainSeq);
    OneSlice(INITIAL, b, mainSeq);
    TwoSlices(a, b, mainSeq);
    TwoSlices(b, a, mainSeq);
    forall ps | Merge(ps, PacketsOf(a, mainSeq), PacketsOf(b, mainSeq))
      ensures Framed(ps) && multiset(ReceiveAll(INITIAL, ps).delivered) == multiset{a, b}
    {
      MergeOfSingles(ps, PacketAt(a, mainSeq, 0), PacketAt(b, mainSeq, 0));
    }
  }

  /** Two messages sharing a number are both handed over in every interleaving exactly when each
      fits into one packet. */
  lemma SharedNumberIff(a: Buffer, b: Buffer, mainSeq: nat)
    requires 1 <= |a.bytes| <= MAX_MESSAGE && 1 <= |b.bytes| <= MAX_MESSAGE && mainSeq < UINT16
    ensures BothAlwaysDelivered(a, b, mainSeq) <==> |a.bytes| <= MAX_DATA && |b.bytes| <= MAX_DATA
  {
    hide Merge, Receive, ReceiveAll, PacketAt, PacketsOf, Framed, SliceCount;
    if |a.bytes| > MAX_DATA {
      LongNotDelivered(a, b, mainSeq);
    } else if |b.bytes| > MAX_DATA {
      LongNotDelivered(b, a, mainSeq);
      OrderIrrelevant(a, b, mainSeq);
    } else {
      SinglesDelivered(a, b, mainSeq);
    }
  }
}
