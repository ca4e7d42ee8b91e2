/** The packet format (vtsrtc/src/packet/packetizer.cpp): a message is cut into slices of
    at most 1162 bytes, each behind an 8-byte header of four big-endian 16-bit fields. */
module PacketFormat {
  import opened Bytes

  const MAX_DATA := 1162
  const HEADER := 8
  const UINT16 := 0x1_0000

  /** Bytes with the data channel they belong to: a message, or a packet of one. */
  datatype Buffer = Buffer(channel: nat, bytes: seq<byte>)

  // ----- Headers -----

  datatype Header = Header(version: nat, payloadSize: nat, total: nat, mainSeq: nat, subSeq: nat)

  function Short(v: nat): seq<byte> { [v / 256 % 256, v % 256] }

  function ShortAt(s: seq<byte>, i: nat): nat
    requires i + 2 <= |s|
  {
    var high: nat, low: nat := s[i], s[i + 1];
    high * 256 + low
  }

  /** `version_ << 14 | len`: the two fields do not overlap, as len is below 2^14. */
  function Packet(total: nat, mainSeq: nat, subSeq: nat, payload: seq<byte>): seq<byte> {
    Short(1 * 0x4000 + |payload|) + Short(total) + Short(mainSeq) + Short(subSeq) + payload
  }

  function HeaderOf(packet: seq<byte>): Header
    requires |packet| >= HEADER
  {
    var first := ShortAt(packet, 0);
    Header(first / 0x4000, first % 0x4000, ShortAt(packet, 2), ShortAt(packet, 4), ShortAt(packet, 6))
  }

  function PayloadOf(packet: seq<byte>): seq<byte>
    requires |packet| >= HEADER
  {
    packet[HEADER..]
  }

  lemma ShortRoundTrip(v: nat, s: seq<byte>, i: nat)
    requires v < UINT16 && i + 2 <= |s| && s[i..i + 2] == Short(v)
    ensures ShortAt(s, i) == v
  {
    assert s[i] == s[i..i + 2][0] && s[i + 1] == s[i..i + 2][1];
  }

  /** The format on the wire: four 16-bit numbers, high byte first, and the payload. The first
      number is the version in its top two bits and the payload's size below them. */
  lemma WireFormat(total: nat, mainSeq: nat, subSeq: nat, payload: seq<byte>)
    requires total < 0x1_0000 && mainSeq < 0x1_0000 && subSeq < 0x1_0000 && |payload| < 0x4000
    ensures var p := Packet(total, mainSeq, subSeq, payload);
      && |p| == 8 + |payload| && p[8..] == payload
      && (p[0] as int) * 256 + p[1] as int == 0x4000 + |payload|
      && (p[2] as int) * 256 + p[3] as int == total
      && (p[4] as int) * 256 + p[5] as int == mainSeq
      && (p[6] as int) * 256 + p[7] as int == subSeq
  {
  }

  /** Decoding a packet gives back the fields and the payload it was made from. */
  lemma PacketRoundTrip(total: nat, mainSeq: nat, subSeq: nat, payload: seq<byte>)
    requires total < UINT16 && mainSeq < UINT16 && subSeq < UINT16 && |payload| < 0x4000
    ensures var p := Packet(total, mainSeq, subSeq, payload);
      && |p| == HEADER + |payload|
      && HeaderOf(p) == Header(1, |payload|, total, mainSeq, subSeq)
      && PayloadOf(p) == payload
  {
    var p := Packet(total, mainSeq, subSeq, payload);
    var first := 0x4000 + |payload|;
    assert p[0..2] == Short(first) && p[2..4] == Short(total) && p[4..6] == Short(mainSeq) && p[6..8] == Short(subSeq);
    ShortRoundTrip(first, p, 0);
    ShortRoundTrip(total, p, 2);
    ShortRoundTrip(mainSeq, p, 4);
    ShortRoundTrip(subSeq, p, 6);
  }

  // ----- Slices -----

  function SliceCount(length: nat): nat {
    if length % MAX_DATA != 0 then length / MAX_DATA + 1 else length / MAX_DATA
  }

  function Slice(data: seq<byte>, i: nat): (s: seq<byte>)
    requires i < SliceCount(|data|)
    ensures 0 < |s| <= MAX_DATA
    ensures i + 1 < SliceCount(|data|) ==> |s| == MAX_DATA
  {
    var from := i * MAX_DATA;
    if from + MAX_DATA <= |data| then data[from..from + MAX_DATA] else data[from..]
  }

  /** Every slice but the last has 1162 bytes, and the last is not empty. */
  lemma SliceSizes(data: seq<byte>, i: nat)
    requires i < SliceCount(|data|)
    ensures SliceCount(|data|) == (|data| + 1161) / 1162
    ensures if i + 1 < SliceCount(|data|) then |Slice(data, i)| == 1162
            else |Slice(data, i)| == |data| - 1162 * i && 0 < |Slice(data, i)| <= 1162
  {
  }

  /** The first n slices one after the other. */
  function Joined(data: seq<byte>, n: nat): seq<byte>
    requires n <= SliceCount(|data|)
  {
    if n == 0 then [] else Joined(data, n - 1) + Slice(data, n - 1)
  }

  lemma {:induction false} JoinedIsPrefix(data: seq<byte>, n: nat)
    requires n <= SliceCount(|data|)
    ensures Joined(data, n) == data[..if n * MAX_DATA <= |data| then n * MAX_DATA else |data|]
  {
    if n == 0 {
    } else {
      JoinedIsPrefix(data, n - 1);
    }
  }

  /** Cutting loses nothing. */
  lemma SlicesJoin(data: seq<byte>)
    ensures Joined(data, SliceCount(|data|)) == data
  {
    JoinedIsPrefix(data, SliceCount(|data|));
    assert data[..|data|] == data;
  }

  // ----- The packets of a message -----

  /** Packet i of a message; the header fields are `unsigned short`. */
  function PacketAt(message: Buffer, mainSeq: nat, i: nat): Buffer
    requires i < SliceCount(|message.bytes|)
  {
    Buffer(message.channel,
           Packet(SliceCount(|message.bytes|) % UINT16, mainSeq, i % UINT16, Slice(message.bytes, i)))
  }

  function PacketsOf(message: Buffer, mainSeq: nat): (ps: seq<Buffer>)
    ensures |ps| == SliceCount(|message.bytes|)
  {
    seq(SliceCount(|message.bytes|), i requires 0 <= i < SliceCount(|message.bytes|) => PacketAt(message, mainSeq, i))
  }
}
