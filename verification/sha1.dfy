/** The SHA-1 compatibility routine (signaling-server/src/openssl_sha1_compat.cpp), which
    makes the padding up while it reads each block, refines FIPS 180-4.

    `std::uint32_t` is bv32, a byte an integer below 256. Lengths are exact: below 2^61 bytes neither `n * 8` nor
    `n + 9 + 63` reaches 2^64. */
module Sha1Compat {
  import opened Bytes
  import opened Sha1Spec
  import opened Sha1Words
  import opened Sha1Block

  const MESSAGE_LIMIT: nat := 0x2000_0000_0000_0000  // 2^61

  // ----- The padded string -----

  lemma PaddedLength(n: nat)
    ensures n + 9 + ZeroCount(n) == (n + 9 + 63) / 64 * 64
    ensures (n + 9 + ZeroCount(n)) % 64 == 0
  {
  }

  /** The padded string is the least multiple of 64 bytes holding message, marker and length,
      and the two fields never meet. */
  lemma PadLength(message: seq<byte>)
    ensures var len := |Pad(message)|;
      && len % 64 == 0
      && |message| + 9 <= len < |message| + 9 + 64
      && len == (|message| + 9 + 63) / 64 * 64
      && |message| < len - 8
  {
    PaddedLength(|message|);
  }

  /** The number a string of bytes stands for, most significant first. */
  function Number(s: seq<byte>): nat {
    if |s| == 0 then 0 else Number(s[..|s| - 1]) * 256 + s[|s| - 1]
  }

  lemma {:induction false} NumberOfBigEndian(v: nat, k: nat)
    requires v < Power256(k)
    ensures Number(BigEndian(v, k)) == v
  {
    if k == 0 {
    } else {
      NumberOfBigEndian(v / 256, k - 1);
      assert BigEndian(v, k)[..k - 1] == BigEndian(v / 256, k - 1);
    }
  }

  /** The padded string is the message, a byte 0x80, zeros, and the message's length in bits in eight
      bytes. */
  lemma PaddedString(message: seq<byte>)
    requires |message| < MESSAGE_LIMIT
    ensures var padded, n := Pad(message), |message|;
      && n + 9 <= |padded|
      && padded[..n] == message && padded[n] == 0x80
      && (forall i :: n < i < |padded| - 8 ==> padded[i] == 0)
      && Number(padded[|padded| - 8..]) == 8 * n
  {
    var padded, n := Pad(message), |message|;
    assert padded[|padded| - 8..] == BigEndian(8 * n, 8);
    LengthFits(n);
    NumberOfBigEndian(8 * n, 8);
  }

  lemma LengthFits(n: nat)
    requires n < MESSAGE_LIMIT
    ensures 8 * n < Power256(8)
  {
    assert Power256(4) == 0x1_0000_0000;
    assert Power256(8) == 256 * (256 * (256 * (256 * Power256(4))));
  }

  /** An unsigned right shift. */
  function Shifted(value: nat, bits: nat): nat {
    if bits == 0 then value else Shifted(value / 2, bits - 1)
  }

  lemma ShiftByByte(v: nat, bits: nat)
    ensures Shifted(v, bits + 8) == Shifted(v / 256, bits)
  {
    var q := v / 2 / 2 / 2 / 2;
    assert Shifted(v, bits + 8) == Shifted(v / 2, bits + 7) == Shifted(v / 2 / 2, bits + 6)
        == Shifted(v / 2 / 2 / 2, bits + 5) == Shifted(q, bits + 4);
    assert Shifted(q, bits + 4) == Shifted(q / 2, bits + 3) == Shifted(q / 2 / 2, bits + 2)
        == Shifted(q / 2 / 2 / 2, bits + 1) == Shifted(q / 2 / 2 / 2 / 2, bits);
    assert q == v / 16 && q / 2 / 2 / 2 / 2 == q / 16;
  }

  lemma {:induction false} BigEndianAt(v: nat, k: nat, i: nat)
    requires i < k
    ensures BigEndian(v, k)[i] == Shifted(v, 8 * (k - 1 - i)) % 256
  {
    if i < k - 1 {
      BigEndianAt(v / 256, k - 1, i);
      ShiftByByte(v, 8 * (k - 2 - i));
    }
  }

  lemma {:induction false} BigEndianInjective(v: nat, w: nat, k: nat)
    requires v < Power256(k) && w < Power256(k)
    requires BigEndian(v, k) == BigEndian(w, k)
    ensures v == w
  {
    if k == 0 {
    } else {
      var s, t := BigEndian(v, k), BigEndian(w, k);
      assert s[..k - 1] == BigEndian(v / 256, k - 1) && t[..k - 1] == BigEndian(w / 256, k - 1);
      assert s[k - 1] == t[k - 1];
      BigEndianInjective(v / 256, w / 256, k - 1);
    }
  }

  /** Different messages never share a padded string. */
  lemma PadInjective(m: seq<byte>, m': seq<byte>)
    requires |m| < MESSAGE_LIMIT && |m'| < MESSAGE_LIMIT
    requires Pad(m) == Pad(m')
    ensures m == m'
  {
    var s, s' := Pad(m), Pad(m');
    assert s[|s| - 8..] == BigEndian(8 * |m|, 8);
    assert s'[|s'| - 8..] == BigEndian(8 * |m'|, 8);
    assert Power256(8) == 0x1_0000_0000_0000_0000;
    BigEndianInjective(8 * |m|, 8 * |m'|, 8);
    assert m == s[..|m|] && m' == s'[..|m'|];
  }

  // ----- The routine -----

  /** The first j bytes of a word, shifted in one at a time. */
  function PartialWord(s: seq<byte>, base: nat, j: nat): Word
    requires base + j <= |s|
  {
    if j == 0 then 0 else ShiftIn(PartialWord(s, base, j - 1), ToWord(s[base + j - 1]))
  }

  lemma FullWord(s: seq<byte>, base: nat)
    requires base + 4 <= |s|
    ensures PartialWord(s, base, 4) == WordAt(s, base)
  {
    var b0, b1, b2, b3 := ToWord(s[base]), ToWord(s[base + 1]), ToWord(s[base + 2]), ToWord(s[base + 3]);
    ShiftsCompose(b0, b1, b2, b3);
    assert PartialWord(s, base, 1) == ShiftIn(0, b0);
    assert PartialWord(s, base, 2) == ShiftIn(ShiftIn(0, b0), b1);
    assert PartialWord(s, base, 3) == ShiftIn(ShiftIn(ShiftIn(0, b0), b1), b2);
  }

  lemma LengthByte(d: seq<byte>, paddedLen: nat, index: nat)
    requires paddedLen == |Pad(d)| && paddedLen - 8 <= index < paddedLen
    ensures Pad(d)[index] == Shifted(8 * |d|, (paddedLen - 1 - index) * 8) % 256
  {
    BigEndianAt(8 * |d|, 8, index - (paddedLen - 8));
  }

  lemma BlockStep(padded: seq<byte>, n: nat, h: Hash, v: Hash)
    requires 64 * (n + 1) <= |padded|
    requires h == HashBlocks(padded, n) && v == Rounds(h, Schedule(padded[64 * n..64 * (n + 1)], 80), 80)
    ensures HashBlocks(padded, n + 1) == Plus(h, v)
  {
  }

  lemma DigestOfLastHash(d: seq<byte>, h: Hash, blocks: nat)
    requires 64 * blocks == |Pad(d)| && h == HashBlocks(Pad(d), blocks)
    ensures Digest(d) == BytesOf([h.a, h.b, h.c, h.d, h.e])
  {
    assert blocks == |Pad(d)| / 64;
  }

  /** The padding made up while reading: message byte, marker, length byte or zero. */
  method ByteAt(d: seq<byte>, bitLen: nat, paddedLen: nat, index: nat) returns (byte: byte)
    requires |d| < MESSAGE_LIMIT
    requires bitLen == |d| * 8 && paddedLen == |Pad(d)| && index < paddedLen
    ensures byte == Pad(d)[index]
  {
    PadLength(d);
    byte := 0;
    if index < |d| {
      byte := d[index];
    } else if index == |d| {
      byte := 0x80;
    } else if index >= paddedLen - 8 {
      var shift := (paddedLen - 1 - index) * 8;
      LengthByte(d, paddedLen, index);
      byte := Shifted(bitLen, shift) % 256;
    }
  }

  /** The first t words are loaded and k bytes of the next. */
  ghost predicate Loaded(ws: seq<Word>, block: seq<byte>, t: nat, k: nat) {
    && |ws| == 80 && |block| == 64 && t <= 16 && 4 * t + k <= 64
    && ws[..t] == Schedule(block, t)
    && ws[t] == PartialWord(block, 4 * t, k)
    && forall u :: t < u < 80 ==> ws[u] == 0
  }

  lemma NothingLoaded(ws: seq<Word>, block: seq<byte>)
    requires |ws| == 80 && |block| == 64 && forall u :: 0 <= u < 80 ==> ws[u] == 0
    ensures Loaded(ws, block, 0, 0)
  {
  }

  lemma LoadedByte(ws: seq<Word>, block: seq<byte>, t: nat, k: nat, byte: byte)
    requires Loaded(ws, block, t, k) && k < 4 && 4 * t + k < 64 && byte == block[4 * t + k]
    ensures Loaded(ws[t := ShiftIn(ws[t], ToWord(byte))], block, t, k + 1)
  {
    hide Schedule, ShiftIn, ToWord;
    assert ws[t := ShiftIn(ws[t], ToWord(byte))][..t] == ws[..t];
  }

  lemma LoadedWord(ws: seq<Word>, block: seq<byte>, t: nat)
    requires Loaded(ws, block, t, 4) && t < 16
    ensures Loaded(ws, block, t + 1, 0)
  {
    hide WordAt;
    FullWord(block, 4 * t);
    assert ws[..t + 1] == ws[..t] + [ws[t]];
  }

  lemma AllLoaded(ws: seq<Word>, block: seq<byte>)
    requires Loaded(ws, block, 16, 0)
    ensures |block| == 64 && |ws| == 80 && ws[..16] == Schedule(block, 16)
  {
  }

  /** The first part of the loop body: the sixteen message words. */
  method LoadBlock(d: seq<byte>, bitLen: nat, paddedLen: nat, offset: nat) returns (w: array<Word>)
    requires |d| < MESSAGE_LIMIT
    requires bitLen == |d| * 8 && paddedLen == |Pad(d)| && offset + 64 <= paddedLen
    ensures fresh(w) && w.Length == 80
    ensures w[..16] == Schedule(Pad(d)[offset..offset + 64], 16)
  {
    hide ShiftIn, ToWord, WordAt, Pad, Loaded, Schedule, PartialWord;
    w := new Word[80](_ => 0);
    ghost var block := Pad(d)[offset..offset + 64];
    NothingLoaded(w[..], block);
    ghost var t, k := 0, 0;  // i == 4 * t + k
    var i := 0;
    while i < 64
      invariant i == 4 * t + k && t <= 16 && 0 <= k < 4 && (t == 16 ==> k == 0)
      invariant Loaded(w[..], block, t, k)
    {
      var byte := ByteAt(d, bitLen, paddedLen, offset + i);
      assert i / 4 == t;
      LoadedByte(w[..], block, t, k, byte);
      w[i / 4] := ShiftIn(w[i / 4], ToWord(byte));
      k := k + 1;
      if k == 4 {
        LoadedWord(w[..], block, t);
        t, k := t + 1, 0;
      }
      i := i + 1;
    }
    AllLoaded(w[..], block);
  }

  /** The body of the block loop. */
  method AbsorbBlock(d: seq<byte>, bitLen: nat, paddedLen: nat, offset: nat, ghost blocks: nat,
                     h0: Word, h1: Word, h2: Word, h3: Word, h4: Word)
    returns (g0: Word, g1: Word, g2: Word, g3: Word, g4: Word)
    requires |d| < MESSAGE_LIMIT
    requires bitLen == |d| * 8 && paddedLen == |Pad(d)|
    requires offset == 64 * blocks && offset + 64 <= paddedLen
    requires Hash(h0, h1, h2, h3, h4) == HashBlocks(Pad(d), blocks)
    ensures Hash(g0, g1, g2, g3, g4) == HashBlocks(Pad(d), blocks + 1)
  {
    hide Pad, Add, Schedule, Rounds;
    ghost var block := Pad(d)[64 * blocks..64 * (blocks + 1)];
    var w := LoadBlock(d, bitLen, paddedLen, offset);
    ExpandSchedule(w, block);
    var a, b, c, d0, e := RunRounds(w, h0, h1, h2, h3, h4);
    BlockStep(Pad(d), blocks, Hash(h0, h1, h2, h3, h4), Hash(a, b, c, d0, e));
    g0, g1, g2, g3, g4 := Add(h0, a), Add(h1, b), Add(h2, c), Add(h3, d0), Add(h4, e);
  }

  method SHA1(d: seq<byte>, md: array?<byte>) returns (r: array?<byte>)
    requires |d| < MESSAGE_LIMIT
    requires md != null ==> md.Length >= 20
    modifies if md == null then {} else {md}
    ensures r == md
    ensures md != null ==> md[..20] == Digest(d) && md[20..] == old(md[20..])
  {
    if md == null {
      return null;
    }
    var n := |d|;
    var h0, h1, h2, h3, h4: Word := 0x67452301, 0xefcdab89, 0x98badcfe, 0x10325476, 0xc3d2e1f0;
    var bitLen := n * 8;
    var paddedLen := (n + 9 + 63) / 64 * 64;
    PadLength(d);
    ghost var padded := Pad(d);
    ghost var blocks := 0;
    var offset := 0;
    while offset < paddedLen
      invariant offset == 64 * blocks && offset <= paddedLen == |padded|
      invariant Hash(h0, h1, h2, h3, h4) == HashBlocks(padded, blocks)
      invariant md[..] == old(md[..])
    {
      h0, h1, h2, h3, h4 := AbsorbBlock(d, bitLen, paddedLen, offset, blocks, h0, h1, h2, h3, h4);
      offset := offset + 64;
      blocks := blocks + 1;
    }
    DigestOfLastHash(d, Hash(h0, h1, h2, h3, h4), blocks);
    WriteDigest([h0, h1, h2, h3, h4], md);
    r := md;
  }
}
