/** SHA-1 as FIPS 180-4 defines it: padding (section 5.1.1), message schedule,
    eighty rounds and the chaining of blocks (section 6.1.2). Messages are whole bytes. */
module Sha1Spec {
  import opened Bytes

  type Word = bv32

  // ----- Section 5.1.1: padding -----

  /** Zero bytes between the marker and the length: the least count that leaves
      eight bytes for the length in the last block. */
  function ZeroCount(n: nat): (z: nat)
    ensures z < 64 && (n + 1 + z + 8) % 64 == 0
  {
    (55 - n) % 64
  }

  function Power256(k: nat): (p: nat)
    ensures p > 0
  {
    if k == 0 then 1 else 256 * Power256(k - 1)
  }

  /** The low `k` bytes of v, most significant first. */
  function BigEndian(v: nat, k: nat): (s: seq<byte>)
    ensures |s| == k
  {
    if k == 0 then [] else BigEndian(v / 256, k - 1) + [v % 256]
  }

  function Zeros(k: nat): (s: seq<byte>)
    ensures |s| == k
    ensures forall i :: 0 <= i < k ==> s[i] == 0
  {
    seq(k, _ => 0)
  }

  function Pad(message: seq<byte>): (s: seq<byte>)
    ensures |s| == |message| + 9 + ZeroCount(|message|)
  {
    message + [0x80] + Zeros(ZeroCount(|message|)) + BigEndian(8 * |message|, 8)
  }

  // ----- Section 6.1.2: one block -----

  datatype Hash = Hash(a: Word, b: Word, c: Word, d: Word, e: Word)

  const INITIAL := Hash(0x67452301, 0xefcdab89, 0x98badcfe, 0x10325476, 0xc3d2e1f0)

  function ToWord(b: byte): Word { b as Word }

  function JoinBytes(b0: Word, b1: Word, b2: Word, b3: Word): Word {
    (b0 << 24) | (b1 << 16) | (b2 << 8) | b3
  }

  function WordAt(s: seq<byte>, i: nat): Word
    requires i + 4 <= |s|
  {
    JoinBytes(ToWord(s[i]), ToWord(s[i + 1]), ToWord(s[i + 2]), ToWord(s[i + 3]))
  }

  /** The word a schedule word is made of four earlier ones by. */
  function MixWords(p: Word, q: Word, r: Word, s: Word): Word {
    (p ^ q ^ r ^ s).RotateLeft(1)
  }

  /** The first t words of the message schedule of a 64-byte block. */
  function Schedule(block: seq<byte>, t: nat): (ws: seq<Word>)
    requires |block| == 64
    ensures |ws| == t
  {
    if t == 0 then []
    else
      var ws := Schedule(block, t - 1);
      ws + [if t <= 16 then WordAt(block, 4 * (t - 1))
            else MixWords(ws[t - 4], ws[t - 9], ws[t - 15], ws[t - 17])]
  }

  // The functions of section 4.1.1.

  function Ch(x: Word, y: Word, z: Word): Word { (x & y) ^ (!x & z) }

  function Parity(x: Word, y: Word, z: Word): Word { x ^ y ^ z }

  function Maj(x: Word, y: Word, z: Word): Word { (x & y) ^ (x & z) ^ (y & z) }

  function F(t: nat, x: Word, y: Word, z: Word): Word {
    if t < 20 then Ch(x, y, z)
    else if t < 40 then Parity(x, y, z)
    else if t < 60 then Maj(x, y, z)
    else Parity(x, y, z)
  }

  /** The constants of section 4.2.1. */
  function K(t: nat): Word {
    if t < 20 then 0x5a827999
    else if t < 40 then 0x6ed9eba1
    else if t < 60 then 0x8f1bbcdc
    else 0xca62c1d6
  }

  /** Each constant is the square root of 2, 3, 5 or 10 in units of 2^-30, rounded down. */
  lemma RoundConstants(t: nat)
    requires t < 80
    ensures var k, n := K(t) as nat, if t < 20 then 2 else if t < 40 then 3 else if t < 60 then 5 else 10;
      k * k <= n * 0x1000_0000_0000_0000 < (k + 1) * (k + 1)
  {
    assert K(t) as nat == if t < 20 then 1518500249 else if t < 40 then 1859775393
                          else if t < 60 then 2400959708 else 3395469782;
  }

  /** Addition modulo 2^32. */
  function Add(p: Word, q: Word): Word { p + q }

  function Sum(p: Word, q: Word, r: Word, s: Word, t: Word): Word { p + q + r + s + t }

  function Round(v: Hash, t: nat, w: Word): Hash {
    Hash(Sum(v.a.RotateLeft(5), F(t, v.b, v.c, v.d), v.e, K(t), w),
         v.a, v.b.RotateLeft(30), v.c, v.d)
  }

  /** The working variables after t rounds over a schedule. */
  function Rounds(h: Hash, ws: seq<Word>, t: nat): Hash
    requires t <= |ws|
  {
    if t == 0 then h else Round(Rounds(h, ws, t - 1), t - 1, ws[t - 1])
  }

  function Plus(h: Hash, v: Hash): Hash {
    Hash(Add(h.a, v.a), Add(h.b, v.b), Add(h.c, v.c), Add(h.d, v.d), Add(h.e, v.e))
  }

  function Compress(h: Hash, block: seq<byte>): Hash
    requires |block| == 64
  {
    Plus(h, Rounds(h, Schedule(block, 80), 80))
  }

  /** The hash value after the first n blocks of a padded message. */
  function HashBlocks(padded: seq<byte>, n: nat): Hash
    requires 64 * n <= |padded|
  {
    if n == 0 then INITIAL
    else Compress(HashBlocks(padded, n - 1), padded[64 * (n - 1)..64 * n])
  }

  /** One byte of a word. */
  function ByteOf(w: Word, shift: Word): byte
    requires shift < 32
  {
    ((w >> shift) & 0xff) as int
  }

  function WordBytes(w: Word): (s: seq<byte>)
    ensures |s| == 4
  {
    [ByteOf(w, 24), ByteOf(w, 16), ByteOf(w, 8), ByteOf(w, 0)]
  }

  function BytesOf(words: seq<Word>): (s: seq<byte>)
    ensures |s| == 4 * |words|
  {
    if |words| == 0 then []
    else BytesOf(words[..|words| - 1]) + WordBytes(words[|words| - 1])
  }

  function Digest(message: seq<byte>): (md: seq<byte>)
    ensures |md| == 20
  {
    var h := HashBlocks(Pad(message), |Pad(message)| / 64);
    BytesOf([h.a, h.b, h.c, h.d, h.e])
  }
}
