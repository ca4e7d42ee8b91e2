/** Word-level facts behind the compatibility routine, each about 32-bit vectors only. */
module Sha1Words {
  import opened Bytes
  import opened Sha1Spec

  function RotL(value: Word, bits: Word): Word
    requires 0 < bits < 32
  {
    (value << bits) | (value >> (32 - bits))
  }

  function ShiftIn(word: Word, byte: Word): Word {
    (word << 8) | byte
  }

  lemma ShiftsForm(b0: Word, b1: Word, b2: Word, b3: Word)
    ensures (((((((0 << 8) | b0) << 8) | b1) << 8) | b2) << 8) | b3 == JoinBytes(b0, b1, b2, b3)
  {
  }

  lemma ShiftsCompose(b0: Word, b1: Word, b2: Word, b3: Word)
    ensures ShiftIn(ShiftIn(ShiftIn(ShiftIn(0, b0), b1), b2), b3) == JoinBytes(b0, b1, b2, b3)
  {
    calc {
      JoinBytes(b0, b1, b2, b3);
      { ShiftsForm(b0, b1, b2, b3); }
      (((((((0 << 8) | b0) << 8) | b1) << 8) | b2) << 8) | b3;
      ShiftIn((((((0 << 8) | b0) << 8) | b1) << 8) | b2, b3);
      ShiftIn(ShiftIn((((0 << 8) | b0) << 8) | b1, b2), b3);
      ShiftIn(ShiftIn(ShiftIn((0 << 8) | b0, b1), b2), b3);
    }
  }

  lemma BytesJoin(w: Word)
    ensures JoinBytes((w >> 24) & 0xff, (w >> 16) & 0xff, (w >> 8) & 0xff, (w >> 0) & 0xff) == w
  {
  }

  function LowByte(w: Word, shift: Word): Word
    requires shift < 32
  {
    (w >> shift) & 0xff
  }

  lemma LowByteSmall(w: Word, shift: Word)
    requires shift < 32
    ensures LowByte(w, shift) <= 0xff
  {
  }

  lemma NumberReadsBack(x: Word)
    requires x <= 0xff
    ensures (x as int) as Word == x
  {
  }

  lemma ByteReadsBack(w: Word, shift: Word)
    requires shift < 32
    ensures ToWord(ByteOf(w, shift)) == LowByte(w, shift)
  {
    LowByteSmall(w, shift);
    assert ByteOf(w, shift) == LowByte(w, shift) as int;
    hide LowByte, ByteOf;
    NumberReadsBack(LowByte(w, shift));
  }

  lemma LowBytesJoin(w: Word)
    ensures JoinBytes(LowByte(w, 24), LowByte(w, 16), LowByte(w, 8), LowByte(w, 0)) == w
  {
    BytesJoin(w);
  }

  /** Reading four bytes of a digest as a word, as the message is read, gives back the word. */
  lemma WordReadsBack(w: Word)
    ensures WordAt(WordBytes(w), 0) == w
  {
    hide ByteOf, LowByte, ToWord, JoinBytes;
    ByteReadsBack(w, 24);
    ByteReadsBack(w, 16);
    ByteReadsBack(w, 8);
    ByteReadsBack(w, 0);
    LowBytesJoin(w);
  }

  // The routine's forms of the round functions: "or" where the standard has "exclusive or".

  lemma ChForm(b: Word, c: Word, d0: Word)
    ensures (b & c) | (!b & d0) == Ch(b, c, d0)
  {
  }

  lemma MajForm(b: Word, c: Word, d0: Word)
    ensures (b & c) | (b & d0) | (c & d0) == Maj(b, c, d0)
  {
  }

  function ChWithOr(b: Word, c: Word, d0: Word): (f: Word)
    ensures f == Ch(b, c, d0)
  {
    ChForm(b, c, d0);
    (b & c) | (!b & d0)
  }

  function MajWithOr(b: Word, c: Word, d0: Word): (f: Word)
    ensures f == Maj(b, c, d0)
  {
    MajForm(b, c, d0);
    (b & c) | (b & d0) | (c & d0)
  }

  lemma Rotate5(x: Word)
    ensures RotL(x, 5) == x.RotateLeft(5)
  {
  }

  lemma Rotate30(x: Word)
    ensures RotL(x, 30) == x.RotateLeft(30)
  {
  }

  lemma MixAsCode(p: Word, q: Word, r: Word, s: Word)
    ensures RotL(p ^ q ^ r ^ s, 1) == MixWords(p, q, r, s)
  {
  }

  lemma RoundAsCode(v: Hash, t: nat, f: Word, k: Word, w: Word)
    requires f == F(t, v.b, v.c, v.d) && k == K(t)
    ensures Round(v, t, w) == Hash(Sum(RotL(v.a, 5), f, v.e, k, w), v.a, RotL(v.b, 30), v.c, v.d)
  {
    Rotate5(v.a);
    Rotate30(v.b);
  }
}

/** The parts of the compatibility routine that work on one block's words, and its output. */
module Sha1Block {
  import opened Bytes
  import opened Sha1Spec
  import opened Sha1Words

  lemma ScheduleStep(block: seq<byte>, t: nat, p: Word, q: Word, r: Word, s: Word)
    requires |block| == 64 && t >= 16
    requires var ws := Schedule(block, t);
      p == ws[t - 3] && q == ws[t - 8] && r == ws[t - 14] && s == ws[t - 16]
    ensures Schedule(block, t + 1) == Schedule(block, t) + [RotL(p ^ q ^ r ^ s, 1)]
  {
    hide MixWords, RotL, WordAt;
    MixAsCode(p, q, r, s);
  }

  method ExpandSchedule(w: array<Word>, ghost block: seq<byte>)
    requires w.Length == 80 && |block| == 64
    requires w[..16] == Schedule(block, 16)
    modifies w
    ensures w[..] == Schedule(block, 80)
  {
    hide MixWords, RotL, WordAt, Schedule;
    var i := 16;
    while i < 80
      invariant 16 <= i <= 80
      invariant w[..i] == Schedule(block, i)
    {
      ghost var ws := w[..i];
      var p, q, r, s := w[i - 3], w[i - 8], w[i - 14], w[i - 16];
      ScheduleStep(block, i, p, q, r, s);
      w[i] := RotL(p ^ q ^ r ^ s, 1);
      assert w[..i + 1] == ws + [w[i]];
      i := i + 1;
    }
    assert w[..80] == w[..];
  }

  method RunRounds(w: array<Word>, h0: Word, h1: Word, h2: Word, h3: Word, h4: Word)
    returns (a: Word, b: Word, c: Word, d0: Word, e: Word)
    requires w.Length == 80
    ensures Hash(a, b, c, d0, e) == Rounds(Hash(h0, h1, h2, h3, h4), w[..], 80)
  {
    hide Sum, RotL, Round, Ch, Maj, Parity;
    a, b, c, d0, e := h0, h1, h2, h3, h4;
    var i := 0;
    while i < 80
      invariant 0 <= i <= 80
      invariant Hash(a, b, c, d0, e) == Rounds(Hash(h0, h1, h2, h3, h4), w[..], i)
    {
      var f: Word, k: Word := 0, 0;
      if i < 20 {
        f, k := ChWithOr(b, c, d0), 0x5a827999;
      } else if i < 40 {
        f, k := Parity(b, c, d0), 0x6ed9eba1;
      } else if i < 60 {
        f, k := MajWithOr(b, c, d0), 0x8f1bbcdc;
      } else {
        f, k := Parity(b, c, d0), 0xca62c1d6;
      }
      RoundAsCode(Hash(a, b, c, d0, e), i, f, k, w[i]);
      var temp := Sum(RotL(a, 5), f, e, k, w[i]);
      e := d0;
      d0 := c;
      c := RotL(b, 30);
      b := a;
      a := temp;
      i := i + 1;
    }
  }

  /** Writes the five words big-endian and leaves the rest of the buffer alone. */
  method WriteDigest(digest: seq<Word>, md: array<byte>)
    requires |digest| == 5 && md.Length >= 20
    modifies md
    ensures md[..20] == BytesOf(digest)
    ensures md[20..] == old(md[20..])
  {
    hide ByteOf;
    var i := 0;
    while i < 5
      invariant 0 <= i <= 5
      invariant md[..4 * i] == BytesOf(digest[..i])
      invariant md[20..] == old(md[20..])
    {
      md[4 * i] := ByteOf(digest[i], 24);
      md[4 * i + 1] := ByteOf(digest[i], 16);
      md[4 * i + 2] := ByteOf(digest[i], 8);
      md[4 * i + 3] := ByteOf(digest[i], 0);
      assert md[4 * i..4 * i + 4] == WordBytes(digest[i]);
      assert digest[..i + 1][..i] == digest[..i];
      assert md[..4 * i + 4] == md[..4 * i] + md[4 * i..4 * i + 4];
      i := i + 1;
    }
    assert digest[..5] == digest;
  }
}
