/**
 The pieces of the authentication code, bit by bit: doubling in the field of the
 subkeys, and bytes in words; and two tags worked out in full.
 */
module AuthBits {
  import opened Cutting
  import opened Auth

  predicate Bit(w: bv32, j: bv32)
    requires j < 32
  {
    (w >> j) & 1 == 1
  }

  // -------------------------------------------------------------- doubling

  /** A word moved up by one bit, the top bit of the word below coming in. */
  lemma ShiftUpBits(hi: bv32, lo: bv32, j: bv32)
    requires j < 32
    ensures Bit(ShiftUp(hi, lo), j) == if j == 0 then Bit(lo, 31) else Bit(hi, j - 1)
  {}

  lemma ReductionBits(w: bv32, j: bv32)
    requires j < 32
    ensures Bit(w ^ 0x87, j) == (Bit(w, j) != (j == 0 || j == 1 || j == 2 || j == 7))
  {}

  lemma TopBit(w: bv32)
    ensures (w & 0x8000_0000 != 0) == Bit(w, 31)
  {}

  /** Multiplication by x modulo x^128 + x^7 + x^2 + x + 1, bit j of word 0 being the
      coefficient of x^j: every bit moves up by one, ... */
  lemma TimesTwoMovesUp(v: Words, j: bv32)
    requires j < 32
    ensures var t := TimesTwo(v);
            && Bit(t.w1, j) == (if j == 0 then Bit(v.w0, 31) else Bit(v.w1, j - 1))
            && Bit(t.w2, j) == (if j == 0 then Bit(v.w1, 31) else Bit(v.w2, j - 1))
            && Bit(t.w3, j) == (if j == 0 then Bit(v.w2, 31) else Bit(v.w3, j - 1))
  {
    ShiftUpBits(v.w1, v.w0, j);
    ShiftUpBits(v.w2, v.w1, j);
    ShiftUpBits(v.w3, v.w2, j);
  }

  /** ... in the lowest word a zero comes in, and if the top bit of all was set, bits 7,
      2, 1 and 0 of it change, as `ReductionBits` says. */
  lemma TimesTwoComesBack(v: Words)
    ensures TimesTwo(v).w0 == if Bit(v.w3, 31) then ShiftUp(v.w0, 0) ^ 0x87 else ShiftUp(v.w0, 0)
  {
    TopBit(v.w3);
    XorNothing(ShiftUp(v.w0, 0));
  }

  lemma XorNothing(w: bv32)
    ensures w ^ 0 == w
  {}

  // -------------------------------------------------------- bytes and words

  lemma ByteOfWord(a: bv8, b: bv8, c: bv8, d: bv8)
    ensures var w := ByteAt(a, 0) | ByteAt(b, 8) | ByteAt(c, 16) | ByteAt(d, 24);
            ByteOf(w, 0) == a && ByteOf(w, 8) == b && ByteOf(w, 16) == c && ByteOf(w, 24) == d
  {}

  /** A word holds its four bytes, the lowest first. */
  lemma WordHoldsBytes(m: Bytes, i: nat)
    requires i + 4 <= |m|
    ensures ByteOf(Word(m, i), 0) == m[i] && ByteOf(Word(m, i), 8) == m[i + 1]
    ensures ByteOf(Word(m, i), 16) == m[i + 2] && ByteOf(Word(m, i), 24) == m[i + 3]
  {
    ByteOfWord(m[i], m[i + 1], m[i + 2], m[i + 3]);
  }

  /** So no two blocks load alike. */
  lemma LoadIsInjective(a: Block, b: Block)
    requires Load(a) == Load(b)
    ensures a == b
  {
    WordHoldsBytes(a, 0); WordHoldsBytes(a, 4); WordHoldsBytes(a, 8); WordHoldsBytes(a, 12);
    WordHoldsBytes(b, 0); WordHoldsBytes(b, 4); WordHoldsBytes(b, 8); WordHoldsBytes(b, 12);
  }

  // ------------------------------------------------------------- two tags

  const RAW: Words := Words(0x03020100, 0x07060504, 0x0B0A0908, 0x8F0E0D0C)

  lemma Subkeys()
    ensures KeyInit(RAW).k == RAW
    ensures KeyInit(RAW).k1 == Words(0x06040287, 0x0E0C0A08, 0x16141210, 0x1E1C1A18)
    ensures KeyInit(RAW).k2 == Words(0x0C08050E, 0x1C181410, 0x2C282420, 0x3C383430)
  {}

  lemma Twelve(v0: Words, v4: Words, v8: Words, v12: Words)
    requires Round(Round(Round(Round(v0)))) == v4 && Round(Round(Round(Round(v4)))) == v8 && Round(Round(Round(Round(v8)))) == v12
    ensures Permute(v0) == v12
  {
    FourRounds(v0, 0, v0, v4);
    FourRounds(v0, 4, v4, v8);
    FourRounds(v0, 8, v8, v12);
  }

  const FIVE: Bytes := [0x10, 0x21, 0x32, 0x43, 0x54]

  /** A message shorter than a block: padded, and masked with the second subkey. */
  lemma TagOfFive()
    ensures OneShot(KeyInit(RAW), FIVE) == [0x96, 0xA0, 0x58, 0xCB, 0xB4, 0xFD, 0x1D, 0x30]
  {
    Subkeys();
    PaddedFive();
    FiveMixed();
    FivePermuted();
    FiveDone();
    assert Consume(Absorb, RAW, FIVE) == (RAW, FIVE);
  }

  lemma PaddedFive()
    ensures Load(Padded(FIVE)) == Words(0x43322110, 0x00000154, 0, 0)
  {
    assert Padded(FIVE) == [0x10, 0x21, 0x32, 0x43, 0x54, 1, 0, 0, 0, 0, 0, 0, 0, 0, 0, 0];
  }

  lemma FiveMixed()
    ensures Xor(Xor(RAW, Words(0x0C08050E, 0x1C181410, 0x2C282420, 0x3C383430)), Words(0x43322110, 0x00000154, 0, 0))
            == Words(0x4C38251E, 0x1B1E1040, 0x27222D28, 0xB336393C)
  {}

  lemma FivePermuted()
    ensures Permute(Words(0x4C38251E, 0x1B1E1040, 0x27222D28, 0xB336393C)) == Words(0xC85AA196, 0x371BF8B0, 0x700FD1D0, 0xCCBAEF7D)
  {
    Twelve(Words(0x4C38251E, 0x1B1E1040, 0x27222D28, 0xB336393C), Words(0x91581BBF, 0xCADB0048, 0x657AE73C, 0x3CAA411B),
           Words(0xA758A127, 0xEEA49010, 0x4D92B71E, 0x4F0AE867), Words(0xC85AA196, 0x371BF8B0, 0x700FD1D0, 0xCCBAEF7D));
  }

  lemma FiveDone()
    ensures Tag(Xor(Words(0xC85AA196, 0x371BF8B0, 0x700FD1D0, 0xCCBAEF7D), RAW)) == [0x96, 0xA0, 0x58, 0xCB, 0xB4, 0xFD, 0x1D, 0x30]
  {}

  const TWO_BLOCKS: Bytes := [1, 2, 3, 4, 5, 6, 7, 8, 9, 10, 11, 12, 13, 14, 15, 16,
                              17, 18, 19, 20, 21, 22, 23, 24, 25, 26, 27, 28, 29, 30, 31, 32]

  /** Two whole blocks: one taken in, the last masked with the first subkey. */
  lemma TagOfTwoBlocks()
    ensures OneShot(KeyInit(RAW), TWO_BLOCKS) == [0x6A, 0x04, 0x97, 0xE3, 0x19, 0xD7, 0x03, 0xC7]
  {
    Subkeys();
    var first, last := TWO_BLOCKS[..BLOCK], TWO_BLOCKS[BLOCK..];
    BlockWords();
    FirstMixed();
    FirstPermuted();
    var v := Words(0x00050660, 0xA99D306C, 0x20ACE693, 0x90DB48A9);
    assert Absorb(RAW, first) == v;
    assert Consume(Absorb, v, last) == (v, last);
    assert Consume(Absorb, RAW, TWO_BLOCKS) == (v, last);
    LastMixed();
    LastPermuted();
    TwoDone();
  }

  lemma BlockWords()
    ensures Load(TWO_BLOCKS[..BLOCK]) == Words(0x04030201, 0x08070605, 0x0C0B0A09, 0x100F0E0D)
    ensures Load(TWO_BLOCKS[BLOCK..]) == Words(0x14131211, 0x18171615, 0x1C1B1A19, 0x201F1E1D)
  {
    assert TWO_BLOCKS[..BLOCK] == [1, 2, 3, 4, 5, 6, 7, 8, 9, 10, 11, 12, 13, 14, 15, 16];
    assert TWO_BLOCKS[BLOCK..] == [17, 18, 19, 20, 21, 22, 23, 24, 25, 26, 27, 28, 29, 30, 31, 32];
  }

  lemma FirstMixed()
    ensures Xor(RAW, Words(0x04030201, 0x08070605, 0x0C0B0A09, 0x100F0E0D)) == Words(0x07010301, 0x0F010301, 0x07010301, 0x9F010301)
  {}

  lemma FirstPermuted()
    ensures Permute(Words(0x07010301, 0x0F010301, 0x07010301, 0x9F010301)) == Words(0x00050660, 0xA99D306C, 0x20ACE693, 0x90DB48A9)
  {
    Twelve(Words(0x07010301, 0x0F010301, 0x07010301, 0x9F010301), Words(0xBC984B7F, 0x29E599DB, 0x3A4E1EF9, 0x4D19B0BD),
           Words(0x232F3B0F, 0xC690E219, 0x973B10FA, 0x6196DD8E), Words(0x00050660, 0xA99D306C, 0x20ACE693, 0x90DB48A9));
  }

  lemma LastMixed()
    ensures Xor(Xor(Words(0x00050660, 0xA99D306C, 0x20ACE693, 0x90DB48A9), Words(0x06040287, 0x0E0C0A08, 0x16141210, 0x1E1C1A18)),
                Words(0x14131211, 0x18171615, 0x1C1B1A19, 0x201F1E1D))
            == Words(0x121216F6, 0xBF862C71, 0x2AA3EE9A, 0xAED84CAC)
  {}

  lemma LastPermuted()
    ensures Permute(Words(0x121216F6, 0xBF862C71, 0x2AA3EE9A, 0xAED84CAC)) == Words(0xE095056A, 0xC005D21D, 0x491E2642, 0x72B806BB)
  {
    Twelve(Words(0x121216F6, 0xBF862C71, 0x2AA3EE9A, 0xAED84CAC), Words(0x43E532AA, 0xC65EEE58, 0x8E68A099, 0x34C93141),
           Words(0xC2A82B3D, 0x788F37EE, 0x52D1AECF, 0xCDF05B53), Words(0xE095056A, 0xC005D21D, 0x491E2642, 0x72B806BB));
  }

  lemma TwoDone()
    ensures Tag(Xor(Words(0xE095056A, 0xC005D21D, 0x491E2642, 0x72B806BB), RAW)) == [0x6A, 0x04, 0x97, 0xE3, 0x19, 0xD7, 0x03, 0xC7]
  {}
}
