/** The 32-bit mixing steps of MurmurHash3 (x86, 32 bit), each with its inverse. */
module Mixing {

  type Word = bv32

  // One function for each instruction of the source, so that each is inverted on its own.

  function TimesC1(x: Word): Word { x * 0xcc9e2d51 }
  function OverC1(x: Word): Word { x * 0xdee13bb1 }

  function TimesC2(x: Word): Word { x * 0x1b873593 }
  function OverC2(x: Word): Word { x * 0x56ed309b }

  function TimesFive(x: Word): Word { x * 5 + 0xe6546b64 }
  function OverFive(x: Word): Word { (x - 0xe6546b64) * 0xcccccccd }

  function TimesF1(x: Word): Word { x * 0x85ebca6b }
  function OverF1(x: Word): Word { x * 0xa5cb9243 }

  function TimesF2(x: Word): Word { x * 0xc2b2ae35 }
  function OverF2(x: Word): Word { x * 0x7ed1b41d }

  function Rotl32(x: Word, r: bv6): Word
    requires r <= 32
  {
    (x << r) | (x >> (32 - r))
  }

  /** h ^= h >> 16, which undoes itself. */
  function Xor16(x: Word): Word { x ^ (x >> 16) }

  function Xor13(x: Word): Word { x ^ (x >> 13) }
  function UnXor13(x: Word): Word { x ^ (x >> 13) ^ (x >> 26) }

  function Xor(x: Word, y: Word): Word { x ^ y }

  function Fmix32(h: Word): Word { Xor16(TimesF2(Xor13(TimesF1(Xor16(h))))) }
  function UnFmix32(h: Word): Word { Xor16(OverF1(UnXor13(OverF2(Xor16(h))))) }

  /** What one 4-byte word contributes to the state. */
  function Scramble(k: Word): Word { TimesC2(Rotl32(TimesC1(k), 15)) }
  function UnScramble(k: Word): Word { OverC1(Rotl32(OverC2(k), 17)) }

  function MixBlock(h: Word, k: Word): Word { TimesFive(Rotl32(Xor(h, Scramble(k)), 13)) }

  /** Takes a state back through MixBlock as far as h ^ Scramble(k). */
  function UnMix(h: Word): Word { Rotl32(OverFive(h), 19) }

  lemma C1Inverts(x: Word)
    ensures OverC1(TimesC1(x)) == x && TimesC1(OverC1(x)) == x
  {
    assert OverC1(x * 0xcc9e2d51) == x;
    assert TimesC1(x * 0xdee13bb1) == x;
  }

  lemma C2Inverts(x: Word)
    ensures OverC2(TimesC2(x)) == x && TimesC2(OverC2(x)) == x
  {
    assert OverC2(x * 0x1b873593) == x;
    assert TimesC2(x * 0x56ed309b) == x;
  }

  lemma FiveInverts(x: Word)
    ensures OverFive(TimesFive(x)) == x && TimesFive(OverFive(x)) == x
  {
    assert OverFive(x * 5 + 0xe6546b64) == x;
    assert TimesFive((x - 0xe6546b64) * 0xcccccccd) == x;
  }

  lemma F1Inverts(x: Word)
    ensures OverF1(TimesF1(x)) == x && TimesF1(OverF1(x)) == x
  {
    assert OverF1(x * 0x85ebca6b) == x;
    assert TimesF1(x * 0xa5cb9243) == x;
  }

  lemma F2Inverts(x: Word)
    ensures OverF2(TimesF2(x)) == x && TimesF2(OverF2(x)) == x
  {
    assert OverF2(x * 0xc2b2ae35) == x;
    assert TimesF2(x * 0x7ed1b41d) == x;
  }

  lemma Rotate15Inverts(x: Word)
    ensures Rotl32(Rotl32(x, 15), 17) == x && Rotl32(Rotl32(x, 17), 15) == x
  {
    assert Rotl32(x, 15) == (x << 15) | (x >> 17);
    assert Rotl32((x << 15) | (x >> 17), 17) == x;
    assert Rotl32(x, 17) == (x << 17) | (x >> 15);
    assert Rotl32((x << 17) | (x >> 15), 15) == x;
  }

  lemma Rotate13Inverts(x: Word)
    ensures Rotl32(Rotl32(x, 13), 19) == x && Rotl32(Rotl32(x, 19), 13) == x
  {
    assert Rotl32(x, 13) == (x << 13) | (x >> 19);
    assert Rotl32((x << 13) | (x >> 19), 19) == x;
    assert Rotl32(x, 19) == (x << 19) | (x >> 13);
    assert Rotl32((x << 19) | (x >> 13), 13) == x;
  }

  lemma Xor16Inverts(x: Word)
    ensures Xor16(Xor16(x)) == x
  {
    assert Xor16(x ^ (x >> 16)) == x;
  }

  lemma Xor13Inverts(x: Word)
    ensures UnXor13(Xor13(x)) == x && Xor13(UnXor13(x)) == x
  {
    assert UnXor13(x ^ (x >> 13)) == x;
    assert Xor13(x ^ (x >> 13) ^ (x >> 26)) == x;
  }

  lemma XorCommutes(x: Word, y: Word)
    ensures Xor(x, y) == Xor(y, x)
  {}

  lemma XorInverts(x: Word, y: Word)
    ensures Xor(Xor(x, y), y) == x
  {
    assert Xor(x ^ y, y) == x;
  }

  lemma XorMoves(x: Word, y: Word, z: Word)
    ensures Xor(x, y) == z <==> x == Xor(z, y)
  {
    XorInverts(x, y);
    XorInverts(z, y);
  }

  // ---------------------------------------------------------------------------
  // The compound steps permute the 32-bit words
  // ---------------------------------------------------------------------------

  lemma Fmix32IsBijective(h: Word, g: Word)
    ensures Fmix32(h) == g <==> h == UnFmix32(g)
  {
    Xor16Inverts(h);
    F1Inverts(Xor16(h));
    Xor13Inverts(TimesF1(Xor16(h)));
    F2Inverts(Xor13(TimesF1(Xor16(h))));
    Xor16Inverts(TimesF2(Xor13(TimesF1(Xor16(h)))));

    Xor16Inverts(g);
    F2Inverts(Xor16(g));
    Xor13Inverts(OverF2(Xor16(g)));
    F1Inverts(UnXor13(OverF2(Xor16(g))));
    Xor16Inverts(OverF1(UnXor13(OverF2(Xor16(g)))));
  }

  lemma ScrambleIsBijective(k: Word, g: Word)
    ensures Scramble(k) == g <==> k == UnScramble(g)
  {
    C1Inverts(k);
    Rotate15Inverts(TimesC1(k));
    C2Inverts(Rotl32(TimesC1(k), 15));

    C2Inverts(g);
    Rotate15Inverts(OverC2(g));
    C1Inverts(Rotl32(OverC2(g), 17));
  }

  lemma UnMixInverts(x: Word, g: Word)
    ensures TimesFive(Rotl32(x, 13)) == g <==> x == UnMix(g)
  {
    Rotate13Inverts(x);
    FiveInverts(Rotl32(x, 13));
    FiveInverts(g);
    Rotate13Inverts(OverFive(g));
  }

  /** One block step can be solved for the state before it... */
  lemma MixBlockStateIsBijective(h: Word, k: Word, g: Word)
    ensures MixBlock(h, k) == g <==> h == Xor(UnMix(g), Scramble(k))
  {
    UnMixInverts(Xor(h, Scramble(k)), g);
    XorMoves(h, Scramble(k), UnMix(g));
  }

  /** ... and for the word it absorbs. */
  lemma MixBlockWordIsBijective(h: Word, k: Word, g: Word)
    ensures MixBlock(h, k) == g <==> k == UnScramble(Xor(UnMix(g), h))
  {
    UnMixInverts(Xor(h, Scramble(k)), g);
    XorCommutes(h, Scramble(k));
    XorMoves(Scramble(k), h, UnMix(g));
    ScrambleIsBijective(k, Xor(UnMix(g), h));
  }
}
