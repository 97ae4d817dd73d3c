/** The hash and a bucket evaluated at known keys: published values of MurmurHash3 for each length of the tail. */
module MurmurVectors {
  import opened Bytes
  import opened Mixing
  import opened WordValue
  import opened Murmur

  lemma KnownLengths()
    ensures LengthWord(1) == 1 && LengthWord(2) == 2 && LengthWord(3) == 3 && LengthWord(4) == 4
    ensures LengthWord(18) == 18
  {
    hide OfValue;
    OfUnsigned(1);
    OfUnsigned(2);
    OfUnsigned(3);
    OfUnsigned(4);
    OfUnsigned(18);
  }

  /** One block. */
  lemma KnownBlock(key: ByteString)
    requires key == [0x21, 0x43, 0x65, 0x87]
    ensures Hash(key, 0) == 0xf55b516b
  {
    hide TimesC1, TimesC2, TimesFive, TimesF1, TimesF2, Rotl32, Xor16, Xor13, Xor, LengthWord;
    KnownLengths();
    BlockSteps();
    assert Body(key, 0, 0) == 0;
    assert Body(key, 1, 0) == 0xbb095db4;
    assert Tail(key) == [];
    ScrambleZero(0xbb095db4);
  }

  lemma BlockSteps()
    ensures Load(0x21, 0x43, 0x65, 0x87) == 0x87654321
    ensures Scramble(0x87654321) == 0x5082edee && MixBlock(0, 0x87654321) == 0xbb095db4
    ensures Xor(0xbb095db4, 4) == 0xbb095db0 && Fmix32(0xbb095db0) == 0xf55b516b
  {
    assert TimesC1(0x87654321) == 0x5e350a71;
    assert Rotl32(0x5e350a71, 15) == 0x8538af1a;
    assert TimesC2(0x8538af1a) == 0x5082edee;
    assert Xor(0, 0x5082edee) == 0x5082edee;
    assert Rotl32(0x5082edee, 13) == 0x5dbdca10;
    assert TimesFive(0x5dbdca10) == 0xbb095db4;
    assert Xor16(0xbb095db0) == 0xbb09e6b9;
    assert TimesF1(0xbb09e6b9) == 0xe6046953;
    assert Xor13(0xe6046953) == 0xe6035970;
    assert TimesF2(0xe6035970) == 0xf55ba430;
    assert Xor16(0xf55ba430) == 0xf55b516b;
  }

  /** A tail of three bytes. */
  lemma KnownTail(key: ByteString)
    requires key == [0x21, 0x43, 0x65]
    ensures Hash(key, 0) == 0x7e4a8634
  {
    hide TimesC1, TimesC2, TimesF1, TimesF2, Rotl32, Xor16, Xor13, Xor, LengthWord;
    KnownLengths();
    TailSteps();
    assert Body(key, 0, 0) == 0;
    assert Tail(key) == key;
  }

  lemma TailSteps()
    ensures Load(0x21, 0x43, 0x65, 0) == 0x654321
    ensures Scramble(0x654321) == 0x17a6636e && Xor(0, 0x17a6636e) == 0x17a6636e
    ensures Xor(0x17a6636e, 3) == 0x17a6636d && Fmix32(0x17a6636d) == 0x7e4a8634
  {
    assert TimesC1(0x654321) == 0xa7350a71;
    assert Rotl32(0xa7350a71, 15) == 0x8538d39a;
    assert TimesC2(0x8538d39a) == 0x17a6636e;
    assert Xor16(0x17a6636d) == 0x17a674cb;
    assert TimesF1(0x17a674cb) == 0xe813fed9;
    assert Xor13(0xe813fed9) == 0xe814be46;
    assert TimesF2(0xe814be46) == 0x7e4af87e;
    assert Xor16(0x7e4af87e) == 0x7e4a8634;
  }

  /** Of two. */
  lemma KnownTwoBytes(key: ByteString)
    requires key == [0x21, 0x43]
    ensures Hash(key, 0) == 0xa0f7b07a
  {
    hide TimesC1, TimesC2, TimesF1, TimesF2, Rotl32, Xor16, Xor13, Xor, LengthWord;
    KnownLengths();
    KnownTwoBytesSteps();
    assert Body(key, 0, 0) == 0;
    assert Tail(key) == key;
  }

  lemma KnownTwoBytesSteps()
    ensures Load(0x21, 0x43, 0, 0) == 0x4321
    ensures Scramble(0x4321) == 0xec900b60 && Xor(0, 0xec900b60) == 0xec900b60
    ensures Xor(0xec900b60, 2) == 0xec900b62 && Fmix32(0xec900b62) == 0xa0f7b07a
  {
    assert TimesC1(0x4321) == 0xc6400a71;
    assert Rotl32(0xc6400a71, 15) == 0x538e320;
    assert TimesC2(0x538e320) == 0xec900b60;
    assert Xor16(0xec900b62) == 0xec90e7f2;
    assert TimesF1(0xec90e7f2) == 0xdcbbe626;
    assert Xor13(0xdcbbe626) == 0xdcbd03f9;
    assert TimesF2(0xdcbd03f9) == 0xa0f7108d;
    assert Xor16(0xa0f7108d) == 0xa0f7b07a;
  }

  /** Of one. */
  lemma KnownByte(key: ByteString)
    requires key == [0x21]
    ensures Hash(key, 0) == 0x72661cf4
  {
    hide TimesC1, TimesC2, TimesF1, TimesF2, Rotl32, Xor16, Xor13, Xor, LengthWord;
    KnownLengths();
    KnownByteSteps();
    assert Body(key, 0, 0) == 0;
    assert Tail(key) == key;
  }

  lemma KnownByteSteps()
    ensures Load(0x21, 0, 0, 0) == 0x21
    ensures Scramble(0x21) == 0xac5e5123 && Xor(0, 0xac5e5123) == 0xac5e5123
    ensures Xor(0xac5e5123, 1) == 0xac5e5122 && Fmix32(0xac5e5122) == 0x72661cf4
  {
    assert TimesC1(0x21) == 0x6063d771;
    assert Rotl32(0x6063d771, 15) == 0xebb8b031;
    assert TimesC2(0xebb8b031) == 0xac5e5123;
    assert Xor16(0xac5e5122) == 0xac5efd7c;
    assert TimesF1(0xac5efd7c) == 0x1c8bcad4;
    assert Xor13(0x1c8bcad4) == 0x1c8b2e8a;
    assert TimesF2(0x1c8b2e8a) == 0x72666e92;
    assert Xor16(0x72666e92) == 0x72661cf4;
  }

  /** Four blocks and a tail of two: the flag "dark-mode" and the user "user-123" meet in bucket 4762. */
  lemma KnownBucket(flagKey: ByteString, userKey: ByteString)
    requires flagKey == [0x64, 0x61, 0x72, 0x6b, 0x2d, 0x6d, 0x6f, 0x64, 0x65]
    requires userKey == [0x75, 0x73, 0x65, 0x72, 0x2d, 0x31, 0x32, 0x33]
    ensures Bucket(flagKey, userKey) == 4762
  {
    hide TimesC1, TimesC2, TimesFive, TimesF1, TimesF2, Rotl32, Xor16, Xor13, Xor, LengthWord, Load, MixBlock,
         Scramble, Fmix32, Unsigned;
    var key := HashKey(flagKey, userKey);
    assert |key| == 18;
    KnownLengths();
    Block0();
    Block1();
    Block2();
    Block3();
    LastWord();
    LastMix();
    assert Body(key, 0, 0) == 0;
    assert Body(key, 1, 0) == 0xd0685097;
    assert Body(key, 2, 0) == 0xdd69295;
    assert Body(key, 3, 0) == 0x57a49898;
    assert Body(key, 4, 0) == 0x558dc23;
    assert Tail(key) == [0x32, 0x33];
  }

  lemma Block0()
    ensures Load(0x64, 0x61, 0x72, 0x6b) == 0x6b726164 && MixBlock(0x0, 0x6b726164) == 0xd0685097
  {
    assert TimesC1(0x6b726164) == 0xe60764a4;
    assert Rotl32(0xe60764a4, 15) == 0xb2527303;
    assert TimesC2(0xb2527303) == 0x6ebca9b9;
    assert Xor(0x0, 0x6ebca9b9) == 0x6ebca9b9;
    assert Rotl32(0x6ebca9b9, 13) == 0x95372dd7;
    assert TimesFive(0x95372dd7) == 0xd0685097;
  }

  lemma Block1()
    ensures Load(0x2d, 0x6d, 0x6f, 0x64) == 0x646f6d2d && MixBlock(0xd0685097, 0x646f6d2d) == 0xdd69295
  {
    assert TimesC1(0x646f6d2d) == 0x9b38743d;
    assert Rotl32(0x9b38743d, 15) == 0x3a1ecd9c;
    assert TimesC2(0x3a1ecd9c) == 0xa1855c94;
    assert Xor(0xd0685097, 0xa1855c94) == 0x71ed0c03;
    assert Rotl32(0x71ed0c03, 13) == 0xa1806e3d;
    assert TimesFive(0xa1806e3d) == 0xdd69295;
  }

  lemma Block2()
    ensures Load(0x65, 0x2e, 0x75, 0x73) == 0x73752e65 && MixBlock(0xdd69295, 0x73752e65) == 0x57a49898
  {
    assert TimesC1(0x73752e65) == 0x3f916ef5;
    assert Rotl32(0x3f916ef5, 15) == 0xb77a9fc8;
    assert TimesC2(0xb77a9fc8) == 0x18f627d8;
    assert Xor(0xdd69295, 0x18f627d8) == 0x1520b54d;
    assert Rotl32(0x1520b54d, 13) == 0x16a9a2a4;
    assert TimesFive(0x16a9a2a4) == 0x57a49898;
  }

  lemma Block3()
    ensures Load(0x65, 0x72, 0x2d, 0x31) == 0x312d7265 && MixBlock(0x57a49898, 0x312d7265) == 0x558dc23
  {
    assert TimesC1(0x312d7265) == 0xa2d2f2f5;
    assert Rotl32(0xa2d2f2f5, 15) == 0x797ad169;
    assert TimesC2(0x797ad169) == 0xb03ffc4b;
    assert Xor(0x57a49898, 0xb03ffc4b) == 0xe79b64d3;
    assert Rotl32(0xe79b64d3, 13) == 0x6c9a7cf3;
    assert TimesFive(0x6c9a7cf3) == 0x558dc23;
  }

  lemma LastWord()
    ensures Load(0x32, 0x33, 0, 0) == 0x3332 && Scramble(0x3332) == 0xdc3fb9af
    ensures Xor(0x558dc23, 0xdc3fb9af) == 0xd967658c && Xor(0xd967658c, 18) == 0xd967659e
  {
    assert TimesC1(0x3332) == 0x79ebfcd2;
    assert Rotl32(0x79ebfcd2, 15) == 0xfe693cf5;
    assert TimesC2(0xfe693cf5) == 0xdc3fb9af;
    assert Xor(0x558dc23, 0xdc3fb9af) == 0xd967658c;
    assert Xor(0xd967658c, 18) == 0xd967659e;
  }

  lemma LastMix()
    ensures Fmix32(0xd967659e) == 0x57e2b30a && Unsigned(0x57e2b30a) % 10000 == 4762
  {
    assert Xor16(0xd967659e) == 0xd967bcf9;
    assert TimesF1(0xd967bcf9) == 0x8f0b7613;
    assert Xor13(0x8f0b7613) == 0x8f0f0e48;
    assert TimesF2(0x8f0f0e48) == 0x57e2e4e8;
    assert Xor16(0x57e2e4e8) == 0x57e2b30a;
  }
}
