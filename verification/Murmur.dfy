/** The value of a 32-bit word as a number. */
module WordValue {

  function Unsigned(w: bv32): nat { w as nat }

  lemma ShiftDoubles(v: bv32)
    requires v < 0x8000_0000
    ensures Unsigned(v << 1) == 2 * Unsigned(v) && Unsigned((v << 1) | 1) == 2 * Unsigned(v) + 1
  {
    assert (v << 1) as nat == 2 * (v as nat);
    assert ((v << 1) | 1) as nat == 2 * (v as nat) + 1;
  }

  lemma HalfIsSmall(v: bv32)
    requires Unsigned(v) < 0x8000_0000
    ensures v < 0x8000_0000
  {}

  lemma ZeroIsZero()
    ensures Unsigned(0) == 0
  {}

  function OfValue(n: nat): bv32
    requires n < 0x1_0000_0000
  {
    n as bv32
  }

  lemma OfUnsigned(w: bv32)
    ensures Unsigned(w) < 0x1_0000_0000 && OfValue(Unsigned(w)) == w
  {}

  lemma UnsignedOf(n: nat)
    requires n < 0x1_0000_0000
    ensures Unsigned(OfValue(n)) == n
  {
    hide Unsigned, OfValue;
    var w := ValueIsReached(n);
    OfUnsigned(w);
  }

  /** Every number below 2^32 is the value of a word. */
  lemma {:induction false} ValueIsReached(n: nat) returns (w: bv32)
    requires n < 0x1_0000_0000
    ensures Unsigned(w) == n
  {
    hide Unsigned;
    if n == 0 {
      ZeroIsZero();
      return 0;
    }
    var half := ValueIsReached(n / 2);
    HalfIsSmall(half);
    ShiftDoubles(half);
    w := if n % 2 == 0 then half << 1 else (half << 1) | 1;
  }
}

/** MurmurHash3 (x86, 32 bit) over byte strings, and the user buckets drawn from it. */
module Murmur {
  import opened Bytes
  import opened Mixing
  import opened WordValue

  // ---------------------------------------------------------------------------
  // Words and bytes
  // ---------------------------------------------------------------------------

  /** Four bytes as a little-endian word. */
  function Load(b0: Byte, b1: Byte, b2: Byte, b3: Byte): Word {
    (b0 as Word) | ((b1 as Word) << 8) | ((b2 as Word) << 16) | ((b3 as Word) << 24)
  }

  function Byte0(w: Word): Byte { (w & 0xff) as Byte }
  function Byte1(w: Word): Byte { ((w >> 8) & 0xff) as Byte }
  function Byte2(w: Word): Byte { ((w >> 16) & 0xff) as Byte }
  function Byte3(w: Word): Byte { ((w >> 24) & 0xff) as Byte }

  lemma BytesOfLoad(b0: Byte, b1: Byte, b2: Byte, b3: Byte)
    ensures var w := Load(b0, b1, b2, b3);
            Byte0(w) == b0 && Byte1(w) == b1 && Byte2(w) == b2 && Byte3(w) == b3
  {}

  lemma LoadOfBytes(w: Word)
    ensures Load(Byte0(w), Byte1(w), Byte2(w), Byte3(w)) == w
  {}

  lemma TailByXor(b0: Byte, b1: Byte, b2: Byte)
    ensures 0 ^ ((b2 as Word) << 16) ^ ((b1 as Word) << 8) ^ (b0 as Word) == Load(b0, b1, b2, 0)
    ensures 0 ^ ((b1 as Word) << 8) ^ (b0 as Word) == Load(b0, b1, 0, 0)
    ensures 0 ^ (b0 as Word) == Load(b0, 0, 0, 0)
  {}

  function WordAt(data: ByteString, i: nat): Word
    requires 4 * i + 4 <= |data|
  {
    Load(data[4 * i], data[4 * i + 1], data[4 * i + 2], data[4 * i + 3])
  }

  /** The 0-3 bytes after the last whole block. */
  function Tail(data: ByteString): ByteString {
    data[|data| / 4 * 4..]
  }

  /** A tail as a word; missing bytes are zero. */
  function TailWord(tail: ByteString): Word {
    if tail == [] then 0
    else Load(tail[0], if |tail| > 1 then tail[1] else 0, if |tail| > 2 then tail[2] else 0, 0)
  }

  /** Byte i of the word is byte i of the tail, and zero past its end. */
  lemma TailBytes(tail: ByteString)
    requires 1 <= |tail| <= 3
    ensures var w := TailWord(tail);
            && Byte0(w) == tail[0] && Byte1(w) == (if |tail| > 1 then tail[1] else 0)
            && Byte2(w) == (if |tail| > 2 then tail[2] else 0) && Byte3(w) == 0
  {
    BytesOfLoad(tail[0], if |tail| > 1 then tail[1] else 0, if |tail| > 2 then tail[2] else 0, 0);
  }

  /** The length as the source converts it: modulo 2^32. */
  function LengthWord(n: nat): Word {
    OfValue(n % 0x1_0000_0000)
  }

  lemma LengthWraps(n: nat)
    ensures Unsigned(LengthWord(n)) == n % 0x1_0000_0000
  {
    hide Unsigned, OfValue;
    UnsignedOf(n % 0x1_0000_0000);
  }

  // ---------------------------------------------------------------------------
  // The hash
  // ---------------------------------------------------------------------------

  /** The state after the first n blocks. */
  function Body(data: ByteString, n: nat, seed: Word): Word
    requires 4 * n <= |data|
  {
    if n == 0 then seed else MixBlock(Body(data, n - 1, seed), WordAt(data, n - 1))
  }

  /** From the state h after the blocks: the tail as word k, the length as word l, the final mix. */
  function Finish(h: Word, k: Word, l: Word): Word {
    Fmix32(Xor(Xor(h, Scramble(k)), l))
  }

  function Hash(data: ByteString, seed: Word): Word {
    Finish(Body(data, |data| / 4, seed), TailWord(Tail(data)), LengthWord(|data|))
  }

  lemma ScrambleZero(h: Word)
    ensures Xor(h, Scramble(0)) == h
  {
    assert Rotl32(0, 15) == 0;
  }

  method MurmurHash3(key: ByteString, seed: Word) returns (h1: Word)
    ensures h1 == Hash(key, seed)
  {
    var nblocks := |key| / 4;
    h1 := seed;
    for i := 0 to nblocks
      invariant h1 == Body(key, i, seed)
    {
      var k1 := Load(key[i * 4], key[i * 4 + 1], key[i * 4 + 2], key[i * 4 + 3]);
      k1 := TimesC1(k1);
      k1 := Rotl32(k1, 15);
      k1 := TimesC2(k1);

      h1 := Xor(h1, k1);
      h1 := Rotl32(h1, 13);
      h1 := TimesFive(h1);
    }

    var tail := key[nblocks * 4..];
    if |tail| > 0 {
      var k1 := GatherTail(tail);
      k1 := TimesC1(k1);
      k1 := Rotl32(k1, 15);
      k1 := TimesC2(k1);
      h1 := Xor(h1, k1);
    } else {
      ScrambleZero(h1);
    }

    h1 := Xor(h1, LengthWord(|key|));
    h1 := Fmix32(h1);
  }

  /** The fall-through switch over the tail bytes, last byte first. */
  method GatherTail(tail: ByteString) returns (k1: Word)
    requires 1 <= |tail| <= 3
    ensures k1 == TailWord(tail)
    ensures Byte0(k1) == tail[0] && Byte1(k1) == (if |tail| > 1 then tail[1] else 0)
    ensures Byte2(k1) == (if |tail| > 2 then tail[2] else 0) && Byte3(k1) == 0
  {
    hide Byte0, Byte1, Byte2, Byte3;
    k1 := 0;
    if |tail| == 3 {
      k1 := k1 ^ ((tail[2] as Word) << 16);
    }
    if |tail| >= 2 {
      k1 := k1 ^ ((tail[1] as Word) << 8);
    }
    k1 := k1 ^ (tail[0] as Word);
    assert k1 == TailWord(tail) by {
      hide Load;
      TailByXor(tail[0], if |tail| > 1 then tail[1] else 0, if |tail| > 2 then tail[2] else 0);
    }
    TailBytes(tail);
  }

  // ---------------------------------------------------------------------------
  // Solving the hash for its inputs
  // ---------------------------------------------------------------------------

  /** The state that Finish turns into `target`. */
  function UnFinish(target: Word, k: Word, l: Word): Word {
    Xor(Xor(UnFmix32(target), l), Scramble(k))
  }

  /** The tail word that makes Finish produce `target`. */
  function TailFor(h: Word, target: Word, l: Word): Word {
    UnScramble(Xor(Xor(UnFmix32(target), l), h))
  }

  lemma FinishIsBijective(h: Word, k: Word, l: Word, target: Word)
    ensures Finish(h, k, l) == target <==> h == UnFinish(target, k, l)
    ensures Finish(h, k, l) == target <==> k == TailFor(h, target, l)
  {
    hide Fmix32, UnFmix32, Scramble, UnScramble, Xor;
    var t, u := Scramble(k), Xor(UnFmix32(target), l);
    assert Finish(h, k, l) == target <==> Xor(h, t) == u by {
      Fmix32IsBijective(Xor(Xor(h, t), l), target);
      XorMoves(Xor(h, t), l, UnFmix32(target));
    }
    XorMoves(h, t, u);
    assert Xor(h, t) == u <==> t == Xor(u, h) by {
      XorCommutes(h, t);
      XorMoves(t, h, u);
    }
    ScrambleIsBijective(k, Xor(u, h));
  }

  /** The state after j blocks from which blocks j..n lead to h. */
  function Rewind(data: ByteString, j: nat, n: nat, h: Word): Word
    requires j <= n && 4 * n <= |data|
  {
    if n == j then h
    else Rewind(data, j, n - 1, Xor(UnMix(h), Scramble(WordAt(data, n - 1))))
  }

  lemma {:induction false} BodyRewinds(data: ByteString, j: nat, n: nat, seed: Word, h: Word)
    requires j <= n && 4 * n <= |data|
    ensures Body(data, n, seed) == h <==> Body(data, j, seed) == Rewind(data, j, n, h)
  {
    if j < n {
      MixBlockStateIsBijective(Body(data, n - 1, seed), WordAt(data, n - 1), h);
      BodyRewinds(data, j, n - 1, seed, Xor(UnMix(h), Scramble(WordAt(data, n - 1))));
    }
  }

  lemma {:induction false} BodyReadsPrefix(a: ByteString, b: ByteString, n: nat, seed: Word)
    requires 4 * n <= |a| && 4 * n <= |b| && a[..4 * n] == b[..4 * n]
    ensures Body(a, n, seed) == Body(b, n, seed)
  {
    if n > 0 {
      assert a[..4 * (n - 1)] == a[..4 * n][..4 * (n - 1)];
      assert b[..4 * (n - 1)] == b[..4 * n][..4 * (n - 1)];
      assert forall k :: 0 <= k < 4 * n ==> a[k] == a[..4 * n][k] && b[k] == b[..4 * n][k];
      BodyReadsPrefix(a, b, n - 1, seed);
    }
  }

  lemma {:induction false} RewindReadsSuffix(a: ByteString, b: ByteString, j: nat, n: nat, h: Word)
    requires j <= n && 4 * n <= |a| == |b| && a[4 * j..] == b[4 * j..]
    ensures Rewind(a, j, n, h) == Rewind(b, j, n, h)
  {
    if j < n {
      assert forall k :: 4 * j <= k < |a| ==> a[k] == a[4 * j..][k - 4 * j] && b[k] == b[4 * j..][k - 4 * j];
      RewindReadsSuffix(a, b, j, n - 1, Xor(UnMix(h), Scramble(WordAt(a, n - 1))));
    }
  }

  /** `data` with block j overwritten by the bytes of w. */
  function WithBlock(data: ByteString, j: nat, w: Word): (r: ByteString)
    requires 4 * j + 4 <= |data|
  {
    data[..4 * j] + [Byte0(w), Byte1(w), Byte2(w), Byte3(w)] + data[4 * j + 4..]
  }

  /** The state after the last block with which `data` hashes to `target`. */
  function EndFor(data: ByteString, target: Word): Word {
    UnFinish(target, TailWord(Tail(data)), LengthWord(|data|))
  }

  lemma HashFixesBody(data: ByteString, seed: Word, target: Word)
    ensures Hash(data, seed) == target <==> Body(data, |data| / 4, seed) == EndFor(data, target)
  {
    FinishIsBijective(Body(data, |data| / 4, seed), TailWord(Tail(data)), LengthWord(|data|), target);
  }

  /** The one word that, put in block j, makes `data` hash to `target`. */
  function BlockFor(data: ByteString, seed: Word, j: nat, target: Word): Word
    requires 4 * j + 4 <= |data|
  {
    UnScramble(Xor(UnMix(Rewind(data, j + 1, |data| / 4, EndFor(data, target))), Body(data, j, seed)))
  }

  lemma WithBlockFacts(data: ByteString, j: nat, w: Word)
    requires 4 * j + 4 <= |data|
    ensures var d := WithBlock(data, j, w);
            && |d| == |data| && Tail(d) == Tail(data)
            && d[..4 * j] == data[..4 * j] && d[4 * (j + 1)..] == data[4 * (j + 1)..]
            && WordAt(d, j) == w
  {
    LoadOfBytes(w);
  }

  lemma HashAfterBlock(data: ByteString, seed: Word, j: nat, w: Word, target: Word)
    requires 4 * j + 4 <= |data|
    ensures Hash(WithBlock(data, j, w), seed) == target
       <==> MixBlock(Body(data, j, seed), w) == Rewind(data, j + 1, |data| / 4, EndFor(data, target))
  {
    hide Xor, Scramble, UnMix, MixBlock, UnFinish, Rewind, Hash, Load, LengthWord, TailWord, Tail;
    var d, n, end := WithBlock(data, j, w), |data| / 4, EndFor(data, target);
    WithBlockFacts(data, j, w);
    HashFixesBody(d, seed, target);
    BodyRewinds(d, j + 1, n, seed, end);
    RewindReadsSuffix(d, data, j + 1, n, end);
    BodyReadsPrefix(d, data, j, seed);
  }

  /** With everything else fixed, the hash is a bijection of each 4-byte block. */
  lemma HashSolvesForBlock(data: ByteString, seed: Word, j: nat, w: Word, target: Word)
    requires 4 * j + 4 <= |data|
    ensures Hash(WithBlock(data, j, w), seed) == target <==> w == BlockFor(data, seed, j, target)
  {
    hide Hash, MixBlock, UnScramble, UnMix, Xor, Rewind, Body, EndFor, WithBlock;
    HashAfterBlock(data, seed, j, w, target);
    MixBlockWordIsBijective(Body(data, j, seed), w, Rewind(data, j + 1, |data| / 4, EndFor(data, target)));
  }

  /** With the key fixed, the hash is a bijection of the seed. */
  lemma HashSolvesForSeed(data: ByteString, seed: Word, target: Word)
    ensures Hash(data, seed) == target <==> seed == Rewind(data, 0, |data| / 4, EndFor(data, target))
  {
    HashFixesBody(data, seed, target);
    BodyRewinds(data, 0, |data| / 4, seed, EndFor(data, target));
  }

  /** Keys of one length that differ only inside one aligned block never collide. */
  lemma OneBlockNeverCollides(a: ByteString, b: ByteString, seed: Word, j: nat)
    requires |a| == |b| && 4 * j + 4 <= |a|
    requires a[..4 * j] == b[..4 * j] && a[4 * j + 4..] == b[4 * j + 4..]
    ensures Hash(a, seed) == Hash(b, seed) <==> a == b
  {
    var wa, wb := WordAt(a, j), WordAt(b, j);
    WithOwnBlock(a, j);
    WithOwnBlock(b, j);
    assert WithBlock(a, j, wb) == WithBlock(b, j, wb);
    HashSolvesForBlock(a, seed, j, wa, Hash(b, seed));
    HashSolvesForBlock(a, seed, j, wb, Hash(b, seed));
  }

  lemma WithOwnBlock(data: ByteString, j: nat)
    requires 4 * j + 4 <= |data|
    ensures WithBlock(data, j, WordAt(data, j)) == data
  {
    BytesOfLoad(data[4 * j], data[4 * j + 1], data[4 * j + 2], data[4 * j + 3]);
  }

  /** Keys of one length that differ only in the 1-3 byte tail never collide. */
  lemma TailNeverCollides(a: ByteString, b: ByteString, seed: Word)
    requires |a| == |b| && a[..|a| / 4 * 4] == b[..|a| / 4 * 4]
    ensures Hash(a, seed) == Hash(b, seed) <==> a == b
  {
    hide Finish, TailFor, Load;
    if Hash(a, seed) == Hash(b, seed) {
      var n, l := |a| / 4, LengthWord(|a|);
      BodyReadsPrefix(a, b, n, seed);
      var h, ka, kb := Body(a, n, seed), TailWord(Tail(a)), TailWord(Tail(b));
      assert ka == kb by {
        FinishIsBijective(h, ka, l, Hash(b, seed));
        FinishIsBijective(h, kb, l, Hash(b, seed));
      }
      TailWordIsInjective(Tail(a), Tail(b));
      assert a == a[..n * 4] + Tail(a) && b == b[..n * 4] + Tail(b);
    }
  }

  lemma TailWordIsInjective(a: ByteString, b: ByteString)
    requires |a| == |b| <= 3 && TailWord(a) == TailWord(b)
    ensures a == b
  {
    hide Load;
    if a != [] {
      LoadIsInjective(a[0], if |a| > 1 then a[1] else 0, if |a| > 2 then a[2] else 0,
                      b[0], if |b| > 1 then b[1] else 0, if |b| > 2 then b[2] else 0);
    }
  }

  lemma LoadIsInjective(a0: Byte, a1: Byte, a2: Byte, b0: Byte, b1: Byte, b2: Byte)
    requires Load(a0, a1, a2, 0) == Load(b0, b1, b2, 0)
    ensures a0 == b0 && a1 == b1 && a2 == b2
  {
    BytesOfLoad(a0, a1, a2, 0);
    BytesOfLoad(b0, b1, b2, 0);
  }

  // ---------------------------------------------------------------------------
  // Buckets
  // ---------------------------------------------------------------------------

  const BUCKETS := 10000

  function HashKey(flagKey: ByteString, userKey: ByteString): ByteString {
    flagKey + DOT + userKey
  }

  function Bucket(flagKey: ByteString, userKey: ByteString): (b: nat)
    ensures b < BUCKETS
  {
    Unsigned(Hash(HashKey(flagKey, userKey), 0)) % BUCKETS
  }

  method BucketUser(flagKey: ByteString, userKey: ByteString) returns (bucket: nat)
    ensures bucket == Bucket(flagKey, userKey)
    ensures bucket == Unsigned(Hash(flagKey + [0x2e] + userKey, 0)) % 10000
  {
    var hashKey := flagKey + DOT + userKey;
    var hash := MurmurHash3(hashKey, 0);
    bucket := Unsigned(hash) % 10000;
  }

  lemma EveryHashIsReached(prefix: ByteString, target: Word) returns (suffix: ByteString)
    ensures Hash(prefix + suffix, 0) == target
  {
    hide Hash, BlockFor, Byte0, Byte1, Byte2, Byte3;
    var j := (|prefix| + 3) / 4;
    var pad := seq(4 * j + 4 - |prefix|, _ => 0);
    var w := BlockFor(prefix + pad, 0, j, target);
    var data := WithBlock(prefix + pad, j, w);
    HashSolvesForBlock(prefix + pad, 0, j, w, target);
    suffix := data[|prefix|..];
    assert prefix + suffix == data;
  }

  /** Every bucket of every flag has a user in it. */
  lemma EveryBucketIsReached(flagKey: ByteString, bucket: nat)
    requires bucket < BUCKETS
    ensures exists userKey :: Bucket(flagKey, userKey) == bucket
  {
    hide Hash, Unsigned;
    var target := ValueIsReached(bucket);
    var userKey := EveryHashIsReached(flagKey + DOT, target);
    assert Bucket(flagKey, userKey) == bucket;
  }
}
