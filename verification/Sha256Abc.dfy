/** The example of the standard: the digest of the message "abc", round by round. */
module Sha256Abc {
  import opened Sha256Spec
  import opened Sha256Words
  import opened Sha256

  const ABC: Bytes := [0x61, 0x62, 0x63]

  /** The message schedule. */
  function Word(t: nat): (w: bv32)
    requires t < 64
  {
    if t < 8 then Pick(t, 0x61626380, 0x00000000, 0x00000000, 0x00000000, 0x00000000, 0x00000000, 0x00000000, 0x00000000)
    else if t < 16 then Pick(t - 8, 0x00000000, 0x00000000, 0x00000000, 0x00000000, 0x00000000, 0x00000000, 0x00000000, 0x00000018)
    else if t < 24 then Pick(t - 16, 0x61626380, 0x000f0000, 0x7da86405, 0x600003c6, 0x3e9d7b78, 0x0183fc00, 0x12dcbfdb, 0xe2e2c38e)
    else if t < 32 then Pick(t - 24, 0xc8215c1a, 0xb73679a2, 0xe5bc3909, 0x32663c5b, 0x9d209d67, 0xec8726cb, 0x702138a4, 0xd3b7973b)
    else if t < 40 then Pick(t - 32, 0x93f5997f, 0x3b68ba73, 0xaff4ffc1, 0xf10a5c62, 0x0a8b3996, 0x72af830a, 0x9409e33e, 0x24641522)
    else if t < 48 then Pick(t - 40, 0x9f47bf94, 0xf0a64f5a, 0x3e246a79, 0x27333ba3, 0x0c4763f2, 0x840abf27, 0x7a290d5d, 0x065c43da)
    else if t < 56 then Pick(t - 48, 0xfb3e89cb, 0xcc7617db, 0xb9e66c34, 0xa9993667, 0x84badedd, 0xc21462bc, 0x1487472c, 0xb20f7a99)
    else Pick(t - 56, 0xef57b9cd, 0xebe6b238, 0x9fe3095e, 0x78bc8d4b, 0xa43fcf15, 0x668b2ff8, 0xeeaba2cc, 0x12b1edeb)
  }

  /** Register a before round t - 3. */
  function A(t: nat): (w: bv32)
    requires t < 68
  {
    if t < 8 then Pick(t, 0xa54ff53a, 0x3c6ef372, 0xbb67ae85, 0x6a09e667, 0x5d6aebcd, 0x5a6ad9ad, 0xc8c347a7, 0xd550f666)
    else if t < 16 then Pick(t - 8, 0x04409a6a, 0x2b4209f5, 0xe5030380, 0x85a07b5f, 0x8e04ecb9, 0x8c87346b, 0x4798a3f4, 0xf71fc5a9)
    else if t < 24 then Pick(t - 16, 0x87912990, 0xd932eb16, 0xc0645fde, 0xb0fa238e, 0x21da9a9b, 0xc2fbd9d1, 0xfe777bbf, 0xe1f20c33)
    else if t < 32 then Pick(t - 24, 0x9dc68b63, 0xc2606d6d, 0xa7a3623f, 0xc5d53d8d, 0x1c2c2838, 0xcde8037d, 0xb62ec4bc, 0x77d37528)
    else if t < 40 then Pick(t - 32, 0x363482c9, 0xa0060b30, 0xea992a22, 0x73b33bf5, 0x98e12507, 0xfe604df5, 0xa9a7738c, 0x65a0cfe4)
    else if t < 48 then Pick(t - 40, 0x41a65cb1, 0x34df1604, 0x6dc57a8a, 0x79ea687a, 0xd6670766, 0xdf46652f, 0x17aa0dfe, 0x9d4baf93)
    else if t < 56 then Pick(t - 48, 0x26628815, 0x72ab4b91, 0xa14c14b0, 0x4172328d, 0x05757ceb, 0xf11bfaa8, 0x7a0508a1, 0x886e7a22)
    else if t < 64 then Pick(t - 56, 0x101fd28f, 0xf5702fdb, 0x3ec45cdb, 0x38cc9913, 0xfcd1887b, 0xc062d46f, 0xffb70472, 0xb6ae8fff)
    else Pick(t - 64, 0xb85e2ce9, 0x04d24d6c, 0xd39a2165, 0x506e3058, 0x00000000, 0x00000000, 0x00000000, 0x00000000)
  }

  /** Register e before round t - 3. */
  function E(t: nat): (w: bv32)
    requires t < 68
  {
    if t < 8 then Pick(t, 0x5be0cd19, 0x1f83d9ab, 0x9b05688c, 0x510e527f, 0xfa2a4622, 0x78ce7989, 0xf92939eb, 0x24e00850)
    else if t < 16 then Pick(t - 8, 0x43ada245, 0x714260ad, 0x9b27a401, 0x0c657a79, 0x32ca2d8c, 0x1cc92596, 0x436b23e8, 0x816fd6e9)
    else if t < 24 then Pick(t - 16, 0x1e578218, 0x745a48de, 0x0b92f20c, 0x07590dcd, 0x8034229c, 0x846ee454, 0xcc899961, 0xb0638179)
    else if t < 32 then Pick(t - 24, 0x8ada8930, 0xe1257970, 0x49f5114a, 0xaa47c347, 0x2823ef91, 0x14383d8e, 0xc74c6516, 0xedffbff8)
    else if t < 40 then Pick(t - 32, 0x6112a3b7, 0xade79437, 0x0109ab3a, 0xba591112, 0x9cd9f5f6, 0x59249dd3, 0x085f3833, 0xf4b002d6)
    else if t < 48 then Pick(t - 40, 0x0772a26b, 0xa507a53d, 0xf0781bc8, 0x1efbc0a0, 0x26352d63, 0x838b2711, 0xdecd4715, 0xfda24c2e)
    else if t < 56 then Pick(t - 48, 0xa80f11f0, 0xb7755da1, 0xd57b94a9, 0xfecf0bc6, 0xbd714038, 0x6e5c390c, 0x52f1ccf7, 0x49231c1e)
    else if t < 64 then Pick(t - 56, 0x529e7d00, 0x9f4787c3, 0xe50e1b4f, 0x54cb266b, 0x9b5e906c, 0x7e44008e, 0x6d83bfc6, 0xb21bad3d)
    else Pick(t - 64, 0x961f4894, 0x948d25b6, 0xfb121210, 0x5ef50f24, 0x00000000, 0x00000000, 0x00000000, 0x00000000)
  }

  function State(t: nat): (r: Registers)
    requires t <= 64
  {
    Registers(A(t + 3), A(t + 2), A(t + 1), A(t), E(t + 3), E(t + 2), E(t + 1), E(t))
  }

  /** Told apart so that a proof goes by cases. */
  predicate Below8(k: int) {
    k == 0 || k == 1 || k == 2 || k == 3 || k == 4 || k == 5 || k == 6 || k == 7
  }

  // ----- one step of the tables

  predicate Extends(t: nat)
    requires 16 <= t < 64
  {
    Word(t) == Add(Add(Add(Sig1(Word(t - 2)), Word(t - 7)), Sig0(Word(t - 15))), Word(t - 16))
  }

  predicate Advances(t: nat)
    requires t < 64
  {
    var t1 := Add(Add(Add(Add(E(t), Ep1(E(t + 3))), Ch(E(t + 3), E(t + 2), E(t + 1))), RoundConstant(t)), Word(t));
    && A(t + 4) == Add(t1, Add(Ep0(A(t + 3)), Maj(A(t + 3), A(t + 2), A(t + 1))))
    && E(t + 4) == Add(A(t), t1)
  }

  // ----- the example

  /** The padded message. */
  function Block(): (b: Bytes)
    ensures |b| == 64
  {
    ABC + [0x80] + Zeros(52) + Bytes64(24)
  }

  lemma AbcPadded()
    ensures Pad(ABC) == Block()
  {
    hide Bytes64;
    assert ZeroCount(3) == 52 && BitLength(3) == 24;
  }

  lemma Digit(n: nat, k: nat, v: nat)
    requires n / Power256(k) == v && v < 0x100
    ensures ByteOf(n, k) == v as bv8
  {
    hide Power256;
    assert v % 0x100 == v;
  }

  lemma LengthByte(k: nat)
    ensures ByteOf(24, k) == if k == 0 then 24 else 0
  {
    hide ByteOf;
    if k == 0 {
      Digit(24, k, 24);
    } else {
      assert Power256(k) >= 0x100;
      hide Power256;
      QuotientIs(24, Power256(k), 0, 24);
      Digit(24, k, 0);
    }
  }

  lemma LengthBytes()
    ensures Bytes64(24) == [0, 0, 0, 0, 0, 0, 0, 24]
  {
    hide Bytes64, ByteOf;
    forall k | 0 <= k < 8
      ensures Bytes64(24)[k] == if k == 7 then 24 else 0
    {
      Bytes64At(24, k);
      LengthByte(7 - k);
    }
  }

  lemma FirstWord(t: nat)
    requires t < 16
    ensures W(Block(), t) == Word(t)
  {
    LengthBytes();
    hide Bytes64;
    WFirst(Block(), t);
    if t == 0 {
      assert BigEndian(0x61, 0x62, 0x63, 0x80) == Word(0);
    } else if t == 15 {
      assert BigEndian(0, 0, 0, 24) == Word(15);
    } else {
      assert BigEndian(0, 0, 0, 0) == Word(t);
    }
  }

  ghost predicate Known(n: nat)
    requires n <= 64
  {
    forall t :: 0 <= t < n ==> W(Block(), t) == Word(t)
  }

  lemma FirstWords()
    ensures Known(16)
  {
    hide Word, Block;
    forall t | 0 <= t < 16
      ensures W(Block(), t) == Word(t)
    {
      FirstWord(t);
    }
  }

  lemma NextWord(t: nat)
    requires 16 <= t < 64 && Known(t) && Extends(t)
    ensures Known(t + 1)
  {
    hide W, Word, Block, Add, Sig0, Sig1, SmallSigma0, SmallSigma1;
    WLater(Block(), t);
    Macros(Word(t - 2));
    Macros(Word(t - 15));
  }

  lemma KnownTo24()
    ensures Known(24)
  {
    hide Known;
    FirstWords();
    NextWord(16); NextWord(17); NextWord(18); NextWord(19);
    NextWord(20); NextWord(21); NextWord(22); NextWord(23);
  }

  lemma KnownTo32()
    ensures Known(32)
  {
    hide Known;
    KnownTo24();
    NextWord(24); NextWord(25); NextWord(26); NextWord(27);
    NextWord(28); NextWord(29); NextWord(30); NextWord(31);
  }

  lemma KnownTo40()
    ensures Known(40)
  {
    hide Known;
    KnownTo32();
    NextWord(32); NextWord(33); NextWord(34); NextWord(35);
    NextWord(36); NextWord(37); NextWord(38); NextWord(39);
  }

  lemma KnownTo48()
    ensures Known(48)
  {
    hide Known;
    KnownTo40();
    NextWord(40); NextWord(41); NextWord(42); NextWord(43);
    NextWord(44); NextWord(45); NextWord(46); NextWord(47);
  }

  lemma KnownTo56()
    ensures Known(56)
  {
    hide Known;
    KnownTo48();
    NextWord(48); NextWord(49); NextWord(50); NextWord(51);
    NextWord(52); NextWord(53); NextWord(54); NextWord(55);
  }

  lemma KnownTo64()
    ensures Known(64)
  {
    hide Known;
    KnownTo56();
    NextWord(56); NextWord(57); NextWord(58); NextWord(59);
    NextWord(60); NextWord(61); NextWord(62); NextWord(63);
  }

  ghost predicate Reached(t: nat)
    requires t <= 64
  {
    Rounds(IV, Block(), t) == State(t)
  }

  lemma Start()
    ensures Reached(0)
  {
  }

  lemma RoundState(t: nat)
    requires t < 64 && Advances(t)
    ensures Round(State(t), RoundConstant(t), Word(t)) == State(t + 1)
  {
    hide A, E, Word, RoundConstant, Add, Ep0, Ep1, BigSigma0, BigSigma1, Ch, Maj;
    Macros(A(t + 3));
    Macros(E(t + 3));
  }

  lemma NextRound(t: nat)
    requires t < 64 && Known(64) && Reached(t) && Advances(t)
    ensures Reached(t + 1)
  {
    hide State, Block, Round, W, Word, RoundConstant, Advances;
    RoundState(t);
  }

  lemma ReachedTo8()
    ensures Reached(8)
  {
    hide Reached, Known;
    KnownTo64();
    Start();
    NextRound(0); NextRound(1); NextRound(2); NextRound(3);
    NextRound(4); NextRound(5); NextRound(6); NextRound(7);
  }

  lemma ReachedTo16()
    ensures Reached(16)
  {
    hide Reached, Known;
    KnownTo64();
    ReachedTo8();
    NextRound(8); NextRound(9); NextRound(10); NextRound(11);
    NextRound(12); NextRound(13); NextRound(14); NextRound(15);
  }

  lemma ReachedTo24()
    ensures Reached(24)
  {
    hide Reached, Known;
    KnownTo64();
    ReachedTo16();
    NextRound(16); NextRound(17); NextRound(18); NextRound(19);
    NextRound(20); NextRound(21); NextRound(22); NextRound(23);
  }

  lemma ReachedTo32()
    ensures Reached(32)
  {
    hide Reached, Known;
    KnownTo64();
    ReachedTo24();
    NextRound(24); NextRound(25); NextRound(26); NextRound(27);
    NextRound(28); NextRound(29); NextRound(30); NextRound(31);
  }

  lemma ReachedTo40()
    ensures Reached(40)
  {
    hide Reached, Known;
    KnownTo64();
    ReachedTo32();
    NextRound(32); NextRound(33); NextRound(34); NextRound(35);
    NextRound(36); NextRound(37); NextRound(38); NextRound(39);
  }

  lemma ReachedTo48()
    ensures Reached(48)
  {
    hide Reached, Known;
    KnownTo64();
    ReachedTo40();
    NextRound(40); NextRound(41); NextRound(42); NextRound(43);
    NextRound(44); NextRound(45); NextRound(46); NextRound(47);
  }

  lemma ReachedTo56()
    ensures Reached(56)
  {
    hide Reached, Known;
    KnownTo64();
    ReachedTo48();
    NextRound(48); NextRound(49); NextRound(50); NextRound(51);
    NextRound(52); NextRound(53); NextRound(54); NextRound(55);
  }

  lemma ReachedTo64()
    ensures Reached(64)
  {
    hide Reached, Known;
    KnownTo64();
    ReachedTo56();
    NextRound(56); NextRound(57); NextRound(58); NextRound(59);
    NextRound(60); NextRound(61); NextRound(62); NextRound(63);
  }

  const HASH: Registers := Registers(
    0xba7816bf, 0x8f01cfea, 0x414140de, 0x5dae2223, 0xb00361a3, 0x96177a9c, 0xb410ff61, 0xf20015ad)

  lemma LastState()
    ensures AddRegisters(IV, State(64)) == HASH
  {
  }

  lemma OneBlock(block: Bytes)
    requires |block| == 64
    ensures HashBlocks(block) == Compress(IV, block)
  {
    hide Compress;
    assert block[0..] == block;
  }

  lemma AbcHash()
    ensures HashBlocks(Pad(ABC)) == HASH
  {
    hide State, Block, Rounds, AddRegisters, Pad, HashBlocks;
    AbcPadded();
    ReachedTo64();
    LastState();
    OneBlock(Block());
  }

  const DIGEST: Bytes := [
    0xba, 0x78, 0x16, 0xbf, 0x8f, 0x01, 0xcf, 0xea, 0x41, 0x41, 0x40, 0xde, 0x5d, 0xae, 0x22, 0x23,
    0xb0, 0x03, 0x61, 0xa3, 0x96, 0x17, 0x7a, 0x9c, 0xb4, 0x10, 0xff, 0x61, 0xf2, 0x00, 0x15, 0xad]

  lemma AbcDigest()
    ensures Digest(ABC) == DIGEST
  {
    AbcHash();
    hide HashBlocks, Pad;
    forall i | 0 <= i < 32
      ensures DigestBytes(HASH)[i] == DIGEST[i]
    {
      assert Below8(i / 4);
      assert i % 4 == 0 || i % 4 == 1 || i % 4 == 2 || i % 4 == 3;
    }
  }

  /** The streaming implementation gives the same bytes, here for the message in two pieces. */
  method HashAbc() returns (digest: Bytes)
    ensures digest == DIGEST
  {
    hide Digest;
    AbcDigest();
    var chunks: seq<Bytes> := [[0x61], [0x62, 0x63]];
    assert chunks[..1] == [[0x61]] && Concat(chunks[..1]) == [0x61];
    assert Concat(chunks) == ABC;
    digest := HashChunks(chunks);
  }
}
