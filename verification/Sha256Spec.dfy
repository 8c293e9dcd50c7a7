/** SHA-256 as FIPS 180-4 defines it, on messages of whole bytes. */
module Sha256Spec {

  type Bytes = seq<bv8>

  // ----- section 4.1.2

  /** One place to the right, around the end. */
  function Turn(x: bv32): (r: bv32) {
    (x >> 1) | (x << 31)
  }

  function RotR(x: bv32, n: nat): (r: bv32) {
    if n == 0 then x else Turn(RotR(x, n - 1))
  }

  function Ch(x: bv32, y: bv32, z: bv32): (r: bv32) {
    (x & y) ^ (!x & z)
  }

  function Maj(x: bv32, y: bv32, z: bv32): (r: bv32) {
    (x & y) ^ (x & z) ^ (y & z)
  }

  function Xor(x: bv32, y: bv32, z: bv32): (r: bv32) {
    x ^ y ^ z
  }

  function BigSigma0(x: bv32): (r: bv32) {
    Xor(RotR(x, 2), RotR(x, 13), RotR(x, 22))
  }

  function BigSigma1(x: bv32): (r: bv32) {
    Xor(RotR(x, 6), RotR(x, 11), RotR(x, 25))
  }

  function SmallSigma0(x: bv32): (r: bv32) {
    Xor(RotR(x, 7), RotR(x, 18), x >> 3)
  }

  function SmallSigma1(x: bv32): (r: bv32) {
    Xor(RotR(x, 17), RotR(x, 19), x >> 10)
  }

  /** Addition modulo 2^32. */
  function Add(x: bv32, y: bv32): (r: bv32) {
    x + y
  }

  // ----- section 4.2.2

  /** Entry `k` of a line of a table. */
  function Pick(k: int, w0: bv32, w1: bv32, w2: bv32, w3: bv32, w4: bv32, w5: bv32, w6: bv32, w7: bv32): (w: bv32) {
    if k == 0 then w0 else if k == 1 then w1 else if k == 2 then w2 else if k == 3 then w3
    else if k == 4 then w4 else if k == 5 then w5 else if k == 6 then w6 else w7
  }

  function RoundConstant(t: nat): (k: bv32)
    requires t < 64
  {
    if t < 8 then Pick(t, 0x428a2f98, 0x71374491, 0xb5c0fbcf, 0xe9b5dba5, 0x3956c25b, 0x59f111f1, 0x923f82a4, 0xab1c5ed5)
    else if t < 16 then Pick(t - 8, 0xd807aa98, 0x12835b01, 0x243185be, 0x550c7dc3, 0x72be5d74, 0x80deb1fe, 0x9bdc06a7, 0xc19bf174)
    else if t < 24 then Pick(t - 16, 0xe49b69c1, 0xefbe4786, 0x0fc19dc6, 0x240ca1cc, 0x2de92c6f, 0x4a7484aa, 0x5cb0a9dc, 0x76f988da)
    else if t < 32 then Pick(t - 24, 0x983e5152, 0xa831c66d, 0xb00327c8, 0xbf597fc7, 0xc6e00bf3, 0xd5a79147, 0x06ca6351, 0x14292967)
    else if t < 40 then Pick(t - 32, 0x27b70a85, 0x2e1b2138, 0x4d2c6dfc, 0x53380d13, 0x650a7354, 0x766a0abb, 0x81c2c92e, 0x92722c85)
    else if t < 48 then Pick(t - 40, 0xa2bfe8a1, 0xa81a664b, 0xc24b8b70, 0xc76c51a3, 0xd192e819, 0xd6990624, 0xf40e3585, 0x106aa070)
    else if t < 56 then Pick(t - 48, 0x19a4c116, 0x1e376c08, 0x2748774c, 0x34b0bcb5, 0x391c0cb3, 0x4ed8aa4a, 0x5b9cca4f, 0x682e6ff3)
    else Pick(t - 56, 0x748f82ee, 0x78a5636f, 0x84c87814, 0x8cc70208, 0x90befffa, 0xa4506ceb, 0xbef9a3f7, 0xc67178f2)
  }

  // ----- section 5.1.1

  /** The zero bytes of the padding: the least count that leaves room for the length in the last block. */
  function ZeroCount(length: nat): (k: nat)
    ensures k < 64 && (length + 1 + k) % 64 == 56
  {
    (55 - length) % 64
  }

  lemma ZeroCountLeast(length: nat, k: nat)
    requires (length + 1 + k) % 64 == 56
    ensures ZeroCount(length) <= k
  {
  }

  /** A number as eight bytes, most significant first. */
  function Bytes64(n: nat): (r: Bytes)
    ensures |r| == 8
  {
    FourBytes(n, 4) + FourBytes(n, 0)
  }

  /** Four bytes of a number, of which the last is byte `k`. */
  function FourBytes(n: nat, k: nat): (r: Bytes)
    ensures |r| == 4
  {
    [ByteOf(n, k + 3), ByteOf(n, k + 2), ByteOf(n, k + 1), ByteOf(n, k)]
  }

  /** Byte `k` of a number, counted from the least significant. */
  function ByteOf(n: nat, k: nat): (r: bv8) {
    (n / Power256(k) % 0x100) as bv8
  }

  function Power256(e: nat): (r: nat)
    ensures 0 < r
  {
    if e == 0 then 1 else 0x100 * Power256(e - 1)
  }

  const LENGTH_MODULUS: nat := 0x1_0000_0000_0000_0000

  /** A count of bits, modulo 2^64. */
  function AddBits(bits: nat, more: nat): (r: nat) {
    (bits + more) % LENGTH_MODULUS
  }

  /** The length of a message in bits. The standard stops at 2^64; beyond that the length is taken modulo 2^64. */
  function BitLength(bytes: nat): (r: nat) {
    AddBits(0, 8 * bytes)
  }

  /** Exact below 2^64 bits, which is as far as the standard goes. */
  lemma BitLengthExact(bytes: nat)
    ensures 8 * bytes < 0x1_0000_0000_0000_0000 ==> BitLength(bytes) == 8 * bytes
    ensures exists q: nat :: 8 * bytes == q * 0x1_0000_0000_0000_0000 + BitLength(bytes)
  {
    assert 8 * bytes == (8 * bytes / LENGTH_MODULUS) * 0x1_0000_0000_0000_0000 + BitLength(bytes);
  }

  /** The padded message. */
  function Pad(msg: Bytes): (r: Bytes) {
    msg + [0x80] + Zeros(ZeroCount(|msg|)) + Bytes64(BitLength(|msg|))
  }

  lemma PadWhole(msg: Bytes)
    ensures |Pad(msg)| % 64 == 0
  {
    hide BitLength, ZeroCount;
  }

  function Zeros(n: nat): (r: Bytes)
    ensures |r| == n
  {
    seq(n, _ => 0)
  }

  // ----- sections 5.2.1 and 6.2.2

  /** Four bytes as a word, most significant first. */
  function BigEndian(b0: bv8, b1: bv8, b2: bv8, b3: bv8): (r: bv32) {
    (b0 as bv32 << 24) | (b1 as bv32 << 16) | (b2 as bv32 << 8) | b3 as bv32
  }

  /** The message schedule. */
  function W(block: Bytes, t: nat): (r: bv32)
    requires |block| == 64
  {
    if t < 16 then BigEndian(block[4 * t], block[4 * t + 1], block[4 * t + 2], block[4 * t + 3])
    else ScheduleWord(W(block, t - 2), W(block, t - 7), W(block, t - 15), W(block, t - 16))
  }

  function ScheduleWord(w2: bv32, w7: bv32, w15: bv32, w16: bv32): (r: bv32) {
    Add(Add(Add(SmallSigma1(w2), w7), SmallSigma0(w15)), w16)
  }

  lemma WFirst(block: Bytes, t: nat)
    requires |block| == 64 && t < 16
    ensures W(block, t) == BigEndian(block[4 * t], block[4 * t + 1], block[4 * t + 2], block[4 * t + 3])
  {
  }

  lemma WLater(block: Bytes, t: nat)
    requires |block| == 64 && 16 <= t
    ensures W(block, t) == ScheduleWord(W(block, t - 2), W(block, t - 7), W(block, t - 15), W(block, t - 16))
  {
  }

  datatype Registers = Registers(a: bv32, b: bv32, c: bv32, d: bv32, e: bv32, f: bv32, g: bv32, h: bv32)

  function Round(r: Registers, k: bv32, w: bv32): (r': Registers) {
    var t1 := Add(Add(Add(Add(r.h, BigSigma1(r.e)), Ch(r.e, r.f, r.g)), k), w);
    var t2 := Add(BigSigma0(r.a), Maj(r.a, r.b, r.c));
    Registers(Add(t1, t2), r.a, r.b, r.c, Add(r.d, t1), r.e, r.f, r.g)
  }

  /** The registers after `t` rounds. */
  function Rounds(start: Registers, block: Bytes, t: nat): (r: Registers)
    requires |block| == 64 && t <= 64
  {
    if t == 0 then start else Round(Rounds(start, block, t - 1), RoundConstant(t - 1), W(block, t - 1))
  }

  function AddRegisters(x: Registers, y: Registers): (r: Registers) {
    Registers(Add(x.a, y.a), Add(x.b, y.b), Add(x.c, y.c), Add(x.d, y.d),
              Add(x.e, y.e), Add(x.f, y.f), Add(x.g, y.g), Add(x.h, y.h))
  }

  function Compress(hash: Registers, block: Bytes): (r: Registers)
    requires |block| == 64
  {
    AddRegisters(hash, Rounds(hash, block, 64))
  }

  /** The initial hash value of section 5.3.3. */
  const IV: Registers := Registers(
    0x6a09e667, 0xbb67ae85, 0x3c6ef372, 0xa54ff53a, 0x510e527f, 0x9b05688c, 0x1f83d9ab, 0x5be0cd19)

  /** The hash value after all blocks of a message, which is a whole number of blocks in every use. */
  function HashBlocks(blocks: Bytes): (r: Registers) {
    if |blocks| < 64 then IV
    else Compress(HashBlocks(blocks[..|blocks| - 64]), blocks[|blocks| - 64..])
  }

  /** Byte `i` of a word, most significant first. */
  function WordByte(w: bv32, i: nat): (r: bv8)
    requires i < 4
  {
    if i == 0 then (w >> 24) as bv8
    else if i == 1 then ((w >> 16) & 0xff) as bv8
    else if i == 2 then ((w >> 8) & 0xff) as bv8
    else (w & 0xff) as bv8
  }

  function Register(r: Registers, j: nat): (w: bv32)
    requires j < 8
  {
    if j == 0 then r.a else if j == 1 then r.b else if j == 2 then r.c else if j == 3 then r.d
    else if j == 4 then r.e else if j == 5 then r.f else if j == 6 then r.g else r.h
  }

  function DigestBytes(hash: Registers): (r: Bytes)
    ensures |r| == 32
  {
    seq(32, i requires 0 <= i < 32 => WordByte(Register(hash, i / 4), i % 4))
  }

  function Digest(msg: Bytes): (r: Bytes) {
    DigestBytes(HashBlocks(Pad(msg)))
  }

  lemma HashAppend(blocks: Bytes, block: Bytes)
    requires |block| == 64
    ensures HashBlocks(blocks + block) == Compress(HashBlocks(blocks), block)
  {
  }

  /** When the tail leaves room for the length, padding completes one block. */
  lemma PadOneBlock(head: Bytes, tail: Bytes)
    requires |head| % 64 == 0 && |tail| < 56
    ensures Pad(head + tail) == head + (tail + [0x80] + Zeros(55 - |tail|) + Bytes64(BitLength(|head| + |tail|)))
  {
    hide BitLength, Bytes64;
    assert ZeroCount(|head + tail|) == 55 - |tail|;
  }

  /** Otherwise it completes one block and adds another. */
  lemma PadTwoBlocks(head: Bytes, tail: Bytes)
    requires |head| % 64 == 0 && 56 <= |tail| < 64
    ensures Pad(head + tail) == head + (tail + [0x80] + Zeros(63 - |tail|))
                                     + (Zeros(56) + Bytes64(BitLength(|head| + |tail|)))
  {
    hide BitLength, Bytes64;
    assert ZeroCount(|head + tail|) == 119 - |tail|;
    assert Zeros(119 - |tail|) == Zeros(63 - |tail|) + Zeros(56);
  }

  /** The running bit count, kept modulo 2^64, is that of the message. */
  lemma BitCount(bytes: nat, more: nat)
    ensures AddBits(BitLength(bytes), 8 * more) == BitLength(bytes + more)
  {
  }
}
