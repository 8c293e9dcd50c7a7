/** What the functions of section 4.1.2 do to the bits of a word, and the shift forms that sha256.c has for them. */
module Sha256Words {
  import opened Sha256Spec

  // ----- bits

  /** The words have a bit in common. */
  predicate Meets(x: bv32, mask: bv32) {
    x & mask != 0
  }

  /** One place to the left, around the end. */
  function Back(x: bv32): (r: bv32) {
    (x << 1) | (x >> 31)
  }

  /** The lowest bit, moved up `i` places. */
  function Mask(i: nat): (m: bv32) {
    if i == 0 then 1 else Back(Mask(i - 1))
  }

  predicate OneBit(m: bv32) {
    m & (m - 1) == 0
  }

  lemma {:induction false} MaskOneBit(i: nat)
    ensures OneBit(Mask(i))
  {
    hide OneBit, Back;
    if i == 0 {
      OneIsOneBit();
    } else {
      MaskOneBit(i - 1);
      BackOneBit(Mask(i - 1));
    }
  }

  lemma OneIsOneBit()
    ensures OneBit(1)
  {
  }

  lemma BackOneBit(m: bv32)
    requires OneBit(m)
    ensures OneBit(Back(m))
  {
  }

  lemma MaskAround()
    ensures Mask(32) == Mask(0)
  {
    assert Mask(8) == 0x100 && Mask(16) == 0x1_0000 && Mask(24) == 0x100_0000;
  }

  /** Bit `i` of a word, counted from the least significant. */
  predicate Bit(x: bv32, i: nat)
    requires i < 32
  {
    Meets(x, Mask(i))
  }

  lemma TurnMask(x: bv32, m: bv32)
    ensures Meets(Turn(x), m) == Meets(x, Back(m))
  {
  }

  lemma TurnBit(x: bv32, i: nat)
    requires i < 32
    ensures Bit(Turn(x), i) == Bit(x, (i + 1) % 32)
  {
    hide Turn, Meets, Back;
    TurnMask(x, Mask(i));
    MaskAround();
  }

  /** A rotation by `n` places moves every bit down by `n`, the lowest ones to the top. */
  lemma {:induction false} RotBit(x: bv32, n: nat, i: nat)
    requires i < 32
    ensures Bit(RotR(x, n), i) == Bit(x, (i + n) % 32)
  {
    hide Bit, Turn;
    if n > 0 {
      TurnBit(RotR(x, n - 1), i);
      RotBit(x, n - 1, (i + 1) % 32);
    }
  }

  predicate Odd(a: bool, b: bool, c: bool) {
    (a != b) != c
  }

  lemma XorMask(x: bv32, y: bv32, m: bv32)
    requires OneBit(m)
    ensures Meets(x ^ y, m) == (Meets(x, m) != Meets(y, m))
  {
  }

  lemma XorBit(x: bv32, y: bv32, z: bv32, i: nat)
    requires i < 32
    ensures Bit(Xor(x, y, z), i) == Odd(Bit(x, i), Bit(y, i), Bit(z, i))
  {
    hide Mask, Meets, OneBit;
    MaskOneBit(i);
    XorMask(x, y, Mask(i));
    XorMask(x ^ y, z, Mask(i));
  }

  /** Bit `i` of each sigma is the parity of three bits. */
  lemma SigmaBits(x: bv32, i: nat)
    requires i < 32
    ensures Bit(BigSigma0(x), i) == Odd(Bit(x, (i + 2) % 32), Bit(x, (i + 13) % 32), Bit(x, (i + 22) % 32))
    ensures Bit(BigSigma1(x), i) == Odd(Bit(x, (i + 6) % 32), Bit(x, (i + 11) % 32), Bit(x, (i + 25) % 32))
    ensures Bit(SmallSigma0(x), i) == Odd(Bit(x, (i + 7) % 32), Bit(x, (i + 18) % 32), Bit(x >> 3, i))
    ensures Bit(SmallSigma1(x), i) == Odd(Bit(x, (i + 17) % 32), Bit(x, (i + 19) % 32), Bit(x >> 10, i))
  {
    hide Bit, RotR, Xor;
    RotBit(x, 2, i); RotBit(x, 13, i); RotBit(x, 22, i);
    RotBit(x, 6, i); RotBit(x, 11, i); RotBit(x, 25, i);
    RotBit(x, 7, i); RotBit(x, 18, i); RotBit(x, 17, i); RotBit(x, 19, i);
    XorBit(RotR(x, 2), RotR(x, 13), RotR(x, 22), i);
    XorBit(RotR(x, 6), RotR(x, 11), RotR(x, 25), i);
    XorBit(RotR(x, 7), RotR(x, 18), x >> 3, i);
    XorBit(RotR(x, 17), RotR(x, 19), x >> 10, i);
  }

  /** Where x has ones the result is that of y, elsewhere that of z. */
  lemma ChSelects(x: bv32, y: bv32, z: bv32)
    ensures x & Ch(x, y, z) == x & y
    ensures !x & Ch(x, y, z) == !x & z
  {
  }

  /** A bit that two arguments share is that of the result; the other pairs follow by MajSymmetric. */
  lemma MajVotes(x: bv32, y: bv32, z: bv32)
    ensures x & y & Maj(x, y, z) == x & y
    ensures !x & !y & Maj(x, y, z) == 0
  {
  }

  lemma MajSymmetric(x: bv32, y: bv32, z: bv32)
    ensures Maj(x, y, z) == Maj(x, z, y) && Maj(x, y, z) == Maj(z, y, x)
  {
  }

  // ----- the macros of sha256.c

  function RotRight(a: bv32, b: bv32): (r: bv32)
    requires b <= 32
  {
    (a >> b) | (a << (32 - b))
  }

  lemma TurnRight5(x: bv32)
    ensures Turn(RotRight(x, 0)) == RotRight(x, 1)
    ensures Turn(RotRight(x, 1)) == RotRight(x, 2)
    ensures Turn(RotRight(x, 2)) == RotRight(x, 3)
    ensures Turn(RotRight(x, 3)) == RotRight(x, 4)
    ensures Turn(RotRight(x, 4)) == RotRight(x, 5)
  {
    assert RotRight(x, 0) == (x >> 0) | (x << 32);
    assert RotRight(x, 1) == (x >> 1) | (x << 31);
    assert RotRight(x, 2) == (x >> 2) | (x << 30);
    assert RotRight(x, 3) == (x >> 3) | (x << 29);
    assert RotRight(x, 4) == (x >> 4) | (x << 28);
    assert RotRight(x, 5) == (x >> 5) | (x << 27);
  }

  lemma TurnRight10(x: bv32)
    ensures Turn(RotRight(x, 5)) == RotRight(x, 6)
    ensures Turn(RotRight(x, 6)) == RotRight(x, 7)
    ensures Turn(RotRight(x, 7)) == RotRight(x, 8)
    ensures Turn(RotRight(x, 8)) == RotRight(x, 9)
    ensures Turn(RotRight(x, 9)) == RotRight(x, 10)
  {
    assert RotRight(x, 5) == (x >> 5) | (x << 27);
    assert RotRight(x, 6) == (x >> 6) | (x << 26);
    assert RotRight(x, 7) == (x >> 7) | (x << 25);
    assert RotRight(x, 8) == (x >> 8) | (x << 24);
    assert RotRight(x, 9) == (x >> 9) | (x << 23);
    assert RotRight(x, 10) == (x >> 10) | (x << 22);
  }

  lemma TurnRight15(x: bv32)
    ensures Turn(RotRight(x, 10)) == RotRight(x, 11)
    ensures Turn(RotRight(x, 11)) == RotRight(x, 12)
    ensures Turn(RotRight(x, 12)) == RotRight(x, 13)
    ensures Turn(RotRight(x, 13)) == RotRight(x, 14)
    ensures Turn(RotRight(x, 14)) == RotRight(x, 15)
  {
    assert RotRight(x, 10) == (x >> 10) | (x << 22);
    assert RotRight(x, 11) == (x >> 11) | (x << 21);
    assert RotRight(x, 12) == (x >> 12) | (x << 20);
    assert RotRight(x, 13) == (x >> 13) | (x << 19);
    assert RotRight(x, 14) == (x >> 14) | (x << 18);
    assert RotRight(x, 15) == (x >> 15) | (x << 17);
  }

  lemma TurnRight20(x: bv32)
    ensures Turn(RotRight(x, 15)) == RotRight(x, 16)
    ensures Turn(RotRight(x, 16)) == RotRight(x, 17)
    ensures Turn(RotRight(x, 17)) == RotRight(x, 18)
    ensures Turn(RotRight(x, 18)) == RotRight(x, 19)
    ensures Turn(RotRight(x, 19)) == RotRight(x, 20)
  {
    assert RotRight(x, 15) == (x >> 15) | (x << 17);
    assert RotRight(x, 16) == (x >> 16) | (x << 16);
    assert RotRight(x, 17) == (x >> 17) | (x << 15);
    assert RotRight(x, 18) == (x >> 18) | (x << 14);
    assert RotRight(x, 19) == (x >> 19) | (x << 13);
    assert RotRight(x, 20) == (x >> 20) | (x << 12);
  }

  lemma TurnRight25(x: bv32)
    ensures Turn(RotRight(x, 20)) == RotRight(x, 21)
    ensures Turn(RotRight(x, 21)) == RotRight(x, 22)
    ensures Turn(RotRight(x, 22)) == RotRight(x, 23)
    ensures Turn(RotRight(x, 23)) == RotRight(x, 24)
    ensures Turn(RotRight(x, 24)) == RotRight(x, 25)
  {
    assert RotRight(x, 20) == (x >> 20) | (x << 12);
    assert RotRight(x, 21) == (x >> 21) | (x << 11);
    assert RotRight(x, 22) == (x >> 22) | (x << 10);
    assert RotRight(x, 23) == (x >> 23) | (x << 9);
    assert RotRight(x, 24) == (x >> 24) | (x << 8);
    assert RotRight(x, 25) == (x >> 25) | (x << 7);
  }

  lemma RotRightNone(x: bv32)
    ensures RotR(x, 0) == RotRight(x, 0)
  {
  }

  lemma RotRightNext(x: bv32, n: nat, b: bv32, c: bv32)
    requires RotR(x, n) == b && Turn(b) == c
    ensures RotR(x, n + 1) == c
  {
  }

  /** The rotations that the macros use. */
  lemma RotRights(x: bv32)
    ensures RotR(x, 2) == RotRight(x, 2) && RotR(x, 6) == RotRight(x, 6) && RotR(x, 7) == RotRight(x, 7)
    ensures RotR(x, 11) == RotRight(x, 11) && RotR(x, 13) == RotRight(x, 13) && RotR(x, 17) == RotRight(x, 17)
    ensures RotR(x, 18) == RotRight(x, 18) && RotR(x, 19) == RotRight(x, 19) && RotR(x, 22) == RotRight(x, 22)
    ensures RotR(x, 25) == RotRight(x, 25)
  {
    hide RotR, Turn, RotRight;
    RotRightNone(x);
    TurnRight5(x); TurnRight10(x); TurnRight15(x); TurnRight20(x); TurnRight25(x);
    RotRightNext(x, 0, RotRight(x, 0), RotRight(x, 1));
    RotRightNext(x, 1, RotRight(x, 1), RotRight(x, 2));
    RotRightNext(x, 2, RotRight(x, 2), RotRight(x, 3));
    RotRightNext(x, 3, RotRight(x, 3), RotRight(x, 4));
    RotRightNext(x, 4, RotRight(x, 4), RotRight(x, 5));
    RotRightNext(x, 5, RotRight(x, 5), RotRight(x, 6));
    RotRightNext(x, 6, RotRight(x, 6), RotRight(x, 7));
    RotRightNext(x, 7, RotRight(x, 7), RotRight(x, 8));
    RotRightNext(x, 8, RotRight(x, 8), RotRight(x, 9));
    RotRightNext(x, 9, RotRight(x, 9), RotRight(x, 10));
    RotRightNext(x, 10, RotRight(x, 10), RotRight(x, 11));
    RotRightNext(x, 11, RotRight(x, 11), RotRight(x, 12));
    RotRightNext(x, 12, RotRight(x, 12), RotRight(x, 13));
    RotRightNext(x, 13, RotRight(x, 13), RotRight(x, 14));
    RotRightNext(x, 14, RotRight(x, 14), RotRight(x, 15));
    RotRightNext(x, 15, RotRight(x, 15), RotRight(x, 16));
    RotRightNext(x, 16, RotRight(x, 16), RotRight(x, 17));
    RotRightNext(x, 17, RotRight(x, 17), RotRight(x, 18));
    RotRightNext(x, 18, RotRight(x, 18), RotRight(x, 19));
    RotRightNext(x, 19, RotRight(x, 19), RotRight(x, 20));
    RotRightNext(x, 20, RotRight(x, 20), RotRight(x, 21));
    RotRightNext(x, 21, RotRight(x, 21), RotRight(x, 22));
    RotRightNext(x, 22, RotRight(x, 22), RotRight(x, 23));
    RotRightNext(x, 23, RotRight(x, 23), RotRight(x, 24));
    RotRightNext(x, 24, RotRight(x, 24), RotRight(x, 25));
  }

  function Ep0(x: bv32): (r: bv32) {
    Xor(RotRight(x, 2), RotRight(x, 13), RotRight(x, 22))
  }

  function Ep1(x: bv32): (r: bv32) {
    Xor(RotRight(x, 6), RotRight(x, 11), RotRight(x, 25))
  }

  function Sig0(x: bv32): (r: bv32) {
    Xor(RotRight(x, 7), RotRight(x, 18), x >> 3)
  }

  function Sig1(x: bv32): (r: bv32) {
    Xor(RotRight(x, 17), RotRight(x, 19), x >> 10)
  }

  /** The macros compute the functions of the standard. */
  lemma Macros(x: bv32)
    ensures Ep0(x) == BigSigma0(x) && Ep1(x) == BigSigma1(x)
    ensures Sig0(x) == SmallSigma0(x) && Sig1(x) == SmallSigma1(x)
  {
    hide RotR, RotRight, Xor;
    RotRights(x);
  }

  // ----- byte orders

  lemma WordBytes(b0: bv8, b1: bv8, b2: bv8, b3: bv8)
    ensures WordByte(BigEndian(b0, b1, b2, b3), 0) == b0 && WordByte(BigEndian(b0, b1, b2, b3), 1) == b1
    ensures WordByte(BigEndian(b0, b1, b2, b3), 2) == b2 && WordByte(BigEndian(b0, b1, b2, b3), 3) == b3
  {
  }

  lemma WordOfBytes(w: bv32)
    ensures BigEndian(WordByte(w, 0), WordByte(w, 1), WordByte(w, 2), WordByte(w, 3)) == w
  {
  }

  /** The number that bytes stand for, most significant first. */
  function Value(b: Bytes): (v: nat) {
    if b == [] then 0 else 0x100 * Value(b[..|b| - 1]) + b[|b| - 1] as nat
  }

  lemma QuotientIs(n: nat, d: nat, q: nat, r: nat)
    requires n == d * q + r && r < d
    ensures n / d == q
  {
    var e: int := n / d - q;
    assert d * e == d * (n / d) - d * q;
    assert e >= 1 ==> d * e >= d;
    assert e <= -1 ==> d * -e >= d;
  }

  lemma Regroup(p: nat, m: nat, q: nat, s: nat, r: nat)
    requires m == 0x100 * q + s && s < 0x100 && r < p
    ensures p * m + r == 0x100 * p * q + (p * s + r)
    ensures p * s + r < 0x100 * p
  {
    assert p * m == p * (0x100 * q) + p * s;
    assert p * s <= p * 0xff;
  }

  lemma DivideTwice(n: nat, p: nat)
    requires 0 < p
    ensures n / (0x100 * p) == n / p / 0x100
  {
    var m := n / p;
    Regroup(p, m, m / 0x100, m % 0x100, n % p);
    QuotientIs(n, 0x100 * p, m / 0x100, p * (m % 0x100) + n % p);
  }

  lemma NextByte(b: bv8)
    requires b as nat < 0xff
    ensures (b + 1) as nat == b as nat + 1
  {
  }

  lemma {:induction false} ByteNamed(v: nat) returns (b: bv8)
    requires v < 0x100
    ensures b as nat == v && v as bv8 == b
  {
    if v == 0 {
      b := 0;
    } else {
      var c := ByteNamed(v - 1);
      NextByte(c);
      b := c + 1;
    }
  }

  lemma ValueStep(b: Bytes, k: nat)
    requires k < |b|
    ensures Value(b[..k + 1]) == 0x100 * Value(b[..k]) + b[k] as nat
  {
    assert b[..k + 1][..k] == b[..k];
  }

  lemma Bytes64At(n: nat, k: nat)
    requires k < 8
    ensures Bytes64(n)[k] == ByteOf(n, 7 - k)
  {
    hide ByteOf;
  }

  lemma {:induction false} LeadingBytes(n: nat, k: nat)
    requires k <= 8 && n < Power256(8)
    ensures Value(Bytes64(n)[..k]) == n / Power256(8 - k)
  {
    hide ByteOf, Bytes64;
    if k > 0 {
      LeadingBytes(n, k - 1);
      hide Value;
      ValueStep(Bytes64(n), k - 1);
      Bytes64At(n, k - 1);
      ByteValue(n, 8 - k);
      DivideTwice(n, Power256(8 - k));
    }
  }

  lemma ByteValue(n: nat, k: nat)
    ensures ByteOf(n, k) as nat == n / Power256(k) % 0x100
  {
    hide Power256;
    var b := ByteNamed(n / Power256(k) % 0x100);
  }

  /** The eight bytes of a length are its base 256 digits. */
  lemma Bytes64Value(n: nat)
    requires n < 0x1_0000_0000_0000_0000
    ensures Value(Bytes64(n)) == n
  {
    hide Bytes64;
    assert Power256(2) == 0x1_0000 && Power256(4) == 0x1_0000_0000;
    assert Power256(6) == 0x1_0000_0000_0000 && Power256(8) == 0x1_0000_0000_0000_0000;
    LeadingBytes(n, 8);
    assert Bytes64(n)[..8] == Bytes64(n);
  }
}
