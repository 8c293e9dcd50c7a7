/** Where the constants of sections 4.2.2 and 5.3.3 come from: the roots of the first primes. */
module Sha256Constants {
  import opened Sha256Spec

  // ----- the first 64 primes

  ghost predicate IsPrime(n: nat) {
    2 <= n && forall d :: 2 <= d < n ==> n % d != 0
  }

  const BOUND := 361

  /** A divisor by trial with the primes below 19, enough below 19 * 19. */
  function Trial(n: nat): (d: nat) {
    if n % 2 == 0 then 2 else if n % 3 == 0 then 3 else if n % 5 == 0 then 5 else if n % 7 == 0 then 7
    else if n % 11 == 0 then 11 else if n % 13 == 0 then 13 else if n % 17 == 0 then 17 else n
  }

  lemma TrialDivides(n: nat)
    requires n > 0
    ensures n % Trial(n) == 0
  {
    assert Trial(n) == n ==> n % n == 0 by { Divides(n, 1, n); }
  }

  lemma TrialEven(n: nat, d: nat)
    requires d in {2, 4, 6, 8, 10, 12, 14, 16, 18} && n % d == 0
    ensures Trial(n) <= d
  {
    assert n % 2 == 0;
  }

  lemma TrialOdd(n: nat, d: nat)
    requires d in {3, 5, 7, 9, 11, 13, 15, 17} && n % d == 0
    ensures Trial(n) <= d
  {
    if d == 9 || d == 15 { assert n % 3 == 0; }
  }

  lemma SmallDivisor(n: nat, d: nat)
    requires 2 <= d <= 18 && n % d == 0
    ensures Trial(n) <= d
  {
    hide Trial;
    if d % 2 == 0 { TrialEven(n, d); } else { TrialOdd(n, d); }
  }

  lemma Divides(n: nat, d: nat, e: nat)
    requires n == d * e && 0 < e
    ensures n % e == 0
  {
    var f: int := d - n / e;
    assert e * f == n - e * (n / e);
    assert f >= 1 ==> e * f >= e;
    assert f <= -1 ==> e * -f >= e;
  }

  lemma LargeDivisor(n: nat, d: nat)
    requires 19 <= d < n < BOUND && n % d == 0
    ensures 2 <= n / d <= 18 && n % (n / d) == 0
  {
    var e := n / d;
    assert n == d * e;
    assert e >= 19 ==> d * e >= 19 * 19;
    assert e <= 1 ==> d * e <= d;
    Divides(n, d, e);
  }

  lemma TrialDecides(n: nat)
    requires 2 <= n < BOUND
    ensures IsPrime(n) <==> Trial(n) == n
  {
    hide Trial;
    if Trial(n) == n {
      forall d | 2 <= d < n
        ensures n % d != 0
      {
        if n % d == 0 {
          if d <= 18 { SmallDivisor(n, d); } else { LargeDivisor(n, d); SmallDivisor(n, n / d); }
        }
      }
    } else {
      TrialDivides(n);
      TrialBetween(n);
    }
  }

  lemma TrialBetween(n: nat)
    requires 2 <= n
    ensures 2 <= Trial(n) <= n
  {
  }

  function PickNumber(k: int, p0: nat, p1: nat, p2: nat, p3: nat, p4: nat, p5: nat, p6: nat, p7: nat): (p: nat) {
    if k == 0 then p0 else if k == 1 then p1 else if k == 2 then p2 else if k == 3 then p3
    else if k == 4 then p4 else if k == 5 then p5 else if k == 6 then p6 else p7
  }

  /** The first 64 primes. */
  function Prime(t: nat): (p: nat)
    requires t < 64
  {
    if t < 8 then PickNumber(t, 2, 3, 5, 7, 11, 13, 17, 19)
    else if t < 16 then PickNumber(t - 8, 23, 29, 31, 37, 41, 43, 47, 53)
    else if t < 24 then PickNumber(t - 16, 59, 61, 67, 71, 73, 79, 83, 89)
    else if t < 32 then PickNumber(t - 24, 97, 101, 103, 107, 109, 113, 127, 131)
    else if t < 40 then PickNumber(t - 32, 137, 139, 149, 151, 157, 163, 167, 173)
    else if t < 48 then PickNumber(t - 40, 179, 181, 191, 193, 197, 199, 211, 223)
    else if t < 56 then PickNumber(t - 48, 227, 229, 233, 239, 241, 251, 257, 263)
    else PickNumber(t - 56, 269, 271, 277, 281, 283, 293, 307, 311)
  }

  /** Told apart so that a proof goes by cases. */
  predicate Below16(k: int) {
    || k == 0 || k == 1 || k == 2 || k == 3 || k == 4 || k == 5 || k == 6 || k == 7
    || k == 8 || k == 9 || k == 10 || k == 11 || k == 12 || k == 13 || k == 14 || k == 15
  }

  lemma Primes16(t: nat, n: nat)
    requires 0 <= t < 16 && Prime(t) <= n < Prime(t + 1)
    ensures Trial(n) == n <==> n == Prime(t)
  {
    assert Below16(t - 0) && Below16(n - Prime(t));
  }

  lemma Primes32(t: nat, n: nat)
    requires 16 <= t < 32 && Prime(t) <= n < Prime(t + 1)
    ensures Trial(n) == n <==> n == Prime(t)
  {
    assert Below16(t - 16) && Below16(n - Prime(t));
  }

  lemma Primes48(t: nat, n: nat)
    requires 32 <= t < 48 && Prime(t) <= n < Prime(t + 1)
    ensures Trial(n) == n <==> n == Prime(t)
  {
    assert Below16(t - 32) && Below16(n - Prime(t));
  }

  lemma Primes63(t: nat, n: nat)
    requires 48 <= t < 63 && Prime(t) <= n < Prime(t + 1)
    ensures Trial(n) == n <==> n == Prime(t)
  {
    assert Below16(t - 48) && Below16(n - Prime(t));
  }

  lemma PrimesRise(t: nat)
    requires t < 63
    ensures 2 <= Prime(t) < Prime(t + 1) <= 311
  {
  }

  /** The table has the primes in order: the first, and after each the next one. */
  lemma PrimeTable(t: nat, n: nat)
    requires t < 63 && Prime(t) <= n < Prime(t + 1)
    ensures IsPrime(n) <==> n == Prime(t)
    ensures Prime(0) == 2 && IsPrime(Prime(63))
  {
    assert Prime(0) == 2 && Prime(63) == 311 && Trial(311) == 311;
    hide Prime, Trial;
    PrimesRise(t);
    TrialDecides(n);
    TrialDecides(311);
    if t < 16 { Primes16(t, n); }
    else if t < 32 { Primes32(t, n); }
    else if t < 48 { Primes48(t, n); }
    else { Primes63(t, n); }
  }

  // ----- fractional parts of roots

  const TWO32: nat := 0x1_0000_0000

  function Square(x: nat): (r: nat) {
    x * x
  }

  function Cube(x: nat): (r: nat) {
    x * x * x
  }

  /** The whole part of a square root, for the numbers that occur. */
  function SquareRoot(n: nat): (c: nat) {
    if n < 4 then 1 else if n < 9 then 2 else if n < 16 then 3 else 4
  }

  /** The whole part of a cube root, for the numbers that occur. */
  function CubeRoot(n: nat): (c: nat) {
    if n < 8 then 1 else if n < 27 then 2 else if n < 64 then 3 else if n < 125 then 4 else if n < 216 then 5 else 6
  }

  /** The first 32 bits of the fractional part of the square root of a number. */
  predicate SquareFraction(n: nat, word: bv32) {
    var x := TWO32 * SquareRoot(n) + word as nat;
    Square(x) <= n * Square(TWO32) < Square(x + 1)
  }

  /** The first 32 bits of the fractional part of the cube root of a number. */
  predicate CubeFraction(n: nat, word: bv32) {
    var x := TWO32 * CubeRoot(n) + word as nat;
    Cube(x) <= n * Cube(TWO32) < Cube(x + 1)
  }

  lemma InitialHash(j: nat)
    requires j < 8
    ensures SquareFraction(Prime(j), Register(IV, j))
  {
    assert Below16(j);
  }

  lemma RoundConstants8(t: nat)
    requires 0 <= t < 8
    ensures CubeFraction(Prime(t), RoundConstant(t))
  {
    assert Below16(t - 0);
  }

  lemma RoundConstants16(t: nat)
    requires 8 <= t < 16
    ensures CubeFraction(Prime(t), RoundConstant(t))
  {
    assert Below16(t - 8);
  }

  lemma RoundConstants24(t: nat)
    requires 16 <= t < 24
    ensures CubeFraction(Prime(t), RoundConstant(t))
  {
    assert Below16(t - 16);
  }

  lemma RoundConstants32(t: nat)
    requires 24 <= t < 32
    ensures CubeFraction(Prime(t), RoundConstant(t))
  {
    assert Below16(t - 24);
  }

  lemma RoundConstants40(t: nat)
    requires 32 <= t < 40
    ensures CubeFraction(Prime(t), RoundConstant(t))
  {
    assert Below16(t - 32);
  }

  lemma RoundConstants48(t: nat)
    requires 40 <= t < 48
    ensures CubeFraction(Prime(t), RoundConstant(t))
  {
    assert Below16(t - 40);
  }

  lemma RoundConstants56(t: nat)
    requires 48 <= t < 56
    ensures CubeFraction(Prime(t), RoundConstant(t))
  {
    assert Below16(t - 48);
  }

  lemma RoundConstants64(t: nat)
    requires 56 <= t < 64
    ensures CubeFraction(Prime(t), RoundConstant(t))
  {
    assert Below16(t - 56);
  }

  lemma RoundConstants(t: nat)
    requires t < 64
    ensures CubeFraction(Prime(t), RoundConstant(t))
  {
    hide CubeFraction, Prime, RoundConstant;
    if t < 8 { RoundConstants8(t); } else if t < 16 { RoundConstants16(t); }
    else if t < 24 { RoundConstants24(t); } else if t < 32 { RoundConstants32(t); }
    else if t < 40 { RoundConstants40(t); } else if t < 48 { RoundConstants48(t); }
    else if t < 56 { RoundConstants56(t); } else { RoundConstants64(t); }
  }
}
