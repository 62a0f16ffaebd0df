/** The constants and bit functions of SHA-256 (sections 4.1.2, 4.2.2 and 5.3.3 of FIPS 180-4) by what
    they are, not by their digits and shifts. */
module Sha256Words {
  import opened Sha256

  // ---------------------------------------------------------------- the constants

  const TWO32: nat := 0x1_0000_0000

  /** `n` is the first 32 bits of the fraction of the cube root of `p`, whose integer part is `whole`. */
  predicate CubeRoot(p: nat, whole: nat, n: nat) {
    var q := whole * TWO32 + n;
    n < TWO32 && q * q * q <= p * TWO32 * TWO32 * TWO32 < (q + 1) * (q + 1) * (q + 1)
  }

  predicate SquareRoot(p: nat, whole: nat, n: nat) {
    var q := whole * TWO32 + n;
    n < TWO32 && q * q <= p * TWO32 * TWO32 < (q + 1) * (q + 1)
  }

  predicate RowOfRoots(row: seq<Word>, whole: seq<nat>, primes: seq<nat>) {
    && |row| == |whole| == |primes| == 8
    && CubeRoot(primes[0], whole[0], row[0] as int) && CubeRoot(primes[1], whole[1], row[1] as int)
    && CubeRoot(primes[2], whole[2], row[2] as int) && CubeRoot(primes[3], whole[3], row[3] as int)
    && CubeRoot(primes[4], whole[4], row[4] as int) && CubeRoot(primes[5], whole[5], row[5] as int)
    && CubeRoot(primes[6], whole[6], row[6] as int) && CubeRoot(primes[7], whole[7], row[7] as int)
  }

  /** The round constants come from the cube roots of the first sixty-four primes. */
  lemma RoundConstantsAreCubeRoots()
    ensures RowOfRoots(K[0..8], [1, 1, 1, 1, 2, 2, 2, 2],
                       [2, 3, 5, 7, 11, 13, 17, 19])
    ensures RowOfRoots(K[8..16], [2, 3, 3, 3, 3, 3, 3, 3],
                       [23, 29, 31, 37, 41, 43, 47, 53])
    ensures RowOfRoots(K[16..24], [3, 3, 4, 4, 4, 4, 4, 4],
                       [59, 61, 67, 71, 73, 79, 83, 89])
    ensures RowOfRoots(K[24..32], [4, 4, 4, 4, 4, 4, 5, 5],
                       [97, 101, 103, 107, 109, 113, 127, 131])
    ensures RowOfRoots(K[32..40], [5, 5, 5, 5, 5, 5, 5, 5],
                       [137, 139, 149, 151, 157, 163, 167, 173])
    ensures RowOfRoots(K[40..48], [5, 5, 5, 5, 5, 5, 5, 6],
                       [179, 181, 191, 193, 197, 199, 211, 223])
    ensures RowOfRoots(K[48..56], [6, 6, 6, 6, 6, 6, 6, 6],
                       [227, 229, 233, 239, 241, 251, 257, 263])
    ensures RowOfRoots(K[56..64], [6, 6, 6, 6, 6, 6, 6, 6],
                       [269, 271, 277, 281, 283, 293, 307, 311])
  {
    Row0();
    Row1();
    Row2();
    Row3();
    Row4();
    Row5();
    Row6();
    Row7();
    Rows();
  }

  lemma Rows()
    ensures |K| == 64
    ensures K[0..8] == K0
    ensures K[8..16] == K1
    ensures K[16..24] == K2
    ensures K[24..32] == K3
    ensures K[32..40] == K4
    ensures K[40..48] == K5
    ensures K[48..56] == K6
    ensures K[56..64] == K7
  {
  }

  lemma Row0()
    ensures RowOfRoots(K0, [1, 1, 1, 1, 2, 2, 2, 2], [2, 3, 5, 7, 11, 13, 17, 19])
  {
  }

  lemma Row1()
    ensures RowOfRoots(K1, [2, 3, 3, 3, 3, 3, 3, 3], [23, 29, 31, 37, 41, 43, 47, 53])
  {
  }

  lemma Row2()
    ensures RowOfRoots(K2, [3, 3, 4, 4, 4, 4, 4, 4], [59, 61, 67, 71, 73, 79, 83, 89])
  {
  }

  lemma Row3()
    ensures RowOfRoots(K3, [4, 4, 4, 4, 4, 4, 5, 5], [97, 101, 103, 107, 109, 113, 127, 131])
  {
  }

  lemma Row4()
    ensures RowOfRoots(K4, [5, 5, 5, 5, 5, 5, 5, 5], [137, 139, 149, 151, 157, 163, 167, 173])
  {
  }

  lemma Row5()
    ensures RowOfRoots(K5, [5, 5, 5, 5, 5, 5, 5, 6], [179, 181, 191, 193, 197, 199, 211, 223])
  {
  }

  lemma Row6()
    ensures RowOfRoots(K6, [6, 6, 6, 6, 6, 6, 6, 6], [227, 229, 233, 239, 241, 251, 257, 263])
  {
  }

  lemma Row7()
    ensures RowOfRoots(K7, [6, 6, 6, 6, 6, 6, 6, 6], [269, 271, 277, 281, 283, 293, 307, 311])
  {
  }

  /** The initial hash value comes from the square roots of the first eight. */
  lemma InitialIsSquareRoots()
    ensures SquareRoot(2, 1, INITIAL.a as int)
    ensures SquareRoot(3, 1, INITIAL.b as int)
    ensures SquareRoot(5, 2, INITIAL.c as int)
    ensures SquareRoot(7, 2, INITIAL.d as int)
    ensures SquareRoot(11, 3, INITIAL.e as int)
    ensures SquareRoot(13, 3, INITIAL.f as int)
    ensures SquareRoot(17, 4, INITIAL.g as int)
    ensures SquareRoot(19, 4, INITIAL.h as int)
  {
  }

  // ---------------------------------------------------------------- the functions

  /** Bit `i` of a word, counted from the lowest. */
  function Bit(x: Word, i: bv6): Word
    requires i < 32
  {
    (x >> i) & 1
  }

  /** A rotation by `n` takes every bit from `n` places higher, and the highest from the lowest. */
  lemma RotatedBit(x: Word, n: bv6, i: bv6)
    requires 0 < n < 32 && i + n < 32 && i < 32
    ensures Bit(Rotr(x, n), i) == Bit(x, i + n)
  {
  }

  lemma RotatedBitWraps(x: Word, n: bv6, i: bv6)
    requires 0 < n < 32 && i < 32 <= i + n
    ensures Bit(Rotr(x, n), i) == Bit(x, i + n - 32)
  {
  }

  /** The sigma functions add the rotated words, modulo two; the small ones shift the third. */
  lemma SigmasSay(x: Word)
    ensures BigSigma0(x) == Xor3(Rotr(x, 2), Rotr(x, 13), Rotr(x, 22))
    ensures BigSigma1(x) == Xor3(Rotr(x, 6), Rotr(x, 11), Rotr(x, 25))
    ensures SmallSigma0(x) == Xor3(Rotr(x, 7), Rotr(x, 18), x >> 3)
    ensures SmallSigma1(x) == Xor3(Rotr(x, 17), Rotr(x, 19), x >> 10)
  {
  }

  /** Ch is `y` where `x` has ones and `z` elsewhere. */
  lemma ChSays(x: Word, y: Word, z: Word)
    ensures Ch(x, y, z) & x == y & x
    ensures Ch(x, y, z) & !x == z & !x
  {
  }

  /** Maj is `x` where `x` and `y` agree, and `z` elsewhere. */
  lemma MajWhereAlike(x: Word, y: Word, z: Word)
    ensures Maj(x, y, z) & !(x ^ y) == x & !(x ^ y)
  {
  }

  lemma MajElsewhere(x: Word, y: Word, z: Word)
    ensures Maj(x, y, z) & (x ^ y) == z & (x ^ y)
  {
  }

  /** The first byte of a word is the highest. */
  lemma PackSays(a: Byte, b: Byte, c: Byte, d: Byte)
    ensures var w := Pack(a, b, c, d);
      && w >> 24 == a as Word && (w >> 16) & 0xff == b as Word
      && (w >> 8) & 0xff == c as Word && w & 0xff == d as Word
  {
  }
}
