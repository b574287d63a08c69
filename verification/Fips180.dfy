/**
 * The Secure Hash Standard, FIPS 180-4, for SHA-256: functions (section 4.1.2), constants
 * (sections 4.2.2 and 5.3.3), padding (section 5.1.1) and the hash computation (section 6.2.2).
 */
module Fips180 {
  import opened Bytes

  const K0: seq<word> := [0x428a2f98, 0x71374491, 0xb5c0fbcf, 0xe9b5dba5, 0x3956c25b, 0x59f111f1, 0x923f82a4, 0xab1c5ed5]
  const K1: seq<word> := [0xd807aa98, 0x12835b01, 0x243185be, 0x550c7dc3, 0x72be5d74, 0x80deb1fe, 0x9bdc06a7, 0xc19bf174]
  const K2: seq<word> := [0xe49b69c1, 0xefbe4786, 0x0fc19dc6, 0x240ca1cc, 0x2de92c6f, 0x4a7484aa, 0x5cb0a9dc, 0x76f988da]
  const K3: seq<word> := [0x983e5152, 0xa831c66d, 0xb00327c8, 0xbf597fc7, 0xc6e00bf3, 0xd5a79147, 0x06ca6351, 0x14292967]
  const K4: seq<word> := [0x27b70a85, 0x2e1b2138, 0x4d2c6dfc, 0x53380d13, 0x650a7354, 0x766a0abb, 0x81c2c92e, 0x92722c85]
  const K5: seq<word> := [0xa2bfe8a1, 0xa81a664b, 0xc24b8b70, 0xc76c51a3, 0xd192e819, 0xd6990624, 0xf40e3585, 0x106aa070]
  const K6: seq<word> := [0x19a4c116, 0x1e376c08, 0x2748774c, 0x34b0bcb5, 0x391c0cb3, 0x4ed8aa4a, 0x5b9cca4f, 0x682e6ff3]
  const K7: seq<word> := [0x748f82ee, 0x78a5636f, 0x84c87814, 0x8cc70208, 0x90befffa, 0xa4506ceb, 0xbef9a3f7, 0xc67178f2]
  const K := K0 + K1 + K2 + K3 + K4 + K5 + K6 + K7

  const H0: seq<word> := [
    0x6a09e667, 0xbb67ae85, 0x3c6ef372, 0xa54ff53a, 0x510e527f, 0x9b05688c, 0x1f83d9ab, 0x5be0cd19
  ]

  // ---- Section 4.1.2: the six logical functions, on 32-bit words ----

  function Rotr(x: bv32, n: bv32): bv32
    requires 0 < n < 32
  {
    (x >> n) | (x << (32 - n))
  }

  function ChBits(x: bv32, y: bv32, z: bv32): bv32 { (x & y) ^ (!x & z) }
  function MajBits(x: bv32, y: bv32, z: bv32): bv32 { (x & y) ^ (x & z) ^ (y & z) }
  function BSig0Bits(x: bv32): bv32 { Rotr(x, 2) ^ Rotr(x, 13) ^ Rotr(x, 22) }
  function BSig1Bits(x: bv32): bv32 { Rotr(x, 6) ^ Rotr(x, 11) ^ Rotr(x, 25) }
  function SSig0Bits(x: bv32): bv32 { Rotr(x, 7) ^ Rotr(x, 18) ^ (x >> 3) }
  function SSig1Bits(x: bv32): bv32 { Rotr(x, 17) ^ Rotr(x, 19) ^ (x >> 10) }

  function Ch(x: word, y: word, z: word): word { ChBits(x as bv32, y as bv32, z as bv32) as word }
  function Maj(x: word, y: word, z: word): word { MajBits(x as bv32, y as bv32, z as bv32) as word }
  function BSig0(x: word): word { BSig0Bits(x as bv32) as word }
  function BSig1(x: word): word { BSig1Bits(x as bv32) as word }
  function SSig0(x: word): word { SSig0Bits(x as bv32) as word }
  function SSig1(x: word): word { SSig1Bits(x as bv32) as word }

  /** Addition modulo 2^32. */
  function Add(x: word, y: word): word
  {
    ((x as int + y as int) % 0x1_0000_0000) as word
  }

  // ---- Section 5.1.1: padding ----

  /** The least number of zero bytes that brings a message of `n` bytes plus the 0x80 byte to 56 modulo 64. */
  function ZeroCount(n: nat): (z: nat)
    ensures z < 64 && (n + 1 + z) % 64 == 56
  {
    (119 - n % 64) % 64
  }

  /** The standard covers messages below 2^64 bits; above that the length field keeps its low 64 bits. */
  function Pad(m: seq<byte>): (p: seq<byte>)
    ensures |p| % 64 == 0 && |m| + 9 <= |p| <= |m| + 72
  {
    var z := ZeroCount(|m|);
    assert (|m| + 1 + z + 8) % 64 == 0;
    m + [0x80] + Zeros(z) + BigEndian(8 * |m|, 8)
  }

  // ---- Section 6.2.2: hash computation ----

  datatype Vars = Vars(a: word, b: word, c: word, d: word, e: word, f: word, g: word, h: word)

  /** Step 1: word W_t of the message schedule. */
  function Schedule(block: seq<byte>, t: nat): word
    requires |block| == 64 && t < 64
  {
    if t < 16 then
      Get32Be(block[4 * t..4 * t + 4])
    else
      Add(Add(Add(SSig1(Schedule(block, t - 2)), Schedule(block, t - 7)),
              SSig0(Schedule(block, t - 15))), Schedule(block, t - 16))
  }

  /** Step 3: one round, with schedule word `w` and constant `k`. */
  function Round(v: Vars, k: word, w: word): Vars
  {
    var t1 := Add(Add(Add(Add(v.h, BSig1(v.e)), Ch(v.e, v.f, v.g)), k), w);
    var t2 := Add(BSig0(v.a), Maj(v.a, v.b, v.c));
    Vars(Add(t1, t2), v.a, v.b, v.c, Add(v.d, t1), v.e, v.f, v.g)
  }

  /** The working variables after the first `t` rounds. */
  function Rounds(block: seq<byte>, v: Vars, t: nat): Vars
    requires |block| == 64 && t <= 64
  {
    if t == 0 then v else Round(Rounds(block, v, t - 1), K[t - 1], Schedule(block, t - 1))
  }

  function ToVars(h: seq<word>): Vars
    requires |h| == 8
  {
    Vars(h[0], h[1], h[2], h[3], h[4], h[5], h[6], h[7])
  }

  /** Steps 2 to 4: the next intermediate hash value. */
  function Compress(h: seq<word>, block: seq<byte>): (r: seq<word>)
    requires |h| == 8 && |block| == 64
    ensures |r| == 8
  {
    var v := Rounds(block, ToVars(h), 64);
    [Add(h[0], v.a), Add(h[1], v.b), Add(h[2], v.c), Add(h[3], v.d),
     Add(h[4], v.e), Add(h[5], v.f), Add(h[6], v.g), Add(h[7], v.h)]
  }

  /** The intermediate hash value after all the blocks of `p`. */
  function HashBlocks(p: seq<byte>): (h: seq<word>)
    requires |p| % 64 == 0
    ensures |h| == 8
  {
    if p == [] then H0 else Compress(HashBlocks(p[..|p| - 64]), p[|p| - 64..])
  }

  function WordsToBytes(h: seq<word>): (s: seq<byte>)
    ensures |s| == 4 * |h|
  {
    if h == [] then [] else WordsToBytes(h[..|h| - 1]) + Put32Be(h[|h| - 1])
  }

  /** The SHA-256 message digest. */
  function Sha256(m: seq<byte>): (digest: seq<byte>)
    ensures |digest| == 32
  {
    WordsToBytes(HashBlocks(Pad(m)))
  }

  // ---- What the functions, the constants and the padding mean ----

  /** Under any mask m of bits: Ch takes y where x is set and z where it is clear. */
  lemma Choose(x: bv32, y: bv32, z: bv32, m: bv32)
    ensures x & m == m ==> ChBits(x, y, z) & m == y & m
    ensures x & m == 0 ==> ChBits(x, y, z) & m == z & m
  {
  }

  /** Under any mask m of bits: Maj is the value x and y agree on, and z where they differ. */
  lemma Majority(x: bv32, y: bv32, z: bv32, m: bv32)
    ensures (x ^ y) & m == 0 ==> MajBits(x, y, z) & m == x & m
    ensures (x ^ y) & m == m ==> MajBits(x, y, z) & m == z & m
  {
  }

  // ---- Bit i of the four sums ----
  // Rotating right by n brings bit i + n, modulo 32, to bit i; shifting brings in zeros.

  function Bit(x: bv32, i: bv32): bv32
    requires i < 32
  {
    (x >> i) & 1
  }

  lemma BSig0LowBit(x: bv32, i: bv32)
    requires i < 16
    ensures Bit(BSig0Bits(x), i) ==
            Bit(x, (i + 2) & 31) ^ Bit(x, (i + 13) & 31) ^ Bit(x, (i + 22) & 31)
  {
    assert i == 0 || i == 1 || i == 2 || i == 3 || i == 4 || i == 5 || i == 6 || i == 7
           || i == 8 || i == 9 || i == 10 || i == 11 || i == 12 || i == 13 || i == 14 || i == 15;
  }

  lemma BSig0HighBit(x: bv32, i: bv32)
    requires 16 <= i < 32
    ensures Bit(BSig0Bits(x), i) ==
            Bit(x, (i + 2) & 31) ^ Bit(x, (i + 13) & 31) ^ Bit(x, (i + 22) & 31)
  {
    assert i == 16 || i == 17 || i == 18 || i == 19 || i == 20 || i == 21 || i == 22 || i == 23
           || i == 24 || i == 25 || i == 26 || i == 27 || i == 28 || i == 29 || i == 30 || i == 31;
  }

  lemma BSig0Bit(x: bv32, i: bv32)
    requires i < 32
    ensures Bit(BSig0Bits(x), i) ==
            Bit(x, (i + 2) & 31) ^ Bit(x, (i + 13) & 31) ^ Bit(x, (i + 22) & 31)
  {
    if i < 16 {
      BSig0LowBit(x, i);
    } else {
      BSig0HighBit(x, i);
    }
  }

  lemma BSig1LowBit(x: bv32, i: bv32)
    requires i < 16
    ensures Bit(BSig1Bits(x), i) ==
            Bit(x, (i + 6) & 31) ^ Bit(x, (i + 11) & 31) ^ Bit(x, (i + 25) & 31)
  {
    assert i == 0 || i == 1 || i == 2 || i == 3 || i == 4 || i == 5 || i == 6 || i == 7
           || i == 8 || i == 9 || i == 10 || i == 11 || i == 12 || i == 13 || i == 14 || i == 15;
  }

  lemma BSig1HighBit(x: bv32, i: bv32)
    requires 16 <= i < 32
    ensures Bit(BSig1Bits(x), i) ==
            Bit(x, (i + 6) & 31) ^ Bit(x, (i + 11) & 31) ^ Bit(x, (i + 25) & 31)
  {
    assert i == 16 || i == 17 || i == 18 || i == 19 || i == 20 || i == 21 || i == 22 || i == 23
           || i == 24 || i == 25 || i == 26 || i == 27 || i == 28 || i == 29 || i == 30 || i == 31;
  }

  lemma BSig1Bit(x: bv32, i: bv32)
    requires i < 32
    ensures Bit(BSig1Bits(x), i) ==
            Bit(x, (i + 6) & 31) ^ Bit(x, (i + 11) & 31) ^ Bit(x, (i + 25) & 31)
  {
    if i < 16 {
      BSig1LowBit(x, i);
    } else {
      BSig1HighBit(x, i);
    }
  }

  lemma SSig0LowBit(x: bv32, i: bv32)
    requires i < 16
    ensures Bit(SSig0Bits(x), i) ==
            Bit(x, (i + 7) & 31) ^ Bit(x, (i + 18) & 31) ^ (if i + 3 < 32 then Bit(x, i + 3) else 0)
  {
    assert i == 0 || i == 1 || i == 2 || i == 3 || i == 4 || i == 5 || i == 6 || i == 7
           || i == 8 || i == 9 || i == 10 || i == 11 || i == 12 || i == 13 || i == 14 || i == 15;
  }

  lemma SSig0HighBit(x: bv32, i: bv32)
    requires 16 <= i < 32
    ensures Bit(SSig0Bits(x), i) ==
            Bit(x, (i + 7) & 31) ^ Bit(x, (i + 18) & 31) ^ (if i + 3 < 32 then Bit(x, i + 3) else 0)
  {
    assert i == 16 || i == 17 || i == 18 || i == 19 || i == 20 || i == 21 || i == 22 || i == 23
           || i == 24 || i == 25 || i == 26 || i == 27 || i == 28 || i == 29 || i == 30 || i == 31;
  }

  lemma SSig0Bit(x: bv32, i: bv32)
    requires i < 32
    ensures Bit(SSig0Bits(x), i) ==
            Bit(x, (i + 7) & 31) ^ Bit(x, (i + 18) & 31) ^ (if i + 3 < 32 then Bit(x, i + 3) else 0)
  {
    if i < 16 {
      SSig0LowBit(x, i);
    } else {
      SSig0HighBit(x, i);
    }
  }

  lemma SSig1LowBit(x: bv32, i: bv32)
    requires i < 16
    ensures Bit(SSig1Bits(x), i) ==
            Bit(x, (i + 17) & 31) ^ Bit(x, (i + 19) & 31) ^ (if i + 10 < 32 then Bit(x, i + 10) else 0)
  {
    assert i == 0 || i == 1 || i == 2 || i == 3 || i == 4 || i == 5 || i == 6 || i == 7
           || i == 8 || i == 9 || i == 10 || i == 11 || i == 12 || i == 13 || i == 14 || i == 15;
  }

  lemma SSig1HighBit(x: bv32, i: bv32)
    requires 16 <= i < 32
    ensures Bit(SSig1Bits(x), i) ==
            Bit(x, (i + 17) & 31) ^ Bit(x, (i + 19) & 31) ^ (if i + 10 < 32 then Bit(x, i + 10) else 0)
  {
    assert i == 16 || i == 17 || i == 18 || i == 19 || i == 20 || i == 21 || i == 22 || i == 23
           || i == 24 || i == 25 || i == 26 || i == 27 || i == 28 || i == 29 || i == 30 || i == 31;
  }

  lemma SSig1Bit(x: bv32, i: bv32)
    requires i < 32
    ensures Bit(SSig1Bits(x), i) ==
            Bit(x, (i + 17) & 31) ^ Bit(x, (i + 19) & 31) ^ (if i + 10 < 32 then Bit(x, i + 10) else 0)
  {
    if i < 16 {
      SSig1LowBit(x, i);
    } else {
      SSig1HighBit(x, i);
    }
  }

  /** A padded message is the message, the byte 0x80, fewer than 64 zeros and the length in eight bytes. */
  lemma PaddingIsMinimal(m: seq<byte>)
    ensures |Pad(m)| < |m| + 9 + 64 && Pad(m)[..|m|] == m && Pad(m)[|m|] == 0x80
    ensures forall i :: |m| < i < |Pad(m)| - 8 ==> Pad(m)[i] == 0
    ensures Pad(m)[|Pad(m)| - 8..] == BigEndian(8 * |m|, 8)
  {
    hide BigEndian;
    var z, n := ZeroCount(|m|), BigEndian(8 * |m|, 8);
    var p := m + [0x80] + Zeros(z) + n;
    assert Pad(m) == p && |p| == |m| + 1 + z + 8;
    assert p[..|m|] == m && p[|m|] == 0x80 && p[|p| - 8..] == n;
    assert forall i :: |m| < i < |p| - 8 ==> p[i] == Zeros(z)[i - |m| - 1];
  }

  /** The last eight bytes of a padded message give its length in bits back, so padding loses nothing. */
  lemma PaddingEndsWithLength(m: seq<byte>)
    requires |m| < 0x2000_0000_0000_0000
    ensures |Pad(m)| >= 8
    ensures FromBigEndian(Pad(m)[|Pad(m)| - 8..]) == 8 * |m|
  {
    BigEndianInverse(8 * |m|, 8);
    assert Pow256(8) == 0x1_0000_0000_0000_0000;
    assert Pad(m)[|Pad(m)| - 8..] == BigEndian(8 * |m|, 8);
  }

  lemma PaddingIsInjective(m1: seq<byte>, m2: seq<byte>)
    requires |m1| < 0x2000_0000_0000_0000 && |m2| < 0x2000_0000_0000_0000
    requires Pad(m1) == Pad(m2)
    ensures m1 == m2
  {
    PaddingEndsWithLength(m1);
    PaddingEndsWithLength(m2);
    assert m1 == Pad(m1)[..|m1|] == m2;
  }

  // The first sixty-four primes, eight at a time.
  const P0: seq<nat> := [2, 3, 5, 7, 11, 13, 17, 19]
  const P1: seq<nat> := [23, 29, 31, 37, 41, 43, 47, 53]
  const P2: seq<nat> := [59, 61, 67, 71, 73, 79, 83, 89]
  const P3: seq<nat> := [97, 101, 103, 107, 109, 113, 127, 131]
  const P4: seq<nat> := [137, 139, 149, 151, 157, 163, 167, 173]
  const P5: seq<nat> := [179, 181, 191, 193, 197, 199, 211, 223]
  const P6: seq<nat> := [227, 229, 233, 239, 241, 251, 257, 263]
  const P7: seq<nat> := [269, 271, 277, 281, 283, 293, 307, 311]

  const PRIMES := P0 + P1 + P2 + P3 + P4 + P5 + P6 + P7

  /** The integer part of the cube root of `p`, for `p` below 343. */
  function RootFloor(p: nat): nat
  {
    if p < 8 then 1 else if p < 27 then 2 else if p < 64 then 3 else if p < 125 then 4 else if p < 216 then 5 else 6
  }

  /** `k` holds the first thirty-two bits of the fractional part of the cube root of `p`. */
  predicate IsCubeRootFraction(p: nat, k: word)
  {
    var c := RootFloor(p) * 0x1_0000_0000 + k as int;
    c * c * c <= p * 0x1_0000_0000_0000_0000_0000_0000 < (c + 1) * (c + 1) * (c + 1)
  }

  /** `h` holds the first thirty-two bits of the fractional part of the square root of `p`. */
  predicate IsSquareRootFraction(p: nat, h: word)
  {
    var floor := if p < 4 then 1 else if p < 9 then 2 else if p < 16 then 3 else 4;
    var c := floor * 0x1_0000_0000 + h as int;
    c * c <= p * 0x1_0000_0000_0000_0000 < (c + 1) * (c + 1)
  }

  predicate RowOfCubeRoots(ps: seq<nat>, ks: seq<word>)
  {
    && |ps| == |ks| == 8
    && IsCubeRootFraction(ps[0], ks[0]) && IsCubeRootFraction(ps[1], ks[1])
    && IsCubeRootFraction(ps[2], ks[2]) && IsCubeRootFraction(ps[3], ks[3])
    && IsCubeRootFraction(ps[4], ks[4]) && IsCubeRootFraction(ps[5], ks[5])
    && IsCubeRootFraction(ps[6], ks[6]) && IsCubeRootFraction(ps[7], ks[7])
  }

  lemma Row0() ensures RowOfCubeRoots(P0, K0) {}
  lemma Row1() ensures RowOfCubeRoots(P1, K1) {}
  lemma Row2() ensures RowOfCubeRoots(P2, K2) {}
  lemma Row3() ensures RowOfCubeRoots(P3, K3) {}
  lemma Row4() ensures RowOfCubeRoots(P4, K4) {}
  lemma Row5() ensures RowOfCubeRoots(P5, K5) {}
  lemma Row6() ensures RowOfCubeRoots(P6, K6) {}
  lemma Row7() ensures RowOfCubeRoots(P7, K7) {}

  lemma EightRows<T>(
    a: seq<T>, b: seq<T>, c: seq<T>, d: seq<T>, e: seq<T>, f: seq<T>, g: seq<T>, h: seq<T>)
    requires |a| == |b| == |c| == |d| == |e| == |f| == |g| == |h| == 8
    ensures var s := a + b + c + d + e + f + g + h;
            |s| == 64 && s[0..8] == a && s[8..16] == b && s[16..24] == c && s[24..32] == d
            && s[32..40] == e && s[40..48] == f && s[48..56] == g && s[56..64] == h
  {
  }

  lemma Rows()
    ensures |K| == |PRIMES| == 64
    ensures K[0..8] == K0 && K[8..16] == K1 && K[16..24] == K2 && K[24..32] == K3
    ensures K[32..40] == K4 && K[40..48] == K5 && K[48..56] == K6 && K[56..64] == K7
    ensures PRIMES[0..8] == P0 && PRIMES[8..16] == P1 && PRIMES[16..24] == P2 && PRIMES[24..32] == P3
    ensures PRIMES[32..40] == P4 && PRIMES[40..48] == P5 && PRIMES[48..56] == P6 && PRIMES[56..64] == P7
  {
    EightRows(K0, K1, K2, K3, K4, K5, K6, K7);
    EightRows(P0, P1, P2, P3, P4, P5, P6, P7);
  }

  lemma InRow(ps: seq<nat>, ks: seq<word>, r: nat, t: nat)
    requires RowOfCubeRoots(ps, ks) && |K| == |PRIMES| == 64 && r <= t < r + 8 <= 64
    requires K[r..r + 8] == ks && PRIMES[r..r + 8] == ps
    ensures IsCubeRootFraction(PRIMES[t], K[t])
  {
    hide IsCubeRootFraction, K, PRIMES;
    var i := t - r;
    assert K[t] == ks[i] && PRIMES[t] == ps[i];
    assert i == 0 || i == 1 || i == 2 || i == 3 || i == 4 || i == 5 || i == 6 || i == 7;
  }

  /** Section 4.2.2: the round constants are the cube-root fractions of the first sixty-four primes. */
  lemma RoundConstants(t: nat)
    requires t < 64
    ensures |K| == |PRIMES| == 64 && IsCubeRootFraction(PRIMES[t], K[t])
  {
    hide IsCubeRootFraction, RowOfCubeRoots, K, PRIMES;
    Rows();
    Row0(); Row1(); Row2(); Row3(); Row4(); Row5(); Row6(); Row7();
    if t < 8 { InRow(P0, K0, 0, t); }
    else if t < 16 { InRow(P1, K1, 8, t); }
    else if t < 24 { InRow(P2, K2, 16, t); }
    else if t < 32 { InRow(P3, K3, 24, t); }
    else if t < 40 { InRow(P4, K4, 32, t); }
    else if t < 48 { InRow(P5, K5, 40, t); }
    else if t < 56 { InRow(P6, K6, 48, t); }
    else { InRow(P7, K7, 56, t); }
  }

  /** Section 5.3.3: the initial hash value holds the square-root fractions of the first eight primes. */
  lemma InitialHashValue()
    ensures |H0| == 8 && forall i :: 0 <= i < 8 ==> IsSquareRootFraction(P0[i], H0[i])
  {
    assert IsSquareRootFraction(2, H0[0]) && IsSquareRootFraction(3, H0[1]);
    assert IsSquareRootFraction(5, H0[2]) && IsSquareRootFraction(7, H0[3]);
    assert IsSquareRootFraction(11, H0[4]) && IsSquareRootFraction(13, H0[5]);
    assert IsSquareRootFraction(17, H0[6]) && IsSquareRootFraction(19, H0[7]);
  }
}
