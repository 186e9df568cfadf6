/** Both constant tables are what FIPS 180-4 derives from the first primes. */
module Sha256Constants {
  import opened Bytes
  import opened Sha256Spec
  import opened Primes

  /** w is the first 32 bits of the fractional part of the square root of p; r is that root times 2^32, rounded down. */
  predicate IsSquareRootFraction(p: nat, w: Word, r: nat) {
    r * r <= p * TWO64 < (r + 1) * (r + 1) && r % TWO32 == w as int
  }

  /** w is the first 32 bits of the fractional part of the cube root of p; r is that root times 2^32, rounded down. */
  predicate IsCubeRootFraction(p: nat, w: Word, r: nat) {
    r * r * r <= p * TWO64 * TWO32 < (r + 1) * (r + 1) * (r + 1) && r % TWO32 == w as int
  }

  /** Section 5.3.3: the i-th initial value comes from the i-th prime. */
  ghost predicate InitialValueOk(i: nat)
    requires i < 8
  {
    exists r: nat :: IsSquareRootFraction(NthPrime(i), H0[i], r)
  }

  /** Section 4.2.2: the i-th round constant comes from the i-th prime. */
  ghost predicate RoundConstantOk(i: nat)
    requires i < 64
  {
    exists r: nat :: IsCubeRootFraction(NthPrime(i), K(i), r)
  }

  lemma InitialValuesAreSquareRoots()
    ensures forall i :: 0 <= i < 8 ==> InitialValueOk(i)
  {
    assert NthPrime(0) == 2 && H0[0] == 0x6a09e667 && IsSquareRootFraction(2, 0x6a09e667, 0x16a09e667);
    assert NthPrime(1) == 3 && H0[1] == 0xbb67ae85 && IsSquareRootFraction(3, 0xbb67ae85, 0x1bb67ae85);
    assert NthPrime(2) == 5 && H0[2] == 0x3c6ef372 && IsSquareRootFraction(5, 0x3c6ef372, 0x23c6ef372);
    assert NthPrime(3) == 7 && H0[3] == 0xa54ff53a && IsSquareRootFraction(7, 0xa54ff53a, 0x2a54ff53a);
    assert NthPrime(4) == 11 && H0[4] == 0x510e527f && IsSquareRootFraction(11, 0x510e527f, 0x3510e527f);
    assert NthPrime(5) == 13 && H0[5] == 0x9b05688c && IsSquareRootFraction(13, 0x9b05688c, 0x39b05688c);
    assert NthPrime(6) == 17 && H0[6] == 0x1f83d9ab && IsSquareRootFraction(17, 0x1f83d9ab, 0x41f83d9ab);
    assert NthPrime(7) == 19 && H0[7] == 0x5be0cd19 && IsSquareRootFraction(19, 0x5be0cd19, 0x45be0cd19);
  }

  lemma CubeRoots0()
    ensures forall i :: 0 <= i < 8 ==> RoundConstantOk(i)
  {
    assert NthPrime(0) == 2 && K(0) == 0x428a2f98 && IsCubeRootFraction(2, 0x428a2f98, 0x1428a2f98);
    assert NthPrime(1) == 3 && K(1) == 0x71374491 && IsCubeRootFraction(3, 0x71374491, 0x171374491);
    assert NthPrime(2) == 5 && K(2) == 0xb5c0fbcf && IsCubeRootFraction(5, 0xb5c0fbcf, 0x1b5c0fbcf);
    assert NthPrime(3) == 7 && K(3) == 0xe9b5dba5 && IsCubeRootFraction(7, 0xe9b5dba5, 0x1e9b5dba5);
    assert NthPrime(4) == 11 && K(4) == 0x3956c25b && IsCubeRootFraction(11, 0x3956c25b, 0x23956c25b);
    assert NthPrime(5) == 13 && K(5) == 0x59f111f1 && IsCubeRootFraction(13, 0x59f111f1, 0x259f111f1);
    assert NthPrime(6) == 17 && K(6) == 0x923f82a4 && IsCubeRootFraction(17, 0x923f82a4, 0x2923f82a4);
    assert NthPrime(7) == 19 && K(7) == 0xab1c5ed5 && IsCubeRootFraction(19, 0xab1c5ed5, 0x2ab1c5ed5);
  }

  lemma CubeRoots8()
    ensures forall i :: 8 <= i < 16 ==> RoundConstantOk(i)
  {
    assert NthPrime(8) == 23 && K(8) == 0xd807aa98 && IsCubeRootFraction(23, 0xd807aa98, 0x2d807aa98);
    assert NthPrime(9) == 29 && K(9) == 0x12835b01 && IsCubeRootFraction(29, 0x12835b01, 0x312835b01);
    assert NthPrime(10) == 31 && K(10) == 0x243185be && IsCubeRootFraction(31, 0x243185be, 0x3243185be);
    assert NthPrime(11) == 37 && K(11) == 0x550c7dc3 && IsCubeRootFraction(37, 0x550c7dc3, 0x3550c7dc3);
    assert NthPrime(12) == 41 && K(12) == 0x72be5d74 && IsCubeRootFraction(41, 0x72be5d74, 0x372be5d74);
    assert NthPrime(13) == 43 && K(13) == 0x80deb1fe && IsCubeRootFraction(43, 0x80deb1fe, 0x380deb1fe);
    assert NthPrime(14) == 47 && K(14) == 0x9bdc06a7 && IsCubeRootFraction(47, 0x9bdc06a7, 0x39bdc06a7);
    assert NthPrime(15) == 53 && K(15) == 0xc19bf174 && IsCubeRootFraction(53, 0xc19bf174, 0x3c19bf174);
  }

  lemma CubeRoots16()
    ensures forall i :: 16 <= i < 24 ==> RoundConstantOk(i)
  {
    assert NthPrime(16) == 59 && K(16) == 0xe49b69c1 && IsCubeRootFraction(59, 0xe49b69c1, 0x3e49b69c1);
    assert NthPrime(17) == 61 && K(17) == 0xefbe4786 && IsCubeRootFraction(61, 0xefbe4786, 0x3efbe4786);
    assert NthPrime(18) == 67 && K(18) == 0x0fc19dc6 && IsCubeRootFraction(67, 0x0fc19dc6, 0x40fc19dc6);
    assert NthPrime(19) == 71 && K(19) == 0x240ca1cc && IsCubeRootFraction(71, 0x240ca1cc, 0x4240ca1cc);
    assert NthPrime(20) == 73 && K(20) == 0x2de92c6f && IsCubeRootFraction(73, 0x2de92c6f, 0x42de92c6f);
    assert NthPrime(21) == 79 && K(21) == 0x4a7484aa && IsCubeRootFraction(79, 0x4a7484aa, 0x44a7484aa);
    assert NthPrime(22) == 83 && K(22) == 0x5cb0a9dc && IsCubeRootFraction(83, 0x5cb0a9dc, 0x45cb0a9dc);
    assert NthPrime(23) == 89 && K(23) == 0x76f988da && IsCubeRootFraction(89, 0x76f988da, 0x476f988da);
  }

  lemma CubeRoots24()
    ensures forall i :: 24 <= i < 32 ==> RoundConstantOk(i)
  {
    assert NthPrime(24) == 97 && K(24) == 0x983e5152 && IsCubeRootFraction(97, 0x983e5152, 0x4983e5152);
    assert NthPrime(25) == 101 && K(25) == 0xa831c66d && IsCubeRootFraction(101, 0xa831c66d, 0x4a831c66d);
    assert NthPrime(26) == 103 && K(26) == 0xb00327c8 && IsCubeRootFraction(103, 0xb00327c8, 0x4b00327c8);
    assert NthPrime(27) == 107 && K(27) == 0xbf597fc7 && IsCubeRootFraction(107, 0xbf597fc7, 0x4bf597fc7);
    assert NthPrime(28) == 109 && K(28) == 0xc6e00bf3 && IsCubeRootFraction(109, 0xc6e00bf3, 0x4c6e00bf3);
    assert NthPrime(29) == 113 && K(29) == 0xd5a79147 && IsCubeRootFraction(113, 0xd5a79147, 0x4d5a79147);
    assert NthPrime(30) == 127 && K(30) == 0x06ca6351 && IsCubeRootFraction(127, 0x06ca6351, 0x506ca6351);
    assert NthPrime(31) == 131 && K(31) == 0x14292967 && IsCubeRootFraction(131, 0x14292967, 0x514292967);
  }

  lemma CubeRoots32()
    ensures forall i :: 32 <= i < 40 ==> RoundConstantOk(i)
  {
    assert NthPrime(32) == 137 && K(32) == 0x27b70a85 && IsCubeRootFraction(137, 0x27b70a85, 0x527b70a85);
    assert NthPrime(33) == 139 && K(33) == 0x2e1b2138 && IsCubeRootFraction(139, 0x2e1b2138, 0x52e1b2138);
    assert NthPrime(34) == 149 && K(34) == 0x4d2c6dfc && IsCubeRootFraction(149, 0x4d2c6dfc, 0x54d2c6dfc);
    assert NthPrime(35) == 151 && K(35) == 0x53380d13 && IsCubeRootFraction(151, 0x53380d13, 0x553380d13);
    assert NthPrime(36) == 157 && K(36) == 0x650a7354 && IsCubeRootFraction(157, 0x650a7354, 0x5650a7354);
    assert NthPrime(37) == 163 && K(37) == 0x766a0abb && IsCubeRootFraction(163, 0x766a0abb, 0x5766a0abb);
    assert NthPrime(38) == 167 && K(38) == 0x81c2c92e && IsCubeRootFraction(167, 0x81c2c92e, 0x581c2c92e);
    assert NthPrime(39) == 173 && K(39) == 0x92722c85 && IsCubeRootFraction(173, 0x92722c85, 0x592722c85);
  }

  lemma CubeRoots40()
    ensures forall i :: 40 <= i < 48 ==> RoundConstantOk(i)
  {
    assert NthPrime(40) == 179 && K(40) == 0xa2bfe8a1 && IsCubeRootFraction(179, 0xa2bfe8a1, 0x5a2bfe8a1);
    assert NthPrime(41) == 181 && K(41) == 0xa81a664b && IsCubeRootFraction(181, 0xa81a664b, 0x5a81a664b);
    assert NthPrime(42) == 191 && K(42) == 0xc24b8b70 && IsCubeRootFraction(191, 0xc24b8b70, 0x5c24b8b70);
    assert NthPrime(43) == 193 && K(43) == 0xc76c51a3 && IsCubeRootFraction(193, 0xc76c51a3, 0x5c76c51a3);
    assert NthPrime(44) == 197 && K(44) == 0xd192e819 && IsCubeRootFraction(197, 0xd192e819, 0x5d192e819);
    assert NthPrime(45) == 199 && K(45) == 0xd6990624 && IsCubeRootFraction(199, 0xd6990624, 0x5d6990624);
    assert NthPrime(46) == 211 && K(46) == 0xf40e3585 && IsCubeRootFraction(211, 0xf40e3585, 0x5f40e3585);
    assert NthPrime(47) == 223 && K(47) == 0x106aa070 && IsCubeRootFraction(223, 0x106aa070, 0x6106aa070);
  }

  lemma CubeRoots48()
    ensures forall i :: 48 <= i < 56 ==> RoundConstantOk(i)
  {
    assert NthPrime(48) == 227 && K(48) == 0x19a4c116 && IsCubeRootFraction(227, 0x19a4c116, 0x619a4c116);
    assert NthPrime(49) == 229 && K(49) == 0x1e376c08 && IsCubeRootFraction(229, 0x1e376c08, 0x61e376c08);
    assert NthPrime(50) == 233 && K(50) == 0x2748774c && IsCubeRootFraction(233, 0x2748774c, 0x62748774c);
    assert NthPrime(51) == 239 && K(51) == 0x34b0bcb5 && IsCubeRootFraction(239, 0x34b0bcb5, 0x634b0bcb5);
    assert NthPrime(52) == 241 && K(52) == 0x391c0cb3 && IsCubeRootFraction(241, 0x391c0cb3, 0x6391c0cb3);
    assert NthPrime(53) == 251 && K(53) == 0x4ed8aa4a && IsCubeRootFraction(251, 0x4ed8aa4a, 0x64ed8aa4a);
    assert NthPrime(54) == 257 && K(54) == 0x5b9cca4f && IsCubeRootFraction(257, 0x5b9cca4f, 0x65b9cca4f);
    assert NthPrime(55) == 263 && K(55) == 0x682e6ff3 && IsCubeRootFraction(263, 0x682e6ff3, 0x6682e6ff3);
  }

  lemma CubeRoots56()
    ensures forall i :: 56 <= i < 64 ==> RoundConstantOk(i)
  {
    assert NthPrime(56) == 269 && K(56) == 0x748f82ee && IsCubeRootFraction(269, 0x748f82ee, 0x6748f82ee);
    assert NthPrime(57) == 271 && K(57) == 0x78a5636f && IsCubeRootFraction(271, 0x78a5636f, 0x678a5636f);
    assert NthPrime(58) == 277 && K(58) == 0x84c87814 && IsCubeRootFraction(277, 0x84c87814, 0x684c87814);
    assert NthPrime(59) == 281 && K(59) == 0x8cc70208 && IsCubeRootFraction(281, 0x8cc70208, 0x68cc70208);
    assert NthPrime(60) == 283 && K(60) == 0x90befffa && IsCubeRootFraction(283, 0x90befffa, 0x690befffa);
    assert NthPrime(61) == 293 && K(61) == 0xa4506ceb && IsCubeRootFraction(293, 0xa4506ceb, 0x6a4506ceb);
    assert NthPrime(62) == 307 && K(62) == 0xbef9a3f7 && IsCubeRootFraction(307, 0xbef9a3f7, 0x6bef9a3f7);
    assert NthPrime(63) == 311 && K(63) == 0xc67178f2 && IsCubeRootFraction(311, 0xc67178f2, 0x6c67178f2);
  }

  lemma RoundConstantsAreCubeRoots()
    ensures forall i :: 0 <= i < 64 ==> RoundConstantOk(i)
  {
    CubeRoots0();
    CubeRoots8();
    CubeRoots16();
    CubeRoots24();
    CubeRoots32();
    CubeRoots40();
    CubeRoots48();
    CubeRoots56();
  }
}
