/** SHA-256 as FIPS 180-4 defines it: constants (4.2.2, 5.3.3), functions (4.1.2), padding (5.1.1), hash (6.2). */
module Sha256Spec {
  import opened Bytes

  type Word = bv32

  /** The round constants of section 4.2.2. */
  function K(t: nat): Word
    requires t < 64
  {
    if t < 8 then [0x428a2f98, 0x71374491, 0xb5c0fbcf, 0xe9b5dba5, 0x3956c25b, 0x59f111f1, 0x923f82a4, 0xab1c5ed5][t] else
    if t < 16 then [0xd807aa98, 0x12835b01, 0x243185be, 0x550c7dc3, 0x72be5d74, 0x80deb1fe, 0x9bdc06a7, 0xc19bf174][t - 8] else
    if t < 24 then [0xe49b69c1, 0xefbe4786, 0x0fc19dc6, 0x240ca1cc, 0x2de92c6f, 0x4a7484aa, 0x5cb0a9dc, 0x76f988da][t - 16] else
    if t < 32 then [0x983e5152, 0xa831c66d, 0xb00327c8, 0xbf597fc7, 0xc6e00bf3, 0xd5a79147, 0x06ca6351, 0x14292967][t - 24] else
    if t < 40 then [0x27b70a85, 0x2e1b2138, 0x4d2c6dfc, 0x53380d13, 0x650a7354, 0x766a0abb, 0x81c2c92e, 0x92722c85][t - 32] else
    if t < 48 then [0xa2bfe8a1, 0xa81a664b, 0xc24b8b70, 0xc76c51a3, 0xd192e819, 0xd6990624, 0xf40e3585, 0x106aa070][t - 40] else
    if t < 56 then [0x19a4c116, 0x1e376c08, 0x2748774c, 0x34b0bcb5, 0x391c0cb3, 0x4ed8aa4a, 0x5b9cca4f, 0x682e6ff3][t - 48] else
    [0x748f82ee, 0x78a5636f, 0x84c87814, 0x8cc70208, 0x90befffa, 0xa4506ceb, 0xbef9a3f7, 0xc67178f2][t - 56]
  }

  const H0: seq<Word> := [
    0x6a09e667, 0xbb67ae85, 0x3c6ef372, 0xa54ff53a, 0x510e527f, 0x9b05688c, 0x1f83d9ab, 0x5be0cd19
  ]

  // Addition modulo 2^32 (section 3.2), by the number of terms

  function Add(x: Word, y: Word): Word { x + y }

  function Add4(x: Word, y: Word, z: Word, u: Word): Word { x + y + z + u }

  function Add5(x: Word, y: Word, z: Word, u: Word, v: Word): Word { x + y + z + u + v }

  // Section 4.1.2

  function Ch(x: Word, y: Word, z: Word): Word { (x & y) ^ (!x & z) }

  function Maj(x: Word, y: Word, z: Word): Word { (x & y) ^ (x & z) ^ (y & z) }

  function BigSigma0(x: Word): Word { x.RotateRight(2) ^ x.RotateRight(13) ^ x.RotateRight(22) }

  function BigSigma1(x: Word): Word { x.RotateRight(6) ^ x.RotateRight(11) ^ x.RotateRight(25) }

  function SmallSigma0(x: Word): Word { x.RotateRight(7) ^ x.RotateRight(18) ^ (x >> 3) }

  function SmallSigma1(x: Word): Word { x.RotateRight(17) ^ x.RotateRight(19) ^ (x >> 10) }

  // Section 6.2.2

  datatype Vars = Vars(a: Word, b: Word, c: Word, d: Word, e: Word, f: Word, g: Word, h: Word)

  function Join(b0: byte, b1: byte, b2: byte, b3: byte): Word {
    ((b0 as Word) << 24) | ((b1 as Word) << 16) | ((b2 as Word) << 8) | (b3 as Word)
  }

  /** The big-endian word at byte position p. */
  function WordAt(block: seq<byte>, p: nat): Word
    requires p + 4 <= |block|
  {
    Join(block[p], block[p + 1], block[p + 2], block[p + 3])
  }

  /** The message schedule W_t. */
  function Schedule(block: seq<byte>, t: nat): Word
    requires |block| == 64 && t < 64
  {
    if t < 16 then WordAt(block, 4 * t)
    else Add4(SmallSigma1(Schedule(block, t - 2)), Schedule(block, t - 7),
              SmallSigma0(Schedule(block, t - 15)), Schedule(block, t - 16))
  }

  function Round(v: Vars, k: Word, w: Word): Vars {
    var t1 := Add5(v.h, BigSigma1(v.e), Ch(v.e, v.f, v.g), k, w);
    var t2 := Add(BigSigma0(v.a), Maj(v.a, v.b, v.c));
    Vars(Add(t1, t2), v.a, v.b, v.c, Add(v.d, t1), v.e, v.f, v.g)
  }

  /** The working variables after the first t rounds. */
  function Rounds(v: Vars, block: seq<byte>, t: nat): Vars
    requires |block| == 64 && t <= 64
  {
    if t == 0 then v else Round(Rounds(v, block, t - 1), K(t - 1), Schedule(block, t - 1))
  }

  function AsVars(h: seq<Word>): Vars
    requires |h| == 8
  {
    Vars(h[0], h[1], h[2], h[3], h[4], h[5], h[6], h[7])
  }

  function AddVars(h: seq<Word>, v: Vars): (r: seq<Word>)
    requires |h| == 8
    ensures |r| == 8
  {
    [Add(h[0], v.a), Add(h[1], v.b), Add(h[2], v.c), Add(h[3], v.d),
     Add(h[4], v.e), Add(h[5], v.f), Add(h[6], v.g), Add(h[7], v.h)]
  }

  function Compress(h: seq<Word>, block: seq<byte>): (r: seq<Word>)
    requires |h| == 8 && |block| == 64
    ensures |r| == 8
  {
    AddVars(h, Rounds(AsVars(h), block, 64))
  }

  /** The chaining value after all 64-byte blocks of s. */
  function Fold(s: seq<byte>): (h: seq<Word>)
    requires |s| % 64 == 0
    ensures |h| == 8
  {
    if s == [] then H0 else Compress(Fold(s[..|s| - 64]), s[|s| - 64..])
  }

  // Section 5.1.1, in bytes

  /** The least number of zero bytes that brings 1 + len + zeros to 56 modulo 64. */
  function ZeroCount(len: nat): (k: nat)
    ensures k < 64 && (len + 1 + k) % 64 == 56
  {
    assert len == 64 * (len / 64) + len % 64;
    if len % 64 <= 55 then 55 - len % 64 else 119 - len % 64
  }

  function Pad(m: seq<byte>): (p: seq<byte>)
    ensures |p| == |m| + 9 + ZeroCount(|m|) && |p| % 64 == 0
  {
    var z := ZeroCount(|m|);
    DivModUnique(|m| + 9 + z, 64, (|m| + 1 + z) / 64 + 1, 0);
    m + [0x80] + Zeros(z) + BigEndian(8, (8 * |m|) % TWO64)
  }

  function Digest(m: seq<byte>): (h: seq<Word>)
    ensures |h| == 8
  {
    Fold(Pad(m))
  }

  lemma FoldAppend(s: seq<byte>, block: seq<byte>)
    requires |s| % 64 == 0 && |block| == 64
    ensures Fold(s + block) == Compress(Fold(s), block)
  {
    var t := s + block;
    assert t[..|t| - 64] == s && t[|t| - 64..] == block;
  }
}
