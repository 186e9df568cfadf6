/** What the padding and the carry buffer guarantee. */
module Sha256Theorems {
  import opened Bytes
  import opened Sha256Spec

  /** ZeroCount is the smallest solution that section 5.1.1 asks for. */
  lemma ZeroCountIsLeast(len: nat, k: nat)
    requires (len + 1 + k) % 64 == 56
    ensures ZeroCount(len) <= k
  {
    var x, y := len + 1 + ZeroCount(len), len + 1 + k;
    assert ZeroCount(len) - k == x - y == 64 * (x / 64 - y / 64);
  }

  /** The padding identifies the message, also beyond 2^61 bytes where the length field has wrapped. */
  lemma PadInjective(a: seq<byte>, b: seq<byte>)
    requires Pad(a) == Pad(b)
    ensures a == b
  {
    PadParts(a);
    PadParts(b);
    hide Pad, BigEndian, ZeroCount;
    BigEndianInjective(8, (8 * |a|) % TWO64, (8 * |b|) % TWO64);
    Pow256Of8();
    SmallMod((8 * |a|) % TWO64);
    SmallMod((8 * |b|) % TWO64);
    SameLength(|a|, |b|);
  }

  lemma SmallMod(x: nat)
    requires x < TWO64
    ensures x % TWO64 == x
  {}

  lemma PadParts(m: seq<byte>)
    ensures var p := Pad(m);
            |p| == |m| + 9 + ZeroCount(|m|) && p[..|m|] == m && p[|p| - 8..] == BigEndian(8, (8 * |m|) % TWO64)
  {
    hide BigEndian, ZeroCount;
  }

  lemma Pow256Of8()
    ensures Pow256(8) == TWO64
  {
    assert Pow256(4) == TWO32;
  }

  lemma SameLength(a: nat, b: nat)
    requires a + ZeroCount(a) == b + ZeroCount(b)
    requires (8 * a) % TWO64 == (8 * b) % TWO64
    ensures a == b
  {
    var qa, qb := 8 * a / TWO64, 8 * b / TWO64;
    assert 8 * a - 8 * b == TWO64 * (qa - qb);
    assert -64 < a - b < 64;
  }

  /** The value of chunk_size after an update of size bytes, as lines 141-162 compute it on 32-bit integers. */
  function NextCarry(carry: nat, size: nat): nat
    requires carry < 64 && size < TWO32
  {
    if (size + carry) % TWO32 >= 64 then (size + carry - 64) % 64 else carry + size % 64
  }

  /** The carry stays below a block, as every later call relies on, exactly when the 32-bit sum does not wrap. */
  lemma CarryStaysBelowBlock(carry: nat, size: nat)
    requires carry < 64 && size < TWO32
    ensures NextCarry(carry, size) < 64 <==> size + carry < TWO32
    ensures NextCarry(carry, size) == (carry + size) % 64 <==> size + carry < TWO32
  {
    var sum := size + carry;
    if sum >= TWO32 {
      DivModUnique(sum, TWO32, 1, sum - TWO32);
      DivModUnique(size, 64, TWO32 / 64 - 1, size - (TWO32 - 64));
    } else {
      DivModUnique(sum, TWO32, 0, sum);
      if sum >= 64 {
        DivModUnique(sum, 64, (sum - 64) / 64 + 1, (sum - 64) % 64);
      }
    }
  }

  lemma CarryOverflowExample()
    ensures NextCarry(1, TWO32 - 1) == 64
  {}
}
