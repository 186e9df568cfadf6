/** Bytes, C strings and the few memory primitives of the C library that the client is built on. */
module Bytes {

  type byte = x: int | 0 <= x < 256

  /** A C string without its terminating NUL. */
  type cstring = seq<byte>

  datatype Option<T> = None | Some(value: T)

  const TWO32: nat := 0x1_0000_0000
  /** The first value that an int cannot hold. */
  const INT_LIMIT: nat := 0x8000_0000

  const TWO64: nat := 0x1_0000_0000_0000_0000

  function Min(a: int, b: int): int {
    if a <= b then a else b
  }

  function Max(a: int, b: int): int {
    if a <= b then b else a
  }

  function Zeros(n: nat): (z: seq<byte>)
    ensures |z| == n && forall i :: 0 <= i < n ==> z[i] == 0
  {
    seq(n, _ => 0)
  }

  /** before with s written over it from position i on. */
  function Written<T>(before: seq<T>, i: nat, s: seq<T>): (after: seq<T>)
    requires i + |s| <= |before|
    ensures |after| == |before|
  {
    before[..i] + s + before[i + |s|..]
  }

  lemma WrittenTwice<T>(before: seq<T>, i: nat, s: seq<T>, t: seq<T>)
    requires i + |s| + |t| <= |before|
    ensures Written(Written(before, i, s), i + |s|, t) == Written(before, i, s + t)
  {}

  lemma WrittenOne<T>(before: seq<T>, i: nat, x: T)
    requires i < |before|
    ensures Written(before, i, [x]) == before[i := x]
  {}

  lemma WrittenNothing<T>(before: seq<T>, i: nat)
    requires i <= |before|
    ensures Written(before, i, []) == before
  {}

  function Pow256(k: nat): (p: nat)
    ensures p > 0
  {
    if k == 0 then 1 else 256 * Pow256(k - 1)
  }

  /** The k low-order bytes of v, most significant first. */
  function BigEndian(k: nat, v: nat): (s: seq<byte>)
    ensures |s| == k
  {
    if k == 0 then [] else BigEndian(k - 1, v / 256) + [v % 256]
  }

  /** The k low-order bytes of v, least significant first. */
  function LittleEndian(k: nat, v: nat): (s: seq<byte>)
    ensures |s| == k
  {
    if k == 0 then [] else [v % 256] + LittleEndian(k - 1, v / 256)
  }

  function LittleEndianValue(s: seq<byte>): nat {
    if s == [] then 0 else s[0] + 256 * LittleEndianValue(s[1..])
  }

  lemma {:induction false} BigEndianInjective(k: nat, x: nat, y: nat)
    requires BigEndian(k, x) == BigEndian(k, y)
    ensures x % Pow256(k) == y % Pow256(k)
  {
    if k > 0 {
      var a, b := BigEndian(k - 1, x / 256), BigEndian(k - 1, y / 256);
      assert a == (a + [x % 256])[..k - 1] == (b + [y % 256])[..k - 1] == b;
      assert x % 256 == (a + [x % 256])[k - 1] == (b + [y % 256])[k - 1] == y % 256;
      BigEndianInjective(k - 1, x / 256, y / 256);
      ModSplit(x, Pow256(k - 1));
      ModSplit(y, Pow256(k - 1));
    }
  }

  lemma ModSplit(x: nat, p: nat)
    requires p > 0
    ensures x % (256 * p) == 256 * ((x / 256) % p) + x % 256
  {
    var q, r := (x / 256) / p, (x / 256) % p;
    assert x / 256 == p * q + r;
    var low := 256 * r + x % 256;
    assert x == (256 * p) * q + low by {
      assert x == 256 * (p * q + r) + x % 256;
    }
    assert 256 * r <= 256 * (p - 1);
    DivModUnique(x, 256 * p, q, low);
  }

  lemma DivModUnique(x: nat, d: nat, q: nat, r: nat)
    requires r < d && x == d * q + r
    ensures x % d == r
  {
    MulDiff(d, q, x / d);
    MulDiff(d, x / d, q);
  }

  lemma Distribute(d: nat, a: nat, b: nat)
    ensures d * (a + b) == d * a + d * b
  {}

  lemma ModAdd(x: nat, n: nat, d: nat)
    requires d > 0
    ensures (x + n) % d == (x % d + n) % d
  {
    var z := x % d + n;
    var a, b := x / d, z / d;
    assert x == d * a + x % d && z == d * b + z % d;
    Distribute(d, a, b);
    DivModUnique(x + n, d, a + b, z % d);
  }

  lemma MulDiff(d: nat, a: nat, b: nat)
    ensures a < b ==> d * a + d <= d * b
  {
    if a < b {
      assert d * (b - a) == d * (b - a - 1) + d;
      assert d * b == d * a + d * (b - a);
    }
  }

  lemma {:induction false} LittleEndianRoundTrip(k: nat, v: nat)
    requires v < Pow256(k)
    ensures LittleEndianValue(LittleEndian(k, v)) == v
  {
    if k > 0 {
      LittleEndianRoundTrip(k - 1, v / 256);
      assert LittleEndian(k, v)[1..] == LittleEndian(k - 1, v / 256);
    }
  }

  lemma {:induction false} LittleEndianValueBound(s: seq<byte>)
    ensures LittleEndianValue(s) < Pow256(|s|)
  {
    if s != [] {
      LittleEndianValueBound(s[1..]);
    }
  }

  /** Only the value modulo 256^k matters. */
  lemma {:induction false} LittleEndianMod(k: nat, x: nat, y: nat)
    requires x % Pow256(k) == y % Pow256(k)
    ensures LittleEndian(k, x) == LittleEndian(k, y)
  {
    if k > 0 {
      ModSplit(x, Pow256(k - 1));
      ModSplit(y, Pow256(k - 1));
      LittleEndianMod(k - 1, x / 256, y / 256);
    }
  }

  /** What strcmp and strncmp see of a buffer: the bytes before the first NUL. */
  function CStr(buffer: seq<byte>): (s: cstring)
    ensures |s| <= |buffer| && s == buffer[..|s|]
    ensures 0 !in s
    ensures |s| < |buffer| ==> buffer[|s|] == 0
  {
    if buffer == [] || buffer[0] == 0 then [] else [buffer[0]] + CStr(buffer[1..])
  }

  lemma CStrIdentity(s: seq<byte>)
    requires 0 !in s
    ensures CStr(s) == s
  {}

  /** memcpy(dst + at, src, |src|) */
  method MemCpy(dst: array<byte>, at: nat, src: seq<byte>)
    requires at + |src| <= dst.Length
    modifies dst
    ensures dst[..] == old(dst[..at]) + src + old(dst[at + |src|..])
  {
    ghost var before := dst[..];
    for i := 0 to |src|
      invariant forall j :: 0 <= j < dst.Length ==> dst[j] == if at <= j < at + i then src[j - at] else before[j]
    {
      dst[at + i] := src[i];
    }
    assert dst[..] == before[..at] + src + before[at + |src|..];
  }

  /** memset(dst + at, value, count) */
  method MemSet(dst: array<byte>, at: nat, value: byte, count: nat)
    requires at + count <= dst.Length
    modifies dst
    ensures dst[..] == old(dst[..at]) + seq(count, _ => value) + old(dst[at + count..])
  {
    MemCpy(dst, at, seq(count, _ => value));
  }
}
