/** The 64-character hash strings that the packages store: digest words, digest bytes, lowercase hex. */
module HashString {
  import opened Bytes
  import opened Sha256Spec

  const LUT: string := "0123456789abcdef"

  function HexDigit(v: nat): (c: byte)
    requires v < 16
  {
    if v < 10 then 48 + v else 87 + v
  }

  lemma LutIsHexDigit(v: nat)
    requires v < 16
    ensures LUT[v] as int == HexDigit(v)
  {}

  predicate IsHexDigit(c: byte) {
    48 <= c <= 57 || 97 <= c <= 102
  }

  function HexValue(c: byte): (v: nat)
    requires IsHexDigit(c)
    ensures v < 16
  {
    if c <= 57 then c - 48 else c - 87
  }

  /** Byte k of a word, most significant first. */
  function ByteOf(w: Word, k: nat): byte
    requires k < 4
  {
    if k == 0 then ((w >> 24) & 255) as int
    else if k == 1 then ((w >> 16) & 255) as int
    else if k == 2 then ((w >> 8) & 255) as int
    else (w & 255) as int
  }

  function WordsToBytes(h: seq<Word>): (s: seq<byte>)
    ensures |s| == 4 * |h|
  {
    seq(4 * |h|, j requires 0 <= j < 4 * |h| => ByteOf(h[j / 4], j % 4))
  }

  lemma BytesOfWord(h: seq<Word>, i: nat)
    requires i < |h|
    ensures var s := WordsToBytes(h);
            && s[4 * i] == ByteOf(h[i], 0) && s[4 * i + 1] == ByteOf(h[i], 1)
            && s[4 * i + 2] == ByteOf(h[i], 2) && s[4 * i + 3] == ByteOf(h[i], 3)
  {
    hide ByteOf;
  }

  function BytesToWords(s: seq<byte>): seq<Word>
    requires |s| % 4 == 0
  {
    seq(|s| / 4, i requires 0 <= i < |s| / 4 => WordAt(s, 4 * i))
  }

  function Hex(s: seq<byte>): (t: cstring)
    ensures |t| == 2 * |s|
  {
    seq(2 * |s|, j requires 0 <= j < 2 * |s| => HexDigit(if j % 2 == 0 then s[j / 2] / 16 else s[j / 2] % 16))
  }

  function UnHex(t: cstring): (s: seq<byte>)
    requires |t| % 2 == 0 && forall c :: c in t ==> IsHexDigit(c)
    ensures |s| == |t| / 2
  {
    seq(|t| / 2, i requires 0 <= i < |t| / 2 => 16 * HexValue(t[2 * i]) + HexValue(t[2 * i + 1]))
  }

  /** What sha256_output_hex writes for the chaining value h. */
  function DigestString(h: seq<Word>): (t: cstring)
    ensures |t| == 8 * |h|
  {
    Hex(WordsToBytes(h))
  }

  /** The hash string of a message. */
  function HashOf(m: seq<byte>): (t: cstring)
    ensures |t| == 64
  {
    DigestString(Digest(m))
  }

  lemma HexDigitsOnly(s: seq<byte>)
    ensures forall c :: c in Hex(s) ==> IsHexDigit(c)
    ensures 0 !in Hex(s)
  {}

  lemma HashOfIsHex(m: seq<byte>)
    ensures 0 !in HashOf(m)
  {
    HexDigitsOnly(WordsToBytes(Digest(m)));
  }

  lemma UnHexHex(s: seq<byte>)
    ensures forall c :: c in Hex(s) ==> IsHexDigit(c)
    ensures UnHex(Hex(s)) == s
  {
    var t := Hex(s);
    forall i | 0 <= i < |s|
      ensures UnHex(t)[i] == s[i]
    {
      assert t[2 * i] == HexDigit(s[i] / 16);
      assert t[2 * i + 1] == HexDigit(s[i] % 16);
    }
  }

  lemma SmallWord(x: Word)
    requires x <= 255
    ensures (x as int) < 256 && (x as int) as Word == x
  {}

  lemma JoinBytes(w: Word)
    ensures (((w >> 24) & 255) << 24) | (((w >> 16) & 255) << 16) | (((w >> 8) & 255) << 8) | (w & 255) == w
  {}

  lemma JoinSplit(w: Word)
    ensures Join(ByteOf(w, 0), ByteOf(w, 1), ByteOf(w, 2), ByteOf(w, 3)) == w
  {
    SmallWord((w >> 24) & 255);
    SmallWord((w >> 16) & 255);
    SmallWord((w >> 8) & 255);
    SmallWord(w & 255);
    JoinBytes(w);
  }

  lemma WordRoundTrip(w: Word, s: seq<byte>, p: nat)
    requires p + 4 <= |s| && forall k :: 0 <= k < 4 ==> s[p + k] == ByteOf(w, k)
    ensures WordAt(s, p) == w
  {
    hide Join, ByteOf;
    assert s[p] == s[p + 0] == ByteOf(w, 0);
    assert s[p + 1] == ByteOf(w, 1) && s[p + 2] == ByteOf(w, 2) && s[p + 3] == ByteOf(w, 3);
    JoinSplit(w);
  }

  lemma BytesToWordsToBytes(h: seq<Word>)
    ensures BytesToWords(WordsToBytes(h)) == h
  {
    hide WordAt, ByteOf;
    var s := WordsToBytes(h);
    forall i | 0 <= i < |h|
      ensures BytesToWords(s)[i] == h[i]
    {
      WordRoundTrip(h[i], s, 4 * i);
    }
  }

  /** Decoding a hash string gives back the words, so comparing hash strings compares digests. */
  lemma DigestStringRoundTrip(h: seq<Word>)
    ensures forall c :: c in DigestString(h) ==> IsHexDigit(c)
    ensures BytesToWords(UnHex(DigestString(h))) == h
  {
    UnHexHex(WordsToBytes(h));
    BytesToWordsToBytes(h);
  }

  lemma HashStringsCompareDigests(m1: seq<byte>, m2: seq<byte>)
    ensures HashOf(m1) == HashOf(m2) <==> Digest(m1) == Digest(m2)
  {
    hide Digest, DigestString;
    DigestStringRoundTrip(Digest(m1));
    DigestStringRoundTrip(Digest(m2));
  }
}
