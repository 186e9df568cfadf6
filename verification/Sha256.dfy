/** The incremental hasher of src/crypt/sha256.c, proved against FIPS 180-4. */
module Sha256 {
  import opened Bytes
  import opened Sha256Spec
  import opened Sha256Theorems
  import opened HashString

  // The expressions built from the rotate_r macro, expanded

  function ScheduleS0(x: Word): Word { ((x >> 7) | (x << 25)) ^ ((x >> 18) | (x << 14)) ^ (x >> 3) }

  function ScheduleS1(x: Word): Word { ((x >> 17) | (x << 15)) ^ ((x >> 19) | (x << 13)) ^ (x >> 10) }

  function RoundS0(x: Word): Word { ((x >> 2) | (x << 30)) ^ ((x >> 13) | (x << 19)) ^ ((x >> 22) | (x << 10)) }

  function RoundS1(x: Word): Word { ((x >> 6) | (x << 26)) ^ ((x >> 11) | (x << 21)) ^ ((x >> 25) | (x << 7)) }

  /** The shift-and-or rotations compute the four sigma functions of section 4.1.2. */
  lemma RotationsAreSigmas(x: Word)
    ensures ScheduleS0(x) == SmallSigma0(x) && ScheduleS1(x) == SmallSigma1(x)
    ensures RoundS0(x) == BigSigma0(x) && RoundS1(x) == BigSigma1(x)
  {}

  lemma Add4Reversed(a: Word, b: Word, c: Word, d: Word)
    ensures Add4(a, b, c, d) == Add4(d, c, b, a)
  {}

  function VarsIn(tv: array<Word>): Vars
    requires tv.Length == 8
    reads tv
  {
    Vars(tv[0], tv[1], tv[2], tv[3], tv[4], tv[5], tv[6], tv[7])
  }

  /** The two loops that fill w (lines 71-92). */
  method ExpandSchedule(chunk: seq<byte>) returns (w: array<Word>)
    requires |chunk| == 64
    ensures fresh(w) && w.Length == 64
    ensures forall t :: 0 <= t < 64 ==> w[t] == Schedule(chunk, t)
  {
    hide Add4, ScheduleS0, ScheduleS1, SmallSigma0, SmallSigma1, Join;
    w := new Word[64];
    var p := 0;
    for i := 0 to 16
      invariant p == 4 * i
      invariant forall j :: 0 <= j < i ==> w[j] == Schedule(chunk, j)
    {
      w[i] := WordAt(chunk, p);
      p := p + 4;
    }
    for i := 16 to 64
      invariant forall j :: 0 <= j < i ==> w[j] == Schedule(chunk, j)
    {
      var s0 := ScheduleS0(w[i - 15]);
      var s1 := ScheduleS1(w[i - 2]);
      RotationsAreSigmas(w[i - 15]);
      RotationsAreSigmas(w[i - 2]);
      Add4Reversed(w[i - 16], s0, w[i - 7], s1);
      w[i] := Add4(w[i - 16], s0, w[i - 7], s1);
    }
  }

  /** The body of the round loop (lines 99-125): an in-place shuffle of the eight words. */
  method RoundInPlace(tv: array<Word>, k: Word, w: Word)
    requires tv.Length == 8
    modifies tv
    ensures VarsIn(tv) == Round(old(VarsIn(tv)), k, w)
  {
    hide Add, Add5, RoundS0, RoundS1, BigSigma0, BigSigma1, Ch, Maj;
    RotationsAreSigmas(tv[4]);
    RotationsAreSigmas(tv[0]);
    var temp1 := Add5(tv[7], RoundS1(tv[4]), Ch(tv[4], tv[5], tv[6]), k, w);
    var temp2 := Add(RoundS0(tv[0]), Maj(tv[0], tv[1], tv[2]));
    tv[7] := tv[6];
    tv[6] := tv[5];
    tv[5] := tv[4];
    tv[4] := Add(tv[3], temp1);
    tv[3] := tv[2];
    tv[2] := tv[1];
    tv[1] := tv[0];
    tv[0] := Add(temp1, temp2);
  }

  /** The round loop (line 98). */
  method RunRounds(tv: array<Word>, w: array<Word>, ghost chunk: seq<byte>)
    requires tv.Length == 8 && w.Length == 64 && |chunk| == 64 && tv != w
    requires forall t :: 0 <= t < 64 ==> w[t] == Schedule(chunk, t)
    modifies tv
    ensures VarsIn(tv) == Rounds(old(VarsIn(tv)), chunk, 64)
  {
    hide Round, Schedule, K;
    for i := 0 to 64
      invariant VarsIn(tv) == Rounds(old(VarsIn(tv)), chunk, i)
    {
      RoundInPlace(tv, K(i), w[i]);
    }
  }

  /** The last loop of sha256_calculate_chunk (line 128). */
  method AddInto(hcomps: array<Word>, tv: array<Word>)
    requires hcomps.Length == 8 && tv.Length == 8 && hcomps != tv
    modifies hcomps
    ensures hcomps[..] == AddVars(old(hcomps[..]), VarsIn(tv))
  {
    hide Add;
    for i := 0 to 8
      invariant forall j :: 0 <= j < i ==> hcomps[j] == Add(old(hcomps[j]), tv[j])
      invariant forall j :: i <= j < 8 ==> hcomps[j] == old(hcomps[j])
    {
      hcomps[i] := Add(hcomps[i], tv[i]);
    }
  }

  class Hasher {
    var dataSize: nat                 // uint64_t
    const hcomps: array<Word>
    const lastChunk: array<byte>
    var chunkSize: nat                // uint8_t
    ghost var blocks: seq<byte>       // the bytes compressed so far

    /** The struct as allocated: two arrays of the declared sizes. */
    ghost predicate Shape() {
      hcomps.Length == 8 && lastChunk.Length == 64
    }

    ghost predicate Chained()
      reads this, hcomps
    {
      Shape() && |blocks| % 64 == 0 && hcomps[..] == Fold(blocks)
    }

    ghost predicate Valid()
      reads this, hcomps, lastChunk
    {
      && Chained()
      && chunkSize < 64
      && dataSize == (|blocks| + chunkSize) % TWO64
    }

    /** Everything passed to Update since Init. */
    ghost function Absorbed(): seq<byte>
      requires Valid()
      reads this, hcomps, lastChunk
    {
      blocks + lastChunk[..chunkSize]
    }

    /** struct sha256_compute_data x = {0} */
    constructor ()
      ensures Shape() && fresh(hcomps) && fresh(lastChunk)
    {
      dataSize, chunkSize, blocks := 0, 0, [];
      hcomps := new Word[8](_ => 0);
      lastChunk := new byte[64](_ => 0);
    }

    method Init()
      requires Shape()
      modifies this, hcomps
      ensures Valid() && Absorbed() == []
    {
      hcomps[0] := 0x6a09e667;
      hcomps[1] := 0xbb67ae85;
      hcomps[2] := 0x3c6ef372;
      hcomps[3] := 0xa54ff53a;
      hcomps[4] := 0x510e527f;
      hcomps[5] := 0x9b05688c;
      hcomps[6] := 0x1f83d9ab;
      hcomps[7] := 0x5be0cd19;
      dataSize := 0;
      chunkSize := 0;
      blocks := [];
      assert hcomps[..] == H0;
    }

    method CalculateChunk(chunk: seq<byte>)
      requires Shape() && |chunk| == 64
      modifies hcomps
      ensures hcomps[..] == Compress(old(hcomps[..]), chunk)
    {
      hide Add, Rounds, AddVars;
      var w := ExpandSchedule(chunk);
      var tv := new Word[8];
      for i := 0 to 8
        modifies tv
        invariant forall j :: 0 <= j < i ==> tv[j] == hcomps[j]
      {
        tv[i] := hcomps[i];
      }
      assert VarsIn(tv) == AsVars(hcomps[..]) && hcomps[..] == old(hcomps[..]);
      RunRounds(tv, w, chunk);
      assert hcomps[..] == old(hcomps[..]);
      AddInto(hcomps, tv);
    }

    /** CalculateChunk together with the record of what has been compressed. */
    method Absorb(chunk: seq<byte>)
      requires Chained() && |chunk| == 64
      modifies this`blocks, hcomps
      ensures Chained() && blocks == old(blocks) + chunk
    {
      hide Compress;
      FoldAppend(blocks, chunk);
      CalculateChunk(chunk);
      blocks := blocks + chunk;
    }

    /** The merge of the carry with the head of the new input (lines 142-152). */
    method FlushCarry(head: seq<byte>)
      requires Chained() && chunkSize < 64 && |head| == 64 - chunkSize
      modifies this`blocks, this`chunkSize, hcomps
      ensures Chained() && chunkSize == 0 && blocks == old(blocks + lastChunk[..chunkSize]) + head
    {
      hide Fold;
      var tmpChunk := new byte[64];
      MemCpy(tmpChunk, 0, lastChunk[..chunkSize]);
      MemCpy(tmpChunk, chunkSize, head);
      chunkSize := 0;
      Absorb(tmpChunk[..]);
    }

    /** The bulk loop (lines 155-159): compresses the whole blocks of the input, returns how far it got. */
    method AbsorbBlocks(bytes: seq<byte>) returns (ptr: nat)
      requires Chained()
      modifies this`blocks, hcomps
      ensures Chained() && ptr == |bytes| - |bytes| % 64 && blocks == old(blocks) + bytes[..ptr]
    {
      hide Fold;
      ptr := 0;
      var size := |bytes|;
      while size >= 64
        invariant 0 <= ptr <= |bytes| && size == |bytes| - ptr && ptr % 64 == 0
        invariant Chained() && blocks == old(blocks) + bytes[..ptr]
      {
        assert bytes[..ptr + 64] == bytes[..ptr] + bytes[ptr..ptr + 64];
        Absorb(bytes[ptr..ptr + 64]);
        ptr := ptr + 64;
        size := size - 64;
      }
    }

    /** The first branch of sha256_update (lines 141-153): completes the carried block, if the input suffices. */
    method MergeCarry(bytes: seq<byte>) returns (rest: seq<byte>)
      requires Chained() && chunkSize < 64 && |bytes| + chunkSize < TWO32
      modifies this`blocks, this`chunkSize, hcomps
      ensures Chained() && chunkSize < 64
      ensures blocks + lastChunk[..chunkSize] + rest == old(blocks + lastChunk[..chunkSize]) + bytes
      ensures chunkSize == 0 || (chunkSize == old(chunkSize) && chunkSize + |rest| < 64)
    {
      hide Fold;
      rest := bytes;
      if (|bytes| + chunkSize) % TWO32 >= 64 {
        var missing := 64 - chunkSize;
        FlushCarry(bytes[..missing]);
        rest := bytes[missing..];
        assert bytes == bytes[..missing] + rest;
      }
    }

    method Update(bytes: seq<byte>)
      requires Valid()
      requires |bytes| + chunkSize < TWO32
      modifies this, hcomps, lastChunk
      ensures Valid() && Absorbed() == old(Absorbed()) + bytes
      ensures chunkSize == NextCarry(old(chunkSize), |bytes|)
    {
      hide Fold, NextCarry;
      ghost var length, before := |blocks|, Absorbed();
      SizeSum(|before|, |bytes|);
      dataSize := (dataSize + |bytes|) % TWO64;
      var rest := MergeCarry(bytes);
      ghost var streamed, tail := blocks, lastChunk[..chunkSize];
      var ptr := AbsorbBlocks(rest);
      Regroup(streamed, tail, rest, ptr);
      KeepTail(rest[ptr..]);
      CarryOfSum(length, |before| - length, |bytes|, |blocks|, chunkSize);
    }

    /** The bytes left over go behind the carry (lines 161-162). */
    method KeepTail(rest: seq<byte>)
      requires Shape() && chunkSize + |rest| < 64
      modifies lastChunk, this`chunkSize
      ensures chunkSize == old(chunkSize) + |rest|
      ensures lastChunk[..chunkSize] == old(lastChunk[..chunkSize]) + rest
    {
      MemCpy(lastChunk, chunkSize, rest);
      chunkSize := chunkSize + |rest|;
    }

    /** The padding up to the length field (lines 172-183), with one more block if that does not fit behind the tail. */
    method PadTail()
      requires Chained() && chunkSize < 64
      modifies this`blocks, this`chunkSize, hcomps, lastChunk
      ensures Chained()
      ensures var tail := old(lastChunk[..chunkSize]);
              if |tail| <= 55 then
                blocks == old(blocks) && lastChunk[..56] == tail + [0x80] + Zeros(55 - |tail|)
              else
                blocks == old(blocks) + (tail + [0x80] + Zeros(63 - |tail|)) && lastChunk[..56] == Zeros(56)
    {
      hide Fold, Compress, Zeros;
      ghost var tail := lastChunk[..chunkSize];
      lastChunk[chunkSize] := 0x80;
      chunkSize := chunkSize + 1;
      MemSet(lastChunk, chunkSize, 0, 64 - chunkSize);
      assert lastChunk[..] == tail + [0x80] + Zeros(63 - |tail|);
      if chunkSize > 56 {
        Absorb(lastChunk[..]);
        MemSet(lastChunk, 0, 0, 64);
      }
      assert lastChunk[..56] == if |tail| <= 55 then tail + [0x80] + Zeros(55 - |tail|) else Zeros(56);
    }

    /** Compresses exactly the padding of section 5.1.1. */
    method Finalize()
      requires Valid()
      modifies this, hcomps, lastChunk
      ensures Chained() && blocks == Pad(old(Absorbed()))
      ensures hcomps[..] == Digest(old(Absorbed()))
    {
      hide Fold, Pad, BigEndian, Compress, ZeroCount, Zeros;
      ghost var start, tail := blocks, lastChunk[..chunkSize];
      PadSplit(start, tail);
      BitLength(|start| + |tail|);
      PadTail();
      StoreLength((dataSize * 8) % TWO64);
      Absorb(lastChunk[..]);
    }

    /** The big-endian store of the bit length (lines 188-191). */
    method StoreLength(length: nat)
      requires Shape()
      modifies lastChunk
      ensures lastChunk[..] == old(lastChunk[..56]) + BigEndian(8, length)
    {
      var size := length;
      var i := 8;
      while i > 0
        invariant 0 <= i <= 8
        invariant lastChunk[..56] == old(lastChunk[..56])
        invariant BigEndian(8, length) == BigEndian(i, size) + lastChunk[56 + i..]
      {
        ghost var before := lastChunk[56 + i..];
        lastChunk[55 + i] := size % 256;
        size := size / 256;
        i := i - 1;
        assert lastChunk[56 + i..] == lastChunk[56 + i..57 + i] + before;
      }
      assert lastChunk[..] == lastChunk[..56] + lastChunk[56..];
    }

    method Output(hash: array<byte>)
      requires Shape() && hash.Length >= 32
      modifies hash
      ensures hash[..32] == WordsToBytes(hcomps[..]) && hash[32..] == old(hash[32..])
    {
      hide ByteOf, WordsToBytes;
      ghost var s := WordsToBytes(hcomps[..]);
      for i := 0 to 8
        modifies hash
        invariant forall j :: 0 <= j < 4 * i ==> hash[j] == s[j]
        invariant forall j :: 32 <= j < hash.Length ==> hash[j] == old(hash[j])
      {
        BytesOfWord(hcomps[..], i);
        hash[i * 4] := ByteOf(hcomps[i], 0);
        hash[i * 4 + 1] := ByteOf(hcomps[i], 1);
        hash[i * 4 + 2] := ByteOf(hcomps[i], 2);
        hash[i * 4 + 3] := ByteOf(hcomps[i], 3);
      }
    }

    method OutputHex(hexbuf: array<byte>)
      requires Shape() && hexbuf.Length >= 64
      modifies hexbuf
      ensures hexbuf[..64] == DigestString(hcomps[..]) && hexbuf[64..] == old(hexbuf[64..])
    {
      var hash := new byte[32](_ => 0);
      Output(hash);
      assert hash[..] == hash[..32];
      BinToHex(hash[..], hexbuf);
    }
  }

  method BinToHex(data: seq<byte>, out: array<byte>)
    requires 2 * |data| <= out.Length
    modifies out
    ensures out[..2 * |data|] == Hex(data) && out[2 * |data|..] == old(out[2 * |data|..])
  {
    hide HexDigit;
    for i := 0 to |data|
      invariant out[..2 * i] == Hex(data)[..2 * i]
      invariant out[2 * |data|..] == old(out[2 * |data|..])
    {
      var c := data[i];
      LutIsHexDigit(c / 16);
      LutIsHexDigit(c % 16);
      out[i * 2] := LUT[c / 16] as int;
      out[i * 2 + 1] := LUT[c % 16] as int;
    }
  }

  function Concat(pieces: seq<seq<byte>>): seq<byte> {
    if pieces == [] then [] else Concat(pieces[..|pieces| - 1]) + pieces[|pieces| - 1]
  }

  /** Every piece fits in 32 bits together with the carry that it meets. */
  ghost predicate PiecesFit(pieces: seq<seq<byte>>) {
    forall i :: 0 <= i < |pieces| ==> |pieces[i]| + |Concat(pieces[..i])| % 64 < TWO32
  }

  /** init, one update per piece, finalize: the result depends only on the concatenation. */
  method HashPieces(pieces: seq<seq<byte>>) returns (hash: cstring)
    requires PiecesFit(pieces)
    ensures hash == HashOf(Concat(pieces))
  {
    hide Fold;
    var data := new Hasher();
    data.Init();
    for i := 0 to |pieces|
      invariant fresh(data) && fresh(data.hcomps) && fresh(data.lastChunk)
      invariant data.Valid() && data.Absorbed() == Concat(pieces[..i])
    {
      assert pieces[..i + 1][..i] == pieces[..i];
      CarryIsTail(|data.blocks|, data.chunkSize);
      data.Update(pieces[i]);
    }
    assert pieces[..|pieces|] == pieces;
    data.Finalize();
    var out := new byte[65](_ => 0);
    data.OutputHex(out);
    hash := out[..64];
  }

  lemma CarryIsTail(blocks: nat, carry: nat)
    requires blocks % 64 == 0 && carry < 64
    ensures (blocks + carry) % 64 == carry
  {}

  const SHA256_BFLEN: nat := 1024

  /** The checker program sha256chk.c: reads the file in 1024-byte buffers, the last one possibly short. */
  method HashFile(file: seq<byte>) returns (hash: cstring)
    ensures hash == HashOf(file)
  {
    hide Fold;
    var data := new Hasher();
    data.Init();
    var pos := 0;
    var nbytes := Min(SHA256_BFLEN, |file|);
    while nbytes == SHA256_BFLEN
      invariant fresh(data) && fresh(data.hcomps) && fresh(data.lastChunk)
      invariant 0 <= pos <= |file| && nbytes == Min(SHA256_BFLEN, |file| - pos)
      invariant data.Valid() && data.Absorbed() == file[..pos]
      decreases |file| - pos
    {
      data.Update(file[pos..pos + nbytes]);
      assert file[..pos] + file[pos..pos + nbytes] == file[..pos + nbytes];
      pos := pos + nbytes;
      nbytes := Min(SHA256_BFLEN, |file| - pos);
    }
    data.Update(file[pos..pos + nbytes]);
    assert file[..pos] + file[pos..pos + nbytes] == file;
    data.Finalize();
    var out := new byte[65](_ => 0);
    data.OutputHex(out);
    hash := out[..64];
  }

  /** Where the padding of blocks + tail falls: one more block if the tail has at most 55 bytes, else two. */
  lemma PadSplit(blocks: seq<byte>, tail: seq<byte>)
    requires |blocks| % 64 == 0 && |tail| < 64
    ensures Pad(blocks + tail) ==
            if |tail| <= 55 then
              blocks + (tail + [0x80] + Zeros(55 - |tail|) + LengthField(|blocks| + |tail|))
            else
              blocks + (tail + [0x80] + Zeros(63 - |tail|)) + (Zeros(56) + LengthField(|blocks| + |tail|))
  {
    assert (|blocks| + |tail|) % 64 == |tail|;
    if |tail| > 55 {
      assert Zeros(ZeroCount(|blocks| + |tail|)) == Zeros(63 - |tail|) + Zeros(56);
    }
  }

  function LengthField(len: nat): seq<byte> {
    BigEndian(8, (8 * len) % TWO64)
  }

  lemma Regroup(streamed: seq<byte>, tail: seq<byte>, rest: seq<byte>, ptr: nat)
    requires ptr <= |rest| && (tail == [] || ptr == 0)
    ensures streamed + tail + rest == (streamed + rest[..ptr]) + (tail + rest[ptr..])
  {
    assert rest == rest[..ptr] + rest[ptr..];
  }

  lemma BitLength(len: nat)
    ensures ((len % TWO64) * 8) % TWO64 == (8 * len) % TWO64
  {
    var low := 8 * (len % TWO64);
    DivModUnique(8 * len, TWO64, 8 * (len / TWO64) + low / TWO64, low % TWO64);
  }

  /** With whole blocks before and after, the carry that remains is the one that the 32-bit code computes. */
  lemma CarryOfSum(blocks: nat, carry: nat, size: nat, blocks': nat, carry': nat)
    requires blocks % 64 == 0 && blocks' % 64 == 0 && carry < 64 && carry' < 64
    requires blocks + carry + size == blocks' + carry' && size + carry < TWO32
    ensures carry' == NextCarry(carry, size)
  {
    CarryStaysBelowBlock(carry, size);
    hide NextCarry;
    DivModUnique(carry + size, 64, (blocks' - blocks) / 64, carry');
  }

  lemma SizeSum(x: nat, y: nat)
    ensures (x % TWO64 + y) % TWO64 == (x + y) % TWO64
  {
    ModAdd(x, y, TWO64);
  }
}
