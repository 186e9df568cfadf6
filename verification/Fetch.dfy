/** End to end: what fetching a chunk from a peer does to the receiver's file. */
module Fetch {
  import opened Bytes
  import opened MerkleTree
  import opened HashString
  import opened Package
  import opened Queries
  import opened Protocol

  /** The package is well formed, its hashes have 64 characters, and a peer with table cat finds it by this identifier. */
  ghost predicate Knows(cat: Catalog, ident: seq<byte>, meta: Meta) {
    && TreesComplete(cat)
    && FindPackage(cat, ident) == Some(meta)
    && meta.WellFormed()
    && RootFoundFirst(meta)
    && DistinctChunkHashes(meta)
    && forall i :: 0 <= i < |meta.chunks| ==> |meta.chunks[i].hash| == CHUNK_HASH_SIZE && 0 !in meta.chunks[i].hash
  }

  function End(c: ChunkInfo): nat {
    c.offset + c.size
  }

  lemma KnownHash(cat: Catalog, ident: seq<byte>, meta: Meta, c: nat)
    requires Knows(cat, ident, meta) && c < |meta.chunks|
    ensures Lookup(cat, ident, meta.chunks[c].hash) == 1
    ensures CStr(meta.chunks[c].hash) == meta.chunks[c].hash
    ensures ChunkEnd(meta.chunks[c]) == End(meta.chunks[c]) < TWO32
  {
    hide KnownHashes, FindPackage, RootFoundFirst;
    KnownHashesAreChunkHashes(meta, meta.chunks[c].hash);
    ChunkInFile(meta, c);
    CStrIdentity(meta.chunks[c].hash);
  }

  /** The range for an offset from the start of a known chunk to its end (inclusive) is the rest of the chunk. */
  lemma KnownChunk(cat: Catalog, ident: seq<byte>, meta: Meta, c: nat, o: nat)
    requires Knows(cat, ident, meta) && c < |meta.chunks|
    ensures Lookup(cat, ident, meta.chunks[c].hash) == 1
    ensures CStr(meta.chunks[c].hash) == meta.chunks[c].hash
    ensures End(meta.chunks[c]) < TWO32
    ensures DataLen(meta.chunks, meta.chunks[c].hash, Some(o), 0)
            == if meta.chunks[c].offset <= o <= End(meta.chunks[c]) then Some(ReqArgs(End(meta.chunks[c]) - o, o))
               else None
  {
    hide DataLen, FindPackage, RootFoundFirst, Lookup;
    KnownHash(cat, ident, meta, c);
    var chunks, hash := meta.chunks, meta.chunks[c].hash;
    if Answers(chunks[c], hash, Some(o)) {
      DataLenFirst(chunks, hash, Some(o), 0, c);
    } else {
      DataLenFirst(chunks, hash, Some(o), 0, |chunks|);
    }
  }

  /** Chunk answers without an offset: its own range. */
  lemma KnownChunkStart(cat: Catalog, ident: seq<byte>, meta: Meta, c: nat)
    requires Knows(cat, ident, meta) && c < |meta.chunks|
    ensures DataLen(meta.chunks, meta.chunks[c].hash, None, 0)
            == Some(ReqArgs(meta.chunks[c].size, meta.chunks[c].offset))
  {
    DataLenFirst(meta.chunks, meta.chunks[c].hash, None, 0, c);
  }

  // Which packets are accepted

  /**
   The packet's range lies inside a chunk with its hash and, unless it is empty, does not start where a chunk with the
   same hash ends.
   */
  ghost predicate InsideNamedChunk(meta: Meta, res: Res) {
    exists c :: 0 <= c < |meta.chunks| && InsideChunk(meta, res, c)
  }

  predicate InsideChunk(meta: Meta, res: Res, c: nat)
    requires c < |meta.chunks|
  {
    && meta.chunks[c].hash == res.hash
    && meta.chunks[c].offset <= res.offset && res.offset + res.len <= End(meta.chunks[c])
    && (res.len > 0 ==> !AtTwin(meta, c, res.offset))
  }

  /** calculate_data_len gives the packet's range. */
  predicate RangeAllows(meta: Meta, res: Res) {
    var a := DataLen(meta.chunks, res.hash, Some(res.offset), 0);
    a.Some? && a.value.fileOffset == res.offset && a.value.dataLen >= res.len
  }

  lemma RangeAllowsExactly(meta: Meta, res: Res)
    requires meta.WellFormed()
    ensures RangeAllows(meta, res) <==> InsideNamedChunk(meta, res)
  {
    hide DataLen, AtTwin, Meta.WellFormed;
    if c :| 0 <= c < |meta.chunks| && InsideChunk(meta, res, c) {
      InsideIsAllowed(meta, res, c);
    }
    if RangeAllows(meta, res) {
      var c := AllowedIsInside(meta, res);
    }
  }

  lemma InsideIsAllowed(meta: Meta, res: Res, c: nat)
    requires meta.WellFormed() && c < |meta.chunks| && InsideChunk(meta, res, c)
    ensures RangeAllows(meta, res)
  {
    hide DataLen;
    if res.len > 0 {
      DataLenInside(meta, c, res.offset);
    } else {
      EndOfChunk(meta, c);
      var j := FirstAnswer(meta.chunks, res.hash, res.offset, c);
      DataLenFirst(meta.chunks, res.hash, Some(res.offset), 0, j);
    }
  }

  lemma AllowedIsInside(meta: Meta, res: Res) returns (c: nat)
    requires meta.WellFormed() && RangeAllows(meta, res)
    ensures c < |meta.chunks| && InsideChunk(meta, res, c)
  {
    hide DataLen, Meta.WellFormed;
    if j :| 0 <= j < |meta.chunks| && Answers(meta.chunks[j], res.hash, Some(res.offset)) {
      c := FirstAnswer(meta.chunks, res.hash, res.offset, j);
      DataLenFirst(meta.chunks, res.hash, Some(res.offset), 0, c);
      EndOfChunk(meta, c);
      if res.len > 0 {
        DataLenInside(meta, c, res.offset);
      }
    } else {
      DataLenFirst(meta.chunks, res.hash, Some(res.offset), 0, |meta.chunks|);
    }
  }

  lemma {:induction false} FirstAnswer(chunks: seq<ChunkInfo>, hash: cstring, o: nat, i: nat) returns (c: nat)
    requires i < |chunks| && Answers(chunks[i], hash, Some(o))
    ensures c < |chunks| && Answers(chunks[c], hash, Some(o))
    ensures forall j :: 0 <= j < c ==> !Answers(chunks[j], hash, Some(o))
    decreases i
  {
    c := i;
    if j :| 0 <= j < i && Answers(chunks[j], hash, Some(o)) {
      c := FirstAnswer(chunks, hash, o, j);
    }
  }

  /** A packet is accepted if and only if its hash can be looked up and its range lies inside a chunk with that hash. */
  lemma AcceptedExactly(cat: Catalog, meta: Meta, res: Res)
    requires TreesComplete(cat) && FindPackage(cat, res.ident) == Some(meta) && meta.WellFormed()
    ensures Accepted(cat, res) <==> res.hash in KnownHashes(meta) && InsideNamedChunk(meta, res)
    ensures RootFoundFirst(meta) ==> (Accepted(cat, res) <==> InsideNamedChunk(meta, res))
  {
    hide DataLen, FindPackage, KnownHashes, RootFoundFirst, AtTwin;
    RangeAllowsExactly(meta, res);
    if RootFoundFirst(meta) {
      KnownHashesAreChunkHashes(meta, res.hash);
    }
  }

  /**
   Exactly when the write stays within the received bytes: unless the file is there, the packet is accepted and its length
   exceeds the data field.
   */
  lemma InsideDataExactly(cat: Catalog, files: Files, meta: Meta, res: Res)
    requires TreesComplete(cat) && FindPackage(cat, res.ident) == Some(meta) && meta.WellFormed()
    ensures InsideData(cat, files, res) <==>
            !(&& meta.filename in files && res.len > |res.data|
              && res.hash in KnownHashes(meta) && InsideNamedChunk(meta, res))
  {
    hide Accepted, InsideNamedChunk, RootFoundFirst, KnownHashes;
    AcceptedExactly(cat, meta, res);
  }

  // Delivery in any order

  /** A RES packet for chunk c whose bytes are those of target, the wanted content of the chunk. */
  ghost predicate Agrees(meta: Meta, c: nat, ident: seq<byte>, target: seq<byte>, payload: seq<byte>)
    requires c < |meta.chunks| && |target| == meta.chunks[c].size
  {
    && |payload| == PAYLOAD_MAX
    && var res, chunk := ParseRes(payload), meta.chunks[c];
       && res.hash == chunk.hash
       && res.ident == ident
       && chunk.offset <= res.offset < End(chunk)
       && res.len <= DATA_MAX_SIZE
       && res.offset + res.len <= End(chunk)
       && res.data[..res.len] == target[res.offset - chunk.offset..res.offset - chunk.offset + res.len]
  }

  ghost predicate Covers(payload: seq<byte>, p: int) {
    |payload| == PAYLOAD_MAX && ParseRes(payload).offset <= p < ParseRes(payload).offset + ParseRes(payload).len
  }

  ghost predicate CoveredBy(payloads: seq<seq<byte>>, p: int) {
    exists q :: 0 <= q < |payloads| && Covers(payloads[q], p)
  }

  /** Whole payloads, none of which makes the receiver take more bytes than it received. */
  ghost predicate AllInside(cat: Catalog, files: Files, payloads: seq<seq<byte>>)
    requires TreesComplete(cat)
  {
    forall q :: 0 <= q < |payloads| ==> |payloads[q]| == PAYLOAD_MAX && InsideData(cat, files, ParseRes(payloads[q]))
  }

  /** Which names exist does not change by deliveries, so the initial files decide. */
  ghost function DeliverAll(cat: Catalog, files: Files, payloads: seq<seq<byte>>): (r: Files)
    requires TreesComplete(cat) && AllInside(cat, files, payloads)
    ensures r.Keys == files.Keys
  {
    if payloads == [] then files
    else Delivered(cat, DeliverAll(cat, files, payloads[..|payloads| - 1]), ParseRes(payloads[|payloads| - 1]))
  }

  /** An accepted packet changes its own range of the one file and nothing else. */
  lemma DeliverOne(cat: Catalog, files: Files, ident: seq<byte>, meta: Meta, c: nat, target: seq<byte>,
                   payload: seq<byte>)
    requires Knows(cat, ident, meta) && c < |meta.chunks| && |target| == meta.chunks[c].size
    requires Agrees(meta, c, ident, target, payload)
    requires meta.filename in files && End(meta.chunks[c]) <= |files[meta.filename]|
    ensures var res := ParseRes(payload);
            && InsideData(cat, files, res)
            && Delivered(cat, files, res)
               == files[meta.filename := Written(files[meta.filename], res.offset, res.data[..res.len])]
  {
    hide ParseRes, Written, Lookup, DataLen, Knows;
    var res := ParseRes(payload);
    KnownTrees(cat, ident, meta);
    KnownChunk(cat, ident, meta, c, res.offset);
    if res.len == 0 {
      WrittenNothing(files[meta.filename], res.offset);
      assert res.data[..0] == [];
    }
  }

  lemma KnownTrees(cat: Catalog, ident: seq<byte>, meta: Meta)
    requires Knows(cat, ident, meta)
    ensures TreesComplete(cat) && FindPackage(cat, ident) == Some(meta)
  {}

  /** The file after packets have arrived: target where one of them covers, unchanged elsewhere. */
  ghost predicate Patched(before: seq<byte>, after: seq<byte>, at: nat, target: seq<byte>, payloads: seq<seq<byte>>) {
    && |after| == |before|
    && forall p :: 0 <= p < |before| ==>
                     if CoveredBy(payloads, p) then at <= p < at + |target| && after[p] == target[p - at]
                     else after[p] == before[p]
  }

  lemma PatchOne(before: seq<byte>, mid: seq<byte>, at: nat, target: seq<byte>, payloads: seq<seq<byte>>,
                 payload: seq<byte>)
    requires |payload| == PAYLOAD_MAX && at + |target| <= |before|
    requires Patched(before, mid, at, target, payloads)
    requires var res := ParseRes(payload);
             && at <= res.offset && res.offset + res.len <= at + |target| && res.len <= DATA_MAX_SIZE
             && res.data[..res.len] == target[res.offset - at..res.offset - at + res.len]
    ensures var res := ParseRes(payload);
            Patched(before, Written(mid, res.offset, res.data[..res.len]), at, target, payloads + [payload])
  {
    var res := ParseRes(payload);
    hide ParseRes;
    var after := Written(mid, res.offset, res.data[..res.len]);
    forall p | 0 <= p < |before|
      ensures if CoveredBy(payloads + [payload], p) then at <= p < at + |target| && after[p] == target[p - at]
              else after[p] == before[p]
    {
      CoveredByOneMore(payloads, payload, p);
      if Covers(payload, p) {
        assert after[p] == res.data[..res.len][p - res.offset];
      } else {
        assert after[p] == mid[p];
      }
    }
  }

  lemma CoveredByOneMore(payloads: seq<seq<byte>>, payload: seq<byte>, p: int)
    ensures CoveredBy(payloads + [payload], p) <==> CoveredBy(payloads, p) || Covers(payload, p)
  {
    hide Covers;
    var all := payloads + [payload];
    assert all[|payloads|] == payload;
    assert forall q :: 0 <= q < |payloads| ==> all[q] == payloads[q];
    if CoveredBy(payloads, p) {
      var q :| 0 <= q < |payloads| && Covers(payloads[q], p);
      assert Covers(all[q], p);
    }
  }

  lemma AgreeingAreInside(cat: Catalog, files: Files, meta: Meta, c: nat, ident: seq<byte>, target: seq<byte>,
                          payloads: seq<seq<byte>>)
    requires TreesComplete(cat) && c < |meta.chunks| && |target| == meta.chunks[c].size
    requires forall q :: 0 <= q < |payloads| ==> Agrees(meta, c, ident, target, payloads[q])
    ensures AllInside(cat, files, payloads)
  {
    hide Writes;
  }

  /** Packets that agree with one target content may come in any order and any number of times. */
  lemma {:induction false} AnyOrder(cat: Catalog, files: Files, ident: seq<byte>, meta: Meta, c: nat,
                                    target: seq<byte>, payloads: seq<seq<byte>>)
    requires Knows(cat, ident, meta) && c < |meta.chunks| && |target| == meta.chunks[c].size
    requires TreesComplete(cat) && AllInside(cat, files, payloads)
    requires forall q :: 0 <= q < |payloads| ==> Agrees(meta, c, ident, target, payloads[q])
    requires meta.filename in files && End(meta.chunks[c]) <= |files[meta.filename]|
    ensures var after := DeliverAll(cat, files, payloads);
            && after.Keys == files.Keys
            && (forall name :: name in files && name != meta.filename ==> after[name] == files[name])
            && Patched(files[meta.filename], after[meta.filename], meta.chunks[c].offset, target, payloads)
  {
    hide *;
    KnownTrees(cat, ident, meta);
    if payloads == [] {
      PatchNone(files[meta.filename], meta.chunks[c].offset, target);
      DeliverNone(cat, files);
    } else {
      var init, last := payloads[..|payloads| - 1], payloads[|payloads| - 1];
      assert payloads == init + [last];
      AgreeingAreInside(cat, files, meta, c, ident, target, init);
      AnyOrder(cat, files, ident, meta, c, target, init);
      var mid := DeliverAll(cat, files, init);
      PatchedLength(files[meta.filename], mid[meta.filename], meta.chunks[c].offset, target, init);
      DeliverStep(cat, files, init, last);
      DeliverOne(cat, mid, ident, meta, c, target, last);
      EndIs(meta.chunks[c]);
      PatchAgreeing(files[meta.filename], mid[meta.filename], meta, c, ident, target, init, last);
    }
  }

  lemma DeliverNone(cat: Catalog, files: Files)
    requires TreesComplete(cat)
    ensures AllInside(cat, files, []) && DeliverAll(cat, files, []) == files
  {}

  /** PatchOne for a packet that agrees with the target. */
  lemma PatchAgreeing(before: seq<byte>, mid: seq<byte>, meta: Meta, c: nat, ident: seq<byte>, target: seq<byte>,
                      payloads: seq<seq<byte>>, payload: seq<byte>)
    requires c < |meta.chunks| && |target| == meta.chunks[c].size && End(meta.chunks[c]) <= |before|
    requires Agrees(meta, c, ident, target, payload)
    requires Patched(before, mid, meta.chunks[c].offset, target, payloads)
    ensures var res := ParseRes(payload);
            && res.len <= |res.data| && res.offset + res.len <= |mid|
            && Patched(before, Written(mid, res.offset, res.data[..res.len]), meta.chunks[c].offset, target,
                       payloads + [payload])
  {
    PatchedLength(before, mid, meta.chunks[c].offset, target, payloads);
    hide ParseRes, Patched, Written;
    PatchOne(before, mid, meta.chunks[c].offset, target, payloads, payload);
  }

  lemma PatchNone(file: seq<byte>, at: nat, target: seq<byte>)
    ensures Patched(file, file, at, target, [])
  {}

  lemma PatchedLength(before: seq<byte>, after: seq<byte>, at: nat, target: seq<byte>, payloads: seq<seq<byte>>)
    requires Patched(before, after, at, target, payloads)
    ensures |after| == |before|
  {}

  /** Once their ranges cover bytes o .. at + |target|, these are the target's and all others are as before. */
  lemma PatchedWhenCovered(before: seq<byte>, after: seq<byte>, at: nat, target: seq<byte>,
                           payloads: seq<seq<byte>>, o: nat)
    requires at <= o <= at + |target| <= |before|
    requires Patched(before, after, at, target, payloads)
    requires forall p :: o <= p < at + |target| <==> CoveredBy(payloads, p)
    ensures after == Written(before, o, target[o - at..])
  {
    var want := Written(before, o, target[o - at..]);
    forall p | 0 <= p < |before|
      ensures after[p] == want[p]
    {
      if o <= p < at + |target| {
        assert want[p] == target[o - at..][p - o] == target[p - at];
      } else {
        assert want[p] == before[p];
      }
    }
  }

  // The packets of one reply

  lemma ReplyAgrees(meta: Meta, c: nat, ident: seq<byte>, file: seq<byte>, o: nat, k: nat)
    requires meta.WellFormed() && c < |meta.chunks| && End(meta.chunks[c]) <= |file|
    requires |meta.chunks[c].hash| == CHUNK_HASH_SIZE && 0 !in meta.chunks[c].hash && |ident| == IDENT_SIZE
    requires meta.chunks[c].offset <= o <= End(meta.chunks[c]) < TWO32
    requires k < PacketCount(End(meta.chunks[c]) - o)
    ensures var chunk := meta.chunks[c];
            var payload := ResPacket(file, o, End(chunk) - o, chunk.hash, ident, k).payload;
            && Agrees(meta, c, ident, ChunkBytes(file, chunk), payload)
            && (forall p: int :: Covers(payload, p) <==>
                                   o + DATA_MAX_SIZE * k <= p < o + DATA_MAX_SIZE * k + PieceLen(End(chunk) - o, k))
  {
    hide ParseRes, ResPayload, Piece;
    var chunk := meta.chunks[c];
    var len := End(chunk) - o;
    var start, n := o + DATA_MAX_SIZE * k, PieceLen(len, k);
    var data := Piece(file, o, len, k);
    ResRoundTrip(start, data, n, chunk.hash, ident);
    CStrIdentity(chunk.hash);
    PieceBytes(file, chunk, o, k);
  }

  /** What packet k carries are the chunk's bytes at that place. */
  lemma PieceBytes(file: seq<byte>, chunk: ChunkInfo, o: nat, k: nat)
    requires chunk.offset <= o <= End(chunk) <= |file| && k < PacketCount(End(chunk) - o)
    ensures var len := End(chunk) - o;
            var n, start := PieceLen(len, k), o + DATA_MAX_SIZE * k - chunk.offset;
            start + n <= chunk.size && Piece(file, o, len, k)[..n] == ChunkBytes(file, chunk)[start..start + n]
  {
    var len := End(chunk) - o;
    var n, at := PieceLen(len, k), o + DATA_MAX_SIZE * k;
    PieceData(file, o, len, k);
    SliceOfSlice(file, chunk.offset, End(chunk), at - chunk.offset, at - chunk.offset + n);
  }

  lemma SliceOfSlice(s: seq<byte>, a: nat, b: nat, i: nat, j: nat)
    requires a <= b <= |s| && i <= j <= b - a
    ensures s[a..b][i..j] == s[a + i..a + j]
  {
    var mid, x, y := s[a..b], s[a..b][i..j], s[a + i..a + j];
    forall k | 0 <= k < j - i
      ensures x[k] == y[k]
    {
      assert x[k] == mid[i + k] == s[a + i + k];
    }
    assert x == y;
  }

  function Payloads(packets: seq<Packet>): (s: seq<seq<byte>>)
    ensures |s| == |packets| && forall q :: 0 <= q < |s| ==> s[q] == packets[q].payload
  {
    seq(|packets|, q requires 0 <= q < |packets| => packets[q].payload)
  }

  /** The payloads that reach the RES handling: those of the packets without error. */
  function Received(packets: seq<Packet>): seq<seq<byte>> {
    if packets == [] then []
    else
      var last := packets[|packets| - 1];
      Received(packets[..|packets| - 1]) + if last.error == 0 then [last.payload] else []
  }

  lemma {:induction false} AllReceived(packets: seq<Packet>)
    requires forall q :: 0 <= q < |packets| ==> packets[q].error == 0
    ensures Received(packets) == Payloads(packets)
  {
    if packets != [] {
      AllReceived(packets[..|packets| - 1]);
    }
  }

  lemma {:induction false} ReceivedPrefix(packets: seq<Packet>, i: nat)
    requires i <= |packets|
    ensures Received(packets[..i]) <= Received(packets)
    decreases |packets| - i
  {
    if i < |packets| {
      ReceivedPrefix(packets, i + 1);
      assert packets[..i + 1][..i] == packets[..i];
    } else {
      assert packets[..i] == packets;
    }
  }

  /** What one more packet of a sequence does. */
  lemma ReceiveOneMore(cat: Catalog, files: Files, packets: seq<Packet>, i: nat)
    requires TreesComplete(cat) && i < |packets| && AllInside(cat, files, Received(packets))
    ensures AllInside(cat, files, Received(packets[..i])) && AllInside(cat, files, Received(packets[..i + 1]))
    ensures var sofar := DeliverAll(cat, files, Received(packets[..i]));
            var next := DeliverAll(cat, files, Received(packets[..i + 1]));
            if packets[i].error == 0 then
              && |packets[i].payload| == PAYLOAD_MAX
              && InsideData(cat, sofar, ParseRes(packets[i].payload))
              && next == Delivered(cat, sofar, ParseRes(packets[i].payload))
            else next == sofar
  {
    hide *;
    ReceivedStep(packets, i);
    AllInsidePrefix(cat, files, packets, i);
    AllInsidePrefix(cat, files, packets, i + 1);
    if packets[i].error == 0 {
      DeliverStep(cat, files, Received(packets[..i]), packets[i].payload);
    }
  }

  lemma ReceivedStep(packets: seq<Packet>, i: nat)
    requires i < |packets|
    ensures Received(packets[..i + 1]) ==
            if packets[i].error == 0 then Received(packets[..i]) + [packets[i].payload] else Received(packets[..i])
  {
    assert packets[..i + 1][..i] == packets[..i];
  }

  lemma AllInsidePrefix(cat: Catalog, files: Files, packets: seq<Packet>, i: nat)
    requires TreesComplete(cat) && i <= |packets| && AllInside(cat, files, Received(packets))
    ensures AllInside(cat, files, Received(packets[..i]))
  {
    hide InsideData, Received, ParseRes;
    ReceivedPrefix(packets, i);
  }

  lemma DeliverStep(cat: Catalog, files: Files, s: seq<seq<byte>>, payload: seq<byte>)
    requires TreesComplete(cat) && AllInside(cat, files, s) && AllInside(cat, files, s + [payload])
    ensures |payload| == PAYLOAD_MAX
    ensures InsideData(cat, DeliverAll(cat, files, s), ParseRes(payload))
    ensures DeliverAll(cat, files, s + [payload]) == Delivered(cat, DeliverAll(cat, files, s), ParseRes(payload))
  {
    hide Delivered, ParseRes, Accepted;
    var t := s + [payload];
    assert t[|s|] == payload && t[..|s|] == s;
  }

  /** The packets of a reply cover exactly the requested range. */
  lemma ReplyCovers(meta: Meta, c: nat, ident: seq<byte>, file: seq<byte>, o: nat)
    requires meta.WellFormed() && c < |meta.chunks| && End(meta.chunks[c]) <= |file|
    requires |meta.chunks[c].hash| == CHUNK_HASH_SIZE && 0 !in meta.chunks[c].hash && |ident| == IDENT_SIZE
    requires meta.chunks[c].offset <= o <= End(meta.chunks[c]) < TWO32
    ensures var chunk := meta.chunks[c];
            var s := Payloads(ResPackets(file, o, End(chunk) - o, chunk.hash, ident));
            && (forall q :: 0 <= q < |s| ==> Agrees(meta, c, ident, ChunkBytes(file, chunk), s[q]))
            && (forall p :: o <= p < End(chunk) <==> CoveredBy(s, p))
  {
    hide Agrees, Covers, ResPacket, CoveredBy;
    var chunk := meta.chunks[c];
    var len := End(chunk) - o;
    var s := Payloads(ResPackets(file, o, len, chunk.hash, ident));
    forall q | 0 <= q < |s|
      ensures Agrees(meta, c, ident, ChunkBytes(file, chunk), s[q])
      ensures forall p: int :: Covers(s[q], p) <==>
                                 o + DATA_MAX_SIZE * q <= p < o + DATA_MAX_SIZE * q + PieceLen(len, q)
    {
      ReplyAgrees(meta, c, ident, file, o, q);
    }
    forall p
      ensures o <= p < o + len <==> CoveredBy(s, p)
    {
      PiecesCover(s, o, len, p);
    }
  }

  /** Pieces of 2998 bytes, the last one shorter, tile the range. */
  lemma PiecesCover(s: seq<seq<byte>>, o: nat, len: nat, p: int)
    requires |s| == PacketCount(len)
    requires forall q :: 0 <= q < |s| ==> (Covers(s[q], p) <==>
                                           o + DATA_MAX_SIZE * q <= p < o + DATA_MAX_SIZE * q + PieceLen(len, q))
    ensures o <= p < o + len <==> CoveredBy(s, p)
  {
    hide Covers;
    if o <= p < o + len {
      var q := (p - o) / DATA_MAX_SIZE;
      assert Covers(s[q], p);
    }
  }

  /** The computed hash of some chunk of the file is the given one. */
  ghost predicate HeldIn(meta: Meta, file: seq<byte>, hash: cstring)
    requires meta.WellFormed() && |file| == |meta.chunks| * meta.Size()
  {
    exists i: nat :: i < |meta.chunks| && (ChunkInFile(meta, i); HashOf(ChunkBytes(file, meta.chunks[i])) == hash)
  }

  /** What the receiver of FETCH ... hash [offset] puts into its REQ packet. */
  function RequestFor(meta: Meta, c: nat, o: nat, ident: seq<byte>): (p: seq<byte>)
    requires c < |meta.chunks| && |meta.chunks[c].hash| == CHUNK_HASH_SIZE && |ident| == IDENT_SIZE
    requires o <= End(meta.chunks[c])
    ensures |p| == PAYLOAD_MAX
  {
    ReqPayload(o, End(meta.chunks[c]) - o, meta.chunks[c].hash, ident)
  }

  /** The payloads that reach the receiver's RES handling after a request. */
  ghost function Answer(cat: Catalog, files: Files, held: bool, payload: seq<byte>): seq<seq<byte>>
    requires |payload| == PAYLOAD_MAX && TreesComplete(cat) && RangeInFile(cat, files, held, ParseReq(payload))
  {
    Received(Reply(cat, files, held, ParseReq(payload)))
  }

  lemma AnswerIsRange(cat: Catalog, files: Files, ident: seq<byte>, meta: Meta, c: nat, o: nat)
    requires Knows(cat, ident, meta) && |ident| == IDENT_SIZE
    requires c < |meta.chunks| && meta.chunks[c].offset <= o <= End(meta.chunks[c])
    requires meta.filename in files && |files[meta.filename]| == |meta.chunks| * meta.Size()
    requires |meta.chunks[c].hash| == CHUNK_HASH_SIZE && End(meta.chunks[c]) <= |files[meta.filename]|
    ensures RangeInFile(cat, files, true, ParseReq(RequestFor(meta, c, o, ident)))
    ensures Answer(cat, files, true, RequestFor(meta, c, o, ident))
            == Payloads(ResPackets(files[meta.filename], o, End(meta.chunks[c]) - o, meta.chunks[c].hash, ident))
  {
    hide ParseReq, ReqPayload, DataLen, Lookup, Knows, Received;
    KnownTrees(cat, ident, meta);
    KnownChunk(cat, ident, meta, c, o);
    ReqRoundTrip(o, End(meta.chunks[c]) - o, meta.chunks[c].hash, ident);
    AllReceived(ResPackets(files[meta.filename], o, End(meta.chunks[c]) - o, meta.chunks[c].hash, ident));
  }

  /** Delivering all packets for the range puts exactly the source's bytes there. */
  lemma DeliverRange(receiver: Catalog, files: Files, ident: seq<byte>, meta: Meta, c: nat, o: nat, source: seq<byte>)
    requires Knows(receiver, ident, meta) && |ident| == IDENT_SIZE
    requires c < |meta.chunks| && meta.chunks[c].offset <= o <= End(meta.chunks[c]) <= |source|
    requires |meta.chunks[c].hash| == CHUNK_HASH_SIZE
    requires meta.filename in files && End(meta.chunks[c]) <= |files[meta.filename]|
    ensures var payloads := Payloads(ResPackets(source, o, End(meta.chunks[c]) - o, meta.chunks[c].hash, ident));
            && TreesComplete(receiver)
            && AllInside(receiver, files, payloads)
            && DeliverAll(receiver, files, payloads)
               == files[meta.filename := Written(files[meta.filename], o, source[o..End(meta.chunks[c])])]
  {
    hide *;
    var chunk, before := meta.chunks[c], files[meta.filename];
    EndIs(chunk);
    KnownShape(receiver, ident, meta);
    KnownChunk(receiver, ident, meta, c, o);
    ReplyCovers(meta, c, ident, source, o);
    var target := source[chunk.offset..End(chunk)];
    ChunkBytesIs(source, chunk);
    var payloads := Payloads(ResPackets(source, o, End(chunk) - o, chunk.hash, ident));
    AgreeingAreInside(receiver, files, meta, c, ident, target, payloads);
    AnyOrder(receiver, files, ident, meta, c, target, payloads);
    var after := DeliverAll(receiver, files, payloads);
    PatchedWhenCovered(before, after[meta.filename], chunk.offset, target, payloads, o);
    SliceOfSlice(source, chunk.offset, End(chunk), o - chunk.offset, |target|);
    assert target[o - chunk.offset..] == target[o - chunk.offset..|target|];
  }

  lemma EndIs(chunk: ChunkInfo)
    ensures End(chunk) == chunk.offset + chunk.size
  {}

  lemma ChunkBytesIs(file: seq<byte>, chunk: ChunkInfo)
    requires End(chunk) <= |file|
    ensures ChunkBytes(file, chunk) == file[chunk.offset..End(chunk)]
  {}

  /**
   A sender that holds a package, a receiver that wants chunk c of it. Each has loaded the metadata for itself: the file
   name begins with the peer's own directory.
   */
  datatype Scenario = Scenario(sender: Catalog, senderFiles: Files, senderMeta: Meta,
                               receiver: Catalog, files: Files, meta: Meta, ident: seq<byte>, c: nat)
  {
    /**
     Both know the package, which has the same chunks for both, and have a file of the full size; the sender's chunk c
     hashes to its expected hash.
     */
    ghost predicate Ready() {
      && Knows(sender, ident, senderMeta)
      && Knows(receiver, ident, meta)
      && senderMeta.chunks == meta.chunks
      && |ident| == IDENT_SIZE
      && c < |meta.chunks|
      && senderMeta.filename in senderFiles
      && |senderFiles[senderMeta.filename]| == |meta.chunks| * meta.Size()
      && meta.filename in files && |files[meta.filename]| == |meta.chunks| * meta.Size()
      && Holds(senderMeta, senderFiles[senderMeta.filename], c)
    }

    function Chunk(): ChunkInfo
      requires c < |meta.chunks|
    {
      meta.chunks[c]
    }

    /** The sender's file. */
    function Source(): seq<byte>
      requires senderMeta.filename in senderFiles
    {
      senderFiles[senderMeta.filename]
    }

    /** o is a place in the chunk, or its end. */
    predicate InChunk(o: nat) {
      c < |meta.chunks| && meta.chunks[c].offset <= o <= End(meta.chunks[c])
    }

    /** Where the requested range starts: at the given offset or, without one, at the start of the chunk. */
    function Start(offset: Option<nat>): nat
      requires c < |meta.chunks|
    {
      match offset
      case Some(o) => o
      case None => Chunk().offset
    }

    /** The packets that carry the chunk from byte o on. */
    ghost function Packets(o: nat): seq<Packet>
      requires Ready() && InChunk(o)
    {
      KnownShape(receiver, ident, meta);
      ChunkInFile(meta, c);
      ResPackets(Source(), o, End(Chunk()) - o, Chunk().hash, ident)
    }

    /** The receiver's files with the sender's bytes from o to the end of the chunk in place. */
    ghost function Fetched(o: nat): Files
      requires Ready() && InChunk(o)
    {
      ChunkInFile(meta, c);
      files[meta.filename := Written(files[meta.filename], o, Source()[o..End(Chunk())])]
    }

    /** The same for the whole chunk. */
    ghost function After(): Files
      requires Ready()
    {
      Fetched(Chunk().offset)
    }

    /** after is what the receiver's disk holds once the reply to the request from byte o on has been delivered. */
    ghost predicate FetchedFrom(o: nat, after: Files)
      requires Ready() && InChunk(o)
    {
      KnownShape(sender, ident, senderMeta);
      KnownShape(receiver, ident, meta);
      var request := RequestFor(meta, c, o, ident);
      var held := HeldIn(senderMeta, Source(), Chunk().hash);
      && RangeInFile(sender, senderFiles, held, ParseReq(request))
      && var payloads := Answer(sender, senderFiles, held, request);
         AllInside(receiver, files, payloads) && after == DeliverAll(receiver, files, payloads)
    }
  }

  /** There are such situations: any file can be shared as a package of one chunk, to a peer whose file is still empty. */
  lemma ShareFile(file: seq<byte>, senderName: cstring, name: cstring, ident: seq<byte>) returns (s: Scenario)
    requires 0 < |file| < INT_LIMIT && |ident| == IDENT_SIZE
    ensures s.Ready() && s.senderMeta.filename == senderName && s.meta.filename == name
    ensures s.Source() == file && s.files == map[name := Zeros(|file|)]
  {
    hide HashOf, Knows;
    var chunk := ChunkInfo(HashOf(file), 0, |file|);
    var senderMeta, meta := Meta(ident, senderName, [], [chunk]), Meta(ident, name, [], [chunk]);
    s := Scenario([Some(senderMeta), None], map[senderName := file], senderMeta,
                  [Some(meta), None], map[name := Zeros(|file|)], meta, ident, 0);
    HashOfIsHex(file);
    KnowsOneChunk(senderMeta, chunk);
    KnowsOneChunk(meta, chunk);
    assert ChunkBytes(file, chunk) == file;
  }

  /** A fresh table of two slots to which one package has been added. */
  lemma OnePackage(meta: Meta)
    ensures FindPackage([Some(meta), None], meta.ident) == Some(meta)
  {
    FindPackageIsLowest([Some(meta), None], meta.ident, 0);
  }

  lemma KnowsOneChunk(meta: Meta, chunk: ChunkInfo)
    requires meta.hashes == [] && meta.chunks == [chunk] && chunk.offset == 0 && 0 < chunk.size < INT_LIMIT
    requires |chunk.hash| == CHUNK_HASH_SIZE && 0 !in chunk.hash
    ensures Knows([Some(meta), None], meta.ident, meta)
  {
    hide FindPackage;
    OnePackage(meta);
  }

  /** The sender's and the receiver's metadata agree in all that concerns the chunks. */
  lemma SameChunks(s: Scenario)
    requires s.Ready()
    ensures s.meta.WellFormed() && s.senderMeta.WellFormed() && s.senderMeta.chunks == s.meta.chunks
    ensures |s.Source()| == |s.meta.chunks| * s.meta.Size() && Holds(s.meta, s.Source(), s.c)
    ensures s.senderMeta.Size() == s.meta.Size()
    ensures forall o :: s.InChunk(o) ==>
                          && |s.Chunk().hash| == CHUNK_HASH_SIZE
                          && RequestFor(s.meta, s.c, o, s.ident) == RequestFor(s.senderMeta, s.c, o, s.ident)
  {
    hide HashOf, ReqPayload;
    KnownShape(s.sender, s.ident, s.senderMeta);
    KnownShape(s.receiver, s.ident, s.meta);
    ChunkInFile(s.meta, s.c);
  }

  /** After a fetch from byte o the receiver has the sender's bytes from there to the end of the chunk, all else as before. */
  lemma FetchTransfersRange(s: Scenario, o: nat)
    requires s.Ready() && s.InChunk(o)
    ensures End(s.Chunk()) <= |s.Source()| == |s.files[s.meta.filename]|
    ensures s.FetchedFrom(o, s.Fetched(o))
  {
    hide ParseReq, RequestFor, ResPackets, Knows, Holds, Written, DeliverAll, Answer, AllInside, RangeInFile;
    SameChunks(s);
    KnownShape(s.sender, s.ident, s.senderMeta);
    KnownShape(s.receiver, s.ident, s.meta);
    ChunkInFile(s.meta, s.c);
    HeldInScenario(s);
    AnswerIsRange(s.sender, s.senderFiles, s.ident, s.senderMeta, s.c, o);
    DeliverRange(s.receiver, s.files, s.ident, s.meta, s.c, o, s.Source());
  }

  /** The sender's hash loop finds the chunk. */
  lemma HeldInScenario(s: Scenario)
    requires s.Ready()
    ensures s.senderMeta.WellFormed() && HeldIn(s.senderMeta, s.Source(), s.Chunk().hash)
  {
    hide HashOf;
    KnownShape(s.sender, s.ident, s.senderMeta);
    ChunkInFile(s.senderMeta, s.c);
  }

  lemma KnownShape(cat: Catalog, ident: seq<byte>, meta: Meta)
    requires Knows(cat, ident, meta)
    ensures TreesComplete(cat) && FindPackage(cat, ident) == Some(meta) && meta.WellFormed()
    ensures forall i :: 0 <= i < |meta.chunks| ==> |meta.chunks[i].hash| == CHUNK_HASH_SIZE && 0 !in meta.chunks[i].hash
  {}

  /** Delivering the packets from byte o on puts the sender's bytes in place. */
  lemma DeliverChunk(s: Scenario, o: nat)
    requires s.Ready() && s.InChunk(o)
    ensures TreesComplete(s.receiver) && AllInside(s.receiver, s.files, Received(s.Packets(o)))
    ensures DeliverAll(s.receiver, s.files, Received(s.Packets(o))) == s.Fetched(o)
    ensures forall q :: 0 <= q < |s.Packets(o)| ==> |s.Packets(o)[q].payload| == PAYLOAD_MAX
  {
    hide Knows, Written, DeliverAll, AllInside, Holds, Received;
    SameChunks(s);
    KnownShape(s.receiver, s.ident, s.meta);
    ChunkInFile(s.meta, s.c);
    AllReceived(s.Packets(o));
    DeliverRange(s.receiver, s.files, s.ident, s.meta, s.c, o, s.Source());
  }

  // The completion state

  lemma DisjointChunks(meta: Meta, i: nat, c: nat)
    requires meta.WellFormed() && i < |meta.chunks| && c < |meta.chunks| && i != c
    ensures End(meta.chunks[i]) <= meta.chunks[c].offset || End(meta.chunks[c]) <= meta.chunks[i].offset
  {
    ChunkInFile(meta, i);
    ChunkInFile(meta, c);
    MulDiff(meta.Size(), i, c);
    MulDiff(meta.Size(), c, i);
  }

  /** Fetching a whole chunk makes it complete and leaves every other chunk as it was. */
  lemma FetchCompletesChunk(meta: Meta, c: nat, source: seq<byte>, before: seq<byte>, i: nat)
    requires meta.WellFormed() && c < |meta.chunks| && i < |meta.chunks|
    requires |source| == |before| == |meta.chunks| * meta.Size() && Holds(meta, source, c)
    ensures End(meta.chunks[c]) <= |before|
    ensures var after := Written(before, meta.chunks[c].offset, ChunkBytes(source, meta.chunks[c]));
            Holds(meta, after, i) <==> i == c || Holds(meta, before, i)
  {
    hide HashOf;
    ChunkInFile(meta, c);
    ChunkInFile(meta, i);
    var chunk, other := meta.chunks[c], meta.chunks[i];
    var after := Written(before, chunk.offset, ChunkBytes(source, chunk));
    if i == c {
      assert ChunkBytes(after, chunk) == ChunkBytes(source, chunk);
    } else {
      DisjointChunks(meta, i, c);
      assert ChunkBytes(after, other) == ChunkBytes(before, other);
    }
  }

  /**
   The whole fetch: the receiver's file then has the sender's bytes of chunk c, every other byte is unchanged, and the
   chunks the receiver's next hash loop finds complete are those it found before and c.
   */
  lemma FetchChunk(s: Scenario, t: TreeView, i: nat)
    requires s.Ready() && i < |s.meta.chunks| && Matches(t, s.meta)
    ensures s.Chunk().offset < End(s.Chunk())
    ensures s.FetchedFrom(s.Chunk().offset, s.After())
    ensures t.n + i in Refreshed(t, s.meta.Size(), Some(s.After()[s.meta.filename])).Done()
            <==> i == s.c || t.n + i in Refreshed(t, s.meta.Size(), Some(s.files[s.meta.filename])).Done()
  {
    hide Knows, Written, Holds, Refreshed, Scenario.FetchedFrom;
    SameChunks(s);
    ChunkInFile(s.meta, s.c);
    var before := s.files[s.meta.filename];
    FetchTransfersRange(s, s.Chunk().offset);
    FetchCompletesChunk(s.meta, s.c, s.Source(), before, i);
    CompleteExactly(t, s.meta, before, i);
    CompleteExactly(t, s.meta, s.After()[s.meta.filename], i);
  }

  /** In terms of the whole set: the fetch adds chunk c to the complete leaves and takes none away. */
  lemma FetchAddsOneChunk(s: Scenario, t: TreeView)
    requires s.Ready() && Matches(t, s.meta)
    ensures Refreshed(t, s.meta.Size(), Some(s.After()[s.meta.filename])).Done()
            == Refreshed(t, s.meta.Size(), Some(s.files[s.meta.filename])).Done() + {t.n + s.c}
  {
    hide Knows, Holds, Refreshed, Scenario.FetchedFrom, Written;
    var before := Refreshed(t, s.meta.Size(), Some(s.files[s.meta.filename])).Done();
    var after := Refreshed(t, s.meta.Size(), Some(s.After()[s.meta.filename])).Done();
    forall k: nat
      ensures k in after <==> k in before || k == t.n + s.c
    {
      if t.n <= k <= 2 * t.n {
        FetchChunk(s, t, k - t.n);
      }
    }
  }
}
