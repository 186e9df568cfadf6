/** The chunk transfer protocol of src/peer.c and src/package.c as functions on values: packets, lookups, effects. */
module Protocol {
  import opened Bytes
  import opened HeapTree
  import opened MerkleTree
  import opened Package
  import opened Queries
  import opened PackageTable

  const DATA_MAX_SIZE: nat := 2998
  const CHUNK_HASH_SIZE: nat := 64
  const IDENT_SIZE: nat := 1024
  const PAYLOAD_MAX: nat := 4092
  const PKT_MSG_REQ: nat := 0x06
  const PKT_MSG_RES: nat := 0x07

  datatype Packet = Packet(msgCode: nat, error: nat, payload: seq<byte>)

  // Packet layouts

  /** offset, length, hash, ident, zero fill */
  function ReqPayload(offset: nat, len: nat, hash: seq<byte>, ident: seq<byte>): (p: seq<byte>)
    requires |hash| == CHUNK_HASH_SIZE && |ident| == IDENT_SIZE
    ensures |p| == PAYLOAD_MAX
  {
    LittleEndian(4, offset) + LittleEndian(4, len) + hash + ident + Zeros(2996)
  }

  /** offset, data, length, hash, ident */
  function ResPayload(offset: nat, data: seq<byte>, len: nat, hash: seq<byte>, ident: seq<byte>): (p: seq<byte>)
    requires |data| == DATA_MAX_SIZE && |hash| == CHUNK_HASH_SIZE && |ident| == IDENT_SIZE
    ensures |p| == PAYLOAD_MAX
  {
    LittleEndian(4, offset) + data + LittleEndian(2, len) + hash + ident
  }

  /** What the REQ branch of handle_peers reads (lines 443-447). */
  datatype Req = Req(offset: nat, len: nat, hash: seq<byte>, ident: seq<byte>)

  function ParseReq(payload: seq<byte>): (r: Req)
    requires |payload| == PAYLOAD_MAX
    ensures |r.hash| == CHUNK_HASH_SIZE && |r.ident| == IDENT_SIZE
  {
    Req(LittleEndianValue(payload[..4]), LittleEndianValue(payload[4..8]), payload[8..72], payload[72..1096])
  }

  /** What the RES branch of handle_peers reads (lines 493-509). */
  datatype Res = Res(offset: nat, data: seq<byte>, len: nat, hash: cstring, ident: seq<byte>)

  function ParseRes(payload: seq<byte>): (r: Res)
    requires |payload| == PAYLOAD_MAX
    ensures |r.data| == DATA_MAX_SIZE
  {
    Res(LittleEndianValue(payload[..4]), payload[4..3002], LittleEndianValue(payload[3002..3004]),
        CStr(payload[3004..3068]), payload[3068..4092])
  }

  lemma Pow256Small()
    ensures Pow256(2) == 0x1_0000 && Pow256(4) == TWO32
  {
    assert Pow256(1) == 256;
    assert Pow256(3) == 0x100_0000;
  }

  lemma ReqRoundTrip(offset: nat, len: nat, hash: seq<byte>, ident: seq<byte>)
    requires |hash| == CHUNK_HASH_SIZE && |ident| == IDENT_SIZE && offset < TWO32 && len < TWO32
    ensures ParseReq(ReqPayload(offset, len, hash, ident)) == Req(offset, len, hash, ident)
  {
    hide LittleEndian, LittleEndianValue;
    var p := ReqPayload(offset, len, hash, ident);
    assert p[..4] == LittleEndian(4, offset) && p[4..8] == LittleEndian(4, len);
    assert p[8..72] == hash && p[72..1096] == ident;
    Pow256Small();
    LittleEndianRoundTrip(4, offset);
    LittleEndianRoundTrip(4, len);
  }

  lemma ResRoundTrip(offset: nat, data: seq<byte>, len: nat, hash: seq<byte>, ident: seq<byte>)
    requires |data| == DATA_MAX_SIZE && |hash| == CHUNK_HASH_SIZE && |ident| == IDENT_SIZE
    requires offset < TWO32 && len < 0x1_0000
    ensures ParseRes(ResPayload(offset, data, len, hash, ident)) == Res(offset, data, len, CStr(hash), ident)
  {
    hide LittleEndian, LittleEndianValue;
    var p := ResPayload(offset, data, len, hash, ident);
    assert p[..4] == LittleEndian(4, offset) && p[4..3002] == data;
    assert p[3002..3004] == LittleEndian(2, len);
    assert p[3004..3068] == hash && p[3068..4092] == ident;
    Pow256Small();
    LittleEndianRoundTrip(4, offset);
    LittleEndianRoundTrip(2, len);
  }

  // Looking up a chunk in the table

  /** The metadata in the table, slot by slot. */
  type Catalog = seq<Option<Meta>>

  function CatalogOf(slots: seq<Bpkg?>): (c: Catalog)
    ensures |c| == |slots|
  {
    seq(|slots|, i requires 0 <= i < |slots| =>
      var b := slots[i];
      if b == null then None else Some(b.Info()))
  }

  /** The first package with that identifier. */
  function FindPackage(cat: Catalog, ident: seq<byte>): (r: Option<Meta>)
  {
    if cat == [] then None
    else if cat[0].Some? && SameIdent(cat[0].value.ident, ident) then cat[0]
    else FindPackage(cat[1..], ident)
  }

  /** The tree of a package before any hash has been computed. */
  ghost function StaticView(meta: Meta): (t: TreeView)
    requires |meta.chunks| == |meta.hashes| + 1
    ensures t.Valid() && Matches(t, meta)
  {
    var n := |meta.hashes|;
    TreeView(n, meta.hashes + seq(n + 1, i requires 0 <= i < n + 1 => meta.chunks[i].hash), seq(2 * n + 1, _ => []))
  }

  /** The hashes among which chunk_in_memory looks: the chunks below the node found for the root's hash. */
  ghost function KnownHashes(meta: Meta): (s: seq<cstring>)
    requires |meta.chunks| == |meta.hashes| + 1
  {
    var t := StaticView(meta);
    match ChunkHashesFrom(t, t.value[0])
    case Some(s) => s
    case None => []
  }

  ghost predicate TreesComplete(cat: Catalog) {
    forall i :: 0 <= i < |cat| && cat[i].Some? ==> |cat[i].value.chunks| == |cat[i].value.hashes| + 1
  }

  /** chunk_in_memory's return value: -2 no such package, -1 no such chunk, 1 found. */
  ghost function Lookup(cat: Catalog, ident: seq<byte>, hash: cstring): int
    requires TreesComplete(cat)
  {
    match FindPackage(cat, ident)
    case None => -2
    case Some(meta) => FindPackageComplete(cat, ident); if hash in KnownHashes(meta) then 1 else -1
  }

  lemma {:induction false} FindPackageComplete(cat: Catalog, ident: seq<byte>)
    requires TreesComplete(cat)
    ensures var r := FindPackage(cat, ident);
            r.Some? ==> |r.value.chunks| == |r.value.hashes| + 1 && SameIdent(r.value.ident, ident)
  {
    if cat != [] {
      assert TreesComplete(cat[1..]) by {
        assert forall i :: 0 <= i < |cat[1..]| ==> cat[1..][i] == cat[i + 1];
      }
      FindPackageComplete(cat[1..], ident);
    }
  }

  /** FindPackage takes the lowest slot. */
  lemma {:induction false} FindPackageIsLowest(cat: Catalog, ident: seq<byte>, i: nat)
    requires i < |cat| && cat[i].Some? && SameIdent(cat[i].value.ident, ident)
    requires forall j :: 0 <= j < i && cat[j].Some? ==> !SameIdent(cat[j].value.ident, ident)
    ensures FindPackage(cat, ident) == cat[i]
  {
    if i > 0 {
      assert forall j :: 0 <= j < i - 1 ==> cat[1..][j] == cat[j + 1];
      FindPackageIsLowest(cat[1..], ident, i - 1);
    }
  }

  lemma {:induction false} FindPackageNone(cat: Catalog, ident: seq<byte>)
    requires forall j :: 0 <= j < |cat| && cat[j].Some? ==> !SameIdent(cat[j].value.ident, ident)
    ensures FindPackage(cat, ident) == None
  {
    if cat != [] {
      assert forall j :: 0 <= j < |cat| - 1 ==> cat[1..][j] == cat[j + 1];
      FindPackageNone(cat[1..], ident);
    }
  }

  /** The search for the root's hash ends at the root: its left subtree, which is searched first, lacks that hash. */
  ghost predicate RootFoundFirst(meta: Meta)
    requires |meta.chunks| == |meta.hashes| + 1
  {
    var t := StaticView(meta);
    forall k: nat :: k <= 2 * t.n && Within(k, 1) ==> t.value[k] != t.value[0]
  }

  lemma KnownHashesOfRoot(meta: Meta)
    requires |meta.chunks| == |meta.hashes| + 1 && RootFoundFirst(meta)
    ensures KnownHashes(meta) == ValuesOf(StaticView(meta), Leaves(|meta.hashes|, 0))
  {
    hide FirstBelow, Leaves, Within;
    var t := StaticView(meta);
    FirstBelowUnfold(t, 0, t.value[0]);
    assert t.At(0) == t.value[0];
    assert FirstBelow(t, 1, t.value[0]) == None;
    assert FirstBelow(t, 0, t.value[0]) == Some(0);
  }

  ghost predicate IsChunkHash(meta: Meta, hash: cstring) {
    exists i :: 0 <= i < |meta.chunks| && meta.chunks[i].hash == hash
  }

  /** The hashes of a list of leaves are those of the chunks that the leaves belong to. */
  lemma LeafHashes(meta: Meta, k: nat, hash: cstring)
    requires |meta.chunks| == |meta.hashes| + 1
    ensures hash in ValuesOf(StaticView(meta), Leaves(|meta.hashes|, k)) <==>
            exists i: nat ::
              i < |meta.chunks| && |meta.hashes| + i in Leaves(|meta.hashes|, k) && meta.chunks[i].hash == hash
  {
    hide Leaves, StaticView, Within;
    var n, t, leaves := |meta.hashes|, StaticView(meta), Leaves(|meta.hashes|, k);
    var s := ValuesOf(t, leaves);
    if hash in s {
      var q :| 0 <= q < |s| && s[q] == hash;
      LeafMember(n, k, leaves[q]);
      var i := leaves[q] - n;
      assert n + i == leaves[q] && meta.chunks[i].hash == hash;
    }
    if i: nat :| i < |meta.chunks| && n + i in leaves && meta.chunks[i].hash == hash {
      var q :| 0 <= q < |leaves| && leaves[q] == n + i;
      assert s[q] == t.value[n + i];
    }
  }

  /** The lookup then succeeds exactly for the hashes of the package's chunks. */
  lemma KnownHashesAreChunkHashes(meta: Meta, hash: cstring)
    requires |meta.chunks| == |meta.hashes| + 1 && RootFoundFirst(meta)
    ensures hash in KnownHashes(meta) <==> IsChunkHash(meta, hash)
  {
    hide FirstBelow, Leaves, KnownHashes, RootFoundFirst, StaticView;
    KnownHashesOfRoot(meta);
    LeafHashes(meta, 0, hash);
    if i :| 0 <= i < |meta.chunks| && meta.chunks[i].hash == hash {
      WithinRoot(|meta.hashes| + i);
      LeafMember(|meta.hashes|, 0, |meta.hashes| + i);
    }
  }

  ghost predicate DistinctChunkHashes(meta: Meta) {
    forall i, j :: 0 <= i < j < |meta.chunks| ==> meta.chunks[i].hash != meta.chunks[j].hash
  }

  /** With distinct chunk hashes that condition is exact: otherwise some chunk is never found. */
  lemma LookupIsExact(meta: Meta)
    requires |meta.chunks| == |meta.hashes| + 1 && DistinctChunkHashes(meta)
    ensures (forall hash :: hash in KnownHashes(meta) <==> IsChunkHash(meta, hash)) <==> RootFoundFirst(meta)
  {
    hide KnownHashes, StaticView;
    if RootFoundFirst(meta) {
      forall hash
        ensures hash in KnownHashes(meta) <==> IsChunkHash(meta, hash)
      {
        KnownHashesAreChunkHashes(meta, hash);
      }
    } else {
      var i := ChunkNotFound(meta);
      assert IsChunkHash(meta, meta.chunks[i].hash);
    }
  }

  /** If the root's hash is met in the left subtree, the lookup is confined to a node there. */
  lemma FoundInLeftSubtree(meta: Meta) returns (k: nat)
    requires |meta.chunks| == |meta.hashes| + 1 && !RootFoundFirst(meta)
    ensures Within(k, 1) && KnownHashes(meta) == ValuesOf(StaticView(meta), Leaves(|meta.hashes|, k))
  {
    hide FirstBelow, Leaves, Within;
    var t := StaticView(meta);
    FirstBelowUnfold(t, 0, t.value[0]);
    assert FirstBelow(t, 1, t.value[0]).Some?;
    k := FirstBelow(t, 0, t.value[0]).value;
  }

  /** The left subtree is not empty in a tree of more than one node. */
  lemma LeftSubtreeKeys(meta: Meta)
    requires |meta.chunks| == |meta.hashes| + 1 && !RootFoundFirst(meta)
    ensures |meta.hashes| >= 1
  {
    WithinBelow(0, 1);
  }

  /** Then the chunks below the right child are not found. */
  lemma ChunkNotFound(meta: Meta) returns (i: nat)
    requires |meta.chunks| == |meta.hashes| + 1 && DistinctChunkHashes(meta) && !RootFoundFirst(meta)
    ensures i < |meta.chunks| && meta.chunks[i].hash !in KnownHashes(meta)
  {
    hide KnownHashes, StaticView, ValuesOf, RootFoundFirst, Leaves, Within;
    var n := |meta.hashes|;
    LeftSubtreeKeys(meta);
    var k := FoundInLeftSubtree(meta);
    var j := LeafBesideLeftSubtree(n, k);
    i := j - n;
    LeafHashes(meta, k, meta.chunks[i].hash);
  }

  /** A leaf below the right child of the root is not below a node of the left subtree. */
  lemma LeafBesideLeftSubtree(n: nat, k: nat) returns (j: nat)
    requires n >= 1 && Within(k, 1)
    ensures n <= j <= 2 * n && j !in Leaves(n, k)
  {
    hide Leaves, Within;
    LeavesNonEmpty(n, 2);
    j := Leaves(n, 2)[0];
    LeafMember(n, 2, j);
    LeafMember(n, k, j);
    WithinChildren(j, 0);
    if Within(j, k) {
      WithinTransitive(j, k, 1);
    }
  }

  /** In a tree of three nodes the left leaf is met before the root. */
  lemma LeftLeafFirst(t: TreeView)
    requires t.Valid() && t.n == 1 && t.At(1) == t.At(0)
    ensures ChunkHashesFrom(t, t.At(0)) == Some([t.At(1)])
  {
    hide FirstBelow, Leaves, Within, TreeView.At;
    FirstBelowUnfold(t, 0, t.At(0));
    FirstBelowUnfold(t, 1, t.At(0));
    FirstBelowUnfold(t, 3, t.At(0));
    assert FirstBelow(t, 0, t.At(0)) == Some(1);
    LeavesUnfold(1, 1);
    assert ValuesOf(t, [1]) == [t.At(1)];
  }

  /** Two chunks, the first with the root's hash: the second is not found. */
  lemma LookupExample(h: cstring, g: cstring)
    requires h != g
    ensures var meta := Meta([], [], [h], [ChunkInfo(h, 0, 1), ChunkInfo(g, 1, 1)]);
            KnownHashes(meta) == [h] && IsChunkHash(meta, g) && g !in KnownHashes(meta)
  {
    hide ChunkHashesFrom;
    var meta := Meta([], [], [h], [ChunkInfo(h, 0, 1), ChunkInfo(g, 1, 1)]);
    var t := StaticView(meta);
    assert t.n == 1 && t.At(0) == h && t.At(1) == h && t.value[0] == h;
    LeftLeafFirst(t);
    assert meta.chunks[1].hash == g;
  }

  // The range of a request

  datatype ReqArgs = ReqArgs(dataLen: nat, fileOffset: nat)

  function ChunkEnd(c: ChunkInfo): nat {
    (c.offset + c.size) % TWO32
  }

  /** calculate_data_len over the chunks from index i on; None is NULL. */
  function DataLen(chunks: seq<ChunkInfo>, hash: cstring, offset: Option<nat>, i: nat): Option<ReqArgs>
    requires i <= |chunks|
    decreases |chunks| - i
  {
    if i == |chunks| then None
    else if chunks[i].hash == hash then
      match offset
      case None => Some(ReqArgs(chunks[i].size, chunks[i].offset))
      case Some(o) =>
        if chunks[i].offset <= o <= ChunkEnd(chunks[i]) then Some(ReqArgs(ChunkEnd(chunks[i]) - o, o))
        else DataLen(chunks, hash, offset, i + 1)
    else DataLen(chunks, hash, offset, i + 1)
  }

  /** Chunk c answers a request for this hash and offset. */
  predicate Answers(c: ChunkInfo, hash: cstring, offset: Option<nat>) {
    c.hash == hash && (offset.Some? ==> c.offset <= offset.value <= ChunkEnd(c))
  }

  function AnswerOf(c: ChunkInfo, offset: Option<nat>): ReqArgs
    requires offset.Some? ==> offset.value <= ChunkEnd(c)
  {
    match offset
    case None => ReqArgs(c.size, c.offset)
    case Some(o) => ReqArgs(ChunkEnd(c) - o, o)
  }

  /** The first chunk that answers decides; there is no result exactly if none does. */
  lemma {:induction false} DataLenFirst(chunks: seq<ChunkInfo>, hash: cstring, offset: Option<nat>, i: nat, c: nat)
    requires i <= c <= |chunks|
    requires forall j :: i <= j < c ==> !Answers(chunks[j], hash, offset)
    ensures c == |chunks| ==> DataLen(chunks, hash, offset, i) == None
    ensures c < |chunks| && Answers(chunks[c], hash, offset) ==>
              DataLen(chunks, hash, offset, i) == Some(AnswerOf(chunks[c], offset))
    decreases |chunks| - i
  {
    if i < c {
      DataLenFirst(chunks, hash, offset, i + 1, c);
    }
  }

  /** A result always ends at the end of a chunk with that hash, and starts inside it. */
  lemma {:induction false} DataLenEndsChunk(chunks: seq<ChunkInfo>, hash: cstring, offset: Option<nat>, i: nat)
    requires i <= |chunks| && DataLen(chunks, hash, offset, i).Some?
    requires forall j :: 0 <= j < |chunks| ==> chunks[j].offset + chunks[j].size < TWO32
    ensures var a := DataLen(chunks, hash, offset, i).value;
            exists c :: 0 <= c < |chunks| && chunks[c].hash == hash
                        && chunks[c].offset <= a.fileOffset
                        && a.fileOffset + a.dataLen == chunks[c].offset + chunks[c].size
    decreases |chunks| - i
  {
    if !Answers(chunks[i], hash, offset) {
      DataLenEndsChunk(chunks, hash, offset, i + 1);
    }
  }

  /** o is the first byte of chunk c, and the chunk before it has the same hash. */
  predicate AtTwin(meta: Meta, c: nat, o: nat)
    requires c < |meta.chunks|
  {
    o == meta.chunks[c].offset && c > 0 && meta.chunks[c - 1].hash == meta.chunks[c].hash
  }

  /**
   Asking for offset o inside chunk c gives the rest of chunk c, except when o is the first byte of c and the chunk
   before it has the same hash: the upper bound of the range test is inclusive, and the answer is an empty range.
   */
  lemma DataLenInside(meta: Meta, c: nat, o: nat)
    requires meta.WellFormed() && c < |meta.chunks|
    requires meta.chunks[c].offset <= o < meta.chunks[c].offset + meta.chunks[c].size
    ensures var r := DataLen(meta.chunks, meta.chunks[c].hash, Some(o), 0);
            && (r == Some(ReqArgs(meta.chunks[c].offset + meta.chunks[c].size - o, o)) <==> !AtTwin(meta, c, o))
            && (AtTwin(meta, c, o) ==> r == Some(ReqArgs(0, o)))
  {
    hide DataLen;
    var chunks, hash := meta.chunks, meta.chunks[c].hash;
    EndOfChunk(meta, c);
    forall j | 0 <= j < c
      ensures Answers(chunks[j], hash, Some(o)) <==> j + 1 == c && AtTwin(meta, c, o)
    {
      EarlierChunk(meta, j, c, o);
    }
    if AtTwin(meta, c, o) {
      EndOfChunk(meta, c - 1);
      ChunksInOrder(meta, c - 1, c);
      DataLenFirst(chunks, hash, Some(o), 0, c - 1);
    } else {
      DataLenFirst(chunks, hash, Some(o), 0, c);
    }
  }

  /** Two chunks of ten bytes with the same hash: asking for byte 10 gives an empty range. */
  lemma TwinExample(root: cstring, hash: cstring)
    ensures var meta := Meta([], [], [root], [ChunkInfo(hash, 0, 10), ChunkInfo(hash, 10, 10)]);
            && meta.WellFormed()
            && AtTwin(meta, 1, 10)
            && DataLen(meta.chunks, hash, Some(10), 0) == Some(ReqArgs(0, 10))
  {
    var meta := Meta([], [], [root], [ChunkInfo(hash, 0, 10), ChunkInfo(hash, 10, 10)]);
    DataLenInside(meta, 1, 10);
  }

  lemma EndOfChunk(meta: Meta, c: nat)
    requires meta.WellFormed() && c < |meta.chunks|
    ensures ChunkEnd(meta.chunks[c]) == meta.chunks[c].offset + meta.chunks[c].size
  {
    ChunkInFile(meta, c);
  }

  /** An earlier chunk ends at or before the start of a later one, and at it exactly if it comes right before. */
  lemma ChunksInOrder(meta: Meta, j: nat, c: nat)
    requires meta.WellFormed() && j < c < |meta.chunks|
    ensures var end := meta.chunks[j].offset + meta.chunks[j].size;
            end <= meta.chunks[c].offset && (end == meta.chunks[c].offset <==> j + 1 == c)
  {
    ChunkInFile(meta, j);
    ChunkInFile(meta, c);
    MultiplesInOrder(meta.Size(), j + 1, c);
  }

  lemma MultiplesInOrder(size: nat, a: nat, b: nat)
    requires size > 0 && a <= b
    ensures a * size <= b * size && (a * size == b * size <==> a == b)
  {
    MulDiff(size, a, b);
  }

  /** An earlier chunk answers only if it ends exactly where the later one starts. */
  lemma EarlierChunk(meta: Meta, j: nat, c: nat, o: nat)
    requires meta.WellFormed() && j < c < |meta.chunks| && meta.chunks[c].offset <= o
    ensures Answers(meta.chunks[j], meta.chunks[c].hash, Some(o)) <==>
            meta.chunks[j].hash == meta.chunks[c].hash && j + 1 == c && o == meta.chunks[c].offset
  {
    hide Meta.WellFormed, ChunkEnd;
    EndOfChunk(meta, j);
    ChunksInOrder(meta, j, c);
  }

  // The receiver

  type Files = map<cstring, seq<byte>>

  /** fseek to at and fwrite of data: a gap after the end of the file is filled with zeros. */
  function WriteAt(file: seq<byte>, at: nat, data: seq<byte>): seq<byte> {
    if data == [] then file
    else if at + |data| <= |file| then Written(file, at, data)
    else Written(file + Zeros(at + |data| - |file|), at, data)
  }

  /** add_data_to_file writes the data only if its own metadata allows it. */
  ghost predicate Accepted(cat: Catalog, res: Res)
    requires TreesComplete(cat)
  {
    && Lookup(cat, res.ident, res.hash) == 1
    && var a := DataLen(FindPackage(cat, res.ident).value.chunks, res.hash, Some(res.offset), 0);
       a.Some? && a.value.fileOffset == res.offset && a.value.dataLen >= res.len
  }

  /** fwrite is reached. */
  ghost predicate Writes(cat: Catalog, files: Files, res: Res)
    requires TreesComplete(cat)
  {
    Accepted(cat, res) && FindPackage(cat, res.ident).value.filename in files
  }

  /** The write, if there is one, takes only received bytes. */
  ghost predicate InsideData(cat: Catalog, files: Files, res: Res)
    requires TreesComplete(cat)
  {
    Writes(cat, files, res) ==> res.len <= |res.data|
  }

  ghost function Delivered(cat: Catalog, files: Files, res: Res): (r: Files)
    requires TreesComplete(cat) && InsideData(cat, files, res)
    ensures r.Keys == files.Keys
  {
    if !Writes(cat, files, res) then files
    else
      var name := FindPackage(cat, res.ident).value.filename;
      files[name := WriteAt(files[name], res.offset, res.data[..res.len])]
  }

  /** The range of every accepted packet, whatever its length field says, lies inside a chunk with its hash. */
  lemma AcceptedStaysInChunk(cat: Catalog, res: Res)
    requires TreesComplete(cat) && Accepted(cat, res) && FindPackage(cat, res.ident).value.WellFormed()
    ensures var meta := FindPackage(cat, res.ident).value;
            exists c :: 0 <= c < |meta.chunks| && meta.chunks[c].hash == res.hash
                        && meta.chunks[c].offset <= res.offset
                        && res.offset + res.len <= meta.chunks[c].offset + meta.chunks[c].size
                                                <= |meta.chunks| * meta.Size()
  {
    hide FindPackage, DataLen, Written, KnownHashes;
    var meta := FindPackage(cat, res.ident).value;
    forall j | 0 <= j < |meta.chunks|
      ensures meta.chunks[j].offset + meta.chunks[j].size <= |meta.chunks| * meta.Size() < TWO32
    {
      ChunkInFile(meta, j);
    }
    DataLenEndsChunk(meta.chunks, res.hash, Some(res.offset), 0);
  }

  /** A write to a file of full size overwrites exactly that range. */
  lemma WriteStaysInChunk(cat: Catalog, files: Files, res: Res)
    requires TreesComplete(cat) && Writes(cat, files, res) && InsideData(cat, files, res)
    requires var meta := FindPackage(cat, res.ident).value;
             meta.WellFormed() && |files[meta.filename]| == |meta.chunks| * meta.Size()
    ensures var name := FindPackage(cat, res.ident).value.filename;
            res.offset + res.len <= |files[name]|
            && Delivered(cat, files, res) == files[name := Written(files[name], res.offset, res.data[..res.len])]
  {
    AcceptedStaysInChunk(cat, res);
    hide FindPackage, Written, Accepted;
    var file := files[FindPackage(cat, res.ident).value.filename];
    if res.len == 0 {
      WrittenNothing(file, res.offset);
      assert res.data[..0] == [];
    }
  }

  /** No packet for the package makes the receiver take more bytes than it received. */
  ghost predicate BufferSuffices(cat: Catalog, files: Files, meta: Meta)
    requires TreesComplete(cat)
  {
    forall payload :: |payload| == PAYLOAD_MAX && FindPackage(cat, ParseRes(payload).ident) == Some(meta) ==>
                        InsideData(cat, files, ParseRes(payload))
  }

  /**
   The length field may exceed the 2998 bytes of the data field. For a package that the receiver can look up, every
   packet stays inside its data if and only if the chunks have at most 2998 bytes.
   */
  lemma BufferSufficesExactly(cat: Catalog, files: Files, ident: seq<byte>, meta: Meta)
    requires TreesComplete(cat) && FindPackage(cat, ident) == Some(meta) && |ident| == IDENT_SIZE
    requires meta.WellFormed() && meta.filename in files && RootFoundFirst(meta)
    requires |meta.chunks[0].hash| == CHUNK_HASH_SIZE && 0 !in meta.chunks[0].hash
    ensures BufferSuffices(cat, files, meta) <==> meta.Size() <= DATA_MAX_SIZE
  {
    hide FindPackage, ParseRes, ResPayload, Accepted, RootFoundFirst;
    if meta.Size() <= DATA_MAX_SIZE {
      forall payload | |payload| == PAYLOAD_MAX && FindPackage(cat, ParseRes(payload).ident) == Some(meta)
        ensures InsideData(cat, files, ParseRes(payload))
      {
        if Accepted(cat, ParseRes(payload)) {
          AcceptedStaysInChunk(cat, ParseRes(payload));
        }
      }
    } else {
      var payload := ResPayload(0, Zeros(DATA_MAX_SIZE), DATA_MAX_SIZE + 1, meta.chunks[0].hash, ident);
      LongPacket(cat, files, ident, meta, DATA_MAX_SIZE + 1);
      assert !InsideData(cat, files, ParseRes(payload));
    }
  }

  /** A packet for the start of a chunk that is longer than the data field, with such a length. */
  lemma LongPacket(cat: Catalog, files: Files, ident: seq<byte>, meta: Meta, len: nat)
    requires TreesComplete(cat) && FindPackage(cat, ident) == Some(meta) && |ident| == IDENT_SIZE
    requires meta.WellFormed() && meta.filename in files && RootFoundFirst(meta)
    requires |meta.chunks[0].hash| == CHUNK_HASH_SIZE && 0 !in meta.chunks[0].hash
    requires DATA_MAX_SIZE < len <= meta.Size() && len < 0x1_0000
    ensures var res := ParseRes(ResPayload(0, Zeros(DATA_MAX_SIZE), len, meta.chunks[0].hash, ident));
            res.ident == ident && res.len == len && Accepted(cat, res) && !InsideData(cat, files, res)
  {
    hide FindPackage, ParseRes, ResPayload, KnownHashes, RootFoundFirst;
    var hash := meta.chunks[0].hash;
    ResRoundTrip(0, Zeros(DATA_MAX_SIZE), len, hash, ident);
    CStrIdentity(hash);
    KnownHashesAreChunkHashes(meta, hash);
    DataLenInside(meta, 0, 0);
  }

  /** A chunk of 5000 bytes and a packet that claims 4000. */
  lemma LongPacketExample(ident: seq<byte>, hash: cstring)
    requires |ident| == IDENT_SIZE && |hash| == CHUNK_HASH_SIZE && 0 !in hash
    ensures var cat: Catalog := [Some(Meta(ident, [], [], [ChunkInfo(hash, 0, 5000)])), None];
            var res := ParseRes(ResPayload(0, Zeros(DATA_MAX_SIZE), 4000, hash, ident));
            TreesComplete(cat) && Accepted(cat, res) && !InsideData(cat, map[[] := Zeros(5000)], res)
  {
    hide ParseRes, ResPayload, Accepted, FindPackage;
    var meta := Meta(ident, [], [], [ChunkInfo(hash, 0, 5000)]);
    var cat: Catalog := [Some(meta), None];
    FindPackageIsLowest(cat, ident, 0);
    LongPacket(cat, map[[] := Zeros(5000)], ident, meta, 4000);
  }

  /** After a successful lookup a request without an offset has a range: that of the first chunk with the hash. */
  lemma FoundHasRange(cat: Catalog, ident: seq<byte>, hash: cstring)
    requires TreesComplete(cat) && Lookup(cat, ident, hash) == 1 && RootFoundFirst(FindPackage(cat, ident).value)
    ensures var chunks := FindPackage(cat, ident).value.chunks;
            exists c :: 0 <= c < |chunks| && chunks[c].hash == hash
                        && (forall j :: 0 <= j < c ==> chunks[j].hash != hash)
                        && DataLen(chunks, hash, None, 0) == Some(ReqArgs(chunks[c].size, chunks[c].offset))
  {
    hide KnownHashes, FindPackage, DataLen;
    FindPackageComplete(cat, ident);
    var meta := FindPackage(cat, ident).value;
    KnownHashesAreChunkHashes(meta, hash);
    var i :| 0 <= i < |meta.chunks| && meta.chunks[i].hash == hash;
    var c := FirstWith(meta.chunks, hash, i);
    DataLenFirst(meta.chunks, hash, None, 0, c);
  }

  lemma {:induction false} FirstWith(chunks: seq<ChunkInfo>, hash: cstring, i: nat) returns (c: nat)
    requires i < |chunks| && chunks[i].hash == hash
    ensures c < |chunks| && chunks[c].hash == hash && forall j :: 0 <= j < c ==> chunks[j].hash != hash
    decreases i
  {
    c := i;
    if j :| 0 <= j < i && chunks[j].hash == hash {
      c := FirstWith(chunks, hash, j);
    }
  }

  // The sender

  /** The data field of packet k of a request for len bytes at offset o of the file: 2998 bytes, zero filled. */
  function Piece(file: seq<byte>, o: nat, len: nat, k: nat): (d: seq<byte>)
    requires DATA_MAX_SIZE * k <= len && !ReadsShort(|file|, o, len, k)
    ensures |d| == DATA_MAX_SIZE
  {
    var n := PieceLen(len, k);
    file[o + DATA_MAX_SIZE * k..o + DATA_MAX_SIZE * k + n] + Zeros(DATA_MAX_SIZE - n)
  }

  function PieceLen(len: nat, k: nat): nat
    requires DATA_MAX_SIZE * k <= len
  {
    Min(DATA_MAX_SIZE, len - DATA_MAX_SIZE * k)
  }

  /** The fread for packet k of a request for len bytes at offset o gets fewer bytes than it asks for. */
  predicate ReadsShort(fileSize: nat, o: nat, len: nat, k: nat)
    requires DATA_MAX_SIZE * k <= len
  {
    o + DATA_MAX_SIZE * k + PieceLen(len, k) > fileSize
  }

  /** The send loop, which goes on while less than len has been read, meets a short read. */
  predicate MeetsShortRead(fileSize: nat, o: nat, len: nat) {
    exists k: nat :: k < PacketCount(len) && DATA_MAX_SIZE * k < len && ReadsShort(fileSize, o, len, k)
  }

  /** That happens if and only if something is requested and the range leaves the file. */
  lemma ShortReadExactly(fileSize: nat, o: nat, len: nat)
    ensures MeetsShortRead(fileSize, o, len) <==> len > 0 && o + len > fileSize
  {
    if len > 0 && o + len > fileSize {
      var k := PacketCount(len) - 1;
      PiecesInRange(len, k + 1);
      assert ReadsShort(fileSize, o, len, k);
    }
  }

  function PacketCount(len: nat): nat {
    (len + DATA_MAX_SIZE - 1) / DATA_MAX_SIZE
  }

  function ResPacket(file: seq<byte>, o: nat, len: nat, hash: seq<byte>, ident: seq<byte>, k: nat): Packet
    requires o + len <= |file| && DATA_MAX_SIZE * k <= len
    requires |hash| == CHUNK_HASH_SIZE && |ident| == IDENT_SIZE
  {
    Packet(PKT_MSG_RES, 0, ResPayload(o + DATA_MAX_SIZE * k, Piece(file, o, len, k), PieceLen(len, k), hash, ident))
  }

  /** The packets that answer a request, in order. */
  function ResPackets(file: seq<byte>, o: nat, len: nat, hash: seq<byte>, ident: seq<byte>): seq<Packet>
    requires o + len <= |file| && |hash| == CHUNK_HASH_SIZE && |ident| == IDENT_SIZE
  {
    seq(PacketCount(len), k requires 0 <= k < PacketCount(len) => ResPacket(file, o, len, hash, ident, k))
  }

  /** The data that the first k packets carry, put together. */
  function Carried(file: seq<byte>, o: nat, len: nat, k: nat): seq<byte>
    requires o + len <= |file| && k <= PacketCount(len)
  {
    if k == 0 then [] else
      Carried(file, o, len, k - 1) + Piece(file, o, len, k - 1)[..PieceLen(len, k - 1)]
  }

  /** The bytes of packet k before the zero fill. */
  lemma PieceData(file: seq<byte>, o: nat, len: nat, k: nat)
    requires o + len <= |file| && DATA_MAX_SIZE * k <= len
    ensures var n, at := PieceLen(len, k), o + DATA_MAX_SIZE * k;
            at + n <= o + len && Piece(file, o, len, k)[..n] == file[at..at + n]
  {
    var n, at := PieceLen(len, k), o + DATA_MAX_SIZE * k;
    assert |file[at..at + n]| == n;
    assert (file[at..at + n] + Zeros(DATA_MAX_SIZE - n))[..n] == file[at..at + n];
  }

  /** Before the last packet there are 2998 more bytes to send. */
  lemma PiecesInRange(len: nat, k: nat)
    requires 0 < k <= PacketCount(len)
    ensures DATA_MAX_SIZE * (k - 1) < len
    ensures Min(len, DATA_MAX_SIZE * (k - 1)) == DATA_MAX_SIZE * (k - 1)
    ensures DATA_MAX_SIZE * (k - 1) + PieceLen(len, k - 1) == Min(len, DATA_MAX_SIZE * k)
    ensures k == PacketCount(len) ==> Min(len, DATA_MAX_SIZE * k) == len
  {}

  /** There are ceil(len / 2998) packets and together they carry exactly the requested range. */
  lemma {:induction false} CarriedIsRange(file: seq<byte>, o: nat, len: nat, k: nat)
    requires o + len <= |file| && k <= PacketCount(len)
    ensures Carried(file, o, len, k) == file[o..o + Min(len, DATA_MAX_SIZE * k)]
    ensures k == PacketCount(len) ==> Carried(file, o, len, k) == file[o..o + len]
  {
    hide Piece, PieceLen, PacketCount;
    if k > 0 {
      PiecesInRange(len, k);
      CarriedIsRange(file, o, len, k - 1);
      PieceData(file, o, len, k - 1);
      SliceJoin(file, o, o + DATA_MAX_SIZE * (k - 1), o + Min(len, DATA_MAX_SIZE * k));
    } else {
      NothingToCarry(len);
    }
  }

  lemma SliceJoin(s: seq<byte>, a: nat, b: nat, c: nat)
    requires a <= b <= c <= |s|
    ensures s[a..b] + s[b..c] == s[a..c]
  {}

  lemma NothingToCarry(len: nat)
    ensures PacketCount(len) == 0 ==> len == 0
  {}

  const ERROR_PACKET := Packet(PKT_MSG_RES, 1, Zeros(PAYLOAD_MAX))

  /** Whether the REQ branch sends data; held says that some computed chunk hash equals the requested one. */
  ghost predicate Served(cat: Catalog, files: Files, held: bool, req: Req)
    requires TreesComplete(cat)
  {
    && Lookup(cat, req.ident, CStr(req.hash)) == 1
    && held
    && var meta := FindPackage(cat, req.ident).value;
       DataLen(meta.chunks, CStr(req.hash), Some(req.offset), 0).Some? && meta.filename in files
  }

  /** The requested length decides nothing: every served request is also served with a length that leaves the file. */
  lemma LengthNotChecked(cat: Catalog, files: Files, held: bool, req: Req)
    requires TreesComplete(cat) && Served(cat, files, held, req)
    ensures var size := |files[FindPackage(cat, req.ident).value.filename]|;
            var long := req.(len := size + 1);
            Served(cat, files, held, long) && MeetsShortRead(size, long.offset, long.len)
  {
    hide FindPackage, DataLen;
    var size := |files[FindPackage(cat, req.ident).value.filename]|;
    ShortReadExactly(size, req.offset, size + 1);
  }

  /** A range that is served lies inside the file. */
  ghost predicate RangeInFile(cat: Catalog, files: Files, held: bool, req: Req)
    requires TreesComplete(cat)
  {
    Served(cat, files, held, req) ==>
      req.offset + req.len <= |files[FindPackage(cat, req.ident).value.filename]|
  }

  ghost function Reply(cat: Catalog, files: Files, held: bool, req: Req): seq<Packet>
    requires TreesComplete(cat) && RangeInFile(cat, files, held, req)
    requires |req.hash| == CHUNK_HASH_SIZE && |req.ident| == IDENT_SIZE
  {
    if Served(cat, files, held, req) then
      ResPackets(files[FindPackage(cat, req.ident).value.filename], req.offset, req.len, req.hash, req.ident)
    else [ERROR_PACKET]
  }
}
