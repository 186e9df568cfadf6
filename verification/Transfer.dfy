/** The transfer code of src/package.c and src/peer.c, each routine proved against the functions of Protocol. */
module Transfer {
  import opened Bytes
  import opened HeapTree
  import opened MerkleTree
  import opened HashString
  import opened Package
  import opened Queries
  import opened PackageTable
  import opened Protocol
  import opened Fetch

  /** A table whose packages all have finished trees. */
  ghost predicate Ready(packages: ManagedPackages)
    reads *
  {
    packages.Valid() && forall i :: 0 <= i < |packages.Slots()| && packages.Slots()[i] != null ==> packages.Slots()[i].Valid()
  }

  ghost function Cat(packages: ManagedPackages): Catalog
    reads packages, packages.managedArray
  {
    CatalogOf(packages.Slots())
  }

  /** The package that the scan for an identifier stops at. */
  ghost function Chosen(packages: ManagedPackages, ident: seq<byte>): Bpkg?
    reads packages, packages.managedArray
  {
    var i := FirstIdent(packages.Slots(), ident);
    if i < |packages.Slots()| then packages.Slots()[i] else null
  }

  lemma ReadyTreesComplete(packages: ManagedPackages)
    requires Ready(packages)
    ensures TreesComplete(Cat(packages))
  {
    var slots := packages.Slots();
    forall i | 0 <= i < |slots| && slots[i] != null
      ensures |slots[i].chunks| == |slots[i].hashes| + 1
    {
      assert slots[i].Valid();
    }
  }

  // Looking up

  lemma {:induction false} FirstMatchByValue(t: TreeView, u: TreeView, keys: seq<nat>, hash: cstring)
    requires t.value == u.value
    ensures FirstMatch(t, keys, hash) == FirstMatch(u, keys, hash)
  {
    if keys != [] {
      FirstMatchByValue(t, u, keys[1..], hash);
    }
  }

  /** The answer to a hash query does not depend on computed hashes. */
  lemma QueryByValue(t: TreeView, u: TreeView, hash: cstring)
    requires t.Valid() && u.Valid() && t.n == u.n && t.value == u.value
    ensures ChunkHashesFrom(t, hash) == ChunkHashesFrom(u, hash)
  {
    hide InOrder, Leaves;
    FirstMatchByValue(t, u, InOrder(t.n, 0), hash);
    var r := FirstBelow(t, 0, hash);
    assert r == FirstBelow(u, 0, hash);
    if r.Some? {
      assert ValuesOf(t, Leaves(t.n, r.value)) == ValuesOf(u, Leaves(t.n, r.value));
    }
  }

  lemma QueryOfPackage(bpkg: Bpkg)
    requires bpkg.Valid()
    ensures bpkg.root.value == StaticView(bpkg.Info()).value[0]
    ensures ChunkHashesFrom(bpkg.lay.View(), bpkg.root.value) == Some(KnownHashes(bpkg.Info()))
  {
    hide ChunkHashesFrom;
    var t, u := bpkg.lay.View(), StaticView(bpkg.Info());
    PackageMatches(bpkg);
    MatchesSameValues(t, u, bpkg.Info());
    QueryByValue(t, u, u.value[0]);
    assert bpkg.lay.NodeLinked(0);
    RootIsFound(u);
  }

  lemma MatchesSameValues(t: TreeView, u: TreeView, meta: Meta)
    requires Matches(t, meta) && Matches(u, meta)
    ensures t.n == u.n && t.value == u.value
  {
    forall k | 0 <= k <= 2 * t.n
      ensures t.value[k] == u.value[k]
    {
      if k >= t.n {
        var i := k - t.n;
        assert t.value[t.n + i] == meta.chunks[i].hash;
        assert u.value[u.n + i] == meta.chunks[i].hash;
      }
    }
  }

  lemma RootIsFound(t: TreeView)
    requires t.Valid()
    ensures ChunkHashesFrom(t, t.value[0]).Some?
  {
    WithinRoot(0);
    assert t.At(0) == t.value[0];
  }

  /** The first slot with the identifier is the one chosen. */
  lemma ChosenIs(packages: ManagedPackages, ident: seq<byte>, i: nat)
    requires i < |packages.Slots()| && packages.Slots()[i] != null && SameIdent(packages.Slots()[i].ident, ident)
    requires forall j :: 0 <= j < i && Cat(packages)[j].Some? ==> !SameIdent(Cat(packages)[j].value.ident, ident)
    ensures Chosen(packages, ident) == packages.Slots()[i]
    ensures FindPackage(Cat(packages), ident) == Some(packages.Slots()[i].Info())
  {
    hide SameIdent, FindPackage;
    var slots, cat := packages.Slots(), Cat(packages);
    FindPackageIsLowest(cat, ident, i);
    forall j | 0 <= j < i
      ensures slots[j] == null || !SameIdent(slots[j].ident, ident)
    {
      assert slots[j] != null ==> cat[j] == Some(slots[j].Info());
    }
  }

  method ChunkInMemory(packages: ManagedPackages, ident: seq<byte>, chunkHash: cstring)
    returns (ret: int, chosen: Bpkg?)
    requires Ready(packages)
    ensures TreesComplete(Cat(packages)) && ret == Lookup(Cat(packages), ident, chunkHash)
    ensures ret == 1 ==> chosen != null && chosen == Chosen(packages, ident)
                         && FindPackage(Cat(packages), ident) == Some(chosen.Info())
  {
    hide KnownHashes, Layout.Linked, SameIdent, FindPackage, ChunkHashesFrom;
    chosen := null;
    ReadyTreesComplete(packages);
    ghost var cat := Cat(packages);
    for i := 0 to packages.capacity
      invariant forall j :: 0 <= j < i && cat[j].Some? ==> !SameIdent(cat[j].value.ident, ident)
    {
      var current := packages.managedArray[i];
      if current != null {
        assert cat[i] == Some(current.Info());
        if SameIdent(current.ident, ident) {
          ChosenIs(packages, ident, i);
          assert packages.Slots()[i].Valid();
          QueryOfPackage(current);
          var qry := GetAllChunkHashesFromHash(current, current.root.value);
          var hashes := qry.value;
          for k := 0 to |hashes|
            invariant chunkHash !in hashes[..k]
          {
            if hashes[k] == chunkHash {
              return 1, current;
            }
          }
          assert hashes[..|hashes|] == hashes;
          return -1, null;
        }
      }
    }
    FindPackageNone(cat, ident);
    return -2, null;
  }

  method CalculateDataLen(bpkg: Bpkg, hash: cstring, offset: Option<nat>) returns (reqArgs: Option<ReqArgs>)
    ensures reqArgs == DataLen(bpkg.Info().chunks, hash, offset, 0)
  {
    ghost var chunks := bpkg.Info().chunks;
    for i := 0 to |bpkg.chunks|
      invariant forall j :: 0 <= j < i ==> !Answers(chunks[j], hash, offset)
    {
      var chunk := bpkg.chunks[i];
      if chunk.hash == hash {
        if offset.Some? {
          var chunkEnd := (chunk.offset + chunk.size) % TWO32;
          if chunk.offset <= offset.value <= chunkEnd {
            DataLenFirst(chunks, hash, offset, 0, i);
            return Some(ReqArgs(chunkEnd - offset.value, offset.value));
          } else {
            continue;
          }
        } else {
          DataLenFirst(chunks, hash, offset, 0, i);
          return Some(ReqArgs(chunk.size, chunk.offset));
        }
      }
    }
    DataLenFirst(chunks, hash, offset, 0, |chunks|);
    return None;
  }

  // The receiver

  method AddDataToFile(packages: ManagedPackages, res: Res, disk: Disk)
    requires Ready(packages) && TreesComplete(Cat(packages)) && InsideData(Cat(packages), disk.files, res)
    modifies disk
    ensures disk.files == Delivered(Cat(packages), old(disk.files), res)
  {
    hide Lookup, FindPackage, DataLen;
    var ret, chosen := ChunkInMemory(packages, res.ident, res.hash);
    if ret != 1 {
      return;
    }
    var reqArgs := CalculateDataLen(chosen, res.hash, Some(res.offset));
    if reqArgs == None {
      return;
    }
    if reqArgs.value.fileOffset == res.offset && reqArgs.value.dataLen >= res.len {
    } else {
      return;
    }
    if chosen.filename in disk.files {
      var file := disk.files[chosen.filename];
      disk.files := disk.files[chosen.filename := WriteAt(file, reqArgs.value.fileOffset, res.data[..res.len])];
    }
  }

  /** The reading of a RES packet (lines 490-509). */
  method ReadRes(payload: seq<byte>) returns (res: Res)
    requires |payload| == PAYLOAD_MAX
    ensures res == ParseRes(payload)
  {
    hide LittleEndianValue, CStr;
    var data := new byte[DATA_MAX_SIZE](_ => 0);
    var hash := new byte[CHUNK_HASH_SIZE + 1](_ => 0);
    var totalSizeRead := 0;
    var offset := LittleEndianValue(payload[totalSizeRead..totalSizeRead + 4]);
    totalSizeRead := totalSizeRead + 4;
    MemCpy(data, 0, payload[totalSizeRead..totalSizeRead + DATA_MAX_SIZE]);
    totalSizeRead := totalSizeRead + DATA_MAX_SIZE;
    var dataLen := LittleEndianValue(payload[totalSizeRead..totalSizeRead + 2]);
    totalSizeRead := totalSizeRead + 2;
    MemCpy(hash, 0, payload[totalSizeRead..totalSizeRead + CHUNK_HASH_SIZE]);
    totalSizeRead := totalSizeRead + CHUNK_HASH_SIZE;
    var ident := payload[totalSizeRead..];
    assert payload[0..4] == payload[..4] && ident == payload[3068..4092];
    assert data[..] == payload[4..3002];
    assert hash[..] == payload[3004..3068] + [0];
    TerminatorIgnored(payload[3004..3068]);
    res := Res(offset, data[..], dataLen, CStr(hash[..]), ident);
  }

  /** The RES branch of handle_peers. Only a packet that leads to a write has to keep to its data field. */
  method HandleRes(packages: ManagedPackages, packet: Packet, disk: Disk)
    requires Ready(packages) && TreesComplete(Cat(packages)) && |packet.payload| == PAYLOAD_MAX
    requires packet.error == 0 ==> InsideData(Cat(packages), disk.files, ParseRes(packet.payload))
    modifies disk
    ensures packet.error == 0 ==>
              disk.files == Delivered(Cat(packages), old(disk.files), ParseRes(packet.payload))
    ensures packet.error != 0 ==> disk.files == old(disk.files)
  {
    hide Delivered, ParseRes, InsideData;
    if packet.error == 0 {
      var res := ReadRes(packet.payload);
      AddDataToFile(packages, res, disk);
    }
  }

  /** The NUL attached after the hash field ends the string at the same place. */
  lemma {:induction false} TerminatorIgnored(s: seq<byte>)
    ensures CStr(s + [0]) == CStr(s)
  {
    if s != [] {
      assert (s + [0])[1..] == s[1..] + [0];
      TerminatorIgnored(s[1..]);
    }
  }

  // The sender

  class ReadHandle {
    const content: seq<byte>
    var pos: nat

    constructor (content: seq<byte>, pos: nat)
      ensures this.content == content && this.pos == pos
    {
      this.content, this.pos := content, pos;
    }
  }

  /** struct res_args as the sender uses it. */
  class ResArgs {
    const dataLen: nat
    const chunkHash: seq<byte>
    const ident: seq<byte>
    const data: array<byte>
    var fileOffset: nat     // uint32_t
    var bytesRead: nat      // int
    var currentRead: nat    // uint16_t

    constructor (dataLen: nat, chunkHash: seq<byte>, ident: seq<byte>, fileOffset: nat)
      ensures this.dataLen == dataLen && this.chunkHash == chunkHash && this.ident == ident
      ensures this.fileOffset == fileOffset && bytesRead == 0 && currentRead == 0
      ensures fresh(data) && data.Length == DATA_MAX_SIZE
    {
      this.dataLen, this.chunkHash, this.ident := dataLen, chunkHash, ident;
      this.fileOffset, bytesRead, currentRead := fileOffset, 0, 0;
      data := new byte[DATA_MAX_SIZE](_ => 0);
    }
  }

  /** get_data_from_file on an open file: reads the next piece (lines 278-309). */
  method ReadPiece(args: ResArgs, file: ReadHandle, ghost o: nat)
    requires args.data.Length == DATA_MAX_SIZE && args.bytesRead < args.dataLen
    requires args.bytesRead % DATA_MAX_SIZE == 0
    requires file.pos == o + args.bytesRead
    requires !ReadsShort(|file.content|, o, args.dataLen, args.bytesRead / DATA_MAX_SIZE)
    modifies args`bytesRead, args`currentRead, args.data, file`pos
    ensures var k := old(args.bytesRead) / DATA_MAX_SIZE;
            && DATA_MAX_SIZE * k == old(args.bytesRead) < args.dataLen
            && args.currentRead == PieceLen(args.dataLen, k)
            && args.data[..] == Piece(file.content, o, args.dataLen, k)
    ensures args.bytesRead == old(args.bytesRead) + args.currentRead && file.pos == o + args.bytesRead
  {
    if args.dataLen - args.bytesRead < DATA_MAX_SIZE {
      var readAmount := args.dataLen - args.bytesRead;
      MemCpy(args.data, 0, file.content[file.pos..file.pos + readAmount]);
      var numRead := readAmount;
      file.pos := file.pos + numRead;
      args.bytesRead := args.bytesRead + numRead;
      args.currentRead := numRead;
      MemSet(args.data, numRead, 0, DATA_MAX_SIZE - numRead);
    } else {
      MemCpy(args.data, 0, file.content[file.pos..file.pos + DATA_MAX_SIZE]);
      var numRead := DATA_MAX_SIZE;
      file.pos := file.pos + numRead;
      args.bytesRead := args.bytesRead + numRead;
      args.currentRead := numRead;
    }
  }

  /** The payload of send_res (lines 184-199): the 4-byte store of the length overlaps the hash, which is copied next. */
  method FillRes(args: ResArgs) returns (bytes: seq<byte>)
    requires args.data.Length == DATA_MAX_SIZE
    requires |args.chunkHash| == CHUNK_HASH_SIZE && |args.ident| == IDENT_SIZE
    ensures bytes == ResPayload(args.fileOffset, args.data[..], args.currentRead, args.chunkHash, args.ident)
  {
    hide LittleEndian, Zeros;
    var payload := new byte[PAYLOAD_MAX](_ => 0);
    var totalSize := 0;
    Put(payload, totalSize, LittleEndian(4, args.fileOffset));
    totalSize := totalSize + 4;
    Put(payload, totalSize, args.data[..]);
    totalSize := totalSize + DATA_MAX_SIZE;
    PutLength(payload, totalSize, args.currentRead);
    totalSize := totalSize + 2;
    Put(payload, totalSize, args.chunkHash);
    totalSize := totalSize + CHUNK_HASH_SIZE;
    Put(payload, totalSize, args.ident);
    totalSize := totalSize + IDENT_SIZE;
    assert payload[..] == payload[..totalSize];
    bytes := payload[..];
  }

  method SendRes(args: ResArgs, error: bool) returns (packet: Packet)
    requires args.data.Length == DATA_MAX_SIZE
    requires |args.chunkHash| == CHUNK_HASH_SIZE && |args.ident| == IDENT_SIZE
    ensures packet == if error then ERROR_PACKET
                      else Packet(PKT_MSG_RES, 0, ResPayload(args.fileOffset, args.data[..], args.currentRead,
                                                             args.chunkHash, args.ident))
  {
    hide ResPayload;
    if !error {
      var payload := FillRes(args);
      packet := Packet(PKT_MSG_RES, 0, payload);
    } else {
      packet := Packet(PKT_MSG_RES, 1, Zeros(PAYLOAD_MAX));
    }
  }

  /** A store or memcpy at position at, of which only the bytes up to its end matter. */
  method Put(payload: array<byte>, at: nat, src: seq<byte>)
    requires at + |src| <= payload.Length
    modifies payload
    ensures payload[..at + |src|] == old(payload[..at]) + src
    ensures payload[at + |src|..] == old(payload[at + |src|..])
  {
    MemCpy(payload, at, src);
  }

  /** The 4-byte store of the length, of which the first two bytes stay. */
  method PutLength(payload: array<byte>, at: nat, len: nat)
    requires at + 4 <= payload.Length
    modifies payload
    ensures payload[..at + 2] == old(payload[..at]) + LittleEndian(2, len)
  {
    hide LittleEndian;
    ghost var filled := payload[..at];
    var field := LittleEndian(4, len);
    LittleEndianPrefix(len);
    Put(payload, at, field);
    assert payload[..at + 2] == payload[..at + 4][..at + 2] == (filled + field)[..at + 2] == filled + field[..2];
  }

  lemma LittleEndianPrefix(v: nat)
    ensures LittleEndian(4, v)[..2] == LittleEndian(2, v)
  {
    assert LittleEndian(4, v) == [v % 256] + LittleEndian(3, v / 256);
    assert LittleEndian(3, v / 256) == [v / 256 % 256] + LittleEndian(2, v / 256 / 256);
    assert LittleEndian(2, v) == [v % 256] + LittleEndian(1, v / 256);
    assert LittleEndian(1, v / 256) == [v / 256 % 256] + LittleEndian(0, v / 256 / 256);
  }

  /** send_req */
  method SendReq(offset: nat, len: nat, hash: seq<byte>, ident: seq<byte>) returns (packet: Packet)
    requires |hash| == CHUNK_HASH_SIZE && |ident| == IDENT_SIZE
    ensures packet == Packet(PKT_MSG_REQ, 0, ReqPayload(offset, len, hash, ident))
  {
    hide LittleEndian, Zeros;
    var payload := new byte[PAYLOAD_MAX](_ => 0);
    assert payload[..0] == [] && payload[0..] == Zeros(PAYLOAD_MAX);
    PutInZeros(payload, 0, LittleEndian(4, offset));
    PutInZeros(payload, 4, LittleEndian(4, len));
    PutInZeros(payload, 8, hash);
    PutInZeros(payload, 8 + CHUNK_HASH_SIZE, ident);
    assert payload[..] == payload[..1096] + payload[1096..];
    packet := Packet(PKT_MSG_REQ, 0, payload[..]);
  }

  /** A store at position at of a payload that is still zero from there on. */
  method PutInZeros(payload: array<byte>, at: nat, src: seq<byte>)
    requires at + |src| <= payload.Length == PAYLOAD_MAX && payload[at..] == Zeros(PAYLOAD_MAX - at)
    modifies payload
    ensures payload[..at + |src|] == old(payload[..at]) + src
    ensures payload[at + |src|..] == Zeros(PAYLOAD_MAX - at - |src|)
  {
    Put(payload, at, src);
    assert old(payload[at + |src|..]) == old(payload[at..])[|src|..];
    ZerosTail(PAYLOAD_MAX - at, |src|);
  }

  lemma ZerosTail(n: nat, k: nat)
    requires k <= n
    ensures Zeros(n)[k..] == Zeros(n - k)
  {}

  /** What the hash loop would leave in the tree. */
  ghost function Rehashed(bpkg: Bpkg, disk: Disk): (t: TreeView)
    requires bpkg.Valid()
    reads disk
    reads bpkg.lay.nodes`left, bpkg.lay.nodes`right, bpkg.lay.nodes`computedHash, bpkg.lay.chunks`nodePtr
    ensures t.Valid() && t.n + 1 == |bpkg.chunks|
  {
    Refreshed(bpkg.lay.View(), bpkg.chunks[0].size, disk.Read(bpkg.filename))
  }

  /** The computed hash of chunk i. */
  ghost function LeafHash(t: TreeView, i: nat): cstring
    requires t.Valid() && i <= t.n
  {
    t.computed[t.n + i]
  }

  ghost predicate SomeLeafHas(t: TreeView, hash: cstring)
    requires t.Valid()
  {
    exists i: nat :: i <= t.n && LeafHash(t, i) == hash
  }

  /** After the hash loop the computed hash of some chunk is the given one. */
  ghost predicate HeldAfterHashing(bpkg: Bpkg, disk: Disk, hash: cstring)
    requires bpkg.Valid()
    reads disk
    reads bpkg.lay.nodes`left, bpkg.lay.nodes`right, bpkg.lay.nodes`computedHash, bpkg.lay.chunks`nodePtr
  {
    SomeLeafHas(Rehashed(bpkg, disk), hash)
  }

  /** With a file of full size, whether a hash is held is a matter of the file alone. */
  lemma HeldIsHeldIn(bpkg: Bpkg, disk: Disk, hash: cstring)
    requires bpkg.Valid() && bpkg.Info().WellFormed() && bpkg.filename in disk.files
    requires |disk.files[bpkg.filename]| == |bpkg.Info().chunks| * bpkg.Info().Size()
    ensures HeldAfterHashing(bpkg, disk, hash) <==> HeldIn(bpkg.Info(), disk.files[bpkg.filename], hash)
  {
    hide HashOf, Layout.View, Rehashed, LeafHash;
    var meta, file := bpkg.Info(), disk.files[bpkg.filename];
    forall i: nat | i < |meta.chunks|
      ensures meta.chunks[i].offset + meta.chunks[i].size <= |file|
      ensures i <= Rehashed(bpkg, disk).n
      ensures LeafHash(Rehashed(bpkg, disk), i) == HashOf(ChunkBytes(file, meta.chunks[i]))
    {
      ChunkInFile(meta, i);
      ComputedChunk(bpkg, disk, file, i);
    }
  }

  lemma ComputedChunk(bpkg: Bpkg, disk: Disk, file: seq<byte>, i: nat)
    requires bpkg.Valid() && bpkg.Info().WellFormed() && i < |bpkg.chunks|
    requires disk.Read(bpkg.filename) == Some(file) && |file| == |bpkg.Info().chunks| * bpkg.Info().Size()
    requires bpkg.chunks[i].offset + bpkg.chunks[i].size <= |file|
    ensures i <= Rehashed(bpkg, disk).n
    ensures LeafHash(Rehashed(bpkg, disk), i) == HashOf(ChunkBytes(file, bpkg.Info().chunks[i]))
  {
    hide HashOf;
    var meta := bpkg.Info();
    ChunkInFile(meta, i);
    assert Slice(file, meta.Size(), i) == ChunkBytes(file, meta.chunks[i]);
  }

  /** get_data_from_file with no file yet, the package having been found (lines 235-274); null stands for NULL. */
  method OpenChunk(chosen: Bpkg, disk: Disk, hash: cstring, offset: nat) returns (file: ReadHandle?)
    requires chosen.Valid() && chosen.chunks[0].size < TWO32
    requires FitsChunks(disk.Read(chosen.filename), chosen.chunks[0].size, |chosen.chunks|)
    modifies chosen.lay.nodes`computedHash
    ensures chosen.lay.View() == old(Rehashed(chosen, disk))
    ensures (file != null) == (&& old(HeldAfterHashing(chosen, disk, hash))
                               && DataLen(chosen.Info().chunks, hash, Some(offset), 0).Some?
                               && chosen.filename in disk.files)
    ensures file != null ==> fresh(file) && file.content == disk.files[chosen.filename] && file.pos == offset
  {
    hide DataLen, FitsChunks, Layout.View, Layout.NodeLinked, Refreshed, LeafHash;
    ghost var after := Rehashed(chosen, disk);
    file := null;
    ComputeHashesForChunks(chosen, disk);
    for i := 0 to |chosen.chunks|
      invariant chosen.lay.View() == after
      invariant forall j: nat :: j < i ==> LeafHash(after, j) != hash
    {
      ComputedInView(chosen, i);
      if chosen.chunks[i].nodePtr.computedHash == hash {
        var reqArgs := CalculateDataLen(chosen, hash, Some(offset));
        if reqArgs == None {
          return;
        }
        OffsetKept(chosen.Info().chunks, hash, offset, 0);
        if chosen.filename in disk.files {
          file := new ReadHandle(disk.files[chosen.filename], reqArgs.value.fileOffset);
        }
        return;
      }
    }
  }

  lemma ComputedInView(bpkg: Bpkg, i: nat)
    requires bpkg.Valid() && i < |bpkg.chunks|
    ensures bpkg.chunks[i].nodePtr != null
    ensures bpkg.lay.View().Valid() && i <= bpkg.lay.View().n
    ensures bpkg.chunks[i].nodePtr.computedHash == LeafHash(bpkg.lay.View(), i)
  {
    assert bpkg.lay.chunks[i].nodePtr == bpkg.lay.nodes[bpkg.lay.N() + i];
  }

  lemma {:induction false} OffsetKept(chunks: seq<ChunkInfo>, hash: cstring, offset: nat, i: nat)
    requires i <= |chunks|
    ensures var r := DataLen(chunks, hash, Some(offset), i);
            r.Some? ==> r.value.fileOffset == offset
    decreases |chunks| - i
  {
    if i < |chunks| {
      OffsetKept(chunks, hash, offset, i + 1);
    }
  }

  /** The send loop (lines 467-475): reads and sends pieces until the requested length has been read. */
  method SendPieces(file: ReadHandle, req: Req) returns (packets: seq<Packet>)
    requires |req.hash| == CHUNK_HASH_SIZE && |req.ident| == IDENT_SIZE
    requires file.pos == req.offset && req.offset + req.len <= |file.content| && req.len < INT_LIMIT
    modifies file`pos
    ensures packets == ResPackets(file.content, req.offset, req.len, req.hash, req.ident)
  {
    hide Piece, ResPayload, PieceLen, PacketCount;
    var args := new ResArgs(req.len, req.hash, req.ident, req.offset);
    packets := [];
    ghost var want := ResPackets(file.content, req.offset, req.len, req.hash, req.ident);
    NothingSent(req.len);
    while args.bytesRead < args.dataLen
      invariant fresh(args) && fresh(args.data) && args.data.Length == DATA_MAX_SIZE
      invariant args.dataLen == req.len && args.chunkHash == req.hash && args.ident == req.ident
      invariant |packets| <= PacketCount(req.len) && packets == want[..|packets|]
      invariant args.bytesRead == Min(req.len, DATA_MAX_SIZE * |packets|)
      invariant args.bytesRead == req.len ==> |packets| == PacketCount(req.len)
      invariant args.fileOffset % TWO32 == (req.offset + args.bytesRead) % TWO32
      invariant file.pos == req.offset + args.bytesRead
      decreases args.dataLen - args.bytesRead
    {
      ghost var k := |packets|;
      OneMorePacket(req.len, k);
      ReadPiece(args, file, req.offset);
      SameOffset(args, req.offset + DATA_MAX_SIZE * k);
      var packet := SendRes(args, false);
      assert packet == want[k];
      packets := packets + [packet];
      NextOffset(args.fileOffset, req.offset + DATA_MAX_SIZE * k, args.currentRead);
      args.fileOffset := (args.fileOffset + args.currentRead) % TWO32;
    }
  }

  lemma NothingSent(len: nat)
    ensures len == 0 ==> PacketCount(len) == 0
  {}

  /** Packet k is sent while less than everything has been read. */
  lemma OneMorePacket(len: nat, k: nat)
    requires k <= PacketCount(len) && Min(len, DATA_MAX_SIZE * k) < len
    ensures k < PacketCount(len) && DATA_MAX_SIZE * k < len
    ensures DATA_MAX_SIZE * k + PieceLen(len, k) == Min(len, DATA_MAX_SIZE * (k + 1))
    ensures DATA_MAX_SIZE * k + PieceLen(len, k) == len ==> k + 1 == PacketCount(len)
  {}

  /** The running 32-bit offset gives the same packet as the true position in the file. */
  lemma SameOffset(args: ResArgs, at: nat)
    requires args.data.Length == DATA_MAX_SIZE && |args.chunkHash| == CHUNK_HASH_SIZE && |args.ident| == IDENT_SIZE
    requires args.fileOffset % TWO32 == at % TWO32
    ensures ResPayload(args.fileOffset, args.data[..], args.currentRead, args.chunkHash, args.ident)
            == ResPayload(at, args.data[..], args.currentRead, args.chunkHash, args.ident)
  {
    hide LittleEndian;
    Pow256Small();
    LittleEndianMod(4, args.fileOffset, at);
  }

  lemma NextOffset(x: nat, y: nat, n: nat)
    requires x % TWO32 == y % TWO32
    ensures ((x + n) % TWO32) % TWO32 == (y + n) % TWO32
  {
    ModAdd(x, n, TWO32);
    ModAdd(y, n, TWO32);
  }

  /** If a request gets as far as the hash loop, the package's file is one that the loop can go over. */
  ghost predicate HashLoopSafe(cat: Catalog, files: Files, req: Req)
    requires TreesComplete(cat)
  {
    Lookup(cat, req.ident, CStr(req.hash)) == 1 ==>
      var p := FindPackage(cat, req.ident).value;
      && |p.chunks| > 0
      && p.Size() < TWO32
      && FitsChunks(if p.filename in files then Some(files[p.filename]) else None, p.Size(), |p.chunks|)
  }

  /** Some chunk of the package that a request names has the requested hash, once the hash loop has run. */
  ghost predicate Holding(packages: ManagedPackages, disk: Disk, req: Req)
    requires Ready(packages)
    reads *
  {
    var b := Chosen(packages, req.ident);
    b != null && (ChosenReady(packages, req.ident); HeldAfterHashing(b, disk, CStr(req.hash)))
  }

  ghost function TreeNodes(packages: ManagedPackages): set<Node>
    reads packages, packages.managedArray
  {
    set i: nat, x: Node | i < |packages.Slots()| && packages.Slots()[i] != null && x in packages.Slots()[i].lay.nodes :: x
  }

  /** The reading of a REQ packet (lines 443-447). */
  method ReadReq(payload: seq<byte>) returns (req: Req)
    requires |payload| == PAYLOAD_MAX
    ensures req == ParseReq(payload)
  {
    var hash := new byte[CHUNK_HASH_SIZE](_ => 0);
    MemCpy(hash, 0, payload[8..8 + CHUNK_HASH_SIZE]);
    assert hash[..] == payload[8..72];
    var offset, len := LittleEndianValue(payload[..4]), LittleEndianValue(payload[4..8]);
    req := Req(offset, len, hash[..], payload[72..72 + IDENT_SIZE]);
  }

  /** What the REQ branch relies on: only a request that is served has to lie inside the file and to fit an int. */
  ghost predicate Servable(packages: ManagedPackages, disk: Disk, req: Req)
    requires Ready(packages) && TreesComplete(Cat(packages))
    reads *
  {
    var held := Holding(packages, disk, req);
    && HashLoopSafe(Cat(packages), disk.files, req)
    && RangeInFile(Cat(packages), disk.files, held, req)
    && (Served(Cat(packages), disk.files, held, req) ==> req.len < INT_LIMIT)
  }

  /** The tree that the hash loop makes of the chosen package's. */
  ghost function RehashedChosen(packages: ManagedPackages, disk: Disk, ident: seq<byte>): Option<TreeView>
    requires Ready(packages)
    reads *
  {
    var b := Chosen(packages, ident);
    if b == null then None else (ChosenReady(packages, ident); Some(Rehashed(b, disk)))
  }

  /** The package found sends data: it has the chunk, the range exists and the file opens. */
  ghost predicate Sends(bpkg: Bpkg, disk: Disk, req: Req)
    requires bpkg.Valid()
    reads disk
    reads bpkg.lay.nodes`left, bpkg.lay.nodes`right, bpkg.lay.nodes`computedHash, bpkg.lay.chunks`nodePtr
  {
    && HeldAfterHashing(bpkg, disk, CStr(req.hash))
    && DataLen(bpkg.Info().chunks, CStr(req.hash), Some(req.offset), 0).Some?
    && bpkg.filename in disk.files
  }

  /** What is sent back once the package has been found: the packets of the range, or the error packet. */
  method AnswerFrom(chosen: Bpkg, req: Req, disk: Disk) returns (packets: seq<Packet>)
    requires chosen.Valid() && chosen.chunks[0].size < TWO32
    requires FitsChunks(disk.Read(chosen.filename), chosen.chunks[0].size, |chosen.chunks|)
    requires |req.hash| == CHUNK_HASH_SIZE && |req.ident| == IDENT_SIZE
    requires Sends(chosen, disk, req) ==>
               req.offset + req.len <= |disk.files[chosen.filename]| && req.len < INT_LIMIT
    modifies chosen.lay.nodes`computedHash
    ensures chosen.lay.View() == old(Rehashed(chosen, disk))
    ensures packets == if old(Sends(chosen, disk, req)) then
                         ResPackets(disk.files[chosen.filename], req.offset, req.len, req.hash, req.ident)
                       else [ERROR_PACKET]
  {
    hide DataLen, ResPackets, Layout.Linked, Layout.View, FitsChunks, Rehashed, HeldAfterHashing;
    var file := OpenChunk(chosen, disk, CStr(req.hash), req.offset);
    if file == null {
      return [ERROR_PACKET];
    }
    packets := SendPieces(file, req);
  }

  /** What is sent back for a request. The hash loop runs over the named package if it has the chunk. */
  method AnswerReq(packages: ManagedPackages, req: Req, disk: Disk) returns (packets: seq<Packet>)
    requires Ready(packages) && TreesComplete(Cat(packages)) && Servable(packages, disk, req)
    requires |req.hash| == CHUNK_HASH_SIZE && |req.ident| == IDENT_SIZE
    modifies TreeNodes(packages)`computedHash
    ensures packets == Reply(Cat(packages), disk.files, old(Holding(packages, disk, req)), req)
    ensures var b := Chosen(packages, req.ident);
            if Lookup(Cat(packages), req.ident, CStr(req.hash)) == 1 then
              && b != null && Some(b.lay.View()) == old(RehashedChosen(packages, disk, req.ident))
              && (forall x :: x in old(TreeNodes(packages)) && x !in b.lay.nodes ==> x.computedHash == old(x.computedHash))
            else forall x :: x in old(TreeNodes(packages)) ==> x.computedHash == old(x.computedHash)
  {
    hide Lookup, FindPackage, FitsChunks, Reply, ResPackets, Layout.Linked, Layout.View, Rehashed, Sends, Servable,
         Holding, RehashedChosen, Chosen;
    var ret, chosen := ChunkInMemory(packages, req.ident, CStr(req.hash));
    if ret != 1 {
      NotServed(packages, req, disk);
      return [ERROR_PACKET];
    }
    ChosenReady(packages, req.ident);
    FoundIsServable(packages, req, disk, chosen);
    packets := AnswerFrom(chosen, req, disk);
  }

  /** The REQ branch of handle_peers. */
  method HandleReq(packages: ManagedPackages, packet: Packet, disk: Disk) returns (packets: seq<Packet>)
    requires Ready(packages) && TreesComplete(Cat(packages)) && |packet.payload| == PAYLOAD_MAX
    requires Servable(packages, disk, ParseReq(packet.payload))
    modifies TreeNodes(packages)`computedHash
    ensures var req := ParseReq(packet.payload);
            && packets == Reply(Cat(packages), disk.files, old(Holding(packages, disk, req)), req)
            && var b := Chosen(packages, req.ident);
               if Lookup(Cat(packages), req.ident, CStr(req.hash)) == 1 then
                 && b != null && Some(b.lay.View()) == old(RehashedChosen(packages, disk, req.ident))
                 && (forall x :: x in old(TreeNodes(packages)) && x !in b.lay.nodes ==>
                                   x.computedHash == old(x.computedHash))
               else forall x :: x in old(TreeNodes(packages)) ==> x.computedHash == old(x.computedHash)
  {
    hide Reply, ParseReq, Servable, Holding, RehashedChosen, Lookup;
    var req := ReadReq(packet.payload);
    packets := AnswerReq(packages, req, disk);
  }

  /** Without the chunk in the table the request is not served. */
  lemma NotServed(packages: ManagedPackages, req: Req, disk: Disk)
    requires Ready(packages) && TreesComplete(Cat(packages)) && Servable(packages, disk, req)
    requires |req.hash| == CHUNK_HASH_SIZE && |req.ident| == IDENT_SIZE
    requires Lookup(Cat(packages), req.ident, CStr(req.hash)) != 1
    ensures Reply(Cat(packages), disk.files, Holding(packages, disk, req), req) == [ERROR_PACKET]
  {
    hide Lookup, Holding, HashLoopSafe, RangeInFile;
    ReplyCases(Cat(packages), disk.files, Holding(packages, disk, req), req);
  }

  /** With it, whether it is served is decided by the package found. */
  lemma FoundIsServable(packages: ManagedPackages, req: Req, disk: Disk, chosen: Bpkg)
    requires Ready(packages) && TreesComplete(Cat(packages)) && Servable(packages, disk, req)
    requires |req.hash| == CHUNK_HASH_SIZE && |req.ident| == IDENT_SIZE
    requires Lookup(Cat(packages), req.ident, CStr(req.hash)) == 1 && chosen == Chosen(packages, req.ident)
    requires FindPackage(Cat(packages), req.ident) == Some(chosen.Info())
    ensures chosen.Valid() && chosen.chunks[0].size < TWO32
    ensures FitsChunks(disk.Read(chosen.filename), chosen.chunks[0].size, |chosen.chunks|)
    ensures RehashedChosen(packages, disk, req.ident) == Some(Rehashed(chosen, disk))
    ensures Sends(chosen, disk, req) ==>
              req.offset + req.len <= |disk.files[chosen.filename]| && req.len < INT_LIMIT
    ensures Reply(Cat(packages), disk.files, Holding(packages, disk, req), req)
            == if Sends(chosen, disk, req) then
                 ResPackets(disk.files[chosen.filename], req.offset, req.len, req.hash, req.ident)
               else [ERROR_PACKET]
  {
    hide Lookup, FindPackage, DataLen, FitsChunks, HeldAfterHashing, ResPackets, Rehashed, Reply, Layout.Linked;
    ChosenReady(packages, req.ident);
    ReplyCases(Cat(packages), disk.files, Holding(packages, disk, req), req);
  }

  lemma ReplyCases(cat: Catalog, files: Files, held: bool, req: Req)
    requires TreesComplete(cat) && RangeInFile(cat, files, held, req)
    requires |req.hash| == CHUNK_HASH_SIZE && |req.ident| == IDENT_SIZE
    ensures !Served(cat, files, held, req) ==> Reply(cat, files, held, req) == [ERROR_PACKET]
    ensures Served(cat, files, held, req) ==>
              var file := files[FindPackage(cat, req.ident).value.filename];
              && req.offset + req.len <= |file|
              && Reply(cat, files, held, req) == ResPackets(file, req.offset, req.len, req.hash, req.ident)
  {}

  lemma ChosenReady(packages: ManagedPackages, ident: seq<byte>)
    requires Ready(packages) && Chosen(packages, ident) != null
    ensures var chosen := Chosen(packages, ident);
            && chosen.Valid() && |chosen.chunks| > 0
            && forall k :: 0 <= k < |chosen.lay.nodes| ==> chosen.lay.nodes[k] in TreeNodes(packages)
  {
    var i, chosen := FirstIdent(packages.Slots(), ident), Chosen(packages, ident);
    forall k | 0 <= k < |chosen.lay.nodes|
      ensures chosen.lay.nodes[k] in TreeNodes(packages)
    {
      assert chosen.lay.nodes[k] in packages.Slots()[i].lay.nodes;
    }
  }

  /** The end of fetch_parser (lines 98-143 of src/btide.c): None where it prints an error and sends nothing. */
  method RequestChunk(packages: ManagedPackages, ident: seq<byte>, chunkHash: seq<byte>, offset: Option<nat>)
    returns (packet: Option<Packet>)
    requires Ready(packages) && |ident| == IDENT_SIZE && |chunkHash| == CHUNK_HASH_SIZE
    ensures TreesComplete(Cat(packages))
    ensures packet == if Lookup(Cat(packages), ident, CStr(chunkHash)) != 1 then None
                      else RequestOf(FindPackage(Cat(packages), ident).value.chunks, CStr(chunkHash), offset, chunkHash, ident)
  {
    hide Lookup, FindPackage, DataLen, ReqPayload;
    var ret, chosen := ChunkInMemory(packages, ident, CStr(chunkHash));
    if ret == -2 || ret == -1 {
      return None;
    }
    LookupRange(Cat(packages), ident, CStr(chunkHash));
    var reqArgs := CalculateDataLen(chosen, CStr(chunkHash), offset);
    if reqArgs.None? {
      return None;
    }
    var sent := SendReq(reqArgs.value.fileOffset, reqArgs.value.dataLen, chunkHash, ident);
    packet := Some(sent);
  }

  function RequestOf(chunks: seq<ChunkInfo>, hash: cstring, offset: Option<nat>, rawHash: seq<byte>, ident: seq<byte>):
    Option<Packet>
    requires |rawHash| == CHUNK_HASH_SIZE && |ident| == IDENT_SIZE
  {
    match DataLen(chunks, hash, offset, 0)
    case None => None
    case Some(a) => Some(Packet(PKT_MSG_REQ, 0, ReqPayload(a.fileOffset, a.dataLen, rawHash, ident)))
  }

  lemma LookupRange(cat: Catalog, ident: seq<byte>, hash: cstring)
    requires TreesComplete(cat)
    ensures Lookup(cat, ident, hash) in {-2, -1, 1}
    ensures Lookup(cat, ident, hash) == 1 ==> FindPackage(cat, ident).Some?
  {}

  /** For a known chunk that packet asks for the rest of the chunk; an offset outside the chunk is refused. */
  lemma RequestIsRequestFor(cat: Catalog, ident: seq<byte>, meta: Meta, c: nat, offset: Option<nat>)
    requires Knows(cat, ident, meta) && |ident| == IDENT_SIZE && c < |meta.chunks|
    ensures var chunk := meta.chunks[c];
            var o := if offset.Some? then offset.value else chunk.offset;
            && |chunk.hash| == CHUNK_HASH_SIZE && CStr(chunk.hash) == chunk.hash && Lookup(cat, ident, chunk.hash) == 1
            && RequestOf(meta.chunks, chunk.hash, offset, chunk.hash, ident)
               == if chunk.offset <= o <= End(chunk) then Some(Packet(PKT_MSG_REQ, 0, RequestFor(meta, c, o, ident)))
                  else None
  {
    hide Lookup, Knows, DataLen, ReqPayload;
    KnownShape(cat, ident, meta);
    ChunkInFile(meta, c);
    KnownChunkStart(cat, ident, meta, c);
    KnownChunk(cat, ident, meta, c, if offset.Some? then offset.value else meta.chunks[c].offset);
  }

  // Both sides together

  lemma FullFileFits(file: seq<byte>, size: nat, nchunks: nat)
    requires |file| == nchunks * size && size > 0
    ensures FitsChunks(Some(file), size, nchunks)
  {
    assert (nchunks + 1) * size == nchunks * size + size;
  }

  /** What the request for the chunk from byte o on reads as, and that the sender's hash loop is safe for it. */
  lemma RequestInScenario(s: Scenario, o: nat)
    requires s.Ready() && s.InChunk(o)
    ensures TreesComplete(s.sender) && FindPackage(s.sender, s.ident) == Some(s.senderMeta) && s.senderMeta.WellFormed()
    ensures |s.Chunk().hash| == CHUNK_HASH_SIZE && CStr(s.Chunk().hash) == s.Chunk().hash
    ensures End(s.Chunk()) < INT_LIMIT
    ensures var req := Req(o, End(s.Chunk()) - o, s.Chunk().hash, s.ident);
            ParseReq(RequestFor(s.meta, s.c, o, s.ident)) == req && HashLoopSafe(s.sender, s.senderFiles, req)
  {
    hide Knows, ParseReq, ReqPayload, Lookup, FitsChunks, Holds;
    SameChunks(s);
    KnownShape(s.sender, s.ident, s.senderMeta);
    ChunkInFile(s.meta, s.c);
    KnownHash(s.sender, s.ident, s.senderMeta, s.c);
    FullFileFits(s.Source(), s.meta.Size(), |s.meta.chunks|);
    ReqRoundTrip(o, End(s.Chunk()) - o, s.Chunk().hash, s.ident);
  }

  /** It is served with the packets of the chunk from byte o on. */
  lemma ReplyInScenario(s: Scenario, o: nat)
    requires s.Ready() && s.InChunk(o)
    ensures TreesComplete(s.sender) && |s.Chunk().hash| == CHUNK_HASH_SIZE
    ensures Lookup(s.sender, s.ident, s.Chunk().hash) == 1
    ensures var req := Req(o, End(s.Chunk()) - o, s.Chunk().hash, s.ident);
            RangeInFile(s.sender, s.senderFiles, true, req) && Reply(s.sender, s.senderFiles, true, req) == s.Packets(o)
  {
    hide Knows, DataLen, Lookup, ResPackets, Holds, Reply;
    SameChunks(s);
    KnownShape(s.sender, s.ident, s.senderMeta);
    ChunkInFile(s.meta, s.c);
    KnownChunk(s.sender, s.ident, s.senderMeta, s.c, o);
    ReplyCases(s.sender, s.senderFiles, true, Req(o, End(s.Chunk()) - o, s.Chunk().hash, s.ident));
  }

  /** All packets of a reply are handled one after the other; those with the error bit have no effect. */
  method DeliverPackets(receiver: ManagedPackages, packets: seq<Packet>, disk: Disk)
    requires Ready(receiver) && TreesComplete(Cat(receiver))
    requires forall q :: 0 <= q < |packets| ==> |packets[q].payload| == PAYLOAD_MAX
    requires AllInside(Cat(receiver), disk.files, Received(packets))
    modifies disk
    ensures disk.files == DeliverAll(Cat(receiver), old(disk.files), Received(packets))
  {
    hide ParseRes, Delivered, InsideData, AllInside, DeliverAll;
    ghost var cat, before := Cat(receiver), disk.files;
    DeliverNone(cat, before);
    assert packets[..0] == [] && Received([]) == [];
    for i := 0 to |packets|
      modifies disk
      invariant AllInside(cat, before, Received(packets[..i]))
      invariant disk.files == DeliverAll(cat, before, Received(packets[..i]))
    {
      ReceiveOneMore(cat, before, packets, i);
      HandleRes(receiver, packets[i], disk);
    }
    assert packets[..|packets|] == packets;
  }

  /** The sender's side of the scenario: its hash loop finds the chunk, so it answers with the chunk from byte o on. */
  method AnswerRequest(sender: ManagedPackages, senderDisk: Disk, packet: Packet, ghost s: Scenario, ghost o: nat)
    returns (packets: seq<Packet>)
    requires Ready(sender) && s.sender == Cat(sender) && s.senderFiles == senderDisk.files && s.Ready() && s.InChunk(o)
    requires packet.payload == RequestFor(s.meta, s.c, o, s.ident)
    modifies TreeNodes(sender)`computedHash
    ensures packets == s.Packets(o)
  {
    hide *;
    RequestInScenario(s, o);
    ReplyInScenario(s, o);
    HoldingInScenario(sender, senderDisk, s, o);
    packets := HandleReq(sender, packet, senderDisk);
  }

  /** The sender holds the chunk, so it can serve the request. */
  lemma HoldingInScenario(sender: ManagedPackages, senderDisk: Disk, s: Scenario, o: nat)
    requires Ready(sender) && s.sender == Cat(sender) && s.senderFiles == senderDisk.files && s.Ready() && s.InChunk(o)
    ensures TreesComplete(Cat(sender))
    ensures var req := Req(o, End(s.Chunk()) - o, s.Chunk().hash, s.ident);
            Holding(sender, senderDisk, req) && Servable(sender, senderDisk, req)
  {
    hide Knows, ParseReq, Holds, HeldIn, HeldAfterHashing, HashLoopSafe, RangeInFile, ReqPayload, Lookup, FindPackage;
    RequestInScenario(s, o);
    ReplyInScenario(s, o);
    HeldInScenario(s);
    SameChunks(s);
    ChosenIsFound(sender, s.ident);
    var chosen := Chosen(sender, s.ident);
    assert chosen.Info() == s.senderMeta;
    ChosenReady(sender, s.ident);
    HeldIsHeldIn(chosen, senderDisk, s.Chunk().hash);
  }

  /** The package found in the catalog is that of the slot at which the scan stops. */
  lemma ChosenIsFound(packages: ManagedPackages, ident: seq<byte>)
    requires FindPackage(Cat(packages), ident).Some?
    ensures Chosen(packages, ident) != null && FindPackage(Cat(packages), ident) == Some(Chosen(packages, ident).Info())
  {
    hide SameIdent;
    var slots, cat := packages.Slots(), Cat(packages);
    var i := FirstIdent(slots, ident);
    if i < |slots| {
      FindPackageIsLowest(cat, ident, i);
    } else {
      FindPackageNone(cat, ident);
    }
  }

  /** The receiver's request in the scenario; an offset outside the chunk is refused. */
  method RequestRange(receiver: ManagedPackages, ident: seq<byte>, chunkHash: cstring, offset: Option<nat>,
                      ghost s: Scenario)
    returns (request: Option<Packet>)
    requires Ready(receiver) && s.receiver == Cat(receiver) && s.ident == ident && s.Ready()
    requires chunkHash == s.Chunk().hash
    ensures request.Some? <==> s.InChunk(s.Start(offset))
    ensures request.Some? ==> request.value.payload == RequestFor(s.meta, s.c, s.Start(offset), s.ident)
  {
    hide Knows, RequestFor, Holds, RequestOf, Lookup, FindPackage;
    KnownShape(s.receiver, s.ident, s.meta);
    ChunkInFile(s.meta, s.c);
    RequestIsRequestFor(s.receiver, ident, s.meta, s.c, offset);
    request := RequestChunk(receiver, ident, chunkHash, offset);
  }

  /**
   The request, the reply and the delivery of its packets over a channel that loses nothing. With an offset outside the
   chunk no request is sent.
   */
  method FetchOverChannel(sender: ManagedPackages, senderDisk: Disk, receiver: ManagedPackages, disk: Disk,
                          ident: seq<byte>, chunkHash: cstring, offset: Option<nat>, ghost s: Scenario)
    requires Ready(sender) && Ready(receiver)
    requires s.sender == Cat(sender) && s.senderFiles == senderDisk.files
    requires s.receiver == Cat(receiver) && s.files == disk.files && s.ident == ident
    requires s.Ready() && chunkHash == s.Chunk().hash
    modifies TreeNodes(sender)`computedHash, disk
    ensures disk.files == if s.InChunk(s.Start(offset)) then s.Fetched(s.Start(offset)) else old(disk.files)
  {
    hide RequestFor, AllInside, DeliverAll, Received, Scenario.Packets, Scenario.Fetched, Scenario.Ready, TreesComplete,
         Layout.Linked, Knows;
    var request := RequestRange(receiver, ident, chunkHash, offset, s);
    if request.None? {
      return;
    }
    DeliverChunk(s, s.Start(offset));
    var packets := AnswerRequest(sender, senderDisk, request.value, s, s.Start(offset));
    DeliverPackets(receiver, packets, disk);
  }
}
