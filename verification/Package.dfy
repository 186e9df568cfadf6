/** Package objects and the queries of src/chk/pkgchk.c; the hash loop of src/tree/merkletree.c. */
module Package {
  import opened Bytes
  import opened MerkleTree
  import opened HashString
  import opened Sha256

  /** The files on disk, by name. */
  class Disk {
    var files: map<cstring, seq<byte>>

    constructor (files: map<cstring, seq<byte>>)
      ensures this.files == files
    {
      this.files := files;
    }

    /** What fopen and fread give for a name. */
    function Read(name: cstring): Option<seq<byte>>
      reads this
    {
      if name in files then Some(files[name]) else None
    }
  }

  datatype ChunkInfo = ChunkInfo(hash: cstring, offset: nat, size: nat)

  /** The metadata of a package. */
  datatype Meta = Meta(ident: cstring, filename: cstring, hashes: seq<cstring>, chunks: seq<ChunkInfo>) {
    function N(): nat {
      |hashes|
    }

    /** The common chunk size. */
    function Size(): nat
      requires |chunks| > 0
    {
      chunks[0].size
    }

    /** One more chunk than hashes; equal positive chunk sizes; chunks one after the other; sizes that fit an int. */
    ghost predicate WellFormed() {
      && |chunks| == |hashes| + 1
      && chunks[0].size > 0
      && |chunks| * chunks[0].size < INT_LIMIT
      && forall i :: 0 <= i < |chunks| ==> chunks[i].size == chunks[0].size && chunks[i].offset == i * chunks[0].size
    }
  }

  class Bpkg {
    const ident: cstring
    const filename: cstring
    const size: nat               // uint32_t, the size of the whole file
    const hashes: seq<cstring>
    const chunks: seq<Chunk>
    const root: Node
    ghost const lay: Layout

    constructor (ident: cstring, filename: cstring, size: nat, hashes: seq<cstring>, chunks: seq<Chunk>)
      requires |chunks| == |hashes| + 1
      requires forall a, b :: 0 <= a < b < |chunks| ==> chunks[a] != chunks[b]
      modifies chunks`nodePtr
      ensures Valid() && this.ident == ident && this.filename == filename && this.size == size
      ensures this.hashes == hashes
      ensures this.chunks == chunks && forall k :: 0 <= k < |lay.nodes| ==> fresh(lay.nodes[k])
    {
      hide Layout.Linked;
      this.ident, this.filename, this.size, this.hashes, this.chunks := ident, filename, size, hashes, chunks;
      var top, made := CreateTree(hashes, chunks);
      root, lay := top, made;
    }

    ghost predicate Valid()
      reads lay.nodes`left, lay.nodes`right, lay.chunks`nodePtr
    {
      lay.hashes == hashes && lay.chunks == chunks && lay.Linked() && lay.At(0) == root
    }

    function Info(): (m: Meta)
      ensures |m.chunks| == |chunks|
    {
      Meta(ident, filename, hashes,
           seq(|chunks|, i requires 0 <= i < |chunks| =>
             ChunkInfo(chunks[i].hash, chunks[i].offset, chunks[i].size)))
    }
  }

  /** The length of a new file, whose last byte is written at position size - 1, an unsigned difference. */
  function NewFileSize(size: nat): (n: nat)
    ensures 0 < size <= TWO32 ==> n == size
    ensures size == 0 ==> n == TWO32
  {
    (size - 1) % TWO32 + 1
  }

  /** The files once it has been made sure that the package's file exists. */
  function FileChecked(bpkg: Bpkg, files: map<cstring, seq<byte>>): (r: map<cstring, seq<byte>>)
    ensures bpkg.filename in r && forall name :: name in files ==> name in r && r[name] == files[name]
  {
    if bpkg.filename in files then files else files[bpkg.filename := Zeros(NewFileSize(bpkg.size))]
  }

  /** bpkg_file_check: makes sure that the file exists, a new one being filled with zero bytes. */
  method FileCheck(bpkg: Bpkg, disk: Disk) returns (existed: bool)
    modifies disk
    ensures existed == (bpkg.filename in old(disk.files))
    ensures disk.files == FileChecked(bpkg, old(disk.files))
  {
    existed := bpkg.filename in disk.files;
    if !existed {
      disk.files := disk.files[bpkg.filename := Zeros(NewFileSize(bpkg.size))];
    }
  }

  // The hash loop

  /** Chunk i of a file cut into pieces of the given size. */
  function Slice(file: seq<byte>, size: nat, i: nat): seq<byte>
    requires (i + 1) * size <= |file|
  {
    assert i * size <= (i + 1) * size;
    file[i * size..(i + 1) * size]
  }

  /** The computed hash of key k after the hash loop has gone over the file. */
  ghost function RefreshedHash(t: TreeView, size: nat, file: seq<byte>, k: nat): cstring
    requires t.Valid() && k <= 2 * t.n
  {
    if k >= t.n && (k - t.n + 1) * size <= |file| then HashOf(Slice(file, size, k - t.n)) else t.computed[k]
  }

  ghost function Refreshed(t: TreeView, size: nat, file: Option<seq<byte>>): (r: TreeView)
    requires t.Valid()
    ensures r.Valid() && r.n == t.n && r.value == t.value
  {
    match file
    case None => t
    case Some(f) =>
      t.(computed := seq(|t.computed|, k requires 0 <= k < |t.computed| => RefreshedHash(t, size, f, k)))
  }

  method HashBuffer(data: Hasher, buffer: seq<byte>) returns (hash: cstring)
    requires data.Shape() && |buffer| < TWO32
    modifies data, data.hcomps, data.lastChunk
    ensures hash == HashOf(buffer)
  {
    data.Init();
    data.Update(buffer);
    assert data.Absorbed() == buffer;
    data.Finalize();
    var finalHash := new byte[65](_ => 0);
    data.OutputHex(finalHash);
    hash := finalHash[..64];
  }

  /** The file has less than one block more than there are chunks: what keeps the hash loop inside the array. */
  predicate FitsChunks(file: Option<seq<byte>>, size: nat, nchunks: nat) {
    file.Some? ==> |file.value| < (nchunks + 1) * size
  }

  lemma BlockIsChunk(fileSize: nat, size: nat, nchunks: nat, i: nat)
    requires (i + 1) * size <= fileSize < (nchunks + 1) * size
    ensures i < nchunks
  {
    MulDiff(size, nchunks + 1, i + 1);
    assert nchunks + 1 < i + 1 ==> (i + 1) * size > (nchunks + 1) * size;
  }

  /** The hash loop reaches block i: the file has that many whole blocks. */
  predicate ReachesBlock(fileSize: nat, size: nat, i: nat) {
    (i + 1) * size <= fileSize
  }

  /** The condition is exact: the loop, which does not check the index, stays inside the array if and only if it holds. */
  lemma FitsChunksExact(file: seq<byte>, size: nat, nchunks: nat)
    ensures FitsChunks(Some(file), size, nchunks) <==> forall i: nat :: ReachesBlock(|file|, size, i) ==> i < nchunks
  {
    if FitsChunks(Some(file), size, nchunks) {
      forall i: nat | ReachesBlock(|file|, size, i)
        ensures i < nchunks
      {
        BlockIsChunk(|file|, size, nchunks, i);
      }
    } else {
      assert ReachesBlock(|file|, size, nchunks);
    }
  }

  /** A file with one block more than there are chunks: the loop reaches a chunk that does not exist. */
  lemma SurplusBlockExample(size: nat, nchunks: nat)
    ensures var file := Zeros((nchunks + 1) * size);
            ReachesBlock(|file|, size, nchunks) && !FitsChunks(Some(file), size, nchunks)
  {}

  /** The first i chunks have been hashed. */
  ghost predicate HashedUpTo(lay: Layout, t: TreeView, size: nat, file: seq<byte>, i: nat)
    requires t.Valid() && t.n == lay.N() && |lay.nodes| == 2 * t.n + 1
    reads lay.nodes`computedHash
  {
    forall k :: 0 <= k < |lay.nodes| ==>
                  lay.nodes[k].computedHash
                  == if t.n <= k < t.n + i then RefreshedHash(t, size, file, k) else t.computed[k]
  }

  lemma NodesDistinct(lay: Layout)
    requires lay.Linked()
    ensures forall a, b :: 0 <= a < b < |lay.nodes| ==> lay.nodes[a] != lay.nodes[b]
  {
    forall a, b | 0 <= a < b < |lay.nodes|
      ensures lay.nodes[a] != lay.nodes[b]
    {
      assert lay.NodeLinked(a) && lay.NodeLinked(b);
    }
  }

  /** t has the values of the tree's nodes. */
  ghost predicate SameValues(lay: Layout, t: TreeView) {
    && t.Valid()
    && t.n == lay.N()
    && |lay.nodes| == 2 * t.n + 1
    && forall k :: 0 <= k < |lay.nodes| ==> t.value[k] == lay.nodes[k].value
  }

  method StoreHash(bpkg: Bpkg, i: nat, hash: cstring, ghost t: TreeView, ghost size: nat, ghost file: seq<byte>)
    requires bpkg.Valid() && i < |bpkg.chunks| && t.Valid() && t.n == bpkg.lay.N()
    requires HashedUpTo(bpkg.lay, t, size, file, i) && hash == RefreshedHash(t, size, file, t.n + i)
    modifies bpkg.lay.nodes`computedHash
    ensures HashedUpTo(bpkg.lay, t, size, file, i + 1)
  {
    hide RefreshedHash;
    NodesDistinct(bpkg.lay);
    assert bpkg.lay.chunks[i].nodePtr == bpkg.lay.nodes[t.n + i];
    bpkg.chunks[i].nodePtr.computedHash := hash;
  }

  lemma HashedIsRefreshed(lay: Layout, t: TreeView, size: nat, file: seq<byte>, i: nat)
    requires SameValues(lay, t)
    requires i * size <= |file| < (i + 1) * size && i <= t.n + 1
    requires HashedUpTo(lay, t, size, file, i)
    ensures lay.View() == Refreshed(t, size, Some(file))
  {
    hide HashOf;
    forall k | 0 <= k < |lay.nodes|
      ensures lay.View().computed[k] == RefreshedHash(t, size, file, k)
    {
      if k >= t.n + i {
        MulDiff(size, i, k - t.n);
        assert (k - t.n + 1) * size == size * (k - t.n) + size;
      } else if k >= t.n {
        MulDiff(size, k - t.n, i);
      }
    }
    assert lay.View().computed == Refreshed(t, size, Some(file)).computed;
  }

  /** The read loop (lines 111-122). */
  method HashBlocks(bpkg: Bpkg, file: seq<byte>, bufferSize: nat, ghost t: TreeView)
    requires bpkg.Valid() && SameValues(bpkg.lay, t) && HashedUpTo(bpkg.lay, t, bufferSize, file, 0)
    requires 0 < bufferSize < TWO32 && FitsChunks(Some(file), bufferSize, |bpkg.chunks|) && |bpkg.chunks| == t.n + 1
    modifies bpkg.lay.nodes`computedHash
    ensures bpkg.lay.View() == Refreshed(t, bufferSize, Some(file))
  {
    hide HashOf, RefreshedHash, HashedUpTo, Refreshed, FitsChunks, Layout.Linked, Layout.View;
    var data := new Hasher();
    var i, pos := 0, 0;
    var rBytes := if bufferSize <= |file| then bufferSize else |file|;
    while rBytes == bufferSize
      invariant i <= |bpkg.chunks| && pos == i * bufferSize <= |file|
      invariant rBytes == if bufferSize <= |file| - pos then bufferSize else |file| - pos
      invariant fresh(data) && fresh(data.hcomps) && fresh(data.lastChunk) && data.Shape()
      invariant bpkg.Valid() && HashedUpTo(bpkg.lay, t, bufferSize, file, i)
      decreases |file| - pos
    {
      NextBlock(file, bufferSize, |bpkg.chunks|, i);
      BlockHash(t, bufferSize, file, i);
      var finalHash := HashBuffer(data, file[pos..pos + rBytes]);
      StoreHash(bpkg, i, finalHash, t, bufferSize, file);
      i := i + 1;
      pos := pos + rBytes;
      rBytes := if bufferSize <= |file| - pos then bufferSize else |file| - pos;
    }
    assert (i + 1) * bufferSize == pos + bufferSize;
    HashedIsRefreshed(bpkg.lay, t, bufferSize, file, i);
  }

  lemma NextBlock(file: seq<byte>, size: nat, nchunks: nat, i: nat)
    requires i * size + size <= |file| && FitsChunks(Some(file), size, nchunks)
    ensures i < nchunks && (i + 1) * size == i * size + size
  {
    assert (i + 1) * size == i * size + size;
    BlockIsChunk(|file|, size, nchunks, i);
  }

  method ComputeHashesForChunks(bpkg: Bpkg, disk: Disk)
    requires bpkg.Valid() && bpkg.chunks[0].size < TWO32
    requires FitsChunks(disk.Read(bpkg.filename), bpkg.chunks[0].size, |bpkg.chunks|)
    modifies bpkg.lay.nodes`computedHash
    ensures bpkg.lay.View()
            == Refreshed(old(bpkg.lay.View()), bpkg.chunks[0].size, disk.Read(bpkg.filename))
  {
    var bufferSize := bpkg.chunks[0].size;
    if bpkg.filename in disk.files {
      var file := disk.files[bpkg.filename];
      SomeBlockSize(|file|, bufferSize, |bpkg.chunks|);
      StartHashing(bpkg, bufferSize, file);
      hide Refreshed, HashedUpTo, Layout.View, Layout.Linked;
      HashBlocks(bpkg, file, bufferSize, bpkg.lay.View());
    }
  }

  lemma SomeBlockSize(fileSize: nat, size: nat, nchunks: nat)
    requires fileSize < (nchunks + 1) * size
    ensures size > 0
  {}

  lemma StartHashing(bpkg: Bpkg, size: nat, file: seq<byte>)
    requires bpkg.Valid()
    ensures var t := bpkg.lay.View();
            SameValues(bpkg.lay, t) && HashedUpTo(bpkg.lay, t, size, file, 0)
    ensures |bpkg.chunks| == |bpkg.hashes| + 1 == bpkg.lay.N() + 1
  {}

  lemma BlockHash(t: TreeView, size: nat, file: seq<byte>, i: nat)
    requires t.Valid() && i <= t.n && (i + 1) * size <= |file|
    ensures i * size + size <= |file|
    ensures RefreshedHash(t, size, file, t.n + i) == HashOf(file[i * size..i * size + size])
  {
    assert (i + 1) * size == i * size + size;
  }
}
