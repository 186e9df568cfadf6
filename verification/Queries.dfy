/** The package queries of src/chk/pkgchk.c and what their answers mean. */
module Queries {
  import opened Bytes
  import opened HeapTree
  import opened MinCover
  import opened MerkleTree
  import opened HashString
  import opened Package

  /** The complete leaves among the keys. */
  ghost function DoneAmong(t: TreeView, keys: seq<nat>): (s: seq<nat>)
    requires t.Valid()
    ensures |s| <= |keys|
  {
    if keys == [] then [] else DoneAmong(t, keys[..|keys| - 1]) + IfDone(t, keys[|keys| - 1])
  }

  ghost function IfDone(t: TreeView, k: nat): (s: seq<nat>)
    requires t.Valid()
    ensures |s| <= 1
  {
    if k in t.Done() then [k] else []
  }

  lemma {:induction false} DoneMember(t: TreeView, keys: seq<nat>, k: nat)
    requires t.Valid()
    ensures k in DoneAmong(t, keys) <==> k in keys && k in t.Done()
  {
    if keys != [] {
      DoneMember(t, keys[..|keys| - 1], k);
      assert keys == keys[..|keys| - 1] + [keys[|keys| - 1]];
    }
  }

  // What the three walks collect

  lemma {:induction false} AllHashesAlong(t: TreeView, keys: seq<nat>)
    requires t.Valid() && forall i :: 0 <= i < |keys| ==> keys[i] <= 2 * t.n
    ensures VisitAll(t, AllHashes, keys) == ValuesOf(t, keys)
  {
    if keys != [] {
      AllHashesAlong(t, keys[..|keys| - 1]);
      assert ValuesOf(t, keys) == ValuesOf(t, keys[..|keys| - 1]) + [t.At(keys[|keys| - 1])];
    }
  }

  lemma ValuesConcat(t: TreeView, a: seq<nat>, b: seq<nat>)
    ensures ValuesOf(t, a + b) == ValuesOf(t, a) + ValuesOf(t, b)
  {}

  lemma {:induction false} DoneConcat(t: TreeView, a: seq<nat>, b: seq<nat>)
    requires t.Valid()
    ensures DoneAmong(t, a + b) == DoneAmong(t, a) + DoneAmong(t, b)
  {
    hide IfDone;
    if b == [] {
      assert a + b == a;
    } else {
      DoneConcat(t, a, b[..|b| - 1]);
      assert (a + b)[..|a + b| - 1] == a + b[..|b| - 1];
    }
  }

  lemma {:induction false} ChunksWalk(t: TreeView, k: nat)
    requires t.Valid()
    ensures Walk(t, ChunksFromHash, k) == ValuesOf(t, Leaves(t.n, k))
    decreases if k > 2 * t.n then 0 else 2 * t.n + 1 - k
  {
    hide Walk, Leaves;
    WalkUnfold(t, ChunksFromHash, k);
    LeavesUnfold(t.n, k);
    if k <= 2 * t.n {
      ChunksWalk(t, 2 * k + 1);
      ChunksWalk(t, 2 * k + 2);
      LeavesUnfold(t.n, 2 * k + 1);
      LeavesUnfold(t.n, 2 * k + 2);
      ValuesConcat(t, Leaves(t.n, 2 * k + 1), Leaves(t.n, 2 * k + 2));
    }
  }

  lemma {:induction false} CompletedWalk(t: TreeView, k: nat)
    requires t.Valid()
    ensures Walk(t, CompletedChunks, k) == ValuesOf(t, DoneAmong(t, Leaves(t.n, k)))
    decreases if k > 2 * t.n then 0 else 2 * t.n + 1 - k
  {
    hide Walk, Leaves, Visit, IfDone, DoneAmong;
    WalkUnfold(t, CompletedChunks, k);
    LeavesUnfold(t.n, k);
    LeavesUnfold(t.n, 2 * k + 1);
    LeavesUnfold(t.n, 2 * k + 2);
    CompletedAt(t, k);
    NothingDone(t);
    if k <= 2 * t.n {
      CompletedWalk(t, 2 * k + 1);
      CompletedWalk(t, 2 * k + 2);
      if k < t.n {
        var l, r := Leaves(t.n, 2 * k + 1), Leaves(t.n, 2 * k + 2);
        DoneConcat(t, l, r);
        ValuesConcat(t, DoneAmong(t, l), DoneAmong(t, r));
      }
    }
  }

  lemma CompletedAt(t: TreeView, k: nat)
    requires t.Valid()
    ensures k < t.n ==> Visit(t, CompletedChunks, k) == []
    ensures t.n <= k <= 2 * t.n ==> Visit(t, CompletedChunks, k) == ValuesOf(t, DoneAmong(t, [k]))
  {
    assert [k][..0] == [];
  }

  lemma NothingDone(t: TreeView)
    requires t.Valid()
    ensures DoneAmong(t, []) == [] && ValuesOf(t, []) == []
  {}

  lemma {:induction false} InOrderLength(n: nat, k: nat)
    ensures |InOrder(n, k)| == (if k > 2 * n then 0 else 2 * |Leaves(n, k)| - 1)
    decreases if k > 2 * n then 0 else 2 * n + 1 - k
  {
    hide InOrder, Leaves;
    InOrderUnfold(n, k);
    LeavesUnfold(n, k);
    InOrderUnfold(n, 2 * k + 1);
    InOrderUnfold(n, 2 * k + 2);
    if k <= 2 * n {
      InOrderLength(n, 2 * k + 1);
      InOrderLength(n, 2 * k + 2);
    }
  }

  lemma RootLengths(n: nat)
    ensures |Leaves(n, 0)| == n + 1 && |InOrder(n, 0)| == 2 * n + 1
  {
    WholeTreeInTwoRows(n);
    InOrderLength(n, 0);
  }

  lemma {:induction false} LeavesFit(n: nat, k: nat)
    ensures |Leaves(n, k)| <= n + 1
    decreases k
  {
    if k == 0 {
      RootLengths(n);
    } else {
      LeavesFit(n, (k - 1) / 2);
      LeavesUnfold(n, (k - 1) / 2);
      LeavesUnfold(n, k);
    }
  }

  // The queries

  method GetAllHashes(bpkg: Bpkg) returns (qry: seq<cstring>)
    requires bpkg.Valid()
    ensures qry == ValuesOf(bpkg.lay.View(), InOrder(bpkg.lay.N(), 0))
    ensures |qry| == |bpkg.hashes| + |bpkg.chunks|
  {
    hide Walk, Layout.View, Layout.NodeLinked;
    ghost var t := bpkg.lay.View();
    RootLengths(t.n);
    AllHashesWalk(t);
    var n := |bpkg.hashes| + |bpkg.chunks|;
    var hashes := new cstring[n](_ => []);
    var i := InorderSearch(bpkg.root, AllHashes, hashes, 0, bpkg.lay, 0);
    qry := hashes[..n];
  }

  lemma AllHashesWalk(t: TreeView)
    requires t.Valid()
    ensures Walk(t, AllHashes, 0) == ValuesOf(t, InOrder(t.n, 0))
  {
    hide InOrder;
    forall i | 0 <= i < |InOrder(t.n, 0)|
      ensures InOrder(t.n, 0)[i] <= 2 * t.n
    {
      InOrderMember(t.n, 0, InOrder(t.n, 0)[i]);
    }
    AllHashesAlong(t, InOrder(t.n, 0));
  }

  /** The hashes of the complete chunks, in the order of the walk. */
  ghost function CompletedHashes(t: TreeView): seq<cstring>
    requires t.Valid()
  {
    ValuesOf(t, DoneAmong(t, Leaves(t.n, 0)))
  }

  method GetCompletedChunks(bpkg: Bpkg, disk: Disk) returns (qry: seq<cstring>)
    requires bpkg.Valid() && bpkg.chunks[0].size < TWO32
    requires FitsChunks(disk.Read(bpkg.filename), bpkg.chunks[0].size, |bpkg.chunks|)
    modifies bpkg.lay.nodes`computedHash
    ensures bpkg.lay.View() == Refreshed(old(bpkg.lay.View()), bpkg.chunks[0].size, disk.Read(bpkg.filename))
    ensures qry == CompletedHashes(bpkg.lay.View())
  {
    hide Walk, Layout.View, Layout.NodeLinked, Refreshed, FitsChunks;
    ComputeHashesForChunks(bpkg, disk);
    ghost var t := bpkg.lay.View();
    RootLengths(t.n);
    CompletedWalk(t, 0);
    var hashes := new cstring[|bpkg.chunks|](_ => []);
    var i := InorderSearch(bpkg.root, CompletedChunks, hashes, 0, bpkg.lay, 0);
    qry := hashes[..i];
  }

  method GetMinCompletedHashes(bpkg: Bpkg, disk: Disk) returns (qry: seq<cstring>)
    requires bpkg.Valid() && bpkg.chunks[0].size < TWO32
    requires FitsChunks(disk.Read(bpkg.filename), bpkg.chunks[0].size, |bpkg.chunks|)
    modifies bpkg.lay.nodes`computedHash
    ensures bpkg.lay.View() == Refreshed(old(bpkg.lay.View()), bpkg.chunks[0].size, disk.Read(bpkg.filename))
    ensures qry == MinHashes(bpkg.lay.View(), 0)
  {
    hide MinHashes, Complete, Layout.View, Layout.NodeLinked, Refreshed, FitsChunks;
    ComputeHashesForChunks(bpkg, disk);
    ghost var t := bpkg.lay.View();
    EmitAtMostHalf(t.n, t.Done());
    var hashes := new cstring[|bpkg.chunks|](_ => []);
    var ret, i := MinHashFind(bpkg.root, hashes, 0, bpkg.lay, 0);
    qry := hashes[..i];
  }

  /** What bpkg_get_all_chunk_hashes_from_hash answers; None is NULL. */
  ghost function ChunkHashesFrom(t: TreeView, hash: cstring): Option<seq<cstring>>
    requires t.Valid()
  {
    match FirstBelow(t, 0, hash)
    case None => None
    case Some(k) => Some(ValuesOf(t, Leaves(t.n, k)))
  }

  method GetAllChunkHashesFromHash(bpkg: Bpkg, hash: cstring) returns (qry: Option<seq<cstring>>)
    requires bpkg.Valid()
    ensures qry == ChunkHashesFrom(bpkg.lay.View(), hash)
  {
    hide Walk, FirstBelow, Layout.View, Layout.NodeLinked;
    ghost var t := bpkg.lay.View();
    var hashes := new cstring[|bpkg.chunks|](_ => []);
    var foundNode := InorderFindNode(bpkg.root, hash, bpkg.lay, 0);
    ghost var r := FirstBelow(t, 0, hash);
    if foundNode == null {
      return None;
    }
    ghost var k := r.value;
    assert r == Some(k) && bpkg.lay.At(k) == foundNode;
    LeavesFit(t.n, k);
    ChunksWalk(t, k);
    var i := InorderSearch(foundNode, ChunksFromHash, hashes, 0, bpkg.lay, k);
    assert hashes[..i] == ValuesOf(t, Leaves(t.n, k));
    qry := Some(hashes[..i]);
  }

  // package_status

  /** The test on line 100 of src/package.c for one package: true prints COMPLETED. */
  method ReportsCompleted(bpkg: Bpkg, disk: Disk) returns (completed: bool)
    requires bpkg.Valid() && bpkg.chunks[0].size < TWO32
    requires FitsChunks(disk.Read(bpkg.filename), bpkg.chunks[0].size, |bpkg.chunks|)
    modifies bpkg.lay.nodes`computedHash
    ensures bpkg.lay.View() == Refreshed(old(bpkg.lay.View()), bpkg.chunks[0].size, disk.Read(bpkg.filename))
    ensures completed == RootFirst(bpkg.lay.View())
  {
    hide MinHashes, Refreshed, FitsChunks;
    var qry := GetMinCompletedHashes(bpkg, disk);
    assert bpkg.lay.NodeLinked(0);
    completed := |qry| > 0 && qry[0] == bpkg.root.value;
  }

  ghost predicate RootFirst(t: TreeView)
    requires t.Valid()
  {
    |MinHashes(t, 0)| > 0 && MinHashes(t, 0)[0] == t.value[0]
  }

  /** The root's hash occurs at no other node. */
  ghost predicate RootHashOnce(t: TreeView)
    requires t.Valid()
  {
    forall k :: 0 < k <= 2 * t.n ==> t.value[k] != t.value[0]
  }

  /** With at least two chunks and such a root, COMPLETED is printed exactly if all chunks are complete. */
  lemma StatusOfGoodTree(t: TreeView)
    requires t.Valid() && t.n >= 1 && RootHashOnce(t)
    ensures RootFirst(t) <==> Complete(t.n, t.Done(), 0)
  {
    hide Complete, Emit;
    var e := Emit(t.n, t.Done(), 0);
    RootExactlyWhenAllComplete(t.n, t.Done());
    if |e| > 0 {
      EmitsMaximal(t.n, t.Done(), e[0]);
    }
  }

  /** A tree with the hashes of t. */
  ghost predicate SameHashes(t: TreeView, u: TreeView) {
    t.Valid() && u.Valid() && u.n == t.n && u.value == t.value
  }

  /** COMPLETED is printed for u exactly if all its chunks are complete. */
  ghost predicate StatusRight(u: TreeView)
    requires u.Valid()
  {
    RootFirst(u) <==> Complete(u.n, u.Done(), 0)
  }

  /**
   For which packages package_status is right, whatever chunks are complete: those with at least two chunks whose root
   hash occurs at no other node.
   */
  lemma StatusIsExact(t: TreeView)
    requires t.Valid()
    ensures (forall u :: SameHashes(t, u) ==> StatusRight(u)) <==> t.n >= 1 && RootHashOnce(t)
  {
    hide RootFirst, Complete;
    if t.n >= 1 && RootHashOnce(t) {
      forall u | SameHashes(t, u)
        ensures StatusRight(u)
      {
        StatusOfGoodTree(u);
      }
    } else if t.n == 0 {
      StatusOfSingleChunk(t.(computed := t.value));
    } else {
      var k :| 0 < k <= 2 * t.n && t.value[k] == t.value[0];
      var u := OnlyBelow(t, k);
      StatusOfDuplicate(u, k);
    }
  }

  lemma StatusOfSingleChunk(u: TreeView)
    requires u.Valid() && u.n == 0 && u.computed == u.value
    ensures !StatusRight(u)
  {
    EmitUnfold(0, u.Done(), 0);
    LeavesUnfold(0, 0);
  }

  /** The completion state in which exactly the chunks below k are complete. */
  lemma OnlyBelow(t: TreeView, k: nat) returns (u: TreeView)
    requires t.Valid()
    ensures SameHashes(t, u)
    ensures forall j: nat :: j in u.Done() <==> j in Leaves(t.n, k)
  {
    hide Leaves;
    u := t.(computed := seq(2 * t.n + 1, j requires 0 <= j < 2 * t.n + 1 =>
                              if j in Leaves(t.n, k) then t.value[j] else t.value[j] + [0]));
    forall j: nat
      ensures j in u.Done() <==> j in Leaves(t.n, k)
    {
      LeafMember(t.n, k, j);
    }
  }

  /** A node with the root's hash, all its chunks complete and no others: COMPLETED is printed. */
  lemma StatusOfDuplicate(u: TreeView, k: nat)
    requires u.Valid() && 0 < k <= 2 * u.n && u.value[k] == u.value[0]
    requires forall j: nat :: j in u.Done() <==> j in Leaves(u.n, k)
    ensures RootFirst(u) && !Complete(u.n, u.Done(), 0)
  {
    hide Emit, Complete, TreeView.Done;
    BelowIsMaximal(u.n, u.Done(), k);
    var e := Emit(u.n, u.Done(), 0);
    EmitsMaximal(u.n, u.Done(), k);
    EmitsMaximal(u.n, u.Done(), e[0]);
  }

  /** If exactly the chunks below k are complete, k is the one maximal complete subtree. */
  lemma BelowIsMaximal(n: nat, done: set<nat>, k: nat)
    requires 0 < k <= 2 * n && forall j: nat :: j in done <==> j in Leaves(n, k)
    ensures !Complete(n, done, 0)
    ensures forall m: nat :: Maximal(n, done, m) <==> m == k
  {
    hide Leaves, Within;
    assert Complete(n, done, k);
    var parent, sibling := (k - 1) / 2, if k % 2 == 1 then k + 1 else k - 1;
    LeavesNonEmpty(n, sibling);
    var j := Leaves(n, sibling)[0];
    LeafMember(n, sibling, j);
    LeafMember(n, k, j);
    WithinChildren(j, parent);
    assert !Complete(n, done, sibling);
    CompleteFromChildren(n, done, parent);
    if Complete(n, done, 0) {
      WithinRoot(parent);
      CompleteInside(n, done, 0, parent);
    }
    forall m: nat | Maximal(n, done, m)
      ensures m == k
    {
      LeavesNonEmpty(n, m);
      var i := Leaves(n, m)[0];
      LeafMember(n, m, i);
      LeafMember(n, k, i);
      MaximalDisjoint(n, done, m, k, i);
    }
  }

  /** Two chunks, the first with the root's hash and complete: COMPLETED is printed for half a file. */
  lemma StatusExample(h: cstring, g: cstring)
    requires h != [] && g != []
    ensures var t := TreeView(1, [h, h, g], [[], h, []]);
            RootFirst(t) && !Complete(1, t.Done(), 0)
  {
    var t := TreeView(1, [h, h, g], [[], h, []]);
    LeavesUnfold(1, 1);
    LeavesUnfold(1, 2);
    forall j: nat
      ensures j in t.Done() <==> j in Leaves(1, 1)
    {
      assert t.Done() == {1};
    }
    StatusOfDuplicate(t, 1);
  }

  // What counts as complete

  /** t is the tree of a package with this metadata. */
  ghost predicate Matches(t: TreeView, meta: Meta) {
    && t.Valid()
    && t.n == meta.N()
    && |meta.chunks| == t.n + 1
    && (forall k :: 0 <= k < t.n ==> t.value[k] == meta.hashes[k])
    && (forall i :: 0 <= i <= t.n ==> t.value[t.n + i] == meta.chunks[i].hash)
  }

  lemma PackageMatches(bpkg: Bpkg)
    requires bpkg.Valid()
    ensures Matches(bpkg.lay.View(), bpkg.Info())
  {
    var lay := bpkg.lay;
    forall k | 0 <= k < |lay.nodes|
      ensures lay.nodes[k].value == if k < lay.N() then lay.hashes[k] else lay.chunks[k - lay.N()].hash
    {
      assert lay.NodeLinked(k);
    }
  }

  /** The bytes of chunk c. */
  function ChunkBytes(file: seq<byte>, c: ChunkInfo): seq<byte>
    requires c.offset + c.size <= |file|
  {
    file[c.offset..c.offset + c.size]
  }

  lemma ChunkInFile(meta: Meta, i: nat)
    requires meta.WellFormed() && i < |meta.chunks|
    ensures meta.chunks[i].offset == i * meta.Size() && meta.chunks[i].size == meta.Size()
    ensures (i + 1) * meta.Size() == meta.chunks[i].offset + meta.chunks[i].size <= |meta.chunks| * meta.Size()
  {
    assert (i + 1) * meta.Size() == i * meta.Size() + meta.Size();
    MulDiff(meta.Size(), i, |meta.chunks|);
  }

  /** The chunks of which the file holds the right bytes. */
  ghost predicate Holds(meta: Meta, file: seq<byte>, i: nat)
    requires meta.WellFormed() && |file| == |meta.chunks| * meta.Size()
  {
    i < |meta.chunks| && (ChunkInFile(meta, i); HashOf(ChunkBytes(file, meta.chunks[i])) == meta.chunks[i].hash)
  }

  /** After the hash loop a chunk counts as complete exactly if the file holds it, whatever was computed before. */
  lemma CompleteExactly(t: TreeView, meta: Meta, file: seq<byte>, i: nat)
    requires Matches(t, meta) && meta.WellFormed() && |file| == |meta.chunks| * meta.Size()
    requires i <= t.n
    ensures t.n + i in Refreshed(t, meta.Size(), Some(file)).Done() <==> Holds(meta, file, i)
  {
    hide HashOf;
    ChunkInFile(meta, i);
    assert Slice(file, meta.Size(), i) == ChunkBytes(file, meta.chunks[i]);
  }

  /** The chunks that bpkg_get_completed_chunks reports are exactly those the file holds. */
  lemma CompletedQueryExact(t: TreeView, meta: Meta, file: seq<byte>, i: nat)
    requires Matches(t, meta) && meta.WellFormed() && |file| == |meta.chunks| * meta.Size()
    requires i <= t.n
    ensures t.n + i in DoneAmong(Refreshed(t, meta.Size(), Some(file)), Leaves(t.n, 0)) <==> Holds(meta, file, i)
  {
    hide Refreshed, Holds, Leaves, DoneAmong;
    CompleteExactly(t, meta, file, i);
    DoneMember(Refreshed(t, meta.Size(), Some(file)), Leaves(t.n, 0), t.n + i);
    WithinRoot(t.n + i);
    LeafMember(t.n, 0, t.n + i);
  }

  // Queries for an inner node

  /** The key of the node at position p of level l. */
  function NodeAt(l: nat, p: nat): nat {
    Pow2(l) - 1 + p
  }

  /** The keys of the 2^(D-l) chunks that belong to that node in a perfect tree over n hashes. */
  function ChunksOf(n: nat, l: nat, p: nat): (s: seq<nat>)
    requires l <= Depth(n)
  {
    hide Pow2, Depth;
    var w := Pow2(Depth(n) - l);
    Range(n + p * w, n + (p + 1) * w)
  }

  lemma NodeInTree(n: nat, l: nat, p: nat)
    requires n + 1 == Pow2(Depth(n)) && l <= Depth(n) && p < Pow2(l)
    ensures NodeAt(l, p) <= 2 * n
  {
    hide Pow2, Depth;
    PowSum(l, Depth(n) - l);
    MulDiff(Pow2(l), 0, Pow2(Depth(n) - l));
  }

  /** In a perfect tree with distinct hashes, asking for node p of level l gives its 2^(D-l) successive chunks in order. */
  lemma PerfectQuery(t: TreeView, l: nat, p: nat)
    requires t.Valid() && t.n + 1 == Pow2(Depth(t.n)) && l <= Depth(t.n) && p < Pow2(l)
    requires forall a, b :: 0 <= a < b <= 2 * t.n ==> t.value[a] != t.value[b]
    ensures NodeAt(l, p) <= 2 * t.n
    ensures ChunkHashesFrom(t, t.At(NodeAt(l, p))) == Some(ValuesOf(t, ChunksOf(t.n, l, p)))
  {
    hide Leaves, FirstBelow, Depth, Range, ValuesOf, Pow2;
    NodeInTree(t.n, l, p);
    PerfectSubtree(t.n, l, p);
    OnlyMatch(t, NodeAt(l, p));
  }

  /** With distinct values the search finds the node it was asked for. */
  lemma OnlyMatch(t: TreeView, k: nat)
    requires t.Valid() && k <= 2 * t.n
    requires forall a, b :: 0 <= a < b <= 2 * t.n ==> t.value[a] != t.value[b]
    ensures FirstBelow(t, 0, t.At(k)) == Some(k)
  {
    hide FirstBelow, Within;
    WithinRoot(k);
    assert FirstBelow(t, 0, t.At(k)).Some?;
  }

  /** The chunks below the left child of the root are the first part of the file exactly in a perfect tree. */
  lemma LeftChildIsFirstPart(n: nat)
    requires n >= 1
    ensures Leaves(n, 1) == Range(n, n + |Leaves(n, 1)|) <==> n + 1 == Pow2(Depth(n))
  {
    hide Leaves, Depth, Pow2, Range;
    LeavesUnfold(n, 0);
    LeavesNonEmpty(n, 1);
    WholeTreeInTwoRows(n);
    var left, first := Leaves(n, 1), Pow2(Depth(n)) - 1;
    assert left == Leaves(n, 0)[..|left|];
    FirstOfRange(n, n + |left|);
    FirstOfRange(first, 2 * n + 1);
    if n == first {
      RangePrefix(n, 2 * n + 1, |left|);
      RootLengths(n);
    }
  }

  lemma FirstOfRange(lo: int, hi: int)
    requires lo < hi
    ensures |Range(lo, hi)| > 0 && Range(lo, hi)[0] == lo
  {}

  lemma RangePrefix(lo: int, hi: int, k: nat)
    requires lo + k <= hi
    ensures |Range(lo, hi)| >= k && Range(lo, hi)[..k] == Range(lo, lo + k)
    ensures Range(lo, lo) == []
  {}

  /** Three chunks: below the left child of the root are chunks 1 and 2. */
  lemma LeftChildExample()
    ensures Leaves(2, 1) == [2 + 1, 2 + 2]
  {
    LeavesUnfold(2, 1);
  }
}
