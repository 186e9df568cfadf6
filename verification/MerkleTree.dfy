/** The linked Merkle tree of src/tree/merkletree.c: construction by index arithmetic, walks and queries. */
module MerkleTree {
  import opened Bytes
  import opened HeapTree
  import opened MinCover

  class Chunk {
    const hash: cstring
    const offset: nat   // uint32_t
    const size: nat     // uint32_t
    var nodePtr: Node?

    constructor (hash: cstring, offset: nat, size: nat)
      ensures this.hash == hash && this.offset == offset && this.size == size && nodePtr == null
    {
      this.hash, this.offset, this.size := hash, offset, size;
      nodePtr := null;
    }
  }

  class Node {
    const key: nat
    const value: cstring
    const parent: Node?
    const isLeaf: bool
    var left: Node?
    var right: Node?
    var computedHash: cstring

    constructor (key: nat, value: cstring, parent: Node?, isLeaf: bool)
      ensures this.key == key && this.value == value && this.parent == parent && this.isLeaf == isLeaf
      ensures left == null && right == null && computedHash == []
    {
      this.key, this.value, this.parent, this.isLeaf := key, value, parent, isLeaf;
      left, right, computedHash := null, null, [];
    }
  }

  // The finished tree

  /** The nodes by key, and the two arrays they were made from. */
  datatype Layout = Layout(nodes: seq<Node>, hashes: seq<cstring>, chunks: seq<Chunk>) {
    function N(): nat {
      |hashes|
    }

    function At(k: nat): Node? {
      if k < |nodes| then nodes[k] else null
    }

    ghost predicate NodeLinked(k: nat)
      requires k < |nodes| && |nodes| == 2 * N() + 1 && |chunks| == N() + 1
      reads nodes`left, nodes`right
    {
      var node := nodes[k];
      && node.key == k
      && node.isLeaf == (k >= N())
      && node.value == (if k < N() then hashes[k] else chunks[k - N()].hash)
      && node.left == At(2 * k + 1)
      && node.right == At(2 * k + 2)
      && node.parent == (if k == 0 then null else At((k - 1) / 2))
    }

    ghost predicate Linked()
      reads nodes`left, nodes`right, chunks`nodePtr
    {
      && |nodes| == 2 * N() + 1
      && |chunks| == N() + 1
      && (forall k :: 0 <= k < |nodes| ==> NodeLinked(k))
      && (forall i :: 0 <= i < |chunks| ==> chunks[i].nodePtr == nodes[N() + i])
    }

    ghost function View(): (v: TreeView)
      reads nodes`computedHash
      ensures v.n == N() && |v.value| == |v.computed| == |nodes|
    {
      TreeView(N(), seq(|nodes|, k requires 0 <= k < |nodes| => nodes[k].value), ComputedHashes(nodes))
    }
  }

  ghost function ComputedHashes(nodes: seq<Node>): (s: seq<cstring>)
    reads nodes`computedHash
    ensures |s| == |nodes| && forall k :: 0 <= k < |nodes| ==> s[k] == nodes[k].computedHash
  {
    if nodes == [] then [] else ComputedHashes(nodes[..|nodes| - 1]) + [nodes[|nodes| - 1].computedHash]
  }

  /** What the queries see of a tree: expected and computed hash of every key. */
  datatype TreeView = TreeView(n: nat, value: seq<cstring>, computed: seq<cstring>) {
    ghost predicate Valid() {
      |value| == |computed| == 2 * n + 1
    }

    function At(k: nat): cstring {
      if k < |value| then value[k] else []
    }

    /** The leaves whose computed hash is the expected one. */
    ghost function Done(): set<nat>
      requires Valid()
    {
      set k: nat | n <= k <= 2 * n && value[k] == computed[k]
    }
  }

  // Construction

  ghost function Keys(n: nat, i: nat): set<nat> {
    set k: nat | 0 <= k <= 2 * n && Within(k, i)
  }

  lemma KeysSplit(n: nat, i: nat)
    requires i <= 2 * n
    ensures i < n ==> Keys(n, i) == {i} + Keys(n, 2 * i + 1) + Keys(n, 2 * i + 2)
    ensures i < n ==> Keys(n, 2 * i + 1) !! Keys(n, 2 * i + 2)
    ensures i < n ==> i !in Keys(n, 2 * i + 1) && i !in Keys(n, 2 * i + 2)
    ensures i >= n ==> Keys(n, i) == {i}
    ensures i in Keys(n, i)
  {
    hide Within;
    forall k: nat
      ensures Within(k, i) <==> k == i || Within(k, 2 * i + 1) || Within(k, 2 * i + 2)
      ensures !(Within(k, 2 * i + 1) && Within(k, 2 * i + 2))
      ensures i >= n && k <= 2 * n ==> (Within(k, i) <==> k == i)
    {
      WithinChildren(k, i);
      WithinSelf(i);
      if i >= n && i < k <= 2 * n {
        LeafHasNoDescendants(n, i, k);
      } else if k < i {
        WithinBelow(k, i);
      }
    }
    WithinBelow(i, 2 * i + 1);
    WithinBelow(i, 2 * i + 2);
  }

  type NodeMap = map<nat, Node>

  ghost function MadeAt(made: NodeMap, k: int): Node? {
    if k in made then made[k] else null
  }

  /** made[k] is the node of key k in a subtree with root i. */
  ghost predicate BuiltNode(made: NodeMap, hashes: seq<cstring>, chunks: seq<Chunk>, i: nat, parent: Node?, k: nat)
    requires k in made && |chunks| == |hashes| + 1
    reads made[k]
  {
    var n, node := |hashes|, made[k];
    && k <= 2 * n
    && node.key == k
    && node.isLeaf == (k >= n)
    && node.value == (if k < n then hashes[k] else chunks[k - n].hash)
    && node.left == MadeAt(made, 2 * k + 1)
    && node.right == MadeAt(made, 2 * k + 2)
    && node.parent == (if k == i then parent else MadeAt(made, (k - 1) / 2))
  }

  /** The children of a key are in the same subtree, its parent too unless the key is the root. */
  lemma KeysClosed(n: nat, i: nat, k: nat)
    requires k in Keys(n, i)
    ensures 2 * k + 1 <= 2 * n ==> 2 * k + 1 in Keys(n, i) && 2 * k + 2 in Keys(n, i)
    ensures k != i ==> k > i && (k - 1) / 2 in Keys(n, i)
    ensures 2 * k + 1 > 2 * n ==> 2 * k + 1 !in Keys(n, i) && 2 * k + 2 !in Keys(n, i)
  {}

  /** A node of a child's subtree is still correctly linked in the whole. */
  lemma BuiltInWhole(made: NodeMap, part: NodeMap, hashes: seq<cstring>, chunks: seq<Chunk>, i: nat, c: nat,
                     parent: Node?, node: Node, k: nat)
    requires |chunks| == |hashes| + 1
    requires c == 2 * i + 1 || c == 2 * i + 2
    requires part.Keys == Keys(|hashes|, c) && made.Keys == Keys(|hashes|, i) && i in made && made[i] == node
    requires forall j :: j in part ==> j in made && made[j] == part[j]
    requires k in part && BuiltNode(part, hashes, chunks, c, node, k)
    ensures k in made && BuiltNode(made, hashes, chunks, i, parent, k)
  {
    KeysClosed(|hashes|, c, k);
    assert k in made.Keys;
    KeysClosed(|hashes|, i, k);
    hide Keys;
  }

  method InsertNode(hashes: seq<cstring>, parent: Node?, i: nat, chunks: seq<Chunk>)
    returns (node: Node, ghost made: NodeMap)
    requires |chunks| == |hashes| + 1 && i <= 2 * |hashes|
    requires forall a, b :: 0 <= a < b < |chunks| ==> chunks[a] != chunks[b]
    modifies chunks`nodePtr
    ensures made.Keys == Keys(|hashes|, i) && i in made && made[i] == node
    ensures forall k :: k in made ==> fresh(made[k])
    ensures forall k :: k in made ==> BuiltNode(made, hashes, chunks, i, parent, k)
    ensures forall c :: 0 <= c < |chunks| ==>
              chunks[c].nodePtr == if |hashes| + c in made then made[|hashes| + c] else old(chunks[c].nodePtr)
    decreases 2 * |hashes| - i, 1
  {
    hide Keys, BuiltNode, Joined;
    var n := |hashes|;
    KeysSplit(n, i);
    if i < n {
      node, made := InsertInner(hashes, parent, i, chunks);
    } else {
      node, made := InsertLeaf(hashes, parent, i, chunks, chunks[i - n]);
    }
  }

  /** The first branch of insert_node (lines 131-145). */
  method InsertInner(hashes: seq<cstring>, parent: Node?, i: nat, chunks: seq<Chunk>)
    returns (node: Node, ghost made: NodeMap)
    requires |chunks| == |hashes| + 1 && i < |hashes|
    requires forall a, b :: 0 <= a < b < |chunks| ==> chunks[a] != chunks[b]
    modifies chunks`nodePtr
    ensures made.Keys == Keys(|hashes|, i) && i in made && made[i] == node
    ensures forall k :: k in made ==> fresh(made[k])
    ensures forall k :: k in made ==> BuiltNode(made, hashes, chunks, i, parent, k)
    ensures forall c :: 0 <= c < |chunks| ==>
              chunks[c].nodePtr == if |hashes| + c in made then made[|hashes| + c] else old(chunks[c].nodePtr)
    decreases 2 * |hashes| - i, 0
  {
    hide Keys, BuiltNode, Joined;
    KeysSplit(|hashes|, i);
    node := new Node(i, hashes[i], parent, false);
    var left, leftMade := InsertNode(hashes, node, 2 * i + 1, chunks);
    node.left := left;
    var right, rightMade := InsertNode(hashes, node, 2 * i + 2, chunks);
    node.right := right;
    made := Joined(leftMade, rightMade, i, node);
    JoinedIsBuilt(made, leftMade, rightMade, hashes, chunks, i, parent, node);
  }

  /** The nodes of two subtrees and of the node above them. */
  ghost function Joined(left: NodeMap, right: NodeMap, i: nat, node: Node): (made: NodeMap)
    ensures made.Keys == left.Keys + right.Keys + {i}
    ensures made[i] == node
    ensures forall k :: k in right && k != i ==> made[k] == right[k]
    ensures forall k :: k in left && k !in right && k != i ==> made[k] == left[k]
  {
    left + right + map[i := node]
  }

  lemma JoinedIsBuilt(made: NodeMap, left: NodeMap, right: NodeMap, hashes: seq<cstring>, chunks: seq<Chunk>, i: nat,
                      parent: Node?, node: Node)
    requires |chunks| == |hashes| + 1 && i < |hashes| && made == Joined(left, right, i, node)
    requires left.Keys == Keys(|hashes|, 2 * i + 1) && right.Keys == Keys(|hashes|, 2 * i + 2)
    requires forall k :: k in left ==> BuiltNode(left, hashes, chunks, 2 * i + 1, node, k)
    requires forall k :: k in right ==> BuiltNode(right, hashes, chunks, 2 * i + 2, node, k)
    requires 2 * i + 1 in left && 2 * i + 2 in right
    requires node.key == i && !node.isLeaf && node.value == hashes[i] && node.parent == parent
    requires node.left == left[2 * i + 1] && node.right == right[2 * i + 2]
    ensures forall k :: k in made ==> BuiltNode(made, hashes, chunks, i, parent, k)
  {
    hide Keys, BuiltNode;
    KeysSplit(|hashes|, i);
    forall k | k in made
      ensures BuiltNode(made, hashes, chunks, i, parent, k)
    {
      if k in left {
        BuiltInWhole(made, left, hashes, chunks, i, 2 * i + 1, parent, node, k);
      } else if k in right {
        BuiltInWhole(made, right, hashes, chunks, i, 2 * i + 2, parent, node, k);
      } else {
        BuiltTop(made, hashes, chunks, i);
      }
    }
  }

  /** The else branch of insert_node (lines 146-162). */
  method InsertLeaf(hashes: seq<cstring>, parent: Node?, i: nat, chunks: seq<Chunk>, chunk: Chunk)
    returns (node: Node, ghost made: NodeMap)
    requires |chunks| == |hashes| + 1 && |hashes| <= i <= 2 * |hashes| && chunk == chunks[i - |hashes|]
    modifies chunk`nodePtr
    ensures made.Keys == {i} && made[i] == node && fresh(node)
    ensures BuiltNode(made, hashes, chunks, i, parent, i)
    ensures chunk.nodePtr == node
  {
    hide BuiltNode;
    node := new Node(i, chunk.hash, parent, true);
    chunk.nodePtr := node;
    ghost var top: NodeMap := map[i := node];
    made := top;
    BuiltTop(made, hashes, chunks, i);
  }

  lemma BuiltTop(made: NodeMap, hashes: seq<cstring>, chunks: seq<Chunk>, i: nat)
    requires |chunks| == |hashes| + 1 && i <= 2 * |hashes| && i in made
    requires made[i].key == i && made[i].isLeaf == (i >= |hashes|)
    requires made[i].value == if i < |hashes| then hashes[i] else chunks[i - |hashes|].hash
    requires made[i].left == MadeAt(made, 2 * i + 1) && made[i].right == MadeAt(made, 2 * i + 2)
    ensures BuiltNode(made, hashes, chunks, i, made[i].parent, i)
  {}

  /** create_tree: the finished tree is linked as the key arithmetic says. */
  method CreateTree(hashes: seq<cstring>, chunks: seq<Chunk>) returns (root: Node, ghost lay: Layout)
    requires |chunks| == |hashes| + 1
    requires forall a, b :: 0 <= a < b < |chunks| ==> chunks[a] != chunks[b]
    modifies chunks`nodePtr
    ensures lay.hashes == hashes && lay.chunks == chunks && lay.Linked() && lay.At(0) == root
    ensures forall k :: 0 <= k < |lay.nodes| ==> fresh(lay.nodes[k])
  {
    ghost var made: NodeMap;
    hide Keys, BuiltNode, Layout.NodeLinked, Layout.Linked;
    root, made := InsertNode(hashes, null, 0, chunks);
    AllKeys(|hashes|);
    ghost var size := 2 * |hashes| + 1;
    ghost var nodes: seq<Node> := seq(size, k requires 0 <= k < size && k in made => made[k]);
    lay := Layout(nodes, hashes, chunks);
    BuiltIsLinked(made, lay);
  }

  /** The nodes of the map, in key order. */
  ghost predicate Ordered(made: NodeMap, lay: Layout) {
    && |lay.chunks| == |lay.hashes| + 1
    && |lay.nodes| == 2 * |lay.hashes| + 1
    && (forall k: nat :: k in made <==> k < |lay.nodes|)
    && (forall k :: 0 <= k < |lay.nodes| ==> lay.nodes[k] == made[k])
  }

  lemma BuiltNodeLinked(made: NodeMap, lay: Layout, k: nat)
    requires Ordered(made, lay) && k in made && BuiltNode(made, lay.hashes, lay.chunks, 0, null, k)
    ensures lay.NodeLinked(k)
  {
    assert lay.At(2 * k + 1) == MadeAt(made, 2 * k + 1);
    assert lay.At(2 * k + 2) == MadeAt(made, 2 * k + 2);
    if k > 0 {
      assert lay.At((k - 1) / 2) == MadeAt(made, (k - 1) / 2);
    }
  }

  lemma BuiltIsLinked(made: NodeMap, lay: Layout)
    requires Ordered(made, lay)
    requires forall k :: k in made ==> BuiltNode(made, lay.hashes, lay.chunks, 0, null, k)
    requires forall i :: 0 <= i < |lay.chunks| ==> lay.chunks[i].nodePtr == lay.nodes[lay.N() + i]
    ensures lay.Linked()
  {
    hide BuiltNode, Layout.NodeLinked;
    forall k | 0 <= k < |lay.nodes|
      ensures lay.NodeLinked(k)
    {
      BuiltNodeLinked(made, lay, k);
    }
  }

  lemma AllKeys(n: nat)
    ensures forall k: nat :: k in Keys(n, 0) <==> k <= 2 * n
  {
    forall k: nat
      ensures Within(k, 0)
    {
      WithinRoot(k);
    }
  }

  // Walks

  /** The functions passed to inorder_search: all_hash_func, get_completed_chunks, get_chunks_from_hash_func. */
  datatype Visitor = AllHashes | CompletedChunks | ChunksFromHash

  /** What the visitor appends at key k. */
  ghost function Visit(t: TreeView, v: Visitor, k: nat): (s: seq<cstring>)
    requires t.Valid()
    ensures |s| <= 1
  {
    if k > 2 * t.n then [] else
    match v
    case AllHashes => [t.value[k]]
    case CompletedChunks => if k >= t.n && t.value[k] == t.computed[k] then [t.value[k]] else []
    case ChunksFromHash => if k >= t.n then [t.value[k]] else []
  }

  /** What it appends along a list of keys. */
  ghost function VisitAll(t: TreeView, v: Visitor, keys: seq<nat>): (s: seq<cstring>)
    requires t.Valid()
    ensures |s| <= |keys|
  {
    if keys == [] then [] else VisitAll(t, v, keys[..|keys| - 1]) + Visit(t, v, keys[|keys| - 1])
  }

  lemma {:induction false} VisitConcat(t: TreeView, v: Visitor, a: seq<nat>, b: seq<nat>)
    requires t.Valid()
    ensures VisitAll(t, v, a + b) == VisitAll(t, v, a) + VisitAll(t, v, b)
  {
    hide Visit;
    if b == [] {
      assert a + b == a;
    } else {
      VisitConcat(t, v, a, b[..|b| - 1]);
      assert (a + b)[..|a + b| - 1] == a + b[..|b| - 1];
    }
  }

  /** The walk below key k. */
  ghost function Walk(t: TreeView, v: Visitor, k: nat): seq<cstring>
    requires t.Valid()
  {
    VisitAll(t, v, InOrder(t.n, k))
  }

  lemma WalkUnfold(t: TreeView, v: Visitor, k: nat)
    requires t.Valid()
    ensures k > 2 * t.n ==> Walk(t, v, k) == []
    ensures k <= 2 * t.n ==> Walk(t, v, k) == Walk(t, v, 2 * k + 1) + Visit(t, v, k) + Walk(t, v, 2 * k + 2)
  {
    hide InOrder, Visit;
    var l, r := InOrder(t.n, 2 * k + 1), InOrder(t.n, 2 * k + 2);
    InOrderUnfold(t.n, k);
    if k <= 2 * t.n {
      VisitConcat(t, v, l + [k], r);
      VisitConcat(t, v, l, [k]);
      assert VisitAll(t, v, [k]) == Visit(t, v, k) by {
        assert [k][..0] == [];
      }
    }
  }

  method VisitNode(visit: Visitor, node: Node, hashes: array<cstring>, i: nat, ghost lay: Layout)
    returns (i': nat)
    requires lay.Linked() && lay.At(node.key) == node
    requires i + |Visit(lay.View(), visit, node.key)| <= hashes.Length
    modifies hashes
    ensures i' == i + |Visit(lay.View(), visit, node.key)|
    ensures hashes[..] == Written(old(hashes[..]), i, Visit(lay.View(), visit, node.key))
  {
    hide Written;
    assert lay.NodeLinked(node.key);
    WrittenNothing(hashes[..], i);
    if i < hashes.Length {
      WrittenOne(hashes[..], i, node.value);
    }
    i' := i;
    match visit {
      case AllHashes =>
        hashes[i'] := node.value;
        i' := i' + 1;
      case CompletedChunks =>
        if node.isLeaf {
          if node.value == node.computedHash {
            hashes[i'] := node.value;
            i' := i' + 1;
          }
        }
      case ChunksFromHash =>
        if node.isLeaf {
          hashes[i'] := node.value;
          i' := i' + 1;
        }
    }
  }

  /** inorder_search, root being the node of key k. */
  method InorderSearch(root: Node, visit: Visitor, hashes: array<cstring>, i: nat, ghost lay: Layout, ghost k: nat)
    returns (i': nat)
    requires lay.Linked() && lay.At(k) == root
    requires i + |Walk(lay.View(), visit, k)| <= hashes.Length
    modifies hashes
    ensures i' == i + |Walk(lay.View(), visit, k)|
    ensures hashes[..] == Written(old(hashes[..]), i, Walk(lay.View(), visit, k))
    decreases |lay.nodes| - k
  {
    hide Walk, Visit, Written, Layout.View;
    ghost var t := lay.View();
    ghost var before, left, own, right :=
      hashes[..], Walk(t, visit, 2 * k + 1), Visit(t, visit, k), Walk(t, visit, 2 * k + 2);
    assert lay.NodeLinked(k);
    WalkUnfold(t, visit, k);
    WalkUnfold(t, visit, 2 * k + 1);
    WalkUnfold(t, visit, 2 * k + 2);
    WrittenNothing(before, i);
    WrittenTwice(before, i, left, own);
    WrittenTwice(before, i, left + own, right);
    i' := i;
    if root.left != null {
      i' := InorderSearch(root.left, visit, hashes, i', lay, 2 * k + 1);
    }
    i' := VisitNode(visit, root, hashes, i', lay);
    if root.right != null {
      i' := InorderSearch(root.right, visit, hashes, i', lay, 2 * k + 2);
    } else {
      WrittenNothing(hashes[..], i');
    }
  }

  // Search

  /** The first of the keys whose value is the given hash. */
  ghost function FirstMatch(t: TreeView, keys: seq<nat>, hash: cstring): (r: Option<nat>)
    ensures r.None? ==> forall q :: 0 <= q < |keys| ==> t.At(keys[q]) != hash
    ensures r.Some? ==> exists p :: IsFirst(t, keys, hash, p) && keys[p] == r.value
  {
    if keys == [] then None
    else if t.At(keys[0]) == hash then assert IsFirst(t, keys, hash, 0); Some(keys[0])
    else
      var r := FirstMatch(t, keys[1..], hash);
      assert r.Some? ==> exists p :: IsFirst(t, keys, hash, p) && keys[p] == r.value by {
        if r.Some? {
          var p :| IsFirst(t, keys[1..], hash, p) && keys[1..][p] == r.value;
          assert IsFirst(t, keys, hash, p + 1);
        }
      }
      r
  }

  ghost predicate IsFirst(t: TreeView, keys: seq<nat>, hash: cstring, p: int) {
    0 <= p < |keys| && t.At(keys[p]) == hash && forall q :: 0 <= q < p ==> t.At(keys[q]) != hash
  }

  lemma {:induction false} FirstMatchConcat(t: TreeView, a: seq<nat>, b: seq<nat>, hash: cstring)
    ensures FirstMatch(t, a + b, hash) ==
            if FirstMatch(t, a, hash).Some? then FirstMatch(t, a, hash) else FirstMatch(t, b, hash)
  {
    if a == [] {
      assert a + b == b;
    } else {
      assert (a + b)[1..] == a[1..] + b;
      FirstMatchConcat(t, a[1..], b, hash);
    }
  }

  /** The first match of the in-order walk below key k. */
  ghost function FirstBelow(t: TreeView, k: nat, hash: cstring): (r: Option<nat>)
    ensures r.Some? ==> r.value <= 2 * t.n && Within(r.value, k) && t.At(r.value) == hash
    ensures r.None? ==> forall j: nat :: j <= 2 * t.n && Within(j, k) ==> t.At(j) != hash
  {
    var r := FirstMatch(t, InOrder(t.n, k), hash);
    assert r.Some? ==> r.value in InOrder(t.n, k) && t.At(r.value) == hash;
    assert forall j: nat :: j in InOrder(t.n, k) <==> j <= 2 * t.n && Within(j, k) by {
      forall j: nat
        ensures j in InOrder(t.n, k) <==> j <= 2 * t.n && Within(j, k)
      {
        InOrderMember(t.n, k, j);
      }
    }
    r
  }

  lemma FirstBelowUnfold(t: TreeView, k: nat, hash: cstring)
    ensures k > 2 * t.n ==> FirstBelow(t, k, hash) == None
    ensures k <= 2 * t.n ==>
              FirstBelow(t, k, hash) ==
              if FirstBelow(t, 2 * k + 1, hash).Some? then FirstBelow(t, 2 * k + 1, hash)
              else if t.At(k) == hash then Some(k)
              else FirstBelow(t, 2 * k + 2, hash)
  {
    hide InOrder, Within;
    var l, r := InOrder(t.n, 2 * k + 1), InOrder(t.n, 2 * k + 2);
    InOrderUnfold(t.n, k);
    if k <= 2 * t.n {
      FirstMatchConcat(t, l + [k], r, hash);
      FirstMatchConcat(t, l, [k], hash);
    }
  }

  /** Finds the in-order first node with the given value below the node of key k, if there is one. */
  method InorderFindNode(root: Node?, hash: cstring, ghost lay: Layout, ghost k: nat) returns (node: Node?)
    requires lay.Linked() && lay.At(k) == root
    ensures var r := FirstBelow(lay.View(), k, hash);
            node == match r case None => null case Some(j) => lay.At(j)
    decreases if root == null then 0 else |lay.nodes| - k + 1
  {
    hide FirstBelow, Layout.Linked, Layout.At, Layout.View, TreeView.At;
    FirstBelowUnfold(lay.View(), k, hash);
    NodeOf(lay, k);
    if root == null {
      return null;
    }
    NodeOf(lay, 2 * k + 1);
    NodeOf(lay, 2 * k + 2);
    FoundInTree(lay, 2 * k + 1, hash);
    node := InorderFindNode(root.left, hash, lay, 2 * k + 1);
    if node != null {
      return node;
    }
    if root.value == hash {
      return root;
    }
    node := InorderFindNode(root.right, hash, lay, 2 * k + 2);
  }

  /** What is found is a node. */
  lemma FoundInTree(lay: Layout, k: nat, hash: cstring)
    requires lay.Linked()
    ensures var r := FirstBelow(lay.View(), k, hash);
            r.Some? ==> lay.At(r.value) != null
  {}

  // The smallest description of the completion state

  ghost function ValuesOf(t: TreeView, keys: seq<nat>): (s: seq<cstring>)
    ensures |s| == |keys| && forall i :: 0 <= i < |keys| ==> s[i] == t.At(keys[i])
  {
    seq(|keys|, i requires 0 <= i < |keys| => t.At(keys[i]))
  }

  /** The hashes that min_hash_find reports below key k. */
  ghost function MinHashes(t: TreeView, k: nat): (s: seq<cstring>)
    requires t.Valid()
    ensures |s| == |Emit(t.n, t.Done(), k)|
  {
    ValuesOf(t, Emit(t.n, t.Done(), k))
  }

  ghost function OwnHashes(t: TreeView, k: nat): (s: seq<cstring>)
    requires t.Valid()
  {
    ValuesOf(t, Own(t.n, t.Done(), k))
  }

  lemma OwnHashesCases(t: TreeView, k: nat)
    requires t.Valid()
    ensures var l, r := Complete(t.n, t.Done(), 2 * k + 1), Complete(t.n, t.Done(), 2 * k + 2);
            OwnHashes(t, k) ==
            if l && r then (if k == 0 then [t.At(0)] else [])
            else if l then [t.At(2 * k + 1)]
            else if r then [t.At(2 * k + 2)]
            else []
  {
    hide Complete;
  }

  lemma MinHashesUnfold(t: TreeView, k: nat)
    requires t.Valid()
    ensures k >= t.n ==> MinHashes(t, k) == []
    ensures k < t.n ==> MinHashes(t, k) == MinHashes(t, 2 * k + 1) + MinHashes(t, 2 * k + 2) + OwnHashes(t, k)
  {
    hide Emit, Own;
    EmitUnfold(t.n, t.Done(), k);
  }

  /** min_hash_find, root being the node of key k. */
  method MinHashFind(root: Node, hashes: array<cstring>, i: nat, ghost lay: Layout, ghost k: nat)
    returns (ret: int, i': nat)
    requires lay.Linked() && lay.At(k) == root
    requires i + |MinHashes(lay.View(), k)| <= hashes.Length
    modifies hashes
    ensures ret == if Complete(lay.N(), lay.View().Done(), k) then 1 else 0
    ensures i' == i + |MinHashes(lay.View(), k)|
    ensures hashes[..] == Written(old(hashes[..]), i, MinHashes(lay.View(), k))
    decreases |lay.nodes| - k
  {
    hide MinHashes, OwnHashes, Written, Complete, TreeView.Done, Layout.View, Layout.Linked;
    ghost var t, before := lay.View(), hashes[..];
    LinkedView(lay);
    MinHashesUnfold(t, k);
    if root.isLeaf {
      LeafNodeComplete(lay, k);
      WrittenNothing(before, i);
      return if root.computedHash == root.value then 1 else 0, i;
    }
    InnerNode(lay, k);
    ghost var left, right, own := MinHashes(t, 2 * k + 1), MinHashes(t, 2 * k + 2), OwnHashes(t, k);
    CompleteFromChildren(t.n, t.Done(), k);
    OwnHashesCases(t, k);
    WrittenTwice(before, i, left, right);
    WrittenTwice(before, i, left + right, own);
    var leftComplete, rightComplete: int;
    leftComplete, i' := MinHashFind(root.left, hashes, i, lay, 2 * k + 1);
    rightComplete, i' := MinHashFind(root.right, hashes, i', lay, 2 * k + 2);
    ret, i' := ReportOwn(root, leftComplete, rightComplete, hashes, i', lay, k);
  }

  /** The end of min_hash_find (lines 62-76), the children having been walked. */
  method ReportOwn(root: Node, leftComplete: int, rightComplete: int, hashes: array<cstring>, i: nat,
                   ghost lay: Layout, ghost k: nat)
    returns (ret: int, i': nat)
    requires lay.Linked() && lay.At(k) == root && !root.isLeaf
    requires leftComplete == if Complete(lay.N(), lay.View().Done(), 2 * k + 1) then 1 else 0
    requires rightComplete == if Complete(lay.N(), lay.View().Done(), 2 * k + 2) then 1 else 0
    requires i + |OwnHashes(lay.View(), k)| <= hashes.Length
    modifies hashes
    ensures ret == if leftComplete == 1 && rightComplete == 1 then 1 else 0
    ensures i' == i + |OwnHashes(lay.View(), k)|
    ensures hashes[..] == Written(old(hashes[..]), i, OwnHashes(lay.View(), k))
  {
    hide OwnHashes, Written, Complete, TreeView.Done, TreeView.At, Layout.View, Layout.Linked;
    LinkedView(lay);
    OwnHashesCases(lay.View(), k);
    InnerNode(lay, k);
    WrittenNothing(hashes[..], i);
    if i < hashes.Length {
      WrittenOne(hashes[..], i, root.value);
      WrittenOne(hashes[..], i, root.left.value);
      WrittenOne(hashes[..], i, root.right.value);
    }
    i' := i;
    if leftComplete != 0 && rightComplete != 0 {
      if root.parent == null {
        hashes[i'] := root.value;
        i' := i' + 1;
      }
      return 1, i';
    } else if leftComplete != 0 {
      hashes[i'] := root.left.value;
      i' := i' + 1;
    } else if rightComplete != 0 {
      hashes[i'] := root.right.value;
      i' := i' + 1;
    }
    ret := 0;
  }

  lemma LinkedView(lay: Layout)
    requires lay.Linked()
    ensures |lay.nodes| == 2 * lay.N() + 1 && lay.View().Valid()
  {}

  /** A key beyond the tree has no node; a node within it has the children and the value that belong to its key. */
  lemma NodeOf(lay: Layout, k: nat)
    requires lay.Linked()
    ensures k > 2 * lay.N() <==> lay.At(k) == null
    ensures lay.At(k) != null ==>
              && k < |lay.nodes|
              && lay.At(k).left == lay.At(2 * k + 1) && lay.At(k).right == lay.At(2 * k + 2)
              && lay.View().At(k) == lay.At(k).value
  {
    assert k < |lay.nodes| ==> lay.NodeLinked(k);
  }

  /** An inner node: its children, and the values of all three. */
  lemma InnerNode(lay: Layout, k: nat)
    requires lay.Linked() && k < |lay.nodes| && !lay.nodes[k].isLeaf
    ensures k < lay.N() && lay.N() == lay.View().n && |lay.nodes| == 2 * lay.N() + 1
    ensures lay.nodes[k].left == lay.nodes[2 * k + 1] && lay.nodes[k].right == lay.nodes[2 * k + 2]
    ensures lay.At(2 * k + 1) == lay.nodes[2 * k + 1] && lay.At(2 * k + 2) == lay.nodes[2 * k + 2]
    ensures lay.View().At(k) == lay.nodes[k].value
    ensures lay.View().At(2 * k + 1) == lay.nodes[2 * k + 1].value
    ensures lay.View().At(2 * k + 2) == lay.nodes[2 * k + 2].value
    ensures lay.nodes[k].parent == null <==> k == 0
  {
    assert lay.NodeLinked(k);
    assert lay.At(2 * k + 1) == lay.nodes[2 * k + 1];
  }

  lemma LeafComplete(t: TreeView, k: nat)
    requires t.Valid() && t.n <= k <= 2 * t.n
    ensures Complete(t.n, t.Done(), k) <==> t.value[k] == t.computed[k]
  {
    hide Leaves;
    LeavesUnfold(t.n, k);
    assert Leaves(t.n, k) == [k];
    assert k in t.Done() <==> t.value[k] == t.computed[k];
    assert k in Leaves(t.n, k);
  }

  lemma LeafNodeComplete(lay: Layout, k: nat)
    requires lay.Linked() && k < |lay.nodes| && lay.nodes[k].isLeaf
    ensures Complete(lay.N(), lay.View().Done(), k) <==> lay.nodes[k].computedHash == lay.nodes[k].value
    ensures lay.N() <= k
  {
    hide Complete, TreeView.Done;
    assert lay.NodeLinked(k);
    LeafComplete(lay.View(), k);
  }
}
