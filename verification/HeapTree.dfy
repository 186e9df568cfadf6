/**
 The tree that insert_node lays out over n hashes and n + 1 chunks, as arithmetic on keys: key k < n is an internal
 node with children 2k+1 and 2k+2, the keys n..2n are the leaves, key n + i belongs to chunk i.
 */
module HeapTree {
  import opened Bytes

  function Pow2(d: nat): (p: nat)
    ensures p > 0
  {
    if d == 0 then 1 else 2 * Pow2(d - 1)
  }

  /** j is k or one of its descendants. */
  predicate Within(j: nat, k: nat) {
    j == k || (j > k && Within((j - 1) / 2, k))
  }

  /** The keys of the subtree of k in the order of an in-order walk. */
  function InOrder(n: nat, k: nat): seq<nat>
    decreases if k > 2 * n then 0 else 2 * n + 1 - k
  {
    if k > 2 * n then [] else InOrder(n, 2 * k + 1) + [k] + InOrder(n, 2 * k + 2)
  }

  /** The leaves among them. */
  function Leaves(n: nat, k: nat): seq<nat>
    decreases if k > 2 * n then 0 else 2 * n + 1 - k
  {
    if k > 2 * n then [] else if k >= n then [k] else Leaves(n, 2 * k + 1) + Leaves(n, 2 * k + 2)
  }

  lemma InOrderUnfold(n: nat, k: nat)
    ensures k <= 2 * n ==> InOrder(n, k) == InOrder(n, 2 * k + 1) + [k] + InOrder(n, 2 * k + 2)
    ensures k > 2 * n ==> InOrder(n, k) == []
  {}

  lemma LeavesUnfold(n: nat, k: nat)
    ensures k < n ==> Leaves(n, k) == Leaves(n, 2 * k + 1) + Leaves(n, 2 * k + 2)
    ensures n <= k <= 2 * n ==> Leaves(n, k) == [k]
    ensures k > 2 * n ==> Leaves(n, k) == []
  {}

  // Ancestry

  lemma {:induction false} WithinRoot(j: nat)
    ensures Within(j, 0)
  {
    if j > 0 {
      WithinRoot((j - 1) / 2);
    }
  }

  lemma {:induction false} WithinChildren(j: nat, k: nat)
    ensures Within(j, k) <==> j == k || Within(j, 2 * k + 1) || Within(j, 2 * k + 2)
    ensures !(Within(j, 2 * k + 1) && Within(j, 2 * k + 2))
    ensures Within(j, k) ==> j >= k
    decreases j
  {
    if j > k {
      WithinChildren((j - 1) / 2, k);
    }
  }

  lemma {:induction false} WithinTransitive(i: nat, j: nat, k: nat)
    requires Within(i, j) && Within(j, k)
    ensures Within(i, k)
    decreases i
  {
    if i != j {
      WithinTransitive((i - 1) / 2, j, k);
    }
  }

  /** Two nodes above a common one are above one another. */
  lemma {:induction false} WithinComparable(i: nat, j: nat, k: nat)
    requires Within(i, j) && Within(i, k)
    ensures Within(j, k) || Within(k, j)
    decreases i
  {
    if i != j && i != k {
      WithinComparable((i - 1) / 2, j, k);
    }
  }

  lemma {:induction false} LeafHasNoDescendants(n: nat, k: nat, j: nat)
    requires n <= k && k < j <= 2 * n
    ensures !Within(j, k)
  {
    WithinBelow((j - 1) / 2, k);
  }

  lemma {:induction false} WithinBelow(j: nat, k: nat)
    requires j < k
    ensures !Within(j, k)
  {}

  // Every key exactly once

  lemma CountConcat(a: seq<nat>, k: nat, b: seq<nat>, j: nat)
    ensures multiset(a + [k] + b)[j] == multiset(a)[j] + (if j == k then 1 else 0) + multiset(b)[j]
  {}

  /** The walk of a subtree meets each key of the subtree once and no other key. */
  lemma {:induction false} InOrderOnce(n: nat, k: nat, j: nat)
    ensures multiset(InOrder(n, k))[j] == if j <= 2 * n && Within(j, k) then 1 else 0
    decreases if k > 2 * n then 0 else 2 * n + 1 - k
  {
    hide Within, InOrder;
    WithinChildren(j, k);
    WithinBelow(k, 2 * k + 1);
    WithinBelow(k, 2 * k + 2);
    InOrderUnfold(n, k);
    if k <= 2 * n {
      InOrderOnce(n, 2 * k + 1, j);
      InOrderOnce(n, 2 * k + 2, j);
      CountConcat(InOrder(n, 2 * k + 1), k, InOrder(n, 2 * k + 2), j);
    }
  }

  /** insert_node makes each of the keys 0..2n exactly once. */
  lemma AllKeysOnce(n: nat, j: nat)
    ensures multiset(InOrder(n, 0))[j] == if j <= 2 * n then 1 else 0
  {
    WithinRoot(j);
    InOrderOnce(n, 0, j);
  }

  lemma {:induction false} InOrderMember(n: nat, k: nat, j: nat)
    ensures j in InOrder(n, k) <==> j <= 2 * n && Within(j, k)
  {
    InOrderOnce(n, k, j);
    assert j in InOrder(n, k) <==> multiset(InOrder(n, k))[j] > 0;
  }

  lemma {:induction false} LeafMember(n: nat, k: nat, j: nat)
    ensures j in Leaves(n, k) <==> n <= j <= 2 * n && Within(j, k)
    decreases if k > 2 * n then 0 else 2 * n + 1 - k
  {
    hide Leaves, Within;
    WithinChildren(j, k);
    LeavesUnfold(n, k);
    if k < n {
      LeafMember(n, 2 * k + 1, j);
      LeafMember(n, 2 * k + 2, j);
    } else if k < j <= 2 * n {
      LeafHasNoDescendants(n, k, j);
    }
  }

  lemma {:induction false} LeavesNonEmpty(n: nat, k: nat)
    requires k <= 2 * n
    ensures |Leaves(n, k)| > 0
    decreases 2 * n - k
  {
    if k < n {
      LeavesNonEmpty(n, 2 * k + 1);
    }
  }

  // The leaf order

  function Range(lo: int, hi: int): (s: seq<int>)
    ensures |s| == if lo < hi then hi - lo else 0
    ensures forall i :: 0 <= i < |s| ==> s[i] == lo + i
  {
    if lo < hi then seq(hi - lo, i => lo + i) else []
  }

  lemma RangeJoin(a: int, b: int, c: int)
    requires a <= b <= c
    ensures Range(a, b) + Range(b, c) == Range(a, c)
  {}

  /** The leftmost and rightmost keys d levels below k, whether present or not. */
  function LeftEnd(k: nat, d: nat): (j: nat)
    ensures j >= k
  {
    if d == 0 then k else 2 * LeftEnd(k, d - 1) + 1
  }

  function RightEnd(k: nat, d: nat): (j: nat)
    ensures j >= LeftEnd(k, d)
  {
    if d == 0 then k else 2 * RightEnd(k, d - 1) + 2
  }

  /** The row d + 1 levels below k is the row d levels below its left child, then that of its right child. */
  lemma {:induction false} RowSplits(k: nat, d: nat)
    ensures LeftEnd(2 * k + 1, d) == LeftEnd(k, d + 1)
    ensures RightEnd(2 * k + 2, d) == RightEnd(k, d + 1)
    ensures RightEnd(2 * k + 1, d) + 1 == LeftEnd(2 * k + 2, d)
  {
    if d > 0 {
      RowSplits(k, d - 1);
    }
  }

  lemma {:induction false} RowWidth(k: nat, d: nat)
    ensures RightEnd(k, d) == LeftEnd(k, d) + Pow2(d) - 1
  {
    if d > 0 {
      RowWidth(k, d - 1);
    }
  }

  lemma {:induction false} LeftEndClosedForm(k: nat, d: nat)
    ensures LeftEnd(k, d) + 1 == (k + 1) * Pow2(d)
  {
    if d > 0 {
      LeftEndClosedForm(k, d - 1);
      assert (k + 1) * (2 * Pow2(d - 1)) == 2 * ((k + 1) * Pow2(d - 1));
    }
  }

  lemma RowSteps(k: nat, d: nat)
    requires d >= 1
    ensures LeftEnd(k, d) == 2 * LeftEnd(k, d - 1) + 1 && RightEnd(k, d) == 2 * RightEnd(k, d - 1) + 2
  {}

  /** All leaves of the subtree of k lie d or d - 1 levels below it. */
  predicate Levelled(n: nat, k: nat, d: nat) {
    && LeftEnd(k, d) >= n
    && LeftEnd(k, d + 1) > 2 * n
    && (d >= 1 ==> RightEnd(k, d - 1) <= 2 * n)
    && (d >= 2 ==> RightEnd(k, d - 2) < n)
    && (d == 0 ==> k <= 2 * n)
  }

  /** The present keys d levels below k, then the leaves one level higher. */
  function TwoRows(n: nat, k: nat, d: nat): seq<int> {
    Range(LeftEnd(k, d), Min(RightEnd(k, d), 2 * n) + 1)
    + (if d == 0 then [] else Range(Max(n, LeftEnd(k, d - 1)), RightEnd(k, d - 1) + 1))
  }

  lemma LevelledChildren(n: nat, k: nat, d: nat)
    requires Levelled(n, k, d) && d >= 2
    ensures k < n && Levelled(n, 2 * k + 1, d - 1) && Levelled(n, 2 * k + 2, d - 1)
  {
    LevelledLeft(n, k, d);
    LevelledRight(n, k, d);
  }

  lemma LevelledLeft(n: nat, k: nat, d: nat)
    requires Levelled(n, k, d) && d >= 2
    ensures k < n && Levelled(n, 2 * k + 1, d - 1)
  {
    hide LeftEnd, RightEnd, Pow2;
    RowSplits(k, d);
    RowSplits(k, d - 1);
    RowSplits(k, d - 2);
    if d >= 3 {
      RowSplits(k, d - 3);
    }
  }

  lemma LevelledRight(n: nat, k: nat, d: nat)
    requires Levelled(n, k, d) && d >= 2
    ensures Levelled(n, 2 * k + 2, d - 1)
  {
    hide LeftEnd, RightEnd, Pow2;
    RowSplits(k, d);
    RowSplits(k, d - 1);
    RowSplits(k, d - 2);
    if d >= 3 {
      RowSplits(k, d - 3);
    }
  }

  lemma {:induction false} LeavesInTwoRows(n: nat, k: nat, d: nat)
    requires Levelled(n, k, d)
    ensures Leaves(n, k) == TwoRows(n, k, d)
    decreases d
  {
    hide Leaves, TwoRows, Levelled;
    LeavesUnfold(n, k);
    if d >= 2 {
      LeavesFurther(n, k, d);
      LeavesInTwoRows(n, 2 * k + 1, d - 1);
      LeavesInTwoRows(n, 2 * k + 2, d - 1);
    } else {
      LeavesNearby(n, k, d);
    }
  }

  lemma LeavesFurther(n: nat, k: nat, d: nat)
    requires Levelled(n, k, d) && d >= 2
    ensures k < n && Levelled(n, 2 * k + 1, d - 1) && Levelled(n, 2 * k + 2, d - 1)
    ensures TwoRows(n, 2 * k + 1, d - 1) + TwoRows(n, 2 * k + 2, d - 1) == TwoRows(n, k, d)
  {
    hide *;
    LevelledChildren(n, k, d);
    RowSplits(k, d - 2);
    var le, m, re := LeftEnd(k, d - 1), RightEnd(2 * k + 1, d - 2), RightEnd(k, d - 1);
    TwoRowsFrom(n, 2 * k + 1, d - 1, le, m);
    TwoRowsFrom(n, 2 * k + 2, d - 1, m + 1, re);
    TwoRowsFrom(n, k, d, le, re);
    JoinRows(n, le, m, re);
  }

  lemma TwoRowsFrom(n: nat, k: nat, d: nat, le: nat, re: nat)
    requires d >= 1 && le == LeftEnd(k, d - 1) && re == RightEnd(k, d - 1)
    ensures TwoRows(n, k, d) == Range(2 * le + 1, Min(2 * re + 2, 2 * n) + 1) + Range(Max(n, le), re + 1)
  {
    hide Range;
  }

  lemma LeavesNearby(n: nat, k: nat, d: nat)
    requires Levelled(n, k, d) && d < 2
    ensures Leaves(n, k) == TwoRows(n, k, d)
  {
    EndsNearby(k);
    LeavesUnfold(n, k);
    if d == 0 {
      assert TwoRows(n, k, 0) == Range(k, k + 1);
    } else {
      TwoRowsFrom(n, k, 1, k, k);
      if k < n {
        LeavesUnfold(n, 2 * k + 1);
        LeavesUnfold(n, 2 * k + 2);
        hide Leaves, TwoRows;
        assert Range(2 * k + 1, 2 * k + 3) == [2 * k + 1] + [2 * k + 2];
      } else {
        hide Leaves, TwoRows;
        assert Range(k, k + 1) == [k];
      }
    }
  }

  lemma EndsNearby(k: nat)
    ensures LeftEnd(k, 0) == RightEnd(k, 0) == k
    ensures LeftEnd(k, 1) == 2 * k + 1 && RightEnd(k, 1) == 2 * k + 2
  {}

  /**
   The rows of two neighbouring subtrees make the rows of their parent: le .. m and m+1 .. re are their upper rows, the
   lower rows begin at 2le+1 and end at 2m+2 and 2re+2. Either the left lower row is full or the right one is missing.
   */
  lemma JoinRows(n: nat, le: nat, m: nat, re: nat)
    requires le <= m < re
    ensures (Range(2 * le + 1, Min(2 * m + 2, 2 * n) + 1) + Range(Max(n, le), m + 1))
            + (Range(2 * m + 3, Min(2 * re + 2, 2 * n) + 1) + Range(Max(n, m + 1), re + 1))
            == Range(2 * le + 1, Min(2 * re + 2, 2 * n) + 1) + Range(Max(n, le), re + 1)
  {
    hide Range;
    var a, b := Range(2 * le + 1, Min(2 * m + 2, 2 * n) + 1), Range(Max(n, le), m + 1);
    var c, d := Range(2 * m + 3, Min(2 * re + 2, 2 * n) + 1), Range(Max(n, m + 1), re + 1);
    if m < n {
      RangeJoin(2 * le + 1, 2 * m + 3, Min(2 * re + 2, 2 * n) + 1);
      assert b == [];
      assert (a + b) + (c + d) == (a + c) + d;
    } else {
      RangeJoin(Max(n, le), m + 1, re + 1);
      assert c == [];
      assert (a + b) + (c + d) == a + (b + d);
    }
  }

  /** If the whole row d levels below k is there and consists of leaves, it is all the leaves below k. */
  lemma FullRow(n: nat, k: nat, d: nat)
    requires n <= LeftEnd(k, d) && RightEnd(k, d) <= 2 * n
    ensures Leaves(n, k) == Range(LeftEnd(k, d), RightEnd(k, d) + 1)
  {
    LeavesInTwoRows(n, k, d);
    hide Leaves;
  }

  /** How many levels below the root the key j lies. */
  function Level(j: nat): nat {
    if j == 0 then 0 else 1 + Level((j - 1) / 2)
  }

  lemma {:induction false} LevelEnds(j: nat)
    ensures LeftEnd(0, Level(j)) <= j <= RightEnd(0, Level(j))
  {
    if j > 0 {
      LevelEnds((j - 1) / 2);
    }
  }

  /** The depth of the tree: the level of its last key. */
  function Depth(n: nat): nat {
    Level(2 * n)
  }

  lemma RootLevelled(n: nat)
    ensures Levelled(n, 0, Depth(n))
    ensures LeftEnd(0, Depth(n)) == Pow2(Depth(n)) - 1
    ensures n + 1 <= Pow2(Depth(n)) <= 2 * n + 1
  {
    hide LeftEnd, RightEnd, Pow2, Level;
    var d := Depth(n);
    LevelEnds(2 * n);
    EndsNearby(0);
    LeftEndClosedForm(0, d);
    RootRow(d);
    if d >= 1 {
      RowSteps(0, d);
      RootRow(d - 1);
    }
    if d >= 2 {
      RowSteps(0, d - 1);
      RootRow(d - 2);
    }
  }

  /** Below the root each row begins right after the row above it. */
  lemma {:induction false} RootRow(d: nat)
    ensures LeftEnd(0, d + 1) == RightEnd(0, d) + 1
  {
    if d > 0 {
      RootRow(d - 1);
    }
  }

  lemma WholeTreeInTwoRows(n: nat)
    ensures n < Pow2(Depth(n)) <= 2 * n + 1
    ensures Leaves(n, 0) == Range(Pow2(Depth(n)) - 1, 2 * n + 1) + Range(n, Pow2(Depth(n)) - 1)
  {
    hide Leaves, Depth;
    var d := Depth(n);
    RootLevelled(n);
    LeavesInTwoRows(n, 0, d);
    RootRow(d);
    if d > 0 {
      RootRow(d - 1);
    }
  }

  /** The chunk indices in the order in which a walk of the whole tree meets their leaves. */
  function ChunkOrder(n: nat): (s: seq<int>)
    ensures |s| == |Leaves(n, 0)|
  {
    seq(|Leaves(n, 0)|, i requires 0 <= i < |Leaves(n, 0)| => Leaves(n, 0)[i] - n)
  }

  function Rotation(n: nat): int {
    Pow2(Depth(n)) - 1 - n
  }

  /** The walk meets the chunks in file order rotated by 2^D - 1 - n, D being the depth of the tree. */
  lemma LeafOrder(n: nat)
    ensures 0 <= Rotation(n) <= n
    ensures ChunkOrder(n) == Range(Rotation(n), n + 1) + Range(0, Rotation(n))
  {
    WholeTreeInTwoRows(n);
    hide Leaves, Depth;
    assert |Leaves(n, 0)| == n + 1;
  }

  /** It is file order exactly when the number of chunks is a power of two (the tree is perfect). */
  lemma LeafOrderIsFileOrder(n: nat)
    ensures ChunkOrder(n) == Range(0, n + 1) <==> n + 1 == Pow2(Depth(n))
  {
    LeafOrder(n);
    assert ChunkOrder(n)[0] == Rotation(n);
    assert Range(0, n + 1)[0] == 0;
  }

  /** Three chunks: the walk meets them as 1, 2, 0. */
  lemma LeafOrderExample()
    ensures ChunkOrder(2) == [1, 2, 0]
  {
    assert Leaves(2, 1) == [3, 4] && Leaves(2, 2) == [2];
    assert Leaves(2, 0) == [3, 4, 2];
  }

  /** In a perfect tree the node at position p of level l stands for 2^(D-l) consecutive chunks. */
  lemma PerfectSubtree(n: nat, l: nat, p: nat)
    requires n + 1 == Pow2(Depth(n)) && l <= Depth(n) && p < Pow2(l)
    ensures var k := Pow2(l) - 1 + p; var w := Pow2(Depth(n) - l);
            Leaves(n, k) == Range(n + p * w, n + (p + 1) * w)
  {
    hide *;
    var d := Depth(n) - l;
    var k := Pow2(l) - 1 + p;
    var w := Pow2(d);
    PerfectRow(n, l, p, d);
    RowWidth(k, d);
    assert (p + 1) * w == p * w + w;
    FullRow(n, k, d);
  }

  lemma PerfectRow(n: nat, l: nat, p: nat, d: nat)
    requires n + 1 == Pow2(l + d) && p < Pow2(l)
    ensures LeftEnd(Pow2(l) - 1 + p, d) == n + p * Pow2(d)
    ensures p * Pow2(d) + Pow2(d) <= n + 1
  {
    hide Pow2, LeftEnd;
    var w := Pow2(d);
    PowSum(l, d);
    LeftEndClosedForm(Pow2(l) - 1 + p, d);
    Distribute(w, Pow2(l), p);
    MulDiff(w, p, Pow2(l));
  }

  lemma {:induction false} PowSum(a: nat, b: nat)
    ensures Pow2(a) * Pow2(b) == Pow2(a + b)
  {
    if a > 0 {
      PowSum(a - 1, b);
      assert Pow2(a) * Pow2(b) == 2 * (Pow2(a - 1) * Pow2(b));
    }
  }
}
