/**
 The subtrees that min_hash_find reports, for a tree over n hashes in which the leaves in the set done are complete
 (their computed hash is the expected one).
 */
module MinCover {
  import opened HeapTree

  /** Every chunk below k is complete. */
  ghost predicate Complete(n: nat, done: set<nat>, k: nat) {
    forall j :: j in Leaves(n, k) ==> j in done
  }

  /** The key that the call on an inner node k itself appends, after the calls on its children. */
  ghost function Own(n: nat, done: set<nat>, k: nat): seq<nat> {
    var l, r := 2 * k + 1, 2 * k + 2;
    if Complete(n, done, l) && Complete(n, done, r) then (if k == 0 then [0] else [])
    else if Complete(n, done, l) then [l]
    else if Complete(n, done, r) then [r]
    else []
  }

  /** The keys in the order in which min_hash_find appends their hashes. */
  ghost function Emit(n: nat, done: set<nat>, k: nat): seq<nat>
    decreases if k > 2 * n then 0 else 2 * n + 1 - k
  {
    if k >= n then [] else Emit(n, done, 2 * k + 1) + Emit(n, done, 2 * k + 2) + Own(n, done, k)
  }

  lemma EmitUnfold(n: nat, done: set<nat>, k: nat)
    ensures k >= n ==> Emit(n, done, k) == []
    ensures k < n ==> Emit(n, done, k) == Emit(n, done, 2 * k + 1) + Emit(n, done, 2 * k + 2) + Own(n, done, k)
  {}

  /** A complete subtree that is not part of a larger one. */
  ghost predicate Maximal(n: nat, done: set<nat>, k: nat) {
    k <= 2 * n && Complete(n, done, k) && (k == 0 || !Complete(n, done, (k - 1) / 2))
  }

  lemma CompleteFromChildren(n: nat, done: set<nat>, k: nat)
    requires k < n
    ensures Complete(n, done, k) <==> Complete(n, done, 2 * k + 1) && Complete(n, done, 2 * k + 2)
  {
    LeavesUnfold(n, k);
  }

  lemma CompleteInside(n: nat, done: set<nat>, k: nat, j: nat)
    requires Complete(n, done, k) && Within(j, k)
    ensures Complete(n, done, j)
  {
    forall i | i in Leaves(n, j)
      ensures i in done
    {
      LeafMember(n, j, i);
      WithinTransitive(i, j, k);
      LeafMember(n, k, i);
    }
  }

  // min_hash_find reports exactly the maximal complete subtrees, each once

  /** How often key j is reported by the call on k. */
  ghost function Times(n: nat, done: set<nat>, k: nat, j: nat): nat {
    if Within(j, k) && Maximal(n, done, j) && (j == k ==> k == 0) then 1 else 0
  }

  lemma {:induction false} EmitOnce(n: nat, done: set<nat>, k: nat, j: nat)
    requires n >= 1 && k <= 2 * n
    ensures multiset(Emit(n, done, k))[j] == Times(n, done, k, j)
    decreases 2 * n - k
  {
    hide Emit;
    EmitUnfold(n, done, k);
    if k >= n {
      if j <= 2 * n && j > k {
        LeafHasNoDescendants(n, k, j);
      }
    } else {
      hide *;
      EmitOnce(n, done, 2 * k + 1, j);
      EmitOnce(n, done, 2 * k + 2, j);
      OwnTimes(n, done, k, j);
      CountThree(Emit(n, done, 2 * k + 1), Emit(n, done, 2 * k + 2), Own(n, done, k), j);
    }
  }

  lemma CountThree(a: seq<nat>, b: seq<nat>, c: seq<nat>, j: nat)
    ensures multiset(a + b + c)[j] == multiset(a)[j] + multiset(b)[j] + multiset(c)[j]
  {}

  /** The calls on the children report what is strictly below the children. */
  lemma ChildTimes(n: nat, done: set<nat>, c: nat, j: nat)
    requires c > 0
    ensures Times(n, done, c, j) == if Within(j, c) && j != c && Maximal(n, done, j) then 1 else 0
  {}

  /** Which children are maximal is decided by which of the two are complete. */
  lemma MaximalChildren(n: nat, done: set<nat>, k: nat)
    requires k < n
    ensures var l, r := 2 * k + 1, 2 * k + 2;
            && (Maximal(n, done, l) <==> Complete(n, done, l) && !Complete(n, done, r))
            && (Maximal(n, done, r) <==> Complete(n, done, r) && !Complete(n, done, l))
            && (k == 0 ==> (Maximal(n, done, k) <==> Complete(n, done, l) && Complete(n, done, r)))
  {
    hide Complete;
    CompleteFromChildren(n, done, k);
    assert (2 * k + 1 - 1) / 2 == k && (2 * k + 2 - 1) / 2 == k;
  }

  /** What the call on k itself appends: k if it is the maximal root, and its maximal children. */
  lemma OwnCount(n: nat, done: set<nat>, k: nat, j: nat)
    requires k < n
    ensures multiset(Own(n, done, k))[j] ==
            if j == k then (if k == 0 && Maximal(n, done, k) then 1 else 0)
            else if j == 2 * k + 1 || j == 2 * k + 2 then (if Maximal(n, done, j) then 1 else 0)
            else 0
  {
    hide Complete, Maximal;
    MaximalChildren(n, done, k);
  }

  lemma OwnTimes(n: nat, done: set<nat>, k: nat, j: nat)
    requires k < n
    ensures multiset(Own(n, done, k))[j] + Times(n, done, 2 * k + 1, j) + Times(n, done, 2 * k + 2, j)
            == Times(n, done, k, j)
  {
    hide Complete, Within, Maximal, Own;
    var l, r := 2 * k + 1, 2 * k + 2;
    OwnCount(n, done, k, j);
    ChildTimes(n, done, l, j);
    ChildTimes(n, done, r, j);
    WithinChildren(j, k);
    WithinBelow(k, l);
    WithinBelow(k, r);
    WithinSelf(l);
    WithinSelf(r);
  }

  lemma WithinSelf(k: nat)
    ensures Within(k, k)
  {}

  /** For n >= 1: the reported keys are the maximal complete subtrees, without repetition. */
  lemma EmitsMaximal(n: nat, done: set<nat>, j: nat)
    requires n >= 1
    ensures multiset(Emit(n, done, 0))[j] == if Maximal(n, done, j) then 1 else 0
    ensures j in Emit(n, done, 0) <==> Maximal(n, done, j)
  {
    WithinRoot(j);
    EmitOnce(n, done, 0, j);
    assert j in Emit(n, done, 0) <==> multiset(Emit(n, done, 0))[j] > 0;
  }

  /** The root alone is reported exactly when everything is complete. */
  lemma RootExactlyWhenAllComplete(n: nat, done: set<nat>)
    requires n >= 1
    ensures 0 in Emit(n, done, 0) <==> Complete(n, done, 0)
    ensures Complete(n, done, 0) ==> Emit(n, done, 0) == [0]
  {
    EmitsMaximal(n, done, 0);
    if Complete(n, done, 0) {
      CompleteFromChildren(n, done, 0);
      CompleteEmitsNothing(n, done, 1);
      CompleteEmitsNothing(n, done, 2);
    }
  }

  /** With a single chunk nothing is ever reported, complete or not. */
  lemma NothingForSingleChunk(done: set<nat>)
    ensures Emit(0, done, 0) == []
  {}

  // They cover the complete chunks and do not overlap

  lemma {:induction false} MaximalAbove(n: nat, done: set<nat>, j: nat) returns (k: nat)
    requires j <= 2 * n && Complete(n, done, j)
    ensures Within(j, k) && Maximal(n, done, k)
    decreases j
  {
    if j > 0 && Complete(n, done, (j - 1) / 2) {
      k := MaximalAbove(n, done, (j - 1) / 2);
      WithinChildren((j - 1) / 2, k);
    } else {
      k := j;
    }
  }

  /** No maximal subtree lies inside another complete one. */
  lemma MaximalNotInside(n: nat, done: set<nat>, k: nat, c: nat)
    requires Maximal(n, done, k) && Complete(n, done, c) && Within(k, c)
    ensures k == c
  {
    if k != c {
      CompleteInside(n, done, c, (k - 1) / 2);
    }
  }

  lemma MaximalDisjoint(n: nat, done: set<nat>, a: nat, b: nat, j: nat)
    requires Maximal(n, done, a) && Maximal(n, done, b)
    requires Within(j, a) && Within(j, b)
    ensures a == b
  {
    WithinComparable(j, a, b);
    if Within(a, b) {
      MaximalNotInside(n, done, a, b);
    } else {
      MaximalNotInside(n, done, b, a);
    }
  }

  /** Each complete chunk lies below exactly one reported subtree, and reported subtrees have no other chunks. */
  lemma EmitCovers(n: nat, done: set<nat>, j: nat)
    requires n >= 1 && n <= j <= 2 * n
    ensures j in done <==> exists k :: k in Emit(n, done, 0) && j in Leaves(n, k)
    ensures forall a, b | a in Emit(n, done, 0) && b in Emit(n, done, 0) && j in Leaves(n, a) && j in Leaves(n, b) ::
              a == b
  {
    if j in done {
      LeavesUnfold(n, j);
      var k := MaximalAbove(n, done, j);
      EmitsMaximal(n, done, k);
      LeafMember(n, k, j);
    }
    forall k | k in Emit(n, done, 0) && j in Leaves(n, k)
      ensures j in done
    {
      EmitsMaximal(n, done, k);
    }
    forall a, b | a in Emit(n, done, 0) && b in Emit(n, done, 0) && j in Leaves(n, a) && j in Leaves(n, b)
      ensures a == b
    {
      EmitsMaximal(n, done, a);
      EmitsMaximal(n, done, b);
      LeafMember(n, a, j);
      LeafMember(n, b, j);
      MaximalDisjoint(n, done, a, b, j);
    }
  }

  // No smaller set of subtrees describes the same chunks

  /** The nodes in the set s have exactly the complete chunks below them. */
  ghost predicate Describes(n: nat, done: set<nat>, s: set<nat>) {
    && (forall k :: k in s ==> k <= 2 * n)
    && (forall j :: n <= j <= 2 * n ==> (j in done <==> exists k :: k in s && j in Leaves(n, k)))
  }

  ghost function EmitSet(n: nat, done: set<nat>): set<nat> {
    set k | k in Emit(n, done, 0)
  }

  lemma EmitSetSize(n: nat, done: set<nat>)
    requires n >= 1
    ensures |EmitSet(n, done)| == |Emit(n, done, 0)|
  {
    var e: multiset<nat>, s: multiset<nat> := multiset(Emit(n, done, 0)), multiset(EmitSet(n, done));
    forall j: nat
      ensures e[j] == s[j]
    {
      EmitsMaximal(n, done, j);
    }
    assert e == s;
  }

  lemma DescribingNodesAreComplete(n: nat, done: set<nat>, s: set<nat>, k: nat)
    requires Describes(n, done, s) && k in s
    ensures Complete(n, done, k)
  {
    forall j | j in Leaves(n, k)
      ensures j in done
    {
      LeafMember(n, k, j);
    }
  }

  /** Below each maximal subtree there is a node of every describing set. */
  lemma DescribedBelow(n: nat, done: set<nat>, s: set<nat>, e: nat) returns (k: nat)
    requires Describes(n, done, s) && Maximal(n, done, e)
    ensures k in s && Within(k, e)
  {
    LeavesNonEmpty(n, e);
    var j := Leaves(n, e)[0];
    LeafMember(n, e, j);
    assert j in done;
    k :| k in s && j in Leaves(n, k);
    LeafMember(n, k, j);
    DescribingNodesAreComplete(n, done, s, k);
    WithinComparable(j, k, e);
    if Within(e, k) {
      MaximalNotInside(n, done, e, k);
    }
  }

  lemma {:induction false} Injection(e: set<nat>, s: set<nat>)
    requires forall x :: x in e ==> exists k :: k in s && Within(k, x)
    requires forall x, y, k :: x in e && y in e && Within(k, x) && Within(k, y) ==> x == y
    ensures |e| <= |s|
    decreases e
  {
    if e != {} {
      var x :| x in e;
      var k :| k in s && Within(k, x);
      forall y | y in e - {x}
        ensures exists i :: i in s - {k} && Within(i, y)
      {
        var i :| i in s && Within(i, y);
        assert i in s - {k};
      }
      Injection(e - {x}, s - {k});
    }
  }

  /** min_hash_find's answer describes the completion state, and no set of tree nodes that does so is smaller. */
  lemma EmitIsMinimum(n: nat, done: set<nat>, s: set<nat>)
    requires n >= 1 && Describes(n, done, s)
    ensures Describes(n, done, EmitSet(n, done))
    ensures |Emit(n, done, 0)| <= |s|
  {
    var e := EmitSet(n, done);
    forall k | k in e
      ensures k <= 2 * n && exists i :: i in s && Within(i, k)
    {
      EmitsMaximal(n, done, k);
      var i := DescribedBelow(n, done, s, k);
    }
    forall j | n <= j <= 2 * n
      ensures j in done <==> exists k :: k in e && j in Leaves(n, k)
    {
      EmitCovers(n, done, j);
      assert forall k :: k in e <==> k in Emit(n, done, 0);
    }
    forall x, y, k | x in e && y in e && Within(k, x) && Within(k, y)
      ensures x == y
    {
      EmitsMaximal(n, done, x);
      EmitsMaximal(n, done, y);
      MaximalDisjoint(n, done, x, y, k);
    }
    Injection(e, s);
    EmitSetSize(n, done);
  }

  // It never reports more than half of the chunks, rounded up

  /** A complete subtree reports nothing by itself. */
  lemma {:induction false} CompleteEmitsNothing(n: nat, done: set<nat>, k: nat)
    requires k > 0 && Complete(n, done, k)
    ensures Emit(n, done, k) == []
    decreases if k > 2 * n then 0 else 2 * n + 1 - k
  {
    hide Emit, Complete;
    EmitUnfold(n, done, k);
    if k < n {
      CompleteFromChildren(n, done, k);
      CompleteEmitsNothing(n, done, 2 * k + 1);
      CompleteEmitsNothing(n, done, 2 * k + 2);
    }
  }

  lemma LevelledRows(n: nat, k: nat, d: nat)
    requires Levelled(n, k, d) && d >= 1
    ensures LeftEnd(k, d) >= n && RightEnd(k, d - 1) <= 2 * n
  {}

  lemma FullLeftChild(n: nat, k: nat, d: nat)
    requires Levelled(n, k, d) && d >= 2 && RightEnd(2 * k + 1, d - 1) <= 2 * n
    ensures |Leaves(n, 2 * k + 1)| == Pow2(d - 1)
  {
    hide *;
    LevelledRows(n, k, d);
    RowSplits(k, d - 1);
    FullRow(n, 2 * k + 1, d - 1);
    RowWidth(2 * k + 1, d - 1);
  }

  lemma FullRightChild(n: nat, k: nat, d: nat)
    requires Levelled(n, k, d) && d >= 2 && RightEnd(2 * k + 1, d - 1) > 2 * n
    ensures |Leaves(n, 2 * k + 2)| == Pow2(d - 2)
  {
    hide *;
    LevelledRows(n, k, d);
    RowSplits(k, d - 2);
    RowSteps(2 * k + 1, d - 1);
    FullRow(n, 2 * k + 2, d - 2);
    RowWidth(2 * k + 2, d - 2);
  }

  /** One child of an inner node above two inner nodes has an even number of chunks: it is a perfect subtree. */
  lemma EvenChild(n: nat, k: nat, d: nat)
    requires Levelled(n, k, d) && 2 * k + 2 < n
    ensures |Leaves(n, 2 * k + 1)| % 2 == 0 || |Leaves(n, 2 * k + 2)| % 2 == 0
  {
    hide Leaves;
    EndsNearby(k);
    EndsNearby(2 * k + 1);
    assert d >= 2;
    if RightEnd(2 * k + 1, d - 1) <= 2 * n {
      FullLeftChild(n, k, d);
    } else {
      FullRightChild(n, k, d);
    }
  }

  /** The bound for one subtree: twice what it reports, given its number of leaves. */
  ghost predicate Bounded(n: nat, done: set<nat>, k: nat) {
    if Complete(n, done, k) then |Emit(n, done, k)| == 0
    else if k >= n then |Emit(n, done, k)| == 0
    else 2 * |Emit(n, done, k)| <= |Leaves(n, k)| + 1
  }

  lemma {:induction false} EmitBound(n: nat, done: set<nat>, k: nat, d: nat)
    requires Levelled(n, k, d) && k <= 2 * n
    requires k > 0 || !Complete(n, done, k)
    ensures Bounded(n, done, k)
    decreases 2 * n - k
  {
    hide *;
    if Complete(n, done, k) {
      CompleteBounded(n, done, k);
    } else if k >= n {
      LeafBounded(n, done, k);
    } else {
      ChildLevels(n, k, d);
      EmitBound(n, done, 2 * k + 1, d - 1);
      EmitBound(n, done, 2 * k + 2, d - 1);
      BoundFromChildren(n, done, k, d);
    }
  }

  lemma CompleteBounded(n: nat, done: set<nat>, k: nat)
    requires k > 0 && Complete(n, done, k)
    ensures Bounded(n, done, k)
  {
    CompleteEmitsNothing(n, done, k);
  }

  lemma LeafBounded(n: nat, done: set<nat>, k: nat)
    requires k >= n
    ensures Bounded(n, done, k)
  {}

  lemma BoundFromChildren(n: nat, done: set<nat>, k: nat, d: nat)
    requires Levelled(n, k, d) && k < n && !Complete(n, done, k)
    requires Bounded(n, done, 2 * k + 1) && Bounded(n, done, 2 * k + 2)
    ensures Bounded(n, done, k)
  {
    hide Leaves, Emit, Complete, Levelled;
    LeavesUnfold(n, k);
    LeavesUnfold(n, 2 * k + 1);
    LeavesUnfold(n, 2 * k + 2);
    EmitUnfold(n, done, k);
    CompleteFromChildren(n, done, k);
    LeavesNonEmpty(n, 2 * k + 1);
    LeavesNonEmpty(n, 2 * k + 2);
    if 2 * k + 2 < n {
      EvenChild(n, k, d);
      MoreThanOneLeaf(n, 2 * k + 1);
      MoreThanOneLeaf(n, 2 * k + 2);
    } else if 2 * k + 1 < n {
      LeavesUnfold(n, 4 * k + 3);
      LeavesUnfold(n, 4 * k + 4);
    }
  }

  lemma MoreThanOneLeaf(n: nat, k: nat)
    requires k < n
    ensures |Leaves(n, k)| >= 2
  {
    LeavesUnfold(n, k);
    LeavesNonEmpty(n, 2 * k + 1);
    LeavesNonEmpty(n, 2 * k + 2);
  }

  lemma ChildLevels(n: nat, k: nat, d: nat)
    requires Levelled(n, k, d) && k < n
    ensures d >= 1 && Levelled(n, 2 * k + 1, d - 1) && Levelled(n, 2 * k + 2, d - 1)
  {
    EndsNearby(k);
    if d >= 2 {
      LevelledChildren(n, k, d);
    } else {
      EndsNearby(2 * k + 1);
      EndsNearby(2 * k + 2);
    }
  }

  /** The buffer of n + 1 entries is never overrun: at most half of the n + 1 chunks, rounded up, is reported. */
  lemma EmitAtMostHalf(n: nat, done: set<nat>)
    ensures 2 * |Emit(n, done, 0)| <= n + 2
    ensures |Emit(n, done, 0)| <= n + 1
  {
    if n >= 1 {
      if Complete(n, done, 0) {
        RootExactlyWhenAllComplete(n, done);
      } else {
        RootLevelled(n);
        EmitBound(n, done, 0, Depth(n));
        LeafOrder(n);
      }
    }
  }
}
