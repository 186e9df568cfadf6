/** The table of managed packages of src/package.c: a growable array with holes. */
module PackageTable {
  import opened Bytes
  import opened Package

  const INCREASE_FACTOR: nat := 2
  const INITIAL_PACKAGE_ARRAY_SIZE: nat := 2

  /** What strncmp(_, _, 20) compares. */
  function Prefix20(ident: seq<byte>): cstring {
    var s := CStr(ident);
    s[..Min(20, |s|)]
  }

  predicate SameIdent(a: seq<byte>, b: seq<byte>) {
    Prefix20(a) == Prefix20(b)
  }

  // The array as a sequence of slots

  function Count(slots: seq<Bpkg?>): (c: nat)
    ensures c <= |slots|
  {
    if slots == [] then 0 else Count(slots[..|slots| - 1]) + if slots[|slots| - 1] == null then 0 else 1
  }

  /** The managed packages. */
  ghost function Bag(slots: seq<Bpkg?>): multiset<Bpkg?> {
    multiset(slots)[null := 0]
  }

  /** The first slot from i on that satisfies want, or the number of slots. */
  function FirstFrom(slots: seq<Bpkg?>, want: Bpkg? -> bool, i: nat): (r: nat)
    requires i <= |slots|
    ensures i <= r <= |slots| && (r < |slots| ==> want(slots[r]))
    ensures forall j :: i <= j < r ==> !want(slots[j])
    decreases |slots| - i
  {
    if i == |slots| || want(slots[i]) then i else FirstFrom(slots, want, i + 1)
  }

  function FirstEmpty(slots: seq<Bpkg?>): nat {
    FirstFrom(slots, (b: Bpkg?) => b == null, 0)
  }

  function FirstIdent(slots: seq<Bpkg?>, ident: seq<byte>): nat {
    FirstFrom(slots, (b: Bpkg?) => b != null && SameIdent(b.ident, ident), 0)
  }

  function Empty(n: nat): seq<Bpkg?> {
    seq(n, _ => null)
  }

  /** The table after a package has been added: in the first hole, or in the first fresh slot of a doubled array. */
  function Added(slots: seq<Bpkg?>, bpkg: Bpkg): seq<Bpkg?>
    requires |slots| > 0
  {
    var i := FirstEmpty(slots);
    if i < |slots| then slots[i := bpkg] else slots + [bpkg] + Empty(|slots| - 1)
  }

  /** The table after the first package with that identifier has been removed. */
  function Removed(slots: seq<Bpkg?>, ident: seq<byte>): seq<Bpkg?> {
    var i := FirstIdent(slots, ident);
    if i < |slots| then slots[i := null] else slots
  }

  class ManagedPackages {
    var managedArray: array<Bpkg?>
    var size: int
    var capacity: int

    /** size counts the slots in use: what the growth path relies on when it writes at index size. */
    ghost predicate Valid()
      reads this, managedArray
    {
      capacity == managedArray.Length && capacity > 0 && size == Count(managedArray[..])
    }

    function Slots(): seq<Bpkg?>
      reads this, managedArray
    {
      managedArray[..]
    }

    constructor ()
      ensures Valid() && Slots() == Empty(INITIAL_PACKAGE_ARRAY_SIZE) && fresh(managedArray)
    {
      managedArray := new Bpkg?[INITIAL_PACKAGE_ARRAY_SIZE](_ => null);
      size, capacity := 0, INITIAL_PACKAGE_ARRAY_SIZE;
      new;
      CountEmpty(INITIAL_PACKAGE_ARRAY_SIZE);
      assert managedArray[..] == Empty(INITIAL_PACKAGE_ARRAY_SIZE);
    }

    /** bpkg is what bpkg_load returned. */
    method AddPackage(bpkg: Bpkg?, disk: Disk) returns (ret: int)
      requires Valid()
      modifies this, managedArray, disk
      ensures Valid() && (managedArray == old(managedArray) || fresh(managedArray))
      ensures bpkg == null ==> ret == 0 && Slots() == old(Slots()) && disk.files == old(disk.files)
      ensures bpkg != null ==> ret == 1 && Slots() == Added(old(Slots()), bpkg)
      ensures bpkg != null ==> disk.files == FileChecked(bpkg, old(disk.files))
    {
      if bpkg == null {
        return 0;
      }
      var existed := FileCheck(bpkg, disk);
      ghost var before := Slots();
      for i := 0 to capacity
        invariant forall j :: 0 <= j < i ==> before[j] != null
        invariant managedArray == old(managedArray) && managedArray[..] == before && Valid()
      {
        if managedArray[i] == null {
          UseSlot(i, bpkg);
          assert FirstEmpty(before) == i;
          return 1;
        }
      }
      CountFull(before);
      Grow();
      UseSlot(size, bpkg);
      assert FirstEmpty(before) == |before|;
      assert Slots() == Added(before, bpkg);
      return 1;
    }

    /** Lines 24-25 and 45-46: the package goes into a free slot. */
    method UseSlot(i: int, bpkg: Bpkg)
      requires Valid() && 0 <= i < capacity && Slots()[i] == null
      modifies this`size, managedArray
      ensures Valid() && Slots() == old(Slots())[i := bpkg]
    {
      CountUpdate(managedArray[..], i, bpkg);
      managedArray[i] := bpkg;
      size := size + 1;
      assert managedArray[..] == old(managedArray[..])[i := bpkg];
    }

    /** The reallocation of the growth path (lines 31-43). */
    method Grow()
      requires Valid()
      modifies this
      ensures Valid() && fresh(managedArray) && size == old(size)
      ensures Slots() == old(Slots()) + Empty(|old(Slots())|)
    {
      ghost var before := Slots();
      var newCapacity := capacity * INCREASE_FACTOR;
      var reallocedArray := new Bpkg?[newCapacity](_ => null);
      for k := 0 to capacity
        modifies reallocedArray
        invariant reallocedArray[..k] == before[..k]
        invariant forall j :: k <= j < newCapacity ==> reallocedArray[j] == null
      {
        reallocedArray[k] := managedArray[k];
      }
      assert reallocedArray[..] == before + Empty(|before|);
      CountAppendEmpty(before, |before|);
      capacity := newCapacity;
      managedArray := reallocedArray;
    }

    method RemovePackage(ident: seq<byte>) returns (ret: int)
      requires Valid()
      modifies this, managedArray
      ensures Valid() && managedArray == old(managedArray)
      ensures Slots() == Removed(old(Slots()), ident)
      ensures ret == if FirstIdent(old(Slots()), ident) < |old(Slots())| then 1 else 0
    {
      ghost var before := Slots();
      for i := 0 to capacity
        invariant forall j :: 0 <= j < i ==> before[j] == null || !SameIdent(before[j].ident, ident)
        invariant managedArray == old(managedArray) && managedArray[..] == before && capacity == old(capacity)
        invariant size == old(size)
      {
        var currentBpkg := managedArray[i];
        if currentBpkg != null {
          if SameIdent(currentBpkg.ident, ident) {
            CountUpdate(before, i, null);
            managedArray[i] := null;
            size := size - 1;
            assert FirstIdent(before, ident) == i;
            assert managedArray[..] == before[i := null];
            return 1;
          }
        }
      }
      return 0;
    }
  }

  lemma {:induction false} CountEmpty(n: nat)
    ensures Count(Empty(n)) == 0
  {
    if n > 0 {
      CountEmpty(n - 1);
      assert Empty(n)[..n - 1] == Empty(n - 1);
    }
  }

  lemma {:induction false} CountUpdate(slots: seq<Bpkg?>, i: nat, b: Bpkg?)
    requires i < |slots|
    ensures Count(slots[i := b]) + (if slots[i] == null then 0 else 1) == Count(slots) + if b == null then 0 else 1
  {
    var last := |slots| - 1;
    if i == last {
      assert slots[i := b][..last] == slots[..last];
    } else {
      CountUpdate(slots[..last], i, b);
      assert slots[i := b][..last] == slots[..last][i := b];
    }
  }

  lemma {:induction false} CountFull(slots: seq<Bpkg?>)
    requires forall j :: 0 <= j < |slots| ==> slots[j] != null
    ensures Count(slots) == |slots|
  {
    if slots != [] {
      CountFull(slots[..|slots| - 1]);
    }
  }

  lemma {:induction false} CountAppendEmpty(slots: seq<Bpkg?>, n: nat)
    ensures Count(slots + Empty(n)) == Count(slots)
  {
    if n == 0 {
      assert slots + Empty(0) == slots;
    } else {
      CountAppendEmpty(slots, n - 1);
      assert (slots + Empty(n))[..|slots| + n - 1] == slots + Empty(n - 1);
    }
  }

  // The table as a bag of packages

  lemma BagUpdate(slots: seq<Bpkg?>, i: nat, b: Bpkg?)
    requires i < |slots|
    ensures slots[i] == null && b != null ==> Bag(slots[i := b]) == Bag(slots) + multiset{b}
    ensures slots[i] != null && b == null ==> Bag(slots[i := b]) == Bag(slots) - multiset{slots[i]}
  {
    assert multiset(slots[i := b]) == multiset(slots) - multiset{slots[i]} + multiset{b};
  }

  lemma BagAppendEmpty(slots: seq<Bpkg?>, n: nat)
    ensures Bag(slots + Empty(n)) == Bag(slots)
  {
    assert multiset(slots + Empty(n)) == multiset(slots) + multiset(Empty(n));
    assert forall b: Bpkg? :: b in multiset(Empty(n)) ==> b in Empty(n);
  }

  lemma BagMember(slots: seq<Bpkg?>, b: Bpkg)
    ensures b in Bag(slots) <==> b in slots
  {
    assert b in multiset(slots) <==> b in slots;
  }

  datatype Op = Add(bpkg: Bpkg) | Remove(ident: seq<byte>)

  function Apply(slots: seq<Bpkg?>, op: Op): (r: seq<Bpkg?>)
    requires |slots| > 0
    ensures |r| > 0
  {
    match op
    case Add(b) => Added(slots, b)
    case Remove(ident) => Removed(slots, ident)
  }

  function Run(slots: seq<Bpkg?>, ops: seq<Op>): (r: seq<Bpkg?>)
    requires |slots| > 0
    ensures |r| > 0
  {
    if ops == [] then slots else Apply(Run(slots, ops[..|ops| - 1]), ops[|ops| - 1])
  }

  /** Adding puts one package in; removing takes out one package with that identifier, if there is any. */
  ghost predicate BagStep(before: multiset<Bpkg?>, op: Op, after: multiset<Bpkg?>) {
    match op
    case Add(b) => after == before + multiset{b}
    case Remove(ident) =>
      if exists b: Bpkg :: b in before && SameIdent(b.ident, ident) then
        exists b: Bpkg :: b in before && SameIdent(b.ident, ident) && after == before - multiset{b}
      else after == before
  }

  lemma AddIsBagStep(slots: seq<Bpkg?>, b: Bpkg)
    requires |slots| > 0
    ensures Bag(Added(slots, b)) == Bag(slots) + multiset{b}
  {
    var i := FirstEmpty(slots);
    if i < |slots| {
      BagUpdate(slots, i, b);
    } else {
      BagAppendEmpty(slots, |slots|);
      BagUpdate(slots + Empty(|slots|), |slots|, b);
      assert (slots + Empty(|slots|))[|slots| := b] == slots + [b] + Empty(|slots| - 1);
    }
  }

  lemma RemoveIsBagStep(slots: seq<Bpkg?>, ident: seq<byte>)
    ensures BagStep(Bag(slots), Remove(ident), Bag(Removed(slots, ident)))
    ensures FirstIdent(slots, ident) < |slots| <==> exists b: Bpkg :: b in Bag(slots) && SameIdent(b.ident, ident)
  {
    var i := FirstIdent(slots, ident);
    if i < |slots| {
      RemoveFound(slots, ident, i);
    } else {
      forall b: Bpkg | b in Bag(slots)
        ensures !SameIdent(b.ident, ident)
      {
        BagMember(slots, b);
      }
    }
  }

  lemma RemoveFound(slots: seq<Bpkg?>, ident: seq<byte>, i: nat)
    requires i < |slots| && slots[i] != null && SameIdent(slots[i].ident, ident)
    ensures exists b: Bpkg ::
              b in Bag(slots) && SameIdent(b.ident, ident) && Bag(slots[i := null]) == Bag(slots) - multiset{b}
  {
    hide SameIdent, Bag;
    var b: Bpkg := slots[i];
    BagMember(slots, b);
    BagUpdate(slots, i, null);
    assert b in Bag(slots) && Bag(slots[i := null]) == Bag(slots) - multiset{b};
  }

  /** Along every run of adds and removes from the empty table each step is a bag step. */
  lemma RunRefinesBag(ops: seq<Op>, i: nat)
    requires i < |ops|
    ensures var start := Empty(INITIAL_PACKAGE_ARRAY_SIZE);
            Bag(Run(start, [])) == multiset{}
            && BagStep(Bag(Run(start, ops[..i])), ops[i], Bag(Run(start, ops[..i + 1])))
  {
    var start := Empty(INITIAL_PACKAGE_ARRAY_SIZE);
    assert ops[..i + 1][..i] == ops[..i];
    BagAppendEmpty([], 2);
    assert [] + Empty(2) == start;
    var slots := Run(start, ops[..i]);
    match ops[i] {
      case Add(b) => AddIsBagStep(slots, b);
      case Remove(ident) => RemoveIsBagStep(slots, ident);
    }
  }
}
