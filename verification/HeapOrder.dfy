/** The order of the position queue and the shape of a binary min-heap, on plain key sequences.
    (internal/liquidation/scanner/scanner.go, positionHeap.Less; Go's container/heap.) */
module HeapOrder {
  import opened Options

  /** A known health factor comes before an unknown one. */
  type Key = Option<int>

  predicate Less(a: Key, b: Key) {
    a.Some? && (b.None? || a.value < b.value)
  }

  predicate AtMost(a: Key, b: Key) {
    !Less(b, a)
  }

  /** The order by values: the lower factor first, an unknown one after every known one. */
  lemma OrderIsByValue(a: int, b: int)
    ensures AtMost(Some(a), Some(b)) <==> a <= b
    ensures AtMost(Some(a), None) && !AtMost(None, Some(b)) && AtMost(None, None)
  {
  }

  function Parent(k: nat): nat
    requires 0 < k
  {
    (k - 1) / 2
  }

  function Swapped<T>(s: seq<T>, i: nat, j: nat): seq<T>
    requires i < |s| && j < |s|
  {
    s[i := s[j]][j := s[i]]
  }

  /** The first n keys form a heap. */
  ghost predicate Heap(keys: seq<Key>, n: nat)
    requires n <= |keys|
  {
    forall k :: 0 < k < n ==> AtMost(keys[Parent(k)], keys[k])
  }

  /** Children of i are no smaller than the parent of i. */
  ghost predicate Bridged(keys: seq<Key>, n: nat, i: nat)
    requires n <= |keys|
  {
    forall k :: 0 < i && 0 < k < n && Parent(k) == i ==> AtMost(keys[Parent(i)], keys[k])
  }

  /** A heap but for the link from i to its parent. */
  ghost predicate HeapButUp(keys: seq<Key>, n: nat, i: nat)
    requires n <= |keys|
  {
    && (forall k :: 0 < k < n && k != i ==> AtMost(keys[Parent(k)], keys[k]))
    && Bridged(keys, n, i)
  }

  /** A heap but for the links from i to its children. */
  ghost predicate HeapButDown(keys: seq<Key>, n: nat, i: nat)
    requires n <= |keys|
  {
    && (forall k :: 0 < k < n && Parent(k) != i ==> AtMost(keys[Parent(k)], keys[k]))
    && Bridged(keys, n, i)
  }

  /** A heap but for every link of i: what changing one key leaves. */
  ghost predicate HeapButAt(keys: seq<Key>, n: nat, i: nat)
    requires n <= |keys|
  {
    && (forall k :: 0 < k < n && k != i && Parent(k) != i ==> AtMost(keys[Parent(k)], keys[k]))
    && Bridged(keys, n, i)
  }

  lemma AtMostTransitive(a: Key, b: Key, c: Key)
    requires AtMost(a, b) && AtMost(b, c)
    ensures AtMost(a, c)
  {
  }

  /** The root of a heap is a minimum of all of it: a known root is no higher than any known key, and an unknown one
      means that every key is unknown. */
  lemma {:induction false} RootIsMinimum(keys: seq<Key>, n: nat, k: nat)
    requires k < n <= |keys| && Heap(keys, n)
    ensures AtMost(keys[0], keys[k])
    ensures keys[0].Some? && keys[k].Some? ==> keys[0].value <= keys[k].value
    ensures keys[0].None? ==> keys[k].None?
  {
    if k > 0 {
      RootIsMinimum(keys, n, Parent(k));
      AtMostTransitive(keys[0], keys[Parent(k)], keys[k]);
    }
  }

  /** Overwriting one key of a heap spoils only the links of that key. */
  lemma ChangingOneKey(keys: seq<Key>, n: nat, i: nat, key: Key)
    requires i < n <= |keys| && Heap(keys, n)
    ensures HeapButAt(keys[i := key], n, i)
  {
    forall k | 0 < i && 0 < k < n && Parent(k) == i
      ensures AtMost(keys[Parent(i)], keys[k])
    {
      AtMostTransitive(keys[Parent(i)], keys[i], keys[k]);
    }
  }

  /** Moving a key up past a larger parent leaves only the link above it open. */
  lemma SwapUp(keys: seq<Key>, n: nat, j: nat)
    requires 0 < j < n <= |keys| && HeapButUp(keys, n, j)
    requires Less(keys[j], keys[Parent(j)])
    ensures HeapButUp(Swapped(keys, Parent(j), j), n, Parent(j))
  {
    var i := Parent(j);
    var after := Swapped(keys, i, j);
    forall k | 0 < k < n && k != i
      ensures AtMost(after[Parent(k)], after[k])
    {
      if k != j && Parent(k) == i {
        AtMostTransitive(keys[j], keys[i], keys[k]);
      }
    }
    forall k | 0 < i && 0 < k < n && Parent(k) == i
      ensures AtMost(after[Parent(i)], after[k])
    {
      if k != j {
        AtMostTransitive(keys[Parent(i)], keys[i], keys[k]);
      }
    }
  }

  /** Once the key is no smaller than its parent, the heap is whole. */
  lemma UpDone(keys: seq<Key>, n: nat, j: nat)
    requires n <= |keys| && HeapButUp(keys, n, j)
    requires j == 0 || !(j < n) || AtMost(keys[Parent(j)], keys[j])
    ensures Heap(keys, n)
  {
  }

  ghost predicate Blocked(keys: seq<Key>, n: nat, i: nat)
    requires i < n <= |keys|
  {
    forall k :: 0 < k < n && Parent(k) == i ==> AtMost(keys[i], keys[k])
  }

  /** While a key sinks from start, now at i: every link of i is open until it first moves, then only those below it. */
  ghost predicate Sifting(keys: seq<Key>, n: nat, start: nat, i: nat)
    requires n <= |keys|
  {
    if i > start then HeapButDown(keys, n, i) else HeapButAt(keys, n, i)
  }

  ghost predicate SmallestChild(keys: seq<Key>, n: nat, i: nat, j: nat)
    requires n <= |keys|
  {
    && 0 < j < n && Parent(j) == i
    && forall k :: 0 < k < n && Parent(k) == i ==> AtMost(keys[j], keys[k])
  }

  lemma ChildlessIsBlocked(keys: seq<Key>, n: nat, i: nat)
    requires i < n <= |keys| && n <= 2 * i + 1
    ensures Blocked(keys, n, i)
  {
  }

  /** The child that down picks is a smallest one. */
  lemma SmallerChild(keys: seq<Key>, n: nat, i: nat, j: nat)
    requires 2 * i + 1 < n <= |keys|
    requires j == if 2 * i + 2 < n && Less(keys[2 * i + 2], keys[2 * i + 1]) then 2 * i + 2 else 2 * i + 1
    ensures SmallestChild(keys, n, i, j)
  {
    forall k | 0 < k < n && Parent(k) == i
      ensures AtMost(keys[j], keys[k])
    {
      assert k == 2 * i + 1 || k == 2 * i + 2;
    }
  }

  lemma SmallerChildBlocks(keys: seq<Key>, n: nat, i: nat, j: nat)
    requires i < n <= |keys| && SmallestChild(keys, n, i, j) && AtMost(keys[i], keys[j])
    ensures Blocked(keys, n, i)
  {
    forall k | 0 < k < n && Parent(k) == i
      ensures AtMost(keys[i], keys[k])
    {
      AtMostTransitive(keys[i], keys[j], keys[k]);
    }
  }

  /** Sinking below a smallest child closes every link but those further down. */
  lemma SiftStep(keys: seq<Key>, n: nat, start: nat, i: nat, j: nat)
    requires start <= i < n <= |keys| && Sifting(keys, n, start, i)
    requires SmallestChild(keys, n, i, j) && Less(keys[j], keys[i])
    ensures j > i && Sifting(Swapped(keys, i, j), n, start, j)
  {
  }

  /** A key that cannot sink further leaves a heap if it moved, and else only the link above it open. */
  lemma SiftDone(keys: seq<Key>, n: nat, start: nat, i: nat)
    requires start <= i < n <= |keys| && Sifting(keys, n, start, i) && Blocked(keys, n, i)
    ensures if i > start then Heap(keys, n) else HeapButUp(keys, n, start)
  {
  }
}
