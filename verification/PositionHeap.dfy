/** The scanner's positions and its indexed min-heap of them (internal/liquidation/scanner/scanner.go),
    with the sift operations of Go's container/heap. */
module PositionHeaps {
  import opened Options
  import opened Addresses
  import opened HeapOrder
  import opened HealthFactors

  /** What a position says, apart from its place in the queue. */
  datatype PositionData = PositionData(
    collaterals: seq<CollateralEntry>, debts: seq<DebtEntry>, healthFactor: Option<int>,
    totalCollateralUSD: int, totalDebtUSD: int)

  class UserPosition {
    const userAddress: Address
    var collaterals: seq<CollateralEntry>
    var debts: seq<DebtEntry>
    var healthFactor: Option<int>
    var totalCollateralUSD: int
    var totalDebtUSD: int
    var heapIndex: int

    constructor (userAddress: Address, d: PositionData)
      ensures this.userAddress == userAddress && Data() == d
    {
      this.userAddress := userAddress;
      collaterals, debts, healthFactor := d.collaterals, d.debts, d.healthFactor;
      totalCollateralUSD, totalDebtUSD := d.totalCollateralUSD, d.totalDebtUSD;
      heapIndex := 0;
    }

    /** Takes over everything but the address and the place in the queue. */
    method CopyFrom(pos: UserPosition)
      modifies this
      ensures Data() == old(pos.Data()) && heapIndex == old(heapIndex)
    {
      collaterals := pos.collaterals;
      debts := pos.debts;
      healthFactor := pos.healthFactor;
      totalCollateralUSD := pos.totalCollateralUSD;
      totalDebtUSD := pos.totalDebtUSD;
    }

    function Data(): PositionData
      reads this
    {
      PositionData(collaterals, debts, healthFactor, totalCollateralUSD, totalDebtUSD)
    }
  }

  ghost function Keys(ps: seq<UserPosition>): (keys: seq<Key>)
    reads ps
    ensures |keys| == |ps|
  {
    seq(|ps|, i requires 0 <= i < |ps| reads ps => ps[i].healthFactor)
  }

  ghost function ElementsOf(ps: seq<UserPosition>): set<UserPosition> {
    set p | p in ps
  }

  lemma DroppingLastElement(ps: seq<UserPosition>)
    requires ps != [] && forall i :: 0 <= i < |ps| ==> ps[i].heapIndex == i
    ensures ElementsOf(ps[..|ps| - 1]) == ElementsOf(ps) - {ps[|ps| - 1]}
  {
    forall p | p in ps && p != ps[|ps| - 1]
      ensures p in ps[..|ps| - 1]
    {
      var k :| 0 <= k < |ps| && ps[k] == p;
      assert ps[..|ps| - 1][k] == p;
    }
  }

  lemma SwappedHasSameElements(ps: seq<UserPosition>, i: nat, j: nat)
    requires i < |ps| && j < |ps|
    ensures ElementsOf(Swapped(ps, i, j)) == ElementsOf(ps)
  {
    var after := Swapped(ps, i, j);
    assert after[i] == ps[j] && after[j] == ps[i];
    forall p | p in ps
      ensures p in after
    {
      var k :| 0 <= k < |ps| && ps[k] == p;
      assert after[if k == i then j else if k == j then i else k] == p;
    }
  }

  class PositionHeap {
    var items: seq<UserPosition>

    constructor ()
      ensures items == []
    {
      items := [];
    }

    /** Every position knows where it is; so none is there twice. */
    ghost predicate Indexed()
      reads this, items
    {
      forall i :: 0 <= i < |items| ==> items[i].heapIndex == i
    }

    ghost predicate Valid()
      reads this, items
    {
      Indexed() && Heap(Keys(items), |items|)
    }

    ghost function Elements(): set<UserPosition>
      reads this
    {
      ElementsOf(items)
    }

    method Swap(i: nat, j: nat)
      requires Indexed() && i < |items| && j < |items|
      modifies this, Elements()`heapIndex
      ensures Indexed() && items == Swapped(old(items), i, j)
      ensures Elements() == old(Elements())
      ensures Keys(items) == Swapped(old(Keys(items)), i, j)
    {
      items := Swapped(items, i, j);
      SwappedHasSameElements(old(items), i, j);
      items[i].heapIndex := i;
      items[j].heapIndex := j;
    }

    /** container/heap's up. */
    method Up(start: nat, ghost n: nat)
      requires Indexed() && start < n <= |items|
      requires HeapButUp(Keys(items), n, start)
      modifies this, Elements()`heapIndex
      ensures Indexed() && Elements() == old(Elements()) && |items| == old(|items|)
      ensures items[n..] == old(items[n..])
      ensures Heap(Keys(items), n)
    {
      var j := start;
      while true
        invariant 0 <= j < n <= |items| == old(|items|)
        invariant Indexed() && Elements() == old(Elements())
        invariant items[n..] == old(items[n..])
        invariant HeapButUp(Keys(items), n, j)
        decreases j
      {
        var i := if j == 0 then 0 else Parent(j);
        if i == j || !Less(items[j].healthFactor, items[i].healthFactor) {
          break;
        }
        SwapUp(Keys(items), n, j);
        Swap(i, j);
        j := i;
      }
      UpDone(Keys(items), n, j);
    }

    /** The left child, or the right one if it is smaller. */
    method SmallestChildOf(i: nat, n: nat) returns (j: nat)
      requires 2 * i + 1 < n <= |items|
      ensures SmallestChild(Keys(items), n, i, j)
    {
      var j1 := 2 * i + 1;
      j := j1;
      if j1 + 1 < n && Less(items[j1 + 1].healthFactor, items[j1].healthFactor) {
        j := j1 + 1;
      }
      SmallerChild(Keys(items), n, i, j);
    }

    /** Where element i sinks to next: a smallest child that is smaller than it, or nowhere. */
    method SinksTo(i: nat, n: nat) returns (j: nat)
      requires i < n <= |items|
      ensures j == i ==> Blocked(Keys(items), n, i)
      ensures j != i ==> SmallestChild(Keys(items), n, i, j) && Less(Keys(items)[j], Keys(items)[i])
    {
      if 2 * i + 1 >= n {
        ChildlessIsBlocked(Keys(items), n, i);
        return i;
      }
      j := SmallestChildOf(i, n);
      if !Less(items[j].healthFactor, items[i].healthFactor) {
        SmallerChildBlocks(Keys(items), n, i, j);
        return i;
      }
    }

    /** container/heap's down, on the first n elements. Reports whether anything moved. */
    method Down(start: nat, n: nat) returns (moved: bool)
      requires Indexed() && start < n <= |items|
      requires HeapButAt(Keys(items), n, start)
      modifies this, Elements()`heapIndex
      ensures Indexed() && Elements() == old(Elements()) && |items| == old(|items|)
      ensures items[n..] == old(items[n..])
      ensures moved ==> Heap(Keys(items), n)
      ensures !moved ==> HeapButUp(Keys(items), n, start)
    {
      var i := start;
      while true
        invariant start <= i < n <= |items| == old(|items|)
        invariant Indexed() && Elements() == old(Elements())
        invariant items[n..] == old(items[n..])
        invariant Sifting(Keys(items), n, start, i)
        decreases n - i
      {
        var j := SinksTo(i, n);
        if j == i {
          break;
        }
        SiftStep(Keys(items), n, start, i, j);
        Swap(i, j);
        i := j;
      }
      SiftDone(Keys(items), n, start, i);
      moved := i > start;
    }

    /** Appends without restoring order (positionHeap.Push). */
    method Append(pos: UserPosition)
      requires Indexed() && pos !in Elements()
      modifies this, pos`heapIndex
      ensures Indexed() && items == old(items) + [pos]
    {
      pos.heapIndex := |items|;
      items := items + [pos];
    }

    /** Drops the last element (positionHeap.Pop). */
    method Pop() returns (pos: UserPosition)
      requires Indexed() && items != []
      modifies this, Elements()`heapIndex
      ensures Indexed() && items == old(items)[..old(|items|) - 1] && pos == old(items)[old(|items|) - 1]
      ensures pos.heapIndex == -1 && Elements() == old(Elements()) - {pos}
    {
      DroppingLastElement(items);
      var n := |items|;
      pos := items[n - 1];
      pos.heapIndex := -1;
      items := items[..n - 1];
    }

    /** heap.Push. */
    method Push(pos: UserPosition)
      requires Valid() && pos !in Elements()
      modifies this, Elements()`heapIndex, pos`heapIndex
      ensures Valid() && Elements() == old(Elements()) + {pos}
    {
      ghost var before := Keys(items);
      Append(pos);
      assert Keys(items)[..|before|] == before;
      Up(|items| - 1, |items|);
    }

    /** heap.Fix, after the key of element i has changed. */
    method Fix(i: nat)
      requires Indexed() && i < |items| && HeapButAt(Keys(items), |items|, i)
      modifies this, Elements()`heapIndex
      ensures Valid() && Elements() == old(Elements())
    {
      var moved := Down(i, |items|);
      if !moved {
        Up(i, |items|);
      }
    }

    /** heap.Remove. */
    method Remove(i: nat) returns (pos: UserPosition)
      requires Valid() && i < |items|
      modifies this, Elements()`heapIndex
      ensures Valid() && pos == old(items)[i] && pos.heapIndex == -1
      ensures Elements() == old(Elements()) - {pos} && pos in old(Elements())
    {
      var n := |items| - 1;
      ghost var keys := Keys(items);
      if n != i {
        MovingLastKey(keys, n, i);
        Swap(i, n);
        var moved := Down(i, n);
        if !moved {
          Up(i, n);
        }
      }
      pos := Pop();
    }
  }

  /** Overwriting an inner key by the last one leaves the shorter prefix a heap but for that key. */
  lemma MovingLastKey(keys: seq<Key>, n: nat, i: nat)
    requires i < n < |keys| && Heap(keys, |keys|)
    ensures HeapButAt(Swapped(keys, i, n), n, i)
  {
    ChangingOneKey(keys, n, i, keys[n]);
    var after := Swapped(keys, i, n);
    assert forall k :: 0 <= k < n ==> after[k] == keys[i := keys[n]][k];
  }
}
