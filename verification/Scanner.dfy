/** The position scanner (internal/liquidation/scanner/scanner.go): one map and one indexed heap over the same
    objects. */
module Scanners {
  import opened Options
  import opened Addresses
  import opened Maps
  import opened WadRay
  import opened HealthFactors
  import opened RateComputers
  import opened HeapOrder
  import opened PositionHeaps

  type Positions = map<Address, PositionData>

  // ---------- What each operation means, on the map alone ----------

  function Refreshed(d: PositionData, indices: Indices): PositionData {
    d.(healthFactor := Some(HealthFactor(d.collaterals, d.debts, indices)))
  }

  /** The indices that each position is refreshed at: an event between two refreshes moves them. */
  type Reading = Address -> Indices

  function RefreshedView(v: Positions, reading: Reading): Positions {
    map u | u in v :: Refreshed(v[u], reading(u))
  }

  predicate Liquidatable(d: PositionData) {
    d.healthFactor.Some? && d.healthFactor.value < RAY
  }

  class Scanner {
    var positions: map<Address, UserPosition>
    const queue: PositionHeap

    /** The queue holds exactly the map's positions, once each, every one knows its place, and the order is a heap. */
    ghost predicate Valid()
      reads this, queue, queue.items
    {
      && queue.Valid()
      && (forall u :: u in positions ==> positions[u].userAddress == u && positions[u] in queue.Elements())
      && (forall p :: p in queue.Elements() ==> p.userAddress in positions && positions[p.userAddress] == p)
    }

    function View(): Positions
      reads this, positions.Values
    {
      map u | u in positions :: positions[u].Data()
    }

    constructor ()
      ensures Valid() && View() == map[] && fresh(queue)
    {
      positions := map[];
      queue := new PositionHeap();
    }

    lemma PlaceOf(u: Address)
      requires Valid() && u in positions
      ensures var i := positions[u].heapIndex;
              0 <= i < |queue.items| && queue.items[i] == positions[u]
    {
      var i :| 0 <= i < |queue.items| && queue.items[i] == positions[u];
    }

    /** Adds or replaces a user's position. An existing object is updated in place and keeps its identity. */
    method SetPosition(pos: UserPosition)
      requires Valid()
      modifies this, queue, positions.Values, pos
      ensures Valid()
      ensures View() == old(View())[pos.userAddress := old(pos.Data())]
      ensures positions == if pos.userAddress in old(positions) then old(positions)
                           else old(positions)[pos.userAddress := pos]
    {
      if pos.userAddress in positions {
        Update(pos);
      } else {
        pos.heapIndex := -1;
        Insert(pos);
      }
    }

    method Update(pos: UserPosition)
      requires Valid() && pos.userAddress in positions
      modifies queue, positions.Values
      ensures Valid() && positions == old(positions)
      ensures View() == old(View())[pos.userAddress := old(pos.Data())]
    {
      var existing := positions[pos.userAddress];
      PlaceOf(pos.userAddress);
      ghost var keys := Keys(queue.items);
      existing.CopyFrom(pos);
      FixAfterChange(existing, keys);
      assert existing.Data() == old(pos.Data());
      assert forall u :: u in positions && u != pos.userAddress ==> positions[u].Data() == old(positions[u].Data());
    }

    method Insert(pos: UserPosition)
      requires Valid() && pos.userAddress !in positions
      modifies this, queue, positions.Values, pos
      ensures Valid() && positions == old(positions)[pos.userAddress := pos]
      ensures View() == old(View())[pos.userAddress := old(pos.Data())]
    {
      assert pos !in queue.Elements();
      positions := positions[pos.userAddress := pos];
      queue.Push(pos);
    }

    /** heap.Fix, guarded by the heap index as the source has it. */
    method FixAfterChange(pos: UserPosition, ghost keys: seq<Key>)
      requires queue.Indexed() && |keys| == |queue.items| && Heap(keys, |keys|)
      requires 0 <= pos.heapIndex < |queue.items| && queue.items[pos.heapIndex] == pos
      requires Keys(queue.items) == keys[pos.heapIndex := pos.healthFactor]
      modifies queue, queue.Elements()`heapIndex
      ensures queue.Valid() && queue.Elements() == old(queue.Elements())
    {
      if pos.heapIndex >= 0 {
        ChangingOneKey(keys, |keys|, pos.heapIndex, pos.healthFactor);
        queue.Fix(pos.heapIndex);
      }
    }

    method RemovePosition(user: Address)
      requires Valid()
      modifies this, queue, positions.Values
      ensures Valid()
      ensures View() == old(View()) - {user}
      ensures positions == old(positions) - {user}
    {
      if user in positions {
        var pos := positions[user];
        PlaceOf(user);
        if pos.heapIndex >= 0 {
          var removed := queue.Remove(pos.heapIndex);
        }
        positions := positions - {user};
        assert forall u :: u in positions ==> positions[u].Data() == old(positions[u].Data());
      }
    }

    method RefreshOne(u: Address, indices: Indices)
      requires Valid() && u in positions
      modifies queue, positions.Values
      ensures Valid() && positions == old(positions)
      ensures forall v :: v in positions ==>
                positions[v].Data() == if v == u then Refreshed(old(positions[v].Data()), indices)
                                       else old(positions[v].Data())
    {
      var pos := positions[u];
      PlaceOf(u);
      ghost var keys := Keys(queue.items);
      var hf := CalculateHealthFactor(pos.collaterals, pos.debts, indices);
      pos.healthFactor := Some(hf);
      FixAfterChange(pos, keys);
    }

    /** Recomputes every health factor, in whatever order the map is traversed. */
    method RefreshAll(reading: Reading)
      requires Valid()
      modifies queue, positions.Values
      ensures Valid() && positions == old(positions)
      ensures View() == RefreshedView(old(View()), reading)
      ensures forall u :: u in positions ==>
                var p := positions[u];
                && p.healthFactor == Some(HealthFactor(old(p.collaterals), old(p.debts), reading(u)))
                && p.collaterals == old(p.collaterals) && p.debts == old(p.debts)
                && p.totalCollateralUSD == old(p.totalCollateralUSD) && p.totalDebtUSD == old(p.totalDebtUSD)
    {
      var rest := positions.Keys;
      while rest != {}
        invariant rest <= positions.Keys && positions == old(positions) && Valid()
        invariant forall u :: u in positions ==>
                    positions[u].Data() == if u in rest then old(positions[u].Data())
                                           else Refreshed(old(positions[u].Data()), reading(u))
        decreases rest
      {
        var u := NextKey(rest);
        RefreshOne(u, reading(u));
        rest := rest - {u};
      }
      ghost var before := old(View());
      assert forall u :: u in positions ==> before[u] == old(positions[u].Data());
      ghost var after, expected := View(), RefreshedView(before, reading);
      forall u | u in after
        ensures after[u] == expected[u]
      {
        assert u in positions && u in before;
      }
      SameMap(after, expected);
    }

    /** Every position below one RAY, each once, in whatever order the map is traversed. */
    method FindLiquidatable() returns (result: seq<UserPosition>)
      requires Valid()
      ensures forall i, j :: 0 <= i < j < |result| ==> result[i].userAddress != result[j].userAddress
      ensures forall i :: 0 <= i < |result| ==>
                result[i].userAddress in positions && positions[result[i].userAddress] == result[i]
      ensures forall u :: u in positions ==> (positions[u] in result <==> Liquidatable(positions[u].Data()))
    {
      result := [];
      var rest := positions.Keys;
      while rest != {}
        invariant rest <= positions.Keys
        invariant forall i, j :: 0 <= i < j < |result| ==> result[i].userAddress != result[j].userAddress
        invariant forall i :: 0 <= i < |result| ==>
                    var u := result[i].userAddress; u in positions && u !in rest && positions[u] == result[i]
        invariant forall u :: u in positions && u !in rest ==>
                    (positions[u] in result <==> Liquidatable(positions[u].Data()))
        decreases rest
      {
        var u := NextKey(rest);
        var pos := positions[u];
        rest := rest - {u};
        if pos.healthFactor.Some? && pos.healthFactor.value < RAY {
          result := result + [pos];
        }
      }
    }

    /** A position with the lowest known health factor over the whole map, or null when the map is empty. */
    method MostDangerous() returns (p: UserPosition?)
      requires Valid()
      ensures p == null <==> positions == map[]
      ensures p != null ==> p.userAddress in positions && positions[p.userAddress] == p
      ensures p != null && p.healthFactor.Some? ==>
                forall u :: u in positions && positions[u].healthFactor.Some? ==>
                  p.healthFactor.value <= positions[u].healthFactor.value
      ensures p != null && p.healthFactor.None? ==> forall u :: u in positions ==> positions[u].healthFactor.None?
    {
      forall u | u in positions
        ensures 0 <= positions[u].heapIndex < |queue.items|
      {
        PlaceOf(u);
      }
      if |queue.items| == 0 {
        NoKeys(positions);
        return null;
      }
      p := queue.items[0];
      assert p in queue.Elements();
      forall u | u in positions
        ensures p.healthFactor.Some? && positions[u].healthFactor.Some? ==>
                  p.healthFactor.value <= positions[u].healthFactor.value
        ensures p.healthFactor.None? ==> positions[u].healthFactor.None?
      {
        PlaceOf(u);
        RootIsMinimum(Keys(queue.items), |queue.items|, positions[u].heapIndex);
      }
    }
  }

  // ---------- Every run ----------

  datatype Operation =
    | Put(user: Address, data: PositionData)
    | Remove(user: Address)
    | Refresh(reading: Reading)

  function Apply(v: Positions, op: Operation): Positions {
    match op
    case Put(user, data) => v[user := data]
    case Remove(user) => v - {user}
    case Refresh(reading) => RefreshedView(v, reading)
  }

  function ApplyAll(v: Positions, ops: seq<Operation>): Positions {
    if |ops| == 0 then v else Apply(ApplyAll(v, ops[..|ops| - 1]), ops[|ops| - 1])
  }

  method Perform(s: Scanner, op: Operation)
    requires s.Valid()
    modifies s, s.queue, s.positions.Values
    ensures s.Valid() && s.View() == Apply(old(s.View()), op)
    ensures fresh(s.positions.Values - old(s.positions.Values))
  {
    match op {
      case Put(user, data) =>
        var pos := new UserPosition(user, data);
        s.SetPosition(pos);
      case Remove(user) =>
        s.RemovePosition(user);
      case Refresh(reading) =>
        s.RefreshAll(reading);
    }
  }

  /** After any run of operations, map and heap agree and hold what the run says. */
  method Replay(s: Scanner, ops: seq<Operation>)
    requires s.Valid()
    modifies s, s.queue, s.positions.Values
    ensures s.Valid() && s.View() == ApplyAll(old(s.View()), ops)
    ensures fresh(s.positions.Values - old(s.positions.Values))
  {
    for i := 0 to |ops|
      invariant s.Valid() && s.View() == ApplyAll(old(s.View()), ops[..i])
      invariant fresh(s.positions.Values - old(s.positions.Values))
    {
      Perform(s, ops[i]);
      assert ops[..i + 1][..i] == ops[..i];
    }
    assert ops[..|ops|] == ops;
  }
}
