/** The in-memory pool states and their event-driven updates (internal/liquidation/ratecomputer/model.go). */
module RateComputers {
  import opened Options
  import opened WadRay
  import opened RayRounding
  import opened Interest
  import opened RateModel

  /** What a pool holds at one moment. */
  datatype PoolState = PoolState(
    totalSupply: int, totalBorrow: int,
    liquidityIndex: int, borrowIndex: int,
    borrowRate: int, supplyRate: int,
    lastUpdate: int, model: InterestRateModelParams)

  datatype PoolEvent = PoolEvent(supplyDelta: Option<int>, borrowDelta: Option<int>, timestamp: int)

  /** Current indices of every known market at one instant, as the scanner reads them. */
  datatype Indices = Indices(borrow: map<int, int>, liquidity: map<int, int>)

  // ---------- What each update means ----------

  function Accrue(p: PoolState, now: int): PoolState {
    p.(borrowIndex := ExtrapolateIndex(p.borrowIndex, p.borrowRate, p.lastUpdate, now),
       liquidityIndex := ExtrapolateIndex(p.liquidityIndex, p.supplyRate, p.lastUpdate, now),
       lastUpdate := now)
  }

  function ApplyDelta(total: int, delta: Option<int>): int {
    match delta
    case None => total
    case Some(d) => if total + d < 0 then 0 else total + d
  }

  function Reprice(p: PoolState): PoolState {
    var u := CalculateUtilizationRate(p.totalSupply, p.totalBorrow);
    var rate := CalculateBorrowRate(u, p.model);
    p.(borrowRate := rate, supplyRate := CalculateSupplyRate(rate, u))
  }

  function AfterEvent(p: PoolState, e: PoolEvent): PoolState {
    Reprice(Accrue(p, e.timestamp).(totalSupply := ApplyDelta(p.totalSupply, e.supplyDelta),
                                    totalBorrow := ApplyDelta(p.totalBorrow, e.borrowDelta)))
  }

  function AfterEvents(p: PoolState, events: seq<PoolEvent>): PoolState {
    if events == [] then p
    else AfterEvent(AfterEvents(p, events[..|events| - 1]), events[|events| - 1])
  }

  function AfterCalibration(p: PoolState, borrowIndex: int, liquidityIndex: int, timestamp: int): PoolState {
    Reprice(p.(borrowIndex := borrowIndex, liquidityIndex := liquidityIndex, lastUpdate := timestamp))
  }

  // ---------- The mutable objects ----------

  class Pool {
    const marketID: int
    var totalSupply: int
    var totalBorrow: int
    var liquidityIndex: int
    var borrowIndex: int
    var borrowRate: int
    var supplyRate: int
    var lastUpdate: int
    var model: InterestRateModelParams

    constructor (marketID: int, s: PoolState)
      ensures this.marketID == marketID && State() == s
    {
      this.marketID := marketID;
      totalSupply, totalBorrow := s.totalSupply, s.totalBorrow;
      liquidityIndex, borrowIndex := s.liquidityIndex, s.borrowIndex;
      borrowRate, supplyRate := s.borrowRate, s.supplyRate;
      lastUpdate, model := s.lastUpdate, s.model;
    }

    function State(): PoolState
      reads this
    {
      PoolState(totalSupply, totalBorrow, liquidityIndex, borrowIndex, borrowRate, supplyRate, lastUpdate, model)
    }

    /** Charges the interest due since the last update, at the rates in force. */
    method AccrueTo(now: int)
      modifies this
      ensures State() == Accrue(old(State()), now)
    {
      borrowIndex := ExtrapolateIndex(borrowIndex, borrowRate, lastUpdate, now);
      liquidityIndex := ExtrapolateIndex(liquidityIndex, supplyRate, lastUpdate, now);
      lastUpdate := now;
    }

    method ApplyDeltas(supplyDelta: Option<int>, borrowDelta: Option<int>)
      modifies this
      ensures State() == old(State()).(totalSupply := ApplyDelta(old(totalSupply), supplyDelta),
                                       totalBorrow := ApplyDelta(old(totalBorrow), borrowDelta))
    {
      if supplyDelta.Some? {
        totalSupply := totalSupply + supplyDelta.value;
        if totalSupply < 0 {
          totalSupply := 0;
        }
      }
      if borrowDelta.Some? {
        totalBorrow := totalBorrow + borrowDelta.value;
        if totalBorrow < 0 {
          totalBorrow := 0;
        }
      }
    }

    method Recalculate()
      modifies this
      ensures State() == Reprice(old(State()))
    {
      var utilization := CalculateUtilizationRate(totalSupply, totalBorrow);
      borrowRate := CalculateBorrowRate(utilization, model);
      supplyRate := CalculateSupplyRate(borrowRate, utilization);
    }
  }

  class RateComputer {
    var pools: map<int, Pool>

    ghost predicate Valid()
      reads this
    {
      forall id :: id in pools ==> pools[id].marketID == id
    }

    function View(): map<int, PoolState>
      reads this, pools.Values
    {
      map id | id in pools :: pools[id].State()
    }

    constructor ()
      ensures Valid() && View() == map[]
    {
      pools := map[];
    }

    method SetPool(pool: Pool)
      requires Valid()
      modifies this
      ensures Valid()
      ensures View() == old(View())[pool.marketID := pool.State()]
      ensures pools == old(pools)[pool.marketID := pool]
    {
      pools := pools[pool.marketID := pool];
    }

    /** The deviation the source also returns is a float and is not modelled. */
    method CalibratePool(marketID: int, chainBorrowIndex: int, chainLiquidityIndex: int, chainTimestamp: int)
      requires Valid()
      modifies pools.Values
      ensures Valid() && pools == old(pools)
      ensures View() == if marketID !in old(View()) then old(View())
                        else old(View())[marketID := AfterCalibration(old(View())[marketID], chainBorrowIndex,
                                                                      chainLiquidityIndex, chainTimestamp)]
      ensures marketID in pools ==>
                && CurrentBorrowIndex(marketID, chainTimestamp) == Some(chainBorrowIndex)
                && CurrentLiquidityIndex(marketID, chainTimestamp) == Some(chainLiquidityIndex)
    {
      if marketID !in pools {
        return;
      }
      var pool := pools[marketID];
      pool.borrowIndex := chainBorrowIndex;
      pool.liquidityIndex := chainLiquidityIndex;
      pool.lastUpdate := chainTimestamp;
      pool.Recalculate();
      assert forall id :: id in pools && id != marketID ==> pools[id] != pool;
    }

    method HandleEvent(marketID: int, supplyDelta: Option<int>, borrowDelta: Option<int>, chainTimestamp: int)
      requires Valid()
      modifies pools.Values
      ensures Valid() && pools == old(pools)
      ensures View() == if marketID !in old(View()) then old(View())
                        else old(View())[marketID := AfterEvent(old(View())[marketID],
                                                                PoolEvent(supplyDelta, borrowDelta, chainTimestamp))]
    {
      if marketID !in pools {
        return;
      }
      var pool := pools[marketID];
      pool.AccrueTo(chainTimestamp);
      pool.ApplyDeltas(supplyDelta, borrowDelta);
      pool.Recalculate();
      assert forall id :: id in pools && id != marketID ==> pools[id] != pool;
    }

    function CurrentBorrowIndex(marketID: int, now: int): (index: Option<int>)
      reads this, pools.Values
      ensures marketID !in pools ==> index == None
      ensures marketID in pools ==>
                var p := pools[marketID];
                index == Some(ExtrapolateIndex(p.borrowIndex, p.borrowRate, p.lastUpdate, now))
    {
      if marketID !in pools then None else Some(Accrue(pools[marketID].State(), now).borrowIndex)
    }

    function CurrentLiquidityIndex(marketID: int, now: int): (index: Option<int>)
      reads this, pools.Values
      ensures marketID !in pools ==> index == None
      ensures marketID in pools ==>
                var p := pools[marketID];
                index == Some(ExtrapolateIndex(p.liquidityIndex, p.supplyRate, p.lastUpdate, now))
    {
      if marketID !in pools then None else Some(Accrue(pools[marketID].State(), now).liquidityIndex)
    }

    /** All current indices at once. */
    function IndicesAt(now: int): (indices: Indices)
      reads this, pools.Values
      ensures forall id :: CurrentBorrowIndex(id, now)
                           == if id in indices.borrow then Some(indices.borrow[id]) else None
      ensures forall id :: CurrentLiquidityIndex(id, now)
                           == if id in indices.liquidity then Some(indices.liquidity[id]) else None
    {
      Indices(map id | id in pools :: Accrue(pools[id].State(), now).borrowIndex,
              map id | id in pools :: Accrue(pools[id].State(), now).liquidityIndex)
    }
  }

  // ---------- Invariants over every run of events ----------

  /** A pool as the protocol can present it. */
  ghost predicate WellFormed(p: PoolState) {
    && 0 <= p.totalSupply && 0 <= p.totalBorrow
    && 0 <= p.liquidityIndex && 0 <= p.borrowIndex
    && 0 <= p.supplyRate <= p.borrowRate
    && p.model.Valid()
  }

  /** The rates that belong to the pool's own totals: the borrow rate is that of the curve, and the supply rate the
      integer nearest to the utilized share of it. */
  ghost predicate OnCurve(p: PoolState) {
    var u := CalculateUtilizationRate(p.totalSupply, p.totalBorrow);
    && p.borrowRate == CalculateBorrowRate(u, p.model)
    && 2 * (p.borrowRate * u) - RAY < 2 * (p.supplyRate * RAY) <= 2 * (p.borrowRate * u) + RAY
  }

  lemma RepricedOnCurve(p: PoolState)
    ensures OnCurve(Reprice(p))
    ensures Reprice(p) == p.(borrowRate := Reprice(p).borrowRate, supplyRate := Reprice(p).supplyRate)
  {
    SupplyRateIsNearest(Reprice(p).borrowRate, CalculateUtilizationRate(p.totalSupply, p.totalBorrow),
                        Reprice(p).supplyRate);
  }

  function Max(a: int, b: int): int { if a <= b then b else a }

  /** Every event leaves the pool on its curve, whatever the totals were and whatever it adds or takes; a total that it
      does not name is left alone. */
  lemma EventFollowsCurve(p: PoolState, e: PoolEvent)
    ensures var r := AfterEvent(p, e);
            && OnCurve(r) && r.model == p.model && r.lastUpdate == e.timestamp
            && r.totalSupply
               == (if e.supplyDelta.Some? then Max(0, p.totalSupply + e.supplyDelta.value) else p.totalSupply)
            && r.totalBorrow
               == (if e.borrowDelta.Some? then Max(0, p.totalBorrow + e.borrowDelta.value) else p.totalBorrow)
  {
    RepricedOnCurve(Accrue(p, e.timestamp).(totalSupply := ApplyDelta(p.totalSupply, e.supplyDelta),
                                            totalBorrow := ApplyDelta(p.totalBorrow, e.borrowDelta)));
  }

  /** Calibrating takes the chain's indices and clock as they are, whatever the pool had extrapolated, leaves the totals
      alone, and puts the rates on the curve. */
  lemma CalibrationTakesChain(p: PoolState, b: int, l: int, t: int)
    ensures var r := AfterCalibration(p, b, l, t);
            && OnCurve(r) && r.model == p.model && r.totalSupply == p.totalSupply && r.totalBorrow == p.totalBorrow
            && r.borrowIndex == b && r.liquidityIndex == l && r.lastUpdate == t
  {
    RepricedOnCurve(p.(borrowIndex := b, liquidityIndex := l, lastUpdate := t));
  }

  /** From then on they grow from there: until the chain's time not at all, and in a year by the rates of the curve. */
  lemma CalibratedYear(p: PoolState, b: int, l: int, t: int, now: int)
    ensures var r := AfterCalibration(p, b, l, t);
            now <= t ==> Accrue(r, now).borrowIndex == b && Accrue(r, now).liquidityIndex == l
    ensures var u := CalculateUtilizationRate(p.totalSupply, p.totalBorrow);
            var rate := CalculateBorrowRate(u, p.model);
            var later := Accrue(AfterCalibration(p, b, l, t), t + SECONDS_PER_YEAR);
            && later.borrowIndex == RayMul(b, RAY + rate)
            && later.liquidityIndex == RayMul(l, RAY + RayMul(rate, u))
  {
    var r := AfterCalibration(p, b, l, t);
    ExtrapolateOneYear(b, r.borrowRate, t);
    ExtrapolateOneYear(l, r.supplyRate, t);
  }

  /** What being on the curve comes to: the base rate and nothing for suppliers without borrowing; base + slope1 at a
      positive optimum; and the top of the curve, all of it for suppliers, when nothing is left to borrow. */
  lemma CurveEnds(p: PoolState)
    requires OnCurve(p) && p.model.Valid() && 0 <= p.totalSupply && 0 <= p.totalBorrow
    ensures var u, m := CalculateUtilizationRate(p.totalSupply, p.totalBorrow), p.model;
            && (p.totalBorrow == 0 ==> p.borrowRate == m.baseRate && p.supplyRate == 0)
            && (u == m.optimalUtilization > 0 ==> p.borrowRate == m.baseRate + m.slope1)
            && (p.totalSupply == 0 < p.totalBorrow && m.optimalUtilization < RAY ==>
                  p.supplyRate == p.borrowRate == m.baseRate + m.slope1 + m.slope2)
  {
    var u, m := CalculateUtilizationRate(p.totalSupply, p.totalBorrow), p.model;
    UtilizationIsNearestShare(p.totalSupply, p.totalBorrow);
    UtilizationEnds(p.totalSupply, p.totalBorrow);
    BorrowRateRange(u, m);
    if p.totalBorrow == 0 && m.optimalUtilization > 0 {
      RayDivIsNearest(0, m.optimalUtilization, 0);
      RayMulIsNearest(0, m.slope1, 0);
    }
  }

  /** Supply 100 and borrow 900 on a curve from 0 over 4% at 80% to 64%: borrowers pay 34% and suppliers earn 30.6%. */
  lemma SteepWitness(p: PoolState, e: PoolEvent)
    requires p.totalSupply == 100 && p.totalBorrow == 900 && e.supplyDelta == e.borrowDelta == None
    requires p.model == InterestRateModelParams(0, 4 * (RAY / 100), 60 * (RAY / 100), 80 * (RAY / 100))
    ensures var r := AfterEvent(p, e);
            r.borrowRate == 34 * (RAY / 100) && r.supplyRate == 306 * (RAY / 1000)
  {
    var r := AfterEvent(p, e);
    assert CalculateUtilizationRate(100, 900) == 9 * (RAY / 10) by {
      RayDivIsNearest(WadToRay(900), WadToRay(1000), 9 * (RAY / 10));
    }
    assert r.borrowRate == 34 * (RAY / 100) by {
      RayDivIsNearest(RAY / 10, RAY / 5, RAY / 2);
      RayMulIsNearest(RAY / 2, 60 * (RAY / 100), 30 * (RAY / 100));
    }
    SupplyRateIsNearest(r.borrowRate, 9 * (RAY / 10), 306 * (RAY / 1000));
  }

  lemma RepriceKeeps(p: PoolState)
    requires 0 <= p.totalSupply && 0 <= p.totalBorrow && p.model.Valid()
    ensures 0 <= CalculateUtilizationRate(p.totalSupply, p.totalBorrow) <= RAY
    ensures 0 <= Reprice(p).supplyRate <= Reprice(p).borrowRate
    ensures Reprice(p).borrowRate <= p.model.baseRate + p.model.slope1 + p.model.slope2
  {
    var u := CalculateUtilizationRate(p.totalSupply, p.totalBorrow);
    UtilizationIsNearestShare(p.totalSupply, p.totalBorrow);
    BorrowRateRange(u, p.model);
    SupplyRateAtMostBorrowRate(CalculateBorrowRate(u, p.model), u);
  }

  /** Of two pools on one curve, the one with more borrowed or less supplied charges and pays at least as much. */
  lemma RatesFollowDemand(p: PoolState, q: PoolState)
    requires p.model.Valid() && p.model == q.model
    requires 0 <= q.totalSupply <= p.totalSupply && 0 <= p.totalBorrow <= q.totalBorrow
    ensures Reprice(p).borrowRate <= Reprice(q).borrowRate && Reprice(p).supplyRate <= Reprice(q).supplyRate
  {
    var u := CalculateUtilizationRate(p.totalSupply, p.totalBorrow);
    var v := CalculateUtilizationRate(q.totalSupply, q.totalBorrow);
    UtilizationMono(p.totalSupply, p.totalBorrow, q.totalSupply, q.totalBorrow);
    BorrowRateFollowsDemand(p.totalSupply, p.totalBorrow, q.totalSupply, q.totalBorrow, p.model);
    RepriceKeeps(p);
    RayMulMono(CalculateBorrowRate(u, p.model), u, CalculateBorrowRate(v, p.model), v);
  }

  lemma EventKeeps(p: PoolState, e: PoolEvent)
    requires WellFormed(p)
    ensures WellFormed(AfterEvent(p, e))
    ensures p.borrowIndex <= AfterEvent(p, e).borrowIndex && p.liquidityIndex <= AfterEvent(p, e).liquidityIndex
    ensures p.liquidityIndex <= p.borrowIndex ==> AfterEvent(p, e).liquidityIndex <= AfterEvent(p, e).borrowIndex
  {
    ExtrapolateIndexMono(p.borrowIndex, p.borrowIndex, p.borrowRate, p.borrowRate, p.lastUpdate, e.timestamp,
                         e.timestamp);
    ExtrapolateIndexMono(p.liquidityIndex, p.liquidityIndex, p.supplyRate, p.supplyRate, p.lastUpdate, e.timestamp,
                         e.timestamp);
    if p.liquidityIndex <= p.borrowIndex {
      ExtrapolateIndexMono(p.liquidityIndex, p.borrowIndex, p.supplyRate, p.borrowRate, p.lastUpdate, e.timestamp,
                           e.timestamp);
    }
    RepriceKeeps(Accrue(p, e.timestamp).(totalSupply := ApplyDelta(p.totalSupply, e.supplyDelta),
                                         totalBorrow := ApplyDelta(p.totalBorrow, e.borrowDelta)));
  }

  lemma {:induction false} RunKeeps(p: PoolState, events: seq<PoolEvent>)
    requires WellFormed(p)
    ensures var r := AfterEvents(p, events);
            && WellFormed(r)
            && p.borrowIndex <= r.borrowIndex && p.liquidityIndex <= r.liquidityIndex
            && (p.liquidityIndex <= p.borrowIndex ==> r.liquidityIndex <= r.borrowIndex)
  {
    if events != [] {
      var init := events[..|events| - 1];
      RunKeeps(p, init);
      EventKeeps(AfterEvents(p, init), events[|events| - 1]);
    }
  }

  lemma {:induction false} AfterEventsConcat(p: PoolState, first: seq<PoolEvent>, rest: seq<PoolEvent>)
    ensures AfterEvents(p, first + rest) == AfterEvents(AfterEvents(p, first), rest)
  {
    if rest == [] {
      assert first + rest == first;
    } else {
      var whole, n := first + rest, |rest| - 1;
      AfterEventsConcat(p, first, rest[..n]);
      assert whole[..|whole| - 1] == first + rest[..n];
    }
  }

  /** Whatever the events, their order and their timestamps: the pool stays well formed, utilization stays within
      100%, both indices never decrease from any earlier point of the run, the liquidity index never overtakes the
      borrow index once it is at or below it, and the rates are those of the curve after every event. */
  lemma RunInvariant(p: PoolState, first: seq<PoolEvent>, rest: seq<PoolEvent>)
    requires WellFormed(p)
    ensures var q, r := AfterEvents(p, first), AfterEvents(p, first + rest);
            && WellFormed(q) && WellFormed(r)
            && 0 <= CalculateUtilizationRate(r.totalSupply, r.totalBorrow) <= RAY
            && q.borrowIndex <= r.borrowIndex && q.liquidityIndex <= r.liquidityIndex
            && (q.liquidityIndex <= q.borrowIndex ==> r.liquidityIndex <= r.borrowIndex)
            && (rest != [] ==> r.lastUpdate == rest[|rest| - 1].timestamp && OnCurve(r))
  {
    var q := AfterEvents(p, first);
    var r := AfterEvents(q, rest);
    AfterEventsConcat(p, first, rest);
    RunKeeps(p, first);
    RunKeeps(q, rest);
    UtilizationIsNearestShare(r.totalSupply, r.totalBorrow);
    if rest != [] {
      var n := |rest| - 1;
      EventFollowsCurve(AfterEvents(q, rest[..n]), rest[n]);
    }
  }

  /** Two events in one block are one event with the summed deltas, as long as the first one is not clamped. */
  lemma SameBlockEventsAdd(p: PoolState, s1: int, b1: int, s2: int, b2: int, now: int)
    requires 0 <= p.totalSupply + s1 && 0 <= p.totalBorrow + b1
    ensures AfterEvent(AfterEvent(p, PoolEvent(Some(s1), Some(b1), now)), PoolEvent(Some(s2), Some(b2), now))
            == AfterEvent(p, PoolEvent(Some(s1 + s2), Some(b1 + b2), now))
  {
  }

  /** Calibrating with exactly what has been extrapolated is an event that moves nothing. */
  lemma CalibrationAgreesWithEvent(p: PoolState, now: int)
    ensures AfterCalibration(p, Accrue(p, now).borrowIndex, Accrue(p, now).liquidityIndex, now)
            == AfterEvent(p, PoolEvent(None, None, now))
  {
  }

  // ---------- Clamped totals in closed form ----------

  function DeltaOrZero(d: Option<int>): int {
    if d.Some? then d.value else 0
  }

  function Min(a: int, b: int): int { if a <= b then a else b }

  /** s0 plus every delta, with no clamping. */
  function Unclamped(s0: int, deltas: seq<Option<int>>): int {
    if deltas == [] then s0
    else Unclamped(s0, deltas[..|deltas| - 1]) + DeltaOrZero(deltas[|deltas| - 1])
  }

  /** The lowest value the unclamped total takes along the way, the start included. */
  function Lowest(s0: int, deltas: seq<Option<int>>): int {
    if deltas == [] then s0
    else Min(Lowest(s0, deltas[..|deltas| - 1]), Unclamped(s0, deltas))
  }

  lemma {:induction false} LowestIsMinimum(s0: int, deltas: seq<Option<int>>, k: nat)
    requires k <= |deltas|
    ensures Lowest(s0, deltas) <= Unclamped(s0, deltas[..k])
    decreases |deltas|
  {
    if k == |deltas| {
      assert deltas[..k] == deltas;
    } else {
      var init := deltas[..|deltas| - 1];
      LowestIsMinimum(s0, init, k);
      assert init[..k] == deltas[..k];
    }
  }

  function SupplyDeltas(events: seq<PoolEvent>): seq<Option<int>> {
    seq(|events|, i requires 0 <= i < |events| => events[i].supplyDelta)
  }

  function BorrowDeltas(events: seq<PoolEvent>): seq<Option<int>> {
    seq(|events|, i requires 0 <= i < |events| => events[i].borrowDelta)
  }

  /** Clamping at zero lifts the total by exactly the deepest point its unclamped path would have reached below zero. */
  lemma {:induction false} ClampedTotals(p: PoolState, events: seq<PoolEvent>)
    requires 0 <= p.totalSupply && 0 <= p.totalBorrow
    ensures var supply, borrow := SupplyDeltas(events), BorrowDeltas(events);
            var r := AfterEvents(p, events);
            && r.totalSupply == Unclamped(p.totalSupply, supply) - Min(0, Lowest(p.totalSupply, supply))
            && r.totalBorrow == Unclamped(p.totalBorrow, borrow) - Min(0, Lowest(p.totalBorrow, borrow))
  {
    if events != [] {
      var init := events[..|events| - 1];
      ClampedTotals(p, init);
      var supply, borrow := SupplyDeltas(events), BorrowDeltas(events);
      assert supply[..|supply| - 1] == SupplyDeltas(init);
      assert borrow[..|borrow| - 1] == BorrowDeltas(init);
    }
  }

  /** Nothing has been clamped away exactly when the unclamped path never goes below zero. */
  lemma NothingClampedIff(s0: int, deltas: seq<Option<int>>)
    ensures Min(0, Lowest(s0, deltas)) == 0 <==> forall k :: 0 <= k <= |deltas| ==> 0 <= Unclamped(s0, deltas[..k])
  {
    if 0 <= Lowest(s0, deltas) {
      forall k | 0 <= k <= |deltas|
        ensures 0 <= Unclamped(s0, deltas[..k])
      {
        LowestIsMinimum(s0, deltas, k);
      }
    } else {
      var k := LowestIsReached(s0, deltas);
      assert Unclamped(s0, deltas[..k]) < 0;
    }
  }

  /** So a total is conserved, the sum of all that was added and taken, exactly when that path never goes below zero. */
  lemma TotalsConservedIff(p: PoolState, events: seq<PoolEvent>)
    requires 0 <= p.totalSupply && 0 <= p.totalBorrow
    ensures var supply, r := SupplyDeltas(events), AfterEvents(p, events);
            r.totalSupply == Unclamped(p.totalSupply, supply)
            <==> forall k :: 0 <= k <= |events| ==> 0 <= Unclamped(p.totalSupply, supply[..k])
    ensures var borrow, r := BorrowDeltas(events), AfterEvents(p, events);
            r.totalBorrow == Unclamped(p.totalBorrow, borrow)
            <==> forall k :: 0 <= k <= |events| ==> 0 <= Unclamped(p.totalBorrow, borrow[..k])
  {
    ClampedTotals(p, events);
    NothingClampedIff(p.totalSupply, SupplyDeltas(events));
    NothingClampedIff(p.totalBorrow, BorrowDeltas(events));
  }

  lemma {:induction false} LowestIsReached(s0: int, deltas: seq<Option<int>>) returns (k: nat)
    ensures k <= |deltas| && Unclamped(s0, deltas[..k]) == Lowest(s0, deltas)
  {
    if deltas == [] {
      k := 0;
    } else if Lowest(s0, deltas) == Unclamped(s0, deltas) {
      k := |deltas|;
      assert deltas[..k] == deltas;
    } else {
      var init := deltas[..|deltas| - 1];
      k := LowestIsReached(s0, init);
      assert init[..k] == deltas[..k];
    }
  }

  // ---------- Time accounted for ----------

  /** The seconds for which an event charges interest: the pool's clock moved forward, or nothing. */
  function Charged(p: PoolState, e: PoolEvent): nat {
    if e.timestamp <= p.lastUpdate then 0 else e.timestamp - p.lastUpdate
  }

  lemma ExtrapolationCharges(index: int, rate: int, last: int, now: int)
    ensures ExtrapolateIndex(index, rate, last, now)
            == RayMul(index, CalculateLinearInterest(rate, if now <= last then 0 else now - last))
  {
    RayIsUnit(index);
  }

  lemma IndicesAfterEvent(p: PoolState, e: PoolEvent)
    ensures var r := AfterEvent(p, e);
            && r.borrowIndex == ExtrapolateIndex(p.borrowIndex, p.borrowRate, p.lastUpdate, e.timestamp)
            && r.liquidityIndex == ExtrapolateIndex(p.liquidityIndex, p.supplyRate, p.lastUpdate, e.timestamp)
            && r.lastUpdate == e.timestamp
  {
  }

  /** Each index is multiplied by the linear interest of just those seconds, at the rates in force before the event. */
  lemma EventChargesFor(p: PoolState, e: PoolEvent)
    ensures var t, r := Charged(p, e), AfterEvent(p, e);
            && r.borrowIndex == RayMul(p.borrowIndex, CalculateLinearInterest(p.borrowRate, t))
            && r.liquidityIndex == RayMul(p.liquidityIndex, CalculateLinearInterest(p.supplyRate, t))
            && r.lastUpdate == e.timestamp
  {
    IndicesAfterEvent(p, e);
    ExtrapolationCharges(p.borrowIndex, p.borrowRate, p.lastUpdate, e.timestamp);
    ExtrapolationCharges(p.liquidityIndex, p.supplyRate, p.lastUpdate, e.timestamp);
  }

  /** The seconds for which a whole run charges, by the pool's own clock. */
  function SecondsCharged(p: PoolState, events: seq<PoolEvent>): nat {
    if events == [] then 0
    else
      var init := events[..|events| - 1];
      SecondsCharged(p, init) + Charged(AfterEvents(p, init), events[|events| - 1])
  }

  /** No event is older than the pool's clock when it arrives. */
  ghost predicate Ordered(p: PoolState, events: seq<PoolEvent>) {
    events != [] ==>
      var init := events[..|events| - 1];
      Ordered(p, init) && AfterEvents(p, init).lastUpdate <= events[|events| - 1].timestamp
  }

  /** An event older than the clock rewinds it and the same seconds are charged again:
      the run charges for exactly the elapsed time if and only if no event arrives older than the clock. */
  lemma {:induction false} ChargedTimeIsElapsedIffOrdered(p: PoolState, events: seq<PoolEvent>)
    ensures var elapsed := AfterEvents(p, events).lastUpdate - p.lastUpdate;
            && elapsed <= SecondsCharged(p, events)
            && (SecondsCharged(p, events) == elapsed <==> Ordered(p, events))
  {
    if events != [] {
      ChargedTimeIsElapsedIffOrdered(p, events[..|events| - 1]);
    }
  }

  // ---------- What the charged time costs ----------

  /** The growth g of the multiplier, a rounded-down rate*t/year, against the base rate's share. */
  lemma GrowthAtLeastBase(g: int, rate: nat, base: nat, t: nat, year: int)
    requires base <= rate && rate * t < (g + 1) * year
    ensures base * t - year <= g * year
  {
    MulMono(base, rate, t);
  }

  /** The index i grown by g and rounded to i2. */
  lemma GrowthOfIndex(i0: nat, i: nat, i2: int, g: nat, ray: int)
    requires i0 <= i
    requires 2 * (i * (ray + g)) - ray <= 2 * (i2 * ray)
    ensures 2 * (i0 * g) - ray <= 2 * ray * (i2 - i)
  {
    MulMono(i0, i, g);
  }

  lemma GrowthOfOneEvent(i0: nat, g: nat, share: int, growth: int, ray: int, year: int)
    requires 0 < year && share <= g * year && 2 * (i0 * g) - ray <= growth
    ensures growth * year >= 2 * (i0 * share) - ray * year
  {
    MulMono(share, g * year, i0);
    MulMono(2 * (i0 * g) - ray, growth, year);
    assert g * year * i0 == i0 * g * year;
  }

  lemma EventCharges(p: PoolState, e: PoolEvent, i0: nat)
    requires WellFormed(p) && p.model.baseRate <= p.borrowRate && i0 <= p.borrowIndex
    ensures 2 * RAY * SECONDS_PER_YEAR * (AfterEvent(p, e).borrowIndex - p.borrowIndex)
            >= 2 * (i0 * (p.model.baseRate * Charged(p, e) - SECONDS_PER_YEAR)) - RAY * SECONDS_PER_YEAR
  {
    var t := Charged(p, e);
    var m, i2 := CalculateLinearInterest(p.borrowRate, t), AfterEvent(p, e).borrowIndex;
    assert i2 == RayMul(p.borrowIndex, m) by { EventChargesFor(p, e); }
    assert RAY <= m by { LinearInterestMono(p.borrowRate, p.borrowRate, t, t); }
    assert 2 * (i0 * (m - RAY)) - RAY <= 2 * RAY * (i2 - p.borrowIndex) by {
      RayMulIsNearest(p.borrowIndex, m, i2);
      GrowthOfIndex(i0, p.borrowIndex, i2, m - RAY, RAY);
    }
    assert p.model.baseRate * t - SECONDS_PER_YEAR <= (m - RAY) * SECONDS_PER_YEAR by {
      LinearInterestIsProRata(p.borrowRate, t);
      GrowthAtLeastBase(m - RAY, p.borrowRate, p.model.baseRate, t, SECONDS_PER_YEAR);
    }
    GrowthOfOneEvent(i0, m - RAY, p.model.baseRate * t - SECONDS_PER_YEAR, 2 * RAY * (i2 - p.borrowIndex),
                     RAY, SECONDS_PER_YEAR);
  }

  lemma AddGrowth(i0: nat, base: nat, i: int, j: int, k: int, s: int, t: int, n: int, ray: int, year: int)
    requires 2 * ray * year * (j - i) >= 2 * (i0 * (base * s - n * year)) - ray * (n * year)
    requires 2 * ray * year * (k - j) >= 2 * (i0 * (base * t - year)) - ray * year
    ensures 2 * ray * year * (k - i) >= 2 * (i0 * (base * (s + t) - (n + 1) * year)) - ray * ((n + 1) * year)
  {
    var x, y := base * s - n * year, base * t - year;
    assert base * (s + t) == base * s + base * t && (n + 1) * year == n * year + year;
    Distribute(i0, x, y);
    Distribute(2 * ray * year, j - i, k - j);
    Distribute(ray, n * year, year);
  }

  /** Every second charged is paid for: over any run the borrow index grows by at least the base rate's share of the
      seconds charged, rewound ones included, short of one unit of the multiplier and half a unit of the index for each
      event. */
  lemma {:induction false} ChargedTimeIsPaidFor(p: PoolState, events: seq<PoolEvent>)
    requires WellFormed(p) && p.model.baseRate <= p.borrowRate
    ensures var r, n, base := AfterEvents(p, events), |events|, p.model.baseRate;
            && r.model == p.model && base <= r.borrowRate
            && 2 * RAY * SECONDS_PER_YEAR * (r.borrowIndex - p.borrowIndex)
               >= 2 * (p.borrowIndex * (base * SecondsCharged(p, events) - n * SECONDS_PER_YEAR))
                  - RAY * (n * SECONDS_PER_YEAR)
  {
    if events != [] {
      var n := |events| - 1;
      var init, e := events[..n], events[n];
      var q := AfterEvents(p, init);
      ChargedTimeIsPaidFor(p, init);
      RunKeeps(p, init);
      EventCharges(q, e, p.borrowIndex);
      EventKeeps(q, e);
      RepricedAtLeastBase(q, e);
      AddGrowth(p.borrowIndex, p.model.baseRate, p.borrowIndex, q.borrowIndex, AfterEvent(q, e).borrowIndex,
                SecondsCharged(p, init), Charged(q, e), n, RAY, SECONDS_PER_YEAR);
    }
  }

  lemma RepricedAtLeastBase(p: PoolState, e: PoolEvent)
    requires WellFormed(p)
    ensures AfterEvent(p, e).model == p.model && p.model.baseRate <= AfterEvent(p, e).borrowRate
  {
    var r := AfterEvent(p, e);
    UtilizationIsNearestShare(r.totalSupply, r.totalBorrow);
    BorrowRateRange(CalculateUtilizationRate(r.totalSupply, r.totalBorrow), r.model);
  }

  /** An index that was current at `clock`, accrued up to `now` from the earlier time `past`, has earned half a unit or
      more beyond what it should have. */
  predicate Overcharges(index: int, rate: int, past: int, clock: int, now: int)
    requires past <= now
  {
    2 * (index * CalculateLinearInterest(rate, now - past)) >= (2 * ExtrapolateIndex(index, rate, clock, now) + 1) * RAY
  }

  /** One index through a rewind from `clock` to `past` and on to `now`, against the same index without it. */
  lemma OverchargedIff(index: nat, rate: nat, past: int, clock: int, now: int)
    requires past <= clock <= now
    ensures var rewound, honest := ExtrapolateIndex(index, rate, past, now), ExtrapolateIndex(index, rate, clock, now);
            honest <= rewound && (honest < rewound <==> Overcharges(index, rate, past, clock, now))
  {
    var honest := ExtrapolateIndex(index, rate, clock, now);
    var m1, m2 := CalculateLinearInterest(rate, now - clock), CalculateLinearInterest(rate, now - past);
    AccrualIsProduct(index, rate, clock, now - clock);
    AccrualIsProduct(index, rate, past, now - past);
    LinearInterestMono(rate, rate, now - clock, now - past);
    RayMulMono(index, m1, index, m2);
    RoundedDivAtMost(index * m2, RAY, honest);
  }

  /** If no time has passed since the clock, that is half a unit or more of interest on the seconds charged twice. */
  lemma OverchargesAtOnceIff(index: int, rate: int, past: int, clock: int)
    requires past <= clock
    ensures Overcharges(index, rate, past, clock, clock)
            <==> 2 * (index * (CalculateLinearInterest(rate, clock - past) - RAY)) >= RAY
  {
    var m := CalculateLinearInterest(rate, clock - past);
    assert index * (m - RAY) == index * m - index * RAY;
  }

  /** When a rewind costs anyone anything. An event older than the clock, with any deltas, and then a later one, with
      any deltas: both indices end at least where they would without the rewind, above it exactly when they are
      overcharged, and nothing else differs. */
  lemma RewindOverchargesIff(p: PoolState, older: PoolEvent, later: PoolEvent)
    requires WellFormed(p) && older.timestamp <= p.lastUpdate <= later.timestamp
    ensures var q := AfterEvent(p, older);
            var rewound, honest := AfterEvent(q, later), AfterEvent(q.(lastUpdate := p.lastUpdate), later);
            && q.borrowIndex == p.borrowIndex && q.liquidityIndex == p.liquidityIndex
            && honest.borrowIndex <= rewound.borrowIndex && honest.liquidityIndex <= rewound.liquidityIndex
            && (honest.borrowIndex < rewound.borrowIndex
                <==> Overcharges(p.borrowIndex, q.borrowRate, older.timestamp, p.lastUpdate, later.timestamp))
            && (honest.liquidityIndex < rewound.liquidityIndex
                <==> Overcharges(p.liquidityIndex, q.supplyRate, older.timestamp, p.lastUpdate, later.timestamp))
            && rewound == honest.(borrowIndex := rewound.borrowIndex, liquidityIndex := rewound.liquidityIndex)
  {
    var q := AfterEvent(p, older);
    EventKeeps(p, older);
    IndicesAfterEvent(q, later);
    IndicesAfterEvent(q.(lastUpdate := p.lastUpdate), later);
    OverchargedIff(p.borrowIndex, q.borrowRate, older.timestamp, p.lastUpdate, later.timestamp);
    OverchargedIff(p.liquidityIndex, q.supplyRate, older.timestamp, p.lastUpdate, later.timestamp);
  }

  /** A pool at 10% a year: reporting its start again after a year, and then the year's end, makes 21% of it. */
  lemma RewindWitness()
    ensures var curve := InterestRateModelParams(RAY / 10, 0, 0, 0);
            var p := PoolState(0, 0, RAY, RAY, RAY / 10, 0, 0, curve);
            var atStart, atEnd := PoolEvent(None, None, 0), PoolEvent(None, None, SECONDS_PER_YEAR);
            && WellFormed(p)
            && AfterEvents(p, [atEnd]).borrowIndex == RAY + 10 * (RAY / 100)
            && AfterEvents(p, [atEnd, atStart, atEnd]).borrowIndex == RAY + 21 * (RAY / 100)
  {
    var curve := InterestRateModelParams(RAY / 10, 0, 0, 0);
    var p := PoolState(0, 0, RAY, RAY, RAY / 10, 0, 0, curve);
    var atStart, atEnd := PoolEvent(None, None, 0), PoolEvent(None, None, SECONDS_PER_YEAR);
    assert [atEnd, atStart, atEnd][..2] == [atEnd, atStart] && [atEnd, atStart][..1] == [atEnd] && [atEnd][..0] == [];
    var once := AfterEvent(p, atEnd);
    assert AfterEvents(p, [atEnd]) == once;
    assert AfterEvents(p, [atEnd, atStart]) == AfterEvent(once, atStart);
    assert AfterEvents(p, [atEnd, atStart, atEnd]) == AfterEvent(AfterEvent(once, atStart), atEnd);
    assert once.borrowRate == AfterEvent(once, atStart).borrowRate == RAY / 10;
  }
}
