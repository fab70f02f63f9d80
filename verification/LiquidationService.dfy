/** Who gets liquidated: one scan of the engine (internal/liquidation/service.go). */
module LiquidationServices {
  import opened Options
  import opened Addresses
  import opened WadRay
  import opened RateComputers
  import opened HealthFactors
  import opened PositionHeaps
  import opened Scanners
  import opened Calldata
  import opened Executors

  /** The arguments of one call of Execute. */
  datatype Liquidation = Liquidation(collateralAsset: Address, debtAsset: Address, user: Address, amount: int)

  /** A position the engine acts on: something to repay, something to seize, and a factor below one at these indices. */
  predicate Target(d: PositionData, indices: Indices) {
    d.debts != [] && d.collaterals != [] && HealthFactor(d.collaterals, d.debts, indices) < RAY
  }

  /** The first debt and the first collateral as they are listed, and half of the debt's principal. */
  function LiquidationOf(user: Address, d: PositionData): Liquidation
    requires d.debts != [] && d.collaterals != []
  {
    Liquidation(d.collaterals[0].assetAddress, d.debts[0].assetAddress, user, d.debts[0].borrowBalance / 2)
  }

  /** Every amount a scan may write into calldata fits there. */
  ghost predicate AllWritable(v: Positions) {
    forall u :: u in v && v[u].debts != [] ==> Writable(v[u].debts[0].borrowBalance / 2)
  }

  /** The executor after a sequence of calls, whatever each one's answers. */
  function AfterCalls(s: Core, cfg: Config, calls: seq<Liquidation>, answers: nat -> Answers): Core
  {
    if calls == [] then s
    else
      var n := |calls| - 1;
      AfterCall(AfterCalls(s, cfg, calls[..n], answers), cfg, calls[n], answers(n))
  }

  /** The executor after one call; an amount that does not fit is never passed. */
  function AfterCall(s: Core, cfg: Config, c: Liquidation, a: Answers): Core {
    if Writable(c.amount) then Executed(s, cfg, c.collateralAsset, c.debtAsset, c.user, c.amount, a).0 else s
  }

  /** A candidate as the scan sees it. */
  datatype Candidate = Candidate(user: Address, data: PositionData)

  ghost function Seen(ps: seq<UserPosition>): (cs: seq<Candidate>)
    reads ps
    ensures |cs| == |ps|
    ensures forall i :: 0 <= i < |ps| ==> cs[i] == Candidate(ps[i].userAddress, ps[i].Data())
  {
    seq(|ps|, i requires 0 <= i < |ps| reads ps => Candidate(ps[i].userAddress, ps[i].Data()))
  }

  ghost predicate SeenWritable(cs: seq<Candidate>) {
    forall i :: 0 <= i < |cs| && cs[i].data.debts != [] ==> Writable(cs[i].data.debts[0].borrowBalance / 2)
  }

  predicate Actionable(d: PositionData) {
    d.debts != [] && d.collaterals != []
  }

  /** One call for each candidate that has both a debt and a collateral, in order. */
  function Planned(cs: seq<Candidate>): seq<Liquidation> {
    if cs == [] then []
    else
      var init, c := Planned(cs[..|cs| - 1]), cs[|cs| - 1];
      if Actionable(c.data) then init + [LiquidationOf(c.user, c.data)] else init
  }

  lemma PlannedAppend(cs: seq<Candidate>, c: Candidate)
    ensures Planned(cs + [c])
            == if Actionable(c.data) then Planned(cs) + [LiquidationOf(c.user, c.data)] else Planned(cs)
  {
    assert (cs + [c])[..|cs|] == cs;
  }

  /** Exactly the actionable candidates are planned, each with its own call, and none twice. */
  lemma {:induction false} PlannedExactly(cs: seq<Candidate>)
    ensures forall call :: call in Planned(cs) ==>
              exists i :: 0 <= i < |cs| && Actionable(cs[i].data) && call == LiquidationOf(cs[i].user, cs[i].data)
    ensures forall i :: 0 <= i < |cs| && Actionable(cs[i].data) ==> LiquidationOf(cs[i].user, cs[i].data) in Planned(cs)
    ensures (forall i, j :: 0 <= i < j < |cs| ==> cs[i].user != cs[j].user) ==>
              forall i, j :: 0 <= i < j < |Planned(cs)| ==> Planned(cs)[i].user != Planned(cs)[j].user
  {
    if cs != [] {
      var init := Planned(cs[..|cs| - 1]);
      PlannedExactly(cs[..|cs| - 1]);
      forall k | 0 <= k < |init|
        ensures exists i :: 0 <= i < |cs| - 1 && init[k].user == cs[i].user
      {
        assert init[k] in init;
      }
    }
  }

  lemma AfterCallsAppend(s: Core, cfg: Config, calls: seq<Liquidation>, c: Liquidation, answers: nat -> Answers)
    ensures AfterCalls(s, cfg, calls + [c], answers)
            == AfterCall(AfterCalls(s, cfg, calls, answers), cfg, c, answers(|calls|))
  {
    assert (calls + [c])[..|calls|] == calls;
  }

  method ExecuteOne(executor: Executor, pos: UserPosition, a: Answers) returns (call: Liquidation)
    requires executor.Valid() && Actionable(pos.Data()) && Writable(pos.debts[0].borrowBalance / 2)
    modifies executor
    ensures executor.Valid()
    ensures call == LiquidationOf(pos.userAddress, pos.Data())
    ensures executor.State() == AfterCall(old(executor.State()), executor.cfg, call, a)
  {
    var debt := pos.debts[0];
    var collateral := pos.collaterals[0];
    // Half of the principal, the close factor.
    var halfDebt := debt.borrowBalance / 2;
    var liqTx, sent := executor.Execute(collateral.assetAddress, debt.assetAddress, pos.userAddress, halfDebt, a);
    call := Liquidation(collateral.assetAddress, debt.assetAddress, pos.userAddress, halfDebt);
  }

  /** The loop over the candidates. `cancelled(k)` says whether the context is found cancelled before candidate k;
      `looked` counts the candidates looked at. A failing execution does not stop it. */
  method ExecuteAll(executor: Executor, candidates: seq<UserPosition>, ghost seen: seq<Candidate>,
                    cancelled: nat -> bool, answers: nat -> Answers)
    returns (calls: seq<Liquidation>, looked: nat)
    requires executor.Valid() && seen == Seen(candidates)
    requires SeenWritable(seen)
    modifies executor
    ensures executor.Valid()
    ensures looked <= |candidates| && calls == Planned(seen[..looked])
    ensures forall k :: 0 <= k < looked ==> !cancelled(k)
    ensures looked < |candidates| ==> cancelled(looked)
    ensures executor.State() == AfterCalls(old(executor.State()), executor.cfg, calls, answers)
  {
    calls, looked := [], 0;
    ghost var before := executor.State();
    while looked < |candidates|
      invariant looked <= |candidates| && calls == Planned(seen[..looked])
      invariant forall k :: 0 <= k < looked ==> !cancelled(k)
      invariant executor.Valid()
      invariant executor.State() == AfterCalls(before, executor.cfg, calls, answers)
    {
      if cancelled(looked) {
        return;
      }
      var pos := candidates[looked];
      assert seen[..looked + 1] == seen[..looked] + [seen[looked]];
      PlannedAppend(seen[..looked], seen[looked]);
      if |pos.debts| != 0 && |pos.collaterals| != 0 {
        var call := ExecuteOne(executor, pos, answers(|calls|));
        AfterCallsAppend(before, executor.cfg, calls, call, answers);
        calls := calls + [call];
      }
      looked := looked + 1;
    }
  }

  /** c is the call owed to its user's position. */
  predicate IsTargetCall(v: Positions, reading: Reading, c: Liquidation) {
    c.user in v && Target(v[c.user], reading(c.user)) && c == LiquidationOf(c.user, v[c.user])
  }

  /** The candidates are exactly the positions whose refreshed factor is below one, each once. */
  ghost predicate Listed(v: Positions, reading: Reading, cs: seq<Candidate>) {
    && (forall i :: 0 <= i < |cs| ==>
          cs[i].user in v && cs[i].data == Refreshed(v[cs[i].user], reading(cs[i].user)) && Liquidatable(cs[i].data))
    && (forall i, j :: 0 <= i < j < |cs| ==> cs[i].user != cs[j].user)
    && (forall u :: u in v && Liquidatable(Refreshed(v[u], reading(u))) ==>
          Candidate(u, Refreshed(v[u], reading(u))) in cs)
  }

  /** Only targets are called for, no user twice. */
  ghost predicate OnlyTargets(v: Positions, reading: Reading, calls: seq<Liquidation>) {
    && (forall c :: c in calls ==> IsTargetCall(v, reading, c))
    && (forall i, j :: 0 <= i < j < |calls| ==> calls[i].user != calls[j].user)
  }

  /** Every target is called for. */
  ghost predicate AllTargets(v: Positions, reading: Reading, calls: seq<Liquidation>) {
    forall c :: IsTargetCall(v, reading, c) ==> c in calls
  }

  lemma PlannedOnlyTargets(v: Positions, reading: Reading, cs: seq<Candidate>, looked: nat)
    requires Listed(v, reading, cs) && looked <= |cs|
    ensures OnlyTargets(v, reading, Planned(cs[..looked]))
  {
    var prefix := cs[..looked];
    PlannedExactly(prefix);
    forall c | c in Planned(prefix)
      ensures IsTargetCall(v, reading, c)
    {
      var i :| 0 <= i < |prefix| && Actionable(prefix[i].data) && c == LiquidationOf(prefix[i].user, prefix[i].data);
      assert prefix[i] == cs[i];
    }
    assert forall i, j :: 0 <= i < j < looked ==> prefix[i].user != prefix[j].user;
  }

  lemma PlannedAllTargets(v: Positions, reading: Reading, cs: seq<Candidate>)
    requires Listed(v, reading, cs)
    ensures AllTargets(v, reading, Planned(cs))
  {
    PlannedExactly(cs);
    forall c | IsTargetCall(v, reading, c)
      ensures c in Planned(cs)
    {
      var wanted := Candidate(c.user, Refreshed(v[c.user], reading(c.user)));
      assert wanted in cs;
      var i :| 0 <= i < |cs| && cs[i] == wanted;
    }
  }

  lemma PlannedAreTargets(v: Positions, reading: Reading, cs: seq<Candidate>, looked: nat)
    requires Listed(v, reading, cs) && looked <= |cs|
    ensures OnlyTargets(v, reading, Planned(cs[..looked]))
    ensures looked == |cs| ==> AllTargets(v, reading, Planned(cs[..looked]))
  {
    PlannedOnlyTargets(v, reading, cs, looked);
    if looked == |cs| {
      PlannedAllTargets(v, reading, cs);
      assert cs[..looked] == cs;
    }
  }

  /** The first half of a scan: refresh every position, then list what is below one RAY. */
  method RefreshAndFind(scanner: Scanner, reading: Reading) returns (candidates: seq<UserPosition>)
    requires scanner.Valid()
    modifies scanner.queue, scanner.positions.Values
    ensures scanner.Valid() && scanner.View() == RefreshedView(old(scanner.View()), reading)
    ensures Listed(old(scanner.View()), reading, Seen(candidates))
  {
    ghost var before := scanner.View();
    scanner.RefreshAll(reading);
    ghost var after := scanner.View();
    candidates := scanner.FindLiquidatable();
    ghost var seen := Seen(candidates);
    forall i | 0 <= i < |candidates|
      ensures seen[i].user in before && Liquidatable(seen[i].data)
      ensures seen[i].data == Refreshed(before[seen[i].user], reading(seen[i].user))
    {
      assert candidates[i] in candidates;
      assert after[seen[i].user] == seen[i].data;
    }
    forall u | u in before && Liquidatable(Refreshed(before[u], reading(u)))
      ensures Candidate(u, Refreshed(before[u], reading(u))) in seen
    {
      assert after[u] == scanner.positions[u].Data();
      var i :| 0 <= i < |candidates| && candidates[i] == scanner.positions[u];
      assert seen[i] == Candidate(u, Refreshed(before[u], reading(u)));
    }
  }

  lemma ListedAreWritable(v: Positions, reading: Reading, cs: seq<Candidate>)
    requires Listed(v, reading, cs) && AllWritable(v)
    ensures SeenWritable(cs)
  {
  }

  /** The second half: Execute for every actionable candidate. */
  method ExecuteTargets(executor: Executor, candidates: seq<UserPosition>, ghost v: Positions, reading: Reading,
                        cancelled: nat -> bool, answers: nat -> Answers)
    returns (calls: seq<Liquidation>)
    requires executor.Valid() && AllWritable(v) && Listed(v, reading, Seen(candidates))
    modifies executor
    ensures executor.Valid()
    ensures OnlyTargets(v, reading, calls)
    ensures (forall k :: !cancelled(k)) ==> AllTargets(v, reading, calls)
    ensures cancelled(0) ==> calls == []
    ensures executor.State() == AfterCalls(old(executor.State()), executor.cfg, calls, answers)
  {
    ghost var seen := Seen(candidates);
    ListedAreWritable(v, reading, seen);
    var looked;
    calls, looked := ExecuteAll(executor, candidates, seen, cancelled, answers);
    PlannedAreTargets(v, reading, seen, looked);
  }

  /** A scanner is what its own objects hold. */
  twostate lemma Untouched(scanner: Scanner)
    requires old(scanner.Valid())
    requires unchanged(scanner, scanner.queue)
    requires unchanged(old(scanner.queue.items), old(scanner.positions.Values))
    ensures scanner.Valid() && scanner.View() == old(scanner.View())
  {
  }

  /** A scan in which every position is refreshed at indices of its own, as when events arrive meanwhile. */
  method ScanAt(reading: Reading, scanner: Scanner, executor: Executor, cancelled: nat -> bool, answers: nat -> Answers)
    returns (calls: seq<Liquidation>)
    requires scanner.Valid() && executor.Valid() && AllWritable(scanner.View())
    modifies scanner.queue, scanner.positions.Values, executor
    ensures scanner.Valid() && executor.Valid()
    ensures scanner.View() == RefreshedView(old(scanner.View()), reading)
    ensures OnlyTargets(old(scanner.View()), reading, calls)
    ensures (forall k :: !cancelled(k)) ==> AllTargets(old(scanner.View()), reading, calls)
    ensures cancelled(0) ==> calls == []
    ensures executor.State() == AfterCalls(old(executor.State()), executor.cfg, calls, answers)
  {
    ghost var before := scanner.View();
    var candidates := RefreshAndFind(scanner, reading);
    label refreshed:
    calls := ExecuteTargets(executor, candidates, before, reading, cancelled, answers);
    Untouched@refreshed(scanner);
  }

  /** Nothing moves the indices while the positions are refreshed. */
  function Snapshot(indices: Indices): Reading {
    (u: Address) => indices
  }

  /** One scan. Whatever the map order and whatever fails, it calls Execute for targets only, each at most once, with
      exactly its arguments; and for all of them, unless it is cancelled. */
  method Scan(rates: RateComputer, scanner: Scanner, executor: Executor, now: int, cancelled: nat -> bool,
              answers: nat -> Answers)
    returns (calls: seq<Liquidation>)
    requires rates.Valid() && scanner.Valid() && executor.Valid() && AllWritable(scanner.View())
    modifies scanner.queue, scanner.positions.Values, executor
    ensures scanner.Valid() && executor.Valid()
    ensures scanner.View() == RefreshedView(old(scanner.View()), Snapshot(old(rates.IndicesAt(now))))
    ensures OnlyTargets(old(scanner.View()), Snapshot(old(rates.IndicesAt(now))), calls)
    ensures (forall k :: !cancelled(k)) ==>
              AllTargets(old(scanner.View()), Snapshot(old(rates.IndicesAt(now))), calls)
    ensures cancelled(0) ==> calls == []
    ensures executor.State() == AfterCalls(old(executor.State()), executor.cfg, calls, answers)
  {
    var indices := rates.IndicesAt(now);
    calls := ScanAt(Snapshot(indices), scanner, executor, cancelled, answers);
  }

  // ---------- What being a target means ----------

  /** With non-negative inputs: exactly the positions that have collateral and whose debt exceeds their weighted
      collateral by more than debt / (2 * RAY). */
  lemma TargetIff(d: PositionData, ix: Indices)
    requires forall i :: 0 <= i < |d.collaterals| ==> NonNegativeCollateral(d.collaterals[i])
    requires forall i :: 0 <= i < |d.debts| ==> NonNegativeDebt(d.debts[i])
    requires NonNegativeIndices(ix)
    ensures var w, t := WeightedCollateral(d.collaterals, ix), TotalDebt(d.debts, ix);
            && (Target(d, ix) <==> d.collaterals != [] && t < 2 * RAY * (t - w))
            && (Target(d, ix) ==> 0 <= w < t)
            && (t < 2 * RAY ==> (Target(d, ix) <==> d.collaterals != [] && w < t))
  {
    var w, t := WeightedCollateral(d.collaterals, ix), TotalDebt(d.debts, ix);
    CollateralMono(d.collaterals, d.collaterals, ix, ix);
    DebtMono(d.debts, d.debts, ix, ix);
    if t > 0 {
      BelowOneRayIff(w, t);
      LiquidatableMeansUnderwater(w, t);
    }
  }

  /** Debt without any collateral has factor zero, the most dangerous there is, and is never acted on. */
  lemma BareDebtIsSkipped(d: PositionData, ix: Indices)
    requires d.collaterals == [] && TotalDebt(d.debts, ix) > 0
    ensures HealthFactor(d.collaterals, d.debts, ix) == 0 && !Target(d, ix)
  {
    ZeroOverDebt(TotalDebt(d.debts, ix));
  }

  lemma ZeroOverDebt(t: int)
    requires t > 0
    ensures RayDiv(0, t) == 0
  {
    RoundedDivIsNearest(0, t, 0);
  }

  // ---------- What a target's transaction asks for ----------

  /** What is sent for a target asks the pool, in its ABI, for the first debt to be repaid against the first collateral
      of that user, for half of the recorded principal. */
  lemma SentForTarget(user: Address, d: PositionData, s: Core, cfg: Config, a: Answers)
    requires Actionable(d) && 0 <= d.debts[0].borrowBalance < 2 * WORD_LIMIT
    ensures var c := LiquidationOf(user, d);
            && Writable(c.amount)
            && var sent := Executed(s, cfg, c.collateralAsset, c.debtAsset, c.user, c.amount, a).1;
               sent.Some? ==>
                 exists amount ::
                   && DecodeCall(cfg.selector, sent.value.data)
                      == Some(CallArgs(d.collaterals[0].assetAddress, d.debts[0].assetAddress, user, amount, false))
                   && 2 * amount <= d.debts[0].borrowBalance <= 2 * amount + 1
  {
    var c := LiquidationOf(user, d);
    SentAsRequested(s, cfg, c.collateralAsset, c.debtAsset, c.user, c.amount, a);
  }

  /** The close factor of 50% is never exceeded: while the market's borrow index is no lower than at the user's entry,
      twice the requested amount is at most what the user owes now. */
  lemma CloseFactorKept(user: Address, d: PositionData, ix: Indices)
    requires Actionable(d) && 0 <= d.debts[0].borrowBalance
    requires var debt := d.debts[0];
             debt.borrowIndex.Some? && 0 < debt.borrowIndex.value ==>
               debt.borrowIndex.value <= if debt.marketID in ix.borrow then ix.borrow[debt.marketID] else RAY
    ensures var debt := d.debts[0];
            var current := if debt.marketID in ix.borrow then ix.borrow[debt.marketID] else RAY;
            0 <= 2 * LiquidationOf(user, d).amount
            <= AccruedBalance(debt.borrowBalance, debt.borrowIndex, current)
  {
    var debt := d.debts[0];
    if debt.borrowIndex.Some? && 0 < debt.borrowIndex.value {
      AccruedAtLeastPrincipal(debt.borrowBalance, debt.borrowIndex.value, IndexOf(ix.borrow, debt.marketID));
    }
  }
}
