/** Submission and tracking of liquidation transactions (internal/liquidation/executor/executor.go). */
module Executors {
  import opened Options
  import opened Maps
  import opened Addresses
  import opened Detectors
  import opened Calldata

  datatype TxStatus = TxPending | TxConfirmed | TxFailed

  /** What MarkConfirmed and MarkFailed set. */
  type Settled = s: TxStatus | s != TxPending witness TxFailed

  datatype Transaction = Transaction(nonce: U64, to: Address, value: int, gasLimit: U64, gasPrice: int, data: seq<Byte>)

  datatype Config = Config(selector: Selector, lendingPool: Address, maxGasPrice: Option<int>, gasLimit: U64)

  /** What the outside answers during one call of Execute; None or false where the call fails.
      Signing turns a transaction into its signed hash. */
  datatype Answers = Answers(
    gasPrice: Option<int>, pendingNonce: Option<U64>, sign: Transaction -> Option<Hash>, sendOk: bool)

  // ---------- The shared state ----------

  /** What the mutex guards: the nonce counter, once known, and the status of every recorded transaction. */
  datatype Core = Core(nonce: Option<U64>, pending: map<Hash, TxStatus>)

  function Next64(n: U64): U64 {
    (n + 1) % TWO64
  }

  /** nextNonce: the counter if it is known, else the chain's answer. */
  function NonceTaken(s: Core, answer: Option<U64>): (Core, Option<U64>) {
    match s.nonce
    case Some(n) => (s.(nonce := Some(Next64(n))), Some(n))
    case None =>
      if answer.Some? then (s.(nonce := Some(Next64(answer.value))), answer) else (s, None)
  }

  function TxRecorded(s: Core, hash: Hash): Core {
    s.(pending := s.pending[hash := TxPending])
  }

  /** MarkConfirmed and MarkFailed ignore a hash that has not been recorded. */
  function TxMarked(s: Core, hash: Hash, status: TxStatus): Core {
    if hash in s.pending then s.(pending := s.pending[hash := status]) else s
  }

  function PendingSet(pending: map<Hash, TxStatus>): set<Hash> {
    set h | h in pending && pending[h] == TxPending
  }

  function Capped(gasPrice: int, cap: Option<int>): int {
    if cap.Some? && gasPrice > cap.value then cap.value else gasPrice
  }

  /** The transaction that Execute builds for a nonce. */
  function LiquidationCall(cfg: Config, nonce: U64, gasPrice: int, collateral: Address, debt: Address,
                           borrower: Address, amount: int): Transaction
    requires Writable(amount)
  {
    Transaction(nonce, cfg.lendingPool, 0, cfg.gasLimit, Capped(gasPrice, cfg.maxGasPrice),
                Layout(cfg.selector, collateral, debt, borrower, amount, false))
  }

  /** What one whole call of Execute leaves behind, and the transaction it sends. */
  function Executed(s: Core, cfg: Config, collateral: Address, debt: Address, borrower: Address, amount: int,
                    a: Answers)
    : (Core, Option<Transaction>)
    requires Writable(amount)
  {
    if a.gasPrice.None? then (s, None)
    else
      var (taken, n) := NonceTaken(s, a.pendingNonce);
      if n.None? then (taken, None)
      else
        var tx := LiquidationCall(cfg, n.value, a.gasPrice.value, collateral, debt, borrower, amount);
        if a.sign(tx).None? || !a.sendOk then (taken, None)
        else (TxRecorded(taken, a.sign(tx).value), Some(tx))
  }

  class LiquidationTx {
    const txHash: Hash
    const borrower: Address
    const debtAsset: Address
    const collateralAsset: Address
    const debtAmount: int
    const gasPrice: int
    var status: TxStatus
    var gasUsed: U64
    var profit: Option<int>

    constructor (txHash: Hash, borrower: Address, debtAsset: Address, collateralAsset: Address, debtAmount: int,
                 gasPrice: int)
      ensures this.txHash == txHash && this.borrower == borrower && this.debtAsset == debtAsset
      ensures this.collateralAsset == collateralAsset && this.debtAmount == debtAmount && this.gasPrice == gasPrice
      ensures status == TxPending
    {
      this.txHash, this.borrower, this.debtAsset := txHash, borrower, debtAsset;
      this.collateralAsset, this.debtAmount, this.gasPrice := collateralAsset, debtAmount, gasPrice;
      status, gasUsed, profit := TxPending, 0, None;
    }
  }

  class Executor {
    const cfg: Config
    var nonce: U64
    var nonceSet: bool
    var pending: map<Hash, LiquidationTx>

    constructor (cfg: Config)
      ensures this.cfg == cfg && Valid() && State() == Core(None, map[])
    {
      this.cfg := cfg;
      nonce, nonceSet, pending := 0, false, map[];
    }

    ghost predicate Valid()
      reads this
    {
      forall h :: h in pending ==> pending[h].txHash == h
    }

    function State(): Core
      reads this, pending.Values
    {
      Core(if nonceSet then Some(nonce) else None, map h | h in pending :: pending[h].status)
    }

    method NextNonce(answer: Option<U64>) returns (n: Option<U64>)
      requires Valid()
      modifies this
      ensures Valid() && pending == old(pending)
      ensures (State(), n) == NonceTaken(old(State()), answer)
    {
      if nonceSet {
        n := Some(nonce);
        nonce := Next64(nonce);
        SameMap(State().pending, old(State()).pending);
        return;
      }
      if answer.None? {
        return None;
      }
      nonce := Next64(answer.value);
      nonceSet := true;
      n := answer;
      SameMap(State().pending, old(State()).pending);
    }

    /** Submits a liquidation. On success the transaction sent is reported and recorded as pending under its hash.
        A failure after the nonce has been taken does not give it back. */
    method Execute(collateralAsset: Address, debtAsset: Address, borrower: Address, debtAmount: int, a: Answers)
      returns (liqTx: LiquidationTx?, sent: Option<Transaction>)
      requires Valid() && Writable(debtAmount)
      modifies this
      ensures Valid()
      ensures (State(), sent) == Executed(old(State()), cfg, collateralAsset, debtAsset, borrower, debtAmount, a)
      ensures liqTx == null <==> sent == None
      ensures sent.Some? ==>
                && fresh(liqTx) && liqTx.txHash in pending && pending[liqTx.txHash] == liqTx
                && a.sign(sent.value) == Some(liqTx.txHash)
                && liqTx.status == TxPending && liqTx.borrower == borrower && liqTx.debtAsset == debtAsset
                && liqTx.collateralAsset == collateralAsset && liqTx.debtAmount == debtAmount
                && liqTx.gasPrice == sent.value.gasPrice
    {
      var calldata := BuildLiquidationCalldata(cfg.selector, collateralAsset, debtAsset, borrower, debtAmount, false);
      liqTx, sent := null, None;
      if a.gasPrice.None? {
        return;
      }
      var gasPrice := a.gasPrice.value;
      if cfg.maxGasPrice.Some? && gasPrice > cfg.maxGasPrice.value {
        gasPrice := cfg.maxGasPrice.value;
      }
      var n := NextNonce(a.pendingNonce);
      if n.None? {
        return;
      }
      var tx := Transaction(n.value, cfg.lendingPool, 0, cfg.gasLimit, gasPrice, calldata[..]);
      var signed := a.sign(tx);
      if signed.None? {
        return;
      }
      if !a.sendOk {
        return;
      }
      liqTx := new LiquidationTx(signed.value, borrower, debtAsset, collateralAsset, debtAmount, gasPrice);
      sent := Some(tx);
      ghost var before := State();
      pending := pending[signed.value := liqTx];
      SameMap(State().pending, TxRecorded(before, signed.value).pending);
    }

    method MarkConfirmed(txHash: Hash, gasUsed: U64, profit: int)
      requires Valid()
      modifies pending.Values
      ensures Valid() && pending == old(pending)
      ensures State() == TxMarked(old(State()), txHash, TxConfirmed)
      ensures txHash in pending ==>
                var tx := pending[txHash];
                tx.status == TxConfirmed && tx.gasUsed == gasUsed && tx.profit == Some(profit)
      ensures forall h :: h in pending && h != txHash ==>
                var tx := pending[h];
                tx.gasUsed == old(tx.gasUsed) && tx.profit == old(tx.profit)
    {
      if txHash in pending {
        var tx := pending[txHash];
        tx.status := TxConfirmed;
        tx.gasUsed := gasUsed;
        tx.profit := Some(profit);
      }
      SameMap(State().pending, TxMarked(old(State()), txHash, TxConfirmed).pending);
    }

    method MarkFailed(txHash: Hash)
      requires Valid()
      modifies pending.Values
      ensures Valid() && pending == old(pending)
      ensures State() == TxMarked(old(State()), txHash, TxFailed)
      ensures txHash in pending ==> pending[txHash].status == TxFailed
      ensures forall h :: h in pending ==>
                var tx := pending[h];
                tx.gasUsed == old(tx.gasUsed) && tx.profit == old(tx.profit)
    {
      if txHash in pending {
        var tx := pending[txHash];
        tx.status := TxFailed;
      }
      SameMap(State().pending, TxMarked(old(State()), txHash, TxFailed).pending);
    }

    method PendingCount() returns (count: nat)
      requires Valid()
      ensures count == |PendingSet(State().pending)|
    {
      count := 0;
      var rest := pending.Keys;
      ghost var counted: set<Hash> := {};
      while rest != {}
        invariant rest <= pending.Keys && count == |counted|
        invariant forall h :: h in counted <==> h in pending && h !in rest && pending[h].status == TxPending
        decreases rest
      {
        var h := NextKey(rest);
        rest := rest - {h};
        if pending[h].status == TxPending {
          count := count + 1;
          counted := counted + {h};
        }
      }
      SameSet(counted, PendingSet(State().pending));
    }
  }

  /** Whatever is sent asks the pool for exactly the liquidation that was requested, at the nonce just taken, with the
      configured gas limit and at the lower of the suggested gas price and the cap; something is sent when every call
      succeeds, and nothing otherwise. */
  lemma SentAsRequested(s: Core, cfg: Config, collateral: Address, debt: Address, borrower: Address, amount: int,
                        a: Answers)
    requires 0 <= amount < WORD_LIMIT
    ensures Writable(amount)
    ensures var sent := Executed(s, cfg, collateral, debt, borrower, amount, a).1;
            sent.Some? ==>
              && DecodeCall(cfg.selector, sent.value.data) == Some(CallArgs(collateral, debt, borrower, amount, false))
              && Some(sent.value.nonce) == NonceTaken(s, a.pendingNonce).1
              && sent.value.to == cfg.lendingPool && sent.value.value == 0 && sent.value.gasLimit == cfg.gasLimit
              && a.gasPrice.Some? && sent.value.gasPrice <= a.gasPrice.value
              && (cfg.maxGasPrice.Some? ==> sent.value.gasPrice <= cfg.maxGasPrice.value)
              && (sent.value.gasPrice == a.gasPrice.value || Some(sent.value.gasPrice) == cfg.maxGasPrice)
              && a.sendOk && a.sign(sent.value).Some?
    ensures a.gasPrice.Some? && NonceTaken(s, a.pendingNonce).1.Some? && a.sendOk && (forall tx :: a.sign(tx).Some?) ==>
              Executed(s, cfg, collateral, debt, borrower, amount, a).1.Some?
  {
    BytesFitIff(amount, 32);
    CalldataRoundTrip(cfg.selector, collateral, debt, borrower, amount, false);
  }

  /** Marking settles exactly that hash, if it is recorded, with the status given, and records nothing. */
  lemma MarkingSettles(s: Core, hash: Hash, status: TxStatus)
    ensures var s' := TxMarked(s, hash, status);
            && s'.nonce == s.nonce && s'.pending.Keys == s.pending.Keys
            && forall h :: h in s.pending ==> s'.pending[h] == if h == hash then status else s.pending[h]
  {
    SameSet(TxMarked(s, hash, status).pending.Keys, s.pending.Keys);
  }

  // ---------- Any interleaving of calls ----------

  /** How far one call of Execute has come; and whether its transaction has been marked before it was recorded (early)
      and since (late). */
  datatype Call =
    | Quoted
    | Numbered(nonce: U64)
    | Signed(nonce: U64, hash: Hash)
    | Sent(nonce: U64, hash: Hash, early: bool)
    | Recorded(nonce: U64, hash: Hash, early: bool, late: bool)
    | Abandoned(taken: Option<U64>)
  {
    /** The nonce the call has taken, if any. */
    function Taken(): Option<U64> {
      match this
      case Quoted => None
      case Numbered(n) => Some(n)
      case Signed(n, _) => Some(n)
      case Sent(n, _, _) => Some(n)
      case Recorded(n, _, _, _) => Some(n)
      case Abandoned(n) => n
    }

    /** The hash of the transaction it has signed, if any. */
    function HashOf(): Option<Hash> {
      match this
      case Signed(_, h) => Some(h)
      case Sent(_, h, _) => Some(h)
      case Recorded(_, h, _, _) => Some(h)
      case _ => None
    }

    /** Its transaction is out. */
    predicate Submitted() {
      Sent? || Recorded?
    }

    /** Its transaction has been marked since it was sent. */
    predicate Marked() {
      (Sent? && early) || (Recorded? && (early || late))
    }
  }

  /** The system: what the mutex guards, every call ever begun, and which call took which nonce, in order. */
  datatype System = System(core: Core, calls: map<int, Call>, takers: seq<int>)

  datatype Event =
    | Begin(id: int, quoted: bool)
    | TakeNonce(id: int, answer: Option<U64>)
    | Sign(id: int, signed: Option<Hash>)
    | Send(id: int, ok: bool)
    | Record(id: int)
    | Mark(hash: Hash, status: Settled)

  function WithCall(s: System, id: int, c: Call): System {
    s.(calls := s.calls[id := c])
  }

  function MarkedCall(c: Call, hash: Hash): Call {
    match c
    case Sent(n, h, early) => Sent(n, h, early || h == hash)
    case Recorded(n, h, early, late) => Recorded(n, h, early, late || h == hash)
    case _ => c
  }

  function MarkedCalls(calls: map<int, Call>, hash: Hash): map<int, Call> {
    map id | id in calls :: MarkedCall(calls[id], hash)
  }

  /** One step of one call, or one mark. An event that does not fit the call's progress does nothing. */
  function Next(s: System, e: Event): System {
    match e
    case Begin(id, quoted) =>
      if id in s.calls then s else WithCall(s, id, if quoted then Quoted else Abandoned(None))
    case TakeNonce(id, answer) =>
      if id !in s.calls || !s.calls[id].Quoted? then s
      else
        var (core, n) := NonceTaken(s.core, answer);
        if n.None? then WithCall(s, id, Abandoned(None))
        else System(core, s.calls[id := Numbered(n.value)], s.takers + [id])
    case Sign(id, signed) =>
      if id !in s.calls || !s.calls[id].Numbered? then s
      else
        WithCall(s, id, if signed.Some? then Signed(s.calls[id].nonce, signed.value)
                        else Abandoned(Some(s.calls[id].nonce)))
    case Send(id, ok) =>
      if id !in s.calls || !s.calls[id].Signed? then s
      else
        WithCall(s, id, if ok then Sent(s.calls[id].nonce, s.calls[id].hash, false)
                        else Abandoned(Some(s.calls[id].nonce)))
    case Record(id) =>
      if id !in s.calls || !s.calls[id].Sent? then s
      else
        WithCall(s.(core := TxRecorded(s.core, s.calls[id].hash)), id,
                 Recorded(s.calls[id].nonce, s.calls[id].hash, s.calls[id].early, false))
    case Mark(hash, status) =>
      s.(core := TxMarked(s.core, hash, status), calls := MarkedCalls(s.calls, hash))
  }

  function AfterEvents(s: System, events: seq<Event>): System {
    if events == [] then s else Next(AfterEvents(s, events[..|events| - 1]), events[|events| - 1])
  }

  /** Before any call. */
  const START: System := System(Core(None, map[]), map[], [])

  // ---------- Nonces ----------

  function NonceAt(first: U64, k: nat): U64 {
    (first + k) % TWO64
  }

  /** The calls that took nonces took first, first + 1, first + 2, ... in that order, each call one, and the counter
      stands at the next. */
  ghost predicate NoncesInOrder(s: System, first: U64) {
    && (s.core.nonce.None? ==> s.takers == [])
    && (s.core.nonce.Some? ==> s.takers != [] && s.core.nonce.value == NonceAt(first, |s.takers|))
    && (forall k :: 0 <= k < |s.takers| ==>
          s.takers[k] in s.calls && s.calls[s.takers[k]].Taken() == Some(NonceAt(first, k)))
    && (forall j, k :: 0 <= j < k < |s.takers| ==> s.takers[j] != s.takers[k])
    && (forall id :: id in s.calls && s.calls[id].Taken().Some? ==> id in s.takers)
  }

  /** A call keeps its nonce through every step but the one in which it takes it. */
  lemma NextKeepsTaken(s: System, e: Event, id: int)
    requires id in s.calls && !(e.TakeNonce? && e.id == id && s.calls[id].Quoted?)
    ensures id in Next(s, e).calls && Next(s, e).calls[id].Taken() == s.calls[id].Taken()
  {
  }

  lemma NextNonceFollows(first: U64, k: nat)
    ensures Next64(NonceAt(first, k)) == NonceAt(first, k + 1)
  {
  }

  lemma NextKeepsOrder(s: System, e: Event, first: U64)
    requires NoncesInOrder(s, first)
    requires e.TakeNonce? && s.core.nonce.None? && e.answer.Some? ==> e.answer.value == first
    ensures NoncesInOrder(Next(s, e), first)
  {
    var s' := Next(s, e);
    forall id | id in s.calls && !(e.TakeNonce? && e.id == id && s.calls[id].Quoted?)
      ensures id in s'.calls && s'.calls[id].Taken() == s.calls[id].Taken()
    {
      NextKeepsTaken(s, e, id);
    }
    if s'.takers != s.takers {
      TakingKeepsOrder(s, e.id, e.answer, first);
    }
  }

  lemma TakingKeepsOrder(s: System, id: int, answer: Option<U64>, first: U64)
    requires NoncesInOrder(s, first)
    requires id in s.calls && s.calls[id].Quoted?
    requires s.core.nonce.None? ==> answer == Some(first)
    ensures NoncesInOrder(Next(s, TakeNonce(id, answer)), first)
  {
    NextNonceFollows(first, |s.takers|);
    assert id !in s.takers;
  }

  /** Over every interleaving, with any failures, the nonces handed out run first, first + 1, ... without a gap. */
  lemma {:induction false} NoncesEver(events: seq<Event>) returns (first: U64)
    ensures NoncesInOrder(AfterEvents(START, events), first)
  {
    if events == [] {
      first := 0;
    } else {
      var s, e := AfterEvents(START, events[..|events| - 1]), events[|events| - 1];
      first := NoncesEver(events[..|events| - 1]);
      if e.TakeNonce? && s.core.nonce.None? && e.answer.Some? {
        first := e.answer.value;
      }
      NextKeepsOrder(s, e, first);
    }
  }

  lemma NoncesDiffer(first: U64, j: nat, k: nat)
    requires j < k < TWO64
    ensures NonceAt(first, j) != NonceAt(first, k)
  {
  }

  ghost predicate Quiescent(s: System) {
    forall id :: id in s.calls ==> s.calls[id].Recorded? || s.calls[id].Abandoned?
  }

  predicate UsedBy(s: System, id: int, nonce: U64) {
    id in s.calls && s.calls[id].Recorded? && s.calls[id].nonce == nonce
  }

  ghost predicate Used(s: System, nonce: U64) {
    exists id :: UsedBy(s, id, nonce)
  }

  /** Once every call has finished, a nonce handed out went unused exactly when the call that took it failed after
      taking it. (Up to 2^64 calls; then the counter comes round.) */
  lemma UnusedNoncesAreFailedCalls(s: System, first: U64, k: nat)
    requires NoncesInOrder(s, first) && Quiescent(s) && k < |s.takers| <= TWO64
    ensures !Used(s, NonceAt(first, k)) <==> s.calls[s.takers[k]].Abandoned?
  {
    var n, taker := NonceAt(first, k), s.takers[k];
    assert taker in s.calls && s.calls[taker].Taken() == Some(n);
    if s.calls[taker].Abandoned? {
      forall id | id in s.calls && s.calls[id].Recorded?
        ensures s.calls[id].nonce != n
      {
        assert s.calls[id].Taken() == Some(s.calls[id].nonce);
        var j :| 0 <= j < |s.takers| && s.takers[j] == id;
        if j < k { NoncesDiffer(first, j, k); } else { NoncesDiffer(first, k, j); }
      }
      assert forall id :: !UsedBy(s, id, n);
    } else {
      assert s.calls[taker].Recorded?;
      assert UsedBy(s, taker, n);
    }
  }

  // ---------- Pending transactions ----------

  /** Signing: the signed hash stands for one transaction, so the nonce can be read back from it. */
  ghost predicate SignedFor(s: System, e: Event, nonceOf: Hash -> U64) {
    e.Sign? && e.signed.Some? && e.id in s.calls && s.calls[e.id].Numbered? ==>
      nonceOf(e.signed.value) == s.calls[e.id].nonce
  }

  ghost predicate SignedRun(events: seq<Event>, nonceOf: Hash -> U64) {
    events != [] ==>
      var init := events[..|events| - 1];
      SignedRun(init, nonceOf) && SignedFor(AfterEvents(START, init), events[|events| - 1], nonceOf)
  }

  /** Every signed hash names the nonce that its call has taken. */
  ghost predicate HashesName(calls: map<int, Call>, nonceOf: Hash -> U64) {
    forall id :: id in calls && calls[id].HashOf().Some? ==>
                   calls[id].Taken() == Some(nonceOf(calls[id].HashOf().value))
  }

  ghost predicate DistinctHashes(calls: map<int, Call>) {
    forall i, j :: i in calls && j in calls && i != j && calls[i].HashOf().Some? ==>
      calls[i].HashOf() != calls[j].HashOf()
  }

  /** As nonces differ, so do hashes. */
  lemma NoncesMakeHashesDistinct(s: System, first: U64, nonceOf: Hash -> U64)
    requires NoncesInOrder(s, first) && HashesName(s.calls, nonceOf) && |s.takers| <= TWO64
    ensures DistinctHashes(s.calls)
  {
    forall i, j | i in s.calls && j in s.calls && i != j && s.calls[i].HashOf().Some?
      ensures s.calls[i].HashOf() != s.calls[j].HashOf()
    {
      if s.calls[i].HashOf() == s.calls[j].HashOf() {
        TakersDiffer(s, first, i, j);
        assert false;
      }
    }
  }

  lemma TakersDiffer(s: System, first: U64, i: int, j: int)
    requires NoncesInOrder(s, first) && |s.takers| <= TWO64
    requires i in s.calls && j in s.calls && i != j && s.calls[i].Taken().Some?
    ensures s.calls[i].Taken() != s.calls[j].Taken()
  {
    if s.calls[j].Taken().Some? {
      var k :| 0 <= k < |s.takers| && s.takers[k] == i;
      var l :| 0 <= l < |s.takers| && s.takers[l] == j;
      if k < l { NoncesDiffer(first, k, l); } else { NoncesDiffer(first, l, k); }
    }
  }

  /** Whose transaction it is. */
  ghost predicate IsRecorded(calls: map<int, Call>, h: Hash) {
    exists id :: id in calls && calls[id].Recorded? && calls[id].hash == h
  }

  /** The status agrees with the marks since the record. */
  predicate Agrees(c: Call, pending: map<Hash, TxStatus>) {
    c.Recorded? ==> c.hash in pending && (pending[c.hash] == TxPending <==> !c.late)
  }

  /** The recorded calls and the pending map say the same, hash by hash. */
  ghost predicate Matched(s: System) {
    && (forall h :: h in s.core.pending ==> IsRecorded(s.calls, h))
    && (forall id :: id in s.calls ==> Agrees(s.calls[id], s.core.pending))
  }

  lemma MarkKeepsMatched(s: System, hash: Hash, status: Settled)
    requires Matched(s)
    ensures Matched(Next(s, Mark(hash, status)))
  {
    var calls', core' := MarkedCalls(s.calls, hash), TxMarked(s.core, hash, status);
    forall h | h in core'.pending
      ensures IsRecorded(calls', h)
    {
      assert IsRecorded(s.calls, h);
      var id :| id in s.calls && s.calls[id].Recorded? && s.calls[id].hash == h;
      assert calls'[id] == MarkedCall(s.calls[id], hash);
    }
    forall id | id in calls'
      ensures Agrees(calls'[id], core'.pending)
    {
      assert Agrees(s.calls[id], s.core.pending);
    }
  }

  lemma RecordKeepsMatched(s: System, id: int)
    requires Matched(s) && DistinctHashes(s.calls) && id in s.calls && s.calls[id].Sent?
    ensures Matched(Next(s, Record(id)))
  {
    var s' := Next(s, Record(id));
    var hash := s.calls[id].hash;
    forall h | h in s'.core.pending
      ensures IsRecorded(s'.calls, h)
    {
      if h == hash {
        assert s'.calls[id].Recorded? && s'.calls[id].hash == h;
      } else {
        assert IsRecorded(s.calls, h);
        var i :| i in s.calls && s.calls[i].Recorded? && s.calls[i].hash == h;
        assert s'.calls[i] == s.calls[i];
      }
    }
    forall i | i in s'.calls
      ensures Agrees(s'.calls[i], s'.core.pending)
    {
      if i != id {
        assert s.calls[id].HashOf() == Some(hash) && Agrees(s.calls[i], s.core.pending);
      }
    }
  }

  /** A call that is not recorded, before or after, changes nothing that is matched. */
  lemma UnrecordedKeepsMatched(s: System, id: int, c: Call, core: Core, takers: seq<int>)
    requires Matched(s) && !c.Recorded? && (id in s.calls ==> !s.calls[id].Recorded?)
    requires core.pending == s.core.pending
    ensures Matched(System(core, s.calls[id := c], takers))
  {
    var calls := s.calls[id := c];
    forall h | h in s.core.pending
      ensures IsRecorded(calls, h)
    {
      assert IsRecorded(s.calls, h);
      var i :| i in s.calls && s.calls[i].Recorded? && s.calls[i].hash == h;
      assert calls[i] == s.calls[i];
    }
  }

  lemma NextKeepsHashesNamed(s: System, e: Event, nonceOf: Hash -> U64)
    requires HashesName(s.calls, nonceOf) && SignedFor(s, e, nonceOf)
    ensures HashesName(Next(s, e).calls, nonceOf)
  {
    forall id | id in Next(s, e).calls && Next(s, e).calls[id].HashOf().Some?
      ensures Next(s, e).calls[id].Taken() == Some(nonceOf(Next(s, e).calls[id].HashOf().value))
    {
      if id in s.calls {
        assert s.calls[id].HashOf().Some? ==> s.calls[id].Taken() == Some(nonceOf(s.calls[id].HashOf().value));
      }
    }
  }

  /** What holds of the system at any time: nonces in order, hashes that name them, pending map and calls matched. */
  ghost predicate Sound(s: System, first: U64, nonceOf: Hash -> U64) {
    NoncesInOrder(s, first) && HashesName(s.calls, nonceOf) && Matched(s)
  }

  /** Any step of any call, or any mark, keeps that. */
  lemma NextKeepsMatched(s: System, e: Event, first: U64, nonceOf: Hash -> U64)
    requires Sound(s, first, nonceOf) && SignedFor(s, e, nonceOf) && |s.takers| <= TWO64
    requires e.TakeNonce? && s.core.nonce.None? && e.answer.Some? ==> e.answer.value == first
    ensures Sound(Next(s, e), first, nonceOf)
  {
    NextKeepsOrder(s, e, first);
    NextKeepsHashesNamed(s, e, nonceOf);
    NoncesMakeHashesDistinct(s, first, nonceOf);
    StepKeepsMatched(s, e);
  }

  lemma StepKeepsMatched(s: System, e: Event)
    requires Matched(s) && DistinctHashes(s.calls)
    ensures Matched(Next(s, e))
  {
    var s' := Next(s, e);
    match e {
      case Mark(hash, status) => MarkKeepsMatched(s, hash, status);
      case Record(id) =>
        if id in s.calls && s.calls[id].Sent? { RecordKeepsMatched(s, id); }
      case _ =>
        if s' != s { UnrecordedKeepsMatched(s, e.id, s'.calls[e.id], s'.core, s'.takers); }
    }
  }

  lemma TakersGrow(s: System, e: Event)
    ensures |s.takers| <= |Next(s, e).takers|
  {
  }

  /** They hold after every interleaving, as long as the 64 bits of a nonce do not run out. */
  lemma {:induction false} MatchedEver(events: seq<Event>, nonceOf: Hash -> U64) returns (first: U64)
    requires SignedRun(events, nonceOf) && |AfterEvents(START, events).takers| <= TWO64
    ensures Sound(AfterEvents(START, events), first, nonceOf)
  {
    if events == [] {
      first := 0;
    } else {
      var s, e := AfterEvents(START, events[..|events| - 1]), events[|events| - 1];
      TakersGrow(s, e);
      first := MatchedEver(events[..|events| - 1], nonceOf);
      if e.TakeNonce? && s.core.nonce.None? && e.answer.Some? {
        first := e.answer.value;
      }
      NextKeepsMatched(s, e, first, nonceOf);
    }
  }

  // ---------- Submitted and not yet marked ----------

  /** Calls whose transaction is out and has not been marked since. */
  function Awaiting(s: System): set<int> {
    set id | id in s.calls && s.calls[id].Submitted() && !s.calls[id].Marked()
  }

  /** Those among them that are not recorded yet: the pending map does not count them so far. */
  function InFlight(s: System): set<int> {
    set id | id in s.calls && s.calls[id].Sent? && !s.calls[id].early
  }

  /** Recorded calls whose only marks came before the record: the pending map still counts them. */
  function MarkLost(s: System): set<int> {
    set id | id in s.calls && s.calls[id].Recorded? && s.calls[id].early && !s.calls[id].late
  }

  /** Calls recorded and not marked since. */
  function Unmarked(s: System): set<int> {
    set id | id in s.calls && s.calls[id].Recorded? && !s.calls[id].late
  }

  ghost predicate IsAwaiting(s: System, h: Hash) {
    exists id :: id in Awaiting(s) && s.calls[id].HashOf() == Some(h)
  }

  /** The pending transactions are the submitted and unmarked ones. */
  ghost predicate PendingIsAwaiting(s: System) {
    forall h :: h in PendingSet(s.core.pending) <==> IsAwaiting(s, h)
  }

  lemma PendingIffUnmarked(s: System, h: Hash)
    requires Matched(s)
    ensures h in PendingSet(s.core.pending) <==> exists id :: id in Unmarked(s) && s.calls[id].hash == h
  {
    if h in PendingSet(s.core.pending) {
      assert IsRecorded(s.calls, h);
      var id :| id in s.calls && s.calls[id].Recorded? && s.calls[id].hash == h;
      assert Agrees(s.calls[id], s.core.pending);
      assert id in Unmarked(s);
    }
    if id :| id in Unmarked(s) && s.calls[id].hash == h {
      assert Agrees(s.calls[id], s.core.pending);
    }
  }

  lemma OneCallPerHash(s: System, i: int, j: int)
    requires DistinctHashes(s.calls) && i in s.calls && j in s.calls
    requires s.calls[i].HashOf().Some? && s.calls[i].HashOf() == s.calls[j].HashOf()
    ensures i == j
  {
  }

  lemma InFlightIsNotPending(s: System, id: int)
    requires Matched(s) && DistinctHashes(s.calls) && id in InFlight(s)
    ensures !PendingIsAwaiting(s)
  {
    var h := s.calls[id].hash;
    PendingIffUnmarked(s, h);
    assert id in Awaiting(s) && s.calls[id].HashOf() == Some(h);
    assert IsAwaiting(s, h);
    if i :| i in Unmarked(s) && s.calls[i].hash == h {
      OneCallPerHash(s, i, id);
      assert false;
    }
  }

  lemma LostIsStillPending(s: System, id: int)
    requires Matched(s) && DistinctHashes(s.calls) && id in MarkLost(s)
    ensures !PendingIsAwaiting(s)
  {
    var h := s.calls[id].hash;
    PendingIffUnmarked(s, h);
    assert id in Unmarked(s);
    forall i | i in Awaiting(s)
      ensures s.calls[i].HashOf() != Some(h)
    {
      assert i != id;
    }
    assert !IsAwaiting(s, h);
  }

  /** The pending transactions are the submitted and unmarked ones if and only if none of those is still to be recorded
      and no mark has come before its record. */
  lemma PendingIsAwaitingIff(s: System)
    requires Matched(s) && DistinctHashes(s.calls)
    ensures PendingIsAwaiting(s) <==> InFlight(s) == {} && MarkLost(s) == {}
  {
    if InFlight(s) != {} {
      var id := Any(InFlight(s));
      InFlightIsNotPending(s, id);
    } else if MarkLost(s) != {} {
      var id := Any(MarkLost(s));
      LostIsStillPending(s, id);
    } else {
      forall h ensures h in PendingSet(s.core.pending) <==> IsAwaiting(s, h) {
        PendingIffUnmarked(s, h);
        if id :| id in Unmarked(s) && s.calls[id].hash == h {
          assert id !in MarkLost(s) && id in Awaiting(s);
        }
        if id :| id in Awaiting(s) && s.calls[id].HashOf() == Some(h) {
          assert id !in InFlight(s) && id in Unmarked(s);
        }
      }
    }
  }

  lemma {:induction false} OneToOne(ids: set<int>, hashes: set<Hash>, f: map<int, Hash>)
    requires forall id :: id in ids ==> id in f && f[id] in hashes
    requires forall i, j :: i in ids && j in ids && i != j ==> f[i] != f[j]
    requires forall h :: h in hashes ==> exists id :: id in ids && f[id] == h
    ensures |ids| == |hashes|
  {
    if ids == {} {
      NoElements(hashes);
    } else {
      var id := Any(ids);
      var rest, others := ids - {id}, hashes - {f[id]};
      forall h | h in others
        ensures exists i :: i in rest && f[i] == h
      {
        var i :| i in ids && f[i] == h;
        assert i in rest;
      }
      OneToOne(rest, others, f);
    }
  }

  lemma MatchedCounts(s: System)
    requires Matched(s) && DistinctHashes(s.calls)
    ensures |PendingSet(s.core.pending)| == |Unmarked(s)|
  {
    var f := map id | id in Unmarked(s) :: s.calls[id].hash;
    forall h | h in PendingSet(s.core.pending)
      ensures exists id :: id in Unmarked(s) && f[id] == h
    {
      PendingIffUnmarked(s, h);
      var id :| id in Unmarked(s) && s.calls[id].hash == h;
      assert f[id] == h;
    }
    forall id | id in Unmarked(s)
      ensures f[id] in PendingSet(s.core.pending)
    {
      PendingIffUnmarked(s, f[id]);
    }
    forall i, j | i in Unmarked(s) && j in Unmarked(s) && i != j
      ensures f[i] != f[j]
    {
      if f[i] == f[j] {
        OneCallPerHash(s, i, j);
        assert false;
      }
    }
    OneToOne(Unmarked(s), PendingSet(s.core.pending), f);
  }

  lemma DisjointUnion<T>(whole: set<T>, a: set<T>, b: set<T>)
    requires forall x :: x in whole <==> x in a || x in b
    requires forall x :: !(x in a && x in b)
    ensures |whole| == |a| + |b|
  {
    SameSet(whole, a + b);
    NoElements(a * b);
  }

  lemma AwaitingCases(c: Call)
    ensures c.Submitted() && !c.Marked() <==> (c.Recorded? && !c.early && !c.late) || (c.Sent? && !c.early)
  {
  }

  /** The balance: what is pending and what is in flight are what is awaited and what was marked too early. */
  lemma PendingBalance(s: System)
    requires Matched(s) && DistinctHashes(s.calls)
    ensures |PendingSet(s.core.pending)| + |InFlight(s)| == |Awaiting(s)| + |MarkLost(s)|
  {
    var both := set id | id in s.calls && s.calls[id].Recorded? && !s.calls[id].early && !s.calls[id].late;
    MatchedCounts(s);
    DisjointUnion(Unmarked(s), both, MarkLost(s));
    forall id ensures id in Awaiting(s) <==> id in both || id in InFlight(s) {
      if id in s.calls { AwaitingCases(s.calls[id]); }
    }
    DisjointUnion(Awaiting(s), both, InFlight(s));
  }

  /** Over every interleaving, whatever fails: pending transactions and those in flight balance submitted and unmarked
      ones and lost marks; and the pending ones are exactly the submitted and unmarked ones if and only if nothing is in
      flight and no mark has been lost. */
  lemma PendingIsConserved(events: seq<Event>, nonceOf: Hash -> U64)
    requires SignedRun(events, nonceOf) && |AfterEvents(START, events).takers| <= TWO64
    ensures var s := AfterEvents(START, events);
            && |PendingSet(s.core.pending)| + |InFlight(s)| == |Awaiting(s)| + |MarkLost(s)|
            && (PendingIsAwaiting(s) <==> InFlight(s) == {} && MarkLost(s) == {})
  {
    var s := AfterEvents(START, events);
    var first := MatchedEver(events, nonceOf);
    NoncesMakeHashesDistinct(s, first, nonceOf);
    PendingBalance(s);
    PendingIsAwaitingIff(s);
  }

  // ---------- Marks that come too early ----------

  /** Some event marks the transaction. */
  predicate MarkedIn(events: seq<Event>, hash: Hash) {
    events != [] &&
    var n := |events| - 1;
    (events[n].Mark? && events[n].hash == hash) || MarkedIn(events[..n], hash)
  }

  /** A recorded call stays recorded, and its late flag tells whether it has been marked since. */
  lemma {:induction false} RecordedSince(s: System, id: int, events: seq<Event>)
    requires id in s.calls && s.calls[id].Recorded? && !s.calls[id].late
    ensures var calls := AfterEvents(s, events).calls;
            && id in calls && calls[id].Recorded?
            && calls[id] == s.calls[id].(late := MarkedIn(events, s.calls[id].hash))
  {
    if events != [] {
      RecordedSince(s, id, events[..|events| - 1]);
    }
  }

  lemma {:induction false} AfterEventsConcat(s: System, first: seq<Event>, rest: seq<Event>)
    ensures AfterEvents(s, first + rest) == AfterEvents(AfterEvents(s, first), rest)
  {
    if rest == [] {
      assert first + rest == first;
    } else {
      var whole, n := first + rest, |rest| - 1;
      AfterEventsConcat(s, first, rest[..n]);
      assert whole[..|whole| - 1] == first + rest[..n] && whole[|whole| - 1] == rest[n];
    }
  }

  /** From its record on a transaction is pending exactly until the next mark, whether or not it was marked before: a
      mark between sending and recording is lost for as long as it is not repeated. */
  lemma EarlyMarkIsLost(before: seq<Event>, id: int, since: seq<Event>, nonceOf: Hash -> U64)
    requires var s := AfterEvents(START, before); id in s.calls && s.calls[id].Sent?
    requires var events := before + [Record(id)] + since;
             SignedRun(events, nonceOf) && |AfterEvents(START, events).takers| <= TWO64
    ensures var hash := AfterEvents(START, before).calls[id].hash;
            hash in PendingSet(AfterEvents(START, before + [Record(id)] + since).core.pending)
            <==> !MarkedIn(since, hash)
  {
    var recorded, events := before + [Record(id)], before + [Record(id)] + since;
    var s, t := AfterEvents(START, before), AfterEvents(START, events);
    assert AfterEvents(START, recorded) == Next(s, Record(id)) by {
      assert recorded[..|recorded| - 1] == before;
    }
    AfterEventsConcat(START, recorded, since);
    RecordedSince(Next(s, Record(id)), id, since);
    var first := MatchedEver(events, nonceOf);
    assert Agrees(t.calls[id], t.core.pending);
  }

  /** A run in which the confirmation overtakes the record: the transaction is pending and will not be confirmed. */
  lemma EarlyMarkWitness()
    ensures var h := Hash(7);
            var call := [Begin(1, true), TakeNonce(1, Some(3)), Sign(1, Some(h)), Send(1, true)];
            var before := call + [Mark(h, TxConfirmed)];
            var s := AfterEvents(START, before + [Record(1)]);
            h in PendingSet(s.core.pending) && MarkLost(s) == {1} && Awaiting(s) == {} && InFlight(s) == {}
  {
    var h := Hash(7);
    var s0 := Next(Next(START, Begin(1, true)), TakeNonce(1, Some(3)));
    var s1 := Next(Next(s0, Sign(1, Some(h))), Send(1, true));
    var s2 := Next(s1, Mark(h, TxConfirmed));
    var before := [Begin(1, true), TakeNonce(1, Some(3)), Sign(1, Some(h)), Send(1, true), Mark(h, TxConfirmed)];
    assert [Begin(1, true), TakeNonce(1, Some(3)), Sign(1, Some(h)), Send(1, true)] + [Mark(h, TxConfirmed)] == before;
    FiveEvents(START, Begin(1, true), TakeNonce(1, Some(3)), Sign(1, Some(h)), Send(1, true), Mark(h, TxConfirmed));
    assert (before + [Record(1)])[..5] == before;
    assert s1.calls == map[1 := Sent(3, h, false)];
    assert s2.calls == map[1 := Sent(3, h, true)];
    var s := Next(s2, Record(1));
    assert s.calls == map[1 := Recorded(3, h, true, false)];
    SameSet(MarkLost(s), {1});
    NoElements(Awaiting(s));
    NoElements(InFlight(s));
  }

  // ---------- The code is a run of the protocol ----------

  /** The steps of one undisturbed call. */
  function CallEvents(id: int, gasPriceOk: bool, answer: Option<U64>, signed: Option<Hash>, sendOk: bool): seq<Event> {
    [Begin(id, gasPriceOk), TakeNonce(id, answer), Sign(id, signed), Send(id, sendOk), Record(id)]
  }

  lemma FiveEvents(s: System, e1: Event, e2: Event, e3: Event, e4: Event, e5: Event)
    ensures AfterEvents(s, [e1, e2, e3, e4, e5]) == Next(Next(Next(Next(Next(s, e1), e2), e3), e4), e5)
  {
    assert [e1, e2, e3, e4, e5][..4] == [e1, e2, e3, e4] && [e1, e2, e3, e4][..3] == [e1, e2, e3];
    assert [e1, e2, e3][..2] == [e1, e2] && [e1, e2][..1] == [e1] && [e1][..0] == [];
    assert AfterEvents(s, [e1]) == Next(s, e1);
    assert AfterEvents(s, [e1, e2]) == Next(AfterEvents(s, [e1]), e2);
    assert AfterEvents(s, [e1, e2, e3]) == Next(AfterEvents(s, [e1, e2]), e3);
  }

  /** Execute, run by itself, is one such sequence of steps. */
  lemma ExecuteIsSteps(s: System, id: int, cfg: Config, collateral: Address, debt: Address, borrower: Address,
                       amount: int, a: Answers)
    requires id !in s.calls && Writable(amount)
    ensures var n := NonceTaken(s.core, a.pendingNonce).1;
            var signed := if a.gasPrice.Some? && n.Some? then
                            a.sign(LiquidationCall(cfg, n.value, a.gasPrice.value, collateral, debt, borrower, amount))
                          else None;
            AfterEvents(s, CallEvents(id, a.gasPrice.Some?, a.pendingNonce, signed, a.sendOk)).core
            == Executed(s.core, cfg, collateral, debt, borrower, amount, a).0
  {
    var n := NonceTaken(s.core, a.pendingNonce).1;
    var signed := if a.gasPrice.Some? && n.Some? then
                    a.sign(LiquidationCall(cfg, n.value, a.gasPrice.value, collateral, debt, borrower, amount))
                  else None;
    FiveEvents(s, Begin(id, a.gasPrice.Some?), TakeNonce(id, a.pendingNonce), Sign(id, signed), Send(id, a.sendOk),
               Record(id));
  }
}
