/** One scan after another (internal/liquidation/service.go, Run): nothing asks whether a user's last transaction is
    still pending. */
module LiquidationRounds {
  import opened Options
  import opened Addresses
  import opened Detectors
  import opened Scanners
  import opened Calldata
  import opened Executors
  import opened LiquidationServices

  // ---------- What a sequence of calls submits ----------

  /** The hash of the transaction that a call submits, if it gets so far. */
  function SentHash(s: Core, cfg: Config, c: Liquidation, a: Answers): Option<Hash> {
    if !Writable(c.amount) then None
    else
      var sent := Executed(s, cfg, c.collateralAsset, c.debtAsset, c.user, c.amount, a).1;
      if sent.Some? then a.sign(sent.value) else None
  }

  /** The same for each of the calls. */
  function SentHashes(s: Core, cfg: Config, calls: seq<Liquidation>, answers: nat -> Answers)
    : (hashes: seq<Option<Hash>>)
    ensures |hashes| == |calls|
  {
    if calls == [] then []
    else
      var n := |calls| - 1;
      SentHashes(s, cfg, calls[..n], answers)
      + [SentHash(AfterCalls(s, cfg, calls[..n], answers), cfg, calls[n], answers(n))]
  }

  lemma CallPending(s: Core, cfg: Config, c: Liquidation, a: Answers, h: Hash)
    ensures h in PendingSet(AfterCall(s, cfg, c, a).pending)
            <==> h in PendingSet(s.pending) || SentHash(s, cfg, c, a) == Some(h)
  {
  }

  /** After the calls exactly those transactions are pending that were before or have been submitted. */
  lemma {:induction false} CallsPending(s: Core, cfg: Config, calls: seq<Liquidation>, answers: nat -> Answers, h: Hash)
    ensures h in PendingSet(AfterCalls(s, cfg, calls, answers).pending)
            <==> h in PendingSet(s.pending) || Some(h) in SentHashes(s, cfg, calls, answers)
  {
    if calls != [] {
      var n := |calls| - 1;
      CallsPending(s, cfg, calls[..n], answers, h);
      CallPending(AfterCalls(s, cfg, calls[..n], answers), cfg, calls[n], answers(n), h);
    }
  }

  // ---------- Marks between scans ----------

  datatype TxMark = TxMark(hash: Hash, status: Settled)

  function MarkAll(s: Core, marks: seq<TxMark>): Core {
    if marks == [] then s
    else TxMarked(MarkAll(s, marks[..|marks| - 1]), marks[|marks| - 1].hash, marks[|marks| - 1].status)
  }

  predicate IsMarked(marks: seq<TxMark>, h: Hash) {
    exists i :: 0 <= i < |marks| && marks[i].hash == h
  }

  lemma {:induction false} MarksPending(s: Core, marks: seq<TxMark>, h: Hash)
    ensures h in PendingSet(MarkAll(s, marks).pending) <==> h in PendingSet(s.pending) && !IsMarked(marks, h)
    ensures MarkAll(s, marks).nonce == s.nonce
  {
    if marks != [] {
      var init, last := marks[..|marks| - 1], marks[|marks| - 1];
      MarksPending(s, init, h);
      assert IsMarked(marks, h) <==> IsMarked(init, h) || last.hash == h by {
        if IsMarked(init, h) {
          var i :| 0 <= i < |init| && init[i].hash == h;
          assert marks[i].hash == h;
        }
        if last.hash == h { assert marks[|marks| - 1].hash == h; }
      }
    }
  }

  method MarkEach(executor: Executor, marks: seq<TxMark>)
    requires executor.Valid()
    modifies executor.pending.Values
    ensures executor.Valid() && executor.pending == old(executor.pending)
    ensures executor.State() == MarkAll(old(executor.State()), marks)
  {
    ghost var before := executor.State();
    assert marks[..0] == [] && marks[..|marks|] == marks;
    for i := 0 to |marks|
      invariant executor.Valid() && executor.pending == old(executor.pending)
      invariant executor.State() == MarkAll(before, marks[..i])
    {
      assert marks[..i + 1][..i] == marks[..i];
      if marks[i].status == TxConfirmed {
        executor.MarkConfirmed(marks[i].hash, 0, 0);
      } else {
        executor.MarkFailed(marks[i].hash);
      }
    }
  }

  // ---------- Distinct hashes ----------

  /** A signed hash names the nonce it was signed with. */
  ghost predicate Names(answers: nat -> Answers, nonceOf: Hash -> U64) {
    forall k, tx :: answers(k).sign(tx).Some? ==> nonceOf(answers(k).sign(tx).value) == tx.nonce
  }

  predicate TakesNonce(s: Core, c: Liquidation, a: Answers) {
    Writable(c.amount) && a.gasPrice.Some? && NonceTaken(s, a.pendingNonce).1.Some?
  }

  /** How many of the calls take a nonce. */
  function Taken(s: Core, cfg: Config, calls: seq<Liquidation>, answers: nat -> Answers): (n: nat)
    ensures n <= |calls|
  {
    if calls == [] then 0
    else
      var n := |calls| - 1;
      Taken(s, cfg, calls[..n], answers)
      + if TakesNonce(AfterCalls(s, cfg, calls[..n], answers), calls[n], answers(n)) then 1 else 0
  }

  /** The counter, once known, stands `taken` beyond the first nonce. */
  predicate Counts(s: Core, first: U64, taken: nat) {
    if s.nonce.None? then taken == 0 else s.nonce.value == NonceAt(first, taken)
  }

  lemma OneNonce(s: Core, cfg: Config, c: Liquidation, a: Answers, first: U64, taken: nat)
    requires Counts(s, first, taken)
    requires s.nonce.None? && a.pendingNonce.Some? ==> a.pendingNonce.value == first
    ensures Counts(AfterCall(s, cfg, c, a), first, taken + if TakesNonce(s, c, a) then 1 else 0)
    ensures SentHash(s, cfg, c, a).Some? ==>
              TakesNonce(s, c, a) && NonceTaken(s, a.pendingNonce).1 == Some(NonceAt(first, taken))
  {
    NextNonceFollows(first, taken);
  }

  lemma NamedNonce(s: Core, cfg: Config, c: Liquidation, a: Answers, nonceOf: Hash -> U64)
    requires forall tx :: a.sign(tx).Some? ==> nonceOf(a.sign(tx).value) == tx.nonce
    requires SentHash(s, cfg, c, a).Some?
    ensures Some(nonceOf(SentHash(s, cfg, c, a).value)) == NonceTaken(s, a.pendingNonce).1
  {
  }

  /** Every hash names the nonce whose turn it was. */
  ghost predicate InTurn(s: Core, cfg: Config, calls: seq<Liquidation>, answers: nat -> Answers, nonceOf: Hash -> U64,
                         first: U64, taken: nat)
  {
    calls != [] ==>
      var n := |calls| - 1;
      var init, before := calls[..n], AfterCalls(s, cfg, calls[..n], answers);
      var hash := SentHash(before, cfg, calls[n], answers(n));
      && InTurn(s, cfg, init, answers, nonceOf, first, taken)
      && (hash.Some? ==>
            && TakesNonce(before, calls[n], answers(n))
            && nonceOf(hash.value) == NonceAt(first, taken + Taken(s, cfg, init, answers)))
  }

  lemma {:induction false} TurnOf(s: Core, cfg: Config, calls: seq<Liquidation>, answers: nat -> Answers,
                                  nonceOf: Hash -> U64, first: U64, taken: nat, k: nat)
    returns (turn: nat)
    requires InTurn(s, cfg, calls, answers, nonceOf, first, taken)
    requires k < |calls| && SentHashes(s, cfg, calls, answers)[k].Some?
    ensures turn < Taken(s, cfg, calls, answers)
    ensures nonceOf(SentHashes(s, cfg, calls, answers)[k].value) == NonceAt(first, taken + turn)
  {
    var n := |calls| - 1;
    if k == n {
      turn := Taken(s, cfg, calls[..n], answers);
    } else {
      turn := TurnOf(s, cfg, calls[..n], answers, nonceOf, first, taken, k);
    }
  }

  /** For as long as the counter is unknown nothing has been submitted, and any first nonce will do. */
  lemma {:induction false} UnknownCounter(s: Core, cfg: Config, calls: seq<Liquidation>, answers: nat -> Answers)
    requires AfterCalls(s, cfg, calls, answers).nonce.None?
    ensures s.nonce.None? && Taken(s, cfg, calls, answers) == 0
    ensures forall k :: 0 <= k < |calls| ==> SentHashes(s, cfg, calls, answers)[k].None?
  {
    if calls != [] {
      UnknownCounter(s, cfg, calls[..|calls| - 1], answers);
    }
  }

  lemma {:induction false} NothingInTurn(s: Core, cfg: Config, calls: seq<Liquidation>, answers: nat -> Answers,
                                         nonceOf: Hash -> U64, first: U64, taken: nat)
    requires AfterCalls(s, cfg, calls, answers).nonce.None?
    ensures InTurn(s, cfg, calls, answers, nonceOf, first, taken)
  {
    if calls != [] {
      NothingInTurn(s, cfg, calls[..|calls| - 1], answers, nonceOf, first, taken);
    }
  }

  lemma OneMoreInTurn(s: Core, cfg: Config, calls: seq<Liquidation>, answers: nat -> Answers, nonceOf: Hash -> U64,
                      first: U64, taken: nat)
    requires calls != [] && Names(answers, nonceOf)
    requires var n := |calls| - 1;
             var mid := AfterCalls(s, cfg, calls[..n], answers);
             && InTurn(s, cfg, calls[..n], answers, nonceOf, first, taken)
             && Counts(mid, first, taken + Taken(s, cfg, calls[..n], answers))
             && (mid.nonce.None? && answers(n).pendingNonce.Some? ==> answers(n).pendingNonce.value == first)
    ensures InTurn(s, cfg, calls, answers, nonceOf, first, taken)
    ensures Counts(AfterCalls(s, cfg, calls, answers), first, taken + Taken(s, cfg, calls, answers))
  {
    var n := |calls| - 1;
    var mid, c, a := AfterCalls(s, cfg, calls[..n], answers), calls[n], answers(n);
    OneNonce(mid, cfg, c, a, first, taken + Taken(s, cfg, calls[..n], answers));
    if SentHash(mid, cfg, c, a).Some? {
      NamedNonce(mid, cfg, c, a, nonceOf);
    }
  }

  lemma {:induction false} CallsInTurn(s: Core, cfg: Config, calls: seq<Liquidation>, answers: nat -> Answers,
                                       nonceOf: Hash -> U64, start: U64, taken: nat)
    returns (first: U64)
    requires Counts(s, start, taken) && Names(answers, nonceOf)
    ensures InTurn(s, cfg, calls, answers, nonceOf, first, taken)
    ensures Counts(AfterCalls(s, cfg, calls, answers), first, taken + Taken(s, cfg, calls, answers))
    ensures s.nonce.Some? ==> first == start
  {
    if calls == [] {
      first := start;
    } else {
      var n := |calls| - 1;
      var init, a := calls[..n], answers(n);
      var mid := AfterCalls(s, cfg, init, answers);
      first := CallsInTurn(s, cfg, init, answers, nonceOf, start, taken);
      if mid.nonce.None? && a.pendingNonce.Some? {
        UnknownCounter(s, cfg, init, answers);
        first := a.pendingNonce.value;
        NothingInTurn(s, cfg, init, answers, nonceOf, first, taken);
      }
      OneMoreInTurn(s, cfg, calls, answers, nonceOf, first, taken);
    }
  }

  // ---------- Two scans ----------

  /** Two scans of the same positions, one after the other, with marks between them, as far as the executor is
      concerned. */
  datatype Rounds = Rounds(start: Core, cfg: Config, calls1: seq<Liquidation>, answers1: nat -> Answers,
                           marks: seq<TxMark>, calls2: seq<Liquidation>, answers2: nat -> Answers)
  {
    function Between(): Core {
      MarkAll(AfterCalls(start, cfg, calls1, answers1), marks)
    }

    function End(): Core {
      AfterCalls(Between(), cfg, calls2, answers2)
    }

    function Hashes1(): seq<Option<Hash>> {
      SentHashes(start, cfg, calls1, answers1)
    }

    function Hashes2(): seq<Option<Hash>> {
      SentHashes(Between(), cfg, calls2, answers2)
    }
  }

  lemma HashTurn(s: Core, cfg: Config, calls: seq<Liquidation>, answers: nat -> Answers, nonceOf: Hash -> U64,
                 start: U64, taken: nat, k: nat)
    returns (first: U64, turn: nat)
    requires Counts(s, start, taken) && Names(answers, nonceOf)
    requires k < |calls| && SentHashes(s, cfg, calls, answers)[k].Some?
    ensures turn < Taken(s, cfg, calls, answers)
    ensures nonceOf(SentHashes(s, cfg, calls, answers)[k].value) == NonceAt(first, taken + turn)
    ensures Counts(AfterCalls(s, cfg, calls, answers), first, taken + Taken(s, cfg, calls, answers))
    ensures s.nonce.Some? ==> first == start
  {
    first := CallsInTurn(s, cfg, calls, answers, nonceOf, start, taken);
    turn := TurnOf(s, cfg, calls, answers, nonceOf, first, taken, k);
  }

  lemma FirstTurn(s: Core, t: Core, cfg: Config, calls: seq<Liquidation>, answers: nat -> Answers, nonceOf: Hash -> U64,
                  k: nat)
    returns (first: U64, turn: nat)
    requires Names(answers, nonceOf) && t.nonce == AfterCalls(s, cfg, calls, answers).nonce
    requires k < |calls| && SentHashes(s, cfg, calls, answers)[k].Some?
    ensures turn < Taken(s, cfg, calls, answers) && t.nonce.Some?
    ensures nonceOf(SentHashes(s, cfg, calls, answers)[k].value) == NonceAt(first, turn)
    ensures Counts(t, first, Taken(s, cfg, calls, answers))
  {
    var start: U64 := if s.nonce.Some? then s.nonce.value else 0;
    assert Counts(s, start, 0);
    first, turn := HashTurn(s, cfg, calls, answers, nonceOf, start, 0, k);
  }

  lemma LaterTurnsDiffer(s: Core, t: Core, cfg: Config, calls1: seq<Liquidation>, answers1: nat -> Answers,
                         calls2: seq<Liquidation>, answers2: nat -> Answers, nonceOf: Hash -> U64, k: nat, l: nat)
    requires Names(answers1, nonceOf) && Names(answers2, nonceOf) && |calls1| + |calls2| <= TWO64
    requires t.nonce == AfterCalls(s, cfg, calls1, answers1).nonce
    requires k < |calls1| && SentHashes(s, cfg, calls1, answers1)[k].Some?
    requires l < |calls2| && SentHashes(t, cfg, calls2, answers2)[l].Some?
    ensures SentHashes(s, cfg, calls1, answers1)[k] != SentHashes(t, cfg, calls2, answers2)[l]
  {
    var h1, h2 := SentHashes(s, cfg, calls1, answers1)[k], SentHashes(t, cfg, calls2, answers2)[l];
    var first, i := FirstTurn(s, t, cfg, calls1, answers1, nonceOf, k);
    var j := SecondTurn(t, cfg, calls2, answers2, nonceOf, first, Taken(s, cfg, calls1, answers1), l);
    TurnsDiffer(h1.value, h2.value, nonceOf, first, i, j);
  }

  lemma SecondTurn(t: Core, cfg: Config, calls: seq<Liquidation>, answers: nat -> Answers, nonceOf: Hash -> U64,
                   first: U64, taken: nat, l: nat)
    returns (turn: nat)
    requires Counts(t, first, taken) && t.nonce.Some? && Names(answers, nonceOf)
    requires l < |calls| && SentHashes(t, cfg, calls, answers)[l].Some?
    ensures taken <= turn < taken + |calls|
    ensures nonceOf(SentHashes(t, cfg, calls, answers)[l].value) == NonceAt(first, turn)
  {
    var second;
    second, turn := HashTurn(t, cfg, calls, answers, nonceOf, first, taken, l);
    turn := taken + turn;
  }

  lemma TurnsDiffer(h1: Hash, h2: Hash, nonceOf: Hash -> U64, first: U64, i: nat, j: nat)
    requires i < j < TWO64 && nonceOf(h1) == NonceAt(first, i) && nonceOf(h2) == NonceAt(first, j)
    ensures h1 != h2
  {
    NoncesDiffer(first, i, j);
  }

  /** No hash of the first scan comes back in the second. */
  lemma HashesDiffer(r: Rounds, nonceOf: Hash -> U64, k: nat, l: nat)
    requires Names(r.answers1, nonceOf) && Names(r.answers2, nonceOf) && |r.calls1| + |r.calls2| <= TWO64
    requires k < |r.calls1| && l < |r.calls2| && r.Hashes1()[k].Some? && r.Hashes2()[l].Some?
    ensures r.Hashes1()[k] != r.Hashes2()[l]
  {
    MarksPending(AfterCalls(r.start, r.cfg, r.calls1, r.answers1), r.marks, r.Hashes1()[k].value);
    LaterTurnsDiffer(r.start, r.Between(), r.cfg, r.calls1, r.answers1, r.calls2, r.answers2, nonceOf, k, l);
  }

  /** The user has a pending transaction from either scan. */
  ghost predicate TwicePending(r: Rounds, u: Address) {
    exists k, l :: 0 <= k < |r.calls1| && 0 <= l < |r.calls2| && r.calls1[k].user == r.calls2[l].user == u
                   && StillPending(r, r.Hashes1()[k]) && StillPending(r, r.Hashes2()[l])
  }

  predicate StillPending(r: Rounds, h: Option<Hash>) {
    h.Some? && h.value in PendingSet(r.End().pending)
  }

  /** Both calls went out, and the first was not marked in between. */
  predicate Doubled(r: Rounds, k: nat, l: nat)
    requires k < |r.calls1| && l < |r.calls2|
  {
    r.Hashes1()[k].Some? && r.Hashes2()[l].Some? && !IsMarked(r.marks, r.Hashes1()[k].value)
  }

  lemma DoubledIff(r: Rounds, nonceOf: Hash -> U64, k: nat, l: nat)
    requires Names(r.answers1, nonceOf) && Names(r.answers2, nonceOf) && |r.calls1| + |r.calls2| <= TWO64
    requires k < |r.calls1| && l < |r.calls2|
    ensures StillPending(r, r.Hashes1()[k]) && StillPending(r, r.Hashes2()[l]) <==> Doubled(r, k, l)
  {
    if r.Hashes1()[k].Some? && r.Hashes2()[l].Some? {
      var h1, h2 := r.Hashes1()[k].value, r.Hashes2()[l].value;
      var middle := AfterCalls(r.start, r.cfg, r.calls1, r.answers1);
      CallsPending(r.start, r.cfg, r.calls1, r.answers1, h1);
      assert Some(h1) in r.Hashes1() && Some(h2) in r.Hashes2();
      MarksPending(middle, r.marks, h1);
      CallsPending(r.Between(), r.cfg, r.calls2, r.answers2, h1);
      CallsPending(r.Between(), r.cfg, r.calls2, r.answers2, h2);
      NotAmong(r, nonceOf, k, h1);
    }
  }

  lemma NotAmong(r: Rounds, nonceOf: Hash -> U64, k: nat, h: Hash)
    requires Names(r.answers1, nonceOf) && Names(r.answers2, nonceOf) && |r.calls1| + |r.calls2| <= TWO64
    requires k < |r.calls1| && r.Hashes1()[k] == Some(h)
    ensures Some(h) !in r.Hashes2()
  {
    forall l | 0 <= l < |r.calls2| && r.Hashes2()[l].Some?
      ensures r.Hashes2()[l] != Some(h)
    {
      HashesDiffer(r, nonceOf, k, l);
    }
  }

  /** Both scans call exactly for the users who are targets at both readings. */
  lemma CalledTwiceIff(v: Positions, first: Reading, second: Reading, calls1: seq<Liquidation>,
                       calls2: seq<Liquidation>, u: Address)
    requires OnlyTargets(v, first, calls1) && AllTargets(v, first, calls1)
    requires OnlyTargets(v, second, calls2) && AllTargets(v, second, calls2)
    ensures (exists k, l :: 0 <= k < |calls1| && 0 <= l < |calls2| && calls1[k].user == calls2[l].user == u)
            <==> u in v && Target(v[u], first(u)) && Target(v[u], second(u))
  {
    if k, l :| 0 <= k < |calls1| && 0 <= l < |calls2| && calls1[k].user == calls2[l].user == u {
      assert calls1[k] in calls1 && calls2[l] in calls2;
    }
    if u in v && Target(v[u], first(u)) && Target(v[u], second(u)) {
      var c := LiquidationOf(u, v[u]);
      assert IsTargetCall(v, first, c) && IsTargetCall(v, second, c);
      var k :| 0 <= k < |calls1| && calls1[k] == c;
      var l :| 0 <= l < |calls2| && calls2[l] == c;
      assert calls1[k].user == calls2[l].user == u;
    }
  }

  /** Refreshing changes nothing that makes a target. */
  lemma RefreshKeepsTargets(v: Positions, first: Reading, second: Reading, calls: seq<Liquidation>)
    ensures OnlyTargets(RefreshedView(v, first), second, calls) <==> OnlyTargets(v, second, calls)
    ensures AllTargets(RefreshedView(v, first), second, calls) <==> AllTargets(v, second, calls)
  {
    forall c ensures IsTargetCall(RefreshedView(v, first), second, c) <==> IsTargetCall(v, second, c) {
    }
  }

  /** Whom two calls of the two scans concern. */
  ghost predicate CalledTwice(r: Rounds, u: Address, k: nat, l: nat) {
    k < |r.calls1| && l < |r.calls2| && r.calls1[k].user == r.calls2[l].user == u
  }

  lemma TwicePendingIff(r: Rounds, nonceOf: Hash -> U64, u: Address)
    requires Names(r.answers1, nonceOf) && Names(r.answers2, nonceOf) && |r.calls1| + |r.calls2| <= TWO64
    ensures TwicePending(r, u) <==> exists k, l :: CalledTwice(r, u, k, l) && Doubled(r, k, l)
  {
    if TwicePending(r, u) {
      var k, l :| 0 <= k < |r.calls1| && 0 <= l < |r.calls2| && r.calls1[k].user == r.calls2[l].user == u
                  && StillPending(r, r.Hashes1()[k]) && StillPending(r, r.Hashes2()[l]);
      DoubledIff(r, nonceOf, k, l);
      assert CalledTwice(r, u, k, l) && Doubled(r, k, l);
    }
    if k: nat, l: nat :| CalledTwice(r, u, k, l) && Doubled(r, k, l) {
      DoubledIff(r, nonceOf, k, l);
    }
  }

  /** Two scans in a row, as ScanAt leaves them, neither cancelled, over positions that do not change. The second calls
      Execute again for every target, whether or not the first one's transaction is still pending: exactly the users who
      are targets at both readings are called for twice, and a user ends up with two pending transactions exactly if
      both calls went out and the first was not marked in between. */
  lemma DoubleLiquidationIff(v: Positions, first: Reading, second: Reading, r: Rounds, nonceOf: Hash -> U64, u: Address)
    requires OnlyTargets(v, first, r.calls1) && AllTargets(v, first, r.calls1)
    requires OnlyTargets(RefreshedView(v, first), second, r.calls2)
    requires AllTargets(RefreshedView(v, first), second, r.calls2)
    requires Names(r.answers1, nonceOf) && Names(r.answers2, nonceOf) && |r.calls1| + |r.calls2| <= TWO64
    ensures (exists k, l :: CalledTwice(r, u, k, l)) <==> u in v && Target(v[u], first(u)) && Target(v[u], second(u))
    ensures TwicePending(r, u) <==> exists k, l :: CalledTwice(r, u, k, l) && Doubled(r, k, l)
  {
    RefreshKeepsTargets(v, first, second, r.calls2);
    CalledTwiceIff(v, first, second, r.calls1, r.calls2, u);
    if k: int, l: int :| 0 <= k < |r.calls1| && 0 <= l < |r.calls2| && r.calls1[k].user == r.calls2[l].user == u {
      assert CalledTwice(r, u, k, l);
    }
    TwicePendingIff(r, nonceOf, u);
  }
}
