/** The indexer as a protocol of single store operations: one goroutine per chain, all over one store
    (internal/indexer/service.go, Run and runChain). */
module ChainSteps {
  import opened Options
  import opened Detectors
  import opened Stores

  /** A log returned by the node: one the parser rejects, or an event at the block number the log carries. */
  datatype RawLog = Unparsed | Parsed(number: U64, data: EventData)

  /** Where a chain's goroutine stands; every place but Idle waits on one call. */
  datatype Place =
    | Idle
    | DeletingEvents(fork: U64)
    | DeletingBlocks(fork: U64)
    | RewindingSync(fork: U64)
    | SavingBlock
    | AdvancingSync
    | FetchingLogs
    | SavingEvents(logs: seq<RawLog>)

  datatype ChainState = ChainState(window: Hashes, maxBlocks: int, header: Header, place: Place)

  /** What the environment decides at a step: the header that arrives, whether the call succeeds, the logs it
      returns. */
  datatype Choice = Choice(header: Header, ok: bool, logs: seq<RawLog>)

  function Adopt(l: ChainState): ChainState {
    l.(window := Recorded(l.window, l.header, l.maxBlocks), place := SavingBlock)
  }

  function RollBack(l: ChainState, fork: U64): ChainState {
    l.(window := Below(l.window, fork))
  }

  /** How a goroutine moves on. A failed call abandons the header. */
  function Progress(l: ChainState, e: Choice): ChainState {
    match l.place
    case Idle =>
      var arrived := l.(header := e.header);
      (match Detect(l.window, e.header)
       case Some(fork) => arrived.(place := DeletingEvents(fork))
       case None => Adopt(arrived))
    case DeletingEvents(fork) => l.(place := if e.ok then DeletingBlocks(fork) else Idle)
    case DeletingBlocks(fork) =>
      if !e.ok then l.(place := Idle)
      else if fork > 0 then l.(place := RewindingSync(fork))
      else Adopt(RollBack(l, fork))
    case RewindingSync(fork) => if e.ok then Adopt(RollBack(l, fork)) else l.(place := Idle)
    case SavingBlock => l.(place := if e.ok then AdvancingSync else Idle)
    case AdvancingSync => l.(place := if e.ok then FetchingLogs else Idle)
    case FetchingLogs => l.(place := if e.ok then SavingEvents(e.logs) else Idle)
    case SavingEvents(logs) => l.(place := if logs == [] then Idle else SavingEvents(logs[1..]))
  }

  /** What the call it waits on does to the store, if it succeeds. */
  function Effect(c: int, l: ChainState, s: StoreState): StoreState {
    match l.place
    case DeletingEvents(fork) => s.(events := Without(s.events, c, fork))
    case DeletingBlocks(fork) => s.(blocks := Without(s.blocks, c, fork))
    case RewindingSync(fork) => s.(syncs := s.syncs[c := Minus64(fork, 1)])
    case SavingBlock => s.(blocks := s.blocks + [Row(c, l.header.number, l.header)])
    case AdvancingSync => s.(syncs := s.syncs[c := l.header.number])
    case SavingEvents(logs) =>
      if logs != [] && logs[0].Parsed? then s.(events := s.events + [Row(c, logs[0].number, logs[0].data)]) else s
    case _ => s
  }

  /** One step of chain c: a failed store operation has no effect. */
  function Step(c: int, l: ChainState, s: StoreState, e: Choice): (ChainState, StoreState) {
    (Progress(l, e), if e.ok then Effect(c, l, s) else s)
  }

  datatype World = World(store: StoreState, chains: map<int, ChainState>)

  datatype Action = Action(chainID: int, choice: Choice)

  function Act(w: World, a: Action): World {
    if a.chainID in w.chains then
      var (l, s) := Step(a.chainID, w.chains[a.chainID], w.store, a.choice);
      World(s, w.chains[a.chainID := l])
    else w
  }

  /** Any interleaving of the chains' steps, stopped anywhere. */
  function Run(w: World, schedule: seq<Action>): World {
    if schedule == [] then w else Act(Run(w, schedule[..|schedule| - 1]), schedule[|schedule| - 1])
  }

  // ---------- Chains do not interfere ----------

  /** What the store holds for one chain. */
  datatype Share = Share(events: seq<EventRow>, blocks: seq<BlockRow>, sync: Option<U64>)

  function ShareOf(s: StoreState, c: int): Share {
    Share(OfChain(s.events, c), OfChain(s.blocks, c), if c in s.syncs then Some(s.syncs[c]) else None)
  }

  lemma DeletingEventsShare(s: StoreState, c: int, from: U64, d: int)
    ensures ShareOf(s.(events := Without(s.events, c, from)), d)
            == if c == d then ShareOf(s, c).(events := Without(ShareOf(s, c).events, c, from)) else ShareOf(s, d)
  {
    OfChainWithout(s.events, d, c, from);
  }

  lemma DeletingBlocksShare(s: StoreState, c: int, from: U64, d: int)
    ensures ShareOf(s.(blocks := Without(s.blocks, c, from)), d)
            == if c == d then ShareOf(s, c).(blocks := Without(ShareOf(s, c).blocks, c, from)) else ShareOf(s, d)
  {
    OfChainWithout(s.blocks, d, c, from);
  }

  lemma SavingEventShare(s: StoreState, r: EventRow, d: int)
    ensures ShareOf(s.(events := s.events + [r]), d)
            == if r.chainID == d then ShareOf(s, d).(events := ShareOf(s, d).events + [r]) else ShareOf(s, d)
  {
    OfChainAppend(s.events, r, d);
  }

  lemma SavingBlockShare(s: StoreState, r: BlockRow, d: int)
    ensures ShareOf(s.(blocks := s.blocks + [r]), d)
            == if r.chainID == d then ShareOf(s, d).(blocks := ShareOf(s, d).blocks + [r]) else ShareOf(s, d)
  {
    OfChainAppend(s.blocks, r, d);
  }

  /** What a store operation of chain c does to its share. */
  function ShareEffect(c: int, l: ChainState, mine: Share): Share {
    match l.place
    case DeletingEvents(fork) => mine.(events := Without(mine.events, c, fork))
    case DeletingBlocks(fork) => mine.(blocks := Without(mine.blocks, c, fork))
    case RewindingSync(fork) => mine.(sync := Some(Minus64(fork, 1)))
    case SavingBlock => mine.(blocks := mine.blocks + [Row(c, l.header.number, l.header)])
    case AdvancingSync => mine.(sync := Some(l.header.number))
    case SavingEvents(logs) =>
      if logs != [] && logs[0].Parsed? then mine.(events := mine.events + [Row(c, logs[0].number, logs[0].data)])
      else mine
    case _ => mine
  }

  /** A store operation changes its own chain's share as a function of that share, and no other. */
  lemma EffectOnShares(c: int, l: ChainState, s: StoreState, d: int)
    ensures ShareOf(Effect(c, l, s), d) == if c == d then ShareEffect(c, l, ShareOf(s, c)) else ShareOf(s, d)
  {
    match l.place {
      case DeletingEvents(fork) => DeletingEventsShare(s, c, fork, d);
      case DeletingBlocks(fork) => DeletingBlocksShare(s, c, fork, d);
      case SavingBlock => SavingBlockShare(s, Row(c, l.header.number, l.header), d);
      case SavingEvents(logs) =>
        if logs != [] && logs[0].Parsed? {
          SavingEventShare(s, Row(c, logs[0].number, logs[0].data), d);
        }
      case _ =>
    }
  }

  /** A store operation of one chain leaves every other chain's share alone. */
  lemma EffectLeavesOthers(c: int, l: ChainState, s: StoreState, d: int)
    requires c != d
    ensures ShareOf(Effect(c, l, s), d) == ShareOf(s, d)
  {
    EffectOnShares(c, l, s, d);
  }

  /** What a store operation does to its own chain's share depends on that share only. */
  lemma EffectIsLocal(c: int, l: ChainState, s: StoreState, t: StoreState)
    requires ShareOf(s, c) == ShareOf(t, c)
    ensures ShareOf(Effect(c, l, s), c) == ShareOf(Effect(c, l, t), c)
  {
    EffectOnShares(c, l, s, c);
    EffectOnShares(c, l, t, c);
  }

  /** The steps of one chain, in their order. */
  function OnlyChain(schedule: seq<Action>, c: int): seq<Action> {
    if schedule == [] then []
    else
      var init, a := OnlyChain(schedule[..|schedule| - 1], c), schedule[|schedule| - 1];
      if a.chainID == c then init + [a] else init
  }

  /** For every interleaving, what a chain ends up with, in its detector and in the store, is what it ends up with
      when it runs alone, even over a store that holds something else for the other chains. */
  lemma {:induction false} ChainsDoNotInterfere(w: World, alone: World, schedule: seq<Action>, c: int)
    requires c in w.chains && c in alone.chains && w.chains[c] == alone.chains[c]
    requires ShareOf(w.store, c) == ShareOf(alone.store, c)
    ensures var together, single := Run(w, schedule), Run(alone, OnlyChain(schedule, c));
            && c in together.chains && c in single.chains
            && together.chains[c] == single.chains[c]
            && ShareOf(together.store, c) == ShareOf(single.store, c)
  {
    if schedule != [] {
      var init, a := schedule[..|schedule| - 1], schedule[|schedule| - 1];
      ChainsDoNotInterfere(w, alone, init, c);
      var before, single := Run(w, init), Run(alone, OnlyChain(init, c));
      if a.chainID == c {
        var mine := OnlyChain(init, c) + [a];
        assert mine[..|mine| - 1] == OnlyChain(init, c);
        EffectIsLocal(c, before.chains[c], before.store, single.store);
      } else if a.chainID in before.chains {
        EffectLeavesOthers(a.chainID, before.chains[a.chainID], before.store, c);
      }
    }
  }

  // ---------- No orphan events ----------

  /** Every stored event lies in a stored block of its chain. */
  ghost predicate NoOrphans(s: StoreState) {
    forall c, n: U64 :: HasRow(s.events, c, n) ==> HasRow(s.blocks, c, n)
  }

  /** What a chain may rely on at each place. */
  ghost predicate InPlace(c: int, l: ChainState, s: StoreState) {
    match l.place
    case DeletingBlocks(fork) => forall n: U64 :: HasRow(s.events, c, n) ==> n < fork
    case AdvancingSync => HasRow(s.blocks, c, l.header.number)
    case FetchingLogs => HasRow(s.blocks, c, l.header.number)
    case SavingEvents(logs) =>
      HasRow(s.blocks, c, l.header.number)
      && forall i :: 0 <= i < |logs| && logs[i].Parsed? ==> logs[i].number == l.header.number
    case _ => true
  }

  ghost predicate Consistent(w: World) {
    NoOrphans(w.store) && forall c :: c in w.chains ==> InPlace(c, w.chains[c], w.store)
  }

  /** The node returns only logs of the block it was asked for. */
  ghost predicate Honoured(w: World, a: Action) {
    a.chainID in w.chains && w.chains[a.chainID].place.FetchingLogs? ==>
      forall i :: 0 <= i < |a.choice.logs| && a.choice.logs[i].Parsed? ==>
        a.choice.logs[i].number == w.chains[a.chainID].header.number
  }

  ghost predicate HonouredRun(w: World, schedule: seq<Action>) {
    forall k :: 0 <= k < |schedule| ==> Honoured(Run(w, schedule[..k]), schedule[k])
  }

  /** How one step changes which rows exist. */
  lemma StepRows(c: int, l: ChainState, s: StoreState, e: Choice, d: int, n: U64)
    ensures var s' := Step(c, l, s, e).1;
            && (HasRow(s'.events, d, n) <==>
                  if l.place.DeletingEvents? && e.ok then HasRow(s.events, d, n) && (d != c || n < l.place.fork)
                  else if l.place.SavingEvents? && e.ok && l.place.logs != [] && l.place.logs[0].Parsed? then
                    HasRow(s.events, d, n) || (d == c && n == l.place.logs[0].number)
                  else HasRow(s.events, d, n))
            && (HasRow(s'.blocks, d, n) <==>
                  if l.place.DeletingBlocks? && e.ok then HasRow(s.blocks, d, n) && (d != c || n < l.place.fork)
                  else if l.place.SavingBlock? && e.ok then HasRow(s.blocks, d, n) || (d == c && n == l.header.number)
                  else HasRow(s.blocks, d, n))
  {
    match l.place {
      case DeletingEvents(fork) => WithoutKeeps(s.events, c, fork, d, n);
      case DeletingBlocks(fork) => WithoutKeeps(s.blocks, c, fork, d, n);
      case SavingBlock => HasRowAppend(s.blocks, Row(c, l.header.number, l.header), d, n);
      case SavingEvents(logs) =>
        if logs != [] && logs[0].Parsed? {
          HasRowAppend(s.events, Row(c, logs[0].number, logs[0].data), d, n);
        }
      case _ =>
    }
  }

  lemma ActKeepsConsistent(w: World, a: Action)
    requires Consistent(w) && Honoured(w, a)
    ensures Consistent(Act(w, a))
  {
    if a.chainID in w.chains {
      var c, l, s := a.chainID, w.chains[a.chainID], w.store;
      var (l', s') := Step(c, l, s, a.choice);
      forall d, n: U64 | HasRow(s'.events, d, n)
        ensures HasRow(s'.blocks, d, n)
      {
        StepRows(c, l, s, a.choice, d, n);
      }
      forall d | d in Act(w, a).chains
        ensures InPlace(d, Act(w, a).chains[d], s')
      {
        assert InPlace(d, w.chains[d], s);
        StepKeepsPlaces(c, l, s, a.choice, d, w.chains[d]);
      }
    }
  }

  /** After a step of chain c, chain d still has what its place relies on. */
  lemma StepKeepsPlaces(c: int, l: ChainState, s: StoreState, e: Choice, d: int, m: ChainState)
    requires InPlace(d, m, s) && InPlace(c, l, s) && (c == d ==> m == l)
    requires l.place.FetchingLogs? ==>
               forall i :: 0 <= i < |e.logs| && e.logs[i].Parsed? ==> e.logs[i].number == l.header.number
    ensures var (l', s') := Step(c, l, s, e); InPlace(d, if c == d then l' else m, s')
  {
    var (l', s') := Step(c, l, s, e);
    var after := if c == d then l' else m;
    StepRows(c, l, s, e, d, after.header.number);
    if after.place.DeletingBlocks? {
      forall n: U64 | HasRow(s'.events, d, n)
        ensures n < after.place.fork
      {
        StepRows(c, l, s, e, d, n);
      }
    }
  }

  /** No interleaving, failure or interruption leaves an event without its block: this holds after every single
      store operation of every run that starts without orphans. */
  lemma NoOrphansEver(w: World, schedule: seq<Action>)
    requires NoOrphans(w.store) && forall c :: c in w.chains ==> w.chains[c].place.Idle?
    requires HonouredRun(w, schedule)
    ensures NoOrphans(Run(w, schedule).store)
  {
    ConsistentEver(w, schedule);
  }

  lemma {:induction false} ConsistentEver(w: World, schedule: seq<Action>)
    requires Consistent(w) && HonouredRun(w, schedule)
    ensures Consistent(Run(w, schedule))
  {
    if schedule != [] {
      var init := schedule[..|schedule| - 1];
      assert forall k :: 0 <= k < |init| ==> init[..k] == schedule[..k];
      ConsistentEver(w, init);
      assert schedule[..|schedule| - 1] == init;
      ActKeepsConsistent(Run(w, init), schedule[|schedule| - 1]);
    }
  }
}
