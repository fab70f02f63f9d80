/** One chain's indexer: the consumer (internal/indexer/consumer/event_consumer.go), and the per-header step and the
    loop (internal/indexer/service.go, runChain). */
module ChainIndexers {
  import opened Options
  import opened Maps
  import opened Detectors
  import opened Listeners
  import opened Stores
  import opened ChainSteps

  datatype LogOutcome = LogOutcome(log: RawLog, saved: bool)

  /** Which of the calls made for one header succeed, and the logs the node returns (None when that call fails). */
  datatype Outcomes = Outcomes(
    deleteEvents: bool, deleteBlocks: bool, rewind: bool,
    saveBlock: bool, advance: bool, logs: Option<seq<LogOutcome>>)

  // ---------- What the consumer's operations mean ----------

  /** Events go first, then blocks, then the sync mark; the first failure stops the rest. */
  function ReorgHandled(s: StoreState, c: int, from: U64, o: Outcomes): (StoreState, bool) {
    if !o.deleteEvents then (s, true)
    else
      var s1 := s.(events := Without(s.events, c, from));
      if !o.deleteBlocks then (s1, true)
      else
        var s2 := s1.(blocks := Without(s1.blocks, c, from));
        if from == 0 then (s2, false)
        else if !o.rewind then (s2, true)
        else (s2.(syncs := s2.syncs[c := from - 1]), false)
  }

  function BlockProcessed(s: StoreState, c: int, h: Header, o: Outcomes): (StoreState, bool) {
    if !o.saveBlock then (s, true)
    else
      var s1 := s.(blocks := s.blocks + [Row(c, h.number, h)]);
      if !o.advance then (s1, true) else (s1.(syncs := s1.syncs[c := h.number]), false)
  }

  /** The rows that the logs of one block leave behind: unparsed logs and failed saves are skipped. */
  function SavedRows(c: int, logs: seq<LogOutcome>): seq<EventRow> {
    if logs == [] then []
    else
      (if logs[0].log.Parsed? && logs[0].saved then [Row(c, logs[0].log.number, logs[0].log.data)] else [])
      + SavedRows(c, logs[1..])
  }

  /** The whole treatment of one header by chain c. */
  function HeaderHandled(c: int, window: Hashes, maxBlocks: int, s: StoreState, h: Header, o: Outcomes)
    : (Hashes, StoreState)
  {
    var fork := Detect(window, h);
    var (s1, failed) := if fork.Some? then ReorgHandled(s, c, fork.value, o) else (s, false);
    if failed then (window, s1)
    else
      var window1 := Recorded(if fork.Some? then Below(window, fork.value) else window, h, maxBlocks);
      var (s2, failed2) := BlockProcessed(s1, c, h, o);
      if failed2 || o.logs.None? then (window1, s2)
      else (window1, s2.(events := s2.events + SavedRows(c, o.logs.value)))
  }

  /** What the detector knows after one header. If a reorganisation could not be handled, exactly what it knew, so that
      the header raises the same alarm when it comes again. Otherwise the header's own hash, if it is there, and of what
      it knew nothing at or above the fork; without overflow it keeps all the rest, and the header is there. */
  lemma WindowAfterHeader(c: int, window: Hashes, maxBlocks: int, s: StoreState, h: Header, o: Outcomes)
    ensures var fork, after := Detect(window, h), HeaderHandled(c, window, maxBlocks, s, h, o).0;
            if fork.Some? && !(o.deleteEvents && o.deleteBlocks && (fork.value == 0 || o.rewind)) then
              after == window
            else
              && (h.number in after ==> after[h.number] == h.hash)
              && (forall n :: n in after && n != h.number ==>
                    n in window && after[n] == window[n] && (fork.Some? ==> n < fork.value))
              && (|window| < maxBlocks ==>
                    && h.number in after
                    && forall n :: n in window && n != h.number && (fork.Some? ==> n < fork.value) ==> n in after)
  {
    var fork := Detect(window, h);
    var kept := if fork.Some? then Below(window, fork.value) else window;
    AtMostAsMany(kept, window);
    AddedSize(kept, h.number, h.hash);
  }

  /** A header with the outcomes of the calls it causes. */
  datatype Delivery = Delivery(header: Header, outcomes: Outcomes)

  function AllHandled(c: int, maxBlocks: int, s: StoreState, ds: seq<Delivery>): (Hashes, StoreState) {
    if ds == [] then (map[], s)
    else
      var (window, s1) := AllHandled(c, maxBlocks, s, ds[..|ds| - 1]);
      HeaderHandled(c, window, maxBlocks, s1, ds[|ds| - 1].header, ds[|ds| - 1].outcomes)
  }

  lemma AllHandledAppend(c: int, maxBlocks: int, s: StoreState, ds: seq<Delivery>, d: Delivery)
    ensures var (window, s1) := AllHandled(c, maxBlocks, s, ds);
            AllHandled(c, maxBlocks, s, ds + [d]) == HeaderHandled(c, window, maxBlocks, s1, d.header, d.outcomes)
  {
    assert (ds + [d])[..|ds|] == ds;
  }

  // ---------- The code ----------

  class EventConsumer {
    const store: EventStore

    constructor (store: EventStore)
      ensures this.store == store
    {
      this.store := store;
    }

    method ProcessEvent(event: EventRow, ok: bool) returns (err: bool)
      modifies store
      ensures err == !ok
      ensures store.State()
              == if ok then old(store.State()).(events := old(store.events) + [event]) else old(store.State())
    {
      err := store.SaveEvent(event, ok);
    }

    method ProcessBlock(chainID: int, h: Header, o: Outcomes) returns (err: bool)
      modifies store
      ensures (store.State(), err) == BlockProcessed(old(store.State()), chainID, h, o)
    {
      err := store.SaveBlock(Row(chainID, h.number, h), o.saveBlock);
      if err {
        return;
      }
      err := store.UpdateSyncStatus(chainID, h.number, o.advance);
    }

    method HandleReorg(chainID: int, fromBlock: U64, o: Outcomes) returns (err: bool)
      modifies store
      ensures (store.State(), err) == ReorgHandled(old(store.State()), chainID, fromBlock, o)
    {
      err := store.DeleteEventsFromBlock(chainID, fromBlock, o.deleteEvents);
      if err {
        return;
      }
      err := store.DeleteBlocksFromBlock(chainID, fromBlock, o.deleteBlocks);
      if err {
        return;
      }
      if fromBlock > 0 {
        err := store.UpdateSyncStatus(chainID, fromBlock - 1, o.rewind);
      }
    }
  }

  /** Stores the events of one block: a log that does not parse and a save that fails are passed over. */
  method SaveLogs(chainID: int, consumer: EventConsumer, logs: seq<LogOutcome>)
    modifies consumer.store
    ensures consumer.store.State()
            == old(consumer.store.State()).(events := old(consumer.store.events) + SavedRows(chainID, logs))
  {
    ghost var before := consumer.store.State();
    for i := 0 to |logs|
      invariant consumer.store.State() == before.(events := consumer.store.events)
      invariant consumer.store.events + SavedRows(chainID, logs[i..]) == before.events + SavedRows(chainID, logs)
    {
      var log := logs[i].log;
      if log.Parsed? {
        var err := consumer.ProcessEvent(Row(chainID, log.number, log.data), logs[i].saved);
      }
    }
    assert logs[|logs|..] == [];
    assert consumer.store.events + [] == consumer.store.events;
  }

  /** The body of runChain's loop. Publishing to Kafka does not touch the state and is left out. */
  method HandleHeader(chainID: int, detector: Detector, consumer: EventConsumer, h: Header, o: Outcomes)
    modifies detector, consumer.store
    ensures (detector.blockHashes, consumer.store.State())
            == HeaderHandled(chainID, old(detector.blockHashes), detector.maxBlocks, old(consumer.store.State()), h, o)
  {
    var fork := detector.DetectReorg(h);
    if fork.Some? {
      var err := consumer.HandleReorg(chainID, fork.value, o);
      if err {
        return;
      }
      detector.Rollback(fork.value);
    }
    detector.RecordBlock(h);
    var err := consumer.ProcessBlock(chainID, h, o);
    if err || o.logs.None? {
      return;
    }
    SaveLogs(chainID, consumer, o.logs.value);
  }

  /** The calls made for the k-th header come out as `outcomes(k)`: a header that comes twice may fare differently. */
  function Delivered(hs: seq<Header>, outcomes: nat -> Outcomes): (ds: seq<Delivery>)
    ensures |ds| == |hs|
  {
    seq(|hs|, i requires 0 <= i < |hs| => Delivery(hs[i], outcomes(i)))
  }

  lemma DeliveredEach(hs: seq<Header>, outcomes: nat -> Outcomes, i: nat)
    requires i < |hs|
    ensures Delivered(hs, outcomes)[i] == Delivery(hs[i], outcomes(i))
  {
  }

  lemma DeliveredAppend(hs: seq<Header>, h: Header, outcomes: nat -> Outcomes)
    ensures Delivered(hs + [h], outcomes) == Delivered(hs, outcomes) + [Delivery(h, outcomes(|hs|))]
  {
  }

  /** The loop over the header channel. */
  method HandleHeaders(chainID: int, detector: Detector, consumer: EventConsumer, headers: seq<Header>,
                       outcomes: nat -> Outcomes)
    requires detector.blockHashes == map[]
    modifies detector, consumer.store
    ensures (detector.blockHashes, consumer.store.State())
            == AllHandled(chainID, detector.maxBlocks, old(consumer.store.State()), Delivered(headers, outcomes))
  {
    ghost var before := consumer.store.State();
    for i := 0 to |headers|
      invariant (detector.blockHashes, consumer.store.State())
                == AllHandled(chainID, detector.maxBlocks, before, Delivered(headers[..i], outcomes))
    {
      var o := outcomes(i);
      HandleHeader(chainID, detector, consumer, headers[i], o);
      DeliveredAppend(headers[..i], headers[i], outcomes);
      AllHandledAppend(chainID, detector.maxBlocks, before, Delivered(headers[..i], outcomes), Delivery(headers[i], o));
      assert headers[..i] + [headers[i]] == headers[..i + 1];
    }
    assert headers[..|headers|] == headers;
  }

  /** The stream of a run that starts at a given number, and whether it is whole. */
  ghost predicate RunsFrom(sub: Subscription, ticks: seq<Tick>, startBlock: U64, s: Stream) {
    && Streamed(sub, ticks, startBlock, s)
    && (Contiguous(s.All(), startBlock) <==> Continues(sub, ticks, startBlock))
  }

  /** A run goes on from the number after the stored mark, and from block 1 when the mark cannot be read; past the last
      number of all it would wrap. */
  method RunChain(chainID: int, maxBlocks: int, consumer: EventConsumer, syncRead: bool, sub: Subscription,
                  ticks: seq<Tick>, outcomes: nat -> Outcomes)
    returns (s: Stream, window: Hashes)
    requires SubscriptionHonours(sub) && NodeHonours(ticks)
    modifies consumer.store
    ensures var mark := if syncRead then SyncOf(old(consumer.store.State()), chainID) else 0;
            RunsFrom(sub, ticks, if mark == TWO64 - 1 then 0 else mark + 1, s)
    ensures (window, consumer.store.State())
            == AllHandled(chainID, maxBlocks, old(consumer.store.State()), Delivered(s.All(), outcomes))
  {
    var lastBlock := consumer.store.GetSyncStatus(chainID, syncRead);
    var startBlock := ToU64(lastBlock as int + 1);
    ghost var mark := if syncRead then SyncOf(old(consumer.store.State()), chainID) else 0;
    assert startBlock == if mark == TWO64 - 1 then 0 else mark + 1;
    s := Subscribe(startBlock, sub, ticks);
    StreamContiguousIff(sub, ticks, startBlock, s);
    assert RunsFrom(sub, ticks, startBlock, s);
    var detector := new Detector(maxBlocks);
    HandleHeaders(chainID, detector, consumer, s.All(), outcomes);
    window := detector.blockHashes;
  }
}
