/** What a run of the chain indexer leaves in the store. */
module ChainTheorems {
  import opened Options
  import opened Maps
  import opened Detectors
  import opened Stores
  import opened ChainIndexers

  // ---------- Neighbours are linked, whatever fails ----------

  /** Stored blocks of the run (from `start` on) at successive numbers name each other as child and parent. */
  ghost predicate Linked(c: int, blocks: seq<BlockRow>, start: U64) {
    forall r1, r2 :: r1 in blocks && r2 in blocks && r1.chainID == c && r2.chainID == c
                     && start <= r1.number && r2.number == r1.number + 1 ==>
      r2.data.parentHash == r1.data.hash
  }

  /** After the header numbered `last` (start - 1 before the first): the chain has nothing beyond it, the window covers
      nothing outside the run, and if the block numbered `last` is stored the window knows its hash. */
  ghost predicate UpTo(c: int, window: Hashes, maxBlocks: nat, blocks: seq<BlockRow>, start: U64, last: int) {
    && |window| <= maxBlocks
    && (forall n :: n in window ==> start <= n <= last)
    && (forall r :: r in blocks && r.chainID == c ==> r.number <= last)
    && (forall r :: r in blocks && r.chainID == c && start <= r.number == last ==>
          r.number in window && window[r.number] == r.data.hash)
  }

  lemma {:induction false} WithoutMembers<T>(rows: seq<Row<T>>, c: int, from: U64, r: Row<T>)
    ensures r in Without(rows, c, from) <==> r in rows && (r.chainID != c || r.number < from)
  {
    if rows != [] {
      WithoutMembers(rows[..|rows| - 1], c, from, r);
      assert r in rows <==> r in rows[..|rows| - 1] || r == rows[|rows| - 1];
    }
  }

  lemma DetectNext(window: Hashes, h: Header, start: U64, last: int)
    requires h.number == last + 1 && forall n :: n in window ==> start <= n <= last
    ensures Detect(window, h)
            == if last in window && window[last] != h.parentHash then Some(last) else None
  {
  }

  /** Storing a block whose stored neighbour, if any, is its parent. */
  lemma StoringKeepsLinked(c: int, window: Hashes, maxBlocks: nat, blocks: seq<BlockRow>, start: U64, last: int,
                           h: Header)
    requires 0 < maxBlocks && h.number == last + 1 >= start
    requires |window| <= maxBlocks && forall n :: n in window ==> start <= n <= last
    requires forall r :: r in blocks && r.chainID == c ==> r.number <= last
    requires Linked(c, blocks, start)
    requires forall r :: r in blocks && r.chainID == c && start <= r.number == last ==> r.data.hash == h.parentHash
    ensures var window' := Recorded(window, h, maxBlocks);
            && UpTo(c, window', maxBlocks, blocks, start, last + 1)
            && var blocks' := blocks + [Row(c, h.number, h)];
               UpTo(c, window', maxBlocks, blocks', start, last + 1) && Linked(c, blocks', start)
  {
    RecordNewest(window, h, maxBlocks);
  }

  /** Abandoning a header, before or after its predecessor has been deleted, keeps everything. */
  lemma AbandoningKeepsLinked(c: int, window: Hashes, maxBlocks: nat, blocks: seq<BlockRow>, left: seq<BlockRow>,
                              start: U64, last: int)
    requires UpTo(c, window, maxBlocks, blocks, start, last) && Linked(c, blocks, start)
    requires forall r :: r in left ==> r in blocks
    ensures UpTo(c, window, maxBlocks, left, start, last + 1) && Linked(c, left, start)
  {
  }

  lemma ReorgKeepsLinked(c: int, window: Hashes, maxBlocks: nat, s: StoreState, h: Header, o: Outcomes, start: U64,
                         last: U64)
    requires 0 < maxBlocks && h.number == last + 1 >= start
    requires UpTo(c, window, maxBlocks, s.blocks, start, last) && Linked(c, s.blocks, start)
    requires Detect(window, h) == Some(last)
    ensures var (window', s') := HeaderHandled(c, window, maxBlocks, s, h, o);
            UpTo(c, window', maxBlocks, s'.blocks, start, last + 1) && Linked(c, s'.blocks, start)
  {
    var left := Without(s.blocks, c, last);
    forall r ensures r in left <==> r in s.blocks && (r.chainID != c || r.number < last) {
      WithoutMembers(s.blocks, c, last, r);
    }
    AbandoningKeepsLinked(c, window, maxBlocks, s.blocks, s.blocks, start, last);
    AbandoningKeepsLinked(c, window, maxBlocks, s.blocks, left, start, last);
    AtMostAsMany(Below(window, last), window);
    StoringKeepsLinked(c, Below(window, last), maxBlocks, left, start, last, h);
  }

  /** One header, with any of its calls failing. */
  lemma HeaderKeepsLinked(c: int, window: Hashes, maxBlocks: nat, s: StoreState, h: Header, o: Outcomes, start: U64,
                          last: int)
    requires 0 < maxBlocks && h.number == last + 1 >= start
    requires UpTo(c, window, maxBlocks, s.blocks, start, last) && Linked(c, s.blocks, start)
    ensures var (window', s') := HeaderHandled(c, window, maxBlocks, s, h, o);
            UpTo(c, window', maxBlocks, s'.blocks, start, last + 1) && Linked(c, s'.blocks, start)
  {
    DetectNext(window, h, start, last);
    if Detect(window, h).None? {
      StoringKeepsLinked(c, window, maxBlocks, s.blocks, start, last, h);
    } else {
      ReorgKeepsLinked(c, window, maxBlocks, s, h, o, start, last);
    }
  }

  /** The headers come as the poller sends them. */
  ghost predicate Successive(ds: seq<Delivery>, start: U64) {
    forall i :: 0 <= i < |ds| ==> ds[i].header.number == start + i
  }

  /** On every contiguous stream, with any pattern of failing store operations and any reorganisations, stored
      neighbours of the run are parent and child. */
  lemma {:induction false} LinkedWhateverFails(c: int, maxBlocks: nat, s: StoreState, ds: seq<Delivery>, start: U64)
    requires 0 < maxBlocks
    requires Successive(ds, start)
    requires forall r :: r in s.blocks && r.chainID == c ==> r.number < start
    ensures var (window, s') := AllHandled(c, maxBlocks, s, ds);
            Linked(c, s'.blocks, start) && UpTo(c, window, maxBlocks, s'.blocks, start, start + |ds| - 1)
  {
    if ds != [] {
      var init, d := ds[..|ds| - 1], ds[|ds| - 1];
      LinkedWhateverFails(c, maxBlocks, s, init, start);
      var (window, s1) := AllHandled(c, maxBlocks, s, init);
      HeaderKeepsLinked(c, window, maxBlocks, s1, d.header, d.outcomes, start, start + |init| - 1);
    }
  }

  // ---------- What is stored, whatever fails ----------

  predicate StoreOk(o: Outcomes) {
    o.deleteEvents && o.deleteBlocks && o.rewind && o.saveBlock && o.advance
  }

  /** The node's logs of a block carry that block's number. */
  ghost predicate LogsHonoured(d: Delivery) {
    d.outcomes.logs.Some? ==>
      forall i :: 0 <= i < |d.outcomes.logs.value| && d.outcomes.logs.value[i].log.Parsed? ==>
        d.outcomes.logs.value[i].log.number == d.header.number
  }

  ghost predicate AllHonoured(ds: seq<Delivery>) {
    forall i :: 0 <= i < |ds| ==> LogsHonoured(ds[i])
  }

  function BlockOf(c: int, d: Delivery): BlockRow {
    Row(c, d.header.number, d.header)
  }

  function EventsOf(c: int, d: Delivery): seq<EventRow> {
    if d.outcomes.logs.Some? then SavedRows(c, d.outcomes.logs.value) else []
  }

  /** Whether the header after d accepts it as its parent. */
  predicate Accepts(next: Delivery, d: Delivery) {
    next.header.parentHash == d.header.hash
  }

  function Last(ds: seq<Delivery>): Delivery
    requires ds != []
  {
    ds[|ds| - 1]
  }

  function Init(ds: seq<Delivery>): (init: seq<Delivery>)
    requires ds != []
    ensures |init| == |ds| - 1
  {
    ds[..|ds| - 1]
  }

  /** Whether the detector knows the last of the deliveries: it knows each but those whose reorganisation failed. */
  predicate Known(ds: seq<Delivery>)
    decreases |ds|, 0
  {
    ds != [] && Handles(Init(ds), Last(ds))
  }

  /** Whether the next delivery raises a reorganisation: it does not accept the last one, and the detector knows
      that. */
  predicate Alarm(ds: seq<Delivery>, d: Delivery)
    decreases |ds|, 1
  {
    ds != [] && Known(ds) && !Accepts(d, Last(ds))
  }

  /** Whether the next delivery gets past reorganisation handling. */
  predicate Handles(ds: seq<Delivery>, d: Delivery)
    decreases |ds|, 2
  {
    Alarm(ds, d) ==>
      d.outcomes.deleteEvents && d.outcomes.deleteBlocks && (d.outcomes.rewind || Last(ds).header.number == 0)
  }

  datatype Table = Events | Blocks

  /** Whether the next delivery deletes, from the last one's number on. Blocks go only after the events have. */
  predicate Removes(t: Table, ds: seq<Delivery>, d: Delivery) {
    Alarm(ds, d) && d.outcomes.deleteEvents && (t.Blocks? ==> d.outcomes.deleteBlocks)
  }

  /** The row that the last delivery's own block leaves, if its save succeeds. */
  function OwnBlocks(c: int, ds: seq<Delivery>): seq<BlockRow> {
    if Known(ds) && Last(ds).outcomes.saveBlock then [BlockOf(c, Last(ds))] else []
  }

  function OwnEvents(c: int, ds: seq<Delivery>): seq<EventRow> {
    if Known(ds) && Last(ds).outcomes.saveBlock && Last(ds).outcomes.advance then EventsOf(c, Last(ds)) else []
  }

  /** The rows of all deliveries before the last: each is there until the very next delivery deletes it. */
  function SettledBlocks(c: int, ds: seq<Delivery>): seq<BlockRow> {
    if ds == [] then []
    else SettledBlocks(c, Init(ds)) + if Removes(Blocks, Init(ds), Last(ds)) then [] else OwnBlocks(c, Init(ds))
  }

  function SettledEvents(c: int, ds: seq<Delivery>): seq<EventRow> {
    if ds == [] then []
    else SettledEvents(c, Init(ds)) + if Removes(Events, Init(ds), Last(ds)) then [] else OwnEvents(c, Init(ds))
  }

  /** The number from which the run first deletes. */
  function FirstRemoved(t: Table, ds: seq<Delivery>): Option<U64> {
    if ds == [] then None
    else if FirstRemoved(t, Init(ds)).Some? then FirstRemoved(t, Init(ds))
    else if Removes(t, Init(ds), Last(ds)) then Some(Last(Init(ds)).header.number)
    else None
  }

  /** What was there before the run, cut where the run first deletes. */
  function Cut<T>(c: int, before: seq<Row<T>>, from: Option<U64>): seq<Row<T>> {
    if from.Some? then Without(before, c, from.value) else before
  }

  /** What the next delivery makes of the sync mark: its own number if block and mark are saved; else what the rewind
      makes of it; else it stays. */
  function NextMark(mark: U64, ds: seq<Delivery>, d: Delivery): U64 {
    if Handles(ds, d) && d.outcomes.saveBlock && d.outcomes.advance then d.header.number
    else if Removes(Blocks, ds, d) && d.outcomes.rewind && Last(ds).header.number > 0 then Last(ds).header.number - 1
    else mark
  }

  function MarkAfter(mark: U64, ds: seq<Delivery>): U64 {
    if ds == [] then mark else NextMark(MarkAfter(mark, Init(ds)), Init(ds), Last(ds))
  }

  /** The chain's share after the run, row by row, and what the detector knows. */
  ghost predicate LeftBy(c: int, window: Hashes, maxBlocks: nat, s0: StoreState, s: StoreState, ds: seq<Delivery>,
                         start: U64)
  {
    && OfChain(s.blocks, c)
       == Cut(c, OfChain(s0.blocks, c), FirstRemoved(Blocks, ds)) + SettledBlocks(c, ds) + OwnBlocks(c, ds)
    && (AllHonoured(ds) ==>
          OfChain(s.events, c)
          == Cut(c, OfChain(s0.events, c), FirstRemoved(Events, ds)) + SettledEvents(c, ds) + OwnEvents(c, ds))
    && SyncOf(s, c) == MarkAfter(SyncOf(s0, c), ds)
    && Remembers(window, maxBlocks, ds, start)
  }

  /** The window is within its size and within the run, and has the last delivery exactly if it is known. */
  ghost predicate Remembers(window: Hashes, maxBlocks: nat, ds: seq<Delivery>, start: U64) {
    && |window| <= maxBlocks
    && (forall n :: n in window ==> start <= n < start + |ds|)
    && (ds != [] ==>
          var h := Last(ds).header;
          (h.number in window <==> Known(ds)) && (Known(ds) ==> window[h.number] == h.hash))
  }

  // ---------- Filtering concatenations ----------

  lemma Associate<T>(a: seq<T>, b: seq<T>, c: seq<T>)
    ensures (a + b) + c == a + (b + c)
  {
  }

  lemma {:induction false} WithoutConcat<T>(a: seq<Row<T>>, b: seq<Row<T>>, c: int, from: U64)
    ensures Without(a + b, c, from) == Without(a, c, from) + Without(b, c, from)
  {
    if b == [] {
      assert a + b == a;
    } else {
      var init, r := b[..|b| - 1], b[|b| - 1];
      WithoutConcat(a, init, c, from);
      assert a + b == (a + init) + [r] && b == init + [r];
      WithoutAppend(a + init, r, c, from);
      WithoutAppend(init, r, c, from);
      Associate(Without(a, c, from), Without(init, c, from), [r]);
    }
  }

  /** Nothing at or above the number: nothing is deleted. */
  lemma {:induction false} WithoutLow<T>(rows: seq<Row<T>>, c: int, from: U64)
    requires forall r :: r in rows ==> r.number < from
    ensures Without(rows, c, from) == rows
  {
    if rows != [] {
      WithoutLow(rows[..|rows| - 1], c, from);
    }
  }

  /** All of it at or above the number: everything is. */
  lemma {:induction false} WithoutHigh<T>(rows: seq<Row<T>>, c: int, from: U64)
    requires forall r :: r in rows ==> r.chainID == c && from <= r.number
    ensures Without(rows, c, from) == []
  {
    if rows != [] {
      WithoutHigh(rows[..|rows| - 1], c, from);
    }
  }

  lemma {:induction false} WithoutTwice<T>(rows: seq<Row<T>>, c: int, from: U64, later: U64)
    requires from <= later
    ensures Without(Without(rows, c, from), c, later) == Without(rows, c, from)
  {
    if rows != [] {
      var init, r := rows[..|rows| - 1], rows[|rows| - 1];
      WithoutTwice(init, c, from, later);
      WithoutAppend(Without(init, c, from), r, c, later);
    }
  }

  lemma {:induction false} OfChainConcat<T>(a: seq<Row<T>>, b: seq<Row<T>>, c: int)
    ensures OfChain(a + b, c) == OfChain(a, c) + OfChain(b, c)
  {
    if b == [] {
      assert a + b == a;
    } else {
      var init, r := b[..|b| - 1], b[|b| - 1];
      OfChainConcat(a, init, c);
      assert a + b == (a + init) + [r] && b == init + [r];
      OfChainAppend(a + init, r, c);
      OfChainAppend(init, r, c);
      Associate(OfChain(a, c), OfChain(init, c), [r]);
    }
  }

  lemma {:induction false} OfChainAll<T>(rows: seq<Row<T>>, c: int)
    requires forall r :: r in rows ==> r.chainID == c
    ensures OfChain(rows, c) == rows
  {
    if rows != [] {
      OfChainAll(rows[..|rows| - 1], c);
    }
  }

  // ---------- Where the rows lie ----------

  lemma {:induction false} SavedRowsPlace(c: int, logs: seq<LogOutcome>, n: U64)
    requires forall i :: 0 <= i < |logs| && logs[i].log.Parsed? ==> logs[i].log.number == n
    ensures forall r :: r in SavedRows(c, logs) ==> r.chainID == c && r.number == n
  {
    if logs != [] {
      SavedRowsPlace(c, logs[1..], n);
    }
  }

  lemma OwnEventsPlace(c: int, ds: seq<Delivery>)
    requires ds != [] && LogsHonoured(Last(ds))
    ensures forall r :: r in OwnEvents(c, ds) ==> r.chainID == c && r.number == Last(ds).header.number
  {
    if Last(ds).outcomes.logs.Some? {
      SavedRowsPlace(c, Last(ds).outcomes.logs.value, Last(ds).header.number);
    }
  }

  /** Everything settled is of this chain and lies in the run, below the last delivery. */
  ghost predicate Settled<T>(c: int, rows: seq<Row<T>>, start: U64, end: int) {
    forall r :: r in rows ==> r.chainID == c && start <= r.number < end
  }

  lemma {:induction false} SettledBlocksPlace(c: int, ds: seq<Delivery>, start: U64)
    requires Successive(ds, start)
    ensures Settled(c, SettledBlocks(c, ds), start, start + |ds| - 1)
  {
    if ds != [] {
      SettledBlocksPlace(c, Init(ds), start);
    }
  }

  lemma {:induction false} SettledEventsPlace(c: int, ds: seq<Delivery>, start: U64)
    requires Successive(ds, start) && AllHonoured(ds)
    ensures Settled(c, SettledEvents(c, ds), start, start + |ds| - 1)
  {
    if ds != [] {
      SettledEventsPlace(c, Init(ds), start);
      if Init(ds) != [] {
        OwnEventsPlace(c, Init(ds));
      }
    }
  }

  lemma {:induction false} FirstRemovedPlace(t: Table, ds: seq<Delivery>, start: U64)
    requires Successive(ds, start) && FirstRemoved(t, ds).Some?
    ensures start <= FirstRemoved(t, ds).value < start + |ds| - 1
  {
    var init := Init(ds);
    if FirstRemoved(t, init).Some? {
      FirstRemovedPlace(t, init, start);
    } else {
      assert init != [] && Last(init) == ds[|ds| - 2];
    }
  }

  // ---------- One more delivery ----------

  /** Deleting from a number on leaves what lies below it. */
  lemma RemovingRows<T>(rows: seq<Row<T>>, earlier: seq<Row<T>>, settled: seq<Row<T>>, own: seq<Row<T>>, c: int,
                        from: U64)
    requires OfChain(rows, c) == earlier + settled + own
    requires forall r :: r in settled ==> r.number < from
    requires forall r :: r in own ==> r.chainID == c && from <= r.number
    ensures OfChain(Without(rows, c, from), c) == Without(earlier, c, from) + settled
  {
    OfChainWithout(rows, c, c, from);
    WithoutConcat(earlier + settled, own, c, from);
    WithoutConcat(earlier, settled, c, from);
    WithoutLow(settled, c, from);
    WithoutHigh(own, c, from);
  }

  /** Deleting from the last number on, if at all, and appending. */
  lemma NextRows<T>(rows: seq<Row<T>>, earlier: seq<Row<T>>, settled: seq<Row<T>>, own: seq<Row<T>>, added: seq<Row<T>>,
                    c: int, from: U64, removes: bool)
    requires OfChain(rows, c) == earlier + settled + own
    requires removes ==> forall r :: r in settled ==> r.number < from
    requires removes ==> forall r :: r in own ==> r.chainID == c && from <= r.number
    requires forall r :: r in added ==> r.chainID == c
    ensures OfChain((if removes then Without(rows, c, from) else rows) + added, c)
            == (if removes then Without(earlier, c, from) else earlier)
               + (settled + if removes then [] else own) + added
  {
    OfChainConcat(if removes then Without(rows, c, from) else rows, added, c);
    OfChainAll(added, c);
    if removes {
      RemovingRows(rows, earlier, settled, own, c, from);
      assert settled + [] == settled;
    } else {
      Associate(earlier, settled, own);
    }
  }

  lemma NextCut<T>(t: Table, c: int, before: seq<Row<T>>, ds: seq<Delivery>, d: Delivery, start: U64)
    requires Successive(ds, start)
    ensures var earlier := Cut(c, before, FirstRemoved(t, ds));
            Cut(c, before, FirstRemoved(t, ds + [d]))
            == if Removes(t, ds, d) then Without(earlier, c, Last(ds).header.number) else earlier
  {
    assert Init(ds + [d]) == ds;
    if FirstRemoved(t, ds).Some? {
      FirstRemovedPlace(t, ds, start);
      if Removes(t, ds, d) {
        WithoutTwice(before, c, FirstRemoved(t, ds).value, Last(ds).header.number);
      }
    }
  }

  lemma SettledNext(c: int, ds: seq<Delivery>, d: Delivery)
    ensures SettledBlocks(c, ds + [d]) == SettledBlocks(c, ds) + if Removes(Blocks, ds, d) then [] else OwnBlocks(c, ds)
    ensures SettledEvents(c, ds + [d]) == SettledEvents(c, ds) + if Removes(Events, ds, d) then [] else OwnEvents(c, ds)
  {
    assert Init(ds + [d]) == ds;
  }

  lemma OwnBlocksPlace(c: int, ds: seq<Delivery>)
    ensures forall r :: r in OwnBlocks(c, ds) ==> ds != [] && r == BlockOf(c, Last(ds))
  {
  }

  lemma NextBlocks(c: int, before: seq<BlockRow>, blocks: seq<BlockRow>, blocks': seq<BlockRow>, ds: seq<Delivery>,
                   d: Delivery, start: U64)
    requires Successive(ds, start)
    requires OfChain(blocks, c) == Cut(c, before, FirstRemoved(Blocks, ds)) + SettledBlocks(c, ds) + OwnBlocks(c, ds)
    requires blocks' == (if Removes(Blocks, ds, d) then Without(blocks, c, Last(ds).header.number) else blocks)
                        + OwnBlocks(c, ds + [d])
    ensures OfChain(blocks', c) == Cut(c, before, FirstRemoved(Blocks, ds + [d])) + SettledBlocks(c, ds + [d])
                                   + OwnBlocks(c, ds + [d])
  {
    NextCut(Blocks, c, before, ds, d, start);
    SettledNext(c, ds, d);
    SettledBlocksPlace(c, ds, start);
    OwnBlocksPlace(c, ds);
    OwnBlocksPlace(c, ds + [d]);
    NextRows(blocks, Cut(c, before, FirstRemoved(Blocks, ds)), SettledBlocks(c, ds), OwnBlocks(c, ds),
             OwnBlocks(c, ds + [d]), c, if ds == [] then 0 else Last(ds).header.number, Removes(Blocks, ds, d));
  }

  lemma NextEvents(c: int, before: seq<EventRow>, events: seq<EventRow>, events': seq<EventRow>, ds: seq<Delivery>,
                   d: Delivery, start: U64)
    requires Successive(ds, start) && AllHonoured(ds) && LogsHonoured(d)
    requires OfChain(events, c) == Cut(c, before, FirstRemoved(Events, ds)) + SettledEvents(c, ds) + OwnEvents(c, ds)
    requires events' == (if Removes(Events, ds, d) then Without(events, c, Last(ds).header.number) else events)
                        + OwnEvents(c, ds + [d])
    ensures OfChain(events', c) == Cut(c, before, FirstRemoved(Events, ds + [d])) + SettledEvents(c, ds + [d])
                                   + OwnEvents(c, ds + [d])
  {
    NextCut(Events, c, before, ds, d, start);
    SettledNext(c, ds, d);
    SettledEventsPlace(c, ds, start);
    OwnEventsPlace(c, ds + [d]);
    if ds != [] {
      OwnEventsPlace(c, ds);
    }
    NextRows(events, Cut(c, before, FirstRemoved(Events, ds)), SettledEvents(c, ds), OwnEvents(c, ds),
             OwnEvents(c, ds + [d]), c, if ds == [] then 0 else Last(ds).header.number, Removes(Events, ds, d));
  }

  lemma AlarmIsDetected(window: Hashes, maxBlocks: nat, ds: seq<Delivery>, d: Delivery, start: U64)
    requires Successive(ds, start) && d.header.number == start + |ds| && Remembers(window, maxBlocks, ds, start)
    ensures Detect(window, d.header) == if Alarm(ds, d) then Some(Last(ds).header.number) else None
  {
    DetectNext(window, d.header, start, start + |ds| - 1);
  }

  lemma OwnNext(c: int, ds: seq<Delivery>, d: Delivery)
    ensures Init(ds + [d]) == ds && Last(ds + [d]) == d && (Known(ds + [d]) <==> Handles(ds, d))
    ensures OwnBlocks(c, ds + [d]) == if Handles(ds, d) && d.outcomes.saveBlock then [BlockOf(c, d)] else []
    ensures OwnEvents(c, ds + [d])
            == if Handles(ds, d) && d.outcomes.saveBlock && d.outcomes.advance then EventsOf(c, d) else []
  {
    assert Init(ds + [d]) == ds;
  }

  /** What one delivery does: to the window, to the rows, to the mark. */
  ghost predicate HandledAs(c: int, window: Hashes, maxBlocks: nat, s: StoreState, ds: seq<Delivery>, d: Delivery,
                            window': Hashes, s': StoreState)
  {
    && window' == (if !Handles(ds, d) then window
                   else Recorded(if Alarm(ds, d) then Below(window, Last(ds).header.number) else window,
                                 d.header, maxBlocks))
    && s'.blocks == (if Removes(Blocks, ds, d) then Without(s.blocks, c, Last(ds).header.number) else s.blocks)
                    + OwnBlocks(c, ds + [d])
    && s'.events == (if Removes(Events, ds, d) then Without(s.events, c, Last(ds).header.number) else s.events)
                    + OwnEvents(c, ds + [d])
    && SyncOf(s', c) == NextMark(SyncOf(s, c), ds, d)
  }

  /** Once a reorganisation has been handled, or if there is none. */
  lemma ProcessedRows(c: int, s: StoreState, d: Delivery)
    ensures var (s2, failed) := BlockProcessed(s, c, d.header, d.outcomes);
            var s' := if failed || d.outcomes.logs.None? then s2
                      else s2.(events := s2.events + SavedRows(c, d.outcomes.logs.value));
            && s'.blocks == s.blocks + (if d.outcomes.saveBlock then [BlockOf(c, d)] else [])
            && s'.events == s.events + (if d.outcomes.saveBlock && d.outcomes.advance then EventsOf(c, d) else [])
            && SyncOf(s', c) == if d.outcomes.saveBlock && d.outcomes.advance then d.header.number else SyncOf(s, c)
  {
    assert s.events + [] == s.events && s.blocks + [] == s.blocks;
  }

  lemma ReorgRows(c: int, s: StoreState, from: U64, o: Outcomes)
    ensures var (s1, failed) := ReorgHandled(s, c, from, o);
            && failed == !(o.deleteEvents && o.deleteBlocks && (o.rewind || from == 0))
            && s1.blocks == (if o.deleteEvents && o.deleteBlocks then Without(s.blocks, c, from) else s.blocks)
            && s1.events == (if o.deleteEvents then Without(s.events, c, from) else s.events)
            && SyncOf(s1, c)
               == if o.deleteEvents && o.deleteBlocks && o.rewind && from > 0 then from - 1 else SyncOf(s, c)
  {
  }

  /** HeaderHandled, in these terms. */
  lemma HandledRows(c: int, window: Hashes, maxBlocks: nat, s: StoreState, ds: seq<Delivery>, d: Delivery)
    requires Detect(window, d.header) == if Alarm(ds, d) then Some(Last(ds).header.number) else None
    ensures var (window', s') := HeaderHandled(c, window, maxBlocks, s, d.header, d.outcomes);
            HandledAs(c, window, maxBlocks, s, ds, d, window', s')
  {
    OwnNext(c, ds, d);
    if Alarm(ds, d) {
      ReorgRows(c, s, Last(ds).header.number, d.outcomes);
      var s1 := ReorgHandled(s, c, Last(ds).header.number, d.outcomes).0;
      ProcessedRows(c, s1, d);
      assert s1.blocks + [] == s1.blocks && s1.events + [] == s1.events;
    } else {
      ProcessedRows(c, s, d);
    }
  }

  lemma NextRemembers(window: Hashes, maxBlocks: nat, ds: seq<Delivery>, d: Delivery, start: U64)
    requires 0 < maxBlocks && Remembers(window, maxBlocks, ds, start)
    requires Successive(ds, start) && d.header.number == start + |ds|
    ensures var w := if !Handles(ds, d) then window
                     else Recorded(if Alarm(ds, d) then Below(window, Last(ds).header.number) else window,
                                   d.header, maxBlocks);
            Remembers(w, maxBlocks, ds + [d], start)
  {
    assert Init(ds + [d]) == ds && Last(ds + [d]) == d;
    if Handles(ds, d) {
      RecordNewest(if Alarm(ds, d) then Below(window, Last(ds).header.number) else window, d.header, maxBlocks);
    }
  }

  lemma HonouredBefore(ds: seq<Delivery>, d: Delivery)
    requires AllHonoured(ds + [d])
    ensures AllHonoured(ds) && LogsHonoured(d)
  {
    assert forall i :: 0 <= i < |ds| ==> (ds + [d])[i] == ds[i];
    assert (ds + [d])[|ds|] == d;
  }

  lemma NextLeft(c: int, window: Hashes, maxBlocks: nat, s0: StoreState, s: StoreState, ds: seq<Delivery>, d: Delivery,
                 start: U64)
    requires 0 < maxBlocks && LeftBy(c, window, maxBlocks, s0, s, ds, start)
    requires Successive(ds, start) && d.header.number == start + |ds|
    ensures var (window', s') := HeaderHandled(c, window, maxBlocks, s, d.header, d.outcomes);
            LeftBy(c, window', maxBlocks, s0, s', ds + [d], start)
  {
    var result := HeaderHandled(c, window, maxBlocks, s, d.header, d.outcomes);
    AlarmIsDetected(window, maxBlocks, ds, d, start);
    HandledRows(c, window, maxBlocks, s, ds, d);
    NextRemembers(window, maxBlocks, ds, d, start);
    NextBlocks(c, OfChain(s0.blocks, c), s.blocks, result.1.blocks, ds, d, start);
    assert Init(ds + [d]) == ds;
    if AllHonoured(ds + [d]) {
      HonouredBefore(ds, d);
      NextEvents(c, OfChain(s0.events, c), s.events, result.1.events, ds, d, start);
    }
  }

  /** On every contiguous stream, from whatever is stored before, and whichever calls fail: the chain's blocks and
      mark are exactly those that the outcomes of the calls leave behind; and so are its events, if the node's logs
      carry the numbers asked for. */
  lemma {:induction false} StoredWhateverFails(c: int, maxBlocks: nat, s0: StoreState, ds: seq<Delivery>, start: U64)
    requires 0 < maxBlocks && Successive(ds, start)
    ensures var (window, s) := AllHandled(c, maxBlocks, s0, ds);
            LeftBy(c, window, maxBlocks, s0, s, ds, start)
  {
    if ds == [] {
      assert forall rows: seq<BlockRow> :: rows + [] + [] == rows;
      assert forall rows: seq<EventRow> :: rows + [] + [] == rows;
    } else {
      StoredWhateverFails(c, maxBlocks, s0, Init(ds), start);
      var (window, s) := AllHandled(c, maxBlocks, s0, Init(ds));
      assert Init(ds) + [Last(ds)] == ds;
      NextLeft(c, window, maxBlocks, s0, s, Init(ds), Last(ds), start);
    }
  }

  // ---------- Number by number ----------

  lemma HasRowConcat<T>(a: seq<Row<T>>, b: seq<Row<T>>, c: int, n: U64)
    ensures HasRow(a + b, c, n) <==> HasRow(a, c, n) || HasRow(b, c, n)
  {
    if HasRow(a, c, n) {
      var i :| 0 <= i < |a| && a[i].chainID == c && a[i].number == n;
      assert (a + b)[i] == a[i];
    }
    if HasRow(b, c, n) {
      var i :| 0 <= i < |b| && b[i].chainID == c && b[i].number == n;
      assert (a + b)[|a| + i] == b[i];
    }
  }

  /** Delivery i gets as far as its block's save, and that succeeds. */
  predicate Saved(ds: seq<Delivery>, i: nat)
    requires i < |ds|
  {
    Handles(ds[..i], ds[i]) && ds[i].outcomes.saveBlock
  }

  /** The next delivery deletes it again. */
  predicate Deleted(ds: seq<Delivery>, i: nat)
    requires i < |ds|
  {
    i + 1 < |ds| && Removes(Blocks, ds[..i + 1], ds[i + 1])
  }

  /** So it is there at the end of the run. */
  predicate Stays(ds: seq<Delivery>, i: nat)
    requires i < |ds|
  {
    Saved(ds, i) && !Deleted(ds, i)
  }

  lemma OwnRow(c: int, ds: seq<Delivery>, n: U64)
    requires ds != []
    ensures HasRow(OwnBlocks(c, ds), c, n) <==> n == Last(ds).header.number && Saved(ds, |ds| - 1)
  {
    if n == Last(ds).header.number && Saved(ds, |ds| - 1) {
      assert OwnBlocks(c, ds)[0] == BlockOf(c, Last(ds));
    }
  }

  lemma SavedAndDeletedEarlier(ds: seq<Delivery>, i: nat)
    requires i < |ds| - 1
    ensures Saved(Init(ds), i) == Saved(ds, i)
    ensures Deleted(ds, i) == if i == |ds| - 2 then Removes(Blocks, Init(ds), Last(ds)) else Deleted(Init(ds), i)
  {
    assert Init(ds)[..i] == ds[..i];
    if i < |ds| - 2 {
      assert Init(ds)[..i + 1] == ds[..i + 1];
    } else {
      assert ds[..i + 1] == Init(ds);
    }
  }

  lemma {:induction false} RowsOfRun(c: int, ds: seq<Delivery>, start: U64, i: nat)
    requires Successive(ds, start) && i < |ds|
    ensures HasRow(SettledBlocks(c, ds), c, start + i) <==> i < |ds| - 1 && Saved(ds, i) && !Deleted(ds, i)
  {
    if i == |ds| - 1 {
      SettledBlocksPlace(c, ds, start);
    } else {
      var init := Init(ds);
      var own := if Removes(Blocks, init, Last(ds)) then [] else OwnBlocks(c, init);
      HasRowConcat(SettledBlocks(c, init), own, c, start + i);
      RowsOfRun(c, init, start, i);
      OwnRow(c, init, start + i);
      SavedAndDeletedEarlier(ds, i);
    }
  }

  /** No block of the chain is stored at or above the start. */
  ghost predicate BlocksBelow(c: int, s: StoreState, start: int) {
    forall r :: r in OfChain(s.blocks, c) ==> r.number < start
  }

  /** Nothing of the chain is. */
  ghost predicate ClearFrom(c: int, s: StoreState, start: int) {
    BlocksBelow(c, s, start) && forall r :: r in OfChain(s.events, c) ==> r.number < start
  }

  lemma NothingCut<T>(t: Table, c: int, before: seq<Row<T>>, ds: seq<Delivery>, start: U64)
    requires Successive(ds, start) && forall r :: r in before ==> r.number < start
    ensures Cut(c, before, FirstRemoved(t, ds)) == before
  {
    if FirstRemoved(t, ds).Some? {
      FirstRemovedPlace(t, ds, start);
      WithoutLow(before, c, FirstRemoved(t, ds).value);
    }
  }

  /** The chain's blocks from before the run that are left after it. */
  function OldBlocks(c: int, s0: StoreState, ds: seq<Delivery>): seq<BlockRow> {
    Cut(c, OfChain(s0.blocks, c), FirstRemoved(Blocks, ds))
  }

  /** A number is looked up among the old rows and the run's own. */
  lemma RowOfRun(c: int, blocks: seq<BlockRow>, left: seq<BlockRow>, settled: seq<BlockRow>, own: seq<BlockRow>, n: U64)
    requires OfChain(blocks, c) == left + settled + own
    ensures HasRow(blocks, c, n) <==> HasRow(left, c, n) || HasRow(settled, c, n) || HasRow(own, c, n)
  {
    OfChainMember(blocks, c, n);
    HasRowConcat(left + settled, own, c, n);
    HasRowConcat(left, settled, c, n);
  }

  lemma NoRowBelow(rows: seq<BlockRow>, c: int, n: U64)
    requires forall r :: r in rows ==> r.number < n
    ensures !HasRow(rows, c, n)
  {
  }

  /** Number by number, whichever calls fail: a number of the run is stored afterwards if and only if an old row with it
      was not deleted, or its header got past the handling of any reorganisation, its block was saved, and the next
      header did not delete it. */
  lemma StoredIff(c: int, maxBlocks: nat, s0: StoreState, ds: seq<Delivery>, start: U64, i: nat)
    requires 0 < maxBlocks && Successive(ds, start) && i < |ds|
    ensures HasRow(AllHandled(c, maxBlocks, s0, ds).1.blocks, c, start + i)
            <==> HasRow(OldBlocks(c, s0, ds), c, start + i) || Stays(ds, i)
    ensures BlocksBelow(c, s0, start) ==> !HasRow(OldBlocks(c, s0, ds), c, start + i)
  {
    var blocks := AllHandled(c, maxBlocks, s0, ds).1.blocks;
    StoredWhateverFails(c, maxBlocks, s0, ds, start);
    RowOfRun(c, blocks, OldBlocks(c, s0, ds), SettledBlocks(c, ds), OwnBlocks(c, ds), start + i);
    RowsOfRun(c, ds, start, i);
    OwnRow(c, ds, start + i);
    if BlocksBelow(c, s0, start) {
      NothingCut(Blocks, c, OfChain(s0.blocks, c), ds, start);
      NoRowBelow(OldBlocks(c, s0, ds), c, start + i);
    }
  }

  // ---------- When the store does not fail ----------

  /** The deliveries that their successor accepts. */
  function Confirmed(ds: seq<Delivery>): seq<Delivery> {
    if |ds| < 2 then []
    else Confirmed(Init(ds)) + if Accepts(Last(ds), Last(Init(ds))) then [Last(Init(ds))] else []
  }

  /** Those, and the last one. */
  function Surviving(ds: seq<Delivery>): seq<Delivery> {
    if ds == [] then [] else Confirmed(ds) + [Last(ds)]
  }

  function BlocksOf(c: int, ds: seq<Delivery>): seq<BlockRow> {
    if ds == [] then [] else BlocksOf(c, Init(ds)) + [BlockOf(c, Last(ds))]
  }

  function AllEventsOf(c: int, ds: seq<Delivery>): seq<EventRow> {
    if ds == [] then [] else AllEventsOf(c, Init(ds)) + EventsOf(c, Last(ds))
  }

  ghost predicate AllOk(ds: seq<Delivery>) {
    forall i :: 0 <= i < |ds| ==> StoreOk(ds[i].outcomes)
  }

  lemma RowsAppend(c: int, kept: seq<Delivery>, d: Delivery)
    ensures BlocksOf(c, kept + [d]) == BlocksOf(c, kept) + [BlockOf(c, d)]
    ensures AllEventsOf(c, kept + [d]) == AllEventsOf(c, kept) + EventsOf(c, d)
  {
    assert Init(kept + [d]) == kept;
  }

  lemma {:induction false} SettledIsConfirmed(c: int, ds: seq<Delivery>)
    requires AllOk(ds)
    ensures Known(ds) <==> ds != []
    ensures SettledBlocks(c, ds) == BlocksOf(c, Confirmed(ds))
    ensures SettledEvents(c, ds) == AllEventsOf(c, Confirmed(ds))
  {
    if ds != [] {
      var init := Init(ds);
      SettledIsConfirmed(c, init);
      if init != [] {
        RowsAppend(c, Confirmed(init), Last(init));
        assert Confirmed(init) + [] == Confirmed(init);
      }
    }
  }

  /** The chain's share after the run: what was there, then exactly the surviving deliveries' blocks and saved events;
      and the mark at the last number. */
  ghost predicate Holds(c: int, s0: StoreState, s: StoreState, ds: seq<Delivery>) {
    && OfChain(s.blocks, c) == OfChain(s0.blocks, c) + BlocksOf(c, Surviving(ds))
    && OfChain(s.events, c) == OfChain(s0.events, c) + AllEventsOf(c, Surviving(ds))
    && SyncOf(s, c) == if ds == [] then SyncOf(s0, c) else Last(ds).header.number
  }

  lemma SurvivingRows(c: int, ds: seq<Delivery>)
    requires AllOk(ds)
    ensures SettledBlocks(c, ds) + OwnBlocks(c, ds) == BlocksOf(c, Surviving(ds))
    ensures SettledEvents(c, ds) + OwnEvents(c, ds) == AllEventsOf(c, Surviving(ds))
  {
    SettledIsConfirmed(c, ds);
    if ds != [] {
      RowsAppend(c, Confirmed(ds), Last(ds));
    }
  }

  /** On every contiguous stream, whatever RPC calls failed on the way and whatever reorganisations it contains, a store
      that does not fail ends up with exactly the blocks whose successor accepted them, and the last one, together with
      exactly their saved events; and the sync mark is the last number. */
  lemma StoredExactly(c: int, maxBlocks: nat, s0: StoreState, ds: seq<Delivery>, start: U64)
    requires 0 < maxBlocks && Successive(ds, start) && AllHonoured(ds) && ClearFrom(c, s0, start)
    requires AllOk(ds)
    ensures Holds(c, s0, AllHandled(c, maxBlocks, s0, ds).1, ds)
  {
    StoredWhateverFails(c, maxBlocks, s0, ds, start);
    NothingCut(Blocks, c, OfChain(s0.blocks, c), ds, start);
    NothingCut(Events, c, OfChain(s0.events, c), ds, start);
    Associate(OfChain(s0.blocks, c), SettledBlocks(c, ds), OwnBlocks(c, ds));
    Associate(OfChain(s0.events, c), SettledEvents(c, ds), OwnEvents(c, ds));
    SurvivingRows(c, ds);
    SettledIsConfirmed(c, ds);
  }

  /** Whether delivery i has a successor that accepts it. */
  predicate Follows(ds: seq<Delivery>, i: int)
    requires 0 <= i < |ds| - 1
  {
    Accepts(ds[i + 1], ds[i])
  }

  ghost predicate AllFollow(ds: seq<Delivery>) {
    forall i :: 0 <= i < |ds| - 1 ==> Follows(ds, i)
  }

  lemma OkMeansFollows(ds: seq<Delivery>, i: nat)
    requires AllOk(ds) && i < |ds|
    ensures Saved(ds, i) && (Deleted(ds, i) <==> i + 1 < |ds| && !Follows(ds, i))
  {
    SettledIsConfirmed(0, ds[..i]);
    SettledIsConfirmed(0, ds[..i + 1]);
  }

  lemma StoredUnlessRejected(c: int, maxBlocks: nat, s0: StoreState, ds: seq<Delivery>, start: U64, i: nat, n: U64)
    requires 0 < maxBlocks && Successive(ds, start) && BlocksBelow(c, s0, start)
    requires AllOk(ds) && i < |ds| && n == start + i
    ensures HasRow(AllHandled(c, maxBlocks, s0, ds).1.blocks, c, n) <==> (i < |ds| - 1 ==> Follows(ds, i))
  {
    StoredIff(c, maxBlocks, s0, ds, start, i);
    OkMeansFollows(ds, i);
  }

  /** The numbers stored by the run are exactly start..sync, minus every number whose successor names another parent. */
  lemma StoredNumbers(c: int, maxBlocks: nat, s0: StoreState, ds: seq<Delivery>, start: U64, n: U64)
    requires 0 < maxBlocks && Successive(ds, start) && BlocksBelow(c, s0, start)
    requires AllOk(ds) && start <= n
    ensures HasRow(AllHandled(c, maxBlocks, s0, ds).1.blocks, c, n)
            <==> n < start + |ds| && (n + 1 < start + |ds| ==> Follows(ds, n - start))
  {
    if n < start + |ds| {
      StoredUnlessRejected(c, maxBlocks, s0, ds, start, n - start, n);
    } else {
      BeyondTheRun(c, maxBlocks, s0, ds, start, n);
    }
  }

  lemma BeyondTheRun(c: int, maxBlocks: nat, s0: StoreState, ds: seq<Delivery>, start: U64, n: U64)
    requires 0 < maxBlocks && Successive(ds, start) && BlocksBelow(c, s0, start)
    requires start + |ds| <= n
    ensures !HasRow(AllHandled(c, maxBlocks, s0, ds).1.blocks, c, n)
  {
    var blocks := AllHandled(c, maxBlocks, s0, ds).1.blocks;
    StoredWhateverFails(c, maxBlocks, s0, ds, start);
    NothingCut(Blocks, c, OfChain(s0.blocks, c), ds, start);
    RowOfRun(c, blocks, OldBlocks(c, s0, ds), SettledBlocks(c, ds), OwnBlocks(c, ds), n);
    NoRowBelow(OldBlocks(c, s0, ds), c, n);
    SettledBlocksPlace(c, ds, start);
    OwnBlocksPlace(c, ds);
  }

  lemma AllThereIff(c: int, blocks: seq<BlockRow>, ds: seq<Delivery>)
    requires forall i :: 0 <= i < |ds| ==>
               (HasRow(blocks, c, ds[i].header.number) <==> (i < |ds| - 1 ==> Follows(ds, i)))
    ensures (forall i :: 0 <= i < |ds| ==> HasRow(blocks, c, ds[i].header.number)) <==> AllFollow(ds)
  {
    if forall i :: 0 <= i < |ds| ==> HasRow(blocks, c, ds[i].header.number) {
      forall i | 0 <= i < |ds| - 1
        ensures Follows(ds, i)
      {
        assert HasRow(blocks, c, ds[i].header.number);
      }
    }
  }

  /** So the stored chain has no hole exactly when every delivered header accepts its predecessor:
      a reorganisation leaves one for good, since the replaced block is never fetched again. */
  lemma NoHolesIff(c: int, maxBlocks: nat, s0: StoreState, ds: seq<Delivery>, start: U64)
    requires 0 < maxBlocks && Successive(ds, start) && BlocksBelow(c, s0, start)
    requires AllOk(ds)
    ensures (forall i :: 0 <= i < |ds| ==> HasRow(AllHandled(c, maxBlocks, s0, ds).1.blocks, c, ds[i].header.number))
            <==> AllFollow(ds)
  {
    var blocks := AllHandled(c, maxBlocks, s0, ds).1.blocks;
    forall i | 0 <= i < |ds|
      ensures HasRow(blocks, c, ds[i].header.number) <==> (i < |ds| - 1 ==> Follows(ds, i))
    {
      StoredUnlessRejected(c, maxBlocks, s0, ds, start, i, ds[i].header.number);
    }
    AllThereIff(c, blocks, ds);
  }
}
