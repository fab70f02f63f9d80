/** The event store behind the consumer (internal/indexer/consumer/event_consumer.go), with the in-memory semantics
    of event_consumer_test.go: rows are appended, deletions filter, and an operation that fails has no effect. */
module Stores {
  import opened Detectors

  /** A stored record of one chain at one block number. */
  datatype Row<+T> = Row(chainID: int, number: U64, data: T)

  type BlockRow = Row<Header>
  type EventRow = Row<EventData>

  /** Everything else about an event; opaque to the indexer. */
  datatype EventData = EventData(txHash: Hash, logIndex: nat, payload: int)

  datatype StoreState = StoreState(events: seq<EventRow>, blocks: seq<BlockRow>, syncs: map<int, U64>)

  /** The rows that survive deleting chain `c` from block `from` on. */
  function Without<T>(rows: seq<Row<T>>, c: int, from: U64): seq<Row<T>> {
    if rows == [] then []
    else
      var init, r := Without(rows[..|rows| - 1], c, from), rows[|rows| - 1];
      if r.chainID != c || r.number < from then init + [r] else init
  }

  /** The rows of chain c. */
  function OfChain<T>(rows: seq<Row<T>>, c: int): seq<Row<T>> {
    if rows == [] then []
    else
      var init, r := OfChain(rows[..|rows| - 1], c), rows[|rows| - 1];
      if r.chainID == c then init + [r] else init
  }

  ghost predicate HasRow<T>(rows: seq<Row<T>>, c: int, n: U64) {
    exists i :: 0 <= i < |rows| && rows[i].chainID == c && rows[i].number == n
  }

  // ---------- What each operation means ----------

  function SyncOf(s: StoreState, c: int): U64 {
    if c in s.syncs then s.syncs[c] else 0
  }

  class EventStore {
    var events: seq<EventRow>
    var blocks: seq<BlockRow>
    var syncs: map<int, U64>

    function State(): StoreState
      reads this
    {
      StoreState(events, blocks, syncs)
    }

    constructor ()
      ensures State() == StoreState([], [], map[])
    {
      events, blocks, syncs := [], [], map[];
    }

    method SaveEvent(event: EventRow, ok: bool) returns (err: bool)
      modifies this
      ensures err == !ok
      ensures State() == if ok then old(State()).(events := old(events) + [event]) else old(State())
    {
      if ok {
        events := events + [event];
      }
      err := !ok;
    }

    method SaveBlock(block: BlockRow, ok: bool) returns (err: bool)
      modifies this
      ensures err == !ok
      ensures State() == if ok then old(State()).(blocks := old(blocks) + [block]) else old(State())
    {
      if ok {
        blocks := blocks + [block];
      }
      err := !ok;
    }

    method UpdateSyncStatus(chainID: int, block: U64, ok: bool) returns (err: bool)
      modifies this
      ensures err == !ok
      ensures State() == if ok then old(State()).(syncs := old(syncs)[chainID := block]) else old(State())
    {
      if ok {
        syncs := syncs[chainID := block];
      }
      err := !ok;
    }

    method DeleteEventsFromBlock(chainID: int, from: U64, ok: bool) returns (err: bool)
      modifies this
      ensures err == !ok
      ensures State() == if ok then old(State()).(events := Without(old(events), chainID, from)) else old(State())
    {
      if ok {
        events := Filtered(events, chainID, from);
      }
      err := !ok;
    }

    method DeleteBlocksFromBlock(chainID: int, from: U64, ok: bool) returns (err: bool)
      modifies this
      ensures err == !ok
      ensures State() == if ok then old(State()).(blocks := Without(old(blocks), chainID, from)) else old(State())
    {
      if ok {
        blocks := Filtered(blocks, chainID, from);
      }
      err := !ok;
    }

    /** A missing entry, like a failed read, is block 0. */
    method GetSyncStatus(chainID: int, ok: bool) returns (block: U64)
      ensures block == if ok then SyncOf(State(), chainID) else 0
    {
      block := if ok && chainID in syncs then syncs[chainID] else 0;
    }
  }

  method Filtered<T>(rows: seq<Row<T>>, chainID: int, from: U64) returns (filtered: seq<Row<T>>)
    ensures filtered == Without(rows, chainID, from)
  {
    filtered := [];
    for i := 0 to |rows|
      invariant filtered == Without(rows[..i], chainID, from)
    {
      if rows[i].chainID != chainID || rows[i].number < from {
        filtered := filtered + [rows[i]];
      }
      assert rows[..i + 1][..i] == rows[..i];
    }
    assert rows[..|rows|] == rows;
  }

  // ---------- Filtering ----------

  /** Deletion keeps exactly the rows of other chains and of earlier blocks. */
  lemma {:induction false} WithoutKeeps<T>(rows: seq<Row<T>>, c: int, from: U64, d: int, n: U64)
    ensures HasRow(Without(rows, c, from), d, n) <==> HasRow(rows, d, n) && (d != c || n < from)
  {
    if rows != [] {
      var init, r := rows[..|rows| - 1], rows[|rows| - 1];
      WithoutKeeps(init, c, from, d, n);
      HasRowAppend(init, r, d, n);
      HasRowAppend(Without(init, c, from), r, d, n);
      assert init + [r] == rows;
    }
  }

  lemma HasRowAppend<T>(rows: seq<Row<T>>, r: Row<T>, c: int, n: U64)
    ensures HasRow(rows + [r], c, n) <==> HasRow(rows, c, n) || (r.chainID == c && r.number == n)
  {
    if HasRow(rows, c, n) {
      var i :| 0 <= i < |rows| && rows[i].chainID == c && rows[i].number == n;
      assert (rows + [r])[i] == rows[i];
    }
    if r.chainID == c && r.number == n {
      assert (rows + [r])[|rows|] == r;
    }
  }

  lemma OfChainAppend<T>(rows: seq<Row<T>>, r: Row<T>, c: int)
    ensures OfChain(rows + [r], c) == if r.chainID == c then OfChain(rows, c) + [r] else OfChain(rows, c)
  {
    assert (rows + [r])[..|rows|] == rows;
  }

  lemma WithoutAppend<T>(rows: seq<Row<T>>, r: Row<T>, c: int, from: U64)
    ensures Without(rows + [r], c, from)
            == if r.chainID != c || r.number < from then Without(rows, c, from) + [r] else Without(rows, c, from)
  {
    assert (rows + [r])[..|rows|] == rows;
  }

  /** Deleting from a chain and looking at it commute; looking at another chain sees no deletion. */
  lemma {:induction false} OfChainWithout<T>(rows: seq<Row<T>>, c: int, d: int, from: U64)
    ensures OfChain(Without(rows, d, from), c)
            == if c == d then Without(OfChain(rows, c), c, from) else OfChain(rows, c)
  {
    if rows != [] {
      var init, r := rows[..|rows| - 1], rows[|rows| - 1];
      OfChainWithout(init, c, d, from);
      OfChainAppend(Without(init, d, from), r, c);
      WithoutAppend(OfChain(init, c), r, c, from);
    }
  }

  lemma {:induction false} OfChainMember<T>(rows: seq<Row<T>>, c: int, n: U64)
    ensures HasRow(OfChain(rows, c), c, n) <==> HasRow(rows, c, n)
  {
    if rows != [] {
      var init, r := rows[..|rows| - 1], rows[|rows| - 1];
      OfChainMember(init, c, n);
      HasRowAppend(init, r, c, n);
      HasRowAppend(OfChain(init, c), r, c, n);
      assert init + [r] == rows;
    }
  }
}
