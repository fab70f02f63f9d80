/** From one run of a chain's indexer to the next (internal/indexer/service.go, runChain): when the stored chain stays
    linked, when blocks are stored once, and when the sync mark keeps up with what is stored. */
module ChainRestarts {
  import opened Options
  import opened Maps
  import opened Detectors
  import opened Stores
  import opened Listeners
  import opened ChainIndexers
  import opened ChainTheorems

  // ---------- The rows after a run ----------

  lemma {:induction false} MembersOfChain<T>(rows: seq<Row<T>>, c: int, r: Row<T>)
    ensures r in OfChain(rows, c) <==> r in rows && r.chainID == c
  {
    if rows != [] {
      MembersOfChain(rows[..|rows| - 1], c, r);
      assert r in rows <==> r in rows[..|rows| - 1] || r == rows[|rows| - 1];
    }
  }

  lemma {:induction false} RowsAreDelivered(c: int, ds: seq<Delivery>, start: U64, r: BlockRow)
    requires Successive(ds, start)
    requires r in SettledBlocks(c, ds) || r in OwnBlocks(c, ds)
    ensures start <= r.number < start + |ds| && r == BlockOf(c, ds[r.number - start])
  {
    if r in SettledBlocks(c, ds) {
      RowsAreDelivered(c, Init(ds), start, r);
    }
  }

  lemma NewRowIndex(c: int, ds: seq<Delivery>, start: U64, r: BlockRow) returns (i: nat)
    requires Successive(ds, start) && r in SettledBlocks(c, ds) + OwnBlocks(c, ds)
    ensures i < |ds| && Stays(ds, i) && r == BlockOf(c, ds[i])
  {
    RowsAreDelivered(c, ds, start, r);
    i := r.number - start;
    NewRowAt(c, ds, start, i);
    RowIsFound(SettledBlocks(c, ds) + OwnBlocks(c, ds), c, r);
  }

  lemma StayingRow(c: int, ds: seq<Delivery>, start: U64, i: nat)
    requires Successive(ds, start) && i < |ds| && Stays(ds, i)
    ensures BlockOf(c, ds[i]) in SettledBlocks(c, ds) + OwnBlocks(c, ds)
  {
    NewRowAt(c, ds, start, i);
    var rows := SettledBlocks(c, ds) + OwnBlocks(c, ds);
    var k :| 0 <= k < |rows| && rows[k].chainID == c && rows[k].number == start + i;
    assert rows[k] in rows;
    RowsAreDelivered(c, ds, start, rows[k]);
  }

  /** The rows of the run itself are those of the deliveries that stay. */
  lemma NewRows(c: int, ds: seq<Delivery>, start: U64, r: BlockRow)
    requires Successive(ds, start)
    ensures r in SettledBlocks(c, ds) + OwnBlocks(c, ds)
            <==> exists i :: 0 <= i < |ds| && Stays(ds, i) && r == BlockOf(c, ds[i])
  {
    if r in SettledBlocks(c, ds) + OwnBlocks(c, ds) {
      var i := NewRowIndex(c, ds, start, r);
    }
    if i :| 0 <= i < |ds| && Stays(ds, i) && r == BlockOf(c, ds[i]) {
      StayingRow(c, ds, start, i);
    }
  }

  lemma NewRowAt(c: int, ds: seq<Delivery>, start: U64, i: nat)
    requires Successive(ds, start) && i < |ds|
    ensures HasRow(SettledBlocks(c, ds) + OwnBlocks(c, ds), c, start + i) <==> Stays(ds, i)
  {
    HasRowConcat(SettledBlocks(c, ds), OwnBlocks(c, ds), c, start + i);
    RowsOfRun(c, ds, start, i);
    OwnRow(c, ds, start + i);
  }

  lemma RowIsFound(rows: seq<BlockRow>, c: int, r: BlockRow)
    requires r in rows && r.chainID == c
    ensures HasRow(rows, c, r.number)
  {
    var k :| 0 <= k < |rows| && rows[k] == r;
  }

  /** Whichever calls fail and whatever was stored before: a chain's block is stored after the run if and only if it
      is an old one that was not deleted or that of a delivery that stays. */
  lemma RowsAfterRun(c: int, maxBlocks: nat, s0: StoreState, ds: seq<Delivery>, start: U64, r: BlockRow)
    requires 0 < maxBlocks && Successive(ds, start)
    ensures r in AllHandled(c, maxBlocks, s0, ds).1.blocks && r.chainID == c
            <==> r in OldBlocks(c, s0, ds) || exists i :: 0 <= i < |ds| && Stays(ds, i) && r == BlockOf(c, ds[i])
  {
    var blocks := AllHandled(c, maxBlocks, s0, ds).1.blocks;
    StoredWhateverFails(c, maxBlocks, s0, ds, start);
    Associate(OldBlocks(c, s0, ds), SettledBlocks(c, ds), OwnBlocks(c, ds));
    MembersOfChain(blocks, c, r);
    NewRows(c, ds, start, r);
  }

  // ---------- Linked over a restart ----------

  lemma StaysEarlier(ds: seq<Delivery>, i: nat)
    requires i < |ds| - 1 && Stays(ds, i)
    ensures Stays(Init(ds), i)
  {
    SavedAndDeletedEarlier(ds, i);
  }

  lemma HandledInPeace(ds: seq<Delivery>, d: Delivery)
    requires Known(ds) && Handles(ds, d) && !Removes(Blocks, ds, d)
    ensures Accepts(d, Last(ds))
  {
    assert !Alarm(ds, d);
  }

  /** Of two deliveries in a row that stay, the second accepts the first. */
  lemma NeighboursAccept(ds: seq<Delivery>, i: nat)
    requires i + 1 < |ds| && Stays(ds, i) && Stays(ds, i + 1)
    ensures Accepts(ds[i + 1], ds[i])
  {
    var first := ds[..i + 1];
    assert Init(first) == ds[..i] && Last(first) == ds[i];
    assert Known(first);
    assert Handles(first, ds[i + 1]) && !Removes(Blocks, first, ds[i + 1]);
    HandledInPeace(first, ds[i + 1]);
  }

  /** Old rows that are left and deliveries that stay are parent and child wherever their numbers, from `from` on, are
      neighbours. */
  ghost predicate Joined(left: seq<BlockRow>, ds: seq<Delivery>, start: U64, from: U64) {
    forall r, i :: r in left && 0 <= i < |ds| && Stays(ds, i) ==>
      && (from <= r.number && start + i == r.number + 1 ==> ds[i].header.parentHash == r.data.hash)
      && (from <= start + i && r.number == start + i + 1 ==> r.data.parentHash == ds[i].header.hash)
  }

  /** A run begins with an empty window and does not compare its headers with what is stored. So, whichever calls fail,
      wherever the run starts and whatever is stored, even above the start: the chain is linked from a number on if and
      only if the old rows that are left are, and they happen to join the deliveries that stay. */
  lemma RestartLinkedIff(c: int, maxBlocks: nat, s0: StoreState, ds: seq<Delivery>, start: U64, from: U64)
    requires 0 < maxBlocks && Successive(ds, start)
    ensures var s, left := AllHandled(c, maxBlocks, s0, ds).1, OldBlocks(c, s0, ds);
            Linked(c, s.blocks, from) <==> Linked(c, left, from) && Joined(left, ds, start, from)
  {
    var blocks, left := AllHandled(c, maxBlocks, s0, ds).1.blocks, OldBlocks(c, s0, ds);
    forall r: BlockRow
      ensures r in blocks && r.chainID == c
              <==> r in left || exists i :: 0 <= i < |ds| && Stays(ds, i) && r == BlockOf(c, ds[i])
    {
      RowsAfterRun(c, maxBlocks, s0, ds, start, r);
    }
    LeftIsOfChain(c, s0, ds);
    if Linked(c, blocks, from) {
      LinkedMeansJoined(c, blocks, left, ds, start, from);
    }
    if Linked(c, left, from) && Joined(left, ds, start, from) {
      JoinedMeansLinked(c, blocks, left, ds, start, from);
    }
  }

  lemma LeftIsOfChain(c: int, s0: StoreState, ds: seq<Delivery>)
    ensures forall r :: r in OldBlocks(c, s0, ds) ==> r in s0.blocks && r.chainID == c
  {
    forall r | r in OldBlocks(c, s0, ds)
      ensures r in s0.blocks && r.chainID == c
    {
      if FirstRemoved(Blocks, ds).Some? {
        WithoutMembers(OfChain(s0.blocks, c), c, FirstRemoved(Blocks, ds).value, r);
      }
      MembersOfChain(s0.blocks, c, r);
    }
  }

  ghost predicate MadeOf(c: int, blocks: seq<BlockRow>, left: seq<BlockRow>, ds: seq<Delivery>) {
    && (forall r :: r in left ==> r.chainID == c)
    && (forall r: BlockRow :: r in blocks && r.chainID == c
                              <==> r in left || exists i :: 0 <= i < |ds| && Stays(ds, i) && r == BlockOf(c, ds[i]))
  }

  lemma LinkedMeansJoined(c: int, blocks: seq<BlockRow>, left: seq<BlockRow>, ds: seq<Delivery>, start: U64, from: U64)
    requires Successive(ds, start) && MadeOf(c, blocks, left, ds) && Linked(c, blocks, from)
    ensures Linked(c, left, from) && Joined(left, ds, start, from)
  {
    forall r, i | r in left && 0 <= i < |ds| && Stays(ds, i)
      ensures from <= r.number && start + i == r.number + 1 ==> ds[i].header.parentHash == r.data.hash
      ensures from <= start + i && r.number == start + i + 1 ==> r.data.parentHash == ds[i].header.hash
    {
      var added := BlockOf(c, ds[i]);
      assert r in blocks && r.chainID == c;
      assert added in blocks && added.chainID == c;
    }
  }

  lemma JoinedMeansLinked(c: int, blocks: seq<BlockRow>, left: seq<BlockRow>, ds: seq<Delivery>, start: U64, from: U64)
    requires Successive(ds, start) && MadeOf(c, blocks, left, ds)
    requires Linked(c, left, from) && Joined(left, ds, start, from)
    ensures Linked(c, blocks, from)
  {
    forall r1, r2 | r1 in blocks && r2 in blocks && r1.chainID == c && r2.chainID == c
                    && from <= r1.number && r2.number == r1.number + 1
      ensures r2.data.parentHash == r1.data.hash
    {
      if r1 !in left && r2 !in left {
        var i :| 0 <= i < |ds| && Stays(ds, i) && r1 == BlockOf(c, ds[i]);
        var j :| 0 <= j < |ds| && Stays(ds, j) && r2 == BlockOf(c, ds[j]);
        assert j == i + 1;
        NeighboursAccept(ds, i);
      }
    }
  }

  /** In particular, when nothing is stored at or above the start: a linked chain stays linked if and only if the first
      header, should it stay, accepts what is stored just below it. */
  lemma ContinuationLinkedIff(c: int, maxBlocks: nat, s0: StoreState, ds: seq<Delivery>, start: U64, from: U64)
    requires 0 < maxBlocks && Successive(ds, start) && BlocksBelow(c, s0, start) && from < start
    ensures var s := AllHandled(c, maxBlocks, s0, ds).1;
            Linked(c, s.blocks, from)
            <==> Linked(c, s0.blocks, from)
                 && (ds != [] && Stays(ds, 0) ==>
                       forall r :: r in OfChain(s0.blocks, c) && r.number == start - 1 ==>
                                     ds[0].header.parentHash == r.data.hash)
  {
    var before := OfChain(s0.blocks, c);
    RestartLinkedIff(c, maxBlocks, s0, ds, start, from);
    NothingCut(Blocks, c, before, ds, start);
    forall r: BlockRow ensures r in before <==> r in s0.blocks && r.chainID == c {
      MembersOfChain(s0.blocks, c, r);
    }
    assert Linked(c, before, from) <==> Linked(c, s0.blocks, from);
  }

  // ---------- Stored once ----------

  /** No number occurs twice. */
  ghost predicate Once<T>(rows: seq<Row<T>>) {
    forall i, j :: 0 <= i < j < |rows| ==> rows[i].number != rows[j].number
  }

  ghost predicate Disjoint<T>(a: seq<Row<T>>, b: seq<Row<T>>) {
    forall i, j :: 0 <= i < |a| && 0 <= j < |b| ==> a[i].number != b[j].number
  }

  lemma OnceConcat<T>(a: seq<Row<T>>, b: seq<Row<T>>)
    ensures Once(a + b) <==> Once(a) && Once(b) && Disjoint(a, b)
  {
    var whole := a + b;
    assert forall i :: 0 <= i < |a| ==> whole[i] == a[i];
    assert forall j :: 0 <= j < |b| ==> whole[|a| + j] == b[j];
    if Once(whole) {
      forall i, j | 0 <= i < j < |b| ensures b[i].number != b[j].number {
        assert whole[|a| + i].number != whole[|a| + j].number;
      }
      forall i, j | 0 <= i < |a| && 0 <= j < |b| ensures a[i].number != b[j].number {
        assert whole[i].number != whole[|a| + j].number;
      }
    }
  }

  lemma {:induction false} WithoutKeepsOnce<T>(rows: seq<Row<T>>, c: int, from: U64)
    requires Once(rows)
    ensures Once(Without(rows, c, from))
  {
    if rows != [] {
      var init, r := rows[..|rows| - 1], rows[|rows| - 1];
      WithoutKeepsOnce(init, c, from);
      forall q | q in Without(init, c, from) ensures q.number != r.number {
        WithoutMembers(init, c, from, q);
      }
      OnceConcat(Without(init, c, from), [r]);
    }
  }

  lemma {:induction false} NewRowsOnce(c: int, ds: seq<Delivery>, start: U64)
    requires Successive(ds, start)
    ensures Once(SettledBlocks(c, ds)) && Once(SettledBlocks(c, ds) + OwnBlocks(c, ds))
  {
    if ds == [] {
      assert SettledBlocks(c, ds) + OwnBlocks(c, ds) == [];
    } else {
      NewRowsOnce(c, Init(ds), start);
      assert SettledBlocks(c, Init(ds)) + [] == SettledBlocks(c, Init(ds));
      SettledBlocksPlace(c, ds, start);
      OwnBlocksPlace(c, ds);
      OnceConcat(SettledBlocks(c, ds), OwnBlocks(c, ds));
    }
  }

  lemma DisjointIff(c: int, left: seq<BlockRow>, ds: seq<Delivery>, start: U64)
    requires Successive(ds, start) && forall r :: r in left ==> r.chainID == c
    ensures Disjoint(left, SettledBlocks(c, ds) + OwnBlocks(c, ds))
            <==> forall i :: 0 <= i < |ds| && Stays(ds, i) ==> !HasRow(left, c, start + i)
  {
    var rows := SettledBlocks(c, ds) + OwnBlocks(c, ds);
    forall i | 0 <= i < |ds|
      ensures HasRow(rows, c, start + i) <==> Stays(ds, i)
    {
      NewRowAt(c, ds, start, i);
    }
    forall j | 0 <= j < |rows|
      ensures start <= rows[j].number < start + |ds| && rows[j].chainID == c
      ensures Stays(ds, rows[j].number - start)
    {
      assert rows[j] in rows;
      RowsAreDelivered(c, ds, start, rows[j]);
      assert HasRow(rows, c, rows[j].number);
    }
    if forall i :: 0 <= i < |ds| && Stays(ds, i) ==> !HasRow(left, c, start + i) {
      forall k, j | 0 <= k < |left| && 0 <= j < |rows|
        ensures left[k].number != rows[j].number
      {
        assert left[k] in left;
        assert !HasRow(left, c, start + (rows[j].number - start));
      }
    }
  }

  /** Whichever calls fail and wherever the run starts: a chain that had each number once has it once afterwards if and
      only if no delivery that stays has the number of an old row that is left. */
  lemma StoredOnceIff(c: int, maxBlocks: nat, s0: StoreState, ds: seq<Delivery>, start: U64)
    requires 0 < maxBlocks && Successive(ds, start) && Once(OfChain(s0.blocks, c))
    ensures Once(OfChain(AllHandled(c, maxBlocks, s0, ds).1.blocks, c))
            <==> forall i :: 0 <= i < |ds| && Stays(ds, i) ==> !HasRow(OldBlocks(c, s0, ds), c, start + i)
  {
    var left, rows := OldBlocks(c, s0, ds), SettledBlocks(c, ds) + OwnBlocks(c, ds);
    StoredWhateverFails(c, maxBlocks, s0, ds, start);
    Associate(left, SettledBlocks(c, ds), OwnBlocks(c, ds));
    OnceConcat(left, rows);
    NewRowsOnce(c, ds, start);
    if FirstRemoved(Blocks, ds).Some? {
      WithoutKeepsOnce(OfChain(s0.blocks, c), c, FirstRemoved(Blocks, ds).value);
    }
    LeftIsOfChain(c, s0, ds);
    DisjointIff(c, left, ds, start);
  }

  // ---------- Starting over ----------

  lemma InitFollows(ds: seq<Delivery>)
    requires ds != [] && AllFollow(ds)
    ensures AllFollow(Init(ds)) && (Init(ds) != [] ==> Accepts(Last(ds), Last(Init(ds))))
  {
    assert forall i :: 0 <= i < |ds| - 2 ==> Follows(ds, i) ==> Follows(Init(ds), i);
    if |ds| > 1 {
      assert Follows(ds, |ds| - 2);
    }
  }

  lemma {:induction false} AllSurvive(ds: seq<Delivery>)
    requires AllFollow(ds)
    ensures Surviving(ds) == ds && FirstRemoved(Blocks, ds) == FirstRemoved(Events, ds) == None
  {
    if ds != [] {
      InitFollows(ds);
      AllSurvive(Init(ds));
      assert Confirmed(ds) == Init(ds);
    }
  }

  /** A run whose read of the sync mark fails starts over at block 1 with everything still stored. With a store that
      does not fail, what is left is what was there, cut at the first reorganisation, and then the surviving
      deliveries once more; so without a reorganisation each number is stored once if and only if none of those
      delivered was stored. */
  lemma StartingOver(c: int, maxBlocks: nat, s0: StoreState, ds: seq<Delivery>)
    requires 0 < maxBlocks && Successive(ds, 1) && AllHonoured(ds) && AllOk(ds)
    ensures var s := AllHandled(c, maxBlocks, s0, ds).1;
            && OfChain(s.blocks, c) == OldBlocks(c, s0, ds) + BlocksOf(c, Surviving(ds))
            && OfChain(s.events, c)
               == Cut(c, OfChain(s0.events, c), FirstRemoved(Events, ds)) + AllEventsOf(c, Surviving(ds))
            && (AllFollow(ds) ==>
                  && OfChain(s.blocks, c) == OfChain(s0.blocks, c) + BlocksOf(c, ds)
                  && OfChain(s.events, c) == OfChain(s0.events, c) + AllEventsOf(c, ds))
            && (AllFollow(ds) && Once(OfChain(s0.blocks, c)) ==>
                  (Once(OfChain(s.blocks, c)) <==> forall n: U64 :: 1 <= n <= |ds| ==> !HasRow(s0.blocks, c, n)))
  {
    StoredWhateverFails(c, maxBlocks, s0, ds, 1);
    Associate(OldBlocks(c, s0, ds), SettledBlocks(c, ds), OwnBlocks(c, ds));
    Associate(Cut(c, OfChain(s0.events, c), FirstRemoved(Events, ds)), SettledEvents(c, ds), OwnEvents(c, ds));
    SurvivingRows(c, ds);
    if AllFollow(ds) {
      AllSurvive(ds);
      if Once(OfChain(s0.blocks, c)) {
        StoredOnceIff(c, maxBlocks, s0, ds, 1);
        OnceIfNew(c, s0, ds);
      }
    }
  }

  lemma OnceIfNew(c: int, s0: StoreState, ds: seq<Delivery>)
    requires AllOk(ds) && AllFollow(ds) && Successive(ds, 1)
    ensures (forall i :: 0 <= i < |ds| && Stays(ds, i) ==> !HasRow(OfChain(s0.blocks, c), c, 1 + i))
            <==> forall n: U64 :: 1 <= n <= |ds| ==> !HasRow(s0.blocks, c, n)
  {
    forall i | 0 <= i < |ds|
      ensures Stays(ds, i) && (HasRow(OfChain(s0.blocks, c), c, 1 + i) <==> HasRow(s0.blocks, c, 1 + i))
    {
      OkMeansFollows(ds, i);
      if i + 1 < |ds| { assert Follows(ds, i); }
      assert ds[i].header.number == 1 + i;
      OfChainMember(s0.blocks, c, 1 + i);
    }
    if forall i :: 0 <= i < |ds| && Stays(ds, i) ==> !HasRow(OfChain(s0.blocks, c), c, 1 + i) {
      forall n: U64 | 1 <= n <= |ds|
        ensures !HasRow(s0.blocks, c, n)
      {
        assert Stays(ds, n - 1);
      }
    }
  }

  // ---------- The mark and what is stored ----------

  /** Delivery i moves the mark to its number. */
  predicate Advances(ds: seq<Delivery>, i: nat)
    requires i < |ds|
  {
    Saved(ds, i) && ds[i].outcomes.advance
  }

  /** Delivery i leaves the mark where a rewind has set it, two below its own number. */
  predicate Rewinds(ds: seq<Delivery>, i: nat)
    requires i < |ds|
  {
    && !Advances(ds, i) && Removes(Blocks, ds[..i], ds[i])
    && ds[i].outcomes.rewind && Last(ds[..i]).header.number > 0
  }

  /** Delivery i, or one after it, takes the mark to its number or beyond. */
  ghost predicate Reached(ds: seq<Delivery>, i: nat) {
    exists j :: i <= j < |ds| && (Advances(ds, j) || (Rewinds(ds, j) && i + 2 <= j))
  }

  lemma {:induction false} MarkPlace(mark: U64, ds: seq<Delivery>, start: U64)
    requires Successive(ds, start) && mark < start
    ensures mark <= MarkAfter(mark, ds) < start + |ds|
  {
    if ds != [] {
      MarkPlace(mark, Init(ds), start);
    }
  }

  lemma ReachedStep(ds: seq<Delivery>, i: nat)
    requires i < |ds| - 1
    ensures var n := |ds| - 1;
            Reached(ds, i) <==> Reached(Init(ds), i) || Advances(ds, n) || (Rewinds(ds, n) && i + 2 <= n)
  {
    var n := |ds| - 1;
    forall j | 0 <= j < n
      ensures Advances(Init(ds), j) == Advances(ds, j) && Rewinds(Init(ds), j) == Rewinds(ds, j)
    {
      assert Init(ds)[..j] == ds[..j];
    }
    if Reached(Init(ds), i) {
      var j :| i <= j < n && (Advances(Init(ds), j) || (Rewinds(Init(ds), j) && i + 2 <= j));
      assert Advances(ds, j) || (Rewinds(ds, j) && i + 2 <= j);
    }
    if Reached(ds, i) {
      var j :| i <= j < |ds| && (Advances(ds, j) || (Rewinds(ds, j) && i + 2 <= j));
      if j < n {
        assert Advances(Init(ds), j) || (Rewinds(Init(ds), j) && i + 2 <= j);
      }
    }
  }

  /** The mark ends at or above a block that stays exactly when something has taken it there. */
  lemma {:induction false} MarkReachesIff(mark: U64, ds: seq<Delivery>, start: U64, i: nat)
    requires Successive(ds, start) && mark < start && i < |ds| && Stays(ds, i)
    ensures start + i <= MarkAfter(mark, ds) <==> Reached(ds, i)
  {
    var n := |ds| - 1;
    assert ds[..n] == Init(ds) && ds[n] == Last(ds);
    MarkPlace(mark, Init(ds), start);
    if i == n {
      assert Advances(ds, n) ==> Reached(ds, i);
    } else {
      StaysEarlier(ds, i);
      MarkReachesIff(mark, Init(ds), start, i);
      ReachedStep(ds, i);
      SavedAndDeletedEarlier(ds, i);
    }
  }

  /** Events never get ahead of the mark: they are saved after it, and go before it is rewound. */
  lemma {:induction false} EventsBelowMark(c: int, mark: U64, ds: seq<Delivery>, start: U64)
    requires Successive(ds, start) && AllHonoured(ds)
    ensures forall r :: r in SettledEvents(c, ds) + OwnEvents(c, ds) ==> r.number <= MarkAfter(mark, ds)
  {
    if ds != [] {
      var init := Init(ds);
      EventsBelowMark(c, mark, init, start);
      SettledEventsPlace(c, init, start);
      SettledEventsPlace(c, ds, start);
      OwnEventsPlace(c, ds);
      if init != [] { OwnEventsPlace(c, init); }
    }
  }

  /** Every block that stays has been reached by the mark. */
  ghost predicate NothingAhead(ds: seq<Delivery>) {
    forall i :: 0 <= i < |ds| && Stays(ds, i) ==> Reached(ds, i)
  }

  /** No row lies above the mark. */
  ghost predicate AtMostMark<T>(rows: seq<Row<T>>, mark: int) {
    forall r :: r in rows ==> r.number <= mark
  }

  lemma AtMostMarkConcat<T>(a: seq<Row<T>>, b: seq<Row<T>>, mark: int)
    ensures AtMostMark(a + b, mark) <==> AtMostMark(a, mark) && AtMostMark(b, mark)
  {
    assert forall r :: r in a + b <==> r in a || r in b;
  }

  lemma NewRowsAtMostMark(c: int, mark: U64, ds: seq<Delivery>, start: U64)
    requires Successive(ds, start) && mark < start
    ensures AtMostMark(SettledBlocks(c, ds) + OwnBlocks(c, ds), MarkAfter(mark, ds)) <==> NothingAhead(ds)
  {
    var rows := SettledBlocks(c, ds) + OwnBlocks(c, ds);
    if AtMostMark(rows, MarkAfter(mark, ds)) {
      forall i | 0 <= i < |ds| && Stays(ds, i)
        ensures Reached(ds, i)
      {
        NewRows(c, ds, start, BlockOf(c, ds[i]));
        assert BlockOf(c, ds[i]) in rows;
        MarkReachesIff(mark, ds, start, i);
      }
    }
    if NothingAhead(ds) {
      forall r | r in rows
        ensures r.number <= MarkAfter(mark, ds)
      {
        NewRows(c, ds, start, r);
        var i :| 0 <= i < |ds| && Stays(ds, i) && r == BlockOf(c, ds[i]);
        MarkReachesIff(mark, ds, start, i);
      }
    }
  }

  /** The chain's events from before the run that are left after it. */
  function OldEvents(c: int, s0: StoreState, ds: seq<Delivery>): seq<EventRow> {
    Cut(c, OfChain(s0.events, c), FirstRemoved(Events, ds))
  }

  lemma BlocksAtMostMark(c: int, maxBlocks: nat, s0: StoreState, ds: seq<Delivery>, start: U64)
    requires 0 < maxBlocks && Successive(ds, start) && start == SyncOf(s0, c) + 1
    ensures var s := AllHandled(c, maxBlocks, s0, ds).1;
            AtMostMark(OfChain(s.blocks, c), SyncOf(s, c))
            <==> AtMostMark(OldBlocks(c, s0, ds), SyncOf(s, c)) && NothingAhead(ds)
  {
    var mark := MarkAfter(SyncOf(s0, c), ds);
    StoredWhateverFails(c, maxBlocks, s0, ds, start);
    Associate(OldBlocks(c, s0, ds), SettledBlocks(c, ds), OwnBlocks(c, ds));
    AtMostMarkConcat(OldBlocks(c, s0, ds), SettledBlocks(c, ds) + OwnBlocks(c, ds), mark);
    NewRowsAtMostMark(c, SyncOf(s0, c), ds, start);
  }

  lemma EventsAtMostMark(c: int, maxBlocks: nat, s0: StoreState, ds: seq<Delivery>, start: U64)
    requires 0 < maxBlocks && Successive(ds, start) && AllHonoured(ds) && start == SyncOf(s0, c) + 1
    ensures var s := AllHandled(c, maxBlocks, s0, ds).1;
            AtMostMark(OfChain(s.events, c), SyncOf(s, c)) <==> AtMostMark(OldEvents(c, s0, ds), SyncOf(s, c))
  {
    var mark := MarkAfter(SyncOf(s0, c), ds);
    StoredWhateverFails(c, maxBlocks, s0, ds, start);
    Associate(OldEvents(c, s0, ds), SettledEvents(c, ds), OwnEvents(c, ds));
    AtMostMarkConcat(OldEvents(c, s0, ds), SettledEvents(c, ds) + OwnEvents(c, ds), mark);
    EventsBelowMark(c, SyncOf(s0, c), ds, start);
  }

  lemma ClearMeansAtMostMark(c: int, s: StoreState, mark: int)
    ensures ClearFrom(c, s, mark + 1)
            <==> AtMostMark(OfChain(s.blocks, c), mark) && AtMostMark(OfChain(s.events, c), mark)
  {
  }

  /** Starting clear, what is old lies below every mark of the run. */
  lemma OldIsAtMostMark(c: int, s0: StoreState, ds: seq<Delivery>, start: U64)
    requires Successive(ds, start) && ClearFrom(c, s0, start) && start == SyncOf(s0, c) + 1
    ensures AtMostMark(OldBlocks(c, s0, ds), MarkAfter(SyncOf(s0, c), ds))
    ensures AtMostMark(OldEvents(c, s0, ds), MarkAfter(SyncOf(s0, c), ds))
  {
    NothingCut(Blocks, c, OfChain(s0.blocks, c), ds, start);
    NothingCut(Events, c, OfChain(s0.events, c), ds, start);
    MarkPlace(SyncOf(s0, c), ds, start);
  }

  lemma MarkIs(c: int, maxBlocks: nat, s0: StoreState, ds: seq<Delivery>, start: U64)
    requires 0 < maxBlocks && Successive(ds, start)
    ensures SyncOf(AllHandled(c, maxBlocks, s0, ds).1, c) == MarkAfter(SyncOf(s0, c), ds)
  {
    StoredWhateverFails(c, maxBlocks, s0, ds, start);
  }

  /** When a run leaves nothing above its mark, so that the next one, which starts just above it, finds nothing
      there: if and only if the old rows that are left lie no higher, and every block of the run that stays was
      reached by the mark. For a run that itself began so, whichever of its calls fail, the latter alone decides. */
  lemma ClearAfterIff(c: int, maxBlocks: nat, s0: StoreState, ds: seq<Delivery>, start: U64)
    requires 0 < maxBlocks && Successive(ds, start) && AllHonoured(ds) && start == SyncOf(s0, c) + 1
    ensures var s := AllHandled(c, maxBlocks, s0, ds).1;
            var mark := SyncOf(s, c);
            && (ClearFrom(c, s, mark + 1)
                <==> NothingAhead(ds)
                     && AtMostMark(OldBlocks(c, s0, ds), mark) && AtMostMark(OldEvents(c, s0, ds), mark))
            && (ClearFrom(c, s0, start) ==> (ClearFrom(c, s, mark + 1) <==> NothingAhead(ds)))
  {
    var s := AllHandled(c, maxBlocks, s0, ds).1;
    ClearMeansAtMostMark(c, s, SyncOf(s, c));
    BlocksAtMostMark(c, maxBlocks, s0, ds, start);
    EventsAtMostMark(c, maxBlocks, s0, ds, start);
    if ClearFrom(c, s0, start) {
      MarkIs(c, maxBlocks, s0, ds, start);
      OldIsAtMostMark(c, s0, ds, start);
    }
  }

  lemma OkIsReached(ds: seq<Delivery>)
    requires AllOk(ds)
    ensures NothingAhead(ds)
  {
    forall i | 0 <= i < |ds|
      ensures Reached(ds, i)
    {
      OkMeansFollows(ds, i);
      assert Advances(ds, i);
    }
  }

  /** From s0 to s by the deliveries from `start` on: exact contents, linked, the mark moved up by their number, and
      ready for the next run. */
  ghost predicate Continued(c: int, s0: StoreState, s: StoreState, ds: seq<Delivery>, start: U64) {
    && Holds(c, s0, s, ds) && Linked(c, s.blocks, start)
    && SyncOf(s, c) == SyncOf(s0, c) + |ds| && ClearFrom(c, s, SyncOf(s, c) + 1)
  }

  lemma MarkAtLast(c: int, s0: StoreState, s: StoreState, ds: seq<Delivery>)
    requires SyncOf(s0, c) < TWO64 - 1 && Successive(ds, SyncOf(s0, c) + 1) && Holds(c, s0, s, ds)
    ensures SyncOf(s, c) == SyncOf(s0, c) + |ds|
  {
  }

  /** A whole run over a contiguous stream from the stored mark, with a store that does not fail. */
  lemma RunStoresExactly(c: int, maxBlocks: nat, s0: StoreState, stream: Stream, outcomes: nat -> Outcomes)
    requires 0 < maxBlocks && SyncOf(s0, c) < TWO64 - 1
    requires Contiguous(stream.All(), SyncOf(s0, c) + 1) && ClearFrom(c, s0, SyncOf(s0, c) + 1)
    requires var ds := Delivered(stream.All(), outcomes); AllOk(ds) && AllHonoured(ds)
    ensures var ds := Delivered(stream.All(), outcomes);
            Continued(c, s0, AllHandled(c, maxBlocks, s0, ds).1, ds, SyncOf(s0, c) + 1)
  {
    var ds, start := Delivered(stream.All(), outcomes), SyncOf(s0, c) + 1;
    assert Successive(ds, start);
    StoredExactly(c, maxBlocks, s0, ds, start);
    NothingStoredFrom(c, s0, start);
    LinkedWhateverFails(c, maxBlocks, s0, ds, start);
    OkLeavesClear(c, maxBlocks, s0, ds, start);
    MarkAtLast(c, s0, AllHandled(c, maxBlocks, s0, ds).1, ds);
  }

  lemma AlwaysOk(hs: seq<Header>, outcomes: nat -> Outcomes)
    requires forall k :: StoreOk(outcomes(k))
    ensures AllOk(Delivered(hs, outcomes))
  {
  }

  /** And that is what runChain does, from whatever mark it finds, when every call of the store succeeds and the
      subscription delivers without gap or repeat. */
  method RunFromMark(chainID: int, maxBlocks: int, consumer: EventConsumer, sub: Subscription, ticks: seq<Tick>,
                     outcomes: nat -> Outcomes)
    returns (s: Stream)
    requires SubscriptionHonours(sub) && NodeHonours(ticks) && 0 < maxBlocks
    requires SyncOf(consumer.store.State(), chainID) < TWO64 - 1
    requires Continues(sub, ticks, SyncOf(consumer.store.State(), chainID) + 1)
    requires ClearFrom(chainID, consumer.store.State(), SyncOf(consumer.store.State(), chainID) + 1)
    requires forall k :: StoreOk(outcomes(k))
    modifies consumer.store
    ensures Contiguous(s.All(), SyncOf(old(consumer.store.State()), chainID) + 1)
    ensures AllHonoured(Delivered(s.All(), outcomes)) ==>
              Continued(chainID, old(consumer.store.State()), consumer.store.State(), Delivered(s.All(), outcomes),
                        SyncOf(old(consumer.store.State()), chainID) + 1)
  {
    ghost var before := consumer.store.State();
    var window;
    s, window := RunChain(chainID, maxBlocks, consumer, true, sub, ticks, outcomes);
    if AllHonoured(Delivered(s.All(), outcomes)) {
      AlwaysOk(s.All(), outcomes);
      RunStoresExactly(chainID, maxBlocks, before, s, outcomes);
    }
  }

  lemma OkLeavesClear(c: int, maxBlocks: nat, s0: StoreState, ds: seq<Delivery>, start: U64)
    requires 0 < maxBlocks && Successive(ds, start) && AllHonoured(ds) && start == SyncOf(s0, c) + 1
    requires ClearFrom(c, s0, start) && AllOk(ds)
    ensures var s := AllHandled(c, maxBlocks, s0, ds).1;
            ClearFrom(c, s, SyncOf(s, c) + 1)
  {
    ClearAfterIff(c, maxBlocks, s0, ds, start);
    OkIsReached(ds);
  }

  lemma NothingStoredFrom(c: int, s: StoreState, start: int)
    requires BlocksBelow(c, s, start)
    ensures forall r :: r in s.blocks && r.chainID == c ==> r.number < start
  {
    forall r | r in s.blocks && r.chainID == c
      ensures r.number < start
    {
      MembersOfChain(s.blocks, c, r);
    }
  }

  // ---------- A detector without room ----------

  /** With unset confirmations the detector has no room, and no reorganisation ever deletes anything: every row that is
      stored before the run or at any point of it is stored at the end. */
  lemma {:induction false} WithoutRoomNothingIsDeleted(c: int, s0: StoreState, ds: seq<Delivery>, later: seq<Delivery>)
    ensures var (window, s) := AllHandled(c, 0, s0, ds);
            var t := AllHandled(c, 0, s0, ds + later).1;
            && window == map[]
            && (forall r :: r in s.blocks ==> r in t.blocks) && (forall r :: r in s.events ==> r in t.events)
            && (forall r :: r in s0.blocks ==> r in t.blocks) && (forall r :: r in s0.events ==> r in t.events)
    decreases |ds| + |later|
  {
    if later != [] {
      var init := later[..|later| - 1];
      assert (ds + later)[..|ds + later| - 1] == ds + init;
      WithoutRoomNothingIsDeleted(c, s0, ds, init);
      WithoutRoomNothingIsDeleted(c, s0, ds + init, []);
      assert ds + init + [] == ds + init;
      OneMoreWithoutRoom(c, AllHandled(c, 0, s0, ds + init).1, later[|later| - 1]);
    } else if ds != [] {
      WithoutRoomNothingIsDeleted(c, s0, Init(ds), []);
      assert Init(ds) + [] == Init(ds) && ds + [] == ds;
      OneMoreWithoutRoom(c, AllHandled(c, 0, s0, Init(ds)).1, Last(ds));
    }
  }

  lemma OneMoreWithoutRoom(c: int, s: StoreState, d: Delivery)
    ensures var (window, s') := HeaderHandled(c, map[], 0, s, d.header, d.outcomes);
            && window == map[]
            && (forall r :: r in s.blocks ==> r in s'.blocks) && (forall r :: r in s.events ==> r in s'.events)
  {
    ProcessedRows(c, s, d);
    NewestKeptIff(map[], d.header, 0);
    NoKeys(Recorded(map[], d.header, 0));
  }

  // ---------- Witnesses ----------

  const FINE: Outcomes := Outcomes(true, true, true, true, true, None)

  const EMPTY: StoreState := StoreState([], [], map[])

  lemma OneDelivery(c: int, s0: StoreState, d: Delivery)
    requires d.outcomes.logs.None? && d.outcomes.saveBlock
    ensures var s := AllHandled(c, 10, s0, [d]).1;
            && s.blocks == s0.blocks + [BlockOf(c, d)] && s.events == s0.events
            && SyncOf(s, c) == if d.outcomes.advance then d.header.number else SyncOf(s0, c)
  {
    assert [d][..0] == [];
    assert AllHandled(c, 10, s0, [d][..0]) == (map[], s0);
  }

  /** Two runs of one header each. */
  lemma TwoRuns(d: Delivery, e: Delivery)
    requires d.outcomes.logs == e.outcomes.logs == None && d.outcomes.saveBlock && e.outcomes.saveBlock
    ensures var s := AllHandled(1, 10, EMPTY, [d]).1;
            var t := AllHandled(1, 10, s, [e]).1;
            && s.blocks == [BlockOf(1, d)] && s.events == []
            && SyncOf(s, 1) == (if d.outcomes.advance then d.header.number else 0)
            && t.blocks == [BlockOf(1, d), BlockOf(1, e)]
  {
    var s := AllHandled(1, 10, EMPTY, [d]).1;
    OneDelivery(1, EMPTY, d);
    OneDelivery(1, s, e);
  }

  lemma TwoRows(r1: BlockRow, r2: BlockRow)
    requires r1.chainID == r2.chainID == 1
    ensures OfChain([r1], 1) == [r1] && OfChain([r1, r2], 1) == [r1, r2]
    ensures Once([r1]) && (r1.number == r2.number ==> !Once([r1, r2]))
  {
    OfChainAll([r1], 1);
    OfChainAll([r1, r2], 1);
    var both := [r1, r2];
    assert both[0] == r1 && both[1] == r2;
  }

  lemma TwoRowsUnlinked(r1: BlockRow, r2: BlockRow)
    requires r1.chainID == r2.chainID == 1
    requires r2.number == r1.number + 1 && r2.data.parentHash != r1.data.hash
    ensures Linked(1, [r1], r1.number) && !Linked(1, [r1, r2], r1.number)
  {
    assert r1 in [r1, r2] && r2 in [r1, r2];
  }

  lemma AheadOfMark(s: StoreState, r: BlockRow)
    requires s.blocks == [r] && r.chainID == 1 && r.number == 1
    ensures HasRow(s.blocks, 1, 1) && !ClearFrom(1, s, 1)
  {
    assert s.blocks[0] == r;
    MembersOfChain(s.blocks, 1, r);
  }

  /** A mark that lags: block 1 is saved and the mark's update fails. The next run starts at the stored block, */
  lemma LaggingMark()
    ensures var s := AllHandled(1, 10, EMPTY, [Delivery(At(1), FINE.(advance := false))]).1;
            HasRow(s.blocks, 1, 1) && SyncOf(s, 1) == 0 && !ClearFrom(1, s, SyncOf(s, 1) + 1)
  {
    var d := Delivery(At(1), FINE.(advance := false));
    var s := AllHandled(1, 10, EMPTY, [d]).1;
    assert s.blocks == [BlockOf(1, d)] && SyncOf(s, 1) == 0 by {
      OneDelivery(1, EMPTY, d);
    }
    AheadOfMark(s, BlockOf(1, d));
  }

  /** and stores it again. */
  lemma StoredTwice()
    ensures var s := AllHandled(1, 10, EMPTY, [Delivery(At(1), FINE.(advance := false))]).1;
            var t := AllHandled(1, 10, s, [Delivery(At(1), FINE)]).1;
            Once(OfChain(s.blocks, 1)) && !Once(OfChain(t.blocks, 1))
  {
    var d, e := Delivery(At(1), FINE.(advance := false)), Delivery(At(1), FINE);
    TwoRuns(d, e);
    TwoRows(BlockOf(1, d), BlockOf(1, e));
  }

  /** A restart that breaks the chain: block 1 is stored and marked, the chain reorganises while nothing runs, and
      the next run stores a block 2 whose parent is another block 1. */
  lemma RestartBreaksLink()
    ensures var s := AllHandled(1, 10, EMPTY, [Delivery(At(1), FINE)]).1;
            var t := AllHandled(1, 10, s, [Delivery(At(2).(parentHash := Hash(99)), FINE)]).1;
            && SyncOf(s, 1) == 1 && ClearFrom(1, s, 2) && Linked(1, s.blocks, 1)
            && !Linked(1, t.blocks, 1)
  {
    var d, e := Delivery(At(1), FINE), Delivery(At(2).(parentHash := Hash(99)), FINE);
    TwoRuns(d, e);
    TwoRows(BlockOf(1, d), BlockOf(1, e));
    TwoRowsUnlinked(BlockOf(1, d), BlockOf(1, e));
  }
}
