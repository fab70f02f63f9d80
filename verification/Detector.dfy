/** Reorganisation detection over a window of recent block hashes (internal/indexer/reorg/detector.go). */
module Detectors {
  import opened Options
  import opened Maps

  const TWO64: int := 0x1_0000_0000_0000_0000

  type U64 = n: int | 0 <= n < TWO64

  /** uint64 arithmetic wraps. */
  function Minus64(a: U64, b: U64): U64 {
    (a - b) % TWO64
  }

  function ToU64(i: int): U64 {
    i % TWO64
  }

  /** Hashes are only ever compared. */
  datatype Hash = Hash(bits: int)

  /** What the detector sees of a block. */
  datatype Header = Header(number: U64, hash: Hash, parentHash: Hash, timestamp: int)

  type Hashes = map<U64, Hash>

  // ---------- What each operation means ----------

  function Above(m: Hashes, oldest: U64): Hashes {
    map n | n in m && oldest < n :: m[n]
  }

  function Below(m: Hashes, from: U64): Hashes {
    map n | n in m && n < from :: m[n]
  }

  function Oldest(h: Header, maxBlocks: int): U64 {
    Minus64(h.number, ToU64(maxBlocks))
  }

  function Recorded(m: Hashes, h: Header, maxBlocks: int): Hashes {
    var added := m[h.number := h.hash];
    if |added| > maxBlocks then Above(added, Oldest(h, maxBlocks)) else added
  }

  /** The number to roll back from, if the block contradicts the window. */
  function Detect(m: Hashes, h: Header): Option<U64> {
    if h.number in m then
      if m[h.number] != h.hash then Some(h.number) else None
    else
      var parentNum := Minus64(h.number, 1);
      if parentNum in m && m[parentNum] != h.parentHash then Some(parentNum) else None
  }

  class Detector {
    var blockHashes: Hashes
    const maxBlocks: int

    constructor (maxBlocks: int)
      ensures blockHashes == map[] && this.maxBlocks == maxBlocks
    {
      blockHashes := map[];
      this.maxBlocks := maxBlocks;
    }

    method RecordBlock(h: Header)
      modifies this
      ensures blockHashes == Recorded(old(blockHashes), h, maxBlocks)
    {
      blockHashes := blockHashes[h.number := h.hash];
      if |blockHashes| > maxBlocks {
        var oldest := Minus64(h.number, ToU64(maxBlocks));
        DeleteWhere(n => n <= oldest);
        SameMap(blockHashes, Above(old(blockHashes)[h.number := h.hash], oldest));
      }
    }

    /** Deletes every number that fits the condition, visiting them in any order. */
    method DeleteWhere(doomed: U64 -> bool)
      modifies this
      ensures forall n :: n in blockHashes <==> n in old(blockHashes) && !doomed(n)
      ensures forall n :: n in blockHashes ==> blockHashes[n] == old(blockHashes)[n]
    {
      var rest := blockHashes.Keys;
      while rest != {}
        invariant rest <= old(blockHashes).Keys
        invariant forall n :: n in blockHashes <==> n in old(blockHashes) && (n in rest || !doomed(n))
        invariant forall n :: n in blockHashes ==> blockHashes[n] == old(blockHashes)[n]
        decreases rest
      {
        var num := NextKey(rest);
        rest := rest - {num};
        if doomed(num) {
          blockHashes := blockHashes - {num};
        }
      }
    }

    method DetectReorg(h: Header) returns (fork: Option<U64>)
      ensures fork == Detect(blockHashes, h)
    {
      if h.number in blockHashes {
        if blockHashes[h.number] != h.hash {
          return Some(h.number);
        }
        return None;
      }
      var parentNum := Minus64(h.number, 1);
      if parentNum in blockHashes {
        if blockHashes[parentNum] != h.parentHash {
          return Some(parentNum);
        }
      }
      return None;
    }

    method Rollback(fromBlock: U64)
      modifies this
      ensures blockHashes == Below(old(blockHashes), fromBlock)
    {
      DeleteWhere(n => n >= fromBlock);
      SameMap(blockHashes, Below(old(blockHashes), fromBlock));
    }
  }

  // ---------- No false alarm on one chain ----------

  /** Any two of the headers agree: equal numbers mean equal hashes, and successors name their parents. */
  ghost predicate OneChain(hs: seq<Header>) {
    && (forall i, j :: 0 <= i < |hs| && 0 <= j < |hs| && hs[i].number == hs[j].number ==> hs[i].hash == hs[j].hash)
    && (forall i, j :: 0 <= i < |hs| && 0 <= j < |hs| && hs[i].number + 1 == hs[j].number ==>
          hs[j].parentHash == hs[i].hash)
  }

  /** The window after the headers have been recorded in turn. */
  function RecordedAll(hs: seq<Header>, maxBlocks: int): Hashes {
    if hs == [] then map[] else Recorded(RecordedAll(hs[..|hs| - 1], maxBlocks), hs[|hs| - 1], maxBlocks)
  }

  /** The window holds nothing but hashes of headers seen. */
  lemma {:induction false} WindowComesFromHeaders(hs: seq<Header>, maxBlocks: int, n: U64)
    requires n in RecordedAll(hs, maxBlocks)
    ensures exists i :: 0 <= i < |hs| && hs[i].number == n && hs[i].hash == RecordedAll(hs, maxBlocks)[n]
  {
    var last := hs[|hs| - 1];
    if n == last.number && RecordedAll(hs, maxBlocks)[n] == last.hash {
    } else {
      WindowComesFromHeaders(hs[..|hs| - 1], maxBlocks, n);
    }
  }

  /** Block 0 meets the last number of the uint64 range, to which its parent's number wraps around. */
  predicate WrapsOntoEnd(m: Hashes, h: Header) {
    h.number == 0 && 0 !in m && TWO64 - 1 in m && m[TWO64 - 1] != h.parentHash
  }

  /** Headers of one chain, in any order and with repeats, raise no reorganisation, but for the one case of block 0
      arriving while the window holds block 2^64 - 1. */
  lemma NoFalseAlarm(hs: seq<Header>, maxBlocks: int, k: nat)
    requires k < |hs| && OneChain(hs)
    ensures var m := RecordedAll(hs[..k], maxBlocks);
            && (Detect(m, hs[k]) == None <==> !WrapsOntoEnd(m, hs[k]))
            && ((forall i :: 0 <= i < k ==> hs[i].number < TWO64 - 1) ==> Detect(m, hs[k]) == None)
  {
    var m, h := RecordedAll(hs[..k], maxBlocks), hs[k];
    if h.number in m {
      WindowComesFromHeaders(hs[..k], maxBlocks, h.number);
    } else {
      var parent := Minus64(h.number, 1);
      if parent in m {
        WindowComesFromHeaders(hs[..k], maxBlocks, parent);
      }
    }
  }

  // ---------- What an alarm means ----------

  /** One rollback settles the alarm, except when the header contradicts both a recorded block at its number and the
      recorded block below it: the second contradiction stays, and the code does not look again. */
  lemma RollbackSettlesIff(m: Hashes, h: Header, fork: U64)
    requires Detect(m, h) == Some(fork)
    ensures Detect(Below(m, fork), h) == None
            <==> !(0 < h.number == fork && h.number - 1 in m && m[h.number - 1] != h.parentHash)
  {
    var kept := Below(m, fork);
    assert h.number !in kept || fork > h.number;
    assert Minus64(h.number, 1) in kept <==> Minus64(h.number, 1) in m && Minus64(h.number, 1) < fork;
  }

  /** A recorded block at the same number, or one number below, is not the one the header implies. */
  predicate Contradicts(m: Hashes, h: Header) {
    || (h.number in m && m[h.number] != h.hash)
    || (Minus64(h.number, 1) in m && m[Minus64(h.number, 1)] != h.parentHash)
  }

  /** Only contradictions raise an alarm, and all of them do but one kind: a parent that does not match goes unnoticed
      exactly when the block itself is already recorded under its own hash. */
  lemma AlarmIff(m: Hashes, h: Header)
    ensures Detect(m, h).Some? <==> Contradicts(m, h) && !(h.number in m && m[h.number] == h.hash)
  {
  }

  // ---------- What recording a block leaves in the window ----------

  /** The window with the block added, before any pruning. */
  function Added(m: Hashes, h: Header): Hashes {
    m[h.number := h.hash]
  }

  /** For every window, block and size, even a size of zero or below: the subtraction is that of the integers exactly
      when its result is in range, and the newest block survives its own recording exactly when the window has room
      for it or the size, as uint64, is positive and does not exceed the block's number. */
  lemma NewestKeptIff(m: Hashes, h: Header, maxBlocks: int)
    ensures Oldest(h, maxBlocks) == h.number - maxBlocks <==> 0 <= h.number - maxBlocks < TWO64
    ensures h.number in Recorded(m, h, maxBlocks)
            <==> |Added(m, h)| <= maxBlocks || 0 < ToU64(maxBlocks) <= h.number
    ensures 0 < maxBlocks < TWO64 ==>
              (h.number in Recorded(m, h, maxBlocks) <==> |Added(m, h)| <= maxBlocks || maxBlocks <= h.number)
  {
    var w := ToU64(maxBlocks);
    ModuloOfDifference(h.number, maxBlocks);
    assert Oldest(h, maxBlocks) == if w <= h.number then h.number - w else h.number - w + TWO64;
  }

  lemma ModuloOfDifference(n: U64, k: int)
    ensures Minus64(n, ToU64(k)) == (n - k) % TWO64
  {
    var w := ToU64(k);
    assert k == TWO64 * (k / TWO64) + w;
    SameResidue(n - w, n - k, -(k / TWO64));
  }

  lemma SameResidue(a: int, b: int, q: int)
    requires b == a + TWO64 * q
    ensures a % TWO64 == b % TWO64
  {
    var p := a / TWO64 + q;
    assert a == TWO64 * (a / TWO64) + a % TWO64;
    assert b == TWO64 * p + a % TWO64 by {
      assert TWO64 * p == TWO64 * (a / TWO64) + TWO64 * q;
    }
    ResidueUnique(b, p, a % TWO64);
  }

  lemma ResidueUnique(b: int, p: int, r: int)
    requires b == TWO64 * p + r && 0 <= r < TWO64
    ensures b % TWO64 == r
  {
    assert b == TWO64 * (b / TWO64) + b % TWO64;
  }

  /** The entries that pruning at `oldest` drops. */
  function UpToOldest(m: Hashes, oldest: U64): Hashes {
    map n | n in m && n <= oldest :: m[n]
  }

  lemma PruningSplits(m: Hashes, oldest: U64)
    ensures |m| == |Above(m, oldest)| + |UpToOldest(m, oldest)|
  {
    var above, upTo := Above(m, oldest), UpToOldest(m, oldest);
    SameSet(m.Keys, above.Keys + upTo.Keys);
    assert above.Keys !! upTo.Keys;
    assert |m.Keys| == |m| && |above.Keys| == |above| && |upTo.Keys| == |upTo|;
  }

  /** Recording keeps the window within its size exactly when nothing overflows or enough entries lie at or below the
      horizon; for a window that was within its size, one such entry is enough. */
  lemma SizeKeptIff(m: Hashes, h: Header, maxBlocks: int)
    ensures |Recorded(m, h, maxBlocks)| <= maxBlocks
            <==> |Added(m, h)| <= maxBlocks
                 || |Added(m, h)| <= maxBlocks + |UpToOldest(Added(m, h), Oldest(h, maxBlocks))|
    ensures |m| <= maxBlocks ==>
              (|Recorded(m, h, maxBlocks)| <= maxBlocks
               <==> |Added(m, h)| <= maxBlocks || exists n :: n in Added(m, h) && n <= Oldest(h, maxBlocks))
  {
    var added, oldest := Added(m, h), Oldest(h, maxBlocks);
    var dropped := UpToOldest(added, oldest);
    PruningSplits(added, oldest);
    assert |dropped| == 0 <==> !(exists n :: n in added && n <= oldest) by {
      if n :| n in added && n <= oldest {
        assert n in dropped.Keys && |dropped.Keys| == |dropped|;
      } else {
        NoKeys(dropped);
      }
    }
    assert |m| <= maxBlocks ==> |added| <= maxBlocks + 1 by {
      assert |m.Keys + {h.number}| <= |m.Keys| + 1;
      SameSet(added.Keys, m.Keys + {h.number});
      assert |added.Keys| == |added| && |m.Keys| == |m|;
    }
  }

  /** The block overflows the window although nothing in it is old enough to be dropped. */
  ghost predicate Overflows(m: Hashes, h: Header, maxBlocks: int) {
    |Added(m, h)| > maxBlocks && forall n :: n in Added(m, h) ==> Oldest(h, maxBlocks) < n
  }

  /** The window is within its size at the start and after every header of the stream. */
  ghost predicate StaysBounded(hs: seq<Header>, maxBlocks: int) {
    |RecordedAll(hs, maxBlocks)| <= maxBlocks && (hs != [] ==> StaysBounded(hs[..|hs| - 1], maxBlocks))
  }

  /** No header of the stream overflows the window it arrives at. */
  ghost predicate NeverOverflows(hs: seq<Header>, maxBlocks: int) {
    hs != [] ==>
      var init := hs[..|hs| - 1];
      NeverOverflows(init, maxBlocks) && !Overflows(RecordedAll(init, maxBlocks), hs[|hs| - 1], maxBlocks)
  }

  /** On every stream, in any order: the window stays within its size throughout exactly when no block of the stream
      overflows it in that way. */
  lemma {:induction false} WindowBoundedIff(hs: seq<Header>, maxBlocks: int)
    ensures StaysBounded(hs, maxBlocks) <==> 0 <= maxBlocks && NeverOverflows(hs, maxBlocks)
  {
    if hs != [] {
      var init := hs[..|hs| - 1];
      WindowBoundedIff(init, maxBlocks);
      if StaysBounded(init, maxBlocks) {
        SizeKeptIff(RecordedAll(init, maxBlocks), hs[|hs| - 1], maxBlocks);
      }
    }
  }

  // ---------- Increasing streams ----------

  lemma {:induction false} RangeCardinality(s: set<U64>, lo: int, hi: int)
    requires lo <= hi && forall n :: n in s ==> lo <= n < hi
    ensures |s| <= hi - lo
    decreases hi - lo
  {
    if lo == hi {
      NoElements(s);
    } else if 0 <= lo < TWO64 && lo in s {
      RangeCardinality(s - {lo}, lo + 1, hi);
    } else {
      RangeCardinality(s, lo + 1, hi);
    }
  }

  /** Whether a size leaves room for the newest block: a positive one, or a negative one that as uint64 does not
      exceed the block's number. */
  predicate HasRoom(h: Header, maxBlocks: int) {
    0 < maxBlocks || (maxBlocks < 0 && 0 < ToU64(maxBlocks) <= h.number)
  }

  /** Recording a block above everything in the window: the new block is in it exactly if the size has room for it; and
      from size zero on the window ends up within its size, and if it overflows the subtraction does not wrap. */
  lemma RecordNewest(m: Hashes, h: Header, maxBlocks: int)
    requires forall n :: n in m ==> n < h.number
    ensures var m' := Recorded(m, h, maxBlocks);
            && (0 <= maxBlocks ==>
                  |m'| <= maxBlocks && (|Added(m, h)| > maxBlocks ==> Oldest(h, maxBlocks) == h.number - maxBlocks))
            && (h.number in m' <==> HasRoom(h, maxBlocks))
            && (h.number in m' ==> m'[h.number] == h.hash)
            && forall n :: n in m' ==> n <= h.number
  {
    var added := Added(m, h);
    NewestKeptIff(m, h, maxBlocks);
    assert |added.Keys| == |added|;
    if 0 <= maxBlocks < |added| {
      RangeCardinality(added.Keys, 0, h.number + 1);
      var kept := Above(added, Oldest(h, maxBlocks));
      RangeCardinality(kept.Keys, h.number - maxBlocks + 1, h.number + 1);
      assert |kept.Keys| == |kept|;
    } else {
      assert h.number in added.Keys;
    }
  }

  ghost predicate Increasing(hs: seq<Header>) {
    forall i, j :: 0 <= i < j < |hs| ==> hs[i].number < hs[j].number
  }

  /** On every strictly increasing stream the window never outgrows a size from zero on, and holds the newest block
      exactly if the size has room for it. */
  lemma {:induction false} WindowBounded(hs: seq<Header>, maxBlocks: int)
    requires Increasing(hs)
    ensures var m := RecordedAll(hs, maxBlocks);
            && (0 <= maxBlocks ==> |m| <= maxBlocks)
            && (hs != [] ==>
                  var last := hs[|hs| - 1];
                  && (last.number in m <==> HasRoom(last, maxBlocks))
                  && (last.number in m ==> m[last.number] == last.hash))
            && (forall n :: n in m ==> hs != [] && n <= hs[|hs| - 1].number)
  {
    if hs != [] {
      var init := hs[..|hs| - 1];
      WindowBounded(init, maxBlocks);
      RecordNewest(RecordedAll(init, maxBlocks), hs[|hs| - 1], maxBlocks);
    }
  }

  /** A window without room records nothing, so it never raises an alarm: a size of zero, which unset confirmations
      give, switches the detector off on every stream; so does a negative size that does not wrap. */
  lemma {:induction false} NothingDetectedWithoutRoom(hs: seq<Header>, maxBlocks: int, h: Header)
    requires maxBlocks <= 0 && forall i :: 0 <= i < |hs| ==> hs[i].number - maxBlocks < TWO64
    ensures RecordedAll(hs, maxBlocks) == map[] && Detect(RecordedAll(hs, maxBlocks), h) == None
  {
    if hs != [] {
      var last := hs[|hs| - 1];
      NothingDetectedWithoutRoom(hs[..|hs| - 1], maxBlocks, h);
      NewestKeptIff(map[], last, maxBlocks);
      NoKeys(RecordedAll(hs, maxBlocks));
    }
  }

  // ---------- Streams that jump back ----------

  /** Two witnesses at size 2. After blocks 5 and 6, block 0 makes the subtraction wrap and empties the window, the
      block itself included; block 3 wraps nothing, drops nothing, and leaves three entries. */
  lemma JumpingBack()
    ensures var a, b := Header(5, Hash(50), Hash(40), 0), Header(6, Hash(60), Hash(50), 0);
            && RecordedAll([a, b, Header(0, Hash(1), Hash(0), 0)], 2) == map[]
            && |RecordedAll([a, b, Header(3, Hash(30), Hash(20), 0)], 2)| == 3
  {
    var a, b := Header(5, Hash(50), Hash(40), 0), Header(6, Hash(60), Hash(50), 0);
    var m := map[5 := Hash(50), 6 := Hash(60)];
    assert RecordedAll([a, b], 2) == m by {
      assert [a, b][..1] == [a] && [a][..0] == [];
      assert RecordedAll([a], 2) == map[5 := Hash(50)];
    }
    var c, d := Header(0, Hash(1), Hash(0), 0), Header(3, Hash(30), Hash(20), 0);
    assert [a, b, c][..2] == [a, b] && [a, b, d][..2] == [a, b];
    AfterJump(m, c, d);
  }

  lemma AfterJump(m: Hashes, c: Header, d: Header)
    requires m == map[5 := Hash(50), 6 := Hash(60)] && c.number == 0 && d.number == 3
    ensures Recorded(m, c, 2) == map[] && |Recorded(m, d, 2)| == 3
  {
    assert Added(m, c).Keys == {0, 5, 6} && |Added(m, c).Keys| == |Added(m, c)|;
    NoKeys(Recorded(m, c, 2));
    assert Added(m, d).Keys == {3, 5, 6} && |Added(m, d).Keys| == |Added(m, d)|;
    assert Above(Added(m, d), 1).Keys == Added(m, d).Keys;
    assert |Above(Added(m, d), 1)| == |Above(Added(m, d), 1).Keys|;
  }
}
