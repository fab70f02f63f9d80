/** The stream of block headers (internal/indexer/listener/block_listener.go): polling, and a WebSocket subscription
    with backfill that falls back to polling. */
module Listeners {
  import opened Options
  import opened Detectors

  /** One reading of the chain: its head (None when the call fails), what each header request returns, and at which
      number, if any, the context is found cancelled instead of the header being sent. */
  datatype Tick = Tick(latest: Option<U64>, fetch: U64 -> Option<Header>, cancelledAt: U64 -> bool)
  {
    /** Block n is requested, and comes. */
    predicate Fetches(n: nat) {
      latest.Some? && n <= latest.value && fetch(n).Some?
    }

    predicate Sends(n: nat) {
      Fetches(n) && !cancelledAt(n)
    }

    predicate StopsAt(n: nat) {
      Fetches(n) && cancelledAt(n)
    }

    /** The node answers a request for block n with block n, and the chain is not at the end of the number range. */
    ghost predicate Honoured() {
      && (latest.Some? ==> latest.value < TWO64 - 1)
      && (forall n :: fetch(n).Some? ==> fetch(n).value.number == n)
    }
  }

  ghost predicate NodeHonours(ticks: seq<Tick>) {
    forall k :: 0 <= k < |ticks| ==> ticks[k].Honoured()
  }

  ghost predicate Contiguous(hs: seq<Header>, start: int) {
    forall i :: 0 <= i < |hs| ==> hs[i].number == start + i
  }

  // ---------- Where sending ends ----------

  /** The first number from n on that the tick does not send. */
  function TickEnd(t: Tick, n: nat): (end: nat)
    ensures n <= end
    decreases if t.latest.Some? then t.latest.value + 1 - n else 0
  {
    if t.Sends(n) then TickEnd(t, n + 1) else n
  }

  lemma {:induction false} TickEndIs(t: Tick, n: nat, end: nat)
    ensures end == TickEnd(t, n) <==> n <= end && !t.Sends(end) && forall k :: n <= k < end ==> t.Sends(k)
    decreases if t.latest.Some? then t.latest.value + 1 - n else 0
  {
    if t.Sends(n) {
      TickEndIs(t, n + 1, end);
    }
  }

  /** The number after the last one that the ticks send, one after the other, from n on. */
  function PollEnd(ticks: seq<Tick>, n: nat): (end: nat)
    ensures n <= end
  {
    if |ticks| == 0 then n
    else
      var init, end := ticks[..|ticks| - 1], PollEnd(ticks[..|ticks| - 1], n);
      if PollStopped(init, n) then end else TickEnd(ticks[|ticks| - 1], end)
  }

  /** Some tick finds the context cancelled when it is about to send. */
  predicate PollStopped(ticks: seq<Tick>, n: nat) {
    |ticks| != 0 &&
    var init := ticks[..|ticks| - 1];
    PollStopped(init, n) || ticks[|ticks| - 1].StopsAt(TickEnd(ticks[|ticks| - 1], PollEnd(init, n)))
  }

  ghost predicate CancelledAt(ticks: seq<Tick>, n: nat) {
    exists j :: 0 <= j < |ticks| && ticks[j].StopsAt(n)
  }

  /** Tick k sends n, and none before it is cancelled there. */
  ghost predicate ResumesAt(ticks: seq<Tick>, n: nat, k: nat) {
    k < |ticks| && ticks[k].Sends(n) && !CancelledAt(ticks[..k], n)
  }

  /** Some tick does. */
  ghost predicate Resumes(ticks: seq<Tick>, n: nat) {
    exists k :: ResumesAt(ticks, n, k)
  }

  lemma CancelledStep(ticks: seq<Tick>, n: nat)
    requires ticks != []
    ensures CancelledAt(ticks, n) <==> CancelledAt(ticks[..|ticks| - 1], n) || ticks[|ticks| - 1].StopsAt(n)
  {
    var m := |ticks| - 1;
    if CancelledAt(ticks[..m], n) {
      var j :| 0 <= j < m && ticks[..m][j].StopsAt(n);
      assert ticks[j].StopsAt(n);
    }
    if CancelledAt(ticks, n) {
      var j :| 0 <= j < |ticks| && ticks[j].StopsAt(n);
      assert j < m ==> ticks[..m][j].StopsAt(n);
    }
  }

  lemma ResumesAtInit(ticks: seq<Tick>, n: nat, k: nat)
    requires k < |ticks| - 1
    ensures ResumesAt(ticks, n, k) <==> ResumesAt(ticks[..|ticks| - 1], n, k)
  {
    assert ticks[..|ticks| - 1][..k] == ticks[..k];
  }

  lemma ResumesStep(ticks: seq<Tick>, n: nat)
    requires ticks != []
    ensures var init, last := ticks[..|ticks| - 1], ticks[|ticks| - 1];
            Resumes(ticks, n) <==> Resumes(init, n) || (last.Sends(n) && !CancelledAt(init, n))
  {
    var m: nat := |ticks| - 1;
    if Resumes(ticks[..m], n) {
      var k: nat :| ResumesAt(ticks[..m], n, k);
      ResumesAtInit(ticks, n, k);
    }
    if ticks[m].Sends(n) && !CancelledAt(ticks[..m], n) {
      assert ResumesAt(ticks, n, m);
    }
    if Resumes(ticks, n) {
      var k: nat :| ResumesAt(ticks, n, k);
      if k < m {
        ResumesAtInit(ticks, n, k);
      }
    }
  }

  /** Polling from n on sends anything at all exactly when it resumes at n. */
  lemma {:induction false} PolledIff(ticks: seq<Tick>, n: nat)
    ensures n < PollEnd(ticks, n) <==> Resumes(ticks, n)
    ensures PollEnd(ticks, n) == n ==> (PollStopped(ticks, n) <==> CancelledAt(ticks, n))
  {
    if |ticks| != 0 {
      PolledIff(ticks[..|ticks| - 1], n);
      ResumesStep(ticks, n);
      CancelledStep(ticks, n);
    }
  }

  /** A tick whose calls all succeed brings the poller level with the head it reads. */
  lemma {:induction false} LevelWithHead(ticks: seq<Tick>, n: nat, k: nat)
    requires k < |ticks| && !PollStopped(ticks, n)
    requires ticks[k].latest.Some? && forall m :: ticks[k].fetch(m).Some?
    ensures ticks[k].latest.value < PollEnd(ticks, n)
  {
    var last := |ticks| - 1;
    var before := PollEnd(ticks[..last], n);
    if k == last {
      TickEndIs(ticks[k], before, TickEnd(ticks[k], before));
    } else {
      LevelWithHead(ticks[..last], n, k);
    }
  }

  // ---------- The code ----------

  /** The inner loop of the poller, and the backfill: blocks from `next` up to the head, until one cannot be fetched or
      everything is cancelled. */
  method CatchUp(t: Tick, next: U64) returns (sent: seq<Header>, cancelled: bool)
    requires t.Honoured()
    ensures Contiguous(sent, next) && next + |sent| == TickEnd(t, next) < TWO64
    ensures forall i :: 0 <= i < |sent| ==> t.Sends(sent[i].number) && t.fetch(sent[i].number) == Some(sent[i])
    ensures cancelled == t.StopsAt(TickEnd(t, next))
  {
    sent, cancelled := [], false;
    if t.latest.None? {
      return;
    }
    var nextBlock := next;
    while nextBlock <= t.latest.value
      invariant nextBlock == next + |sent| < TWO64 && Contiguous(sent, next)
      invariant forall i :: 0 <= i < |sent| ==> t.Sends(sent[i].number) && t.fetch(sent[i].number) == Some(sent[i])
      invariant TickEnd(t, nextBlock) == TickEnd(t, next)
    {
      var header := t.fetch(nextBlock);
      if header.None? {
        return;
      }
      if t.cancelledAt(nextBlock) {
        cancelled := true;
        return;
      }
      sent := sent + [header.value];
      nextBlock := nextBlock + 1;
    }
  }

  /** Some tick sends h. */
  ghost predicate FetchedBy(ticks: seq<Tick>, h: Header) {
    exists k :: 0 <= k < |ticks| && ticks[k].Sends(h.number) && ticks[k].fetch(h.number) == Some(h)
  }

  /** Whatever fails and wherever it is cancelled, the poller sends every number once, in order, with no gap, each as
      some tick has fetched it below a head it has read; and it ends exactly where the ticks say. */
  method Poll(startBlock: U64, ticks: seq<Tick>) returns (sent: seq<Header>, cancelled: bool)
    requires NodeHonours(ticks)
    ensures Contiguous(sent, startBlock) && startBlock + |sent| == PollEnd(ticks, startBlock)
    ensures cancelled == PollStopped(ticks, startBlock)
    ensures forall i :: 0 <= i < |sent| ==> FetchedBy(ticks, sent[i])
  {
    sent, cancelled := [], false;
    var nextBlock := startBlock;
    assert ticks[..0] == [] && ticks[..|ticks|] == ticks;
    for k := 0 to |ticks|
      invariant nextBlock == startBlock + |sent| == PollEnd(ticks[..k], startBlock) && Contiguous(sent, startBlock)
      invariant nextBlock < TWO64 && !PollStopped(ticks[..k], startBlock)
      invariant forall i :: 0 <= i < |sent| ==> FetchedBy(ticks, sent[i])
    {
      assert ticks[..k + 1][..k] == ticks[..k];
      var more;
      more, cancelled := CatchUp(ticks[k], nextBlock);
      assert forall i :: 0 <= i < |more| ==> FetchedBy(ticks, more[i]);
      sent := sent + more;
      nextBlock := startBlock + |sent|;
      if cancelled {
        StoppedStays(ticks, startBlock, k + 1);
        return;
      }
    }
  }

  /** Nothing is sent after a cancellation. */
  lemma {:induction false} StoppedStays(ticks: seq<Tick>, n: nat, k: nat)
    requires k <= |ticks| && PollStopped(ticks[..k], n)
    ensures PollStopped(ticks, n) && PollEnd(ticks, n) == PollEnd(ticks[..k], n)
  {
    if k < |ticks| {
      var init := ticks[..|ticks| - 1];
      assert init[..k] == ticks[..k];
      StoppedStays(init, n, k);
    } else {
      assert ticks[..k] == ticks;
    }
  }

  // ---------- Subscriptions ----------

  /** What becomes of a WebSocket subscription: it is refused; or it opens and, after a first reading with its backfill,
      delivers heads, some of them nil, until it fails or everything is cancelled. */
  datatype Subscription = Refused | Opened(first: Tick, heads: seq<Option<Header>>, failed: bool)

  ghost predicate SubscriptionHonours(sub: Subscription) {
    sub.Opened? ==> sub.first.Honoured()
  }

  /** The headers a subscription hands on, by where they come from. */
  datatype Stream = Stream(backfilled: seq<Header>, pushed: seq<Header>, polled: seq<Header>)
  {
    function All(): seq<Header> {
      backfilled + pushed + polled
    }
  }

  /** The heads that are not nil. */
  function Heads(heads: seq<Option<Header>>): seq<Header> {
    if heads == [] then []
    else
      var init, h := Heads(heads[..|heads| - 1]), heads[|heads| - 1];
      if h.Some? then init + [h.value] else init
  }

  /** In their order, each once. */
  lemma {:induction false} HeadsConcat(a: seq<Option<Header>>, b: seq<Option<Header>>)
    ensures Heads(a + b) == Heads(a) + Heads(b)
  {
    if b == [] {
      assert a + b == a;
    } else {
      var n := |b| - 1;
      HeadsConcat(a, b[..n]);
      assert (a + b)[..|a + b| - 1] == a + b[..n];
    }
  }

  lemma OneHead(h: Option<Header>)
    ensures Heads([h]) == if h.Some? then [h.value] else []
  {
    assert [h][..0] == [];
  }

  /** Where polling takes over: after the head that was read before the backfill, whatever has been sent since. */
  function PolledFrom(sub: Subscription, startBlock: U64): U64 {
    if sub.Opened? && sub.first.latest.Some? && sub.first.latest.value > 0 then ToU64(sub.first.latest.value + 1)
    else startBlock
  }

  /** Which stream a subscription makes, to the last header. */
  ghost predicate Streamed(sub: Subscription, ticks: seq<Tick>, startBlock: U64, s: Stream) {
    && Contiguous(s.backfilled, startBlock)
    && Contiguous(s.polled, PolledFrom(sub, startBlock))
    && var polledEnd := PolledFrom(sub, startBlock) + |s.polled|;
       match sub
       case Refused => s.backfilled == [] && s.pushed == [] && polledEnd == PollEnd(ticks, startBlock)
       case Opened(first, heads, failed) =>
         var end := TickEnd(first, startBlock);
         && startBlock + |s.backfilled| == end
         && (if first.StopsAt(end) then s.pushed == [] && s.polled == []
             else s.pushed == Heads(heads)
                  && polledEnd
                     == if failed then PollEnd(ticks, PolledFrom(sub, startBlock)) else PolledFrom(sub, startBlock))
  }

  /** A WebSocket subscription with backfill, falling back to the poller when it is refused or fails. */
  method Subscribe(startBlock: U64, sub: Subscription, ticks: seq<Tick>) returns (s: Stream)
    requires SubscriptionHonours(sub) && NodeHonours(ticks)
    ensures Streamed(sub, ticks, startBlock, s)
  {
    var cancelled;
    if sub.Refused? {
      var polled;
      polled, cancelled := Poll(startBlock, ticks);
      return Stream([], [], polled);
    }
    var backfilled;
    backfilled, cancelled := CatchUp(sub.first, startBlock);
    if cancelled {
      return Stream(backfilled, [], []);
    }
    var pushed := [];
    for i := 0 to |sub.heads|
      invariant pushed == Heads(sub.heads[..i])
    {
      if sub.heads[i].Some? {
        pushed := pushed + [sub.heads[i].value];
      }
      assert sub.heads[..i + 1][..i] == sub.heads[..i];
    }
    assert sub.heads[..|sub.heads|] == sub.heads;
    if !sub.failed {
      return Stream(backfilled, pushed, []);
    }
    var nextBlock := startBlock;
    if sub.first.latest.Some? && sub.first.latest.value > 0 {
      nextBlock := ToU64(sub.first.latest.value + 1);
    }
    var polled;
    polled, cancelled := Poll(nextBlock, ticks);
    return Stream(backfilled, pushed, polled);
  }

  // ---------- Gaps and repeats ----------

  /** What a subscription and the ticks after it must do: be refused; or be cancelled during the backfill; or push heads
      that continue the backfill from wherever it ended, and then, if it fails and polling sends anything, be taken over
      just where those end. */
  ghost predicate Continues(sub: Subscription, ticks: seq<Tick>, startBlock: U64) {
    match sub
    case Refused => true
    case Opened(first, heads, failed) =>
      var end, from := TickEnd(first, startBlock), PolledFrom(sub, startBlock);
      first.StopsAt(end)
      || (Contiguous(Heads(heads), end) && (failed && Resumes(ticks, from) ==> from == end + |Heads(heads)|))
  }

  /** The stream has no gap and no repeat exactly under that condition. */
  lemma StreamContiguousIff(sub: Subscription, ticks: seq<Tick>, startBlock: U64, s: Stream)
    requires Streamed(sub, ticks, startBlock, s)
    ensures Contiguous(s.All(), startBlock) <==> Continues(sub, ticks, startBlock)
  {
    var b, p, q := s.backfilled, s.pushed, s.polled;
    ContiguousConcat(b, p, startBlock);
    ContiguousConcat(b + p, q, startBlock);
    PolledIff(ticks, PolledFrom(sub, startBlock));
    if q != [] {
      assert q[0].number == PolledFrom(sub, startBlock);
    }
  }

  lemma ContiguousConcat(a: seq<Header>, b: seq<Header>, start: int)
    ensures Contiguous(a + b, start) <==> Contiguous(a, start) && Contiguous(b, start + |a|)
  {
    if Contiguous(a + b, start) {
      assert forall i :: 0 <= i < |a| ==> a[i] == (a + b)[i];
      assert forall i :: 0 <= i < |b| ==> b[i] == (a + b)[|a| + i];
    }
  }

  /** A fallback in the usual course of things, where pushed heads lie above the head read at first and polling resumes:
      it keeps the stream whole only if the backfill had reached that head and nothing had been pushed. */
  lemma FallbackContiguousIff(sub: Subscription, ticks: seq<Tick>, startBlock: U64, s: Stream)
    requires Streamed(sub, ticks, startBlock, s) && SubscriptionHonours(sub)
    requires sub.Opened? && sub.failed && !sub.first.StopsAt(TickEnd(sub.first, startBlock))
    requires sub.first.latest.Some? && 0 < sub.first.latest.value && startBlock <= sub.first.latest.value
    requires forall h :: h in Heads(sub.heads) ==> sub.first.latest.value < h.number
    requires Resumes(ticks, PolledFrom(sub, startBlock))
    ensures var latest := sub.first.latest.value;
            Contiguous(s.All(), startBlock) <==> TickEnd(sub.first, startBlock) == latest + 1 && Heads(sub.heads) == []
  {
    StreamContiguousIff(sub, ticks, startBlock, s);
    var hs, end := Heads(sub.heads), TickEnd(sub.first, startBlock);
    if hs != [] {
      assert hs[0] in hs;
    }
  }

  /** When even the head could not be read before the backfill, or was 0, polling takes over at the start: whole only if
      nothing had been pushed. */
  lemma FallbackWithoutHeadIff(sub: Subscription, ticks: seq<Tick>, startBlock: U64, s: Stream)
    requires Streamed(sub, ticks, startBlock, s) && 0 < startBlock
    requires sub.Opened? && sub.failed && (sub.first.latest.None? || sub.first.latest.value == 0)
    requires Resumes(ticks, startBlock)
    ensures s.polled != [] && s.polled[0].number == startBlock
    ensures Contiguous(s.All(), startBlock) <==> Heads(sub.heads) == []
  {
    StreamContiguousIff(sub, ticks, startBlock, s);
    PolledIff(ticks, startBlock);
  }

  /** A header at a given number. */
  function At(n: U64): Header {
    Header(n, Hash(n), Hash(n - 1), 0)
  }

  /** A subscription that skips: the head is 2, no block can be fetched, and head 3 is pushed. Blocks 1 and 2 are never
      sent. */
  lemma SkippingSubscription(s: Stream)
    requires Streamed(Opened(Tick(Some(2), n => None, n => false), [Some(At(3))], false), [], 1, s)
    ensures s.All() == [At(3)] && !Contiguous(s.All(), 1)
  {
    OneHead(Some(At(3)));
    assert s.All()[0] == At(3);
  }

  /** A node whose every call succeeds, with its head at n. */
  function NodeAt(n: U64): Tick {
    Tick(Some(n), (k: U64) => Some(At(k)), (k: U64) => false)
  }

  lemma OneTickToHead(start: nat, n: U64)
    requires start <= n + 1
    ensures TickEnd(NodeAt(n), start) == PollEnd([NodeAt(n)], start) == n + 1
  {
    TickEndIs(NodeAt(n), start, n + 1);
    assert [NodeAt(n)][..0] == [];
  }

  /** One block backfilled, one pushed, and polling that takes over at the latter. */
  lemma PolledAgain(sub: Subscription, ticks: seq<Tick>, startBlock: U64, s: Stream, h: Header)
    requires Streamed(sub, ticks, startBlock, s) && sub.Opened? && sub.failed && Heads(sub.heads) == [h]
    requires TickEnd(sub.first, startBlock) == startBlock + 1 && !sub.first.StopsAt(startBlock + 1)
    requires PolledFrom(sub, startBlock) == h.number && PollEnd(ticks, h.number) == h.number + 1
    ensures |s.All()| == 3 && s.All()[1] == h && s.All()[2].number == h.number
    ensures !Contiguous(s.All(), startBlock)
  {
    assert s.All()[1] == s.pushed[0] && s.All()[2] == s.polled[0];
  }

  /** And one that repeats: the head is 1, block 1 is backfilled, head 2 is pushed, and then the subscription fails;
      polling takes over at 2. */
  lemma RepeatingSubscription(s: Stream)
    requires Streamed(Opened(NodeAt(1), [Some(At(2))], true), [NodeAt(2)], 1, s)
    ensures |s.All()| == 3 && s.All()[1].number == s.All()[2].number == 2 && !Contiguous(s.All(), 1)
  {
    OneTickToHead(1, 1);
    OneTickToHead(2, 2);
    OneHead(Some(At(2)));
    PolledAgain(Opened(NodeAt(1), [Some(At(2))], true), [NodeAt(2)], 1, s, At(2));
  }
}
