/** The loop of one chain as steps of the multi-chain protocol: whole passes refine single store operations. */
module ChainRefinement {
  import opened Detectors
  import opened Stores
  import opened ChainSteps
  import opened ChainIndexers

  // ---------- The loop body refines the protocol ----------

  /** The environment's choice at each place, given the outcomes of the header's calls. */
  function ChoiceAt(l: ChainState, o: Outcomes): Choice {
    var raw := if o.logs.None? then []
               else seq(|o.logs.value|, i requires 0 <= i < |o.logs.value| => o.logs.value[i].log);
    var ok := match l.place
              case DeletingEvents(_) => o.deleteEvents
              case DeletingBlocks(_) => o.deleteBlocks
              case RewindingSync(_) => o.rewind
              case SavingBlock => o.saveBlock
              case AdvancingSync => o.advance
              case FetchingLogs => o.logs.Some?
              case SavingEvents(left) =>
                o.logs.Some? && 0 < |left| <= |o.logs.value| && o.logs.value[|o.logs.value| - |left|].saved
              case Idle => true;
    Choice(l.header, ok, raw)
  }

  function Stage(p: Place): nat {
    match p
    case DeletingEvents(_) => 7
    case DeletingBlocks(_) => 6
    case RewindingSync(_) => 5
    case SavingBlock => 4
    case AdvancingSync => 3
    case FetchingLogs => 2
    case SavingEvents(_) => 1
    case Idle => 0
  }

  /** Single steps until the goroutine waits for the next header. */
  function UntilIdle(c: int, l: ChainState, s: StoreState, o: Outcomes): (ChainState, StoreState)
    decreases Stage(l.place), if l.place.SavingEvents? then |l.place.logs| else 0
  {
    if l.place.Idle? then (l, s)
    else
      var (l', s') := Step(c, l, s, ChoiceAt(l, o));
      UntilIdle(c, l', s', o)
  }

  /** Takes one step, if there is one to take. */
  lemma Advance(c: int, l: ChainState, s: StoreState, o: Outcomes) returns (l': ChainState, s': StoreState)
    requires !l.place.Idle?
    ensures (l', s') == Step(c, l, s, ChoiceAt(l, o))
    ensures UntilIdle(c, l, s, o) == UntilIdle(c, l', s', o)
    ensures l'.place.Idle? ==> UntilIdle(c, l', s', o) == (l', s')
  {
    var next := Step(c, l, s, ChoiceAt(l, o));
    l', s' := next.0, next.1;
  }

  lemma {:induction false} SavingEventsUntilIdle(c: int, l: ChainState, s: StoreState, o: Outcomes,
                                                 logs: seq<LogOutcome>)
    requires o.logs.Some? && |logs| <= |o.logs.value| && logs == o.logs.value[|o.logs.value| - |logs|..]
    requires l.place.SavingEvents? && |l.place.logs| == |logs|
    requires forall i :: 0 <= i < |logs| ==> l.place.logs[i] == logs[i].log
    ensures UntilIdle(c, l, s, o) == (l.(place := Idle), s.(events := s.events + SavedRows(c, logs)))
    decreases |logs|
  {
    if logs == [] {
      assert s.events + [] == s.events;
    } else {
      var (l', s') := Step(c, l, s, ChoiceAt(l, o));
      SavingEventsUntilIdle(c, l', s', o, logs[1..]);
      assert s'.events + SavedRows(c, logs[1..]) == s.events + SavedRows(c, logs);
    }
  }

  /** From the block's save on. */
  lemma SavingBlockUntilIdle(c: int, l: ChainState, s: StoreState, o: Outcomes)
    requires l.place.SavingBlock?
    ensures var (s2, failed) := BlockProcessed(s, c, l.header, o);
            UntilIdle(c, l, s, o)
            == (l.(place := Idle),
                if failed || o.logs.None? then s2 else s2.(events := s2.events + SavedRows(c, o.logs.value)))
  {
    var l1, s1 := Advance(c, l, s, o);
    if o.saveBlock {
      var l2, s2 := Advance(c, l1, s1, o);
      if o.advance {
        var l3, s3 := Advance(c, l2, s2, o);
        if o.logs.Some? {
          SavingEventsUntilIdle(c, l3, s3, o, o.logs.value);
        }
      }
    }
  }

  /** From the rewinding of the sync mark on. */
  lemma RewindUntilIdle(c: int, l: ChainState, s: StoreState, o: Outcomes)
    requires l.place.RewindingSync? && l.place.fork > 0
    ensures UntilIdle(c, l, s, o)
            == if o.rewind then
                 UntilIdle(c, Adopt(RollBack(l, l.place.fork)), s.(syncs := s.syncs[c := l.place.fork - 1]), o)
               else (l.(place := Idle), s)
  {
    var l1, s1 := Advance(c, l, s, o);
  }

  /** From the detection of a reorganisation on. */
  lemma ReorgUntilIdle(c: int, l: ChainState, s: StoreState, o: Outcomes)
    requires l.place.DeletingEvents?
    ensures var (s1, failed) := ReorgHandled(s, c, l.place.fork, o);
            UntilIdle(c, l, s, o)
            == if failed then (l.(place := Idle), s1) else UntilIdle(c, Adopt(RollBack(l, l.place.fork)), s1, o)
  {
    var l2, s2 := Advance(c, l, s, o);
    if o.deleteEvents {
      var l3, s3 := Advance(c, l2, s2, o);
      if l3.place.RewindingSync? {
        RewindUntilIdle(c, l3, s3, o);
      }
    }
  }

  /** The loop body of the code is the protocol's steps in the protocol's order, from one idle point to the next. */
  lemma HeaderHandledIsSteps(c: int, l: ChainState, s: StoreState, h: Header, o: Outcomes)
    requires l.place.Idle?
    ensures var (window, s') := HeaderHandled(c, l.window, l.maxBlocks, s, h, o);
            var (arrived, s0) := Step(c, l, s, Choice(h, true, []));
            UntilIdle(c, arrived, s0, o) == (ChainState(window, l.maxBlocks, h, Idle), s')
  {
    var (l1, s1) := Step(c, l, s, Choice(h, true, []));
    if l1.place.SavingBlock? {
      SavingBlockUntilIdle(c, l1, s1, o);
    } else {
      ReorgUntilIdle(c, l1, s1, o);
      SavingBlockUntilIdle(c, Adopt(RollBack(l1, l1.place.fork)), ReorgHandled(s, c, l1.place.fork, o).0, o);
    }
  }

  /** Those steps are a run of the whole system in which no other chain moves. */
  lemma {:induction false} UntilIdleIsRun(w: World, c: int, o: Outcomes) returns (schedule: seq<Action>)
    requires c in w.chains
    ensures var (l, s) := UntilIdle(c, w.chains[c], w.store, o);
            Run(w, schedule) == World(s, w.chains[c := l])
    ensures OnlyChain(schedule, c) == schedule
    decreases Stage(w.chains[c].place), if w.chains[c].place.SavingEvents? then |w.chains[c].place.logs| else 0
  {
    if w.chains[c].place.Idle? {
      schedule := [];
      assert w.chains[c := w.chains[c]] == w.chains;
    } else {
      var a := Action(c, ChoiceAt(w.chains[c], o));
      var w1 := Act(w, a);
      var rest := UntilIdleIsRun(w1, c, o);
      schedule := [a] + rest;
      RunFrom(w, a, rest);
      OnlyChainFrom(a, rest, c);
      assert w1.chains[c := Run(w, schedule).chains[c]] == w.chains[c := Run(w, schedule).chains[c]];
    }
  }

  lemma {:induction false} RunFrom(w: World, a: Action, rest: seq<Action>)
    ensures Run(w, [a] + rest) == Run(Act(w, a), rest)
  {
    var whole := [a] + rest;
    if rest == [] {
      assert whole[..0] == [];
    } else {
      RunFrom(w, a, rest[..|rest| - 1]);
      assert whole[..|whole| - 1] == [a] + rest[..|rest| - 1];
    }
  }

  lemma {:induction false} OnlyChainFrom(a: Action, rest: seq<Action>, c: int)
    requires a.chainID == c
    ensures OnlyChain([a] + rest, c) == [a] + OnlyChain(rest, c)
  {
    var whole := [a] + rest;
    if rest == [] {
      assert whole[..0] == [];
    } else {
      OnlyChainFrom(a, rest[..|rest| - 1], c);
      assert whole[..|whole| - 1] == [a] + rest[..|rest| - 1];
    }
  }

  // ---------- In any interleaving ----------

  lemma {:induction false} RunConcat(w: World, a: seq<Action>, b: seq<Action>)
    ensures Run(w, a + b) == Run(Run(w, a), b)
  {
    if b == [] {
      assert a + b == a;
    } else {
      RunConcat(w, a, b[..|b| - 1]);
      assert (a + b)[..|a + b| - 1] == a + b[..|b| - 1];
    }
  }

  lemma {:induction false} OnlyChainConcat(a: seq<Action>, b: seq<Action>, c: int)
    ensures OnlyChain(a + b, c) == OnlyChain(a, c) + OnlyChain(b, c)
  {
    if b == [] {
      assert a + b == a;
    } else {
      OnlyChainConcat(a, b[..|b| - 1], c);
      assert (a + b)[..|a + b| - 1] == a + b[..|b| - 1];
    }
  }

  /** One header's treatment, as steps of the whole system. */
  lemma HeaderIsRun(w: World, c: int, d: Delivery) returns (schedule: seq<Action>)
    requires c in w.chains && w.chains[c].place.Idle?
    ensures OnlyChain(schedule, c) == schedule
    ensures var l := w.chains[c];
            var (window, s) := HeaderHandled(c, l.window, l.maxBlocks, w.store, d.header, d.outcomes);
            Run(w, schedule) == World(s, w.chains[c := ChainState(window, l.maxBlocks, d.header, Idle)])
  {
    var l := w.chains[c];
    var arrival := Action(c, Choice(d.header, true, []));
    var w1 := Act(w, arrival);
    var rest := UntilIdleIsRun(w1, c, d.outcomes);
    HeaderHandledIsSteps(c, l, w.store, d.header, d.outcomes);
    schedule := [arrival] + rest;
    RunFrom(w, arrival, rest);
    OnlyChainFrom(arrival, rest, c);
    var after := Run(w, schedule).chains[c];
    assert w1.chains[c := after] == w.chains[c := after];
  }

  /** A whole run of the loop, as steps of the whole system in which only chain c moves. */
  lemma {:induction false} LoopIsRun(w: World, c: int, ds: seq<Delivery>) returns (schedule: seq<Action>)
    requires c in w.chains && w.chains[c].place.Idle? && w.chains[c].window == map[]
    ensures OnlyChain(schedule, c) == schedule
    ensures var (window, s) := AllHandled(c, w.chains[c].maxBlocks, w.store, ds);
            var after := Run(w, schedule);
            && after.store == s && c in after.chains && after.chains[c].window == window
            && after.chains[c].place.Idle? && after.chains[c].maxBlocks == w.chains[c].maxBlocks
  {
    if ds == [] {
      schedule := [];
    } else {
      var first := LoopIsRun(w, c, ds[..|ds| - 1]);
      var last := HeaderIsRun(Run(w, first), c, ds[|ds| - 1]);
      schedule := first + last;
      RunConcat(w, first, last);
      OnlyChainConcat(first, last, c);
    }
  }

  /** However its steps are interleaved with those of other chains, the loop leaves the chain's detector and share as
      AllHandled says; so every statement above about AllHandled holds in every interleaving. */
  lemma LoopInAnyInterleaving(w: World, c: int, ds: seq<Delivery>) returns (steps: seq<Action>)
    requires c in w.chains && w.chains[c].place.Idle? && w.chains[c].window == map[]
    ensures forall schedule :: OnlyChain(schedule, c) == steps ==>
              var (window, s) := AllHandled(c, w.chains[c].maxBlocks, w.store, ds);
              var together := Run(w, schedule);
              && c in together.chains && together.chains[c].window == window
              && ShareOf(together.store, c) == ShareOf(s, c)
  {
    steps := LoopIsRun(w, c, ds);
    forall schedule | OnlyChain(schedule, c) == steps
      ensures var (window, s) := AllHandled(c, w.chains[c].maxBlocks, w.store, ds);
              var together := Run(w, schedule);
              && c in together.chains && together.chains[c].window == window
              && ShareOf(together.store, c) == ShareOf(s, c)
    {
      ChainsDoNotInterfere(w, w, schedule, c);
    }
  }
}
