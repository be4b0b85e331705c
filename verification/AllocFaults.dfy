/** The two ways in which the reader goes wrong, each reached by a run of a few steps. */
module AllocFaults {
  import opened AllocTracker
  import opened AllocAccounting
  import opened AllocRuns

  lemma Prepend(w: World, a: Action, rest: seq<Action>)
    requires Enabled(w, a) && Clean(w, a) && Runs(Next(w, a), rest)
    ensures Runs(w, [a] + rest) && Final(w, [a] + rest) == Final(Next(w, a), rest)
  {
    assert ([a] + rest)[1..] == rest;
  }

  lemma Nowhere(w: World)
    ensures Runs(w, []) && Final(w, []) == w
  {
  }

  /** The storage of `t`, with a single block of eight bytes ever counted. */
  function One(t: Thread, count: word, bytes: word, unreported: word, reset: bool, alive: bool): Counters {
    Counters(count, bytes, unreported, 8, reset, t, alive)
  }

  lemma LastWins<V>(m: map<Addr, V>, k: Addr, x: V, y: V)
    ensures m[k := x][k := y] == m[k := y]
  {
  }

  /** The first allocation of a thread. */
  lemma FirstAlloc(w: World, t: Thread, size: word, spot: Addr, block: Addr)
    requires t !in w.store.local && spot !in w.store.nodes
    ensures var c := Charged(NewCounters(t), size);
            AfterAlloc(w, t, size, spot, block) == w.(
              store := Store([spot] + w.store.order, w.store.nodes[spot := c],
                             w.store.blocks[block := AllocHeader(size, spot)], w.store.local[t := spot]),
              levels := w.levels[spot := [c.memCurrent]], shown := w.shown[spot := 0], counted := w.counted + 1)
  {
    var c := Charged(NewCounters(t), size);
    LastWins(w.store.nodes, spot, NewCounters(t), c);
    LastWins(w.levels, spot, [], [c.memCurrent]);
    assert Enlist(w, t, spot).levels == w.levels[spot := []];
    assert [] + [c.memCurrent] == [c.memCurrent];
    hide Charged, NewCounters;
  }

  // ----- the last storage -----

  function Alone(c: Counters, blocks: map<Addr, AllocHeader>, local: map<Thread, Addr>): Store {
    Store([1], map[1 := c], blocks, local)
  }

  const HEADER_OF_1 := AllocHeader(8, 1)

  function AfterMalloc(): World {
    World(Alone(One(1, 1, 8, 1, false, true), map[100 := HEADER_OF_1], map[1 := 1]), map[], {}, Idle,
          map[1 := [8]], map[1 := 0], 1, 0, [], [])
  }

  function AfterExit(): World {
    World(Alone(One(1, 0, 0, 1, false, true), map[], map[]), map[], {1}, Idle, map[1 := [8]], map[1 := 0], 1, 0, [], [])
  }

  function AfterReport(): World {
    World(Alone(One(1, 0, 0, 0, true, false), map[], map[]), map[], {1}, Told(1), map[1 := []], map[1 := 8], 1, 1, [1], [])
  }

  lemma MallocStep()
    ensures Enabled(INIT, Malloc(1, 8, 1, 100)) && Clean(INIT, Malloc(1, 8, 1, 100))
    ensures Next(INIT, Malloc(1, 8, 1, 100)) == AfterMalloc()
  {
    FirstAlloc(INIT, 1, 8, 1, 100);
    assert Charged(NewCounters(1), 8) == One(1, 1, 8, 1, false, true);
    hide AfterAlloc, Charged, NewCounters;
  }

  lemma ReleaseAndExit() returns (rest: seq<Action>)
    ensures Runs(AfterMalloc(), rest) && Final(AfterMalloc(), rest) == AfterExit()
  {
    var w1 := AfterMalloc();
    var begun := Alone(One(1, 0, 8, 1, false, true), map[100 := HEADER_OF_1], map[1 := 1]);
    var w2 := w1.(store := begun, pending := map[100 := 1]);
    var w3 := w1.(store := Alone(One(1, 0, 0, 1, false, true), map[], map[1 := 1]));
    assert Next(w1, StartRelease(1, 100)) == w2;
    assert Next(w2, FinishFree(100)) == w3;
    assert Next(w3, Exit(1)) == AfterExit();
    Nowhere(AfterExit());
    hide Runs, Final, Next;
    Prepend(w3, Exit(1), []);
    Prepend(w2, FinishFree(100), [Exit(1)] + []);
    rest := [StartRelease(1, 100)] + ([FinishFree(100)] + ([Exit(1)] + []));
    Prepend(w1, StartRelease(1, 100), [FinishFree(100)] + ([Exit(1)] + []));
  }

  lemma ReportSteps() returns (rest: seq<Action>)
    ensures Runs(AfterExit(), rest) && Final(AfterExit(), rest) == AfterReport()
  {
    var w := AfterExit();
    var c := One(1, 0, 0, 1, false, false);
    var v1 := w.(store := Alone(c, map[], map[]), reader := Visiting(1), start := [1], visited := []);
    var v2 := v1.(store := Alone(c.(peakNeedsReset := true), map[], map[]), reader := PeakTold(1),
                  levels := map[1 := []], shown := map[1 := 8]);
    var v3 := v2.(reader := CountRead(1, 1));
    assert Next(w, Begin(false)) == v1;
    assert Next(v1, TakePeak) == v2;
    assert Next(v2, ReadCount) == v3;
    assert Next(v3, SubtractCount) == AfterReport();
    Nowhere(AfterReport());
    hide Runs, Final, Next;
    Prepend(v3, SubtractCount, []);
    Prepend(v2, ReadCount, [SubtractCount] + []);
    Prepend(v1, TakePeak, [ReadCount] + ([SubtractCount] + []));
    rest := [Begin(false)] + ([TakePeak] + ([ReadCount] + ([SubtractCount] + [])));
    Prepend(w, Begin(false), [TakePeak] + ([ReadCount] + ([SubtractCount] + [])));
  }

  lemma {:induction false} Joined(w: World, a: seq<Action>, b: seq<Action>)
    requires Runs(w, a) && Runs(Final(w, a), b)
    ensures Runs(w, a + b) && Final(w, a + b) == Final(Final(w, a), b)
    decreases a
  {
    hide Next, Enabled, Clean;
    if a == [] {
      assert a + b == b;
    } else {
      assert (a + b)[1..] == a[1..] + b && (a + b)[0] == a[0];
      Joined(Next(w, a[0]), a[1..], b);
    }
  }

  predicate FaultsNext(w: World) { w.reader.Told? && ProbeIsTrue(w, NextOf(w.store, w.reader.node), true) && Faults(w) }

  lemma ReportFaults()
    ensures FaultsNext(AfterReport())
  {
  }

  /** A thread that allocates once, releases and ends before anybody else has allocated leads the reader into
      the faulting unlink. */
  lemma LastReclaimIsReachable()
    ensures exists actions: seq<Action> :: Runs(INIT, actions) && FaultsNext(Final(INIT, actions))
  {
    hide *;
    MallocStep();
    var first := ReleaseAndExit();
    var second := ReportSteps();
    ReportFaults();
    Joined(AfterMalloc(), first, second);
    Prepend(INIT, Malloc(1, 8, 1, 100), first + second);
  }

  // ----- a release under way -----

  function Pair(c: Counters): Store {
    Store([2, 1], map[1 := One(1, 1, 8, 1, false, true), 2 := c],
          map[100 := HEADER_OF_1, 200 := AllocHeader(8, 2)], map[1 := 1])
  }

  function BothAllocated(): World {
    World(Pair(One(2, 1, 8, 1, false, true)).(local := map[1 := 1, 2 := 2]), map[], {}, Idle,
          map[1 := [8], 2 := [8]], map[1 := 0, 2 := 0], 2, 0, [], [])
  }

  function SecondReported(): World {
    World(Pair(One(2, 1, 8, 0, true, false)), map[], {2}, Told(2),
          map[1 := [8], 2 := []], map[1 := 0, 2 := 8], 2, 1, [2, 1], [])
  }

  lemma SecondMallocStep()
    ensures Enabled(AfterMalloc(), Malloc(2, 8, 2, 200)) && Clean(AfterMalloc(), Malloc(2, 8, 2, 200))
    ensures Next(AfterMalloc(), Malloc(2, 8, 2, 200)) == BothAllocated()
  {
    FirstAlloc(AfterMalloc(), 2, 8, 2, 200);
    assert Charged(NewCounters(2), 8) == One(2, 1, 8, 1, false, true);
    hide AfterAlloc, Charged, NewCounters;
  }

  function SecondExited(): World { BothAllocated().(store := Pair(One(2, 1, 8, 1, false, true)), dead := {2}) }

  function SecondVisited(): World {
    SecondExited().(store := Pair(One(2, 1, 8, 1, false, false)), reader := Visiting(2), start := [2, 1])
  }

  lemma SecondVisitSteps()
    ensures Runs(BothAllocated(), [Exit(2)] + ([Begin(false)] + []))
    ensures Final(BothAllocated(), [Exit(2)] + ([Begin(false)] + [])) == SecondVisited()
  {
    assert Next(BothAllocated(), Exit(2)) == SecondExited();
    assert Next(SecondExited(), Begin(false)) == SecondVisited();
    Nowhere(SecondVisited());
    hide Runs, Final, Next;
    Prepend(SecondExited(), Begin(false), []);
    Prepend(BothAllocated(), Exit(2), [Begin(false)] + []);
  }

  function SecondPeakTold(): World {
    SecondVisited().(store := Pair(One(2, 1, 8, 1, true, false)), reader := PeakTold(2),
                     levels := map[1 := [8], 2 := []], shown := map[1 := 0, 2 := 8])
  }

  function SecondCounted(): World { SecondPeakTold().(reader := CountRead(2, 1)) }

  lemma SecondPeakStep()
    ensures Enabled(SecondVisited(), TakePeak) && Clean(SecondVisited(), TakePeak)
    ensures Next(SecondVisited(), TakePeak) == SecondPeakTold()
  {
  }

  lemma SecondCountSteps()
    ensures Enabled(SecondPeakTold(), ReadCount) && Clean(SecondPeakTold(), ReadCount)
    ensures Next(SecondPeakTold(), ReadCount) == SecondCounted()
    ensures Enabled(SecondCounted(), SubtractCount) && Clean(SecondCounted(), SubtractCount)
    ensures Next(SecondCounted(), SubtractCount) == SecondReported()
  {
  }

  lemma SecondTellSteps()
    ensures Runs(SecondVisited(), [TakePeak] + ([ReadCount] + ([SubtractCount] + [])))
    ensures Final(SecondVisited(), [TakePeak] + ([ReadCount] + ([SubtractCount] + []))) == SecondReported()
  {
    hide *;
    SecondPeakStep();
    SecondCountSteps();
    Nowhere(SecondReported());
    Prepend(SecondCounted(), SubtractCount, []);
    Prepend(SecondPeakTold(), ReadCount, [SubtractCount] + []);
    Prepend(SecondVisited(), TakePeak, [ReadCount] + ([SubtractCount] + []));
  }

  lemma SecondReportSteps() returns (rest: seq<Action>)
    ensures Runs(BothAllocated(), rest) && Final(BothAllocated(), rest) == SecondReported()
  {
    hide *;
    SecondVisitSteps();
    SecondTellSteps();
    var visit, tell := [Exit(2)] + ([Begin(false)] + []), [TakePeak] + ([ReadCount] + ([SubtractCount] + []));
    Joined(BothAllocated(), visit, tell);
    rest := visit + tell;
  }

  function Begun(): World {
    SecondReported().(store := Pair(One(2, 0, 8, 0, true, false)), pending := map[200 := 1])
  }

  ghost predicate DanglesNext(w: World) {
    && Enabled(w, Advance(true)) && Dangles(w) && !Faults(w)
    && !Anchored(Next(w, Advance(true)).store)
  }

  lemma BegunDangles()
    ensures Runs(SecondReported(), [StartRelease(1, 200)])
    ensures Final(SecondReported(), [StartRelease(1, 200)]) == Begun() && DanglesNext(Begun())
  {
    var w := SecondReported();
    assert Next(w, StartRelease(1, 200)) == Begun();
    assert 200 in Begun().pending && Begun().store.blocks[200].counters == 2;
    assert Enabled(Begun(), Advance(true)) && Dangles(Begun()) && !Faults(Begun());
    var after := Next(Begun(), Advance(true));
    assert 200 in after.store.blocks && 2 !in after.store.nodes by { hide Faults, Dangles, Clean, Enabled; }
    Nowhere(Begun());
    hide Next, Final, Runs, Enabled, Dangles, Faults;
    Prepend(w, StartRelease(1, 200), []);
    assert [StartRelease(1, 200)] + [] == [StartRelease(1, 200)];
  }

  /** A thread has ended and another one releases its last block: after the first subtraction the reader takes
      the storage for done with, and frees what the second subtraction writes to. */
  lemma UnsafeReclaimIsReachable()
    ensures exists actions: seq<Action> :: Runs(INIT, actions) && DanglesNext(Final(INIT, actions))
  {
    hide *;
    MallocStep();
    SecondMallocStep();
    var report := SecondReportSteps();
    BegunDangles();
    Joined(BothAllocated(), report, [StartRelease(1, 200)]);
    var tail := report + [StartRelease(1, 200)];
    Prepend(AfterMalloc(), Malloc(2, 8, 2, 200), tail);
    Prepend(INIT, Malloc(1, 8, 1, 100), [Malloc(2, 8, 2, 200)] + tail);
  }
}
