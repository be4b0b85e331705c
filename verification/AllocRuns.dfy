/** Threads allocate, release and end, while one reader walks the list, reports and reclaims. A release is two
    steps, one for each of its subtractions, and so is the taking of a count. */
module AllocRuns {
  import opened Common
  import opened AllocTracker
  import opened AllocAccounting

  /** Where the reader stands in its tour of the list. */
  datatype Reader =
    | Idle
    | Visiting(node: Addr)
    | PeakTold(node: Addr)
    | CountRead(node: Addr, count: word)
    | Told(node: Addr)

  /** Beside the storages: the blocks whose release has begun, each with the thread that releases it, which
      threads have ended, and the history the theorems speak of. `levels` are
      the levels a storage reached since its last reported peak, `shown` is that peak, `start` and
      `visited` are the list when the tour began and the part of it already reported. */
  datatype World = World(
    store: Store,
    pending: map<Addr, Thread>,
    dead: set<Thread>,
    reader: Reader,
    levels: map<Addr, seq<word>>,
    shown: map<Addr, word>,
    counted: nat,
    told: nat,
    start: seq<Addr>,
    visited: seq<Addr>)

  const INIT := World(EMPTY, map[], {}, Idle, map[], map[], 0, 0, [], [])

  /** A release of the null pointer does nothing, and a reallocation of it is an allocation; of anything else
      both begin with the same first half. `spot` and `block` are where the C library puts a new storage and a new block, and `live` is
      what probing a thread finds. */
  datatype Action =
    | Malloc(t: Thread, size: word, spot: Addr, block: Addr)
    | Calloc(t: Thread, items: word, itemSize: word, spot: Addr, block: Addr)
    | StartRelease(t: Thread, block: Addr)
    | FinishFree(block: Addr)
    | FinishRealloc(block: Addr, size: word, spot: Addr, to: Addr)
    | Exit(t: Thread)
    | Begin(live: bool)
    | TakePeak
    | ReadCount
    | SubtractCount
    | Advance(live: bool)

  ghost predicate CanAlloc(w: World, m: map<Addr, AllocHeader>, t: Thread, size: word, spot: Addr, block: Addr) {
    t !in w.dead && spot != NULL && spot !in w.store.nodes && Placed(m, block, size)
  }

  /** A thread in the middle of a release does nothing else. */
  predicate IsBusy(w: World, t: Thread) { t in w.pending.Values }

  /** A probe calls a thread dead only if it is. */
  predicate ProbeIsTrue(w: World, a: Addr, live: bool) {
    a in w.store.nodes && !live ==> w.store.nodes[a].thread in w.dead
  }

  predicate IsLast(order: seq<Addr>, a: Addr) { order != [] && order[|order| - 1] == a }

  ghost predicate Enabled(w: World, a: Action) {
    match a
    case Malloc(t, size, spot, block) => !IsBusy(w, t) && CanAlloc(w, w.store.blocks, t, size, spot, block)
    case Calloc(t, items, itemSize, spot, block) =>
      !IsBusy(w, t) && CanAlloc(w, w.store.blocks, t, Product(items, itemSize), spot, block)
    case StartRelease(t, block) =>
      t !in w.dead && !IsBusy(w, t) && block in w.store.blocks && block !in w.pending
    case FinishFree(block) => block in w.pending
    case FinishRealloc(block, size, spot, to) =>
      && block in w.pending
      && CanAlloc(w, EndRelease(w.store, block).blocks, w.pending[block], size, spot, to)
    case Exit(t) => t !in w.dead && !IsBusy(w, t)
    case Begin(live) => w.reader.Idle? && ProbeIsTrue(w, NextOf(w.store, NULL), live)
    case TakePeak => w.reader.Visiting?
    case ReadCount => w.reader.PeakTold?
    case SubtractCount => w.reader.CountRead?
    case Advance(live) => w.reader.Told? && ProbeIsTrue(w, NextOf(w.store, w.reader.node), live)
  }

  /** The reader is about to free the last storage of the list: the unlink loop faults. */
  predicate Faults(w: World) {
    w.reader.Told? && Reclaimable(w.store, w.reader.node) && IsLast(w.store.order, w.reader.node)
  }

  /** The reader is about to free a storage that a release which has begun will write to. */
  predicate Dangles(w: World) {
    && w.reader.Told? && Reclaimable(w.store, w.reader.node)
    && exists b | b in w.pending :: b in w.store.blocks && w.store.blocks[b].counters == w.reader.node
  }

  /** The storage an allocation of `t` is charged to. */
  function Owner(s: Store, t: Thread, spot: Addr): Addr { if t in s.local then s.local[t] else spot }

  function Level(s: Store, n: Addr): word { if n in s.nodes then s.nodes[n].memCurrent else 0 }

  function Seen(w: World, n: Addr): seq<word> { if n in w.levels then w.levels[n] else [] }

  function Shown(w: World, n: Addr): word { if n in w.shown then w.shown[n] else 0 }

  /** A new storage starts with no history. */
  function Enlist(w: World, t: Thread, spot: Addr): World {
    if t in w.store.local then w
    else w.(store := Register(w.store, t, spot), levels := w.levels[spot := []], shown := w.shown[spot := 0])
  }

  function AfterAlloc(w: World, t: Thread, size: word, spot: Addr, block: Addr): World {
    var e, n := Enlist(w, t, spot), Owner(w.store, t, spot);
    var store := Alloc(w.store, t, size, spot, block);
    e.(store := store, levels := e.levels[n := Seen(e, n) + [Level(store, n)]], counted := e.counted + 1)
  }

  function AfterRelease(w: World, block: Addr): World {
    w.(store := EndRelease(w.store, block), pending := w.pending - {block})
  }

  function Peak(w: World): word
    requires w.reader.Visiting?
  {
    if w.reader.node in w.store.nodes then w.store.nodes[w.reader.node].memPeak else 0
  }

  function Arrive(n: Addr): Reader { if n == NULL then Idle else Visiting(n) }

  function Next(w: World, a: Action): World
    requires Enabled(w, a)
  {
    match a
    case Malloc(t, size, spot, block) => AfterAlloc(w, t, size, spot, block)
    case Calloc(t, items, itemSize, spot, block) => AfterAlloc(w, t, Product(items, itemSize), spot, block)
    case StartRelease(t, block) => w.(store := BeginRelease(w.store, block), pending := w.pending[block := t])
    case FinishFree(block) => AfterRelease(w, block)
    case FinishRealloc(block, size, spot, to) =>
      AfterAlloc(AfterRelease(w, block), w.pending[block], size, spot, to)
    case Exit(t) => w.(dead := w.dead + {t}, store := w.store.(local := w.store.local - {t}))
    case Begin(live) =>
      w.(store := Step(w.store, NULL, live), reader := Arrive(NextOf(w.store, NULL)),
         start := w.store.order, visited := [])
    case TakePeak =>
      var n := w.reader.node;
      w.(store := PeakTaken(w.store, n), reader := PeakTold(n),
         levels := w.levels[n := []], shown := w.shown[n := Peak(w)])
    case ReadCount =>
      var n := w.reader.node;
      w.(reader := CountRead(n, if n in w.store.nodes then w.store.nodes[n].countOverall else 0))
    case SubtractCount =>
      var n, count := w.reader.node, w.reader.count;
      w.(store := CountTaken(w.store, n, count), reader := Told(n), told := w.told + count)
    case Advance(live) =>
      var n := w.reader.node;
      w.(store := Step(w.store, n, live), reader := Arrive(NextOf(w.store, n)), visited := w.visited + [n])
  }

  // ----- invariants -----

  /** Only a dead thread's storage is marked so, and each thread charges its own. */
  ghost predicate Threads(w: World) {
    && (forall t | t in w.store.local ::
          t !in w.dead && w.store.local[t] in w.store.nodes && w.store.nodes[w.store.local[t]].thread == t)
    && (forall n | n in w.store.nodes && !w.store.nodes[n].alive :: w.store.nodes[n].thread in w.dead)
    && (!w.reader.Idle? ==> w.reader.node in w.store.nodes)
  }

  ghost function Max(levels: seq<word>): word {
    if levels == [] then 0
    else
      var m := Max(levels[..|levels| - 1]);
      if levels[|levels| - 1] > m then levels[|levels| - 1] else m
  }

  /** The peak since the last report, or the last reported one while there was no allocation. */
  ghost predicate PeakOf(c: Counters, seen: seq<word>, shown: word) {
    if seen == [] then c.memPeak == shown && (c.peakNeedsReset || shown == 0)
    else !c.peakNeedsReset && c.memPeak == Max(seen)
  }

  ghost predicate Peaks(w: World) {
    forall n | n in w.store.nodes :: PeakOf(w.store.nodes[n], Seen(w, n), Shown(w, n))
  }

  function Unreported(order: seq<Addr>, nodes: map<Addr, Counters>): nat {
    if order == [] then 0
    else (if order[0] in nodes then nodes[order[0]].countOverall else 0) + Unreported(order[1..], nodes)
  }

  /** What was told and what remains is what was counted, as long as that fits a machine word; the count of
      a thread found dead is complete when it is told. */
  ghost predicate Ledger(w: World) {
    w.counted < WORD ==>
      && w.told + Unreported(w.store.order, w.store.nodes) == w.counted
      && (w.reader.CountRead? && w.reader.node in w.store.nodes ==>
            var c := w.store.nodes[w.reader.node];
            w.reader.count <= c.countOverall && (!c.alive ==> w.reader.count == c.countOverall))
      && (w.reader.Told? && w.reader.node in w.store.nodes ==>
            var c := w.store.nodes[w.reader.node]; !c.alive ==> c.countOverall == 0)
  }

  ghost predicate EndsWith(order: seq<Addr>, tail: seq<Addr>) {
    |tail| <= |order| && order[|order| - |tail|..] == tail
  }

  /** The list still ends with the part of the tour that is left, whatever was put in front of it. */
  ghost predicate Tour(w: World) {
    && Distinct(w.start)
    && |w.visited| <= |w.start| && w.visited == w.start[..|w.visited|]
    && (w.reader.Idle? ==> w.visited == w.start)
    && (!w.reader.Idle? ==>
          && |w.visited| < |w.start| && w.start[|w.visited|] == w.reader.node
          && EndsWith(w.store.order, w.start[|w.visited|..]))
  }

  /** Only live threads release. */
  ghost predicate Releases(pending: map<Addr, Thread>, dead: set<Thread>) { forall b | b in pending :: pending[b] !in dead }

  ghost predicate Inv(w: World) {
    && Sane(w.store, w.pending.Keys) && Releases(w.pending, w.dead)
    && Threads(w) && Peaks(w) && Ledger(w) && Tour(w)
  }

  // ----- sums over the list -----

  lemma {:induction false} UnreportedFrame(order: seq<Addr>, a: map<Addr, Counters>, b: map<Addr, Counters>)
    requires forall n | n in order :: n in a <==> n in b
    requires forall n | n in order && n in a :: a[n].countOverall == b[n].countOverall
    ensures Unreported(order, a) == Unreported(order, b)
  {
    if order != [] {
      UnreportedFrame(order[1..], a, b);
    }
  }

  lemma {:induction false} UnreportedAt(order: seq<Addr>, a: map<Addr, Counters>, n: Addr, c: Counters)
    requires Distinct(order) && n in order && n in a
    ensures Unreported(order, a[n := c]) == Unreported(order, a) - a[n].countOverall + c.countOverall
  {
    if order[0] == n {
      UnreportedFrame(order[1..], a, a[n := c]);
    } else {
      UnreportedAt(order[1..], a, n, c);
    }
  }

  lemma {:induction false} UnreportedBound(order: seq<Addr>, a: map<Addr, Counters>, n: Addr)
    requires n in order && n in a
    ensures a[n].countOverall <= Unreported(order, a)
  {
    if order[0] != n {
      UnreportedBound(order[1..], a, n);
    }
  }

  lemma {:induction false} UnreportedWithout(order: seq<Addr>, a: map<Addr, Counters>, n: Addr)
    requires n in a ==> a[n].countOverall == 0
    ensures Unreported(Without(order, n), a - {n}) == Unreported(order, a)
  {
    if order != [] {
      UnreportedWithout(order[1..], a, n);
      var kept := Without(order[1..], n);
      if order[0] != n {
        assert Without(order, n)[1..] == kept;
      } else {
        assert Without(order, n) == kept;
      }
    }
  }

  // ----- releases -----

  /** The two stores differ in blocks and live counters only. */
  ghost predicate SameButLive(s: Store, r: Store) {
    && r.nodes.Keys == s.nodes.Keys && r.order == s.order && r.local == s.local
    && forall n | n in s.nodes ::
         r.nodes[n] == s.nodes[n].(allocCount := r.nodes[n].allocCount, memCurrent := r.nodes[n].memCurrent)
  }

  lemma LiveFrame(w: World, r: Store, pending: map<Addr, Thread>)
    requires SameButLive(w.store, r)
    ensures Threads(w) ==> Threads(w.(store := r, pending := pending))
    ensures Peaks(w) ==> Peaks(w.(store := r, pending := pending))
    ensures Tour(w) ==> Tour(w.(store := r, pending := pending))
  {
    hide Distinct, EndsWith, Max;
  }

  lemma LedgerFrame(w: World, r: Store, pending: map<Addr, Thread>)
    requires SameButLive(w.store, r) && Ledger(w)
    ensures Ledger(w.(store := r, pending := pending))
  {
    UnreportedFrame(w.store.order, w.store.nodes, r.nodes);
    hide Unreported;
  }

  lemma ReleaseIsLive(s: Store, block: Addr)
    ensures SameButLive(s, BeginRelease(s, block)) && SameButLive(s, EndRelease(s, block))
  {
  }

  lemma StartReleaseKeeps(w: World, t: Thread, block: Addr)
    requires Inv(w) && t !in w.dead && block in w.store.blocks && block !in w.pending
    ensures Inv(w.(store := BeginRelease(w.store, block), pending := w.pending[block := t]))
  {
    var pending := w.pending[block := t];
    assert pending.Keys == w.pending.Keys + {block};
    assert Releases(pending, w.dead);
    hide Releases, BeginRelease, Sane, Threads, Peaks, Ledger, Tour, SameButLive;
    BeginSane(w.store, w.pending.Keys, block);
    ReleaseIsLive(w.store, block);
    LiveFrame(w, BeginRelease(w.store, block), pending);
    LedgerFrame(w, BeginRelease(w.store, block), pending);
  }

  lemma AfterReleaseKeeps(w: World, block: Addr)
    requires Inv(w) && block in w.pending
    ensures Inv(AfterRelease(w, block))
  {
    var pending := w.pending - {block};
    assert pending.Keys == w.pending.Keys - {block};
    assert Releases(pending, w.dead);
    hide Releases, EndRelease, Sane, Threads, Peaks, Ledger, Tour, SameButLive;
    EndSane(w.store, w.pending.Keys, block);
    ReleaseIsLive(w.store, block);
    LiveFrame(w, EndRelease(w.store, block), pending);
    LedgerFrame(w, EndRelease(w.store, block), pending);
  }

  // ----- allocations -----

  lemma EndsWithPush(order: seq<Addr>, tail: seq<Addr>, a: Addr)
    requires EndsWith(order, tail)
    ensures EndsWith([a] + order, tail)
  {
  }

  lemma EnlistLedger(w: World, t: Thread, spot: Addr)
    requires Listed(w.store) && Ledger(w) && Threads(w) && spot !in w.store.nodes
    ensures Ledger(Enlist(w, t, spot))
  {
    if t !in w.store.local {
      var e := Enlist(w, t, spot);
      assert spot !in w.store.order;
      UnreportedFrame(w.store.order, w.store.nodes, e.store.nodes);
      assert e.store.order[1..] == w.store.order;
    }
  }

  lemma EnlistTour(w: World, t: Thread, spot: Addr)
    requires Tour(w)
    ensures Tour(Enlist(w, t, spot))
  {
    hide EndsWith, Distinct;
    if t !in w.store.local && !w.reader.Idle? {
      EndsWithPush(w.store.order, w.start[|w.visited|..], spot);
    }
  }

  lemma EnlistOwners(w: World, t: Thread, spot: Addr)
    requires Threads(w) && Peaks(w) && t !in w.dead && spot !in w.store.nodes
    ensures Threads(Enlist(w, t, spot)) && Peaks(Enlist(w, t, spot))
  {
    hide Max;
  }

  lemma EnlistKeeps(w: World, t: Thread, spot: Addr)
    requires Inv(w) && t !in w.dead && spot != NULL && spot !in w.store.nodes
    ensures Inv(Enlist(w, t, spot))
    ensures Enlist(w, t, spot).store == Register(w.store, t, spot)
  {
    RegisterSane(w.store, w.pending.Keys, t, spot);
    EnlistLedger(w, t, spot);
    EnlistTour(w, t, spot);
    EnlistOwners(w, t, spot);
    hide Releases, Sane, Threads, Peaks, Ledger, Tour;
  }

  /** `a` is `e` after an allocation was charged to storage `n` of thread `t`, and nothing else. */
  ghost predicate Recharged(e: World, a: World, t: Thread, n: Addr, size: word) {
    && t in e.store.local && e.store.local[t] == n && n in e.store.nodes
    && a.store.nodes == e.store.nodes[n := Charged(e.store.nodes[n], size)]
    && a.store.order == e.store.order && a.store.local == e.store.local
    && a.levels == e.levels[n := Seen(e, n) + [a.store.nodes[n].memCurrent]]
    && a.shown == e.shown && a.dead == e.dead && a.pending == e.pending && a.reader == e.reader
    && a.counted == e.counted + 1 && a.told == e.told && a.start == e.start && a.visited == e.visited
  }

  lemma AllocIsStaged(w: World, t: Thread, size: word, spot: Addr, block: Addr)
    requires Register(w.store, t, spot).local[t] in Register(w.store, t, spot).nodes
    ensures Recharged(Enlist(w, t, spot), AfterAlloc(w, t, size, spot, block), t, Owner(w.store, t, spot), size)
  {
    hide Charged, NewCounters;
  }

  lemma ChargePeak(c: Counters, size: word, seen: seq<word>, shown: word)
    requires PeakOf(c, seen, shown)
    ensures PeakOf(Charged(c, size), seen + [Charged(c, size).memCurrent], shown)
  {
    var level := Charged(c, size).memCurrent;
    assert (seen + [level])[..|seen|] == seen;
  }

  lemma ChargePeaks(e: World, a: World, t: Thread, n: Addr, size: word)
    requires Recharged(e, a, t, n, size) && Peaks(e)
    ensures Peaks(a)
  {
    ChargePeak(e.store.nodes[n], size, Seen(e, n), Shown(e, n));
    hide PeakOf, Charged;
  }

  /** The storage of a live thread is never marked dead, so what the reader relies on stays. */
  lemma ChargeLedger(e: World, a: World, t: Thread, n: Addr, size: word)
    requires Recharged(e, a, t, n, size) && Listed(e.store) && Ledger(e) && Threads(e)
    ensures Ledger(a)
  {
    if a.counted < WORD {
      var c := e.store.nodes[n];
      UnreportedBound(e.store.order, e.store.nodes, n);
      UnreportedAt(e.store.order, e.store.nodes, n, Charged(c, size));
      hide Unreported;
    }
  }

  lemma ChargeThreads(e: World, a: World, t: Thread, n: Addr, size: word)
    requires Recharged(e, a, t, n, size)
    ensures Threads(e) ==> Threads(a)
    ensures Tour(e) ==> Tour(a)
  {
    hide EndsWith, Distinct;
  }

  lemma AllocKeeps(w: World, t: Thread, size: word, spot: Addr, block: Addr)
    requires Inv(w) && CanAlloc(w, w.store.blocks, t, size, spot, block)
    ensures Inv(AfterAlloc(w, t, size, spot, block))
  {
    var e, n, a := Enlist(w, t, spot), Owner(w.store, t, spot), AfterAlloc(w, t, size, spot, block);
    EnlistKeeps(w, t, spot);
    RegisterSane(w.store, w.pending.Keys, t, spot);
    AllocSane(w.store, w.pending.Keys, t, size, spot, block);
    assert a.store == Alloc(w.store, t, size, spot, block);
    AllocIsStaged(w, t, size, spot, block);
    assert Listed(e.store);
    hide Releases, Sane, Threads, Peaks, Ledger, Tour, AfterAlloc, Enlist, Owner, Recharged, Listed;
    ChargeLedger(e, a, t, n, size);
    ChargeThreads(e, a, t, n, size);
    ChargePeaks(e, a, t, n, size);
  }

  // ----- the reader -----

  /** Only bookkeeping of the storage changes, not what is live in it. */
  lemma TouchSane(s: Store, held: set<Addr>, n: Addr, c: Counters)
    requires Sane(s, held) && n in s.nodes && c.allocCount == s.nodes[n].allocCount && c.memCurrent == s.nodes[n].memCurrent
    ensures Sane(s.(nodes := s.nodes[n := c]), held)
  {
    hide Total, Fits, Distinct;
  }

  /** `c` may only be marked dead if its thread is. */
  lemma TouchThreads(w: World, n: Addr, c: Counters)
    requires Threads(w) && n in w.store.nodes && c.thread == w.store.nodes[n].thread
    requires c.alive || c.thread in w.dead
    ensures Threads(w.(store := w.store.(nodes := w.store.nodes[n := c])))
  {
  }

  /** The order, and with it the tour, does not depend on what a storage holds. */
  lemma TouchTour(w: World, n: Addr, c: Counters)
    requires n in w.store.nodes
    ensures Tour(w) ==> Tour(w.(store := w.store.(nodes := w.store.nodes[n := c])))
  {
    hide EndsWith, Distinct;
  }

  lemma TouchPeaks(w: World, n: Addr, c: Counters)
    requires Peaks(w) && n in w.store.nodes && PeakOf(c, Seen(w, n), Shown(w, n))
    ensures Peaks(w.(store := w.store.(nodes := w.store.nodes[n := c])))
  {
    hide PeakOf;
  }

  lemma ProbedLedger(w: World, n: Addr, live: bool)
    requires Ledger(w) && (w.reader.Idle? || w.reader.Visiting?)
    ensures Ledger(w.(store := Probed(w.store, n, live)))
  {
    UnreportedFrame(w.store.order, w.store.nodes, Probed(w.store, n, live).nodes);
    hide Unreported;
  }

  lemma ProbedKeeps(w: World, n: Addr, live: bool)
    requires Inv(w) && ProbeIsTrue(w, n, live) && (w.reader.Idle? || w.reader.Visiting?)
    ensures Inv(w.(store := Probed(w.store, n, live)))
  {
    if n in w.store.nodes {
      var c := w.store.nodes[n].(alive := live);
      assert w.store.nodes[n].thread == c.thread && (c.alive || c.thread in w.dead) && PeakOf(c, Seen(w, n), Shown(w, n));
      hide Releases, Sane, Threads, Peaks, Tour, Ledger, PeakOf;
      TouchSane(w.store, w.pending.Keys, n, c);
      TouchThreads(w, n, c);
      TouchTour(w, n, c);
      TouchPeaks(w, n, c);
      ProbedLedger(w, n, live);
    }
  }

  lemma RemoveSane(s: Store, held: set<Addr>, n: Addr, order: seq<Addr>)
    requires Sane(s, held) && Distinct(order) && NULL !in order
    requires forall a :: a in order <==> a in s.order && a != n
    requires forall b | b in s.blocks :: s.blocks[b].counters != n
    requires forall t | t in s.local :: s.local[t] != n
    ensures Sane(s.(order := order, nodes := s.nodes - {n}), held)
  {
    hide Total, Fits, Distinct, CountsOf;
  }

  /** A storage without counted blocks is named by none but those whose release has begun. */
  lemma OnlyHeldNameIt(s: Store, held: set<Addr>, n: Addr)
    requires Sane(s, held) && n in s.nodes && s.nodes[n].allocCount == 0
    ensures forall b | b in s.blocks && b !in held :: s.blocks[b].counters != n
  {
    assert CountsOf(n, s.nodes[n], s.blocks, held);
    NoneCounted(s.blocks - held, n);
    hide Total, Fits, Distinct;
    forall b | b in s.blocks && b !in held ensures s.blocks[b].counters != n {
      assert b in s.blocks - held;
    }
  }

  /** Unlinking a reclaimable storage leaves no header and no thread-local pointer behind, if no release
      that has begun names it. */
  lemma UnlinkSane(s: Store, held: set<Addr>, n: Addr, i: nat)
    requires Sane(s, held) && i < |s.order| && s.order[i] == n && Reclaimable(s, n)
    requires forall t | t in s.local :: s.local[t] != n
    requires forall b | b in held && b in s.blocks :: s.blocks[b].counters != n
    ensures Sane(Unlinked(s, n), held) && Unlinked(s, n).order == Shorter(s.order, i)
    ensures forall b | b in s.blocks :: s.blocks[b].counters != n
  {
    WithoutAt(s.order, i);
    ShorterIsDistinct(s.order, i);
    OnlyHeldNameIt(s, held, n);
    hide *;
    RemoveSane(s, held, n, Shorter(s.order, i));
  }

  lemma UnlinkTour(order: seq<Addr>, tail: seq<Addr>, i: nat)
    requires Distinct(order) && EndsWith(order, tail) && tail != [] && i == |order| - |tail|
    ensures order[i] == tail[0] && Following(order, tail[0]) == Element(tail, 1)
    ensures EndsWith(order, tail[1..]) && EndsWith(Shorter(order, i), tail[1..])
  {
    assert order[i] == order[i..][0];
    FollowingAt(order, i);
    if |tail| > 1 {
      assert order[i + 1] == order[i..][1];
    }
    assert order[i..][1..] == order[i + 1..];
    assert Shorter(order, i)[i..] == order[i + 1..];
  }

  /** Where the reader stands after it has left a storage, before it probes the next one. */
  function Left(w: World): World
    requires w.reader.Told?
  {
    var n := w.reader.node;
    w.(store := if Reclaimable(w.store, n) then Unlinked(w.store, n) else w.store,
       reader := Arrive(NextOf(w.store, n)), visited := w.visited + [n])
  }

  lemma LeftSane(w: World)
    requires Inv(w) && w.reader.Told? && !Dangles(w)
    ensures Sane(Left(w).store, w.pending.Keys)
    ensures var n := w.reader.node;
            n !in Left(w).store.nodes ==>
              && w.store.nodes[n].thread in w.dead
              && (forall b | b in w.store.blocks :: w.store.blocks[b].counters != n)
              && (forall t | t in w.store.local :: w.store.local[t] != n)
              && (w.counted < WORD ==> w.store.nodes[n].countOverall == 0)
  {
    var n := w.reader.node;
    if Reclaimable(w.store, n) {
      assert forall t | t in w.store.local :: w.store.local[t] != n;
      var i :| 0 <= i < |w.store.order| && w.store.order[i] == n;
      hide Peaks, Tour, Unreported, Exact, Fits, Distinct, Without;
      UnlinkSane(w.store, w.pending.Keys, n, i);
    }
  }

  /** The part of the tour that is left, and where it begins in the list. */
  lemma TourTail(w: World)
    requires Listed(w.store) && Tour(w) && w.reader.Told?
    ensures |w.visited| < |w.start| && |w.start| - |w.visited| <= |w.store.order|
    ensures var tail, k := w.start[|w.visited|..], |w.store.order| - (|w.start| - |w.visited|);
            && tail[0] == w.reader.node == w.store.order[k]
            && Following(w.store.order, w.reader.node) == Element(tail, 1)
            && EndsWith(w.store.order, tail[1..]) && EndsWith(Without(w.store.order, w.reader.node), tail[1..])
            && (|tail| > 1 ==> tail[1] in w.store.order && tail[1] != w.reader.node)
  {
    var tail, k := w.start[|w.visited|..], |w.store.order| - (|w.start| - |w.visited|);
    UnlinkTour(w.store.order, tail, k);
    WithoutAt(w.store.order, k);
    if |tail| > 1 {
      assert tail[1] == w.store.order[k..][1] == w.store.order[k + 1];
    }
    hide Without, Shorter, Following;
  }

  lemma OneFurther(s: seq<Addr>, i: nat)
    requires i < |s|
    ensures s[i..][1..] == s[i + 1..] && s[..i] + [s[i]] == s[..i + 1] && |s[i..]| == |s| - i
    ensures i + 1 < |s| ==> s[i..][1] == s[i + 1]
  {
  }

  /** The reader goes where the list was when the tour began, whether it reclaims what it leaves or not. */
  lemma LeftArrives(w: World)
    requires Listed(w.store) && Tour(w) && w.reader.Told? && w.reader.node != NULL
    ensures var i, r := |w.visited| + 1, Left(w).reader;
            && EndsWith(Left(w).store.order, w.start[i..])
            && (if i < |w.start| then r.Visiting? && r.node == w.start[i] && r.node in w.store.nodes && r.node != w.reader.node
                else r.Idle?)
  {
    TourTail(w);
    OneFurther(w.start, |w.visited|);
    hide EndsWith, Distinct, Without, Following, Tour;
  }

  lemma LeftTour(w: World)
    requires Listed(w.store) && Tour(w) && w.reader.Told? && w.reader.node != NULL
    ensures Tour(Left(w))
    ensures Left(w).reader.Visiting? ==> Left(w).reader.node in w.store.nodes && Left(w).reader.node != w.reader.node
  {
    LeftArrives(w);
    OneFurther(w.start, |w.visited|);
    assert Left(w).visited == w.visited + [w.reader.node] && Left(w).start == w.start;
    hide EndsWith, Distinct, Listed, Left;
  }

  lemma LeftLedger(w: World)
    requires Ledger(w) && w.reader.Told? && w.reader.node in w.store.nodes
    ensures Ledger(Left(w))
  {
    var n := w.reader.node;
    if Reclaimable(w.store, n) && w.counted < WORD {
      UnreportedWithout(w.store.order, w.store.nodes, n);
    }
    hide Unreported, Without, Following;
  }

  lemma LeftPeaks(w: World)
    requires Peaks(w) && w.reader.Told?
    ensures Peaks(Left(w))
  {
    hide PeakOf, Without, Following;
  }

  lemma LeftThreads(w: World)
    requires Threads(w) && w.reader.Told?
    requires var r := Left(w).reader; r.Visiting? ==> r.node in w.store.nodes && r.node != w.reader.node
    ensures Threads(Left(w))
  {
    hide Without, Following;
  }

  lemma LeftKeeps(w: World, live: bool)
    requires Inv(w) && w.reader.Told? && !Dangles(w) && ProbeIsTrue(w, NextOf(w.store, w.reader.node), live)
    ensures Inv(Left(w)) && ProbeIsTrue(Left(w), NextOf(w.store, w.reader.node), live)
  {
    LeftSane(w);
    LeftTour(w);
    LeftLedger(w);
    LeftPeaks(w);
    LeftThreads(w);
    hide Releases, Sane, Threads, Tour, Ledger, Peaks, Without, Following;
  }

  lemma AdvanceKeeps(w: World, live: bool)
    requires Inv(w) && Enabled(w, Advance(live)) && !Dangles(w)
    ensures Inv(Next(w, Advance(live)))
  {
    LeftKeeps(w, live);
    ProbedKeeps(Left(w), NextOf(w.store, w.reader.node), live);
    hide Inv, Probed, Without;
  }

  lemma BeginKeeps(w: World, live: bool)
    requires Inv(w) && Enabled(w, Begin(live))
    ensures Inv(Next(w, Begin(live)))
  {
    var n := NextOf(w.store, NULL);
    var b := w.(reader := Arrive(n), start := w.store.order, visited := []);
    assert Threads(b) && Tour(b) && Ledger(b) && Peaks(b) by { hide Unreported, PeakOf, Distinct, Exact, Fits; }
    hide Threads, Tour, Ledger, Peaks, Sane;
    ProbedKeeps(b, n, live);
  }

  lemma PeakTakenPeaks(w: World)
    requires Peaks(w) && w.reader.Visiting?
    ensures Peaks(Next(w, TakePeak))
  {
    hide Max;
  }

  lemma PeakTakenLedger(w: World)
    requires Ledger(w) && w.reader.Visiting?
    ensures Ledger(Next(w, TakePeak))
  {
    UnreportedFrame(w.store.order, w.store.nodes, Next(w, TakePeak).store.nodes);
    hide Unreported;
  }

  lemma PeakTakenThreads(w: World)
    requires Threads(w) && w.reader.Visiting?
    ensures Threads(Next(w, TakePeak))
  {
    var n, t := w.reader.node, Next(w, TakePeak);
    var v := w.(reader := t.reader, levels := t.levels, shown := t.shown);
    TouchThreads(v, n, w.store.nodes[n].(peakNeedsReset := true));
  }

  lemma PeakTakenTour(w: World)
    requires Tour(w) && w.reader.Visiting?
    ensures Tour(Next(w, TakePeak))
  {
    hide EndsWith, Distinct;
  }

  lemma PeakTakenSane(w: World)
    requires Sane(w.store, w.pending.Keys) && w.reader.Visiting? && w.reader.node in w.store.nodes
    ensures Sane(Next(w, TakePeak).store, w.pending.Keys)
  {
    hide Sane;
    var n := w.reader.node;
    TouchSane(w.store, w.pending.Keys, n, w.store.nodes[n].(peakNeedsReset := true));
  }

  lemma TakePeakKeeps(w: World)
    requires Inv(w) && w.reader.Visiting?
    ensures Inv(Next(w, TakePeak))
  {
    assert w.reader.node in w.store.nodes;
    assert Next(w, TakePeak).pending == w.pending && Next(w, TakePeak).dead == w.dead;
    hide Next, Releases, Sane, Threads, Tour, Ledger, Peaks;
    PeakTakenSane(w);
    PeakTakenThreads(w);
    PeakTakenTour(w);
    PeakTakenPeaks(w);
    PeakTakenLedger(w);
  }

  lemma ReadCountKeeps(w: World)
    requires Inv(w) && w.reader.PeakTold?
    ensures Inv(Next(w, ReadCount))
  {
    hide Releases, Sane, PeakOf, Unreported, EndsWith, Distinct;
  }

  /** With a single reader the counter can only have grown since it was read. */
  lemma SubtractLedger(w: World)
    requires Ledger(w) && Listed(w.store) && w.reader.CountRead? && w.reader.node in w.store.nodes
    ensures Ledger(Next(w, SubtractCount))
  {
    var n := w.reader.node;
    var c := w.store.nodes[n].(countOverall := Sub(w.store.nodes[n].countOverall, w.reader.count));
    UnreportedAt(w.store.order, w.store.nodes, n, c);
    UnreportedBound(w.store.order, w.store.nodes, n);
    hide Unreported, Distinct;
  }

  lemma SubtractThreads(w: World)
    requires Threads(w) && w.reader.CountRead?
    ensures Threads(Next(w, SubtractCount))
  {
    var n, t := w.reader.node, Next(w, SubtractCount);
    var c := w.store.nodes[n].(countOverall := Sub(w.store.nodes[n].countOverall, w.reader.count));
    TouchThreads(w.(reader := t.reader, told := t.told), n, c);
  }

  lemma SubtractPeaks(w: World)
    requires Peaks(w) && w.reader.CountRead?
    ensures Peaks(Next(w, SubtractCount))
  {
    hide Max;
  }

  lemma SubtractTour(w: World)
    requires Tour(w) && w.reader.CountRead?
    ensures Tour(Next(w, SubtractCount))
  {
    hide EndsWith, Distinct;
  }

  lemma SubtractSane(w: World)
    requires Sane(w.store, w.pending.Keys) && w.reader.CountRead? && w.reader.node in w.store.nodes
    ensures Sane(Next(w, SubtractCount).store, w.pending.Keys)
  {
    hide Sane;
    var n := w.reader.node;
    var c := w.store.nodes[n].(countOverall := Sub(w.store.nodes[n].countOverall, w.reader.count));
    TouchSane(w.store, w.pending.Keys, n, c);
  }

  lemma SubtractCountKeeps(w: World)
    requires Inv(w) && w.reader.CountRead?
    ensures Inv(Next(w, SubtractCount))
  {
    assert w.reader.node in w.store.nodes && Listed(w.store);
    assert Next(w, SubtractCount).pending == w.pending && Next(w, SubtractCount).dead == w.dead;
    hide Next, Releases, Sane, Threads, Tour, Ledger, Peaks, Listed;
    SubtractSane(w);
    SubtractThreads(w);
    SubtractTour(w);
    SubtractPeaks(w);
    SubtractLedger(w);
  }

  lemma ExitSane(s: Store, held: set<Addr>, t: Thread)
    requires Sane(s, held)
    ensures Sane(s.(local := s.local - {t}), held)
  {
    hide CountsOf, Fits, Distinct;
  }

  lemma ExitThreads(w: World, t: Thread)
    requires Threads(w) && Releases(w.pending, w.dead) && t !in w.dead && !IsBusy(w, t)
    ensures Threads(Next(w, Exit(t))) && Releases(w.pending, w.dead + {t})
  {
    forall b | b in w.pending ensures w.pending[b] != t {
      assert w.pending[b] in w.pending.Values;
    }
  }

  lemma ExitRest(w: World, t: Thread)
    requires t !in w.dead && !IsBusy(w, t)
    ensures Peaks(w) ==> Peaks(Next(w, Exit(t)))
    ensures Ledger(w) ==> Ledger(Next(w, Exit(t)))
    ensures Tour(w) ==> Tour(Next(w, Exit(t)))
  {
    hide Distinct, PeakOf, Unreported, EndsWith;
  }

  /** The thread-local pointer ends with its thread; the storage stays until the reader reclaims it. */
  lemma ExitKeeps(w: World, t: Thread)
    requires Inv(w) && Enabled(w, Exit(t))
    ensures Inv(Next(w, Exit(t)))
  {
    ExitSane(w.store, w.pending.Keys, t);
    ExitThreads(w, t);
    ExitRest(w, t);
    hide Sane, Threads, Releases, Peaks, Ledger, Tour;
  }

  /** Short of the two ways in which the reader goes wrong. */
  predicate Clean(w: World, a: Action) { a.Advance? ==> !Faults(w) && !Dangles(w) }

  lemma NextKeeps(w: World, a: Action)
    requires Inv(w) && Enabled(w, a) && Clean(w, a)
    ensures Inv(Next(w, a))
  {
    match a
    case Malloc(t, size, spot, block) => AllocKeeps(w, t, size, spot, block);
    case Calloc(t, items, itemSize, spot, block) => AllocKeeps(w, t, Product(items, itemSize), spot, block);
    case StartRelease(t, block) => StartReleaseKeeps(w, t, block);
    case FinishFree(block) => AfterReleaseKeeps(w, block);
    case FinishRealloc(block, size, spot, to) => FinishReallocKeeps(w, block, size, spot, to);
    case Exit(t) => ExitKeeps(w, t);
    case Begin(live) => BeginKeeps(w, live);
    case TakePeak => TakePeakKeeps(w);
    case ReadCount => ReadCountKeeps(w);
    case SubtractCount => SubtractCountKeeps(w);
    case Advance(live) => AdvanceKeeps(w, live);
  }

  lemma StillCanAlloc(w: World, block: Addr, size: word, spot: Addr, to: Addr)
    requires Enabled(w, FinishRealloc(block, size, spot, to))
    ensures block in w.pending
    ensures CanAlloc(AfterRelease(w, block), AfterRelease(w, block).store.blocks, w.pending[block], size, spot, to)
    ensures Next(w, FinishRealloc(block, size, spot, to))
         == AfterAlloc(AfterRelease(w, block), w.pending[block], size, spot, to)
  {
    ReleaseIsLive(w.store, block);
    hide EndRelease, Placed, AfterAlloc;
  }

  lemma {:induction false} FinishReallocKeeps(w: World, block: Addr, size: word, spot: Addr, to: Addr)
    requires Inv(w) && Enabled(w, FinishRealloc(block, size, spot, to))
    ensures Inv(Next(w, FinishRealloc(block, size, spot, to)))
  {
    hide *;
    StillCanAlloc(w, block, size, spot, to);
    AfterReleaseKeeps(w, block);
    AllocKeeps(AfterRelease(w, block), w.pending[block], size, spot, to);
  }

  // ----- whole runs -----

  /** A run, up to the first step in which the reader goes wrong. */
  ghost predicate Runs(w: World, actions: seq<Action>)
    decreases actions
  {
    actions != [] ==>
      Enabled(w, actions[0]) && Clean(w, actions[0]) && Runs(Next(w, actions[0]), actions[1..])
  }

  ghost function Final(w: World, actions: seq<Action>): World
    requires Runs(w, actions)
    decreases actions
  {
    if actions == [] then w else Final(Next(w, actions[0]), actions[1..])
  }

  lemma {:induction false} InvariantFrom(w: World, actions: seq<Action>)
    requires Inv(w) && Runs(w, actions)
    ensures Inv(Final(w, actions))
    decreases actions
  {
    hide Inv, Next, Enabled, Clean;
    if actions != [] {
      NextKeeps(w, actions[0]);
      InvariantFrom(Next(w, actions[0]), actions[1..]);
    }
  }

  lemma InvariantHolds(actions: seq<Action>)
    requires Runs(INIT, actions)
    ensures Inv(Final(INIT, actions))
  {
    assert Inv(INIT);
    hide Inv;
    InvariantFrom(INIT, actions);
  }

  /** After any steps of any threads: the bytes of each storage are those of the blocks that name it, its count
      is that of those not being released, and over all storages they add up to all such blocks. */
  lemma CountersAreExact(actions: seq<Action>, n: Addr, what: Measure)
    requires Runs(INIT, actions)
    ensures var w := Final(INIT, actions);
            var s, held := w.store, w.pending.Keys;
            && (n in s.nodes ==>
                  && s.nodes[n].memCurrent == Total(s.blocks, Bytes, Some(n))
                  && s.nodes[n].allocCount == Total(s.blocks - held, Blocks, Some(n)))
            && (forall a | a in s.order :: a in s.nodes)
            && CounterSum(s.order, s.nodes, what) == Total(Measured(s, held, what), what, None)
  {
    InvariantHolds(actions);
    var w := Final(INIT, actions);
    TotalsAreConserved(w.store, w.pending.Keys, what);
    hide Total, CounterSum, Measured, Runs, Final, Threads, Peaks, Ledger, Tour;
  }

  /** The block is there, its storage is there, and there is something to take off. */
  ghost predicate HasCharge(s: Store, block: Addr, begun: bool) {
    && block in s.blocks && s.blocks[block].counters in s.nodes
    && (!begun ==> s.nodes[s.blocks[block].counters].allocCount >= 1)
    && (begun ==> s.nodes[s.blocks[block].counters].memCurrent >= s.blocks[block].size)
  }

  lemma SaneHasCharge(s: Store, held: set<Addr>, block: Addr)
    requires Sane(s, held) && block in s.blocks
    ensures HasCharge(s, block, block in held)
  {
    if block in held {
      EndSane(s, held, block);
    } else {
      BeginSane(s, held, block);
    }
    hide Exact, Fits, Listed, BeginRelease, EndRelease;
  }

  lemma EnabledReleaseHasCharge(w: World, t: Thread, block: Addr)
    requires Sane(w.store, w.pending.Keys)
    ensures Enabled(w, StartRelease(t, block)) ==> HasCharge(w.store, block, false)
    ensures Enabled(w, FinishFree(block)) ==> HasCharge(w.store, block, true)
  {
    assert w.pending.Keys <= w.store.blocks.Keys && (block in w.pending <==> block in w.pending.Keys);
    hide Sane, HasCharge;
    if block in w.store.blocks {
      SaneHasCharge(w.store, w.pending.Keys, block);
    }
  }

  /** No half of a release writes to a storage that is gone, or takes a counter below zero. */
  lemma ReleasesFindTheirCharge(actions: seq<Action>, t: Thread, block: Addr)
    requires Runs(INIT, actions)
    ensures var w := Final(INIT, actions);
            && (Enabled(w, StartRelease(t, block)) ==> HasCharge(w.store, block, false))
            && (Enabled(w, FinishFree(block)) ==> HasCharge(w.store, block, true))
  {
    InvariantHolds(actions);
    assert Sane(Final(INIT, actions).store, Final(INIT, actions).pending.Keys) by { hide Runs, Final; }
    hide *;
    EnabledReleaseHasCharge(Final(INIT, actions), t, block);
  }

  /** The size an allocation asks for, before it is wrapped around to a machine word. */
  function Asked(a: Action): int
    requires a.Malloc? || a.Calloc? || a.FinishRealloc?
  {
    match a
    case Malloc(_, size, _, _) => size
    case Calloc(_, items, itemSize, _, _) => items * itemSize
    case FinishRealloc(_, size, _, _) => size
  }

  /** `block` is there with the size asked for, and charged with it to the storage of `t`, on top of `level` bytes. */
  predicate IsCharged(s: Store, t: Thread, block: Addr, level: word, asked: int) {
    && t in s.local && s.local[t] in s.nodes && block in s.blocks && s.blocks[block].counters == s.local[t]
    && SameWord(s.blocks[block].size, asked) && SameWord(s.nodes[s.local[t]].memCurrent, level + asked)
  }

  /** The bytes charged to a thread so far. */
  function BytesOf(s: Store, t: Thread): word {
    if t in s.local && s.local[t] in s.nodes then s.nodes[s.local[t]].memCurrent else 0
  }

  lemma AllocCharges(s: Store, t: Thread, size: word, asked: int, spot: Addr, block: Addr)
    requires (if t in s.local then s.local[t] in s.nodes else spot !in s.nodes) && SameWord(size, asked)
    ensures IsCharged(Alloc(s, t, size, spot, block), t, block, BytesOf(s, t), asked)
  {
    AllocLaw(s, t, size, spot, block);
    AllocationOf(s, t, size, asked, spot, block);
    hide Alloc, SameWord;
  }

  /** After any run, an allocation of any kind is of the size asked for and charged to the storage of the thread that
      asks; that of a reallocation is what the release of the old block leaves. */
  lemma AllocationsAreCharged(actions: seq<Action>, a: Action)
    requires Runs(INIT, actions) && Enabled(Final(INIT, actions), a) && (a.Malloc? || a.Calloc? || a.FinishRealloc?)
    ensures var w := Final(INIT, actions);
            var t := if a.FinishRealloc? then w.pending[a.block] else a.t;
            var before := if a.FinishRealloc? then EndRelease(w.store, a.block) else w.store;
            IsCharged(Next(w, a).store, t, if a.FinishRealloc? then a.to else a.block, BytesOf(before, t), Asked(a))
  {
    InvariantHolds(actions);
    var w := Final(INIT, actions);
    assert forall t | t in w.store.local :: w.store.local[t] in w.store.nodes;
    hide Inv, Runs, Final, SameWord, Alloc, IsCharged, BytesOf;
    match a
    case Malloc(t, size, spot, block) =>
      WordIsItself(size);
      AllocCharges(w.store, t, size, size, spot, block);
    case Calloc(t, items, itemSize, spot, block) =>
      ProductLaw(items, itemSize);
      AllocCharges(w.store, t, Product(items, itemSize), items * itemSize, spot, block);
    case FinishRealloc(block, size, spot, to) =>
      WordIsItself(size);
      AllocCharges(EndRelease(w.store, block), w.pending[block], size, size, spot, to);
  }

  lemma WordIsItself(x: word)
    ensures SameWord(x, x)
  {
  }

  /** Nothing refers to the storage any more, and its count has been told in full. */
  ghost predicate Abandoned(w: World, n: Addr) {
    && n in w.store.nodes && w.store.nodes[n].thread in w.dead
    && (forall b | b in w.store.blocks :: w.store.blocks[b].counters != n)
    && (forall t | t in w.store.local :: w.store.local[t] != n)
    && (w.counted < WORD ==> w.store.nodes[n].countOverall == 0)
  }

  lemma AdvanceReclaims(w: World, live: bool)
    requires Threads(w) && Enabled(w, Advance(live))
    ensures var n, after := w.reader.node, Next(w, Advance(live));
            && after.store.blocks == w.store.blocks
            && if Reclaimable(w.store, n)
               then after.store.nodes.Keys == w.store.nodes.Keys - {n} && after.store.order == Without(w.store.order, n)
               else after.store.nodes.Keys == w.store.nodes.Keys && after.store.order == w.store.order
  {
    hide Without, Following;
  }

  /** From `w` to `after` the unlink loop does not fault, the storage `n` is freed only when it is abandoned, the
      rest of the list keeps its order, and no header and no thread-local pointer is left dangling. */
  ghost predicate ReclaimsSafely(w: World, n: Addr, after: World) {
    && (Reclaimable(w.store, n) ==> !IsLast(w.store.order, n))
    && Anchored(after.store)
    && if Reclaimable(w.store, n)
       then && Abandoned(w, n)
            && after.store.nodes.Keys == w.store.nodes.Keys - {n} && after.store.order == Without(w.store.order, n)
       else after.store.nodes.Keys == w.store.nodes.Keys && after.store.order == w.store.order
  }

  lemma SaneIsAnchored(w: World)
    requires Inv(w)
    ensures Anchored(w.store) && (!w.reader.Idle? ==> w.reader.node in w.store.nodes)
  {
  }

  lemma AdvanceIsSafe(w: World, live: bool)
    requires Inv(w) && Enabled(w, Advance(live)) && Clean(w, Advance(live))
    ensures ReclaimsSafely(w, w.reader.node, Next(w, Advance(live)))
  {
    AdvanceKeeps(w, live);
    LeftSane(w);
    AdvanceReclaims(w, live);
    SaneIsAnchored(Next(w, Advance(live)));
    SaneIsAnchored(w);
    assert Reclaimable(w.store, w.reader.node) ==> w.reader.node !in Left(w).store.nodes;
    hide Inv, Next, Enabled, Without, Anchored, Left, Reclaimable, Dangles;
  }

  /** The reader frees a storage that a header still names exactly when a release that has begun names it. */
  lemma AdvanceIsUnsafe(w: World, live: bool)
    requires Inv(w) && Enabled(w, Advance(live)) && Dangles(w)
    ensures !Anchored(Next(w, Advance(live)).store)
  {
    AdvanceReclaims(w, live);
    var after := Next(w, Advance(live));
    var b :| b in w.pending && b in w.store.blocks && w.store.blocks[b].counters == w.reader.node;
    assert b in after.store.blocks && after.store.blocks[b].counters !in after.store.nodes;
  }

  /** Whatever the threads do, a step of the reader is safe if and only if it does not free the last storage of the
      list, nor one that a release that has begun, and not ended, names. */
  lemma ReclamationIsSafe(actions: seq<Action>, live: bool)
    requires Runs(INIT, actions) && Enabled(Final(INIT, actions), Advance(live))
    ensures var w := Final(INIT, actions);
            ReclaimsSafely(w, w.reader.node, Next(w, Advance(live))) <==> !Faults(w) && !Dangles(w)
  {
    InvariantHolds(actions);
    var w := Final(INIT, actions);
    assert w.reader.Told?;
    assert Clean(w, Advance(live)) <==> !Faults(w) && !Dangles(w);
    hide *;
    SafeIsAnchored(w, Next(w, Advance(live)));
    if Dangles(w) {
      AdvanceIsUnsafe(w, live);
    } else if !Faults(w) {
      AdvanceIsSafe(w, live);
    }
  }

  lemma SafeIsAnchored(w: World, after: World)
    requires w.reader.Told?
    ensures ReclaimsSafely(w, w.reader.node, after) ==> Anchored(after.store) && !Faults(w)
  {
    hide Anchored, Abandoned, Without;
  }

  /** Had the reader looked at the bytes as well as at the count, only the release of an empty block could
      be under way. */
  lemma BothCountersZero(actions: seq<Action>, n: Addr)
    requires Runs(INIT, actions)
    requires var w := Final(INIT, actions);
             n in w.store.nodes && w.store.nodes[n].allocCount == 0 && w.store.nodes[n].memCurrent == 0
    ensures var w := Final(INIT, actions);
            forall b | b in w.store.blocks && w.store.blocks[b].counters == n ::
              b in w.pending && w.store.blocks[b].size == 0
  {
    InvariantHolds(actions);
    var w := Final(INIT, actions);
    assert Sane(w.store, w.pending.Keys);
    OnlyHeldNameIt(w.store, w.pending.Keys, n);
    assert CountsOf(n, w.store.nodes[n], w.store.blocks, w.pending.Keys);
    NoBytesCounted(w.store.blocks, n);
    hide Runs, Final, Inv, Sane, Total;
  }

  /** The one case the unlink loop cannot handle does not arise while the first thread lives. */
  lemma LastStaysWhileItsThreadLives(actions: seq<Action>, n: Addr)
    requires Runs(INIT, actions)
    requires var w := Final(INIT, actions); n in w.store.nodes && w.store.nodes[n].thread !in w.dead
    ensures !Reclaimable(Final(INIT, actions).store, n)
  {
    InvariantHolds(actions);
  }

  /** When a tour ends it has visited every storage that was there when it began, once and in order,
      whatever was added to the list or removed from it meanwhile. */
  lemma ToursAreComplete(actions: seq<Action>)
    requires Runs(INIT, actions)
    ensures var w := Final(INIT, actions);
            Distinct(w.start) && w.visited <= w.start && (w.reader.Idle? ==> w.visited == w.start)
  {
    InvariantHolds(actions);
    hide Releases, Sane, Threads, Peaks, Ledger, EndsWith, Distinct;
  }

  /** What was reported and what remains is what was counted. */
  lemma LedgerBalances(actions: seq<Action>)
    requires Runs(INIT, actions) && Final(INIT, actions).counted < WORD
    ensures var w := Final(INIT, actions); w.told + Unreported(w.store.order, w.store.nodes) == w.counted
  {
    InvariantHolds(actions);
    hide Releases, Sane, Threads, Peaks, Tour, Unreported;
  }

  /** A reported peak is the highest level since the last report, or that report while there was none. */
  lemma PeaksAreMaxima(actions: seq<Action>)
    requires Runs(INIT, actions) && Final(INIT, actions).reader.Visiting?
    ensures var w := Final(INIT, actions);
            var seen := Seen(w, w.reader.node);
            Peak(w) == if seen == [] then Shown(w, w.reader.node) else Max(seen)
  {
    InvariantHolds(actions);
    hide Releases, Sane, Ledger, Tour, Max;
  }

  /** `Max` is the maximum. */
  lemma {:induction false} MaxIsMaximum(levels: seq<word>)
    ensures forall x | x in levels :: x <= Max(levels)
    ensures levels != [] ==> Max(levels) in levels
  {
    if levels != [] {
      var front, last := levels[..|levels| - 1], levels[|levels| - 1];
      MaxIsMaximum(front);
      var m := Max(front);
      assert Max(levels) == if last > m then last else m;
      hide Max;
      forall x | x in levels ensures x in front || x == last {
        var i :| 0 <= i < |levels| && levels[i] == x;
        assert i < |front| ==> front[i] == x;
      }
      assert front == [] ==> m == 0 || last > m by {
        if front == [] {
          MaxOfNothing();
        }
      }
      assert last in levels && (m in front ==> m in levels);
    }
  }

  lemma MaxOfNothing()
    ensures Max([]) == 0
  {
  }
}
