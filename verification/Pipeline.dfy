/** The D-Bus monitor as a whole: a producer thread that connects and pushes messages, a consumer
    thread that seeds the name cache and traces them, and whoever calls stop. The critical sections
    of the queue are atomic; between them every interleaving is possible. */
module Pipeline {
  import opened Common
  import opened Wire
  import opened NameRegistry
  import HeaderCodec
  import RegistryTheorems
  import MessageLaws

  datatype Entry = Entry(msg: Message, serial: int32)

  /** What the queue's mutex protects. */
  datatype Shared = Shared(queue: seq<Entry>, available: bool)

  function Push(q: Shared, e: Entry): Shared { q.(queue := q.queue + [e]) }

  function Notify(q: Shared): Shared { q.(available := true) }

  function Pop(q: Shared): Shared { if q.queue == [] then q else q.(queue := q.queue[1..]) }

  function UpdateFlag(q: Shared): Shared { if q.queue == [] then q.(available := false) else q }

  /** The queue object; each method is one critical section. */
  class MessageQueue {
    var queue: seq<Entry>
    var available: bool

    function Value(): Shared
      reads this
    {
      Shared(queue, available)
    }

    constructor ()
      ensures Value() == Shared([], false)
    {
      queue, available := [], false;
    }

    method PushMessageToQueue(e: Entry)
      modifies this
      ensures Value() == Push(old(Value()), e)
    {
      queue := queue + [e];
    }

    /** The condition is signalled only when the flag rises. */
    method NotifyMessagesAvailable() returns (signal: bool)
      modifies this
      ensures Value() == Notify(old(Value()))
      ensures signal <==> !old(available)
    {
      signal := false;
      if !available {
        available := true;
        signal := true;
      }
    }

    method PopMessageFromQueue() returns (e: Option<Entry>)
      modifies this
      ensures Value() == Pop(old(Value()))
      ensures e == if old(queue) == [] then None else Some(old(queue)[0])
    {
      e := None;
      if |queue| > 0 {
        e := Some(queue[0]);
        queue := queue[1..];
      }
    }

    method UpdateMessageAvailableFlag()
      modifies this
      ensures Value() == UpdateFlag(old(Value()))
    {
      if |queue| == 0 {
        available := false;
      }
    }
  }

  // ----- threads -----

  /** Where the producer stands. */
  datatype Producer =
    | Connecting
    | Connected
    | ConnectFailed
    | AwaitsCache
    | AddsRules
    | Dispatches
    | HasPushed
    | ProducerDone

  /** Where the consumer stands. */
  datatype Consumer =
    | OuterHead
    | AwaitsConnection
    | ChecksConnection
    | Seeds
    | AnnouncesCache
    | LoopHead
    | TestsFlag
    | Parked(signalled: bool)
    | Pops
    | Traces(entry: Entry)
    | ClearsFlag
    | ConsumerDone

  /** A traced message, and how the bus daemon answered while it was handled. */
  datatype Delivery = Delivery(entry: Entry, daemon: Daemon)

  /** What the cache was seeded from: the daemon and the names it listed, if it listed any. */
  datatype Snapshot = Snapshot(daemon: Daemon, names: Option<seq<Name>>)

  datatype State = State(
    producer: Producer,
    consumer: Consumer,
    connection: bool,
    connectionEvent: bool,
    populatedEvent: bool,
    consumerStopped: bool,
    shared: Shared,
    pool: Indices,
    snapshot: Option<Snapshot>,
    pushed: seq<Entry>,
    log: seq<Delivery>,
    sent: seq<HeaderCodec.Header>)

  const INIT := State(Connecting, OuterHead, false, false, false, false, Shared([], false), EMPTY, None, [], [], [])

  /** One atomic step, with the outcome of whatever the threads cannot decide themselves. */
  datatype Action =
    | Connect(ok: bool)
    | SetConnectionEvent
    | WaitPopulated
    | AddRules(ok: bool)
    | PushMessage(entry: Entry)
    | NotifyConsumer
    | StopDispatching
    | TestOuterStop
    | WaitConnection
    | CheckConnection
    | Populate(from: Snapshot)
    | SetPopulatedEvent
    | TestStop
    | TestFlag
    | Wake
    | PopMessage
    | Trace(daemon: Daemon)
    | ClearFlag
    | StopNotify
    | StopConsumer

  predicate Enabled(s: State, a: Action) {
    match a
    case Connect(_) => s.producer.Connecting?
    case SetConnectionEvent => s.producer.Connected? || s.producer.ConnectFailed?
    case WaitPopulated => s.producer.AwaitsCache? && s.populatedEvent
    case AddRules(_) => s.producer.AddsRules?
    case PushMessage(_) => s.producer.Dispatches?
    case NotifyConsumer => s.producer.HasPushed?
    case StopDispatching => s.producer.Dispatches?
    case TestOuterStop => s.consumer.OuterHead?
    case WaitConnection => s.consumer.AwaitsConnection? && s.connectionEvent
    case CheckConnection => s.consumer.ChecksConnection?
    case Populate(_) => s.consumer.Seeds?
    case SetPopulatedEvent => s.consumer.AnnouncesCache?
    case TestStop => s.consumer.LoopHead?
    case TestFlag => s.consumer.TestsFlag?
    case Wake => s.consumer.Parked?
    case PopMessage => s.consumer.Pops?
    case Trace(_) => s.consumer.Traces?
    case ClearFlag => s.consumer.ClearsFlag?
    case StopNotify => true
    case StopConsumer => true
  }

  /** Raising the flag signals the condition, and a signal wakes a parked consumer. */
  function Signal(s: State): State {
    s.(shared := Notify(s.shared),
       consumer := if !s.shared.available && s.consumer.Parked? then Parked(true) else s.consumer)
  }

  function Seeded(from: Snapshot): Indices {
    if from.names.Some? then SeedAll(EMPTY, from.daemon, from.names.value) else EMPTY
  }

  function Updated(x: Indices, d: Delivery): Indices {
    match EventOf(d.entry.msg)
    case Some(e) => Handle(x, d.daemon, e)
    case None => x
  }

  function Next(s: State, a: Action): State
    requires Enabled(s, a)
  {
    match a
    case Connect(ok) => s.(producer := if ok then Connected else ConnectFailed, connection := ok)
    case SetConnectionEvent =>
      s.(producer := if s.producer.Connected? then AwaitsCache else ProducerDone, connectionEvent := true)
    case WaitPopulated => s.(producer := AddsRules, populatedEvent := false)
    case AddRules(ok) => s.(producer := if ok then Dispatches else ProducerDone)
    case PushMessage(e) => s.(producer := HasPushed, shared := Push(s.shared, e), pushed := s.pushed + [e])
    case NotifyConsumer => Signal(s.(producer := Dispatches))
    case StopDispatching => s.(producer := ProducerDone)
    case TestOuterStop => s.(consumer := if s.consumerStopped then ConsumerDone else AwaitsConnection)
    case WaitConnection => s.(consumer := ChecksConnection, connectionEvent := false)
    case CheckConnection =>
      if s.connection then s.(consumer := Seeds) else s.(consumer := OuterHead, consumerStopped := true)
    case Populate(from) => s.(consumer := AnnouncesCache, snapshot := Some(from), pool := Seeded(from))
    case SetPopulatedEvent => s.(consumer := LoopHead, populatedEvent := true)
    case TestStop => s.(consumer := if s.consumerStopped then OuterHead else TestsFlag)
    case TestFlag => s.(consumer := if s.shared.available then Pops else Parked(false))
    case Wake => s.(consumer := TestsFlag)
    case PopMessage =>
      s.(shared := Pop(s.shared),
         consumer := if s.shared.queue == [] then ClearsFlag else Traces(s.shared.queue[0]))
    case Trace(d) =>
      var delivery := Delivery(s.consumer.entry, d);
      var pool := Updated(s.pool, delivery);
      s.(consumer := ClearsFlag, pool := pool, log := s.log + [delivery],
         sent := s.sent + [Describe(pool, delivery.entry.msg, delivery.entry.serial)])
    case ClearFlag => s.(consumer := LoopHead, shared := UpdateFlag(s.shared))
    case StopNotify => Signal(s)
    case StopConsumer => s.(consumerStopped := true)
  }

  ghost predicate Runs(s: State, actions: seq<Action>)
    decreases actions
  {
    actions != [] ==> Enabled(s, actions[0]) && Runs(Next(s, actions[0]), actions[1..])
  }

  function Final(s: State, actions: seq<Action>): State
    requires Runs(s, actions)
    decreases actions
  {
    if actions == [] then s else Final(Next(s, actions[0]), actions[1..])
  }

  // ----- what a sequential tracer would do -----

  /** The cache after a list of deliveries, one after the other. */
  function Cache(x: Indices, log: seq<Delivery>): Indices {
    if log == [] then x else Updated(Cache(x, log[..|log| - 1]), log[|log| - 1])
  }

  /** The headers a sequential tracer sends: each message is described by the cache it leaves behind. */
  function Outputs(x: Indices, log: seq<Delivery>): seq<HeaderCodec.Header> {
    if log == [] then []
    else
      var last := log[|log| - 1];
      Outputs(x, log[..|log| - 1]) + [Describe(Cache(x, log), last.entry.msg, last.entry.serial)]
  }

  function Entries(log: seq<Delivery>): seq<Entry> { seq(|log|, i requires 0 <= i < |log| => log[i].entry) }

  function InFlight(c: Consumer): seq<Entry> { if c.Traces? then [c.entry] else [] }

  // ----- invariants -----

  /** Traced, in flight and queued, in this order, are exactly what was pushed. */
  ghost predicate InOrder(s: State) {
    Entries(s.log) + InFlight(s.consumer) + s.shared.queue == s.pushed
  }

  /** Queued messages are announced or about to be; a parked consumer has seen the flag down. */
  ghost predicate NoMissedWakeup(s: State) {
    && (s.shared.queue != [] ==> s.shared.available || s.producer.HasPushed?)
    && (s.consumer == Parked(false) ==> !s.shared.available)
  }

  ghost predicate IsSeeded(s: State) { s.snapshot.Some? && !s.consumer.AnnouncesCache? }

  predicate InInnerLoop(c: Consumer) {
    c.LoopHead? || c.TestsFlag? || c.Parked? || c.Pops? || c.Traces? || c.ClearsFlag?
  }

  /** The two hand-shakes: connection before cache, cache before messages. */
  ghost predicate StartUp(s: State) {
    && (s.producer.Connecting? || s.producer.ConnectFailed? ==> !s.connection)
    && (s.producer.Connected? || s.producer.AwaitsCache? ==> s.connection)
    && (s.consumer.Seeds? || s.snapshot.Some? ==> s.connection)
    && (s.consumer.AwaitsConnection? || s.consumer.ChecksConnection? || s.consumer.Seeds? ==> s.snapshot.None?)
    && (s.consumer.OuterHead? && s.snapshot.Some? ==> s.consumerStopped)
    && (s.consumer.AnnouncesCache? || InInnerLoop(s.consumer) ==> s.snapshot.Some?)
    && (s.populatedEvent || s.producer.AddsRules? || s.producer.Dispatches? || s.producer.HasPushed? || s.pushed != []
        ==> IsSeeded(s))
  }

  /** The cache and the headers sent are those of the sequential tracer on what was traced. */
  ghost predicate Sequential(s: State) {
    match s.snapshot
    case None => s.pool == EMPTY && s.log == [] && s.sent == []
    case Some(from) => s.pool == Cache(Seeded(from), s.log) && s.sent == Outputs(Seeded(from), s.log)
  }

  ghost predicate Inv(s: State) {
    InOrder(s) && NoMissedWakeup(s) && StartUp(s) && Sequential(s)
  }

  lemma FourParts(a: seq<Entry>, b: seq<Entry>, c: seq<Entry>, d: seq<Entry>)
    ensures a + b + (c + d) == a + b + c + d
  {
  }

  lemma PopInOrder(s: State)
    requires InOrder(s) && s.consumer.Pops?
    ensures InOrder(Next(s, PopMessage))
  {
    if s.shared.queue != [] {
      var first, rest := [s.shared.queue[0]], s.shared.queue[1..];
      assert s.shared.queue == first + rest;
      FourParts(Entries(s.log), [], first, rest);
    }
    hide Entries;
  }

  lemma TraceInOrder(s: State, d: Daemon)
    requires InOrder(s) && s.consumer.Traces?
    ensures InOrder(Next(s, Trace(d)))
  {
    hide Updated, Describe;
    assert Entries(Next(s, Trace(d)).log) == Entries(s.log) + [s.consumer.entry];
  }

  lemma InOrderStep(s: State, a: Action)
    requires InOrder(s) && Enabled(s, a)
    ensures InOrder(Next(s, a))
  {
    hide Seeded, Updated, Describe, Entries;
    match a
    case PushMessage(e) => FourParts(Entries(s.log), InFlight(s.consumer), s.shared.queue, [e]);
    case PopMessage => PopInOrder(s);
    case Trace(d) => TraceInOrder(s, d);
    case _ =>
  }

  lemma NoMissedWakeupStep(s: State, a: Action)
    requires NoMissedWakeup(s) && Enabled(s, a)
    ensures NoMissedWakeup(Next(s, a))
  {
    hide Seeded, Updated, Describe;
  }

  lemma StartUpStep(s: State, a: Action)
    requires StartUp(s) && Enabled(s, a)
    ensures StartUp(Next(s, a))
  {
    hide Seeded, Updated, Describe;
  }

  lemma SequentialStep(s: State, a: Action)
    requires Sequential(s) && StartUp(s) && Enabled(s, a)
    ensures Sequential(Next(s, a))
  {
    hide Updated, Describe, SeedAll;
    if a.Trace? {
      var t := Next(s, a);
      assert t.log[..|t.log| - 1] == s.log;
    }
  }

  lemma {:induction false} InvariantFrom(s: State, actions: seq<Action>)
    requires Inv(s) && Runs(s, actions)
    ensures Inv(Final(s, actions))
    decreases actions
  {
    if actions != [] {
      InOrderStep(s, actions[0]);
      NoMissedWakeupStep(s, actions[0]);
      StartUpStep(s, actions[0]);
      SequentialStep(s, actions[0]);
      hide Next, Enabled, InOrder, NoMissedWakeup, StartUp, Sequential;
      InvariantFrom(Next(s, actions[0]), actions[1..]);
    }
  }

  /** Every state that any interleaving of the threads can reach. */
  lemma InvariantHolds(actions: seq<Action>)
    requires Runs(INIT, actions)
    ensures Inv(Final(INIT, actions))
  {
    assert Inv(INIT);
    InvariantFrom(INIT, actions);
  }

  // ----- what follows from them -----

  /** Nothing lost, duplicated or reordered, and the headers sent are those of the sequential tracer on a
      prefix of what was pushed. */
  ghost predicate IsSequential(s: State) {
    && Entries(s.log) <= s.pushed
    && s.pushed[|s.log|..] == InFlight(s.consumer) + s.shared.queue
    && (s.log != [] ==> s.snapshot.Some?)
    && s.sent == (if s.snapshot.Some? then Outputs(Seeded(s.snapshot.value), s.log) else [])
  }

  lemma ThreeParts<T>(a: seq<T>, b: seq<T>, c: seq<T>)
    ensures a <= a + b + c && (a + b + c)[|a|..] == b + c
  {
  }

  lemma InOrderIsPrefix(s: State)
    requires InOrder(s)
    ensures Entries(s.log) <= s.pushed && s.pushed[|s.log|..] == InFlight(s.consumer) + s.shared.queue
  {
    hide InFlight;
    var done, flight := Entries(s.log), InFlight(s.consumer);
    assert |done| == |s.log|;
    hide Entries;
    ThreeParts(done, flight, s.shared.queue);
  }

  lemma {:induction false} RunsAreSequential(actions: seq<Action>)
    requires Runs(INIT, actions)
    ensures IsSequential(Final(INIT, actions))
  {
    InvariantHolds(actions);
    var s := Final(INIT, actions);
    InOrderIsPrefix(s);
    assert Sequential(s);
    hide Runs, Final, Entries, InFlight, Outputs, Seeded, Cache, InOrder, StartUp, NoMissedWakeup;
  }

  /** The header sent last describes the message traced last, by the cache that has taken that message in. */
  lemma LastIsDescribed(actions: seq<Action>)
    requires Runs(INIT, actions) && Final(INIT, actions).log != []
    ensures var s := Final(INIT, actions);
            var e := s.log[|s.log| - 1].entry;
            |s.sent| > 0 && s.sent[|s.sent| - 1] == Describe(s.pool, e.msg, e.serial)
  {
    InvariantHolds(actions);
    assert Sequential(Final(INIT, actions));
    hide Runs, Final, Inv, Seeded, Cache, Describe;
  }

  /** A consumer parked unsignalled beside a non-empty queue is only ever there while the producer
      stands between push and notify, and the notify then signals it. */
  lemma ParkedIsWoken(actions: seq<Action>)
    requires Runs(INIT, actions)
    ensures var s := Final(INIT, actions);
            s.shared.queue != [] && s.consumer == Parked(false) ==>
              Enabled(s, NotifyConsumer) && Next(s, NotifyConsumer).consumer == Parked(true)
  {
    InvariantHolds(actions);
  }

  lemma {:induction false} SnapshotNeedsPopulate(s: State, actions: seq<Action>)
    requires s.snapshot.None? && Runs(s, actions) && Final(s, actions).snapshot.Some?
    ensures exists j :: 0 <= j < |actions| && actions[j].Populate?
    decreases actions
  {
    if actions != [] && !actions[0].Populate? {
      SnapshotNeedsPopulate(Next(s, actions[0]), actions[1..]);
      var j :| 0 <= j < |actions[1..]| && actions[1..][j].Populate?;
      assert actions[j + 1].Populate?;
    }
  }

  /** A message is only pushed onto a seeded cache, and there is none without a connection. */
  ghost predicate SeededFirst(s: State) {
    && (s.producer.Dispatches? ==> IsSeeded(s))
    && (!s.connection ==> s.pushed == [] && s.shared.queue == [] && s.sent == [])
  }

  lemma InvSeedsFirst(s: State)
    requires Inv(s)
    ensures SeededFirst(s)
  {
    if !s.connection {
      assert s.snapshot.None? && s.pushed == [];
      InOrderIsPrefix(s);
    }
    hide Outputs, Cache, Seeded;
  }

  /** No message enters the queue before the cache has been seeded, and none at all without a connection. */
  lemma NothingBeforeSeeding(actions: seq<Action>)
    requires Runs(INIT, actions)
    ensures var s := Final(INIT, actions);
            && SeededFirst(s)
            && (s.producer.Dispatches? ==> exists j :: 0 <= j < |actions| && actions[j].Populate?)
  {
    InvariantHolds(actions);
    var s := Final(INIT, actions);
    hide Inv, Runs, Final;
    InvSeedsFirst(s);
    if s.producer.Dispatches? {
      SnapshotNeedsPopulate(INIT, actions);
    }
  }

  // ----- the cache against the bus -----

  /** The announcements among the traced messages. */
  function Turns(log: seq<Delivery>): seq<RegistryTheorems.Turn> {
    if log == [] then []
    else
      var last := log[|log| - 1];
      Turns(log[..|log| - 1]) +
      match EventOf(last.entry.msg)
      case Some(e) => [RegistryTheorems.Turn(e, last.daemon)]
      case None => []
  }

  lemma {:induction false} RunCacheAppend(x: Indices, turns: seq<RegistryTheorems.Turn>, t: RegistryTheorems.Turn)
    ensures RegistryTheorems.RunCache(x, turns + [t])
         == Handle(RegistryTheorems.RunCache(x, turns), t.daemon, t.event)
    decreases turns
  {
    hide Handle;
    if turns != [] {
      assert (turns + [t])[1..] == turns[1..] + [t];
      RunCacheAppend(Handle(x, turns[0].daemon, turns[0].event), turns[1..], t);
    }
  }

  lemma {:induction false} CacheIsRun(x: Indices, log: seq<Delivery>)
    ensures Cache(x, log) == RegistryTheorems.RunCache(x, Turns(log))
    decreases log
  {
    hide Handle;
    if log != [] {
      var front, last := log[..|log| - 1], log[|log| - 1];
      CacheIsRun(x, front);
      var e := EventOf(last.entry.msg);
      if e.Some? {
        RunCacheAppend(x, Turns(front), RegistryTheorems.Turn(e.value, last.daemon));
      } else {
        assert Turns(log) == Turns(front);
      }
    }
  }

  /** In every state of every run, whatever was announced: each owner the cache knows has an entry, so a
      receiver that resolves is always described with the ids recorded for it. */
  lemma ReceiversAreDescribed(actions: seq<Action>, m: Message, serial: int32)
    requires Runs(INIT, actions) && Receiver(Final(INIT, actions).pool, m).Some?
    ensures var x := Final(INIT, actions).pool;
            var o, h := Receiver(x, m).value, Describe(x, m, serial);
            && o in x.services
            && h.fields[5] == HeaderCodec.Int32(x.services[o].pid) && h.fields[7] == HeaderCodec.Int32(x.services[o].uid)
  {
    InvariantHolds(actions);
    var s := Final(INIT, actions);
    if s.snapshot.Some? {
      var from := s.snapshot.value;
      RegistryTheorems.SeedingIsSound(from.daemon, if from.names.Some? then from.names.value else [], map[]);
      assert RegistryTheorems.Closed(Seeded(from));
      CacheIsRun(Seeded(from), s.log);
      RegistryTheorems.ClosedRun(Seeded(from), Turns(s.log));
    }
    assert RegistryTheorems.Closed(s.pool);
    hide *;
    RegistryTheorems.ResolvedReceiverIsDescribed(s.pool, m, serial, []);
  }

  function Events(turns: seq<RegistryTheorems.Turn>): seq<Event> {
    if turns == [] then [] else Events(turns[..|turns| - 1]) + [turns[|turns| - 1].event]
  }

  /** The traced messages that are signals of the bus about the owner of a name signal `changes`, in order. */
  predicate Carries(log: seq<Delivery>, changes: seq<Event>)
    decreases log
  {
    if log == [] then changes == []
    else
      var front, m := log[..|log| - 1], log[|log| - 1].entry.msg;
      if !MessageLaws.IsOwnerSignal(m) then Carries(front, changes)
      else
        && changes != []
        && var e := changes[|changes| - 1];
           MessageLaws.Signals(m, e.name, e.oldOwner, e.newOwner) && Carries(front, changes[..|changes| - 1])
  }

  lemma {:induction false} CarriedTurns(log: seq<Delivery>, changes: seq<Event>)
    requires Carries(log, changes)
    ensures Events(Turns(log)) == changes
    decreases log
  {
    if log != [] {
      var front, last := log[..|log| - 1], log[|log| - 1];
      MessageLaws.AnnouncedChange(last.entry.msg);
      if MessageLaws.IsOwnerSignal(last.entry.msg) {
        var e := changes[|changes| - 1];
        CarriedTurns(front, changes[..|changes| - 1]);
        assert EventOf(last.entry.msg) == Some(NameOwnerChanged(e.name, e.oldOwner, e.newOwner));
        assert Turns(log) == Turns(front) + [RegistryTheorems.Turn(e, last.daemon)];
        assert Turns(log)[..|Turns(log)| - 1] == Turns(front);
        assert changes == changes[..|changes| - 1] + [e];
      } else {
        CarriedTurns(front, changes);
        assert Turns(log) == Turns(front);
      }
      hide MessageLaws.IsOwnerSignal, MessageLaws.Signals, EventOf;
    }
  }

  /** Changes that happen to a bus one after the other, and the bus after them. */
  predicate TrueChanges(bus: RegistryTheorems.Bus, changes: seq<Event>)
    decreases changes
  {
    changes != [] ==>
      && RegistryTheorems.Announces(bus, changes[0])
      && TrueChanges(RegistryTheorems.After(bus, changes[0]), changes[1..])
  }

  function BusAfter(bus: RegistryTheorems.Bus, changes: seq<Event>): RegistryTheorems.Bus
    decreases changes
  {
    if changes == [] then bus else BusAfter(RegistryTheorems.After(bus, changes[0]), changes[1..])
  }

  lemma {:induction false} EventsFirst(turns: seq<RegistryTheorems.Turn>)
    requires turns != []
    ensures Events(turns) == [turns[0].event] + Events(turns[1..])
  {
    if |turns| == 1 {
      assert turns[..0] == [] && turns[1..] == [];
    } else {
      EventsFirst(turns[..|turns| - 1]);
      assert turns[..|turns| - 1][1..] == turns[1..][..|turns[1..]| - 1];
    }
  }

  lemma {:induction false} TurnsAreTrue(bus: RegistryTheorems.Bus, turns: seq<RegistryTheorems.Turn>)
    requires TrueChanges(bus, Events(turns))
    ensures RegistryTheorems.AnnouncesAll(bus, turns)
    ensures RegistryTheorems.RunBus(bus, turns) == BusAfter(bus, Events(turns))
    decreases turns
  {
    if turns != [] {
      EventsFirst(turns);
      assert Events(turns)[1..] == Events(turns[1..]);
      hide Events, RegistryTheorems.Announces, RegistryTheorems.After;
      TurnsAreTrue(RegistryTheorems.After(bus, turns[0].event), turns[1..]);
    }
  }

  /** In every run that was seeded from a correct snapshot and traced the signals of whatever changes happened to
      the bus, among other messages, whatever the threads did meanwhile: all the cache says is true of the bus as
      those changes left it. */
  lemma TracingIsSound(actions: seq<Action>, bus: RegistryTheorems.Bus, changes: seq<Event>)
    requires Runs(INIT, actions)
    requires var s := Final(INIT, actions);
             && s.snapshot.Some? && s.snapshot.value.names.Some?
             && RegistryTheorems.CorrectSnapshot(s.snapshot.value.daemon, s.snapshot.value.names.value, bus)
             && Carries(s.log, changes)
    requires RegistryTheorems.WellFormedBus(bus) && TrueChanges(bus, changes)
    ensures var s := Final(INIT, actions);
            RegistryTheorems.Sound(s.pool, BusAfter(bus, changes)) && RegistryTheorems.Closed(s.pool)
  {
    InvariantHolds(actions);
    var s := Final(INIT, actions);
    var from := s.snapshot.value;
    assert s.pool == Cache(Seeded(from), s.log);
    hide *;
    CarriedTurns(s.log, changes);
    TurnsAreTrue(bus, Turns(s.log));
    CacheIsRun(Seeded(from), s.log);
    SeededFromNames(from);
    RegistryTheorems.RegistryRun(from.daemon, from.names.value, bus, Turns(s.log));
  }

  lemma SeededFromNames(from: Snapshot)
    requires from.names.Some?
    ensures Seeded(from) == SeedAll(EMPTY, from.daemon, from.names.value)
  {
  }
}
