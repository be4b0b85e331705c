/** What gets the monitor's threads on: the start-up cannot hang, whatever comes is traced, the consumer rests when
    there is nothing to do, and stops. */
module PipelineProgress {
  import opened Common
  import opened Wire
  import opened NameRegistry
  import HeaderCodec
  import opened Pipeline

  function One(b: bool): nat { if b then 1 else 0 }

  // ----- the flag -----

  /** Turns of the consumer that find the queue empty. */
  function EmptyPops(s: State, actions: seq<Action>): nat
    requires Runs(s, actions)
    decreases actions
  {
    if actions == [] then 0
    else One(actions[0].PopMessage? && s.shared.queue == []) + EmptyPops(Next(s, actions[0]), actions[1..])
  }

  /** Notifications that come with a stop. */
  function Stops(actions: seq<Action>): nat
    decreases actions
  {
    if actions == [] then 0 else One(actions[0].StopNotify?) + Stops(actions[1..])
  }

  /** The consumer pops only while the flag is up, and parks only while it is down. */
  predicate FlagSeen(s: State) {
    (s.consumer.Pops? ==> s.shared.available) && (s.consumer == Parked(false) ==> !s.shared.available)
  }

  /** An empty turn ahead: the flag is up over an empty queue, and the consumer is not about to lower it. */
  predicate TurnAhead(s: State) {
    s.shared.available && s.shared.queue == [] && !s.consumer.Traces? && !s.consumer.ClearsFlag?
  }

  lemma EmptyPopsStep(s: State, a: Action)
    requires FlagSeen(s) && Enabled(s, a)
    ensures var t := Next(s, a);
            && FlagSeen(t)
            && One(a.PopMessage? && s.shared.queue == []) + One(TurnAhead(t)) + |s.pushed| + One(t.producer.HasPushed?)
               <= One(a.StopNotify?) + One(TurnAhead(s)) + |t.pushed| + One(s.producer.HasPushed?)
  {
    hide Seeded, Updated, Describe;
  }

  lemma {:induction false} EmptyPopsFrom(s: State, actions: seq<Action>)
    requires FlagSeen(s) && Runs(s, actions)
    ensures var t := Final(s, actions);
            && FlagSeen(t)
            && EmptyPops(s, actions) + One(TurnAhead(t)) + |s.pushed| + One(t.producer.HasPushed?)
               <= Stops(actions) + One(TurnAhead(s)) + |t.pushed| + One(s.producer.HasPushed?)
    decreases actions
  {
    if actions != [] {
      EmptyPopsStep(s, actions[0]);
      hide Next, Enabled, TurnAhead, FlagSeen;
      EmptyPopsFrom(Next(s, actions[0]), actions[1..]);
    }
  }

  /** In every run the consumer finds the queue empty at most once for each message pushed and each stop. */
  lemma NoSpinning(actions: seq<Action>)
    requires Runs(INIT, actions)
    ensures FlagSeen(Final(INIT, actions))
    ensures EmptyPops(INIT, actions) <= |Final(INIT, actions).pushed| + Stops(actions)
  {
    EmptyPopsFrom(INIT, actions);
    hide Runs, Final, EmptyPops, Stops, FlagSeen;
  }

  /** After a turn over an empty queue the flag is down and the consumer parks, if nobody does anything meanwhile. */
  lemma ParksAgain(s: State)
    requires s.consumer == ClearsFlag && s.shared.queue == [] && !s.consumerStopped
    ensures Enabled(s, ClearFlag) && Enabled(Next(s, ClearFlag), TestStop)
    ensures Enabled(Next(Next(s, ClearFlag), TestStop), TestFlag)
    ensures var t := Next(Next(Next(s, ClearFlag), TestStop), TestFlag);
            t == s.(consumer := Parked(false), shared := Shared([], false))
  {
  }

  /** The flag is never lowered over a message. */
  lemma FlagStaysOverMessages(s: State, a: Action)
    requires Enabled(s, a) && s.shared.available && !Next(s, a).shared.available
    ensures a == ClearFlag && s.shared.queue == []
  {
  }

  // ----- starting up -----

  /** The producer has not yet told whether there is a connection. */
  predicate IsEarly(p: Producer) { p.Connecting? || p.Connected? || p.ConnectFailed? }

  /** Whoever waits in the start-up is waited for by nobody who waits. */
  predicate Handshake(s: State) {
    && (s.producer.AwaitsCache? ==>
          || s.populatedEvent || s.consumerStopped
          || s.consumer.OuterHead? || s.consumer.AwaitsConnection? || s.consumer.ChecksConnection?
          || s.consumer.Seeds? || s.consumer.AnnouncesCache?)
    && (IsEarly(s.producer) ==> s.consumer.OuterHead? || s.consumer.AwaitsConnection? || s.consumer.ConsumerDone?)
    && (IsEarly(s.producer) ==> !s.connectionEvent)
    && (s.consumer.ConsumerDone? ==> s.consumerStopped)
    && ((s.consumer.OuterHead? || s.consumer.AwaitsConnection?) && !s.consumerStopped ==>
          s.connectionEvent || IsEarly(s.producer))
  }

  lemma HandshakeStep(s: State, a: Action)
    requires Handshake(s) && StartUp(s) && Enabled(s, a)
    ensures Handshake(Next(s, a))
  {
    hide Seeded, Updated, Describe;
  }

  lemma {:induction false} HandshakeFrom(s: State, actions: seq<Action>)
    requires Handshake(s) && StartUp(s) && Runs(s, actions)
    ensures Handshake(Final(s, actions)) && StartUp(Final(s, actions))
    decreases actions
  {
    if actions != [] {
      HandshakeStep(s, actions[0]);
      StartUpStep(s, actions[0]);
      hide Next, Enabled, Handshake, StartUp;
      HandshakeFrom(Next(s, actions[0]), actions[1..]);
    }
  }

  /** A step of the start-up that a thread takes by itself. */
  predicate Moves(s: State, a: Action) {
    && Enabled(s, a)
    && (a == Connect(true) || a == SetConnectionEvent || a == WaitPopulated || a == TestOuterStop || a == WaitConnection
        || a == CheckConnection || a.Populate? || a == SetPopulatedEvent)
  }

  /** In every run that is not stopped, as long as a thread waits in the start-up, one of the two can move. */
  lemma StartUpCannotHang(actions: seq<Action>)
    requires Runs(INIT, actions)
    requires var s := Final(INIT, actions);
             !s.consumerStopped && (s.producer.AwaitsCache? || s.consumer.AwaitsConnection?)
    ensures exists a :: Moves(Final(INIT, actions), a)
  {
    HandshakeFrom(INIT, actions);
    var s := Final(INIT, actions);
    hide Runs, Final;
    HandshakeMoves(s);
  }

  lemma HandshakeMoves(s: State)
    requires Handshake(s) && !s.consumerStopped && (s.producer.AwaitsCache? || s.consumer.AwaitsConnection?)
    ensures exists a :: Moves(s, a)
  {
    var from := Snapshot(Daemon(n => NoReply, n => 0, n => 0), None);
    assert Moves(s, Connect(true)) || Moves(s, SetConnectionEvent) || Moves(s, WaitPopulated) || Moves(s, TestOuterStop)
        || Moves(s, WaitConnection) || Moves(s, CheckConnection) || Moves(s, Populate(from)) || Moves(s, SetPopulatedEvent);
  }

  // ----- runs that exist -----

  ghost predicate Leads(s: State, t: State) { exists actions: seq<Action> :: Runs(s, actions) && Final(s, actions) == t }

  lemma LeadsNowhere(s: State)
    ensures Leads(s, s)
  {
    assert Runs(s, []) && Final(s, []) == s;
  }

  lemma StepFirst(s: State, a: Action, t: State)
    requires Enabled(s, a) && Leads(Next(s, a), t)
    ensures Leads(s, t)
  {
    var actions: seq<Action> :| Runs(Next(s, a), actions) && Final(Next(s, a), actions) == t;
    assert ([a] + actions)[0] == a && ([a] + actions)[1..] == actions;
    assert Runs(s, [a] + actions) && Final(s, [a] + actions) == t;
  }

  lemma {:induction false} RunsOn(s: State, first: seq<Action>, t: State)
    requires Runs(s, first) && Leads(Final(s, first), t)
    ensures Leads(s, t)
    decreases first
  {
    if first != [] {
      hide Next, Enabled, Leads;
      RunsOn(Next(s, first[0]), first[1..], t);
      StepFirst(s, first[0], t);
    }
  }

  lemma LeadsOn(s: State, t: State, u: State)
    requires Leads(s, t) && Leads(t, u)
    ensures Leads(s, u)
  {
    var first: seq<Action> :| Runs(s, first) && Final(s, first) == t;
    RunsOn(s, first, u);
  }

  /** The monitor at rest, after it has traced `log`. */
  function AtRest(from: Snapshot, pushed: seq<Entry>, log: seq<Delivery>): State {
    State(Dispatches, Parked(false), true, false, false, false, Shared([], false),
          Cache(Seeded(from), log), Some(from), pushed, log, Outputs(Seeded(from), log))
  }

  lemma CacheOfNothing(from: Snapshot)
    ensures AtRest(from, [], []) ==
            State(Dispatches, Parked(false), true, false, false, false, Shared([], false),
                  Seeded(from), Some(from), [], [], [])
  {
  }

  /** At the head of its loop, with the flag down and no stop, the consumer goes to rest. */
  lemma GoesToRest(s: State)
    requires s.consumer == LoopHead && !s.shared.available && !s.consumerStopped
    ensures Leads(s, s.(consumer := Parked(false)))
  {
    var t, u := s.(consumer := TestsFlag), s.(consumer := Parked(false));
    assert Next(s, TestStop) == t && Next(t, TestFlag) == u;
    hide Next, Leads;
    LeadsNowhere(u);
    StepFirst(t, TestFlag, u);
    StepFirst(s, TestStop, u);
  }

  /** The consumer's part of the start-up, once the connection is there. */
  lemma ConsumerSeeds(from: Snapshot)
    ensures var s := INIT.(producer := AwaitsCache, connection := true, connectionEvent := true);
            Leads(s, s.(consumer := AnnouncesCache, connectionEvent := false, snapshot := Some(from), pool := Seeded(from)))
  {
    var s2 := INIT.(producer := AwaitsCache, connection := true, connectionEvent := true);
    var s3 := s2.(consumer := AwaitsConnection);
    var s4 := s3.(consumer := ChecksConnection, connectionEvent := false);
    var s5 := s4.(consumer := Seeds);
    var s6 := s5.(consumer := AnnouncesCache, snapshot := Some(from), pool := Seeded(from));
    assert Next(s2, TestOuterStop) == s3 && Next(s3, WaitConnection) == s4 && Next(s4, CheckConnection) == s5;
    assert Next(s5, Populate(from)) == s6;
    hide Next, Leads, Seeded;
    LeadsNowhere(s6);
    StepFirst(s5, Populate(from), s6);
    StepFirst(s4, CheckConnection, s6);
    StepFirst(s3, WaitConnection, s6);
    StepFirst(s2, TestOuterStop, s6);
  }

  /** Then the producer goes on, and the consumer to rest. */
  lemma BothStart(s: State)
    requires s.producer == AwaitsCache && s.consumer == AnnouncesCache && !s.shared.available && !s.consumerStopped
    requires !s.populatedEvent
    ensures Leads(s, s.(producer := Dispatches, consumer := Parked(false)))
  {
    var s7 := s.(consumer := LoopHead, populatedEvent := true);
    var s8 := s7.(producer := AddsRules, populatedEvent := false);
    var s9 := s8.(producer := Dispatches);
    assert Next(s, SetPopulatedEvent) == s7 && Next(s7, WaitPopulated) == s8 && Next(s8, AddRules(true)) == s9;
    GoesToRest(s9);
    hide Next, Leads;
    var t := s9.(consumer := Parked(false));
    StepFirst(s8, AddRules(true), t);
    StepFirst(s7, WaitPopulated, t);
    StepFirst(s, SetPopulatedEvent, t);
  }

  /** Whatever the snapshot, the start-up can go through. */
  lemma StartsUp(from: Snapshot)
    ensures Leads(INIT, AtRest(from, [], []))
  {
    var s1 := INIT.(producer := Connected, connection := true);
    var s2 := s1.(producer := AwaitsCache, connectionEvent := true);
    var s6 := s2.(consumer := AnnouncesCache, connectionEvent := false, snapshot := Some(from), pool := Seeded(from));
    assert Next(INIT, Connect(true)) == s1 && Next(s1, SetConnectionEvent) == s2;
    CacheOfNothing(from);
    hide Next, Leads, AtRest, Seeded;
    ConsumerSeeds(from);
    BothStart(s6);
    LeadsOn(s2, s6, AtRest(from, [], []));
    StepFirst(s1, SetConnectionEvent, AtRest(from, [], []));
    StepFirst(INIT, Connect(true), AtRest(from, [], []));
  }

  /** The two histories a message adds to. */
  lemma HistoryGrows(from: Snapshot, log: seq<Delivery>, e: Entry, d: Daemon)
    ensures var x, all := Cache(Seeded(from), log), log + [Delivery(e, d)];
            && Cache(Seeded(from), all) == Updated(x, Delivery(e, d))
            && Outputs(Seeded(from), all)
               == Outputs(Seeded(from), log) + [Describe(Updated(x, Delivery(e, d)), e.msg, e.serial)]
  {
    var all := log + [Delivery(e, d)];
    assert all[..|all| - 1] == log;
    hide Seeded, Updated, Describe;
  }

  /** A consumer that was woken over one message takes it. */
  lemma WokenTakes(s: State, e: Entry)
    requires s.consumer == Parked(true) && s.shared == Shared([e], true)
    ensures Leads(s, s.(consumer := Traces(e), shared := Shared([], true)))
  {
    var s3 := s.(consumer := TestsFlag);
    var s4 := s3.(consumer := Pops);
    var s5 := s4.(consumer := Traces(e), shared := Shared([], true));
    assert Next(s, Wake) == s3 && Next(s3, TestFlag) == s4 && Next(s4, PopMessage) == s5;
    hide Next, Leads;
    LeadsNowhere(s5);
    StepFirst(s4, PopMessage, s5);
    StepFirst(s3, TestFlag, s5);
    StepFirst(s, Wake, s5);
  }

  /** A message that is pushed wakes a resting consumer, which takes it. */
  lemma MessageIsTaken(s: State, e: Entry)
    requires s.producer == Dispatches && s.consumer == Parked(false) && s.shared == Shared([], false)
    ensures Leads(s, s.(consumer := Traces(e), shared := Shared([], true), pushed := s.pushed + [e]))
  {
    var s1 := s.(producer := HasPushed, shared := Shared([e], false), pushed := s.pushed + [e]);
    var s2 := s1.(producer := Dispatches, shared := Shared([e], true), consumer := Parked(true));
    assert Next(s, PushMessage(e)) == s1 && Next(s1, NotifyConsumer) == s2;
    hide Next, Leads;
    WokenTakes(s2, e);
    StepFirst(s1, NotifyConsumer, s2.(consumer := Traces(e), shared := Shared([], true)));
    StepFirst(s, PushMessage(e), s2.(consumer := Traces(e), shared := Shared([], true)));
  }

  /** A consumer that has taken the only message traces it and goes to rest. */
  lemma TakenIsTraced(s: State, e: Entry, d: Daemon)
    requires s.consumer == Traces(e) && s.shared == Shared([], true) && !s.consumerStopped
    ensures var x := Updated(s.pool, Delivery(e, d));
            Leads(s, s.(consumer := Parked(false), shared := Shared([], false), pool := x,
                        log := s.log + [Delivery(e, d)], sent := s.sent + [Describe(x, e.msg, e.serial)]))
  {
    hide Updated, Describe;
    var x := Updated(s.pool, Delivery(e, d));
    var s6 := s.(consumer := ClearsFlag, pool := x, log := s.log + [Delivery(e, d)],
                 sent := s.sent + [Describe(x, e.msg, e.serial)]);
    var s7 := s6.(consumer := LoopHead, shared := Shared([], false));
    assert Next(s, Trace(d)) == s6 && Next(s6, ClearFlag) == s7;
    GoesToRest(s7);
    hide Next, Leads;
    StepFirst(s6, ClearFlag, s7.(consumer := Parked(false)));
    StepFirst(s, Trace(d), s7.(consumer := Parked(false)));
  }

  /** From rest, a message is pushed, wakes the consumer, is traced, and leaves the monitor at rest. */
  lemma MessageIsTraced(from: Snapshot, pushed: seq<Entry>, log: seq<Delivery>, e: Entry, d: Daemon)
    ensures Leads(AtRest(from, pushed, log), AtRest(from, pushed + [e], log + [Delivery(e, d)]))
  {
    hide Updated, Describe, Cache, Outputs, Seeded, Leads;
    var s := AtRest(from, pushed, log);
    var t := s.(consumer := Traces(e), shared := Shared([], true), pushed := pushed + [e]);
    HistoryGrows(from, log, e, d);
    MessageIsTaken(s, e);
    TakenIsTraced(t, e, d);
    LeadsOn(s, t, AtRest(from, pushed + [e], log + [Delivery(e, d)]));
  }

  /** Whatever the snapshot and whatever the messages, there is a run that traces just those. */
  lemma {:induction false} AnythingIsTraced(from: Snapshot, log: seq<Delivery>)
    ensures Leads(INIT, AtRest(from, Entries(log), log))
    decreases log
  {
    hide Leads, AtRest;
    if log == [] {
      StartsUp(from);
    } else {
      var front, last := log[..|log| - 1], log[|log| - 1];
      assert log == front + [last] && last == Delivery(last.entry, last.daemon);
      assert Entries(log) == Entries(front) + [last.entry];
      AnythingIsTraced(from, front);
      MessageIsTraced(from, Entries(front), front, last.entry, last.daemon);
      LeadsOn(INIT, AtRest(from, Entries(front), front), AtRest(from, Entries(log), log));
    }
  }

  // ----- stopping -----

  /** A stop is never taken back. */
  lemma StopLasts(s: State, a: Action)
    requires Enabled(s, a)
    ensures s.consumerStopped ==> Next(s, a).consumerStopped
    ensures !s.consumerStopped && Next(s, a).consumerStopped ==> a == StopConsumer || (a == CheckConnection && !s.connection)
  {
  }

  /** A stopped consumer that gets to the head of its loop ends; so does one that finds no connection. */
  lemma StopEndsTheConsumer(s: State)
    requires (s.consumer == LoopHead && s.consumerStopped) || (s.consumer == ChecksConnection && !s.connection)
    ensures var a := if s.consumer == LoopHead then TestStop else CheckConnection;
            && Enabled(s, a) && Enabled(Next(s, a), TestOuterStop)
            && Next(Next(s, a), TestOuterStop) == s.(consumer := ConsumerDone, consumerStopped := true)
  {
  }

  /** A consumer that was woken over an empty queue lowers the flag and gets back to the head of its loop. */
  lemma EmptyTurn(s: State)
    requires s.consumer == Parked(true) && s.shared == Shared([], true)
    ensures Leads(s, s.(consumer := LoopHead, shared := Shared([], false)))
  {
    var s3 := s.(consumer := TestsFlag);
    var s4 := s3.(consumer := Pops);
    var s5 := s4.(consumer := ClearsFlag);
    var s6 := s5.(consumer := LoopHead, shared := Shared([], false));
    assert Next(s, Wake) == s3 && Next(s3, TestFlag) == s4 && Next(s4, PopMessage) == s5 && Next(s5, ClearFlag) == s6;
    hide Next, Leads;
    LeadsNowhere(s6);
    StepFirst(s5, ClearFlag, s6);
    StepFirst(s4, PopMessage, s6);
    StepFirst(s3, TestFlag, s6);
    StepFirst(s, Wake, s6);
  }

  /** At rest, a stop that set its flag before it notifies would end the consumer. */
  lemma StopThenNotify(from: Snapshot, pushed: seq<Entry>, log: seq<Delivery>)
    ensures Leads(AtRest(from, pushed, log), AtRest(from, pushed, log).(consumer := ConsumerDone, consumerStopped := true))
  {
    var s0 := AtRest(from, pushed, log);
    var s1 := s0.(consumerStopped := true);
    var s2 := s1.(consumer := Parked(true), shared := Shared([], true));
    var s6 := s1.(consumer := LoopHead);
    var s7, s8 := s1.(consumer := OuterHead), s1.(consumer := ConsumerDone);
    assert Next(s0, StopConsumer) == s1 && Next(s1, StopNotify) == s2;
    assert Next(s6, TestStop) == s7 && Next(s7, TestOuterStop) == s8;
    hide Next, Leads, AtRest;
    LeadsNowhere(s8);
    StepFirst(s7, TestOuterStop, s8);
    StepFirst(s6, TestStop, s8);
    EmptyTurn(s2);
    LeadsOn(s2, s6, s8);
    StepFirst(s1, StopNotify, s8);
    StepFirst(s0, StopConsumer, s8);
  }

  /** The code notifies first: the consumer may have gone back to rest when the flag is set, and then nothing wakes it
      but a message, while whoever stops it waits. */
  lemma StopCanBeMissed(from: Snapshot, log: seq<Delivery>)
    ensures Leads(INIT, AtRest(from, Entries(log), log).(consumerStopped := true))
  {
    var s0 := AtRest(from, Entries(log), log);
    var s1 := s0.(consumer := Parked(true), shared := Shared([], true));
    var s5 := s0.(consumer := LoopHead);
    var s8 := s0.(consumerStopped := true);
    assert Next(s0, StopNotify) == s1 && Next(s0, StopConsumer) == s8;
    hide Next, Leads, AtRest, Entries;
    AnythingIsTraced(from, log);
    LeadsNowhere(s8);
    StepFirst(s0, StopConsumer, s8);
    GoesToRest(s5);
    LeadsOn(s5, s0, s8);
    EmptyTurn(s1);
    LeadsOn(s1, s5, s8);
    StepFirst(s0, StopNotify, s8);
    LeadsOn(INIT, s0, s8);
  }
}
