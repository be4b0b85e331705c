/** The life of a host connection: an acceptor thread, an event loop and whoever calls stop, sharing an
    event queue, the current dispatcher and the predicate the acceptor waits for. */
module HostConnection {
  import opened Common

  /** Dispatchers enqueue messages and closings, never new connections. */
  datatype Event = NewHost | HostMessage | ClosedByHost | OtherEvent

  type Dispatcher = nat

  /** What the threads share. `live` are the dispatchers that were created and not deleted. */
  datatype Shared = Shared(
    events: seq<Event>,
    handler: Option<Dispatcher>,
    released: bool,
    stopped: bool,
    created: nat,
    live: set<Dispatcher>)

  // ----- the shared parts of the two objects -----

  function Enqueued(x: Shared, e: Event): Shared { x.(events := x.events + [e]) }

  function Connected(x: Shared): Shared {
    x.(handler := Some(x.created), created := x.created + 1, live := x.live + {x.created})
  }

  function Disconnected(x: Shared): Shared {
    if x.handler.Some? then x.(handler := None, live := x.live - {x.handler.value}) else x
  }

  /** The wait starts by forgetting any wake-up that came before it. */
  function WaitEntered(x: Shared): Shared { x.(released := false) }

  function Released(x: Shared): Shared { x.(released := true) }

  class Controller {
    var events: seq<Event>
    var messageHandler: Option<Dispatcher>
    var connectionPredicate: bool
    var stopped: bool
    var created: nat
    ghost var live: set<Dispatcher>

    ghost function Value(): Shared
      reads this
    {
      Shared(events, messageHandler, connectionPredicate, stopped, created, live)
    }

    constructor ()
      ensures Value() == Shared([], None, false, false, 0, {})
    {
      events, messageHandler, connectionPredicate, stopped, created, live := [], None, false, false, 0, {};
    }

    method NotifyNewHostConnection()
      modifies this
      ensures Value() == Enqueued(old(Value()), NewHost)
    {
      events := events + [NewHost];
    }

    method EnterWait()
      modifies this
      ensures Value() == WaitEntered(old(Value()))
    {
      connectionPredicate := false;
    }

    method WakeUpComServerActivity()
      modifies this
      ensures Value() == Released(old(Value()))
    {
      connectionPredicate := true;
    }

    method OnClientConnected()
      modifies this
      ensures Value() == Connected(old(Value()))
    {
      messageHandler := Some(created);
      live := live + {created};
      created := created + 1;
    }

    /** A closing counts only while there is a dispatcher. */
    method OnConnectionClosedByClient() returns (signal: bool)
      modifies this
      ensures Value() == Disconnected(old(Value()))
      ensures signal <==> old(messageHandler).Some?
    {
      signal := false;
      if messageHandler.Some? {
        live := live - {messageHandler.value};
        messageHandler := None;
        signal := true;
      }
    }

    method DispatchCommunicatorEvent() returns (signal: bool)
      requires events != []
      modifies this
      ensures Value() == Dispatched(old(Value()))
      ensures signal <==> old(events)[0] == ClosedByHost && old(messageHandler).Some?
    {
      signal := false;
      var e := events[0];
      events := events[1..];
      match e
      case NewHost => OnClientConnected();
      case ClosedByHost => signal := OnConnectionClosedByClient();
      case HostMessage =>
      case OtherEvent =>
    }
  }

  function Dispatched(x: Shared): Shared
    requires x.events != []
  {
    var rest := x.(events := x.events[1..]);
    match x.events[0]
    case NewHost => Connected(rest)
    case ClosedByHost => Disconnected(rest)
    case _ => rest
  }

  // ----- threads -----

  datatype Acceptor = LoopHead | Accepting | Notifying | EntersWait | Parked(signalled: bool) | Testing | Closed

  datatype Loop = Dequeues | Wakes

  datatype Stopper = Idle | MustWake

  datatype State = State(
    shared: Shared,
    acceptor: Acceptor,
    loop: Loop,
    stopper: Stopper,
    accepted: nat,
    closes: nat)

  const INIT := State(Shared([], None, false, false, 0, {}), LoopHead, Dequeues, Idle, 0, 0)

  datatype Action =
    | TestStopped
    | Accept(ok: bool)
    | Notify
    | EnterWait
    | WakeOrSpurious
    | TestPredicate
    | Enqueue(e: Event)
    | Dispatch
    | WakeAcceptor
    | StopActivity
    | StopWake

  predicate Enabled(s: State, a: Action) {
    match a
    case TestStopped => s.acceptor.LoopHead?
    case Accept(_) => s.acceptor.Accepting?
    case Notify => s.acceptor.Notifying?
    case EnterWait => s.acceptor.EntersWait?
    case WakeOrSpurious => s.acceptor.Parked?
    case TestPredicate => s.acceptor.Testing?
    case Enqueue(e) => !e.NewHost?
    case Dispatch => s.loop.Dequeues? && s.shared.events != []
    case WakeAcceptor => s.loop.Wakes?
    case StopActivity => s.stopper.Idle?
    case StopWake => s.stopper.MustWake?
  }

  function Signalled(a: Acceptor): Acceptor { if a.Parked? then Parked(true) else a }

  function Next(s: State, a: Action): State
    requires Enabled(s, a)
  {
    match a
    case TestStopped => s.(acceptor := if s.shared.stopped then Closed else Accepting)
    case Accept(ok) =>
      if ok then s.(acceptor := Notifying, accepted := s.accepted + 1) else s.(acceptor := Closed)
    case Notify => s.(acceptor := EntersWait, shared := Enqueued(s.shared, NewHost))
    case EnterWait => s.(acceptor := Parked(false), shared := WaitEntered(s.shared))
    case WakeOrSpurious => s.(acceptor := Testing)
    case TestPredicate => s.(acceptor := if s.shared.released then LoopHead else Parked(false))
    case Enqueue(e) => s.(shared := Enqueued(s.shared, e))
    case Dispatch =>
      var effective := s.shared.events[0].ClosedByHost? && s.shared.handler.Some?;
      s.(shared := Dispatched(s.shared), loop := if effective then Wakes else Dequeues,
         closes := s.closes + if effective then 1 else 0)
    case WakeAcceptor =>
      s.(shared := Released(s.shared), acceptor := Signalled(s.acceptor), loop := Dequeues)
    case StopActivity => s.(shared := s.shared.(stopped := true), stopper := MustWake)
    case StopWake =>
      s.(shared := Released(s.shared), acceptor := Signalled(s.acceptor), stopper := Idle)
  }

  ghost predicate Runs(s: State, actions: seq<Action>)
    decreases actions
  {
    actions != [] ==> Enabled(s, actions[0]) && Runs(Next(s, actions[0]), actions[1..])
  }

  function Final(s: State, actions: seq<Action>): State
    requires Runs(s, actions)
    decreases actions
  {
    if actions == [] then s else Final(Next(s, actions[0]), actions[1..])
  }

  // ----- the token -----

  function Pending(events: seq<Event>): nat {
    if events == [] then 0 else (if events[0].NewHost? then 1 else 0) + Pending(events[1..])
  }

  function One(b: bool): nat { if b then 1 else 0 }

  /** The right to start a connection: held by the acceptor, by a queued announcement, by the current
      dispatcher, by the event loop that has just closed it, or by the predicate the acceptor waits for.
      Once the server is stopped the acceptor's part of it is void. */
  function Tokens(s: State): nat {
    One(s.acceptor.Accepting? || s.acceptor.Notifying?
        || ((s.acceptor.LoopHead? || s.acceptor.Closed?) && !s.shared.stopped))
    + Pending(s.shared.events)
    + One(s.shared.handler.Some?)
    + One(s.loop.Wakes?)
    + One((s.acceptor.Parked? || s.acceptor.Testing?) && s.shared.released && !s.shared.stopped)
  }

  predicate Inv(s: State) {
    && Tokens(s) <= 1
    && (s.stopper.MustWake? ==> s.shared.stopped)
    && s.shared.live == (if s.shared.handler.Some? then {s.shared.handler.value} else {})
    && s.accepted == s.closes + Pending(s.shared.events) + One(s.acceptor.Notifying?) + One(s.shared.handler.Some?)
  }

  lemma {:induction false} PendingAppend(events: seq<Event>, e: Event)
    ensures Pending(events + [e]) == Pending(events) + One(e.NewHost?)
  {
    if events != [] {
      assert (events + [e])[1..] == events[1..] + [e];
      PendingAppend(events[1..], e);
    }
  }

  lemma InvStep(s: State, a: Action)
    requires Inv(s) && Enabled(s, a)
    ensures Inv(Next(s, a))
  {
    match a
    case Notify => PendingAppend(s.shared.events, NewHost);
    case Enqueue(e) => PendingAppend(s.shared.events, e);
    case _ =>
  }

  lemma {:induction false} InvFrom(s: State, actions: seq<Action>)
    requires Inv(s) && Runs(s, actions)
    ensures Inv(Final(s, actions))
    decreases actions
  {
    hide Inv, Enabled, Next;
    if actions != [] {
      InvStep(s, actions[0]);
      InvFrom(Next(s, actions[0]), actions[1..]);
    }
  }

  /** At most one connection, and nobody starts another one beside it. */
  predicate OneConnection(s: State) {
    && s.shared.live == (if s.shared.handler.Some? then {s.shared.handler.value} else {})
    && (NewHost in s.shared.events ==> s.shared.handler.None?)
    && (s.acceptor.Accepting? ==> s.shared.handler.None? && NewHost !in s.shared.events)
    && s.closes <= s.accepted <= s.closes + 1
  }

  lemma TokenMeansOneConnection(s: State)
    requires Inv(s)
    ensures OneConnection(s)
  {
    PendingIsPresence(s.shared.events);
    hide Pending;
  }

  lemma {:induction false} PendingIsPresence(events: seq<Event>)
    ensures Pending(events) == 0 <==> NewHost !in events
  {
    if events != [] {
      PendingIsPresence(events[1..]);
    }
  }

  /** In every interleaving: the dispatchers alive are exactly the current one, an announced connection
      finds no dispatcher to overwrite, the acceptor only accepts while there is neither a dispatcher nor
      an announced connection, and there is never more than one connection open. */
  lemma SingleConnection(actions: seq<Action>)
    requires Runs(INIT, actions)
    ensures OneConnection(Final(INIT, actions))
  {
    InvFrom(INIT, actions);
    hide *;
    TokenMeansOneConnection(Final(INIT, actions));
  }

  // ----- the wake-up that is lost -----

  /** Both wake-ups, of the event loop and of a stop, set the predicate and signal. */
  predicate IsWakeUp(a: Action) { a.WakeAcceptor? || a.StopWake? }

  function AfterWaking(s: State, a: Action): State
    requires IsWakeUp(a)
  {
    if a.WakeAcceptor? then s.(loop := Dequeues) else s.(stopper := Idle)
  }

  /** The acceptor has a wait ahead of it that it has not begun. */
  predicate WaitIsAhead(a: Acceptor) { a.Accepting? || a.Notifying? || a.EntersWait? }

  /** The acceptor goes from where it is into its wait. */
  function IntoWait(s: State): State
    requires WaitIsAhead(s.acceptor)
  {
    var accepted := if s.acceptor.Accepting? then Next(s, Accept(true)) else s;
    var notified := if accepted.acceptor.Notifying? then Next(accepted, Notify) else accepted;
    Next(notified, EnterWait)
  }

  /** A wake-up reaches an acceptor in its wait, which then leaves it, and is lost on one that has a wait
      ahead: entering that, it is where it would be without. */
  ghost predicate WakeOutcome(s: State, a: Action)
    requires IsWakeUp(a) && Enabled(s, a)
  {
    var t := Next(s, a);
    && (s.acceptor.Parked? ==>
          t.acceptor == Parked(true) && Next(Next(t, WakeOrSpurious), TestPredicate).acceptor.LoopHead?)
    && (s.acceptor.Testing? ==> Next(t, TestPredicate).acceptor.LoopHead?)
    && (WaitIsAhead(s.acceptor) ==> IntoWait(t) == AfterWaking(IntoWait(s), a))
  }

  lemma TokenMeansWakeOutcome(s: State, a: Action)
    requires Inv(s) && IsWakeUp(a) && Enabled(s, a)
    ensures WakeOutcome(s, a)
    ensures a.WakeAcceptor? && !s.shared.stopped ==> s.acceptor.Parked? || s.acceptor.Testing? || s.acceptor.EntersWait?
    ensures a.StopWake? ==> s.shared.stopped
  {
    hide Pending;
  }

  /** In every run a wake-up, of the event loop or of a stop, is lost exactly on an acceptor that has not
      begun its wait. That of a closing, while the server runs, never finds it further away than at the
      entry of its wait. */
  lemma WakeReachesWaitingAcceptor(actions: seq<Action>, a: Action)
    requires Runs(INIT, actions) && IsWakeUp(a) && Enabled(Final(INIT, actions), a)
    ensures var s := Final(INIT, actions);
            && WakeOutcome(s, a)
            && (a.WakeAcceptor? && !s.shared.stopped ==>
                  s.acceptor.Parked? || s.acceptor.Testing? || s.acceptor.EntersWait?)
  {
    InvFrom(INIT, actions);
    hide *;
    TokenMeansWakeOutcome(Final(INIT, actions), a);
  }

  lemma Prepend(s: State, a: Action, rest: seq<Action>)
    requires Enabled(s, a) && Runs(Next(s, a), rest)
    ensures Runs(s, [a] + rest) && Final(s, [a] + rest) == Final(Next(s, a), rest)
  {
    assert ([a] + rest)[1..] == rest;
  }

  // ----- connections one after the other -----

  ghost predicate Leads(s: State, t: State) { exists actions: seq<Action> :: Runs(s, actions) && Final(s, actions) == t }

  lemma LeadsNowhere(s: State)
    ensures Leads(s, s)
  {
    assert Runs(s, []) && Final(s, []) == s;
  }

  lemma StepFirst(s: State, a: Action, t: State)
    requires Enabled(s, a) && Leads(Next(s, a), t)
    ensures Leads(s, t)
  {
    var actions: seq<Action> :| Runs(Next(s, a), actions) && Final(Next(s, a), actions) == t;
    Prepend(s, a, actions);
  }

  lemma {:induction false} RunsOn(s: State, first: seq<Action>, t: State)
    requires Runs(s, first) && Leads(Final(s, first), t)
    ensures Leads(s, t)
    decreases first
  {
    if first != [] {
      hide Next, Enabled, Leads;
      RunsOn(Next(s, first[0]), first[1..], t);
      StepFirst(s, first[0], t);
    }
  }

  lemma LeadsOn(s: State, t: State, u: State)
    requires Leads(s, t) && Leads(t, u)
    ensures Leads(s, u)
  {
    var first: seq<Action> :| Runs(s, first) && Final(s, first) == t;
    RunsOn(s, first, u);
  }

  /** Nobody is connected, and the acceptor is at the head of its loop after `n` connections. */
  function Between(n: nat, released: bool): State {
    State(Shared([], None, released, false, n, {}), LoopHead, Dequeues, Idle, n, n)
  }

  /** A host is connected and served by dispatcher `n`; the acceptor waits. */
  function Serving(n: nat): State {
    State(Shared([], Some(n), false, false, n + 1, {n}), Parked(false), Dequeues, Idle, n + 1, n)
  }

  /** The next connection is accepted, announced, and given a dispatcher of its own, and the acceptor waits. */
  lemma NextIsServed(n: nat, released: bool)
    ensures Leads(Between(n, released), Serving(n))
  {
    var s0 := Between(n, released);
    var s1 := s0.(acceptor := Accepting);
    var s2 := s0.(acceptor := Notifying, accepted := n + 1);
    var s3 := s2.(acceptor := EntersWait, shared := s0.shared.(events := [NewHost]));
    var s4 := s3.(acceptor := Parked(false), shared := s3.shared.(released := false));
    assert Next(s0, TestStopped) == s1 && Next(s1, Accept(true)) == s2 && Next(s2, Notify) == s3;
    assert Next(s3, EnterWait) == s4 && Next(s4, Dispatch) == Serving(n);
    hide Next, Leads;
    LeadsNowhere(Serving(n));
    StepFirst(s4, Dispatch, Serving(n));
    StepFirst(s3, EnterWait, Serving(n));
    StepFirst(s2, Notify, Serving(n));
    StepFirst(s1, Accept(true), Serving(n));
    StepFirst(s0, TestStopped, Serving(n));
  }

  /** When the host closes, the dispatcher goes and the acceptor comes back to the head of its loop. */
  lemma ClosingGoesOn(n: nat)
    ensures Leads(Serving(n), Between(n + 1, true))
  {
    var s0 := Serving(n);
    var s1 := s0.(shared := s0.shared.(events := [ClosedByHost]));
    var s2 := s0.(shared := Shared([], None, false, false, n + 1, {}), loop := Wakes, closes := n + 1);
    var s3 := s2.(shared := s2.shared.(released := true), loop := Dequeues, acceptor := Parked(true));
    var s4 := s3.(acceptor := Testing);
    assert {n} - {n} == {};
    assert Next(s0, Enqueue(ClosedByHost)) == s1 && Next(s1, Dispatch) == s2 && Next(s2, WakeAcceptor) == s3;
    assert Next(s3, WakeOrSpurious) == s4 && Next(s4, TestPredicate) == Between(n + 1, true);
    hide Next, Leads;
    LeadsNowhere(Between(n + 1, true));
    StepFirst(s4, TestPredicate, Between(n + 1, true));
    StepFirst(s3, WakeOrSpurious, Between(n + 1, true));
    StepFirst(s2, WakeAcceptor, Between(n + 1, true));
    StepFirst(s1, Dispatch, Between(n + 1, true));
    StepFirst(s0, Enqueue(ClosedByHost), Between(n + 1, true));
  }

  /** Any number of hosts can be served, one after the other. */
  lemma {:induction false} ServesOneAfterTheOther(n: nat)
    ensures Leads(INIT, Serving(n))
  {
    if n == 0 {
      NextIsServed(0, false);
    } else {
      hide Leads, Serving, Between;
      ServesOneAfterTheOther(n - 1);
      ClosingGoesOn(n - 1);
      NextIsServed(n, true);
      LeadsOn(INIT, Serving(n - 1), Between(n, true));
      LeadsOn(INIT, Between(n, true), Serving(n));
    }
  }

  /** A stopped acceptor that gets to the head of its loop closes, and so does one that fails to accept. */
  lemma AcceptorCloses(s: State)
    ensures s.acceptor.LoopHead? && s.shared.stopped ==> Next(s, TestStopped) == s.(acceptor := Closed)
    ensures s.acceptor.Accepting? ==> Next(s, Accept(false)) == s.(acceptor := Closed)
  {
  }

  /** A stop while the acceptor waits ends it. */
  lemma StopEndsAcceptor(s: State)
    requires s.acceptor.Parked? && s.stopper.Idle?
    ensures Leads(s, s.(acceptor := Closed, shared := s.shared.(stopped := true, released := true)))
  {
    var s1 := s.(shared := s.shared.(stopped := true), stopper := MustWake);
    var s2 := s.(shared := s1.shared.(released := true), acceptor := Parked(true));
    var s3, s4, s5 := s2.(acceptor := Testing), s2.(acceptor := LoopHead), s2.(acceptor := Closed);
    assert Next(s, StopActivity) == s1 && Next(s1, StopWake) == s2 && Next(s2, WakeOrSpurious) == s3;
    assert Next(s3, TestPredicate) == s4 && Next(s4, TestStopped) == s5;
    hide Next, Leads;
    LeadsNowhere(s5);
    StepFirst(s4, TestStopped, s5);
    StepFirst(s3, TestPredicate, s5);
    StepFirst(s2, WakeOrSpurious, s5);
    StepFirst(s1, StopWake, s5);
    StepFirst(s, StopActivity, s5);
  }

  // ----- runs in which a wake-up is lost -----

  predicate IsStuck(s: State) {
    && s.acceptor == Parked(false) && !s.shared.released && !s.shared.stopped
    && s.shared.handler.None? && s.shared.events == [] && s.loop.Dequeues?
  }

  /** From an announced connection whose closing is queued, the rest of the unlucky run. */
  lemma ErasedTail() returns (rest: seq<Action>)
    ensures var s := State(Shared([NewHost, ClosedByHost], None, false, false, 0, {}), EntersWait, Dequeues, Idle, 1, 0);
            Runs(s, rest) && IsStuck(Final(s, rest))
  {
    var s4 := State(Shared([NewHost, ClosedByHost], None, false, false, 0, {}), EntersWait, Dequeues, Idle, 1, 0);
    var s5 := State(Shared([ClosedByHost], Some(0), false, false, 1, {0}), EntersWait, Dequeues, Idle, 1, 0);
    var s6 := State(Shared([], None, false, false, 1, {}), EntersWait, Wakes, Idle, 1, 1);
    var s7 := s6.(shared := s6.shared.(released := true), loop := Dequeues);
    var s8 := s7.(shared := s6.shared, acceptor := Parked(false));
    assert Next(s4, Dispatch) == s5 && Next(s5, Dispatch) == s6;
    assert Next(s6, WakeAcceptor) == s7 && Next(s7, EnterWait) == s8;
    assert Runs(s8, []) && Final(s8, []) == s8;
    hide Runs, Final, Next;
    Prepend(s7, EnterWait, []);
    Prepend(s6, WakeAcceptor, [EnterWait] + []);
    Prepend(s5, Dispatch, [WakeAcceptor] + ([EnterWait] + []));
    rest := [Dispatch] + ([Dispatch] + ([WakeAcceptor] + ([EnterWait] + [])));
    Prepend(s4, Dispatch, [Dispatch] + ([WakeAcceptor] + ([EnterWait] + [])));
  }

  /** A connection that comes and goes before the acceptor waits leaves it parked, with nothing left that
      would wake it but a stop. */
  lemma WakeUpCanBeErased()
    ensures exists actions: seq<Action> :: Runs(INIT, actions) && IsStuck(Final(INIT, actions))
  {
    var s3 := State(Shared([NewHost], None, false, false, 0, {}), EntersWait, Dequeues, Idle, 1, 0);
    assert [NewHost] + [ClosedByHost] == [NewHost, ClosedByHost];
    var rest := ErasedTail();
    hide Runs, Final, IsStuck;
    Prepend(s3, Enqueue(ClosedByHost), rest);
    AnnouncedIsReached([Enqueue(ClosedByHost)] + rest);
  }

  /** The server is stopped and its acceptor parked, with no event left to handle and no wake-up to come. */
  predicate StopsForever(s: State) {
    && s.acceptor == Parked(false) && !s.shared.released && s.shared.stopped && s.stopper.Idle?
    && s.shared.events == [] && s.loop.Dequeues?
  }

  /** A stop between the announcement of a connection and the wait of the acceptor is lost in the same way,
      and whoever stops then waits for an acceptor that waits for a wake-up. */
  lemma StopCanBeErased()
    ensures exists actions: seq<Action> :: Runs(INIT, actions) && StopsForever(Final(INIT, actions))
  {
    var s3 := State(Shared([NewHost], None, false, false, 0, {}), EntersWait, Dequeues, Idle, 1, 0);
    var s4 := State(Shared([], Some(0), false, false, 1, {0}), EntersWait, Dequeues, Idle, 1, 0);
    var s5 := s4.(shared := s4.shared.(stopped := true), stopper := MustWake);
    var s6 := s5.(shared := s5.shared.(released := true), stopper := Idle);
    var s7 := s6.(shared := s6.shared.(released := false), acceptor := Parked(false));
    assert Next(s3, Dispatch) == s4 && Next(s4, StopActivity) == s5;
    assert Next(s5, StopWake) == s6 && Next(s6, EnterWait) == s7;
    var rest := [StopActivity] + ([StopWake] + ([EnterWait] + []));
    assert Runs(s7, []) && Final(s7, []) == s7 && StopsForever(s7);
    hide Runs, Final, Next, StopsForever;
    Prepend(s6, EnterWait, []);
    Prepend(s5, StopWake, [EnterWait] + []);
    Prepend(s4, StopActivity, [StopWake] + ([EnterWait] + []));
    Prepend(s3, Dispatch, rest);
    AnnouncedIsReached([Dispatch] + rest);
  }

  /** What can follow the announcement of a first connection can follow the start. */
  lemma AnnouncedIsReached(rest: seq<Action>)
    requires Runs(State(Shared([NewHost], None, false, false, 0, {}), EntersWait, Dequeues, Idle, 1, 0), rest)
    ensures var s := State(Shared([NewHost], None, false, false, 0, {}), EntersWait, Dequeues, Idle, 1, 0);
            exists actions: seq<Action> :: Runs(INIT, actions) && Final(INIT, actions) == Final(s, rest)
  {
    var s1 := INIT.(acceptor := Accepting);
    var s2 := INIT.(acceptor := Notifying, accepted := 1);
    var s3 := State(Shared([NewHost], None, false, false, 0, {}), EntersWait, Dequeues, Idle, 1, 0);
    assert Next(INIT, TestStopped) == s1 && Next(s1, Accept(true)) == s2 && Next(s2, Notify) == s3;
    hide Runs, Final, Next;
    Prepend(s2, Notify, rest);
    Prepend(s1, Accept(true), [Notify] + rest);
    Prepend(INIT, TestStopped, [Accept(true)] + ([Notify] + rest));
  }
}
