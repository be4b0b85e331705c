/** What the name cache promises over whole runs. */
module RegistryTheorems {
  import opened Common
  import opened Wire
  import opened NameRegistry
  import HeaderCodec

  // ----- the bus itself -----

  /** Who truly owns each name. */
  type Bus = map<Name, Name>

  predicate WellFormedBus(bus: Bus) { [] !in bus.Values }

  /** The daemon announces a true change: `oldOwner` is the owner, or empty where there is none. */
  predicate Announces(bus: Bus, e: Event) {
    && e.oldOwner == (if e.name in bus then bus[e.name] else [])
    && (e.oldOwner != [] || e.newOwner != [])
  }

  function After(bus: Bus, e: Event): Bus {
    if e.newOwner == [] then bus - {e.name} else bus[e.name := e.newOwner]
  }

  // ----- soundness -----

  /** Everything the cache says is true of the bus. */
  predicate Sound(x: Indices, bus: Bus) {
    && (forall n | n in x.owners :: n in bus && bus[n] == x.owners[n])
    && (forall o, a | o in x.services && a in x.services[o].aliases :: a in bus && bus[a] == o)
  }

  /** Each owner in the range of the name index is a key of the service index. */
  predicate Closed(x: Indices) { forall n | n in x.owners :: x.owners[n] in x.services }

  lemma SoundStep(x: Indices, bus: Bus, d: Daemon, e: Event)
    requires WellFormedBus(bus) && Sound(x, bus) && Announces(bus, e)
    ensures WellFormedBus(After(bus, e)) && Sound(Handle(x, d, e), After(bus, e))
  {
  }

  lemma ClosedStep(x: Indices, d: Daemon, e: Event)
    requires Closed(x)
    ensures Closed(Handle(x, d, e))
  {
  }

  /** One message of a run: what it announces and how the daemon answers while it is handled. */
  datatype Turn = Turn(event: Event, daemon: Daemon)

  function RunCache(x: Indices, turns: seq<Turn>): Indices
    decreases turns
  {
    if turns == [] then x else RunCache(Handle(x, turns[0].daemon, turns[0].event), turns[1..])
  }

  function RunBus(bus: Bus, turns: seq<Turn>): Bus
    decreases turns
  {
    if turns == [] then bus else RunBus(After(bus, turns[0].event), turns[1..])
  }

  predicate AnnouncesAll(bus: Bus, turns: seq<Turn>)
    decreases turns
  {
    turns != [] ==> Announces(bus, turns[0].event) && AnnouncesAll(After(bus, turns[0].event), turns[1..])
  }

  /** Started sound and driven by any run of true announcements, the cache stays sound. */
  lemma {:induction false} SoundRun(x: Indices, bus: Bus, turns: seq<Turn>)
    requires WellFormedBus(bus) && Sound(x, bus) && AnnouncesAll(bus, turns)
    ensures Sound(RunCache(x, turns), RunBus(bus, turns))
    decreases turns
  {
    if turns != [] {
      SoundStep(x, bus, turns[0].daemon, turns[0].event);
      SoundRun(Handle(x, turns[0].daemon, turns[0].event), After(bus, turns[0].event), turns[1..]);
    }
  }

  /** Whatever events arrive, true or not, the two indices stay closed. */
  lemma {:induction false} ClosedRun(x: Indices, turns: seq<Turn>)
    requires Closed(x)
    ensures Closed(RunCache(x, turns))
    decreases turns
  {
    if turns != [] {
      ClosedStep(x, turns[0].daemon, turns[0].event);
      ClosedRun(Handle(x, turns[0].daemon, turns[0].event), turns[1..]);
    }
  }

  // ----- what is forgotten -----

  /** Exactly which names a sound cache knows after a true announcement. */
  lemma {:induction false} KnownAfter(x: Indices, bus: Bus, d: Daemon, e: Event, n: Name)
    requires WellFormedBus(bus) && Sound(x, bus) && Announces(bus, e)
    ensures n in Handle(x, d, e).owners <==>
            if n == e.name then e.newOwner != []
            else n in x.owners && (e.oldOwner == [] || x.owners[n] != e.oldOwner)
  {
  }

  /** A cache that knew every name still does exactly when the old owner held no other name. */
  lemma CompleteAfter(x: Indices, bus: Bus, d: Daemon, e: Event)
    requires WellFormedBus(bus) && Sound(x, bus) && Announces(bus, e) && x.owners == bus
    ensures Handle(x, d, e).owners == After(bus, e)
            <==> forall n | n in bus && n != e.name :: e.oldOwner == [] || bus[n] != e.oldOwner
  {
    var y, after := Handle(x, d, e), After(bus, e);
    SoundStep(x, bus, d, e);
    forall n ensures n in y.owners <==> if n == e.name then e.newOwner != []
                                        else n in x.owners && (e.oldOwner == [] || x.owners[n] != e.oldOwner)
    {
      KnownAfter(x, bus, d, e, n);
    }
    if forall n | n in bus && n != e.name :: e.oldOwner == [] || bus[n] != e.oldOwner {
      assert y.owners.Keys == after.Keys;
    } else {
      var n :| n in bus && n != e.name && e.oldOwner != [] && bus[n] == e.oldOwner;
      assert n in after && n !in y.owners;
    }
  }

  // ----- seeding -----

  predicate Resolves(d: Daemon, n: Name) { NameOwner(d, n).Some? }

  function NamesOf(d: Daemon, names: seq<Name>, o: Name): seq<Name> {
    if names == [] then []
    else
      var n := names[|names| - 1];
      NamesOf(d, names[..|names| - 1], o) + if NameOwner(d, n) == Some(o) then [n] else []
  }

  /** The alias list of `o` holds exactly the listed names that resolve to it. */
  lemma {:induction false} NamesOfMembers(d: Daemon, names: seq<Name>, o: Name, a: Name)
    ensures a in NamesOf(d, names, o) <==> a in names && NameOwner(d, a) == Some(o)
    decreases names
  {
    if names != [] {
      NamesOfMembers(d, names[..|names| - 1], o, a);
      assert names == names[..|names| - 1] + [names[|names| - 1]];
    }
  }

  lemma {:induction false} OwnersSeeded(d: Daemon, names: seq<Name>)
    ensures var x := SeedAll(EMPTY, d, names);
            forall n :: if n in names && Resolves(d, n)
                        then n in x.owners && x.owners[n] == NameOwner(d, n).value
                        else n !in x.owners
    decreases names
  {
    if names != [] {
      var front, n := names[..|names| - 1], names[|names| - 1];
      OwnersSeeded(d, front);
      assert forall m :: m in names <==> m in front || m == n by { assert names == front + [n]; }
    }
  }

  lemma {:induction false} ServicesSeeded(d: Daemon, names: seq<Name>)
    ensures var x := SeedAll(EMPTY, d, names);
            forall o :: if NamesOf(d, names, o) == [] then o !in x.services
                        else o in x.services
                             && x.services[o] == Service(d.pid(o), d.uid(o), NamesOf(d, names, o))
    decreases names
  {
    if names != [] {
      var front, n := names[..|names| - 1], names[|names| - 1];
      ServicesSeeded(d, front);
      forall o ensures NamesOf(d, names, o) == NamesOf(d, front, o) + if NameOwner(d, n) == Some(o) then [n] else [] {
      }
    }
  }

  /** Seeding makes the two indices inverse to each other: each listed name maps to its owner,
      and each owner's aliases are exactly its names, in list order. */
  lemma {:induction false} SeedingIsExact(d: Daemon, names: seq<Name>, n: Name, o: Name)
    ensures var x := SeedAll(EMPTY, d, names);
            && (n in x.owners <==> n in names && Resolves(d, n))
            && (n in x.owners ==> NameOwner(d, n) == Some(x.owners[n]))
            && (o in x.services <==> NamesOf(d, names, o) != [])
            && (o in x.services ==> x.services[o] == Service(d.pid(o), d.uid(o), NamesOf(d, names, o)))
            && (n in x.owners && x.owners[n] == o <==> o in x.services && n in x.services[o].aliases)
  {
    OwnersSeeded(d, names);
    ServicesSeeded(d, names);
    NamesOfMembers(d, names, o, n);
  }

  /** The snapshot is correct: every listed name that resolves does so to its true owner. */
  predicate CorrectSnapshot(d: Daemon, names: seq<Name>, bus: Bus) {
    forall n | n in names && Resolves(d, n) :: n in bus && NameOwner(d, n) == Some(bus[n])
  }

  /** Two indices that are inverse to each other are sound as soon as the first one is. */
  lemma InverseIsSound(x: Indices, bus: Bus)
    requires forall n, o :: n in x.owners && x.owners[n] == o <==> o in x.services && n in x.services[o].aliases
    requires forall n | n in x.owners :: n in bus && bus[n] == x.owners[n]
    ensures Sound(x, bus)
  {
    forall o, a | o in x.services && a in x.services[o].aliases ensures a in bus && bus[a] == o {
      assert a in x.owners && x.owners[a] == o;
    }
  }

  /** A seeded cache is closed, and it is sound exactly when the snapshot was correct. */
  lemma SeedingIsSound(d: Daemon, names: seq<Name>, bus: Bus)
    ensures Closed(SeedAll(EMPTY, d, names))
    ensures Sound(SeedAll(EMPTY, d, names), bus) <==> CorrectSnapshot(d, names, bus)
  {
    var x := SeedAll(EMPTY, d, names);
    OwnersSeeded(d, names);
    forall n, o ensures n in x.owners && x.owners[n] == o <==> o in x.services && n in x.services[o].aliases {
      SeedingIsExact(d, names, n, o);
    }
    hide SeedAll, NameOwner;
    if CorrectSnapshot(d, names, bus) {
      InverseIsSound(x, bus);
    }
  }

  /** Seeded from a correct snapshot and driven by true announcements: sound and closed at the end. */
  lemma RegistryRun(d: Daemon, names: seq<Name>, bus: Bus, turns: seq<Turn>)
    requires WellFormedBus(bus) && CorrectSnapshot(d, names, bus) && AnnouncesAll(bus, turns)
    ensures var x := RunCache(SeedAll(EMPTY, d, names), turns); Sound(x, RunBus(bus, turns)) && Closed(x)
  {
    SeedingIsSound(d, names, bus);
    SoundRun(SeedAll(EMPTY, d, names), bus, turns);
    ClosedRun(SeedAll(EMPTY, d, names), turns);
  }

  /** A daemon that knows two names, both of one connection. */
  function TwoNames(): Daemon { Daemon(n => Owner([9]), n => 0, n => 0) }

  lemma TwoNamesSeeded()
    ensures SeedAll(EMPTY, TwoNames(), [[1], [2]]).owners == map[[1] := [9], [2] := [9]]
    ensures CorrectSnapshot(TwoNames(), [[1], [2]], map[[1] := [9], [2] := [9]])
  {
    var names: seq<Name> := [[1], [2]];
    OwnersSeeded(TwoNames(), names);
    assert names[0] in names && names[1] in names;
    hide SeedAll;
  }

  /** The cache is not complete: seeded from a correct snapshot, a connection that gives up one of two
      names loses both there. */
  lemma ForgetsLiveName()
    ensures exists d: Daemon, names: seq<Name>, bus: Bus, e: Event, n: Name ::
              && WellFormedBus(bus) && CorrectSnapshot(d, names, bus) && Announces(bus, e)
              && SeedAll(EMPTY, d, names).owners == bus
              && n in After(bus, e) && n !in Handle(SeedAll(EMPTY, d, names), d, e).owners
  {
    var bus: Bus := map[[1] := [9], [2] := [9]];
    var d, names := TwoNames(), [[1], [2]];
    var e := NameOwnerChanged([1], [9], []);
    TwoNamesSeeded();
    hide SeedAll, CorrectSnapshot, TwoNames;
    assert WellFormedBus(bus) && Announces(bus, e) && [2] in After(bus, e);
    assert [2] !in Handle(SeedAll(EMPTY, d, names), d, e).owners;
  }

  // ----- aliases -----

  function Aliases(x: Indices, o: Name): seq<Name> { if o in x.services then x.services[o].aliases else [] }

  /** The two indices say the same: an owner has an entry exactly while it has names, and lists those. */
  ghost predicate Inverse(x: Indices) {
    && (forall n, o :: n in x.owners && x.owners[n] == o <==> n in Aliases(x, o))
    && (forall o | o in x.services :: Aliases(x, o) != [])
  }

  lemma SeededIsInverse(d: Daemon, names: seq<Name>)
    ensures Inverse(SeedAll(EMPTY, d, names))
  {
    var x := SeedAll(EMPTY, d, names);
    forall n, o
      ensures n in x.owners && x.owners[n] == o <==> n in Aliases(x, o)
      ensures o in x.services ==> Aliases(x, o) != []
    {
      SeedingIsExact(d, names, n, o);
    }
    hide SeedAll;
  }

  /** The aliases of each owner after a true announcement. A name that is gained resets the list of its owner;
      a name that moves is not added to the list of an owner that is known already. */
  lemma AliasesAfter(x: Indices, bus: Bus, d: Daemon, e: Event, o: Name)
    requires WellFormedBus(bus) && Announces(bus, e)
    ensures Aliases(Handle(x, d, e), o) ==
            if o == e.newOwner && o != [] && (e.oldOwner in {[], o} || o !in x.services) then [e.name]
            else if o == e.oldOwner && o != [] then []
            else Aliases(x, o)
  {
  }

  predicate KeepsInverse(x: Indices, e: Event) {
    e.newOwner == [] || e.newOwner == e.oldOwner || forall n | n in x.owners :: x.owners[n] != e.newOwner
  }

  /** Each name known after a true announcement, and who the cache says has it. */
  lemma OwnersAfter(x: Indices, bus: Bus, d: Daemon, e: Event, n: Name)
    requires WellFormedBus(bus) && Sound(x, bus) && Announces(bus, e)
    ensures var y := Handle(x, d, e);
            && (n in y.owners <==> if n == e.name then e.newOwner != []
                                   else n in x.owners && (e.oldOwner == [] || x.owners[n] != e.oldOwner))
            && (n in y.owners ==> y.owners[n] == if n == e.name then e.newOwner else x.owners[n])
  {
    KnownAfter(x, bus, d, e, n);
    SoundStep(x, bus, d, e);
  }

  lemma InverseKept(x: Indices, bus: Bus, d: Daemon, e: Event)
    requires WellFormedBus(bus) && Sound(x, bus) && Announces(bus, e) && Inverse(x) && KeepsInverse(x, e)
    ensures Inverse(Handle(x, d, e))
  {
    var y := Handle(x, d, e);
    forall n, o ensures n in y.owners && y.owners[n] == o <==> n in Aliases(y, o) {
      OwnersAfter(x, bus, d, e, n);
      AliasesAfter(x, bus, d, e, o);
      NoEntryNoNames(x, o);
      assert n in x.owners && x.owners[n] == o <==> n in Aliases(x, o);
      hide Handle, Inverse;
    }
  }

  lemma NoEntryNoNames(x: Indices, o: Name)
    requires Inverse(x)
    ensures o in x.services <==> exists n :: n in x.owners && x.owners[n] == o
  {
    if o in x.services {
      var n := Aliases(x, o)[0];
      assert n in x.owners && x.owners[n] == o;
    } else {
      forall n | n in x.owners ensures x.owners[n] != o {
        assert n !in Aliases(x, o);
      }
    }
  }

  lemma InverseBroken(x: Indices, bus: Bus, d: Daemon, e: Event)
    requires WellFormedBus(bus) && Sound(x, bus) && Announces(bus, e) && Inverse(x) && !KeepsInverse(x, e)
    ensures !Inverse(Handle(x, d, e))
  {
    var y := Handle(x, d, e);
    var n :| n in x.owners && x.owners[n] == e.newOwner;
    NoEntryNoNames(x, e.newOwner);
    OwnersAfter(x, bus, d, e, n);
    OwnersAfter(x, bus, d, e, e.name);
    AliasesAfter(x, bus, d, e, e.newOwner);
  }

  /** The indices of a sound cache stay inverse to each other exactly when the name is lost, or stays where it
      was, or its new owner held no other known name. */
  lemma InverseAfter(x: Indices, bus: Bus, d: Daemon, e: Event)
    requires WellFormedBus(bus) && Sound(x, bus) && Announces(bus, e) && Inverse(x)
    ensures Inverse(Handle(x, d, e)) <==> KeepsInverse(x, e)
  {
    hide *;
    if KeepsInverse(x, e) {
      InverseKept(x, bus, d, e);
    } else {
      InverseBroken(x, bus, d, e);
    }
  }

  // ----- enrichment -----

  lemma {:induction false} ReportedMembers(aliases: seq<Name>, o: Name, a: Name)
    ensures a in Reported(aliases, o) <==> a in aliases && a != [] && a != o
    decreases aliases
  {
    if aliases != [] {
      ReportedMembers(aliases[1..], o, a);
      assert aliases == [aliases[0]] + aliases[1..];
    }
  }

  /** In a closed cache a receiver that resolves always gets the ids recorded for its owner, and
      reported aliases are non-empty, differ from the owner and are recorded for it. */
  lemma ResolvedReceiverIsDescribed(x: Indices, m: Message, serial: int32, a: Name)
    requires Closed(x) && Receiver(x, m).Some?
    ensures var o, h := Receiver(x, m).value, Describe(x, m, serial);
            && o in x.services
            && h.fields[5] == HeaderCodec.Int32(x.services[o].pid) && h.fields[7] == HeaderCodec.Int32(x.services[o].uid)
            && (a in h.receiverAliases <==> a in x.services[o].aliases && a != [] && a != o)
  {
    var o := Receiver(x, m).value;
    ReportedMembers(x.services[o].aliases, o, a);
    assert 5 in InfoFields(x, o, 5, 7) && 7 in InfoFields(x, o, 5, 7);
  }

  /** With a sound cache, each reported receiver alias is a name the receiver holds right now. */
  lemma ReportedAliasesAreTrue(x: Indices, bus: Bus, m: Message, serial: int32, a: Name)
    requires Sound(x, bus) && a in Describe(x, m, serial).receiverAliases
    ensures Receiver(x, m).Some? && a in bus && bus[a] == Receiver(x, m).value
    ensures bus[m.destination.value] == Receiver(x, m).value
  {
    var o := Receiver(x, m).value;
    ReportedMembers(x.services[o].aliases, o, a);
  }

  predicate FieldsOk(fields: map<nat, HeaderCodec.Value>) {
    forall k | k in fields :: 1 <= k <= HeaderCodec.LAST && HeaderCodec.ValueOk(k, fields[k])
  }

  lemma BothOk(a: map<nat, HeaderCodec.Value>, b: map<nat, HeaderCodec.Value>)
    requires FieldsOk(a) && FieldsOk(b)
    ensures FieldsOk(a + b)
  {
    hide HeaderCodec.ValueOk;
  }

  lemma OwnFieldsOk(m: Message, serial: int32)
    ensures FieldsOk(OwnFields(m, serial))
  {
    assert FieldsOk(HeadFields(m)) && FieldsOk(TargetFields(m)) && FieldsOk(TailFields(m, serial));
    hide HeadFields, TargetFields, TailFields, FieldsOk;
    BothOk(HeadFields(m), TargetFields(m));
    BothOk(HeadFields(m) + TargetFields(m), TailFields(m, serial));
  }

  lemma InfoFieldsOk(x: Indices, m: Message)
    ensures FieldsOk(SenderFields(x, m)) && FieldsOk(ReceiverFields(x, m))
  {
  }

  /** Every header built this way is one the codec carries. */
  lemma {:induction false} DescribedHeaderIsOk(x: Indices, m: Message, serial: int32, depth: nat)
    ensures HeaderCodec.HeaderOk(Describe(x, m, serial), depth)
  {
    OwnFieldsOk(m, serial);
    InfoFieldsOk(x, m);
    BothOk(OwnFields(m, serial), SenderFields(x, m));
    BothOk(OwnFields(m, serial) + SenderFields(x, m), ReceiverFields(x, m));
    hide OwnFields, SenderFields, ReceiverFields, InfoAliases, HeaderCodec.ValueOk;
  }
}
