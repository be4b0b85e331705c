/** What the name cache makes of messages, told of the messages themselves: which of them announce what, and what the
    header of each says, field by field, with names and numbers written out. */
module MessageLaws {
  import opened Common
  import opened Wire
  import opened NameRegistry
  import HeaderCodec

  /** The bytes of a name are the characters of a text. */
  predicate Reads(n: Name, text: string) { |n| == |text| && forall i | 0 <= i < |n| :: n[i] == text[i] as int }

  // ----- announcements -----

  /** A signal that the bus sends itself about the owner of a name. */
  predicate IsOwnerSignal(m: Message) {
    && m.kind == Signal && Reads(m.sender, "org.freedesktop.DBus") && Reads(m.member, "NameOwnerChanged")
    && m.iface.Some? && Reads(m.iface.value, "org.freedesktop.DBus")
    && |m.args| >= 3 && m.args[0].Text? && m.args[1].Text? && m.args[2].Text?
  }

  /** Its arguments are the name, the owner it had and the owner it has now, and maybe more. */
  predicate Signals(m: Message, name: Name, was: Name, becomes: Name) {
    IsOwnerSignal(m) && m.args[..3] == [Text(name), Text(was), Text(becomes)]
  }

  lemma AsciiReads(text: string)
    requires forall i | 0 <= i < |text| :: text[i] as int < 256
    ensures Reads(Ascii(text), text) && forall n :: Reads(n, text) <==> n == Ascii(text)
  {
  }

  lemma NamesOfTheBus()
    ensures forall n :: Reads(n, "org.freedesktop.DBus") <==> n == BUS
    ensures forall n :: Reads(n, "NameOwnerChanged") <==> n == NAME_OWNER_CHANGED
    ensures forall n :: Reads(n, "broadcast") <==> n == BROADCAST
  {
    AsciiReads("org.freedesktop.DBus");
    AsciiReads("NameOwnerChanged");
    AsciiReads("broadcast");
  }

  /** Such a signal announces just that change, and no other message announces anything. */
  lemma AnnouncedChange(m: Message)
    ensures forall name, was, becomes ::
              Signals(m, name, was, becomes) <==> EventOf(m) == Some(NameOwnerChanged(name, was, becomes))
    ensures !IsOwnerSignal(m) <==> EventOf(m) == None
  {
    NamesOfTheBus();
    hide Reads;
    if |m.args| >= 3 {
      assert forall a, b, c :: m.args[..3] == [a, b, c] <==> m.args[0] == a && m.args[1] == b && m.args[2] == c;
    }
  }

  // ----- headers -----

  function Lookup<V>(m: map<nat, V>, k: nat): Option<V> { if k in m then Some(m[k]) else None }

  function When<V>(condition: bool, v: V): Option<V> { if condition then Some(v) else None }

  function Id(x: Indices, o: Name, uid: bool): HeaderCodec.Value
    requires o in x.services
  {
    HeaderCodec.Int32(if uid then x.services[o].uid else x.services[o].pid)
  }

  /** The service of the sender of a message whose kind is known. */
  predicate KnowsSender(x: Indices, m: Message) { m.kind != OtherKind && m.sender in x.services }

  /** The name a message goes to resolves to an owner with a service. */
  predicate KnowsReceiver(x: Indices, m: Message) {
    && m.kind != OtherKind && m.destination.Some?
    && m.destination.value in x.owners && x.owners[m.destination.value] in x.services
  }

  /** The fields of each part are apart from those of the others. */
  lemma KeysOfParts(x: Indices, m: Message, serial: int32)
    ensures SenderFields(x, m).Keys <= {4, 6} && ReceiverFields(x, m).Keys <= {5, 7}
    ensures HeadFields(m).Keys <= {1, 2, 17} && TargetFields(m).Keys <= {3}
    ensures TailFields(m, serial).Keys <= {10, 11, 12, 13, 15, 16}
  {
  }

  function Part(x: Indices, m: Message, serial: int32, k: nat): map<nat, HeaderCodec.Value> {
    if k in {1, 2, 17} then HeadFields(m)
    else if k == 3 then TargetFields(m)
    else if k in {4, 6} then SenderFields(x, m)
    else if k in {5, 7} then ReceiverFields(x, m)
    else TailFields(m, serial)
  }

  lemma FieldOfPart(x: Indices, m: Message, serial: int32, k: nat)
    ensures Lookup(Describe(x, m, serial).fields, k) == Lookup(Part(x, m, serial, k), k)
  {
    KeysOfParts(x, m, serial);
    hide HeadFields, TargetFields, SenderFields, ReceiverFields, TailFields;
  }

  /** The kind of a message by its number, and who it is from. */
  lemma HeadLaw(x: Indices, m: Message, serial: int32)
    ensures var f := Describe(x, m, serial).fields;
            && Lookup(f, 1) == Some(HeaderCodec.Enum(
                 match m.kind
                 case MethodCall => 1 case MethodReturn => 2 case Signal => 3 case Error => 4 case OtherKind => 0))
            && Lookup(f, 2) == When(m.kind != OtherKind, HeaderCodec.Str(m.sender))
            && Lookup(f, 17) == When(m.kind == MethodCall, HeaderCodec.Str(m.signature))
  {
    FieldOfPart(x, m, serial, 1);
    FieldOfPart(x, m, serial, 2);
    FieldOfPart(x, m, serial, 17);
    hide Describe;
  }

  /** The name of the destination; a signal without one is a broadcast. */
  lemma TargetLaw(x: Indices, m: Message, serial: int32)
    requires m.destination.Some? || m.kind == Signal
    ensures var f := Describe(x, m, serial).fields;
            && (m.kind == OtherKind ==> 3 !in f)
            && (m.kind != OtherKind && m.destination.Some? ==> Lookup(f, 3) == Some(HeaderCodec.Str(m.destination.value)))
            && (m.destination.None? ==> 3 in f && f[3].Str? && Reads(f[3].s, "broadcast"))
  {
    NamesOfTheBus();
    FieldOfPart(x, m, serial, 3);
    hide Reads, Describe;
  }

  /** Path, interface and member of a call or a signal, the serial of those or the one replied to, and the name of
      an error. */
  lemma TailLaw(x: Indices, m: Message, serial: int32)
    ensures var f := Describe(x, m, serial).fields;
            var toMember, reply := m.kind == MethodCall || m.kind == Signal, m.kind == MethodReturn || m.kind == Error;
            && Lookup(f, 10) == When(toMember, HeaderCodec.Int32(serial))
            && Lookup(f, 11) == When(toMember, HeaderCodec.Str(m.path))
            && Lookup(f, 12) == When(toMember, HeaderCodec.Str(if m.iface.Some? then m.iface.value else []))
            && Lookup(f, 13) == When(toMember, HeaderCodec.Str(m.member))
            && Lookup(f, 15) == When(reply, HeaderCodec.Int32(serial))
            && Lookup(f, 16) == When(m.kind == Error, HeaderCodec.Str(m.errorName))
  {
    hide Describe;
    FieldOfPart(x, m, serial, 10);
    FieldOfPart(x, m, serial, 11);
    FieldOfPart(x, m, serial, 12);
    FieldOfPart(x, m, serial, 13);
    FieldOfPart(x, m, serial, 15);
    FieldOfPart(x, m, serial, 16);
    hide HeadFields, TargetFields, SenderFields, ReceiverFields;
  }

  lemma PartIds(x: Indices, m: Message)
    ensures Lookup(SenderFields(x, m), 4) == (if KnowsSender(x, m) then Some(Id(x, m.sender, false)) else None)
    ensures Lookup(SenderFields(x, m), 6) == (if KnowsSender(x, m) then Some(Id(x, m.sender, true)) else None)
    ensures Lookup(ReceiverFields(x, m), 5) ==
            (if KnowsReceiver(x, m) then Some(Id(x, x.owners[m.destination.value], false)) else None)
    ensures Lookup(ReceiverFields(x, m), 7) ==
            (if KnowsReceiver(x, m) then Some(Id(x, x.owners[m.destination.value], true)) else None)
  {
  }

  /** Process and user id of sender and receiver are there if and only if they are recorded. */
  lemma IdsLaw(x: Indices, m: Message, serial: int32)
    ensures var f := Describe(x, m, serial).fields;
            && Lookup(f, 4) == (if KnowsSender(x, m) then Some(Id(x, m.sender, false)) else None)
            && Lookup(f, 6) == (if KnowsSender(x, m) then Some(Id(x, m.sender, true)) else None)
            && Lookup(f, 5) == (if KnowsReceiver(x, m) then Some(Id(x, x.owners[m.destination.value], false)) else None)
            && Lookup(f, 7) == (if KnowsReceiver(x, m) then Some(Id(x, x.owners[m.destination.value], true)) else None)
  {
    PartIds(x, m);
    FieldOfPart(x, m, serial, 4);
    FieldOfPart(x, m, serial, 5);
    FieldOfPart(x, m, serial, 6);
    FieldOfPart(x, m, serial, 7);
    hide Describe, Lookup, Id, HeadFields, TargetFields, TailFields, SenderFields, ReceiverFields;
  }

  /** No other field is set, and nothing is unknown. */
  lemma NoOtherFields(x: Indices, m: Message, serial: int32)
    ensures var h := Describe(x, m, serial);
            h.fields.Keys <= {1, 2, 3, 4, 5, 6, 7, 10, 11, 12, 13, 15, 16, 17} && h.unknown == []
  {
    KeysOfParts(x, m, serial);
    hide HeadFields, TargetFields, TailFields, SenderFields, ReceiverFields;
  }

  /** The aliases reported for a connection: those of its names that are neither empty nor its own, in the order
      they were recorded. */
  lemma {:induction false} ReportedLaw(aliases: seq<Name>, more: seq<Name>, o: Name, a: Name)
    ensures Reported([a], o) == if a == [] || a == o then [] else [a]
    ensures Reported(aliases + more, o) == Reported(aliases, o) + Reported(more, o)
    decreases aliases
  {
    assert Reported([a][1..], o) == [];
    if aliases == [] {
      assert aliases + more == more;
    } else {
      assert (aliases + more)[1..] == aliases[1..] + more;
      ReportedLaw(aliases[1..], more, o, a);
    }
  }

  lemma AliasesLaw(x: Indices, m: Message, serial: int32)
    ensures var h := Describe(x, m, serial);
            && h.senderAliases == (if KnowsSender(x, m) then Reported(x.services[m.sender].aliases, m.sender) else [])
            && h.receiverAliases ==
               (if KnowsReceiver(x, m)
                then var o := x.owners[m.destination.value]; Reported(x.services[o].aliases, o) else [])
  {
    hide Reported;
  }

  // ----- the cache -----

  function Found<V>(m: map<Name, V>, n: Name): Option<V> { if n in m then Some(m[n]) else None }

  /** Where a listed name is seeded: a unique name, with its colon, at itself, and any other where the daemon says; at
      itself too if there is no reply, and nowhere if it could not be asked. */
  lemma {:induction false} SeededLaw(d: Daemon, names: seq<Name>, n: Name)
    ensures Found(SeedAll(EMPTY, d, names).owners, n) ==
            if n !in names then None
            else if n != [] && n[0] == ':' as int then Some(n)
            else match d.owner(n) case Owner(o) => Some(o) case NoReply => Some(n) case NotSent => None
    decreases names
  {
    if names != [] {
      var front, last := names[..|names| - 1], names[|names| - 1];
      assert names == front + [last];
      SeededLaw(d, front, n);
    }
  }

  /** The owner of each name after an event, true or not: a gained name is inserted; with a lost one go all names of
      the owner that lost it; a moved one does both. */
  lemma OwnersLaw(x: Indices, d: Daemon, e: Event, n: Name)
    ensures var before := Found(x.owners, n);
            var gained, lost := e.oldOwner == [] && e.newOwner != [], e.oldOwner != [] && e.newOwner == [];
            var kept := if !gained && before == Some(e.oldOwner) then None else before;
            Found(Handle(x, d, e).owners, n) == if n == e.name && !lost && kept.None? then Some(e.newOwner) else kept
  {
  }

  /** The service of each owner after an event: the new owner's is made anew, with the ids the daemon gives and the one
      name, if it gained the name or was not known; the old owner's is gone. */
  lemma ServicesLaw(x: Indices, d: Daemon, e: Event, o: Name)
    ensures var before := Found(x.services, o);
            var gained, lost := e.oldOwner == [] && e.newOwner != [], e.oldOwner != [] && e.newOwner == [];
            var kept := if o == (if gained then e.newOwner else e.oldOwner) then None else before;
            Found(Handle(x, d, e).services, o) ==
            if o == e.newOwner && !lost && kept.None? then Some(Service(d.pid(o), d.uid(o), [e.name])) else kept
  {
  }
}
