/** The consumer's side of the name cache: the two maps it inserts into and erases from in place. */
module DataPool {
  import opened Common
  import opened Wire
  import opened NameRegistry
  import HeaderCodec

  class Pool {
    var nameToOwner: map<Name, Name>
    var services: map<Name, Service>

    function Value(): Indices
      reads this
    {
      Indices(nameToOwner, services)
    }

    constructor ()
      ensures Value() == EMPTY
    {
      nameToOwner, services := map[], map[];
    }

    /** `std::map::insert` on the name index: an existing entry wins. */
    method InsertName(name: Name, owner: Name)
      modifies `nameToOwner
      ensures nameToOwner == Insert(old(nameToOwner), name, owner)
    {
      if name !in nameToOwner {
        nameToOwner := nameToOwner[name := owner];
      }
    }

    /** `std::map::insert` on the service index. */
    method InsertEntry(owner: Name, service: Service)
      modifies `services
      ensures services == Insert(old(services), owner, service)
    {
      if owner !in services {
        services := services[owner := service];
      }
    }

    method EraseService(owner: Name)
      modifies `services
      ensures services == Without(old(services), owner)
    {
      if owner in services {
        services := services - {owner};
      }
    }

    /** The iterator loop with erasure in place, in whatever order the map is walked. */
    method EraseNamesOf(owner: Name)
      modifies `nameToOwner
      ensures nameToOwner == DropOwner(old(nameToOwner), owner)
    {
      ghost var was := nameToOwner;
      var todo := nameToOwner.Keys;
      while todo != {}
        invariant todo <= nameToOwner.Keys <= was.Keys
        invariant forall n | n in nameToOwner :: nameToOwner[n] == was[n]
        invariant forall n | n in was && n !in todo :: n in nameToOwner <==> was[n] != owner
        decreases |todo|
      {
        var n :| n in todo;
        if nameToOwner[n] == owner {
          nameToOwner := nameToOwner - {n};
        }
        todo := todo - {n};
      }
    }

    method InsertService(d: Daemon, name: Name) returns (found: bool)
      modifies this
      ensures Value() == Seed(old(Value()), d, name)
      ensures found <==> NameOwner(d, name).Some?
    {
      var owner := NameOwner(d, name);
      if owner.None? {
        return false;
      }
      InsertName(name, owner.value);
      if owner.value in services {
        var s := services[owner.value];
        services := services[owner.value := s.(aliases := s.aliases + [name])];
      } else {
        InsertEntry(owner.value, Service(d.pid(owner.value), d.uid(owner.value), [name]));
      }
      return true;
    }

    /** Seeds the pool from the listed names. The result is `false` whatever happens. */
    method PopulateDataPool(d: Daemon, names: Option<seq<Name>>) returns (done: bool)
      modifies this
      ensures Value() == if names.Some? then SeedAll(old(Value()), d, names.value) else old(Value())
      ensures !done
    {
      done := false;
      if names.Some? {
        var i := 0;
        while i < |names.value|
          invariant i <= |names.value|
          invariant Value() == SeedAll(old(Value()), d, names.value[..i])
        {
          var _ := InsertService(d, names.value[i]);
          i := i + 1;
          assert names.value[..i][..i - 1] == names.value[..i - 1];
        }
        assert names.value[..i] == names.value;
      }
    }

    /** The three branches of the signal handler: a name gained, lost, or moved. */
    method HandleChange(d: Daemon, e: Event)
      modifies this
      ensures Value() == Handle(old(Value()), d, e)
    {
      if e.oldOwner == [] && e.newOwner != [] {
        EraseService(e.newOwner);
        InsertEntry(e.newOwner, NewService(d, e.newOwner, e.name));
        InsertName(e.name, e.newOwner);
      } else if e.oldOwner != [] && e.newOwner == [] {
        EraseService(e.oldOwner);
        EraseNamesOf(e.oldOwner);
      } else {
        EraseService(e.oldOwner);
        InsertEntry(e.newOwner, NewService(d, e.newOwner, e.name));
        EraseNamesOf(e.oldOwner);
        InsertName(e.name, e.newOwner);
      }
    }

    method HandleNameOwnerChangeEvent(d: Daemon, m: Message)
      modifies this
      ensures Value() == match EventOf(m) case Some(e) => Handle(old(Value()), d, e) case None => old(Value())
    {
      if m.kind.Signal? && m.sender == BUS && m.iface == Some(BUS) && m.member == NAME_OWNER_CHANGED {
        if |m.args| > 0 && m.args[0].Text? {
          if |m.args| > 1 && m.args[1].Text? {
            if |m.args| > 2 && m.args[2].Text? {
              HandleChange(d, NameOwnerChanged(m.args[0].text, m.args[1].text, m.args[2].text));
            }
          }
        }
      }
    }

    method GetUniqueConnectionName(name: Name) returns (owner: Option<Name>)
      ensures owner == if name in nameToOwner then Some(nameToOwner[name]) else None
    {
      if name in nameToOwner {
        owner := Some(nameToOwner[name]);
      } else {
        owner := None;
      }
    }

    /** The alias loop shared by sender and receiver. */
    method CollectAliases(owner: Name, aliases: seq<Name>) returns (reported: seq<Name>)
      ensures reported == Reported(aliases, owner)
    {
      assert Reported([], owner) == [];
      hide Reported;
      reported := [];
      var i := 0;
      assert aliases[0..] == aliases;
      while i < |aliases|
        invariant i <= |aliases|
        invariant reported + Reported(aliases[i..], owner) == Reported(aliases, owner)
      {
        ReportedNext(aliases, owner, i);
        if aliases[i] != [] && aliases[i] != owner {
          reported := reported + [aliases[i]];
        }
        i := i + 1;
      }
      assert aliases[i..] == [];
    }

    method PopulateSenderInfo(hdr: HeaderCodec.Header, owner: Name) returns (h: HeaderCodec.Header)
      ensures h == hdr.(fields := hdr.fields + InfoFields(Value(), owner, 4, 6),
                        senderAliases := hdr.senderAliases + InfoAliases(Value(), owner))
    {
      h := hdr;
      if owner in services {
        h := h.(fields := h.fields[4 := HeaderCodec.Int32(services[owner].pid)]);
        h := h.(fields := h.fields[6 := HeaderCodec.Int32(services[owner].uid)]);
        var reported := CollectAliases(owner, services[owner].aliases);
        h := h.(senderAliases := h.senderAliases + reported);
      }
    }

    method PopulateReceiverInfo(hdr: HeaderCodec.Header, owner: Name) returns (h: HeaderCodec.Header)
      ensures h == hdr.(fields := hdr.fields + InfoFields(Value(), owner, 5, 7),
                        receiverAliases := hdr.receiverAliases + InfoAliases(Value(), owner))
    {
      h := hdr;
      if owner in services {
        h := h.(fields := h.fields[5 := HeaderCodec.Int32(services[owner].pid)]);
        h := h.(fields := h.fields[7 := HeaderCodec.Int32(services[owner].uid)]);
        var reported := CollectAliases(owner, services[owner].aliases);
        h := h.(receiverAliases := h.receiverAliases + reported);
      }
    }

    /** Destination, owner and receiver details; `None` where the code has no unique name for it. */
    method DescribeReceiver(hdr: HeaderCodec.Header, destination: Name) returns (h: HeaderCodec.Header)
      ensures var o := if destination in nameToOwner then Some(nameToOwner[destination]) else None;
              && h.fields == hdr.fields + map[3 := HeaderCodec.Str(destination)]
                             + (if o.Some? then InfoFields(Value(), o.value, 5, 7) else map[])
              && h.receiverAliases == hdr.receiverAliases + (if o.Some? then InfoAliases(Value(), o.value) else [])
              && h.senderAliases == hdr.senderAliases && h.unknown == hdr.unknown
    {
      h := Set(hdr, 3, HeaderCodec.Str(destination));
      var owner := GetUniqueConnectionName(destination);
      if owner.Some? {
        h := PopulateReceiverInfo(h, owner.value);
      }
    }

    /** The setters a call and a signal end with. */
    method SetMember(hdr: HeaderCodec.Header, m: Message, serial: int32) returns (h: HeaderCodec.Header)
      ensures h == hdr.(fields := hdr.fields + MemberFields(m, serial))
    {
      h := Set(hdr, 11, HeaderCodec.Str(m.path));
      h := Set(h, 12, HeaderCodec.Str(if m.iface.Some? then m.iface.value else []));
      h := Set(h, 13, HeaderCodec.Str(m.member));
      h := Set(h, 10, HeaderCodec.Int32(serial));
      FourSets(hdr.fields, 11, HeaderCodec.Str(m.path),
               12, HeaderCodec.Str(if m.iface.Some? then m.iface.value else []),
               13, HeaderCodec.Str(m.member), 10, HeaderCodec.Int32(serial));
    }

    method DescribeCall(m: Message, serial: int32) returns (h: HeaderCodec.Header)
      requires m.kind.MethodCall? && Traceable(m)
      ensures h == Describe(Value(), m, serial)
    {
      hide InfoFields, Reported, MemberFields;
      h := Set(HeaderCodec.EMPTY_HEADER, 1, HeaderCodec.Enum(1));
      h := Set(h, 17, HeaderCodec.Str(m.signature));
      h := Set(h, 2, HeaderCodec.Str(m.sender));
      assert h.fields == HeadFields(m);
      hide HeadFields;
      h := PopulateSenderInfo(h, m.sender);
      h := DescribeReceiver(h, m.destination.value);
      h := SetMember(h, m, serial);
      SettersCommute(Value(), m, serial);
    }

    method DescribeReturn(m: Message, serial: int32) returns (h: HeaderCodec.Header)
      requires m.kind.MethodReturn? && Traceable(m)
      ensures h == Describe(Value(), m, serial)
    {
      hide InfoFields, Reported;
      h := Set(HeaderCodec.EMPTY_HEADER, 1, HeaderCodec.Enum(2));
      h := Set(h, 2, HeaderCodec.Str(m.sender));
      assert h.fields == HeadFields(m);
      hide HeadFields;
      h := PopulateSenderInfo(h, m.sender);
      h := DescribeReceiver(h, m.destination.value);
      TwoSets(h.fields, 15, HeaderCodec.Int32(serial), 15, HeaderCodec.Int32(serial));
      h := Set(h, 15, HeaderCodec.Int32(serial));
      SettersCommute(Value(), m, serial);
    }

    method DescribeError(m: Message, serial: int32) returns (h: HeaderCodec.Header)
      requires m.kind.Error? && Traceable(m)
      ensures h == Describe(Value(), m, serial)
    {
      hide InfoFields, Reported;
      h := Set(HeaderCodec.EMPTY_HEADER, 1, HeaderCodec.Enum(4));
      h := Set(h, 2, HeaderCodec.Str(m.sender));
      assert h.fields == HeadFields(m);
      hide HeadFields;
      h := PopulateSenderInfo(h, m.sender);
      h := DescribeReceiver(h, m.destination.value);
      TwoSets(h.fields, 15, HeaderCodec.Int32(serial), 16, HeaderCodec.Str(m.errorName));
      h := Set(h, 15, HeaderCodec.Int32(serial));
      h := Set(h, 16, HeaderCodec.Str(m.errorName));
      SettersCommute(Value(), m, serial);
    }

    /** A signal may have no destination, and names its receiver before anything else. */
    method DescribeSignal(m: Message, serial: int32) returns (h: HeaderCodec.Header)
      requires m.kind.Signal? && Traceable(m)
      ensures h == Describe(Value(), m, serial)
    {
      hide InfoFields, Reported, MemberFields;
      if m.destination.None? {
        h := Set(HeaderCodec.EMPTY_HEADER, 3, HeaderCodec.Str(BROADCAST));
      } else {
        h := DescribeReceiver(HeaderCodec.EMPTY_HEADER, m.destination.value);
      }
      assert h.fields == TargetFields(m) + ReceiverFields(Value(), m);
      hide TargetFields, ReceiverFields;
      TwoSets(h.fields, 1, HeaderCodec.Enum(3), 2, HeaderCodec.Str(m.sender));
      h := Set(h, 1, HeaderCodec.Enum(3));
      h := Set(h, 2, HeaderCodec.Str(m.sender));
      h := PopulateSenderInfo(h, m.sender);
      h := SetMember(h, m, serial);
      SettersCommute(Value(), m, serial);
    }

    /** The header of a message as the pool stands, one setter after the other. */
    method CreateDbusMessageHeader(m: Message, serial: int32) returns (h: HeaderCodec.Header)
      requires Traceable(m)
      ensures h == Describe(Value(), m, serial)
    {
      match m.kind
      case MethodCall => h := DescribeCall(m, serial);
      case MethodReturn => h := DescribeReturn(m, serial);
      case Error => h := DescribeError(m, serial);
      case Signal => h := DescribeSignal(m, serial);
      case OtherKind => h := Set(HeaderCodec.EMPTY_HEADER, 1, HeaderCodec.Enum(0));
    }

    /** One message of the consumer loop: the pool is updated first, and described afterwards. */
    method Process(d: Daemon, m: Message, serial: int32) returns (h: HeaderCodec.Header)
      requires Traceable(m)
      modifies this
      ensures Value() == match EventOf(m) case Some(e) => Handle(old(Value()), d, e) case None => old(Value())
      ensures h == Describe(Value(), m, serial)
    {
      HandleNameOwnerChangeEvent(d, m);
      h := CreateDbusMessageHeader(m, serial);
    }
  }

  lemma ReportedNext(aliases: seq<Name>, o: Name, i: nat)
    requires i < |aliases|
    ensures Reported(aliases[i..], o)
         == (if aliases[i] != [] && aliases[i] != o then [aliases[i]] else []) + Reported(aliases[i + 1..], o)
  {
    assert aliases[i..][1..] == aliases[i + 1..];
  }

  lemma KeysApart(x: Indices, m: Message, serial: int32)
    ensures SenderFields(x, m).Keys <= {4, 6} && ReceiverFields(x, m).Keys <= {5, 7}
    ensures HeadFields(m).Keys <= {1, 2, 17} && TargetFields(m).Keys <= {3}
    ensures TailFields(m, serial).Keys <= {10, 11, 12, 13, 15, 16}
  {
    hide Reported;
  }

  lemma Regroup<V>(a: map<nat, V>, s: map<nat, V>, b: map<nat, V>, r: map<nat, V>, c: map<nat, V>)
    requires s.Keys !! b.Keys && s.Keys !! c.Keys && r.Keys !! c.Keys && r.Keys !! s.Keys
    ensures a + s + b + r + c == a + b + c + s + r
  {
  }

  lemma RegroupSignal<V>(a: map<nat, V>, s: map<nat, V>, b: map<nat, V>, r: map<nat, V>, c: map<nat, V>)
    requires a.Keys !! b.Keys && a.Keys !! r.Keys && s.Keys !! c.Keys && r.Keys !! c.Keys && r.Keys !! s.Keys
    ensures b + r + a + s + c == a + b + c + s + r
  {
  }

  /** The order of the setters does not show in the finished header. */
  lemma {:induction false} SettersCommute(x: Indices, m: Message, serial: int32)
    ensures HeadFields(m) + SenderFields(x, m) + TargetFields(m) + ReceiverFields(x, m) + TailFields(m, serial)
         == OwnFields(m, serial) + SenderFields(x, m) + ReceiverFields(x, m)
    ensures TargetFields(m) + ReceiverFields(x, m) + HeadFields(m) + SenderFields(x, m) + TailFields(m, serial)
         == OwnFields(m, serial) + SenderFields(x, m) + ReceiverFields(x, m)
  {
    KeysApart(x, m, serial);
    hide HeadFields, SenderFields, TargetFields, ReceiverFields, TailFields;
    Regroup(HeadFields(m), SenderFields(x, m), TargetFields(m), ReceiverFields(x, m), TailFields(m, serial));
    RegroupSignal(HeadFields(m), SenderFields(x, m), TargetFields(m), ReceiverFields(x, m), TailFields(m, serial));
  }

  lemma TwoSets<V>(f: map<nat, V>, i: nat, a: V, j: nat, b: V)
    ensures f[i := a] == f + map[i := a] && f[i := a][j := b] == f + map[i := a, j := b]
  {
    var one: map<nat, V> := map[i := a];
    assert f[i := a] == f + one;
    assert (f + one)[j := b] == f + one[j := b];
  }

  lemma FourSets<V>(f: map<nat, V>, i: nat, a: V, j: nat, b: V, k: nat, c: V, l: nat, d: V)
    ensures f[i := a][j := b][k := c][l := d] == f + map[i := a, j := b, k := c, l := d]
  {
    TwoSets(f, i, a, j, b);
    var two: map<nat, V> := map[i := a, j := b];
    TwoSets(f + two, k, c, l, d);
    assert (f + two)[k := c] == f + two[k := c];
    assert (f + two[k := c])[l := d] == f + two[k := c][l := d];
  }

  function Set(h: HeaderCodec.Header, k: nat, v: HeaderCodec.Value): HeaderCodec.Header {
    h.(fields := h.fields[k := v])
  }
}
