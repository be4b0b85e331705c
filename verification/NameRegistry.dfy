/** The cache of bus names kept by the D-Bus consumer: two indices seeded from a snapshot of
    the bus and then driven by NameOwnerChanged signals ("Message Bus Messages" of the D-Bus
    Specification), and the headers that are filled in from it. */
module NameRegistry {
  import opened Common
  import opened Wire
  import HeaderCodec

  type Name = bytes

  /** Process and user ids are kept as the signed 32-bit numbers they are reported as. */
  datatype Service = Service(pid: int32, uid: int32, aliases: seq<Name>)

  /** The two indices: name to owner, and owner to service. */
  datatype Indices = Indices(owners: map<Name, Name>, services: map<Name, Service>)

  const EMPTY := Indices(map[], map[])

  /** What a GetNameOwner call comes back with. */
  datatype Answer = Owner(name: Name) | NoReply | NotSent

  /** The bus daemon as seen through method calls. */
  datatype Daemon = Daemon(owner: Name -> Answer, pid: Name -> int32, uid: Name -> int32)

  /** `std::map::insert`: a key that is there keeps its value. */
  function Insert<V>(m: map<Name, V>, k: Name, v: V): map<Name, V> { if k in m then m else m[k := v] }

  function Without<V>(m: map<Name, V>, k: Name): map<Name, V> { m - {k} }

  function DropOwner(owners: map<Name, Name>, o: Name): map<Name, Name> {
    map n | n in owners && owners[n] != o :: owners[n]
  }

  function NewService(d: Daemon, o: Name, alias: Name): Service { Service(d.pid(o), d.uid(o), [alias]) }

  // ----- seeding -----

  const COLON: byte := 58

  predicate IsUnique(n: Name) { n != [] && n[0] == COLON }

  /** A unique name owns itself; another name is asked for, and without a reply stands for itself. */
  function NameOwner(d: Daemon, n: Name): Option<Name> {
    if IsUnique(n) then Some(n)
    else
      match d.owner(n)
      case Owner(o) => Some(o)
      case NoReply => Some(n)
      case NotSent => None
  }

  function Seed(x: Indices, d: Daemon, n: Name): Indices {
    match NameOwner(d, n)
    case None => x
    case Some(o) =>
      Indices(
        Insert(x.owners, n, o),
        if o in x.services then x.services[o := x.services[o].(aliases := x.services[o].aliases + [n])]
        else x.services[o := NewService(d, o, n)])
  }

  function SeedAll(x: Indices, d: Daemon, names: seq<Name>): Indices {
    if names == [] then x else Seed(SeedAll(x, d, names[..|names| - 1]), d, names[|names| - 1])
  }

  // ----- events -----

  datatype Event = NameOwnerChanged(name: Name, oldOwner: Name, newOwner: Name)

  function Handle(x: Indices, d: Daemon, e: Event): Indices {
    if e.oldOwner == [] && e.newOwner != [] then
      Indices(
        Insert(x.owners, e.name, e.newOwner),
        Without(x.services, e.newOwner)[e.newOwner := NewService(d, e.newOwner, e.name)])
    else if e.oldOwner != [] && e.newOwner == [] then
      Indices(DropOwner(x.owners, e.oldOwner), Without(x.services, e.oldOwner))
    else
      Indices(
        Insert(DropOwner(x.owners, e.oldOwner), e.name, e.newOwner),
        Insert(Without(x.services, e.oldOwner), e.newOwner, NewService(d, e.newOwner, e.name)))
  }

  // ----- messages -----

  datatype Kind = MethodCall | MethodReturn | Error | Signal | OtherKind

  datatype Arg = Text(text: Name) | OtherArg

  datatype Message = Message(
    kind: Kind,
    sender: Name,
    destination: Option<Name>,
    path: Name,
    iface: Option<Name>,
    member: Name,
    errorName: Name,
    signature: Name,
    args: seq<Arg>)

  function Ascii(s: string): Name { seq(|s|, i requires 0 <= i < |s| => s[i] as int % 256) }

  const BUS := Ascii("org.freedesktop.DBus")
  const NAME_OWNER_CHANGED := Ascii("NameOwnerChanged")
  const BROADCAST := Ascii("broadcast")

  /** The event a message announces: a signal of the bus itself with three leading strings. */
  function EventOf(m: Message): Option<Event> {
    if && m.kind.Signal? && m.sender == BUS && m.iface == Some(BUS) && m.member == NAME_OWNER_CHANGED
       && |m.args| >= 3 && m.args[0].Text? && m.args[1].Text? && m.args[2].Text?
    then Some(NameOwnerChanged(m.args[0].text, m.args[1].text, m.args[2].text))
    else None
  }

  // ----- headers -----

  /** Aliases worth reporting: neither empty nor the owner's own name. */
  function Reported(aliases: seq<Name>, o: Name): seq<Name> {
    if aliases == [] then []
    else (if aliases[0] != [] && aliases[0] != o then [aliases[0]] else []) + Reported(aliases[1..], o)
  }

  function InfoFields(x: Indices, o: Name, pidField: nat, uidField: nat): map<nat, HeaderCodec.Value> {
    if o in x.services
    then map[pidField := HeaderCodec.Int32(x.services[o].pid), uidField := HeaderCodec.Int32(x.services[o].uid)]
    else map[]
  }

  function InfoAliases(x: Indices, o: Name): seq<Name> {
    if o in x.services then Reported(x.services[o].aliases, o) else []
  }

  /** What a message says about itself and its sender. */
  function HeadFields(m: Message): map<nat, HeaderCodec.Value> {
    match m.kind
    case MethodCall =>
      map[1 := HeaderCodec.Enum(1), 17 := HeaderCodec.Str(m.signature), 2 := HeaderCodec.Str(m.sender)]
    case MethodReturn => map[1 := HeaderCodec.Enum(2), 2 := HeaderCodec.Str(m.sender)]
    case Error => map[1 := HeaderCodec.Enum(4), 2 := HeaderCodec.Str(m.sender)]
    case Signal => map[1 := HeaderCodec.Enum(3), 2 := HeaderCodec.Str(m.sender)]
    case OtherKind => map[1 := HeaderCodec.Enum(0)]
  }

  /** Where it goes; a signal without a destination is a broadcast. */
  function TargetFields(m: Message): map<nat, HeaderCodec.Value> {
    if m.kind.OtherKind? then map[]
    else map[3 := HeaderCodec.Str(if m.destination.Some? then m.destination.value
                                  else if m.kind.Signal? then BROADCAST else [])]
  }

  /** Path, interface, member and serial of a call or a signal. */
  function MemberFields(m: Message, serial: int32): map<nat, HeaderCodec.Value> {
    map[11 := HeaderCodec.Str(m.path), 12 := HeaderCodec.Str(if m.iface.Some? then m.iface.value else []),
        13 := HeaderCodec.Str(m.member), 10 := HeaderCodec.Int32(serial)]
  }

  function TailFields(m: Message, serial: int32): map<nat, HeaderCodec.Value> {
    match m.kind
    case MethodCall => MemberFields(m, serial)
    case Signal => MemberFields(m, serial)
    case MethodReturn => map[15 := HeaderCodec.Int32(serial)]
    case Error => map[15 := HeaderCodec.Int32(serial), 16 := HeaderCodec.Str(m.errorName)]
    case OtherKind => map[]
  }

  /** The fields that come from the message alone. */
  function OwnFields(m: Message, serial: int32): map<nat, HeaderCodec.Value> {
    HeadFields(m) + TargetFields(m) + TailFields(m, serial)
  }

  /** The owner the receiver resolves to, if the cache knows it. */
  function Receiver(x: Indices, m: Message): Option<Name> {
    if !m.kind.OtherKind? && m.destination.Some? && m.destination.value in x.owners
    then Some(x.owners[m.destination.value]) else None
  }

  function SenderFields(x: Indices, m: Message): map<nat, HeaderCodec.Value> {
    if m.kind.OtherKind? then map[] else InfoFields(x, m.sender, 4, 6)
  }

  function ReceiverFields(x: Indices, m: Message): map<nat, HeaderCodec.Value> {
    if Receiver(x, m).Some? then InfoFields(x, Receiver(x, m).value, 5, 7) else map[]
  }

  /** The header of a traced message. Every kind but a signal must carry a destination, and a
      signal an interface, because the code reads them without looking. */
  predicate Traceable(m: Message) {
    && (m.kind.MethodCall? || m.kind.MethodReturn? || m.kind.Error? ==> m.destination.Some?)
    && (m.kind.Signal? ==> m.iface.Some?)
  }

  function Describe(x: Indices, m: Message, serial: int32): HeaderCodec.Header {
    HeaderCodec.Header(
      OwnFields(m, serial) + SenderFields(x, m) + ReceiverFields(x, m),
      if m.kind.OtherKind? then [] else InfoAliases(x, m.sender),
      if Receiver(x, m).Some? then InfoAliases(x, Receiver(x, m).value) else [],
      [])
  }
}
