/** The nineteen-field header of a traced D-Bus message: serialisation, the bare tag switch
    loop, and merging. The generated code is one branch per field; here the branch of
    field `k` is the `k`-th case of a table. */
module HeaderCodec {
  import opened Wire

  datatype Kind = KEnum | KInt32 | KString | KRepeated

  datatype Value = Enum(e: nat) | Int32(v: int32) | Str(s: bytes)

  /** A key of `fields` is the number of an optional field whose has-bit is set. */
  datatype Header = Header(
    fields: map<nat, Value>,
    senderAliases: seq<bytes>,
    receiverAliases: seq<bytes>,
    unknown: seq<Unknown>)

  const EMPTY_HEADER := Header(map[], [], [], [])

  const TYPE := 1
  const SENDER_ALIASES := 8
  const RECEIVER_ALIASES := 9
  const LAST := 19

  /** sender_pid, receiver_pid, sender_user_id, receiver_user_id, serial and reply_serial are int32. */
  function KindOf(k: nat): Kind {
    if k == TYPE then KEnum
    else if k in {4, 5, 6, 7, 10, 15} then KInt32
    else if k == SENDER_ALIASES || k == RECEIVER_ALIASES then KRepeated
    else KString
  }

  function TagOf(k: nat): nat {
    8 * k + if KindOf(k).KEnum? || KindOf(k).KInt32? then WIRE_VARINT else WIRE_LENGTH
  }

  predicate IsKnown(tag: nat) { 1 <= tag / 8 <= LAST && tag == TagOf(tag / 8) }

  predicate IsMessageType(v: int) { 0 <= v <= 4 }

  predicate ValueOk(k: nat, v: Value) {
    match v
    case Enum(e) => KindOf(k).KEnum? && IsMessageType(e)
    case Int32(_) => KindOf(k).KInt32?
    case Str(_) => KindOf(k).KString?
  }

  predicate HeaderSkips(u: Unknown) {
    || !IsKnown(u.Tag())
    || (&& u.UVarint? && u.num == TYPE
        && !IsMessageType(ToInt32(u.value)) && u.value == SignExtend(ToInt32(u.value)))
  }

  /** Every set field is one of the table and holds its kind; unknown records are ones the parser skips. */
  predicate HeaderOk(h: Header, depth: nat) {
    && (forall k | k in h.fields :: 1 <= k <= LAST && ValueOk(k, h.fields[k]))
    && UnknownsOk(h.unknown, depth) && forall u | u in h.unknown :: HeaderSkips(u)
  }

  // ----- serialisation -----

  function ValueBytes(v: Value): (s: bytes) {
    match v
    case Enum(e) => Varint(e)
    case Int32(i) => Varint(SignExtend(i))
    case Str(x) => LengthDelimited(x)
  }

  function StringsBytes(k: nat, xs: seq<bytes>): (s: bytes) {
    if xs == [] then [] else (Varint(TagOf(k)) + LengthDelimited(xs[0])) + StringsBytes(k, xs[1..])
  }

  function FieldBytes(h: Header, k: nat): (s: bytes) {
    if k == SENDER_ALIASES then StringsBytes(k, h.senderAliases)
    else if k == RECEIVER_ALIASES then StringsBytes(k, h.receiverAliases)
    else if k in h.fields then Varint(TagOf(k)) + ValueBytes(h.fields[k])
    else []
  }

  /** Fields `k` to 19 in order, then the unknown ones. */
  function SerializeFrom(h: Header, k: nat): (s: bytes)
    decreases LAST + 1 - k
  {
    if k > LAST then SerializeUnknowns(h.unknown) else FieldBytes(h, k) + SerializeFrom(h, k + 1)
  }

  function SerializeHeader(h: Header): (s: bytes) { SerializeFrom(h, TYPE) }

  // ----- merging -----

  /** Set fields of `g` win, alias lists and unknown fields append. */
  function MergeHeader(h: Header, g: Header): Header {
    Header(h.fields + g.fields, h.senderAliases + g.senderAliases, h.receiverAliases + g.receiverAliases,
           h.unknown + g.unknown)
  }

  // ----- parsing -----

  datatype Step = Continue(msg: Header, rest: bytes) | Stop | Fail

  datatype Parsed = Done(msg: Header, legit: bool) | Failed

  function SetField(h: Header, k: nat, v: Value): Header { h.(fields := h.fields[k := v]) }

  function AddUnknown(h: Header, u: Unknown): Header { h.(unknown := h.unknown + [u]) }

  function AddString(h: Header, k: nat, x: bytes): Header {
    if k == SENDER_ALIASES then h.(senderAliases := h.senderAliases + [x])
    else if k == RECEIVER_ALIASES then h.(receiverAliases := h.receiverAliases + [x])
    else SetField(h, k, Str(x))
  }

  /** The branch of field `k`, entered after its tag. */
  function ReadField(h: Header, k: nat, s: bytes): (r: Step)
    ensures r.Continue? ==> |r.rest| < |s|
    ensures !r.Stop?
  {
    match KindOf(k)
    case KEnum =>
      (match ReadVarint32(s)
       case Malformed => Fail
       case Got(u, rest) =>
         var e := ToInt32(u);
         Continue(if IsMessageType(e) then SetField(h, k, Enum(e))
                  else AddUnknown(h, UVarint(k, SignExtend(e))), rest))
    case KInt32 =>
      (match ReadVarint32(s)
       case Malformed => Fail
       case Got(u, rest) => Continue(SetField(h, k, Int32(ToInt32(u))), rest))
    case KString =>
      (match ReadLengthDelimited(s)
       case Malformed => Fail
       case Got(x, rest) => Continue(AddString(h, k, x), rest))
    case KRepeated =>
      (match ReadLengthDelimited(s)
       case Malformed => Fail
       case Got(x, rest) => Continue(AddString(h, k, x), rest))
  }

  function HeaderSwitch(h: Header, tag: nat, s: bytes, depth: nat): (r: Step)
    ensures r.Continue? ==> |r.rest| <= |s|
  {
    if IsKnown(tag) then ReadField(h, tag / 8, s)
    else if tag % 8 == WIRE_END_GROUP then Stop
    else
      match SkipField(tag, s, depth)
      case Malformed => Fail
      case Got(u, rest) => Continue(AddUnknown(h, u), rest)
  }

  function ParseHeader(h: Header, s: bytes, depth: nat): (r: Parsed)
    decreases |s|
  {
    match ReadTag(s)
    case AtEnd => Done(h, true)
    case BadTag => Done(h, false)
    case TagIs(tag, rest) => HeaderAfter(HeaderSwitch(h, tag, rest, depth), h, |s|, depth)
  }

  function HeaderAfter(r: Step, h: Header, bound: nat, depth: nat): (p: Parsed)
    requires r.Continue? ==> |r.rest| < bound
    decreases bound, 0
  {
    match r
    case Fail => Failed
    case Stop => Done(h, false)
    case Continue(h', rest) => ParseHeader(h', rest, depth)
  }
}
