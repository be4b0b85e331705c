/** The two mutually recursive messages of a traced D-Bus payload: what they serialise
    to, how the bare tag switch loop parses them, and how two of them merge. */
module PayloadCodec {
  import opened Common
  import opened Wire

  predicate IsParamType(v: int) { 0 <= v <= 17 }

  type ParamType = v: int | 0 <= v <= 17

  /** An optional field is set exactly when its has-bit is. Doubles are eight opaque bytes. */
  datatype Item = Item(
    typ: Option<ParamType>,
    intVal: Option<int64>,
    uintVal: Option<uint64>,
    doubleVal: Option<raw64>,
    strVal: Option<bytes>,
    compositeVal: Option<Composite>,
    unknown: seq<Unknown>)

  datatype Composite = Composite(param: seq<Item>, unknown: seq<Unknown>)

  const EMPTY_ITEM := Item(None, None, None, None, None, None, [])
  const EMPTY_COMPOSITE := Composite([], [])

  const TAG_TYPE := 8
  const TAG_INT := 16
  const TAG_UINT := 24
  const TAG_DOUBLE := 33
  const TAG_STR := 42
  const TAG_COMPOSITE := 50
  const TAG_PARAM := 10

  // ----- serialisation -----

  function SerializeItem(n: Item): (s: bytes)
    decreases n, 1
  {
    TypeField(n) + (IntField(n) + (UintField(n) + (DoubleField(n) + (StrField(n) + (CompositeField(n)
    + SerializeUnknowns(n.unknown))))))
  }

  function TypeField(n: Item): bytes {
    if n.typ.Some? then Varint(TAG_TYPE) + Varint(SignExtend(n.typ.value)) else []
  }

  function IntField(n: Item): bytes {
    if n.intVal.Some? then Varint(TAG_INT) + Varint(SignExtend(n.intVal.value)) else []
  }

  function UintField(n: Item): bytes {
    if n.uintVal.Some? then Varint(TAG_UINT) + Varint(n.uintVal.value) else []
  }

  function DoubleField(n: Item): bytes {
    if n.doubleVal.Some? then Varint(TAG_DOUBLE) + n.doubleVal.value else []
  }

  function StrField(n: Item): bytes {
    if n.strVal.Some? then Varint(TAG_STR) + LengthDelimited(n.strVal.value) else []
  }

  function CompositeField(n: Item): bytes
    decreases n, 0
  {
    if n.compositeVal.Some?
    then Varint(TAG_COMPOSITE) + LengthDelimited(SerializeComposite(n.compositeVal.value))
    else []
  }

  function SerializeComposite(c: Composite): (s: bytes)
    decreases c
  {
    SerializeParams(c.param) + SerializeUnknowns(c.unknown)
  }

  function SerializeParams(ps: seq<Item>): (s: bytes)
    decreases ps
  {
    if ps == [] then []
    else Varint(TAG_PARAM) + (LengthDelimited(SerializeItem(ps[0])) + SerializeParams(ps[1..]))
  }

  // ----- merging -----

  function Newer<T>(old_: Option<T>, new_: Option<T>): Option<T> {
    if new_.Some? then new_ else old_
  }

  /** Set fields of `n` win, sub-messages merge, repeated and unknown fields append. */
  function MergeItem(m: Item, n: Item): Item
  {
    Item(Newer(m.typ, n.typ), Newer(m.intVal, n.intVal), Newer(m.uintVal, n.uintVal),
         Newer(m.doubleVal, n.doubleVal), Newer(m.strVal, n.strVal),
         if n.compositeVal.Some? then Some(MergeComposite(Sub(m), n.compositeVal.value)) else m.compositeVal,
         m.unknown + n.unknown)
  }

  /** The composite a mutable access yields: the one there, or a new empty one. */
  function Sub(m: Item): Composite {
    if m.compositeVal.Some? then m.compositeVal.value else EMPTY_COMPOSITE
  }

  function MergeComposite(c: Composite, d: Composite): Composite {
    Composite(c.param + d.param, c.unknown + d.unknown)
  }

  // ----- parsing: one turn of the switch, and the loop around it -----

  datatype Step<+T> = Continue(msg: T, rest: bytes) | Stop | Fail

  /** `legit` tells a message that ended at its limit from one cut by a zero tag or an end-group tag. */
  datatype Parsed<+T> = Done(msg: T, legit: bool) | Failed

  function SetType(m: Item, v: int32): Item {
    if IsParamType(v) then m.(typ := Some(v)) else AddUnknown(m, UVarint(1, SignExtend(v)))
  }

  function AddUnknown(m: Item, u: Unknown): Item { m.(unknown := m.unknown + [u]) }

  function ReadType(m: Item, s: bytes): (r: Step<Item>)
    ensures r.Continue? ==> |r.rest| < |s|
  {
    match ReadVarint32(s)
    case Malformed => Fail
    case Got(u, rest) => Continue(SetType(m, ToInt32(u)), rest)
  }

  function ReadInt(m: Item, s: bytes): (r: Step<Item>)
    ensures r.Continue? ==> |r.rest| < |s|
  {
    match ReadVarint64(s)
    case Malformed => Fail
    case Got(u, rest) => Continue(m.(intVal := Some(ToInt64(u))), rest)
  }

  function ReadUint(m: Item, s: bytes): (r: Step<Item>)
    ensures r.Continue? ==> |r.rest| < |s|
  {
    match ReadVarint64(s)
    case Malformed => Fail
    case Got(u, rest) => Continue(m.(uintVal := Some(u)), rest)
  }

  function ReadDouble(m: Item, s: bytes): (r: Step<Item>)
    ensures r.Continue? ==> |r.rest| < |s|
  {
    match ReadFixed(s, 8)
    case Malformed => Fail
    case Got(raw, rest) => Continue(m.(doubleVal := Some(raw)), rest)
  }

  function ReadStr(m: Item, s: bytes): (r: Step<Item>)
    ensures r.Continue? ==> |r.rest| < |s|
  {
    match ReadLengthDelimited(s)
    case Malformed => Fail
    case Got(raw, rest) => Continue(m.(strVal := Some(raw)), rest)
  }

  function ReadComposite(m: Item, s: bytes, depth: nat): (r: Step<Item>)
    ensures r.Continue? ==> |r.rest| < |s|
    decreases |s|, 0
  {
    if depth == 0 then Fail
    else
      match ReadLengthDelimited(s)
      case Malformed => Fail
      case Got(payload, rest) =>
        match ParseComposite(Sub(m), payload, depth - 1)
        case Failed => Fail
        case Done(c, legit) => if legit then Continue(m.(compositeVal := Some(c)), rest) else Fail
  }

  function ReadParam(c: Composite, s: bytes, depth: nat): (r: Step<Composite>)
    ensures r.Continue? ==> |r.rest| < |s|
    decreases |s|, 0
  {
    if depth == 0 then Fail
    else
      match ReadLengthDelimited(s)
      case Malformed => Fail
      case Got(payload, rest) =>
        match ParseItem(EMPTY_ITEM, payload, depth - 1)
        case Failed => Fail
        case Done(i, legit) => if legit then Continue(c.(param := c.param + [i]), rest) else Fail
  }

  function ItemUnusual(m: Item, tag: nat, s: bytes, depth: nat): (r: Step<Item>)
    ensures r.Continue? ==> |r.rest| <= |s|
  {
    if tag % 8 == WIRE_END_GROUP then Stop
    else
      match SkipField(tag, s, depth)
      case Malformed => Fail
      case Got(u, rest) => Continue(AddUnknown(m, u), rest)
  }

  function CompositeUnusual(c: Composite, tag: nat, s: bytes, depth: nat): (r: Step<Composite>)
    ensures r.Continue? ==> |r.rest| <= |s|
  {
    if tag % 8 == WIRE_END_GROUP then Stop
    else
      match SkipField(tag, s, depth)
      case Malformed => Fail
      case Got(u, rest) => Continue(c.(unknown := c.unknown + [u]), rest)
  }

  function ItemSwitch(m: Item, tag: nat, s: bytes, depth: nat): (r: Step<Item>)
    ensures r.Continue? ==> |r.rest| <= |s|
    decreases |s|, 1
  {
    if tag == TAG_TYPE then ReadType(m, s)
    else if tag == TAG_INT then ReadInt(m, s)
    else if tag == TAG_UINT then ReadUint(m, s)
    else if tag == TAG_DOUBLE then ReadDouble(m, s)
    else if tag == TAG_STR then ReadStr(m, s)
    else if tag == TAG_COMPOSITE then ReadComposite(m, s, depth)
    else ItemUnusual(m, tag, s, depth)
  }

  function CompositeSwitch(c: Composite, tag: nat, s: bytes, depth: nat): (r: Step<Composite>)
    ensures r.Continue? ==> |r.rest| <= |s|
    decreases |s|, 1
  {
    if tag == TAG_PARAM then ReadParam(c, s, depth) else CompositeUnusual(c, tag, s, depth)
  }

  /** The bare loop over an item: read a tag, take its switch branch, repeat. `depth` is the
      recursion budget that is left. */
  function ParseItem(m: Item, s: bytes, depth: nat): (r: Parsed<Item>)
    decreases |s|, 0
  {
    match ReadTag(s)
    case AtEnd => Done(m, true)
    case BadTag => Done(m, false)
    case TagIs(tag, rest) =>
      match ItemSwitch(m, tag, rest, depth)
      case Fail => Failed
      case Stop => Done(m, false)
      case Continue(m', rest') => ParseItem(m', rest', depth)
  }

  function ParseComposite(c: Composite, s: bytes, depth: nat): (r: Parsed<Composite>)
    decreases |s|, 0
  {
    match ReadTag(s)
    case AtEnd => Done(c, true)
    case BadTag => Done(c, false)
    case TagIs(tag, rest) =>
      match CompositeSwitch(c, tag, rest, depth)
      case Fail => Failed
      case Stop => Done(c, false)
      case Continue(c', rest') => ParseComposite(c', rest', depth)
  }

  // ----- well-formed messages -----

  /** A record an item's parser leaves among the unknown fields: its tag is none of the six, or
      it is field 1 with a value outside the enumeration. */
  predicate ItemSkips(u: Unknown) {
    || u.Tag() !in {TAG_TYPE, TAG_INT, TAG_UINT, TAG_DOUBLE, TAG_STR, TAG_COMPOSITE}
    || (&& u.UVarint? && u.num == 1
        && !IsParamType(ToInt32(u.value)) && u.value == SignExtend(ToInt32(u.value)))
  }

  predicate CompositeSkips(u: Unknown) { u.Tag() != TAG_PARAM }

  /** Unknown records are ones the parser would skip, and nesting fits a recursion budget of `depth`. */
  predicate ItemOk(n: Item, depth: nat)
    decreases n
  {
    && (n.compositeVal.Some? ==> depth >= 1 && CompositeOk(n.compositeVal.value, depth - 1))
    && UnknownsOk(n.unknown, depth) && forall u | u in n.unknown :: ItemSkips(u)
  }

  predicate CompositeOk(c: Composite, depth: nat)
    decreases c
  {
    && ParamsOk(c.param, depth)
    && UnknownsOk(c.unknown, depth) && forall u | u in c.unknown :: CompositeSkips(u)
  }

  predicate ParamsOk(ps: seq<Item>, depth: nat)
    decreases ps
  {
    ps != [] ==> depth >= 1 && ItemOk(ps[0], depth - 1) && ParamsOk(ps[1..], depth)
  }
}
