/** The two translations between D-Bus values and the message items they travel in, on a little-endian
    machine. */
module Translation {
  import opened Common
  import opened Wire
  import opened PayloadCodec

  type int16 = v: int | -0x8000 <= v < 0x8000
  type uint16 = v: int | 0 <= v < 0x1_0000
  type uint32 = v: int | 0 <= v < 0x1_0000_0000

  /** D-Bus strings hold no zero byte. */
  type text = s: bytes | 0 !in s

  /** An array knows the signature of its elements, even when it has none. */
  datatype Kind = Array(elem: string) | Struct | Variant | DictEntry

  datatype TextKind = PlainText | ObjectPath | Signature

  /** `Foreign` is a value of any type the translation does not know, such as a file descriptor. */
  datatype Value =
    | Byte(octet: byte)
    | Boolean(flag: bool)
    | Int16(n16: int16)
    | UInt16(u16: uint16)
    | Int32(n32: int32)
    | UInt32(u32: uint32)
    | Int64(n64: int64)
    | UInt64(u64: uint64)
    | Double(raw: raw64)
    | Text(what: TextKind, chars: text)
    | Container(kind: Kind, children: seq<Value>)
    | Foreign

  /** Without 64-bit integers: the way out reads those into a variable that is too small. */
  predicate Narrow(v: Value) {
    match v
    case Int64(_) => false
    case UInt64(_) => false
    case Container(_, cs) => forall c | c in cs :: Narrow(c)
    case _ => true
  }

  // ----- from a D-Bus value to an item -----

  function KindType(k: Kind): ParamType {
    match k case Array(_) => 13 case Struct => 14 case Variant => 15 case DictEntry => 16
  }

  function TextType(t: TextKind): ParamType { match t case PlainText => 10 case ObjectPath => 11 case Signature => 12 }

  /** `size` bytes of `v`, low ones first, read into a zeroed 32-bit variable: no sign is carried over. */
  function LowBytes(v: int, size: nat): uint32
    requires size == 1 || size == 2 || size == 4
  {
    v % (if size == 1 then 0x100 else if size == 2 then 0x1_0000 else 0x1_0000_0000)
  }

  function IntItem(t: ParamType, v: int, size: nat): Item
    requires size == 1 || size == 2 || size == 4
  {
    EMPTY_ITEM.(typ := Some(t), intVal := Some(ToInt32(LowBytes(v, size))))
  }

  function UintItem(t: ParamType, v: int, size: nat): Item
    requires size == 1 || size == 2 || size == 4
  {
    EMPTY_ITEM.(typ := Some(t), uintVal := Some(LowBytes(v, size)))
  }

  /** An empty container leaves the composite unset. */
  function ContainerItem(k: Kind, params: seq<Item>): Item {
    EMPTY_ITEM.(typ := Some(KindType(k)), compositeVal := if params == [] then None else Some(Composite(params, [])))
  }

  function ToItem(v: Value): Item
    requires Narrow(v)
    decreases v
  {
    match v
    case Byte(b) => IntItem(1, b, 1)
    case Boolean(b) => IntItem(2, if b then 1 else 0, 4)
    case Int16(n) => IntItem(3, n, 2)
    case UInt16(n) => UintItem(4, n, 2)
    case Int32(n) => IntItem(5, n, 4)
    case UInt32(n) => UintItem(6, n, 4)
    case Double(d) => EMPTY_ITEM.(typ := Some(9), doubleVal := Some(d))
    case Text(t, s) => EMPTY_ITEM.(typ := Some(TextType(t)), strVal := Some(s))
    case Container(k, cs) => ContainerItem(k, ToItems(cs))
    case Foreign => EMPTY_ITEM.(typ := Some(0))
  }

  function ToItems(cs: seq<Value>): (r: seq<Item>)
    requires forall c | c in cs :: Narrow(c)
    ensures |r| == |cs|
    decreases cs
  {
    if cs == [] then [] else [ToItem(cs[0])] + ToItems(cs[1..])
  }

  // ----- signatures -----

  /** The signature of a value ("Type System" of the D-Bus Specification). */
  function SignatureOf(v: Value): (r: string)
    ensures r != ""
    decreases v
  {
    match v
    case Byte(_) => "y"
    case Boolean(_) => "b"
    case Int16(_) => "n"
    case UInt16(_) => "q"
    case Int32(_) => "i"
    case UInt32(_) => "u"
    case Int64(_) => "x"
    case UInt64(_) => "t"
    case Double(_) => "d"
    case Text(PlainText, _) => "s"
    case Text(ObjectPath, _) => "o"
    case Text(Signature, _) => "g"
    case Container(Array(elem), _) => "a" + elem
    case Container(Struct, cs) => "(" + SignatureOfAll(cs) + ")"
    case Container(Variant, _) => "v"
    case Container(DictEntry, cs) => "{" + SignatureOfAll(cs) + "}"
    case Foreign => "h"
  }

  function SignatureOfAll(vs: seq<Value>): string
    decreases vs
  {
    if vs == [] then "" else SignatureOf(vs[0]) + SignatureOfAll(vs[1..])
  }

  const BASIC_CODES := "ybnqiuxtdsogh"

  /** What the grammar of signatures is made of: a single complete type, what an array may hold, that is, a
      single complete type or a dictionary entry, and the members of a structure up to its end. */
  datatype Part = OneType | Element | Members

  /** What follows such a part at the front of `s`, if there is one. */
  function After(s: string, p: Part): (r: Option<string>)
    ensures r.Some? ==> |r.value| < |s|
    decreases |s|, if p.OneType? then 0 else 1
  {
    if s == "" then None
    else
      match p
      case OneType =>
        if s[0] in BASIC_CODES || s[0] == 'v' then Some(s[1..])
        else if s[0] == 'a' then After(s[1..], Element)
        else if s[0] != '(' then None
        else
          (match After(s[1..], OneType)
           case None => None
           case Some(t) => After(t, Members))
      case Members =>
        if s[0] == ')' then Some(s[1..])
        else
          (match After(s, OneType)
           case None => None
           case Some(t) => After(t, Members))
      case Element =>
        if s[0] != '{' then After(s, OneType)
        else if |s| < 2 || s[1] !in BASIC_CODES then None
        else
          match After(s[2..], OneType)
          case None => None
          case Some(t) => if t != "" && t[0] == '}' then Some(t[1..]) else None
  }

  /** A signature is a sequence of single complete types. */
  predicate IsSignature(s: string)
    decreases |s|
  {
    s != "" ==> After(s, OneType).Some? && IsSignature(After(s, OneType).value)
  }

  /** What the elements of an array are, of which libdbus is given the string `s`: the first type in it. A string
      that is no signature is refused, and gives nothing, but what follows a dictionary entry is not looked at. */
  function FirstType(s: string): string {
    match After(s, Element)
    case None => ""
    case Some(t) => if s[0] == '{' || IsSignature(t) then s[..|s| - |t|] else ""
  }

  // ----- from an item to D-Bus values -----

  function TypeOf(e: Item): ParamType { if e.typ.Some? then e.typ.value else 0 }

  function IntOf(e: Item): int64 { if e.intVal.Some? then e.intVal.value else 0 }

  function UintOf(e: Item): uint64 { if e.uintVal.Some? then e.uintVal.value else 0 }

  function DoubleOf(e: Item): raw64 { if e.doubleVal.Some? then e.doubleVal.value else [0, 0, 0, 0, 0, 0, 0, 0] }

  function TextOf(e: Item): text {
    CutKeeps(if e.strVal.Some? then e.strVal.value else []);
    Cut(if e.strVal.Some? then e.strVal.value else [])
  }

  function Params(e: Item): seq<Item> { if e.compositeVal.Some? then e.compositeVal.value.param else [] }

  function ToInt16(v: int): int16 {
    var low := v % 0x1_0000;
    if low < 0x8000 then low else low - 0x1_0000
  }

  /** What is appended for a basic item. libdbus refuses a boolean other than zero and one. */
  function Basic(e: Item): seq<Value> {
    match TypeOf(e)
    case 1 => [Byte(IntOf(e) % 0x100)]
    case 2 =>
      var b := ToInt32(SignExtend(IntOf(e)));
      if b == 0 then [Boolean(false)] else if b == 1 then [Boolean(true)] else []
    case 3 => [Int16(ToInt16(IntOf(e)))]
    case 4 => [UInt16(UintOf(e) % 0x1_0000)]
    case 5 => [Int32(ToInt32(SignExtend(IntOf(e))))]
    case 6 => [UInt32(UintOf(e) % 0x1_0000_0000)]
    case 7 => [Int64(IntOf(e))]
    case 8 => [UInt64(UintOf(e))]
    case 9 => [Double(DoubleOf(e))]
    case 10 => [Text(PlainText, TextOf(e))]
    case 11 => [Text(ObjectPath, TextOf(e))]
    case 12 => [Text(Signature, TextOf(e))]
    case _ => []
  }

  function GetSignatureType(e: Item): string {
    match TypeOf(e)
    case 1 => "y"
    case 2 => "b"
    case 3 => "n"
    case 4 => "q"
    case 5 => "i"
    case 6 => "u"
    case 7 => "x"
    case 8 => "t"
    case 9 => "d"
    case 10 => "s"
    case 11 => "o"
    case 12 => "g"
    case _ => ""
  }

  /** `modifySignature`: one character off the front of the message's signature, as long as there is an
      array in what is left. */
  function Erased(cursor: string): string { if 'a' in cursor then cursor[1..] else cursor }

  /** What translating an item does: libdbus refuses a container, or values are appended and the signature
      is left at a new place. */
  datatype Built = Refused | Built(values: seq<Value>, cursor: string)

  /** The container an item opens. An array is opened with what is left of the signature of the message, of which
      libdbus takes the first type. */
  function KindOf(t: ParamType, cursor: string): Option<Kind> {
    match t
    case 13 => Some(Array(FirstType(cursor)))
    case 14 => Some(Struct)
    case 15 => Some(Variant)
    case 16 => Some(DictEntry)
    case _ => None
  }

  predicate IsBasic(v: Value) { !v.Container? && !v.Foreign? }

  /** What D-Bus asks of a container: an array has a type of elements, and holds values of that type, a variant
      exactly one value of the type it was opened with, which the code takes from the first item, a structure is
      not empty, and an entry is a basic key and a value. */
  predicate Admits(k: Kind, params: seq<Item>, values: seq<Value>) {
    match k
    case Array(elem) => elem != "" && forall v | v in values :: SignatureOf(v) == elem
    case Variant => params != [] && |values| == 1 && SignatureOf(values[0]) == GetSignatureType(params[0])
    case Struct => values != []
    case DictEntry => |values| == 2 && IsBasic(values[0])
  }

  function Closed(k: Kind, params: seq<Item>, inner: Built): Built {
    if inner.Built? && Admits(k, params, inner.values) then Built([Container(k, inner.values)], inner.cursor)
    else Refused
  }

  /** What an item appends to the D-Bus message: one value, or nothing. */
  function Appended(e: Item, cursor: string): Built
    decreases e
  {
    var c := Erased(cursor);
    match KindOf(TypeOf(e), c)
    case None => Built(Basic(e), c)
    case Some(k) =>
      Closed(k, Params(e), if e.compositeVal.Some? then AppendedAll(e.compositeVal.value.param, c) else Built([], c))
  }

  function AppendedAll(ps: seq<Item>, cursor: string): Built
    decreases ps
  {
    if ps == [] then Built([], cursor)
    else
      match Appended(ps[0], cursor)
      case Refused => Refused
      case Built(first, c) =>
        match AppendedAll(ps[1..], c)
        case Refused => Refused
        case Built(rest, d) => Built(first + rest, d)
  }
}
