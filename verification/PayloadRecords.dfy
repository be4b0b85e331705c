/** The payload messages as records of the wire: which field numbers and which wire types their fields travel
    under, and what each record does to a message that is parsed. */
module PayloadRecords {
  import opened Common
  import opened Wire
  import opened WireFormat
  import opened PayloadCodec
  import PayloadTheorems

  function Bits(v: int64): uint64 { if v < 0 then v + 0x1_0000_0000_0000_0000 else v }

  /** The records of an item, in order: type, integer, unsigned integer, double, string, composite, and what is
      unknown. */
  function Records(n: Item): seq<Unknown>
    decreases n
  {
    (if n.typ.Some? then [UVarint(1, n.typ.value)] else [])
    + (if n.intVal.Some? then [UVarint(2, Bits(n.intVal.value))] else [])
    + (if n.uintVal.Some? then [UVarint(3, n.uintVal.value)] else [])
    + (if n.doubleVal.Some? then [UFixed64(4, n.doubleVal.value)] else [])
    + (if n.strVal.Some? then [ULength(5, n.strVal.value)] else [])
    + (if n.compositeVal.Some? then [ULength(6, RecordsBytes(CompositeRecords(n.compositeVal.value)))] else [])
    + n.unknown
  }

  /** Those of a composite: its parameters, one by one, and what is unknown. */
  function CompositeRecords(c: Composite): seq<Unknown>
    decreases c
  {
    ParamRecords(c.param) + c.unknown
  }

  function ParamRecords(ps: seq<Item>): seq<Unknown>
    decreases ps
  {
    if ps == [] then [] else [ULength(1, RecordsBytes(Records(ps[0])))] + ParamRecords(ps[1..])
  }

  // ----- writing -----

  lemma {:induction false} RecordsJoin(us: seq<Unknown>, vs: seq<Unknown>)
    ensures RecordsBytes(us + vs) == RecordsBytes(us) + RecordsBytes(vs)
    decreases us
  {
    hide RecordBytes;
    if us == [] {
      assert us + vs == vs;
    } else {
      assert (us + vs)[0] == us[0] && (us + vs)[1..] == us[1..] + vs;
      RecordsJoin(us[1..], vs);
    }
  }

  lemma OneRecord(u: Unknown)
    ensures RecordsBytes([u]) == RecordBytes(u)
  {
    assert [u][1..] == [];
    assert RecordBytes(u) + [] == RecordBytes(u);
    hide RecordBytes;
  }

  lemma ScalarRecords(n: Item)
    ensures TypeField(n) == RecordsBytes(if n.typ.Some? then [UVarint(1, n.typ.value)] else [])
    ensures IntField(n) == RecordsBytes(if n.intVal.Some? then [UVarint(2, Bits(n.intVal.value))] else [])
    ensures UintField(n) == RecordsBytes(if n.uintVal.Some? then [UVarint(3, n.uintVal.value)] else [])
    ensures DoubleField(n) == RecordsBytes(if n.doubleVal.Some? then [UFixed64(4, n.doubleVal.value)] else [])
    ensures StrField(n) == RecordsBytes(if n.strVal.Some? then [ULength(5, n.strVal.value)] else [])
  {
    if n.typ.Some? { OneRecord(UVarint(1, n.typ.value)); }
    if n.intVal.Some? { OneRecord(UVarint(2, Bits(n.intVal.value))); }
    if n.uintVal.Some? { OneRecord(UVarint(3, n.uintVal.value)); }
    if n.doubleVal.Some? { OneRecord(UFixed64(4, n.doubleVal.value)); }
    if n.strVal.Some? { OneRecord(ULength(5, n.strVal.value)); }
    hide Varint;
  }

  lemma SevenJoin(a: seq<Unknown>, b: seq<Unknown>, c: seq<Unknown>, d: seq<Unknown>, e: seq<Unknown>,
                  f: seq<Unknown>, g: seq<Unknown>)
    ensures RecordsBytes(a + b + c + d + e + f + g)
         == RecordsBytes(a) + (RecordsBytes(b) + (RecordsBytes(c) + (RecordsBytes(d) + (RecordsBytes(e)
            + (RecordsBytes(f) + RecordsBytes(g))))))
  {
    hide RecordsBytes;
    RecordsJoin(f, g);
    RecordsJoin(e, f + g);
    RecordsJoin(d, e + (f + g));
    RecordsJoin(c, d + (e + (f + g)));
    RecordsJoin(b, c + (d + (e + (f + g))));
    RecordsJoin(a, b + (c + (d + (e + (f + g)))));
    assert a + b + c + d + e + f + g == a + (b + (c + (d + (e + (f + g)))));
  }

  /** An item is written as its records. */
  lemma {:induction false} ItemFormat(n: Item)
    ensures SerializeItem(n) == RecordsBytes(Records(n))
    decreases n
  {
    var f := if n.compositeVal.Some? then [ULength(6, RecordsBytes(CompositeRecords(n.compositeVal.value)))] else [];
    assert CompositeField(n) == RecordsBytes(f) by {
      if n.compositeVal.Some? {
        CompositeFormat(n.compositeVal.value);
        OneRecord(f[0]);
      }
      hide SerializeComposite, CompositeRecords, Varint;
    }
    ScalarRecords(n);
    RecordsFormat(n.unknown);
    hide RecordsBytes, CompositeRecords, SerializeUnknowns;
    hide CompositeField, TypeField, IntField, UintField, DoubleField, StrField;
    SevenJoin(if n.typ.Some? then [UVarint(1, n.typ.value)] else [],
              if n.intVal.Some? then [UVarint(2, Bits(n.intVal.value))] else [],
              if n.uintVal.Some? then [UVarint(3, n.uintVal.value)] else [],
              if n.doubleVal.Some? then [UFixed64(4, n.doubleVal.value)] else [],
              if n.strVal.Some? then [ULength(5, n.strVal.value)] else [], f, n.unknown);
  }

  /** So is a composite. */
  lemma {:induction false} CompositeFormat(c: Composite)
    ensures SerializeComposite(c) == RecordsBytes(CompositeRecords(c))
    decreases c
  {
    ParamsFormat(c.param);
    RecordsFormat(c.unknown);
    RecordsJoin(ParamRecords(c.param), c.unknown);
    hide RecordsBytes, SerializeUnknowns, SerializeParams, ParamRecords;
  }

  lemma ThreeBytes(a: bytes, b: bytes, c: bytes)
    ensures a + (b + c) == (a + b) + c
  {
  }

  lemma {:induction false} ParamsFormat(ps: seq<Item>)
    ensures SerializeParams(ps) == RecordsBytes(ParamRecords(ps))
    decreases ps
  {
    if ps != [] {
      var u := ULength(1, RecordsBytes(Records(ps[0])));
      ItemFormat(ps[0]);
      ParamsFormat(ps[1..]);
      OneRecord(u);
      RecordsJoin([u], ParamRecords(ps[1..]));
      assert RecordBytes(u) == Varint(10) + LengthDelimited(SerializeItem(ps[0]));
      hide RecordsBytes, RecordBytes, SerializeItem, Records, LengthDelimited, Varint;
      ThreeBytes(Varint(10), LengthDelimited(SerializeItem(ps[0])), SerializeParams(ps[1..]));
    }
  }

  // ----- reading -----

  /** What a record makes of an item that is being parsed, or nothing if it spoils the parse. */
  function ItemAfter(m: Item, u: Unknown, depth: nat): Option<Item> {
    match u
    case UVarint(1, v) =>
      var e := ToInt32(v);
      Some(if 0 <= e <= 17 then m.(typ := Some(e)) else m.(unknown := m.unknown + [UVarint(1, Bits(e))]))
    case UVarint(2, v) => Some(m.(intVal := Some(ToInt64(v % 0x1_0000_0000_0000_0000))))
    case UVarint(3, v) => Some(m.(uintVal := Some(v % 0x1_0000_0000_0000_0000)))
    case UFixed64(4, raw) => if |raw| == 8 then Some(m.(doubleVal := Some(raw))) else None
    case ULength(5, raw) => Some(m.(strVal := Some(raw)))
    case ULength(6, raw) =>
      if depth == 0 then None
      else
        (match ParseComposite(if m.compositeVal.Some? then m.compositeVal.value else Composite([], []), raw, depth - 1)
         case Failed => None
         case Done(c, legit) => if legit then Some(m.(compositeVal := Some(c))) else None)
    case _ => Some(m.(unknown := m.unknown + [u]))
  }

  lemma VarintTakes(m: Item, u: Unknown, s: bytes, depth: nat)
    requires UnknownOk(u, depth) && u.UVarint?
    ensures ItemSwitch(m, u.Tag(), UnknownBody(u) + s, depth) ==
            match ItemAfter(m, u, depth) case None => Step.Fail case Some(n) => Continue(n, s)
  {
    TagParts(u, depth);
    SkipRoundTrip(u, s, depth);
    VarintRoundTrip(u.value, s);
    LowBits(u.value);
    assert u.Tag() == 8 * u.num && u.Tag() % 8 == 0 && u.value % 0x1_0000_0000_0000_0000 == u.value;
    hide UnknownOk, UnknownBody, SkipField, ParseComposite;
    hide Varint, ReadVarint32, ReadVarint64, ToInt32, ToInt64, ReadLengthDelimited;
  }

  lemma ItemSwitchTakes(m: Item, u: Unknown, s: bytes, depth: nat)
    requires UnknownOk(u, depth)
    ensures ItemSwitch(m, u.Tag(), UnknownBody(u) + s, depth) ==
            match ItemAfter(m, u, depth) case None => Step.Fail case Some(n) => Continue(n, s)
  {
    if u.UVarint? {
      VarintTakes(m, u, s, depth);
    } else {
      TagParts(u, depth);
      SkipRoundTrip(u, s, depth);
      if u.UFixed64? {
        FixedRoundTrip(u.raw, s);
      } else if u.ULength? {
        LengthDelimitedRoundTrip(u.raw, s);
      }
    }
    hide ParseComposite, SkipField, Varint, ReadVarint32, ReadVarint64, ToInt32;
    hide ReadLengthDelimited, ReadFixed, LengthDelimited;
  }

  lemma LowBits(u: nat)
    ensures ToInt32(u % TWO_32) == ToInt32(u)
  {
  }

  /** Any record the wire can carry, at the front of what is parsed, does just that. */
  lemma ItemReads(m: Item, u: Unknown, s: bytes, depth: nat)
    requires UnknownOk(u, depth)
    ensures ParseItem(m, RecordBytes(u) + s, depth) ==
            match ItemAfter(m, u, depth) case None => Failed case Some(n) => ParseItem(n, s, depth)
  {
    RecordFormat(u);
    SerializeUnknownSplit(u, s);
    TagParts(u, depth);
    ItemSwitchTakes(m, u, s, depth);
    hide *;
    PayloadTheorems.ItemTurn(m, u.Tag(), UnknownBody(u) + s, depth);
  }

  /** What a record makes of a composite. */
  function CompositeAfter(c: Composite, u: Unknown, depth: nat): Option<Composite> {
    match u
    case ULength(1, raw) =>
      if depth == 0 then None
      else
        (match ParseItem(Item(None, None, None, None, None, None, []), raw, depth - 1)
         case Failed => None
         case Done(i, legit) => if legit then Some(c.(param := c.param + [i])) else None)
    case _ => Some(c.(unknown := c.unknown + [u]))
  }

  lemma CompositeSwitchTakes(c: Composite, u: Unknown, s: bytes, depth: nat)
    requires UnknownOk(u, depth)
    ensures CompositeSwitch(c, u.Tag(), UnknownBody(u) + s, depth) ==
            match CompositeAfter(c, u, depth) case None => Step.Fail case Some(d) => Continue(d, s)
  {
    TagParts(u, depth);
    SkipRoundTrip(u, s, depth);
    if u.ULength? {
      LengthDelimitedRoundTrip(u.raw, s);
    }
    hide ParseItem, SkipField, Varint, ReadLengthDelimited, LengthDelimited;
  }

  lemma CompositeReads(c: Composite, u: Unknown, s: bytes, depth: nat)
    requires UnknownOk(u, depth)
    ensures ParseComposite(c, RecordBytes(u) + s, depth) ==
            match CompositeAfter(c, u, depth) case None => Failed case Some(d) => ParseComposite(d, s, depth)
  {
    RecordFormat(u);
    SerializeUnknownSplit(u, s);
    TagParts(u, depth);
    CompositeSwitchTakes(c, u, s, depth);
    hide *;
    PayloadTheorems.CompositeTurn(c, u.Tag(), UnknownBody(u) + s, depth);
  }

  /** A message ends at the end of its bytes; a zero tag and the tag of an end of group end it too, but not as a
      message should. */
  lemma MessagesEnd(m: Item, c: Composite, n: nat, s: bytes, depth: nat)
    requires n == 0 || (n % 8 == 4 && n < 0x1_0000_0000)
    ensures ParseItem(m, [], depth) == Done(m, true) && ParseComposite(c, [], depth) == Done(c, true)
    ensures ParseItem(m, Varint(n) + s, depth) == Done(m, false)
    ensures ParseComposite(c, Varint(n) + s, depth) == Done(c, false)
  {
    VarintRoundTrip(n, s);
    assert Varint(n) + s != [];
    hide ReadVarint32, Varint;
  }
}
