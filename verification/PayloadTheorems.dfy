/** What the payload codec promises: parsing what was serialised merges it, and whatever
    parses serialises to bytes that parse to the same message. */
module PayloadTheorems {
  import opened Wire
  import opened PayloadCodec

  // ----- one field at a time -----

  lemma ItemTurn(m: Item, tag: nat, after: bytes, depth: nat)
    requires 0 < tag < TWO_32
    ensures ParseItem(m, Varint(tag) + after, depth) ==
            match ItemSwitch(m, tag, after, depth)
            case Fail => Failed
            case Stop => Done(m, false)
            case Continue(m', rest) => ParseItem(m', rest, depth)
  {
    ReadTagRoundTrip(tag, after);
  }

  lemma CompositeTurn(c: Composite, tag: nat, after: bytes, depth: nat)
    requires 0 < tag < TWO_32
    ensures ParseComposite(c, Varint(tag) + after, depth) ==
            match CompositeSwitch(c, tag, after, depth)
            case Fail => Failed
            case Stop => Done(c, false)
            case Continue(c', rest) => ParseComposite(c', rest, depth)
  {
    ReadTagRoundTrip(tag, after);
  }

  lemma TypeFieldParses(m: Item, n: Item, rest: bytes, depth: nat)
    ensures ParseItem(m, TypeField(n) + rest, depth) == ParseItem(m.(typ := Newer(m.typ, n.typ)), rest, depth)
  {
    if n.typ.Some? {
      var v := n.typ.value;
      var after := Varint(SignExtend(v)) + rest;
      assert TypeField(n) + rest == Varint(TAG_TYPE) + after;
      ItemTurn(m, TAG_TYPE, after, depth);
      VarintRoundTrip(SignExtend(v), rest);
    } else {
      assert TypeField(n) + rest == rest;
    }
  }

  lemma IntFieldParses(m: Item, n: Item, rest: bytes, depth: nat)
    ensures ParseItem(m, IntField(n) + rest, depth) == ParseItem(m.(intVal := Newer(m.intVal, n.intVal)), rest, depth)
  {
    if n.intVal.Some? {
      var after := Varint(SignExtend(n.intVal.value)) + rest;
      assert IntField(n) + rest == Varint(TAG_INT) + after;
      ItemTurn(m, TAG_INT, after, depth);
      VarintRoundTrip(SignExtend(n.intVal.value), rest);
    } else {
      assert IntField(n) + rest == rest;
    }
  }

  lemma UintFieldParses(m: Item, n: Item, rest: bytes, depth: nat)
    ensures ParseItem(m, UintField(n) + rest, depth) == ParseItem(m.(uintVal := Newer(m.uintVal, n.uintVal)), rest, depth)
  {
    if n.uintVal.Some? {
      var after := Varint(n.uintVal.value) + rest;
      assert UintField(n) + rest == Varint(TAG_UINT) + after;
      ItemTurn(m, TAG_UINT, after, depth);
      VarintRoundTrip(n.uintVal.value, rest);
    } else {
      assert UintField(n) + rest == rest;
    }
  }

  lemma DoubleFieldParses(m: Item, n: Item, rest: bytes, depth: nat)
    ensures ParseItem(m, DoubleField(n) + rest, depth)
         == ParseItem(m.(doubleVal := Newer(m.doubleVal, n.doubleVal)), rest, depth)
  {
    if n.doubleVal.Some? {
      var after := n.doubleVal.value + rest;
      assert DoubleField(n) + rest == Varint(TAG_DOUBLE) + after;
      ItemTurn(m, TAG_DOUBLE, after, depth);
      FixedRoundTrip(n.doubleVal.value, rest);
    } else {
      assert DoubleField(n) + rest == rest;
    }
  }

  lemma StrFieldParses(m: Item, n: Item, rest: bytes, depth: nat)
    requires n.strVal.Some? ==> |n.strVal.value| < TWO_31
    ensures ParseItem(m, StrField(n) + rest, depth) == ParseItem(m.(strVal := Newer(m.strVal, n.strVal)), rest, depth)
  {
    if n.strVal.Some? {
      var after := LengthDelimited(n.strVal.value) + rest;
      assert StrField(n) + rest == Varint(TAG_STR) + after;
      ItemTurn(m, TAG_STR, after, depth);
      LengthDelimitedRoundTrip(n.strVal.value, rest);
    } else {
      assert StrField(n) + rest == rest;
    }
  }

  lemma {:induction false} CompositeFieldParses(m: Item, n: Item, rest: bytes, depth: nat)
    requires ItemOk(n, depth) && |CompositeField(n)| < TWO_31
    ensures ParseItem(m, CompositeField(n) + rest, depth)
         == ParseItem(m.(compositeVal := MergeItem(m, n).compositeVal), rest, depth)
    decreases n, 0
  {
    if n.compositeVal.Some? {
      var c := n.compositeVal.value;
      var payload := SerializeComposite(c);
      var after := LengthDelimited(payload) + rest;
      assert CompositeField(n) + rest == Varint(TAG_COMPOSITE) + after;
      ItemTurn(m, TAG_COMPOSITE, after, depth);
      LengthDelimitedRoundTrip(payload, rest);
      CompositeMerges(Sub(m), c, [], depth - 1);
      assert payload + [] == payload;
    } else {
      assert CompositeField(n) + rest == rest;
    }
  }

  lemma {:induction false} ItemUnknownsParse(m: Item, us: seq<Unknown>, rest: bytes, depth: nat)
    requires UnknownsOk(us, depth) && forall u | u in us :: ItemSkips(u)
    ensures ParseItem(m, SerializeUnknowns(us) + rest, depth)
         == ParseItem(m.(unknown := m.unknown + us), rest, depth)
    decreases us
  {
    hide ParseItem, UnknownOk;
    if us == [] {
      assert SerializeUnknowns(us) + rest == rest;
      assert m.unknown + us == m.unknown;
    } else {
      var u, tail := us[0], SerializeUnknowns(us[1..]) + rest;
      assert us == [u] + us[1..];
      GroupSplit(u, us[1..], rest);
      ItemUnknownParses(m, u, tail, depth);
      ItemUnknownsParse(AddUnknown(m, u), us[1..], rest, depth);
      assert m.unknown + [u] + us[1..] == m.unknown + us;
    }
  }

  lemma ItemUnknownParses(m: Item, u: Unknown, rest: bytes, depth: nat)
    requires UnknownOk(u, depth) && ItemSkips(u)
    ensures ParseItem(m, SerializeUnknown(u) + rest, depth) == ParseItem(AddUnknown(m, u), rest, depth)
  {
    TagParts(u, depth);
    SerializeUnknownSplit(u, rest);
    SkipRoundTrip(u, rest, depth);
    ItemTurn(m, u.Tag(), UnknownBody(u) + rest, depth);
    if u.Tag() == TAG_TYPE {
      VarintRoundTrip(u.value, rest);
      assert ToInt32(u.value % TWO_32) == ToInt32(u.value);
    }
  }

  lemma CompositeUnknownParses(c: Composite, u: Unknown, rest: bytes, depth: nat)
    requires UnknownOk(u, depth) && CompositeSkips(u)
    ensures ParseComposite(c, SerializeUnknown(u) + rest, depth)
         == ParseComposite(c.(unknown := c.unknown + [u]), rest, depth)
  {
    TagParts(u, depth);
    SerializeUnknownSplit(u, rest);
    SkipRoundTrip(u, rest, depth);
    CompositeTurn(c, u.Tag(), UnknownBody(u) + rest, depth);
  }

  lemma {:induction false} CompositeUnknownsParse(c: Composite, us: seq<Unknown>, rest: bytes, depth: nat)
    requires UnknownsOk(us, depth) && forall u | u in us :: CompositeSkips(u)
    ensures ParseComposite(c, SerializeUnknowns(us) + rest, depth)
         == ParseComposite(c.(unknown := c.unknown + us), rest, depth)
    decreases us
  {
    hide ParseComposite, UnknownOk;
    if us == [] {
      assert SerializeUnknowns(us) + rest == rest;
      assert c.unknown + us == c.unknown;
    } else {
      var u, tail := us[0], SerializeUnknowns(us[1..]) + rest;
      assert us == [u] + us[1..];
      GroupSplit(u, us[1..], rest);
      CompositeUnknownParses(c, u, tail, depth);
      CompositeUnknownsParse(c.(unknown := c.unknown + [u]), us[1..], rest, depth);
      assert c.unknown + [u] + us[1..] == c.unknown + us;
    }
  }

  lemma {:induction false} ParamParses(c: Composite, p: Item, rest: bytes, depth: nat)
    requires depth >= 1 && ItemOk(p, depth - 1) && |SerializeItem(p)| < TWO_31
    ensures ParseComposite(c, Varint(TAG_PARAM) + (LengthDelimited(SerializeItem(p)) + rest), depth)
         == ParseComposite(c.(param := c.param + [p]), rest, depth)
    decreases p, 2
  {
    var payload := SerializeItem(p);
    var after := LengthDelimited(payload) + rest;
    CompositeTurn(c, TAG_PARAM, after, depth);
    LengthDelimitedRoundTrip(payload, rest);
    ItemMerges(EMPTY_ITEM, p, [], depth - 1);
    MergeIntoEmpty(p);
    assert payload + [] == payload;
  }

  lemma ParamsSplit(p: Item, ps: seq<Item>, rest: bytes)
    ensures SerializeParams([p] + ps) + rest
         == Varint(TAG_PARAM) + (LengthDelimited(SerializeItem(p)) + (SerializeParams(ps) + rest))
  {
    assert ([p] + ps)[1..] == ps;
    Assoc(LengthDelimited(SerializeItem(p)), SerializeParams(ps), rest);
    Assoc(Varint(TAG_PARAM), LengthDelimited(SerializeItem(p)) + SerializeParams(ps), rest);
  }

  lemma {:induction false} ParamsParse(c: Composite, ps: seq<Item>, rest: bytes, depth: nat)
    requires ParamsOk(ps, depth) && |SerializeParams(ps)| < TWO_31
    ensures ParseComposite(c, SerializeParams(ps) + rest, depth)
         == ParseComposite(c.(param := c.param + ps), rest, depth)
    decreases ps, 0
  {
    hide ParseComposite, ParseItem, SerializeItem, ItemOk;
    if ps == [] {
      assert SerializeParams(ps) + rest == rest;
      assert c.param + ps == c.param;
    } else {
      assert ps == [ps[0]] + ps[1..];
      ParamsSplit(ps[0], ps[1..], rest);
      ParamParses(c, ps[0], SerializeParams(ps[1..]) + rest, depth);
      ParamsParse(c.(param := c.param + [ps[0]]), ps[1..], rest, depth);
      assert c.param + [ps[0]] + ps[1..] == c.param + ps;
    }
  }

  lemma MergeIntoEmpty(n: Item)
    ensures MergeItem(EMPTY_ITEM, n) == n
  {
    assert [] + n.unknown == n.unknown;
    if n.compositeVal.Some? {
      var c := n.compositeVal.value;
      assert [] + c.param == c.param && [] + c.unknown == c.unknown;
    }
  }

  // ----- the merge law -----

  lemma Assoc(a: bytes, b: bytes, c: bytes)
    ensures (a + b) + c == a + (b + c)
  {
  }

  lemma SerializeItemSplit(n: Item, rest: bytes)
    ensures SerializeItem(n) + rest
         == TypeField(n) + (IntField(n) + (UintField(n) + (DoubleField(n) + (StrField(n)
            + (CompositeField(n) + (SerializeUnknowns(n.unknown) + rest))))))
  {
    var s6 := SerializeUnknowns(n.unknown);
    var s5 := CompositeField(n) + s6;
    var s4 := StrField(n) + s5;
    var s3 := DoubleField(n) + s4;
    var s2 := UintField(n) + s3;
    Assoc(CompositeField(n), s6, rest);
    Assoc(StrField(n), s5, rest);
    Assoc(DoubleField(n), s4, rest);
    Assoc(UintField(n), s3, rest);
    Assoc(IntField(n), s2, rest);
    Assoc(TypeField(n), IntField(n) + s2, rest);
  }

  /** Parsing the bytes of `n` into a message that already holds `m` merges `n` into it and
      goes on with exactly the bytes after them. */
  lemma {:induction false} ItemMerges(m: Item, n: Item, rest: bytes, depth: nat)
    requires ItemOk(n, depth) && |SerializeItem(n)| < TWO_31
    ensures ParseItem(m, SerializeItem(n) + rest, depth) == ParseItem(MergeItem(m, n), rest, depth)
    decreases n, 1
  {
    SerializeItemSplit(n, rest);
    var r6 := SerializeUnknowns(n.unknown) + rest;
    var r5 := CompositeField(n) + r6;
    var r4 := StrField(n) + r5;
    var r3 := DoubleField(n) + r4;
    var r2 := UintField(n) + r3;
    TypeFieldParses(m, n, IntField(n) + r2, depth);
    var m1 := m.(typ := Newer(m.typ, n.typ));
    IntFieldParses(m1, n, r2, depth);
    var m2 := m1.(intVal := Newer(m.intVal, n.intVal));
    UintFieldParses(m2, n, r3, depth);
    var m3 := m2.(uintVal := Newer(m.uintVal, n.uintVal));
    DoubleFieldParses(m3, n, r4, depth);
    var m4 := m3.(doubleVal := Newer(m.doubleVal, n.doubleVal));
    StrFieldParses(m4, n, r5, depth);
    var m5 := m4.(strVal := Newer(m.strVal, n.strVal));
    CompositeFieldParses(m5, n, r6, depth);
    var m6 := m5.(compositeVal := MergeItem(m, n).compositeVal);
    ItemUnknownsParse(m6, n.unknown, rest, depth);
  }

  lemma {:induction false} CompositeMerges(c: Composite, d: Composite, rest: bytes, depth: nat)
    requires CompositeOk(d, depth) && |SerializeComposite(d)| < TWO_31
    ensures ParseComposite(c, SerializeComposite(d) + rest, depth) == ParseComposite(MergeComposite(c, d), rest, depth)
    decreases d
  {
    var tail := SerializeUnknowns(d.unknown) + rest;
    Assoc(SerializeParams(d.param), SerializeUnknowns(d.unknown), rest);
    hide ParseComposite, SerializeParams, SerializeUnknowns, ParamsOk, UnknownsOk;
    ParamsParse(c, d.param, tail, depth);
    CompositeUnknownsParse(c.(param := c.param + d.param), d.unknown, rest, depth);
  }

  /** The full recursive round trip. */
  lemma ItemRoundTrip(n: Item, depth: nat)
    requires ItemOk(n, depth) && |SerializeItem(n)| < TWO_31
    ensures ParseItem(EMPTY_ITEM, SerializeItem(n), depth) == Done(n, true)
  {
    ItemMerges(EMPTY_ITEM, n, [], depth);
    MergeIntoEmpty(n);
    assert SerializeItem(n) + [] == SerializeItem(n);
  }

  /** Two serialised messages put end to end parse as the merge of the two. */
  lemma ConcatenationMerges(a: Item, b: Item, depth: nat)
    requires ItemOk(a, depth) && |SerializeItem(a)| < TWO_31
    requires ItemOk(b, depth) && |SerializeItem(b)| < TWO_31
    ensures ParseItem(EMPTY_ITEM, SerializeItem(a) + SerializeItem(b), depth) == Done(MergeItem(a, b), true)
  {
    ItemMerges(EMPTY_ITEM, a, SerializeItem(b), depth);
    MergeIntoEmpty(a);
    ItemMerges(a, b, [], depth);
    assert SerializeItem(b) + [] == SerializeItem(b);
  }

  // ----- every byte string -----

  lemma {:induction false} ItemTurnKeepsOk(m: Item, tag: nat, s: bytes, depth: nat)
    requires ItemOk(m, depth) && tag > 0
    requires ItemSwitch(m, tag, s, depth).Continue?
    ensures ItemOk(ItemSwitch(m, tag, s, depth).msg, depth)
    decreases |s|, 1
  {
    if tag == TAG_TYPE {
      var e := ToInt32(ReadVarint32(s).value);
      if !IsParamType(e) {
        ToInt32Inverts(e);
        UnknownsOkAppend(m.unknown, [UVarint(1, SignExtend(e))], depth);
      }
    } else if tag == TAG_COMPOSITE {
      CompositeParseKeepsOk(Sub(m), ReadLengthDelimited(s).value, depth - 1);
    } else if tag !in {TAG_INT, TAG_UINT, TAG_DOUBLE, TAG_STR} {
      SkippedOk(tag, s, depth);
      UnknownsOkAppend(m.unknown, [SkipField(tag, s, depth).value], depth);
    }
  }

  lemma {:induction false} ItemParseKeepsOk(m: Item, s: bytes, depth: nat)
    requires ItemOk(m, depth) && ParseItem(m, s, depth).Done?
    ensures ItemOk(ParseItem(m, s, depth).msg, depth)
    decreases |s|, 0
  {
    var t := ReadTag(s);
    if t.TagIs? {
      var r := ItemSwitch(m, t.tag, t.rest, depth);
      if r.Continue? {
        ItemTurnKeepsOk(m, t.tag, t.rest, depth);
        ItemParseKeepsOk(r.msg, r.rest, depth);
      }
    }
  }

  lemma {:induction false} ParamsOkAppend(ps: seq<Item>, i: Item, depth: nat)
    requires ParamsOk(ps, depth) && depth >= 1 && ItemOk(i, depth - 1)
    ensures ParamsOk(ps + [i], depth)
  {
    if ps != [] {
      ParamsOkAppend(ps[1..], i, depth);
      assert (ps + [i])[1..] == ps[1..] + [i];
    }
  }

  lemma {:induction false} CompositeParseKeepsOk(c: Composite, s: bytes, depth: nat)
    requires CompositeOk(c, depth) && ParseComposite(c, s, depth).Done?
    ensures CompositeOk(ParseComposite(c, s, depth).msg, depth)
    decreases |s|, 0
  {
    var t := ReadTag(s);
    if t.TagIs? {
      var r := CompositeSwitch(c, t.tag, t.rest, depth);
      if r.Continue? {
        CompositeTurnKeepsOk(c, t.tag, t.rest, depth);
        CompositeParseKeepsOk(r.msg, r.rest, depth);
      }
    }
  }

  lemma {:induction false} CompositeTurnKeepsOk(c: Composite, tag: nat, s: bytes, depth: nat)
    requires CompositeOk(c, depth) && tag > 0
    requires CompositeSwitch(c, tag, s, depth).Continue?
    ensures CompositeOk(CompositeSwitch(c, tag, s, depth).msg, depth)
    decreases |s|, 1
  {
    if tag == TAG_PARAM {
      var payload := ReadLengthDelimited(s).value;
      ItemParseKeepsOk(EMPTY_ITEM, payload, depth - 1);
      ParamsOkAppend(c.param, ParseItem(EMPTY_ITEM, payload, depth - 1).msg, depth);
    } else {
      SkippedOk(tag, s, depth);
      UnknownsOkAppend(c.unknown, [SkipField(tag, s, depth).value], depth);
    }
  }

  /** Whatever byte string parses, in or out of field order, with repeated, unknown or
      overlong fields: its message serialises to bytes that parse to that same message. */
  lemma ReparseIsStable(s: bytes, depth: nat)
    requires ParseItem(EMPTY_ITEM, s, depth).Done?
    requires |SerializeItem(ParseItem(EMPTY_ITEM, s, depth).msg)| < TWO_31
    ensures var n := ParseItem(EMPTY_ITEM, s, depth).msg;
            ParseItem(EMPTY_ITEM, SerializeItem(n), depth) == Done(n, true)
  {
    ItemParseKeepsOk(EMPTY_ITEM, s, depth);
    ItemRoundTrip(ParseItem(EMPTY_ITEM, s, depth).msg, depth);
  }
}
