/** What the header codec promises: the merge law and the stable re-encoding of every
    byte string that parses. */
module HeaderTheorems {
  import opened Wire
  import opened HeaderCodec

  lemma HeaderTurn(h: Header, tag: nat, after: bytes, depth: nat)
    requires 0 < tag < TWO_32
    ensures ParseHeader(h, Varint(tag) + after, depth) ==
            match HeaderSwitch(h, tag, after, depth)
            case Fail => Failed
            case Stop => Done(h, false)
            case Continue(h', rest) => ParseHeader(h', rest, depth)
  {
    ReadTagRoundTrip(tag, after);
  }

  lemma TagIsKnown(k: nat)
    requires 1 <= k <= LAST
    ensures TagOf(k) / 8 == k && IsKnown(TagOf(k)) && 0 < TagOf(k) < 0x4000
  {
  }

  // ----- one field at a time -----

  lemma ValueParses(h: Header, k: nat, v: Value, rest: bytes, depth: nat)
    requires 1 <= k <= LAST && ValueOk(k, v) && |ValueBytes(v)| < TWO_31
    ensures ParseHeader(h, (Varint(TagOf(k)) + ValueBytes(v)) + rest, depth) == ParseHeader(SetField(h, k, v), rest, depth)
  {
    TagIsKnown(k);
    var after := ValueBytes(v) + rest;
    assert (Varint(TagOf(k)) + ValueBytes(v)) + rest == Varint(TagOf(k)) + after;
    HeaderTurn(h, TagOf(k), after, depth);
    ValueReads(h, k, v, rest);
  }

  lemma ValueReads(h: Header, k: nat, v: Value, rest: bytes)
    requires ValueOk(k, v) && |ValueBytes(v)| < TWO_31
    ensures ReadField(h, k, ValueBytes(v) + rest) == Continue(SetField(h, k, v), rest)
  {
    hide ReadVarint32, ReadLengthDelimited, Varint, ToInt32;
    match v
    case Enum(e) =>
      VarintRoundTrip(e, rest);
      ToInt32Inverts(e);
    case Int32(i) =>
      VarintRoundTrip(SignExtend(i), rest);
      ToInt32Inverts(i);
      ToInt32OfLow(SignExtend(i));
    case Str(x) => LengthDelimitedRoundTrip(x, rest);
  }

  lemma ToInt32OfLow(u: nat)
    ensures ToInt32(u % TWO_32) == ToInt32(u)
  {
  }

  function WithStrings(h: Header, k: nat, xs: seq<bytes>): Header {
    if k == SENDER_ALIASES then h.(senderAliases := h.senderAliases + xs)
    else h.(receiverAliases := h.receiverAliases + xs)
  }

  lemma StringParses(h: Header, k: nat, x: bytes, rest: bytes, depth: nat)
    requires KindOf(k).KRepeated? && |x| < TWO_31
    ensures ParseHeader(h, (Varint(TagOf(k)) + LengthDelimited(x)) + rest, depth)
         == ParseHeader(WithStrings(h, k, [x]), rest, depth)
  {
    TagIsKnown(k);
    var after := LengthDelimited(x) + rest;
    assert (Varint(TagOf(k)) + LengthDelimited(x)) + rest == Varint(TagOf(k)) + after;
    HeaderTurn(h, TagOf(k), after, depth);
    LengthDelimitedRoundTrip(x, rest);
  }

  lemma {:induction false} StringsParse(h: Header, k: nat, xs: seq<bytes>, rest: bytes, depth: nat)
    requires KindOf(k).KRepeated? && |StringsBytes(k, xs)| < TWO_31
    ensures ParseHeader(h, StringsBytes(k, xs) + rest, depth) == ParseHeader(WithStrings(h, k, xs), rest, depth)
    decreases xs
  {
    hide ParseHeader, Varint;
    if xs == [] {
      assert StringsBytes(k, xs) + rest == rest;
      assert WithStrings(h, k, xs) == h;
    } else {
      var head, tail := Varint(TagOf(k)) + LengthDelimited(xs[0]), StringsBytes(k, xs[1..]) + rest;
      assert StringsBytes(k, xs) + rest == head + tail;
      StringParses(h, k, xs[0], tail, depth);
      StringsParse(WithStrings(h, k, [xs[0]]), k, xs[1..], rest, depth);
      assert xs == [xs[0]] + xs[1..];
      WithStringsTwice(h, k, [xs[0]], xs[1..]);
    }
  }

  lemma WithStringsTwice(h: Header, k: nat, xs: seq<bytes>, ys: seq<bytes>)
    ensures WithStrings(WithStrings(h, k, xs), k, ys) == WithStrings(h, k, xs + ys)
  {
    assert h.senderAliases + xs + ys == h.senderAliases + (xs + ys);
    assert h.receiverAliases + xs + ys == h.receiverAliases + (xs + ys);
  }

  lemma UnknownParses(h: Header, u: Unknown, rest: bytes, depth: nat)
    requires UnknownOk(u, depth) && HeaderSkips(u)
    ensures ParseHeader(h, SerializeUnknown(u) + rest, depth) == ParseHeader(AddUnknown(h, u), rest, depth)
  {
    TagParts(u, depth);
    SerializeUnknownSplit(u, rest);
    SkipRoundTrip(u, rest, depth);
    HeaderTurn(h, u.Tag(), UnknownBody(u) + rest, depth);
    if IsKnown(u.Tag()) {
      VarintRoundTrip(u.value, rest);
      ToInt32OfLow(u.value);
    }
  }

  lemma {:induction false} UnknownsParse(h: Header, us: seq<Unknown>, rest: bytes, depth: nat)
    requires UnknownsOk(us, depth) && forall u | u in us :: HeaderSkips(u)
    ensures ParseHeader(h, SerializeUnknowns(us) + rest, depth)
         == ParseHeader(h.(unknown := h.unknown + us), rest, depth)
    decreases us
  {
    hide ParseHeader, UnknownOk;
    if us == [] {
      assert SerializeUnknowns(us) + rest == rest;
      assert h.unknown + us == h.unknown;
    } else {
      var u, tail := us[0], SerializeUnknowns(us[1..]) + rest;
      assert us == [u] + us[1..];
      GroupSplit(u, us[1..], rest);
      UnknownParses(h, u, tail, depth);
      UnknownsParse(AddUnknown(h, u), us[1..], rest, depth);
      assert h.unknown + [u] + us[1..] == h.unknown + us;
    }
  }

  // ----- the merge law -----

  /** `h` after the field `k` of `g` has been merged in. */
  function MergeField(h: Header, g: Header, k: nat): Header {
    if k == SENDER_ALIASES then WithStrings(h, k, g.senderAliases)
    else if k == RECEIVER_ALIASES then WithStrings(h, k, g.receiverAliases)
    else if k in g.fields then SetField(h, k, g.fields[k])
    else h
  }

  function MergeFrom(h: Header, g: Header, k: nat): Header
    decreases LAST + 1 - k
  {
    if k > LAST then h.(unknown := h.unknown + g.unknown) else MergeFrom(MergeField(h, g, k), g, k + 1)
  }

  lemma FieldParses(h: Header, g: Header, k: nat, rest: bytes, depth: nat)
    requires 1 <= k <= LAST && HeaderOk(g, depth) && |FieldBytes(g, k)| < TWO_31
    ensures ParseHeader(h, FieldBytes(g, k) + rest, depth) == ParseHeader(MergeField(h, g, k), rest, depth)
  {
    if k == SENDER_ALIASES {
      StringsParse(h, k, g.senderAliases, rest, depth);
    } else if k == RECEIVER_ALIASES {
      StringsParse(h, k, g.receiverAliases, rest, depth);
    } else if k in g.fields {
      ValueParses(h, k, g.fields[k], rest, depth);
    } else {
      assert FieldBytes(g, k) + rest == rest;
    }
  }

  lemma {:induction false} FieldsParse(h: Header, g: Header, k: nat, rest: bytes, depth: nat)
    requires 1 <= k <= LAST + 1 && HeaderOk(g, depth) && |SerializeFrom(g, k)| < TWO_31
    ensures ParseHeader(h, SerializeFrom(g, k) + rest, depth) == ParseHeader(MergeFrom(h, g, k), rest, depth)
    decreases LAST + 1 - k
  {
    hide ParseHeader, FieldBytes, MergeField;
    if k > LAST {
      UnknownsParse(h, g.unknown, rest, depth);
    } else {
      var tail := SerializeFrom(g, k + 1) + rest;
      assert SerializeFrom(g, k) + rest == FieldBytes(g, k) + tail;
      FieldParses(h, g, k, tail, depth);
      FieldsParse(MergeField(h, g, k), g, k + 1, rest, depth);
    }
  }

  function From(m: map<nat, Value>, k: nat): map<nat, Value> { map i | i in m && k <= i :: m[i] }

  lemma FieldsLeft(h: Header, g: Header, k: nat, depth: nat)
    requires 1 <= k <= LAST && HeaderOk(g, depth)
    ensures MergeField(h, g, k).fields + From(g.fields, k + 1) == h.fields + From(g.fields, k)
  {
  }

  lemma {:induction false} FieldsMerged(h: Header, g: Header, k: nat, depth: nat)
    requires 1 <= k <= LAST + 1 && HeaderOk(g, depth)
    ensures MergeFrom(h, g, k).fields == h.fields + From(g.fields, k)
    decreases LAST + 1 - k
  {
    if k > LAST {
      assert h.fields + From(g.fields, k) == h.fields;
    } else {
      FieldsMerged(MergeField(h, g, k), g, k + 1, depth);
      FieldsLeft(h, g, k, depth);
    }
  }

  lemma {:induction false} ListsMerged(h: Header, g: Header, k: nat)
    requires 1 <= k <= LAST + 1
    ensures MergeFrom(h, g, k).senderAliases
         == if k <= SENDER_ALIASES then h.senderAliases + g.senderAliases else h.senderAliases
    ensures MergeFrom(h, g, k).receiverAliases
         == if k <= RECEIVER_ALIASES then h.receiverAliases + g.receiverAliases else h.receiverAliases
    ensures MergeFrom(h, g, k).unknown == h.unknown + g.unknown
    decreases LAST + 1 - k
  {
    if k <= LAST {
      ListsMerged(MergeField(h, g, k), g, k + 1);
    }
  }

  /** Parsing the bytes of `g` into a header that already holds `h` merges `g` into it and goes
      on with exactly the bytes after them. */
  lemma HeaderMerges(h: Header, g: Header, rest: bytes, depth: nat)
    requires HeaderOk(g, depth) && |SerializeHeader(g)| < TWO_31
    ensures ParseHeader(h, SerializeHeader(g) + rest, depth) == ParseHeader(MergeHeader(h, g), rest, depth)
  {
    FieldsParse(h, g, TYPE, rest, depth);
    FieldsMerged(h, g, TYPE, depth);
    ListsMerged(h, g, TYPE);
    assert From(g.fields, TYPE) == g.fields;
  }

  lemma MergeIntoEmpty(g: Header)
    ensures MergeHeader(EMPTY_HEADER, g) == g
  {
    assert map[] + g.fields == g.fields;
    assert [] + g.senderAliases == g.senderAliases && [] + g.receiverAliases == g.receiverAliases;
    assert [] + g.unknown == g.unknown;
  }

  lemma HeaderRoundTrip(g: Header, depth: nat)
    requires HeaderOk(g, depth) && |SerializeHeader(g)| < TWO_31
    ensures ParseHeader(EMPTY_HEADER, SerializeHeader(g), depth) == Done(g, true)
  {
    HeaderMerges(EMPTY_HEADER, g, [], depth);
    MergeIntoEmpty(g);
    assert SerializeHeader(g) + [] == SerializeHeader(g);
  }

  /** Two serialised headers put end to end parse as the merge of the two. */
  lemma ConcatenationMerges(a: Header, b: Header, depth: nat)
    requires HeaderOk(a, depth) && |SerializeHeader(a)| < TWO_31
    requires HeaderOk(b, depth) && |SerializeHeader(b)| < TWO_31
    ensures ParseHeader(EMPTY_HEADER, SerializeHeader(a) + SerializeHeader(b), depth) == Done(MergeHeader(a, b), true)
  {
    HeaderMerges(EMPTY_HEADER, a, SerializeHeader(b), depth);
    MergeIntoEmpty(a);
    HeaderMerges(a, b, [], depth);
    assert SerializeHeader(b) + [] == SerializeHeader(b);
  }

  // ----- every byte string -----

  lemma TurnKeepsOk(h: Header, tag: nat, s: bytes, depth: nat)
    requires HeaderOk(h, depth) && tag > 0
    requires HeaderSwitch(h, tag, s, depth).Continue?
    ensures HeaderOk(HeaderSwitch(h, tag, s, depth).msg, depth)
  {
    if !IsKnown(tag) {
      SkippedOk(tag, s, depth);
      UnknownsOkAppend(h.unknown, [SkipField(tag, s, depth).value], depth);
    } else if tag / 8 == TYPE {
      var e := ToInt32(ReadVarint32(s).value);
      if !IsMessageType(e) {
        ToInt32Inverts(e);
        UnknownsOkAppend(h.unknown, [UVarint(TYPE, SignExtend(e))], depth);
      }
    }
  }

  lemma {:induction false} ParseKeepsOk(h: Header, s: bytes, depth: nat)
    requires HeaderOk(h, depth) && ParseHeader(h, s, depth).Done?
    ensures HeaderOk(ParseHeader(h, s, depth).msg, depth)
    decreases |s|
  {
    var t := ReadTag(s);
    if t.TagIs? {
      var r := HeaderSwitch(h, t.tag, t.rest, depth);
      if r.Continue? {
        TurnKeepsOk(h, t.tag, t.rest, depth);
        ParseKeepsOk(r.msg, r.rest, depth);
      }
    }
  }

  /** Whatever byte string parses: its header serialises to bytes that parse to that same header. */
  lemma ReparseIsStable(s: bytes, depth: nat)
    requires ParseHeader(EMPTY_HEADER, s, depth).Done?
    requires |SerializeHeader(ParseHeader(EMPTY_HEADER, s, depth).msg)| < TWO_31
    ensures var g := ParseHeader(EMPTY_HEADER, s, depth).msg;
            ParseHeader(EMPTY_HEADER, SerializeHeader(g), depth) == Done(g, true)
  {
    ParseKeepsOk(EMPTY_HEADER, s, depth);
    HeaderRoundTrip(ParseHeader(EMPTY_HEADER, s, depth).msg, depth);
  }
}
