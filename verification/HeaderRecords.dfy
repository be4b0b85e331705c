/** The header message as records of the wire: field numbers and wire types written out, in both directions. */
module HeaderRecords {
  import opened Common
  import opened Wire
  import opened WireFormat
  import opened HeaderCodec
  import HeaderTheorems
  import opened PayloadRecords

  /** Field 1 is the type, an enumeration; 4 to 7, 10 and 15 are 32-bit integers: pid and user id of sender and
      receiver, serial and serial replied to; the others are strings. */
  function ValueRecord(k: nat, v: Value): Unknown {
    match v
    case Enum(e) => UVarint(k, e)
    case Int32(i) => UVarint(k, Bits(i))
    case Str(x) => ULength(k, x)
  }

  predicate RightKind(k: nat, v: Value) {
    match v
    case Enum(e) => k == 1 && e <= 4
    case Int32(_) => k in {4, 5, 6, 7, 10, 15}
    case Str(_) => k in {2, 3, 11, 12, 13, 14, 16, 17, 18, 19}
  }

  function AliasRecords(k: nat, xs: seq<bytes>): seq<Unknown> {
    if xs == [] then [] else [ULength(k, xs[0])] + AliasRecords(k, xs[1..])
  }

  function FieldRecords(h: Header, k: nat): seq<Unknown> {
    if k == 8 then AliasRecords(8, h.senderAliases)
    else if k == 9 then AliasRecords(9, h.receiverAliases)
    else if k in h.fields then [ValueRecord(k, h.fields[k])]
    else []
  }

  function RecordsFrom(h: Header, k: nat): seq<Unknown>
    decreases 20 - k
  {
    if k >= 20 then h.unknown else FieldRecords(h, k) + RecordsFrom(h, k + 1)
  }

  // ----- writing -----

  /** The invariant of the codec says what kind of value each field has. */
  lemma KindsOfFields(h: Header, depth: nat)
    requires HeaderOk(h, depth)
    ensures forall k | k in h.fields :: RightKind(k, h.fields[k])
  {
    hide UnknownsOk;
  }

  lemma ValueFormat(k: nat, v: Value)
    requires RightKind(k, v)
    ensures Varint(TagOf(k)) + ValueBytes(v) == RecordBytes(ValueRecord(k, v))
  {
    assert v.Enum? ==> TagOf(k) == 8;
    assert v.Int32? ==> TagOf(k) == 8 * k;
    assert v.Str? ==> TagOf(k) == 8 * k + 2;
    hide Varint, TagOf;
  }

  lemma {:induction false} AliasFormat(k: nat, xs: seq<bytes>)
    requires k == 8 || k == 9
    ensures StringsBytes(k, xs) == RecordsBytes(AliasRecords(k, xs))
    decreases xs
  {
    if xs != [] {
      AliasFormat(k, xs[1..]);
      OneRecord(ULength(k, xs[0]));
      RecordsJoin([ULength(k, xs[0])], AliasRecords(k, xs[1..]));
      assert TagOf(k) == 8 * k + 2;
      assert Varint(TagOf(k)) + LengthDelimited(xs[0]) == RecordBytes(ULength(k, xs[0]));
      hide Varint, RecordsBytes, RecordBytes, TagOf;
    }
  }

  lemma FieldFormat(h: Header, k: nat)
    requires k in h.fields ==> RightKind(k, h.fields[k])
    ensures FieldBytes(h, k) == RecordsBytes(FieldRecords(h, k))
  {
    if k == 8 {
      AliasFormat(8, h.senderAliases);
    } else if k == 9 {
      AliasFormat(9, h.receiverAliases);
    } else if k in h.fields {
      ValueFormat(k, h.fields[k]);
      OneRecord(ValueRecord(k, h.fields[k]));
    }
    hide StringsBytes, AliasRecords, ValueBytes, ValueRecord, RightKind, Varint, TagOf;
  }

  lemma {:induction false} HeaderFormatFrom(h: Header, k: nat)
    requires forall i | i in h.fields :: RightKind(i, h.fields[i])
    ensures SerializeFrom(h, k) == RecordsBytes(RecordsFrom(h, k))
    decreases 20 - k
  {
    hide FieldBytes, FieldRecords, RecordsBytes, SerializeUnknowns;
    if k >= 20 {
      RecordsFormat(h.unknown);
    } else {
      FieldFormat(h, k);
      HeaderFormatFrom(h, k + 1);
      RecordsJoin(FieldRecords(h, k), RecordsFrom(h, k + 1));
    }
  }

  /** A header is written as the records of fields 1 to 19 in order, and what is unknown. */
  lemma HeaderFormat(h: Header, depth: nat)
    requires HeaderOk(h, depth)
    ensures SerializeHeader(h) == RecordsBytes(RecordsFrom(h, 1))
  {
    KindsOfFields(h, depth);
    HeaderFormatFrom(h, 1);
    hide SerializeFrom, RecordsFrom, RecordsBytes;
  }

  // ----- reading -----

  /** What a record makes of a header that is being parsed. */
  function HeaderAfter(h: Header, u: Unknown): Header {
    match u
    case UVarint(n, v) =>
      var i := ToInt32(v);
      if n == 1 then
        if 0 <= i <= 4 then h.(fields := h.fields[1 := Enum(i)]) else h.(unknown := h.unknown + [UVarint(1, Bits(i))])
      else if n in {4, 5, 6, 7, 10, 15} then h.(fields := h.fields[n := Int32(i)])
      else h.(unknown := h.unknown + [u])
    case ULength(n, x) =>
      if n == 8 then h.(senderAliases := h.senderAliases + [x])
      else if n == 9 then h.(receiverAliases := h.receiverAliases + [x])
      else if n in {2, 3, 11, 12, 13, 14, 16, 17, 18, 19} then h.(fields := h.fields[n := Str(x)])
      else h.(unknown := h.unknown + [u])
    case _ => h.(unknown := h.unknown + [u])
  }

  lemma KnownTags(u: Unknown, depth: nat)
    requires UnknownOk(u, depth)
    ensures IsKnown(u.Tag()) <==>
              || (u.UVarint? && u.num in {1, 4, 5, 6, 7, 10, 15})
              || (u.ULength? && u.num in {2, 3, 8, 9, 11, 12, 13, 14, 16, 17, 18, 19})
    ensures u.Tag() / 8 == u.num && u.Tag() % 8 != 4
  {
    TagParts(u, depth);
    hide UnknownOk;
  }

  lemma SwitchTakes(h: Header, u: Unknown, s: bytes, depth: nat)
    requires UnknownOk(u, depth)
    ensures HeaderSwitch(h, u.Tag(), UnknownBody(u) + s, depth) == Continue(HeaderAfter(h, u), s)
  {
    KnownTags(u, depth);
    SkipRoundTrip(u, s, depth);
    if u.UVarint? {
      VarintRoundTrip(u.value, s);
      LowBits(u.value);
    } else if u.ULength? {
      LengthDelimitedRoundTrip(u.raw, s);
    }
    hide SkipField, Varint, ReadVarint32, ReadLengthDelimited, LengthDelimited, ToInt32, IsKnown;
  }

  /** Any record the wire can carry, at the front of what is parsed, does just that. */
  lemma HeaderReads(h: Header, u: Unknown, s: bytes, depth: nat)
    requires UnknownOk(u, depth)
    ensures ParseHeader(h, RecordBytes(u) + s, depth) == ParseHeader(HeaderAfter(h, u), s, depth)
  {
    RecordFormat(u);
    SerializeUnknownSplit(u, s);
    TagParts(u, depth);
    SwitchTakes(h, u, s, depth);
    hide *;
    HeaderTheorems.HeaderTurn(h, u.Tag(), UnknownBody(u) + s, depth);
  }

  lemma HeadersEnd(h: Header, n: nat, s: bytes, depth: nat)
    requires n == 0 || (n % 8 == 4 && n < 0x1_0000_0000)
    ensures ParseHeader(h, [], depth) == Done(h, true) && ParseHeader(h, Varint(n) + s, depth) == Done(h, false)
  {
    VarintRoundTrip(n, s);
    assert Varint(n) + s != [];
    hide ReadVarint32, Varint;
  }
}
