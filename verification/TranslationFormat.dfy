/** The translations with the numbers of the protocol and the codes of D-Bus written out. */
module TranslationFormat {
  import opened Common
  import opened Wire
  import opened PayloadCodec
  import opened Translation

  /** An item of type `t` with an integer, an unsigned integer, a text, or parameters. */
  function WithInt(t: ParamType, n: int64): Item { Item(Some(t), Some(n), None, None, None, None, []) }

  function WithUint(t: ParamType, n: uint64): Item { Item(Some(t), None, Some(n), None, None, None, []) }

  function WithText(t: ParamType, s: bytes): Item { Item(Some(t), None, None, None, Some(s), None, []) }

  function WithParams(t: ParamType, ps: seq<Item>): Item {
    Item(Some(t), None, None, None, None, if ps == [] then None else Some(Composite(ps, [])), [])
  }

  /** What a traced value is on the wire. Signed 16-bit numbers travel modulo 2^16. */
  lemma TracedAs(v: Value)
    requires Narrow(v)
    ensures ToItem(v) ==
            match v
            case Byte(b) => WithInt(1, b)
            case Boolean(b) => WithInt(2, if b then 1 else 0)
            case Int16(n) => WithInt(3, if n < 0 then n + 0x1_0000 else n)
            case UInt16(n) => WithUint(4, n)
            case Int32(n) => WithInt(5, n)
            case UInt32(n) => WithUint(6, n)
            case Double(raw) => Item(Some(9), None, None, Some(raw), None, None, [])
            case Text(PlainText, s) => WithText(10, s)
            case Text(ObjectPath, s) => WithText(11, s)
            case Text(Signature, s) => WithText(12, s)
            case Container(Array(_), cs) => WithParams(13, ToItems(cs))
            case Container(Struct, cs) => WithParams(14, ToItems(cs))
            case Container(Variant, cs) => WithParams(15, ToItems(cs))
            case Container(DictEntry, cs) => WithParams(16, ToItems(cs))
            case Foreign => Item(Some(0), None, None, None, None, None, [])
  {
    if v.Int16? { LowOfSigned16(v.n16); }
    if v.Int32? { LowOfSigned32(v.n32); }
    hide ToItems, ToInt32, LowBytes;
    if v.Byte? { LowOfSmall(v.octet, 1); }
    if v.Boolean? { LowOfSmall(if v.flag then 1 else 0, 4); }
    if v.UInt16? { LowOfUnsigned(v.u16, 2); }
    if v.UInt32? { LowOfUnsigned(v.u32, 4); }
  }

  lemma LowOfSigned16(n: int16)
    ensures ToInt32(LowBytes(n, 2)) == if n < 0 then n + 0x1_0000 else n
  {
    assert LowBytes(n, 2) == if n < 0 then n + 0x1_0000 else n;
  }

  lemma LowOfSigned32(n: int32)
    ensures ToInt32(LowBytes(n, 4)) == n
  {
    assert LowBytes(n, 4) == if n < 0 then n + TWO_32 else n;
  }

  lemma LowOfSmall(n: nat, size: nat)
    requires n < 0x100 && (size == 1 || size == 4)
    ensures ToInt32(LowBytes(n, size)) == n
  {
  }

  lemma LowOfUnsigned(n: nat, size: nat)
    requires (size == 2 && n < 0x1_0000) || (size == 4 && n < 0x1_0000_0000)
    ensures LowBytes(n, size) == n
  {
  }

  /** `x` is `y` in the arithmetic of `n` values. */
  predicate Same(x: int, y: int, n: int)
    requires n > 0
  {
    (x - y) % n == 0
  }

  /** What a signed parameter from the host is sent as: numbers of up to 32 bits modulo their size, 64-bit ones as they
      are, and as a boolean only zero and one. */
  lemma SentSigned(n: int64)
    ensures Basic(WithInt(7, n)) == [Int64(n)]
    ensures var b := Basic(WithInt(1, n)); |b| == 1 && b[0].Byte? && Same(b[0].octet, n, 0x100)
    ensures var b := Basic(WithInt(3, n)); |b| == 1 && b[0].Int16? && Same(b[0].n16, n, 0x1_0000)
    ensures var b := Basic(WithInt(5, n)); |b| == 1 && b[0].Int32? && Same(b[0].n32, n, 0x1_0000_0000)
    ensures Same(n, 0, 0x1_0000_0000) ==> Basic(WithInt(2, n)) == [Boolean(false)]
    ensures Same(n, 1, 0x1_0000_0000) ==> Basic(WithInt(2, n)) == [Boolean(true)]
    ensures !Same(n, 0, 0x1_0000_0000) && !Same(n, 1, 0x1_0000_0000) ==> Basic(WithInt(2, n)) == []
  {
    SentByte(n);
    SentShort(n);
    SentLow(n);
    hide ToInt32, SignExtend, ToInt16, Same;
  }

  lemma SentByte(n: int64)
    ensures Same(n % 0x100, n, 0x100)
  {
  }

  lemma SentShort(n: int64)
    ensures Same(ToInt16(n), n, 0x1_0000)
  {
  }

  lemma SentLow(n: int64)
    ensures Same(ToInt32(SignExtend(n)), n, 0x1_0000_0000)
    ensures ToInt32(SignExtend(n)) == 0 <==> Same(n, 0, 0x1_0000_0000)
    ensures ToInt32(SignExtend(n)) == 1 <==> Same(n, 1, 0x1_0000_0000)
  {
    var u, v := SignExtend(n), ToInt32(SignExtend(n));
    assert u == n || u == n + 0x1_0000_0000 * 0x1_0000_0000;
    assert (v - u) % 0x1_0000_0000 == 0;
    assert (v - n) % 0x1_0000_0000 == 0;
  }

  /** The same for an unsigned one. */
  lemma SentUnsigned(n: uint64)
    ensures Basic(WithUint(8, n)) == [UInt64(n)]
    ensures var b := Basic(WithUint(4, n)); |b| == 1 && b[0].UInt16? && Same(b[0].u16, n, 0x1_0000)
    ensures var b := Basic(WithUint(6, n)); |b| == 1 && b[0].UInt32? && Same(b[0].u32, n, 0x1_0000_0000)
  {
  }

  /** Doubles are sent as they are, texts as the C strings they are, and what has no value as zero or nothing. */
  lemma SentOther(raw: raw64, s: bytes)
    ensures Basic(Item(Some(9), None, None, Some(raw), None, None, [])) == [Double(raw)]
    ensures 0 !in s ==> Basic(WithText(10, s)) == [Text(PlainText, s)]
    ensures 0 !in s ==> Basic(WithText(11, s)) == [Text(ObjectPath, s)]
    ensures 0 !in s ==> Basic(WithText(12, s)) == [Text(Signature, s)]
    ensures Basic(WithParams(7, [])) == [Int64(0)] && Basic(WithParams(8, [])) == [UInt64(0)]
    ensures Basic(WithParams(9, [])) == [Double([0, 0, 0, 0, 0, 0, 0, 0])]
    ensures Basic(WithParams(10, [])) == [Text(PlainText, [])]
  {
    CutKeeps(s);
    CutKeeps([]);
  }

  /** Types one to twelve are the basic ones, with these codes, in this order; the next four open containers. */
  lemma TypeCodes(e: Item, v: Value, cursor: string)
    ensures GetSignatureType(e) == if 1 <= TypeOf(e) <= 12 then ["ybnqiuxtdsog"[TypeOf(e) - 1]] else ""
    ensures Narrow(v) && IsBasic(v) ==> SignatureOf(v) == ["ybnqiuxtdsog"[TypeOf(ToItem(v)) - 1]]
    ensures KindOf(TypeOf(e), cursor) ==
            if TypeOf(e) == 13 then Some(Array(FirstType(cursor)))
            else if TypeOf(e) == 14 then Some(Struct)
            else if TypeOf(e) == 15 then Some(Variant)
            else if TypeOf(e) == 16 then Some(DictEntry)
            else None
  {
    if Narrow(v) {
      TracedAs(v);
    }
    hide FirstType;
  }
}
