/** The wire primitives of the Protocol Buffers Encoding guide: "Base 128 Varints",
    tags, fixed-width and "Length-Delimited Records", and the skipping of unknown
    fields. The generated message code is modelled on top of these. */
module Wire {

  type byte = b: int | 0 <= b < 256

  type bytes = seq<byte>

  const TWO_29 := 0x2000_0000
  const TWO_31 := 0x8000_0000
  const TWO_32 := 0x1_0000_0000
  const TWO_63 := 0x8000_0000_0000_0000
  const TWO_64 := 0x1_0000_0000_0000_0000

  /** What a read leaves: the value and the bytes after it, or a malformed input. */
  datatype Read<+T> = Got(value: T, rest: bytes) | Malformed

  // ----- integers of fixed width -----

  type int32 = v: int | -0x8000_0000 <= v < 0x8000_0000

  type int64 = v: int | -0x8000_0000_0000_0000 <= v < 0x8000_0000_0000_0000

  type uint64 = v: int | 0 <= v < 0x1_0000_0000_0000_0000

  /** A double, as the eight bytes it travels in. */
  type raw64 = s: bytes | |s| == 8 witness [0, 0, 0, 0, 0, 0, 0, 0]

  /** The 64 bits a signed value travels in: negative numbers are sign-extended. */
  function SignExtend(v: int64): (u: uint64)
  {
    if v < 0 then v + TWO_64 else v
  }

  function ToInt64(u: uint64): (v: int64)
    ensures SignExtend(v) == u
  {
    if u < TWO_63 then u else u - TWO_64
  }

  /** Keeps the low 32 bits and reads them as a signed number. */
  function ToInt32(u: nat): (v: int32)
    ensures (v - u) % TWO_32 == 0
  {
    var low := u % TWO_32;
    if low < TWO_31 then low else low - TWO_32
  }

  lemma ToInt32Inverts(v: int32)
    ensures ToInt32(SignExtend(v)) == v
  {
    if v < 0 {
      assert v + TWO_64 == (v + TWO_32) + (TWO_32 - 1) * TWO_32;
      assert (v + TWO_64) % TWO_32 == v + TWO_32;
    }
  }

  // ----- varints -----

  /** Seven bits a byte, least significant group first, high bit set on all but the last. */
  function Varint(v: nat): (s: bytes)
    ensures 1 <= |s|
  {
    if v < 128 then [v] else [128 + v % 128] + Varint(v / 128)
  }

  /** Reads a varint of at most `n` bytes. */
  function ReadVarintUpTo(s: bytes, n: nat): (r: Read<nat>)
    ensures r.Got? ==> |r.rest| < |s|
  {
    if n == 0 || s == [] then Malformed
    else if s[0] < 128 then Got(s[0], s[1..])
    else
      match ReadVarintUpTo(s[1..], n - 1)
      case Malformed => Malformed
      case Got(v, rest) => Got(s[0] - 128 + 128 * v, rest)
  }

  /** At most ten bytes; bits past the 64th are dropped. */
  function ReadVarint64(s: bytes): (r: Read<nat>)
    ensures r.Got? ==> |r.rest| < |s| && r.value < TWO_64
  {
    match ReadVarintUpTo(s, 10)
    case Malformed => Malformed
    case Got(v, rest) => Got(v % TWO_64, rest)
  }

  /** At most ten bytes; bits past the 32nd are dropped. */
  function ReadVarint32(s: bytes): (r: Read<nat>)
    ensures r.Got? ==> |r.rest| < |s| && r.value < TWO_32
  {
    match ReadVarintUpTo(s, 10)
    case Malformed => Malformed
    case Got(v, rest) => Got(v % TWO_32, rest)
  }

  /** The size the library computes from thresholds, without encoding. */
  function VarintSize(v: nat): (n: nat)
    requires v < TWO_64
  {
    if v < 0x80 then 1
    else if v < 0x4000 then 2
    else if v < 0x20_0000 then 3
    else if v < 0x1000_0000 then 4
    else if v < 0x8_0000_0000 then 5
    else if v < 0x400_0000_0000 then 6
    else if v < 0x2_0000_0000_0000 then 7
    else if v < 0x100_0000_0000_0000 then 8
    else if v < 0x8000_0000_0000_0000 then 9
    else 10
  }

  lemma {:induction false} VarintSizeExact(v: nat)
    requires v < TWO_64
    ensures |Varint(v)| == VarintSize(v)
  {
    if v >= 128 {
      VarintSizeExact(v / 128);
    }
  }

  lemma {:induction false} VarintUpToRoundTrip(v: nat, n: nat, rest: bytes)
    requires |Varint(v)| <= n
    ensures ReadVarintUpTo(Varint(v) + rest, n) == Got(v, rest)
    decreases n
  {
    if v < 128 {
      assert (Varint(v) + rest)[1..] == rest;
    } else {
      VarintUpToRoundTrip(v / 128, n - 1, rest);
      assert (Varint(v) + rest)[1..] == Varint(v / 128) + rest;
    }
  }

  lemma VarintRoundTrip(v: nat, rest: bytes)
    requires v < TWO_64
    ensures ReadVarint64(Varint(v) + rest) == Got(v, rest)
    ensures ReadVarint32(Varint(v) + rest) == Got(v % TWO_32, rest)
  {
    VarintSizeExact(v);
    VarintUpToRoundTrip(v, 10, rest);
    hide ReadVarintUpTo, Varint;
  }

  // ----- fixed-width and length-delimited records -----

  function ReadFixed(s: bytes, n: nat): (r: Read<bytes>)
    ensures r.Got? ==> |r.value| == n && r.value + r.rest == s
  {
    if |s| < n then Malformed else Got(s[..n], s[n..])
  }

  lemma FixedRoundTrip(raw: bytes, rest: bytes)
    ensures ReadFixed(raw + rest, |raw|) == Got(raw, rest)
  {
    assert (raw + rest)[..|raw|] == raw && (raw + rest)[|raw|..] == rest;
  }

  function LengthDelimited(payload: bytes): (s: bytes)
  {
    Varint(|payload|) + payload
  }

  function ReadLengthDelimited(s: bytes): (r: Read<bytes>)
    ensures r.Got? ==> |r.value| + |r.rest| < |s| && |r.value| < TWO_31
  {
    match ReadVarint32(s)
    case Malformed => Malformed
    case Got(n, rest) => if n >= TWO_31 || n > |rest| then Malformed else Got(rest[..n], rest[n..])
  }

  lemma LengthDelimitedRoundTrip(payload: bytes, rest: bytes)
    requires |payload| < TWO_31
    ensures ReadLengthDelimited(LengthDelimited(payload) + rest) == Got(payload, rest)
  {
    assert LengthDelimited(payload) + rest == Varint(|payload|) + (payload + rest);
    VarintRoundTrip(|payload|, payload + rest);
    assert (payload + rest)[..|payload|] == payload;
    assert (payload + rest)[|payload|..] == rest;
  }

  // ----- tags -----

  datatype TagRead = AtEnd | BadTag | TagIs(tag: nat, rest: bytes)

  /** The end of the input is a legitimate end of a message; a malformed or zero tag is not. */
  function ReadTag(s: bytes): (r: TagRead)
    ensures r.TagIs? ==> |r.rest| < |s| && 0 < r.tag < TWO_32
    ensures r.AtEnd? <==> s == []
  {
    if s == [] then AtEnd
    else
      match ReadVarint32(s)
      case Malformed => BadTag
      case Got(t, rest) => if t == 0 then BadTag else TagIs(t, rest)
  }

  /** Whether the next bytes are the canonical encoding of `tag`. */
  predicate NextIs(s: bytes, tag: nat) { Varint(tag) <= s }

  lemma ReadTagRoundTrip(tag: nat, rest: bytes)
    requires 0 < tag < TWO_32
    ensures ReadTag(Varint(tag) + rest) == TagIs(tag, rest)
  {
    VarintRoundTrip(tag, rest);
  }

  lemma NextIsRead(s: bytes, tag: nat)
    requires 0 < tag < TWO_32 && NextIs(s, tag)
    ensures ReadTag(s) == TagIs(tag, s[|Varint(tag)|..])
  {
    assert s == Varint(tag) + s[|Varint(tag)|..];
    ReadTagRoundTrip(tag, s[|Varint(tag)|..]);
  }

  const WIRE_VARINT := 0
  const WIRE_FIXED64 := 1
  const WIRE_LENGTH := 2
  const WIRE_START_GROUP := 3
  const WIRE_END_GROUP := 4
  const WIRE_FIXED32 := 5

  // ----- unknown fields -----

  datatype Unknown =
    | UVarint(num: nat, value: nat)
    | UFixed64(num: nat, raw: bytes)
    | ULength(num: nat, raw: bytes)
    | UGroup(num: nat, fields: seq<Unknown>)
    | UFixed32(num: nat, raw: bytes)
  {
    function Tag(): nat {
      8 * num + match this
                case UVarint(_, _) => WIRE_VARINT
                case UFixed64(_, _) => WIRE_FIXED64
                case ULength(_, _) => WIRE_LENGTH
                case UGroup(_, _) => WIRE_START_GROUP
                case UFixed32(_, _) => WIRE_FIXED32
    }
  }

  function SerializeUnknown(u: Unknown): (s: bytes)
    decreases u, 1
  {
    Varint(u.Tag()) + UnknownBody(u)
  }

  function UnknownBody(u: Unknown): (s: bytes)
    decreases u, 0
  {
    match u
    case UVarint(_, v) => Varint(v)
    case UFixed64(_, raw) => raw
    case ULength(_, raw) => LengthDelimited(raw)
    case UGroup(num, fields) => SerializeUnknowns(fields) + Varint(8 * num + WIRE_END_GROUP)
    case UFixed32(_, raw) => raw
  }

  function SerializeUnknowns(us: seq<Unknown>): (s: bytes)
    decreases us
  {
    if us == [] then [] else SerializeUnknown(us[0]) + SerializeUnknowns(us[1..])
  }

  /** A record the wire can carry, with groups nested at most `depth` deep. */
  predicate UnknownOk(u: Unknown, depth: nat)
    decreases u
  {
    && 1 <= u.num < TWO_29
    && match u
       case UVarint(_, v) => v < TWO_64
       case UFixed64(_, raw) => |raw| == 8
       case ULength(_, raw) => |raw| < TWO_31
       case UGroup(_, fields) => depth >= 1 && UnknownsOk(fields, depth - 1)
       case UFixed32(_, raw) => |raw| == 4
  }

  predicate UnknownsOk(us: seq<Unknown>, depth: nat)
    decreases us
  {
    us != [] ==> UnknownOk(us[0], depth) && UnknownsOk(us[1..], depth)
  }

  lemma {:induction false} UnknownsOkAppend(us: seq<Unknown>, vs: seq<Unknown>, depth: nat)
    requires UnknownsOk(us, depth) && UnknownsOk(vs, depth)
    ensures UnknownsOk(us + vs, depth)
  {
    if us == [] {
      assert us + vs == vs;
    } else {
      UnknownsOkAppend(us[1..], vs, depth);
      assert (us + vs)[1..] == us[1..] + vs;
    }
  }

  /** Skips the field whose tag was just read and returns it as a record. */
  function SkipField(tag: nat, s: bytes, depth: nat): (r: Read<Unknown>)
    ensures r.Got? ==> |r.rest| <= |s|
    decreases |s|, 1
  {
    var num := tag / 8;
    if num == 0 || num >= TWO_29 then Malformed
    else if tag % 8 == WIRE_VARINT then
      match ReadVarint64(s)
      case Malformed => Malformed
      case Got(v, rest) => Got(UVarint(num, v), rest)
    else if tag % 8 == WIRE_FIXED64 then
      match ReadFixed(s, 8)
      case Malformed => Malformed
      case Got(raw, rest) => Got(UFixed64(num, raw), rest)
    else if tag % 8 == WIRE_LENGTH then
      match ReadLengthDelimited(s)
      case Malformed => Malformed
      case Got(raw, rest) => Got(ULength(num, raw), rest)
    else if tag % 8 == WIRE_START_GROUP then
      if depth == 0 then Malformed
      else
        match ReadGroup(num, s, depth - 1)
        case Malformed => Malformed
        case Got(fields, rest) => Got(UGroup(num, fields), rest)
    else if tag % 8 == WIRE_FIXED32 then
      match ReadFixed(s, 4)
      case Malformed => Malformed
      case Got(raw, rest) => Got(UFixed32(num, raw), rest)
    else Malformed
  }

  /** Reads fields up to the end-group tag that carries the same number. */
  function ReadGroup(num: nat, s: bytes, depth: nat): (r: Read<seq<Unknown>>)
    ensures r.Got? ==> |r.rest| <= |s|
    decreases |s|, 0
  {
    match ReadTag(s)
    case AtEnd => Malformed
    case BadTag => Malformed
    case TagIs(tag, rest) =>
      if tag % 8 == WIRE_END_GROUP then
        if tag / 8 == num then Got([], rest) else Malformed
      else
        match SkipField(tag, rest, depth)
        case Malformed => Malformed
        case Got(u, rest') =>
          match ReadGroup(num, rest', depth)
          case Malformed => Malformed
          case Got(us, rest'') => Got([u] + us, rest'')
  }

  lemma TagParts(u: Unknown, depth: nat)
    requires UnknownOk(u, depth)
    ensures 0 < u.Tag() < TWO_32 && u.Tag() / 8 == u.num && u.Tag() % 8 != WIRE_END_GROUP
  {
  }

  lemma SerializeUnknownSplit(u: Unknown, rest: bytes)
    ensures SerializeUnknown(u) + rest == Varint(u.Tag()) + (UnknownBody(u) + rest)
  {
  }

  /** Skipping the bytes of a record gives the record back. */
  lemma {:induction false} SkipRoundTrip(u: Unknown, rest: bytes, depth: nat)
    requires UnknownOk(u, depth)
    ensures ReadTag(SerializeUnknown(u) + rest) == TagIs(u.Tag(), UnknownBody(u) + rest)
    ensures SkipField(u.Tag(), UnknownBody(u) + rest, depth) == Got(u, rest)
    decreases u
  {
    TagParts(u, depth);
    SerializeUnknownSplit(u, rest);
    ReadTagRoundTrip(u.Tag(), UnknownBody(u) + rest);
    match u
    case UVarint(_, v) => VarintRoundTrip(v, rest);
    case UFixed64(_, raw) => FixedRoundTrip(raw, rest);
    case ULength(_, raw) => LengthDelimitedRoundTrip(raw, rest);
    case UGroup(num, fields) =>
      assert UnknownBody(u) + rest == SerializeUnknowns(fields) + (Varint(8 * num + WIRE_END_GROUP) + rest);
      GroupRoundTrip(num, fields, rest, depth - 1);
    case UFixed32(_, raw) => FixedRoundTrip(raw, rest);
  }

  lemma GroupStep(num: nat, s: bytes, tag: nat, after: bytes, u: Unknown, rest: bytes, us: seq<Unknown>, end: bytes, depth: nat)
    requires ReadTag(s) == TagIs(tag, after) && tag % 8 != WIRE_END_GROUP
    requires SkipField(tag, after, depth) == Got(u, rest)
    requires ReadGroup(num, rest, depth) == Got(us, end)
    ensures ReadGroup(num, s, depth) == Got([u] + us, end)
  {
  }

  lemma GroupEnd(num: nat, rest: bytes, depth: nat)
    requires 1 <= num < TWO_29
    ensures ReadGroup(num, Varint(8 * num + WIRE_END_GROUP) + rest, depth) == Got([], rest)
  {
    ReadTagRoundTrip(8 * num + WIRE_END_GROUP, rest);
  }

  lemma GroupSplit(u: Unknown, us: seq<Unknown>, end: bytes)
    ensures SerializeUnknowns([u] + us) + end == SerializeUnknown(u) + (SerializeUnknowns(us) + end)
  {
    assert ([u] + us)[1..] == us;
  }

  lemma {:induction false} GroupRoundTrip(num: nat, us: seq<Unknown>, rest: bytes, depth: nat)
    requires 1 <= num < TWO_29 && UnknownsOk(us, depth)
    ensures ReadGroup(num, SerializeUnknowns(us) + (Varint(8 * num + WIRE_END_GROUP) + rest), depth) == Got(us, rest)
    decreases us
  {
    var end := Varint(8 * num + WIRE_END_GROUP) + rest;
    if us == [] {
      assert SerializeUnknowns(us) + end == end;
      GroupEnd(num, rest, depth);
    } else {
      var u, tail := us[0], SerializeUnknowns(us[1..]) + end;
      assert us == [u] + us[1..];
      GroupSplit(u, us[1..], end);
      TagParts(u, depth);
      SkipRoundTrip(u, tail, depth);
      GroupRoundTrip(num, us[1..], rest, depth);
      GroupStep(num, SerializeUnknowns(us) + end, u.Tag(), UnknownBody(u) + tail, u, tail, us[1..], rest, depth);
    }
  }

  /** Whatever is skipped is a record the wire can carry, under the tag that was read. */
  lemma {:induction false} SkippedOk(tag: nat, s: bytes, depth: nat)
    requires SkipField(tag, s, depth).Got?
    ensures UnknownOk(SkipField(tag, s, depth).value, depth)
    ensures SkipField(tag, s, depth).value.Tag() == tag
    decreases |s|, 1
  {
    if tag % 8 == WIRE_START_GROUP {
      GroupOk(tag / 8, s, depth - 1);
    }
  }

  lemma {:induction false} GroupOk(num: nat, s: bytes, depth: nat)
    requires ReadGroup(num, s, depth).Got?
    ensures UnknownsOk(ReadGroup(num, s, depth).value, depth)
    decreases |s|, 0
  {
    var t := ReadTag(s);
    if t.tag % 8 != WIRE_END_GROUP {
      SkippedOk(t.tag, t.rest, depth);
      var u := SkipField(t.tag, t.rest, depth);
      GroupOk(num, u.rest, depth);
    }
  }

  // ----- C strings -----

  /** A C string ends at its first zero byte. */
  function Cut(s: bytes): (r: bytes) {
    if s == [] || s[0] == 0 then [] else [s[0]] + Cut(s[1..])
  }

  lemma {:induction false} CutKeeps(s: bytes)
    ensures 0 !in Cut(s) && (0 !in s ==> Cut(s) == s)
  {
    if s != [] && s[0] != 0 {
      CutKeeps(s[1..]);
    }
  }
}
