/** The generated code of the header as it runs: the parser with its jumps from one field
    straight into the next, the size pre-computation and the merge with their has-bit
    group masks, and the serialiser into a buffer of exactly the computed size. */
module HeaderStream {
  import opened Wire
  import opened WireOutput
  import opened HeaderCodec
  import opened HeaderTheorems

  // ----- parsing -----

  lemma HeaderJump(h: Header, s: bytes, k: nat, depth: nat)
    requires 1 <= k <= LAST && NextIs(s, TagOf(k))
    ensures var after := s[|Varint(TagOf(k))|..];
            && |after| < |s| && IsKnown(TagOf(k))
            && ParseHeader(h, s, depth) == HeaderAfter(HeaderSwitch(h, TagOf(k), after, depth), h, |s|, depth)
  {
    TagIsKnown(k);
    NextIsRead(s, TagOf(k));
  }

  /** Parses `input` into `h0`. `at` is the tag whose branch control has jumped to, or 0 where
      the loop reads a tag. After field `k` the code looks for `k` again if it is repeated,
      then for field `k + 1`; after field 19 for the end. */
  method MergeHeaderFrom(h0: Header, input: bytes, depth: nat) returns (r: Parsed)
    ensures r == ParseHeader(h0, input, depth)
  {
    ghost var spec := ParseHeader(h0, input, depth);
    var h, s, at := h0, input, 0;
    while true
      invariant |s| <= |input| && (at > 0 ==> |s| < |input|)
      invariant spec == if at == 0 then ParseHeader(h, s, depth)
                        else HeaderAfter(HeaderSwitch(h, at, s, depth), h, |input|, depth)
      decreases |s|, at
    {
      hide ReadField, KindOf, TagOf, NextIs;
      if at == 0 {
        var t := ReadTag(s);
        if !t.TagIs? { return Done(h, t.AtEnd?); }
        at, s := t.tag, t.rest;
      } else {
        var step := HeaderSwitch(h, at, s, depth);
        if step.Fail? { return Failed; }
        if step.Stop? { return Done(h, false); }
        h, s := step.msg, step.rest;
        if IsKnown(at) {
          var k := at / 8;
          if KindOf(k).KRepeated? && NextIs(s, TagOf(k)) {
            HeaderJump(h, s, k, depth);
            at, s := TagOf(k), s[|Varint(TagOf(k))|..];
          } else if k < LAST && NextIs(s, TagOf(k + 1)) {
            HeaderJump(h, s, k + 1, depth);
            at, s := TagOf(k + 1), s[|Varint(TagOf(k + 1))|..];
          } else if k == LAST && s == [] {
            return Done(h, true);
          } else {
            at := 0;
          }
        } else {
          at := 0;
        }
      }
    }
  }

  // ----- has-bits -----

  function Bit(h: Header, k: nat, bit: bv32): bv32 { if k in h.fields then bit else 0 }

  /** Bit k - 1 is set when field k is; the two repeated fields have no has-bit. */
  function HasBits(h: Header): bv32 {
    Bit(h, 1, 0x1) | Bit(h, 2, 0x2) | Bit(h, 3, 0x4) | Bit(h, 4, 0x8) | Bit(h, 5, 0x10) | Bit(h, 6, 0x20)
    | Bit(h, 7, 0x40) | Bit(h, 10, 0x200) | Bit(h, 11, 0x400) | Bit(h, 12, 0x800) | Bit(h, 13, 0x1000)
    | Bit(h, 14, 0x2000) | Bit(h, 15, 0x4000) | Bit(h, 16, 0x8000) | Bit(h, 17, 0x10000) | Bit(h, 18, 0x20000)
    | Bit(h, 19, 0x40000)
  }

  predicate HasAny(h: Header, mask: bv32) { HasBits(h) & mask != 0 }

  lemma NoneOfGroups(h: Header)
    ensures !HasAny(h, 126) ==> forall k | 2 <= k <= 7 :: k !in h.fields
    ensures !HasAny(h, 65024) ==> forall k | 10 <= k <= 16 :: k !in h.fields
    ensures !HasAny(h, 458752) ==> forall k | 17 <= k <= 19 :: k !in h.fields
  {
  }

  lemma NoneOfMergeGroups(h: Header)
    ensures !HasAny(h, 0xff) ==> forall k | 1 <= k <= 7 :: k !in h.fields
    ensures !HasAny(h, 0xff << 9) ==> forall k | 10 <= k <= 16 :: k !in h.fields
    ensures !HasAny(h, 0xff << 16) ==> forall k | 17 <= k <= 19 :: k !in h.fields
  {
  }

  // ----- merging -----

  function Between(m: map<nat, Value>, lo: nat, hi: nat): map<nat, Value> { map k | k in m && lo <= k < hi :: m[k] }

  lemma GroupsCover(fields: map<nat, Value>, g: Header, depth: nat)
    requires HeaderOk(g, depth)
    ensures ((fields + Between(g.fields, 1, 8)) + Between(g.fields, 10, 17)) + Between(g.fields, 17, 20)
         == fields + g.fields
  {
    assert SENDER_ALIASES !in g.fields && RECEIVER_ALIASES !in g.fields;
  }

  lemma NoneBetween(fields: map<nat, Value>, g: map<nat, Value>, lo: nat, hi: nat)
    requires forall k | lo <= k < hi :: k !in g
    ensures fields + Between(g, lo, hi) == fields
  {
  }

  method MergeGroup(fields: map<nat, Value>, g: map<nat, Value>, lo: nat, hi: nat) returns (r: map<nat, Value>)
    requires lo <= hi
    ensures r == fields + Between(g, lo, hi)
  {
    r := fields;
    for k := lo to hi
      invariant r == fields + Between(g, lo, k)
    {
      if k in g {
        r := r[k := g[k]];
      }
    }
  }

  /** Merges group by group; a group is skipped when its part of the has-bits is clear. */
  method MergeFromMessage(h: Header, g: Header, ghost depth: nat) returns (r: Header)
    requires HeaderOk(g, depth)
    ensures r == MergeHeader(h, g)
  {
    NoneOfMergeGroups(g);
    GroupsCover(h.fields, g, depth);
    r := h.(senderAliases := h.senderAliases + g.senderAliases,
            receiverAliases := h.receiverAliases + g.receiverAliases);
    var fields := h.fields;
    hide HasAny, HeaderOk, Between;
    if HasAny(g, 0xff) {
      fields := MergeGroup(fields, g.fields, 1, 8);
    } else {
      NoneBetween(fields, g.fields, 1, 8);
    }
    if HasAny(g, 0xff << 9) {
      fields := MergeGroup(fields, g.fields, 10, 17);
    } else {
      NoneBetween(fields, g.fields, 10, 17);
    }
    if HasAny(g, 0xff << 16) {
      fields := MergeGroup(fields, g.fields, 17, 20);
    } else {
      NoneBetween(fields, g.fields, 17, 20);
    }
    r := r.(fields := fields, unknown := h.unknown + g.unknown);
  }

  // ----- size -----

  function ValueSize(v: Value): (n: nat)
    requires v.Enum? ==> v.e <= 4
    requires v.Str? ==> |v.s| < TWO_64
  {
    match v
    case Enum(e) => VarintSize(e)
    case Int32(i) => VarintSize(SignExtend(i))
    case Str(x) => StringSize(x)
  }

  /** Tags take one byte up to field 15 and two from field 16 on. */
  function TagSize(k: nat): nat { if k < 16 then 1 else 2 }

  lemma FieldSizeExact(h: Header, k: nat, depth: nat)
    requires HeaderOk(h, depth) && k in h.fields && |FieldBytes(h, k)| < TWO_31
    ensures h.fields[k].Enum? ==> h.fields[k].e <= 4
    ensures h.fields[k].Str? ==> |h.fields[k].s| < TWO_64
    ensures |FieldBytes(h, k)| == TagSize(k) + ValueSize(h.fields[k])
  {
    VarintSizeExact(TagOf(k));
    match h.fields[k]
    case Enum(e) => VarintSizeExact(e);
    case Int32(i) => VarintSizeExact(SignExtend(i));
    case Str(x) => StringSizeExact(x);
  }

  /** The bytes fields `lo` to `hi - 1` take. */
  function Span(h: Header, lo: nat, hi: nat): (n: nat)
    decreases hi
  {
    if hi <= lo then 0 else Span(h, lo, hi - 1) + |FieldBytes(h, hi - 1)|
  }

  lemma {:induction false} SpanSplit(h: Header, lo: nat, mid: nat, hi: nat)
    requires lo <= mid <= hi
    ensures Span(h, lo, hi) == Span(h, lo, mid) + Span(h, mid, hi)
    decreases hi
  {
    if mid < hi {
      SpanSplit(h, lo, mid, hi - 1);
    }
  }

  lemma {:induction false} SpanIsSerialized(h: Header, k: nat)
    requires 1 <= k <= LAST + 1
    ensures |SerializeFrom(h, k)| == Span(h, k, LAST + 1) + |SerializeUnknowns(h.unknown)|
    decreases LAST + 1 - k
  {
    if k <= LAST {
      hide FieldBytes, SerializeUnknowns;
      SpanIsSerialized(h, k + 1);
      assert |SerializeFrom(h, k)| == |FieldBytes(h, k)| + |SerializeFrom(h, k + 1)|;
      assert Span(h, k, k + 1) == |FieldBytes(h, k)|;
      SpanSplit(h, k, k + 1, LAST + 1);
    }
  }

  lemma {:induction false} SpanEmpty(h: Header, lo: nat, hi: nat)
    requires (hi <= SENDER_ALIASES || RECEIVER_ALIASES < lo) && forall k | lo <= k < hi :: k !in h.fields
    ensures Span(h, lo, hi) == 0
    decreases hi
  {
    if lo < hi {
      SpanEmpty(h, lo, hi - 1);
    }
  }

  lemma {:induction false} FieldBounded(h: Header, k: nat, i: nat)
    requires 1 <= k <= i <= LAST && |SerializeFrom(h, k)| < TWO_31
    ensures |FieldBytes(h, i)| < TWO_31
    decreases i - k
  {
    if k < i {
      FieldBounded(h, k + 1, i);
    }
  }

  lemma SpanStep(h: Header, lo: nat, k: nat)
    requires lo <= k
    ensures Span(h, lo, k + 1) == Span(h, lo, k) + |FieldBytes(h, k)|
  {
  }

  lemma SpanOfNone(h: Header, lo: nat)
    ensures Span(h, lo, lo) == 0
  {
  }

  lemma FieldAbsent(h: Header, k: nat)
    requires k !in h.fields && k != SENDER_ALIASES && k != RECEIVER_ALIASES
    ensures |FieldBytes(h, k)| == 0
  {
  }

  method FieldSize(h: Header, k: nat, ghost depth: nat) returns (size: nat)
    requires HeaderOk(h, depth) && |FieldBytes(h, k)| < TWO_31
    requires k != SENDER_ALIASES && k != RECEIVER_ALIASES
    ensures size == |FieldBytes(h, k)|
  {
    if k in h.fields {
      FieldSizeExact(h, k, depth);
      size := TagSize(k) + ValueSize(h.fields[k]);
    } else {
      FieldAbsent(h, k);
      size := 0;
    }
  }

  lemma FieldsAreAll(h: Header)
    ensures SerializeHeader(h) == SerializeFrom(h, 1)
  {
  }

  method GroupSize(h: Header, lo: nat, hi: nat, ghost depth: nat) returns (total: nat)
    requires HeaderOk(h, depth) && |SerializeHeader(h)| < TWO_31
    requires 1 <= lo <= hi <= LAST + 1 && (hi <= SENDER_ALIASES || RECEIVER_ALIASES < lo)
    ensures total == Span(h, lo, hi)
  {
    hide Span, FieldBytes, HeaderOk, SerializeFrom, SerializeHeader;
    SpanOfNone(h, lo);
    FieldsAreAll(h);
    total := 0;
    for k := lo to hi
      invariant total == Span(h, lo, k)
    {
      SpanStep(h, lo, k);
      FieldBounded(h, 1, k);
      var size := FieldSize(h, k, depth);
      total := total + size;
    }
  }

  lemma {:induction false} StringsBounded(k: nat, xs: seq<bytes>, i: nat)
    requires i < |xs|
    ensures |xs[i]| <= |StringsBytes(k, xs)|
  {
    if i > 0 {
      StringsBounded(k, xs[1..], i - 1);
    }
  }

  lemma {:induction false} StringsConcat(k: nat, xs: seq<bytes>, ys: seq<bytes>)
    ensures StringsBytes(k, xs + ys) == StringsBytes(k, xs) + StringsBytes(k, ys)
  {
    hide Varint, LengthDelimited;
    if xs == [] {
      assert xs + ys == ys;
    } else {
      StringsConcat(k, xs[1..], ys);
      assert (xs + ys)[1..] == xs[1..] + ys;
    }
  }

  lemma StringsGrow(k: nat, xs: seq<bytes>, i: nat)
    requires i < |xs|
    ensures StringsBytes(k, xs[..i + 1]) == StringsBytes(k, xs[..i]) + (Varint(TagOf(k)) + LengthDelimited(xs[i]))
    ensures |StringsBytes(k, xs[..i + 1])| <= |StringsBytes(k, xs)|
  {
    hide Varint, LengthDelimited;
    assert xs[..i + 1] == xs[..i] + [xs[i]] && xs == xs[..i + 1] + xs[i + 1..];
    StringsConcat(k, xs[..i], [xs[i]]);
    StringsConcat(k, xs[..i + 1], xs[i + 1..]);
  }

  method StringsSize(k: nat, xs: seq<bytes>) returns (total: nat)
    requires (k == SENDER_ALIASES || k == RECEIVER_ALIASES) && |StringsBytes(k, xs)| < TWO_31
    ensures total == |StringsBytes(k, xs)|
  {
    total := 1 * |xs|;
    for i := 0 to |xs|
      invariant total == |xs| - i + |StringsBytes(k, xs[..i])|
    {
      StringsGrow(k, xs, i);
      StringsBounded(k, xs, i);
      VarintSizeExact(TagOf(k));
      StringSizeExact(xs[i]);
      total := total + StringSize(xs[i]);
    }
    assert xs[..|xs|] == xs;
  }

  lemma SizeByGroups(h: Header)
    ensures |SerializeHeader(h)| == Span(h, 1, 2) + Span(h, 2, 8) + |StringsBytes(SENDER_ALIASES, h.senderAliases)|
                                    + |StringsBytes(RECEIVER_ALIASES, h.receiverAliases)|
                                    + Span(h, 10, 17) + Span(h, 17, 20) + |SerializeUnknowns(h.unknown)|
  {
    SpanIsSerialized(h, 1);
    SpanSplit(h, 1, 2, 20);
    SpanSplit(h, 2, 8, 20);
    SpanSplit(h, 8, 10, 20);
    SpanSplit(h, 10, 17, 20);
    assert Span(h, 8, 10) == Span(h, 8, 9) + |FieldBytes(h, 9)|;
    assert Span(h, 8, 9) == |FieldBytes(h, 8)|;
  }

  method OptionalGroupSize(h: Header, mask: bv32, lo: nat, hi: nat, ghost depth: nat) returns (total: nat)
    requires HeaderOk(h, depth) && |SerializeHeader(h)| < TWO_31
    requires 1 <= lo <= hi <= LAST + 1 && (hi <= SENDER_ALIASES || RECEIVER_ALIASES < lo)
    requires !HasAny(h, mask) ==> forall k | lo <= k < hi :: k !in h.fields
    ensures total == Span(h, lo, hi)
  {
    if HasAny(h, mask) {
      total := GroupSize(h, lo, hi, depth);
    } else {
      SpanEmpty(h, lo, hi);
      total := 0;
    }
  }

  /** The size, group by group: a group of optional fields is skipped when its mask is clear. */
  method HeaderByteSize(h: Header, ghost depth: nat) returns (total: nat)
    requires HeaderOk(h, depth) && |SerializeHeader(h)| < TWO_31
    ensures total == |SerializeHeader(h)|
  {
    SizeByGroups(h);
    NoneOfGroups(h);
    assert UnknownsOk(h.unknown, depth);
    UnknownsSizeExact(h.unknown, depth);
    hide *;
    var typ := GroupSize(h, 1, 2, depth);
    var first := OptionalGroupSize(h, 126, 2, 8, depth);
    var second := OptionalGroupSize(h, 65024, 10, 17, depth);
    var third := OptionalGroupSize(h, 458752, 17, 20, depth);
    var senders := StringsSize(SENDER_ALIASES, h.senderAliases);
    var receivers := StringsSize(RECEIVER_ALIASES, h.receiverAliases);
    total := typ + first + second + third + senders + receivers + UnknownsSize(h.unknown, depth);
  }

  // ----- serialisation into a buffer -----

  method WriteStrings(k: nat, xs: seq<bytes>, a: array<byte>, from: nat, ghost base: bytes, ghost target: nat,
                      ghost done: bytes)
    returns (end: nat)
    requires Written(a, base, target, done, from) && target + |done| + |StringsBytes(k, xs)| <= |base|
    modifies a
    ensures Written(a, base, target, done + StringsBytes(k, xs), end)
  {
    end := from;
    assert done + StringsBytes(k, xs[..0]) == done;
    hide Written, Varint, LengthDelimited;
    for i := 0 to |xs|
      invariant Written(a, base, target, done + StringsBytes(k, xs[..i]), end)
    {
      StringsGrow(k, xs, i);
      ghost var d := done + StringsBytes(k, xs[..i]);
      end := AppendStringField(a, end, TagOf(k), xs[i], base, target, d);
      assert d + (Varint(TagOf(k)) + LengthDelimited(xs[i])) == done + StringsBytes(k, xs[..i + 1]);
    }
    assert xs[..|xs|] == xs;
  }

  method WriteField(h: Header, k: nat, a: array<byte>, from: nat, ghost base: bytes, ghost target: nat,
                    ghost done: bytes)
    returns (end: nat)
    requires Written(a, base, target, done, from) && target + |done| + |FieldBytes(h, k)| <= |base|
    modifies a
    ensures Written(a, base, target, done + FieldBytes(h, k), end)
  {
    if k == SENDER_ALIASES {
      end := WriteStrings(k, h.senderAliases, a, from, base, target, done);
    } else if k == RECEIVER_ALIASES {
      end := WriteStrings(k, h.receiverAliases, a, from, base, target, done);
    } else if k in h.fields {
      match h.fields[k]
      case Enum(e) => end := AppendVarintField(a, from, TagOf(k), e, base, target, done);
      case Int32(i) => end := AppendVarintField(a, from, TagOf(k), SignExtend(i), base, target, done);
      case Str(x) => end := AppendStringField(a, from, TagOf(k), x, base, target, done);
    } else {
      end := from;
      assert done + FieldBytes(h, k) == done;
    }
  }

  lemma OneFieldMore(h: Header, k: nat, d: bytes)
    requires k <= LAST
    ensures d + SerializeFrom(h, k) == (d + FieldBytes(h, k)) + SerializeFrom(h, k + 1)
  {
    hide FieldBytes;
  }

  lemma OnlyUnknowns(h: Header)
    ensures SerializeFrom(h, LAST + 1) == SerializeUnknowns(h.unknown)
  {
  }

  method WriteHeader(h: Header, a: array<byte>, from: nat, ghost base: bytes, ghost target: nat, ghost done: bytes)
    returns (end: nat)
    requires Written(a, base, target, done, from) && target + |done| + |SerializeHeader(h)| <= |base|
    modifies a
    ensures Written(a, base, target, done + SerializeHeader(h), end)
  {
    end := from;
    ghost var d := done;
    hide Written, FieldBytes, SerializeFrom;
    for k := 1 to LAST + 1
      invariant d + SerializeFrom(h, k) == done + SerializeHeader(h)
      invariant Written(a, base, target, d, end)
    {
      OneFieldMore(h, k, d);
      end := WriteField(h, k, a, end, base, target, d);
      d := d + FieldBytes(h, k);
    }
    OnlyUnknowns(h);
    end := AppendRaw(a, end, SerializeUnknowns(h.unknown), base, target, d);
  }

  /** The caller's side: a buffer of exactly the computed size is filled exactly. */
  method SerializeToArray(h: Header, ghost depth: nat) returns (a: array<byte>)
    requires HeaderOk(h, depth) && |SerializeHeader(h)| < TWO_31
    ensures fresh(a) && a[..] == SerializeHeader(h)
  {
    var size := HeaderByteSize(h, depth);
    a := new byte[size](_ => 0);
    ghost var base := a[..];
    hide SerializeHeader;
    assert Splice(base, 0, []) == base;
    var end := WriteHeader(h, a, 0, base, 0, []);
    assert [] + SerializeHeader(h) == SerializeHeader(h);
    SpliceAll(base, SerializeHeader(h));
  }
}
