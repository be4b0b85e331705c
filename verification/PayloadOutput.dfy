/** The payload messages on their way out: the size pre-computation, which caches the size
    of every nested message, and the serialiser, which writes the cached sizes as length
    prefixes into a buffer of exactly the computed size. */
module PayloadOutput {
  import opened Wire
  import opened WireOutput
  import opened PayloadCodec
  import opened PayloadTheorems

  /** The cached sizes of a message and of its nested messages, in order. */
  datatype Sizes = Sizes(size: nat, nested: seq<Sizes>)

  predicate ItemCached(n: Item, k: Sizes)
    decreases n
  {
    && k.size == |SerializeItem(n)|
    && (n.compositeVal.Some? ==> |k.nested| == 1 && CompositeCached(n.compositeVal.value, k.nested[0]))
  }

  predicate CompositeCached(c: Composite, k: Sizes)
    decreases c
  {
    && k.size == |SerializeComposite(c)|
    && ParamsCached(c.param, k.nested)
  }

  predicate ParamsCached(ps: seq<Item>, ks: seq<Sizes>)
    decreases ps
  {
    if ps == [] then ks == []
    else ks != [] && ItemCached(ps[0], ks[0]) && ParamsCached(ps[1..], ks[1..])
  }

  /** The has-bits word: bit i is set when field i + 1 is. */
  function HasBits(n: Item): bv32 {
    (if n.typ.Some? then 1 else 0) | (if n.intVal.Some? then 2 else 0) | (if n.uintVal.Some? then 4 else 0)
    | (if n.doubleVal.Some? then 8 else 0) | (if n.strVal.Some? then 16 else 0)
    | (if n.compositeVal.Some? then 32 else 0)
  }

  lemma NoneOfGroup(n: Item)
    requires HasBits(n) & 62 == 0
    ensures n.intVal.None? && n.uintVal.None? && n.doubleVal.None? && n.strVal.None? && n.compositeVal.None?
  {
  }

  lemma ItemSizeSplit(n: Item)
    ensures |SerializeItem(n)| == |TypeField(n)| + |IntField(n)| + |UintField(n)| + |DoubleField(n)| + |StrField(n)|
                                  + |CompositeField(n)| + |SerializeUnknowns(n.unknown)|
  {
  }

  function EnumSize(v: ParamType): nat { VarintSize(v) }

  lemma ScalarSizes(n: Item)
    ensures |TypeField(n)| == if n.typ.Some? then 1 + EnumSize(n.typ.value) else 0
    ensures |IntField(n)| == if n.intVal.Some? then 1 + VarintSize(SignExtend(n.intVal.value)) else 0
    ensures |UintField(n)| == if n.uintVal.Some? then 1 + VarintSize(n.uintVal.value) else 0
    ensures |DoubleField(n)| == if n.doubleVal.Some? then 1 + 8 else 0
  {
    if n.typ.Some? { VarintSizeExact(n.typ.value); }
    if n.intVal.Some? { VarintSizeExact(SignExtend(n.intVal.value)); }
    if n.uintVal.Some? { VarintSizeExact(n.uintVal.value); }
  }

  lemma NestedSizes(n: Item)
    requires |SerializeItem(n)| < TWO_31
    ensures n.strVal.Some? ==> |n.strVal.value| < TWO_31 && |StrField(n)| == 1 + StringSize(n.strVal.value)
    ensures n.strVal.None? ==> |StrField(n)| == 0
    ensures n.compositeVal.Some? ==>
              var size := |SerializeComposite(n.compositeVal.value)|;
              size < TWO_31 && |CompositeField(n)| == 1 + VarintSize(size) + size
    ensures n.compositeVal.None? ==> |CompositeField(n)| == 0
  {
    ItemSizeSplit(n);
    if n.strVal.Some? { StringSizeExact(n.strVal.value); }
    if n.compositeVal.Some? { StringSizeExact(SerializeComposite(n.compositeVal.value)); }
  }

  /** What is cached below an item: the sizes of its composite, if it has one. */
  predicate NestedCached(n: Item, ks: seq<Sizes>) {
    n.compositeVal.Some? ==> |ks| == 1 && CompositeCached(n.compositeVal.value, ks[0])
  }

  /** The fields 2 to 6, looked at only if the has-bits of the group are not all clear. */
  method GroupByteSize(n: Item, ghost depth: nat) returns (total: nat, nested: seq<Sizes>)
    requires ItemOk(n, depth) && |SerializeItem(n)| < TWO_31
    ensures total == |IntField(n)| + |UintField(n)| + |DoubleField(n)| + |StrField(n)| + |CompositeField(n)|
    ensures NestedCached(n, nested)
    decreases n, 0
  {
    ScalarSizes(n);
    NestedSizes(n);
    hide IntField, UintField, DoubleField, StrField, CompositeField, SerializeItem, CompositeCached, VarintSize;
    total, nested := 0, [];
    if n.intVal.Some? {
      total := total + 1 + VarintSize(SignExtend(n.intVal.value));
    }
    if n.uintVal.Some? {
      total := total + 1 + VarintSize(n.uintVal.value);
    }
    if n.doubleVal.Some? {
      total := total + 1 + 8;
    }
    if n.strVal.Some? {
      total := total + 1 + StringSize(n.strVal.value);
    }
    if n.compositeVal.Some? {
      var c := CompositeByteSize(n.compositeVal.value, depth - 1);
      CachedCompositeSize(n.compositeVal.value, c);
      total := total + 1 + VarintSize(c.size) + c.size;
      nested := [c];
    }
  }

  lemma NoGroup(n: Item)
    requires HasBits(n) & 62 == 0
    ensures |IntField(n)| + |UintField(n)| + |DoubleField(n)| + |StrField(n)| + |CompositeField(n)| == 0
    ensures n.compositeVal.None?
  {
    NoneOfGroup(n);
  }

  method ItemByteSize(n: Item, ghost depth: nat) returns (k: Sizes)
    requires ItemOk(n, depth) && |SerializeItem(n)| < TWO_31
    ensures ItemCached(n, k)
    decreases n, 1
  {
    ItemSizeSplit(n);
    ScalarSizes(n);
    UnknownsSizeExact(n.unknown, depth);
    hide TypeField, IntField, UintField, DoubleField, StrField, CompositeField, SerializeItem, CompositeCached;
    hide EnumSize, UnknownsSize, SerializeUnknowns, UnknownsOk;
    var total, nested := 0, [];
    if n.typ.Some? {
      total := total + 1 + EnumSize(n.typ.value);
    }
    if HasBits(n) & 62 != 0 {
      var group;
      group, nested := GroupByteSize(n, depth);
      total := total + group;
    } else {
      NoGroup(n);
    }
    total := total + UnknownsSize(n.unknown, depth);
    k := Sizes(total, nested);
  }

  lemma CachedCompositeSize(c: Composite, k: Sizes)
    requires CompositeCached(c, k)
    ensures k.size == |SerializeComposite(c)|
  {
  }

  method CompositeByteSize(c: Composite, ghost depth: nat) returns (k: Sizes)
    requires CompositeOk(c, depth) && |SerializeComposite(c)| < TWO_31
    ensures CompositeCached(c, k)
    decreases c, 1
  {
    assert |SerializeComposite(c)| == |SerializeParams(c.param)| + |SerializeUnknowns(c.unknown)|;
    UnknownsSizeExact(c.unknown, depth);
    hide SerializeComposite, SerializeParams, SerializeUnknowns, UnknownsSize, UnknownsOk, ParamsCached, ParamsOk;
    var total, nested := ParamsByteSize(c.param, depth);
    total := total + UnknownsSize(c.unknown, depth);
    k := Sizes(total, nested);
  }

  /** The loop over the repeated field: one tag byte each, counted up front. */
  method ParamsByteSize(ps: seq<Item>, ghost depth: nat) returns (total: nat, nested: seq<Sizes>)
    requires ParamsOk(ps, depth) && |SerializeParams(ps)| < TWO_31
    ensures total == |SerializeParams(ps)| && ParamsCached(ps, nested)
    decreases ps, 0
  {
    total, nested := |ps|, [];
    assert ps[..0] == [];
    assert ParamsCached(ps[..0], nested) && |SerializeParams(ps[..0])| == 0;
    hide *;
    for i := 0 to |ps|
      invariant total == |ps| - i + |SerializeParams(ps[..i])|
      invariant ParamsCached(ps[..i], nested)
    {
      ParamAt(ps, i, depth);
      var p := ItemByteSize(ps[i], depth - 1);
      ParamsStep(ps, i, nested, p);
      CachedItemSize(ps[i], p);
      ParamsGrowBy(ps, i, p.size);
      total := total + VarintSize(p.size) + p.size;
      nested := nested + [p];
    }
    assert ps[..|ps|] == ps;
  }

  lemma FirstParamBounds(ps: seq<Item>)
    requires ps != []
    ensures |SerializeItem(ps[0])| <= |SerializeParams(ps)| && |SerializeParams(ps[1..])| <= |SerializeParams(ps)|
  {
    hide SerializeItem, Varint;
  }

  lemma {:induction false} ParamAt(ps: seq<Item>, i: nat, depth: nat)
    requires i < |ps| && ParamsOk(ps, depth) && |SerializeParams(ps)| < TWO_31
    ensures depth >= 1 && ItemOk(ps[i], depth - 1) && |SerializeItem(ps[i])| < TWO_31
    decreases i
  {
    FirstParamBounds(ps);
    hide SerializeParams, SerializeItem, ItemOk;
    if i > 0 {
      ParamAt(ps[1..], i - 1, depth);
      assert ps[1..][i - 1] == ps[i];
    }
  }

  lemma CachedItemSize(n: Item, k: Sizes)
    requires ItemCached(n, k)
    ensures k.size == |SerializeItem(n)|
  {
  }

  lemma {:induction false} ParamsGrowBy(ps: seq<Item>, i: nat, size: nat)
    requires i < |ps| && |SerializeItem(ps[i])| == size < TWO_31
    ensures |SerializeParams(ps[..i + 1])| == |SerializeParams(ps[..i])| + 1 + VarintSize(size) + size
  {
    assert |Varint(TAG_PARAM)| == 1;
    hide Varint, SerializeItem, SerializeParams, LengthDelimited, VarintSize;
    StringSizeExact(SerializeItem(ps[i]));
    ParamsGrow(ps, i);
  }

  lemma TakeOneMore<T>(s: seq<T>, i: nat)
    requires i < |s|
    ensures s[..i + 1] == s[..i] + [s[i]]
  {
  }

  lemma {:induction false} ParamsStep(ps: seq<Item>, i: nat, ks: seq<Sizes>, k: Sizes)
    requires i < |ps| && ParamsCached(ps[..i], ks) && ItemCached(ps[i], k)
    ensures ParamsCached(ps[..i + 1], ks + [k])
  {
    hide *;
    TakeOneMore(ps, i);
    ParamsAppend(ps[..i], ps[i], ks, k);
  }

  lemma {:induction false} ParamsAppend(ps: seq<Item>, p: Item, ks: seq<Sizes>, k: Sizes)
    requires ParamsCached(ps, ks) && ItemCached(p, k)
    ensures ParamsCached(ps + [p], ks + [k])
    decreases ps
  {
    if ps != [] {
      ParamsAppend(ps[1..], p, ks[1..], k);
      assert (ps + [p])[1..] == ps[1..] + [p];
      assert (ks + [k])[1..] == ks[1..] + [k];
    }
  }

  // ----- serialisation into a buffer -----

  lemma NothingMore(d: bytes)
    ensures d + [] == d
  {
  }

  method WriteScalars(n: Item, a: array<byte>, from: nat, ghost base: bytes, ghost target: nat, ghost done: bytes)
    returns (end: nat)
    requires Written(a, base, target, done, from)
    requires target + |done| + |TypeField(n)| + |IntField(n)| + |UintField(n)| + |DoubleField(n)| <= |base|
    modifies a
    ensures Written(a, base, target, (((done + TypeField(n)) + IntField(n)) + UintField(n)) + DoubleField(n), end)
  {
    end := from;
    ghost var d := done;
    hide Varint, Written;
    NothingMore(d);
    if n.typ.Some? {
      end := AppendVarintField(a, end, TAG_TYPE, SignExtend(n.typ.value), base, target, d);
    }
    d := d + TypeField(n);
    NothingMore(d);
    if n.intVal.Some? {
      end := AppendVarintField(a, end, TAG_INT, SignExtend(n.intVal.value), base, target, d);
    }
    d := d + IntField(n);
    NothingMore(d);
    if n.uintVal.Some? {
      end := AppendVarintField(a, end, TAG_UINT, n.uintVal.value, base, target, d);
    }
    d := d + UintField(n);
    NothingMore(d);
    if n.doubleVal.Some? {
      end := AppendRawField(a, end, TAG_DOUBLE, n.doubleVal.value, base, target, d);
    }
  }

  lemma WholeItem(n: Item, done: bytes)
    ensures (((((((done + TypeField(n)) + IntField(n)) + UintField(n)) + DoubleField(n)) + StrField(n))
              + CompositeField(n)) + SerializeUnknowns(n.unknown)) == done + SerializeItem(n)
  {
    var s6 := SerializeUnknowns(n.unknown);
    var s5 := CompositeField(n) + s6;
    var s4 := StrField(n) + s5;
    var s3 := DoubleField(n) + s4;
    var s2 := UintField(n) + s3;
    var s1 := IntField(n) + s2;
    var d1 := done + TypeField(n);
    var d2 := d1 + IntField(n);
    var d3 := d2 + UintField(n);
    var d4 := d3 + DoubleField(n);
    var d5 := d4 + StrField(n);
    assert SerializeItem(n) == TypeField(n) + s1;
    hide *;
    Assoc(done, TypeField(n), s1);
    Assoc(d1, IntField(n), s2);
    Assoc(d2, UintField(n), s3);
    Assoc(d3, DoubleField(n), s4);
    Assoc(d4, StrField(n), s5);
    Assoc(d5, CompositeField(n), s6);
  }

  /** Writes `n` from `from` on; each nested message is preceded by its cached size. */
  method WriteItem(n: Item, k: Sizes, a: array<byte>, from: nat, ghost base: bytes, ghost target: nat, ghost done: bytes)
    returns (end: nat)
    requires ItemCached(n, k)
    requires Written(a, base, target, done, from) && target + |done| + |SerializeItem(n)| <= |base|
    modifies a
    ensures Written(a, base, target, done + SerializeItem(n), end)
    decreases n, 1
  {
    ItemSizeSplit(n);
    WholeItem(n, done);
    hide SerializeItem, SerializeComposite, SerializeUnknowns, Varint, Written, LengthDelimited;
    end := WriteScalars(n, a, from, base, target, done);
    ghost var d := (((done + TypeField(n)) + IntField(n)) + UintField(n)) + DoubleField(n);
    hide TypeField, IntField, UintField, DoubleField;
    NothingMore(d);
    if n.strVal.Some? {
      end := AppendStringField(a, end, TAG_STR, n.strVal.value, base, target, d);
    }
    d := d + StrField(n);
    hide StrField;
    NothingMore(d);
    if n.compositeVal.Some? {
      end := WriteCompositeField(n.compositeVal.value, k.nested[0], a, end, base, target, d);
    }
    d := d + CompositeField(n);
    end := AppendRaw(a, end, SerializeUnknowns(n.unknown), base, target, d);
  }

  method WriteCompositeField(c: Composite, k: Sizes, a: array<byte>, from: nat, ghost base: bytes, ghost target: nat,
                             ghost done: bytes)
    returns (end: nat)
    requires CompositeCached(c, k)
    requires Written(a, base, target, done, from)
    requires target + |done| + |Varint(TAG_COMPOSITE) + LengthDelimited(SerializeComposite(c))| <= |base|
    modifies a
    ensures Written(a, base, target, done + (Varint(TAG_COMPOSITE) + LengthDelimited(SerializeComposite(c))), end)
    decreases c, 1
  {
    CachedCompositeSize(c, k);
    end := AppendVarintField(a, from, TAG_COMPOSITE, k.size, base, target, done);
    ghost var d := done + (Varint(TAG_COMPOSITE) + Varint(k.size));
    end := WriteComposite(c, k, a, end, base, target, d);
    assert d + SerializeComposite(c) == done + (Varint(TAG_COMPOSITE) + LengthDelimited(SerializeComposite(c)));
  }

  method WriteComposite(c: Composite, k: Sizes, a: array<byte>, from: nat, ghost base: bytes, ghost target: nat,
                        ghost done: bytes)
    returns (end: nat)
    requires CompositeCached(c, k)
    requires Written(a, base, target, done, from) && target + |done| + |SerializeComposite(c)| <= |base|
    modifies a
    ensures Written(a, base, target, done + SerializeComposite(c), end)
    decreases c, 0
  {
    ghost var d := done;
    end := from;
    NothingMore(done);
    assert SerializeComposite(c) == SerializeParams(c.param) + SerializeUnknowns(c.unknown);
    assert SerializeParams(c.param[..0]) == [];
    Assoc(done, SerializeParams(c.param), SerializeUnknowns(c.unknown));
    hide *;
    for i := 0 to |c.param|
      invariant d == done + SerializeParams(c.param[..i])
      invariant Written(a, base, target, d, end)
    {
      end := WriteParam(c.param, i, k.nested, a, end, base, target, done);
      d := done + SerializeParams(c.param[..i + 1]);
    }
    assert c.param[..|c.param|] == c.param;
    end := AppendRaw(a, end, SerializeUnknowns(c.unknown), base, target, d);
  }

  method WriteParam(ps: seq<Item>, i: nat, ks: seq<Sizes>, a: array<byte>, from: nat, ghost base: bytes,
                    ghost target: nat, ghost done: bytes)
    returns (end: nat)
    requires i < |ps| && ParamsCached(ps, ks)
    requires Written(a, base, target, done + SerializeParams(ps[..i]), from)
    requires target + |done| + |SerializeParams(ps)| <= |base|
    modifies a
    ensures Written(a, base, target, done + SerializeParams(ps[..i + 1]), end)
    decreases ps, 1
  {
    CachedAt(ps, ks, i);
    ParamsGrow(ps, i);
    var p, k := ps[i], ks[i];
    ghost var d := done + SerializeParams(ps[..i]);
    ghost var prefix := Varint(TAG_PARAM) + Varint(k.size);
    Assoc(Varint(TAG_PARAM), Varint(k.size), SerializeItem(p));
    Assoc(d, prefix, SerializeItem(p));
    Assoc(done, SerializeParams(ps[..i]), Varint(TAG_PARAM) + LengthDelimited(SerializeItem(p)));
    hide SerializeItem, SerializeParams, Varint, Written;
    end := AppendVarintField(a, from, TAG_PARAM, k.size, base, target, d);
    end := WriteItem(p, k, a, end, base, target, d + prefix);
  }

  lemma {:induction false} CachedAt(ps: seq<Item>, ks: seq<Sizes>, i: nat)
    requires i < |ps| && ParamsCached(ps, ks)
    ensures i < |ks| && ItemCached(ps[i], ks[i]) && ks[i].size == |SerializeItem(ps[i])|
  {
    hide SerializeItem, SerializeComposite, CompositeCached;
    if i > 0 {
      hide ItemCached;
      CachedAt(ps[1..], ks[1..], i - 1);
    }
  }

  lemma Regroup(a: bytes, b: bytes, c: bytes, d: bytes)
    ensures (a + (b + c)) + d == a + (b + (c + d))
  {
  }

  lemma {:induction false} ParamsConcat(ps: seq<Item>, qs: seq<Item>)
    ensures SerializeParams(ps + qs) == SerializeParams(ps) + SerializeParams(qs)
  {
    hide SerializeItem, Varint, LengthDelimited;
    if ps == [] {
      assert ps + qs == qs;
    } else {
      ParamsConcat(ps[1..], qs);
      assert (ps + qs)[1..] == ps[1..] + qs;
      Regroup(Varint(TAG_PARAM), LengthDelimited(SerializeItem(ps[0])), SerializeParams(ps[1..]), SerializeParams(qs));
    }
  }

  lemma ParamsGrow(ps: seq<Item>, i: nat)
    requires i < |ps|
    ensures SerializeParams(ps[..i + 1])
         == SerializeParams(ps[..i]) + (Varint(TAG_PARAM) + LengthDelimited(SerializeItem(ps[i])))
    ensures |SerializeParams(ps[..i + 1])| <= |SerializeParams(ps)|
  {
    hide SerializeItem, Varint, LengthDelimited;
    assert ps[..i + 1] == ps[..i] + [ps[i]] && ps == ps[..i + 1] + ps[i + 1..];
    ParamsConcat(ps[..i], [ps[i]]);
    ParamsConcat(ps[..i + 1], ps[i + 1..]);
  }

  /** The caller's side: a buffer of exactly the computed size is filled exactly. */
  method SerializeToArray(n: Item, ghost depth: nat) returns (a: array<byte>)
    requires ItemOk(n, depth) && |SerializeItem(n)| < TWO_31
    ensures fresh(a) && a[..] == SerializeItem(n)
  {
    var k := ItemByteSize(n, depth);
    CachedItemSize(n, k);
    hide SerializeItem, ItemOk, ItemCached;
    a := new byte[k.size](_ => 0);
    ghost var base := a[..];
    assert Splice(base, 0, []) == base;
    var end := WriteItem(n, k, a, 0, base, 0, []);
    assert [] + SerializeItem(n) == SerializeItem(n);
    SpliceAll(base, SerializeItem(n));
  }
}
