/** Writing wire primitives into a caller's buffer, and the sizes that are computed
    before anything is written. */
module WireOutput {
  import opened Wire

  /** `buf` with the bytes from `at` on replaced by `x`. */
  function Splice(buf: bytes, at: nat, x: bytes): (r: bytes)
    requires at + |x| <= |buf|
    ensures |r| == |buf|
  {
    buf[..at] + x + buf[at + |x|..]
  }

  lemma SpliceTwice(buf: bytes, at: nat, x: bytes, y: bytes)
    requires at + |x| + |y| <= |buf|
    ensures Splice(Splice(buf, at, x), at + |x|, y) == Splice(buf, at, x + y)
  {
  }

  /** A value and its bytes when the buffer is exactly as long as they are. */
  lemma SpliceAll(buf: bytes, x: bytes)
    requires |buf| == |x|
    ensures Splice(buf, 0, x) == x
  {
  }

  method PutByte(a: array<byte>, at: nat, b: byte)
    requires at < a.Length
    modifies a
    ensures a[..] == Splice(old(a[..]), at, [b])
  {
    a[at] := b;
  }

  method WriteRaw(a: array<byte>, target: nat, x: bytes) returns (end: nat)
    requires target + |x| <= a.Length
    modifies a
    ensures end == target + |x|
    ensures a[..] == Splice(old(a[..]), target, x)
  {
    assert Splice(a[..], target, x[..0]) == a[..];
    hide Splice;
    for i := 0 to |x|
      invariant a[..] == Splice(old(a[..]), target, x[..i])
    {
      SpliceTwice(old(a[..]), target, x[..i], [x[i]]);
      assert x[..i] + [x[i]] == x[..i + 1];
      PutByte(a, target + i, x[i]);
    }
    assert x[..|x|] == x;
    end := target + |x|;
  }

  lemma VarintShift(done: bytes, v: nat)
    requires v >= 128
    ensures done + Varint(v) == (done + [128 + v % 128]) + Varint(v / 128)
  {
  }

  lemma LastVarintByte(v: nat)
    requires v < 128
    ensures Varint(v) == [v]
  {
  }

  method WriteVarint(a: array<byte>, target: nat, value: nat) returns (end: nat)
    requires target + |Varint(value)| <= a.Length
    modifies a
    ensures end == target + |Varint(value)|
    ensures a[..] == Splice(old(a[..]), target, Varint(value))
  {
    var v := value;
    ghost var done: bytes := [];
    end := target;
    assert Splice(a[..], target, []) == a[..];
    hide Splice, Varint;
    while v >= 0x80
      invariant end == target + |done| && done + Varint(v) == Varint(value)
      invariant a[..] == Splice(old(a[..]), target, done)
      decreases v
    {
      var b: byte := 128 + v % 128;
      SpliceTwice(old(a[..]), target, done, [b]);
      PutByte(a, end, b);
      VarintShift(done, v);
      done, v, end := done + [b], v / 128, end + 1;
    }
    LastVarintByte(v);
    SpliceTwice(old(a[..]), target, done, [v]);
    PutByte(a, end, v);
    end := end + 1;
  }

  // ----- writing one record after another -----

  /** `a` holds `base` with `done` written from `target` on, and the next byte goes to `end`. */
  ghost predicate Written(a: array<byte>, base: bytes, target: nat, done: bytes, end: nat)
    reads a
  {
    && target + |done| <= |base|
    && a[..] == Splice(base, target, done)
    && end == target + |done|
  }

  method AppendRaw(a: array<byte>, from: nat, x: bytes, ghost base: bytes, ghost target: nat, ghost done: bytes)
    returns (end: nat)
    requires Written(a, base, target, done, from) && target + |done| + |x| <= |base|
    modifies a
    ensures Written(a, base, target, done + x, end)
  {
    end := WriteRaw(a, from, x);
    SpliceTwice(base, target, done, x);
  }

  method AppendVarint(a: array<byte>, from: nat, v: nat, ghost base: bytes, ghost target: nat, ghost done: bytes)
    returns (end: nat)
    requires Written(a, base, target, done, from) && target + |done| + |Varint(v)| <= |base|
    modifies a
    ensures Written(a, base, target, done + Varint(v), end)
  {
    end := WriteVarint(a, from, v);
    SpliceTwice(base, target, done, Varint(v));
  }

  method AppendVarintField(a: array<byte>, from: nat, tag: nat, v: nat, ghost base: bytes, ghost target: nat,
                           ghost done: bytes)
    returns (end: nat)
    requires Written(a, base, target, done, from) && target + |done| + |Varint(tag) + Varint(v)| <= |base|
    modifies a
    ensures Written(a, base, target, done + (Varint(tag) + Varint(v)), end)
  {
    end := AppendVarint(a, from, tag, base, target, done);
    end := AppendVarint(a, end, v, base, target, done + Varint(tag));
    assert (done + Varint(tag)) + Varint(v) == done + (Varint(tag) + Varint(v));
  }

  method AppendRawField(a: array<byte>, from: nat, tag: nat, x: bytes, ghost base: bytes, ghost target: nat,
                        ghost done: bytes)
    returns (end: nat)
    requires Written(a, base, target, done, from) && target + |done| + |Varint(tag) + x| <= |base|
    modifies a
    ensures Written(a, base, target, done + (Varint(tag) + x), end)
  {
    end := AppendVarint(a, from, tag, base, target, done);
    end := AppendRaw(a, end, x, base, target, done + Varint(tag));
    assert (done + Varint(tag)) + x == done + (Varint(tag) + x);
  }

  method AppendStringField(a: array<byte>, from: nat, tag: nat, x: bytes, ghost base: bytes, ghost target: nat,
                           ghost done: bytes)
    returns (end: nat)
    requires Written(a, base, target, done, from) && target + |done| + |Varint(tag) + LengthDelimited(x)| <= |base|
    modifies a
    ensures Written(a, base, target, done + (Varint(tag) + LengthDelimited(x)), end)
  {
    end := AppendVarintField(a, from, tag, |x|, base, target, done);
    end := AppendRaw(a, end, x, base, target, done + (Varint(tag) + Varint(|x|)));
    assert (done + (Varint(tag) + Varint(|x|))) + x == done + (Varint(tag) + LengthDelimited(x));
  }

  // ----- sizes -----

  function StringSize(s: bytes): (n: nat)
    requires |s| < TWO_64
  {
    VarintSize(|s|) + |s|
  }

  lemma StringSizeExact(s: bytes)
    requires |s| < TWO_64
    ensures StringSize(s) == |LengthDelimited(s)|
  {
    VarintSizeExact(|s|);
  }

  function UnknownSize(u: Unknown, ghost depth: nat): (n: nat)
    requires UnknownOk(u, depth)
    decreases u
  {
    VarintSize(u.Tag()) + match u
                          case UVarint(_, v) => VarintSize(v)
                          case UFixed64(_, _) => 8
                          case ULength(_, raw) => StringSize(raw)
                          case UGroup(_, fields) => UnknownsSize(fields, depth - 1) + VarintSize(u.Tag() + 1)
                          case UFixed32(_, _) => 4
  }

  function UnknownsSize(us: seq<Unknown>, ghost depth: nat): (n: nat)
    requires UnknownsOk(us, depth)
    decreases us
  {
    if us == [] then 0 else UnknownSize(us[0], depth) + UnknownsSize(us[1..], depth)
  }

  lemma {:induction false} UnknownSizeExact(u: Unknown, depth: nat)
    requires UnknownOk(u, depth)
    ensures UnknownSize(u, depth) == |SerializeUnknown(u)|
    decreases u
  {
    VarintSizeExact(u.Tag());
    match u
    case UVarint(_, v) => VarintSizeExact(v);
    case UFixed64(_, _) =>
    case ULength(_, raw) => StringSizeExact(raw);
    case UGroup(_, fields) =>
      VarintSizeExact(u.Tag() + 1);
      UnknownsSizeExact(fields, depth - 1);
    case UFixed32(_, _) =>
  }

  lemma {:induction false} UnknownsSizeExact(us: seq<Unknown>, depth: nat)
    requires UnknownsOk(us, depth)
    ensures UnknownsSize(us, depth) == |SerializeUnknowns(us)|
    decreases us
  {
    if us != [] {
      UnknownSizeExact(us[0], depth);
      UnknownsSizeExact(us[1..], depth);
    }
  }
}
