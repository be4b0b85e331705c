/** What comes back of a D-Bus message that is translated there and back, with the signature it was traced
    with. */
module TranslationTheorems {
  import opened Wire
  import opened PayloadCodec
  import opened Initialization
  import PayloadTheorems
  import opened Translation

  // ----- the cursor -----

  function Cursor(sig: string, k: nat): string { if k == 0 then sig else Erased(Cursor(sig, k - 1)) }

  /** How many characters can be erased: up to the last `a`. */
  function Reach(sig: string): nat { if 'a' in sig then 1 + Reach(sig[1..]) else 0 }

  lemma {:induction false} ReachIsLastArray(sig: string)
    ensures Reach(sig) <= |sig| && 'a' !in sig[Reach(sig)..]
    ensures Reach(sig) > 0 ==> sig[Reach(sig) - 1] == 'a'
  {
    if 'a' in sig {
      ReachIsLastArray(sig[1..]);
      assert sig[1..][Reach(sig[1..])..] == sig[Reach(sig)..];
      if Reach(sig[1..]) == 0 {
        assert sig == [sig[0]] + sig[1..] && 'a' !in sig[1..][0..] && sig[1..][0..] == sig[1..];
      }
    } else {
      assert sig[0..] == sig;
    }
  }

  /** After `k` items the cursor has moved `k` characters, but never past the last array of the message. */
  lemma {:induction false} CursorIs(sig: string, k: nat)
    ensures Reach(sig) <= |sig|
    ensures Cursor(sig, k) == sig[if k < Reach(sig) then k else Reach(sig)..]
  {
    ReachIsLastArray(sig);
    if k > 0 {
      CursorIs(sig, k - 1);
      if k - 1 < Reach(sig) {
        var rest := sig[k - 1..];
        assert rest[Reach(sig) - k] == 'a';
        assert rest[1..] == sig[k..];
      }
    }
  }

  lemma {:induction false} CursorAdds(sig: string, k: nat, n: nat)
    ensures Cursor(Cursor(sig, k), n) == Cursor(sig, k + n)
  {
    if n > 0 {
      CursorAdds(sig, k, n - 1);
    }
  }

  /** The items a value takes, itself included. */
  function Calls(v: Value): nat
    decreases v
  {
    if v.Container? then 1 + CallsAll(v.children) else 1
  }

  function CallsAll(vs: seq<Value>): nat
    decreases vs
  {
    if vs == [] then 0 else Calls(vs[0]) + CallsAll(vs[1..])
  }

  // ----- what must hold of a value -----

  /** The value without its parts of unknown type. */
  function Pruned(v: Value): seq<Value>
    decreases v
  {
    match v
    case Foreign => []
    case Container(k, cs) => [Container(k, PrunedAll(cs))]
    case _ => [v]
  }

  function PrunedAll(cs: seq<Value>): seq<Value>
    decreases cs
  {
    if cs == [] then [] else Pruned(cs[0]) + PrunedAll(cs[1..])
  }

  predicate Known(v: Value) {
    match v
    case Foreign => false
    case Container(_, cs) => forall c | c in cs :: Known(c)
    case _ => true
  }

  /** A negative 16-bit number travels as a large positive one, and is recovered by truncation. */
  lemma ShortComesBack(n: int16)
    ensures ToInt32(LowBytes(n, 2)) == (if n < 0 then n + 0x1_0000 else n)
    ensures ToInt16(ToInt32(LowBytes(n, 2))) == n
  {
    assert LowBytes(n, 2) == if n < 0 then n + 0x1_0000 else n;
  }

  lemma IntComesBack(n: int32)
    ensures ToInt32(LowBytes(n, 4)) == n && ToInt32(SignExtend(n)) == n
  {
    assert LowBytes(n, 4) == if n < 0 then n + TWO_32 else n;
    assert SignExtend(n) % TWO_32 == if n < 0 then n + TWO_32 else n;
  }

  lemma UnsignedComesBack(b: byte, h: uint16, u: uint32)
    ensures ToInt32(LowBytes(b, 1)) % 0x100 == b
    ensures LowBytes(h, 2) % 0x1_0000 == h && LowBytes(u, 4) % 0x1_0000_0000 == u
  {
  }

  lemma NumberComesBack(v: Value)
    requires v.Byte? || v.Int16? || v.Int32? || v.UInt16? || v.UInt32?
    ensures Basic(ToItem(v)) == [v]
  {
    match v {
      case Byte(b) => UnsignedComesBack(b, 0, 0);
      case Int16(n) => ShortComesBack(n);
      case Int32(n) => IntComesBack(n);
      case UInt16(h) => UnsignedComesBack(0, h, 0);
      case UInt32(u) => UnsignedComesBack(0, 0, u);
    }
    hide LowBytes, ToInt32, SignExtend, ToInt16;
  }

  lemma FlagComesBack(b: bool)
    ensures Basic(ToItem(Boolean(b))) == [Boolean(b)]
  {
    IntComesBack(if b then 1 else 0);
    hide LowBytes, ToInt32, SignExtend;
  }

  lemma TextComesBack(t: TextKind, s: text)
    ensures Basic(ToItem(Text(t, s))) == [Text(t, s)]
  {
    CutKeeps(s);
    hide Cut;
  }

  lemma LeafComesBack(v: Value)
    requires Narrow(v) && !v.Container? && !v.Foreign?
    ensures Basic(ToItem(v)) == [v]
  {
    match v
    case Boolean(b) => FlagComesBack(b);
    case Text(t, s) => TextComesBack(t, s);
    case Double(_) =>
    case _ => NumberComesBack(v);
  }

  lemma {:induction false} PruningKnown(v: Value)
    ensures Pruned(v) == [v] <==> Known(v)
    ensures |Pruned(v)| <= 1
    decreases v
  {
    match v
    case Container(k, cs) => PruningChildren(cs);
    case _ =>
  }

  lemma {:induction false} PruningChildren(cs: seq<Value>)
    ensures PrunedAll(cs) == cs <==> forall c | c in cs :: Known(c)
    ensures |PrunedAll(cs)| <= |cs|
    decreases cs
  {
    if cs != [] {
      PruningKnown(cs[0]);
      PruningChildren(cs[1..]);
      hide Pruned, Known;
      assert cs == [cs[0]] + cs[1..];
      if PrunedAll(cs) == cs {
        assert PrunedAll(cs)[1..] == cs[1..] && PrunedAll(cs)[..1] == [cs[0]];
        assert PrunedAll(cs)[..1] == Pruned(cs[0]) && PrunedAll(cs)[1..] == PrunedAll(cs[1..]);
      }
    }
  }

  /** Every variant holds exactly one basic value. Arrays have a type of elements, which what is known of them is
      of; of a structure there is something known, and of an entry a basic key and a value. */
  predicate Sendable(v: Value)
    decreases v
  {
    if v.Container? then
      && SendableAll(v.children)
      && (v.kind.Variant? ==> |v.children| == 1 && IsBasic(v.children[0]))
      && (v.kind.Array? ==> v.kind.elem != "" && forall c | c in PrunedAll(v.children) :: SignatureOf(c) == v.kind.elem)
      && (v.kind.Struct? ==> PrunedAll(v.children) != [])
      && (v.kind.DictEntry? ==> |PrunedAll(v.children)| == 2 && IsBasic(PrunedAll(v.children)[0]))
    else true
  }

  predicate SendableAll(vs: seq<Value>)
    decreases vs
  {
    vs != [] ==> Sendable(vs[0]) && SendableAll(vs[1..])
  }

  /** Each array is reached when the type of its elements is the first one at the cursor, the first item of `v`
      being item `k` of the message. */
  predicate ArraysAt(v: Value, sig: string, k: nat)
    decreases v
  {
    v.Container? ==>
      && (v.kind.Array? ==> v.kind.elem == FirstType(Cursor(sig, k + 1)))
      && AllArraysAt(v.children, sig, k + 1)
  }

  predicate AllArraysAt(vs: seq<Value>, sig: string, k: nat)
    decreases vs
  {
    vs != [] ==> ArraysAt(vs[0], sig, k) && AllArraysAt(vs[1..], sig, k + Calls(vs[0]))
  }

  // ----- there and back -----

  /** Whatever is appended, the cursor moves by one for each item. */
  lemma {:induction false} CursorMoves(v: Value, cursor: string)
    requires Narrow(v)
    ensures var b := Appended(ToItem(v), cursor);
            b.Built? ==> |b.values| <= 1 && b.cursor == Cursor(cursor, Calls(v))
    decreases v
  {
    assert Cursor(cursor, 0) == cursor && Cursor(cursor, 1) == Erased(cursor);
    if v.Container? {
      CursorMovesAll(v.children, Erased(cursor));
      CursorAdds(cursor, 1, CallsAll(v.children));
      ContainerAppends(v.kind, v.children, cursor);
      hide Appended, AppendedAll, ToItem, ToItems;
    } else {
      BasicIsOne(ToItem(v));
    }
    hide Basic, Admits, Cursor;
  }

  lemma BasicIsOne(e: Item)
    ensures |Basic(e)| <= 1
  {
  }

  /** The first of some items, and the rest of them. */
  lemma AppendedFirst(vs: seq<Value>, cursor: string)
    requires vs != [] && forall v | v in vs :: Narrow(v)
    ensures var first := Appended(ToItem(vs[0]), cursor);
            var rest := if first.Built? then AppendedAll(ToItems(vs[1..]), first.cursor) else Refused;
            AppendedAll(ToItems(vs), cursor) ==
            if rest.Refused? then Refused else Built(first.values + rest.values, rest.cursor)
  {
    var items := ToItems(vs);
    assert items[0] == ToItem(vs[0]) && items[1..] == ToItems(vs[1..]);
    hide Appended, ToItem, ToItems;
  }

  lemma {:induction false} CursorMovesAll(vs: seq<Value>, cursor: string)
    requires forall v | v in vs :: Narrow(v)
    ensures var b := AppendedAll(ToItems(vs), cursor);
            b.Built? ==> |b.values| <= |vs| && b.cursor == Cursor(cursor, CallsAll(vs))
    decreases vs
  {
    if vs != [] {
      AppendedFirst(vs, cursor);
      CursorMoves(vs[0], cursor);
      var b := Appended(ToItem(vs[0]), cursor);
      hide Appended, AppendedAll, ToItem, ToItems, Cursor, Calls;
      if b.Built? {
        CursorMovesAll(vs[1..], b.cursor);
        CursorAdds(cursor, Calls(vs[0]), CallsAll(vs[1..]));
      }
    }
  }

  lemma ContainerAppends(k: Kind, cs: seq<Value>, cursor: string)
    requires forall c | c in cs :: Narrow(c)
    ensures Appended(ToItem(Container(k, cs)), cursor)
         == Closed(if k.Array? then Array(FirstType(Erased(cursor))) else k,
                   ToItems(cs), AppendedAll(ToItems(cs), Erased(cursor)))
  {
    var e := ToItem(Container(k, cs));
    assert e == ContainerItem(k, ToItems(cs)) && Params(e) == ToItems(cs);
    assert ToItems(cs) == [] ==> AppendedAll(ToItems(cs), Erased(cursor)) == Built([], Erased(cursor));
    hide Closed, Erased, FirstType, ToItem, ToItems;
  }

  /** The signature taken for a variant is that of its content exactly when the content is basic. */
  lemma VariantSignature(v: Value)
    requires Narrow(v)
    ensures GetSignatureType(ToItem(v)) == SignatureOf(v) <==> IsBasic(v)
    ensures !IsBasic(v) ==> GetSignatureType(ToItem(v)) == ""
  {
    hide SignatureOfAll, ToItems;
  }

  /** Every value whose containers libdbus admits comes back, less its parts of unknown type. */
  lemma {:induction false} ComesBackPruned(v: Value, sig: string, k: nat)
    requires Narrow(v) && Sendable(v) && ArraysAt(v, sig, k)
    ensures Appended(ToItem(v), Cursor(sig, k)) == Built(Pruned(v), Cursor(sig, k + Calls(v)))
    decreases v, 1
  {
    if v.Container? {
      ContainerComesBack(v, sig, k);
    } else {
      assert Cursor(sig, k + 1) == Erased(Cursor(sig, k));
      if !v.Foreign? {
        LeafComesBack(v);
      }
      hide Basic, Cursor;
    }
  }

  lemma AdmittedWhenSendable(v: Value)
    requires v.Container? && Narrow(v) && Sendable(v)
    ensures Admits(v.kind, ToItems(v.children), PrunedAll(v.children))
  {
    if v.kind.Variant? {
      VariantSignature(v.children[0]);
      assert PrunedAll(v.children) == [v.children[0]] && ToItems(v.children)[0] == ToItem(v.children[0]);
      hide PrunedAll;
    }
    hide GetSignatureType, ToItem, ToItems, SendableAll;
  }

  lemma {:induction false} ContainerComesBack(v: Value, sig: string, k: nat)
    requires v.Container? && Narrow(v) && Sendable(v) && ArraysAt(v, sig, k)
    ensures Appended(ToItem(v), Cursor(sig, k)) == Built(Pruned(v), Cursor(sig, k + Calls(v)))
    decreases v, 0
  {
    assert Cursor(sig, k + 1) == Erased(Cursor(sig, k));
    ContainerAppends(v.kind, v.children, Cursor(sig, k));
    AdmittedWhenSendable(v);
    hide Appended, AppendedAll, ToItem, ToItems, Cursor, CallsAll, SendableAll, AllArraysAt, PrunedAll, Admits;
    assert Pruned(v) == [Container(v.kind, PrunedAll(v.children))] && Calls(v) == 1 + CallsAll(v.children);
    assert v.kind.Array? ==> v.kind.elem == FirstType(Cursor(sig, k + 1));
    ChildrenComeBack(v.children, sig, k + 1);
    hide Narrow, Sendable, ArraysAt, Pruned, Calls;
  }

  lemma {:induction false} ChildrenComeBack(vs: seq<Value>, sig: string, k: nat)
    requires (forall v | v in vs :: Narrow(v)) && SendableAll(vs) && AllArraysAt(vs, sig, k)
    ensures AppendedAll(ToItems(vs), Cursor(sig, k)) == Built(PrunedAll(vs), Cursor(sig, k + CallsAll(vs)))
    decreases vs, 2
  {
    if vs != [] {
      AppendedFirst(vs, Cursor(sig, k));
      ComesBackPruned(vs[0], sig, k);
      hide Appended, AppendedAll, ToItem, ToItems, Pruned, Cursor, Calls, Sendable, ArraysAt;
      ChildrenComeBack(vs[1..], sig, k + Calls(vs[0]));
    }
  }

  /** Nothing else comes back as it was. */
  lemma {:induction false} ComesBackOnlyIf(v: Value, sig: string, k: nat)
    requires Narrow(v)
    requires var b := Appended(ToItem(v), Cursor(sig, k)); b.Built? && b.values == [v]
    ensures Known(v) && Sendable(v) && ArraysAt(v, sig, k)
    decreases v
  {
    if v.Container? {
      hide Appended, AppendedAll, ToItem, ToItems, Cursor, SendableAll, AllArraysAt, Admits, FirstType, Sendable;
      BuiltOfChildren(v, sig, k);
      ChildrenOnlyIf(v.children, sig, k + 1);
      SendableWhenAdmitted(v);
    }
  }

  /** A container that comes back was built of what its children came back as. */
  lemma BuiltOfChildren(v: Value, sig: string, k: nat)
    requires v.Container? && Narrow(v)
    requires var b := Appended(ToItem(v), Cursor(sig, k)); b.Built? && b.values == [v]
    ensures var b := AppendedAll(ToItems(v.children), Cursor(sig, k + 1)); b.Built? && b.values == v.children
    ensures Admits(v.kind, ToItems(v.children), v.children)
    ensures v.kind.Array? ==> v.kind.elem == FirstType(Cursor(sig, k + 1))
  {
    assert Cursor(sig, k + 1) == Erased(Cursor(sig, k));
    ContainerAppends(v.kind, v.children, Cursor(sig, k));
    assert v == Container(v.kind, v.children);
    hide Appended, AppendedAll, ToItem, ToItems, Cursor, Admits, FirstType, Narrow;
  }

  lemma SendableWhenAdmitted(v: Value)
    requires v.Container? && Narrow(v) && SendableAll(v.children) && (forall c | c in v.children :: Known(c))
    requires Admits(v.kind, ToItems(v.children), v.children)
    ensures Sendable(v)
  {
    PruningChildren(v.children);
    if v.kind.Variant? {
      VariantSignature(v.children[0]);
      assert ToItems(v.children)[0] == ToItem(v.children[0]);
    }
    hide GetSignatureType, SendableAll, ToItem, ToItems, PrunedAll;
  }

  lemma OneEach(first: seq<Value>, rest: seq<Value>, vs: seq<Value>)
    requires vs != [] && first + rest == vs && |first| <= 1 && |rest| <= |vs| - 1
    ensures first == [vs[0]] && rest == vs[1..]
  {
  }

  /** If some items come back as they were, so does the first one, and so do the others after it. */
  lemma {:induction false} SplitReturn(vs: seq<Value>, sig: string, k: nat)
    requires vs != [] && forall v | v in vs :: Narrow(v)
    requires var b := AppendedAll(ToItems(vs), Cursor(sig, k)); b.Built? && b.values == vs
    ensures var b := Appended(ToItem(vs[0]), Cursor(sig, k)); b.Built? && b.values == [vs[0]]
    ensures var b := AppendedAll(ToItems(vs[1..]), Cursor(sig, k + Calls(vs[0]))); b.Built? && b.values == vs[1..]
  {
    AppendedFirst(vs, Cursor(sig, k));
    CursorMoves(vs[0], Cursor(sig, k));
    CursorAdds(sig, k, Calls(vs[0]));
    hide Appended, AppendedAll, ToItem, ToItems, Cursor, Calls, Narrow;
    var first := Appended(ToItem(vs[0]), Cursor(sig, k));
    CursorMovesAll(vs[1..], first.cursor);
    OneEach(first.values, AppendedAll(ToItems(vs[1..]), first.cursor).values, vs);
  }

  lemma FirstAndRest(vs: seq<Value>)
    requires vs != []
    ensures forall v :: v in vs <==> v == vs[0] || v in vs[1..]
  {
    assert vs == [vs[0]] + vs[1..];
  }

  lemma {:induction false} ChildrenOnlyIf(vs: seq<Value>, sig: string, k: nat)
    requires forall v | v in vs :: Narrow(v)
    requires var b := AppendedAll(ToItems(vs), Cursor(sig, k)); b.Built? && b.values == vs
    ensures (forall v | v in vs :: Known(v)) && SendableAll(vs) && AllArraysAt(vs, sig, k)
    decreases vs
  {
    if vs != [] {
      SplitReturn(vs, sig, k);
      hide Appended, AppendedAll, ToItem, ToItems, Cursor, Calls, Narrow;
      ComesBackOnlyIf(vs[0], sig, k);
      ChildrenOnlyIf(vs[1..], sig, k + Calls(vs[0]));
      hide Known, Sendable, ArraysAt, Narrow;
      FirstAndRest(vs);
    }
  }

  /** libdbus admits a variant exactly when what it holds is basic. */
  lemma VariantAdmitted(x: Value, cursor: string)
    requires Narrow(x)
    ensures Appended(ToItem(Container(Variant, [x])), cursor).Built? <==> IsBasic(x)
  {
    var c := Erased(cursor);
    ContainerAppends(Variant, [x], cursor);
    VariantSignature(x);
    assert ToItems([x]) == [ToItem(x)];
    OneAppended(ToItem(x), c);
    if IsBasic(x) {
      LeafComesBack(x);
    } else if x.Container? {
      ContainerAppends(x.kind, x.children, c);
    }
    hide AppendedAll, ToItems, ToItem, Basic, GetSignatureType;
  }

  lemma OneAppended(e: Item, cursor: string)
    ensures AppendedAll([e], cursor) == Appended(e, cursor)
  {
    var b := Appended(e, cursor);
    assert [e][1..] == [];
    assert b.Built? ==> b.values + [] == b.values;
    hide Appended;
  }

  predicate ComesBack(vs: seq<Value>, sig: string)
    requires forall v | v in vs :: Narrow(v)
  {
    AppendedAll(ToItems(vs), sig).Built? && AppendedAll(ToItems(vs), sig).values == vs
  }

  predicate AllKnown(vs: seq<Value>) { forall v | v in vs :: Known(v) }

  /** The arguments of a message come back as they were if and only if all their types are known, every
      variant holds exactly one basic value, every array holds elements of its own kind, and every array
      is reached just when the cursor stands at the signature of its elements. */
  lemma RoundTrip(vs: seq<Value>, sig: string)
    requires forall v | v in vs :: Narrow(v)
    ensures ComesBack(vs, sig) <==> AllKnown(vs) && SendableAll(vs) && AllArraysAt(vs, sig, 0)
  {
    assert Cursor(sig, 0) == sig;
    hide Cursor;
    if ComesBack(vs, sig) {
      ChildrenOnlyIf(vs, sig, 0);
    }
    if AllKnown(vs) && SendableAll(vs) && AllArraysAt(vs, sig, 0) {
      ChildrenComeBack(vs, sig, 0);
      PruningChildren(vs);
    }
    hide AppendedAll, ToItems, PrunedAll, SendableAll, AllArraysAt;
  }

  // ----- which messages those are -----

  predicate NoArrays(vs: seq<Value>)
    decreases vs
  {
    vs != [] ==> (vs[0].Container? ==> !vs[0].kind.Array? && NoArrays(vs[0].children)) && NoArrays(vs[1..])
  }

  lemma {:induction false} NoArrayNeedsACursor(vs: seq<Value>, sig: string, k: nat)
    requires NoArrays(vs)
    ensures AllArraysAt(vs, sig, k)
    decreases vs
  {
    if vs != [] {
      if vs[0].Container? {
        NoArrayNeedsACursor(vs[0].children, sig, k + 1);
      }
      NoArrayNeedsACursor(vs[1..], sig, k + Calls(vs[0]));
    }
  }

  /** Without arrays, the signature of the message does not matter. */
  lemma WithoutArrays(vs: seq<Value>, sig: string)
    requires (forall v | v in vs :: Narrow(v)) && NoArrays(vs)
    ensures ComesBack(vs, sig) <==> AllKnown(vs) && SendableAll(vs)
  {
    RoundTrip(vs, sig);
    NoArrayNeedsACursor(vs, sig, 0);
    hide *;
  }

  // ----- over the wire -----

  /** How deep containers that hold something are nested. */
  function Nesting(v: Value): nat
    decreases v
  {
    if v.Container? && v.children != [] then 1 + Deepest(v.children) else 0
  }

  function Deepest(cs: seq<Value>): nat
    decreases cs
  {
    if cs == [] then 0
    else
      var d := Deepest(cs[1..]);
      if Nesting(cs[0]) > d then Nesting(cs[0]) else d
  }

  lemma {:induction false} ItemsFit(v: Value, depth: nat)
    requires Narrow(v) && 2 * Nesting(v) <= depth
    ensures ItemOk(ToItem(v), depth)
    decreases v
  {
    if v.Container? && v.children != [] {
      ParamsFit(v.children, depth - 1);
    }
  }

  lemma {:induction false} ParamsFit(cs: seq<Value>, depth: nat)
    requires forall c | c in cs :: Narrow(c)
    requires 2 * Deepest(cs) + 1 <= depth
    ensures ParamsOk(ToItems(cs), depth)
    decreases cs
  {
    if cs != [] {
      ItemsFit(cs[0], depth - 1);
      ParamsFit(cs[1..], depth);
      hide ToItem, ItemOk;
    }
  }

  lemma {:induction false} ItemIsInitialized(v: Value)
    requires Narrow(v)
    ensures ItemInitialized(ToItem(v))
    decreases v
  {
    if v.Container? {
      ItemsAreInitialized(v.children);
    }
  }

  lemma {:induction false} ItemsAreInitialized(cs: seq<Value>)
    requires forall c | c in cs :: Narrow(c)
    ensures AllInitialized(ToItems(cs))
    decreases cs
  {
    if cs != [] {
      ItemIsInitialized(cs[0]);
      ItemsAreInitialized(cs[1..]);
      hide ToItem, ItemInitialized;
    }
  }

  /** Translated, serialised, parsed, accepted and translated back: the arguments of a message nested no
      deeper than half the parser's recursion budget come back under the same condition. */
  lemma WireRoundTrip(vs: seq<Value>, sig: string, depth: nat)
    requires (forall v | v in vs :: Narrow(v)) && 2 * Deepest(vs) + 1 <= depth
    requires |SerializeComposite(Composite(ToItems(vs), []))| < TWO_31
    ensures var r := ParseComposite(EMPTY_COMPOSITE, SerializeComposite(Composite(ToItems(vs), [])), depth);
            && r.Done? && r.legit && CompositeInitialized(r.msg)
            && (AppendedAll(r.msg.param, sig).Built? && AppendedAll(r.msg.param, sig).values == vs
                <==> AllKnown(vs) && SendableAll(vs) && AllArraysAt(vs, sig, 0))
  {
    ParamsFit(vs, depth);
    ItemsAreInitialized(vs);
    RoundTrip(vs, sig);
    var p := Composite(ToItems(vs), []);
    assert CompositeOk(p, depth) && CompositeInitialized(p);
    assert ParseComposite(p, [], depth) == Done(p, true);
    assert MergeComposite(EMPTY_COMPOSITE, p) == p && SerializeComposite(p) + [] == SerializeComposite(p);
    hide ToItems, AppendedAll, AllKnown, SendableAll, AllArraysAt, ParseComposite, SerializeComposite;
    PayloadTheorems.CompositeMerges(EMPTY_COMPOSITE, p, [], depth);
  }
}
