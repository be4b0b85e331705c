/** Whole messages: a parse is accepted only if the required fields are set, at every depth. */
module Initialization {
  import opened Common
  import opened Wire
  import opened PayloadCodec
  import PayloadTheorems
  import HeaderCodec
  import HeaderTheorems
  import NameRegistry
  import RegistryTheorems

  /** The type is the one required field of an item. */
  predicate ItemInitialized(n: Item)
    decreases n
  {
    n.typ.Some? && (n.compositeVal.Some? ==> CompositeInitialized(n.compositeVal.value))
  }

  predicate CompositeInitialized(c: Composite)
    decreases c
  {
    AllInitialized(c.param)
  }

  predicate AllInitialized(ps: seq<Item>)
    decreases ps
  {
    ps != [] ==> ItemInitialized(ps[0]) && AllInitialized(ps[1..])
  }

  /** The parse of a whole array: the switch loop must end at the end of it, on an initialized message. */
  function ParseFromArray(s: bytes, depth: nat): Option<Item> {
    match ParseItem(EMPTY_ITEM, s, depth)
    case Done(n, legit) => if legit && ItemInitialized(n) then Some(n) else None
    case Failed => None
  }

  lemma {:induction false} AllInitializedMembers(ps: seq<Item>)
    ensures AllInitialized(ps) <==> forall p | p in ps :: ItemInitialized(p)
    decreases ps
  {
    if ps != [] {
      AllInitializedMembers(ps[1..]);
      forall p | p in ps ensures p == ps[0] || p in ps[1..] {
        assert ps == [ps[0]] + ps[1..];
      }
      assert ps[0] in ps && forall p | p in ps[1..] :: p in ps;
    }
  }

  predicate PartsInitialized(n: Item) { n.compositeVal.Some? ==> CompositeInitialized(n.compositeVal.value) }

  /** Merging loses nothing: the result has a type if either side has one, and all its parts are
      initialized if those of both sides are. */
  lemma MergeInitialized(m: Item, n: Item)
    ensures ItemInitialized(MergeItem(m, n)) <==>
            (m.typ.Some? || n.typ.Some?) && PartsInitialized(m) && PartsInitialized(n)
  {
    var merged := MergeItem(m, n);
    AllInitializedMembers(Sub(m).param);
    if n.compositeVal.Some? {
      AllInitializedMembers(n.compositeVal.value.param);
      AllInitializedMembers(Sub(m).param + n.compositeVal.value.param);
    }
  }

  /** An item and all items below it. */
  function Tree(n: Item): seq<Item>
    decreases n
  {
    [n] + if n.compositeVal.Some? then Forest(n.compositeVal.value.param) else []
  }

  function Forest(ps: seq<Item>): seq<Item>
    decreases ps
  {
    if ps == [] then [] else Tree(ps[0]) + Forest(ps[1..])
  }

  /** Initialized is an item of which no item at any depth lacks a type. */
  lemma {:induction false} InitializedTree(n: Item)
    ensures ItemInitialized(n) <==> forall m | m in Tree(n) :: m.typ.Some?
    decreases n
  {
    if n.compositeVal.Some? {
      InitializedForest(n.compositeVal.value.param);
    }
  }

  lemma {:induction false} InitializedForest(ps: seq<Item>)
    ensures AllInitialized(ps) <==> forall m | m in Forest(ps) :: m.typ.Some?
    decreases ps
  {
    if ps != [] {
      InitializedTree(ps[0]);
      InitializedForest(ps[1..]);
      hide ItemInitialized, Tree;
    }
  }

  /** A serialised item is accepted exactly when every item in it has a type, and then comes back as it was. */
  lemma AcceptedIffInitialized(n: Item, depth: nat)
    requires ItemOk(n, depth) && |SerializeItem(n)| < TWO_31
    ensures ParseFromArray(SerializeItem(n), depth) == if forall m | m in Tree(n) :: m.typ.Some? then Some(n) else None
  {
    PayloadTheorems.ItemRoundTrip(n, depth);
    InitializedTree(n);
    hide Tree, ItemInitialized;
  }

  /** Two serialised items end to end are accepted exactly when together they are initialized. */
  lemma HalvesMakeAWhole(a: Item, b: Item, depth: nat)
    requires ItemOk(a, depth) && |SerializeItem(a)| < TWO_31
    requires ItemOk(b, depth) && |SerializeItem(b)| < TWO_31
    ensures ParseFromArray(SerializeItem(a) + SerializeItem(b), depth) ==
            if (a.typ.Some? || b.typ.Some?) && PartsInitialized(a) && PartsInitialized(b)
            then Some(MergeItem(a, b)) else None
  {
    PayloadTheorems.ConcatenationMerges(a, b, depth);
    MergeInitialized(a, b);
    hide ItemInitialized, PartsInitialized, SerializeItem, MergeItem, ItemOk, ParseItem;
  }

  // ----- the header -----

  predicate HeaderInitialized(h: HeaderCodec.Header) { HeaderCodec.TYPE in h.fields }

  function ParseHeaderFromArray(s: bytes, depth: nat): Option<HeaderCodec.Header> {
    match HeaderCodec.ParseHeader(HeaderCodec.EMPTY_HEADER, s, depth)
    case Done(h, legit) => if legit && HeaderInitialized(h) then Some(h) else None
    case Failed => None
  }

  lemma HeaderAcceptedIffInitialized(h: HeaderCodec.Header, depth: nat)
    requires HeaderCodec.HeaderOk(h, depth) && |HeaderCodec.SerializeHeader(h)| < TWO_31
    ensures ParseHeaderFromArray(HeaderCodec.SerializeHeader(h), depth) == if 1 in h.fields then Some(h) else None
  {
    HeaderTheorems.HeaderRoundTrip(h, depth);
  }

  /** The header traced for any message, with whatever the name cache holds, is accepted at the other
      end and read as it was written. */
  lemma DescribedHeaderArrives(x: NameRegistry.Indices, m: NameRegistry.Message, serial: int32, depth: nat)
    requires |HeaderCodec.SerializeHeader(NameRegistry.Describe(x, m, serial))| < TWO_31
    ensures var h := NameRegistry.Describe(x, m, serial);
            ParseHeaderFromArray(HeaderCodec.SerializeHeader(h), depth) == Some(h)
  {
    var h := NameRegistry.Describe(x, m, serial);
    assert HeaderCodec.TYPE in NameRegistry.HeadFields(m);
    assert HeaderInitialized(h);
    RegistryTheorems.DescribedHeaderIsOk(x, m, serial, depth);
    hide *;
    HeaderAcceptedIffInitialized(h, depth);
  }
}
