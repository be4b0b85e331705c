/** Merging one payload message into another, field by field under the has-bits of the other. */
module PayloadMerge {
  import opened Common
  import opened PayloadCodec
  import PayloadOutput

  lemma NothingSet(n: Item)
    requires PayloadOutput.HasBits(n) & 0xff == 0
    ensures n.typ.None? && n.intVal.None? && n.uintVal.None? && n.doubleVal.None? && n.strVal.None?
    ensures n.compositeVal.None?
  {
  }

  method MergeItemFromMessage(m: Item, n: Item) returns (r: Item)
    ensures r == MergeItem(m, n)
  {
    r := m;
    if PayloadOutput.HasBits(n) & 0xff != 0 {
      if n.typ.Some? {
        r := r.(typ := n.typ);
      }
      if n.intVal.Some? {
        r := r.(intVal := n.intVal);
      }
      if n.uintVal.Some? {
        r := r.(uintVal := n.uintVal);
      }
      if n.doubleVal.Some? {
        r := r.(doubleVal := n.doubleVal);
      }
      if n.strVal.Some? {
        r := r.(strVal := n.strVal);
      }
      if n.compositeVal.Some? {
        var c := MergeCompositeFromMessage(Sub(r), n.compositeVal.value);
        r := r.(compositeVal := Some(c));
      }
    } else {
      NothingSet(n);
    }
    r := r.(unknown := r.unknown + n.unknown);
  }

  /** Repeated and unknown fields are appended one by one. */
  method MergeCompositeFromMessage(c: Composite, d: Composite) returns (r: Composite)
    ensures r == MergeComposite(c, d)
  {
    var param := c.param;
    for i := 0 to |d.param|
      invariant param == c.param + d.param[..i]
    {
      param := param + [d.param[i]];
    }
    r := Composite(param, c.unknown + d.unknown);
  }

  /** Merging is associative, so it does not matter how a stream of messages is grouped. */
  lemma MergeIsAssociative(a: Item, b: Item, c: Item)
    ensures MergeItem(MergeItem(a, b), c) == MergeItem(a, MergeItem(b, c))
  {
    assert (a.unknown + b.unknown) + c.unknown == a.unknown + (b.unknown + c.unknown);
    var x, y := Sub(a), Sub(b);
    if c.compositeVal.Some? {
      var z := c.compositeVal.value;
      assert (x.param + y.param) + z.param == x.param + (y.param + z.param);
      assert (x.unknown + y.unknown) + z.unknown == x.unknown + (y.unknown + z.unknown);
      assert EMPTY_COMPOSITE.param + z.param == z.param && EMPTY_COMPOSITE.unknown + z.unknown == z.unknown;
    }
  }
}
