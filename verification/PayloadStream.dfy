/** The generated parsers of the payload messages as they run, with their jumps from one field straight
    into the next. */
module PayloadStream {
  import opened Common
  import opened Wire
  import opened PayloadCodec

  // ----- parsing -----

  function ItemAfter(r: Step<Item>, m: Item, depth: nat): Parsed<Item> {
    match r
    case Fail => Failed
    case Stop => Done(m, false)
    case Continue(m', rest) => ParseItem(m', rest, depth)
  }

  function CompositeAfter(r: Step<Composite>, c: Composite, depth: nat): Parsed<Composite> {
    match r
    case Fail => Failed
    case Stop => Done(c, false)
    case Continue(c', rest) => ParseComposite(c', rest, depth)
  }

  /** Jumping over a tag that is next and entering its branch is a turn of the bare loop. */
  lemma ItemJump(m: Item, s: bytes, tag: nat, depth: nat)
    requires 0 < tag < 128 && NextIs(s, tag)
    ensures |s| >= 1
    ensures ParseItem(m, s, depth) == ItemAfter(ItemSwitch(m, tag, s[1..], depth), m, depth)
  {
    NextIsRead(s, tag);
  }

  lemma CompositeJump(c: Composite, s: bytes, tag: nat, depth: nat)
    requires 0 < tag < 128 && NextIs(s, tag)
    ensures |s| >= 1
    ensures ParseComposite(c, s, depth) == CompositeAfter(CompositeSwitch(c, tag, s[1..], depth), c, depth)
  {
    NextIsRead(s, tag);
  }

  /** The branch that reads the body of the field with tag `at`. */
  method TakeItemBranch(m: Item, at: nat, s: bytes, depth: nat) returns (r: Step<Item>)
    requires at > 0
    ensures r == ItemSwitch(m, at, s, depth)
    decreases |s|, 1
  {
    if at == TAG_TYPE {
      r := ReadType(m, s);
    } else if at == TAG_INT {
      r := ReadInt(m, s);
    } else if at == TAG_UINT {
      r := ReadUint(m, s);
    } else if at == TAG_DOUBLE {
      r := ReadDouble(m, s);
    } else if at == TAG_STR {
      r := ReadStr(m, s);
    } else if at == TAG_COMPOSITE {
      if depth == 0 { return Fail; }
      var p := ReadLengthDelimited(s);
      if p.Malformed? { return Fail; }
      var c := MergeCompositeFrom(Sub(m), p.value, depth - 1);
      if c.Failed? || !c.legit { return Fail; }
      r := Continue(m.(compositeVal := Some(c.msg)), p.rest);
    } else {
      r := ItemUnusual(m, at, s, depth);
    }
  }

  /** The tag each branch expects next; 0 where it expects the end. */
  function ItemExpects(at: nat): nat {
    if at == TAG_TYPE then TAG_INT
    else if at == TAG_INT then TAG_UINT
    else if at == TAG_UINT then TAG_DOUBLE
    else if at == TAG_DOUBLE then TAG_STR
    else if at == TAG_STR then TAG_COMPOSITE
    else 0
  }

  /** Parses `input` into `m0`. `at` is the label control has jumped to: the tag whose branch is
      next, or 0 where the loop reads a tag. */
  method MergeItemFrom(m0: Item, input: bytes, depth: nat) returns (r: Parsed<Item>)
    ensures r == ParseItem(m0, input, depth)
    decreases |input|, 2
  {
    ghost var spec := ParseItem(m0, input, depth);
    var m, s, at := m0, input, 0;
    while true
      invariant |s| <= |input| && (at > 0 ==> |s| < |input|)
      invariant spec == if at == 0 then ParseItem(m, s, depth) else ItemAfter(ItemSwitch(m, at, s, depth), m, depth)
      decreases |s|, at
    {
      if at == 0 {
        var t := ReadTag(s);
        if !t.TagIs? { return Done(m, t.AtEnd?); }
        at, s := t.tag, t.rest;
      } else {
        var step := TakeItemBranch(m, at, s, depth);
        if step.Fail? { return Failed; }
        if step.Stop? { return Done(m, false); }
        m, s := step.msg, step.rest;
        var next := ItemExpects(at);
        if next > 0 && NextIs(s, next) {
          ItemJump(m, s, next, depth);
          at, s := next, s[1..];
        } else if at == TAG_COMPOSITE && s == [] {
          return Done(m, true);
        } else {
          at := 0;
        }
      }
    }
  }

  lemma CompositeEnd(c: Composite, depth: nat)
    ensures ParseComposite(c, [], depth) == Done(c, true)
  {
  }

  method MergeCompositeFrom(c0: Composite, input: bytes, depth: nat) returns (r: Parsed<Composite>)
    ensures r == ParseComposite(c0, input, depth)
    decreases |input|, 2
  {
    ghost var spec := ParseComposite(c0, input, depth);
    var c, s, budget := c0, input, depth;
    while true
      invariant |s| <= |input| && ParseComposite(c, s, depth) == spec
      invariant budget == depth
      decreases |s|
    {
      var t := ReadTag(s);
      if !t.TagIs? {
        return Done(c, t.AtEnd?);
      }
      var at;
      at, s := t.tag, t.rest;
      assert spec == CompositeAfter(CompositeSwitch(c, at, s, depth), c, depth);
      hide ParseItem, ParseComposite;
      if at <= 127 && at == TAG_PARAM {
        if budget == 0 { return Failed; }
        budget := budget - 1;
        var more := true;
        // One recursion level is taken for the whole run of consecutive elements.
        while more
          invariant |s| < |input| && |s| <= |t.rest| && budget == depth - 1
          invariant spec == if more then CompositeAfter(CompositeSwitch(c, TAG_PARAM, s, depth), c, depth)
                            else ParseComposite(c, s, depth)
          decreases more, |s|
        {
          var p := ReadLengthDelimited(s);
          if p.Malformed? { return Failed; }
          var i := MergeItemFrom(EMPTY_ITEM, p.value, budget);
          if i.Failed? || !i.legit { return Failed; }
          c, s := c.(param := c.param + [i.msg]), p.rest;
          more := NextIs(s, TAG_PARAM);
          if more {
            CompositeJump(c, s, TAG_PARAM, depth);
            s := s[1..];
          }
        }
        budget := budget + 1;
        if s == [] {
          CompositeEnd(c, depth);
          return Done(c, true);
        }
      } else {
        // handle_unusual
        var step := CompositeUnusual(c, at, s, depth);
        if step.Fail? { return Failed; }
        if step.Stop? { return Done(c, false); }
        c, s := step.msg, step.rest;
      }
    }
  }
}
