/** The code that walks D-Bus values into items, and builds D-Bus messages out of items. */
module TranslationCode {
  import opened Common
  import opened Wire
  import opened PayloadCodec
  import opened Translation

  // ----- reading -----

  /** Reads a value through an iterator, one setter after the other. */
  method ParsePayloadItem(v: Value) returns (item: Item)
    requires Narrow(v)
    ensures item == ToItem(v)
    decreases v
  {
    item := EMPTY_ITEM;
    match v
    case Byte(b) =>
      item := item.(typ := Some(1));
      item := item.(intVal := Some(ToInt32(LowBytes(b, 1))));
    case Boolean(b) =>
      item := item.(typ := Some(2));
      item := item.(intVal := Some(ToInt32(LowBytes(if b then 1 else 0, 4))));
    case Int16(n) =>
      item := item.(typ := Some(3));
      item := item.(intVal := Some(ToInt32(LowBytes(n, 2))));
    case Int32(n) =>
      item := item.(typ := Some(5));
      item := item.(intVal := Some(ToInt32(LowBytes(n, 4))));
    case UInt16(n) =>
      item := item.(typ := Some(4));
      item := item.(uintVal := Some(LowBytes(n, 2)));
    case UInt32(n) =>
      item := item.(typ := Some(6));
      item := item.(uintVal := Some(LowBytes(n, 4)));
    case Double(d) =>
      item := item.(typ := Some(9));
      item := item.(doubleVal := Some(d));
    case Text(t, s) =>
      item := item.(typ := Some(TextType(t)));
      item := item.(strVal := Some(s));
    case Container(k, cs) =>
      item := item.(typ := Some(KindType(k)));
      item := ParseChildren(item, cs);
    case Foreign =>
      item := item.(typ := Some(0));
  }

  /** The loop over a container. It runs once even when there is nothing to read. */
  method ParseChildren(start: Item, cs: seq<Value>) returns (item: Item)
    requires forall c | c in cs :: Narrow(c)
    requires start.compositeVal.None?
    ensures item == start.(compositeVal := if cs == [] then None else Some(Composite(ToItems(cs), [])))
    decreases cs, 0
  {
    item := start;
    var i := 0;
    var more := true;
    while more
      invariant i <= |cs| && (more ==> i == 0 || i < |cs|) && (!more ==> i == |cs| || cs == [])
      invariant item == start.(compositeVal := if i == 0 then None else Some(Composite(ToItems(cs[..i]), [])))
      decreases |cs| - i, more
    {
      if i < |cs| {
        var sub := ParsePayloadItem(cs[i]);
        item := item.(compositeVal := Some(Sub(item).(param := Sub(item).param + [sub])));
        ToItemsAppend(cs[..i], cs[i]);
        assert cs[..i] + [cs[i]] == cs[..i + 1];
        i := i + 1;
      }
      more := i < |cs|;
    }
    assert cs[..i] == cs;
  }

  lemma {:induction false} ToItemsAppend(cs: seq<Value>, c: Value)
    requires Narrow(c) && forall d | d in cs :: Narrow(d)
    ensures ToItems(cs + [c]) == ToItems(cs) + [ToItem(c)]
    decreases cs
  {
    hide ToItem;
    if cs != [] {
      assert (cs + [c])[1..] == cs[1..] + [c];
      ToItemsAppend(cs[1..], c);
    }
  }

  // ----- building -----

  /** An iterator of a message under construction, with the values appended through it. */
  class MessageIter {
    var values: seq<Value>

    constructor ()
      ensures values == []
    {
      values := [];
    }
  }

  method AppendPrimitive(e: Item, iter: MessageIter) returns (added: bool)
    modifies iter
    ensures added <==> 1 <= TypeOf(e) <= 12
    ensures iter.values == if added then old(iter.values) + Basic(e) else old(iter.values)
  {
    added := true;
    match TypeOf(e)
    case 1 => iter.values := iter.values + [Byte(IntOf(e) % 0x100)];
    case 2 =>
      var flag := ToInt32(SignExtend(IntOf(e)));
      if flag == 0 || flag == 1 {
        iter.values := iter.values + [Boolean(flag == 1)];
      }
    case 3 => iter.values := iter.values + [Int16(ToInt16(IntOf(e)))];
    case 4 => iter.values := iter.values + [UInt16(UintOf(e) % 0x1_0000)];
    case 5 => iter.values := iter.values + [Int32(ToInt32(SignExtend(IntOf(e))))];
    case 6 => iter.values := iter.values + [UInt32(UintOf(e) % 0x1_0000_0000)];
    case 7 => iter.values := iter.values + [Int64(IntOf(e))];
    case 8 => iter.values := iter.values + [UInt64(UintOf(e))];
    case 9 => iter.values := iter.values + [Double(DoubleOf(e))];
    case 10 => iter.values := iter.values + [Text(PlainText, TextOf(e))];
    case 11 => iter.values := iter.values + [Text(ObjectPath, TextOf(e))];
    case 12 => iter.values := iter.values + [Text(Signature, TextOf(e))];
    case _ => added := false;
  }

  /** The plugin that sends commands, with its signature of the message being built. */
  class Sender {
    var dbusmsgSignature: string

    constructor ()
      ensures dbusmsgSignature == ""
    {
      dbusmsgSignature := "";
    }

    method ModifySignature()
      modifies this
      ensures dbusmsgSignature == Erased(old(dbusmsgSignature))
    {
      if 'a' in dbusmsgSignature {
        dbusmsgSignature := dbusmsgSignature[1..];
      }
    }

    /** Appends what the item stands for, through iterators opened and closed for each container. The code
        does not look at what libdbus answers; the model stops where a container is refused. */
    method PrototoDbusTranslation(e: Item, iter: MessageIter) returns (ok: bool)
      modifies this, iter
      ensures ok <==> Appended(e, old(dbusmsgSignature)).Built?
      ensures ok ==> iter.values == old(iter.values) + Appended(e, old(dbusmsgSignature)).values
      ensures ok ==> dbusmsgSignature == Appended(e, old(dbusmsgSignature)).cursor
      decreases e, 1
    {
      ModifySignature();
      var added := AppendPrimitive(e, iter);
      ok := true;
      if !added && KindOf(TypeOf(e), dbusmsgSignature).Some? {
        ok := AppendContainer(e, KindOf(TypeOf(e), dbusmsgSignature).value, iter);
      }
    }

    method AppendContainer(e: Item, k: Kind, iter: MessageIter) returns (ok: bool)
      requires KindOf(TypeOf(e), dbusmsgSignature) == Some(k)
      modifies this, iter
      ensures var built := Closed(k, Params(e), AppendedAll(Params(e), old(dbusmsgSignature)));
              && (ok <==> built.Built?)
              && (ok ==> iter.values == old(iter.values) + built.values && dbusmsgSignature == built.cursor)
      decreases e, 0
    {
      hide Appended;
      ghost var cursor := dbusmsgSignature;
      var sub := new MessageIter();
      var ps := Params(e);
      assert AppendedAll(ps[..0], cursor) == Built([], cursor);
      for j := 0 to |ps|
        invariant iter.values == old(iter.values)
        invariant AppendedAll(ps[..j], cursor) == Built(sub.values, dbusmsgSignature)
      {
        assert ps[j] < e;
        AppendedAllAppend(ps[..j], ps[j], cursor);
        assert ps[..j] + [ps[j]] == ps[..j + 1];
        ok := PrototoDbusTranslation(ps[j], sub);
        if !ok {
          AppendedAllRefused(ps, j + 1, cursor);
          return;
        }
      }
      assert ps[..|ps|] == ps;
      ok := Admits(k, ps, sub.values);
      if ok {
        iter.values := iter.values + [Container(k, sub.values)];
      }
    }

    /** The loop over the parameters of a command, sent with the signature it carries. */
    method SendDbusMessage(signature: string, params: seq<Item>) returns (ok: bool, iter: MessageIter)
      modifies this
      ensures fresh(iter)
      ensures ok <==> AppendedAll(params, signature).Built?
      ensures ok ==> iter.values == AppendedAll(params, signature).values
    {
      hide Appended;
      dbusmsgSignature := signature;
      iter := new MessageIter();
      ok := true;
      assert AppendedAll(params[..0], signature) == Built([], signature);
      for j := 0 to |params|
        invariant AppendedAll(params[..j], signature) == Built(iter.values, dbusmsgSignature)
      {
        AppendedAllAppend(params[..j], params[j], signature);
        assert params[..j] + [params[j]] == params[..j + 1];
        ok := PrototoDbusTranslation(params[j], iter);
        if !ok {
          AppendedAllRefused(params, j + 1, signature);
          return;
        }
      }
      assert params[..|params|] == params;
    }
  }

  lemma {:induction false} AppendedAllAppend(ps: seq<Item>, p: Item, cursor: string)
    ensures var before := AppendedAll(ps, cursor);
            AppendedAll(ps + [p], cursor) ==
            if before.Refused? || Appended(p, before.cursor).Refused? then Refused
            else Built(before.values + Appended(p, before.cursor).values, Appended(p, before.cursor).cursor)
    decreases ps
  {
    hide Appended;
    if ps == [] {
      assert [] + [p] == [p] && [p][1..] == [];
    } else {
      assert (ps + [p])[1..] == ps[1..] + [p];
      if Appended(ps[0], cursor).Built? {
        AppendedAllAppend(ps[1..], p, Appended(ps[0], cursor).cursor);
      }
    }
  }

  /** Once refused, always refused. */
  lemma {:induction false} AppendedAllRefused(ps: seq<Item>, i: nat, cursor: string)
    requires i <= |ps| && AppendedAll(ps[..i], cursor).Refused?
    ensures AppendedAll(ps, cursor).Refused?
    decreases ps
  {
    hide Appended;
    if i > 0 && Appended(ps[0], cursor).Built? {
      assert ps[..i][1..] == ps[1..][..i - 1];
      AppendedAllRefused(ps[1..], i - 1, Appended(ps[0], cursor).cursor);
    }
  }
}
