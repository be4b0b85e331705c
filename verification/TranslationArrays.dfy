/** Which arrays of a message are opened with the type of their elements, when it is sent with the signature it
    was traced with. */
module TranslationArrays {
  import opened Common
  import opened Translation
  import opened TranslationTheorems

  // ----- signatures -----

  predicate IsElement(s: string) { After(s, Element) == Some("") }

  lemma {:induction false} Extends(s: string, t: string, p: Part)
    requires After(s, p).Some?
    ensures After(s + t, p) == Some(After(s, p).value + t)
    decreases |s|, if p.OneType? then 0 else 1
  {
    assert (s + t)[0] == s[0] && (s + t)[1..] == s[1..] + t;
    match p
    case OneType =>
      if s[0] == 'a' {
        Extends(s[1..], t, Element);
      } else if s[0] == '(' {
        Extends(s[1..], t, OneType);
        Extends(After(s[1..], OneType).value, t, Members);
      }
    case Members =>
      if s[0] != ')' {
        Extends(s, t, OneType);
        Extends(After(s, OneType).value, t, Members);
      }
    case Element =>
      if s[0] != '{' {
        Extends(s, t, OneType);
      } else {
        assert (s + t)[1] == s[1] && (s + t)[2..] == s[2..] + t;
        Extends(s[2..], t, OneType);
        var u := After(s[2..], OneType).value;
        assert (u + t)[0] == u[0] && (u + t)[1..] == u[1..] + t;
      }
  }

  /** What comes after the type of the elements of an array is a signature, or need not be one. */
  predicate MayFollow(elem: string, after: string) { (elem != "" && elem[0] == '{') || IsSignature(after) }

  predicate NoArrayCode(s: string) { 'a' !in s }

  /** The type of some elements is recognised in front of whatever may follow it. */
  lemma FirstTypeOf(elem: string, after: string)
    requires IsElement(elem)
    ensures FirstType(elem + after) == if MayFollow(elem, after) then elem else ""
  {
    Extends(elem, after, Element);
    assert "" + after == after && (elem + after)[0] == elem[0];
    assert (elem + after)[..|elem + after| - |after|] == elem;
    hide After, IsSignature;
  }

  /** Values as a message may have them for arguments: structures are not empty, arrays have a type of elements,
      and dictionary entries are only in arrays. */
  predicate Typed(v: Value)
    decreases v
  {
    if !v.Container? then true
    else
      match v.kind
      case Array(elem) => IsElement(elem)
      case Struct => v.children != [] && TypedAll(v.children)
      case Variant => true
      case DictEntry => false
  }

  predicate TypedAll(vs: seq<Value>)
    decreases vs
  {
    vs != [] ==> Typed(vs[0]) && TypedAll(vs[1..])
  }

  lemma {:induction false} TypedSignature(v: Value, t: string)
    requires Typed(v)
    ensures After(SignatureOf(v) + t, OneType) == Some(t)
    decreases v, 1
  {
    var s := SignatureOf(v);
    assert (s + t)[0] == s[0] && (s + t)[1..] == s[1..] + t;
    if v.Container? && v.kind.Array? {
      assert s[1..] == v.kind.elem;
      Extends(v.kind.elem, t, Element);
      assert "" + t == t;
    } else if v.Container? && v.kind.Struct? {
      var first, others := SignatureOf(v.children[0]), SignatureOfAll(v.children[1..]);
      assert s == "(" + SignatureOfAll(v.children) + ")" && SignatureOfAll(v.children) == first + others;
      assert s[1..] + t == first + (others + (")" + t));
      TypedSignature(v.children[0], others + (")" + t));
      TypedMembers(v.children[1..], t);
    }
  }

  lemma {:induction false} TypedMembers(cs: seq<Value>, t: string)
    requires TypedAll(cs)
    ensures After(SignatureOfAll(cs) + (")" + t), Members) == Some(t)
    decreases cs, 0
  {
    var s := SignatureOfAll(cs) + (")" + t);
    if cs == [] {
      assert s == ")" + t && s[1..] == t;
    } else {
      var others := SignatureOfAll(cs[1..]) + (")" + t);
      assert s == SignatureOf(cs[0]) + others;
      TypedSignature(cs[0], others);
      TypedMembers(cs[1..], t);
      assert s[0] != ')' && s != "";
      hide SignatureOf, SignatureOfAll, Typed, TypedAll;
    }
  }

  /** Arguments do not change whether what follows them is a signature. */
  lemma {:induction false} TypedThen(vs: seq<Value>, t: string)
    requires TypedAll(vs)
    ensures IsSignature(SignatureOfAll(vs) + t) <==> IsSignature(t)
    decreases vs
  {
    if vs == [] {
      assert "" + t == t;
    } else {
      var others := SignatureOfAll(vs[1..]) + t;
      assert SignatureOfAll(vs) + t == SignatureOf(vs[0]) + others;
      TypedSignature(vs[0], others);
      TypedThen(vs[1..], t);
      hide SignatureOf, SignatureOfAll, Typed, After;
    }
  }

  lemma NothingCloses(t: string)
    ensures !IsSignature(")" + t) && !IsSignature("}" + t)
  {
    assert (")" + t)[0] == ')' && ("}" + t)[0] == '}';
  }

  lemma {:induction false} SignaturesJoin(front: seq<Value>, rest: seq<Value>)
    ensures SignatureOfAll(front + rest) == SignatureOfAll(front) + SignatureOfAll(rest)
    decreases front
  {
    if front == [] {
      assert front + rest == rest;
    } else {
      assert (front + rest)[0] == front[0] && (front + rest)[1..] == front[1..] + rest;
      hide SignatureOf;
      SignaturesJoin(front[1..], rest);
      Regrouped(SignatureOf(front[0]), SignatureOfAll(front[1..]), SignatureOfAll(rest));
    }
  }

  lemma {:induction false} ArraysJoin(front: seq<Value>, rest: seq<Value>, sig: string, k: nat)
    ensures AllArraysAt(front + rest, sig, k) <==>
              AllArraysAt(front, sig, k) && AllArraysAt(rest, sig, k + CallsAll(front))
    decreases front
  {
    if front == [] {
      assert front + rest == rest;
    } else {
      assert (front + rest)[0] == front[0] && (front + rest)[1..] == front[1..] + rest;
      ArraysJoin(front[1..], rest, sig, k + Calls(front[0]));
      hide ArraysAt, Calls;
    }
  }

  lemma {:induction false} ReachPast(sig: string, i: nat)
    requires i < |sig| && sig[i] == 'a'
    ensures i < Reach(sig)
    decreases i
  {
    if i > 0 {
      ReachPast(sig[1..], i - 1);
    }
  }

  // ----- where the cursor stands -----

  /** As many items come before an array as characters, or more, with no `a` later in the signature. */
  predicate InPlace(k: nat, before: string, later: string) { k == |before| || (k > |before| && NoArrayCode(later)) }

  /** The cursor then stands right behind the `a` of the array. */
  lemma CursorPast(before: string, after: string, k: nat)
    requires InPlace(k, before, after)
    ensures Cursor(before + ("a" + after), k + 1) == after
  {
    var sig := before + ("a" + after);
    assert sig[|before|] == 'a' && sig[|before| + 1..] == after;
    ReachPast(sig, |before|);
    CursorIs(sig, k + 1);
    ReachIsLastArray(sig);
    if Reach(sig) > |before| + 1 {
      assert sig[Reach(sig) - 1] == after[Reach(sig) - |before| - 2];
    }
    hide Cursor, Reach;
  }

  lemma OpenedInPlace(before: string, elem: string, after: string, k: nat)
    requires IsElement(elem) && InPlace(k, before, elem + after)
    ensures FirstType(Cursor(before + ("a" + (elem + after)), k + 1))
         == if MayFollow(elem, after) then elem else ""
  {
    CursorPast(before, elem + after, k);
    FirstTypeOf(elem, after);
    hide *;
  }

  lemma ArraySignature(elem: string, cs: seq<Value>, more: seq<Value>)
    ensures SignatureOfAll([Container(Array(elem), cs)] + more) == "a" + (elem + SignatureOfAll(more))
  {
    var last := Container(Array(elem), cs);
    var vs := [last] + more;
    assert vs[0] == last && vs[1..] == more;
    assert SignatureOfAll(vs) == SignatureOf(last) + SignatureOfAll(more);
    Regrouped("a", elem, SignatureOfAll(more));
    hide SignatureOfAll;
  }

  lemma Regrouped(a: string, b: string, c: string)
    ensures (a + b) + c == a + (b + c)
  {
  }

  /** An array, and what follows it, in the tree of items. */
  lemma ArrayReached(elem: string, cs: seq<Value>, more: seq<Value>, sig: string, k: nat)
    ensures AllArraysAt([Container(Array(elem), cs)] + more, sig, k) <==>
              && elem == FirstType(Cursor(sig, k + 1))
              && AllArraysAt(cs, sig, k + 1) && AllArraysAt(more, sig, k + 1 + CallsAll(cs))
  {
    var v := Container(Array(elem), cs);
    assert ([v] + more)[0] == v && ([v] + more)[1..] == more;
    hide FirstType, Cursor;
  }

  /** Some arguments, an array, and more arguments. */
  function WithArray(front: seq<Value>, elem: string, cs: seq<Value>, more: seq<Value>): seq<Value> {
    front + ([Container(Array(elem), cs)] + more)
  }

  lemma SignatureWithArray(front: seq<Value>, elem: string, cs: seq<Value>, more: seq<Value>)
    ensures SignatureOfAll(WithArray(front, elem, cs, more))
         == SignatureOfAll(front) + ("a" + (elem + SignatureOfAll(more)))
  {
    SignaturesJoin(front, [Container(Array(elem), cs)] + more);
    ArraySignature(elem, cs, more);
    hide SignatureOfAll;
  }

  lemma ArraysWithArray(front: seq<Value>, elem: string, cs: seq<Value>, more: seq<Value>, sig: string, k: nat)
    requires NoArrays(front)
    ensures var n := k + CallsAll(front);
            AllArraysAt(WithArray(front, elem, cs, more), sig, k) <==>
              && elem == FirstType(Cursor(sig, n + 1))
              && AllArraysAt(cs, sig, n + 1) && AllArraysAt(more, sig, n + 1 + CallsAll(cs))
  {
    NoArrayNeedsACursor(front, sig, k);
    ArraysJoin(front, [Container(Array(elem), cs)] + more, sig, k);
    ArrayReached(elem, cs, more, sig, k + CallsAll(front));
    hide AllArraysAt, FirstType, Cursor, NoArrays, CallsAll;
  }

  /** What is before the first array takes as many items as it has characters, or more of them, when that array
      is the last: there is no other in its elements and what follows it. */
  predicate Leads(front: seq<Value>, later: string) {
    NoArrays(front) && InPlace(CallsAll(front), SignatureOfAll(front), later)
  }

  /** Exactly as many. */
  predicate InStep(vs: seq<Value>) { NoArrays(vs) && CallsAll(vs) == |SignatureOfAll(vs)| }

  lemma InStepLeads(vs: seq<Value>, later: string)
    requires InStep(vs)
    ensures Leads(vs, later) && NoArrays(vs) && CallsAll(vs) == |SignatureOfAll(vs)|
  {
  }

  predicate AllBasic(vs: seq<Value>) { forall v | v in vs :: IsBasic(v) }

  /** As basic arguments do. */
  lemma {:induction false} BasicsAreInStep(vs: seq<Value>)
    requires AllBasic(vs)
    ensures InStep(vs) && TypedAll(vs)
    decreases vs
  {
    if vs != [] {
      assert IsBasic(vs[0]);
      BasicsAreInStep(vs[1..]);
    }
  }

  lemma {:induction false} NoArraysNoArrayCode(vs: seq<Value>)
    requires NoArrays(vs)
    ensures NoArrayCode(SignatureOfAll(vs))
    decreases vs
  {
    if vs != [] {
      if vs[0].Container? {
        NoArraysNoArrayCode(vs[0].children);
      }
      NoArraysNoArrayCode(vs[1..]);
    }
  }

  /** The first array of a message is opened with the type of its elements if its place is that of its item, or if
      it is the only one and not behind its item; then the others decide. */
  lemma FirstIsReached(front: seq<Value>, elem: string, cs: seq<Value>, more: seq<Value>)
    requires Leads(front, elem + SignatureOfAll(more)) && IsElement(elem) && MayFollow(elem, SignatureOfAll(more))
    ensures var vs, n := WithArray(front, elem, cs, more), CallsAll(front) + 1;
            var sig := SignatureOfAll(vs);
            AllArraysAt(vs, sig, 0) <==> AllArraysAt(cs, sig, n) && AllArraysAt(more, sig, n + CallsAll(cs))
  {
    assert NoArrays(front);
    hide *;
    FirstIsOpened(front, elem, cs, more);
    ArraysWithArray(front, elem, cs, more, SignatureOfAll(WithArray(front, elem, cs, more)), 0);
  }

  lemma FirstIsOpened(front: seq<Value>, elem: string, cs: seq<Value>, more: seq<Value>)
    requires Leads(front, elem + SignatureOfAll(more)) && IsElement(elem) && MayFollow(elem, SignatureOfAll(more))
    ensures FirstType(Cursor(SignatureOfAll(WithArray(front, elem, cs, more)), CallsAll(front) + 1)) == elem
  {
    assert InPlace(CallsAll(front), SignatureOfAll(front), elem + SignatureOfAll(more));
    hide *;
    SignatureWithArray(front, elem, cs, more);
    OpenedInPlace(SignatureOfAll(front), elem, SignatureOfAll(more), CallsAll(front));
  }
}
