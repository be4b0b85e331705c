/** Which messages with arrays come back, when they are sent with the signature they were traced with. */
module TranslationMessages {
  import opened Common
  import opened Translation
  import opened TranslationTheorems
  import opened TranslationArrays

  type Args = seq<Value>

  // ----- one array -----

  /** What follows the last array. */
  predicate Tail(more: Args) { NoArrays(more) && TypedAll(more) }

  lemma TailIsSignature(elem: string, more: Args)
    requires Tail(more)
    ensures MayFollow(elem, SignatureOfAll(more)) && (NoArrayCode(elem) ==> NoArrayCode(elem + SignatureOfAll(more)))
  {
    TailSigned(more);
    NoArraysNoArrayCode(more);
    hide IsSignature, SignatureOfAll, TypedAll, NoArrays;
  }

  lemma TailSigned(more: Args)
    requires Tail(more)
    ensures IsSignature(SignatureOfAll(more))
  {
    TypedThen(more, "");
    assert SignatureOfAll(more) + "" == SignatureOfAll(more);
    hide IsSignature, SignatureOfAll, TypedAll, NoArrays;
  }

  lemma LeadsTheTail(front: Args, elem: string, more: Args)
    requires Leads(front, elem) && Tail(more)
    ensures Leads(front, elem + SignatureOfAll(more))
  {
    TailIsSignature(elem, more);
    hide NoArrays, CallsAll, SignatureOfAll, Tail, NoArrayCode;
  }

  lemma TailReached(more: Args, sig: string, k: nat)
    requires Tail(more)
    ensures AllArraysAt(more, sig, k)
  {
    NoArrayNeedsACursor(more, sig, k);
  }

  lemma OneArrayReached(front: Args, elem: string, cs: Args, more: Args)
    requires Leads(front, elem) && IsElement(elem) && NoArrays(cs) && Tail(more)
    ensures var vs := WithArray(front, elem, cs, more); AllArraysAt(vs, SignatureOfAll(vs), 0)
  {
    hide *;
    var sig := SignatureOfAll(WithArray(front, elem, cs, more));
    TailIsSignature(elem, more);
    LeadsTheTail(front, elem, more);
    FirstIsReached(front, elem, cs, more);
    NoArrayNeedsACursor(cs, sig, CallsAll(front) + 1);
    TailReached(more, sig, CallsAll(front) + 1 + CallsAll(cs));
  }

  /** A message with one array comes back exactly when its types are known and its containers admitted, if what
      is before the array takes enough items. */
  lemma OneArrayComesBack(front: Args, elem: string, cs: Args, more: Args)
    requires Leads(front, elem) && IsElement(elem) && NoArrays(cs) && Tail(more)
    requires var vs := WithArray(front, elem, cs, more); forall v | v in vs :: Narrow(v)
    ensures var vs := WithArray(front, elem, cs, more);
            ComesBack(vs, SignatureOfAll(vs)) <==> AllKnown(vs) && SendableAll(vs)
  {
    hide *;
    var vs := WithArray(front, elem, cs, more);
    OneArrayReached(front, elem, cs, more);
    RoundTrip(vs, SignatureOfAll(vs));
  }

  // ----- arrays of arrays -----

  /** Arrays of `elem` without further arrays in them. */
  predicate Rows(rows: Args, elem: string) {
    forall r | r in rows :: r.Container? && r.kind == Array(elem) && NoArrays(r.children)
  }

  /** All of them are reached, the last array of the signature being theirs. */
  lemma {:induction false} RowsReached(rows: Args, before: string, elem: string, after: string, k: nat)
    requires Rows(rows, elem) && IsElement(elem) && MayFollow(elem, after)
    requires k >= |before| && NoArrayCode(elem + after)
    ensures AllArraysAt(rows, before + ("a" + (elem + after)), k)
    decreases rows
  {
    var sig := before + ("a" + (elem + after));
    if rows != [] {
      assert rows[0] in rows;
      OpenedInPlace(before, elem, after, k);
      NoArrayNeedsACursor(rows[0].children, sig, k + 1);
      RowsReached(rows[1..], before, elem, after, k + Calls(rows[0]));
      hide NoArrays, IsElement, IsSignature, FirstType, Cursor, Calls;
    }
  }

  lemma OneMoreArray(elem: string)
    requires IsElement(elem)
    ensures IsElement("a" + elem)
  {
    assert ("a" + elem)[0] == 'a' && ("a" + elem)[1..] == elem;
  }

  lemma RowsAfter(front: Args, elem: string, rows: Args, more: Args, k: nat)
    requires IsElement(elem) && NoArrayCode(elem) && Rows(rows, elem) && Tail(more) && k > |SignatureOfAll(front)|
    ensures AllArraysAt(rows, SignatureOfAll(WithArray(front, "a" + elem, rows, more)), k)
  {
    hide *;
    SignatureOfRows(front, elem, rows, more);
    TailIsSignature(elem, more);
    RowsReached(rows, SignatureOfAll(front) + "a", elem, SignatureOfAll(more), k);
  }

  lemma RowsOfMessageReached(front: Args, elem: string, rows: Args, more: Args)
    requires InStep(front) && IsElement(elem) && NoArrayCode(elem) && Rows(rows, elem) && Tail(more)
    ensures var vs := WithArray(front, "a" + elem, rows, more); AllArraysAt(vs, SignatureOfAll(vs), 0)
  {
    hide *;
    var sig, n := SignatureOfAll(WithArray(front, "a" + elem, rows, more)), CallsAll(front) + 1;
    OneMoreArray(elem);
    InStepLeads(front, "a" + elem + SignatureOfAll(more));
    TailIsSignature("a" + elem, more);
    FirstIsReached(front, "a" + elem, rows, more);
    RowsAfter(front, elem, rows, more, n);
    TailReached(more, sig, n + CallsAll(rows));
  }

  lemma SignatureOfRows(front: Args, elem: string, rows: Args, more: Args)
    ensures SignatureOfAll(WithArray(front, "a" + elem, rows, more))
         == (SignatureOfAll(front) + "a") + ("a" + (elem + SignatureOfAll(more)))
  {
    hide *;
    SignatureWithArray(front, "a" + elem, rows, more);
    Regrouped("a", elem, SignatureOfAll(more));
    Regrouped(SignatureOfAll(front), "a", "a" + (elem + SignatureOfAll(more)));
  }

  /** A message with an array of arrays comes back exactly when its types are known and its containers admitted. */
  lemma ArrayOfArraysComesBack(front: Args, elem: string, rows: Args, more: Args)
    requires InStep(front) && IsElement(elem) && NoArrayCode(elem) && Rows(rows, elem) && Tail(more)
    requires var vs := WithArray(front, "a" + elem, rows, more); forall v | v in vs :: Narrow(v)
    ensures var vs := WithArray(front, "a" + elem, rows, more);
            ComesBack(vs, SignatureOfAll(vs)) <==> AllKnown(vs) && SendableAll(vs)
  {
    hide *;
    var vs := WithArray(front, "a" + elem, rows, more);
    RowsOfMessageReached(front, elem, rows, more);
    RoundTrip(vs, SignatureOfAll(vs));
  }

  /** Arrays of arrays of `elem`. */
  predicate Planes(planes: Args, elem: string) {
    forall p | p in planes :: p.Container? && p.kind == Array("a" + elem) && Rows(p.children, elem)
  }

  lemma PlaneReached(plane: Value, before: string, elem: string, after: string)
    requires plane.Container? && plane.kind == Array("a" + elem) && Rows(plane.children, elem)
    requires IsElement(elem) && NoArrayCode(elem + after) && MayFollow(elem, after) && IsSignature(after)
    ensures ArraysAt(plane, before + ("a" + (("a" + elem) + after)), |before|)
  {
    hide NoArrayCode, NoArrays, IsElement, IsSignature, FirstType, Cursor, Rows, MayFollow, AllArraysAt;
    OneMoreArray(elem);
    assert MayFollow("a" + elem, after) by { hide *; SignatureMayFollow("a" + elem, after); }
    OpenedInPlace(before, "a" + elem, after, |before|);
    Shifted(before, elem, after);
    RowsReached(plane.children, before + "a", elem, after, |before| + 1);
  }

  lemma SignatureMayFollow(elem: string, after: string)
    requires IsSignature(after)
    ensures MayFollow(elem, after)
  {
  }

  lemma Shifted(before: string, elem: string, after: string)
    ensures before + ("a" + (("a" + elem) + after)) == (before + "a") + ("a" + (elem + after))
    ensures |before + "a"| == |before| + 1
  {
  }

  lemma AtMostOneAt(vs: Args, sig: string, k: nat)
    requires vs != [] ==> ArraysAt(vs[0], sig, k)
    requires |vs| > 1 ==> forall n | n > k :: !ArraysAt(vs[1], sig, n)
    ensures AllArraysAt(vs, sig, k) <==> |vs| <= 1
  {
    if vs != [] {
      assert Calls(vs[0]) >= 1;
      assert AllArraysAt(vs, sig, k) <==> AllArraysAt(vs[1..], sig, k + Calls(vs[0]));
      hide ArraysAt, Calls;
    }
  }

  /** Only the first of them can be reached: for the next one the cursor stands too far. */
  lemma PlanesReached(planes: Args, before: string, elem: string, after: string)
    requires Planes(planes, elem) && IsElement(elem) && NoArrayCode(elem + after)
    requires MayFollow(elem, after) && IsSignature(after)
    ensures AllArraysAt(planes, before + ("a" + (("a" + elem) + after)), |before|) <==> |planes| <= 1
  {
    var sig, k := before + ("a" + (("a" + elem) + after)), |before|;
    hide NoArrayCode, IsElement, IsSignature, MayFollow, Rows, ArraysAt, AllArraysAt;
    if planes != [] {
      assert planes[0] in planes;
      PlaneReached(planes[0], before, elem, after);
    }
    if |planes| > 1 {
      assert planes[1] in planes;
      forall n | n > k ensures !ArraysAt(planes[1], sig, n) {
        PlaneMissed(planes[1], before, elem, after, n);
      }
    }
    AtMostOneAt(planes, sig, k);
  }

  lemma PlaneMissed(plane: Value, before: string, elem: string, after: string, k: nat)
    requires plane.Container? && plane.kind == Array("a" + elem) && IsElement(elem) && NoArrayCode(elem + after)
    requires k > |before|
    ensures !ArraysAt(plane, before + ("a" + (("a" + elem) + after)), k)
  {
    hide NoArrayCode, NoArrays, IsElement, FirstType, Cursor, MayFollow, AllArraysAt;
    Shifted(before, elem, after);
    OpenedInPlace(before + "a", elem, after, k);
    assert |"a" + elem| == |elem| + 1;
  }

  lemma PlanesOfMessageReached(front: Args, elem: string, planes: Args, more: Args)
    requires InStep(front) && IsElement(elem) && NoArrayCode(elem)
    requires Planes(planes, elem) && Tail(more)
    ensures var vs := WithArray(front, "a" + ("a" + elem), planes, more);
            AllArraysAt(vs, SignatureOfAll(vs), 0) <==> |planes| <= 1
  {
    hide *;
    var sig, n := SignatureOfAll(WithArray(front, "a" + ("a" + elem), planes, more)), CallsAll(front) + 1;
    OneMoreArray(elem);
    OneMoreArray("a" + elem);
    InStepLeads(front, "a" + ("a" + elem) + SignatureOfAll(more));
    TailIsSignature("a" + ("a" + elem), more);
    FirstIsReached(front, "a" + ("a" + elem), planes, more);
    PlanesAfter(front, elem, planes, more);
    TailReached(more, sig, n + CallsAll(planes));
  }

  lemma PlanesAfter(front: Args, elem: string, planes: Args, more: Args)
    requires IsElement(elem) && NoArrayCode(elem) && Planes(planes, elem) && Tail(more)
    ensures var sig := SignatureOfAll(WithArray(front, "a" + ("a" + elem), planes, more));
            AllArraysAt(planes, sig, |SignatureOfAll(front)| + 1) <==> |planes| <= 1
  {
    hide *;
    SignatureOfRows(front, "a" + elem, planes, more);
    TailIsSignature(elem, more);
    TailSigned(more);
    PlanesReached(planes, SignatureOfAll(front) + "a", elem, SignatureOfAll(more));
  }

  /** An array of arrays of arrays comes back exactly when, beside, it has at most one element. */
  lemma ThreeDeepComesBack(front: Args, elem: string, planes: Args, more: Args)
    requires InStep(front) && IsElement(elem) && NoArrayCode(elem)
    requires Planes(planes, elem) && Tail(more)
    requires var vs := WithArray(front, "a" + ("a" + elem), planes, more); forall v | v in vs :: Narrow(v)
    ensures var vs := WithArray(front, "a" + ("a" + elem), planes, more);
            ComesBack(vs, SignatureOfAll(vs)) <==> AllKnown(vs) && SendableAll(vs) && |planes| <= 1
  {
    hide *;
    var vs := WithArray(front, "a" + ("a" + elem), planes, more);
    PlanesOfMessageReached(front, elem, planes, more);
    RoundTrip(vs, SignatureOfAll(vs));
  }

  // ----- behind structures, and behind another array -----

  lemma CursorBefore(before: string, after: string)
    ensures Cursor(before + ("a" + after), |before|) == "a" + after
  {
    var sig := before + ("a" + after);
    assert sig[|before|] == 'a' && sig[|before|..] == "a" + after;
    ReachPast(sig, |before|);
    CursorIs(sig, |before|);
    hide Cursor, Reach;
  }

  lemma ArrayIsSignature(front: Args, elem: string, cs: Args, more: Args)
    requires TypedAll(front) && IsElement(elem) && Tail(more)
    ensures IsSignature(SignatureOfAll(WithArray(front, elem, cs, more)))
  {
    hide *;
    SignatureWithArray(front, elem, cs, more);
    TypedThen(front, "a" + (elem + SignatureOfAll(more)));
    TailSigned(more);
    ArrayThen(elem, SignatureOfAll(more));
  }

  lemma ArrayThen(elem: string, t: string)
    requires IsElement(elem) && IsSignature(t)
    ensures IsSignature("a" + (elem + t))
  {
    var s := "a" + (elem + t);
    Extends(elem, t, Element);
    assert s[0] == 'a' && s[1..] == elem + t && "" + t == t;
    assert After(s, OneType) == Some(t);
    hide After;
  }

  lemma InPlaceAtLast(k: nat, before: string, later: string)
    requires k >= |before| && NoArrayCode(later)
    ensures InPlace(k, before, later)
  {
  }

  /** The cursor is at the elements of the second array, or still before its `a`. */
  lemma SecondIsReached(before: string, elem: string, after: string, k: nat)
    requires IsElement(elem) && NoArrayCode(elem + after) && IsSignature(after) && k + 1 >= |before|
    ensures elem == FirstType(Cursor(before + ("a" + (elem + after)), k + 1)) <==> k >= |before|
  {
    hide *;
    SignatureMayFollow(elem, after);
    if k >= |before| {
      InPlaceAtLast(k, before, elem + after);
      OpenedInPlace(before, elem, after, k);
    } else {
      CursorBefore(before, elem + after);
      SignatureMayFollow("a" + elem, after);
      OneMoreArray(elem);
      FirstTypeOf("a" + elem, after);
      Regrouped("a", elem, after);
    }
  }

  lemma OnlyArrayAt(front: Args, elem: string, cs: Args, more: Args, sig: string, k: nat)
    requires NoArrays(front) && NoArrays(cs) && Tail(more)
    ensures AllArraysAt(WithArray(front, elem, cs, more), sig, k) <==>
              elem == FirstType(Cursor(sig, k + CallsAll(front) + 1))
  {
    hide *;
    var n := k + CallsAll(front) + 1;
    ArraysWithArray(front, elem, cs, more, sig, k);
    NoArrayNeedsACursor(cs, sig, n);
    TailReached(more, sig, n + CallsAll(cs));
  }

  lemma ArrayBehindReached(front: Args, elem: string, cs: Args, more: Args)
    requires NoArrays(front) && CallsAll(front) + 1 >= |SignatureOfAll(front)|
    requires IsElement(elem) && NoArrayCode(elem) && NoArrays(cs) && Tail(more)
    ensures var vs := WithArray(front, elem, cs, more);
            AllArraysAt(vs, SignatureOfAll(vs), 0) <==> CallsAll(front) >= |SignatureOfAll(front)|
  {
    hide *;
    SignatureWithArray(front, elem, cs, more);
    OnlyArrayAt(front, elem, cs, more, SignatureOfAll(WithArray(front, elem, cs, more)), 0);
    TailIsSignature(elem, more);
    TailSigned(more);
    SecondIsReached(SignatureOfAll(front), elem, SignatureOfAll(more), CallsAll(front));
  }

  /** Behind a structure, which takes one item less than it has characters, an array comes back exactly when something
      else, such as a variant, makes up for it. */
  lemma ArrayBehindComesBack(front: Args, elem: string, cs: Args, more: Args)
    requires NoArrays(front) && CallsAll(front) + 1 >= |SignatureOfAll(front)|
    requires IsElement(elem) && NoArrayCode(elem) && NoArrays(cs) && Tail(more)
    requires var vs := WithArray(front, elem, cs, more); forall v | v in vs :: Narrow(v)
    ensures var vs := WithArray(front, elem, cs, more);
            ComesBack(vs, SignatureOfAll(vs)) <==>
              AllKnown(vs) && SendableAll(vs) && CallsAll(front) >= |SignatureOfAll(front)|
  {
    hide *;
    var vs := WithArray(front, elem, cs, more);
    ArrayBehindReached(front, elem, cs, more);
    RoundTrip(vs, SignatureOfAll(vs));
  }

  function TwoArrays(front: Args, e: string, cs: Args, mid: Args, f: string, ds: Args, more: Args): Args
  {
    WithArray(front, e, cs, WithArray(mid, f, ds, more))
  }

  lemma SignatureOfTwo(front: Args, e: string, cs: Args, mid: Args, f: string, ds: Args, more: Args)
    ensures var before := SignatureOfAll(front) + ("a" + (e + SignatureOfAll(mid)));
            && SignatureOfAll(TwoArrays(front, e, cs, mid, f, ds, more)) == before + ("a" + (f + SignatureOfAll(more)))
            && |before| == |SignatureOfAll(front)| + 1 + |e| + |SignatureOfAll(mid)|
  {
    SignatureWithArray(front, e, cs, WithArray(mid, f, ds, more));
    SignatureWithArray(mid, f, ds, more);
    hide SignatureOfAll, WithArray;
    var last := "a" + (f + SignatureOfAll(more));
    assert e + (SignatureOfAll(mid) + last) == (e + SignatureOfAll(mid)) + last;
  }

  lemma SomeItems(cs: Args)
    ensures cs == [] <==> CallsAll(cs) == 0
  {
  }

  /** The first array is reached in any case. */
  lemma TwoArraysAt(front: Args, e: string, cs: Args, mid: Args, f: string, ds: Args, more: Args)
    requires InStep(front) && IsElement(e) && NoArrays(cs)
    requires InStep(mid) && TypedAll(mid) && IsElement(f) && NoArrays(ds) && Tail(more)
    ensures var vs := TwoArrays(front, e, cs, mid, f, ds, more);
            var sig := SignatureOfAll(vs);
            AllArraysAt(vs, sig, 0) <==>
              f == FirstType(Cursor(sig, CallsAll(front) + 1 + CallsAll(cs) + CallsAll(mid) + 1))
  {
    hide *;
    var others := WithArray(mid, f, ds, more);
    TwoArraysNest(front, e, cs, mid, f, ds, more);
    var sig := SignatureOfAll(WithArray(front, e, cs, others));
    InStepLeads(front, e + SignatureOfAll(others));
    InStepLeads(mid, "");
    ArrayIsSignature(mid, f, ds, more);
    SignatureMayFollow(e, SignatureOfAll(others));
    FirstIsReached(front, e, cs, others);
    NoArrayNeedsACursor(cs, sig, CallsAll(front) + 1);
    OnlyArrayAt(mid, f, ds, more, sig, CallsAll(front) + 1 + CallsAll(cs));
  }

  lemma TwoArraysNest(front: Args, e: string, cs: Args, mid: Args, f: string, ds: Args, more: Args)
    ensures TwoArrays(front, e, cs, mid, f, ds, more) == WithArray(front, e, cs, WithArray(mid, f, ds, more))
  {
  }

  lemma TwoArraysReached(front: Args, e: string, cs: Args, mid: Args, f: string, ds: Args, more: Args)
    requires InStep(front) && IsElement(e) && |e| == 1 && NoArrays(cs)
    requires InStep(mid) && TypedAll(mid) && IsElement(f) && NoArrayCode(f) && NoArrays(ds) && Tail(more)
    ensures var vs := TwoArrays(front, e, cs, mid, f, ds, more); AllArraysAt(vs, SignatureOfAll(vs), 0) <==> cs != []
  {
    hide *;
    TwoArraysAt(front, e, cs, mid, f, ds, more);
    InStepLeads(front, "");
    InStepLeads(mid, "");
    SignatureOfTwo(front, e, cs, mid, f, ds, more);
    TailIsSignature(f, more);
    TailSigned(more);
    SomeItems(cs);
    SecondIsReached(SignatureOfAll(front) + ("a" + (e + SignatureOfAll(mid))), f, SignatureOfAll(more),
                    CallsAll(front) + 1 + CallsAll(cs) + CallsAll(mid));
  }

  /** A message with two arrays, the first of them of elements with a signature of one character, comes back exactly
      when, beside, the first array is not empty. */
  lemma SecondArrayComesBack(front: Args, e: string, cs: Args, mid: Args, f: string, ds: Args, more: Args)
    requires InStep(front) && IsElement(e) && |e| == 1 && NoArrays(cs)
    requires InStep(mid) && TypedAll(mid) && IsElement(f) && NoArrayCode(f) && NoArrays(ds) && Tail(more)
    requires var vs := TwoArrays(front, e, cs, mid, f, ds, more); forall v | v in vs :: Narrow(v)
    ensures var vs := TwoArrays(front, e, cs, mid, f, ds, more);
            ComesBack(vs, SignatureOfAll(vs)) <==> AllKnown(vs) && SendableAll(vs) && cs != []
  {
    hide *;
    var vs := TwoArrays(front, e, cs, mid, f, ds, more);
    TwoArraysReached(front, e, cs, mid, f, ds, more);
    RoundTrip(vs, SignatureOfAll(vs));
  }

  // ----- arrays in structures -----

  function InStructure(front: Args, inner: Args, elem: string, cs: Args, rest: Args, more: Args): Args
  {
    front + ([Container(Struct, WithArray(inner, elem, cs, rest))] + more)
  }

  lemma SignatureInStructure(front: Args, inner: Args, elem: string, cs: Args, rest: Args, more: Args)
    ensures var before := SignatureOfAll(front) + ("(" + SignatureOfAll(inner));
            && SignatureOfAll(InStructure(front, inner, elem, cs, rest, more))
            == before + ("a" + (elem + (SignatureOfAll(rest) + (")" + SignatureOfAll(more)))))
            && |before| == |SignatureOfAll(front)| + 1 + |SignatureOfAll(inner)|
  {
    var v := Container(Struct, WithArray(inner, elem, cs, rest));
    assert ([v] + more)[0] == v && ([v] + more)[1..] == more;
    assert SignatureOfAll([v] + more) == ("(" + SignatureOfAll(v.children) + ")") + SignatureOfAll(more);
    SignaturesJoin(front, [v] + more);
    SignatureWithArray(inner, elem, cs, rest);
    hide SignatureOfAll, WithArray;
    StructureText(SignatureOfAll(front), SignatureOfAll(inner), elem, SignatureOfAll(rest), SignatureOfAll(more));
  }

  lemma StructureText(f: string, i: string, e: string, r: string, m: string)
    ensures f + (("(" + (i + ("a" + (e + r))) + ")") + m) == (f + ("(" + i)) + ("a" + (e + (r + (")" + m))))
    ensures |f + ("(" + i)| == |f| + 1 + |i|
  {
    var field, close := "a" + (e + r), ")" + m;
    Regrouped("(", i, field);
    Regrouped("(" + (i + field), ")", m);
    Regrouped("(" + i, field, close);
    Regrouped("a", e + r, close);
    Regrouped(e, r, close);
    Regrouped(f, "(" + i, field + close);
  }

  lemma StructureAt(cs: Args, more: Args, sig: string, k: nat)
    requires NoArrays(more)
    ensures AllArraysAt([Container(Struct, cs)] + more, sig, k) <==> AllArraysAt(cs, sig, k + 1)
  {
    var v := Container(Struct, cs);
    assert ([v] + more)[0] == v && ([v] + more)[1..] == more;
    NoArrayNeedsACursor(more, sig, k + Calls(v));
    hide FirstType, Cursor, NoArrays, CallsAll;
  }

  lemma ArraysInStructure(front: Args, inner: Args, elem: string, cs: Args, rest: Args, more: Args, sig: string)
    requires NoArrays(front) && NoArrays(inner) && NoArrays(cs) && NoArrays(rest) && NoArrays(more)
    ensures AllArraysAt(InStructure(front, inner, elem, cs, rest, more), sig, 0) <==>
              elem == FirstType(Cursor(sig, CallsAll(front) + 1 + CallsAll(inner) + 1))
  {
    var fields, n := WithArray(inner, elem, cs, rest), CallsAll(front);
    hide AllArraysAt, FirstType, Cursor, NoArrays, CallsAll, WithArray;
    StructureAt(fields, more, sig, n);
    ArraysJoin(front, [Container(Struct, fields)] + more, sig, 0);
    NoArrayNeedsACursor(front, sig, 0);
    ArraysWithArray(inner, elem, cs, rest, sig, n + 1);
    NoArrayNeedsACursor(cs, sig, n + 1 + CallsAll(inner) + 1);
    NoArrayNeedsACursor(rest, sig, n + 1 + CallsAll(inner) + 1 + CallsAll(cs));
  }

  lemma StructureCloses(elem: string, rest: Args, t: string)
    requires TypedAll(rest)
    ensures MayFollow(elem, SignatureOfAll(rest) + (")" + t)) <==> elem != "" && elem[0] == '{'
  {
    TypedThen(rest, ")" + t);
    NothingCloses(t);
    hide IsSignature, TypedAll, SignatureOfAll;
  }

  lemma StructureReached(front: Args, inner: Args, elem: string, cs: Args, rest: Args, more: Args)
    requires InStep(front) && InStep(inner) && IsElement(elem) && NoArrays(cs) && Tail(rest) && NoArrays(more)
    ensures elem != ""
    ensures var vs := InStructure(front, inner, elem, cs, rest, more);
            AllArraysAt(vs, SignatureOfAll(vs), 0) <==> elem[0] == '{'
  {
    hide *;
    NotEmpty(elem);
    TailHasNoArrays(rest);
    InStepLeads(front, "");
    InStepLeads(inner, "");
    var sig := SignatureOfAll(InStructure(front, inner, elem, cs, rest, more));
    ArraysInStructure(front, inner, elem, cs, rest, more, sig);
    StructureOpened(front, inner, elem, cs, rest, more, CallsAll(front) + 1 + CallsAll(inner));
  }

  lemma NotEmpty(elem: string)
    requires IsElement(elem)
    ensures elem != ""
  {
  }

  lemma TailHasNoArrays(rest: Args)
    requires Tail(rest)
    ensures NoArrays(rest)
  {
  }

  lemma StructureOpened(front: Args, inner: Args, elem: string, cs: Args, rest: Args, more: Args, k: nat)
    requires k == |SignatureOfAll(front)| + 1 + |SignatureOfAll(inner)|
    requires elem != "" && IsElement(elem) && Tail(rest)
    ensures var sig := SignatureOfAll(InStructure(front, inner, elem, cs, rest, more));
            elem == FirstType(Cursor(sig, k + 1)) <==> elem[0] == '{'
  {
    assert TypedAll(rest);
    hide *;
    var before, m := SignatureOfAll(front) + ("(" + SignatureOfAll(inner)), SignatureOfAll(more);
    SignatureInStructure(front, inner, elem, cs, rest, more);
    StructureCloses(elem, rest, m);
    ExactlyInPlace(k, before, elem + (SignatureOfAll(rest) + (")" + m)));
    OpenedInPlace(before, elem, SignatureOfAll(rest) + (")" + m), k);
  }

  lemma ExactlyInPlace(k: nat, before: string, later: string)
    requires k == |before|
    ensures InPlace(k, before, later)
  {
  }

  /** A message with an array in a structure comes back exactly when, beside, that array is a dictionary: what is left
      of the signature of any other is refused for the end of the structure in it. */
  lemma ArrayInStructureComesBack(front: Args, inner: Args, elem: string, cs: Args, rest: Args, more: Args)
    requires InStep(front) && InStep(inner) && IsElement(elem) && NoArrays(cs) && Tail(rest) && NoArrays(more)
    requires var vs := InStructure(front, inner, elem, cs, rest, more); forall v | v in vs :: Narrow(v)
    ensures elem != ""
    ensures var vs := InStructure(front, inner, elem, cs, rest, more);
            ComesBack(vs, SignatureOfAll(vs)) <==> AllKnown(vs) && SendableAll(vs) && elem[0] == '{'
  {
    hide *;
    var vs := InStructure(front, inner, elem, cs, rest, more);
    StructureReached(front, inner, elem, cs, rest, more);
    RoundTrip(vs, SignatureOfAll(vs));
  }

  // ----- dictionaries of arrays -----

  /** What a dictionary from keys of type `c` to arrays of `e` holds. */
  function EntryOf(c: char, e: string): string { ("{" + [c]) + ("a" + (e + "}")) }

  lemma EntryIsElement(c: char, e: string)
    requires c in BASIC_CODES && IsElement(e)
    ensures IsElement(EntryOf(c, e)) && EntryOf(c, e)[0] == '{'
  {
    var s := EntryOf(c, e);
    assert s[0] == '{' && s[1] == c && s[2..] == "a" + (e + "}") && s[2..][1..] == e + "}";
    Extends(e, "}", Element);
    assert "" + "}" == "}" && "}"[1..] == "";
    assert s[2..][0] == 'a' && After(s[2..], OneType) == After(e + "}", Element) == Some("}");
  }

  /** A basic key and an array of `e`, without further arrays in it. */
  predicate IsArrayEntry(x: Value, e: string) {
    && x.Container? && x.kind == DictEntry && |x.children| == 2 && IsBasic(x.children[0])
    && x.children[1].Container? && x.children[1].kind == Array(e) && NoArrays(x.children[1].children)
  }

  predicate ArrayEntries(entries: Args, e: string) { forall x | x in entries :: IsArrayEntry(x, e) }

  lemma EntryAt(x: Value, e: string, sig: string, k: nat)
    requires IsArrayEntry(x, e)
    ensures ArraysAt(x, sig, k) <==> e == FirstType(Cursor(sig, k + 3))
  {
    var key, v := x.children[0], x.children[1];
    assert x.children[1..] == [v] && [v][1..] == [];
    assert Calls(key) == 1 && ArraysAt(key, sig, k + 1);
    NoArrayNeedsACursor(v.children, sig, k + 3);
    assert AllArraysAt([v], sig, k + 2) <==> ArraysAt(v, sig, k + 2);
    hide FirstType, Cursor, NoArrays;
  }

  lemma {:induction false} AllOrNone(vs: Args, sig: string, k: nat, reached: bool)
    requires forall v, n | v in vs && n >= k :: ArraysAt(v, sig, n) <==> reached
    ensures AllArraysAt(vs, sig, k) <==> vs == [] || reached
    decreases vs
  {
    hide ArraysAt, Calls;
    if vs != [] {
      assert vs[0] in vs;
      AllOrNone(vs[1..], sig, k + Calls(vs[0]), reached);
    }
  }

  lemma EntryReached(x: Value, before: string, e: string, after: string, k: nat)
    requires IsArrayEntry(x, e) && IsElement(e) && NoArrayCode(e + after) && k + 2 >= |before|
    ensures ArraysAt(x, before + ("a" + (e + after)), k) <==> MayFollow(e, after)
  {
    assert e != "";
    hide *;
    EntryAt(x, e, before + ("a" + (e + after)), k);
    InPlaceAtLast(k + 2, before, e + after);
    OpenedInPlace(before, e, after, k + 2);
  }

  /** All of them are reached or none, the last array of the signature being theirs. */
  lemma EntriesReached(entries: Args, before: string, e: string, after: string, k: nat)
    requires ArrayEntries(entries, e) && IsElement(e) && NoArrayCode(e + after) && k + 2 >= |before|
    ensures AllArraysAt(entries, before + ("a" + (e + after)), k) <==> entries == [] || MayFollow(e, after)
  {
    var sig := before + ("a" + (e + after));
    hide IsElement, MayFollow, NoArrayCode, IsArrayEntry, ArraysAt, AllArraysAt;
    forall x, n | x in entries && n >= k ensures ArraysAt(x, sig, n) <==> MayFollow(e, after) {
      EntryReached(x, before, e, after, n);
    }
    AllOrNone(entries, sig, k, MayFollow(e, after));
  }

  lemma SignatureOfDictionary(front: Args, c: char, e: string, entries: Args, more: Args)
    ensures var before := SignatureOfAll(front) + ("a" + ("{" + [c]));
            && SignatureOfAll(WithArray(front, EntryOf(c, e), entries, more))
            == before + ("a" + (e + ("}" + SignatureOfAll(more))))
            && |before| == |SignatureOfAll(front)| + 3
  {
    SignatureWithArray(front, EntryOf(c, e), entries, more);
    hide SignatureOfAll, WithArray;
    var f, key, m := SignatureOfAll(front), "{" + [c], SignatureOfAll(more);
    Regrouped(key, "a" + (e + "}"), m);
    Regrouped("a", e + "}", m);
    Regrouped(e, "}", m);
    var tail := "a" + (e + ("}" + m));
    Regrouped("a", key, tail);
    Regrouped(f, "a" + key, tail);
  }

  lemma EntryCloses(e: string, more: Args)
    requires NoArrays(more) && NoArrayCode(e)
    ensures MayFollow(e, "}" + SignatureOfAll(more)) <==> e != "" && e[0] == '{'
    ensures NoArrayCode(e + ("}" + SignatureOfAll(more)))
  {
    NothingCloses(SignatureOfAll(more));
    NoArraysNoArrayCode(more);
    hide IsSignature, SignatureOfAll, NoArrays;
  }

  lemma DictionaryReached(front: Args, c: char, e: string, entries: Args, more: Args)
    requires InStep(front) && c in BASIC_CODES && IsElement(e) && NoArrayCode(e)
    requires ArrayEntries(entries, e) && NoArrays(more)
    ensures e != ""
    ensures var vs := WithArray(front, EntryOf(c, e), entries, more);
            AllArraysAt(vs, SignatureOfAll(vs), 0) <==> entries == [] || e[0] == '{'
  {
    assert e != "";
    hide *;
    var sig, n := SignatureOfAll(WithArray(front, EntryOf(c, e), entries, more)), CallsAll(front) + 1;
    EntryIsElement(c, e);
    EntryMayBeFollowed(EntryOf(c, e), SignatureOfAll(more));
    InStepLeads(front, EntryOf(c, e) + SignatureOfAll(more));
    FirstIsReached(front, EntryOf(c, e), entries, more);
    NoArrayNeedsACursor(more, sig, n + CallsAll(entries));
    SignatureOfDictionary(front, c, e, entries, more);
    EntryCloses(e, more);
    EntriesReached(entries, SignatureOfAll(front) + ("a" + ("{" + [c])), e, "}" + SignatureOfAll(more), n);
  }

  lemma EntryMayBeFollowed(elem: string, after: string)
    requires elem != "" && elem[0] == '{'
    ensures MayFollow(elem, after)
  {
  }

  /** A message with a dictionary of arrays comes back exactly when, beside, it is empty or its arrays are dictionaries
      themselves: what is left of the signature of any other is refused for the end of the entry in it. */
  lemma DictionaryOfArraysComesBack(front: Args, c: char, e: string, entries: Args, more: Args)
    requires InStep(front) && c in BASIC_CODES && IsElement(e) && NoArrayCode(e)
    requires ArrayEntries(entries, e) && NoArrays(more)
    requires var vs := WithArray(front, EntryOf(c, e), entries, more); forall v | v in vs :: Narrow(v)
    ensures e != ""
    ensures var vs := WithArray(front, EntryOf(c, e), entries, more);
            ComesBack(vs, SignatureOfAll(vs)) <==>
              AllKnown(vs) && SendableAll(vs) && (entries == [] || e[0] == '{')
  {
    hide *;
    var vs := WithArray(front, EntryOf(c, e), entries, more);
    DictionaryReached(front, c, e, entries, more);
    RoundTrip(vs, SignatureOfAll(vs));
  }
}
