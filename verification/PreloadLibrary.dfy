/** The tracker as the C code runs it: storages linked by `next`, counters changed in place. */
module PreloadLibrary {
  import opened AllocTracker

  /** What a pointer to a pointer can point to. */
  datatype Slot = HeadSlot | NextSlot(node: Addr)

  ghost predicate Linked(next: map<Addr, Addr>, order: seq<Addr>, i: nat)
    requires i < |order|
  {
    order[i] in next && next[order[i]] == Element(order, i + 1)
  }

  /** `next` links `order`, from `first` to the null pointer. */
  ghost predicate Chain(first: Addr, next: map<Addr, Addr>, order: seq<Addr>) {
    && NULL !in order
    && Distinct(order)
    && first == Element(order, 0)
    && forall i | 0 <= i < |order| :: Linked(next, order, i)
  }

  lemma ChainPush(first: Addr, next: map<Addr, Addr>, order: seq<Addr>, a: Addr)
    requires Chain(first, next, order) && a != NULL && a !in order
    ensures Chain(a, next[a := first], [a] + order)
  {
    var longer := [a] + order;
    var after := next[a := first];
    forall i | 0 <= i < |longer| ensures Linked(after, longer, i) {
      if i > 0 {
        assert longer[i] == order[i - 1] && Linked(next, order, i - 1);
      }
    }
    assert forall i, j | 0 <= i < j < |longer| :: longer[j] == order[j - 1] && (i > 0 ==> longer[i] == order[i - 1]);
  }

  ghost function SlotAt(order: seq<Addr>, i: nat): Slot
    requires i <= |order|
  {
    if i == 0 then HeadSlot else NextSlot(order[i - 1])
  }

  /** What stands in the slot before `order[i]`. */
  ghost function Held(first: Addr, next: map<Addr, Addr>, p: Slot): Addr {
    if p.HeadSlot? then first else if p.node in next then next[p.node] else NULL
  }

  lemma SlotHolds(first: Addr, next: map<Addr, Addr>, order: seq<Addr>, i: nat)
    requires Chain(first, next, order) && i <= |order|
    ensures SlotAt(order, i).NextSlot? ==> SlotAt(order, i).node in next
    ensures Held(first, next, SlotAt(order, i)) == Element(order, i)
    ensures Element(order, i) == NULL <==> i == |order|
  {
    if i > 0 {
      assert Linked(next, order, i - 1);
    }
  }

  /** Writing the successor of `order[i]` over the slot before it unlinks it and nothing else. */
  lemma ChainUnlink(first: Addr, next: map<Addr, Addr>, order: seq<Addr>, i: nat)
    requires Chain(first, next, order) && i < |order|
    ensures order[i] in next && next[order[i]] == Element(order, i + 1)
    ensures i == 0 ==> Chain(next[order[i]], next - {order[i]}, Shorter(order, i))
    ensures i > 0 ==> Chain(first, (next - {order[i]})[order[i - 1] := next[order[i]]], Shorter(order, i))
    ensures SlotAt(Shorter(order, i), i) == SlotAt(order, i)
    ensures Shorter(order, i) == Without(order, order[i]) && |Shorter(order, i)| == |order| - 1
    ensures order[|order| - 1] == order[i] <==> i == |order| - 1
    ensures forall b :: b in Shorter(order, i) <==> b in order && b != order[i]
  {
    assert Linked(next, order, i);
    ShorterIsDistinct(order, i);
    WithoutAt(order, i);
    var shorter, cut := Shorter(order, i), next - {order[i]};
    var after := if i == 0 then cut else cut[order[i - 1] := next[order[i]]];
    assert i > 0 ==> Linked(next, order, i - 1) && order[i - 1] != order[i];
    forall j | 0 <= j < |shorter| ensures Linked(after, shorter, j) {
      var k := if j < i then j else j + 1;
      assert shorter[j] == order[k] && Linked(next, order, k);
      assert order[k] != order[i] && (k != i - 1 && i > 0 ==> order[k] != order[i - 1]);
    }
  }

  lemma NextIsFollowing(first: Addr, next: map<Addr, Addr>, order: seq<Addr>, a: Addr)
    requires Chain(first, next, order) && a in order
    ensures a in next && next[a] == Following(order, a)
    ensures next[a] != NULL ==> next[a] in order && next[a] != a
  {
    var i :| 0 <= i < |order| && order[i] == a;
    assert Linked(next, order, i);
    FollowingAt(order, i);
  }

  /** Every header names a storage that is there. */
  ghost predicate NoneDangles(nodes: map<Addr, Counters>, blocks: map<Addr, AllocHeader>) {
    NULL !in blocks && forall b | b in blocks :: blocks[b].counters in nodes
  }

  lemma ReplacedDangles(nodes: map<Addr, Counters>, blocks: map<Addr, AllocHeader>, cur: Addr, block: Addr, h: AllocHeader)
    requires NoneDangles(nodes, blocks) && block != NULL && h.counters in nodes
    ensures NoneDangles(nodes, (blocks - {cur})[block := h])
  {
  }

  lemma ReleasedParts(s: Store, cur: Addr)
    requires NULL !in s.blocks && (cur != NULL ==> cur in s.blocks && s.blocks[cur].counters in s.nodes)
    ensures Released(s, cur) == s.(nodes := Released(s, cur).nodes, blocks := s.blocks - {cur})
  {
  }

  lemma ChargeKeepsBlocks(s: Store, blocks: map<Addr, AllocHeader>, t: Thread, size: word, spot: Addr)
    ensures Charge(s.(blocks := blocks), t, size, spot) == Charge(s, t, size, spot).(blocks := blocks)
  {
    hide Charged;
  }

  class Library {
    var head: Addr
    var next: map<Addr, Addr>
    var nodes: map<Addr, Counters>
    var blocks: map<Addr, AllocHeader>
    var local: map<Thread, Addr>
    ghost var order: seq<Addr>

    ghost function Value(): Store
      reads this
    {
      Store(order, nodes, blocks, local)
    }

    /** The list is linked, and no pointer dangles. */
    ghost predicate Linked()
      reads this
    {
      Chain(head, next, order) && forall a :: a in order <==> a in nodes
    }

    ghost predicate Valid()
      reads this
    {
      Linked() && NoneDangles(nodes, blocks)
    }

    constructor ()
      ensures Valid() && Value() == EMPTY
    {
      head, next, nodes, blocks, local, order := NULL, map[], map[], map[], map[], [];
    }

    function Load(p: Slot): Addr
      requires p.NextSlot? ==> p.node in next
      reads this
    {
      match p
      case HeadSlot => head
      case NextSlot(a) => next[a]
    }

    method StoreAt(p: Slot, a: Addr)
      modifies `head, `next
      ensures p.HeadSlot? ==> head == a && next == old(next)
      ensures p.NextSlot? ==> head == old(head) && next == old(next)[p.node := a]
    {
      match p
      case HeadSlot => head := a;
      case NextSlot(n) => next := next[n := a];
    }

    method AddThread(t: Thread, spot: Addr)
      requires Valid() && spot != NULL && spot !in nodes
      modifies this
      ensures Valid()
      ensures nodes == old(nodes)[spot := NewCounters(t)] && order == [spot] + old(order)
      ensures blocks == old(blocks) && local == old(local)
    {
      ChainPush(head, next, order, spot);
      nodes := nodes[spot := NewCounters(t)];
      next := next[spot := head];
      head := spot;
      order := [spot] + order;
    }

    method GetThreadStorage(t: Thread, spot: Addr) returns (n: Addr)
      requires Valid() && spot != NULL && spot !in nodes
      requires t in local ==> local[t] in nodes
      modifies this
      ensures Valid() && Value() == Register(old(Value()), t, spot)
      ensures t in local && n == local[t] && n in nodes
    {
      if t !in local {
        AddThread(t, spot);
        local := local[t := spot];
      }
      n := local[t];
    }

    method CountAllocate(n: Addr, size: word)
      requires n in nodes
      modifies `nodes
      ensures nodes == old(nodes)[n := Charged(old(nodes)[n], size)]
    {
      nodes := nodes[n := nodes[n].(allocCount := Add(nodes[n].allocCount, 1))];
      nodes := nodes[n := nodes[n].(memCurrent := Add(nodes[n].memCurrent, size))];
      var count := nodes[n].memCurrent;
      if nodes[n].peakNeedsReset || count > nodes[n].memPeak {
        nodes := nodes[n := nodes[n].(peakNeedsReset := false)];
        nodes := nodes[n := nodes[n].(memPeak := count)];
      }
      nodes := nodes[n := nodes[n].(countOverall := Add(nodes[n].countOverall, 1))];
    }

    /** The first subtraction of a release. */
    method CountDown(n: Addr)
      requires n in nodes
      modifies `nodes
      ensures nodes == old(nodes)[n := CountedDown(old(nodes)[n])]
    {
      nodes := nodes[n := nodes[n].(allocCount := Sub(nodes[n].allocCount, 1))];
    }

    method CountDeallocate(n: Addr, size: word)
      requires n in nodes
      modifies `nodes
      ensures nodes == old(nodes)[n := Discharged(old(nodes)[n], size)]
    {
      CountDown(n);
      nodes := nodes[n := nodes[n].(memCurrent := Sub(nodes[n].memCurrent, size))];
    }

    /** Finds or makes the storage of the thread and counts an allocation there. */
    method ChargeTo(t: Thread, size: word, spot: Addr) returns (n: Addr)
      requires Valid() && spot != NULL && spot !in nodes
      requires t in local ==> local[t] in nodes
      modifies this
      ensures Valid() && Value() == Charge(old(Value()), t, size, spot)
      ensures t in local && n == local[t] && n in nodes
    {
      n := GetThreadStorage(t, spot);
      CountAllocate(n, size);
    }

    /** What both allocators do with the block they get: charge it and write its header. */
    method NewBlock(t: Thread, size: word, spot: Addr, block: Addr)
      requires Valid() && spot != NULL && spot !in nodes && block != NULL
      requires t in local ==> local[t] in nodes
      modifies this
      ensures Valid() && Value() == Alloc(old(Value()), t, size, spot, block)
      ensures t in local && block in blocks && blocks[block] == AllocHeader(size, local[t])
    {
      var n := ChargeTo(t, size, spot);
      blocks := blocks[block := AllocHeader(size, n)];
    }

    method Malloc(t: Thread, size: word, spot: Addr, block: Addr)
      requires Valid() && spot != NULL && spot !in nodes && block != NULL
      requires t in local ==> local[t] in nodes
      modifies this
      ensures Valid() && Value() == Alloc(old(Value()), t, size, spot, block)
      ensures t in local && block in blocks && blocks[block] == AllocHeader(size, local[t])
    {
      NewBlock(t, size, spot, block);
    }

    /** The size of the array is a machine word, wrap-around included. */
    method Calloc(t: Thread, items: word, itemSize: word, spot: Addr, block: Addr)
      requires Valid() && spot != NULL && spot !in nodes && block != NULL
      requires t in local ==> local[t] in nodes
      modifies this
      ensures Valid() && Value() == Alloc(old(Value()), t, Product(items, itemSize), spot, block)
      ensures t in local && block in blocks && blocks[block].counters == local[t]
      ensures SameWord(blocks[block].size, items * itemSize)
    {
      ProductLaw(items, itemSize);
      hide *;
      var size := Product(items, itemSize);
      NewBlock(t, size, spot, block);
    }

    /** The charge of the old block is taken back before anything else; its header is still there. */
    method Uncharge(cur: Addr)
      requires Valid() && (cur != NULL ==> cur in blocks)
      modifies `nodes
      ensures Valid() && nodes == Released(old(Value()), cur).nodes
    {
      if cur != NULL {
        var h := blocks[cur];
        CountDeallocate(h.counters, h.size);
      }
    }

    /** The C library moves the block, and its header is written anew. */
    method MoveBlock(cur: Addr, block: Addr, h: AllocHeader)
      requires Valid() && block != NULL && h.counters in nodes
      modifies `blocks
      ensures Valid() && blocks == (old(blocks) - {cur})[block := h]
    {
      hide Chain, NoneDangles;
      ReplacedDangles(nodes, blocks, cur, block, h);
      blocks := (blocks - {cur})[block := h];
    }

    /** A reallocation is a release and an allocation, whichever thread held the old block. */
    method ReallocBlock(t: Thread, cur: Addr, size: word, spot: Addr, block: Addr)
      requires Valid() && spot != NULL && spot !in nodes
      requires block != NULL && (t in local ==> local[t] in nodes)
      requires cur != NULL ==> cur in blocks
      modifies this
      ensures Valid() && Value() == Realloc(old(Value()), t, cur, size, spot, block)
      ensures t in local && block in blocks && blocks[block] == AllocHeader(size, local[t])
    {
      ReleasedParts(Value(), cur);
      ghost var was := Released(Value(), cur);
      hide Chain, Charge, Released, NoneDangles;
      Uncharge(cur);
      ChargeKeepsBlocks(Value(), was.blocks, t, size, spot);
      var n := ChargeTo(t, size, spot);
      MoveBlock(cur, block, AllocHeader(size, n));
      assert Value() == Realloc(old(Value()), t, cur, size, spot, block);
    }

    method Free(block: Addr)
      requires Valid() && (block != NULL ==> block in blocks)
      modifies this
      ensures Valid() && Value() == Released(old(Value()), block)
    {
      if block != NULL {
        var h := blocks[block];
        CountDeallocate(h.counters, h.size);
        blocks := blocks - {block};
      }
    }

    /** Frees the storage `p` points to and writes its successor into `p`. */
    method Remove(p: Slot, a: Addr, ghost i: nat)
      requires Chain(head, next, order) && i < |order| && order[i] == a && p == SlotAt(order, i)
      modifies this
      ensures Chain(head, next, order) && order == Shorter(old(order), i) && order == Without(old(order), a)
      ensures forall b :: b in order <==> b in old(order) && b != a
      ensures |order| == |old(order)| - 1 && p == SlotAt(order, i)
      ensures old(order)[|old(order)| - 1] == a <==> i == |order|
      ensures nodes == old(nodes) - {a} && blocks == old(blocks) && local == old(local)
    {
      hide Chain, Without, Shorter;
      ChainUnlink(head, next, order, i);
      var after := next[a];
      nodes := nodes - {a};
      next := next - {a};
      StoreAt(p, after);
      order := Shorter(order, i);
    }

    /** The loop through the pointer to a pointer. It steps through the slot it has just written, so it
        faults exactly when the storage it removed was the last one. */
    method Unlink(current: Addr) returns (faulted: bool)
      requires Linked() && current in order
      modifies this
      ensures Linked() && Value() == Unlinked(old(Value()), current)
      ensures faulted <==> old(order)[|old(order)| - 1] == current
    {
      hide Chain, Without, Shorter;
      faulted := false;
      ghost var was, nodesWere, i := order, nodes, 0;
      var p := HeadSlot;
      SlotHolds(head, next, order, i);
      while Load(p) != NULL
        invariant i <= |order| && p == SlotAt(order, i)
        invariant p.NextSlot? ==> p.node in next
        invariant Chain(head, next, order)
        invariant forall b :: b in order <==> b in nodes
        invariant blocks == old(blocks) && local == old(local)
        invariant if current in order then order == was && nodes == nodesWere && current !in order[..i]
                  else order == Without(was, current) && nodes == nodesWere - {current}
        invariant current !in order ==> was[|was| - 1] != current
        decreases |order| - i
      {
        var a := Load(p);
        SlotHolds(head, next, order, i);
        if a == current {
          Remove(p, a, i);
        }
        SlotHolds(head, next, order, i);
        var b := Load(p);
        if b == NULL {
          faulted := true;
          break;
        }
        p := NextSlot(b);
        i := i + 1;
        SlotHolds(head, next, order, i);
      }
      SlotHolds(head, next, order, i);
    }

    method GetNext(current: Addr, live: bool) returns (result: Addr, faulted: bool)
      requires Linked() && (current != NULL ==> current in nodes)
      modifies this
      ensures faulted <==> Reclaimable(old(Value()), current) && old(order)[|old(order)| - 1] == current
      ensures result == NextOf(old(Value()), current)
      ensures !faulted ==> Linked() && Value() == Step(old(Value()), current, live)
      ensures !faulted && old(Valid()) ==>
                (Valid() <==> Reclaimable(old(Value()), current) ==> forall b | b in blocks :: blocks[b].counters != current)
    {
      assert NULL !in order;
      hide Chain, Following, Without;
      SlotHolds(head, next, order, 0);
      result, faulted := head, false;
      if current != NULL {
        NextIsFollowing(head, next, order, current);
        result := next[current];
        if !nodes[current].alive && nodes[current].allocCount == 0 {
          faulted := Unlink(current);
          if faulted {
            return;
          }
        }
      }
      if result != NULL {
        nodes := nodes[result := nodes[result].(alive := live)];
      }
    }

    method GetMemoryPeak(n: Addr) returns (peak: word)
      requires Valid() && n in nodes
      modifies `nodes
      ensures Valid() && Value() == PeakTaken(old(Value()), n) && peak == old(nodes)[n].memPeak
    {
      peak := nodes[n].memPeak;
      nodes := nodes[n := nodes[n].(peakNeedsReset := true)];
    }

    /** The second half of taking the allocation count; the first half only reads it. */
    method SubtractCount(n: Addr, count: word)
      requires Valid() && n in nodes
      modifies `nodes
      ensures Valid() && Value() == CountTaken(old(Value()), n, count)
    {
      nodes := nodes[n := nodes[n].(countOverall := Sub(nodes[n].countOverall, count))];
    }
  }
}
