/** Conservation: each storage's counters are exactly the blocks that name it. */
module AllocAccounting {
  import opened Common
  import opened AllocTracker

  datatype Measure = Bytes | Blocks

  /** What a block adds to a measure of the blocks of one owner, or of all. */
  function Weight(h: AllocHeader, what: Measure, owner: Option<Addr>): nat {
    if owner.Some? && h.counters != owner.value then 0
    else match what case Bytes => h.size case Blocks => 1
  }

  ghost function Total(m: map<Addr, AllocHeader>, what: Measure, owner: Option<Addr>): nat
    decreases |m|
  {
    if m == map[] then 0
    else
      var b :| b in m;
      Weight(m[b], what, owner) + Total(m - {b}, what, owner)
  }

  lemma {:induction false} TotalWithout(m: map<Addr, AllocHeader>, b: Addr, what: Measure, owner: Option<Addr>)
    requires b in m
    ensures Total(m, what, owner) == Weight(m[b], what, owner) + Total(m - {b}, what, owner)
    decreases |m|
  {
    hide Weight;
    var c :| c in m && Total(m, what, owner) == Weight(m[c], what, owner) + Total(m - {c}, what, owner);
    if c != b {
      TotalWithout(m - {c}, b, what, owner);
      TotalWithout(m - {b}, c, what, owner);
      assert m - {c} - {b} == m - {b} - {c};
    }
  }

  lemma TotalWith(m: map<Addr, AllocHeader>, b: Addr, h: AllocHeader, what: Measure, owner: Option<Addr>)
    requires b !in m
    ensures Total(m[b := h], what, owner) == Weight(h, what, owner) + Total(m, what, owner)
  {
    hide Weight, Total;
    TotalWithout(m[b := h], b, what, owner);
    assert m[b := h] - {b} == m;
  }

  lemma {:induction false} TotalOfNone(m: map<Addr, AllocHeader>, what: Measure, n: Addr)
    requires forall b | b in m :: m[b].counters != n
    ensures Total(m, what, Some(n)) == 0
    decreases |m|
  {
    if m != map[] {
      var b :| b in m;
      TotalWithout(m, b, what, Some(n));
      TotalOfNone(m - {b}, what, n);
    }
  }

  /** A storage that no block is counted for is named by no block. */
  lemma NoneCounted(m: map<Addr, AllocHeader>, n: Addr)
    requires Total(m, Blocks, Some(n)) == 0
    ensures forall b | b in m :: m[b].counters != n
  {
    forall b | b in m ensures m[b].counters != n {
      TotalWithout(m, b, Blocks, Some(n));
    }
  }

  // ----- room in the address space -----

  predicate Apart(a: Addr, h: AllocHeader, b: Addr, g: AllocHeader) {
    a + HEADER_SIZE + h.size <= b || b + HEADER_SIZE + g.size <= a
  }

  /** Every block, header included, lies below `limit`, and no two overlap. */
  ghost predicate Fits(m: map<Addr, AllocHeader>, limit: int) {
    && (forall b | b in m :: b + HEADER_SIZE + m[b].size <= limit)
    && (forall b, c | b in m && c in m && b != c :: Apart(b, m[b], c, m[c]))
  }

  lemma {:induction false} Highest(m: map<Addr, AllocHeader>) returns (top: Addr)
    requires m != map[]
    ensures top in m && forall b | b in m :: b <= top
    decreases |m|
  {
    top :| top in m;
    var rest := m - {top};
    if rest != map[] {
      var other := Highest(rest);
      assert forall b | b in m :: b in rest || b == top;
      if other > top {
        top := other;
      }
    }
  }

  /** Blocks that do not overlap cannot sum to more than the space they lie in. */
  lemma {:induction false} RoomBounds(m: map<Addr, AllocHeader>, limit: nat)
    requires Fits(m, limit)
    ensures Total(m, Bytes, None) + 16 * Total(m, Blocks, None) <= limit
    decreases |m|
  {
    if m != map[] {
      var top := Highest(m);
      var rest := m - {top};
      assert Fits(rest, top) by {
        forall b | b in rest ensures b + HEADER_SIZE + rest[b].size <= top {
          assert Apart(b, m[b], top, m[top]);
        }
      }
      RoomBounds(rest, top);
      TotalWithout(m, top, Bytes, None);
      TotalWithout(m, top, Blocks, None);
    }
  }

  lemma {:induction false} OwnerAtMostAll(m: map<Addr, AllocHeader>, what: Measure, n: Addr)
    ensures Total(m, what, Some(n)) <= Total(m, what, None)
    decreases |m|
  {
    if m != map[] {
      var b :| b in m;
      TotalWithout(m, b, what, Some(n));
      TotalWithout(m, b, what, None);
      OwnerAtMostAll(m - {b}, what, n);
    }
  }

  /** Neither total can overflow a machine word. */
  lemma TotalsAreWords(m: map<Addr, AllocHeader>, n: Addr)
    requires Fits(m, WORD)
    ensures Total(m, Bytes, Some(n)) < WORD && Total(m, Blocks, Some(n)) < WORD
  {
    RoomBounds(m, WORD);
    OwnerAtMostAll(m, Bytes, n);
    OwnerAtMostAll(m, Blocks, n);
    if m != map[] {
      var b :| b in m;
      TotalWithout(m, b, Blocks, None);
    }
  }

  /** A storage whose blocks hold no bytes is named by empty blocks only. */
  lemma NoBytesCounted(m: map<Addr, AllocHeader>, n: Addr)
    requires Total(m, Bytes, Some(n)) == 0
    ensures forall b | b in m :: m[b].counters == n ==> m[b].size == 0
  {
    forall b | b in m ensures m[b].counters == n ==> m[b].size == 0 {
      TotalWithout(m, b, Bytes, Some(n));
    }
  }

  // ----- the invariant -----

  /** The bytes are those of all blocks that name the storage; the count leaves out the blocks in `held`, whose
      release has begun. */
  ghost predicate CountsOf(n: Addr, c: Counters, m: map<Addr, AllocHeader>, held: set<Addr>) {
    c.memCurrent == Total(m, Bytes, Some(n)) && c.allocCount == Total(m - held, Blocks, Some(n))
  }

  /** Every counter is exact. */
  ghost predicate Exact(s: Store, held: set<Addr>) { forall n | n in s.nodes :: CountsOf(n, s.nodes[n], s.blocks, held) }

  ghost predicate Listed(s: Store) {
    && NULL !in s.order && Distinct(s.order)
    && (forall a :: a in s.order <==> a in s.nodes)
  }

  /** No header and no thread-local pointer dangles. */
  ghost predicate Anchored(s: Store) {
    && NULL !in s.blocks
    && (forall b | b in s.blocks :: s.blocks[b].counters in s.nodes)
    && (forall t | t in s.local :: s.local[t] in s.nodes)
  }

  ghost predicate Sane(s: Store, held: set<Addr>) {
    Listed(s) && Anchored(s) && Fits(s.blocks, WORD) && held <= s.blocks.Keys && Exact(s, held)
  }

  /** What the C library promises about a new block. */
  ghost predicate Placed(m: map<Addr, AllocHeader>, block: Addr, size: word) {
    && block != NULL && block + HEADER_SIZE + size <= WORD
    && forall b | b in m :: Apart(b, m[b], block, AllocHeader(size, NULL))
  }

  lemma PlacedFits(m: map<Addr, AllocHeader>, block: Addr, h: AllocHeader)
    requires Fits(m, WORD) && Placed(m, block, h.size)
    ensures block !in m && Fits(m[block := h], WORD)
  {
  }

  lemma RegisterExact(s: Store, held: set<Addr>, t: Thread, spot: Addr)
    requires Anchored(s) && Exact(s, held) && spot !in s.nodes
    ensures Exact(Register(s, t, spot), held)
  {
    assert forall b | b in s.blocks :: s.blocks[b].counters != spot;
    TotalOfNone(s.blocks, Bytes, spot);
    TotalOfNone(s.blocks - held, Blocks, spot);
    hide Total;
  }

  lemma RegisterSane(s: Store, held: set<Addr>, t: Thread, spot: Addr)
    requires Sane(s, held) && spot != NULL && spot !in s.nodes
    ensures Sane(Register(s, t, spot), held) && Register(s, t, spot).local[t] in Register(s, t, spot).nodes
  {
    RegisterExact(s, held, t, spot);
    if t !in s.local {
      assert Distinct(Register(s, t, spot).order);
    }
    hide Distinct, Fits, Exact;
  }

  lemma FitsWithout(m: map<Addr, AllocHeader>, held: set<Addr>)
    requires Fits(m, WORD)
    ensures Fits(m - held, WORD)
  {
  }

  lemma AddedBesideHeld(m: map<Addr, AllocHeader>, held: set<Addr>, block: Addr, h: AllocHeader)
    requires block !in m && held <= m.Keys
    ensures m[block := h] - held == (m - held)[block := h]
  {
  }

  /** The totals after a block was added, and that they fit a word. */
  lemma AddedTotals(m: map<Addr, AllocHeader>, held: set<Addr>, block: Addr, h: AllocHeader, n: Addr)
    requires block !in m && held <= m.Keys && Fits(m[block := h], WORD)
    ensures Total(m[block := h], Bytes, Some(n)) == Weight(h, Bytes, Some(n)) + Total(m, Bytes, Some(n)) < WORD
    ensures Total(m[block := h] - held, Blocks, Some(n))
         == Weight(h, Blocks, Some(n)) + Total(m - held, Blocks, Some(n)) < WORD
  {
    FitsWithout(m[block := h], held);
    AddedBesideHeld(m, held, block, h);
    hide *;
    TotalWith(m, block, h, Bytes, Some(n));
    TotalWith(m - held, block, h, Blocks, Some(n));
    TotalsAreWords(m[block := h], n);
    TotalsAreWords(m[block := h] - held, n);
  }

  lemma ChargedCounts(n: Addr, owner: Addr, c: Counters, m: map<Addr, AllocHeader>, held: set<Addr>, block: Addr, size: word)
    requires CountsOf(n, c, m, held) && block !in m && held <= m.Keys
    requires Fits(m[block := AllocHeader(size, owner)], WORD)
    ensures CountsOf(n, if n == owner then Charged(c, size) else c, m[block := AllocHeader(size, owner)], held)
  {
    AddedTotals(m, held, block, AllocHeader(size, owner), n);
    AddsUp(c.allocCount, 1);
    AddsUp(c.memCurrent, size);
    hide Total, Fits, Add;
  }

  lemma AddsUp(x: word, y: word)
    ensures x + y < WORD ==> Add(x, y) == x + y
  {
  }

  lemma CountedDownCounts(n: Addr, c: Counters, m: map<Addr, AllocHeader>, held: set<Addr>, block: Addr)
    requires CountsOf(n, c, m, held) && block in m && block !in held
    ensures CountsOf(n, if n == m[block].counters then CountedDown(c) else c, m, held + {block})
    ensures n == m[block].counters ==> c.allocCount >= 1
  {
    TotalWithout(m - held, block, Blocks, Some(n));
    assert m - (held + {block}) == m - held - {block};
    hide Total;
  }

  lemma BytesDownCounts(n: Addr, c: Counters, m: map<Addr, AllocHeader>, held: set<Addr>, block: Addr)
    requires CountsOf(n, c, m, held) && block in m && block in held
    ensures CountsOf(n, if n == m[block].counters then BytesDown(c, m[block].size) else c, m - {block}, held - {block})
    ensures n == m[block].counters ==> c.memCurrent >= m[block].size
  {
    TotalWithout(m, block, Bytes, Some(n));
    assert m - {block} - (held - {block}) == m - held;
    hide Total;
  }

  lemma ChargedExact(r: Store, held: set<Addr>, n: Addr, size: word, block: Addr)
    requires Exact(r, held) && n in r.nodes && block !in r.blocks && held <= r.blocks.Keys
    requires Fits(r.blocks[block := AllocHeader(size, n)], WORD)
    ensures Exact(r.(nodes := r.nodes[n := Charged(r.nodes[n], size)],
                     blocks := r.blocks[block := AllocHeader(size, n)]), held)
  {
    var nodes := r.nodes[n := Charged(r.nodes[n], size)];
    hide Fits, Charged, CountsOf;
    forall k | k in nodes ensures CountsOf(k, nodes[k], r.blocks[block := AllocHeader(size, n)], held) {
      ChargedCounts(k, n, r.nodes[k], r.blocks, held, block, size);
    }
  }

  lemma StillAnchored(r: Store, n: Addr, c: Counters, block: Addr, h: AllocHeader)
    requires Listed(r) && Anchored(r) && n in r.nodes && h.counters == n && block != NULL
    ensures Listed(r.(nodes := r.nodes[n := c], blocks := r.blocks[block := h]))
    ensures Anchored(r.(nodes := r.nodes[n := c], blocks := r.blocks[block := h]))
  {
    hide Distinct;
  }

  /** An allocation keeps every counter exact. */
  lemma AllocSane(s: Store, held: set<Addr>, t: Thread, size: word, spot: Addr, block: Addr)
    requires Sane(s, held) && spot != NULL && spot !in s.nodes && Placed(s.blocks, block, size)
    ensures Sane(Alloc(s, t, size, spot, block), held)
  {
    RegisterSane(s, held, t, spot);
    var r := Register(s, t, spot);
    var n := r.local[t];
    PlacedFits(s.blocks, block, AllocHeader(size, n));
    assert NULL != block;
    hide Register, Fits, Placed, Charged, Exact, Listed, Anchored;
    ChargedExact(r, held, n, size, block);
    StillAnchored(r, n, Charged(r.nodes[n], size), block, AllocHeader(size, n));
  }

  /** So does the first half of a release, which finds at least one block to take off. */
  lemma {:induction false} BeginSane(s: Store, held: set<Addr>, block: Addr)
    requires Sane(s, held) && block in s.blocks && block !in held
    ensures Sane(BeginRelease(s, block), held + {block})
    ensures s.nodes[s.blocks[block].counters].allocCount >= 1
  {
    var n := s.blocks[block].counters;
    CountedDownCounts(n, s.nodes[n], s.blocks, held, block);
    BeginExact(s, held, block);
    hide Distinct, Fits, CountedDown, Exact;
  }

  lemma BeginExact(s: Store, held: set<Addr>, block: Addr)
    requires Exact(s, held) && block in s.blocks && block !in held && s.blocks[block].counters in s.nodes
    ensures Exact(BeginRelease(s, block), held + {block})
  {
    var a := BeginRelease(s, block);
    hide CountedDown, CountsOf;
    forall k | k in a.nodes ensures CountsOf(k, a.nodes[k], a.blocks, held + {block}) {
      CountedDownCounts(k, s.nodes[k], s.blocks, held, block);
    }
  }

  /** And the second half, which never takes the bytes below zero. */
  lemma {:induction false} EndSane(s: Store, held: set<Addr>, block: Addr)
    requires Sane(s, held) && block in held
    ensures Sane(EndRelease(s, block), held - {block})
    ensures s.nodes[s.blocks[block].counters].memCurrent >= s.blocks[block].size
  {
    var n := s.blocks[block].counters;
    assert n in s.nodes && CountsOf(n, s.nodes[n], s.blocks, held);
    BytesDownCounts(n, s.nodes[n], s.blocks, held, block);
    EndExact(s, held, block);
    FitsWithout(s.blocks, {block});
    hide Distinct, Fits, BytesDown, Exact, CountsOf, Total;
  }

  lemma EndExact(s: Store, held: set<Addr>, block: Addr)
    requires Exact(s, held) && block in s.blocks && block in held && s.blocks[block].counters in s.nodes
    ensures Exact(EndRelease(s, block), held - {block})
  {
    var a := EndRelease(s, block);
    hide BytesDown, CountsOf;
    forall k | k in a.nodes ensures CountsOf(k, a.nodes[k], a.blocks, held - {block}) {
      BytesDownCounts(k, s.nodes[k], s.blocks, held, block);
    }
  }

  // ----- totals -----

  ghost function SumOver(order: seq<Addr>, m: map<Addr, AllocHeader>, what: Measure): nat {
    if order == [] then 0 else Total(m, what, Some(order[0])) + SumOver(order[1..], m, what)
  }

  function CounterSum(order: seq<Addr>, nodes: map<Addr, Counters>, what: Measure): nat
    requires forall a | a in order :: a in nodes
  {
    if order == [] then 0
    else
      (match what case Bytes => nodes[order[0]].memCurrent case Blocks => nodes[order[0]].allocCount)
      + CounterSum(order[1..], nodes, what)
  }

  lemma {:induction false} SumOverWithout(order: seq<Addr>, m: map<Addr, AllocHeader>, what: Measure, b: Addr)
    requires Distinct(order) && b in m
    ensures SumOver(order, m, what) == SumOver(order, m - {b}, what)
                                     + (if m[b].counters in order then Weight(m[b], what, None) else 0)
  {
    if order != [] {
      TotalWithout(m, b, what, Some(order[0]));
      SumOverWithout(order[1..], m, what, b);
      assert order == [order[0]] + order[1..];
      hide Total;
    }
  }

  lemma {:induction false} SumOverNothing(order: seq<Addr>, what: Measure)
    ensures SumOver(order, map[], what) == 0
  {
    if order != [] {
      SumOverNothing(order[1..], what);
    }
  }

  lemma {:induction false} SumOverAll(order: seq<Addr>, m: map<Addr, AllocHeader>, what: Measure)
    requires Distinct(order) && forall b | b in m :: m[b].counters in order
    ensures SumOver(order, m, what) == Total(m, what, None)
    decreases |m|
  {
    if m == map[] {
      SumOverNothing(order, what);
    } else {
      var b :| b in m;
      SumOverWithout(order, m, what, b);
      SumOverAll(order, m - {b}, what);
      TotalWithout(m, b, what, None);
    }
  }

  /** The blocks a measure is taken over. */
  function Measured(s: Store, held: set<Addr>, what: Measure): map<Addr, AllocHeader> {
    match what case Bytes => s.blocks case Blocks => s.blocks - held
  }

  lemma {:induction false} CounterSumIsSumOver(order: seq<Addr>, s: Store, held: set<Addr>, what: Measure)
    requires Exact(s, held) && forall a | a in order :: a in s.nodes
    ensures CounterSum(order, s.nodes, what) == SumOver(order, Measured(s, held, what), what)
  {
    if order != [] {
      assert CountsOf(order[0], s.nodes[order[0]], s.blocks, held);
      CounterSumIsSumOver(order[1..], s, held, what);
    }
  }

  /** Added up over the list, the counters are all live bytes and all live blocks that are not being released. */
  lemma TotalsAreConserved(s: Store, held: set<Addr>, what: Measure)
    requires Sane(s, held)
    ensures CounterSum(s.order, s.nodes, what) == Total(Measured(s, held, what), what, None)
  {
    CounterSumIsSumOver(s.order, s, held, what);
    SumOverAll(s.order, Measured(s, held, what), what);
  }
}
