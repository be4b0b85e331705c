/** The allocation tracker that is preloaded into a process: every block carries a header naming the
    storage of the thread it was charged to, and the storages hang in one list, newest first. */
module AllocTracker {
  const WORD := 0x1_0000_0000_0000_0000

  type word = x: int | 0 <= x < 0x1_0000_0000_0000_0000

  /** Zero is the null pointer. */
  type Addr = word
  const NULL: Addr := 0

  type Thread = nat

  datatype Counters = Counters(
    allocCount: word,
    memCurrent: word,
    countOverall: word,
    memPeak: word,
    peakNeedsReset: bool,
    thread: Thread,
    alive: bool)

  datatype AllocHeader = AllocHeader(size: word, counters: Addr)

  const HEADER_SIZE := 16

  /** `order` is the list from its head; `local` holds the thread-local pointers that are set. */
  datatype Store = Store(
    order: seq<Addr>,
    nodes: map<Addr, Counters>,
    blocks: map<Addr, AllocHeader>,
    local: map<Thread, Addr>)

  const EMPTY := Store([], map[], map[], map[])

  function Add(x: word, y: word): word { (x + y) % 0x1_0000_0000_0000_0000 }

  function Sub(x: word, y: word): word { (x - y) % 0x1_0000_0000_0000_0000 }

  function Product(n: word, m: word): word { (n * m) % 0x1_0000_0000_0000_0000 }

  // ----- counters -----

  function NewCounters(t: Thread): Counters { Counters(0, 0, 0, 0, false, t, true) }

  function Charged(c: Counters, size: word): Counters {
    var level := Add(c.memCurrent, size);
    var raise := c.peakNeedsReset || level > c.memPeak;
    c.(allocCount := Add(c.allocCount, 1),
       memCurrent := level,
       memPeak := if raise then level else c.memPeak,
       peakNeedsReset := if raise then false else c.peakNeedsReset,
       countOverall := Add(c.countOverall, 1))
  }

  /** A release takes the count down first and the bytes second, each by one atomic subtraction. */
  function CountedDown(c: Counters): Counters { c.(allocCount := Sub(c.allocCount, 1)) }

  function BytesDown(c: Counters, size: word): Counters { c.(memCurrent := Sub(c.memCurrent, size)) }

  function Discharged(c: Counters, size: word): Counters { BytesDown(CountedDown(c), size) }

  // ----- allocation -----

  /** The first allocation of a thread puts a storage of its own at the head of the list. */
  function Register(s: Store, t: Thread, spot: Addr): (r: Store)
    ensures t in r.local
  {
    if t in s.local then s
    else Store([spot] + s.order, s.nodes[spot := NewCounters(t)], s.blocks, s.local[t := spot])
  }

  /** An allocation is charged to the storage of the calling thread. */
  function Charge(s: Store, t: Thread, size: word, spot: Addr): (r: Store)
    ensures t in r.local
  {
    var r := Register(s, t, spot);
    var n := r.local[t];
    if n in r.nodes then r.(nodes := r.nodes[n := Charged(r.nodes[n], size)]) else r
  }

  function Alloc(s: Store, t: Thread, size: word, spot: Addr, block: Addr): Store {
    var r := Charge(s, t, size, spot);
    r.(blocks := r.blocks[block := AllocHeader(size, r.local[t])])
  }

  function Release(s: Store, block: Addr): Store {
    if block in s.blocks && s.blocks[block].counters in s.nodes
    then
      var h := s.blocks[block];
      s.(nodes := s.nodes[h.counters := Discharged(s.nodes[h.counters], h.size)], blocks := s.blocks - {block})
    else s
  }

  /** The first half of a release: the block is no longer counted, but its header is still there and names
      the storage whose bytes are to be taken down. */
  function BeginRelease(s: Store, block: Addr): Store {
    if block in s.blocks && s.blocks[block].counters in s.nodes
    then s.(nodes := s.nodes[s.blocks[block].counters := CountedDown(s.nodes[s.blocks[block].counters])])
    else s
  }

  /** The second half: the bytes go down and the block is gone. */
  function EndRelease(s: Store, block: Addr): Store {
    if block in s.blocks && s.blocks[block].counters in s.nodes
    then
      var h := s.blocks[block];
      s.(nodes := s.nodes[h.counters := BytesDown(s.nodes[h.counters], h.size)], blocks := s.blocks - {block})
    else s
  }

  lemma ReleaseIsTwoSteps(s: Store, block: Addr)
    ensures Release(s, block) == EndRelease(BeginRelease(s, block), block)
  {
    if block in s.blocks && s.blocks[block].counters in s.nodes {
      var h := s.blocks[block];
      assert s.nodes[h.counters := CountedDown(s.nodes[h.counters])][h.counters := Discharged(s.nodes[h.counters], h.size)]
          == s.nodes[h.counters := Discharged(s.nodes[h.counters], h.size)];
    }
  }

  /** `x` is `y` in the arithmetic of a 64-bit machine word. */
  predicate SameWord(x: word, y: int) { (x - y) % 0x1_0000_0000_0000_0000 == 0 }

  lemma AddLaw(x: word, y: word)
    ensures SameWord(Add(x, y), x + y) && SameWord(Sub(x, y), x - y)
  {
  }

  /** An allocation writes a header with the size and the storage of the thread, which is the one it has or else a new
      one at the head of the list; of that storage it counts up blocks, bytes and overall count, and raises the peak. */
  lemma AllocLaw(s: Store, t: Thread, size: word, spot: Addr, block: Addr)
    requires if t in s.local then s.local[t] in s.nodes else spot !in s.nodes
    ensures var r, n := Alloc(s, t, size, spot, block), if t in s.local then s.local[t] else spot;
            var c := if t in s.local then s.nodes[n] else Counters(0, 0, 0, 0, false, t, true);
            && r.blocks == s.blocks[block := AllocHeader(size, n)] && r.local == s.local[t := n]
            && r.order == (if t in s.local then [] else [n]) + s.order
            && r.nodes.Keys == s.nodes.Keys + {n} && (forall m | m in s.nodes && m != n :: r.nodes[m] == s.nodes[m])
            && r.nodes[n].allocCount == Add(c.allocCount, 1) && r.nodes[n].memCurrent == Add(c.memCurrent, size)
            && r.nodes[n].countOverall == Add(c.countOverall, 1)
            && r.nodes[n].thread == c.thread && r.nodes[n].alive == c.alive
  {
    hide Add;
  }

  /** A release takes the block, and from the storage its header names one block and its bytes; nothing else. */
  lemma ReleaseLaw(s: Store, block: Addr)
    requires block in s.blocks && s.blocks[block].counters in s.nodes
    ensures var r, h := Release(s, block), s.blocks[block];
            && r.blocks == s.blocks - {block} && r.local == s.local && r.order == s.order
            && r.nodes.Keys == s.nodes.Keys && (forall m | m in s.nodes && m != h.counters :: r.nodes[m] == s.nodes[m])
            && r.nodes[h.counters] == s.nodes[h.counters].(allocCount := Sub(s.nodes[h.counters].allocCount, 1),
                                                           memCurrent := Sub(s.nodes[h.counters].memCurrent, h.size))
  {
    hide Sub;
  }

  /** A calloc asks for the product of its arguments, wrapped around. */
  lemma CallocLaw(s: Store, t: Thread, items: word, itemSize: word, spot: Addr, block: Addr)
    requires if t in s.local then s.local[t] in s.nodes else spot !in s.nodes
    ensures var r, n := Alloc(s, t, Product(items, itemSize), spot, block), if t in s.local then s.local[t] else spot;
            var level := if t in s.local then s.nodes[n].memCurrent else 0;
            && block in r.blocks && SameWord(r.blocks[block].size, items * itemSize)
            && n in r.nodes && SameWord(r.nodes[n].memCurrent, level + items * itemSize)
            && (items * itemSize < 0x1_0000_0000_0000_0000 ==> r.blocks[block].size == items * itemSize)
  {
    hide *;
    ProductLaw(items, itemSize);
    AllocationOf(s, t, Product(items, itemSize), items * itemSize, spot, block);
  }

  lemma AllocationOf(s: Store, t: Thread, size: word, asked: int, spot: Addr, block: Addr)
    requires (if t in s.local then s.local[t] in s.nodes else spot !in s.nodes) && SameWord(size, asked)
    ensures var r, n := Alloc(s, t, size, spot, block), if t in s.local then s.local[t] else spot;
            var level := if t in s.local then s.nodes[n].memCurrent else 0;
            && block in r.blocks && r.blocks[block].size == size
            && n in r.nodes && SameWord(r.nodes[n].memCurrent, level + asked)
  {
    hide *;
    AllocLaw(s, t, size, spot, block);
    var n := if t in s.local then s.local[t] else spot;
    var level: word := if t in s.local then s.nodes[n].memCurrent else 0;
    AddLaw(level, size);
    SumOfWords(Add(level, size), level, size, asked);
  }

  lemma ProductLaw(items: word, itemSize: word)
    ensures SameWord(Product(items, itemSize), items * itemSize)
    ensures 0 <= items * itemSize
    ensures items * itemSize < 0x1_0000_0000_0000_0000 ==> Product(items, itemSize) == items * itemSize
  {
    var p := items * itemSize;
    assert 0 <= p;
    WrapsAround(p);
  }

  lemma WrapsAround(p: nat)
    ensures (p % 0x1_0000_0000_0000_0000 - p) % 0x1_0000_0000_0000_0000 == 0
  {
  }

  lemma SumOfWords(x: word, level: word, size: word, p: int)
    requires SameWord(x, level + size) && SameWord(size, p)
    ensures SameWord(x, level + p)
  {
  }

  /** Releasing the null pointer does nothing. */
  function Released(s: Store, block: Addr): Store { if block == NULL then s else Release(s, block) }

  function Realloc(s: Store, t: Thread, cur: Addr, size: word, spot: Addr, block: Addr): Store {
    Alloc(Released(s, cur), t, size, spot, block)
  }

  /** A reallocation of a block is both halves of its release and an allocation; of the null pointer, an allocation. */
  lemma ReallocIsThreeSteps(s: Store, t: Thread, cur: Addr, size: word, spot: Addr, block: Addr)
    ensures Realloc(s, t, NULL, size, spot, block) == Alloc(s, t, size, spot, block)
    ensures cur != NULL ==>
              Realloc(s, t, cur, size, spot, block) == Alloc(EndRelease(BeginRelease(s, cur), cur), t, size, spot, block)
    ensures Released(s, NULL) == s && (cur != NULL ==> Released(s, cur) == EndRelease(BeginRelease(s, cur), cur))
  {
    ReleaseIsTwoSteps(s, cur);
    hide Release, BeginRelease, EndRelease, Alloc;
  }

  // ----- the list -----

  function Without(xs: seq<Addr>, a: Addr): seq<Addr> {
    if xs == [] then [] else (if xs[0] == a then [] else [xs[0]]) + Without(xs[1..], a)
  }

  predicate Distinct(xs: seq<Addr>) { forall i, j | 0 <= i < j < |xs| :: xs[i] != xs[j] }

  /** The storage after `a`, or null at the end. */
  function Following(xs: seq<Addr>, a: Addr): Addr {
    if xs == [] then NULL
    else if xs[0] == a then (if |xs| > 1 then xs[1] else NULL)
    else Following(xs[1..], a)
  }

  /** The storage at position `i`, or null past the end. */
  function Element(order: seq<Addr>, i: nat): Addr { if i < |order| then order[i] else NULL }

  function Shorter(order: seq<Addr>, i: nat): seq<Addr>
    requires i < |order|
  {
    order[..i] + order[i + 1..]
  }

  lemma ShorterTail(order: seq<Addr>, i: nat)
    requires 0 < i < |order|
    ensures Shorter(order, i) == [order[0]] + Shorter(order[1..], i - 1)
  {
    assert order[..i] == [order[0]] + order[1..][..i - 1];
    assert order[1..][i..] == order[i + 1..];
  }

  lemma {:induction false} WithoutAt(order: seq<Addr>, i: nat)
    requires Distinct(order) && i < |order|
    ensures Without(order, order[i]) == Shorter(order, i)
  {
    if i > 0 {
      var rest := order[1..];
      assert order[0] != order[i] && rest[i - 1] == order[i];
      assert Distinct(rest);
      ShorterTail(order, i);
      hide Distinct, Shorter;
      WithoutAt(rest, i - 1);
    } else {
      assert order[0] !in order[1..];
      assert Shorter(order, 0) == order[1..];
      hide Distinct, Shorter;
      WithoutAbsent(order[1..], order[0]);
    }
  }

  lemma {:induction false} WithoutAbsent(xs: seq<Addr>, a: Addr)
    requires a !in xs
    ensures Without(xs, a) == xs
  {
    if xs != [] {
      WithoutAbsent(xs[1..], a);
    }
  }

  lemma ShorterIsDistinct(order: seq<Addr>, i: nat)
    requires Distinct(order) && i < |order| && NULL !in order
    ensures Distinct(Shorter(order, i)) && NULL !in Shorter(order, i)
    ensures forall a :: a in Shorter(order, i) <==> a in order && a != order[i]
  {
    var shorter := Shorter(order, i);
    assert forall j | 0 <= j < |shorter| :: shorter[j] == order[if j < i then j else j + 1];
    forall a | a in order && a != order[i] ensures a in shorter {
      var k :| 0 <= k < |order| && order[k] == a;
      assert shorter[if k < i then k else k - 1] == a;
    }
  }

  lemma {:induction false} FollowingAt(order: seq<Addr>, i: nat)
    requires Distinct(order) && i < |order|
    ensures Following(order, order[i]) == Element(order, i + 1)
  {
    if i > 0 {
      FollowingAt(order[1..], i - 1);
    }
  }

  predicate Reclaimable(s: Store, a: Addr) { a in s.nodes && !s.nodes[a].alive && s.nodes[a].allocCount == 0 }

  function Unlinked(s: Store, a: Addr): Store { s.(order := Without(s.order, a), nodes := s.nodes - {a}) }

  function Probed(s: Store, a: Addr, live: bool): Store {
    if a in s.nodes then s.(nodes := s.nodes[a := s.nodes[a].(alive := live)]) else s
  }

  function Head(s: Store): Addr { if s.order == [] then NULL else s.order[0] }

  /** What `ts_get_next` returns and leaves behind; `live` is what probing the thread found. */
  function NextOf(s: Store, current: Addr): Addr {
    if current == NULL then Head(s) else Following(s.order, current)
  }

  function Step(s: Store, current: Addr, live: bool): Store {
    Probed(if Reclaimable(s, current) then Unlinked(s, current) else s, NextOf(s, current), live)
  }

  // ----- reporting -----

  function PeakTaken(s: Store, a: Addr): Store {
    if a in s.nodes then s.(nodes := s.nodes[a := s.nodes[a].(peakNeedsReset := true)]) else s
  }

  function CountTaken(s: Store, a: Addr, count: word): Store {
    if a in s.nodes
    then s.(nodes := s.nodes[a := s.nodes[a].(countOverall := Sub(s.nodes[a].countOverall, count))])
    else s
  }
}
