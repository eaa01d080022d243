/** The heap of kernel/mm/heap_manager.c: block headers laid end to end in memory. */
module HeapManager {
  import opened Arithmetic
  import opened Collections

  const WORD: nat := 0x1_0000_0000
  const HEADER: nat := 8               // sizeof(block_info_t)
  const SIZES: nat := 0x8000_0000      // the size field has 31 bits
  const CACHE_LINE: nat := 64

  /** `struct block_info_s` */
  datatype Block = Block(busy: bool, size: nat)

  /** What memory holds where a header was written; inside a block this means nothing. */
  type Memory = map<nat, Block>

  // ---------------------------------------------------------------- tiling

  function End(mem: Memory, b: nat): nat
    requires b in mem
  {
    b + mem[b].size
  }

  /** Headers are inside the heap, and each block ends at a header or at the limit. */
  ghost predicate Linked(mem: Memory, bounds: set<nat>, start: nat, limit: nat)
  {
    && (forall b :: b in bounds ==> start <= b < limit && b in mem && mem[b].size >= HEADER)
    && (forall b :: b in bounds ==> End(mem, b) in bounds || End(mem, b) == limit)
  }

  /** No block reaches past the next header. */
  ghost predicate Disjoint(mem: Memory, bounds: set<nat>)
    requires forall b :: b in bounds ==> b in mem
  {
    forall b, c :: b in bounds && c in bounds && b < c ==> End(mem, b) <= c
  }

  /** The blocks headed by `bounds` tile [start, limit). */
  ghost predicate Tiled(mem: Memory, bounds: set<nat>, start: nat, limit: nat)
  {
    start in bounds && Linked(mem, bounds, start, limit) && Disjoint(mem, bounds)
  }

  /** Every address of the heap is in exactly one block. */
  lemma {:induction false} Covers(mem: Memory, bounds: set<nat>, start: nat, limit: nat, x: nat)
    requires Tiled(mem, bounds, start, limit) && start <= x < limit
    ensures exists b :: b in bounds && b <= x < End(mem, b) && forall c :: c in bounds && c <= x < End(mem, c) ==>
      c == b
  {
    var b := Holder(mem, bounds, start, limit, x, start);
    forall c | c in bounds && c <= x < End(mem, c)
      ensures c == b
    {
      assert !(c < b) && !(b < c);
    }
  }

  lemma Holder(mem: Memory, bounds: set<nat>, start: nat, limit: nat, x: nat, from: nat) returns (b: nat)
    requires Tiled(mem, bounds, start, limit) && from in bounds && from <= x < limit
    ensures b in bounds && b <= x < End(mem, b)
    decreases limit - from
  {
    if x < End(mem, from) {
      return from;
    }
    b := Holder(mem, bounds, start, limit, x, End(mem, from));
  }

  /** Only the sizes in the headers matter, not what the users of blocks write into them. */
  lemma DataIrrelevant(mem: Memory, mem': Memory, bounds: set<nat>, start: nat, limit: nat)
    requires Tiled(mem, bounds, start, limit)
    requires forall b :: b in bounds ==> b in mem' && mem'[b].size == mem[b].size
    ensures Tiled(mem', bounds, start, limit)
  {
    assert forall b :: b in bounds ==> End(mem', b) == End(mem, b);
  }

  lemma CutLinked(mem: Memory, bounds: set<nat>, start: nat, limit: nat, c: nat, size: nat, busy: bool)
    requires Linked(mem, bounds, start, limit) && c in bounds && HEADER <= size
    requires size + HEADER <= mem[c].size && c + size !in bounds
    ensures Linked(mem[c + size := Block(false, mem[c].size - size)][c := Block(busy, size)], bounds + {c + size},
      start, limit)
  {
    var d := c + size;
    assert d < End(mem, c) <= limit;
    var mem' := mem[d := Block(false, mem[c].size - size)][c := Block(busy, size)];
    assert End(mem', c) == d && End(mem', d) == End(mem, c);
    assert forall b :: b in bounds && b != c ==> End(mem', b) == End(mem, b);
  }

  /** A block is cut in two. */
  lemma Cut(mem: Memory, bounds: set<nat>, start: nat, limit: nat, c: nat, size: nat, busy: bool)
    requires Tiled(mem, bounds, start, limit) && c in bounds && HEADER <= size && size + HEADER <= mem[c].size
    ensures c + size !in bounds
    ensures Tiled(mem[c + size := Block(false, mem[c].size - size)][c := Block(busy, size)], bounds + {c + size}, start,
      limit)
  {
    var d := c + size;
    assert d < End(mem, c) && d !in bounds;
    CutLinked(mem, bounds, start, limit, c, size, busy);
    var mem' := mem[d := Block(false, mem[c].size - size)][c := Block(busy, size)];
    assert forall b :: b in bounds ==> b in mem;
    hide Linked;
    assert End(mem', c) == d && End(mem', d) == End(mem, c);
    forall a, b | a in bounds + {d} && b in bounds + {d} && a < b
      ensures End(mem', a) <= b
    {
      if a == d {
        assert End(mem, c) <= b;
      } else if b == d && a != c {
        assert a < c && End(mem, a) <= c;
      }
    }
  }

  lemma JoinLinked(mem: Memory, bounds: set<nat>, start: nat, limit: nat, c: nat)
    requires Tiled(mem, bounds, start, limit) && c in bounds && End(mem, c) in bounds
    ensures Linked(mem[c := Block(mem[c].busy, mem[c].size + mem[End(mem, c)].size)], bounds - {End(mem, c)}, start,
      limit)
  {
    var n := End(mem, c);
    var mem' := mem[c := Block(mem[c].busy, mem[c].size + mem[n].size)];
    assert End(mem', c) == End(mem, n) && n < End(mem, n);
    forall b | b in bounds - {n} && b != c
      ensures End(mem', b) == End(mem, b) != n
    {
      assert b < c ==> End(mem, b) <= c;
      assert c < b ==> n <= b < End(mem, b);
    }
  }

  /** A block swallows the next one. */
  lemma Join(mem: Memory, bounds: set<nat>, start: nat, limit: nat, c: nat)
    requires Tiled(mem, bounds, start, limit) && c in bounds && End(mem, c) in bounds
    ensures Tiled(mem[c := Block(mem[c].busy, mem[c].size + mem[End(mem, c)].size)], bounds - {End(mem, c)}, start,
      limit)
  {
    var n := End(mem, c);
    var mem' := mem[c := Block(mem[c].busy, mem[c].size + mem[n].size)];
    JoinLinked(mem, bounds, start, limit, c);
    assert forall b :: b in bounds ==> b in mem;
    assert start <= c < n;
    hide Linked;
    assert End(mem', c) == End(mem, n);
    forall a, b | a in bounds - {n} && b in bounds - {n} && a < b
      ensures End(mem', a) <= b
    {
      if a == c {
        assert n <= b && End(mem, n) <= b;
      }
    }
  }

  /** Joining stays inside the heap: the rest of the heap has room for the joined block. */
  lemma JoinFacts(mem: Memory, bounds: set<nat>, start: nat, limit: nat, c: nat)
    requires Tiled(mem, bounds, start, limit) && c in bounds
    ensures c in mem && End(mem, c) <= limit && (End(mem, c) < limit ==> End(mem, c) in bounds && End(mem, c) in mem)
  {
  }

  // ---------------------------------------------------------------- sizes

  /** The block size for a request, computed in 32 bits. */
  function Effective(size: nat): nat
  {
    RoundUp((size + HEADER) % WORD, CACHE_LINE) % WORD
  }

  /** The block is the least number of cache lines with room for the request and its header exactly when the sum does
      not wrap around; it is empty for the sizes just above, and one line for the last ones. */
  lemma EffectiveIff(size: nat)
    requires size < WORD
    ensures Effective(size) >= size + HEADER <==> size <= WORD - 72
    ensures Effective(size) == 0 <==> WORD - 72 < size <= WORD - 8
    ensures Effective(size) % CACHE_LINE == 0
    ensures size <= WORD - 72 ==> Effective(size) < size + HEADER + CACHE_LINE
    ensures size > WORD - 8 ==> Effective(size) == CACHE_LINE
  {
  }

  /** A request of almost 4 gigabytes gets the smallest block. */
  lemma HugeRequest()
    ensures Effective(0xFFFF_FFFF) == CACHE_LINE && Effective(0xFFFF_FFF0) == 0
  {
  }

  // ---------------------------------------------------------------- blocks in use

  /** Where `heap_manager_malloc` begins its search: at the hint, unless the end of the heap is too near. */
  function SearchFrom(next: nat, start: nat, limit: nat, size: nat): nat
  {
    if next > (limit - size) % WORD then start else next
  }

  /** A block of this size is handed out at header `b`. */
  ghost predicate Busy(mem: Memory, bounds: set<nat>, b: nat, size: nat)
  {
    b in bounds && b in mem && mem[b] == Block(true, size)
  }

  /** Block `b` can serve a request for `size` bytes, header included. */
  ghost predicate Usable(mem: Memory, bounds: set<nat>, b: nat, size: nat)
  {
    b in bounds && b in mem && !mem[b].busy && mem[b].size >= size
  }

  ghost predicate NoneUsable(mem: Memory, bounds: set<nat>, from: nat, to: nat, size: nat)
  {
    forall b :: from <= b < to ==> !Usable(mem, bounds, b, size)
  }

  /** Block `c`, at least this large, is the only one handed out since. */
  ghost predicate Taken(mem: Memory, bounds: set<nat>, mem': Memory, bounds': set<nat>, c: nat, size: nat)
  {
    && c in bounds' && c in mem' && mem'[c].busy && mem'[c].size >= size
    && forall b, n :: b != c ==> (Busy(mem', bounds', b, n) <==> Busy(mem, bounds, b, n))
  }

  /** What `heap_manager_malloc` does to the block it has found: the header, the set of headers and the hint. */
  ghost predicate Carving(mem: Memory, bounds: set<nat>, next: nat, mem': Memory, bounds': set<nat>, next': nat,
                          c: nat, size: nat)
    requires c in mem
  {
    var whole := mem[c].size;
    if whole - size >= CACHE_LINE then
      && mem' == mem[c + size := Block(false, whole - size)][c := Block(true, size)]
      && bounds' == bounds + {c + size} && next' == c + size
    else mem' == mem[c := Block(true, whole)] && bounds' == bounds && next' == next
  }

  /** Block `c`, free now, has swallowed all headers up to the next busy block or the limit, and nothing else has
      changed. */
  ghost predicate Coalesced(mem: Memory, bounds: set<nat>, mem': Memory, bounds': set<nat>, limit: nat, c: nat)
  {
    && c in mem && c in mem' && mem' == mem[c := Block(false, mem'[c].size)] && mem'[c].size >= mem[c].size
    && c in bounds' && bounds' == Outside(bounds, c, End(mem', c))
    && (End(mem', c) == limit || (End(mem', c) in bounds' && End(mem', c) in mem' && mem'[End(mem', c)].busy))
  }

  /** Block `c` is the only one given back since. */
  ghost predicate Given(mem: Memory, bounds: set<nat>, mem': Memory, bounds': set<nat>, c: nat)
  {
    forall b, n :: Busy(mem', bounds', b, n) <==> Busy(mem, bounds, b, n) && b != c
  }

  lemma CutTaken(mem: Memory, bounds: set<nat>, start: nat, limit: nat, c: nat, size: nat)
    requires Tiled(mem, bounds, start, limit) && Usable(mem, bounds, c, size)
    requires HEADER <= size && size + HEADER <= mem[c].size
    ensures var mem', bounds' := mem[c + size := Block(false, mem[c].size - size)][c := Block(true, size)],
      bounds + {c + size};
      Tiled(mem', bounds', start, limit) && Taken(mem, bounds, mem', bounds', c, size)
  {
    Cut(mem, bounds, start, limit, c, size, true);
    hide Tiled;
  }

  lemma WholeTaken(mem: Memory, bounds: set<nat>, start: nat, limit: nat, c: nat, size: nat)
    requires Tiled(mem, bounds, start, limit) && Usable(mem, bounds, c, size)
    ensures var mem' := mem[c := Block(true, mem[c].size)];
      Tiled(mem', bounds, start, limit) &&
      Taken(mem, bounds, mem', bounds, c, size)
  {
    DataIrrelevant(mem, mem[c := Block(true, mem[c].size)], bounds, start, limit);
    hide Tiled;
  }

  lemma MarkGiven(mem: Memory, bounds: set<nat>, start: nat, limit: nat, c: nat)
    requires Tiled(mem, bounds, start, limit) && c in bounds
    ensures c in mem
    ensures var mem' := mem[c := Block(false, mem[c].size)];
      Tiled(mem', bounds, start, limit) && Given(mem, bounds, mem', bounds, c)
  {
    DataIrrelevant(mem, mem[c := Block(false, mem[c].size)], bounds, start, limit);
    assert c in mem;
    hide Tiled;
  }

  /** One round of the coalescing loop: the free block `c` swallows the free block after it. */
  lemma JoinGiven(old_: Memory, was: set<nat>, mem: Memory, bounds: set<nat>, start: nat, limit: nat, c: nat)
    requires Tiled(mem, bounds, start, limit) && c in bounds && !mem[c].busy && Given(old_, was, mem, bounds, c)
    requires End(mem, c) in bounds && !mem[End(mem, c)].busy
    ensures var n := End(mem, c); var mem', bounds' := mem[c := Block(mem[c].busy, mem[c].size + mem[n].size)],
      bounds - {n};
      Tiled(mem', bounds', start, limit) && Given(old_, was, mem', bounds', c)
  {
    var n := End(mem, c);
    Join(mem, bounds, start, limit, c);
    hide Tiled;
    forall b, k
      ensures Busy(mem[c := Block(mem[c].busy, mem[c].size + mem[n].size)], bounds - {n}, b, k) <==>
        Busy(mem, bounds, b, k)
    {
    }
  }

  // ---------------------------------------------------------------- the heap

  class Heap {
    var mem: Memory
    var start: nat
    var limit: nat
    var next: nat
    ghost var bounds: set<nat>

    ghost predicate Valid()
      reads this
    {
      Tiled(mem, bounds, start, limit) && next in bounds && limit < WORD
    }

    /** `heap_manager_init`: one free block, whose size has 31 bits; it is the whole heap exactly when they suffice. */
    constructor (heapStart: nat, heapLimit: nat)
      requires heapStart + HEADER <= heapLimit < WORD
      ensures Valid() <==> heapLimit - heapStart < SIZES
      ensures forall b, size :: !Busy(mem, bounds, b, size)
      ensures start == heapStart && limit == heapLimit && next == heapStart && bounds == {heapStart}
      ensures mem == map[heapStart := Block(false, (heapLimit - heapStart) % SIZES)]
    {
      mem := map[heapStart := Block(false, (heapLimit - heapStart) % SIZES)];
      start, limit, next := heapStart, heapLimit, heapStart;
      bounds := {heapStart};
      new;
      assert End(mem, heapStart) == heapStart + (heapLimit - heapStart) % SIZES;
    }

    /** Where the search of `heap_manager_malloc` begins. */
    function From(size: nat): nat
      reads this
    {
      SearchFrom(next, start, limit, size)
    }

    /** The search of `heap_manager_malloc`: the first usable block, or none. */
    method FirstFit(size: nat) returns (c: Option<nat>)
      requires Valid()
      ensures c.Some? ==> Usable(mem, bounds, c.value, size) && From(size) <= c.value
      ensures c.Some? ==> NoneUsable(mem, bounds, From(size), c.value, size)
      ensures c.None? ==> NoneUsable(mem, bounds, From(size), limit, size)
    {
      var current := From(size);
      while mem[current].busy || mem[current].size < size
        invariant current in bounds && From(size) <= current
        invariant NoneUsable(mem, bounds, From(size), current, size)
        decreases limit - current
      {
        var n := current + mem[current].size;
        assert n == End(mem, current);
        assert forall b :: current < b < n ==> b !in bounds;
        current := n;
        if current >= limit {
          return None;
        }
      }
      return Some(current);
    }

    /** `heap_manager_malloc`: NULL exactly when every usable block lies before the starting point; otherwise the first
        one from there is handed out, cut if the rest is worth a block. The heap stays tiled exactly unless the
        computed block size has wrapped around to zero and the block is cut. */
    method Malloc(size: nat) returns (ptr: Option<nat>)
      requires Valid() && size < WORD
      modifies this
      ensures start == old(start) && limit == old(limit)
      ensures ptr.None? ==> mem == old(mem) && bounds == old(bounds) && next == old(next)
      ensures ptr.None? ==> NoneUsable(mem, bounds, old(From(Effective(size))), limit, Effective(size))
      ensures ptr.Some? ==> ptr.value >= HEADER && Usable(old(mem), old(bounds), ptr.value - HEADER, Effective(size))
      ensures ptr.Some? ==> old(From(Effective(size))) <= ptr.value - HEADER
      ensures ptr.Some? ==>
        NoneUsable(old(mem), old(bounds), old(From(Effective(size))), ptr.value - HEADER, Effective(size))
      ensures ptr.Some? ==>
        Carving(old(mem), old(bounds), old(next), mem, bounds, next, ptr.value - HEADER, Effective(size))
      ensures Effective(size) > 0 && ptr.Some? ==>
        Taken(old(mem), old(bounds), mem, bounds, ptr.value - HEADER, Effective(size))
      ensures Valid() <==>
        !(Effective(size) == 0 && ptr.Some? && old(mem)[ptr.value - HEADER].size >= CACHE_LINE)
    {
      hide Tiled, Effective, NoneUsable, Taken, Carving;
      EffectiveIff(size);
      var found := FirstFit(Effective(size));
      if found.None? {
        return None;
      }
      Carve(found.value, Effective(size));
      return Some(found.value + HEADER);
    }

    /** The end of `heap_manager_malloc`: the block found is handed out, whole or cut. */
    method Carve(current: nat, effective: nat)
      requires Valid() && Usable(mem, bounds, current, effective) && effective % CACHE_LINE == 0
      modifies this
      ensures start == old(start) && limit == old(limit)
      ensures Carving(old(mem), old(bounds), old(next), mem, bounds, next, current, effective)
      ensures effective > 0 ==> Taken(old(mem), old(bounds), mem, bounds, current, effective)
      ensures Valid() <==> !(effective == 0 && old(mem)[current].size >= CACHE_LINE)
    {
      hide Tiled, Taken;
      if mem[current].size - effective >= CACHE_LINE {
        var rest := current + effective;
        var mem' := mem[rest := Block(false, mem[current].size - effective)][current := Block(true, effective)];
        if effective > 0 {
          CutTaken(mem, bounds, start, limit, current, effective);
        } else {
          ZeroBlock(mem', bounds + {rest}, start, limit, current);
        }
        mem := mem';
        next := rest;
        bounds := bounds + {rest};
      } else {
        WholeTaken(mem, bounds, start, limit, current, effective);
        mem := mem[current := Block(true, mem[current].size)];
      }
    }

    /** `heap_manager_free` of a busy block: exactly this block is free again, it reaches to the next busy block or to
        the limit, and the hint is not past it. */
    method Free(ptr: nat)
      requires Valid() && HEADER <= ptr && ptr - HEADER in bounds && mem[ptr - HEADER].busy
      modifies this
      ensures Valid() && start == old(start) && limit == old(limit)
      ensures Given(old(mem), old(bounds), mem, bounds, ptr - HEADER)
      ensures Coalesced(old(mem), old(bounds), mem, bounds, limit, ptr - HEADER)
      ensures next == if ptr - HEADER < old(next) then ptr - HEADER else old(next)
    {
      hide Tiled, Given, Busy, Outside;
      var current: nat := ptr - HEADER;
      BlockSize(mem, bounds, start, limit, current);
      MarkGiven(mem, bounds, start, limit, current);
      OutsideStart(mem, bounds, start, limit, current);
      mem := mem[current := Block(false, mem[current].size)];
      JoinFacts(mem, bounds, start, limit, current);
      while current + mem[current].size < limit && !mem[current + mem[current].size].busy
        invariant Tiled(mem, bounds, start, limit) && current in bounds && current in mem && limit < WORD
        invariant End(mem, current) <= limit
        invariant End(mem, current) < limit ==> End(mem, current) in bounds && End(mem, current) in mem
        invariant start == old(start) && limit == old(limit) && next == old(next)
        invariant !mem[current].busy && mem[current].size >= old(mem)[current].size
        invariant next in bounds || current < next
        invariant mem == old(mem)[current := Block(false, mem[current].size)]
        invariant bounds == Outside(old(bounds), current, End(mem, current))
        invariant Given(old(mem), old(bounds), mem, bounds, current)
        decreases limit - current - mem[current].size
      {
        var n := current + mem[current].size;
        assert n == End(mem, current);
        JoinGiven(old(mem), old(bounds), mem, bounds, start, limit, current);
        OutsideJoin(mem, bounds, start, limit, old(bounds), current);
        BlockSize(mem, bounds, start, limit, n);
        mem := mem[current := Block(mem[current].busy, mem[current].size + mem[n].size)];
        bounds := bounds - {n};
        JoinFacts(mem, bounds, start, limit, current);
      }
      if current < next {
        next := current;
      }
    }
  }

  /** The headers that are not inside a block from c to `end`. */
  ghost function Outside(bounds: set<nat>, c: nat, end: nat): set<nat>
  {
    set b | b in bounds && !(c < b < end)
  }

  lemma OutsideStart(mem: Memory, bounds: set<nat>, start: nat, limit: nat, c: nat)
    requires Tiled(mem, bounds, start, limit) && c in bounds
    ensures c in mem && Outside(bounds, c, End(mem, c)) == bounds
  {
  }

  lemma OutsideJoin(mem: Memory, bounds: set<nat>, start: nat, limit: nat, was: set<nat>, c: nat)
    requires Tiled(mem, bounds, start, limit) && c in bounds && End(mem, c) in bounds
    requires bounds == Outside(was, c, End(mem, c))
    ensures bounds - {End(mem, c)} == Outside(was, c, End(mem, End(mem, c)))
  {
    var n := End(mem, c);
    assert forall b :: b in bounds && n < b ==> End(mem, n) <= b;
    assert c < n < End(mem, n);
    hide Linked, Disjoint;
  }

  /** A header of size zero cannot be part of a tiling. */
  lemma ZeroBlock(mem: Memory, bounds: set<nat>, start: nat, limit: nat, c: nat)
    requires c in bounds && c in mem && mem[c].size == 0
    ensures !Tiled(mem, bounds, start, limit)
  {
  }

  lemma BlockSize(mem: Memory, bounds: set<nat>, start: nat, limit: nat, n: nat)
    requires Tiled(mem, bounds, start, limit) && n in bounds
    ensures n in mem && mem[n].size >= HEADER
  {
  }

  // ---------------------------------------------------------------- a block the search misses

  /** The search misses every usable block exactly when they all lie before the hint and the hint is far enough from
      the end of the heap for the search to begin there. */
  lemma MissesIff(mem: Memory, bounds: set<nat>, start: nat, limit: nat, next: nat, size: nat)
    requires Tiled(mem, bounds, start, limit) && next in bounds
    ensures var from := SearchFrom(next, start, limit, size);
      (exists b: nat :: Usable(mem, bounds, b, size)) && NoneUsable(mem, bounds, from, limit, size) <==>
      (exists b: nat :: b < next <= (limit - size) % WORD && Usable(mem, bounds, b, size)) &&
      NoneUsable(mem, bounds, next, limit, size)
  {
    forall b: nat | Usable(mem, bounds, b, size)
      ensures start <= b < limit
    {
      InHeap(mem, bounds, start, limit, b);
    }
  }

  lemma FirstIsUnique(mem: Memory, bounds: set<nat>, from: nat, c: nat, d: nat, size: nat)
    requires Usable(mem, bounds, c, size) && Usable(mem, bounds, d, size) && from <= c && from <= d
    requires NoneUsable(mem, bounds, from, c, size) && NoneUsable(mem, bounds, from, d, size)
    ensures c == d
  {
  }

  lemma InHeap(mem: Memory, bounds: set<nat>, start: nat, limit: nat, c: nat)
    requires Tiled(mem, bounds, start, limit) && c in bounds
    ensures start <= c < limit
  {
  }

  /** A call whose outcome is known: block c is the first usable one from the starting point. */
  method MallocAt(heap: Heap, size: nat, c: nat) returns (ptr: Option<nat>)
    requires heap.Valid() && size < WORD && 0 < Effective(size) && heap.From(Effective(size)) <= c
    requires Usable(heap.mem, heap.bounds, c, Effective(size))
    requires NoneUsable(heap.mem, heap.bounds, heap.From(Effective(size)), c, Effective(size))
    modifies heap
    ensures heap.Valid() && ptr == Some(c + HEADER) && heap.start == old(heap.start) && heap.limit == old(heap.limit)
    ensures Carving(old(heap.mem), old(heap.bounds), old(heap.next), heap.mem, heap.bounds, heap.next, c,
      Effective(size))
  {
    hide Tiled, Effective, Carving, Taken, SearchFrom;
    InHeap(heap.mem, heap.bounds, heap.start, heap.limit, c);
    ghost var from := heap.From(Effective(size));
    ptr := heap.Malloc(size);
    if ptr.Some? {
      FirstIsUnique(old(heap.mem), old(heap.bounds), from, c, ptr.value - HEADER, Effective(size));
    }
  }

  /** A block before a busy one has nothing to swallow. */
  lemma StaysSmall(mem: Memory, bounds: set<nat>, mem': Memory, bounds': set<nat>, limit: nat, c: nat)
    requires Coalesced(mem, bounds, mem', bounds', limit, c) && Given(mem, bounds, mem', bounds', c)
    requires End(mem, c) in mem && End(mem, c) != c && Busy(mem, bounds, End(mem, c), mem[End(mem, c)].size)
    ensures mem' == mem[c := Block(false, mem[c].size)] && bounds' == Outside(bounds, c, End(mem, c))
  {
    var n := End(mem, c);
    assert Busy(mem', bounds', n, mem[n].size);
  }

  /** Two blocks of 64 bytes, the first one freed. */
  method OneFreed() returns (heap: Heap)
    ensures fresh(heap) && heap.Valid() && heap.start == 0 && heap.limit == 320 && heap.next == 0
    ensures heap.mem == map[0 := Block(false, 64), 64 := Block(true, 64), 128 := Block(false, 192)]
    ensures heap.bounds == {0, 64, 128}
  {
    assert Effective(40) == 64;
    heap := new Heap(0, 320);
    hide Tiled, Effective, Given, Coalesced, Taken;
    var p := MallocAt(heap, 40, 0);
    var q := MallocAt(heap, 40, 64);
    ghost var mem, bounds := heap.mem, heap.bounds;
    assert mem == map[0 := Block(true, 64), 64 := Block(true, 64), 128 := Block(false, 192)];
    heap.Free(HEADER);
    StaysSmall(mem, bounds, heap.mem, heap.bounds, 320, 0);
  }

  /** The search never returns to the start of the heap, so it can miss a block: with 320 bytes, two blocks of 64, the
      first one freed, one of 128 and another of 64, a further request for 40 bytes fails, though block 0 would do. */
  method MissedBlock() returns (heap: Heap, last: Option<nat>)
    ensures fresh(heap) && heap.Valid() && last.None? && Usable(heap.mem, heap.bounds, 0, Effective(40))
  {
    assert Effective(40) == 64 && Effective(100) == 128;
    heap := OneFreed();
    hide Tiled, Effective, Given, Coalesced, Taken;
    var r := MallocAt(heap, 100, 128);
    var t := MallocAt(heap, 40, 256);
    assert heap.mem[256] == Block(true, 64) && heap.bounds == {0, 64, 128, 256};
    last := heap.Malloc(40);
  }
}
