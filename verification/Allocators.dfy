/** The composable allocators of bllocator.hpp.  Addresses and sizes are natural numbers; `None` is the null pointer. */
module Allocators {
  import opened Names

  datatype Block = Block(ptr: nat, size: nat)

  // ---- StackAllocator and PoolAllocator: one fixed region ----

  /** `capacity` bytes from `base` on, of which the first `idx` are in use. */
  datatype Region = Region(base: nat, capacity: nat, idx: nat)
  {
    /** The first address not in use. */
    function Top(): nat { base + idx }

    function Allocate(size: nat): (Option<nat>, Region)
    {
      if idx + size > capacity then (None, this) else (Some(Top()), this.(idx := idx + size))
    }

    /** Only the block that ends at the top is taken back; any other is lost. */
    function Deallocate(b: Block): Region
    {
      if b.ptr + b.size == Top() && b.size <= idx then this.(idx := idx - b.size) else this
    }

    predicate Allocated(p: nat) { base <= p <= Top() }
  }

  predicate Disjoint(a: Block, b: Block)
  {
    a.ptr + a.size <= b.ptr || b.ptr + b.size <= a.ptr
  }

  /** The blocks in use are not empty, lie in the used part, and do not overlap. */
  ghost predicate Sound(r: Region, live: set<Block>)
  {
    && r.idx <= r.capacity
    && (forall b :: b in live ==> b.size > 0 && r.base <= b.ptr && b.ptr + b.size <= r.Top())
    && (forall a, b :: a in live && b in live && a != b ==> Disjoint(a, b))
  }

  /** What a client has got: an empty block holds nothing. */
  function Held(p: nat, size: nat): set<Block>
  {
    if size == 0 then {} else {Block(p, size)}
  }

  lemma AllocateSound(r: Region, live: set<Block>, size: nat)
    requires Sound(r, live)
    ensures match r.Allocate(size)
            case (None, r') => r' == r && r.capacity - r.idx < size
            case (Some(p), r') => Block(p, size) !in live && Sound(r', live + Held(p, size))
  {
  }

  lemma DeallocateSound(r: Region, live: set<Block>, b: Block)
    requires Sound(r, live) && (b in live || b.size == 0 || b.ptr + b.size != r.Top())
    ensures Sound(r.Deallocate(b), live - {b})
    ensures r.Deallocate(b).idx == if b.ptr + b.size == r.Top() then r.idx - b.size else r.idx
  {
  }

  /** A client asks for a size, or gives a block back. */
  datatype Op = Alloc(size: nat) | Free(block: Block)

  /** Freeing means a block that is in use, or an empty one. */
  predicate Proper(live: set<Block>, op: Op)
  {
    match op
    case Alloc(size) => true
    case Free(b) => b in live || b.size == 0
  }

  function Step(r: Region, live: set<Block>, op: Op): (Region, set<Block>)
  {
    match op
    case Alloc(size) =>
      (match r.Allocate(size)
       case (None, r') => (r', live)
       case (Some(p), r') => (r', live + Held(p, size)))
    case Free(b) => (r.Deallocate(b), live - {b})
  }

  function Run(r: Region, live: set<Block>, ops: seq<Op>): (Region, set<Block>)
    decreases |ops|
  {
    if ops == [] then (r, live) else var (r', live') := Step(r, live, ops[0]); Run(r', live', ops[1..])
  }

  predicate AllProper(r: Region, live: set<Block>, ops: seq<Op>)
    decreases |ops|
  {
    ops == [] ||
    (Proper(live, ops[0]) && var (r', live') := Step(r, live, ops[0]); AllProper(r', live', ops[1..]))
  }

  /** Over every run of allocations and frees in any order. */
  lemma {:induction false} RunSound(r: Region, live: set<Block>, ops: seq<Op>)
    requires Sound(r, live) && AllProper(r, live, ops)
    ensures var (r', live') := Run(r, live, ops);
            Sound(r', live') && r'.base == r.base && r'.capacity == r.capacity
    decreases |ops|
  {
    if ops != [] {
      match ops[0] {
        case Alloc(size) => AllocateSound(r, live, size);
        case Free(b) => DeallocateSound(r, live, b);
      }
      var (r', live') := Step(r, live, ops[0]);
      RunSound(r', live', ops[1..]);
    }
  }

  /** Blocks given back in the reverse order of their allocation leave the region as it was. */
  lemma {:induction false} LastInFirstOut(r: Region, sizes: seq<nat>)
    requires r.idx + Sum(sizes) <= r.capacity
    ensures Unwind(r, sizes) == r
    decreases |sizes|
  {
    if sizes != [] {
      LastInFirstOut(r.Allocate(sizes[0]).1, sizes[1..]);
    }
  }

  function Sum(sizes: seq<nat>): nat
  {
    if sizes == [] then 0 else sizes[0] + Sum(sizes[1..])
  }

  /** Allocates all, then frees all, the last first. */
  function Unwind(r: Region, sizes: seq<nat>): Region
    decreases |sizes|
  {
    if sizes == [] then r
    else match r.Allocate(sizes[0])
      case (None, r') => Unwind(r', sizes[1..])
      case (Some(p), r') => Unwind(r', sizes[1..]).Deallocate(Block(p, sizes[0]))
  }

  class PoolAllocator {
    const base: nat
    const capacity: nat
    var idx: nat
    ghost var live: set<Block>

    ghost function Value(): Region
      reads this
    {
      Region(base, capacity, idx)
    }

    ghost predicate Valid()
      reads this
    {
      Sound(Value(), live)
    }

    constructor (base: nat, capacity: nat)
      ensures Valid() && Value() == Region(base, capacity, 0) && live == {}
    {
      this.base, this.capacity := base, capacity;
      idx, live := 0, {};
    }

    method Allocate(size: nat) returns (p: Option<nat>)
      requires Valid()
      modifies this
      ensures Valid() && (p, Value()) == old(Value()).Allocate(size)
      ensures live == old(live) + if p.Some? then Held(p.value, size) else {}
      ensures if old(idx) + size <= capacity then p == Some(base + old(idx)) && idx == old(idx) + size
              else p == None && idx == old(idx)
    {
      AllocateSound(Value(), live, size);
      var nIdx := idx + size;
      if nIdx > capacity {
        p := None;
      } else {
        p := Some(base + idx);
        idx := nIdx;
        live := live + Held(p.value, size);
      }
    }

    method Deallocate(p: nat, s: nat)
      requires Valid() && (Block(p, s) in live || s == 0 || p + s != base + idx)
      modifies this
      ensures Valid() && Value() == old(Value()).Deallocate(Block(p, s)) && live == old(live) - {Block(p, s)}
      ensures idx == if p + s == base + old(idx) then old(idx) - s else old(idx)
    {
      DeallocateSound(Value(), live, Block(p, s));
      if p + s == base + idx {
        idx := idx - s;
      }
      live := live - {Block(p, s)};
    }

    method Allocated(p: nat) returns (yes: bool)
      requires Valid()
      ensures yes == Value().Allocated(p)
      ensures yes <==> base <= p <= base + idx
    {
      yes := p >= base && p <= base + idx;
    }
  }

  // ---- FreeDequeAllocator: freed blocks wait for a request of their size ----

  /** The position of the first block of a size, or the length when there is none. */
  function FirstOf(parked: seq<Block>, size: nat): (i: nat)
    ensures i <= |parked| && (i < |parked| ==> parked[i].size == size)
    ensures forall j :: 0 <= j < i ==> parked[j].size != size
  {
    if parked == [] || parked[0].size == size then 0 else 1 + FirstOf(parked[1..], size)
  }

  function Total(bs: seq<Block>): nat
  {
    if bs == [] then 0 else Total(bs[..|bs| - 1]) + bs[|bs| - 1].size
  }

  /** Blocks that lie end to end from `base` on. */
  predicate EndToEnd(base: nat, bs: seq<Block>)
  {
    bs == [] ||
    var init, last := bs[..|bs| - 1], bs[|bs| - 1];
    EndToEnd(base, init) && last.ptr == base + Total(init)
  }

  /** The blocks cover the used part of the region without a gap, in this order. */
  predicate Tiles(r: Region, tiles: seq<Block>)
  {
    EndToEnd(r.base, tiles) && r.idx == Total(tiles) <= r.capacity
  }

  /** The blocks in use and the parked ones are exactly the tiles. */
  ghost predicate Accounted(r: Region, live: multiset<Block>, parked: seq<Block>, tiles: seq<Block>)
  {
    Tiles(r, tiles) && multiset(tiles) == live + multiset(parked)
  }

  /** To the region itself all tiles are in use, but the empty ones. */
  ghost predicate SameBlocks(live: set<Block>, tiles: seq<Block>)
  {
    forall b :: b in live <==> b in tiles && b.size > 0
  }

  /** Tiles lie in the used part, at different places, and do not overlap. */
  lemma {:induction false} TilesDisjoint(base: nat, tiles: seq<Block>)
    requires EndToEnd(base, tiles)
    ensures forall i :: 0 <= i < |tiles| ==> base <= tiles[i].ptr && tiles[i].ptr + tiles[i].size <= base + Total(tiles)
    ensures forall i, j :: 0 <= i < j < |tiles| ==> tiles[i].ptr + tiles[i].size <= tiles[j].ptr
    decreases |tiles|
  {
    if tiles != [] {
      var init := tiles[..|tiles| - 1];
      TilesDisjoint(base, init);
      assert forall i :: 0 <= i < |init| ==> tiles[i] == init[i];
    }
  }

  lemma Once(tiles: seq<Block>, i: nat)
    requires i < |tiles| && tiles[i].size > 0
    requires forall j, k :: 0 <= j < k < |tiles| ==> tiles[j].ptr + tiles[j].size <= tiles[k].ptr
    ensures multiset(tiles)[tiles[i]] == 1
  {
    assert tiles == tiles[..i] + [tiles[i]] + tiles[i + 1..];
    assert tiles[i] !in tiles[..i] && tiles[i] !in tiles[i + 1..];
  }

  /** So no block with bytes is both in use and parked, or either of them twice; any two of them are disjoint,
      inside the used part, and their sizes add up to it. */
  lemma AccountedDisjoint(r: Region, live: multiset<Block>, parked: seq<Block>, tiles: seq<Block>)
    requires Accounted(r, live, parked, tiles)
    ensures var all := live + multiset(parked);
            (forall b :: b in all ==> (b.size > 0 ==> all[b] == 1) && r.base <= b.ptr && b.ptr + b.size <= r.Top())
            && (forall a, b :: a in all && b in all && a != b ==> Disjoint(a, b))
            && r.idx == Total(tiles) && multiset(tiles) == all
  {
    var all := live + multiset(parked);
    TilesDisjoint(r.base, tiles);
    forall b | b in all
      ensures (b.size > 0 ==> all[b] == 1) && r.base <= b.ptr && b.ptr + b.size <= r.Top()
    {
      assert b in tiles;
      var i :| 0 <= i < |tiles| && tiles[i] == b;
      if b.size > 0 { Once(tiles, i); }
    }
    forall a, b | a in all && b in all && a != b
      ensures Disjoint(a, b)
    {
      assert a in tiles && b in tiles;
      var i :| 0 <= i < |tiles| && tiles[i] == a;
      var j :| 0 <= j < |tiles| && tiles[j] == b;
    }
  }

  lemma NewTile(r: Region, tiles: seq<Block>, size: nat)
    requires Tiles(r, tiles) && r.idx + size <= r.capacity
    ensures Tiles(r.(idx := r.idx + size), tiles + [Block(r.Top(), size)])
  {
    var more := tiles + [Block(r.Top(), size)];
    assert more[..|tiles|] == tiles;
  }

  /** Carving a block out of the region, and taking a parked one, keep the account. */
  lemma Carved(r: Region, live: multiset<Block>, parked: seq<Block>, tiles: seq<Block>, size: nat)
    requires Accounted(r, live, parked, tiles) && r.idx + size <= r.capacity
    ensures var b := Block(r.Top(), size);
            Accounted(r.(idx := r.idx + size), live + multiset{b}, parked, tiles + [b])
  {
    NewTile(r, tiles, size);
  }

  lemma Unparked(r: Region, live: multiset<Block>, parked: seq<Block>, tiles: seq<Block>, i: nat)
    requires Accounted(r, live, parked, tiles) && i < |parked|
    ensures Accounted(r, live + multiset{parked[i]}, parked[..i] + parked[i + 1..], tiles)
  {
    assert parked == parked[..i] + [parked[i]] + parked[i + 1..];
  }

  class FreeDequeAllocator {
    const allocator: PoolAllocator
    var store: seq<Block>
    ghost var live: multiset<Block>
    ghost var tiles: seq<Block>

    ghost predicate Valid()
      reads this, allocator
    {
      allocator.Valid() && SameBlocks(allocator.live, tiles) && Accounted(allocator.Value(), live, store, tiles)
    }

    constructor (base: nat, capacity: nat)
      ensures Valid() && live == multiset{} && store == [] && fresh(allocator)
      ensures allocator.Value() == Region(base, capacity, 0)
    {
      allocator := new PoolAllocator(base, capacity);
      store, live, tiles := [], multiset{}, [];
    }

    /** The first parked block of exactly that size, or else a new one. */
    method Allocate(size: nat) returns (p: Option<nat>)
      requires Valid()
      modifies this, allocator
      ensures Valid()
      ensures var i := FirstOf(old(store), size);
              if i < |old(store)|
              then p == Some(old(store)[i].ptr) && store == old(store)[..i] + old(store)[i + 1..]
                   && allocator.idx == old(allocator.idx)
              else (p, allocator.Value()) == old(allocator.Value()).Allocate(size) && store == old(store)
                   && p == (if old(allocator.idx) + size <= allocator.capacity
                            then Some(allocator.base + old(allocator.idx)) else None)
                   && allocator.idx == old(allocator.idx) + if p.Some? then size else 0
      ensures live == old(live) + if p.Some? then multiset{Block(p.value, size)} else multiset{}
    {
      var i := FirstOf(store, size);
      if i < |store| {
        p := Some(store[i].ptr);
        Unpark(i);
      } else {
        p := Carve(size);
      }
    }

    method Unpark(i: nat)
      requires Valid() && i < |store|
      modifies this
      ensures Valid() && store == old(store)[..i] + old(store)[i + 1..] && live == old(live) + multiset{old(store)[i]}
    {
      Unparked(allocator.Value(), live, store, tiles, i);
      live := live + multiset{store[i]};
      store := store[..i] + store[i + 1..];
    }

    method Carve(size: nat) returns (p: Option<nat>)
      requires Valid()
      modifies this, allocator
      ensures Valid() && (p, allocator.Value()) == old(allocator.Value()).Allocate(size) && store == old(store)
      ensures live == old(live) + if p.Some? then multiset{Block(p.value, size)} else multiset{}
    {
      ghost var r := allocator.Value();
      p := allocator.Allocate(size);
      if p.Some? {
        Carved(r, live, store, tiles, size);
        tiles := tiles + [Block(p.value, size)];
        live := live + multiset{Block(p.value, size)};
      }
    }

    /** The block is parked behind the others; the region below does not hear of it. */
    method Deallocate(p: nat, s: nat)
      requires Valid() && Block(p, s) in live
      modifies this
      ensures Valid() && store == old(store) + [Block(p, s)] && live == old(live) - multiset{Block(p, s)}
    {
      store := store + [Block(p, s)];
      live := live - multiset{Block(p, s)};
    }
  }

  // ---- FallbackAllocator: a second region for what the first cannot give ----

  /** Neither region reaches into the other. */
  predicate Separate(a: Region, b: Region)
  {
    a.base + a.capacity <= b.base || b.base + b.capacity <= a.base
  }

  /** A block of the first region is recognised as its own. */
  lemma FirstRecognised(a1: Region, live: set<Block>, b: Block)
    requires Sound(a1, live) && b in live
    ensures a1.Allocated(b.ptr)
  {
  }

  /** A block of the second region is recognised as its own, and the first region claims it too exactly when
      it starts where the first one's used part ends. */
  lemma SecondRecognised(a1: Region, a2: Region, live: set<Block>, b: Block)
    requires a1.idx <= a1.capacity && Sound(a2, live) && b in live && Separate(a1, a2)
    ensures a2.Allocated(b.ptr)
    ensures a1.Allocated(b.ptr) <==> b.ptr == a1.Top()
    ensures a1.Allocated(b.ptr) ==> a1.idx == a1.capacity && a2.base == a1.base + a1.capacity == b.ptr
    ensures a1.Deallocate(b) == a1
  {
  }

  /** With one byte between the regions, every block goes back to the one that made it. */
  lemma GapIsEnough(a1: Region, a2: Region, live: set<Block>, b: Block)
    requires a1.idx <= a1.capacity && Sound(a2, live) && b in live
    requires a1.base + a1.capacity < a2.base || a2.base + a2.capacity <= a1.base
    ensures !a1.Allocated(b.ptr) && a2.Allocated(b.ptr)
  {
  }

  /** Without a gap a block can go to the wrong region, which ignores it: the block stays in use for ever. */
  lemma AdjacentMisroutes()
    ensures var a1, a2, b := Region(100, 10, 10), Region(110, 10, 4), Block(110, 4);
            Separate(a1, a2) && Sound(a2, {b}) && a1.Allocated(b.ptr) && a1.Deallocate(b) == a1
            && a2.Deallocate(b) == a2.(idx := 0)
  {
  }

  datatype Outcome = Done | BadAlloc | LogicError

  class FallbackAllocator {
    const a1: PoolAllocator
    const a2: PoolAllocator

    ghost predicate Valid()
      reads this, a1, a2
    {
      a1 != a2 && a1.Valid() && a2.Valid() && Separate(a1.Value(), a2.Value())
    }

    constructor (base1: nat, capacity1: nat, base2: nat, capacity2: nat)
      requires Separate(Region(base1, capacity1, 0), Region(base2, capacity2, 0))
      ensures Valid() && fresh(a1) && fresh(a2) && a1.live == a2.live == {}
      ensures a1.Value() == Region(base1, capacity1, 0) && a2.Value() == Region(base2, capacity2, 0)
    {
      a1 := new PoolAllocator(base1, capacity1);
      a2 := new PoolAllocator(base2, capacity2);
    }

    /** The second region is asked only when the first has no room; without room in either, `std::bad_alloc`. */
    method Allocate(s: nat) returns (p: Option<nat>, outcome: Outcome)
      requires Valid()
      modifies a1, a2
      ensures Valid() && outcome == (if p.Some? then Done else BadAlloc)
      ensures var first, second := old(a1.idx) + s <= a1.capacity, old(a2.idx) + s <= a2.capacity;
              && p == (if first then Some(a1.base + old(a1.idx))
                       else if second then Some(a2.base + old(a2.idx)) else None)
              && a1.idx == old(a1.idx) + (if first then s else 0)
              && a2.idx == old(a2.idx) + (if !first && second then s else 0)
              && a1.live == old(a1.live) + (if first then Held(p.value, s) else {})
              && a2.live == old(a2.live) + (if !first && second then Held(p.value, s) else {})
    {
      p := a1.Allocate(s);
      if p.None? {
        p := a2.Allocate(s);
      }
      outcome := if p.None? then BadAlloc else Done;
    }

    /** The block goes back to the region that made it, unless it is the second one's first block and starts
        where the full first region ends: then nothing happens.  An empty block changes nothing, and throws when
        its address is in the used part of neither region any more. */
    method Deallocate(p: nat, s: nat) returns (outcome: Outcome)
      requires Valid() && (Block(p, s) in a1.live + a2.live || s == 0)
      modifies a1, a2
      ensures Valid()
      ensures outcome == if s > 0 || old(a1.Value()).Allocated(p) || old(a2.Value()).Allocated(p) then Done else LogicError
      ensures Block(p, s) in old(a1.live) ==>
                a1.Value() == old(a1.Value()).Deallocate(Block(p, s)) && a1.live == old(a1.live) - {Block(p, s)}
                && a2.Value() == old(a2.Value()) && a2.live == old(a2.live)
      ensures Block(p, s) !in old(a1.live) ==> a1.Value() == old(a1.Value()) && a1.live == old(a1.live)
      ensures Block(p, s) in old(a2.live) && p != a1.base + old(a1.idx) ==>
                a2.Value() == old(a2.Value()).Deallocate(Block(p, s)) && a2.live == old(a2.live) - {Block(p, s)}
      ensures Block(p, s) !in old(a2.live) || p == a1.base + old(a1.idx) ==>
                a2.Value() == old(a2.Value()) && a2.live == old(a2.live)
    {
      outcome := Done;
      Routed(a1.Value(), a1.live, a2.Value(), a2.live, Block(p, s));
      var first := a1.Allocated(p);
      var second := a2.Allocated(p);
      if first {
        a1.Deallocate(p, s);
      } else if second {
        a2.Deallocate(p, s);
      } else {
        outcome := LogicError;
      }
    }
  }

  /** Where a block that is in use goes. */
  lemma Routed(a1: Region, live1: set<Block>, a2: Region, live2: set<Block>, b: Block)
    requires Sound(a1, live1) && Sound(a2, live2) && Separate(a1, a2)
    ensures b in live1 ==> a1.Allocated(b.ptr) && b !in live2 && b.ptr != a1.Top()
    ensures b in live2 ==> a2.Allocated(b.ptr) && b !in live1 && (a1.Allocated(b.ptr) <==> b.ptr == a1.Top())
    ensures b.size == 0 ==> b !in live1 && b !in live2
  {
    if b in live1 { FirstRecognised(a1, live1, b); }
    if b in live2 { SecondRecognised(a1, a2, live2, b); }
  }

  /** An empty block whose address has been given up throws: 4 bytes, an empty block behind them, and the 4 bytes
      are freed first. */
  lemma EmptyBlockThrows()
    ensures var a1, a2 := Region(100, 10, 0), Region(200, 10, 0);
            var (p, a1') := a1.Allocate(4);
            var (q, a1'') := a1'.Allocate(0);
            var r := a1''.Deallocate(Block(p.value, 4));
            q.Some? && !r.Allocated(q.value) && !a2.Allocated(q.value)
  {
  }
}
