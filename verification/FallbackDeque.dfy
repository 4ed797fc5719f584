/** The composition bllocator.hpp is used in: a `FallbackAllocator` of a `FreeDequeAllocator` over a pool, and of
    `Mallocator`.  What `malloc` answers is part of the request. */
module FallbackDeque {
  import opened Names
  import opened Allocators

  /** The pool, the blocks that the first part has parked, and those `malloc` has given and not got back. */
  datatype Mixed = Mixed(region: Region, parked: seq<Block>, heap: multiset<Block>)

  datatype Request = Ask(size: nat, offer: Option<nat>) | GiveBack(block: Block)

  /** The block a request for `size` yields; `None` stands for `std::bad_alloc`. */
  function Grant(m: Mixed, size: nat, offer: Option<nat>): (Option<Block>, Mixed)
  {
    var i := FirstOf(m.parked, size);
    if i < |m.parked| then (Some(m.parked[i]), m.(parked := m.parked[..i] + m.parked[i + 1..]))
    else match m.region.Allocate(size)
      case (Some(p), r) => (Some(Block(p, size)), m.(region := r))
      case (None, _) =>
        if offer.None? then (None, m)
        else (Some(Block(offer.value, size)), m.(heap := m.heap + multiset{Block(offer.value, size)}))
  }

  /** The first part parks every block whose address lies in its used part; `Mallocator` says yes to all others. */
  function TakeBack(m: Mixed, b: Block): Mixed
  {
    if m.region.Allocated(b.ptr) then m.(parked := m.parked + [b]) else m.(heap := m.heap - multiset{b})
  }

  function Serve(m: Mixed, live: multiset<Block>, q: Request): (Mixed, multiset<Block>)
  {
    match q
    case Ask(size, offer) =>
      (match Grant(m, size, offer)
       case (None, m') => (m', live)
       case (Some(b), m') => (m', live + multiset{b}))
    case GiveBack(b) => (TakeBack(m, b), live - multiset{b})
  }

  ghost predicate FirstParked(parked: seq<Block>, size: nat, i: nat)
  {
    i < |parked| && parked[i].size == size && forall j: nat :: j < i ==> parked[j].size != size
  }

  /** A block of exactly the size asked for, or none: the first parked block of that size; where none is parked, the
      block at the pool's top; where the pool has no room, what `malloc` offers.  Nothing else changes, and the
      request fails only without an offer. */
  lemma GrantExactly(m: Mixed, live: multiset<Block>, size: nat, offer: Option<nat>)
    ensures var (got, m') := Grant(m, size, offer);
            && (got.Some? ==> got.value.size == size)
            && Serve(m, live, Ask(size, offer)) == (m', if got.Some? then live + multiset{got.value} else live)
            && (forall i: nat :: FirstParked(m.parked, size, i) ==>
                  got == Some(m.parked[i]) && m' == Mixed(m.region, m.parked[..i] + m.parked[i + 1..], m.heap))
            && ((forall j: nat :: j < |m.parked| ==> m.parked[j].size != size) ==>
                  var top := m.region.base + m.region.idx;
                  if m.region.idx + size <= m.region.capacity
                  then && got == Some(Block(top, size))
                       && m' == Mixed(m.region.(idx := m.region.idx + size), m.parked, m.heap)
                  else if offer.Some?
                  then && got == Some(Block(offer.value, size))
                       && m' == Mixed(m.region, m.parked, m.heap + multiset{Block(offer.value, size)})
                  else got == None && m' == m)
  {
    var i := FirstOf(m.parked, size);
    assert i < |m.parked| ==> m.parked[i].size == size;
    assert forall k: nat :: FirstParked(m.parked, size, k) ==> k == i;
  }

  /** A block that begins in the used part of the pool, or right behind it, is parked behind the others; any other goes
      back to `malloc`. */
  lemma TakeBackExactly(m: Mixed, live: multiset<Block>, b: Block)
    ensures Serve(m, live, GiveBack(b)) ==
            (if m.region.base <= b.ptr <= m.region.base + m.region.idx
             then Mixed(m.region, m.parked + [b], m.heap) else Mixed(m.region, m.parked, m.heap - multiset{b}),
             live - multiset{b})
  {
  }

  predicate Outside(r: Region, b: Block)
  {
    b.ptr + b.size <= r.base || r.base + r.capacity <= b.ptr
  }

  /** `malloc` answers with memory that is neither the pool's nor given out already. */
  ghost predicate Allowed(m: Mixed, live: multiset<Block>, q: Request)
  {
    match q
    case Ask(size, offer) =>
      offer.Some? ==> Outside(m.region, Block(offer.value, size))
                      && forall b :: b in m.heap && b.size > 0 && size > 0 ==> Disjoint(b, Block(offer.value, size))
    case GiveBack(b) => b in live
  }

  ghost predicate HeapSound(r: Region, heap: multiset<Block>)
  {
    && (forall b :: b in heap ==> Outside(r, b) && (b.size > 0 ==> heap[b] == 1))
    && (forall a, b :: a in heap && b in heap && a != b && a.size > 0 && b.size > 0 ==> Disjoint(a, b))
  }

  /** The pool's blocks, end to end in `tiles`, and those of `malloc` are together the blocks in use and the
      parked ones. */
  ghost predicate Balanced(m: Mixed, live: multiset<Block>, tiles: seq<Block>)
  {
    && Tiles(m.region, tiles) && HeapSound(m.region, m.heap)
    && multiset(tiles) + m.heap == live + multiset(m.parked)
  }

  lemma GrantBalanced(m: Mixed, live: multiset<Block>, tiles: seq<Block>, size: nat, offer: Option<nat>)
    returns (tiles': seq<Block>)
    requires Balanced(m, live, tiles) && Allowed(m, live, Ask(size, offer))
    ensures var (m', live') := Serve(m, live, Ask(size, offer)); Balanced(m', live', tiles')
    ensures Serve(m, live, Ask(size, offer)).0.region.base == m.region.base
  {
    tiles' := tiles;
    GrantExactly(m, live, size, offer);
    var i := FirstOf(m.parked, size);
    if i < |m.parked| {
      Reused(live, m.parked, i);
    } else if m.region.Allocate(size).0.Some? {
      NewTile(m.region, tiles, size);
      tiles' := tiles + [Block(m.region.Top(), size)];
      AddBoth(multiset(tiles), m.heap, live, multiset(m.parked), Block(m.region.Top(), size));
    } else if offer.Some? {
      NewOnHeap(m.region, m.heap, Block(offer.value, size));
      var b := Block(offer.value, size);
      AddBoth(multiset(tiles), m.heap, live, multiset(m.parked), b);
      assert Balanced(m.(heap := m.heap + multiset{b}), live + multiset{b}, tiles);
    }
  }

  lemma Reused(live: multiset<Block>, parked: seq<Block>, i: nat)
    requires i < |parked|
    ensures live + multiset(parked) == (live + multiset{parked[i]}) + multiset(parked[..i] + parked[i + 1..])
  {
    assert parked == parked[..i] + [parked[i]] + parked[i + 1..];
  }

  lemma AddBoth<T>(a: multiset<T>, h: multiset<T>, l: multiset<T>, p: multiset<T>, b: T)
    requires a + h == l + p
    ensures (a + multiset{b}) + h == (l + multiset{b}) + p && a + (h + multiset{b}) == (l + multiset{b}) + p
  {
    assert (a + multiset{b}) + h == (a + h) + multiset{b} && a + (h + multiset{b}) == (a + h) + multiset{b};
    assert (l + multiset{b}) + p == (l + p) + multiset{b};
  }

  lemma DropBoth<T>(a: multiset<T>, h: multiset<T>, l: multiset<T>, p: multiset<T>, b: T)
    requires a + h == l + p && b in h && b in l
    ensures a + (h - multiset{b}) == (l - multiset{b}) + p
  {
    assert h == (h - multiset{b}) + multiset{b} && l == (l - multiset{b}) + multiset{b};
    assert a + h == (a + (h - multiset{b})) + multiset{b} && l + p == ((l - multiset{b}) + p) + multiset{b};
    var x, y := a + (h - multiset{b}), (l - multiset{b}) + p;
    assert x == (x + multiset{b}) - multiset{b} && y == (y + multiset{b}) - multiset{b};
  }

  lemma NewOnHeap(r: Region, heap: multiset<Block>, b: Block)
    requires HeapSound(r, heap) && Outside(r, b)
    requires forall a :: a in heap && a.size > 0 && b.size > 0 ==> Disjoint(a, b)
    ensures HeapSound(r, heap + multiset{b})
  {
    assert b.size > 0 ==> b !in heap;
  }

  lemma TakeBackBalanced(m: Mixed, live: multiset<Block>, tiles: seq<Block>, b: Block)
    requires Balanced(m, live, tiles) && b in live
    ensures Balanced(TakeBack(m, b), live - multiset{b}, tiles)
  {
    TilesDisjoint(m.region.base, tiles);
    if !m.region.Allocated(b.ptr) {
      assert b in multiset(tiles) + m.heap;
      assert b !in tiles;
      DropBoth(multiset(tiles), m.heap, live, multiset(m.parked), b);
      assert forall c :: c in m.heap - multiset{b} ==> c in m.heap;
    }
  }

  /** A heap block is parked by the first part, and never freed, exactly when it lies directly behind the full pool;
      any other is freed. */
  lemma ParkedExactly(m: Mixed, b: Block)
    requires m.region.idx <= m.region.capacity && b in m.heap && Outside(m.region, b) && b.size > 0
    ensures m.region.Allocated(b.ptr) <==> b.ptr == m.region.Top()
    ensures m.region.Allocated(b.ptr) ==> m.region.idx == m.region.capacity && TakeBack(m, b).heap == m.heap
    ensures !m.region.Allocated(b.ptr) ==> TakeBack(m, b).heap == m.heap - multiset{b} && TakeBack(m, b).parked == m.parked
  {
  }

  ghost predicate Requests(m: Mixed, live: multiset<Block>, qs: seq<Request>)
    decreases |qs|
  {
    qs == [] ||
    (Allowed(m, live, qs[0]) && var (m', live') := Serve(m, live, qs[0]); Requests(m', live', qs[1..]))
  }

  function ServeAll(m: Mixed, live: multiset<Block>, qs: seq<Request>): (Mixed, multiset<Block>)
    decreases |qs|
  {
    if qs == [] then (m, live) else var (m', live') := Serve(m, live, qs[0]); ServeAll(m', live', qs[1..])
  }

  lemma {:induction false} ServeAllBalanced(m: Mixed, live: multiset<Block>, tiles: seq<Block>, qs: seq<Request>)
    returns (tiles': seq<Block>)
    requires Balanced(m, live, tiles) && Requests(m, live, qs)
    ensures var (m', live') := ServeAll(m, live, qs); Balanced(m', live', tiles')
    decreases |qs|
  {
    tiles' := tiles;
    if qs != [] {
      match qs[0] {
        case Ask(size, offer) => tiles' := GrantBalanced(m, live, tiles, size, offer);
        case GiveBack(b) => TakeBackBalanced(m, live, tiles, b);
      }
      var (m', live') := Serve(m, live, qs[0]);
      tiles' := ServeAllBalanced(m', live', tiles', qs[1..]);
    }
  }

  /** Over every run, misrouted blocks included: no block is in use twice, or in use and parked, and no two blocks
      overlap. */
  lemma RunDisjoint(base: nat, capacity: nat, qs: seq<Request>)
    requires Requests(Mixed(Region(base, capacity, 0), [], multiset{}), multiset{}, qs)
    ensures var (m, live) := ServeAll(Mixed(Region(base, capacity, 0), [], multiset{}), multiset{}, qs);
            var all := live + multiset(m.parked);
            && (forall b :: b in all && b.size > 0 ==> all[b] == 1)
            && (forall a, b :: a in all && b in all && a != b && a.size > 0 && b.size > 0 ==> Disjoint(a, b))
  {
    var m0 := Mixed(Region(base, capacity, 0), [], multiset{});
    assert Balanced(m0, multiset{}, []);
    var tiles := ServeAllBalanced(m0, multiset{}, [], qs);
    var (m, live) := ServeAll(m0, multiset{}, qs);
    BalancedDisjoint(m, live, tiles);
  }

  lemma BalancedDisjoint(m: Mixed, live: multiset<Block>, tiles: seq<Block>)
    requires Balanced(m, live, tiles)
    ensures var all := live + multiset(m.parked);
            && (forall b :: b in all && b.size > 0 ==> all[b] == 1)
            && (forall a, b :: a in all && b in all && a != b && a.size > 0 && b.size > 0 ==> Disjoint(a, b))
  {
    var all := live + multiset(m.parked);
    TilesDisjoint(m.region.base, tiles);
    forall b | b in all && b.size > 0 ensures all[b] == 1 {
      OnlyOnce(m, tiles, b);
    }
    forall a, b | a in all && b in all && a != b && a.size > 0 && b.size > 0 ensures Disjoint(a, b) {
      assert a in tiles || a in m.heap;
      assert b in tiles || b in m.heap;
      if a in tiles { var i :| 0 <= i < |tiles| && tiles[i] == a; }
      if b in tiles { var j :| 0 <= j < |tiles| && tiles[j] == b; }
    }
  }

  lemma OnlyOnce(m: Mixed, tiles: seq<Block>, b: Block)
    requires Tiles(m.region, tiles) && HeapSound(m.region, m.heap) && b in multiset(tiles) + m.heap && b.size > 0
    ensures (multiset(tiles) + m.heap)[b] == 1
  {
    TilesDisjoint(m.region.base, tiles);
    if b in tiles {
      var i :| 0 <= i < |tiles| && tiles[i] == b;
      Once(tiles, i);
      assert b !in m.heap;
    } else {
      assert multiset(tiles)[b] == 0;
    }
  }
}
