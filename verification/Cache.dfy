/** The least-recently-used cache of cache.hpp: a list of nodes, the most recently used in front, and an index
    from each key to its node.  An insertion that would exceed the budget evicts one entry, from the back. */
module Caches {
  import opened Names

  datatype Entry<K, V> = Entry(key: K, value: V)

  /** What a caller does; `Find` stands for `contains` too. */
  datatype Op<K, V> = Insert(key: K, value: V) | Erase(key: K) | Find(key: K)

  /** The entries, the most recent first, and the bytes last counted. */
  datatype State<K, V> = State(entries: seq<Entry<K, V>>, mem: nat)

  /** The budget, and the size of a value. */
  datatype Config<!V> = Config(budget: nat, sizeOf: V -> nat)

  // ---- one step ----

  function Bytes<K, V>(c: Config<V>, es: seq<Entry<K, V>>): nat
  {
    if es == [] then 0 else c.sizeOf(es[0].value) + Bytes(c, es[1..])
  }

  /** The first position of `k`, or the length when there is none. */
  function Position<K(==), V>(es: seq<Entry<K, V>>, k: K): (i: nat)
    ensures i <= |es| && (i < |es| ==> es[i].key == k)
    ensures forall j :: 0 <= j < i ==> es[j].key != k
  {
    if es == [] || es[0].key == k then 0 else 1 + Position(es[1..], k)
  }

  predicate Has<K(==), V>(es: seq<Entry<K, V>>, k: K)
  {
    Position(es, k) < |es|
  }

  /** The entry of `k`, or none. */
  function Get<K(==), V>(es: seq<Entry<K, V>>, k: K): seq<Entry<K, V>>
  {
    var i := Position(es, k);
    if i < |es| then [es[i]] else []
  }

  function Without<K(==), V>(es: seq<Entry<K, V>>, k: K): seq<Entry<K, V>>
  {
    var i := Position(es, k);
    if i < |es| then es[..i] + es[i + 1..] else es
  }

  predicate Evicts<K, V>(c: Config<V>, s: State<K, V>, v: V)
  {
    s.mem + c.sizeOf(v) > c.budget && s.entries != []
  }

  /** What an insertion of `v` leaves of the entries before it adds its own. */
  function Kept<K, V>(c: Config<V>, s: State<K, V>, v: V): seq<Entry<K, V>>
  {
    if Evicts(c, s, v) then s.entries[..|s.entries| - 1] else s.entries
  }

  function Step<K(==), V>(c: Config<V>, s: State<K, V>, op: Op<K, V>): State<K, V>
  {
    match op
    case Insert(k, v) => var es := [Entry(k, v)] + Kept(c, s, v); State(es, Bytes(c, es))
    case Erase(k) => State(Without(s.entries, k), s.mem)
    case Find(k) => State(Get(s.entries, k) + Without(s.entries, k), s.mem)
  }

  /** The calls of the save callback. */
  function Saved<K(==), V>(c: Config<V>, s: State<K, V>, op: Op<K, V>): seq<Entry<K, V>>
  {
    match op
    case Insert(k, v) => s.entries[|Kept(c, s, v)|..]
    case Erase(k) => Get(s.entries, k)
    case Find(k) => []
  }

  ghost predicate Distinct<K, V>(es: seq<Entry<K, V>>)
  {
    forall i, j :: 0 <= i < j < |es| ==> es[i].key != es[j].key
  }

  /** An insertion names a key that is absent, or about to be evicted. */
  predicate Allowed<K(==), V>(c: Config<V>, s: State<K, V>, op: Op<K, V>)
  {
    op.Insert? ==> !Has(Kept(c, s, op.value), op.key)
  }

  // ---- where a key is ----

  lemma PositionIs<K, V>(es: seq<Entry<K, V>>, i: nat)
    requires Distinct(es) && i < |es|
    ensures Position(es, es[i].key) == i
  {
  }

  /** With distinct keys, exactly the entry of `k` goes. */
  lemma WithoutDistinct<K, V>(es: seq<Entry<K, V>>, k: K)
    requires Distinct(es)
    ensures Distinct(Without(es, k)) && !Has(Without(es, k), k)
    ensures multiset(es) == multiset(Get(es, k)) + multiset(Without(es, k))
  {
    var i, rest := Position(es, k), Without(es, k);
    if i < |es| {
      assert es == es[..i] + [es[i]] + es[i + 1..];
      assert forall j :: 0 <= j < |rest| ==> rest[j] == es[if j < i then j else j + 1];
      assert forall j :: 0 <= j < |rest| ==> rest[j].key != k;
    }
  }

  lemma DistinctFront<K, V>(e: Entry<K, V>, es: seq<Entry<K, V>>)
    requires Distinct(es)
    ensures Distinct([e] + es) <==> !Has(es, e.key)
  {
    var all, i := [e] + es, Position(es, e.key);
    if i < |es| {
      assert all[0].key == all[i + 1].key;
    } else {
      assert forall j :: 0 <= j < |es| ==> all[j + 1] == es[j] && es[j].key != e.key;
    }
  }

  /** Keys stay distinct exactly when only absent keys are inserted. */
  lemma DistinctStep<K, V>(c: Config<V>, s: State<K, V>, op: Op<K, V>)
    requires Distinct(s.entries)
    ensures Distinct(Step(c, s, op).entries) <==> Allowed(c, s, op)
  {
    match op
    case Insert(k, v) =>
      DistinctFront(Entry(k, v), Kept(c, s, v));
    case Erase(k) =>
      WithoutDistinct(s.entries, k);
    case Find(k) =>
      WithoutDistinct(s.entries, k);
      if Has(s.entries, k) {
        DistinctFront(Get(s.entries, k)[0], Without(s.entries, k));
      } else {
        assert [] + s.entries == s.entries;
      }
  }

  /** The second insertion of a key that is still there puts it into the list twice. */
  lemma InsertedTwice()
    ensures var c := Config(2, (n: nat) => n);
            var s := Step(c, State([Entry(0, 1)], 1), Insert(0, 1));
            !Allowed(c, State([Entry(0, 1)], 1), Insert(0, 1)) && s.entries == [Entry(0, 1), Entry(0, 1)] && !Distinct(s.entries)
  {
    var c := Config(2, (n: nat) => n);
    var s := Step(c, State([Entry(0, 1)], 1), Insert(0, 1));
    assert s.entries == [Entry(0, 1)] + [Entry(0, 1)];
    assert s.entries[0].key == s.entries[1].key;
  }

  // ---- runs ----

  function Run<K(==), V>(c: Config<V>, ops: seq<Op<K, V>>): State<K, V>
  {
    if ops == [] then State([], 0) else Step(c, Run(c, ops[..|ops| - 1]), ops[|ops| - 1])
  }

  predicate AllAllowed<K(==), V>(c: Config<V>, ops: seq<Op<K, V>>)
  {
    ops == [] ||
    (AllAllowed(c, ops[..|ops| - 1]) && Allowed(c, Run(c, ops[..|ops| - 1]), ops[|ops| - 1]))
  }

  lemma {:induction false} RunDistinct<K, V>(c: Config<V>, ops: seq<Op<K, V>>)
    requires AllAllowed(c, ops)
    ensures Distinct(Run(c, ops).entries)
    decreases |ops|
  {
    if ops != [] {
      RunDistinct(c, ops[..|ops| - 1]);
      DistinctStep(c, Run(c, ops[..|ops| - 1]), ops[|ops| - 1]);
    }
  }

  function InsertedBy<K, V>(op: Op<K, V>): seq<Entry<K, V>>
  {
    if op.Insert? then [Entry(op.key, op.value)] else []
  }

  function Inserted<K(==), V(==)>(ops: seq<Op<K, V>>): multiset<Entry<K, V>>
  {
    if ops == [] then multiset{} else Inserted(ops[..|ops| - 1]) + multiset(InsertedBy(ops[|ops| - 1]))
  }

  function SavedBy<K(==), V>(c: Config<V>, ops: seq<Op<K, V>>): seq<Entry<K, V>>
  {
    if ops == [] then []
    else SavedBy(c, ops[..|ops| - 1]) + Saved(c, Run(c, ops[..|ops| - 1]), ops[|ops| - 1])
  }

  lemma ConservationStep<K, V>(c: Config<V>, s: State<K, V>, op: Op<K, V>)
    requires Distinct(s.entries)
    ensures multiset(Step(c, s, op).entries) + multiset(Saved(c, s, op))
         == multiset(s.entries) + multiset(InsertedBy(op))
  {
    match op
    case Insert(k, v) =>
      var kept := Kept(c, s, v);
      assert s.entries == kept + s.entries[|kept|..];
    case Erase(k) => WithoutDistinct(s.entries, k);
    case Find(k) => WithoutDistinct(s.entries, k);
  }

  /** Every pair that was inserted is still there or was handed out, exactly once. */
  lemma {:induction false} Conservation<K, V>(c: Config<V>, ops: seq<Op<K, V>>)
    requires AllAllowed(c, ops)
    ensures multiset(Run(c, ops).entries) + multiset(SavedBy(c, ops)) == Inserted(ops)
    decreases |ops|
  {
    if ops != [] {
      var init, op := ops[..|ops| - 1], ops[|ops| - 1];
      var s := Run(c, init);
      Conservation(c, init);
      RunDistinct(c, init);
      ConservationStep(c, s, op);
      AddUp(multiset(s.entries), SavedBy(c, init), Inserted(init), multiset(InsertedBy(op)),
            Saved(c, s, op), multiset(Step(c, s, op).entries));
    }
  }

  lemma AddUp<T>(there: multiset<T>, out: seq<T>, put: multiset<T>, more: multiset<T>, last: seq<T>, after: multiset<T>)
    requires there + multiset(out) == put && after + multiset(last) == there + more
    ensures after + multiset(out + last) == put + more
  {
    assert after + multiset(out + last) == (after + multiset(last)) + multiset(out);
  }

  // ---- recency ----

  /** Inserting or finding a key uses it; erasing does not. */
  predicate Uses<K(==), V>(op: Op<K, V>, k: K)
  {
    !op.Erase? && op.key == k
  }

  /** When `k` was used last, or -1. */
  function LastUse<K(==), V>(ops: seq<Op<K, V>>, k: K): (n: int)
    ensures -1 <= n < |ops|
  {
    if ops == [] then -1
    else if Uses(ops[|ops| - 1], k) then |ops| - 1
    else LastUse(ops[..|ops| - 1], k)
  }

  lemma {:induction false} LastUseMeaning<K, V>(ops: seq<Op<K, V>>, k: K)
    ensures var n := LastUse(ops, k); n >= 0 ==> Uses(ops[n], k)
    ensures forall i :: LastUse(ops, k) < i < |ops| ==> !Uses(ops[i], k)
    decreases |ops|
  {
    if ops != [] {
      LastUseMeaning(ops[..|ops| - 1], k);
    }
  }

  /** The list is in order of last use, the latest in front. */
  ghost predicate Recent<K, V>(ops: seq<Op<K, V>>, es: seq<Entry<K, V>>)
  {
    forall i, j :: 0 <= i < j < |es| ==> LastUse(ops, es[i].key) > LastUse(ops, es[j].key)
  }

  /** A step whose entries are the used one, if any, in front of some old ones in their old order. */
  lemma RecentFront<K, V>(ops: seq<Op<K, V>>, op: Op<K, V>, front: seq<Entry<K, V>>, es: seq<Entry<K, V>>)
    requires Recent(ops, es) && |front| <= 1 && (front != [] ==> Uses(op, front[0].key))
    requires forall i :: 0 <= i < |es| ==> !Uses(op, es[i].key)
    ensures Recent(ops + [op], front + es)
  {
    assert (ops + [op])[..|ops|] == ops;
    forall i, j | 0 <= i < j < |front + es|
      ensures LastUse(ops + [op], (front + es)[i].key) > LastUse(ops + [op], (front + es)[j].key)
    {
      var b := es[j - |front|];
      assert (front + es)[j] == b && LastUse(ops + [op], b.key) == LastUse(ops, b.key);
      if i < |front| {
        assert LastUse(ops + [op], front[0].key) == |ops|;
      } else {
        var a := es[i - |front|];
        assert (front + es)[i] == a && LastUse(ops + [op], a.key) == LastUse(ops, a.key);
      }
    }
  }

  lemma RecentPart<K, V>(ops: seq<Op<K, V>>, es: seq<Entry<K, V>>, k: K)
    requires Recent(ops, es)
    ensures Recent(ops, Without(es, k))
  {
  }

  lemma RecentStep<K, V>(c: Config<V>, ops: seq<Op<K, V>>, s: State<K, V>, op: Op<K, V>)
    requires Recent(ops, s.entries) && Distinct(s.entries) && Allowed(c, s, op)
    ensures Recent(ops + [op], Step(c, s, op).entries)
  {
    match op
    case Insert(k, v) =>
      RecentFront(ops, op, [Entry(k, v)], Kept(c, s, v));
    case Erase(k) =>
      RecentPart(ops, s.entries, k);
      RecentFront(ops, op, [], Without(s.entries, k));
      assert [] + Without(s.entries, k) == Without(s.entries, k);
    case Find(k) =>
      RecentPart(ops, s.entries, k);
      WithoutDistinct(s.entries, k);
      RecentFront(ops, op, Get(s.entries, k), Without(s.entries, k));
  }

  lemma {:induction false} RunRecent<K, V>(c: Config<V>, ops: seq<Op<K, V>>)
    requires AllAllowed(c, ops)
    ensures Recent(ops, Run(c, ops).entries)
    decreases |ops|
  {
    if ops == [] {
      assert Run(c, ops).entries == [];
    } else {
      RunRecent(c, ops[..|ops| - 1]);
      RunDistinct(c, ops[..|ops| - 1]);
      RecentNext(c, ops[..|ops| - 1], ops[|ops| - 1], Run(c, ops[..|ops| - 1]), ops);
    }
  }

  lemma RecentNext<K, V>(c: Config<V>, init: seq<Op<K, V>>, op: Op<K, V>, s: State<K, V>, ops: seq<Op<K, V>>)
    requires ops == init + [op] && Recent(init, s.entries) && Distinct(s.entries) && Allowed(c, s, op)
    ensures Recent(ops, Step(c, s, op).entries)
  {
    RecentStep(c, init, s, op);
  }

  /** An insertion that exceeds the budget hands out the least recently used entry, and only that one; one that fits,
      or that finds the cache empty, hands out nothing.  All other entries stay behind the new one. */
  lemma EvictsLeastRecent<K, V>(c: Config<V>, ops: seq<Op<K, V>>, k: K, v: V)
    requires AllAllowed(c, ops)
    ensures var s, out, after := Run(c, ops), Saved(c, Run(c, ops), Insert(k, v)), Run(c, ops + [Insert(k, v)]);
            var es := s.entries;
            && after.entries != [] && after.entries[0] == Entry(k, v)
            && (s.mem + c.sizeOf(v) <= c.budget || es == [] ==> out == [] && after.entries[1..] == es)
            && (s.mem + c.sizeOf(v) > c.budget && es != [] ==>
                  && out == [es[|es| - 1]] && after.entries[1..] == es[..|es| - 1]
                  && forall i :: 0 <= i < |es| - 1 ==> LastUse(ops, out[0].key) < LastUse(ops, es[i].key))
  {
    RunRecent(c, ops);
    assert (ops + [Insert(k, v)])[..|ops|] == ops;
  }

  // ---- bytes ----

  lemma {:induction false} BytesAppend<K, V>(c: Config<V>, a: seq<Entry<K, V>>, b: seq<Entry<K, V>>)
    ensures Bytes(c, a + b) == Bytes(c, a) + Bytes(c, b)
  {
    if a == [] {
      assert a + b == b;
    } else {
      assert (a + b)[1..] == a[1..] + b;
      BytesAppend(c, a[1..], b);
    }
  }

  lemma BytesWithout<K, V>(c: Config<V>, es: seq<Entry<K, V>>, k: K)
    ensures Bytes(c, Get(es, k) + Without(es, k)) == Bytes(c, es)
    ensures Bytes(c, Without(es, k)) <= Bytes(c, es)
  {
    var i := Position(es, k);
    if i < |es| {
      assert es == es[..i] + ([es[i]] + es[i + 1..]);
      BytesAppend(c, es[..i], [es[i]] + es[i + 1..]);
      BytesAppend(c, [es[i]], es[i + 1..]);
      BytesAppend(c, es[..i], es[i + 1..]);
      BytesAppend(c, [es[i]], Without(es, k));
    } else {
      assert [] + es == es;
    }
  }

  /** The bytes reported: exact after an insertion, and never too few. */
  lemma {:induction false} BytesReported<K, V>(c: Config<V>, ops: seq<Op<K, V>>)
    ensures var s := Run(c, ops);
            s.mem >= Bytes(c, s.entries)
            && (ops != [] && ops[|ops| - 1].Insert? ==> s.mem == Bytes(c, s.entries))
    decreases |ops|
  {
    if ops != [] {
      BytesReported(c, ops[..|ops| - 1]);
      var op := ops[|ops| - 1];
      if !op.Insert? {
        BytesWithout(c, Run(c, ops[..|ops| - 1]).entries, op.key);
      }
    }
  }

  /** Where nothing was erased since the last insertion, the bytes reported are those of the entries, so that nothing
      is evicted while the new value fits beside what is stored. */
  lemma {:induction false} EvictsOnlyForRoom<K, V>(c: Config<V>, ops: seq<Op<K, V>>, p: nat, k: K, v: V)
    requires p <= |ops| && (p > 0 ==> ops[p - 1].Insert?) && forall i :: p <= i < |ops| ==> ops[i].Find?
    ensures var es := Run(c, ops).entries;
            && Run(c, ops).mem == Bytes(c, es)
            && (Saved(c, Run(c, ops), Insert(k, v)) == [] <==> Bytes(c, es) + c.sizeOf(v) <= c.budget || es == [])
    decreases |ops|
  {
    if p < |ops| {
      EvictsOnlyForRoom(c, ops[..|ops| - 1], p, k, v);
      BytesWithout(c, Run(c, ops[..|ops| - 1]).entries, ops[|ops| - 1].key);
    } else {
      BytesReported(c, ops);
    }
  }

  /** One eviction is all an insertion makes: whatever was erased before, so that the count may be too high, the
      budget holds afterwards exactly when that one is enough. */
  lemma OneEvictionEnough<K, V>(c: Config<V>, ops: seq<Op<K, V>>, k: K, v: V)
    ensures var es := Run(c, ops).entries;
            var after := Run(c, ops + [Insert(k, v)]);
            after.mem == Bytes(c, after.entries)
            && (Bytes(c, after.entries) <= c.budget <==>
                if es == [] then c.sizeOf(v) <= c.budget
                else Bytes(c, es) + c.sizeOf(v) <= c.budget + c.sizeOf(es[|es| - 1].value))
  {
    BytesReported(c, ops);
    BytesReported(c, ops + [Insert(k, v)]);
    assert (ops + [Insert(k, v)])[..|ops|] == ops;
    AfterInsertion(c, Run(c, ops), k, v);
  }

  lemma AfterInsertion<K, V>(c: Config<V>, s: State<K, V>, k: K, v: V)
    requires s.mem >= Bytes(c, s.entries)
    ensures var n := |s.entries|;
            Bytes(c, Step(c, s, Insert(k, v)).entries) <= c.budget
            <==> if n == 0 then c.sizeOf(v) <= c.budget
                 else Bytes(c, s.entries) + c.sizeOf(v) <= c.budget + c.sizeOf(s.entries[n - 1].value)
  {
    LastBytes(c, s.entries);
    assert ([Entry(k, v)] + Kept(c, s, v))[1..] == Kept(c, s, v);
  }

  /** The sum of the sizes, entry by entry. */
  lemma LastBytes<K, V>(c: Config<V>, es: seq<Entry<K, V>>)
    ensures es == [] ==> Bytes(c, es) == 0
    ensures es != [] ==> Bytes(c, es) == Bytes(c, es[..|es| - 1]) + c.sizeOf(es[|es| - 1].value)
  {
    if es != [] {
      var init, last := es[..|es| - 1], es[|es| - 1];
      assert es == init + [last];
      BytesAppend(c, init, [last]);
      assert Bytes(c, [last]) == c.sizeOf(last.value) + Bytes<K, V>(c, []);
    }
  }

  /** Values of one size, no larger than the budget. */
  ghost predicate OneSize<K, V>(c: Config<V>, ops: seq<Op<K, V>>, z: nat)
  {
    z <= c.budget && forall i :: 0 <= i < |ops| && ops[i].Insert? ==> c.sizeOf(ops[i].value) == z
  }

  lemma {:induction false} OneSizeStored<K, V>(c: Config<V>, ops: seq<Op<K, V>>, z: nat)
    requires OneSize(c, ops, z)
    ensures forall e :: e in Run(c, ops).entries ==> c.sizeOf(e.value) == z
    decreases |ops|
  {
    if ops != [] {
      OneSizeStored(c, ops[..|ops| - 1], z);
    }
  }

  /** Values of one size never exceed the budget. */
  lemma {:induction false} NeverOverBudget<K, V>(c: Config<V>, ops: seq<Op<K, V>>, z: nat)
    requires OneSize(c, ops, z)
    ensures Bytes(c, Run(c, ops).entries) <= Run(c, ops).mem <= c.budget
    decreases |ops|
  {
    BytesReported(c, ops);
    if ops != [] {
      var init, op := ops[..|ops| - 1], ops[|ops| - 1];
      NeverOverBudget(c, init, z);
      var s := Run(c, init);
      if op.Insert? {
        LastBytes(c, s.entries);
        OneSizeStored(c, init, z);
        assert s.entries != [] ==> s.entries[|s.entries| - 1] in s.entries;
        assert ([Entry(op.key, op.value)] + Kept(c, s, op.value))[1..] == Kept(c, s, op.value);
      }
    }
  }

  /** Values of different sizes can: the budget is 2, and two of size 1 are followed by one of size 2. */
  lemma MixedSizesOverBudget()
    ensures var c := Config(2, (n: nat) => n);
            var ops: seq<Op<nat, nat>> := [Insert(0, 1), Insert(1, 1), Insert(2, 2)];
            AllAllowed(c, ops) && Bytes(c, Run(c, ops).entries) == 3
  {
    var c := Config(2, (n: nat) => n);
    var a: seq<Op<nat, nat>> := [Insert(0, 1)];
    var b: seq<Op<nat, nat>> := [Insert(0, 1), Insert(1, 1)];
    var ops: seq<Op<nat, nat>> := [Insert(0, 1), Insert(1, 1), Insert(2, 2)];
    assert a[..0] == [] && b[..1] == a && ops[..2] == b && ops[..1] == a && ops[..0] == [];
    assert Run(c, a).entries == [Entry(0, 1)];
    assert Bytes(c, [Entry(0, 1)]) == 1;
    assert Run(c, b).entries == [Entry(1, 1), Entry(0, 1)];
    assert Bytes(c, [Entry(1, 1), Entry(0, 1)]) == 2;
    assert Run(c, ops).entries == [Entry(2, 2), Entry(1, 1)];
    assert Bytes(c, [Entry(2, 2), Entry(1, 1)]) == 3;
  }

  // ---- the cache in place ----

  /** A list node: its identity is what the index holds. */
  class Node<K, V> {
    const key: K
    const value: V

    constructor (key: K, value: V)
      ensures this.key == key && this.value == value
    {
      this.key, this.value := key, value;
    }
  }

  function Entries<K, V>(list: seq<Node<K, V>>): (es: seq<Entry<K, V>>)
    ensures |es| == |list| && forall i :: 0 <= i < |list| ==> es[i] == Entry(list[i].key, list[i].value)
  {
    seq(|list|, i requires 0 <= i < |list| => Entry(list[i].key, list[i].value))
  }

  /** The index holds, for each key in the list, the only node with that key, and no other key. */
  ghost predicate Agree<K, V>(list: seq<Node<K, V>>, index: map<K, Node<K, V>>)
  {
    && (forall i, j :: 0 <= i < j < |list| ==> list[i] != list[j])
    && (forall n :: n in list ==> n.key in index && index[n.key] == n)
    && (forall k :: k in index ==> index[k] in list && index[k].key == k)
  }

  lemma AgreeDistinct<K, V>(list: seq<Node<K, V>>, index: map<K, Node<K, V>>)
    requires Agree(list, index)
    ensures Distinct(Entries(list))
    ensures forall k :: k in index <==> Has(Entries(list), k)
    ensures |list| == |index|
  {
    forall k ensures k in index <==> Has(Entries(list), k) {
      if k in index {
        var i :| 0 <= i < |list| && list[i] == index[k];
        assert Entries(list)[i].key == k;
      }
      if Has(Entries(list), k) {
        var i :| 0 <= i < |list| && Entries(list)[i].key == k;
        assert list[i] in list;
      }
    }
    forall i, j | 0 <= i < j < |list| ensures Entries(list)[i].key != Entries(list)[j].key {
      assert list[i] in list && list[j] in list;
    }
    SameCount(list, index);
  }

  lemma {:induction false} SameCount<K, V>(list: seq<Node<K, V>>, index: map<K, Node<K, V>>)
    requires Agree(list, index)
    ensures |list| == |index|
    decreases |list|
  {
    if list == [] {
      assert index.Keys == {};
    } else {
      var n := list[|list| - 1];
      DropAgree(list, index, |list| - 1);
      assert list[..|list| - 1] + list[|list|..] == list[..|list| - 1];
      SameCount(list[..|list| - 1], index - {n.key});
      assert index.Keys == (index - {n.key}).Keys + {n.key};
    }
  }

  lemma DropIn<K, V>(list: seq<Node<K, V>>, i: nat, n: Node<K, V>)
    requires i < |list| && forall j, k :: 0 <= j < k < |list| ==> list[j] != list[k]
    ensures n in list[..i] + list[i + 1..] <==> n in list && n != list[i]
  {
    var rest := list[..i] + list[i + 1..];
    assert forall j :: 0 <= j < |rest| ==> rest[j] == list[if j < i then j else j + 1];
    if n in list && n != list[i] {
      var j :| 0 <= j < |list| && list[j] == n;
      assert rest[if j < i then j else j - 1] == n;
    }
  }

  /** Taking a node out of the list and its key out of the index keeps them in agreement. */
  lemma DropAgree<K, V>(list: seq<Node<K, V>>, index: map<K, Node<K, V>>, i: nat)
    requires Agree(list, index) && i < |list|
    ensures Agree(list[..i] + list[i + 1..], index - {list[i].key})
    ensures list[i] !in list[..i] + list[i + 1..]
  {
    var rest := list[..i] + list[i + 1..];
    assert list[i] in list;
    forall n ensures n in rest <==> n in list && n != list[i] {
      DropIn(list, i, n);
    }
    assert forall j :: 0 <= j < |rest| ==> rest[j] == list[if j < i then j else j + 1];
  }

  /** Where the node of a key in the index is. */
  lemma Located<K, V>(list: seq<Node<K, V>>, index: map<K, Node<K, V>>, key: K)
    requires Agree(list, index)
    ensures Has(Entries(list), key) <==> key in index
    ensures key in index ==> var i := Position(Entries(list), key); i < |list| && list[i] == index[key]
  {
    AgreeDistinct(list, index);
    var i := Position(Entries(list), key);
    if i < |list| {
      assert list[i] in list;
    }
  }

  lemma Gone<K, V>(list: seq<Node<K, V>>, index: map<K, Node<K, V>>, key: K)
    requires Agree(list, index) && key !in index
    ensures forall n :: n in list ==> n.key != key
  {
  }

  lemma EntriesDrop<K, V>(list: seq<Node<K, V>>, i: nat)
    requires i < |list|
    ensures Entries(list[..i] + list[i + 1..]) == Entries(list)[..i] + Entries(list)[i + 1..]
  {
  }

  /** Erasing the node of a key, on the list and on the entries. */
  lemma Unlinked<K, V>(list: seq<Node<K, V>>, index: map<K, Node<K, V>>, key: K, i: nat)
    requires Agree(list, index) && key in index && i < |list| && list[i] == index[key]
    ensures Agree(list[..i] + list[i + 1..], index - {key})
    ensures Entries(list[..i] + list[i + 1..]) == Without(Entries(list), key)
    ensures Get(Entries(list), key) == [Entry(key, list[i].value)]
  {
    DropAgree(list, index, i);
    EntriesDrop(list, i);
    AgreeDistinct(list, index);
    PositionIs(Entries(list), i);
  }

  /** A new node in front keeps the agreement when its key is not in the index, and breaks it otherwise. */
  lemma Linked<K, V>(list: seq<Node<K, V>>, index: map<K, Node<K, V>>, node: Node<K, V>)
    requires Agree(list, index) && node !in list
    ensures Entries([node] + list) == [Entry(node.key, node.value)] + Entries(list)
    ensures node.key !in index ==> Agree([node] + list, index[node.key := node])
    ensures node.key in index ==> !Agree([node] + list, index)
  {
    if node.key in index {
      assert node in [node] + list;
    } else {
      assert forall i :: 0 <= i < |list| ==> list[i] in list;
    }
  }

  /** Moving a node to the front leaves the index as it is. */
  lemma Moved<K, V>(list: seq<Node<K, V>>, index: map<K, Node<K, V>>, key: K, i: nat)
    requires Agree(list, index) && key in index && i < |list| && list[i] == index[key]
    ensures var l := [list[i]] + (list[..i] + list[i + 1..]);
            Agree(l, index) && Entries(l) == Get(Entries(list), key) + Without(Entries(list), key)
  {
    var rest := list[..i] + list[i + 1..];
    Unlinked(list, index, key, i);
    assert key !in index - {key};
    assert list[i] !in rest by {
      DropAgree(list, index, i);
    }
    Linked(rest, index - {key}, list[i]);
    assert (index - {key})[key := list[i]] == index;
  }

  lemma FindStep<K, V>(c: Config<V>, list: seq<Node<K, V>>, index: map<K, Node<K, V>>, mem: nat, key: K)
    requires Agree(list, index) && key in index
    ensures Has(Entries(list), key)
    ensures var i := Position(Entries(list), key);
            && i < |list| && list[i] == index[key]
            && var l := [list[i]] + (list[..i] + list[i + 1..]);
               Agree(l, index) && State(Entries(l), mem) == Step(c, State(Entries(list), mem), Op.Find(key))
  {
    Located(list, index, key);
    Moved(list, index, key, Position(Entries(list), key));
  }

  lemma EraseStep<K, V>(c: Config<V>, list: seq<Node<K, V>>, index: map<K, Node<K, V>>, mem: nat, key: K)
    requires Agree(list, index) && key in index
    ensures var i := Position(Entries(list), key);
            && i < |list| && list[i] == index[key]
            && var l, s := list[..i] + list[i + 1..], State(Entries(list), mem);
               && Agree(l, index - {key}) && State(Entries(l), mem) == Step(c, s, Op.Erase(key))
               && Saved(c, s, Op.Erase(key)) == [Entry(key, index[key].value)]
  {
    Located(list, index, key);
    Unlinked(list, index, key, Position(Entries(list), key));
  }

  lemma AbsentStep<K, V>(c: Config<V>, list: seq<Node<K, V>>, index: map<K, Node<K, V>>, mem: nat, key: K)
    requires Agree(list, index) && key !in index
    ensures var s := State(Entries(list), mem);
            && !Has(Entries(list), key) && Step(c, s, Op.Find(key)) == Step(c, s, Op.Erase(key)) == s
            && Saved(c, s, Op.Erase(key)) == []
  {
    Located(list, index, key);
    assert [] + Entries(list) == Entries(list);
  }

  class Cache<K(==), V> {
    const config: Config<V>
    var list: seq<Node<K, V>>
    var index: map<K, Node<K, V>>
    var memInBytes: nat

    ghost predicate Valid()
      reads this
    {
      Agree(list, index)
    }

    ghost function Value(): State<K, V>
      reads this
    {
      State(Entries(list), memInBytes)
    }

    constructor (config: Config<V>)
      ensures Valid() && this.config == config && Value() == Run<K, V>(config, [])
    {
      this.config := config;
      list, index, memInBytes := [], map[], 0;
    }

    /** `saved` lists the calls of the save callback.  List and index agree afterwards exactly when the key
        was absent, or evicted. */
    method Insert(key: K, value: V) returns (saved: seq<Entry<K, V>>)
      requires Valid()
      modifies this
      ensures Value() == Step(config, old(Value()), Op.Insert(key, value))
      ensures saved == Saved(config, old(Value()), Op.Insert(key, value))
      ensures Valid() <==> Allowed(config, old(Value()), Op.Insert(key, value))
      ensures saved != [] <==> old(memInBytes) + config.sizeOf(value) > config.budget && old(list) != []
      ensures |list| > 0 && fresh(list[0]) && list[0].key == key && list[0].value == value
      ensures saved == [] ==> list[1..] == old(list)
      ensures saved != [] ==>
                && old(list) != [] && list[1..] == old(list)[..|old(list)| - 1]
                && saved == [Entry(old(list)[|old(list)| - 1].key, old(list)[|old(list)| - 1].value)]
      ensures forall k :: k in index <==>
                k == key || (k in old(index) && !(saved != [] && k == old(list)[|old(list)| - 1].key))
      ensures memInBytes == Bytes(config, Entries(list))
    {
      saved := MakeRoom(value);
      var node := new Node(key, value);
      PushFront(node);
      memInBytes := SizeOfSavedElements();
    }

    /** Over the budget, the last node goes, and with it its key. */
    method MakeRoom(value: V) returns (saved: seq<Entry<K, V>>)
      requires Valid()
      modifies this
      ensures Valid() && memInBytes == old(memInBytes) && Entries(list) == Kept(config, old(Value()), value)
      ensures saved == old(Entries(list))[|list|..]
      ensures var over := old(memInBytes) + config.sizeOf(value) > config.budget && old(list) != [];
              if over
              then && saved == [Entry(old(list)[|old(list)| - 1].key, old(list)[|old(list)| - 1].value)]
                   && list == old(list)[..|old(list)| - 1] && index == old(index) - {old(list)[|old(list)| - 1].key}
              else saved == [] && list == old(list) && index == old(index)
    {
      saved := [];
      if memInBytes + config.sizeOf(value) > config.budget && list != [] {
        var last := |list| - 1;
        var toDel := list[last];
        DropAgree(list, index, last);
        assert list[..last] + list[last + 1..] == list[..last];
        list, index := list[..last], index - {toDel.key};
        saved := [Entry(toDel.key, toDel.value)];
      }
    }

    /** The node goes in front; `unordered_map::insert` leaves a key alone that it has already. */
    method PushFront(node: Node<K, V>)
      requires Valid() && node !in list
      modifies this
      ensures Entries(list) == [Entry(node.key, node.value)] + old(Entries(list)) && memInBytes == old(memInBytes)
      ensures Valid() <==> !Has(old(Entries(list)), node.key)
      ensures list == [node] + old(list)
      ensures index == if node.key in old(index) then old(index) else old(index)[node.key := node]
    {
      Located(list, index, node.key);
      Linked(list, index, node);
      list := [node] + list;
      if node.key !in index {
        index := index[node.key := node];
      }
    }

    /** The sizes of the list's values, added up. */
    method SizeOfSavedElements() returns (ret: nat)
      ensures ret == Bytes(config, Entries(list))
    {
      ret := 0;
      var es := Entries(list);
      for i := 0 to |list|
        invariant ret == Bytes(config, es[..i])
      {
        ret := ret + config.sizeOf(list[i].value);
        LastBytes(config, es[..i + 1]);
        assert es[..i + 1][..i] == es[..i];
      }
      assert es[..|list|] == es;
    }

    method Erase(key: K) returns (found: bool, saved: seq<Entry<K, V>>)
      requires Valid()
      modifies this
      ensures Valid() && Value() == Step(config, old(Value()), Op.Erase(key))
      ensures saved == Saved(config, old(Value()), Op.Erase(key)) && (found <==> saved != [])
      ensures found <==> key in old(index)
      ensures index == (if found then old(index) - {key} else old(index)) && memInBytes == old(memInBytes)
      ensures !found ==> saved == [] && list == old(list)
      ensures found ==> saved == [Entry(key, old(index)[key].value)]
      ensures found ==>
                var i := Position(old(Entries(list)), key);
                i < |old(list)| && list == old(list)[..i] + old(list)[i + 1..]
      ensures forall n :: n in list ==> n.key != key
    {
      found, saved := false, [];
      if key in index {
        EraseStep(config, list, index, memInBytes, key);
        var i := Position(Entries(list), key);
        found, saved := true, [Entry(key, index[key].value)];
        list, index := list[..i] + list[i + 1..], index - {key};
      } else {
        AbsentStep(config, list, index, memInBytes, key);
      }
      Gone(list, index, key);
    }

    /** Finding a key makes it the most recent one. */
    method Find(key: K) returns (node: Option<Node<K, V>>)
      requires Valid()
      modifies `list
      ensures Valid() && index == old(index) && Value() == Step(config, old(Value()), Op.Find(key))
      ensures node == if Has(old(Entries(list)), key) then Some(list[0]) else None
      ensures node.Some? ==> list[0] == index[key]
      ensures node == if key in index then Some(index[key]) else None
      ensures key !in index ==> list == old(list)
      ensures memInBytes == old(memInBytes)
      ensures key in index ==>
                var i := Position(old(Entries(list)), key);
                i < |old(list)| && list == [old(list)[i]] + (old(list)[..i] + old(list)[i + 1..])
    {
      node := None;
      if key in index {
        FindStep(config, list, index, memInBytes, key);
        var i := Position(Entries(list), key);
        node := Some(list[i]);
        list := [list[i]] + (list[..i] + list[i + 1..]);
      } else {
        AbsentStep(config, list, index, memInBytes, key);
      }
    }

    method Contains(key: K) returns (found: bool)
      requires Valid()
      modifies this
      ensures Valid() && Value() == Step(config, old(Value()), Op.Find(key))
      ensures found <==> Has(old(Entries(list)), key)
      ensures index == old(index) && (found <==> key in index)
    {
      var node := Find(key);
      found := node.Some?;
    }

    /** Both containers have the same size. */
    method Size() returns (n: nat)
      requires Valid()
      ensures n == |list| == |index|
    {
      AgreeDistinct(list, index);
      n := |list|;
    }
  }
}
