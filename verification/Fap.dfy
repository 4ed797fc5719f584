/** The flat map of fap.hpp: pairs in a `Fector`, kept in strictly increasing order of their keys. */
module Faps {
  import opened Fectors

  type Compare<!K> = (K, K) -> bool

  ghost predicate Irreflexive<K(!new)>(less: Compare<K>)
  {
    forall a :: !less(a, a)
  }

  /** The order is strict and total, as `std::less` is. */
  ghost predicate Total<K(!new)>(less: Compare<K>)
  {
    && Irreflexive(less)
    && (forall a, b :: less(a, b) || a == b || less(b, a))
    && (forall a, b, c :: less(a, b) && less(b, c) ==> less(a, c))
  }

  ghost predicate Sorted<K, V>(less: Compare<K>, s: seq<(K, V)>)
  {
    forall i, j :: 0 <= i < j < |s| ==> less(s[i].0, s[j].0)
  }

  /** The finite map that a sequence of pairs stands for. */
  ghost function AsMap<K(!new), V>(s: seq<(K, V)>): map<K, V>
  {
    map k | k in Keys(s) :: s[IndexOf(s, k)].1
  }

  function Keys<K(!new), V>(s: seq<(K, V)>): (ks: set<K>)
    ensures forall k :: k in ks <==> exists i :: 0 <= i < |s| && s[i].0 == k
  {
    set i | 0 <= i < |s| :: s[i].0
  }

  ghost function IndexOf<K(!new), V>(s: seq<(K, V)>, k: K): (i: nat)
    requires k in Keys(s)
    ensures i < |s| && s[i].0 == k
  {
    var i :| 0 <= i < |s| && s[i].0 == k;
    i
  }

  /** Where a binary search for `k` ends: smaller keys before, no smaller ones from there on. */
  ghost predicate LowerBound<K, V>(less: Compare<K>, s: seq<(K, V)>, k: K, p: nat)
  {
    && p <= |s|
    && (forall i :: 0 <= i < p ==> less(s[i].0, k))
    && (forall i :: p <= i < |s| ==> !less(s[i].0, k))
  }

  /** In a sorted sequence every pair is the value of its key. */
  lemma AsMapAt<K(!new), V>(less: Compare<K>, s: seq<(K, V)>, i: nat)
    requires Irreflexive(less) && Sorted(less, s) && i < |s|
    ensures s[i].0 in AsMap(s) && AsMap(s)[s[i].0] == s[i].1
  {
    var j := IndexOf(s, s[i].0);
    assert !less(s[i].0, s[j].0) && !less(s[j].0, s[i].0);
  }

  /** Two sorted sequences stand for one map only if they are equal: size and order carry no more than the map. */
  lemma {:induction false} AsMapInjective<K(!new), V>(less: Compare<K>, s: seq<(K, V)>, t: seq<(K, V)>)
    requires Total(less) && Sorted(less, s) && Sorted(less, t) && AsMap(s) == AsMap(t)
    ensures s == t
    decreases |s|
  {
    if s == [] {
      if t != [] {
        AsMapAt(less, t, 0);
      }
    } else if t == [] {
      AsMapAt(less, s, 0);
    } else {
      SameHead(less, s, t);
      DropHead(less, s);
      DropHead(less, t);
      AsMapInjective(less, s[1..], t[1..]);
      assert s == [s[0]] + s[1..] && t == [t[0]] + t[1..];
    }
  }

  lemma SameHead<K(!new), V>(less: Compare<K>, s: seq<(K, V)>, t: seq<(K, V)>)
    requires Total(less) && Sorted(less, s) && Sorted(less, t) && AsMap(s) == AsMap(t) && s != [] && t != []
    ensures s[0] == t[0]
  {
    AsMapAt(less, s, 0);
    AsMapAt(less, t, 0);
    var i, j := IndexOf(t, s[0].0), IndexOf(s, t[0].0);
    assert s[0].0 == t[0].0;
  }

  lemma DropHead<K(!new), V>(less: Compare<K>, s: seq<(K, V)>)
    requires Irreflexive(less) && Sorted(less, s) && s != []
    ensures Sorted(less, s[1..]) && AsMap(s[1..]) == AsMap(s) - {s[0].0}
  {
    ErasePair(less, s, 0);
    assert Erased(s, 0, 1) == s[1..];
  }

  lemma InsertSorted<K(!new), V>(less: Compare<K>, s: seq<(K, V)>, p: nat, k: K, v: V)
    requires Total(less) && Sorted(less, s) && LowerBound(less, s, k, p) && (p < |s| ==> s[p].0 != k)
    ensures Sorted(less, Inserted(s, p, (k, v)))
    ensures forall i :: 0 <= i < |s| ==> s[i].0 != k
  {
    var t := Inserted(s, p, (k, v));
    assert p < |s| ==> less(k, s[p].0);
    assert forall i :: p <= i < |s| ==> less(k, s[i].0);
    assert forall i :: 0 <= i < |t| ==> t[i] == if i < p then s[i] else if i == p then (k, v) else s[i - 1];
  }

  /** A new key at its lower bound: the order is kept, and the map gains that pair. */
  lemma InsertPair<K(!new), V>(less: Compare<K>, s: seq<(K, V)>, p: nat, k: K, v: V)
    requires Total(less) && Sorted(less, s) && LowerBound(less, s, k, p) && (p < |s| ==> s[p].0 != k)
    ensures k !in AsMap(s)
    ensures Sorted(less, Inserted(s, p, (k, v))) && AsMap(Inserted(s, p, (k, v))) == AsMap(s)[k := v]
  {
    InsertSorted(less, s, p, k, v);
    Spliced(less, s, p, (k, v));
  }

  /** What a splice of a pair with a new key does to the map. */
  lemma Spliced<K(!new), V>(less: Compare<K>, s: seq<(K, V)>, p: nat, x: (K, V))
    requires Irreflexive(less) && Sorted(less, s) && p <= |s| && Sorted(less, Inserted(s, p, x)) && x.0 !in AsMap(s)
    ensures AsMap(Inserted(s, p, x)) == AsMap(s)[x.0 := x.1]
  {
    var t := Inserted(s, p, x);
    AsMapAt(less, t, p);
    assert t[p] == x;
    forall j ensures j in AsMap(t) <==> j in AsMap(s) || j == x.0
    {
      InsertKey(s, p, x, j);
    }
    forall j | j in AsMap(s) ensures AsMap(t)[j] == AsMap(s)[j]
    {
      SplicedAt(less, s, p, x, j);
    }
  }

  lemma SplicedAt<K(!new), V>(less: Compare<K>, s: seq<(K, V)>, p: nat, x: (K, V), j: K)
    requires Irreflexive(less) && Sorted(less, s) && p <= |s| && Sorted(less, Inserted(s, p, x)) && j in AsMap(s)
    ensures j in AsMap(Inserted(s, p, x)) && AsMap(Inserted(s, p, x))[j] == AsMap(s)[j]
  {
    var i := IndexOf(s, j);
    var at := if i < p then i else i + 1;
    assert Inserted(s, p, x)[at] == s[i];
    AsMapAt(less, Inserted(s, p, x), at);
  }

  lemma InsertKey<K(!new), V>(s: seq<(K, V)>, p: nat, x: (K, V), j: K)
    requires p <= |s|
    ensures j in Keys(Inserted(s, p, x)) <==> j in Keys(s) || j == x.0
  {
    var t := Inserted(s, p, x);
    if j in Keys(t) {
      var i := IndexOf(t, j);
      assert j == x.0 || s[if i < p then i else i - 1].0 == j;
    }
    if j in Keys(s) {
      var i := IndexOf(s, j);
      assert t[if i < p then i else i + 1].0 == j;
    }
    assert t[p] == x;
  }

  lemma EraseSorted<K(!new), V>(less: Compare<K>, s: seq<(K, V)>, p: nat)
    requires Irreflexive(less) && Sorted(less, s) && p < |s|
    ensures Sorted(less, Erased(s, p, 1)) && s[p].0 !in AsMap(Erased(s, p, 1))
  {
    var t := Erased(s, p, 1);
    assert forall i :: 0 <= i < |t| ==> t[i] == s[if i < p then i else i + 1];
    forall i | 0 <= i < |t| ensures t[i].0 != s[p].0 {
      assert if i < p then less(t[i].0, s[p].0) else less(s[p].0, t[i].0);
    }
  }

  /** Erasing one pair: the order is kept, and the map loses that key. */
  lemma ErasePair<K(!new), V>(less: Compare<K>, s: seq<(K, V)>, p: nat)
    requires Irreflexive(less) && Sorted(less, s) && p < |s|
    ensures Sorted(less, Erased(s, p, 1)) && AsMap(Erased(s, p, 1)) == AsMap(s) - {s[p].0}
  {
    var t, x := Erased(s, p, 1), s[p];
    EraseSorted(less, s, p);
    InsertErase(s, p);
    Unspliced(less, t, p, x, s);
  }

  lemma Unspliced<K(!new), V>(less: Compare<K>, t: seq<(K, V)>, p: nat, x: (K, V), s: seq<(K, V)>)
    requires Irreflexive(less) && Sorted(less, t) && p <= |t| && Sorted(less, s) && s == Inserted(t, p, x)
    requires x.0 !in AsMap(t)
    ensures AsMap(t) == AsMap(s) - {x.0}
  {
    Spliced(less, t, p, x);
    var m, n := AsMap(t), AsMap(s);
    assert n == m[x.0 := x.1];
  }

  /** The lower bound decides membership. */
  lemma FoundAtBound<K(!new), V>(less: Compare<K>, s: seq<(K, V)>, k: K, p: nat)
    requires Total(less) && Sorted(less, s) && LowerBound(less, s, k, p)
    ensures k in AsMap(s) <==> p < |s| && s[p].0 == k
    ensures p < |s| ==> (s[p].0 == k <==> !less(k, s[p].0))
    ensures k in AsMap(s) ==> AsMap(s)[k] == s[p].1
  {
    if k in AsMap(s) {
      var i := IndexOf(s, k);
      assert p <= i && !less(s[p].0, k);
      AsMapAt(less, s, i);
    }
    if p < |s| && s[p].0 == k {
      assert k in Keys(s);
    }
  }

  /** What a caller expects of a search: the pair of the key, or the end. */
  ghost predicate Right<K(!new), V>(s: seq<(K, V)>, k: K, p: nat)
  {
    if k in AsMap(s) then p < |s| && s[p] == (k, AsMap(s)[k]) else p == |s|
  }

  /** The search ends at a lower bound, and the test after it is always passed.  So the answer is right exactly
      for a key that is present, or above all keys. */
  lemma FindRight<K(!new), V>(less: Compare<K>, s: seq<(K, V)>, k: K, p: nat)
    requires Total(less) && Sorted(less, s) && LowerBound(less, s, k, p)
    ensures p < |s| ==> !less(s[p].0, k)
    ensures Right(s, k, p) <==> k in AsMap(s) || forall j :: j in AsMap(s) ==> less(j, k)
  {
    FoundAtBound(less, s, k, p);
    if p == |s| {
      forall j | j in AsMap(s) ensures less(j, k) {
        var i := IndexOf(s, j);
      }
    } else {
      AsMapAt(less, s, p);
    }
  }

  /** The search for 3 among the keys 5 and 7 answers with the pair of 5. */
  lemma FindAbsent()
    ensures var s := [(5, 0), (7, 1)];
            LowerBound((a: int, b: int) => a < b, s, 3, 0) && 3 !in AsMap(s) && !Right(s, 3, 0)
  {
    var s := [(5, 0), (7, 1)];
    assert s[0] == (5, 0) && s[1] == (7, 1);
    assert 3 !in Keys(s);
  }

  class Fap<K(0, ==, !new), V(0)> {
    const less: Compare<K>
    const items: Fector<(K, V)>

    ghost predicate Valid()
      reads this, items, items.dataT
    {
      items.Valid() && Total(less) && Sorted(less, items.Contents())
    }

    ghost function Map(): map<K, V>
      reads this, items, items.dataT
      requires Valid()
    {
      AsMap(items.Contents())
    }

    constructor (less: Compare<K>, capacity: nat)
      requires Total(less)
      ensures Valid() && this.less == less && items.capacity == capacity && Map() == map[]
      ensures fresh(items) && fresh(items.dataT)
    {
      this.less := less;
      items := new Fector(capacity);
    }

    /** `std::lower_bound` on the keys. */
    method Bound(k: K) returns (p: nat)
      requires Valid()
      ensures LowerBound(less, items.Contents(), k, p)
    {
      ghost var s := items.Contents();
      var lo, hi := 0, items.idx;
      while lo < hi
        invariant lo <= hi <= |s|
        invariant forall i :: 0 <= i < lo ==> less(s[i].0, k)
        invariant forall i :: hi <= i < |s| ==> !less(s[i].0, k)
      {
        var mid := (lo + hi) / 2;
        assert items.dataT[mid] == s[mid];
        if less(items.dataT[mid].0, k) {
          lo := mid + 1;
        } else {
          hi := mid;
        }
      }
      p := lo;
    }

    /** Never overwrites; `novel` says whether the key was new.  A full map throws on a key above all others. */
    method Insert(k: K, v: V) returns (p: nat, novel: bool, ok: bool)
      requires Valid()
      requires items.idx < items.capacity || k in Map() || forall j :: j in Map() ==> less(j, k)
      modifies items, items.dataT
      ensures Valid() && ok == (old(items.idx) < items.capacity || k in old(Map()))
      ensures novel == (ok && k !in old(Map()))
      ensures Map() == if novel then old(Map())[k := v] else old(Map())
      ensures ok ==> p < items.idx && items.dataT[p].0 == k
    {
      ghost var s := items.Contents();
      p := Bound(k);
      FoundAtBound(less, s, k, p);
      ok, novel := true, false;
      if p == items.idx {
        InsertPair(less, s, p, k, v);
        assert Inserted(s, p, (k, v)) == s + [(k, v)];
        ok := items.PushBack((k, v));
        novel := ok;
      } else if items.dataT[p].0 != k {
        InsertPair(less, s, p, k, v);
        FullBelow(s, p, k);
        p := items.Insert(p, (k, v));
        novel := true;
        assert items.dataT[p] == items.Contents()[p];
      }
    }

    /** In front of a larger key, the map is not full. */
    lemma FullBelow(s: seq<(K, V)>, p: nat, k: K)
      requires Total(less) && Sorted(less, s) && LowerBound(less, s, k, p) && p < |s| && k !in AsMap(s)
      ensures s[p].0 in AsMap(s) && !less(s[p].0, k)
    {
      AsMapAt(less, s, p);
    }

    /** Where the search ends, whether or not the key is there; see `FindRight`. */
    method Find(k: K) returns (p: nat)
      requires Valid()
      ensures LowerBound(less, items.Contents(), k, p)
    {
      p := Bound(k);
      if p != items.idx && less(items.dataT[p].0, k) {
        p := items.idx;
      }
    }

    /** Erases the pair at `p`; at the end, the last pair goes. */
    method Erase(p: nat)
      requires Valid() && p <= items.idx && 0 < items.idx
      modifies items, items.dataT
      ensures Valid()
      ensures var s := old(items.Contents()); var gone := if p < |s| then p else |s| - 1;
              items.Contents() == Erased(s, gone, 1) && Map() == old(Map()) - {s[gone].0}
    {
      ghost var s := items.Contents();
      ErasePair(less, s, if p < |s| then p else |s| - 1);
      items.Erase(p, 1);
    }
  }
}
