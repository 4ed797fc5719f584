/** The fixed-capacity vector of fector.hpp: a buffer of `capacity` slots, of which the first `idx` are in use. */
module Fectors {

  /** The elements after an insertion in front of position `p`. */
  function Inserted<T>(s: seq<T>, p: nat, v: T): seq<T>
    requires p <= |s|
  {
    s[..p] + [v] + s[p..]
  }

  /** The elements after an erasure of `n` from position `p` on; when fewer are left there, the last `n` go. */
  function Erased<T>(s: seq<T>, p: nat, n: nat): seq<T>
    requires p <= |s| && n <= |s|
  {
    if p + n <= |s| then s[..p] + s[p + n..] else s[..|s| - n]
  }

  /** Where the elements go: behind position `p` they move up by one, and an erasure brings those behind the erased
      ones down by `n`.  Where fewer than `n` elements are left behind `p`, nothing moves and the last `n` go. */
  lemma PositionsOf<T>(s: seq<T>, p: nat, v: T, n: nat)
    requires p <= |s| && n <= |s|
    ensures |Inserted(s, p, v)| == |s| + 1 && |Erased(s, p, n)| == |s| - n
    ensures forall j :: 0 <= j <= |s| ==> Inserted(s, p, v)[j] == if j < p then s[j] else if j == p then v else s[j - 1]
    ensures forall j :: 0 <= j < |s| - n ==> Erased(s, p, n)[j] == s[if j < p || p + n > |s| then j else j + n]
  {
  }

  /** One erases what the other inserts. */
  lemma EraseInsert<T>(s: seq<T>, p: nat, v: T)
    requires p <= |s|
    ensures Erased(Inserted(s, p, v), p, 1) == s
  {
    assert Inserted(s, p, v)[..p] == s[..p] && Inserted(s, p, v)[p + 1..] == s[p..];
  }

  lemma InsertErase<T>(s: seq<T>, p: nat)
    requires p < |s|
    ensures Inserted(Erased(s, p, 1), p, s[p]) == s
  {
    assert s == s[..p] + [s[p]] + s[p + 1..];
  }

  class Fector<T(0)> {
    const capacity: nat
    const dataT: array<T>
    var idx: nat

    ghost predicate Valid()
      reads this
    {
      dataT.Length == capacity && idx <= capacity
    }

    ghost function Contents(): (s: seq<T>)
      reads this, dataT
      requires Valid()
      ensures |s| == idx
    {
      dataT[..idx]
    }

    constructor (capacity: nat)
      ensures Valid() && this.capacity == capacity && Contents() == [] && fresh(dataT)
    {
      this.capacity := capacity;
      dataT := new T[capacity];
      idx := 0;
    }

    /** False stands for the exception of a full vector. */
    method PushBack(value: T) returns (ok: bool)
      requires Valid()
      modifies this, dataT
      ensures Valid() && ok == (old(idx) < capacity)
      ensures Contents() == if ok then old(Contents()) + [value] else old(Contents())
    {
      ok := idx < capacity;
      if ok {
        dataT[idx] := value;
        idx := idx + 1;
      }
    }

    method PopBack(size: nat)
      requires Valid() && size <= idx
      modifies this
      ensures Valid() && Contents() == old(Contents())[..old(idx) - size]
    {
      idx := idx - size;
    }

    /** Shrinks, or grows with copies of `value`; beyond the capacity it fills the vector, and then throws. */
    method Resize(cnt: nat, value: T) returns (ok: bool)
      requires Valid()
      modifies this, dataT
      ensures Valid() && ok == (cnt <= capacity)
      ensures var n := if ok then cnt else capacity; var was := old(Contents());
              Contents() == if n <= |was| then was[..n] else was + seq(n - |was|, _ => value)
    {
      ok := true;
      while cnt < idx
        invariant Valid() && idx <= old(idx) && Contents() == old(Contents())[..idx]
        invariant cnt <= old(idx) ==> cnt <= idx
        invariant old(idx) <= cnt ==> idx == old(idx)
      {
        PopBack(1);
      }
      ghost var base := Contents();
      while cnt > idx && ok
        invariant Valid() && |base| <= idx && (ok ==> idx <= cnt || idx == |base|)
        invariant Contents() == base + seq(idx - |base|, _ => value)
        invariant !ok ==> idx == capacity < cnt
        decreases capacity - idx, ok
      {
        ok := PushBack(value);
      }
      assert !ok ==> idx == capacity < cnt;
    }

    /** Moves the tail up by one, from the end; at a position before the end, or into an empty vector. */
    method Insert(it: nat, value: T) returns (p: nat)
      requires Valid() && idx < capacity && (idx == 0 || it < idx)
      modifies this, dataT
      ensures Valid() && p == (if old(idx) == 0 then 0 else it)
      ensures Contents() == Inserted(old(Contents()), p, value)
      ensures idx == old(idx) + 1
      ensures forall j :: 0 <= j < idx ==>
                dataT[j] == if j < p then old(dataT[j]) else if j == p then value else old(dataT[j - 1])
    {
      if idx == 0 {
        var ok := PushBack(value);
        p := 0;
      } else {
        ghost var was := Contents();
        var en := idx;
        dataT[en] := dataT[en - 1];
        en := en - 1;
        while en != it
          invariant it <= en < idx == old(idx) < capacity && Valid()
          invariant forall j :: 0 <= j <= en ==> dataT[j] == was[j]
          invariant forall j :: en < j <= idx ==> dataT[j] == was[j - 1]
        {
          dataT[en] := dataT[en - 1];
          en := en - 1;
        }
        dataT[it] := value;
        idx := idx + 1;
        p := it;
      }
    }

    /** Moves the tail down over the erased elements, and pops as many from the end. */
    method Erase(pos: nat, size: nat)
      requires Valid() && pos <= idx && size <= idx
      modifies this, dataT
      ensures Valid() && Contents() == Erased(old(Contents()), pos, size)
      ensures idx == old(idx) - size
      ensures forall j :: 0 <= j < idx ==>
                dataT[j] == if j < pos || pos + size > old(idx) then old(dataT[j]) else old(dataT[j + size])
    {
      if size != 0 {
        ghost var was := Contents();
        var p, next := pos, pos + size;
        while next < idx
          invariant pos <= p && next == p + size && (next <= idx || p == pos) && idx == old(idx) && Valid()
          invariant forall j :: 0 <= j < pos ==> dataT[j] == was[j]
          invariant forall j :: pos <= j < p ==> dataT[j] == was[j + size]
          invariant forall j :: p <= j < idx ==> dataT[j] == was[j]
        {
          dataT[p] := dataT[next];
          p, next := p + 1, next + 1;
        }
        assert pos + size <= idx ==> p == idx - size;
        assert forall j :: 0 <= j < idx - size ==> dataT[j] == Erased(was, pos, size)[j];
        PopBack(size);
      }
    }
  }
}
