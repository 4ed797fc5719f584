/** combinations.hpp: all R-element subsets of 0..N-1, one after the other. */
module CombinationsModule {

  /** Strictly increasing, with elements from `lo` to N-1. */
  predicate IsCombo(c: seq<int>, lo: int, N: int)
  {
    && (forall i :: 0 <= i < |c| ==> lo <= c[i] < N)
    && (forall i, j :: 0 <= i < j < |c| ==> c[i] < c[j])
  }

  predicate LexLess(c: seq<int>, d: seq<int>)
  {
    c != [] && d != [] && (c[0] < d[0] || (c[0] == d[0] && LexLess(c[1..], d[1..])))
  }

  /** `i` is the first position at which the tuples differ, and `c` has the smaller element there. */
  predicate SmallerAt(c: seq<int>, d: seq<int>, i: nat)
  {
    i < |c| && i < |d| && c[..i] == d[..i] && c[i] < d[i]
  }

  lemma {:induction false} LexMeaning(c: seq<int>, d: seq<int>)
    ensures LexLess(c, d) <==> exists i: nat :: SmallerAt(c, d, i)
    decreases |c|
  {
    if c != [] && d != [] {
      LexMeaning(c[1..], d[1..]);
      if i: nat :| SmallerAt(c, d, i) {
        if i > 0 {
          assert c[0] == c[..i][0] && d[0] == d[..i][0];
          assert c[1..][..i - 1] == c[..i][1..] && d[1..][..i - 1] == d[..i][1..];
          assert SmallerAt(c[1..], d[1..], i - 1);
        }
      }
      if LexLess(c, d) && c[0] == d[0] {
        var i: nat :| SmallerAt(c[1..], d[1..], i);
        assert c[..i + 1] == [c[0]] + c[1..][..i] && d[..i + 1] == [d[0]] + d[1..][..i];
        assert SmallerAt(c, d, i + 1);
      }
      if c[0] < d[0] { assert SmallerAt(c, d, 0); }
    }
  }

  /** The number of k-element subsets of n elements. */
  function Choose(n: nat, k: nat): nat
  {
    if k == 0 then 1 else if n == 0 then 0 else Choose(n - 1, k - 1) + Choose(n - 1, k)
  }

  /** How many combinations of the same length come before `c`. */
  function Rank(c: seq<int>, lo: int, N: int): nat
    requires IsCombo(c, lo, N)
    decreases N - lo
  {
    if c == [] then 0
    else if c[0] == lo then Rank(c[1..], lo + 1, N)
    else Choose(N - lo - 1, |c| - 1) + Rank(c, lo + 1, N)
  }

  lemma {:induction false} RankBound(c: seq<int>, lo: int, N: int)
    requires IsCombo(c, lo, N) && lo <= N
    ensures Rank(c, lo, N) < Choose(N - lo, |c|)
    decreases N - lo
  {
    if c != [] {
      if c[0] == lo { RankBound(c[1..], lo + 1, N); } else { RankBound(c, lo + 1, N); }
    }
  }

  /** The rank decides the lexicographic order, and determines the combination. */
  lemma {:induction false} RankOrder(c: seq<int>, d: seq<int>, lo: int, N: int)
    requires IsCombo(c, lo, N) && IsCombo(d, lo, N) && |c| == |d|
    ensures Rank(c, lo, N) < Rank(d, lo, N) <==> LexLess(c, d)
    ensures Rank(c, lo, N) == Rank(d, lo, N) <==> c == d
    decreases N - lo
  {
    if c != [] {
      if c[0] == lo && d[0] == lo {
        RankOrder(c[1..], d[1..], lo + 1, N);
        assert c == [lo] + c[1..] && d == [lo] + d[1..];
      } else if c[0] == lo {
        RankBound(c[1..], lo + 1, N);
      } else if d[0] == lo {
        RankBound(d[1..], lo + 1, N);
      } else {
        RankOrder(c, d, lo + 1, N);
      }
    }
  }

  /** `k` consecutive numbers from `v` on. */
  function From(v: int, k: nat): seq<int>
  {
    seq(k, i => v + i)
  }

  lemma {:induction false} FirstRank(lo: int, k: nat, N: int)
    requires lo + k <= N
    ensures IsCombo(From(lo, k), lo, N) && Rank(From(lo, k), lo, N) == 0
    decreases k
  {
    if k > 0 {
      assert From(lo, k)[1..] == From(lo + 1, k - 1);
      FirstRank(lo + 1, k - 1, N);
    }
  }

  lemma {:induction false} LastRank(lo: int, k: nat, N: int)
    requires lo + k <= N
    ensures IsCombo(From(N - k, k), lo, N) && Rank(From(N - k, k), lo, N) == Choose(N - lo, k) - 1
    decreases N - lo
  {
    if k > 0 {
      if N - k == lo {
        assert From(N - k, k)[1..] == From(N - k + 1, k - 1);
        LastRank(lo + 1, k - 1, N);
        ChooseTooMany(N - lo - 1, k);
      } else {
        LastRank(lo + 1, k, N);
      }
    }
  }

  lemma {:induction false} ChooseTooMany(n: nat, k: nat)
    requires n < k
    ensures Choose(n, k) == 0
  {
    if n > 0 {
      ChooseTooMany(n - 1, k - 1);
      ChooseTooMany(n - 1, k);
    }
  }

  /** The element after which everything is at its maximum moves up by one, and its successors follow. */
  function Advance(c: seq<int>, i: nat): (d: seq<int>)
    requires i < |c|
    ensures |d| == |c|
  {
    c[..i] + From(c[i] + 1, |c| - i)
  }

  /** Everything behind position i is as large as it can be, and position i is not. */
  predicate CanAdvance(c: seq<int>, i: nat, N: int)
  {
    && i < |c| && c[i] < N - |c| + i
    && forall j :: i < j < |c| ==> c[j] == N - |c| + j
  }

  /** Advancing gives the next combination in the order: the rank grows by exactly one. */
  lemma {:induction false} AdvanceRank(c: seq<int>, i: nat, lo: int, N: int)
    requires IsCombo(c, lo, N) && CanAdvance(c, i, N)
    ensures IsCombo(Advance(c, i), lo, N)
    ensures Rank(Advance(c, i), lo, N) == Rank(c, lo, N) + 1
    decreases N - lo
  {
    if c[0] > lo {
      Skip(c, lo, N);
      AdvanceRank(c, i, lo + 1, N);
      Skip(Advance(c, i), lo, N);
    } else if i > 0 {
      Head(c, lo, N);
      AdvanceShift(c, i, N);
      AdvanceRank(c[1..], i - 1, lo + 1, N);
      Head(Advance(c, i), lo, N);
    } else {
      AdvanceFirst(c, lo, N);
    }
  }

  lemma AdvanceShift(c: seq<int>, i: nat, N: int)
    requires CanAdvance(c, i, N) && i > 0
    ensures CanAdvance(c[1..], i - 1, N)
    ensures Advance(c, i)[0] == c[0] && Advance(c, i)[1..] == Advance(c[1..], i - 1)
  {
    assert forall j :: i - 1 < j < |c[1..]| ==> c[1..][j] == c[j + 1];
  }

  lemma AdvanceFirst(c: seq<int>, lo: int, N: int)
    requires IsCombo(c, lo, N) && CanAdvance(c, 0, N) && c[0] == lo
    ensures IsCombo(Advance(c, 0), lo, N) && Rank(Advance(c, 0), lo, N) == Rank(c, lo, N) + 1
  {
    Head(c, lo, N);
    LastTail(c, N);
    LastRank(lo + 1, |c| - 1, N);
    FirstAdvanced(c, lo);
    FirstRank(lo + 1, |c|, N);
    Skip(Advance(c, 0), lo, N);
  }

  lemma FirstAdvanced(c: seq<int>, lo: int)
    requires c != [] && c[0] == lo
    ensures Advance(c, 0) == From(lo + 1, |c|)
  {
  }

  lemma LastTail(c: seq<int>, N: int)
    requires CanAdvance(c, 0, N)
    ensures c[1..] == From(N - (|c| - 1), |c| - 1)
  {
  }

  /** A combination that begins at `lo` is ranked like its rest. */
  lemma Head(d: seq<int>, lo: int, N: int)
    requires d != [] && d[0] == lo < N && (IsCombo(d[1..], lo + 1, N) || IsCombo(d, lo, N))
    ensures IsCombo(d, lo, N) && IsCombo(d[1..], lo + 1, N) && Rank(d, lo, N) == Rank(d[1..], lo + 1, N)
  {
    assert forall j :: 0 < j < |d| ==> d[j] == d[1..][j - 1];
  }

  /** One that begins later comes after all that begin at `lo`. */
  lemma Skip(d: seq<int>, lo: int, N: int)
    requires d != [] && d[0] > lo && (IsCombo(d, lo + 1, N) || IsCombo(d, lo, N))
    ensures IsCombo(d, lo, N) && IsCombo(d, lo + 1, N)
    ensures Rank(d, lo, N) == Choose(N - lo - 1, |d| - 1) + Rank(d, lo + 1, N)
  {
  }

  class Combinations {
    var completed: bool
    var generated: int
    const N: int
    const R: int
    const curr: array<int>

    /** The length of the tuples: a negative R gives empty ones. */
    function Size(): nat
    {
      if R < 0 then 0 else R
    }

    /** The buffer has a slot behind the tuple: the rewriting loop of `next` runs one index too far. */
    ghost predicate Valid()
      reads this, curr
    {
      && curr.Length == Size() + 1
      && (!completed ==> N >= 1 && R <= N)
      && (N >= 1 && R <= N ==> IsCombo(curr[..Size()], 0, N))
      && (R > N ==> forall i :: 0 <= i < R ==> curr[i] == i)
    }

    constructor (nN: int, nR: int)
      ensures Valid() && fresh(curr) && N == nN && R == nR
      ensures completed <==> nN < 1 || nR > nN
      ensures generated == 0 && curr[..Size()] == From(0, Size())
    {
      completed := nN < 1 || nR > nN;
      generated := 0;
      N, R := nN, nR;
      var size := if nR < 0 then 0 else nR;
      var a := new int[size + 1];
      for c := 0 to size
        invariant forall k :: 0 <= k < c ==> a[k] == k
      {
        a[c] := c;
      }
      curr := a;
      new;
      assert curr[..Size()] == From(0, Size());
    }

    /** Returns the current tuple and moves on to the next one, or reports that there is none. */
    method Next() returns (ret: seq<int>)
      requires Valid()
      modifies this, curr
      ensures Valid() && ret == old(curr[..Size()])
      ensures completed ==> curr[..Size()] == ret && generated == old(generated)
      ensures completed && 1 <= N && R <= N ==> ret == From(N - Size(), Size())
      ensures !completed ==> generated == old(generated) + 1
      ensures !completed ==> exists i :: CanAdvance(ret, i, N) && curr[..Size()] == Advance(ret, i)
    {
      ret := curr[..Size()];
      completed := true;
      var i := R - 1;
      while i >= 0
        invariant (-1 <= i || i == R - 1) && i < R && completed && generated == old(generated) && curr[..Size()] == ret
        invariant curr[..] == old(curr[..])
        invariant forall j :: i < j < R ==> ret[j] >= N - R + j
        decreases i
      {
        if curr[i] < N - R + i {
          AtMaximum(ret, i, N);
          Rewrite(i);
          completed := false;
          generated := generated + 1;
          assert CanAdvance(ret, i, N);
          AdvanceRank(ret, i, 0, N);
          return;
        }
        i := i - 1;
      }
      if 1 <= N && R <= N && R > 0 {
        AtMaximum(ret, -1, N);
        assert ret == From(N - Size(), Size());
      }
    }

    /** From position i0 on, write consecutive numbers, up to and including the slot behind the tuple. */
    method Rewrite(i0: nat)
      requires curr.Length == Size() + 1 && i0 < R
      modifies curr
      ensures curr[..Size()] == Advance(old(curr[..Size()]), i0)
    {
      var i, j := i0, curr[i0] + 1;
      while i <= R
        invariant i0 <= i <= R + 1 && j == old(curr[i0]) + 1 + (i - i0)
        invariant forall k :: 0 <= k < i0 ==> curr[k] == old(curr[k])
        invariant forall k :: i0 <= k < i ==> curr[k] == old(curr[i0]) + 1 + (k - i0)
      {
        curr[i] := j;
        i, j := i + 1, j + 1;
      }
    }
  }

  /** An increasing tuple cannot exceed its maxima, so what has reached them equals them. */
  lemma AtMaximum(c: seq<int>, i: int, N: int)
    requires -1 <= i < |c|
    requires IsCombo(c, 0, N) && forall j :: i < j < |c| ==> c[j] >= N - |c| + j
    ensures forall j :: i < j < |c| ==> c[j] == N - |c| + j
  {
    forall j | i < j < |c|
      ensures c[j] == N - |c| + j
    {
      Room(c, j, N);
    }
  }

  lemma {:induction false} Room(c: seq<int>, j: nat, N: int)
    requires IsCombo(c, 0, N) && j < |c|
    ensures c[j] <= N - |c| + j
    decreases |c| - j
  {
    if j + 1 < |c| { Room(c, j + 1, N); }
  }

  /** Calling `next` until `completed` gives every combination exactly once, in lexicographic order, and
      leaves `generated` one below their number. */
  method EnumerateAll(N: int, R: nat) returns (out: seq<seq<int>>, generated: int)
    requires 1 <= N && R <= N
    ensures |out| == Choose(N, R) && generated == Choose(N, R) - 1
    ensures forall k :: 0 <= k < |out| ==> |out[k]| == R && IsCombo(out[k], 0, N)
    ensures forall c :: |c| == R && IsCombo(c, 0, N) ==> c in out
    ensures forall j, k :: 0 <= j < k < |out| ==> LexLess(out[j], out[k])
  {
    var cs := new Combinations(N, R);
    FirstRank(0, R, N);
    out := [];
    while !cs.completed
      invariant cs.Valid() && fresh(cs) && fresh(cs.curr) && cs.N == N && cs.R == R
      invariant forall k :: 0 <= k < |out| ==> |out[k]| == R && IsCombo(out[k], 0, N) && Rank(out[k], 0, N) == k
      invariant !cs.completed ==> Rank(cs.curr[..cs.Size()], 0, N) == |out| && cs.generated == |out|
      invariant cs.completed ==> |out| == Choose(N, R) && cs.generated == |out| - 1
      decreases Choose(N, R) - |out|, !cs.completed
    {
      RankBound(cs.curr[..cs.Size()], 0, N);
      var c := cs.Next();
      out := out + [c];
      if cs.completed {
        LastRank(0, R, N);
      } else {
        var i :| CanAdvance(c, i, N) && cs.curr[..cs.Size()] == Advance(c, i);
        AdvanceRank(c, i, 0, N);
      }
    }
    generated := cs.generated;
    forall c | |c| == R && IsCombo(c, 0, N)
      ensures c in out
    {
      RankBound(c, 0, N);
      RankOrder(c, out[Rank(c, 0, N)], 0, N);
    }
    forall j, k | 0 <= j < k < |out|
      ensures LexLess(out[j], out[k])
    {
      RankOrder(out[j], out[k], 0, N);
    }
  }
}
