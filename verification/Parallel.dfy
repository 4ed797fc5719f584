/** `find_if` and `mapReduce` of parallelalgo.hpp under every schedule of their threads. */
module Parallel {

  datatype Chunk = Chunk(b: nat, e: nat)

  function Step(n: nat, numThreads: nat): nat
    requires numThreads > 0
  {
    if n / numThreads == 0 then 1 else n / numThreads
  }

  function Min(a: int, b: int): int
  {
    if a < b then a else b
  }

  /** The length of the prefix that the chunks cover. */
  function Covered(n: nat, numThreads: nat): nat
    requires numThreads > 0
  {
    var all := numThreads * Step(n, numThreads);
    Min(n, if all < 0 then 0 else all)
  }

  /** Non-empty chunks, each beginning where the one before ends, from 0 up to `to`. */
  ghost predicate Contiguous(chunks: seq<Chunk>, to: nat)
  {
    && (chunks == [] <==> to == 0)
    && (forall k :: 0 <= k < |chunks| ==> chunks[k].b < chunks[k].e)
    && (forall k :: 0 < k < |chunks| ==> chunks[k - 1].e == chunks[k].b)
    && (chunks != [] ==> chunks[0].b == 0 && chunks[|chunks| - 1].e == to)
  }

  lemma ContiguousSnoc(chunks: seq<Chunk>, to: nat, more: nat)
    requires Contiguous(chunks, to) && more > to
    ensures Contiguous(chunks + [Chunk(to, more)], more)
  {
    var c := chunks + [Chunk(to, more)];
    forall k | 0 < k < |c|
      ensures c[k - 1].e == c[k].b
    {
    }
  }

  /** The common part of both loops that start threads: one chunk of one position for each position when there are
      more threads than positions, and otherwise one chunk of n / numThreads positions for each thread, which leaves
      the remainder of that division uncovered. */
  method Split(n: nat, numThreads: nat) returns (chunks: seq<Chunk>, cur: nat)
    requires numThreads > 0
    ensures cur == if n < numThreads then n else numThreads * (n / numThreads)
    ensures n - cur == if n < numThreads then 0 else n % numThreads
    ensures Contiguous(chunks, cur) && |chunks| == if n < numThreads then n else numThreads
    ensures forall k :: 0 <= k < |chunks| ==>
              chunks[k].e - chunks[k].b == if n < numThreads then 1 else n / numThreads
  {
    var advance := n / numThreads;
    if advance == 0 {
      advance := advance + 1;
    }
    CoverageExact(n, numThreads);
    chunks, cur := Cut(n, numThreads, advance);
  }

  method Cut(n: nat, numThreads: nat, advance: nat) returns (chunks: seq<Chunk>, cur: nat)
    requires numThreads > 0 && advance == Step(n, numThreads)
    ensures cur == |chunks| * advance && |chunks| == if n < numThreads then n else numThreads
    ensures Contiguous(chunks, cur) && forall k :: 0 <= k < |chunks| ==> chunks[k].e - chunks[k].b == advance
  {
    chunks, cur := [], 0;
    var i := 0;
    while i < numThreads && cur != n
      invariant 0 <= i <= numThreads && |chunks| == i
      invariant cur == i * advance && cur <= n && Contiguous(chunks, cur)
      invariant forall k :: 0 <= k < |chunks| ==> chunks[k].e - chunks[k].b == advance
    {
      Within(n, numThreads, i, advance);
      var next := cur + advance;
      ContiguousSnoc(chunks, cur, next);
      chunks := chunks + [Chunk(cur, next)];
      cur, i := next, i + 1;
    }
    CutEnds(n, numThreads, i, advance);
  }

  /** The loop ends with the threads or with the positions. */
  lemma CutEnds(n: nat, t: nat, i: nat, a: nat)
    requires t > 0 && a == Step(n, t) && i <= t && i * a <= n && (i == t || i * a == n)
    ensures i == if n < t then n else t
  {
    StepFits(n, t);
    if n >= t && i < t {
      Distribute(i, t - i, a);
      Monotone(1, t - i, a);
    }
  }

  lemma Monotone(i: nat, j: nat, a: nat)
    requires i <= j
    ensures i * a <= j * a
  {
    Distribute(j - i, i, a);
  }

  lemma Distribute(i: nat, j: nat, a: nat)
    ensures (i + j) * a == i * a + j * a && i * a >= 0
  {
  }

  lemma StepFits(n: nat, t: nat)
    requires t > 0
    ensures t * (n / t) <= n < t * (n / t) + t
  {
  }

  /** The size of the chunks and what they cover: all of a range shorter than the number of threads, and otherwise
      all but the remainder.  So the whole range is covered exactly when the number of threads divides its length or
      exceeds it. */
  lemma CoverageExact(n: nat, numThreads: nat)
    requires numThreads > 0
    ensures Step(n, numThreads) == if n < numThreads then 1 else n / numThreads
    ensures Covered(n, numThreads) == if n < numThreads then n else numThreads * (n / numThreads)
    ensures Covered(n, numThreads) == if n < numThreads then n else n - n % numThreads
    ensures Covered(n, numThreads) == n <==> n % numThreads == 0 || n < numThreads
  {
    StepFits(n, numThreads);
    if n < numThreads { assert n / numThreads == 0; } else { QuotientPositive(n, numThreads); }
  }

  lemma Zero(t: int, q: int)
    ensures q == 0 ==> t * q == 0
  {
  }

  lemma QuotientPositive(n: nat, t: nat)
    requires 0 < t <= n
    ensures n / t > 0
  {
    StepFits(n, t);
    Zero(t, n / t);
  }

  /** One more chunk never passes the end. */
  lemma Within(n: nat, t: nat, i: nat, a: nat)
    requires t > 0 && a == Step(n, t) && i < t && i * a < n
    ensures a > 0 && i * a + a <= n && (i + 1) * a == i * a + a
  {
    StepFits(n, t);
    Distribute(i, 1, a);
    if n / t > 0 { Monotone(i + 1, t, a); }
  }

  // ---- find_if ----

  /** One searching thread: about to test the loop condition, to call the predicate, to store the position,
      to raise the flag, or finished. */
  datatype Finder = Test(at: nat) | Check(at: nat) | Store(at: nat) | Raise | Done

  datatype Search = Search(threads: seq<Finder>, found: nat, die: bool)

  /** The next step of thread `k`. */
  function Seek(s: Search, chunks: seq<Chunk>, pred: nat -> bool, k: nat): Search
    requires |s.threads| == |chunks|
  {
    if k >= |chunks| then s else
    match s.threads[k]
    case Test(at) => s.(threads := s.threads[k := if at != chunks[k].e && !s.die then Check(at) else Done])
    case Check(at) => s.(threads := s.threads[k := if pred(at) then Store(at) else Test(at + 1)])
    case Store(at) => s.(threads := s.threads[k := Raise], found := at)
    case Raise => s.(threads := s.threads[k := Done], die := true)
    case Done => s
  }

  /** The state after the threads have stepped in the order of `schedule`. */
  function Schedule(s: Search, chunks: seq<Chunk>, pred: nat -> bool, schedule: seq<nat>): Search
    requires |s.threads| == |chunks|
    decreases |schedule|
  {
    if schedule == [] then s
    else Schedule(Seek(s, chunks, pred, schedule[0]), chunks, pred, schedule[1..])
  }

  function Start(chunks: seq<Chunk>, n: nat): Search
  {
    Search(seq(|chunks|, k requires 0 <= k < |chunks| => Test(chunks[k].b)), n, false)
  }

  /** A thread has passed only positions that do not satisfy the predicate; it is finished when its chunk has
      none at all, or something has been found. */
  ghost predicate ThreadOk(f: Finder, c: Chunk, pred: nat -> bool, found: nat, n: nat)
  {
    match f
    case Test(at) => c.b <= at <= c.e && forall x :: c.b <= x < at ==> !pred(x)
    case Check(at) => c.b <= at < c.e && forall x :: c.b <= x < at ==> !pred(x)
    case Store(at) => c.b <= at < c.e && pred(at)
    case Raise => found != n
    case Done => found != n || forall x :: c.b <= x < c.e ==> !pred(x)
  }

  ghost predicate SearchOk(s: Search, chunks: seq<Chunk>, pred: nat -> bool, n: nat)
  {
    && |s.threads| == |chunks|
    && (forall k :: 0 <= k < |chunks| ==> ThreadOk(s.threads[k], chunks[k], pred, s.found, n))
    && (s.found != n ==> pred(s.found) && exists k :: 0 <= k < |chunks| && chunks[k].b <= s.found < chunks[k].e)
    && (s.die ==> s.found != n)
  }

  lemma SeekOk(s: Search, chunks: seq<Chunk>, pred: nat -> bool, n: nat, k: nat)
    requires SearchOk(s, chunks, pred, n) && forall j :: 0 <= j < |chunks| ==> chunks[j].e <= n
    ensures SearchOk(Seek(s, chunks, pred, k), chunks, pred, n)
  {
    var t := Seek(s, chunks, pred, k);
    if k < |chunks| { assert ThreadOk(s.threads[k], chunks[k], pred, s.found, n); }
    forall j | 0 <= j < |chunks|
      ensures ThreadOk(t.threads[j], chunks[j], pred, t.found, n)
    {
      assert ThreadOk(s.threads[j], chunks[j], pred, s.found, n);
    }
  }

  lemma {:induction false} ScheduleOk(s: Search, chunks: seq<Chunk>, pred: nat -> bool, n: nat, schedule: seq<nat>)
    requires SearchOk(s, chunks, pred, n) && forall j :: 0 <= j < |chunks| ==> chunks[j].e <= n
    ensures SearchOk(Schedule(s, chunks, pred, schedule), chunks, pred, n)
    decreases |schedule|
  {
    if schedule != [] {
      SeekOk(s, chunks, pred, n, schedule[0]);
      ScheduleOk(Seek(s, chunks, pred, schedule[0]), chunks, pred, n, schedule[1..]);
    }
  }

  ghost predicate AllDone(s: Search)
  {
    forall k :: 0 <= k < |s.threads| ==> s.threads[k] == Done
  }

  lemma {:induction false} ChunkOf(chunks: seq<Chunk>, to: nat, x: nat) returns (k: nat)
    requires Contiguous(chunks, to) && x < to
    ensures k < |chunks| && chunks[k].b <= x < chunks[k].e
    decreases |chunks|
  {
    k := |chunks| - 1;
    if x < chunks[k].b {
      assert Contiguous(chunks[..k], chunks[k].b);
      k := ChunkOf(chunks[..k], chunks[k].b, x);
    }
  }

  lemma {:induction false} ChunkEnds(chunks: seq<Chunk>, to: nat, k: nat)
    requires Contiguous(chunks, to) && k < |chunks|
    ensures chunks[k].e <= to
    decreases |chunks| - k
  {
    if k + 1 < |chunks| { ChunkEnds(chunks, to, k + 1); }
  }

  /** Whatever the schedule, when all threads have finished `found` is the end exactly if no position of the
      covered prefix satisfies the predicate, and otherwise a position of the prefix that does. */
  lemma FindIfResult(chunks: seq<Chunk>, covered: nat, n: nat, pred: nat -> bool, schedule: seq<nat>)
    requires Contiguous(chunks, covered) && covered <= n
    requires AllDone(Schedule(Start(chunks, n), chunks, pred, schedule))
    ensures var found := Schedule(Start(chunks, n), chunks, pred, schedule).found;
            && (found == n <==> forall x :: 0 <= x < covered ==> !pred(x))
            && (found != n ==> found < covered && pred(found))
  {
    forall j | 0 <= j < |chunks|
      ensures chunks[j].e <= covered
    {
      ChunkEnds(chunks, covered, j);
    }
    ScheduleOk(Start(chunks, n), chunks, pred, n, schedule);
    var s := Schedule(Start(chunks, n), chunks, pred, schedule);
    if s.found == n {
      forall x | 0 <= x < covered
        ensures !pred(x)
      {
        var k := ChunkOf(chunks, covered, x);
        assert s.threads[k] == Done && ThreadOk(s.threads[k], chunks[k], pred, s.found, n);
      }
    } else {
      var k :| 0 <= k < |chunks| && chunks[k].b <= s.found < chunks[k].e;
      assert pred(s.found);
    }
  }

  // ---- every search ends ----

  function Left(f: Finder, c: Chunk): nat
  {
    match f
    case Test(at) => if at <= c.e then 2 * (c.e - at) + 3 else 3
    case Check(at) => if at < c.e then 2 * (c.e - at) + 2 else 2
    case Store(_) => 2
    case Raise => 1
    case Done => 0
  }

  function TotalLeft(fs: seq<Finder>, chunks: seq<Chunk>): nat
    requires |fs| == |chunks|
  {
    if fs == [] then 0 else Left(fs[0], chunks[0]) + TotalLeft(fs[1..], chunks[1..])
  }

  lemma {:induction false} TotalUpdate(fs: seq<Finder>, chunks: seq<Chunk>, k: nat, f: Finder)
    requires k < |fs| == |chunks|
    ensures TotalLeft(fs[k := f], chunks) == TotalLeft(fs, chunks) - Left(fs[k], chunks[k]) + Left(f, chunks[k])
  {
    if k > 0 {
      assert fs[k := f][1..] == fs[1..][k - 1 := f];
      TotalUpdate(fs[1..], chunks[1..], k - 1, f);
    } else {
      assert fs[k := f][1..] == fs[1..];
    }
  }

  /** Each step of a thread that has not finished uses up part of a finite amount of work: every schedule that
      keeps stepping unfinished threads comes to the state in which all are done. */
  lemma SeekProgress(s: Search, chunks: seq<Chunk>, pred: nat -> bool, n: nat, k: nat)
    requires SearchOk(s, chunks, pred, n) && k < |chunks| && s.threads[k] != Done
    ensures TotalLeft(Seek(s, chunks, pred, k).threads, chunks) < TotalLeft(s.threads, chunks)
  {
    assert ThreadOk(s.threads[k], chunks[k], pred, s.found, n);
    TotalUpdate(s.threads, chunks, k, Seek(s, chunks, pred, k).threads[k]);
  }

  /** Some schedule finishes. */
  lemma {:induction false} CanFinish(s: Search, chunks: seq<Chunk>, pred: nat -> bool, n: nat) returns (schedule: seq<nat>)
    requires SearchOk(s, chunks, pred, n) && forall j :: 0 <= j < |chunks| ==> chunks[j].e <= n
    ensures AllDone(Schedule(s, chunks, pred, schedule))
    decreases TotalLeft(s.threads, chunks)
  {
    if AllDone(s) {
      schedule := [];
    } else {
      var k :| 0 <= k < |s.threads| && s.threads[k] != Done;
      SeekOk(s, chunks, pred, n, k);
      SeekProgress(s, chunks, pred, n, k);
      schedule := CanFinish(Seek(s, chunks, pred, k), chunks, pred, n);
      assert ([k] + schedule)[1..] == schedule;
      schedule := [k] + schedule;
    }
  }

  // ---- when the search can be trusted ----

  /** What a caller expects of `find_if`. */
  ghost predicate FoundRight(pred: nat -> bool, n: nat, found: nat)
  {
    if forall x :: 0 <= x < n ==> !pred(x) then found == n else found < n && pred(found)
  }

  lemma StartOk(chunks: seq<Chunk>, covered: nat, n: nat, pred: nat -> bool)
    requires Contiguous(chunks, covered) && covered <= n
    ensures SearchOk(Start(chunks, n), chunks, pred, n) && forall j :: 0 <= j < |chunks| ==> chunks[j].e <= n
  {
    forall j | 0 <= j < |chunks|
      ensures chunks[j].e <= covered
    {
      ChunkEnds(chunks, covered, j);
    }
  }

  /** The answer is right for every predicate and every schedule if and only if the number of threads divides
      the length of the range or exceeds it. */
  lemma FindIfExactly(chunks: seq<Chunk>, n: nat, numThreads: nat)
    requires numThreads > 0 && Contiguous(chunks, if n < numThreads then n else numThreads * (n / numThreads))
    ensures (forall pred, schedule :: var s := Schedule(Start(chunks, n), chunks, pred, schedule);
                                      AllDone(s) ==> FoundRight(pred, n, s.found))
       <==> n % numThreads == 0 || n < numThreads
  {
    var covered := Covered(n, numThreads);
    CoverageExact(n, numThreads);
    if covered == n {
      forall pred, schedule | AllDone(Schedule(Start(chunks, n), chunks, pred, schedule))
        ensures FoundRight(pred, n, Schedule(Start(chunks, n), chunks, pred, schedule).found)
      {
        FindIfResult(chunks, n, n, pred, schedule);
      }
    } else {
      var pred, schedule := Missed(chunks, covered, n);
      assert !FoundRight(pred, n, Schedule(Start(chunks, n), chunks, pred, schedule).found);
    }
  }

  /** The first position behind the covered prefix is missed when it is the only one to be found. */
  lemma Missed(chunks: seq<Chunk>, covered: nat, n: nat) returns (pred: nat -> bool, schedule: seq<nat>)
    requires Contiguous(chunks, covered) && covered < n
    ensures var s := Schedule(Start(chunks, n), chunks, pred, schedule);
            AllDone(s) && s.found == n && pred(covered)
  {
    pred := x => x == covered;
    StartOk(chunks, covered, n, pred);
    schedule := CanFinish(Start(chunks, n), chunks, pred, n);
    FindIfResult(chunks, covered, n, pred, schedule);
  }

  // ---- mapReduce ----

  /** The threads of `mapReduce`: the chunks of `Split`, and one more for what they leave over. */
  method MapSplit(n: nat, numThreads: nat) returns (chunks: seq<Chunk>)
    requires numThreads > 0
    ensures Contiguous(chunks, n)
    ensures |chunks| == if n < numThreads then n else if n % numThreads == 0 then numThreads else numThreads + 1
    ensures forall k :: 0 <= k < |chunks| ==>
              chunks[k].e - chunks[k].b ==
              if n < numThreads then 1 else if k < numThreads then n / numThreads else n % numThreads
  {
    var cur;
    chunks, cur := Split(n, numThreads);
    if cur != n {
      ContiguousSnoc(chunks, cur, n);
      chunks := chunks + [Chunk(cur, n)];
    }
  }

  /** One job: mapping element `at` into its own store, about to lock, copying item `j` of its store to the
      shared output while holding the mutex, about to unlock, or finished. */
  datatype Job<V> = Work(at: nat, tmp: seq<V>) | Lock(tmp: seq<V>) | Copy(tmp: seq<V>, j: nat) | Unlock | Ended

  /** `out` is what an output iterator that inserts has received, and `placed` what the same steps leave behind one
      that writes position by position: each job has its own copy of the iterator, and begins where the others
      began.  `order` is history: the jobs in the order in which they took the mutex. */
  datatype Reduction<V> = Reduction(jobs: seq<Job<V>>, holder: nat, out: seq<V>, placed: seq<V>, order: seq<nat>)

  function Put<V>(s: seq<V>, j: nat, x: V): seq<V>
  {
    if j < |s| then s[j := x] else s + [x]
  }

  /** A block written over the front of what is there. */
  function Overlay<V>(s: seq<V>, b: seq<V>): seq<V>
  {
    if |b| >= |s| then b else b + s[|b|..]
  }

  /** What stands where afterwards. */
  lemma PlacesAt<V>(s: seq<V>, b: seq<V>, j: nat, x: V)
    ensures |Overlay(s, b)| == if |s| < |b| then |b| else |s|
    ensures forall i :: 0 <= i < |Overlay(s, b)| ==> Overlay(s, b)[i] == if i < |b| then b[i] else s[i]
    ensures |Put(s, j, x)| == if j < |s| then |s| else |s| + 1
    ensures forall i :: 0 <= i < |Put(s, j, x)| ==> Put(s, j, x)[i] == if i == j || i == |s| then x else s[i]
  {
  }

  lemma PutNext<V>(s: seq<V>, b: seq<V>, j: nat)
    requires j < |b|
    ensures Put(Overlay(s, b[..j]), j, b[j]) == Overlay(s, b[..j + 1])
  {
    var now, next := Overlay(s, b[..j]), Overlay(s, b[..j + 1]);
    assert b[..j + 1] == b[..j] + [b[j]];
    if j < |s| {
      assert s[j..] == [s[j]] + s[j + 1..];
      assert now == b[..j] + ([s[j]] + s[j + 1..]);
      assert next == b[..j + 1] + s[j + 1..];
    }
  }

  lemma OverlayEnds<V>(s: seq<V>, b: seq<V>)
    ensures Overlay(s, []) == s && b[..|b|] == b && b[..0] == []
  {
  }

  /** What the function gives for the elements from b up to e, in order. */
  function FlatMap<V>(f: nat -> seq<V>, b: nat, e: nat): seq<V>
    requires b <= e
  {
    if b == e then [] else FlatMap(f, b, e - 1) + f(e - 1)
  }

  lemma {:induction false} FlatMapSplit<V>(f: nat -> seq<V>, a: nat, b: nat, c: nat)
    requires a <= b <= c
    ensures FlatMap(f, a, c) == FlatMap(f, a, b) + FlatMap(f, b, c)
    decreases c
  {
    if b < c { FlatMapSplit(f, a, b, c - 1); }
  }

  /** How often `x` is among what the function gives for the elements from b up to e. */
  ghost function Count<V>(f: nat -> seq<V>, b: nat, e: nat, x: V): nat
    requires b <= e
  {
    if b == e then 0 else Count(f, b, e - 1, x) + multiset(f(e - 1))[x]
  }

  lemma {:induction false} FlatMapMembers<V>(f: nat -> seq<V>, b: nat, e: nat, x: V)
    requires b <= e
    ensures x in FlatMap(f, b, e) <==> exists i: nat :: b <= i < e && x in f(i)
    ensures multiset(FlatMap(f, b, e))[x] == Count(f, b, e, x)
    decreases e
  {
    if b < e { FlatMapMembers(f, b, e - 1, x); }
  }

  predicate PieceAt<V(==)>(whole: seq<V>, cuts: seq<nat>, i: nat, piece: seq<V>)
  {
    && i + 1 < |cuts| && cuts[i] <= cuts[i + 1] <= |whole|
    && whole[cuts[i]..cuts[i + 1]] == piece
  }

  /** `whole` is the pieces one after the other, cut at the positions `cuts`. */
  ghost predicate Consists<V>(whole: seq<V>, cuts: seq<nat>, pieces: seq<seq<V>>)
  {
    && |cuts| == |pieces| + 1 && cuts[0] == 0 && cuts[|pieces|] == |whole|
    && forall i: nat :: i < |pieces| ==> PieceAt(whole, cuts, i, pieces[i])
  }

  lemma ConsistsMore<V>(whole: seq<V>, cuts: seq<nat>, pieces: seq<seq<V>>, last: seq<V>)
    requires Consists(whole, cuts, pieces)
    ensures Consists(whole + last, cuts + [|whole + last|], pieces + [last])
  {
    var more, at := whole + last, cuts + [|whole + last|];
    forall i: nat | i < |pieces| + 1
      ensures PieceAt(more, at, i, (pieces + [last])[i])
    {
      if i < |pieces| {
        assert PieceAt(whole, cuts, i, pieces[i]);
        assert more[cuts[i]..cuts[i + 1]] == whole[cuts[i]..cuts[i + 1]];
      } else {
        assert more[|whole|..|more|] == last;
      }
    }
  }

  /** The sequential map is what the function gives for one element after the other. */
  lemma {:induction false} FlatMapAt<V>(f: nat -> seq<V>, b: nat, e: nat) returns (cuts: seq<nat>)
    requires b <= e
    ensures Consists(FlatMap(f, b, e), cuts, seq(e - b, i requires 0 <= i => f(b + i)))
    decreases e
  {
    if b == e {
      cuts := [0];
    } else {
      cuts := FlatMapAt(f, b, e - 1);
      var pieces := seq(e - 1 - b, i requires 0 <= i => f(b + i));
      ConsistsMore(FlatMap(f, b, e - 1), cuts, pieces, f(e - 1));
      assert pieces + [f(e - 1)] == seq(e - b, i requires 0 <= i => f(b + i));
      cuts := cuts + [|FlatMap(f, b, e)|];
    }
  }

  /** How the private store of a job lists what was inserted into it, given in the order of insertion: as it is
      for a sequence, in any order, and with each item once for a store that drops duplicates. */
  type Listing<!V> = (nat, seq<V>) -> seq<V>

  /** `holder` is the number of the job that holds the mutex, or `|jobs|` when it is free. A job that finds the
      mutex taken does not move. */
  function Advance<V>(s: Reduction<V>, chunks: seq<Chunk>, f: nat -> seq<V>, list: Listing<V>, k: nat): (t: Reduction<V>)
    requires |s.jobs| == |chunks|
    ensures |t.jobs| == |s.jobs|
  {
    if k >= |chunks| then s else
    match s.jobs[k]
    case Work(at, tmp) =>
      s.(jobs := s.jobs[k := if at != chunks[k].e then Work(at + 1, tmp + f(at)) else Lock(list(k, tmp))])
    case Lock(tmp) =>
      if s.holder != |chunks| then s
      else s.(jobs := s.jobs[k := Copy(tmp, 0)], holder := k, order := s.order + [k])
    case Copy(tmp, j) =>
      if j < |tmp| then s.(jobs := s.jobs[k := Copy(tmp, j + 1)], out := s.out + [tmp[j]], placed := Put(s.placed, j, tmp[j]))
      else s.(jobs := s.jobs[k := Unlock])
    case Unlock => s.(jobs := s.jobs[k := Ended], holder := |chunks|)
    case Ended => s
  }

  function Reduce<V>(s: Reduction<V>, chunks: seq<Chunk>, f: nat -> seq<V>, list: Listing<V>, schedule: seq<nat>): (t: Reduction<V>)
    requires |s.jobs| == |chunks|
    ensures |t.jobs| == |s.jobs|
    decreases |schedule|
  {
    if schedule == [] then s else Reduce(Advance(s, chunks, f, list, schedule[0]), chunks, f, list, schedule[1..])
  }

  function Begin<V>(chunks: seq<Chunk>): Reduction<V>
  {
    Reduction(seq(|chunks|, k requires 0 <= k < |chunks| => Work(chunks[k].b, [])), |chunks|, [], [], [])
  }

  function Block<V>(f: nat -> seq<V>, c: Chunk): seq<V>
  {
    if c.b <= c.e then FlatMap(f, c.b, c.e) else []
  }

  /** The blocks of the jobs in `order`, one after the other. */
  function Blocks<V>(f: nat -> seq<V>, list: Listing<V>, chunks: seq<Chunk>, order: seq<nat>): seq<V>
  {
    if order == [] then []
    else Blocks(f, list, chunks, order[..|order| - 1]) + BlockOf(f, list, chunks, order[|order| - 1])
  }

  function BlockOf<V>(f: nat -> seq<V>, list: Listing<V>, chunks: seq<Chunk>, k: nat): seq<V>
  {
    if k < |chunks| then list(k, Block(f, chunks[k])) else []
  }

  /** The same blocks, each written over the ones before. */
  function Overlays<V>(f: nat -> seq<V>, list: Listing<V>, chunks: seq<Chunk>, order: seq<nat>): seq<V>
  {
    if order == [] then []
    else Overlay(Overlays(f, list, chunks, order[..|order| - 1]), BlockOf(f, list, chunks, order[|order| - 1]))
  }

  ghost predicate JobOk<V>(s: Reduction<V>, c: Chunk, f: nat -> seq<V>, list: Listing<V>, k: nat)
    requires k < |s.jobs|
  {
    match s.jobs[k]
    case Work(at, tmp) => c.b <= at <= c.e && tmp == FlatMap(f, c.b, at) && k !in s.order && s.holder != k
    case Lock(tmp) => c.b <= c.e && tmp == list(k, Block(f, c)) && k !in s.order && s.holder != k
    case Copy(tmp, j) => c.b <= c.e && tmp == list(k, Block(f, c)) && j <= |tmp| && s.holder == k
    case Unlock => s.holder == k
    case Ended => k in s.order && s.holder != k
  }

  predicate NoDuplicate(order: seq<nat>)
  {
    forall i, j :: 0 <= i < j < |order| ==> order[i] != order[j]
  }

  /** The output is made of whole blocks, but for the part the holder of the mutex has copied so far. */
  ghost predicate ReductionOk<V>(s: Reduction<V>, chunks: seq<Chunk>, f: nat -> seq<V>, list: Listing<V>)
  {
    && |s.jobs| == |chunks| && s.holder <= |chunks|
    && (forall k :: 0 <= k < |chunks| ==> JobOk(s, chunks[k], f, list, k))
    && NoDuplicate(s.order) && (forall k :: k in s.order ==> k < |chunks|)
    && (s.holder < |chunks| ==> s.order != [] && s.order[|s.order| - 1] == s.holder)
    && (if s.holder < |chunks| && s.jobs[s.holder].Copy?
        then && s.jobs[s.holder].j <= |s.jobs[s.holder].tmp|
             && s.out == Blocks(f, list, chunks, s.order[..|s.order| - 1]) + s.jobs[s.holder].tmp[..s.jobs[s.holder].j]
             && s.placed == Overlay(Overlays(f, list, chunks, s.order[..|s.order| - 1]),
                                    s.jobs[s.holder].tmp[..s.jobs[s.holder].j])
        else s.out == Blocks(f, list, chunks, s.order) && s.placed == Overlays(f, list, chunks, s.order))
  }

  lemma AdvanceJobs<V>(s: Reduction<V>, chunks: seq<Chunk>, f: nat -> seq<V>, list: Listing<V>, k: nat)
    requires ReductionOk(s, chunks, f, list) && k < |chunks|
    ensures var t := Advance(s, chunks, f, list, k);
            forall j :: 0 <= j < |chunks| ==> JobOk(t, chunks[j], f, list, j)
  {
    var t := Advance(s, chunks, f, list, k);
    assert JobOk(s, chunks[k], f, list, k);
    forall j | 0 <= j < |chunks|
      ensures JobOk(t, chunks[j], f, list, j)
    {
      assert JobOk(s, chunks[j], f, list, j);
      if j != k { assert t.jobs[j] == s.jobs[j]; }
    }
  }

  lemma CopyOne<V>(done: seq<V>, tmp: seq<V>, j: nat)
    requires j <= |tmp|
    ensures j < |tmp| ==> done + tmp[..j] + [tmp[j]] == done + tmp[..j + 1]
    ensures j == |tmp| ==> done + tmp[..j] == done + tmp
  {
  }

  lemma AdvanceOut<V>(s: Reduction<V>, chunks: seq<Chunk>, f: nat -> seq<V>, list: Listing<V>, k: nat)
    requires ReductionOk(s, chunks, f, list) && k < |chunks|
    ensures var t := Advance(s, chunks, f, list, k);
            if t.holder < |chunks| && t.jobs[t.holder].Copy?
            then t.order != [] && t.jobs[t.holder].j <= |t.jobs[t.holder].tmp|
                 && t.out == Blocks(f, list, chunks, t.order[..|t.order| - 1]) + t.jobs[t.holder].tmp[..t.jobs[t.holder].j]
            else t.out == Blocks(f, list, chunks, t.order)
  {
    var t := Advance(s, chunks, f, list, k);
    assert JobOk(s, chunks[k], f, list, k);
    match s.jobs[k]
    case Work(at, tmp) =>
      if s.holder < |chunks| { assert JobOk(s, chunks[s.holder], f, list, s.holder) && t.jobs[t.holder] == s.jobs[s.holder]; }
    case Lock(tmp) =>
      if s.holder != |chunks| {
        assert JobOk(s, chunks[s.holder], f, list, s.holder);
      } else {
        assert t.order[..|t.order| - 1] == s.order && tmp[..0] == [];
      }
    case Copy(tmp, j) =>
      CopyOne(Blocks(f, list, chunks, s.order[..|s.order| - 1]), tmp, j);
    case Unlock =>
    case Ended =>
      if s.holder < |chunks| { assert JobOk(s, chunks[s.holder], f, list, s.holder); }
  }

  /** What has been written position by position so far. */
  ghost predicate PlacedOk<V>(s: Reduction<V>, chunks: seq<Chunk>, f: nat -> seq<V>, list: Listing<V>)
  {
    && |s.jobs| == |chunks|
    && if s.holder < |chunks| && s.jobs[s.holder].Copy?
       then s.order != [] && s.jobs[s.holder].j <= |s.jobs[s.holder].tmp|
            && s.placed == Overlay(Overlays(f, list, chunks, s.order[..|s.order| - 1]),
                                   s.jobs[s.holder].tmp[..s.jobs[s.holder].j])
       else s.placed == Overlays(f, list, chunks, s.order)
  }

  lemma CopyPlaced<V>(s: Reduction<V>, chunks: seq<Chunk>, f: nat -> seq<V>, list: Listing<V>, k: nat)
    requires PlacedOk(s, chunks, f, list) && k < |chunks| && s.jobs[k].Copy? && JobOk(s, chunks[k], f, list, k)
    requires s.order != [] && s.order[|s.order| - 1] == k
    ensures PlacedOk(Advance(s, chunks, f, list, k), chunks, f, list)
  {
    var tmp, j := s.jobs[k].tmp, s.jobs[k].j;
    var before := Overlays(f, list, chunks, s.order[..|s.order| - 1]);
    OverlayEnds(before, tmp);
    var t := Advance(s, chunks, f, list, k);
    if j < |tmp| {
      PutNext(before, tmp, j);
      assert t.jobs[k] == Copy(tmp, j + 1) && t.order == s.order && t.holder == s.holder;
      assert t.placed == Overlay(before, tmp[..j + 1]);
    } else {
      assert t.jobs[k] == Unlock && t.order == s.order && t.holder == s.holder && t.placed == s.placed;
      assert tmp[..j] == tmp;
    }
  }

  lemma LockPlaced<V>(s: Reduction<V>, chunks: seq<Chunk>, f: nat -> seq<V>, list: Listing<V>, k: nat)
    requires PlacedOk(s, chunks, f, list) && k < |chunks| && s.jobs[k].Lock? && s.holder == |chunks|
    ensures PlacedOk(Advance(s, chunks, f, list, k), chunks, f, list)
  {
    var t := Advance(s, chunks, f, list, k);
    assert t.order[..|t.order| - 1] == s.order;
    OverlayEnds(s.placed, s.jobs[k].tmp);
  }

  lemma AdvancePlaced<V>(s: Reduction<V>, chunks: seq<Chunk>, f: nat -> seq<V>, list: Listing<V>, k: nat)
    requires ReductionOk(s, chunks, f, list) && k < |chunks|
    ensures PlacedOk(Advance(s, chunks, f, list, k), chunks, f, list)
  {
    assert JobOk(s, chunks[k], f, list, k) && PlacedOk(s, chunks, f, list);
    if s.holder < |chunks| { assert JobOk(s, chunks[s.holder], f, list, s.holder); }
    if s.jobs[k].Copy? {
      CopyPlaced(s, chunks, f, list, k);
    } else if s.jobs[k].Lock? && s.holder == |chunks| {
      LockPlaced(s, chunks, f, list, k);
    } else {
      OtherPlaced(s, chunks, f, list, k);
    }
  }

  lemma OtherPlaced<V>(s: Reduction<V>, chunks: seq<Chunk>, f: nat -> seq<V>, list: Listing<V>, k: nat)
    requires PlacedOk(s, chunks, f, list) && k < |chunks| && JobOk(s, chunks[k], f, list, k)
    requires !s.jobs[k].Copy? && !(s.jobs[k].Lock? && s.holder == |chunks|)
    ensures PlacedOk(Advance(s, chunks, f, list, k), chunks, f, list)
  {
    var t := Advance(s, chunks, f, list, k);
    assert s.holder < |chunks| && s.holder != k ==> t.jobs[s.holder] == s.jobs[s.holder];
  }

  lemma AdvanceOrder<V>(s: Reduction<V>, chunks: seq<Chunk>, f: nat -> seq<V>, list: Listing<V>, k: nat)
    requires ReductionOk(s, chunks, f, list) && k < |chunks|
    ensures var t := Advance(s, chunks, f, list, k);
            && t.holder <= |chunks| && NoDuplicate(t.order) && (forall j :: j in t.order ==> j < |chunks|)
            && (t.holder < |chunks| ==> t.order != [] && t.order[|t.order| - 1] == t.holder)
  {
    assert JobOk(s, chunks[k], f, list, k);
  }

  lemma AdvanceOk<V>(s: Reduction<V>, chunks: seq<Chunk>, f: nat -> seq<V>, list: Listing<V>, k: nat)
    requires ReductionOk(s, chunks, f, list)
    ensures ReductionOk(Advance(s, chunks, f, list, k), chunks, f, list)
  {
    if k < |chunks| {
      AdvanceOrder(s, chunks, f, list, k);
      AdvanceJobs(s, chunks, f, list, k);
      AdvanceOut(s, chunks, f, list, k);
      AdvancePlaced(s, chunks, f, list, k);
    }
  }

  lemma {:induction false} ReduceOk<V>(s: Reduction<V>, chunks: seq<Chunk>, f: nat -> seq<V>, list: Listing<V>, schedule: seq<nat>)
    requires ReductionOk(s, chunks, f, list)
    ensures ReductionOk(Reduce(s, chunks, f, list, schedule), chunks, f, list)
    decreases |schedule|
  {
    if schedule != [] {
      AdvanceOk(s, chunks, f, list, schedule[0]);
      ReduceOk(Advance(s, chunks, f, list, schedule[0]), chunks, f, list, schedule[1..]);
    }
  }

  // ---- any order of the blocks ----

  lemma {:induction false} BlocksConcat<V>(f: nat -> seq<V>, list: Listing<V>, chunks: seq<Chunk>, a: seq<nat>, b: seq<nat>)
    ensures Blocks(f, list, chunks, a + b) == Blocks(f, list, chunks, a) + Blocks(f, list, chunks, b)
    decreases |b|
  {
    if b == [] {
      assert a + b == a;
    } else {
      assert (a + b)[..|a + b| - 1] == a + b[..|b| - 1];
      BlocksConcat(f, list, chunks, a, b[..|b| - 1]);
      Associate(Blocks(f, list, chunks, a), Blocks(f, list, chunks, b[..|b| - 1]), BlockOf(f, list, chunks, b[|b| - 1]));
    }
  }

  lemma Associate<V>(a: seq<V>, b: seq<V>, c: seq<V>)
    ensures a + b + c == a + (b + c)
  {
  }

  /** What the private store of job `k` lists in the end. */
  function Delivered<V>(f: nat -> seq<V>, list: Listing<V>, chunks: seq<Chunk>, k: nat): seq<V>
    requires k < |chunks| && chunks[k].b <= chunks[k].e
  {
    list(k, FlatMap(f, chunks[k].b, chunks[k].e))
  }

  /** The blocks of several jobs are what each of them delivers, one after the other. */
  lemma {:induction false} BlocksAt<V>(f: nat -> seq<V>, list: Listing<V>, chunks: seq<Chunk>, order: seq<nat>)
    returns (cuts: seq<nat>)
    requires forall i :: 0 <= i < |order| ==> order[i] < |chunks|
    requires forall k :: 0 <= k < |chunks| ==> chunks[k].b <= chunks[k].e
    ensures Consists(Blocks(f, list, chunks, order), cuts,
                     seq(|order|, i requires 0 <= i < |order| => Delivered(f, list, chunks, order[i])))
    decreases |order|
  {
    if order == [] {
      cuts := [0];
    } else {
      var init, last := order[..|order| - 1], order[|order| - 1];
      cuts := BlocksAt(f, list, chunks, init);
      var pieces := seq(|init|, i requires 0 <= i < |init| => Delivered(f, list, chunks, init[i]));
      ConsistsMore(Blocks(f, list, chunks, init), cuts, pieces, BlockOf(f, list, chunks, last));
      assert pieces + [BlockOf(f, list, chunks, last)] ==
             seq(|order|, i requires 0 <= i < |order| => Delivered(f, list, chunks, order[i]));
      cuts := cuts + [|Blocks(f, list, chunks, order)|];
    }
  }

  /** Taking one job out of the order takes its block out of the items. */
  lemma BlocksWithout<V>(f: nat -> seq<V>, list: Listing<V>, chunks: seq<Chunk>, a: seq<nat>, k: nat, b: seq<nat>)
    ensures multiset(Blocks(f, list, chunks, a + [k] + b)) == multiset(Blocks(f, list, chunks, a + b)) + multiset(BlockOf(f, list, chunks, k))
  {
    BlocksConcat(f, list, chunks, a, b);
    BlocksConcat(f, list, chunks, a + [k], b);
    assert (a + [k])[..|a|] == a;
  }

  /** An order of all chunks without repetition has the same items as the order from left to right. */
  lemma {:induction false} AnyOrder<V>(f: nat -> seq<V>, list: Listing<V>, chunks: seq<Chunk>, m: nat, order: seq<nat>)
    requires m <= |chunks| && NoDuplicate(order) && forall k: nat :: k in order <==> k < m
    ensures multiset(Blocks(f, list, chunks, order)) == multiset(Blocks(f, list, chunks, seq(m, i => i)))
    decreases m
  {
    if m == 0 {
      FirstMember(order);
    } else {
      var a, b := TakeOut(order, m);
      AnyOrder(f, list, chunks, m - 1, a + b);
      BlocksWithout(f, list, chunks, a, m - 1, b);
      LeftToRight(f, list, chunks, m);
    }
  }

  lemma FirstMember(order: seq<nat>)
    ensures order == [] || exists k: nat :: k in order
  {
    if order != [] { assert order[0] in order; }
  }

  lemma TakeOut(order: seq<nat>, m: nat) returns (a: seq<nat>, b: seq<nat>)
    requires m > 0 && NoDuplicate(order) && forall k: nat :: k in order <==> k < m
    ensures order == a + [m - 1] + b && NoDuplicate(a + b) && forall k: nat :: k in a + b <==> k < m - 1
  {
    assert m - 1 in order;
    var p :| 0 <= p < |order| && order[p] == m - 1;
    a, b := order[..p], order[p + 1..];
    Without(order, p, m);
  }

  lemma LeftToRight<V>(f: nat -> seq<V>, list: Listing<V>, chunks: seq<Chunk>, m: nat)
    requires m > 0
    ensures Blocks(f, list, chunks, seq(m, i => i)) == Blocks(f, list, chunks, seq(m - 1, i => i)) + BlockOf(f, list, chunks, m - 1)
  {
    assert seq(m, i => i)[..m - 1] == seq(m - 1, i => i);
  }

  lemma Without(order: seq<nat>, p: nat, m: nat)
    requires p < |order| && m > 0 && order[p] == m - 1 && NoDuplicate(order) && forall k: nat :: k in order <==> k < m
    ensures var r := order[..p] + order[p + 1..]; NoDuplicate(r) && forall k: nat :: k in r <==> k < m - 1
  {
    var r := order[..p] + order[p + 1..];
    forall k: nat
      ensures k in r <==> k < m - 1
    {
      if k in r { assert k in order; }
      if k < m - 1 {
        assert k in order;
        var i :| 0 <= i < |order| && order[i] == k;
        assert r[if i < p then i else i - 1] == k;
      }
    }
  }

  /** The store keeps every item as often as it was inserted. */
  ghost predicate KeepsItems<V(!new)>(list: Listing<V>)
  {
    forall k: nat, items: seq<V> :: multiset(list(k, items)) == multiset(items)
  }

  /** The store keeps every item at least once, and holds no others. */
  ghost predicate KeepsMembers<V(!new)>(list: Listing<V>)
  {
    forall k: nat, items: seq<V>, x :: x in list(k, items) <==> x in items
  }

  /** What a set that keeps the order of insertion lists. */
  function Once<V(==)>(items: seq<V>): seq<V>
  {
    if items == [] then []
    else var before, last := Once(items[..|items| - 1]), items[|items| - 1]; if last in before then before else before + [last]
  }

  lemma {:induction false} OnceMembers<V>(items: seq<V>)
    ensures forall x :: x in Once(items) <==> x in items
    ensures forall i, j :: 0 <= i < j < |Once(items)| ==> Once(items)[i] != Once(items)[j]
    decreases |items|
  {
    if items != [] {
      var init, last := items[..|items| - 1], items[|items| - 1];
      OnceMembers(init);
      assert forall x :: x in items <==> x in init || x == last;
    }
  }

  /** A set is such a store. */
  lemma SetKeepsMembers<V(!new)>()
    ensures KeepsMembers((k: nat, items: seq<V>) => Once(items))
  {
    forall items: seq<V>, x ensures x in Once(items) <==> x in items {
      OnceMembers(items);
    }
  }

  lemma Prefix(chunks: seq<Chunk>, to: nat)
    requires Contiguous(chunks, to) && chunks != []
    ensures Contiguous(chunks[..|chunks| - 1], chunks[|chunks| - 1].b) && to == chunks[|chunks| - 1].e
  {
    var init := chunks[..|chunks| - 1];
    assert init != [] ==> init[|init| - 1] == chunks[|chunks| - 2] && init[0] == chunks[0];
  }

  lemma {:induction false} ItemsInOrder<V(!new)>(f: nat -> seq<V>, list: Listing<V>, chunks: seq<Chunk>, to: nat, all: seq<Chunk>)
    requires Contiguous(chunks, to) && chunks <= all && KeepsItems(list)
    ensures multiset(Blocks(f, list, all, seq(|chunks|, i => i))) == multiset(FlatMap(f, 0, to))
    decreases |chunks|
  {
    if chunks != [] {
      var init, last := chunks[..|chunks| - 1], chunks[|chunks| - 1];
      Prefix(chunks, to);
      ItemsInOrder(f, list, init, last.b, all);
      NextBlock(f, list, all, |init|, last, to);
    }
  }

  lemma NextBlock<V(!new)>(f: nat -> seq<V>, list: Listing<V>, all: seq<Chunk>, k: nat, last: Chunk, to: nat)
    requires k < |all| && all[k] == last && last.b <= last.e == to && KeepsItems(list)
    requires multiset(Blocks(f, list, all, seq(k, i => i))) == multiset(FlatMap(f, 0, last.b))
    ensures multiset(Blocks(f, list, all, seq(k + 1, i => i))) == multiset(FlatMap(f, 0, to))
  {
    LeftToRight(f, list, all, k + 1);
    FlatMapSplit(f, 0, last.b, to);
    var before, own := Blocks(f, list, all, seq(k, i => i)), BlockOf(f, list, all, k);
    assert own == list(k, FlatMap(f, last.b, to));
    assert multiset(own) == multiset(FlatMap(f, last.b, to));
    assert Blocks(f, list, all, seq(k + 1, i => i)) == before + own;
  }

  predicate InOne<V(==)>(f: nat -> seq<V>, chunks: seq<Chunk>, k: nat, x: V)
  {
    k < |chunks| && x in Block(f, chunks[k])
  }

  ghost predicate InSome<V>(f: nat -> seq<V>, chunks: seq<Chunk>, x: V)
  {
    exists k: nat :: InOne(f, chunks, k, x)
  }

  /** An item of the sequential map is an item of some chunk. */
  lemma {:induction false} InSomeBlock<V>(f: nat -> seq<V>, chunks: seq<Chunk>, to: nat, x: V)
    requires Contiguous(chunks, to)
    ensures x in FlatMap(f, 0, to) <==> InSome(f, chunks, x)
    decreases |chunks|
  {
    if chunks != [] {
      Prefix(chunks, to);
      InSomeBlock(f, chunks[..|chunks| - 1], chunks[|chunks| - 1].b, x);
      FlatMapSplit(f, 0, chunks[|chunks| - 1].b, to);
      InLastOrBefore(f, chunks, x);
    }
  }

  lemma InLastOrBefore<V>(f: nat -> seq<V>, chunks: seq<Chunk>, x: V)
    requires chunks != []
    ensures InSome(f, chunks, x) <==> InSome(f, chunks[..|chunks| - 1], x) || x in Block(f, chunks[|chunks| - 1])
  {
    var init, n := chunks[..|chunks| - 1], |chunks| - 1;
    if k: nat :| InOne(f, chunks, k, x) { assert k < n ==> InOne(f, init, k, x); }
    if k: nat :| InOne(f, init, k, x) { assert InOne(f, chunks, k, x); }
    if x in Block(f, chunks[n]) { assert InOne(f, chunks, n, x); }
  }

  lemma {:induction false} InBlocks<V>(f: nat -> seq<V>, list: Listing<V>, chunks: seq<Chunk>, order: seq<nat>, x: V)
    ensures x in Blocks(f, list, chunks, order) <==> exists k: nat :: k in order && x in BlockOf(f, list, chunks, k)
    decreases |order|
  {
    if order != [] {
      var init, last := order[..|order| - 1], order[|order| - 1];
      InBlocks(f, list, chunks, init, x);
      assert forall k: nat :: k in order <==> k in init || k == last;
      if x in BlockOf(f, list, chunks, last) { assert last in order; }
    }
  }

  /** Whatever the schedule, when all jobs have ended the output consists of the whole chunks' results, one
      chunk after the other in the order of the mutex.  It holds exactly the items of the sequential map when the
      private stores keep all items, and exactly its members when they drop duplicates. */
  lemma MapReduceResult<V(!new)>(chunks: seq<Chunk>, n: nat, f: nat -> seq<V>, list: Listing<V>, schedule: seq<nat>)
    requires Contiguous(chunks, n)
    requires forall k :: 0 <= k < |chunks| ==> Reduce(Begin<V>(chunks), chunks, f, list, schedule).jobs[k] == Ended
    ensures var s := Reduce(Begin<V>(chunks), chunks, f, list, schedule);
            && s.out == Blocks(f, list, chunks, s.order)
            && NoDuplicate(s.order) && (forall k: nat :: k in s.order <==> k < |chunks|)
            && (KeepsItems(list) ==> multiset(s.out) == multiset(FlatMap(f, 0, n)))
            && (KeepsMembers(list) ==> forall x :: x in s.out <==> x in FlatMap(f, 0, n))
  {
    var s0, s := Begin<V>(chunks), Reduce(Begin<V>(chunks), chunks, f, list, schedule);
    BeginOk(chunks, n, f, list);
    ReduceOk(s0, chunks, f, list, schedule);
    AllEnded(s, chunks, f, list);
    if KeepsItems(list) { ItemsOfAll(f, list, chunks, n, s.order); }
    if KeepsMembers(list) {
      forall x ensures x in s.out <==> x in FlatMap(f, 0, n) {
        MembersOfAll(f, list, chunks, n, s.order, x);
      }
    }
  }

  lemma BeginOk<V>(chunks: seq<Chunk>, n: nat, f: nat -> seq<V>, list: Listing<V>)
    requires Contiguous(chunks, n)
    ensures ReductionOk(Begin<V>(chunks), chunks, f, list)
  {
  }

  lemma AllEnded<V>(s: Reduction<V>, chunks: seq<Chunk>, f: nat -> seq<V>, list: Listing<V>)
    requires ReductionOk(s, chunks, f, list) && forall k :: 0 <= k < |chunks| ==> s.jobs[k] == Ended
    ensures s.out == Blocks(f, list, chunks, s.order) && s.placed == Overlays(f, list, chunks, s.order)
    ensures NoDuplicate(s.order) && forall k: nat :: k in s.order <==> k < |chunks|
  {
    forall k: nat | k < |chunks|
      ensures k in s.order && s.holder != k
    {
      assert JobOk(s, chunks[k], f, list, k);
    }
  }

  lemma ItemsOfAll<V(!new)>(f: nat -> seq<V>, list: Listing<V>, chunks: seq<Chunk>, n: nat, order: seq<nat>)
    requires Contiguous(chunks, n) && KeepsItems(list) && NoDuplicate(order) && forall k: nat :: k in order <==> k < |chunks|
    ensures multiset(Blocks(f, list, chunks, order)) == multiset(FlatMap(f, 0, n))
  {
    AnyOrder(f, list, chunks, |chunks|, order);
    ItemsInOrder(f, list, chunks, n, chunks);
  }

  lemma MembersOfAll<V(!new)>(f: nat -> seq<V>, list: Listing<V>, chunks: seq<Chunk>, n: nat, order: seq<nat>, x: V)
    requires Contiguous(chunks, n) && KeepsMembers(list) && forall k: nat :: k in order <==> k < |chunks|
    ensures x in Blocks(f, list, chunks, order) <==> x in FlatMap(f, 0, n)
  {
    InBlocks(f, list, chunks, order, x);
    InSomeBlock(f, chunks, n, x);
    if k: nat :| k in order && x in BlockOf(f, list, chunks, k) { assert InOne(f, chunks, k, x); }
    if k: nat :| InOne(f, chunks, k, x) { assert k in order && x in BlockOf(f, list, chunks, k); }
  }

  // ---- an output iterator that writes position by position ----

  /** No two jobs have anything to deliver. */
  ghost predicate OneDelivers<V>(f: nat -> seq<V>, list: Listing<V>, chunks: seq<Chunk>, order: seq<nat>)
  {
    forall i, j :: 0 <= i < j < |order| ==>
      BlockOf(f, list, chunks, order[i]) == [] || BlockOf(f, list, chunks, order[j]) == []
  }

  lemma {:induction false} NoBlocks<V>(f: nat -> seq<V>, list: Listing<V>, chunks: seq<Chunk>, order: seq<nat>)
    ensures Blocks(f, list, chunks, order) == [] <==> forall i :: 0 <= i < |order| ==> BlockOf(f, list, chunks, order[i]) == []
    decreases |order|
  {
    if order != [] {
      var init, b := order[..|order| - 1], BlockOf(f, list, chunks, order[|order| - 1]);
      NoBlocks(f, list, chunks, init);
      assert Blocks(f, list, chunks, order) == Blocks(f, list, chunks, init) + b;
      assert forall i :: 0 <= i < |init| ==> order[i] == init[i];
    }
  }

  /** Writing over keeps all items only where there is nothing to write over. */
  lemma {:induction false} OverlaysExactly<V>(f: nat -> seq<V>, list: Listing<V>, chunks: seq<Chunk>, order: seq<nat>)
    ensures |Overlays(f, list, chunks, order)| <= |Blocks(f, list, chunks, order)|
    ensures |Overlays(f, list, chunks, order)| == |Blocks(f, list, chunks, order)| <==> OneDelivers(f, list, chunks, order)
    ensures OneDelivers(f, list, chunks, order) ==> Overlays(f, list, chunks, order) == Blocks(f, list, chunks, order)
    decreases |order|
  {
    if order != [] {
      var init, b := order[..|order| - 1], BlockOf(f, list, chunks, order[|order| - 1]);
      OverlaysExactly(f, list, chunks, init);
      NoBlocks(f, list, chunks, init);
      OneMoreDelivers(f, list, chunks, order);
      var before, blocks := Overlays(f, list, chunks, init), Blocks(f, list, chunks, init);
      assert Overlay(before, []) == before && Overlay([], b) == b;
    }
  }

  lemma OneMoreDelivers<V>(f: nat -> seq<V>, list: Listing<V>, chunks: seq<Chunk>, order: seq<nat>)
    requires order != []
    ensures var init := order[..|order| - 1];
            OneDelivers(f, list, chunks, order) <==>
              OneDelivers(f, list, chunks, init) &&
              (BlockOf(f, list, chunks, order[|order| - 1]) == [] ||
               forall i :: 0 <= i < |init| ==> BlockOf(f, list, chunks, init[i]) == [])
  {
    var init, last := order[..|order| - 1], |order| - 1;
    if OneDelivers(f, list, chunks, order) {
      forall i | 0 <= i < |init| && BlockOf(f, list, chunks, order[last]) != []
        ensures BlockOf(f, list, chunks, init[i]) == []
      {
        assert order[i] == init[i];
      }
    }
  }

  /** With such an iterator the blocks are written over one another in the order of the mutex, and the result is the
      items of the sequential map if and only if no two jobs have anything to deliver. */
  lemma PlacedResult<V(!new)>(chunks: seq<Chunk>, n: nat, f: nat -> seq<V>, list: Listing<V>, schedule: seq<nat>)
    requires Contiguous(chunks, n) && KeepsItems(list)
    requires forall k :: 0 <= k < |chunks| ==> Reduce(Begin<V>(chunks), chunks, f, list, schedule).jobs[k] == Ended
    ensures var s := Reduce(Begin<V>(chunks), chunks, f, list, schedule);
            && s.placed == Overlays(f, list, chunks, s.order)
            && (multiset(s.placed) == multiset(FlatMap(f, 0, n)) <==> OneDelivers(f, list, chunks, s.order))
  {
    var s0, s := Begin<V>(chunks), Reduce(Begin<V>(chunks), chunks, f, list, schedule);
    BeginOk(chunks, n, f, list);
    ReduceOk(s0, chunks, f, list, schedule);
    AllEnded(s, chunks, f, list);
    ItemsOfAll(f, list, chunks, n, s.order);
    OverlaysExactly(f, list, chunks, s.order);
    var blocks := Blocks(f, list, chunks, s.order);
    assert multiset(s.placed) == multiset(blocks) ==> |multiset(s.placed)| == |multiset(blocks)|;
  }

  // ---- every reduction ends ----

  /** A job that has not ended can move, unless it waits for a mutex that is taken. */
  predicate Moves<V>(s: Reduction<V>, k: nat)
    requires k < |s.jobs|
  {
    !s.jobs[k].Ended? && (s.jobs[k].Lock? ==> s.holder == |s.jobs|)
  }

  /** `copies` is the number of items the job delivers. */
  function WorkLeft<V>(j: Job<V>, c: Chunk, copies: nat): nat
  {
    match j
    case Work(at, _) => (if at < c.e then c.e - at else 0) + copies + 4
    case Lock(_) => copies + 3
    case Copy(_, i) => (if i < copies then copies - i else 0) + 2
    case Unlock => 1
    case Ended => 0
  }

  /** The work of the first `m` jobs. */
  function TotalWork<V>(jobs: seq<Job<V>>, chunks: seq<Chunk>, f: nat -> seq<V>, list: Listing<V>, m: nat): nat
    requires m <= |jobs| == |chunks|
  {
    if m == 0 then 0
    else TotalWork(jobs, chunks, f, list, m - 1)
         + WorkLeft(jobs[m - 1], chunks[m - 1], |BlockOf(f, list, chunks, m - 1)|)
  }

  lemma {:induction false} WorkUpdate<V>(jobs: seq<Job<V>>, chunks: seq<Chunk>, f: nat -> seq<V>, list: Listing<V>,
                                         m: nat, k: nat, j: Job<V>)
    requires m <= |jobs| == |chunks| && k < |jobs|
    ensures var copies := |BlockOf(f, list, chunks, k)|;
            TotalWork(jobs[k := j], chunks, f, list, m) == TotalWork(jobs, chunks, f, list, m)
              + if k < m then WorkLeft(j, chunks[k], copies) - WorkLeft(jobs[k], chunks[k], copies) else 0
    decreases m
  {
    if m > 0 { WorkUpdate(jobs, chunks, f, list, m - 1, k, j); }
  }

  lemma OneStep<V>(s: Reduction<V>, chunks: seq<Chunk>, f: nat -> seq<V>, list: Listing<V>, k: nat)
    requires k < |chunks| == |s.jobs| && JobOk(s, chunks[k], f, list, k) && Moves(s, k)
    ensures var t := Advance(s, chunks, f, list, k); var copies := |BlockOf(f, list, chunks, k)|;
            t.jobs == s.jobs[k := t.jobs[k]]
            && WorkLeft(t.jobs[k], chunks[k], copies) < WorkLeft(s.jobs[k], chunks[k], copies)
  {
  }

  /** Every step of a job that can move uses up part of a finite amount of work. */
  lemma MapProgress<V>(s: Reduction<V>, chunks: seq<Chunk>, f: nat -> seq<V>, list: Listing<V>, k: nat)
    requires ReductionOk(s, chunks, f, list) && k < |chunks| && Moves(s, k)
    ensures TotalWork(Advance(s, chunks, f, list, k).jobs, chunks, f, list, |chunks|)
          < TotalWork(s.jobs, chunks, f, list, |chunks|)
  {
    assert JobOk(s, chunks[k], f, list, k);
    OneStep(s, chunks, f, list, k);
    WorkUpdate(s.jobs, chunks, f, list, |chunks|, k, Advance(s, chunks, f, list, k).jobs[k]);
  }

  /** As long as a job has not ended, some job can move: there is no deadlock on the mutex. */
  lemma SomeJobMoves<V>(s: Reduction<V>, chunks: seq<Chunk>, f: nat -> seq<V>, list: Listing<V>, k: nat)
    requires ReductionOk(s, chunks, f, list) && k < |chunks| && s.jobs[k] != Ended
    ensures exists j :: 0 <= j < |chunks| && Moves(s, j)
  {
    if s.holder < |chunks| {
      assert JobOk(s, chunks[s.holder], f, list, s.holder);
      assert Moves(s, s.holder);
    } else {
      assert Moves(s, k);
    }
  }

  /** So the assumption of `MapReduceResult` can always be met. */
  lemma {:induction false} MapCanFinish<V>(s: Reduction<V>, chunks: seq<Chunk>, f: nat -> seq<V>, list: Listing<V>)
    returns (schedule: seq<nat>)
    requires ReductionOk(s, chunks, f, list)
    ensures forall k :: 0 <= k < |chunks| ==> Reduce(s, chunks, f, list, schedule).jobs[k] == Ended
    decreases TotalWork(s.jobs, chunks, f, list, |chunks|)
  {
    if k :| 0 <= k < |chunks| && s.jobs[k] != Ended {
      SomeJobMoves(s, chunks, f, list, k);
      var j :| 0 <= j < |chunks| && Moves(s, j);
      AdvanceOk(s, chunks, f, list, j);
      MapProgress(s, chunks, f, list, j);
      schedule := MapCanFinish(Advance(s, chunks, f, list, j), chunks, f, list);
      assert ([j] + schedule)[1..] == schedule;
      schedule := [j] + schedule;
    } else {
      schedule := [];
    }
  }
}
