/** The asynchronous logger (log.hpp) and its semaphore (semaphore.hpp) as threads that interleave:
    any number of producers calling `log`, one writer thread, and one thread that ends the logger. */
module Logger {

  datatype Payload = Payload(level: nat, text: string)

  /** Where a producer stands in `log`. From `Holding` to `Releasing` it holds the deque's mutex, from
      `Notifying` to `Signalled` also the semaphore's. */
  datatype Producer =
    | Idle
    | Wanting(p: Payload)   // about to lock the deque
    | Holding(p: Payload)   // about to push
    | Pushed                // about to enter notify()
    | Notifying             // about to increment the count
    | Counted               // about to notify_one
    | Signalled             // about to leave notify()
    | Releasing             // about to unlock the deque

  /** Where the ending thread stands in `endLogger`; `Joining` is the wait for the writer. */
  datatype Ender = Running | Flagged | EndNotifying | EndCounted | EndSignalled | Joining

  /** Where the writer stands in `writeElement`. */
  datatype Writer =
    | Waiting               // about to enter wait()
    | Checking              // holds the semaphore, tests the count
    | Sleeping              // blocked on the condition variable
    | Acquired              // took a permit, still holds the semaphore
    | Permitted             // about to lock the deque
    | Testing               // holds the deque, tests for the end
    | Popping               // holds the deque, about to take the front
    | Popped(p: Payload)    // holds the deque, tests for the end again
    | Unlocking(p: Payload, last: bool)
    | Writing(p: Payload, last: bool)
    | ExitLocked            // left the loop with the deque still locked
    | Exited

  datatype Owner = Nobody | ByProducer(i: nat) | ByEnder | ByWriter

  datatype State = State(
    level: nat,
    prods: map<nat, Producer>,
    ender: Ender,
    writer: Writer,
    deque: seq<Payload>,
    terminate: bool,
    dequeMutex: Owner,
    semMutex: Owner,
    count: int,
    output: seq<Payload>,
    calls: map<nat, seq<Payload>>,      // history: the payloads each producer called log() with
    pushed: seq<(nat, Payload)>)        // history: the pushes, in order

  /** `Begin` is a new call of log() and `BeginEnd` the call of endLogger(); the other actions are the next
      steps of a thread. `Spurious` wakes the writer without a notification. */
  datatype Action = Begin(i: nat, p: Payload) | BeginEnd | ProducerStep(i: nat) | EnderStep | WriterStep | Spurious

  predicate Init(s: State)
  {
    && s.ender == Running && s.writer == Waiting && s.deque == [] && !s.terminate
    && s.dequeMutex == Nobody && s.semMutex == Nobody && s.count == 0 && s.output == [] && s.pushed == []
    && s.calls.Keys == s.prods.Keys
    && forall i :: i in s.prods ==> s.prods[i] == Idle && s.calls[i] == []
  }

  /** No call of log() is in progress when endLogger() begins, and none begins afterwards. */
  predicate Quiet(s: State)
  {
    forall i :: i in s.prods ==> s.prods[i] == Idle
  }

  predicate Enabled(s: State, a: Action)
  {
    match a
    case Begin(i, p) => i in s.prods && s.prods[i] == Idle && s.ender == Running
    case BeginEnd => s.ender == Running && Quiet(s)
    case ProducerStep(i) =>
      i in s.prods && (match s.prods[i]
        case Idle => false
        case Wanting(_) => s.dequeMutex == Nobody
        case Pushed => s.semMutex == Nobody
        case _ => true)
    case EnderStep =>
      (match s.ender
       case Running => false
       case Flagged => s.semMutex == Nobody
       case Joining => false
       case _ => true)
    case WriterStep =>
      (match s.writer
       case Waiting => s.semMutex == Nobody
       case Sleeping => false
       case Permitted => s.dequeMutex == Nobody
       case Popping => s.deque != []
       case ExitLocked => false
       case Exited => false
       case _ => true)
    case Spurious => s.writer == Sleeping
  }

  /** notify_one: a sleeping writer is made to contend for the semaphore again. */
  function Wake(w: Writer): Writer
  {
    if w == Sleeping then Waiting else w
  }

  function StepProducer(s: State, i: nat): State
    requires Enabled(s, ProducerStep(i)) && i in s.calls
  {
    match s.prods[i]
    case Wanting(p) => s.(prods := s.prods[i := Holding(p)], dequeMutex := ByProducer(i))
    case Holding(p) => s.(prods := s.prods[i := Pushed], deque := s.deque + [p], pushed := s.pushed + [(i, p)])
    case Pushed => s.(prods := s.prods[i := Notifying], semMutex := ByProducer(i))
    case Notifying => s.(prods := s.prods[i := Counted], count := s.count + 1)
    case Counted => s.(prods := s.prods[i := Signalled], writer := Wake(s.writer))
    case Signalled => s.(prods := s.prods[i := Releasing], semMutex := Nobody)
    case Releasing => s.(prods := s.prods[i := Idle], dequeMutex := Nobody)
    case Idle => s
  }

  function StepEnder(s: State): State
    requires Enabled(s, EnderStep)
  {
    match s.ender
    case Flagged => s.(ender := EndNotifying, semMutex := ByEnder)
    case EndNotifying => s.(ender := EndCounted, count := s.count + 1)
    case EndCounted => s.(ender := EndSignalled, writer := Wake(s.writer))
    case EndSignalled => s.(ender := Joining, semMutex := Nobody)
    case _ => s
  }

  function StepWriter(s: State): State
    requires Enabled(s, WriterStep)
  {
    match s.writer
    case Waiting => s.(writer := Checking, semMutex := ByWriter)
    case Checking =>
      if s.count > 0 then s.(writer := Acquired, count := s.count - 1)
      else s.(writer := Sleeping, semMutex := Nobody)
    case Acquired => s.(writer := Permitted, semMutex := Nobody)
    case Permitted => s.(writer := Testing, dequeMutex := ByWriter)
    case Testing => if s.terminate && |s.deque| == 0 then s.(writer := ExitLocked) else s.(writer := Popping)
    case Popping => s.(writer := Popped(s.deque[0]), deque := s.deque[1..])
    case Popped(p) => s.(writer := Unlocking(p, s.terminate && |s.deque| == 0))
    case Unlocking(p, last) => s.(writer := Writing(p, last), dequeMutex := Nobody)
    case Writing(p, last) =>
      s.(writer := if last then Exited else Waiting,
         output := if p.level >= s.level then s.output + [p] else s.output)
    case _ => s
  }

  function Do(s: State, a: Action): State
    requires Enabled(s, a) && s.prods.Keys <= s.calls.Keys
  {
    match a
    case Begin(i, p) => s.(prods := s.prods[i := Wanting(p)], calls := s.calls[i := s.calls[i] + [p]])
    case BeginEnd => s.(ender := Flagged, terminate := true)
    case ProducerStep(i) => StepProducer(s, i)
    case EnderStep => StepEnder(s)
    case WriterStep => StepWriter(s)
    case Spurious => s.(writer := Waiting)
  }

  // ---- what holds in every reachable state ----

  predicate HoldsDeque(p: Producer)
  {
    p.Holding? || p.Pushed? || p.Notifying? || p.Counted? || p.Signalled? || p.Releasing?
  }

  predicate HoldsSem(p: Producer)
  {
    p.Notifying? || p.Counted? || p.Signalled?
  }

  /** Each mutex is held by exactly the thread whose position says so. */
  ghost predicate DequeLock(s: State)
  {
    && (forall i :: i in s.prods ==> (HoldsDeque(s.prods[i]) <==> s.dequeMutex == ByProducer(i)))
    && (s.dequeMutex.ByProducer? ==> s.dequeMutex.i in s.prods)
    && s.dequeMutex != ByEnder
    && (s.writer.Testing? || s.writer.Popping? || s.writer.Popped? || s.writer.Unlocking? || s.writer.ExitLocked?
        <==> s.dequeMutex == ByWriter)
  }

  ghost predicate SemLock(s: State)
  {
    && (forall i :: i in s.prods ==> (HoldsSem(s.prods[i]) <==> s.semMutex == ByProducer(i)))
    && (s.semMutex.ByProducer? ==> s.semMutex.i in s.prods)
    && (s.writer.Checking? || s.writer.Acquired? <==> s.semMutex == ByWriter)
    && (s.ender.EndNotifying? || s.ender.EndCounted? || s.ender.EndSignalled? <==> s.semMutex == ByEnder)
  }

  ghost predicate Locks(s: State)
  {
    DequeLock(s) && SemLock(s)
  }

  /** The flag is up from endLogger() on, when no producer is active any more. */
  ghost predicate Phases(s: State)
  {
    && s.prods.Keys == s.calls.Keys
    && (s.terminate <==> s.ender != Running)
    && (s.terminate ==> Quiet(s))
  }

  /** A push whose notification is still to come. */
  function Pending(s: State): int
  {
    if s.dequeMutex.ByProducer? && s.dequeMutex.i in s.prods
       && (s.prods[s.dequeMutex.i].Pushed? || s.prods[s.dequeMutex.i].Notifying?) then 1 else 0
  }

  function Held(w: Writer): int
  {
    if w.Acquired? || w.Permitted? || w.Testing? || w.Popping? || w.ExitLocked? then 1 else 0
  }

  function EndNotified(e: Ender): int
  {
    if e.EndCounted? || e.EndSignalled? || e.Joining? then 1 else 0
  }

  /** Permits: the count and the permit held by the writer stand for the completed pushes still queued and
      for the end. */
  ghost predicate Permits(s: State)
  {
    && s.count >= 0
    && s.count + Held(s.writer) == |s.deque| - Pending(s) + EndNotified(s.ender)
  }

  /** No lost wake-up: while the writer sleeps there is no permit, unless its notification is under way. */
  ghost predicate Sleeps(s: State)
  {
    s.writer == Sleeping && s.count > 0 ==>
      s.ender.EndCounted? || (s.semMutex.ByProducer? && s.semMutex.i in s.prods && s.prods[s.semMutex.i].Counted?)
  }

  function Filtered(level: nat, ps: seq<Payload>): seq<Payload>
  {
    if ps == [] then []
    else Filtered(level, ps[..|ps| - 1]) + (if ps[|ps| - 1].level >= level then [ps[|ps| - 1]] else [])
  }

  function Payloads(pushed: seq<(nat, Payload)>): seq<Payload>
  {
    seq(|pushed|, k requires 0 <= k < |pushed| => pushed[k].1)
  }

  /** The pushes of one producer. */
  function PushesOf(pushed: seq<(nat, Payload)>, i: nat): seq<Payload>
  {
    if pushed == [] then []
    else PushesOf(pushed[..|pushed| - 1], i) + (if pushed[|pushed| - 1].0 == i then [pushed[|pushed| - 1].1] else [])
  }

  function InHand(w: Writer): seq<Payload>
  {
    match w
    case Popped(p) => [p]
    case Unlocking(p, _) => [p]
    case Writing(p, _) => [p]
    case _ => []
  }

  function NotYetPushed(p: Producer): seq<Payload>
  {
    match p
    case Wanting(q) => [q]
    case Holding(q) => [q]
    case _ => []
  }

  /** What was pushed is written, in the writer's hand, or queued, in that order. */
  ghost predicate Flow(s: State)
  {
    Filtered(s.level, Payloads(s.pushed)) ==
      s.output + Filtered(s.level, InHand(s.writer)) + Filtered(s.level, s.deque)
  }

  /** What a producer called log() with is pushed in its order, but for a call still on its way. */
  ghost predicate Called(s: State)
  {
    s.prods.Keys == s.calls.Keys &&
    forall i :: i in s.prods ==> s.calls[i] == PushesOf(s.pushed, i) + NotYetPushed(s.prods[i])
  }

  /** Once the writer is on its way out, nothing is queued and nothing will be. */
  ghost predicate Leaving(s: State)
  {
    (s.writer.ExitLocked? || s.writer.Exited? || (s.writer.Unlocking? && s.writer.last) || (s.writer.Writing? && s.writer.last))
      ==> s.deque == [] && s.terminate
  }

  /** The writer has tested the deque for emptiness in a way that leaves it something to take. */
  ghost predicate Fronts(s: State)
  {
    s.writer.Popping? ==> s.deque != []
  }

  ghost predicate Inv(s: State)
  {
    Locks(s) && Phases(s) && Permits(s) && Sleeps(s) && Fronts(s) && Flow(s) && Called(s) && Leaving(s)
  }

  // ---- every step keeps it ----

  lemma {:induction false} FilteredConcat(level: nat, a: seq<Payload>, b: seq<Payload>)
    ensures Filtered(level, a + b) == Filtered(level, a) + Filtered(level, b)
    decreases |b|
  {
    if b == [] {
      assert a + b == a;
    } else {
      assert (a + b)[..|a + b| - 1] == a + b[..|b| - 1];
      FilteredConcat(level, a, b[..|b| - 1]);
    }
  }

  lemma InitInv(s: State)
    requires Init(s)
    ensures Inv(s)
  {
    assert Payloads(s.pushed) == [];
  }

  lemma DequeLockStep(s: State, a: Action)
    requires DequeLock(s) && Phases(s) && Enabled(s, a)
    ensures DequeLock(Do(s, a))
  {
  }

  lemma SemLockStep(s: State, a: Action)
    requires SemLock(s) && Phases(s) && Enabled(s, a)
    ensures SemLock(Do(s, a))
  {
  }

  lemma PhasesStep(s: State, a: Action)
    requires Phases(s) && Enabled(s, a)
    ensures Phases(Do(s, a))
  {
  }

  lemma PermitsStep(s: State, a: Action)
    requires Locks(s) && Phases(s) && Permits(s) && Enabled(s, a)
    ensures Permits(Do(s, a))
  {
    match a
    case Begin(i, p) =>
    case BeginEnd =>
    case ProducerStep(i) =>
      match s.prods[i] { case Wanting(_) => case Holding(_) => case Pushed => case Notifying =>
                         case Counted => case Signalled => case Releasing => }
    case EnderStep =>
    case WriterStep =>
    case Spurious =>
  }

  lemma SleepsStep(s: State, a: Action)
    requires Locks(s) && Phases(s) && Permits(s) && Sleeps(s) && Enabled(s, a)
    ensures Sleeps(Do(s, a))
  {
    match a
    case Begin(i, p) =>
    case BeginEnd =>
    case ProducerStep(i) =>
      match s.prods[i] { case Wanting(_) => case Holding(_) => case Pushed => case Notifying =>
                         case Counted => case Signalled => case Releasing => }
    case EnderStep =>
    case WriterStep =>
    case Spurious =>
  }

  lemma FlowPush(s: State, i: nat, p: Payload)
    requires Flow(s)
    ensures Filtered(s.level, Payloads(s.pushed + [(i, p)])) ==
            s.output + Filtered(s.level, InHand(s.writer)) + Filtered(s.level, s.deque + [p])
  {
    assert Payloads(s.pushed + [(i, p)]) == Payloads(s.pushed) + [p];
    FilteredConcat(s.level, Payloads(s.pushed), [p]);
    FilteredConcat(s.level, s.deque, [p]);
  }

  lemma FlowPop(s: State)
    requires Flow(s) && InHand(s.writer) == [] && s.deque != []
    ensures Filtered(s.level, Payloads(s.pushed)) ==
            s.output + Filtered(s.level, [s.deque[0]]) + Filtered(s.level, s.deque[1..])
  {
    assert s.deque == [s.deque[0]] + s.deque[1..];
    FilteredConcat(s.level, [s.deque[0]], s.deque[1..]);
    assert Filtered(s.level, InHand(s.writer)) == [];
  }

  lemma FlowWrite(level: nat, p: Payload)
    ensures Filtered(level, [p]) == if p.level >= level then [p] else []
    ensures Filtered(level, []) == []
  {
    assert [p][..0] == [];
  }

  lemma FlowWriter(s: State)
    requires Flow(s) && Enabled(s, WriterStep)
    ensures Flow(StepWriter(s))
  {
    if s.writer.Popping? {
      FlowPop(s);
    } else if s.writer.Writing? {
      FlowWriting(s);
    } else {
      FlowElse(s);
    }
  }

  lemma FlowWriting(s: State)
    requires Flow(s) && s.writer.Writing?
    ensures Flow(StepWriter(s))
  {
    var t, p := StepWriter(s), s.writer.p;
    FlowWrite(s.level, p);
    HandToOutput(Filtered(s.level, Payloads(s.pushed)), s.output, if p.level >= s.level then [p] else [],
                 Filtered(s.level, s.deque));
    assert t.output == s.output + if p.level >= s.level then [p] else [];
    assert InHand(t.writer) == [];
  }

  lemma HandToOutput<T>(all: seq<T>, output: seq<T>, hand: seq<T>, queued: seq<T>)
    requires all == output + hand + queued
    ensures all == (output + hand) + [] + queued
  {
  }

  lemma FlowElse(s: State)
    requires Flow(s) && Enabled(s, WriterStep) && !s.writer.Popping? && !s.writer.Writing?
    ensures Flow(StepWriter(s))
  {
    StillWriter(s);
    SameFlow(s, StepWriter(s));
  }

  /** The other steps of the writer leave every payload where it is. */
  lemma StillWriter(s: State)
    requires Enabled(s, WriterStep) && !s.writer.Popping? && !s.writer.Writing?
    ensures var t := StepWriter(s);
            t.pushed == s.pushed && t.output == s.output && t.deque == s.deque && t.level == s.level
            && InHand(t.writer) == InHand(s.writer)
  {
  }

  lemma SameFlow(s: State, t: State)
    requires Flow(s) && t.pushed == s.pushed && t.output == s.output && t.deque == s.deque && t.level == s.level
    requires InHand(t.writer) == InHand(s.writer)
    ensures Flow(t)
  {
  }

  /** Only a push, a pop and a write move payloads. */
  lemma FlowStep(s: State, a: Action)
    requires Phases(s) && Flow(s) && Enabled(s, a)
    ensures Flow(Do(s, a))
  {
    if a.ProducerStep? && s.prods[a.i].Holding? {
      FlowPush(s, a.i, s.prods[a.i].p);
    } else if a.WriterStep? {
      FlowWriter(s);
    } else {
      StillFlow(s, a);
      SameFlow(s, Do(s, a));
    }
  }

  lemma StillFlow(s: State, a: Action)
    requires Phases(s) && Enabled(s, a)
    requires !(a.ProducerStep? && s.prods[a.i].Holding?)
    requires !a.WriterStep?
    ensures var t := Do(s, a);
            t.pushed == s.pushed && t.output == s.output && t.deque == s.deque && t.level == s.level
            && InHand(t.writer) == InHand(s.writer)
  {
  }

  /** Only a push ends the way of a payload, and only a new call starts one. */
  lemma StillCalled(s: State, a: Action, j: nat)
    requires Phases(s) && Enabled(s, a) && j in s.prods
    ensures j in Do(s, a).prods && j in Do(s, a).calls
    ensures Do(s, a).calls[j] == s.calls[j] + if a.Begin? && a.i == j then [a.p] else []
    ensures NotYetPushed(Do(s, a).prods[j]) ==
            if a.Begin? && a.i == j then [a.p]
            else if a == ProducerStep(j) && s.prods[j].Holding? then []
            else NotYetPushed(s.prods[j])
    ensures a.Begin? && a.i == j ==> NotYetPushed(s.prods[j]) == []
    ensures Do(s, a).pushed ==
            if a.ProducerStep? && s.prods[a.i].Holding? then s.pushed + [(a.i, s.prods[a.i].p)] else s.pushed
  {
  }

  lemma CalledStep(s: State, a: Action)
    requires Phases(s) && Called(s) && Enabled(s, a)
    ensures Called(Do(s, a))
  {
    PhasesStep(s, a);
    forall j | j in Do(s, a).prods
      ensures Do(s, a).calls[j] == PushesOf(Do(s, a).pushed, j) + NotYetPushed(Do(s, a).prods[j])
    {
      CalledOne(s, a, j);
    }
  }

  lemma CalledOne(s: State, a: Action, j: nat)
    requires Phases(s) && Called(s) && Enabled(s, a) && j in Do(s, a).prods && j in Do(s, a).calls
    ensures Do(s, a).calls[j] == PushesOf(Do(s, a).pushed, j) + NotYetPushed(Do(s, a).prods[j])
  {
    KeysStay(s, a);
    StillCalled(s, a, j);
    assert s.calls[j] == PushesOf(s.pushed, j) + NotYetPushed(s.prods[j]);
    if a.ProducerStep? && s.prods[a.i].Holding? {
      PushesSnoc(s.pushed, a.i, s.prods[a.i].p, j);
    }
  }

  lemma KeysStay(s: State, a: Action)
    requires Phases(s) && Enabled(s, a)
    ensures Do(s, a).prods.Keys == s.prods.Keys && Do(s, a).calls.Keys == s.calls.Keys
  {
  }

  lemma PushesSnoc(pushed: seq<(nat, Payload)>, i: nat, p: Payload, j: nat)
    ensures PushesOf(pushed + [(i, p)], j) == PushesOf(pushed, j) + if i == j then [p] else []
  {
    assert (pushed + [(i, p)])[..|pushed|] == pushed;
  }

  lemma LeavingStep(s: State, a: Action)
    requires Locks(s) && Phases(s) && Leaving(s) && Enabled(s, a)
    ensures Leaving(Do(s, a))
  {
  }

  lemma FrontsStep(s: State, a: Action)
    requires Locks(s) && Phases(s) && Permits(s) && Fronts(s) && Enabled(s, a)
    ensures Fronts(Do(s, a))
  {
  }

  lemma InvStep(s: State, a: Action)
    requires Inv(s) && Enabled(s, a)
    ensures Inv(Do(s, a))
  {
    DequeLockStep(s, a);
    SemLockStep(s, a);
    PhasesStep(s, a);
    PermitsStep(s, a);
    SleepsStep(s, a);
    FrontsStep(s, a);
    FlowStep(s, a);
    CalledStep(s, a);
    LeavingStep(s, a);
  }

  // ---- runs ----

  /** The actions `as` can be taken one after the other from `s`, and lead to `t`. */
  ghost predicate Runs(s: State, acts: seq<Action>, t: State)
    decreases |acts|
  {
    if acts == [] then s == t
    else s.prods.Keys <= s.calls.Keys && Enabled(s, acts[0]) && Runs(Do(s, acts[0]), acts[1..], t)
  }

  ghost predicate Reachable(t: State)
  {
    exists s, acts :: Init(s) && Runs(s, acts, t)
  }

  lemma {:induction false} RunInv(s: State, acts: seq<Action>, t: State)
    requires Inv(s) && Runs(s, acts, t)
    ensures Inv(t)
    decreases |acts|
  {
    if acts != [] {
      InvStep(s, acts[0]);
      RunInv(Do(s, acts[0]), acts[1..], t);
    }
  }

  lemma ReachableInv(t: State)
    requires Reachable(t)
    ensures Inv(t)
  {
    var s, acts :| Init(s) && Runs(s, acts, t);
    InitInv(s);
    RunInv(s, acts, t);
  }

  // ---- safety ----

  /** The permit invariant: in every reachable state the count and the permit in the writer's hand are the
      queued pushes whose notification has happened, plus the notification of the end. */
  lemma PermitInvariant(t: State)
    requires Reachable(t)
    ensures t.count >= 0 && t.count + Held(t.writer) == |t.deque| - Pending(t) + EndNotified(t.ender)
  {
    ReachableInv(t);
  }

  /** The writer never takes the front of an empty deque. */
  lemma NeverPopsEmpty(t: State)
    requires Reachable(t) && t.writer.Popping?
    ensures t.deque != []
  {
    ReachableInv(t);
  }

  /** At most one thread is inside each critical section. */
  lemma MutualExclusion(t: State, i: nat, j: nat)
    requires Reachable(t) && i in t.prods && j in t.prods && i != j
    ensures !(HoldsDeque(t.prods[i]) && HoldsDeque(t.prods[j]))
    ensures !(HoldsDeque(t.prods[i]) && (t.writer.Testing? || t.writer.Popping? || t.writer.Popped?))
  {
    ReachableInv(t);
  }

  ghost predicate Finished(t: State)
  {
    t.writer.ExitLocked? || t.writer.Exited?
  }

  /** `ps` are the payloads of the pushes at the positions `at`: of all those to keep, in order. */
  ghost predicate Picked(at: seq<nat>, pushed: seq<(nat, Payload)>, keep: (nat, Payload) -> bool, ps: seq<Payload>)
  {
    && |at| == |ps| && (forall k, l :: 0 <= k < l < |at| ==> at[k] < at[l])
    && (forall k :: 0 <= k < |at| ==> at[k] < |pushed| && ps[k] == pushed[at[k]].1)
    && (forall j: nat :: j < |pushed| ==> (j in at <==> keep(pushed[j].0, pushed[j].1)))
  }

  lemma PickedNext(at: seq<nat>, pushed: seq<(nat, Payload)>, keep: (nat, Payload) -> bool, ps: seq<Payload>)
    returns (at': seq<nat>)
    requires pushed != [] && Picked(at, pushed[..|pushed| - 1], keep, ps)
    ensures var (i, p) := pushed[|pushed| - 1]; Picked(at', pushed, keep, ps + if keep(i, p) then [p] else [])
  {
    var end := |pushed| - 1;
    var (i, p) := pushed[end];
    assert forall j :: 0 <= j < end ==> pushed[..end][j] == pushed[j];
    assert end !in at;
    if keep(i, p) {
      at' := at + [end];
      assert forall j: nat :: j in at' <==> j in at || j == end;
    } else {
      at' := at;
      assert ps + [] == ps;
    }
  }

  ghost predicate Written(at: seq<nat>, pushed: seq<(nat, Payload)>, level: nat, output: seq<Payload>)
  {
    Picked(at, pushed, (i: nat, p: Payload) => p.level >= level, output)
  }

  lemma {:induction false} WrittenAt(pushed: seq<(nat, Payload)>, level: nat) returns (at: seq<nat>)
    ensures Written(at, pushed, level, Filtered(level, Payloads(pushed)))
    decreases |pushed|
  {
    at := [];
    if pushed != [] {
      var init := pushed[..|pushed| - 1];
      at := WrittenAt(init, level);
      assert Payloads(pushed)[..|pushed| - 1] == Payloads(init);
      at := PickedNext(at, pushed, (i: nat, p: Payload) => p.level >= level, Filtered(level, Payloads(init)));
    }
  }

  ghost predicate Contributed(at: seq<nat>, pushed: seq<(nat, Payload)>, i: nat, ps: seq<Payload>)
  {
    Picked(at, pushed, (k: nat, p: Payload) => k == i, ps)
  }

  lemma {:induction false} ContributedAt(pushed: seq<(nat, Payload)>, i: nat) returns (at: seq<nat>)
    ensures Contributed(at, pushed, i, PushesOf(pushed, i))
    decreases |pushed|
  {
    at := [];
    if pushed != [] {
      var init := pushed[..|pushed| - 1];
      at := ContributedAt(init, i);
      at := PickedNext(at, pushed, (k: nat, p: Payload) => k == i, PushesOf(init, i));
    }
  }

  /** When the writer has left its loop, the output is the pushed payloads in push order, filtered by
      level, and each producer's pushes are exactly the payloads it called log() with, in its order. */
  lemma OutputAtExit(t: State)
    requires Reachable(t) && Finished(t)
    ensures exists at :: Written(at, t.pushed, t.level, t.output)
    ensures forall i :: i in t.calls ==>
              exists at :: Contributed(at, t.pushed, i, t.calls[i])
    ensures t.output == Filtered(t.level, Payloads(t.pushed))
    ensures forall i :: i in t.calls ==> i in t.prods && t.calls[i] == PushesOf(t.pushed, i)
    ensures t.deque == []
  {
    ReachableInv(t);
    assert t.deque == [] && Filtered(t.level, []) == [];
    forall i | i in t.calls
      ensures i in t.prods && t.calls[i] == PushesOf(t.pushed, i)
    {
      assert i in t.prods;
      assert t.calls[i] == PushesOf(t.pushed, i) + NotYetPushed(t.prods[i]);
    }
    var at := WrittenAt(t.pushed, t.level);
    assert t.output == Filtered(t.level, Payloads(t.pushed));
    forall i | i in t.calls
      ensures exists own :: Contributed(own, t.pushed, i, t.calls[i])
    {
      var own := ContributedAt(t.pushed, i);
    }
  }

  // ---- progress ----

  predicate Internal(a: Action)
  {
    a.ProducerStep? || a.EnderStep? || a.WriterStep?
  }

  /** Someone is inside log() or endLogger(), or waits for the writer to finish. */
  predicate Busy(t: State)
  {
    (exists i :: i in t.prods && t.prods[i] != Idle) || (t.ender != Running && !(t.ender == Joining && (t.writer.ExitLocked? || t.writer.Exited?)))
  }

  /** No deadlock: while anyone is busy, some thread can take its next step, without a spurious wake-up. */
  lemma NoDeadlock(t: State)
    requires Reachable(t) && Busy(t)
    ensures exists a :: Internal(a) && Enabled(t, a)
  {
    ReachableInv(t);
    SomeStep(t);
  }

  lemma SomeStep(t: State)
    requires Inv(t) && Busy(t)
    ensures exists a :: Internal(a) && Enabled(t, a)
  {
    if t.semMutex == Nobody {
      FreeSemaphore(t);
    } else {
      HeldSemaphore(t);
    }
  }

  /** Whoever holds the semaphore's mutex can step. */
  lemma HeldSemaphore(t: State)
    requires SemLock(t) && t.semMutex != Nobody
    ensures exists a :: Internal(a) && Enabled(t, a)
  {
    match t.semMutex
    case ByProducer(i) => assert Enabled(t, ProducerStep(i));
    case ByEnder => assert Enabled(t, EnderStep);
    case ByWriter => assert Enabled(t, WriterStep);
  }

  /** With the semaphore free, the holder of the deque, or whoever wants something, can step. */
  lemma FreeSemaphore(t: State)
    requires Locks(t) && Phases(t) && Permits(t) && Sleeps(t) && Fronts(t) && Leaving(t)
    requires Busy(t) && t.semMutex == Nobody
    ensures exists a :: Internal(a) && Enabled(t, a)
  {
    if t.dequeMutex.ByProducer? {
      assert Enabled(t, ProducerStep(t.dequeMutex.i));
    } else if exists i :: i in t.prods && t.prods[i] != Idle {
      var i :| i in t.prods && t.prods[i] != Idle;
      assert Enabled(t, if t.dequeMutex == Nobody then ProducerStep(i) else WriterStep);
    } else {
      assert Enabled(t, if t.ender == Joining then WriterStep else EnderStep);
    }
  }

  function Rank(w: Writer): nat
  {
    match w
    case Popped(_) => 11
    case Unlocking(_, _) => 10
    case Writing(_, _) => 9
    case Waiting => 8
    case Sleeping => 6
    case Checking => 7
    case Acquired => 6
    case Permitted => 5
    case Testing => 4
    case Popping => 3
    case ExitLocked => 0
    case Exited => 0
  }

  function Measure(t: State): nat
  {
    12 * |t.deque| + Rank(t.writer)
  }

  /** After endLogger() the writer is never asleep and never blocked: until it has finished it can step,
      nobody else can, and each step brings it closer to the end. */
  lemma EndedStep(t: State, a: Action)
    requires Locks(t) && Phases(t) && Permits(t) && Sleeps(t) && Fronts(t) && t.ender == Joining
    ensures t.writer != Sleeping
    ensures Enabled(t, a) <==> a == WriterStep && !Finished(t)
    ensures Enabled(t, a) ==> Do(t, a).ender == Joining && Measure(Do(t, a)) < Measure(t)
  {
  }

  /** Every run after endLogger() is bounded by the queue it finds, and if it cannot be continued the writer
      has finished: join returns. */
  lemma {:induction false} EndedRuns(t: State, acts: seq<Action>, u: State)
    requires Inv(t) && t.ender == Joining && Runs(t, acts, u)
    ensures |acts| <= Measure(t) - Measure(u)
    ensures (forall a :: !Enabled(u, a)) ==> Finished(u)
    decreases |acts|
  {
    if acts != [] {
      EndedStep(t, acts[0]);
      InvStep(t, acts[0]);
      EndedRuns(Do(t, acts[0]), acts[1..], u);
    } else if forall a :: !Enabled(u, a) {
      EndedStep(u, WriterStep);
    }
  }

  // ---- from the call of endLogger() on ----

  function EndRank(e: Ender): nat
  {
    match e
    case Running => 0
    case Flagged => 6
    case EndNotifying => 5
    case EndCounted => 4
    case EndSignalled => 1
    case Joining => 0
  }

  function EndMeasure(t: State): nat
  {
    Measure(t) + EndRank(t.ender)
  }

  function SpuriousIn(acts: seq<Action>): nat
  {
    if acts == [] then 0 else (if acts[0] == Spurious then 1 else 0) + SpuriousIn(acts[1..])
  }

  /** Once endLogger() has been called, only its thread and the writer step, and each step uses up the measure;
      a spurious wake-up gives back no more than two. */
  lemma EndingStep(t: State, a: Action)
    requires Locks(t) && Phases(t) && t.ender != Running && Enabled(t, a)
    ensures a in {EnderStep, WriterStep, Spurious}
    ensures Do(t, a).ender != Running && Do(t, a).pushed == t.pushed
    ensures a != Spurious ==> EndMeasure(Do(t, a)) < EndMeasure(t)
    ensures a == Spurious ==> EndMeasure(Do(t, a)) <= EndMeasure(t) + 2
  {
  }

  /** Every run from the call of endLogger() on is bounded, and if no thread can step at its end then endLogger()
      has returned and the writer has finished. */
  lemma {:induction false} EndingRuns(t: State, acts: seq<Action>, u: State)
    requires Inv(t) && t.ender != Running && Runs(t, acts, u)
    ensures |acts| + EndMeasure(u) <= EndMeasure(t) + 3 * SpuriousIn(acts)
    ensures (forall a :: Internal(a) ==> !Enabled(u, a)) ==> u.ender == Joining && Finished(u)
    decreases |acts|
  {
    if acts != [] {
      EndingStep(t, acts[0]);
      InvStep(t, acts[0]);
      EndingRuns(Do(t, acts[0]), acts[1..], u);
    } else if forall a :: Internal(a) ==> !Enabled(u, a) {
      if Busy(u) { SomeStep(u); }
    }
  }

  /** The destructor: from any reachable state in which endLogger() has been called, it returns, the writer gets
      to its end, and has then written everything it should. */
  lemma DestructorCompletes(t: State)
    requires Reachable(t) && t.ender != Running
    ensures exists u, acts ::
              && Runs(t, acts, u) && Finished(u) && u.ender == Joining
              && u.output == Filtered(u.level, Payloads(u.pushed)) && u.pushed == t.pushed
  {
    ReachableInv(t);
    var u, acts := RunToEnd(t);
    assert Filtered(u.level, []) == [];
  }

  lemma {:induction false} RunToEnd(t: State) returns (u: State, acts: seq<Action>)
    requires Inv(t) && t.ender != Running
    ensures Runs(t, acts, u) && Finished(u) && u.ender == Joining && Inv(u) && u.pushed == t.pushed
    decreases EndMeasure(t)
  {
    if !Busy(t) {
      u, acts := t, [];
    } else {
      SomeStep(t);
      var a :| Internal(a) && Enabled(t, a);
      EndingStep(t, a);
      InvStep(t, a);
      u, acts := RunToEnd(Do(t, a));
      assert ([a] + acts)[1..] == acts;
      acts := [a] + acts;
    }
  }
}
