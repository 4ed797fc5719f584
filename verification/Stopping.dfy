/** Which calls of the generated parser stop: exactly those that no token leads around a cycle of calls. */
module Stopping {
  import opened Names
  import opened Tries
  import opened Grammars
  import opened Code
  import opened Parser
  import opened Generator
  import opened Soundness
  import opened Completeness

  /** The key whose branch the code takes on the token `k`: the first one whose test passes. */
  ghost function Taken(g: Grammar, kids: Kids, k: Name): Option<Part>
  {
    if kids.Nil? then None else if Starts(g, kids.part.name, k) then Some(kids.part) else Taken(g, kids.next, k)
  }

  /** On the token `k`, the first thing the code of `r` does is to call `n`. */
  ghost predicate Leads(g: Grammar, k: Name, r: Name, n: Name)
    requires NoEmptyAlternative(g)
  {
    r in RuleNames(g) && match Taken(g, TrieOf(g, r).kids, k)
      case None => false
      case Some(p) => IsCall(g, p) && p.name == n
  }

  ghost predicate Leading(g: Grammar, k: Name, c: seq<Name>)
    requires NoEmptyAlternative(g)
  {
    forall i :: 0 <= i < |c| - 1 ==> Leads(g, k, c[i], c[i + 1])
  }

  ghost predicate Cycle(g: Grammar, k: Name, c: seq<Name>)
    requires NoEmptyAlternative(g)
  {
    |c| > 1 && c[0] == c[|c| - 1] && Leading(g, k, c)
  }

  ghost predicate LoopFree(g: Grammar)
    requires NoEmptyAlternative(g)
  {
    forall k, c :: !Cycle(g, k, c)
  }

  ghost predicate Stops(prog: seq<Fn>, r: Name, input: seq<Token>)
  {
    exists fuel: nat :: Parse(prog, r, input, fuel).Done? || Parse(prog, r, input, fuel).Threw?
  }

  /** The rest of a chain from the first branch on whose test passes. */
  function Skip(prog: seq<Fn>, c: Code, input: seq<Token>): Code
  {
    if c.If? && !Passes(prog, c.test, input) then Skip(prog, c.els, input) else c
  }

  lemma {:induction false} SkipExec(prog: seq<Fn>, c: Code, env: Env, input: seq<Token>, fuel: nat)
    ensures Exec(prog, c, env, input, fuel) == Exec(prog, Skip(prog, c, input), env, input, fuel)
  {
    if c.If? && !Passes(prog, c.test, input) { SkipExec(prog, c.els, env, input, fuel); }
  }

  lemma SkipStep(g: Grammar, prog: seq<Fn>, rule: Name, kids: Kids, names: seq<Name>, base: nat, els: Code, input: seq<Token>)
    requires kids.Kid?
    ensures var rest := CompileKids(g, rule, kids.next, names, base + ErrCount(kids.sub), els);
            Skip(prog, CompileKids(g, rule, kids, names, base, els), input) ==
            if Passes(prog, TestOf(g, kids.part), input) then Branch(g, rule, kids.part, kids.sub, names, base, rest)
            else Skip(prog, rest, input)
  {
  }

  /** The chain of branches comes down to the one taken, or to what stands behind the last one. */
  lemma {:induction false} Choose(g: Grammar, prog: seq<Fn>, errs: seq<ErrorStuff>, rule: Name, t: Trie, kids: Kids,
                                  names: seq<Name>, base: nat, els: Code, input: seq<Token>)
    returns (s: Trie, base': nat, els': Code)
    requires Implements(g, prog, errs) && Suffix(kids, t)
    requires input != [] && Taken(g, kids, input[0].kind).Some?
    ensures var p := Taken(g, kids, input[0].kind).value;
            && Lookup(t.kids, p.name) == Some((p, s)) && Live(s) && Sorted(s) && Passes(prog, TestOf(g, p), input)
            && Skip(prog, CompileKids(g, rule, kids, names, base, els), input) == Branch(g, rule, p, s, names, base', els')
    decreases kids
  {
    SuffixNext(kids, t);
    PassesMeaning(g, prog, errs, kids.part, input);
    SkipStep(g, prog, rule, kids, names, base, els, input);
    if Passes(prog, TestOf(g, kids.part), input) {
      s, base' := kids.sub, base;
      els' := CompileKids(g, rule, kids.next, names, base + ErrCount(kids.sub), els);
    } else {
      s, base', els' := Choose(g, prog, errs, rule, t, kids.next, names, base + ErrCount(kids.sub), els, input);
    }
  }

  lemma {:induction false} TakenAny(g: Grammar, kids: Kids, k: Name)
    ensures Taken(g, kids, k).Some? <==> StartsAny(g, kids, k)
    ensures Taken(g, kids, k).Some? ==> Starts(g, Taken(g, kids, k).value.name, k)
  {
    if kids.Kid? { TakenAny(g, kids.next, k); }
  }

  /** Fuel enough for the action and fuel enough for the body together suffice for the branch. */
  lemma JoinFuel(prog: seq<Fn>, c: Code, env: Env, input: seq<Token>, fuel1: nat, fuel2: nat, fuel: nat)
    requires c.If? && Passes(prog, c.test, input) && fuel1 <= fuel && fuel2 <= fuel
    requires c.act.Call? ==> Parse(prog, c.act.rule, input, fuel1) != OutOfFuel
    requires var step := Perform(prog, c.act, env, input, fuel1);
             step.Go? ==> Exec(prog, c.body, step.env, step.rest, fuel2) != OutOfFuel
    ensures Exec(prog, c, env, input, fuel) != OutOfFuel
  {
    if c.act.Call? { MoreFuelParse(prog, c.act.rule, input, fuel1, fuel); }
    var step := Perform(prog, c.act, env, input, fuel1);
    if step.Go? { MoreFuelExec(prog, c.body, step.env, step.rest, fuel2, fuel); }
  }

  // ---- without a cycle ----

  function Members(c: seq<Name>): set<Name>
  {
    set n | n in c
  }

  /** A call of `r` stops. `c` holds the rules that are being called without a token consumed in between, `r`
      being the last of them. */
  lemma {:induction false} StopParse(g: Grammar, prog: seq<Fn>, errs: seq<ErrorStuff>, r: Name, input: seq<Token>, c: seq<Name>)
    returns (fuel: nat)
    requires Implements(g, prog, errs) && LoopFree(g) && r in RuleNames(g)
    requires c != [] && c[|c| - 1] == r && (input != [] ==> Leading(g, input[0].kind, c))
    ensures Parse(prog, r, input, fuel) != OutOfFuel
    decreases |input|, 2, |RuleNames(g) - Members(c)|, 1
  {
    var fn, base := FnFor(g, prog, errs, r);
    fuel := StopRoot(g, prog, errs, r, base, input, c);
    fuel := fuel + 1;
  }

  lemma {:induction false} StopRoot(g: Grammar, prog: seq<Fn>, errs: seq<ErrorStuff>, r: Name, base: nat,
                                    input: seq<Token>, c: seq<Name>)
    returns (fuel: nat)
    requires Implements(g, prog, errs) && LoopFree(g) && r in RuleNames(g)
    requires c != [] && c[|c| - 1] == r && (input != [] ==> Leading(g, input[0].kind, c))
    ensures Exec(prog, Compile(g, r, TrieOf(g, r), [], base), map[], input, fuel) != OutOfFuel
    decreases |input|, 2, |RuleNames(g) - Members(c)|, 0
  {
    var t := TrieOf(g, r);
    TrieShape(g, r);
    fuel := 0;
    if input == [] || Taken(g, t.kids, input[0].kind).None? {
      if input != [] { TakenAny(g, t.kids, input[0].kind); }
      Quiet(g, prog, errs, r, t.kids, [], base, Otherwise(t, base), map[], input, 0);
    } else {
      var p := Taken(g, t.kids, input[0].kind).value;
      var s, base', els' := Choose(g, prog, errs, r, t, t.kids, [], base, Otherwise(t, base), input);
      var fuel1 := 0;
      if IsCall(g, p) {
        Unseen(g, input[0].kind, c, p.name);
        fuel1 := StopParse(g, prog, errs, p.name, input, c + [p.name]);
      }
      fuel := StopBranch(g, prog, errs, r, t, p, s, [], base, base', map[], input, fuel1, els');
    }
  }

  /** The rule called next is not being called yet, so that fewer are left. */
  lemma Unseen(g: Grammar, k: Name, c: seq<Name>, n: Name)
    requires NoEmptyAlternative(g) && LoopFree(g) && c != [] && Leading(g, k, c) && Leads(g, k, c[|c| - 1], n)
    requires n in RuleNames(g)
    ensures Leading(g, k, c + [n])
    ensures |RuleNames(g) - Members(c + [n])| < |RuleNames(g) - Members(c)|
  {
    LeadingOn(g, k, c, n);
    if n in c {
      var i :| 0 <= i < |c| && c[i] == n;
      var d := c[i..] + [n];
      assert forall j :: 0 <= j < |d| ==> d[j] == (c + [n])[i + j];
      assert Cycle(g, k, d);
    }
    FewerLeft(RuleNames(g), c, n);
  }

  lemma LeadingOn(g: Grammar, k: Name, c: seq<Name>, n: Name)
    requires NoEmptyAlternative(g) && c != [] && Leading(g, k, c) && Leads(g, k, c[|c| - 1], n)
    ensures Leading(g, k, c + [n])
  {
  }

  lemma FewerLeft(all: set<Name>, c: seq<Name>, n: Name)
    requires n in all && n !in c
    ensures |all - Members(c + [n])| < |all - Members(c)|
  {
    assert n in all - Members(c);
    assert all - Members(c + [n]) == (all - Members(c)) - {n};
  }

  lemma {:induction false} StopNode(g: Grammar, prog: seq<Fn>, errs: seq<ErrorStuff>, rule: Name, t: Trie, names: seq<Name>,
                                    base: nat, env: Env, input: seq<Token>)
    returns (fuel: nat)
    requires Implements(g, prog, errs) && LoopFree(g) && Live(t) && Sorted(t)
    ensures Exec(prog, Compile(g, rule, t, names, base), env, input, fuel) != OutOfFuel
    decreases |input|, 3
  {
    var els := Otherwise(t, base);
    fuel := 0;
    if t.kids.Kid? {
      if input == [] || Taken(g, t.kids, input[0].kind).None? {
        if input != [] { TakenAny(g, t.kids, input[0].kind); }
        Quiet(g, prog, errs, rule, t.kids, names, base, els, env, input, 0);
      } else {
        var p := Taken(g, t.kids, input[0].kind).value;
        var s, base', els' := Choose(g, prog, errs, rule, t, t.kids, names, base, els, input);
        var fuel1 := 0;
        if IsCall(g, p) { fuel1 := StopParse(g, prog, errs, p.name, input, [p.name]); }
        fuel := StopBranch(g, prog, errs, rule, t, p, s, names, base, base', env, input, fuel1, els');
      }
    }
  }

  lemma {:induction false} StopBranch(g: Grammar, prog: seq<Fn>, errs: seq<ErrorStuff>, rule: Name, t: Trie, p: Part, s: Trie,
                                      names: seq<Name>, base: nat, base': nat, env: Env, input: seq<Token>, fuel1: nat, els': Code)
    returns (fuel: nat)
    requires Implements(g, prog, errs) && LoopFree(g) && Live(s) && Sorted(s)
    requires Skip(prog, Compile(g, rule, t, names, base), input) == Branch(g, rule, p, s, names, base', els')
    requires Passes(prog, TestOf(g, p), input)
    requires IsCall(g, p) ==> Parse(prog, p.name, input, fuel1) != OutOfFuel
    ensures Exec(prog, Compile(g, rule, t, names, base), env, input, fuel) != OutOfFuel
    decreases |input|, 1
  {
    fuel := fuel1;
    var branch := Branch(g, rule, p, s, names, base', els');
    var step := Perform(prog, ActOf(g, p), env, input, fuel1);
    if step.Go? {
      var tree := SoundAct(g, prog, errs, p, env, input, fuel1);
      FitStarts(g, p, tree);
      var fuel2 := StopNode(g, prog, errs, rule, s, Push(g, names, p), base', step.env, step.rest);
      fuel := if fuel1 > fuel2 then fuel1 else fuel2;
      JoinFuel(prog, branch, env, input, fuel1, fuel2, fuel);
    }
    SkipExec(prog, Compile(g, rule, t, names, base), env, input, fuel);
  }

  // ---- with a cycle ----

  /** A call of a rule on a cycle never comes to a result, whatever the number of steps allowed. */
  lemma {:induction false} Diverges(g: Grammar, prog: seq<Fn>, errs: seq<ErrorStuff>, c: seq<Name>, i: nat,
                                    input: seq<Token>, fuel: nat)
    requires Implements(g, prog, errs) && input != [] && Cycle(g, input[0].kind, c) && i < |c|
    ensures Parse(prog, c[i], input, fuel) == OutOfFuel
    decreases fuel
  {
    if fuel > 0 {
      var j := if i == |c| - 1 then 0 else i;
      assert Leads(g, input[0].kind, c[j], c[j + 1]);
      Diverges(g, prog, errs, c, j + 1, input, fuel - 1);
      CallFirst(g, prog, errs, c[j], c[j + 1], input, fuel - 1);
    }
  }

  /** A call that begins with a call without a result has none. */
  lemma CallFirst(g: Grammar, prog: seq<Fn>, errs: seq<ErrorStuff>, r: Name, n: Name, input: seq<Token>, fuel: nat)
    requires Implements(g, prog, errs) && input != [] && Leads(g, input[0].kind, r, n)
    requires Parse(prog, n, input, fuel) == OutOfFuel
    ensures Parse(prog, r, input, fuel + 1) == OutOfFuel
  {
    var t := TrieOf(g, r);
    var fn, base := FnFor(g, prog, errs, r);
    TrieShape(g, r);
    var s, base', els' := Choose(g, prog, errs, r, t, t.kids, [], base, Otherwise(t, base), input);
    SkipExec(prog, fn.code, map[], input, fuel);
    OutInBranch(prog, Skip(prog, fn.code, input), input, fuel);
  }

  lemma OutInBranch(prog: seq<Fn>, c: Code, input: seq<Token>, fuel: nat)
    requires c.If? && Passes(prog, c.test, input) && c.act.Call? && Parse(prog, c.act.rule, input, fuel) == OutOfFuel
    ensures Exec(prog, c, map[], input, fuel) == OutOfFuel
  {
  }

  /** Every call of every rule stops on every input, with a return or a throw, if and only if no token leads
      around a cycle of first calls. */
  lemma StopsExactly(g: Grammar, prog: seq<Fn>, errs: seq<ErrorStuff>)
    requires Implements(g, prog, errs)
    ensures (forall r, input :: r in RuleNames(g) ==> Stops(prog, r, input)) <==> LoopFree(g)
  {
    if LoopFree(g) {
      forall r, input | r in RuleNames(g) ensures Stops(prog, r, input) {
        var fuel := StopParse(g, prog, errs, r, input, [r]);
        ProperParse(g, prog, errs, r, input, fuel);
      }
    } else {
      var k, c :| Cycle(g, k, c);
      var input := [Token(k, "")];
      forall fuel: nat ensures Parse(prog, c[0], input, fuel) == OutOfFuel {
        Diverges(g, prog, errs, c, 0, input, fuel);
      }
      assert Leads(g, k, c[0], c[1]);
      assert !Stops(prog, c[0], input);
    }
  }

  /** A rule that begins with itself: E -> E t | t. */
  const LEFT := Grammar([("E", [Part("E", "e", "More"), Part("t", "", "")]), ("E", [Part("t", "", "One")])], {"t"})

  lemma LeftTrie()
    ensures NoEmptyAlternative(LEFT) && RuleNames(LEFT) == {"E"}
    ensures TrieOf(LEFT, "E").kids.Kid? && TrieOf(LEFT, "E").kids.part == Part("E", "e", "More")
  {
    var a, b := LEFT.rules[0].1, LEFT.rules[1].1;
    assert LEFT.rules[0].0 == "E" && LEFT.rules[1].0 == "E";
    assert LEFT.rules[1..] == [LEFT.rules[1]] && LEFT.rules[1..][1..] == [];
    assert Alternatives(LEFT.rules[1..], "E") == [b];
    assert Alternatives(LEFT.rules, "E") == [a, b] && [a, b][1..] == [b] && [b][1..] == [];
    var t := Insert(EMPTY, a, "More");
    assert t.kids == Kid(a[0], Insert(EMPTY, a[1..], "More"), Nil);
    assert !Less("t", "E");
    assert Insert(t, b, "One").kids == Kid(a[0], t.kids.sub, InsertKids(Nil, b, "One"));
    assert Build(EMPTY, [a, b]) == Build(Insert(t, b, "One"), []);
  }

  lemma LeftCycle()
    ensures NoEmptyAlternative(LEFT) && Cycle(LEFT, "t", ["E", "E"])
  {
    LeftTrie();
    assert BeginsWith(LEFT, "E", "t") by { assert LEFT.rules[1].0 == "E" && LEFT.rules[1].1[0].name == "t"; }
    StartsTerminal(LEFT, "t", "t");
    StartsStep(LEFT, "E", "t", "t");
    assert Leads(LEFT, "t", "E", "E");
  }

  lemma {:induction false} LeftDerives(t: Token)
    requires t.kind == "t"
    ensures Derives(LEFT, Inner("E", More("t", Leaf(t), Empty)))
  {
    LeftTrie();
    var a := LEFT.rules[1].1;
    assert ("E", a) == LEFT.rules[1] && NamesOf(a) == ["t"];
    assert Symbols(More("t", Leaf(t), Empty)) == ["t"] + [];
    assert a in Alternatives(LEFT.rules, "E");
  }

  /** Its parser never comes to a result on the input t, which it derives. */
  lemma {:induction false} LeftRecursionDiverges(prog: seq<Fn>, errs: seq<ErrorStuff>, t: Token)
    requires Implements(LEFT, prog, errs) && t.kind == "t"
    ensures !LoopFree(LEFT) && !Stops(prog, "E", [t])
    ensures Derives(LEFT, Inner("E", More("t", Leaf(t), Empty)))
  {
    LeftCycle();
    LeftDerives(t);
    forall fuel: nat ensures Parse(prog, "E", [t], fuel) == OutOfFuel {
      Diverges(LEFT, prog, errs, ["E", "E"], 0, [t], fuel);
    }
  }

  // ---- conditions that rule cycles out ----

  /** The code of `r` can call `n` before it has consumed anything. */
  predicate CallsFirst(g: Grammar, r: Name, n: Name)
    requires NoEmptyAlternative(g)
  {
    r in RuleNames(g) && match Lookup(TrieOf(g, r).kids, n)
      case None => false
      case Some(e) => IsCall(g, e.0)
  }

  lemma {:induction false} TakenIsKey(g: Grammar, kids: Kids, t: Trie, k: Name)
    requires Suffix(kids, t) && Taken(g, kids, k).Some?
    ensures var p := Taken(g, kids, k).value; Lookup(t.kids, p.name).Some? && Lookup(t.kids, p.name).value.0 == p
    decreases kids
  {
    SuffixNext(kids, t);
    if !Starts(g, kids.part.name, k) { TakenIsKey(g, kids.next, t, k); }
  }

  lemma LeadsCalls(g: Grammar, k: Name, r: Name, n: Name)
    requires NoEmptyAlternative(g) && Leads(g, k, r, n)
    ensures CallsFirst(g, r, n) && Starts(g, n, k)
  {
    TrieShape(g, r);
    TakenIsKey(g, TrieOf(g, r).kids, TrieOf(g, r), k);
    TakenAny(g, TrieOf(g, r).kids, k);
  }

  /** No rule can come back to itself through calls made before a token is consumed. */
  lemma NoLeftRecursion(g: Grammar)
    requires NoEmptyAlternative(g)
    requires forall c: seq<Name> :: |c| > 1 && c[0] == c[|c| - 1] ==>
               exists i :: 0 <= i < |c| - 1 && !CallsFirst(g, c[i], c[i + 1])
    ensures LoopFree(g)
  {
    forall k, c ensures !Cycle(g, k, c) {
      if Cycle(g, k, c) {
        var i :| 0 <= i < |c| - 1 && !CallsFirst(g, c[i], c[i + 1]);
        LeadsCalls(g, k, c[i], c[i + 1]);
      }
    }
  }

  lemma {:induction false} UniqueStart(g: Grammar, kids: Kids, n: Name, m: Name, k: Name)
    requires DistinctKids(g, kids) && Lookup(kids, n).Some? && Lookup(kids, m).Some?
    requires Starts(g, n, k) && Starts(g, m, k)
    ensures n == m
  {
    if kids.part.name == n && kids.part.name != m { LookupStarts(g, kids.next, m, k); }
    else if kids.part.name == m && kids.part.name != n { LookupStarts(g, kids.next, n, k); }
    else if kids.part.name != n { UniqueStart(g, kids.next, n, m, k); }
  }

  /** Among the keys at the root of `r`, the one that begins with `k` is the next link of the chain. */
  lemma ChainLeads(g: Grammar, r: Name, n: Name, k: Name, c: seq<Name>)
    requires NoEmptyAlternative(g) && AllDistinct(g) && r in RuleNames(g)
    requires Lookup(TrieOf(g, r).kids, n).Some? && Starts(g, n, k)
    requires Starts(g, r, k) ==> Chain(g, c) && c[0] == r && c[|c| - 1] == k
    ensures |c| > 1 && Chain(g, c[1..]) && c[1] == n && c[|c| - 1] == k
  {
    assert RuleDistinct(g, r);
    RootKeyBegins(g, r, n);
    StartsStep(g, r, n, k);
    ChainTail(g, c);
    RootKeyBegins(g, r, c[1]);
    UniqueStart(g, TrieOf(g, r).kids, n, c[1], k);
  }

  lemma ChainTail(g: Grammar, c: seq<Name>)
    requires Chain(g, c) && c[0] in RuleNames(g)
    ensures |c| > 1 && Chain(g, c[1..]) && BeginsWith(g, c[0], c[1]) && Starts(g, c[1], c[|c| - 1])
  {
    assert forall i :: 0 <= i < |c[1..]| - 1 ==> BeginsWith(g, c[1..][i], c[1..][i + 1]) by {
      forall i | 0 <= i < |c[1..]| - 1 ensures BeginsWith(g, c[1..][i], c[1..][i + 1]) {
        assert BeginsWith(g, c[i + 1], c[i + 2]);
      }
    }
  }

  /** With disjoint siblings, the calls made on a token follow the chain that puts it into FIRST, to its end. */
  lemma {:induction false} ChainEnds(g: Grammar, k: Name, c: seq<Name>, i: nat, d: seq<Name>)
    requires NoEmptyAlternative(g) && AllDistinct(g) && Cycle(g, k, c) && i < |c|
    requires Chain(g, d) && d[0] == c[i] && d[|d| - 1] == k
    ensures false
    decreases |d|
  {
    var j := if i == |c| - 1 then 0 else i;
    assert Leads(g, k, c[j], c[j + 1]);
    LeadsCalls(g, k, c[j], c[j + 1]);
    ChainLeads(g, c[j], c[j + 1], k, d);
    ChainEnds(g, k, c, j + 1, d[1..]);
  }

  lemma DistinctLoopFree(g: Grammar)
    requires NoEmptyAlternative(g) && AllDistinct(g)
    ensures LoopFree(g)
  {
    forall k, c ensures !Cycle(g, k, c) {
      if Cycle(g, k, c) {
        assert Leads(g, k, c[0], c[1]);
        LeadsCalls(g, k, c[0], c[1]);
        var d :| Chain(g, d) && d[0] == c[1] && d[|d| - 1] == k;
        ChainEnds(g, k, c, 1, d);
      }
    }
  }

  /** With disjoint siblings every call stops on every input. */
  lemma Termination(g: Grammar, prog: seq<Fn>, errs: seq<ErrorStuff>, r: Name, input: seq<Token>)
    requires Implements(g, prog, errs) && AllDistinct(g) && r in RuleNames(g)
    ensures Stops(prog, r, input)
  {
    DistinctLoopFree(g);
    StopsExactly(g, prog, errs);
  }
}
