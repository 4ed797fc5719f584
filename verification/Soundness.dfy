/** Whatever the generated parser accepts, it has derived; and it never runs off its own text. */
module Soundness {
  import opened Names
  import opened Tries
  import opened Grammars
  import opened Code
  import opened Parser
  import opened Generator

  /** `prog` has, for every rule and nothing else, the function generated from its trie, with its
      error entries in `errs`. */
  ghost predicate Implements(g: Grammar, prog: seq<Fn>, errs: seq<ErrorStuff>)
  {
    NoEmptyAlternative(g) && forall n :: HasRule(g, prog, errs, n)
  }

  ghost predicate HasRule(g: Grammar, prog: seq<Fn>, errs: seq<ErrorStuff>, n: Name)
    requires NoEmptyAlternative(g)
  {
    if n in RuleNames(g) then Find(prog, n).Some? && IsFnOf(g, n, Find(prog, n).value, errs)
    else Find(prog, n).None?
  }

  ghost predicate IsFnOf(g: Grammar, n: Name, f: Fn, errs: seq<ErrorStuff>)
    requires NoEmptyAlternative(g)
  {
    && f.name == n
    && (forall k :: k in f.look <==> Starts(g, n, k))
    && exists base :: IsCodeOf(g, n, f.code, base, errs)
  }

  ghost predicate IsCodeOf(g: Grammar, n: Name, code: Code, base: nat, errs: seq<ErrorStuff>)
    requires NoEmptyAlternative(g)
  {
    && code == Compile(g, n, TrieOf(g, n), [], base)
    && Holds(errs, base, PutErrors([], n, TrieOf(g, n), n, 1))
  }

  /** `part` stands in `errs` from position `base` on. */
  ghost predicate Holds(errs: seq<ErrorStuff>, base: nat, part: seq<ErrorStuff>)
  {
    base + |part| <= |errs| && errs[base..base + |part|] == part
  }

  // ---- the generated program ----

  lemma {:induction false} FindAppended(fns: seq<Fn>, f: Fn, n: Name)
    ensures Find(fns + [f], n) == if Find(fns, n).Some? then Find(fns, n) else if f.name == n then Some(f) else None
  {
    if fns != [] {
      assert (fns + [f])[1..] == fns[1..] + [f];
      FindAppended(fns[1..], f, n);
    }
  }

  lemma {:induction false} ProgramFinds(g: Grammar, first: FirstTable, names: seq<Name>, n: Name, more: seq<ErrorStuff>)
    requires IsFirst(g, first) && NoEmptyAlternative(g) && forall m :: m in names ==> m in first
    ensures var r := Find(ProgramFor(g, first, names), n);
            if n in names then r.Some? && IsFnOf(g, n, r.value, ErrorsFor(g, names) + more) else r.None?
    decreases |names|
  {
    if names != [] {
      var init, m := names[..|names| - 1], names[|names| - 1];
      var base, own := |ErrorsFor(g, init)|, PutErrors([], m, TrieOf(g, m), m, 1);
      PutErrorsAppends(ErrorsFor(g, init), m, TrieOf(g, m), m, 1);
      Assoc(ErrorsFor(g, init), own, more);
      ProgramFinds(g, first, init, n, own + more);
      assert names == init + [m];
      var f := FnOf(g, first, m, base);
      FindAppended(ProgramFor(g, first, init), f, n);
      assert IsCodeOf(g, m, f.code, base, ErrorsFor(g, names) + more);
    }
  }

  lemma {:induction false} PutErrorsAppends(errs: seq<ErrorStuff>, rule: Name, t: Trie, part: Name, depth: nat)
    ensures PutErrors(errs, rule, t, part, depth) == errs + PutErrors([], rule, t, part, depth)
    decreases t, 1
  {
    if t.kids.Kid? { PutErrorsKidsAppends(errs, rule, t.kids, depth); }
  }

  lemma {:induction false} PutErrorsKidsAppends(errs: seq<ErrorStuff>, rule: Name, kids: Kids, depth: nat)
    ensures PutErrorsKids(errs, rule, kids, depth) == errs + PutErrorsKids([], rule, kids, depth)
    decreases kids, 0
  {
    match kids
    case Nil =>
    case Kid(p, s, next) =>
      var own := PutErrors([], rule, s, p.name, depth + 1);
      PutErrorsAppends(errs, rule, s, p.name, depth + 1);
      PutErrorsKidsAppends(PutErrors(errs, rule, s, p.name, depth + 1), rule, next, depth);
      PutErrorsKidsAppends(own, rule, next, depth);
      Assoc(errs, own, PutErrorsKids([], rule, next, depth));
  }

  /** What `genRules()` emits implements the grammar. */
  lemma ProgramImplements(g: Grammar, first: FirstTable)
    requires IsFirst(g, first) && NoEmptyAlternative(g)
    ensures forall n :: n in Order(g.rules) ==> n in first
    ensures Implements(g, ProgramFor(g, first, Order(g.rules)), ErrorsFor(g, Order(g.rules)))
  {
    var names := Order(g.rules);
    OrderNames(g, g.rules);
    assert ErrorsFor(g, names) + [] == ErrorsFor(g, names);
    forall n
      ensures HasRule(g, ProgramFor(g, first, names), ErrorsFor(g, names), n)
    {
      ProgramFinds(g, first, names, n, []);
    }
  }

  lemma TrieShape(g: Grammar, n: Name)
    requires NoEmptyAlternative(g) && n in RuleNames(g)
    ensures var t := TrieOf(g, n); Sorted(t) && Live(t) && t.kids.Kid? && t.value.None?
  {
    var i :| 0 <= i < |g.rules| && g.rules[i].0 == n;
    assert g.rules[i] == (n, g.rules[i].1) && g.rules[i].1 in Alternatives(g.rules, n);
    BuildShape(EMPTY, Alternatives(g.rules, n));
  }

  /** The function of a rule. */
  lemma FnFor(g: Grammar, prog: seq<Fn>, errs: seq<ErrorStuff>, r: Name) returns (fn: Fn, base: nat)
    requires Implements(g, prog, errs) && r in RuleNames(g)
    ensures Find(prog, r) == Some(fn) && IsCodeOf(g, r, fn.code, base, errs)
  {
    assert HasRule(g, prog, errs, r);
    fn := Find(prog, r).value;
    base :| IsCodeOf(g, r, fn.code, base, errs);
  }

  lemma PassesMeaning(g: Grammar, prog: seq<Fn>, errs: seq<ErrorStuff>, p: Part, input: seq<Token>)
    requires Implements(g, prog, errs)
    ensures Passes(prog, TestOf(g, p), input) <==> input != [] && Starts(g, p.name, input[0].kind)
  {
    assert HasRule(g, prog, errs, p.name);
    if p.name !in RuleNames(g) && input != [] {
      StartsTerminal(g, p.name, input[0].kind);
    }
  }

  // ---- no path through the text goes wrong ----

  ghost predicate Refused(g: Grammar, names: seq<Name>, at: seq<Token>)
  {
    at == [] || forall n :: n in names ==> !Starts(g, n, at[0].kind)
  }

  /** The way of a parse that ends in a throw: it reads trees along a path of a trie, and at the node it has
      come to then it is refused, or it calls a rule and goes on there. */
  datatype Halt = Here | Past(sym: Name, tree: Tree, next: Halt) | Inside(sym: Name, call: Halt)

  /** The way `h` from node `t`, which has been reached over `part` at `depth`, explains the throw `id`: what it
      passes is read, the rest is exactly `at`, and the entry is that of the valueless node where it ends, with
      all its keys, none of which can begin with the current token. */
  ghost predicate Halts(g: Grammar, errs: seq<ErrorStuff>, rule: Name, t: Trie, part: Name, depth: nat, h: Halt,
                        input: seq<Token>, id: nat, at: seq<Token>)
    requires NoEmptyAlternative(g)
    decreases h
  {
    match h
    case Here =>
      && input == at && t.value.None? && id < |errs|
      && errs[id] == ErrorStuff(rule, part, depth, PossibleOf(t.kids))
      && Refused(g, PossibleOf(t.kids), at)
    case Past(sym, tree, next) =>
      && Lookup(t.kids, sym).Some? && Fits(g, Lookup(t.kids, sym).value.0, tree)
      && Yield(tree) <= input
      && Halts(g, errs, rule, Lookup(t.kids, sym).value.1, sym, depth + 1, next, input[|Yield(tree)|..], id, at)
    case Inside(sym, call) =>
      && Lookup(t.kids, sym).Some? && IsCall(g, Lookup(t.kids, sym).value.0)
      && Halts(g, errs, sym, TrieOf(g, sym), sym, 1, call, input, id, at)
  }

  ghost predicate Blames(g: Grammar, errs: seq<ErrorStuff>, rule: Name, t: Trie, part: Name, depth: nat,
                         input: seq<Token>, id: nat, at: seq<Token>)
    requires NoEmptyAlternative(g)
  {
    exists h :: Halts(g, errs, rule, t, part, depth, h, input, id, at)
  }

  lemma {:induction false} SkipKid(kids: Kids, n: Name)
    requires SortedKids(kids) && kids.Kid? && Lookup(kids.next, n).Some?
    ensures n != kids.part.name
  {
    if kids.next.Kid? && n == kids.part.name { AbsentBelow(kids.next, n); }
  }

  /** The kids still to be tried at node `t`. */
  ghost predicate Suffix(kids: Kids, t: Trie)
  {
    SortedKids(kids) && LiveKids(kids) && forall n :: Lookup(kids, n).Some? ==> Lookup(t.kids, n) == Lookup(kids, n)
  }

  lemma SuffixNext(kids: Kids, t: Trie)
    requires kids.Kid? && Suffix(kids, t)
    ensures Suffix(kids.next, t) && Lookup(t.kids, kids.part.name) == Some((kids.part, kids.sub))
  {
    forall n | Lookup(kids.next, n).Some?
      ensures Lookup(t.kids, n) == Lookup(kids.next, n)
    {
      SkipKid(kids, n);
    }
  }

  /** A block is left without a return only untouched and only where its node holds a value, so the
      return that follows it is reached with the tokens still in place. */
  ghost predicate Proper(g: Grammar, errs: seq<ErrorStuff>, rule: Name, t: Trie, part: Name, depth: nat,
                         res: Res, input: seq<Token>, open: bool)
    requires NoEmptyAlternative(g)
  {
    match res
    case Done(_, rest) => true
    case Fell(left) => open && left == input
    case Threw(id, at) => Blames(g, errs, rule, t, part, depth, input, id, at)
    case Stuck => false
    case OutOfFuel => true
  }

  lemma {:induction false} ProperParse(g: Grammar, prog: seq<Fn>, errs: seq<ErrorStuff>, r: Name, input: seq<Token>, fuel: nat)
    requires Implements(g, prog, errs) && r in RuleNames(g)
    ensures Proper(g, errs, r, TrieOf(g, r), r, 1, Parse(prog, r, input, fuel), input, false)
    decreases fuel, 0
  {
    if fuel > 0 {
      var t := TrieOf(g, r);
      var f, base := FnFor(g, prog, errs, r);
      TrieShape(g, r);
      ProperNode(g, prog, errs, r, t, [], base, r, 1, map[], input, fuel - 1);
    }
  }

  lemma {:induction false} ProperNode(g: Grammar, prog: seq<Fn>, errs: seq<ErrorStuff>, rule: Name, t: Trie, names: seq<Name>,
                                      base: nat, part: Name, depth: nat, env: Env, input: seq<Token>, fuel: nat)
    requires Implements(g, prog, errs) && Live(t) && Sorted(t)
    requires Holds(errs, base, PutErrors([], rule, t, part, depth))
    requires forall n :: n in names ==> n in env
    ensures Proper(g, errs, rule, t, part, depth, Exec(prog, Compile(g, rule, t, names, base), env, input, fuel),
                   input, t.value.Some?)
    decreases fuel, 2, t, 1
  {
    if t.kids.Kid? {
      HoldsSplit(errs, base, PutErrorsKids([], rule, t.kids, depth),
                 if t.value.None? then [ErrorStuff(rule, part, depth, PossibleOf(t.kids))] else []);
      if t.value.None? {
        assert errs[base + ErrCountKids(t.kids)] == PutErrors([], rule, t, part, depth)[ErrCountKids(t.kids)];
      }
      ProperKids(g, prog, errs, rule, t, part, t.kids, [], names, base, depth, Otherwise(t, base), env, input, fuel);
    }
  }

  function Branch(g: Grammar, rule: Name, p: Part, s: Trie, names: seq<Name>, base: nat, els: Code): Code
  {
    If(TestOf(g, p), ActOf(g, p), Compile(g, rule, s, Push(g, names, p), base), RetOf(rule, s, Push(g, names, p)), els)
  }

  lemma KidsCode(g: Grammar, rule: Name, kids: Kids, names: seq<Name>, base: nat, els: Code)
    requires kids.Kid?
    ensures CompileKids(g, rule, kids, names, base, els) ==
            Branch(g, rule, kids.part, kids.sub, names, base,
                   CompileKids(g, rule, kids.next, names, base + ErrCount(kids.sub), els))
  {
  }

  /** A branch whose test fails leaves the rest of the chain. */
  lemma SkipBranch(prog: seq<Fn>, c: Code, env: Env, input: seq<Token>, fuel: nat)
    requires c.If? && !Passes(prog, c.test, input)
    ensures Exec(prog, c, env, input, fuel) == Exec(prog, c.els, env, input, fuel)
  {
  }

  /** What stands behind the last branch of node `t`. */
  ghost predicate Ends(errs: seq<ErrorStuff>, rule: Name, t: Trie, part: Name, depth: nat, els: Code)
  {
    if t.value.Some? then els == Fall
    else els.Throw? && els.id < |errs| && errs[els.id] == ErrorStuff(rule, part, depth, PossibleOf(t.kids))
  }

  lemma {:induction false} ProperKids(g: Grammar, prog: seq<Fn>, errs: seq<ErrorStuff>, rule: Name, t: Trie, part: Name,
                                      kids: Kids, tried: seq<Name>, names: seq<Name>, base: nat, depth: nat, els: Code,
                                      env: Env, input: seq<Token>, fuel: nat)
    requires Implements(g, prog, errs) && Suffix(kids, t) && Ends(errs, rule, t, part, depth, els)
    requires Holds(errs, base, PutErrorsKids([], rule, kids, depth))
    requires forall n :: n in names ==> n in env
    requires PossibleOf(t.kids) == tried + PossibleOf(kids) && Refused(g, tried, input)
    ensures Proper(g, errs, rule, t, part, depth, Exec(prog, CompileKids(g, rule, kids, names, base, els), env, input, fuel),
                   input, t.value.Some?)
    decreases fuel, 2, kids, 0
  {
    match kids
    case Nil => ProperEnd(g, prog, errs, rule, t, part, depth, tried, els, env, input, fuel);
    case Kid(p, s, next) =>
      SuffixNext(kids, t);
      HoldsKids(errs, base, rule, kids, depth);
      KidsCode(g, rule, kids, names, base, els);
      var els' := CompileKids(g, rule, next, names, base + ErrCount(s), els);
      if Passes(prog, TestOf(g, p), input) {
        ProperBranch(g, prog, errs, rule, t, part, s, p, names, base, depth, env, input, fuel, els');
      } else {
        StillRefused(g, prog, errs, tried, p, input);
        assert PossibleOf(t.kids) == (tried + [p.name]) + PossibleOf(next);
        SkipBranch(prog, Branch(g, rule, p, s, names, base, els'), env, input, fuel);
        ProperKids(g, prog, errs, rule, t, part, next, tried + [p.name], names, base + ErrCount(s), depth, els, env, input, fuel);
      }
  }

  /** Behind the last branch: a throw that lists all keys of the node, or nothing where it holds a value. */
  lemma ProperEnd(g: Grammar, prog: seq<Fn>, errs: seq<ErrorStuff>, rule: Name, t: Trie, part: Name, depth: nat,
                  tried: seq<Name>, els: Code, env: Env, input: seq<Token>, fuel: nat)
    requires NoEmptyAlternative(g) && Ends(errs, rule, t, part, depth, els)
    requires PossibleOf(t.kids) == tried + [] && Refused(g, tried, input)
    ensures Proper(g, errs, rule, t, part, depth, Exec(prog, els, env, input, fuel), input, t.value.Some?)
  {
    assert tried + [] == tried;
    if t.value.None? {
      assert Halts(g, errs, rule, t, part, depth, Here, input, els.id, input);
    }
  }

  lemma StillRefused(g: Grammar, prog: seq<Fn>, errs: seq<ErrorStuff>, tried: seq<Name>, p: Part, input: seq<Token>)
    requires Implements(g, prog, errs) && Refused(g, tried, input) && !Passes(prog, TestOf(g, p), input)
    ensures Refused(g, tried + [p.name], input)
  {
    PassesMeaning(g, prog, errs, p, input);
  }

  /** The entries of the first kid, and behind them those of the others. */
  lemma HoldsKids(errs: seq<ErrorStuff>, base: nat, rule: Name, kids: Kids, depth: nat)
    requires kids.Kid? && Holds(errs, base, PutErrorsKids([], rule, kids, depth))
    ensures Holds(errs, base, PutErrors([], rule, kids.sub, kids.part.name, depth + 1))
    ensures Holds(errs, base + ErrCount(kids.sub), PutErrorsKids([], rule, kids.next, depth))
  {
    var own := PutErrors([], rule, kids.sub, kids.part.name, depth + 1);
    PutErrorsKidsAppends(own, rule, kids.next, depth);
    HoldsSplit(errs, base, own, PutErrorsKids([], rule, kids.next, depth));
  }

  lemma HoldsSplit(errs: seq<ErrorStuff>, base: nat, a: seq<ErrorStuff>, b: seq<ErrorStuff>)
    requires Holds(errs, base, a + b)
    ensures Holds(errs, base, a) && Holds(errs, base + |a|, b)
  {
    assert a == (a + b)[..|a|] && b == (a + b)[|a|..];
  }

  /** The branch of a part, once taken, returns a value or throws: it never leaves the chain. */
  lemma {:induction false} ProperBranch(g: Grammar, prog: seq<Fn>, errs: seq<ErrorStuff>, rule: Name, t: Trie, part: Name,
                                        s: Trie, p: Part, names: seq<Name>, base: nat, depth: nat,
                                        env: Env, input: seq<Token>, fuel: nat, els: Code)
    requires Implements(g, prog, errs) && Live(s) && Sorted(s) && Lookup(t.kids, p.name) == Some((p, s))
    requires Passes(prog, TestOf(g, p), input)
    requires Holds(errs, base, PutErrors([], rule, s, p.name, depth + 1))
    requires forall n :: n in names ==> n in env
    ensures Proper(g, errs, rule, t, part, depth, Exec(prog, Branch(g, rule, p, s, names, base, els), env, input, fuel),
                   input, false)
    decreases fuel, 2, s, 2
  {
    var step := Perform(prog, ActOf(g, p), env, input, fuel);
    var code := Compile(g, rule, s, Push(g, names, p), base);
    if step.Go? {
      assert forall n :: n in Push(g, names, p) ==> n in step.env;
      ProperNode(g, prog, errs, rule, s, Push(g, names, p), base, p.name, depth + 1, step.env, step.rest, fuel);
      var res := Exec(prog, code, step.env, step.rest, fuel);
      if res.Threw? {
        var tree := SoundAct(g, prog, errs, p, env, input, fuel);
        HaltPast(g, errs, rule, t, part, depth, p, s, tree, input, step.rest, res.id, res.at);
      }
    } else {
      ProperParse(g, prog, errs, p.name, input, fuel);
      if step.res.Threw? {
        HaltInside(g, errs, rule, t, part, depth, p, s, input, step.res.id, step.res.at);
      }
    }
  }

  lemma HaltPast(g: Grammar, errs: seq<ErrorStuff>, rule: Name, t: Trie, part: Name, depth: nat, p: Part, s: Trie,
                 tree: Tree, input: seq<Token>, rest: seq<Token>, id: nat, at: seq<Token>)
    requires NoEmptyAlternative(g) && Lookup(t.kids, p.name) == Some((p, s)) && Fits(g, p, tree)
    requires Yield(tree) + rest == input && Blames(g, errs, rule, s, p.name, depth + 1, rest, id, at)
    ensures Blames(g, errs, rule, t, part, depth, input, id, at)
  {
    var h :| Halts(g, errs, rule, s, p.name, depth + 1, h, rest, id, at);
    assert input[|Yield(tree)|..] == rest;
    assert Halts(g, errs, rule, t, part, depth, Past(p.name, tree, h), input, id, at);
  }

  lemma HaltInside(g: Grammar, errs: seq<ErrorStuff>, rule: Name, t: Trie, part: Name, depth: nat, p: Part, s: Trie,
                   input: seq<Token>, id: nat, at: seq<Token>)
    requires NoEmptyAlternative(g) && Lookup(t.kids, p.name) == Some((p, s)) && IsCall(g, p)
    requires Blames(g, errs, p.name, TrieOf(g, p.name), p.name, 1, input, id, at)
    ensures Blames(g, errs, rule, t, part, depth, input, id, at)
  {
    var h :| Halts(g, errs, p.name, TrieOf(g, p.name), p.name, 1, h, input, id, at);
    assert Halts(g, errs, rule, t, part, depth, Inside(p.name, h), input, id, at);
  }

  // ---- what was accepted was derived ----

  /** A block of a live trie that is left without a return has consumed nothing, and its node holds a value. */
  lemma {:induction false} FallNode(g: Grammar, prog: seq<Fn>, rule: Name, t: Trie, names: seq<Name>, base: nat,
                                    env: Env, input: seq<Token>, fuel: nat, errs: seq<ErrorStuff>)
    requires Implements(g, prog, errs) && Live(t)
    requires Exec(prog, Compile(g, rule, t, names, base), env, input, fuel).Fell?
    ensures t.value.Some? && Exec(prog, Compile(g, rule, t, names, base), env, input, fuel).left == input
    decreases fuel, 2, t, 1
  {
    if t.kids.Kid? { FallKids(g, prog, rule, t.kids, names, base, Otherwise(t, base), env, input, fuel, errs); }
  }

  lemma {:induction false} FallKids(g: Grammar, prog: seq<Fn>, rule: Name, kids: Kids, names: seq<Name>, base: nat,
                                    els: Code, env: Env, input: seq<Token>, fuel: nat, errs: seq<ErrorStuff>)
    requires Implements(g, prog, errs) && LiveKids(kids) && !els.If?
    requires Exec(prog, CompileKids(g, rule, kids, names, base, els), env, input, fuel).Fell?
    ensures els.Fall? && Exec(prog, CompileKids(g, rule, kids, names, base, els), env, input, fuel).left == input
    decreases fuel, 2, kids, 0
  {
    match kids
    case Nil =>
    case Kid(p, s, next) =>
      if Passes(prog, TestOf(g, p), input) {
        if IsCall(g, p) { ProperParse(g, prog, errs, p.name, input, fuel); }
        var step := Perform(prog, ActOf(g, p), env, input, fuel);
        if step.Go? {
          FallNode(g, prog, rule, s, Push(g, names, p), base, step.env, step.rest, fuel, errs);
        }
        assert false;
      } else {
        FallKids(g, prog, rule, next, names, base + ErrCount(s), els, env, input, fuel, errs);
      }
  }

  /** The forest `f` explains the result: it is read at `t`, its tokens are the ones consumed, and
      the value is the AST of `f`. */
  ghost predicate Explains(g: Grammar, rule: Name, t: Trie, f: Forest, env: Env, names: seq<Name>,
                           input: seq<Token>, res: Res)
    requires NoEmptyAlternative(g) && res.Done? && forall n :: n in names ==> n in env
  {
    && Reads(g, t, f)
    && YieldAll(f) + res.rest == input
    && res.v == AstAlong(g, rule, t, f, env, names)
  }

  lemma {:induction false} SoundParse(g: Grammar, prog: seq<Fn>, errs: seq<ErrorStuff>, r: Name, input: seq<Token>, fuel: nat)
    returns (f: Forest)
    requires Implements(g, prog, errs) && Parse(prog, r, input, fuel).Done?
    ensures f.More? && Explains(g, r, TrieOf(g, r), f, map[], [], input, Parse(prog, r, input, fuel))
    decreases fuel, 0
  {
    assert HasRule(g, prog, errs, r);
    var t := TrieOf(g, r);
    var fn, base := FnFor(g, prog, errs, r);
    TrieShape(g, r);
    f := SoundNode(g, prog, errs, r, t, [], base, map[], input, fuel - 1);
  }

  lemma {:induction false} SoundNode(g: Grammar, prog: seq<Fn>, errs: seq<ErrorStuff>, rule: Name, t: Trie, names: seq<Name>,
                                     base: nat, env: Env, input: seq<Token>, fuel: nat)
    returns (f: Forest)
    requires Implements(g, prog, errs) && Live(t) && Sorted(t) && forall n :: n in names ==> n in env
    requires Exec(prog, Compile(g, rule, t, names, base), env, input, fuel).Done?
    ensures f.More? && Explains(g, rule, t, f, env, names, input, Exec(prog, Compile(g, rule, t, names, base), env, input, fuel))
    decreases fuel, 2, t, 1
  {
    f := SoundKids(g, prog, errs, rule, t, t.kids, names, base, Otherwise(t, base), env, input, fuel);
  }

  lemma {:induction false} SoundKids(g: Grammar, prog: seq<Fn>, errs: seq<ErrorStuff>, rule: Name, t: Trie, kids: Kids,
                                     names: seq<Name>, base: nat, els: Code, env: Env, input: seq<Token>, fuel: nat)
    returns (f: Forest)
    requires Implements(g, prog, errs) && Suffix(kids, t) && !els.If? && forall n :: n in names ==> n in env
    requires Exec(prog, CompileKids(g, rule, kids, names, base, els), env, input, fuel).Done?
    ensures f.More?
    ensures Explains(g, rule, t, f, env, names, input, Exec(prog, CompileKids(g, rule, kids, names, base, els), env, input, fuel))
    decreases fuel, 2, kids, 0
  {
    var Kid(p, s, next) := kids;
    SuffixNext(kids, t);
    KidsCode(g, rule, kids, names, base, els);
    var els' := CompileKids(g, rule, next, names, base + ErrCount(s), els);
    if Passes(prog, TestOf(g, p), input) {
      f := SoundBranch(g, prog, errs, rule, t, p, s, names, base, env, input, fuel, els');
    } else {
      SkipBranch(prog, Branch(g, rule, p, s, names, base, els'), env, input, fuel);
      f := SoundKids(g, prog, errs, rule, t, next, names, base + ErrCount(s), els, env, input, fuel);
    }
  }

  /** What the first action of a branch reads. */
  lemma {:induction false} SoundAct(g: Grammar, prog: seq<Fn>, errs: seq<ErrorStuff>, p: Part, env: Env, input: seq<Token>, fuel: nat)
    returns (tree: Tree)
    requires Implements(g, prog, errs) && Passes(prog, TestOf(g, p), input)
    requires Perform(prog, ActOf(g, p), env, input, fuel).Go?
    ensures Fits(g, p, tree)
    ensures Yield(tree) + Perform(prog, ActOf(g, p), env, input, fuel).rest == input
    ensures Perform(prog, ActOf(g, p), env, input, fuel).env == Bind(g, p, env, Ast(g, tree))
    decreases fuel, 1
  {
    PassesMeaning(g, prog, errs, p, input);
    if IsCall(g, p) {
      var f := SoundParse(g, prog, errs, p.name, input, fuel);
      tree := Inner(p.name, f);
    } else {
      tree := Leaf(input[0]);
    }
  }

  lemma {:induction false} SoundBranch(g: Grammar, prog: seq<Fn>, errs: seq<ErrorStuff>, rule: Name, t: Trie, p: Part, s: Trie,
                                       names: seq<Name>, base: nat, env: Env, input: seq<Token>, fuel: nat, els: Code)
    returns (f: Forest)
    requires Implements(g, prog, errs) && Live(s) && Sorted(s) && Lookup(t.kids, p.name) == Some((p, s))
    requires forall n :: n in names ==> n in env
    requires Passes(prog, TestOf(g, p), input)
    requires Exec(prog, Branch(g, rule, p, s, names, base, els), env, input, fuel).Done?
    ensures f.More? && Explains(g, rule, t, f, env, names, input,
                                Exec(prog, Branch(g, rule, p, s, names, base, els), env, input, fuel))
    decreases fuel, 2, s, 2
  {
    var names' := Push(g, names, p);
    var code := Compile(g, rule, s, names', base);
    var step := Perform(prog, ActOf(g, p), env, input, fuel);
    if IsCall(g, p) { ProperParse(g, prog, errs, p.name, input, fuel); }
    var tree := SoundAct(g, prog, errs, p, env, input, fuel);
    var res := Exec(prog, code, step.env, step.rest, fuel);
    if res.Done? {
      var f' := SoundNode(g, prog, errs, rule, s, names', base, step.env, step.rest, fuel);
      Assoc(Yield(tree), YieldAll(f'), res.rest);
      f := More(p.name, tree, f');
    } else {
      FallNode(g, prog, rule, s, names', base, step.env, step.rest, fuel, errs);
      assert Yield(tree) + [] == Yield(tree);
      f := More(p.name, tree, Empty);
    }
  }

  /** Soundness: whatever a generated function returns, it returns for a prefix of the input that the
      rule derives, and the value is the AST of that derivation. */
  lemma Soundness(g: Grammar, prog: seq<Fn>, errs: seq<ErrorStuff>, r: Name, input: seq<Token>, fuel: nat)
    requires Implements(g, prog, errs) && Parse(prog, r, input, fuel).Done?
    ensures exists f ::
              && Reads(g, TrieOf(g, r), f)
              && YieldAll(f) + Parse(prog, r, input, fuel).rest == input
              && Parse(prog, r, input, fuel).v == Ast(g, Inner(r, f))
  {
    var f := SoundParse(g, prog, errs, r, input, fuel);
    assert Reads(g, TrieOf(g, r), f);
  }
}
