/** On grammars where one token of look-ahead decides, the generated parser accepts all that is derived. */
module Completeness {
  import opened Names
  import opened Tries
  import opened Grammars
  import opened Code
  import opened Parser
  import opened Generator
  import opened Soundness

  // ---- the conditions ----

  ghost predicate StartsAny(g: Grammar, kids: Kids, k: Name)
  {
    kids.Kid? && (Starts(g, kids.part.name, k) || StartsAny(g, kids.next, k))
  }

  /** At every node, the FIRST sets of siblings are disjoint. */
  ghost predicate Distinct(g: Grammar, t: Trie)
    decreases t, 1
  {
    DistinctKids(g, t.kids)
  }

  ghost predicate DistinctKids(g: Grammar, kids: Kids)
    decreases kids, 0
  {
    kids.Kid? ==>
      && (forall k :: !(Starts(g, kids.part.name, k) && StartsAny(g, kids.next, k)))
      && Distinct(g, kids.sub)
      && DistinctKids(g, kids.next)
  }

  /** Which token may come after a rule. */
  type Follow = (Name, Name) -> bool

  /** `follow` accounts for every place from which the rule's code calls another rule, and where a node
      holds a value and has children, no child begins with a token that may follow the rule. */
  ghost predicate Calm(g: Grammar, follow: Follow, rule: Name, t: Trie)
    decreases t, 1
  {
    && (t.value.Some? ==> forall k :: follow(rule, k) ==> !StartsAny(g, t.kids, k))
    && CalmKids(g, follow, rule, t.kids)
  }

  ghost predicate CalmKids(g: Grammar, follow: Follow, rule: Name, kids: Kids)
    decreases kids, 0
  {
    kids.Kid? ==>
      && (IsCall(g, kids.part) ==> forall k :: ComesNext(g, follow, rule, kids.sub, k) ==> follow(kids.part.name, k))
      && Calm(g, follow, rule, kids.sub)
      && CalmKids(g, follow, rule, kids.next)
  }

  ghost predicate ComesNext(g: Grammar, follow: Follow, rule: Name, t: Trie, k: Name)
  {
    StartsAny(g, t.kids, k) || (t.value.Some? && follow(rule, k))
  }

  ghost predicate AllDistinct(g: Grammar)
    requires NoEmptyAlternative(g)
  {
    forall n :: RuleDistinct(g, n)
  }

  ghost predicate RuleDistinct(g: Grammar, n: Name)
    requires NoEmptyAlternative(g)
  {
    n in RuleNames(g) ==> Distinct(g, TrieOf(g, n))
  }

  ghost predicate AllCalm(g: Grammar, follow: Follow)
    requires NoEmptyAlternative(g)
  {
    forall n :: RuleCalm(g, follow, n)
  }

  ghost predicate RuleCalm(g: Grammar, follow: Follow, n: Name)
    requires NoEmptyAlternative(g)
  {
    n in RuleNames(g) ==> Calm(g, follow, n, TrieOf(g, n))
  }

  ghost predicate MayFollow(follow: Follow, rule: Name, rest: seq<Token>)
  {
    rest == [] || follow(rule, rest[0].kind)
  }

  // ---- FIRST of what is read ----

  lemma {:induction false} LookupName(kids: Kids, n: Name)
    requires Lookup(kids, n).Some?
    ensures Lookup(kids, n).value.0.name == n
  {
    if kids.part.name != n { LookupName(kids.next, n); }
  }

  lemma {:induction false} LookupStarts(g: Grammar, kids: Kids, n: Name, k: Name)
    requires Lookup(kids, n).Some? && Starts(g, n, k)
    ensures StartsAny(g, kids, k)
  {
    if kids.part.name != n { LookupStarts(g, kids.next, n, k); }
  }

  /** A key at the root of a rule's trie is the first symbol of one of its alternatives. */
  lemma RootKeyBegins(g: Grammar, n: Name, sym: Name)
    requires NoEmptyAlternative(g)
    ensures Lookup(TrieOf(g, n).kids, sym).Some? <==> BeginsWith(g, n, sym)
  {
    var alts := Alternatives(g.rules, n);
    BuildAt(EMPTY, alts, [sym]);
    EmptyAt([sym]);
    if Lookup(TrieOf(g, n).kids, sym).Some? {
      var i :| 0 <= i < |alts| && [sym] <= NamesOf(alts[i]);
      assert alts[i] in alts;
      var j :| 0 <= j < |g.rules| && g.rules[j] == (n, alts[i]);
      assert NamesOf(alts[i])[0] == sym;
    }
    if BeginsWith(g, n, sym) {
      var j :| 0 <= j < |g.rules| && g.rules[j].0 == n && g.rules[j].1[0].name == sym;
      assert g.rules[j] == (n, g.rules[j].1) && g.rules[j].1 in alts;
      var i :| 0 <= i < |alts| && alts[i] == g.rules[j].1;
      assert [sym] <= NamesOf(alts[i]);
    }
  }

  lemma {:induction false} FitStarts(g: Grammar, p: Part, tree: Tree)
    requires NoEmptyAlternative(g) && Fits(g, p, tree)
    ensures Yield(tree) != [] && Starts(g, p.name, Yield(tree)[0].kind)
    decreases tree, 0
  {
    if tree.Inner? {
      TrieShape(g, p.name);
      ReadStarts(g, TrieOf(g, p.name), tree.kids);
      LookupName(TrieOf(g, p.name).kids, tree.kids.sym);
      RootKeyBegins(g, p.name, tree.kids.sym);
      StartsStep(g, p.name, tree.kids.sym, Yield(tree)[0].kind);
    }
  }

  lemma {:induction false} ReadStarts(g: Grammar, t: Trie, f: Forest)
    requires NoEmptyAlternative(g) && Reads(g, t, f) && f.More?
    ensures YieldAll(f) != [] && Starts(g, f.sym, YieldAll(f)[0].kind) && StartsAny(g, t.kids, YieldAll(f)[0].kind)
    decreases f, 1
  {
    var (p, s) := Lookup(t.kids, f.sym).value;
    assert Fits(g, p, f.tree);
    LookupName(t.kids, f.sym);
    FitStarts(g, p, f.tree);
    LookupStarts(g, t.kids, f.sym, YieldAll(f)[0].kind);
  }

  // ---- completeness ----

  function Depth(f: Forest): nat
  {
    match f
    case Empty => 0
    case More(_, tree, next) =>
      var d := if tree.Inner? then 1 + Depth(tree.kids) else 0;
      if d > Depth(next) then d else Depth(next)
  }

  /** Where no sibling begins with the current token, the whole chain is skipped. */
  lemma {:induction false} Quiet(g: Grammar, prog: seq<Fn>, errs: seq<ErrorStuff>, rule: Name, kids: Kids, names: seq<Name>,
                                 base: nat, els: Code, env: Env, input: seq<Token>, fuel: nat)
    requires Implements(g, prog, errs) && (input == [] || !StartsAny(g, kids, input[0].kind))
    ensures Exec(prog, CompileKids(g, rule, kids, names, base, els), env, input, fuel) == Exec(prog, els, env, input, fuel)
    decreases kids
  {
    if kids.Kid? {
      PassesMeaning(g, prog, errs, kids.part, input);
      Quiet(g, prog, errs, rule, kids.next, names, base + ErrCount(kids.sub), els, env, input, fuel);
    }
  }

  lemma {:induction false} CompleteParse(g: Grammar, prog: seq<Fn>, errs: seq<ErrorStuff>, follow: Follow,
                                         r: Name, f: Forest, rest: seq<Token>, fuel: nat)
    requires Implements(g, prog, errs) && AllDistinct(g) && AllCalm(g, follow) && r in RuleNames(g)
    requires Reads(g, TrieOf(g, r), f) && MayFollow(follow, r, rest) && fuel > Depth(f)
    ensures Parse(prog, r, YieldAll(f) + rest, fuel) == Done(Ast(g, Inner(r, f)), rest)
    decreases f, 3
  {
    var t := TrieOf(g, r);
    var fn, base := FnFor(g, prog, errs, r);
    TrieShape(g, r);
    assert RuleDistinct(g, r) && RuleCalm(g, follow, r);
    CompleteNode(g, prog, errs, follow, r, t, f, [], base, map[], rest, fuel - 1);
  }

  lemma {:induction false} CompleteNode(g: Grammar, prog: seq<Fn>, errs: seq<ErrorStuff>, follow: Follow, rule: Name,
                                        t: Trie, f: Forest, names: seq<Name>, base: nat, env: Env, rest: seq<Token>, fuel: nat)
    requires Implements(g, prog, errs) && AllDistinct(g) && AllCalm(g, follow)
    requires Distinct(g, t) && Calm(g, follow, rule, t) && Sorted(t) && Live(t)
    requires Reads(g, t, f) && MayFollow(follow, rule, rest) && fuel >= Depth(f)
    requires forall n :: n in names ==> n in env
    ensures Exec(prog, Compile(g, rule, t, names, base), env, YieldAll(f) + rest, fuel) ==
            if f.Empty? then Fell(rest) else Done(AstAlong(g, rule, t, f, env, names), rest)
    decreases f, 2
  {
    var input := YieldAll(f) + rest;
    if f.Empty? {
      assert input == rest;
      if t.kids.Kid? { Quiet(g, prog, errs, rule, t.kids, names, base, Otherwise(t, base), env, input, fuel); }
    } else {
      CompleteKids(g, prog, errs, follow, rule, t, t.kids, f, names, base, Otherwise(t, base), env, rest, fuel);
    }
  }

  /** With disjoint siblings, the test of the first branch passes exactly when it is the one to take. */
  lemma TestsRight(g: Grammar, prog: seq<Fn>, errs: seq<ErrorStuff>, t: Trie, kids: Kids, f: Forest, rest: seq<Token>)
    requires Implements(g, prog, errs) && DistinctKids(g, kids) && Suffix(kids, t) && kids.Kid?
    requires Reads(g, t, f) && f.More? && Lookup(kids, f.sym).Some?
    ensures Passes(prog, TestOf(g, kids.part), YieldAll(f) + rest) <==> kids.part.name == f.sym
  {
    var input := YieldAll(f) + rest;
    ReadStarts(g, t, f);
    PassesMeaning(g, prog, errs, kids.part, input);
    assert input[0] == YieldAll(f)[0];
    if kids.part.name != f.sym {
      LookupStarts(g, kids.next, f.sym, input[0].kind);
    }
  }

  lemma {:induction false} CompleteKids(g: Grammar, prog: seq<Fn>, errs: seq<ErrorStuff>, follow: Follow, rule: Name,
                                        t: Trie, kids: Kids, f: Forest, names: seq<Name>, base: nat, els: Code,
                                        env: Env, rest: seq<Token>, fuel: nat)
    requires Implements(g, prog, errs) && AllDistinct(g) && AllCalm(g, follow)
    requires DistinctKids(g, kids) && CalmKids(g, follow, rule, kids) && Suffix(kids, t)
    requires Reads(g, t, f) && f.More? && Lookup(kids, f.sym).Some? && MayFollow(follow, rule, rest) && fuel >= Depth(f)
    requires forall n :: n in names ==> n in env
    ensures Exec(prog, CompileKids(g, rule, kids, names, base, els), env, YieldAll(f) + rest, fuel) ==
            Done(AstAlong(g, rule, t, f, env, names), rest)
    decreases f, 1, kids
  {
    var Kid(p, s, next) := kids;
    SuffixNext(kids, t);
    TestsRight(g, prog, errs, t, kids, f, rest);
    var els' := CompileKids(g, rule, next, names, base + ErrCount(s), els);
    KidsCode(g, rule, kids, names, base, els);
    if p.name == f.sym {
      CompleteBranch(g, prog, errs, follow, rule, t, p, s, f, names, base, env, rest, fuel, els');
    } else {
      SkipBranch(prog, Branch(g, rule, p, s, names, base, els'), env, YieldAll(f) + rest, fuel);
      CompleteKids(g, prog, errs, follow, rule, t, next, f, names, base + ErrCount(s), els, env, rest, fuel);
    }
  }

  lemma {:induction false} CompleteBranch(g: Grammar, prog: seq<Fn>, errs: seq<ErrorStuff>, follow: Follow, rule: Name,
                                          t: Trie, p: Part, s: Trie, f: Forest, names: seq<Name>, base: nat,
                                          env: Env, rest: seq<Token>, fuel: nat, els: Code)
    requires Implements(g, prog, errs) && AllDistinct(g) && AllCalm(g, follow)
    requires Distinct(g, s) && Calm(g, follow, rule, s) && Sorted(s) && Live(s)
    requires IsCall(g, p) ==> forall k :: ComesNext(g, follow, rule, s, k) ==> follow(p.name, k)
    requires Reads(g, t, f) && f.More? && Lookup(t.kids, f.sym) == Some((p, s)) && p.name == f.sym
    requires MayFollow(follow, rule, rest) && fuel >= Depth(f)
    requires forall n :: n in names ==> n in env
    requires Passes(prog, TestOf(g, p), YieldAll(f) + rest)
    ensures Exec(prog, Branch(g, rule, p, s, names, base, els), env, YieldAll(f) + rest, fuel)
         == Done(AstAlong(g, rule, t, f, env, names), rest)
    decreases f, 0, 1
  {
    var names', env' := Push(g, names, p), Bind(g, p, env, Ast(g, f.tree));
    CompleteAct(g, prog, errs, follow, rule, t, p, s, f, env, rest, fuel);
    CompleteNode(g, prog, errs, follow, rule, s, f.next, names', base, env', rest, fuel);
  }

  /** The action of the branch reads the first tree of the forest, and what comes next may follow it. */
  lemma {:induction false} CompleteAct(g: Grammar, prog: seq<Fn>, errs: seq<ErrorStuff>, follow: Follow, rule: Name,
                                       t: Trie, p: Part, s: Trie, f: Forest, env: Env, rest: seq<Token>, fuel: nat)
    requires Implements(g, prog, errs) && AllDistinct(g) && AllCalm(g, follow)
    requires IsCall(g, p) ==> forall k :: ComesNext(g, follow, rule, s, k) ==> follow(p.name, k)
    requires Reads(g, t, f) && f.More? && Lookup(t.kids, f.sym) == Some((p, s)) && p.name == f.sym
    requires MayFollow(follow, rule, rest) && fuel >= Depth(f)
    requires Passes(prog, TestOf(g, p), YieldAll(f) + rest)
    ensures Fits(g, p, f.tree) && Reads(g, s, f.next) && fuel >= Depth(f.next)
    ensures Perform(prog, ActOf(g, p), env, YieldAll(f) + rest, fuel)
         == Go(Bind(g, p, env, Ast(g, f.tree)), YieldAll(f.next) + rest)
    decreases f, 0, 0
  {
    var input, rest' := YieldAll(f) + rest, YieldAll(f.next) + rest;
    assert Fits(g, p, f.tree);
    Assoc(Yield(f.tree), YieldAll(f.next), rest);
    if IsCall(g, p) {
      if f.next.More? { ReadStarts(g, s, f.next); }
      assert MayFollow(follow, p.name, rest');
      CompleteParse(g, prog, errs, follow, p.name, f.tree.kids, rest', fuel);
    } else {
      assert input[1..] == rest';
    }
  }
}
