/** When what the generated code reads is what the grammar derives: the exact condition on the tries. */
module Faithfulness {
  import opened Names
  import opened Tries
  import opened Grammars
  import opened Code
  import opened Parser
  import opened Soundness
  import opened Completeness

  // ---- conditions ----

  /** A rule's name is a key that the code turns into a call. */
  predicate GoodPart(g: Grammar, p: Part)
  {
    p.name in RuleNames(g) ==> IsCall(g, p)
  }

  predicate GoodTrie(g: Grammar, t: Trie)
    decreases t, 1
  {
    GoodKids(g, t.kids)
  }

  predicate GoodKids(g: Grammar, kids: Kids)
    decreases kids, 0
  {
    kids.Kid? ==> GoodPart(g, kids.part) && GoodTrie(g, kids.sub) && GoodKids(g, kids.next)
  }

  /** What a grammar's author can see: rules and tokens have different names, and every use of a rule has a
      store name. */
  predicate NamesUses(g: Grammar)
  {
    && g.tokens !! RuleNames(g)
    && forall i, j :: 0 <= i < |g.rules| && 0 <= j < |g.rules[i].1| ==> GoodPart(g, g.rules[i].1[j])
  }

  /** Something can be read for the key, and something from the node on. */
  ghost predicate Usable(g: Grammar, p: Part)
    requires NoEmptyAlternative(g)
  {
    exists tree: Tree :: Fits(g, p, tree)
  }

  ghost predicate Readable(g: Grammar, t: Trie)
    requires NoEmptyAlternative(g)
  {
    exists f: Forest :: Reads(g, t, f)
  }

  /** Every key that some reading goes through is good. */
  ghost predicate TrueTrie(g: Grammar, t: Trie)
    requires NoEmptyAlternative(g)
    decreases t, 1
  {
    TrueKids(g, t.kids)
  }

  ghost predicate TrueKids(g: Grammar, kids: Kids)
    requires NoEmptyAlternative(g)
    decreases kids, 0
  {
    kids.Kid? ==>
      && (Usable(g, kids.part) && Readable(g, kids.sub) ==> GoodPart(g, kids.part) && TrueTrie(g, kids.sub))
      && TrueKids(g, kids.next)
  }

  ghost predicate Faithful(g: Grammar)
    requires NoEmptyAlternative(g)
  {
    forall n :: RuleFaithful(g, n)
  }

  ghost predicate RuleFaithful(g: Grammar, n: Name)
    requires NoEmptyAlternative(g)
  {
    n in RuleNames(g) ==> TrueTrie(g, TrieOf(g, n))
  }

  ghost predicate AllUsable(g: Grammar, t: Trie)
    requires NoEmptyAlternative(g)
    decreases t, 1
  {
    AllUsableKids(g, t.kids)
  }

  ghost predicate AllUsableKids(g: Grammar, kids: Kids)
    requires NoEmptyAlternative(g)
    decreases kids, 0
  {
    kids.Kid? ==> Usable(g, kids.part) && AllUsable(g, kids.sub) && AllUsableKids(g, kids.next)
  }

  // ---- from the grammar to its tries ----

  lemma {:induction false} InsertGood(g: Grammar, t: Trie, rule: Rule, v: Name)
    requires GoodTrie(g, t) && forall p :: p in rule ==> GoodPart(g, p)
    ensures GoodTrie(g, Insert(t, rule, v))
    decreases |rule|, 1
  {
    if rule != [] { InsertKidsGood(g, t.kids, rule, v); }
  }

  lemma {:induction false} InsertKidsGood(g: Grammar, kids: Kids, rule: Rule, v: Name)
    requires rule != [] && GoodKids(g, kids) && forall p :: p in rule ==> GoodPart(g, p)
    ensures GoodKids(g, InsertKids(kids, rule, v))
    decreases |rule|, 0, kids
  {
    InsertGood(g, EMPTY, rule[1..], v);
    if kids.Kid? {
      InsertGood(g, kids.sub, rule[1..], v);
      InsertKidsGood(g, kids.next, rule, v);
    }
  }

  lemma {:induction false} BuildGood(g: Grammar, t: Trie, rules: seq<Rule>)
    requires AllNonEmpty(rules) && GoodTrie(g, t)
    requires forall r, p :: r in rules && p in r ==> GoodPart(g, p)
    ensures GoodTrie(g, Build(t, rules))
    decreases |rules|
  {
    if rules != [] {
      InsertGood(g, t, rules[0], rules[0][0].endName);
      BuildGood(g, Insert(t, rules[0], rules[0][0].endName), rules[1..]);
    }
  }

  lemma TrieOfGood(g: Grammar, n: Name)
    requires NoEmptyAlternative(g) && NamesUses(g)
    ensures GoodTrie(g, TrieOf(g, n))
  {
    var alts := Alternatives(g.rules, n);
    forall r, p | r in alts && p in r
      ensures GoodPart(g, p)
    {
      var i :| 0 <= i < |g.rules| && g.rules[i] == (n, r);
      var j :| 0 <= j < |r| && r[j] == p;
      assert g.rules[i].1[j] == p;
    }
    BuildGood(g, EMPTY, alts);
  }

  lemma {:induction false} LookupGood(g: Grammar, kids: Kids, n: Name)
    requires GoodKids(g, kids) && Lookup(kids, n).Some?
    ensures GoodPart(g, Lookup(kids, n).value.0) && GoodTrie(g, Lookup(kids, n).value.1)
  {
    if kids.part.name != n { LookupGood(g, kids.next, n); }
  }

  lemma {:induction false} FirstEndExists(rules: seq<Rule>, path: seq<Name>)
    requires AllNonEmpty(rules)
    ensures FirstEnd(rules, path).Some? <==> exists r :: r in rules && NamesOf(r) == path
  {
    if rules != [] {
      FirstEndExists(rules[1..], path);
      assert rules[0] in rules;
      assert forall r :: r in rules <==> r == rules[0] || r in rules[1..];
    }
  }

  lemma {:induction false} GoodIsTrue(g: Grammar, kids: Kids)
    requires NoEmptyAlternative(g) && GoodKids(g, kids)
    ensures TrueKids(g, kids)
  {
    if kids.Kid? {
      GoodIsTrue(g, kids.sub.kids);
      GoodIsTrue(g, kids.next);
    }
  }

  /** Names used as intended are enough. */
  lemma NamesUsesFaithful(g: Grammar)
    requires NoEmptyAlternative(g) && NamesUses(g)
    ensures Faithful(g)
  {
    forall n ensures RuleFaithful(g, n) {
      TrieOfGood(g, n);
      GoodIsTrue(g, TrieOf(g, n).kids);
    }
  }

  // ---- derivations can be read ----

  lemma {:induction false} LookupTrue(g: Grammar, kids: Kids, n: Name)
    requires NoEmptyAlternative(g) && TrueKids(g, kids) && Lookup(kids, n).Some?
    ensures var (p, s) := Lookup(kids, n).value;
            Usable(g, p) && Readable(g, s) ==> GoodPart(g, p) && TrueTrie(g, s)
  {
    if kids.part.name != n { LookupTrue(g, kids.next, n); }
  }

  /** The symbols of a derivation lead to a value. */
  lemma DerivedValue(g: Grammar, tree: Tree)
    requires NoEmptyAlternative(g) && tree.Inner?
    ensures (exists a :: a in Alternatives(g.rules, tree.rule) && NamesOf(a) == Symbols(tree.kids))
       <==> ValueAt(TrieOf(g, tree.rule), Symbols(tree.kids)).Some?
  {
    BuildAt(EMPTY, Alternatives(g.rules, tree.rule), Symbols(tree.kids));
    EmptyAt(Symbols(tree.kids));
    FirstEndExists(Alternatives(g.rules, tree.rule), Symbols(tree.kids));
  }

  /** Where a derivation leads through a trie, something can be read along the same path, and no more of it. */
  lemma {:induction false} DerivationReads(g: Grammar, t: Trie, f: Forest) returns (r: Forest)
    requires NoEmptyAlternative(g) && DerivesAll(g, f) && ValueAt(t, Symbols(f)).Some?
    ensures Reads(g, t, r) && (f.More? ==> r.More? && r.sym == f.sym)
    ensures |YieldAll(r)| <= |YieldAll(f)|
    decreases f, 1
  {
    if f.Empty? {
      r := Empty;
    } else {
      var (p, s) := Lookup(t.kids, f.sym).value;
      LookupName(t.kids, f.sym);
      assert Symbols(f)[1..] == Symbols(f.next);
      var next := DerivationReads(g, s, f.next);
      var tree := TreeFits(g, p, f.tree);
      r := More(f.sym, tree, next);
    }
  }

  lemma {:induction false} TreeFits(g: Grammar, p: Part, tree: Tree) returns (r: Tree)
    requires NoEmptyAlternative(g) && Derives(g, tree)
    requires if p.name in RuleNames(g) then tree.Inner? && tree.rule == p.name
             else tree.Leaf? && tree.tok.kind == p.name
    ensures Fits(g, p, r) && |Yield(r)| <= |Yield(tree)|
    decreases tree, 0
  {
    if p.name !in RuleNames(g) {
      StartsTerminal(g, p.name, tree.tok.kind);
      r := tree;
    } else {
      var t := TrieOf(g, p.name);
      DerivedValue(g, tree);
      TrieShape(g, p.name);
      var kids := DerivationReads(g, t, tree.kids);
      if IsCall(g, p) {
        r := Inner(p.name, kids);
      } else {
        ReadStarts(g, t, kids);
        LookupName(t.kids, kids.sym);
        RootKeyBegins(g, p.name, kids.sym);
        StartsStep(g, p.name, kids.sym, YieldAll(kids)[0].kind);
        r := Leaf(YieldAll(kids)[0]);
      }
    }
  }

  /** On a faithful grammar, what the code reads is exactly what the rule derives. */
  lemma {:induction false} ReadsIffDerives(g: Grammar, n: Name, f: Forest)
    requires NoEmptyAlternative(g) && Faithful(g) && n in RuleNames(g)
    ensures Reads(g, TrieOf(g, n), f) <==> Derives(g, Inner(n, f))
    decreases f, 2
  {
    assert RuleFaithful(g, n);
    DerivedValue(g, Inner(n, f));
    ReadsIffDerivesAll(g, TrieOf(g, n), f);
  }

  lemma {:induction false} ReadsIffDerivesAll(g: Grammar, t: Trie, f: Forest)
    requires NoEmptyAlternative(g) && Faithful(g) && TrueTrie(g, t)
    ensures Reads(g, t, f) <==> ValueAt(t, Symbols(f)).Some? && DerivesAll(g, f)
    decreases f, 1
  {
    if f.More? && Lookup(t.kids, f.sym).Some? {
      var (p, s) := Lookup(t.kids, f.sym).value;
      LookupName(t.kids, f.sym);
      assert Symbols(f)[1..] == Symbols(f.next);
      if Reads(g, t, f) || (ValueAt(t, Symbols(f)).Some? && DerivesAll(g, f)) {
        Met(g, t, f);
        LookupTrue(g, t.kids, f.sym);
        ReadsIffDerivesAll(g, s, f.next);
        FitsIffDerives(g, p, f.tree);
      }
    }
  }

  /** A key that a reading or a derivation goes through is one that counts. */
  lemma Met(g: Grammar, t: Trie, f: Forest)
    requires NoEmptyAlternative(g) && f.More? && Lookup(t.kids, f.sym).Some?
    requires Reads(g, t, f) || (ValueAt(t, Symbols(f)).Some? && DerivesAll(g, f))
    ensures var (p, s) := Lookup(t.kids, f.sym).value; Usable(g, p) && Readable(g, s)
  {
    var r := f;
    if !Reads(g, t, f) { r := DerivationReads(g, t, f); }
    var (p, s) := Lookup(t.kids, f.sym).value;
    assert Fits(g, p, r.tree) && Reads(g, s, r.next);
  }

  lemma {:induction false} FitsIffDerives(g: Grammar, p: Part, tree: Tree)
    requires NoEmptyAlternative(g) && Faithful(g) && GoodPart(g, p)
    ensures Fits(g, p, tree) <==>
            Derives(g, tree) && (if p.name in RuleNames(g) then tree.Inner? && tree.rule == p.name
                                 else tree.Leaf? && tree.tok.kind == p.name)
    decreases tree, 0
  {
    if p.name in RuleNames(g) {
      if tree.Inner? && tree.rule == p.name { ReadsIffDerives(g, p.name, tree.kids); }
    } else if tree.Leaf? {
      StartsTerminal(g, p.name, tree.tok.kind);
    }
  }

  // ---- the exact condition ----

  /** Through a node with a bad key that counts, something is read that is no derivation. */
  lemma {:induction false} BadReading(g: Grammar, t: Trie, kids: Kids) returns (f: Forest)
    requires NoEmptyAlternative(g) && Suffix(kids, t) && !TrueKids(g, kids)
    ensures Reads(g, t, f) && !DerivesAll(g, f)
    decreases kids
  {
    var Kid(p, s, next) := kids;
    assert Sorted(s) && Live(s);
    SuffixNext(kids, t);
    if !TrueKids(g, next) {
      f := BadReading(g, t, next);
    } else {
      var tree: Tree :| Fits(g, p, tree);
      var rest: Forest;
      if !GoodPart(g, p) {
        rest :| Reads(g, s, rest);
      } else {
        rest := BadReading(g, s, s.kids);
      }
      f := More(p.name, tree, rest);
    }
  }

  /** All that the code can read is derived if and only if every key that some reading goes through is good. */
  lemma FaithfulExactly(g: Grammar)
    requires NoEmptyAlternative(g)
    ensures (forall n, f :: n in RuleNames(g) && Reads(g, TrieOf(g, n), f) ==> Derives(g, Inner(n, f))) <==> Faithful(g)
  {
    if Faithful(g) {
      forall n, f | n in RuleNames(g) && Reads(g, TrieOf(g, n), f) ensures Derives(g, Inner(n, f)) {
        ReadsIffDerives(g, n, f);
      }
    } else {
      var n :| !RuleFaithful(g, n);
      TrieShape(g, n);
      var f := BadReading(g, TrieOf(g, n), TrieOf(g, n).kids);
      assert !Derives(g, Inner(n, f));
    }
  }

  /** A live trie whose keys are usable can be read. */
  lemma {:induction false} Fill(g: Grammar, t: Trie) returns (f: Forest)
    requires NoEmptyAlternative(g) && Live(t) && AllUsable(g, t)
    ensures Reads(g, t, f)
    decreases t
  {
    if t.value.Some? {
      f := Empty;
    } else {
      var tree: Tree :| Fits(g, t.kids.part, tree);
      var next := Fill(g, t.kids.sub);
      f := More(t.kids.part.name, tree, next);
    }
  }

  lemma {:induction false} TrueIsGood(g: Grammar, kids: Kids)
    requires NoEmptyAlternative(g) && LiveKids(kids) && AllUsableKids(g, kids) && TrueKids(g, kids)
    ensures GoodKids(g, kids)
    decreases kids
  {
    if kids.Kid? {
      var f := Fill(g, kids.sub);
      TrueIsGood(g, kids.sub.kids);
      TrueIsGood(g, kids.next);
    }
  }

  /** Where no key is useless, the condition is to be read off the tries: each rule's name among the keys is
      called, that is, its first use there has a store name and it is no token. */
  lemma FaithfulIsGood(g: Grammar)
    requires NoEmptyAlternative(g) && forall n :: n in RuleNames(g) ==> AllUsable(g, TrieOf(g, n))
    ensures (forall n, f :: n in RuleNames(g) && Reads(g, TrieOf(g, n), f) ==> Derives(g, Inner(n, f)))
       <==> (forall n :: n in RuleNames(g) ==> GoodTrie(g, TrieOf(g, n)))
  {
    FaithfulExactly(g);
    if Faithful(g) {
      forall n | n in RuleNames(g) ensures GoodTrie(g, TrieOf(g, n)) {
        assert RuleFaithful(g, n);
        TrieShape(g, n);
        TrueIsGood(g, TrieOf(g, n).kids);
      }
    }
    if forall n :: n in RuleNames(g) ==> GoodTrie(g, TrieOf(g, n)) {
      forall n ensures RuleFaithful(g, n) {
        if n in RuleNames(g) { GoodIsTrue(g, TrieOf(g, n).kids); }
      }
    }
  }
}
