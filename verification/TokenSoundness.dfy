/** When the generated parser consumes only what the grammar derives, and when it accepts all of it: the exact
    conditions on the tries, token for token. */
module TokenSoundness {
  import opened Names
  import opened Tries
  import opened Grammars
  import opened Code
  import opened Parser
  import opened Soundness
  import opened Completeness
  import opened Faithfulness
  import opened Stopping

  // ---- what is compared ----

  ghost predicate DerivesTokens(g: Grammar, r: Name, input: seq<Token>)
  {
    exists tree: Tree :: tree.Inner? && tree.rule == r && Derives(g, tree) && Yield(tree) == input
  }

  ghost predicate Accepts(prog: seq<Fn>, r: Name, input: seq<Token>)
  {
    exists fuel: nat :: var res := Parse(prog, r, input, fuel); res.Done? && res.rest == []
  }

  /** What is in front of `rest` is derived. */
  ghost predicate Consumed(g: Grammar, r: Name, input: seq<Token>, rest: seq<Token>)
  {
    exists w :: w + rest == input && DerivesTokens(g, r, w)
  }

  /** Whatever a call consumes when it returns, its rule derives. */
  ghost predicate ParserSound(g: Grammar, prog: seq<Fn>)
  {
    forall r, input, fuel: nat :: Parse(prog, r, input, fuel).Done? ==>
      Consumed(g, r, input, Parse(prog, r, input, fuel).rest)
  }

  ghost predicate ParserDecides(g: Grammar, prog: seq<Fn>)
  {
    forall r, input :: r in RuleNames(g) ==> (Accepts(prog, r, input) <==> DerivesTokens(g, r, input))
  }

  // ---- the conditions ----

  predicate Uncalled(g: Grammar, p: Part)
  {
    p.name in RuleNames(g) && !IsCall(g, p)
  }

  /** A rule that is not called, but read as one token: it derives each token it can begin with on its own. */
  ghost predicate Harmless(g: Grammar, p: Part)
  {
    Uncalled(g, p) ==> forall tok: Token :: Starts(g, p.name, tok.kind) ==> DerivesTokens(g, p.name, [tok])
  }

  /** And it derives nothing else. */
  ghost predicate Single(g: Grammar, p: Part)
  {
    Uncalled(g, p) ==> forall input :: DerivesTokens(g, p.name, input) ==> |input| == 1
  }

  /** What is asked of the keys: the one, the other, or both. */
  datatype Demand = AllHarmless | AllSingle | Both

  ghost predicate OkPart(g: Grammar, p: Part, m: Demand)
  {
    (m != AllSingle ==> Harmless(g, p)) && (m != AllHarmless ==> Single(g, p))
  }

  /** Every key that some reading goes through satisfies the condition. */
  ghost predicate OkTrie(g: Grammar, t: Trie, m: Demand)
    requires NoEmptyAlternative(g)
    decreases t, 1
  {
    OkKids(g, t.kids, m)
  }

  ghost predicate OkKids(g: Grammar, kids: Kids, m: Demand)
    requires NoEmptyAlternative(g)
    decreases kids, 0
  {
    kids.Kid? ==>
      && (Usable(g, kids.part) && Readable(g, kids.sub) ==> OkPart(g, kids.part, m) && OkTrie(g, kids.sub, m))
      && OkKids(g, kids.next, m)
  }

  ghost predicate AllOk(g: Grammar, m: Demand)
    requires NoEmptyAlternative(g)
  {
    forall n :: RuleOk(g, n, m)
  }

  ghost predicate RuleOk(g: Grammar, n: Name, m: Demand)
    requires NoEmptyAlternative(g)
  {
    n in RuleNames(g) ==> OkTrie(g, TrieOf(g, n), m)
  }

  lemma {:induction false} TrueIsOk(g: Grammar, kids: Kids, m: Demand)
    requires NoEmptyAlternative(g) && TrueKids(g, kids)
    ensures OkKids(g, kids, m)
  {
    if kids.Kid? {
      if Usable(g, kids.part) && Readable(g, kids.sub) { TrueIsOk(g, kids.sub.kids, m); }
      TrueIsOk(g, kids.next, m);
    }
  }

  /** A grammar all of whose keys are called satisfies both. */
  lemma FaithfulIsOk(g: Grammar, m: Demand)
    requires NoEmptyAlternative(g) && Faithful(g)
    ensures AllOk(g, m)
  {
    forall n ensures RuleOk(g, n, m) {
      assert RuleFaithful(g, n);
      if n in RuleNames(g) { TrueIsOk(g, TrieOf(g, n).kids, m); }
    }
  }

  lemma {:induction false} BothIsOk(g: Grammar, kids: Kids)
    requires NoEmptyAlternative(g) && OkKids(g, kids, Both)
    ensures OkKids(g, kids, AllHarmless)
  {
    if kids.Kid? {
      if Usable(g, kids.part) && Readable(g, kids.sub) { BothIsOk(g, kids.sub.kids); }
      BothIsOk(g, kids.next);
    }
  }

  lemma AllBothIsOk(g: Grammar)
    requires NoEmptyAlternative(g) && AllOk(g, Both)
    ensures AllOk(g, AllHarmless)
  {
    forall n ensures RuleOk(g, n, AllHarmless) {
      assert RuleOk(g, n, Both);
      if n in RuleNames(g) { BothIsOk(g, TrieOf(g, n).kids); }
    }
  }

  lemma {:induction false} LookupOk(g: Grammar, kids: Kids, n: Name, m: Demand)
    requires NoEmptyAlternative(g) && OkKids(g, kids, m) && Lookup(kids, n).Some?
    ensures var (p, s) := Lookup(kids, n).value;
            Usable(g, p) && Readable(g, s) ==> OkPart(g, p, m) && OkTrie(g, s, m)
  {
    if kids.part.name != n { LookupOk(g, kids.next, n, m); }
  }

  // ---- derivations from a node ----

  /** The tree stands for the symbol. */
  predicate Matches(g: Grammar, x: Name, tree: Tree)
  {
    if x in RuleNames(g) then tree.Inner? && tree.rule == x else tree.Leaf? && tree.tok.kind == x
  }

  ghost predicate DerivesFrom(g: Grammar, t: Trie, d: Forest)
  {
    DerivesAll(g, d) && ValueAt(t, Symbols(d)).Some?
  }

  ghost predicate NodeDerives(g: Grammar, t: Trie, tokens: seq<Token>)
  {
    exists d :: DerivesFrom(g, t, d) && YieldAll(d) == tokens
  }

  ghost predicate NodeReads(g: Grammar, t: Trie, tokens: seq<Token>)
    requires NoEmptyAlternative(g)
  {
    exists f :: Reads(g, t, f) && YieldAll(f) == tokens
  }

  lemma RuleDerives(g: Grammar, n: Name, tokens: seq<Token>)
    requires NoEmptyAlternative(g)
    ensures DerivesTokens(g, n, tokens) <==> NodeDerives(g, TrieOf(g, n), tokens)
  {
    if DerivesTokens(g, n, tokens) {
      var tree: Tree :| tree.Inner? && tree.rule == n && Derives(g, tree) && Yield(tree) == tokens;
      DerivedValue(g, tree);
      assert DerivesFrom(g, TrieOf(g, n), tree.kids);
    }
    if NodeDerives(g, TrieOf(g, n), tokens) {
      var d :| DerivesFrom(g, TrieOf(g, n), d) && YieldAll(d) == tokens;
      DerivedValue(g, Inner(n, d));
      assert Derives(g, Inner(n, d)) && Yield(Inner(n, d)) == tokens;
    }
  }

  /** One step down a derivation. */
  lemma DeriveStep(g: Grammar, t: Trie, d: Forest) returns (p: Part, s: Trie)
    requires NoEmptyAlternative(g) && DerivesFrom(g, t, d) && d.More?
    ensures Lookup(t.kids, d.sym) == Some((p, s)) && p.name == d.sym
    ensures Matches(g, d.sym, d.tree) && Derives(g, d.tree) && DerivesFrom(g, s, d.next)
  {
    assert Symbols(d)[0] == d.sym && Symbols(d)[1..] == Symbols(d.next);
    p, s := Lookup(t.kids, d.sym).value.0, Lookup(t.kids, d.sym).value.1;
    LookupName(t.kids, d.sym);
  }

  lemma DeriveMore(g: Grammar, t: Trie, p: Part, s: Trie, tree: Tree, next: Forest)
    requires NoEmptyAlternative(g) && Lookup(t.kids, p.name) == Some((p, s))
    requires Matches(g, p.name, tree) && Derives(g, tree) && DerivesFrom(g, s, next)
    ensures DerivesFrom(g, t, More(p.name, tree, next))
  {
    var d := More(p.name, tree, next);
    assert Symbols(d)[0] == p.name && Symbols(d)[1..] == Symbols(next);
  }

  /** The first token of a derivation is one its symbol can begin with. */
  lemma {:induction false} DerivedStarts(g: Grammar, x: Name, tree: Tree)
    requires NoEmptyAlternative(g) && Derives(g, tree) && Matches(g, x, tree)
    ensures Yield(tree) != [] && Starts(g, x, Yield(tree)[0].kind)
    decreases tree
  {
    if tree.Leaf? {
      StartsTerminal(g, x, tree.tok.kind);
    } else {
      var t, kids := TrieOf(g, x), tree.kids;
      DerivedValue(g, tree);
      TrieShape(g, x);
      assert kids.More?;
      var p, s := DeriveStep(g, t, kids);
      DerivedStarts(g, kids.sym, kids.tree);
      assert Yield(tree) == Yield(kids.tree) + YieldAll(kids.next);
      RootKeyBegins(g, x, kids.sym);
      StartsStep(g, x, kids.sym, Yield(tree)[0].kind);
    }
  }

  lemma ForestStarts(g: Grammar, t: Trie, d: Forest)
    requires NoEmptyAlternative(g) && DerivesFrom(g, t, d) && d.More?
    ensures YieldAll(d) != [] && Starts(g, d.sym, YieldAll(d)[0].kind) && StartsAny(g, t.kids, YieldAll(d)[0].kind)
  {
    var p, s := DeriveStep(g, t, d);
    DerivedStarts(g, d.sym, d.tree);
    LookupStarts(g, t.kids, d.sym, YieldAll(d)[0].kind);
  }

  // ---- the conditions are enough ----

  /** Every reading can be replaced by a derivation of the same tokens. */
  lemma {:induction false} ReadDerives(g: Grammar, t: Trie, f: Forest, m: Demand) returns (d: Forest)
    requires NoEmptyAlternative(g) && m != AllSingle && AllOk(g, m) && OkTrie(g, t, m) && Reads(g, t, f)
    ensures DerivesFrom(g, t, d) && YieldAll(d) == YieldAll(f)
    decreases f, 1
  {
    if f.Empty? {
      d := Empty;
    } else {
      var (p, s) := Lookup(t.kids, f.sym).value;
      LookupName(t.kids, f.sym);
      Met(g, t, f);
      LookupOk(g, t.kids, f.sym, m);
      var tree := FitDerives(g, p, f.tree, m);
      var next := ReadDerives(g, s, f.next, m);
      DeriveMore(g, t, p, s, tree, next);
      d := More(p.name, tree, next);
    }
  }

  lemma {:induction false} FitDerives(g: Grammar, p: Part, tree: Tree, m: Demand) returns (r: Tree)
    requires NoEmptyAlternative(g) && m != AllSingle && AllOk(g, m) && Harmless(g, p) && Fits(g, p, tree)
    ensures Matches(g, p.name, r) && Derives(g, r) && Yield(r) == Yield(tree)
    decreases tree, 0
  {
    if IsCall(g, p) {
      assert RuleOk(g, p.name, m);
      var kids := ReadDerives(g, TrieOf(g, p.name), tree.kids, m);
      r := Inner(p.name, kids);
      DerivedValue(g, r);
    } else if p.name in RuleNames(g) {
      assert DerivesTokens(g, p.name, [tree.tok]);
      r :| r.Inner? && r.rule == p.name && Derives(g, r) && Yield(r) == [tree.tok];
    } else {
      StartsTerminal(g, p.name, tree.tok.kind);
      r := tree;
    }
  }

  /** Where the rules that are not called derive single tokens, every derivation can be replaced by a reading of the same tokens. */
  lemma {:induction false} DerivationIsRead(g: Grammar, t: Trie, d: Forest, m: Demand) returns (f: Forest)
    requires NoEmptyAlternative(g) && m != AllHarmless && AllOk(g, m) && OkTrie(g, t, m) && DerivesFrom(g, t, d)
    ensures Reads(g, t, f) && YieldAll(f) == YieldAll(d)
    decreases d, 1
  {
    if d.Empty? {
      f := Empty;
    } else {
      var p, s := DeriveStep(g, t, d);
      Met(g, t, d);
      LookupOk(g, t.kids, d.sym, m);
      var tree := TreeIsRead(g, p, d.tree, m);
      var next := DerivationIsRead(g, s, d.next, m);
      f := More(d.sym, tree, next);
    }
  }

  lemma {:induction false} TreeIsRead(g: Grammar, p: Part, tree: Tree, m: Demand) returns (r: Tree)
    requires NoEmptyAlternative(g) && m != AllHarmless && AllOk(g, m) && Single(g, p) && Derives(g, tree) && Matches(g, p.name, tree)
    ensures Fits(g, p, r) && Yield(r) == Yield(tree)
    decreases tree, 0
  {
    if IsCall(g, p) {
      assert RuleOk(g, p.name, m);
      DerivedValue(g, tree);
      var kids := DerivationIsRead(g, TrieOf(g, p.name), tree.kids, m);
      r := Inner(p.name, kids);
    } else if p.name in RuleNames(g) {
      DerivedStarts(g, p.name, tree);
      assert DerivesTokens(g, p.name, Yield(tree));
      r := Leaf(Yield(tree)[0]);
    } else {
      StartsTerminal(g, p.name, tree.tok.kind);
      r := tree;
    }
  }

  /** What a call consumes is derived. */
  lemma OkIsSound(g: Grammar, prog: seq<Fn>, errs: seq<ErrorStuff>, r: Name, input: seq<Token>, fuel: nat, m: Demand)
    requires Implements(g, prog, errs) && m != AllSingle && AllOk(g, m) && Parse(prog, r, input, fuel).Done?
    ensures Consumed(g, r, input, Parse(prog, r, input, fuel).rest)
  {
    assert HasRule(g, prog, errs, r) && RuleOk(g, r, m);
    var f := SoundParse(g, prog, errs, r, input, fuel);
    var d := ReadDerives(g, TrieOf(g, r), f, m);
    RuleDerives(g, r, YieldAll(f));
    assert YieldAll(f) + Parse(prog, r, input, fuel).rest == input;
  }

  /** What can be read in full is accepted. */
  lemma ReadIsAccepted(g: Grammar, prog: seq<Fn>, errs: seq<ErrorStuff>, follow: Follow, r: Name, f: Forest)
    requires Implements(g, prog, errs) && AllDistinct(g) && AllCalm(g, follow) && r in RuleNames(g)
    requires Reads(g, TrieOf(g, r), f)
    ensures Accepts(prog, r, YieldAll(f))
  {
    CompleteParse(g, prog, errs, follow, r, f, [], Depth(f) + 1);
    assert YieldAll(f) + [] == YieldAll(f);
  }

  lemma AcceptedIsRead(g: Grammar, prog: seq<Fn>, errs: seq<ErrorStuff>, r: Name, input: seq<Token>)
    requires Implements(g, prog, errs) && r in RuleNames(g) && Accepts(prog, r, input)
    ensures NodeReads(g, TrieOf(g, r), input)
  {
    var fuel: nat :| var res := Parse(prog, r, input, fuel); res.Done? && res.rest == [];
    var f := SoundParse(g, prog, errs, r, input, fuel);
    assert YieldAll(f) + [] == YieldAll(f);
  }

  /** And every derivation is accepted where the rules that are not called derive single tokens. */
  lemma SingleIsComplete(g: Grammar, prog: seq<Fn>, errs: seq<ErrorStuff>, follow: Follow, r: Name, input: seq<Token>,
                         m: Demand)
    requires Implements(g, prog, errs) && AllDistinct(g) && AllCalm(g, follow) && m != AllHarmless && AllOk(g, m)
    requires r in RuleNames(g) && DerivesTokens(g, r, input)
    ensures Accepts(prog, r, input)
  {
    RuleDerives(g, r, input);
    var d :| DerivesFrom(g, TrieOf(g, r), d) && YieldAll(d) == input;
    assert RuleOk(g, r, m);
    var f := DerivationIsRead(g, TrieOf(g, r), d, m);
    ReadIsAccepted(g, prog, errs, follow, r, f);
  }

  // ---- two derivations of the same tokens ----

  /** `follow` accounts for the uses of rules that are not called, too. */
  ghost predicate Covered(g: Grammar, follow: Follow, rule: Name, t: Trie)
    decreases t, 1
  {
    CoveredKids(g, follow, rule, t.kids)
  }

  ghost predicate CoveredKids(g: Grammar, follow: Follow, rule: Name, kids: Kids)
    decreases kids, 0
  {
    kids.Kid? ==>
      && (Uncalled(g, kids.part) ==> forall k :: ComesNext(g, follow, rule, kids.sub, k) ==> follow(kids.part.name, k))
      && Covered(g, follow, rule, kids.sub)
      && CoveredKids(g, follow, rule, kids.next)
  }

  ghost predicate AllCovered(g: Grammar, follow: Follow)
    requires NoEmptyAlternative(g)
  {
    forall n :: RuleCovered(g, follow, n)
  }

  ghost predicate RuleCovered(g: Grammar, follow: Follow, n: Name)
    requires NoEmptyAlternative(g)
  {
    n in RuleNames(g) ==> Covered(g, follow, n, TrieOf(g, n))
  }

  /** One token decides at the node, in every context that may follow the rule. */
  ghost predicate Decided(g: Grammar, follow: Follow, rule: Name, t: Trie)
  {
    Distinct(g, t) && Calm(g, follow, rule, t) && Covered(g, follow, rule, t)
  }

  ghost predicate AllDecided(g: Grammar, follow: Follow)
    requires NoEmptyAlternative(g)
  {
    AllDistinct(g) && AllCalm(g, follow) && AllCovered(g, follow)
  }

  lemma RuleDecided(g: Grammar, follow: Follow, n: Name)
    requires NoEmptyAlternative(g) && AllDecided(g, follow) && n in RuleNames(g)
    ensures Decided(g, follow, n, TrieOf(g, n))
  {
    assert RuleDistinct(g, n) && RuleCalm(g, follow, n) && RuleCovered(g, follow, n);
  }

  /** Below a key, and for what may follow its symbol. */
  lemma {:induction false} DecidedBelow(g: Grammar, follow: Follow, rule: Name, kids: Kids, n: Name)
    requires DistinctKids(g, kids) && CalmKids(g, follow, rule, kids) && CoveredKids(g, follow, rule, kids)
    requires Lookup(kids, n).Some?
    ensures var (p, s) := Lookup(kids, n).value;
            && Decided(g, follow, rule, s)
            && (p.name in RuleNames(g) ==> forall k :: ComesNext(g, follow, rule, s, k) ==> follow(p.name, k))
  {
    if kids.part.name != n { DecidedBelow(g, follow, rule, kids.next, n); }
  }

  /** What is derived behind a symbol may follow it. */
  lemma NextMayFollow(g: Grammar, follow: Follow, rule: Name, s: Trie, x: Name, d: Forest, rest: seq<Token>)
    requires NoEmptyAlternative(g) && DerivesFrom(g, s, d) && MayFollow(follow, rule, rest)
    requires forall k :: ComesNext(g, follow, rule, s, k) ==> follow(x, k)
    ensures MayFollow(follow, x, YieldAll(d) + rest)
  {
    if d.More? {
      ForestStarts(g, s, d);
      assert (YieldAll(d) + rest)[0] == YieldAll(d)[0];
      assert ComesNext(g, follow, rule, s, YieldAll(d)[0].kind);
    } else {
      assert YieldAll(d) + rest == rest;
      assert rest != [] ==> ComesNext(g, follow, rule, s, rest[0].kind);
    }
  }

  /** Where a node's value ends a derivation, no other derivation goes on with what may follow. */
  lemma NoneLonger(g: Grammar, follow: Follow, rule: Name, t: Trie, d: Forest, x: seq<Token>, y: seq<Token>)
    requires NoEmptyAlternative(g) && Decided(g, follow, rule, t) && t.value.Some? && MayFollow(follow, rule, x)
    requires DerivesFrom(g, t, d) && x == YieldAll(d) + y
    ensures d.Empty?
  {
    if d.More? {
      ForestStarts(g, t, d);
    }
  }

  /** Two derivations from a node that begin the same text, each in front of something that may follow, are of
      the same tokens. */
  lemma {:induction false} DeriveUnique(g: Grammar, follow: Follow, rule: Name, t: Trie, a: Forest, b: Forest,
                                        x: seq<Token>, y: seq<Token>)
    requires NoEmptyAlternative(g) && AllDecided(g, follow) && Decided(g, follow, rule, t)
    requires DerivesFrom(g, t, a) && DerivesFrom(g, t, b) && MayFollow(follow, rule, x) && MayFollow(follow, rule, y)
    requires YieldAll(a) + x == YieldAll(b) + y
    ensures YieldAll(a) == YieldAll(b)
    decreases a
  {
    if a.Empty? {
      assert YieldAll(a) + x == x;
      NoneLonger(g, follow, rule, t, b, x, y);
    } else if b.Empty? {
      assert YieldAll(b) + y == y;
      NoneLonger(g, follow, rule, t, a, y, x);
    } else {
      SameKey(g, t, a, b, x, y);
      var p, s := DeriveStep(g, t, a);
      var q, u := DeriveStep(g, t, b);
      DecidedBelow(g, follow, rule, t.kids, a.sym);
      var xa, yb := YieldAll(a.next) + x, YieldAll(b.next) + y;
      Assoc(Yield(a.tree), YieldAll(a.next), x);
      Assoc(Yield(b.tree), YieldAll(b.next), y);
      if p.name in RuleNames(g) {
        NextMayFollow(g, follow, rule, s, p.name, a.next, x);
        NextMayFollow(g, follow, rule, s, p.name, b.next, y);
        RuleDecided(g, follow, p.name);
        DerivedValue(g, a.tree);
        DerivedValue(g, b.tree);
        DeriveUnique(g, follow, p.name, TrieOf(g, p.name), a.tree.kids, b.tree.kids, xa, yb);
      } else {
        assert (Yield(a.tree) + xa)[0] == (Yield(b.tree) + yb)[0];
      }
      SameTail(Yield(a.tree), xa, yb);
      DeriveUnique(g, follow, rule, s, a.next, b.next, x, y);
    }
  }

  lemma SameTail<T>(w: seq<T>, x: seq<T>, y: seq<T>)
    requires w + x == w + y
    ensures x == y
  {
    assert x == (w + x)[|w|..] && y == (w + y)[|w|..];
  }

  lemma SameKey(g: Grammar, t: Trie, a: Forest, b: Forest, x: seq<Token>, y: seq<Token>)
    requires NoEmptyAlternative(g) && Distinct(g, t) && DerivesFrom(g, t, a) && DerivesFrom(g, t, b) && a.More? && b.More?
    requires YieldAll(a) + x == YieldAll(b) + y
    ensures a.sym == b.sym
  {
    ForestStarts(g, t, a);
    ForestStarts(g, t, b);
    assert YieldAll(a)[0] == (YieldAll(a) + x)[0] && YieldAll(b)[0] == (YieldAll(b) + y)[0];
    var p, s := DeriveStep(g, t, a);
    var q, u := DeriveStep(g, t, b);
    UniqueStart(g, t.kids, a.sym, b.sym, YieldAll(a)[0].kind);
  }

  lemma TreeUnique(g: Grammar, follow: Follow, r: Name, v: seq<Token>, w: seq<Token>, x: seq<Token>, y: seq<Token>)
    requires NoEmptyAlternative(g) && AllDecided(g, follow) && r in RuleNames(g)
    requires DerivesTokens(g, r, v) && DerivesTokens(g, r, w) && MayFollow(follow, r, x) && MayFollow(follow, r, y)
    requires v + x == w + y
    ensures v == w && x == y
  {
    RuleDecided(g, follow, r);
    RuleDerives(g, r, v);
    RuleDerives(g, r, w);
    var a :| DerivesFrom(g, TrieOf(g, r), a) && YieldAll(a) == v;
    var b :| DerivesFrom(g, TrieOf(g, r), b) && YieldAll(b) == w;
    DeriveUnique(g, follow, r, TrieOf(g, r), a, b, x, y);
    SameTail(v, x, y);
  }

  // ---- the conditions are needed ----

  /** All that can be read from the node is derived from it, token for token. */
  ghost predicate NodeSound(g: Grammar, t: Trie)
    requires NoEmptyAlternative(g)
  {
    forall f :: Reads(g, t, f) ==> NodeDerives(g, t, YieldAll(f))
  }

  ghost predicate AllSound(g: Grammar)
    requires NoEmptyAlternative(g)
  {
    forall n :: RuleSound(g, n)
  }

  ghost predicate RuleSound(g: Grammar, n: Name)
    requires NoEmptyAlternative(g)
  {
    n in RuleNames(g) ==> NodeSound(g, TrieOf(g, n))
  }

  /** And all that is derived from it can be read. */
  ghost predicate NodeComplete(g: Grammar, t: Trie)
    requires NoEmptyAlternative(g)
  {
    forall d :: DerivesFrom(g, t, d) ==> NodeReads(g, t, YieldAll(d))
  }

  ghost predicate AllComplete(g: Grammar)
    requires NoEmptyAlternative(g)
  {
    forall n :: RuleComplete(g, n)
  }

  ghost predicate RuleComplete(g: Grammar, n: Name)
    requires NoEmptyAlternative(g)
  {
    n in RuleNames(g) ==> NodeComplete(g, TrieOf(g, n))
  }

  /** A key of a node where one token decides. */
  ghost predicate IsKey(g: Grammar, follow: Follow, rule: Name, t: Trie, p: Part, s: Trie)
    requires NoEmptyAlternative(g)
  {
    && AllDecided(g, follow) && Decided(g, follow, rule, t)
    && Lookup(t.kids, p.name) == Some((p, s)) && Usable(g, p) && Readable(g, s)
  }

  /** A reading with as few tokens as possible. */
  lemma {:induction false} Shortest(g: Grammar, s: Trie, f: Forest) returns (r: Forest)
    requires NoEmptyAlternative(g) && Reads(g, s, f)
    ensures Reads(g, s, r) && forall other :: Reads(g, s, other) ==> |YieldAll(r)| <= |YieldAll(other)|
    decreases |YieldAll(f)|
  {
    if other :| Reads(g, s, other) && |YieldAll(other)| < |YieldAll(f)| {
      r := Shortest(g, s, other);
    } else {
      r := f;
    }
  }

  /** What is read through a key is derived through the same key. */
  lemma ReadingSplits(g: Grammar, follow: Follow, rule: Name, t: Trie, p: Part, s: Trie, tree: Tree, r: Forest)
    returns (dt: Tree, dn: Forest)
    requires NoEmptyAlternative(g) && IsKey(g, follow, rule, t, p, s) && NodeSound(g, t)
    requires Fits(g, p, tree) && Reads(g, s, r)
    ensures Matches(g, p.name, dt) && Derives(g, dt) && DerivesFrom(g, s, dn)
    ensures Yield(dt) + YieldAll(dn) == Yield(tree) + YieldAll(r)
  {
    var f := More(p.name, tree, r);
    assert Reads(g, t, f);
    var d :| DerivesFrom(g, t, d) && YieldAll(d) == YieldAll(f);
    FitStarts(g, p, tree);
    assert YieldAll(f)[0] == Yield(tree)[0];
    ForestStarts(g, t, d);
    var q, u := DeriveStep(g, t, d);
    UniqueStart(g, t.kids, p.name, d.sym, YieldAll(f)[0].kind);
    dt, dn := d.tree, d.next;
  }

  /** What is derived through a key is read through the same key. */
  lemma DerivationSplits(g: Grammar, follow: Follow, rule: Name, t: Trie, p: Part, s: Trie, dt: Tree, dn: Forest)
    returns (tree: Tree, r: Forest)
    requires NoEmptyAlternative(g) && IsKey(g, follow, rule, t, p, s) && NodeComplete(g, t)
    requires Matches(g, p.name, dt) && Derives(g, dt) && DerivesFrom(g, s, dn)
    ensures Fits(g, p, tree) && Reads(g, s, r)
    ensures Yield(dt) + YieldAll(dn) == Yield(tree) + YieldAll(r)
  {
    var d := More(p.name, dt, dn);
    DeriveMore(g, t, p, s, dt, dn);
    var f :| Reads(g, t, f) && YieldAll(f) == YieldAll(d);
    DerivedStarts(g, p.name, dt);
    assert YieldAll(d)[0] == Yield(dt)[0];
    ReadStarts(g, t, f);
    UniqueStart(g, t.kids, p.name, f.sym, YieldAll(d)[0].kind);
    assert Fits(g, p, f.tree);
    tree, r := f.tree, f.next;
  }

  /** What is read or derived behind a key may follow its symbol. */
  lemma BehindKey(g: Grammar, follow: Follow, rule: Name, t: Trie, p: Part, s: Trie, r: Forest, dn: Forest)
    requires NoEmptyAlternative(g) && IsKey(g, follow, rule, t, p, s) && p.name in RuleNames(g)
    requires Reads(g, s, r) && DerivesFrom(g, s, dn)
    ensures MayFollow(follow, p.name, YieldAll(r)) && MayFollow(follow, p.name, YieldAll(dn))
  {
    DecidedBelow(g, follow, rule, t.kids, p.name);
    if r.More? {
      ReadStarts(g, s, r);
      assert ComesNext(g, follow, rule, s, YieldAll(r)[0].kind);
    }
    NextMayFollow(g, follow, rule, s, p.name, dn, []);
    assert YieldAll(dn) + [] == YieldAll(dn);
  }

  /** A reading of a called rule is derived, and so is the token of one that is not. */
  lemma FitDerived(g: Grammar, p: Part, tree: Tree)
    requires NoEmptyAlternative(g) && AllSound(g) && Harmless(g, p) && Fits(g, p, tree) && p.name in RuleNames(g)
    ensures DerivesTokens(g, p.name, Yield(tree))
  {
    if IsCall(g, p) {
      assert RuleSound(g, p.name);
      RuleDerives(g, p.name, Yield(tree));
    }
  }

  lemma HarmlessKey(g: Grammar, follow: Follow, rule: Name, t: Trie, p: Part, s: Trie)
    requires NoEmptyAlternative(g) && IsKey(g, follow, rule, t, p, s) && NodeSound(g, t)
    ensures Harmless(g, p)
  {
    if Uncalled(g, p) {
      var f :| Reads(g, s, f);
      var rest := Shortest(g, s, f);
      forall tok: Token | Starts(g, p.name, tok.kind) ensures DerivesTokens(g, p.name, [tok]) {
        var dt, dn := ReadingSplits(g, follow, rule, t, p, s, Leaf(tok), rest);
        DerivedStarts(g, p.name, dt);
        assert (Yield(dt) + YieldAll(dn))[0] == Yield(dt)[0] == tok;
        var r := DerivationReads(g, s, dn);
        assert |Yield(dt)| + |YieldAll(dn)| == 1 + |YieldAll(rest)|;
        assert Yield(dt) == [tok];
      }
    }
  }

  /** A node is sound only if each key is harmless and leads to a sound node. */
  lemma KeySound(g: Grammar, follow: Follow, rule: Name, t: Trie, p: Part, s: Trie)
    requires NoEmptyAlternative(g) && IsKey(g, follow, rule, t, p, s) && AllSound(g) && NodeSound(g, t)
    ensures Harmless(g, p) && NodeSound(g, s)
  {
    HarmlessKey(g, follow, rule, t, p, s);
    var tree: Tree :| Fits(g, p, tree);
    forall r | Reads(g, s, r) ensures NodeDerives(g, s, YieldAll(r)) {
      var dt, dn := ReadingSplits(g, follow, rule, t, p, s, tree, r);
      if p.name in RuleNames(g) {
        FitDerived(g, p, tree);
        assert DerivesTokens(g, p.name, Yield(dt));
        BehindKey(g, follow, rule, t, p, s, r, dn);
        TreeUnique(g, follow, p.name, Yield(dt), Yield(tree), YieldAll(dn), YieldAll(r));
      } else {
        assert Yield(dt)[0] == (Yield(dt) + YieldAll(dn))[0] && Yield(tree)[0] == (Yield(tree) + YieldAll(r))[0];
        SameTail(Yield(tree), YieldAll(dn), YieldAll(r));
      }
    }
  }

  lemma SingleKey(g: Grammar, follow: Follow, rule: Name, t: Trie, p: Part, s: Trie)
    requires NoEmptyAlternative(g) && IsKey(g, follow, rule, t, p, s) && NodeComplete(g, t) && NodeSound(g, s)
    requires Harmless(g, p)
    ensures Single(g, p)
  {
    if Uncalled(g, p) {
      var f :| Reads(g, s, f);
      var dn :| DerivesFrom(g, s, dn) && YieldAll(dn) == YieldAll(f);
      forall input | DerivesTokens(g, p.name, input) ensures |input| == 1 {
        var dt: Tree :| dt.Inner? && dt.rule == p.name && Derives(g, dt) && Yield(dt) == input;
        DerivedStarts(g, p.name, dt);
        var tree, r := DerivationSplits(g, follow, rule, t, p, s, dt, dn);
        assert (Yield(dt) + YieldAll(dn))[0] == Yield(dt)[0] && (Yield(tree) + YieldAll(r))[0] == Yield(tree)[0];
        BehindKey(g, follow, rule, t, p, s, r, dn);
        assert DerivesTokens(g, p.name, [tree.tok]);
        TreeUnique(g, follow, p.name, input, [tree.tok], YieldAll(dn), YieldAll(r));
      }
    }
  }

  /** A sound node is complete only if each key's rule derives single tokens, or is called, and leads to a
      complete node. */
  lemma KeyComplete(g: Grammar, follow: Follow, rule: Name, t: Trie, p: Part, s: Trie)
    requires NoEmptyAlternative(g) && IsKey(g, follow, rule, t, p, s) && AllSound(g) && NodeComplete(g, t)
    requires NodeSound(g, s) && Harmless(g, p)
    ensures Single(g, p) && NodeComplete(g, s)
  {
    SingleKey(g, follow, rule, t, p, s);
    var dt := KeyDerives(g, p);
    forall dn | DerivesFrom(g, s, dn) ensures NodeReads(g, s, YieldAll(dn)) {
      var tree, r := DerivationSplits(g, follow, rule, t, p, s, dt, dn);
      if p.name in RuleNames(g) {
        FitDerived(g, p, tree);
        assert DerivesTokens(g, p.name, Yield(dt));
        BehindKey(g, follow, rule, t, p, s, r, dn);
        TreeUnique(g, follow, p.name, Yield(dt), Yield(tree), YieldAll(dn), YieldAll(r));
      } else {
        assert Yield(dt)[0] == (Yield(dt) + YieldAll(dn))[0] && Yield(tree)[0] == (Yield(tree) + YieldAll(r))[0];
        SameTail(Yield(tree), YieldAll(dn), YieldAll(r));
      }
    }
  }

  lemma KeyDerives(g: Grammar, p: Part) returns (dt: Tree)
    requires NoEmptyAlternative(g) && AllSound(g) && Harmless(g, p) && Usable(g, p)
    ensures Matches(g, p.name, dt) && Derives(g, dt)
  {
    var tree: Tree :| Fits(g, p, tree);
    if p.name in RuleNames(g) {
      FitDerived(g, p, tree);
      dt :| dt.Inner? && dt.rule == p.name && Derives(g, dt) && Yield(dt) == Yield(tree);
    } else {
      StartsTerminal(g, p.name, tree.tok.kind);
      dt := tree;
    }
  }

  lemma {:induction false} KidsOk(g: Grammar, follow: Follow, rule: Name, t: Trie, kids: Kids, m: Demand)
    requires NoEmptyAlternative(g) && AllDecided(g, follow) && Decided(g, follow, rule, t) && Suffix(kids, t)
    requires AllSound(g) && NodeSound(g, t) && m != AllSingle && (m == Both ==> NodeComplete(g, t))
    ensures OkKids(g, kids, m)
    decreases kids
  {
    if kids.Kid? {
      var p, s := kids.part, kids.sub;
      assert Sorted(s) && Live(s);
      SuffixNext(kids, t);
      if Usable(g, p) && Readable(g, s) {
        KeySound(g, follow, rule, t, p, s);
        if m == Both { KeyComplete(g, follow, rule, t, p, s); }
        DecidedBelow(g, follow, rule, t.kids, p.name);
        KidsOk(g, follow, rule, s, s.kids, m);
      }
      KidsOk(g, follow, rule, t, kids.next, m);
    }
  }

  lemma SoundIsOk(g: Grammar, follow: Follow, m: Demand)
    requires NoEmptyAlternative(g) && AllDecided(g, follow) && AllSound(g) && m != AllSingle && (m == Both ==> AllComplete(g))
    ensures AllOk(g, m)
  {
    forall n ensures RuleOk(g, n, m) {
      if n in RuleNames(g) {
        assert RuleSound(g, n) && (m == Both ==> RuleComplete(g, n));
        RuleDecided(g, follow, n);
        TrieShape(g, n);
        KidsOk(g, follow, n, TrieOf(g, n), TrieOf(g, n).kids, m);
      }
    }
  }

  // ---- the exact conditions for the parser ----

  /** Where one token decides, whatever the parser consumes is derived if and only if every key that some reading
      goes through is called, is no rule, or derives alone each token it can begin with. */
  lemma SoundExactly(g: Grammar, prog: seq<Fn>, errs: seq<ErrorStuff>, follow: Follow)
    requires Implements(g, prog, errs) && AllDecided(g, follow)
    ensures ParserSound(g, prog) <==> AllOk(g, AllHarmless)
  {
    if AllOk(g, AllHarmless) {
      forall r, input, fuel: nat | Parse(prog, r, input, fuel).Done?
        ensures Consumed(g, r, input, Parse(prog, r, input, fuel).rest)
      {
        OkIsSound(g, prog, errs, r, input, fuel, AllHarmless);
      }
    }
    if ParserSound(g, prog) {
      forall n ensures RuleSound(g, n) {
        if n in RuleNames(g) {
          forall f | Reads(g, TrieOf(g, n), f) ensures NodeDerives(g, TrieOf(g, n), YieldAll(f)) {
            ReadIsDerived(g, prog, errs, follow, n, f);
          }
        }
      }
      SoundIsOk(g, follow, AllHarmless);
    }
  }

  lemma ReadIsDerived(g: Grammar, prog: seq<Fn>, errs: seq<ErrorStuff>, follow: Follow, n: Name, f: Forest)
    requires Implements(g, prog, errs) && AllDecided(g, follow) && ParserSound(g, prog) && n in RuleNames(g)
    requires Reads(g, TrieOf(g, n), f)
    ensures NodeDerives(g, TrieOf(g, n), YieldAll(f))
  {
    CompleteParse(g, prog, errs, follow, n, f, [], Depth(f) + 1);
    var input := YieldAll(f) + [];
    assert Consumed(g, n, input, Parse(prog, n, input, Depth(f) + 1).rest);
    var w :| w + [] == input && DerivesTokens(g, n, w);
    assert w == w + [] && YieldAll(f) == input;
    RuleDerives(g, n, w);
  }

  /** And the parser accepts exactly what is derived if and only if, beyond that, the rules that are not called
      derive single tokens only. */
  lemma DecidesExactly(g: Grammar, prog: seq<Fn>, errs: seq<ErrorStuff>, follow: Follow)
    requires Implements(g, prog, errs) && AllDecided(g, follow)
    ensures ParserDecides(g, prog) <==> AllOk(g, Both)
  {
    if AllOk(g, Both) {
      forall r, input | r in RuleNames(g) ensures Accepts(prog, r, input) <==> DerivesTokens(g, r, input) {
        OkDecides(g, prog, errs, follow, r, input);
      }
    }
    if ParserDecides(g, prog) {
      forall n ensures RuleSound(g, n) && RuleComplete(g, n) {
        if n in RuleNames(g) { DecidesNode(g, prog, errs, follow, n); }
      }
      SoundIsOk(g, follow, Both);
    }
  }

  lemma OkDecides(g: Grammar, prog: seq<Fn>, errs: seq<ErrorStuff>, follow: Follow, r: Name, input: seq<Token>)
    requires Implements(g, prog, errs) && AllDistinct(g) && AllCalm(g, follow) && AllOk(g, Both) && r in RuleNames(g)
    ensures Accepts(prog, r, input) <==> DerivesTokens(g, r, input)
  {
    if Accepts(prog, r, input) {
      var fuel: nat :| var res := Parse(prog, r, input, fuel); res.Done? && res.rest == [];
      OkIsSound(g, prog, errs, r, input, fuel, Both);
      var w :| w + [] == input && DerivesTokens(g, r, w);
      assert w + [] == w;
    }
    if DerivesTokens(g, r, input) { SingleIsComplete(g, prog, errs, follow, r, input, Both); }
  }

  lemma DecidesNode(g: Grammar, prog: seq<Fn>, errs: seq<ErrorStuff>, follow: Follow, n: Name)
    requires Implements(g, prog, errs) && AllDecided(g, follow) && ParserDecides(g, prog) && n in RuleNames(g)
    ensures NodeSound(g, TrieOf(g, n)) && NodeComplete(g, TrieOf(g, n))
  {
    var t := TrieOf(g, n);
    forall f | Reads(g, t, f) ensures NodeDerives(g, t, YieldAll(f)) {
      ReadIsAccepted(g, prog, errs, follow, n, f);
      RuleDerives(g, n, YieldAll(f));
    }
    forall d | DerivesFrom(g, t, d) ensures NodeReads(g, t, YieldAll(d)) {
      RuleDerives(g, n, YieldAll(d));
      AcceptedIsRead(g, prog, errs, n, YieldAll(d));
    }
  }
}
