/** `main` and `gen()` of recde: from a grammar to the text of its parser, end to end. */
module Driver {
  import opened Names
  import opened Tries
  import opened Grammars
  import opened Code
  import opened Parser
  import opened Generator
  import opened Soundness
  import opened Completeness
  import opened Faithfulness
  import opened Stopping
  import opened TokenSoundness
  import opened Recognition

  lemma {:induction false} ProgramShaped(g: Grammar, first: FirstTable, names: seq<Name>)
    requires NoEmptyAlternative(g) && forall n :: n in names ==> n in first
    ensures forall f :: f in ProgramFor(g, first, names) ==> ShapedFn(f)
    decreases |names|
  {
    if names != [] {
      var init, n := names[..|names| - 1], names[|names| - 1];
      ProgramShaped(g, first, init);
      var f := FnOf(g, first, n, |ErrorsFor(g, init)|);
      CompileShaped(g, n, TrieOf(g, n), [], |ErrorsFor(g, init)|);
      assert ShapedFn(f);
    }
  }

  /** The text written for a grammar reads back as a program that implements the grammar, together with
      the error table it throws from. */
  method Generate(g: Grammar) returns (rd: RecurDec)
    requires NoEmptyAlternative(g)
    ensures rd.g == g && IsFirst(g, rd.first)
    ensures ReadAll(rd.prsS).Some? && Implements(g, ReadAll(rd.prsS).value, rd.errorStuff)
  {
    rd := new RecurDec(g);
    rd.ComputeFirstSet();
    rd.GenRules();
    ProgramImplements(g, rd.first);
    ProgramShaped(g, rd.first, Order(g.rules));
    RoundTripAll(ProgramFor(g, rd.first, Order(g.rules)));
  }

  // ---- a rule used without a store name ----

  /** A uses B without storing it: A -> B, B -> t u. */
  const USE := Part("B", "", "UseB")
  const UNNAMED_USE := Grammar([("A", [USE]), ("B", [Part("t", "", "Pair"), Part("u", "", "Pair")])], {"t", "u"})

  lemma UnnamedTrie()
    ensures NoEmptyAlternative(UNNAMED_USE) && RuleNames(UNNAMED_USE) == {"A", "B"}
    ensures Alternatives(UNNAMED_USE.rules, "A") == [[USE]]
    ensures TrieOf(UNNAMED_USE, "A") == Trie(Kid(USE, Trie(Nil, Some("UseB")), Nil), None)
  {
    var g := UNNAMED_USE;
    assert g.rules[0].0 == "A" && g.rules[1].0 == "B";
    assert g.rules[1..] == [g.rules[1]] && g.rules[1..][1..] == [];
    assert Alternatives(g.rules[1..], "A") == [];
    assert [[USE]][1..] == [] && [USE][1..] == [];
    assert Insert(EMPTY, [USE], "UseB") == Trie(InsertKids(Nil, [USE], "UseB"), None);
    assert Insert(EMPTY, [], "UseB") == Trie(Nil, Some("UseB"));
    assert Build(EMPTY, [[USE]]) == Build(Insert(EMPTY, [USE], "UseB"), []);
  }

  /** The generated code for A takes a single token for B: it accepts `t` of `t u`, which A does not derive. */
  lemma UnnamedUseAcceptsTooMuch(prog: seq<Fn>, errs: seq<ErrorStuff>, t: Token, u: Token)
    requires Implements(UNNAMED_USE, prog, errs) && t.kind == "t" && u.kind == "u"
    ensures !AllOk(UNNAMED_USE, AllHarmless) && !Faithful(UNNAMED_USE)
    ensures Parse(prog, "A", [t, u], 1) == Done(Node("A", [], "UseB"), [u])
    ensures !DerivesTokens(UNNAMED_USE, "A", [t])
  {
    var g := UNNAMED_USE;
    UnnamedTrie();
    UnnamedRun(prog, errs, t, u);
    if AllOk(g, AllHarmless) {
      OkIsSound(g, prog, errs, "A", [t, u], 1, AllHarmless);
      var w :| w + [u] == [t, u] && DerivesTokens(g, "A", w);
      assert |w| == 1 && w[0] == (w + [u])[0];
      assert w == [t];
    }
    if Faithful(g) { FaithfulIsOk(g, AllHarmless); }
    if DerivesTokens(g, "A", [t]) {
      var tree: Tree :| tree.Inner? && tree.rule == "A" && Derives(g, tree) && Yield(tree) == [t];
      UnnamedYield(tree);
    }
  }

  lemma UnnamedRun(prog: seq<Fn>, errs: seq<ErrorStuff>, t: Token, u: Token)
    requires Implements(UNNAMED_USE, prog, errs) && t.kind == "t"
    ensures Parse(prog, "A", [t, u], 1) == Done(Node("A", [], "UseB"), [u])
  {
    var g := UNNAMED_USE;
    UnnamedTrie();
    var f, base := FnFor(g, prog, errs, "A");
    assert BeginsWith(g, "B", "t") by { assert g.rules[1].0 == "B"; }
    StartsTerminal(g, "t", "t");
    StartsStep(g, "B", "t", "t");
    PassesMeaning(g, prog, errs, USE, [t, u]);
    UnnamedCode(base);
    UnnamedExec(prog, f.code, [t, u]);
  }

  lemma UnnamedCode(base: nat)
    ensures NoEmptyAlternative(UNNAMED_USE)
    ensures exists id :: Compile(UNNAMED_USE, "A", TrieOf(UNNAMED_USE, "A"), [], base) ==
                         If(TestOf(UNNAMED_USE, USE), Advance, Fall, Some(Ret("A", [], "UseB")), Throw(id))
  {
    var g := UNNAMED_USE;
    UnnamedTrie();
    var root, leaf := TrieOf(g, "A"), Trie(Nil, Some("UseB"));
    assert Compile(g, "A", leaf, [], base) == Fall && Push(g, [], USE) == [] && ActOf(g, USE) == Advance;
    assert RetOf("A", leaf, []) == Some(Ret("A", [], "UseB"));
    assert CompileKids(g, "A", Nil, [], base + ErrCount(leaf), Otherwise(root, base)) == Otherwise(root, base);
    assert Compile(g, "A", root, [], base) == CompileKids(g, "A", Kid(USE, leaf, Nil), [], base, Otherwise(root, base));
    assert Compile(g, "A", root, [], base) ==
           If(TestOf(g, USE), Advance, Fall, Some(Ret("A", [], "UseB")), Throw(base + ErrCountKids(root.kids)));
  }

  lemma UnnamedExec(prog: seq<Fn>, c: Code, input: seq<Token>)
    requires c.If? && c.act == Advance && c.body == Fall && c.ret == Some(Ret("A", [], "UseB"))
    requires Passes(prog, c.test, input)
    ensures Exec(prog, c, map[], input, 0) == Done(Node("A", [], "UseB"), input[1..])
  {
    var env: Env := map[];
    assert Exec(prog, c.body, env, input[1..], 0) == Fell(input[1..]);
    assert Args(env, []) == [];
    assert Construct(c.ret.value, env, input[1..]) == Done(Node("A", [], "UseB"), input[1..]);
  }

  lemma UnnamedYield(tree: Tree)
    requires tree.Inner? && tree.rule == "A" && Derives(UNNAMED_USE, tree)
    ensures |Yield(tree)| == 2
  {
    var g := UNNAMED_USE;
    UnnamedTrie();
    assert NamesOf([USE]) == ["B"];
    assert Symbols(tree.kids) == ["B"];
    assert [tree.kids.sym] + Symbols(tree.kids.next) == ["B"];
    assert |Symbols(tree.kids.next)| == 0;
    assert tree.kids.sym == Symbols(tree.kids)[0] == "B" && tree.kids.next.Empty?;
    UnnamedB(tree.kids.tree);
    assert YieldAll(tree.kids) == Yield(tree.kids.tree) + [];
  }

  lemma UnnamedB(b: Tree)
    requires b.Inner? && b.rule == "B" && Derives(UNNAMED_USE, b)
    ensures |Yield(b)| == 2
  {
    var g := UNNAMED_USE;
    UnnamedTrie();
    var a :| a in Alternatives(g.rules, "B") && NamesOf(a) == Symbols(b.kids);
    assert ("B", a) in g.rules && a == g.rules[1].1;
    assert NamesOf(a) == ["t", "u"];
    TwoLeaves(b.kids, "t", "u");
  }

  lemma TwoLeaves(f: Forest, x: Name, y: Name)
    requires Symbols(f) == [x, y] && x !in RuleNames(UNNAMED_USE) && y !in RuleNames(UNNAMED_USE)
    requires DerivesAll(UNNAMED_USE, f)
    ensures |YieldAll(f)| == 2
  {
    assert f.More? && Symbols(f) == [f.sym] + Symbols(f.next);
    assert f.sym == Symbols(f)[0] && Symbols(f.next) == Symbols(f)[1..] == [y];
    assert f.next.More? && Symbols(f.next) == [f.next.sym] + Symbols(f.next.next);
    assert f.next.sym == Symbols(f.next)[0] && |Symbols(f.next.next)| == 0;
    assert f.next.next.Empty?;
    assert f.tree.Leaf? && f.next.tree.Leaf?;
    assert YieldAll(f.next) == [f.next.tree.tok] + [];
    assert YieldAll(f) == [f.tree.tok] + YieldAll(f.next);
  }

  // ---- a rule used without a store name that does no harm ----

  /** A uses B without storing it: A -> B, B -> t. */
  const ONLY := Part("t", "x", "Only")
  const HARMLESS_USE := Grammar([("A", [USE]), ("B", [ONLY])], {"t"})

  /** A rule with one alternative of one symbol. */
  lemma OneSymbolTrie(p: Part)
    ensures Build(EMPTY, [[p]]) == Trie(Kid(p, Trie(Nil, Some(p.endName)), Nil), None)
  {
    assert [[p]][1..] == [] && [p][1..] == [];
    assert Insert(EMPTY, [p], p.endName) == Trie(InsertKids(Nil, [p], p.endName), None);
    assert Build(EMPTY, [[p]]) == Build(Insert(EMPTY, [p], p.endName), []);
  }

  lemma HarmlessTries()
    ensures NoEmptyAlternative(HARMLESS_USE) && RuleNames(HARMLESS_USE) == {"A", "B"}
    ensures Alternatives(HARMLESS_USE.rules, "B") == [[ONLY]]
    ensures TrieOf(HARMLESS_USE, "A") == Trie(Kid(USE, Trie(Nil, Some("UseB")), Nil), None)
    ensures TrieOf(HARMLESS_USE, "B") == Trie(Kid(ONLY, Trie(Nil, Some("Only")), Nil), None)
  {
    var g := HARMLESS_USE;
    assert g.rules[0].0 == "A" && g.rules[1].0 == "B";
    assert g.rules[1..] == [g.rules[1]] && g.rules[1..][1..] == [];
    assert Alternatives(g.rules[1..], "A") == [] && Alternatives(g.rules[1..], "B") == [[ONLY]];
    assert Alternatives(g.rules, "A") == [[USE]] && Alternatives(g.rules, "B") == [[ONLY]];
    OneSymbolTrie(USE);
    OneSymbolTrie(ONLY);
  }

  lemma {:induction false} HarmlessDerives(tok: Token)
    requires tok.kind == "t"
    ensures DerivesTokens(HARMLESS_USE, "B", [tok])
  {
    var g, d := HARMLESS_USE, More("t", Leaf(tok), Empty);
    HarmlessTries();
    assert NamesOf([ONLY]) == ["t"] && Symbols(d) == ["t"] + Symbols(Empty);
    var leaf, none: Forest := Leaf(tok), Empty;
    assert Yield(leaf) == [tok] && YieldAll(none) == [];
    assert YieldAll(More("t", leaf, none)) == Yield(leaf) + YieldAll(none) == [tok];
    var b := Inner("B", d);
    assert Yield(b) == YieldAll(b.kids);
    assert Derives(g, b);
  }

  /** B begins with t, and derives t alone. */
  lemma {:induction false} HarmlessB(tok: Token)
    ensures NoEmptyAlternative(HARMLESS_USE)
    ensures Starts(HARMLESS_USE, "B", tok.kind) <==> tok.kind == "t"
    ensures tok.kind == "t" ==> DerivesTokens(HARMLESS_USE, "B", [tok])
  {
    var g := HARMLESS_USE;
    HarmlessTries();
    assert g.rules[1] == ("B", [ONLY]) && BeginsWith(g, "B", "t");
    StartsTerminal(g, "t", tok.kind);
    if tok.kind == "t" {
      StartsStep(g, "B", "t", "t");
      HarmlessDerives(tok);
    }
    if Starts(g, "B", tok.kind) {
      var c :| Chain(g, c) && c[0] == "B" && c[|c| - 1] == tok.kind;
      ChainTail(g, c);
    }
  }

  lemma {:induction false} HarmlessYield(b: Tree)
    requires b.Inner? && b.rule == "B" && Derives(HARMLESS_USE, b)
    ensures |Yield(b)| == 1
  {
    var g, f := HARMLESS_USE, b.kids;
    HarmlessTries();
    assert NamesOf([ONLY]) == ["t"] && Symbols(f) == ["t"];
    assert [f.sym] + Symbols(f.next) == ["t"];
    assert f.sym == Symbols(f)[0] && |Symbols(f.next)| == 0 && f.next.Empty?;
    assert f.tree.Leaf? && YieldAll(f) == [f.tree.tok] + [];
  }

  lemma HarmlessPart()
    ensures NoEmptyAlternative(HARMLESS_USE) && OkPart(HARMLESS_USE, USE, Both)
  {
    var g := HARMLESS_USE;
    HarmlessTries();
    forall tok: Token | Starts(g, "B", tok.kind) ensures DerivesTokens(g, "B", [tok]) {
      HarmlessB(tok);
    }
    forall input | DerivesTokens(g, "B", input) ensures |input| == 1 {
      var b: Tree :| b.Inner? && b.rule == "B" && Derives(g, b) && Yield(b) == input;
      HarmlessYield(b);
    }
  }

  lemma HarmlessOk()
    ensures NoEmptyAlternative(HARMLESS_USE) && AllOk(HARMLESS_USE, Both)
  {
    var g := HARMLESS_USE;
    HarmlessTries();
    HarmlessPart();
    assert OkPart(g, ONLY, Both);
    forall n ensures RuleOk(g, n, Both) {
      assert n == "A" ==> OkKids(g, TrieOf(g, n).kids, Both);
      assert n == "B" ==> OkKids(g, TrieOf(g, n).kids, Both);
    }
  }

  /** Not all keys are called, and yet whatever the parser consumes is derived. */
  lemma HarmlessUse(prog: seq<Fn>, errs: seq<ErrorStuff>)
    requires Implements(HARMLESS_USE, prog, errs)
    ensures !Faithful(HARMLESS_USE) && AllOk(HARMLESS_USE, Both) && ParserSound(HARMLESS_USE, prog)
  {
    var g, leaf := HARMLESS_USE, Trie(Nil, Some("UseB"));
    HarmlessTries();
    HarmlessOk();
    HarmlessB(Token("t", ""));
    assert Fits(g, USE, Leaf(Token("t", ""))) && Reads(g, leaf, Empty);
    assert !RuleFaithful(g, "A");
    forall r, input, fuel: nat | Parse(prog, r, input, fuel).Done?
      ensures Consumed(g, r, input, Parse(prog, r, input, fuel).rest)
    {
      OkIsSound(g, prog, errs, r, input, fuel, Both);
    }
  }
}
