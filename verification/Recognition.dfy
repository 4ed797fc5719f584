/** The generated parser against derivability in the grammar itself. */
module Recognition {
  import opened Names
  import opened Tries
  import opened Grammars
  import opened Code
  import opened Parser
  import opened Generator
  import opened Soundness
  import opened Completeness
  import opened Faithfulness
  import opened Stopping
  import opened TokenSoundness

  // ---- main results ----

  /** Soundness: an accepted prefix is derived by the rule and, where all keys are called, the value is the AST of
      a derivation. */
  lemma AcceptedIsDerived(g: Grammar, prog: seq<Fn>, errs: seq<ErrorStuff>, r: Name, input: seq<Token>, fuel: nat)
    requires Implements(g, prog, errs) && AllOk(g, AllHarmless) && Parse(prog, r, input, fuel).Done?
    ensures Consumed(g, r, input, Parse(prog, r, input, fuel).rest)
    ensures Faithful(g) ==>
              exists tree: Tree ::
                && tree.Inner? && tree.rule == r && Derives(g, tree)
                && Yield(tree) + Parse(prog, r, input, fuel).rest == input
                && Reads(g, TrieOf(g, tree.rule), tree.kids)
                && Parse(prog, r, input, fuel).v == Ast(g, tree)
  {
    OkIsSound(g, prog, errs, r, input, fuel, AllHarmless);
    assert HasRule(g, prog, errs, r);
    var f := SoundParse(g, prog, errs, r, input, fuel);
    if Faithful(g) {
      ReadsIffDerives(g, r, f);
      assert Derives(g, Inner(r, f));
    }
  }

  /** Completeness: every derivation is accepted, in any context that may follow the rule, with exactly
      its own tokens consumed and its own AST returned. */
  lemma DerivedIsAccepted(g: Grammar, prog: seq<Fn>, errs: seq<ErrorStuff>, follow: Follow, tree: Tree, rest: seq<Token>)
    requires Implements(g, prog, errs) && Faithful(g) && AllDistinct(g) && AllCalm(g, follow)
    requires tree.Inner? && tree.rule in RuleNames(g) && Derives(g, tree) && MayFollow(follow, tree.rule, rest)
    ensures Reads(g, TrieOf(g, tree.rule), tree.kids)
    ensures forall fuel :: fuel > Depth(tree.kids) ==>
              Parse(prog, tree.rule, Yield(tree) + rest, fuel) == Done(Ast(g, tree), rest)
  {
    ReadsIffDerives(g, tree.rule, tree.kids);
    forall fuel | fuel > Depth(tree.kids)
      ensures Parse(prog, tree.rule, Yield(tree) + rest, fuel) == Done(Ast(g, tree), rest)
    {
      CompleteParse(g, prog, errs, follow, tree.rule, tree.kids, rest, fuel);
    }
  }

  /** Decision: on such a grammar the parser stops on every input, accepts the whole input exactly when
      the rule derives it, and otherwise returns early or throws. */
  lemma Decides(g: Grammar, prog: seq<Fn>, errs: seq<ErrorStuff>, follow: Follow, r: Name, input: seq<Token>)
    requires Implements(g, prog, errs) && AllOk(g, Both) && AllDistinct(g) && AllCalm(g, follow) && r in RuleNames(g)
    ensures Accepts(prog, r, input) <==> DerivesTokens(g, r, input)
    ensures Stops(prog, r, input)
  {
    OkDecides(g, prog, errs, follow, r, input);
    Termination(g, prog, errs, r, input);
  }

  /** Two readings of the same tokens by the same rule have the same AST. */
  lemma UnambiguousReading(g: Grammar, prog: seq<Fn>, errs: seq<ErrorStuff>, follow: Follow, r: Name, a: Forest, b: Forest)
    requires Implements(g, prog, errs) && AllDistinct(g) && AllCalm(g, follow) && r in RuleNames(g)
    requires Reads(g, TrieOf(g, r), a) && Reads(g, TrieOf(g, r), b) && YieldAll(a) == YieldAll(b)
    ensures Ast(g, Inner(r, a)) == Ast(g, Inner(r, b))
  {
    var fuel := Depth(a) + Depth(b) + 1;
    CompleteParse(g, prog, errs, follow, r, a, [], fuel);
    CompleteParse(g, prog, errs, follow, r, b, [], fuel);
  }

  /** And so have two derivations where all keys are called. */
  lemma Unambiguous(g: Grammar, prog: seq<Fn>, errs: seq<ErrorStuff>, follow: Follow, r: Name, a: Forest, b: Forest)
    requires Implements(g, prog, errs) && Faithful(g) && AllDistinct(g) && AllCalm(g, follow) && r in RuleNames(g)
    requires Derives(g, Inner(r, a)) && Derives(g, Inner(r, b)) && YieldAll(a) == YieldAll(b)
    ensures Reads(g, TrieOf(g, r), a) && Reads(g, TrieOf(g, r), b)
    ensures Ast(g, Inner(r, a)) == Ast(g, Inner(r, b))
  {
    ReadsIffDerives(g, r, a);
    ReadsIffDerives(g, r, b);
    UnambiguousReading(g, prog, errs, follow, r, a, b);
  }

  /** Any token may come after any rule. */
  const ANYTHING: Follow := (r, k) => true

  /** No node holds a value and has children: no alternative is a proper prefix of another. */
  predicate PrefixFree(t: Trie)
    decreases t, 1
  {
    (t.value.Some? ==> t.kids.Nil?) && PrefixFreeKids(t.kids)
  }

  predicate PrefixFreeKids(kids: Kids)
    decreases kids, 0
  {
    kids.Kid? ==> PrefixFree(kids.sub) && PrefixFreeKids(kids.next)
  }

  lemma {:induction false} PrefixFreeCalm(g: Grammar, rule: Name, t: Trie)
    requires PrefixFree(t)
    ensures Calm(g, ANYTHING, rule, t)
    decreases t, 1
  {
    PrefixFreeKidsCalm(g, rule, t.kids);
  }

  lemma {:induction false} PrefixFreeKidsCalm(g: Grammar, rule: Name, kids: Kids)
    requires PrefixFreeKids(kids)
    ensures CalmKids(g, ANYTHING, rule, kids)
    decreases kids, 0
  {
    if kids.Kid? {
      PrefixFreeCalm(g, rule, kids.sub);
      PrefixFreeKidsCalm(g, rule, kids.next);
    }
  }

  /** Without prefix alternatives, a derivation is accepted in front of any tokens whatever. */
  lemma DerivedIsAcceptedAnywhere(g: Grammar, prog: seq<Fn>, errs: seq<ErrorStuff>, tree: Tree, rest: seq<Token>)
    requires Implements(g, prog, errs) && Faithful(g) && AllDistinct(g)
    requires forall n :: n in RuleNames(g) ==> PrefixFree(TrieOf(g, n))
    requires tree.Inner? && tree.rule in RuleNames(g) && Derives(g, tree)
    ensures Reads(g, TrieOf(g, tree.rule), tree.kids)
    ensures forall fuel :: fuel > Depth(tree.kids) ==>
              Parse(prog, tree.rule, Yield(tree) + rest, fuel) == Done(Ast(g, tree), rest)
  {
    forall n | n in RuleNames(g)
      ensures Calm(g, ANYTHING, n, TrieOf(g, n))
    {
      PrefixFreeCalm(g, n, TrieOf(g, n));
    }
    DerivedIsAccepted(g, prog, errs, ANYTHING, tree, rest);
  }

  lemma {:induction false} PrefixFreeCovered(g: Grammar, rule: Name, t: Trie)
    requires PrefixFree(t)
    ensures Covered(g, ANYTHING, rule, t)
    decreases t, 1
  {
    PrefixFreeKidsCovered(g, rule, t.kids);
  }

  lemma {:induction false} PrefixFreeKidsCovered(g: Grammar, rule: Name, kids: Kids)
    requires PrefixFreeKids(kids)
    ensures CoveredKids(g, ANYTHING, rule, kids)
    decreases kids, 0
  {
    if kids.Kid? {
      PrefixFreeCovered(g, rule, kids.sub);
      PrefixFreeKidsCovered(g, rule, kids.next);
    }
  }

  lemma PrefixFreeDecided(g: Grammar)
    requires NoEmptyAlternative(g) && AllDistinct(g) && forall n :: n in RuleNames(g) ==> PrefixFree(TrieOf(g, n))
    ensures AllDecided(g, ANYTHING)
  {
    forall n ensures RuleCalm(g, ANYTHING, n) && RuleCovered(g, ANYTHING, n) {
      if n in RuleNames(g) {
        PrefixFreeCalm(g, n, TrieOf(g, n));
        PrefixFreeCovered(g, n, TrieOf(g, n));
      }
    }
  }

  lemma {:induction false} PrefixFreeExact(g: Grammar, kids: Kids)
    requires NoEmptyAlternative(g) && AllDecided(g, ANYTHING) && OkKids(g, kids, AllHarmless)
    ensures OkKids(g, kids, Both)
  {
    if kids.Kid? {
      var p := kids.part;
      if Usable(g, p) && Readable(g, kids.sub) {
        if Uncalled(g, p) {
          forall input | DerivesTokens(g, p.name, input) ensures |input| == 1 {
            var tree: Tree :| tree.Inner? && tree.rule == p.name && Derives(g, tree) && Yield(tree) == input;
            DerivedStarts(g, p.name, tree);
            assert [input[0]] + input[1..] == input + [];
            TreeUnique(g, ANYTHING, p.name, [input[0]], input, input[1..], []);
          }
        }
        PrefixFreeExact(g, kids.sub.kids);
      }
      PrefixFreeExact(g, kids.next);
    }
  }

  /** Without prefix alternatives there is one condition for both: the parser is sound exactly when it accepts
      just what is derived, and that is when the keys are called or harmless. */
  lemma PrefixFreeExactly(g: Grammar, prog: seq<Fn>, errs: seq<ErrorStuff>)
    requires Implements(g, prog, errs) && AllDistinct(g)
    requires forall n :: n in RuleNames(g) ==> PrefixFree(TrieOf(g, n))
    ensures ParserSound(g, prog) <==> AllOk(g, AllHarmless)
    ensures ParserDecides(g, prog) <==> AllOk(g, AllHarmless)
  {
    PrefixFreeDecided(g);
    SoundExactly(g, prog, errs, ANYTHING);
    DecidesExactly(g, prog, errs, ANYTHING);
    if AllOk(g, Both) { AllBothIsOk(g); }
    if AllOk(g, AllHarmless) {
      forall n ensures RuleOk(g, n, Both) {
        assert RuleOk(g, n, AllHarmless);
        if n in RuleNames(g) { PrefixFreeExact(g, TrieOf(g, n).kids); }
      }
    }
  }

  // ---- the values in an AST node ----

  function PartsAlong(t: Trie, path: seq<Name>): seq<Part>
    requires At(t, path).Some?
    decreases |path|
  {
    if path == [] then []
    else var (p, s) := Lookup(t.kids, path[0]).value; [p] + PartsAlong(s, path[1..])
  }

  /** The store names a path contributes to the argument list of its return. */
  function Pushed(g: Grammar, ps: seq<Part>): seq<Name>
  {
    if ps == [] then [] else (if Pushes(g, ps[0]) then [ps[0].storeName] else []) + Pushed(g, ps[1..])
  }

  /** The parts a path contributes to the constructor list. */
  function Stored(ps: seq<Part>): seq<Part>
  {
    if ps == [] then [] else (if ps[0].storeName != "" then [ps[0]] else []) + Stored(ps[1..])
  }

  /** Part by part: a stored one is recorded, and one that is stored and a token or a rule becomes an argument. */
  lemma {:induction false} PartByPart(g: Grammar, ps: seq<Part>, p: Part)
    ensures Pushed(g, ps + [p]) ==
            Pushed(g, ps) + if p.storeName != "" && (p.name in g.tokens || p.name in RuleNames(g)) then [p.storeName] else []
    ensures Stored(ps + [p]) == Stored(ps) + if p.storeName != "" then [p] else []
  {
    if ps != [] {
      PartByPart(g, ps[1..], p);
      assert (ps + [p])[1..] == ps[1..] + [p];
    } else {
      assert (ps + [p])[1..] == [];
    }
  }

  function StoreNames(ps: seq<Part>): seq<Name>
  {
    seq(|ps|, i requires 0 <= i < |ps| => ps[i].storeName)
  }

  function SymbolOf(test: Test): Name
  {
    match test
    case LookAhead(r) => r
    case TypeIs(k) => k
  }

  /** The return statement at the end of `path` through the emitted code. */
  function ReturnAt(c: Code, path: seq<Name>): Option<Ret>
    requires path != []
    decreases c
  {
    if !c.If? then None
    else if SymbolOf(c.test) != path[0] then ReturnAt(c.els, path)
    else if |path| == 1 then c.ret
    else ReturnAt(c.body, path[1..])
  }

  lemma {:induction false} ReturnAtPath(g: Grammar, rule: Name, t: Trie, names: seq<Name>, base: nat, path: seq<Name>)
    requires path != [] && At(t, path).Some?
    ensures ReturnAt(Compile(g, rule, t, names, base), path) ==
            RetOf(rule, At(t, path).value, names + Pushed(g, PartsAlong(t, path)))
    decreases |path|, 1
  {
    ReturnAtKids(g, rule, t.kids, names, base, Otherwise(t, base), path);
  }

  lemma {:induction false} ReturnAtKids(g: Grammar, rule: Name, kids: Kids, names: seq<Name>, base: nat, els: Code, path: seq<Name>)
    requires path != [] && At(Trie(kids, None), path).Some?
    ensures ReturnAt(CompileKids(g, rule, kids, names, base, els), path) ==
            RetOf(rule, At(Trie(kids, None), path).value, names + Pushed(g, PartsAlong(Trie(kids, None), path)))
    decreases |path|, 0, kids
  {
    var p, s := kids.part, kids.sub;
    if p.name != path[0] {
      ReturnAtKids(g, rule, kids.next, names, base + ErrCount(s), els, path);
    } else {
      var more := Pushed(g, PartsAlong(s, path[1..]));
      assert PartsAlong(Trie(kids, None), path) == [p] + PartsAlong(s, path[1..]);
      assert names + Pushed(g, PartsAlong(Trie(kids, None), path)) == Push(g, names, p) + more;
      if |path| == 1 {
        assert Push(g, names, p) + [] == Push(g, names, p);
      } else {
        ReturnAtPath(g, rule, s, Push(g, names, p), base, path[1..]);
      }
    }
  }

  lemma {:induction false} PushedLength(g: Grammar, ps: seq<Part>)
    ensures |Pushed(g, ps)| <= |Stored(ps)|
    ensures Pushed(g, ps) == StoreNames(Stored(ps)) <==> forall p :: p in ps && p.storeName != "" ==> Pushes(g, p)
  {
    if ps != [] {
      PushedLength(g, ps[1..]);
      assert forall p :: p in ps <==> p == ps[0] || p in ps[1..];
      var head, tail := ps[0], ps[1..];
      if head.storeName != "" {
        assert StoreNames(Stored(ps)) == [head.storeName] + StoreNames(Stored(tail));
        if Pushes(g, head) {
          assert Pushed(g, ps)[1..] == Pushed(g, tail);
          assert StoreNames(Stored(ps))[1..] == StoreNames(Stored(tail));
        } else {
          assert Pushed(g, ps) == Pushed(g, tail) && |Pushed(g, ps)| < |StoreNames(Stored(ps))|;
        }
      } else {
        assert Pushed(g, ps) == Pushed(g, tail) && Stored(ps) == Stored(tail);
      }
    }
  }

  // ---- the constructor lists ----

  /** The order of paths in which the trie is walked: a path before its extensions, siblings in the order of names. */
  predicate PathLess(a: seq<Name>, b: seq<Name>)
  {
    b != [] && (a == [] || Less(a[0], b[0]) || (a[0] == b[0] && PathLess(a[1..], b[1..])))
  }

  ghost predicate PathsInOrder(paths: seq<seq<Name>>)
  {
    forall i, j :: 0 <= i < j < |paths| ==> PathLess(paths[i], paths[j])
  }

  /** The stored parts along each of the paths, behind `cur`. */
  function StoredAlong(t: Trie, paths: seq<seq<Name>>, cur: seq<Part>): seq<seq<Part>>
    requires forall path :: path in paths ==> ValueAt(t, path).Some?
  {
    seq(|paths|, i requires 0 <= i < |paths| =>
      assert ValueAt(t, paths[i]).Some?; cur + Stored(PartsAlong(t, paths[i])))
  }

  /** `walkTrieConstructor` appends one list for every path to a value, in the order of the walk. */
  lemma {:induction false} StoreInOrder(store: seq<seq<Part>>, t: Trie, cur: seq<Part>) returns (paths: seq<seq<Name>>)
    requires Sorted(t)
    ensures PathsInOrder(paths) && forall path :: path in paths <==> ValueAt(t, path).Some?
    ensures PutStore(store, t, cur) == store + StoredAlong(t, paths, cur)
    decreases t, 1
  {
    var own: seq<seq<Part>>, front: seq<seq<Name>> := [], [];
    if t.value.Some? { own, front := [cur], [[]]; }
    assert store + own == if t.value.Some? then store + [cur] else store;
    var rest := StoreKidsInOrder(store + own, t.kids, cur);
    paths := front + rest;
    forall i, j | 0 <= i < j < |paths| ensures PathLess(paths[i], paths[j]) {
      assert paths[j] == rest[j - |front|] && rest[j - |front|] in rest;
      if i >= |front| { assert PathLess(rest[i - |front|], rest[j - |front|]); }
    }
    forall path ensures path in paths <==> ValueAt(t, path).Some? {
      if path != [] { assert At(t, path) == At(Trie(t.kids, None), path); }
    }
    OwnFirst(t, cur, own, paths, rest);
  }

  lemma OwnFirst(t: Trie, cur: seq<Part>, own: seq<seq<Part>>, paths: seq<seq<Name>>, rest: seq<seq<Name>>)
    requires own == (if t.value.Some? then [cur] else [])
    requires paths == (if t.value.Some? then [[]] else []) + rest
    requires forall path :: path in paths ==> ValueAt(t, path).Some?
    requires forall path :: path in rest ==> path != [] && ValueAt(Trie(t.kids, None), path).Some?
    ensures StoredAlong(t, paths, cur) == own + StoredAlong(Trie(t.kids, None), rest, cur)
  {
    var all, later := StoredAlong(t, paths, cur), StoredAlong(Trie(t.kids, None), rest, cur);
    assert cur + [] == cur && |all| == |own + later|;
    forall i | 0 <= i < |all| ensures all[i] == (own + later)[i] {
      if i >= |own| {
        var path := rest[i - |own|];
        assert path in rest && path in paths && paths[i] == path;
        assert At(t, path) == At(Trie(t.kids, None), path);
      }
    }
  }

  lemma {:induction false} StoreKidsInOrder(store: seq<seq<Part>>, kids: Kids, cur: seq<Part>) returns (paths: seq<seq<Name>>)
    requires SortedKids(kids)
    ensures PathsInOrder(paths)
    ensures forall path :: path in paths <==> path != [] && ValueAt(Trie(kids, None), path).Some?
    ensures PutStoreKids(store, kids, cur) == store + StoredAlong(Trie(kids, None), paths, cur)
    decreases kids, 0
  {
    paths := [];
    if kids.Kid? {
      var p, s, next := kids.part, kids.sub, kids.next;
      var subs := StoreInOrder(store, s, Keep(cur, p));
      var rest := StoreKidsInOrder(PutStore(store, s, Keep(cur, p)), next, cur);
      var front := seq(|subs|, i requires 0 <= i < |subs| => [p.name] + subs[i]);
      paths := front + rest;
      KidPaths(kids, subs, front, rest);
      KidStored(kids, subs, front, rest, cur);
      assert PutStoreKids(store, kids, cur)
          == store + StoredAlong(s, subs, Keep(cur, p)) + StoredAlong(Trie(next, None), rest, cur);
    }
  }

  /** The paths through the first kid come first. */
  lemma KidPaths(kids: Kids, subs: seq<seq<Name>>, front: seq<seq<Name>>, rest: seq<seq<Name>>)
    requires kids.Kid? && SortedKids(kids) && PathsInOrder(subs) && PathsInOrder(rest)
    requires forall path :: path in subs <==> ValueAt(kids.sub, path).Some?
    requires forall path :: path in rest <==> path != [] && ValueAt(Trie(kids.next, None), path).Some?
    requires |front| == |subs| && forall i :: 0 <= i < |subs| ==> front[i] == [kids.part.name] + subs[i]
    ensures PathsInOrder(front + rest)
    ensures forall path :: path in front + rest <==> path != [] && ValueAt(Trie(kids, None), path).Some?
  {
    var p, t := kids.part, Trie(kids, None);
    forall path ensures path in front + rest <==> path != [] && ValueAt(t, path).Some? {
      if path != [] && path[0] == p.name {
        assert path == [p.name] + path[1..];
        if path in rest { SkipKid(kids, p.name); }
        if path[1..] in subs {
          var i :| 0 <= i < |subs| && subs[i] == path[1..];
          assert front[i] == path;
        }
        if path in front {
          var i :| 0 <= i < |front| && front[i] == path;
          assert subs[i] == path[1..];
        }
      }
    }
    forall i, j | 0 <= i < j < |front + rest| ensures PathLess((front + rest)[i], (front + rest)[j]) {
      if j < |front| {
        assert front[i][1..] == subs[i] && front[j][1..] == subs[j];
      } else if i < |front| {
        assert rest[j - |front|] in rest;
        LaterKid(kids, rest[j - |front|][0]);
      } else {
        assert PathLess(rest[i - |front|], rest[j - |front|]);
      }
    }
  }

  lemma {:induction false} LaterKid(kids: Kids, n: Name)
    requires kids.Kid? && SortedKids(kids) && Lookup(kids.next, n).Some?
    ensures Less(kids.part.name, n)
  {
    if kids.next.part.name != n {
      LaterKid(kids.next, n);
      LessTransitive(kids.part.name, kids.next.part.name, n);
    }
  }

  lemma KidStored(kids: Kids, subs: seq<seq<Name>>, front: seq<seq<Name>>, rest: seq<seq<Name>>, cur: seq<Part>)
    requires kids.Kid? && SortedKids(kids)
    requires forall path :: path in subs ==> ValueAt(kids.sub, path).Some?
    requires forall path :: path in rest ==> path != [] && ValueAt(Trie(kids.next, None), path).Some?
    requires forall path :: path in front + rest ==> ValueAt(Trie(kids, None), path).Some?
    requires |front| == |subs| && forall i :: 0 <= i < |subs| ==> front[i] == [kids.part.name] + subs[i]
    ensures StoredAlong(Trie(kids, None), front + rest, cur)
         == StoredAlong(kids.sub, subs, Keep(cur, kids.part)) + StoredAlong(Trie(kids.next, None), rest, cur)
  {
    var all := StoredAlong(Trie(kids, None), front + rest, cur);
    var first, later := StoredAlong(kids.sub, subs, Keep(cur, kids.part)), StoredAlong(Trie(kids.next, None), rest, cur);
    forall i | 0 <= i < |all| ensures all[i] == (first + later)[i] {
      assert (front + rest)[i] in front + rest;
      if i < |subs| {
        assert subs[i] in subs;
        ThroughFirst(kids, subs[i], cur);
      } else {
        assert rest[i - |subs|] in rest;
        PastFirst(kids, rest[i - |subs|]);
      }
    }
  }

  lemma ThroughFirst(kids: Kids, path: seq<Name>, cur: seq<Part>)
    requires kids.Kid? && At(kids.sub, path).Some?
    ensures var p := kids.part;
            && At(Trie(kids, None), [p.name] + path).Some?
            && cur + Stored(PartsAlong(Trie(kids, None), [p.name] + path)) == Keep(cur, p) + Stored(PartsAlong(kids.sub, path))
  {
    var p, longer := kids.part, [kids.part.name] + path;
    assert longer[1..] == path;
    var ps := PartsAlong(kids.sub, path);
    assert PartsAlong(Trie(kids, None), longer) == [p] + ps;
    assert ([p] + ps)[1..] == ps;
  }

  lemma PastFirst(kids: Kids, path: seq<Name>)
    requires kids.Kid? && SortedKids(kids) && path != [] && At(Trie(kids.next, None), path).Some?
    ensures At(Trie(kids, None), path).Some?
    ensures PartsAlong(Trie(kids, None), path) == PartsAlong(Trie(kids.next, None), path)
  {
    SkipKid(kids, path[0]);
  }

  /** The lists recorded for a rule are exactly those of the paths to a value. */
  lemma StoreExactly(t: Trie, l: seq<Part>)
    requires Sorted(t)
    ensures l in PutStore([], t, []) <==> exists path :: ValueAt(t, path).Some? && l == Stored(PartsAlong(t, path))
  {
    var paths := StoreInOrder([], t, []);
    var store := StoredAlong(t, paths, []);
    assert PutStore([], t, []) == store;
    if path :| ValueAt(t, path).Some? && l == Stored(PartsAlong(t, path)) {
      assert path in paths;
      var i :| 0 <= i < |paths| && paths[i] == path;
      assert store[i] == [] + Stored(PartsAlong(t, paths[i])) == l;
    }
    if l in store {
      var i :| 0 <= i < |store| && store[i] == l;
      assert paths[i] in paths;
      assert store[i] == [] + Stored(PartsAlong(t, paths[i])) == Stored(PartsAlong(t, paths[i]));
    }
  }

  /** For every alternative, the list recorded for the constructor and the argument list of the return
      have the same names exactly when each stored symbol of the path is a token or a rule. */
  lemma ConstructorMatchesReturn(g: Grammar, rule: Name, base: nat, path: seq<Name>)
    requires NoEmptyAlternative(g) && path != [] && ValueAt(TrieOf(g, rule), path).Some?
    ensures var t := TrieOf(g, rule);
            var ret := ReturnAt(Compile(g, rule, t, [], base), path);
            var recorded := Stored(PartsAlong(t, path));
            && ret.Some? && ret.value.tag == ValueAt(t, path).value
            && recorded in PutStore([], t, [])
            && (ret.value.args == StoreNames(recorded) <==>
                forall p :: p in PartsAlong(t, path) && p.storeName != "" ==> p.name in g.tokens || p.name in RuleNames(g))
  {
    var t := TrieOf(g, rule);
    ReturnAtPath(g, rule, t, [], base, path);
    BuildShape(EMPTY, Alternatives(g.rules, rule));
    StoreExactly(t, Stored(PartsAlong(t, path)));
    PushedLength(g, PartsAlong(t, path));
    assert [] + Pushed(g, PartsAlong(t, path)) == Pushed(g, PartsAlong(t, path));
  }

  /** A stored symbol that is neither token nor rule: S -> x, with a store name but without a token x. */
  const STRAY := Part("x", "v", "Only")
  const NEITHER := Grammar([("S", [STRAY])], {})

  /** The constructor takes `v`, and the return passes nothing. */
  lemma StrayArgument(base: nat)
    ensures NoEmptyAlternative(NEITHER) && ValueAt(TrieOf(NEITHER, "S"), ["x"]) == Some("Only")
    ensures [STRAY] in PutStore([], TrieOf(NEITHER, "S"), [])
    ensures ReturnAt(Compile(NEITHER, "S", TrieOf(NEITHER, "S"), [], base), ["x"]) == Some(Ret("S", [], "Only"))
  {
    var g, leaf := NEITHER, Trie(Nil, Some("Only"));
    assert g.rules[0].0 == "S" && g.rules[1..] == [] && [STRAY][1..] == [] && [[STRAY]][1..] == [];
    assert Alternatives(g.rules, "S") == [[STRAY]];
    assert Insert(EMPTY, [STRAY], "Only") == Trie(InsertKids(Nil, [STRAY], "Only"), None);
    assert Insert(EMPTY, [], "Only") == leaf;
    assert Build(EMPTY, [[STRAY]]) == Build(Insert(EMPTY, [STRAY], "Only"), []);
    var t := TrieOf(g, "S");
    assert t == Trie(Kid(STRAY, leaf, Nil), None);
    assert Lookup(t.kids, "x") == Some((STRAY, leaf)) && ["x"][1..] == [] && At(leaf, []) == Some(leaf);
    assert PartsAlong(t, ["x"]) == [STRAY] + PartsAlong(leaf, []) == [STRAY];
    assert Stored([STRAY]) == [STRAY] + Stored([STRAY][1..]);
    assert !Pushes(g, STRAY) && Pushed(g, [STRAY]) == [] + Pushed(g, [STRAY][1..]);
    StoreExactly(t, [STRAY]);
    ReturnAtPath(g, "S", t, [], base, ["x"]);
  }

  // ---- what the arguments are ----

  /** The ASTs of the stored symbols, in the order of the alternative. */
  ghost function ValuesAlong(g: Grammar, t: Trie, f: Forest): seq<Val>
    requires NoEmptyAlternative(g) && Reads(g, t, f)
    decreases f
  {
    match f
    case Empty => []
    case More(sym, tree, next) =>
      var (p, s) := Lookup(t.kids, sym).value;
      assert Fits(g, p, tree);
      (if Pushes(g, p) then [Ast(g, tree)] else []) + ValuesAlong(g, s, next)
  }

  /** One declaration after the other; a later one of the same name hides the earlier one. */
  function BindAll(env: Env, names: seq<Name>, vals: seq<Val>): Env
    requires |names| == |vals|
    decreases |names|
  {
    if names == [] then env else BindAll(env[names[0] := vals[0]], names[1..], vals[1..])
  }

  /** The last position of the name at position `i`. */
  function LastAt(names: seq<Name>, i: nat): (j: nat)
    requires i < |names|
    ensures i <= j < |names| && names[j] == names[i] && forall k :: j < k < |names| ==> names[k] != names[i]
    decreases |names|
  {
    if names[|names| - 1] == names[i] then |names| - 1 else LastAt(names[..|names| - 1], i)
  }

  lemma {:induction false} BindAllAt(env: Env, names: seq<Name>, vals: seq<Val>, x: Name)
    requires |names| == |vals|
    ensures x in BindAll(env, names, vals) <==> x in env || x in names
    ensures x !in names && x in env ==> BindAll(env, names, vals)[x] == env[x]
    ensures forall j :: 0 <= j < |names| && names[j] == x && (forall k :: j < k < |names| ==> names[k] != x) ==>
              BindAll(env, names, vals)[x] == vals[j]
    decreases |names|
  {
    if names != [] {
      BindAllAt(env[names[0] := vals[0]], names[1..], vals[1..], x);
      assert x in names <==> x == names[0] || x in names[1..];
      forall j | 0 <= j < |names| && names[j] == x && (forall k :: j < k < |names| ==> names[k] != x)
        ensures BindAll(env, names, vals)[x] == vals[j]
      {
        if j > 0 {
          assert names[1..][j - 1] == x && vals[1..][j - 1] == vals[j];
          assert forall k :: j - 1 < k < |names[1..]| ==> names[1..][k] == names[k + 1];
        } else {
          assert x !in names[1..];
        }
      }
    }
  }

  lemma {:induction false} PushedValues(g: Grammar, t: Trie, f: Forest)
    requires NoEmptyAlternative(g) && Reads(g, t, f)
    ensures ValueAt(t, Symbols(f)).Some? && |Pushed(g, PartsAlong(t, Symbols(f)))| == |ValuesAlong(g, t, f)|
    decreases f
  {
    if f.More? {
      var (p, s) := Lookup(t.kids, f.sym).value;
      assert Fits(g, p, f.tree);
      assert Symbols(f)[1..] == Symbols(f.next);
      PushedValues(g, s, f.next);
      assert PartsAlong(t, Symbols(f)) == [p] + PartsAlong(s, Symbols(f.next));
    }
  }

  /** The arguments are looked up at the end, when all names of the path are bound. */
  lemma {:induction false} ArgsAlong(g: Grammar, rule: Name, t: Trie, f: Forest, env: Env, names: seq<Name>)
    requires NoEmptyAlternative(g) && Reads(g, t, f) && forall n :: n in names ==> n in env
    ensures ValueAt(t, Symbols(f)).Some? && |Pushed(g, PartsAlong(t, Symbols(f)))| == |ValuesAlong(g, t, f)|
    ensures var pushed := Pushed(g, PartsAlong(t, Symbols(f)));
            var last := BindAll(env, pushed, ValuesAlong(g, t, f));
            && (forall n :: n in names + pushed ==> n in last)
            && AstAlong(g, rule, t, f, env, names) == Node(rule, Args(last, names + pushed), ValueAt(t, Symbols(f)).value)
    decreases f
  {
    PushedValues(g, t, f);
    if f.Empty? {
      assert names + [] == names;
    } else {
      var (p, s) := Lookup(t.kids, f.sym).value;
      assert Fits(g, p, f.tree);
      assert Symbols(f)[1..] == Symbols(f.next);
      var rest, vals := Pushed(g, PartsAlong(s, Symbols(f.next))), ValuesAlong(g, s, f.next);
      var names', env' := Push(g, names, p), Bind(g, p, env, Ast(g, f.tree));
      ArgsAlong(g, rule, s, f.next, env', names');
      PushedStep(g, t, f, p, s);
      NamesStep(g, names, p, rest);
      BindStep(g, env, p, Ast(g, f.tree), rest, vals);
    }
  }

  lemma PushedStep(g: Grammar, t: Trie, f: Forest, p: Part, s: Trie)
    requires NoEmptyAlternative(g) && Reads(g, t, f) && f.More? && Lookup(t.kids, f.sym) == Some((p, s))
    requires ValueAt(t, Symbols(f)).Some? && Symbols(f)[1..] == Symbols(f.next)
    ensures Fits(g, p, f.tree) && At(s, Symbols(f.next)).Some?
    ensures Pushed(g, PartsAlong(t, Symbols(f))) ==
            (if Pushes(g, p) then [p.storeName] else []) + Pushed(g, PartsAlong(s, Symbols(f.next)))
    ensures ValuesAlong(g, t, f) == (if Pushes(g, p) then [Ast(g, f.tree)] else []) + ValuesAlong(g, s, f.next)
  {
    assert Fits(g, p, f.tree);
    var rest := PartsAlong(s, Symbols(f.next));
    assert PartsAlong(t, Symbols(f)) == [p] + rest;
    assert ([p] + rest)[1..] == rest;
  }

  lemma NamesStep(g: Grammar, names: seq<Name>, p: Part, rest: seq<Name>)
    ensures Push(g, names, p) + rest == names + ((if Pushes(g, p) then [p.storeName] else []) + rest)
  {
  }

  lemma BindStep(g: Grammar, env: Env, p: Part, v: Val, rest: seq<Name>, vals: seq<Val>)
    requires |rest| == |vals|
    ensures BindAll(Bind(g, p, env, v), rest, vals) ==
            BindAll(env, (if Pushes(g, p) then [p.storeName] else []) + rest, (if Pushes(g, p) then [v] else []) + vals)
  {
    if Pushes(g, p) {
      var names, all := [p.storeName] + rest, [v] + vals;
      assert names[1..] == rest && all[1..] == vals;
      assert BindAll(env, names, all) == BindAll(env[names[0] := all[0]], names[1..], all[1..]);
    } else {
      assert [] + rest == rest && [] + vals == vals;
    }
  }

  /** The AST of what is read carries the end name that the first pair of the multimap with its symbols gives; each
      argument is the child stored last under its name.  So it has the stored children in order if and only if
      children stored under one name are equal. */
  lemma AstMeaning(g: Grammar, r: Name, f: Forest)
    requires NoEmptyAlternative(g) && Reads(g, TrieOf(g, r), f)
    ensures At(TrieOf(g, r), Symbols(f)).Some?
    ensures exists i: nat :: FirstWith(g.rules, r, Symbols(f), i)
    ensures forall i: nat :: FirstWith(g.rules, r, Symbols(f), i) ==>
              Ast(g, Inner(r, f)).Node? && Ast(g, Inner(r, f)).tag == g.rules[i].1[0].endName
    ensures var names, vals := Pushed(g, PartsAlong(TrieOf(g, r), Symbols(f))), ValuesAlong(g, TrieOf(g, r), f);
            var v := Ast(g, Inner(r, f));
            && v.Node? && v.rule == r && |v.args| == |names| == |vals|
            && (forall i :: 0 <= i < |names| ==> v.args[i] == vals[LastAt(names, i)])
            && (v == Node(r, vals, v.tag) <==>
                forall i, j :: 0 <= i < j < |names| && names[i] == names[j] ==> vals[i] == vals[j])
  {
    var t := TrieOf(g, r);
    ArgsAlong(g, r, t, f, map[], []);
    TrieOfMultimap(g, r, Symbols(f));
    var names, vals := Pushed(g, PartsAlong(t, Symbols(f))), ValuesAlong(g, t, f);
    assert [] + names == names;
    var args := LastBound(names, vals);
    ShadowedExactly(names, vals, args);
    assert Ast(g, Inner(r, f)) == Node(r, args, ValueAt(t, Symbols(f)).value);
  }

  lemma LastBound(names: seq<Name>, vals: seq<Val>) returns (args: seq<Val>)
    requires |names| == |vals|
    ensures (forall n :: n in names ==> n in BindAll(map[], names, vals)) && args == Args(BindAll(map[], names, vals), names)
    ensures |args| == |names| && forall i :: 0 <= i < |names| ==> args[i] == vals[LastAt(names, i)]
  {
    forall n | n in names ensures n in BindAll(map[], names, vals) {
      BindAllAt(map[], names, vals, n);
    }
    args := Args(BindAll(map[], names, vals), names);
    forall i | 0 <= i < |names| ensures args[i] == vals[LastAt(names, i)] {
      BindAllAt(map[], names, vals, names[i]);
    }
  }

  lemma ShadowedExactly(names: seq<Name>, vals: seq<Val>, args: seq<Val>)
    requires |names| == |vals| == |args| && forall i :: 0 <= i < |names| ==> args[i] == vals[LastAt(names, i)]
    ensures args == vals <==> forall i, j :: 0 <= i < j < |names| && names[i] == names[j] ==> vals[i] == vals[j]
  {
    if args == vals {
      forall i, j | 0 <= i < j < |names| && names[i] == names[j] ensures vals[i] == vals[j] {
        assert LastAt(names, i) == LastAt(names, j);
      }
    }
  }

  /** Two symbols stored under one name: S -> t u, both as x. */
  const FIRST_X := Part("t", "x", "Pair")
  const SECOND_X := Part("u", "x", "Pair")
  const SAME_NAME := Grammar([("S", [FIRST_X, SECOND_X])], {"t", "u"})

  lemma SameNameTrie()
    ensures NoEmptyAlternative(SAME_NAME) && RuleNames(SAME_NAME) == {"S"}
    ensures TrieOf(SAME_NAME, "S") == Trie(Kid(FIRST_X, Trie(Kid(SECOND_X, Trie(Nil, Some("Pair")), Nil), None), Nil), None)
  {
    var g, a := SAME_NAME, [FIRST_X, SECOND_X];
    var alts: seq<Rule>, tail := [a], [SECOND_X];
    assert g.rules[0].0 == "S" && g.rules[1..] == [] && alts[1..] == [] && a[1..] == tail && tail[1..] == [];
    assert Alternatives(g.rules, "S") == [a];
    assert Insert(EMPTY, [], "Pair") == Trie(Nil, Some("Pair"));
    assert Insert(EMPTY, tail, "Pair") == Trie(Kid(SECOND_X, Insert(EMPTY, tail[1..], "Pair"), Nil), None);
    assert Insert(EMPTY, a, "Pair") == Trie(Kid(FIRST_X, Insert(EMPTY, a[1..], "Pair"), Nil), None);
    assert Build(EMPTY, alts) == Build(Insert(EMPTY, a, "Pair"), []);
  }

  /** The first child is lost: both arguments are the second one. */
  lemma {:induction false} ShadowedChild(t: Token, u: Token)
    requires t.kind == "t" && u.kind == "u"
    ensures NoEmptyAlternative(SAME_NAME)
    ensures var f := More("t", Leaf(t), More("u", Leaf(u), Empty));
            && Reads(SAME_NAME, TrieOf(SAME_NAME, "S"), f)
            && Ast(SAME_NAME, Inner("S", f)) == Node("S", [Tok(u), Tok(u)], "Pair")
  {
    var g := SAME_NAME;
    SameNameTrie();
    StartsTerminal(g, "t", t.kind);
    StartsTerminal(g, "u", u.kind);
    var root := TrieOf(g, "S");
    var mid, leaf := root.kids.sub, root.kids.sub.kids.sub;
    var last := More("u", Leaf(u), Empty);
    var f := More("t", Leaf(t), last);
    assert Reads(g, leaf, Empty) && Reads(g, mid, last) && Reads(g, root, f);
    var env1: Env := map["x" := Tok(t)];
    var env2: Env := map["x" := Tok(u)];
    assert env1["x" := Tok(u)] == env2;
    assert AstAlong(g, "S", leaf, Empty, env2, ["x", "x"]) == Node("S", Args(env2, ["x", "x"]), "Pair");
    assert Args(env2, ["x", "x"]) == [Tok(u), Tok(u)];
    assert Push(g, [], FIRST_X) == ["x"] && Push(g, ["x"], SECOND_X) == ["x", "x"];
    assert AstAlong(g, "S", mid, last, env1, ["x"]) == AstAlong(g, "S", leaf, Empty, env2, ["x", "x"]);
    assert AstAlong(g, "S", root, f, map[], []) == AstAlong(g, "S", mid, last, env1, ["x"]);
  }
}
