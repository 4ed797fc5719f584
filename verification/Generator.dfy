/** The generator of recde/recdec.cpp: it walks the heap trie of every rule and appends text, error
    entries and constructor lists to its fields. */
module Generator {
  import opened Names
  import opened Tries
  import opened TrieHeap
  import opened Grammars
  import opened Code
  import FirstSets

  // ---- what a run of the generator yields ----

  /** The rule names in the order in which the multimap first shows them. */
  function Order(rules: seq<(Name, Rule)>): seq<Name>
  {
    if rules == [] then []
    else
      var names := Order(rules[..|rules| - 1]);
      var n := rules[|rules| - 1].0;
      if n in names then names else names + [n]
  }

  function FnOf(g: Grammar, first: FirstTable, n: Name, base: nat): Fn
    requires NoEmptyAlternative(g) && n in first
  {
    Fn(n, first[n], Compile(g, n, TrieOf(g, n), [], base))
  }

  /** The functions generated for `names`, one after the other, error ids counting on. */
  function ProgramFor(g: Grammar, first: FirstTable, names: seq<Name>): seq<Fn>
    requires NoEmptyAlternative(g) && forall n :: n in names ==> n in first
  {
    if names == [] then []
    else
      var init := names[..|names| - 1];
      ProgramFor(g, first, init) + [FnOf(g, first, names[|names| - 1], |ErrorsFor(g, init)|)]
  }

  function ErrorsFor(g: Grammar, names: seq<Name>): seq<ErrorStuff>
    requires NoEmptyAlternative(g)
  {
    if names == [] then []
    else
      var n := names[|names| - 1];
      PutErrors(ErrorsFor(g, names[..|names| - 1]), n, TrieOf(g, n), n, 1)
  }

  lemma {:induction false} OrderNames(g: Grammar, rules: seq<(Name, Rule)>)
    ensures forall n :: n in Order(rules) <==> exists i :: 0 <= i < |rules| && rules[i].0 == n
  {
    if rules != [] {
      var init := rules[..|rules| - 1];
      OrderNames(g, init);
      forall n
        ensures n in Order(rules) <==> exists i :: 0 <= i < |rules| && rules[i].0 == n
      {
        assert forall i :: 0 <= i < |init| ==> init[i] == rules[i];
        if n in Order(init) {
          var i :| 0 <= i < |init| && init[i].0 == n;
          assert rules[i].0 == n;
        }
      }
    }
  }

  ghost predicate FirstOfName(rules: seq<(Name, Rule)>, n: Name, p: nat)
  {
    p < |rules| && rules[p].0 == n && forall q: nat :: q < p ==> rules[q].0 != n
  }

  lemma FirstSoFar(rules: seq<(Name, Rule)>, m: Name, p: nat)
    requires rules != [] && p < |rules| - 1
    ensures FirstOfName(rules, m, p) <==> FirstOfName(rules[..|rules| - 1], m, p)
  {
  }

  /** Every rule is listed once, in the order of the first pairs of the rules. */
  lemma {:induction false} OrderAt(rules: seq<(Name, Rule)>) returns (ps: seq<nat>)
    ensures |ps| == |Order(rules)| && forall i, j :: 0 <= i < j < |ps| ==> ps[i] < ps[j]
    ensures forall i :: 0 <= i < |ps| ==> ps[i] < |rules| && FirstOfName(rules, Order(rules)[i], ps[i])
    decreases |rules|
  {
    ps := [];
    if rules != [] {
      var init, n := rules[..|rules| - 1], rules[|rules| - 1].0;
      var before := OrderAt(init);
      var names := Order(init);
      forall i | 0 <= i < |before| ensures FirstOfName(rules, names[i], before[i]) {
        FirstSoFar(rules, names[i], before[i]);
      }
      if n in names {
        assert Order(rules) == names;
        ps := before;
      } else {
        NewName(rules);
        assert Order(rules) == names + [n];
        ps := before + [|init|];
      }
    }
  }

  lemma NewName(rules: seq<(Name, Rule)>)
    requires rules != [] && rules[|rules| - 1].0 !in Order(rules[..|rules| - 1])
    ensures FirstOfName(rules, rules[|rules| - 1].0, |rules| - 1)
  {
    var init := rules[..|rules| - 1];
    OrderNames(Grammar(rules, {}), init);
    assert forall q :: 0 <= q < |init| ==> rules[q] == init[q];
  }

  /** The parts that reach a constructor along each path to a value, shortest path first. */
  function PutStore(store: seq<seq<Part>>, t: Trie, cur: seq<Part>): seq<seq<Part>>
    decreases t, 1
  {
    PutStoreKids(if t.value.Some? then store + [cur] else store, t.kids, cur)
  }

  function PutStoreKids(store: seq<seq<Part>>, kids: Kids, cur: seq<Part>): seq<seq<Part>>
    decreases kids, 0
  {
    match kids
    case Nil => store
    case Kid(p, s, next) => PutStoreKids(PutStore(store, s, Keep(cur, p)), next, cur)
  }

  function Keep(cur: seq<Part>, p: Part): seq<Part>
  {
    if p.storeName != "" then cur + [p] else cur
  }

  // ---- positions in a list of kids ----

  function Drop(kids: Kids, i: nat): Kids
    requires i <= |Keys(kids)|
  {
    if i == 0 then kids else Drop(kids.next, i - 1)
  }

  /** The kid at position `i` is the one its own name finds, and is smaller than the whole. */
  lemma {:induction false} DropKid(kids: Kids, i: nat)
    requires SortedKids(kids) && i < |Keys(kids)|
    ensures var d := Drop(kids, i);
            && d.Kid? && d.part == Keys(kids)[i] && d.next == Drop(kids, i + 1)
            && Lookup(kids, d.part.name) == Some((d.part, d.sub))
            && Size(d.sub) < SizeKids(kids)
            && (kids.part.name == d.part.name || Less(kids.part.name, d.part.name))
  {
    if i > 0 {
      DropKid(kids.next, i - 1);
      var d := Drop(kids, i);
      LessTrichotomy(kids.part.name, d.part.name);
      if kids.next.part.name != d.part.name {
        LessTransitive(kids.part.name, kids.next.part.name, d.part.name);
      }
    }
  }

  lemma {:induction false} DropEnd(kids: Kids)
    ensures Drop(kids, |Keys(kids)|) == Nil
  {
    if kids.Kid? { DropEnd(kids.next); }
  }

  function Size(t: Trie): nat
    decreases t, 1
  {
    1 + SizeKids(t.kids)
  }

  function SizeKids(kids: Kids): nat
    decreases kids, 0
  {
    match kids
    case Nil => 0
    case Kid(_, s, next) => 1 + Size(s) + SizeKids(next)
  }

  lemma {:induction false} AtSnoc(t: Trie, path: seq<Name>, n: Name)
    requires At(t, path).Some?
    ensures At(t, path + [n]) == match Lookup(At(t, path).value.kids, n)
                                 case None => None
                                 case Some(e) => Some(e.1)
    decreases |path|
  {
    if path == [] {
      assert [n][1..] == [];
    } else {
      assert (path + [n])[1..] == path[1..] + [n];
      AtSnoc(Lookup(t.kids, path[0]).value.1, path[1..], n);
    }
  }

  lemma {:induction false} AtSorted(t: Trie, path: seq<Name>)
    requires Sorted(t) && At(t, path).Some?
    ensures Sorted(At(t, path).value)
    decreases |path|
  {
    if path != [] {
      LookupSorted(t.kids, path[0]);
      AtSorted(Lookup(t.kids, path[0]).value.1, path[1..]);
    }
  }

  lemma {:induction false} PossibleIsKeys(kids: Kids)
    ensures PossibleOf(kids) == NamesOf(Keys(kids))
  {
    match kids
    case Nil =>
    case Kid(p, _, next) =>
      PossibleIsKeys(next);
      NamesOfTail(Keys(kids));
      assert Keys(kids)[1..] == Keys(next);
  }

  lemma {:induction false} RenderAllSnoc(fns: seq<Fn>, f: Fn)
    ensures RenderAll(fns + [f]) == RenderAll(fns) + RenderFn(f)
  {
    if fns != [] {
      assert (fns + [f])[1..] == fns[1..] + [f];
      RenderAllSnoc(fns[1..], f);
    }
  }

  lemma LinkCount(trie: PrefixTrie, path: seq<Name>)
    requires trie.Valid() && path in trie.nodes && At(trie.tree, path).Some?
    ensures |trie.nodes[path].links| == |Keys(At(trie.tree, path).value.kids)|
  {
    assert PrefixTrie.Shows(trie.nodes[path], path, trie.tree, trie.nodes);
  }

  /** The entry reached over link `i` shows the kid at position `i`. */
  lemma LinkShows(trie: PrefixTrie, path: seq<Name>, i: nat)
    requires trie.Valid() && path in trie.nodes && i < |trie.nodes[path].links|
    ensures At(trie.tree, path).Some?
    ensures var kids, link := At(trie.tree, path).value.kids, trie.nodes[path].links[i];
            var path' := path + [link.part.name];
            && SortedKids(kids) && |trie.nodes[path].links| == |Keys(kids)|
            && Drop(kids, i).Kid? && link.part == Drop(kids, i).part
            && Drop(kids, i).next == Drop(kids, i + 1)
            && path' in trie.nodes && trie.nodes[path'] == link.entry
            && At(trie.tree, path') == Some(Drop(kids, i).sub)
            && Size(Drop(kids, i).sub) < SizeKids(kids)
            && link.entry.isValue == Drop(kids, i).sub.value.Some?
            && (link.entry.isValue ==> link.entry.value == Drop(kids, i).sub.value.value)
  {
    var e := trie.nodes[path];
    assert PrefixTrie.Shows(e, path, trie.tree, trie.nodes);
    assert LeadsTo(e.links[i], path, trie.nodes);
    AtSorted(trie.tree, path);
    var kids := At(trie.tree, path).value.kids;
    assert LinkParts(e.links)[i] == e.links[i].part;
    DropKid(kids, i);
    AtSnoc(trie.tree, path, e.links[i].part.name);
    var path' := path + [e.links[i].part.name];
    assert PrefixTrie.Shows(e.links[i].entry, path', trie.tree, trie.nodes);
  }

  /** The first branch of a chain is written in front of the rest, and so are its error entries. */
  lemma PutKids(g: Grammar, rule: Name, out: seq<Line>, errs: seq<ErrorStuff>, kids: Kids, names: seq<Name>, els: Code,
                first: bool, depth: nat)
    requires kids.Kid?
    ensures var p, names' := kids.part, Push(g, names, kids.part);
            PutChain(out, CompileKids(g, rule, kids, names, |errs|, els), first) ==
            PutChain(Put(out + [Open(first, TestOf(g, p))] + RenderAct(ActOf(g, p)),
                         Compile(g, rule, kids.sub, names', |errs|)) + RenderRet(RetOf(rule, kids.sub, names')) + [Close],
                     CompileKids(g, rule, kids.next, names, |errs| + ErrCount(kids.sub), els), false)
    ensures PutErrorsKids(errs, rule, kids, depth) ==
            PutErrorsKids(PutErrors(errs, rule, kids.sub, kids.part.name, depth + 1), rule, kids.next, depth)
  {
  }

  method PossibleNames(links: seq<Link>) returns (possible: seq<Name>)
    ensures possible == NamesOf(LinkParts(links))
  {
    possible := [];
    for i := 0 to |links|
      invariant |possible| == i && forall j :: 0 <= j < i ==> possible[j] == links[j].part.name
    {
      possible := possible + [links[i].part.name];
    }
  }

  class RecurDec {
    const g: Grammar
    var first: FirstTable
    var nameStack: seq<Name>
    var current: Name
    var errorStuff: seq<ErrorStuff>
    var prsS: seq<Line>
    var store: seq<seq<Part>>

    constructor (g: Grammar)
      ensures this.g == g && first == map[] && nameStack == [] && errorStuff == [] && prsS == [] && store == []
    {
      this.g := g;
      first, nameStack, current, errorStuff, prsS, store := map[], [], "", [], [], [];
    }

    method ComputeFirstSet()
      requires NoEmptyAlternative(g) && first == map[]
      modifies `first
      ensures IsFirst(g, first)
    {
      first := FirstSets.ComputeFirstSet(g);
    }

    method NewErrorStuff(part: Name, depth: nat, possible: seq<Name>) returns (id: nat)
      modifies `errorStuff
      ensures id == |old(errorStuff)|
      ensures errorStuff == old(errorStuff) + [ErrorStuff(current, part, depth, possible)]
    {
      errorStuff := errorStuff + [ErrorStuff(current, part, depth, possible)];
      id := |errorStuff| - 1;
    }

    /** The text appended is exactly the rendering of the compiled trie `t`, the error entries are
        exactly those of `t`, and `nameStack` is restored. */
    method WalkTrie(trie: PrefixTrie, entry: Entry, ghost path: seq<Name>, ghost t: Trie, part: Name, depth: nat)
      requires trie.Valid() && path in trie.nodes && trie.nodes[path] == entry && At(trie.tree, path) == Some(t)
      modifies `nameStack, `errorStuff, `prsS
      ensures nameStack == old(nameStack)
      ensures prsS == Put(old(prsS), Compile(g, current, t, old(nameStack), |old(errorStuff)|))
      ensures errorStuff == PutErrors(old(errorStuff), current, t, part, depth)
      decreases Size(t), 0
    {
      assert PrefixTrie.Shows(entry, path, trie.tree, trie.nodes);
      if entry.links == [] {
        assert Keys(t.kids) == [];
        return;
      }
      WalkKids(trie, entry, path, t, Otherwise(t, |errorStuff|), depth);
      PossibleIsKeys(t.kids);
      var possible := PossibleNames(entry.links);
      if !entry.isValue {
        var id := NewErrorStuff(part, depth, possible);
        prsS := prsS + [Else, ThrowLine(id), Close];
      }
      prsS := prsS + [Break];
    }

    /** The loop of `walkTrie`: all branches of the chain, up to the closing `els`. */
    method WalkKids(trie: PrefixTrie, entry: Entry, ghost path: seq<Name>, ghost t: Trie, ghost els: Code, depth: nat)
      requires trie.Valid() && path in trie.nodes && trie.nodes[path] == entry && At(trie.tree, path) == Some(t)
      requires entry.links != []
      modifies `nameStack, `errorStuff, `prsS
      ensures nameStack == old(nameStack)
      ensures PutChain(prsS, els, false) ==
              PutChain(old(prsS), CompileKids(g, current, t.kids, nameStack, |old(errorStuff)|, els), true)
      ensures errorStuff == PutErrorsKids(old(errorStuff), current, t.kids, depth)
      decreases SizeKids(t.kids), 3
    {
      LinkCount(trie, path);
      ghost var rule, names := current, nameStack;
      ghost var goal := PutChain(prsS, CompileKids(g, rule, t.kids, names, |errorStuff|, els), true);
      ghost var goalErrs := PutErrorsKids(errorStuff, rule, t.kids, depth);
      ghost var rest := t.kids;
      var i := 0;
      while i < |entry.links|
        invariant 0 <= i <= |entry.links| == |Keys(t.kids)| && rest == Drop(t.kids, i)
        invariant nameStack == names
        invariant PutChain(prsS, CompileKids(g, rule, rest, names, |errorStuff|, els), i == 0) == goal
        invariant PutErrorsKids(errorStuff, rule, rest, depth) == goalErrs
      {
        LinkShows(trie, path, i);
        var link := entry.links[i];
        WalkNext(trie, link, i == 0, path + [link.part.name], rest, els, depth);
        rest, i := rest.next, i + 1;
      }
      DropEnd(t.kids);
    }

    /** One round of that loop: what it appends is what the rest of the chain is then behind. */
    method WalkNext(trie: PrefixTrie, link: Link, isFirst: bool, ghost path: seq<Name>, ghost rest: Kids, ghost els: Code,
                    depth: nat)
      requires trie.Valid() && path in trie.nodes && trie.nodes[path] == link.entry
      requires rest.Kid? && link.part == rest.part && At(trie.tree, path) == Some(rest.sub)
      modifies `nameStack, `errorStuff, `prsS
      ensures nameStack == old(nameStack)
      ensures PutChain(prsS, CompileKids(g, current, rest.next, nameStack, |errorStuff|, els), false) ==
              PutChain(old(prsS), CompileKids(g, current, rest, nameStack, |old(errorStuff)|, els), isFirst)
      ensures PutErrorsKids(errorStuff, current, rest.next, depth) ==
              PutErrorsKids(old(errorStuff), current, rest, depth)
      decreases Size(rest.sub), 2
    {
      PutKids(g, current, prsS, errorStuff, rest, nameStack, els, isFirst, depth);
      WalkLink(trie, link, isFirst, path, rest.sub, depth);
      assert |errorStuff| == |old(errorStuff)| + ErrCount(rest.sub);
    }

    /** The body of that loop: one branch of the chain. */
    method WalkLink(trie: PrefixTrie, link: Link, isFirst: bool, ghost path: seq<Name>, ghost sub: Trie, depth: nat)
      requires trie.Valid() && path in trie.nodes && trie.nodes[path] == link.entry && At(trie.tree, path) == Some(sub)
      modifies `nameStack, `errorStuff, `prsS
      ensures nameStack == old(nameStack)
      ensures var p, names := link.part, Push(g, old(nameStack), link.part);
              prsS == Put(old(prsS) + [Open(isFirst, TestOf(g, p))] + RenderAct(ActOf(g, p)),
                          Compile(g, current, sub, names, |old(errorStuff)|)) +
                      RenderRet(RetOf(current, sub, names)) + [Close]
      ensures errorStuff == PutErrors(old(errorStuff), current, sub, link.part.name, depth + 1)
      decreases Size(sub), 1
    {
      var p := link.part;
      assert PrefixTrie.Shows(link.entry, path, trie.tree, trie.nodes);
      var pushed := false;
      if p.name in RuleNames(g) {
        prsS := prsS + [Open(isFirst, LookAhead(p.name))];
      } else {
        prsS := prsS + [Open(isFirst, TypeIs(p.name))];
      }
      if p.name in g.tokens && p.storeName != "" {
        nameStack, pushed := nameStack + [p.storeName], true;
        prsS := prsS + [DeclTok(p.storeName), NextToken];
      } else if p.name in RuleNames(g) && p.storeName != "" {
        nameStack, pushed := nameStack + [p.storeName], true;
        prsS := prsS + [DeclCall(p.name, p.storeName)];
      } else {
        prsS := prsS + [NextToken];
      }
      WalkTrie(trie, link.entry, path, sub, p.name, depth + 1);
      if link.entry.isValue {
        prsS := prsS + [Return(Ret(current, nameStack, link.entry.value))];
      }
      if pushed {
        nameStack := nameStack[..|nameStack| - 1];
      }
      prsS := prsS + [Close];
    }

    /** The constructor lists of a trie, appended to `store`. */
    method WalkTrieConstructor(trie: PrefixTrie, entry: Entry, ghost path: seq<Name>, ghost t: Trie, cur: seq<Part>)
      requires trie.Valid() && path in trie.nodes && trie.nodes[path] == entry && At(trie.tree, path) == Some(t)
      modifies `store
      ensures store == PutStore(old(store), t, cur)
      decreases Size(t)
    {
      assert PrefixTrie.Shows(entry, path, trie.tree, trie.nodes);
      ghost var goal := PutStore(store, t, cur);
      if entry.isValue {
        store := store + [cur];
      }
      ghost var rest := t.kids;
      var i := 0;
      while i < |entry.links|
        invariant 0 <= i <= |entry.links| == |Keys(t.kids)| && rest == Drop(t.kids, i)
        invariant PutStoreKids(store, rest, cur) == goal
      {
        var link := entry.links[i];
        LinkShows(trie, path, i);
        var n := cur;
        if link.part.storeName != "" {
          n := n + [link.part];
        }
        WalkTrieConstructor(trie, link.entry, path + [link.part.name], rest.sub, n);
        rest, i := rest.next, i + 1;
      }
      DropEnd(t.kids);
    }

    /** All alternatives of one rule, as `equal_range` delivers them, go into a fresh trie. */
    method BuildTrie(start: Name) returns (trie: PrefixTrie)
      requires NoEmptyAlternative(g)
      ensures fresh(trie) && trie.Valid() && trie.tree == TrieOf(g, start) && fresh(trie.nodes.Values)
      ensures forall path, i: nat :: FirstWith(g.rules, start, path, i) ==>
                ValueAt(trie.tree, path) == Some(g.rules[i].1[0].endName)
      ensures forall path, i: nat :: path != [] && FirstThrough(g.rules, start, path, i) ==>
                PartAt(trie.tree, path) == Some(g.rules[i].1[|path| - 1])
    {
      trie := new PrefixTrie();
      var alts := Alternatives(g.rules, start);
      for i := 0 to |alts|
        invariant trie.Valid() && fresh(trie.nodes.Values)
        invariant Build(trie.tree, alts[i..]) == TrieOf(g, start)
      {
        var stored := trie.Insert(alts[i], alts[i][0].endName);
      }
      forall path, i: nat | FirstWith(g.rules, start, path, i)
        ensures ValueAt(trie.tree, path) == Some(g.rules[i].1[0].endName)
      {
        TrieOfMultimap(g, start, path);
      }
      forall path, i: nat | path != [] && FirstThrough(g.rules, start, path, i)
        ensures PartAt(trie.tree, path) == Some(g.rules[i].1[|path| - 1])
      {
        TrieOfMultimap(g, start, path);
      }
    }

    /** `genRules(start)`: look-ahead function, parse function and constructor lists of one rule. */
    method GenRule(start: Name)
      requires NoEmptyAlternative(g) && start in first && nameStack == [] && current == start
      modifies `nameStack, `errorStuff, `prsS, `store
      ensures nameStack == []
      ensures prsS == old(prsS) + RenderFn(FnOf(g, first, start, |old(errorStuff)|))
      ensures errorStuff == PutErrors(old(errorStuff), start, TrieOf(g, start), start, 1)
      ensures store == PutStore([], TrieOf(g, start), [])
    {
      PutFn(prsS, FnOf(g, first, start, |errorStuff|));
      prsS := prsS + [LookAheadFn(start, first[start])];
      var trie := BuildTrie(start);
      prsS := prsS + [ParseFn(start)];
      WalkTrie(trie, trie.root, [], trie.tree, start, 1);
      prsS := prsS + [EndFn];
      store := [];
      WalkTrieConstructor(trie, trie.root, [], trie.tree, []);
    }

    /** One round of `genRules()`: the program so far grows by the function of `current`. */
    method GenNext(ghost names: seq<Name>)
      requires NoEmptyAlternative(g) && current in first && nameStack == []
      requires forall n :: n in names ==> n in first
      requires prsS == RenderAll(ProgramFor(g, first, names)) && errorStuff == ErrorsFor(g, names)
      modifies `nameStack, `errorStuff, `prsS, `store
      ensures nameStack == []
      ensures prsS == RenderAll(ProgramFor(g, first, names + [current]))
      ensures errorStuff == ErrorsFor(g, names + [current])
    {
      GenRule(current);
      RenderAllSnoc(ProgramFor(g, first, names), FnOf(g, first, current, |ErrorsFor(g, names)|));
      assert (names + [current])[..|names|] == names;
    }

    /** `genRules()`: every rule once, in the order of the multimap. */
    method GenRules()
      requires NoEmptyAlternative(g) && IsFirst(g, first) && nameStack == [] && errorStuff == [] && prsS == []
      modifies `nameStack, `errorStuff, `prsS, `store, `current
      ensures forall n :: n in Order(g.rules) <==> n in first
      ensures prsS == RenderAll(ProgramFor(g, first, Order(g.rules)))
      ensures errorStuff == ErrorsFor(g, Order(g.rules))
      ensures nameStack == []
    {
      OrderNames(g, g.rules);
      var done := {};
      ghost var names := [];
      for i := 0 to |g.rules|
        invariant names == Order(g.rules[..i])
        invariant forall n :: n in done <==> n in names
        invariant forall n :: n in names ==> n in first
        invariant prsS == RenderAll(ProgramFor(g, first, names))
        invariant errorStuff == ErrorsFor(g, names)
        invariant nameStack == []
      {
        assert g.rules[..i + 1][..i] == g.rules[..i];
        if g.rules[i].0 !in done {
          current := g.rules[i].0;
          GenNext(names);
          done := done + {current};
          names := names + [current];
        }
      }
      assert g.rules[..|g.rules|] == g.rules;
    }
  }
}
