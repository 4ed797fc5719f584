/** `computeFirstSet` (recde/recdec.cpp): chaotic iteration up to the least FIRST sets. */
module FirstSets {
  import opened Names
  import opened Tries
  import opened Grammars

  // ---- what a table knows ----

  /** Everything in the table is justified by a chain. */
  ghost predicate Sound(g: Grammar, first: FirstTable)
  {
    && first.Keys <= RuleNames(g)
    && forall a, t :: a in first && t in first[a] ==> Starts(g, a, t)
  }

  /** The entry of alternative `j` exists and holds the alternative's leading terminal. */
  ghost predicate Seeded(g: Grammar, first: FirstTable, j: int)
    requires 0 <= j < |g.rules| && g.rules[j].1 != []
  {
    var (a, x) := (g.rules[j].0, g.rules[j].1[0].name);
    a in first && (x !in RuleNames(g) ==> x in first[a])
  }

  /** The entry of alternative `j` covers the entry of its leading rule. */
  ghost predicate Covered(g: Grammar, first: FirstTable, j: int)
    requires 0 <= j < |g.rules| && g.rules[j].1 != []
  {
    var (a, x) := (g.rules[j].0, g.rules[j].1[0].name);
    a in first && (x in RuleNames(g) && x in first ==> first[x] <= first[a])
  }

  ghost predicate Grows(small: FirstTable, big: FirstTable)
  {
    small.Keys <= big.Keys && forall a :: a in small ==> small[a] <= big[a]
  }

  /** One row of knowledge; the finite set of rows bounds the iteration. */
  datatype Fact = Known(rule: Name) | Has(rule: Name, tok: Name)

  ghost function Facts(first: FirstTable): set<Fact>
  {
    (set a | a in first :: Known(a)) + (set a, t | a in first && t in first[a] :: Has(a, t))
  }

  ghost function AllFacts(g: Grammar): set<Fact>
    requires NoEmptyAlternative(g)
  {
    (set a | a in RuleNames(g) :: Known(a)) +
    (set a, i | a in RuleNames(g) && 0 <= i < |g.rules| :: Has(a, g.rules[i].1[0].name))
  }

  lemma FactsBounded(g: Grammar, first: FirstTable)
    requires NoEmptyAlternative(g) && Sound(g, first)
    ensures Facts(first) <= AllFacts(g)
  {
    forall a, t | a in first && t in first[a]
      ensures Has(a, t) in AllFacts(g)
    {
      var c :| Chain(g, c) && c[0] == a && c[|c| - 1] == t;
      assert BeginsWith(g, c[|c| - 2], c[|c| - 1]);
    }
  }

  lemma FactsGrow(small: FirstTable, big: FirstTable)
    requires Grows(small, big)
    ensures Facts(small) <= Facts(big)
    ensures small != big ==> Facts(small) < Facts(big)
  {
    if small != big {
      if small.Keys == big.Keys {
        var a :| a in small && small[a] != big[a];
        var t :| t in big[a] && t !in small[a];
        assert Has(a, t) in Facts(big) && Has(a, t) !in Facts(small);
      } else {
        var a :| a in big && a !in small;
        assert Known(a) in Facts(big) && Known(a) !in Facts(small);
      }
    }
  }

  /** A table that is seeded and closed holds every reachable terminal. */
  lemma {:induction false} ClosedIsComplete(g: Grammar, first: FirstTable, c: seq<Name>)
    requires NoEmptyAlternative(g)
    requires forall j :: 0 <= j < |g.rules| ==> Seeded(g, first, j) && Covered(g, first, j)
    requires Chain(g, c) && c[0] in RuleNames(g)
    ensures c[0] in first && c[|c| - 1] in first[c[0]]
    decreases |c|
  {
    assert BeginsWith(g, c[0], c[1]);
    var j :| 0 <= j < |g.rules| && g.rules[j].0 == c[0] && g.rules[j].1[0].name == c[1];
    assert Seeded(g, first, j) && Covered(g, first, j);
    if |c| > 2 {
      assert forall i :: 0 <= i < |c[1..]| - 1 ==> BeginsWith(g, c[1..][i], c[1..][i + 1]);
      assert BeginsWith(g, c[1], c[2]);
      ClosedIsComplete(g, first, c[1..]);
    }
  }

  lemma ClosedIsFirst(g: Grammar, first: FirstTable)
    requires NoEmptyAlternative(g) && Sound(g, first)
    requires forall j :: 0 <= j < |g.rules| ==> Seeded(g, first, j) && Covered(g, first, j)
    ensures IsFirst(g, first)
  {
    forall a | a in RuleNames(g)
      ensures a in first
    {
      var j :| 0 <= j < |g.rules| && g.rules[j].0 == a;
      assert Seeded(g, first, j);
    }
    forall a, t | a in first && Starts(g, a, t)
      ensures t in first[a]
    {
      var c :| Chain(g, c) && c[0] == a && c[|c| - 1] == t;
      ClosedIsComplete(g, first, c);
    }
  }

  // ---- the iteration ----

  /** The body of the inner loop for one alternative. A terminal added to an existing entry does not
      count as a change. */
  method Visit(g: Grammar, first: FirstTable, j: nat) returns (first': FirstTable, changed: bool)
    requires NoEmptyAlternative(g) && j < |g.rules| && Sound(g, first)
    ensures Sound(g, first') && Grows(first, first')
    ensures Seeded(g, first', j)
    ensures changed ==> first' != first
    ensures !changed && Seeded(g, first, j) ==> first' == first && Covered(g, first, j)
    ensures first == map[] ==> changed
  {
    var name, front := g.rules[j].0, g.rules[j].1[0].name;
    assert BeginsWith(g, name, front);
    assert forall t :: Starts(g, front, t) ==> Starts(g, name, t) by {
      forall t | Starts(g, front, t) ensures Starts(g, name, t) { StartsStep(g, name, front, t); }
    }
    changed := false;
    if name !in first {
      if front !in RuleNames(g) {
        StartsTerminal(g, front, front);
        first' := first[name := {front}];
      } else {
        var n := if front in first then first[front] else {};
        first' := first[name := n];
      }
      changed := true;
    } else if front !in RuleNames(g) {
      StartsTerminal(g, front, front);
      first' := first[name := first[name] + {front}];
      assert front in first[name] ==> first[name] + {front} == first[name];
    } else if front in first {
      changed := !(first[front] <= first[name]);
      first' := first[name := first[name] + first[front]];
      if changed {
        var t :| t in first[front] && t !in first[name];
        assert t in first'[name];
      } else {
        assert first[name] + first[front] == first[name];
      }
    } else {
      first' := first;
    }
  }

  /** Started on an empty table, the iteration stops, for every order of the multimap, exactly with
      the least FIRST sets. */
  method ComputeFirstSet(g: Grammar) returns (first: FirstTable)
    requires NoEmptyAlternative(g)
    ensures IsFirst(g, first)
  {
    first := map[];
    var changed := true;
    while changed
      invariant Sound(g, first)
      invariant first == map[] || forall j :: 0 <= j < |g.rules| ==> Seeded(g, first, j)
      invariant !changed ==> forall j :: 0 <= j < |g.rules| ==> Seeded(g, first, j) && Covered(g, first, j)
      decreases AllFacts(g) - Facts(first), changed
    {
      ghost var first0 := first;
      changed := false;
      for i := 0 to |g.rules|
        invariant Sound(g, first) && Grows(first0, first)
        invariant forall j :: 0 <= j < i ==> Seeded(g, first, j)
        invariant changed ==> Facts(first0) < Facts(first)
        invariant first0 == map[] && i > 0 ==> changed
        invariant !changed ==> first == first0 && forall j :: 0 <= j < i ==> Covered(g, first, j)
      {
        ghost var before := first;
        var c;
        first, c := Visit(g, first, i);
        assert first0 != map[] ==> Seeded(g, first0, i);
        FactsGrow(before, first);
        Persist(g, before, first, i);
        changed := changed || c;
      }
      FactsGrow(first0, first);
      FactsBounded(g, first);
      FactsBounded(g, first0);
    }
    ClosedIsFirst(g, first);
  }

  lemma Persist(g: Grammar, small: FirstTable, big: FirstTable, i: nat)
    requires NoEmptyAlternative(g) && i <= |g.rules| && Grows(small, big)
    requires forall j :: 0 <= j < i ==> Seeded(g, small, j)
    ensures forall j :: 0 <= j < i ==> Seeded(g, big, j)
  {
    forall j | 0 <= j < i
      ensures Seeded(g, big, j)
    {
      assert Seeded(g, small, j);
    }
  }
}
