/** Grammars as recde stores them, and what FIRST and derivation mean for them. */
module Grammars {
  import opened Names
  import opened Tries

  /** `rules` lists the multimap's pairs in its iteration order, which is left arbitrary;
      `tokens` holds the names of the token map. */
  datatype Grammar = Grammar(rules: seq<(Name, Rule)>, tokens: set<Name>)

  predicate NoEmptyAlternative(g: Grammar)
  {
    forall i :: 0 <= i < |g.rules| ==> g.rules[i].1 != []
  }

  function RuleNames(g: Grammar): set<Name>
  {
    set i | 0 <= i < |g.rules| :: g.rules[i].0
  }

  /** The alternatives of one rule, in iteration order. */
  function Alternatives(rules: seq<(Name, Rule)>, n: Name): (alts: seq<Rule>)
    ensures (forall i :: 0 <= i < |rules| ==> rules[i].1 != []) ==> AllNonEmpty(alts)
    ensures forall a :: a in alts <==> (n, a) in rules
  {
    if rules == [] then []
    else (if rules[0].0 == n then [rules[0].1] else []) + Alternatives(rules[1..], n)
  }

  function TrieOf(g: Grammar, n: Name): Trie
    requires NoEmptyAlternative(g)
  {
    Build(EMPTY, Alternatives(g.rules, n))
  }

  // ---- which alternative a trie shows ----

  /** The first pair of the multimap that is an alternative of `n` with exactly these symbols. */
  ghost predicate FirstWith(rules: seq<(Name, Rule)>, n: Name, path: seq<Name>, i: nat)
  {
    && i < |rules| && rules[i].0 == n && NamesOf(rules[i].1) == path
    && forall j: nat :: j < i && rules[j].0 == n ==> NamesOf(rules[j].1) != path
  }

  /** The first pair that is an alternative of `n` and begins with these symbols. */
  ghost predicate FirstThrough(rules: seq<(Name, Rule)>, n: Name, path: seq<Name>, i: nat)
  {
    && i < |rules| && rules[i].0 == n && path <= NamesOf(rules[i].1)
    && forall j: nat :: j < i && rules[j].0 == n ==> !(path <= NamesOf(rules[j].1))
  }

  ghost predicate NoneEmpty(rules: seq<(Name, Rule)>)
  {
    forall i :: 0 <= i < |rules| ==> rules[i].1 != []
  }

  lemma AlternativesStep(rules: seq<(Name, Rule)>, n: Name)
    requires rules != []
    ensures rules[0].0 == n ==>
              Alternatives(rules, n) != [] && Alternatives(rules, n)[0] == rules[0].1 &&
              Alternatives(rules, n)[1..] == Alternatives(rules[1..], n)
    ensures rules[0].0 != n ==> Alternatives(rules, n) == Alternatives(rules[1..], n)
  {
  }

  lemma {:induction false} EndOfFirst(rules: seq<(Name, Rule)>, n: Name, path: seq<Name>, i: nat)
    requires NoneEmpty(rules) && FirstWith(rules, n, path, i)
    ensures FirstEnd(Alternatives(rules, n), path) == Some(rules[i].1[0].endName)
    decreases i
  {
    AlternativesStep(rules, n);
    if i > 0 {
      assert forall j :: 0 <= j < |rules| - 1 ==> rules[1..][j] == rules[j + 1];
      EndOfFirst(rules[1..], n, path, i - 1);
    }
  }

  lemma {:induction false} FirstOfEnd(rules: seq<(Name, Rule)>, n: Name, path: seq<Name>) returns (i: nat)
    requires NoneEmpty(rules) && FirstEnd(Alternatives(rules, n), path).Some?
    ensures FirstWith(rules, n, path, i)
    decreases |rules|
  {
    AlternativesStep(rules, n);
    i := 0;
    if rules[0].0 != n || NamesOf(rules[0].1) != path {
      assert forall j :: 0 <= j < |rules| - 1 ==> rules[1..][j] == rules[j + 1];
      i := FirstOfEnd(rules[1..], n, path);
      i := i + 1;
    }
  }

  lemma {:induction false} PartOfFirst(rules: seq<(Name, Rule)>, n: Name, path: seq<Name>, i: nat)
    requires path != [] && FirstThrough(rules, n, path, i)
    ensures FirstPart(Alternatives(rules, n), path) == Some(rules[i].1[|path| - 1])
    decreases i
  {
    AlternativesStep(rules, n);
    if i > 0 {
      assert forall j :: 0 <= j < |rules| - 1 ==> rules[1..][j] == rules[j + 1];
      PartOfFirst(rules[1..], n, path, i - 1);
    }
  }

  lemma {:induction false} FirstOfPart(rules: seq<(Name, Rule)>, n: Name, path: seq<Name>) returns (i: nat)
    requires path != [] && FirstPart(Alternatives(rules, n), path).Some?
    ensures FirstThrough(rules, n, path, i)
    decreases |rules|
  {
    AlternativesStep(rules, n);
    i := 0;
    if rules[0].0 != n || !(path <= NamesOf(rules[0].1)) {
      assert forall j :: 0 <= j < |rules| - 1 ==> rules[1..][j] == rules[j + 1];
      i := FirstOfPart(rules[1..], n, path);
      i := i + 1;
    }
  }

  /** The trie of a rule in terms of the multimap: at the end of a path stands the end name that the first pair with
      these symbols gives its first part, the key of a step is the part that the first pair through it writes, and
      there is nothing else. */
  lemma TrieOfMultimap(g: Grammar, n: Name, path: seq<Name>)
    requires NoEmptyAlternative(g)
    ensures forall i: nat :: FirstWith(g.rules, n, path, i) ==>
              ValueAt(TrieOf(g, n), path) == Some(g.rules[i].1[0].endName)
    ensures ValueAt(TrieOf(g, n), path).Some? ==> exists i: nat :: FirstWith(g.rules, n, path, i)
    ensures path != [] ==> forall i: nat :: FirstThrough(g.rules, n, path, i) ==>
              PartAt(TrieOf(g, n), path) == Some(g.rules[i].1[|path| - 1])
    ensures path != [] && PartAt(TrieOf(g, n), path).Some? ==> exists i: nat :: FirstThrough(g.rules, n, path, i)
  {
    BuildAt(EMPTY, Alternatives(g.rules, n), path);
    EmptyAt(path);
    forall i: nat | FirstWith(g.rules, n, path, i)
      ensures FirstEnd(Alternatives(g.rules, n), path) == Some(g.rules[i].1[0].endName)
    {
      EndOfFirst(g.rules, n, path, i);
    }
    if ValueAt(TrieOf(g, n), path).Some? { var i := FirstOfEnd(g.rules, n, path); }
    if path != [] {
      forall i: nat | FirstThrough(g.rules, n, path, i)
        ensures FirstPart(Alternatives(g.rules, n), path) == Some(g.rules[i].1[|path| - 1])
      {
        PartOfFirst(g.rules, n, path, i);
      }
      if PartAt(TrieOf(g, n), path).Some? { var i := FirstOfPart(g.rules, n, path); }
    }
  }

  // ---- FIRST ----

  /** Some alternative of `a` begins with the symbol `x`. */
  ghost predicate BeginsWith(g: Grammar, a: Name, x: Name)
  {
    exists i :: 0 <= i < |g.rules| && g.rules[i].0 == a && g.rules[i].1 != [] && g.rules[i].1[0].name == x
  }

  /** Each symbol of the chain is a rule with an alternative that begins with the next one;
      the last is no rule. */
  ghost predicate Chain(g: Grammar, c: seq<Name>)
  {
    && c != []
    && (forall i :: 0 <= i < |c| - 1 ==> BeginsWith(g, c[i], c[i + 1]))
    && c[|c| - 1] !in RuleNames(g)
  }

  /** FIRST: the terminal `t` is reachable from the symbol `x` through leading symbols. */
  ghost predicate Starts(g: Grammar, x: Name, t: Name)
  {
    exists c :: Chain(g, c) && c[0] == x && c[|c| - 1] == t
  }

  type FirstTable = map<Name, set<Name>>

  ghost predicate IsFirst(g: Grammar, first: FirstTable)
  {
    && first.Keys == RuleNames(g)
    && forall a, t :: a in first ==> (t in first[a] <==> Starts(g, a, t))
  }

  lemma BeginsIsRule(g: Grammar, a: Name, x: Name)
    requires BeginsWith(g, a, x)
    ensures a in RuleNames(g)
  {
  }

  lemma StartsTerminal(g: Grammar, x: Name, t: Name)
    requires x !in RuleNames(g)
    ensures Starts(g, x, t) <==> x == t
  {
    assert Chain(g, [x]);
    if Starts(g, x, t) {
      var c :| Chain(g, c) && c[0] == x && c[|c| - 1] == t;
      if |c| > 1 { BeginsIsRule(g, c[0], c[1]); }
    }
  }

  lemma StartsStep(g: Grammar, a: Name, x: Name, t: Name)
    requires BeginsWith(g, a, x) && Starts(g, x, t)
    ensures Starts(g, a, t)
  {
    var c :| Chain(g, c) && c[0] == x && c[|c| - 1] == t;
    var d := [a] + c;
    assert forall i :: 0 <= i < |d| - 1 ==> BeginsWith(g, d[i], d[i + 1]);
    assert Chain(g, d);
  }
}
