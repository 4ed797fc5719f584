/** The grammar prefix trie (trie.hpp) as a value: what a trie contains and what `insert` does to it. */
module Tries {
  import opened Names

  /** One symbol of an alternative; trie keys compare by `name` only. */
  datatype Part = Part(name: Name, storeName: Name, endName: Name)

  type Rule = seq<Part>

  datatype Trie = Trie(kids: Kids, value: Option<Name>)

  /** The ordered map of a trie entry. */
  datatype Kids = Nil | Kid(part: Part, sub: Trie, next: Kids)

  const EMPTY := Trie(Nil, None)

  function NamesOf(rule: Rule): seq<Name>
  {
    seq(|rule|, i requires 0 <= i < |rule| => rule[i].name)
  }

  function Insert(t: Trie, rule: Rule, v: Name): Trie
    decreases |rule|, 1
  {
    if rule == [] then t.(value := if t.value.Some? then t.value else Some(v))
    else t.(kids := InsertKids(t.kids, rule, v))
  }

  function InsertKids(kids: Kids, rule: Rule, v: Name): Kids
    requires rule != []
    decreases |rule|, 0, kids
  {
    match kids
    case Nil => Kid(rule[0], Insert(EMPTY, rule[1..], v), Nil)
    case Kid(p, s, next) =>
      if p.name == rule[0].name then Kid(p, Insert(s, rule[1..], v), next)
      else if Less(rule[0].name, p.name) then Kid(rule[0], Insert(EMPTY, rule[1..], v), kids)
      else Kid(p, s, InsertKids(next, rule, v))
  }

  predicate AllNonEmpty(rules: seq<Rule>)
  {
    forall i :: 0 <= i < |rules| ==> rules[i] != []
  }

  /** All alternatives of one rule, inserted in order; each stores the end name of its first part. */
  function Build(t: Trie, rules: seq<Rule>): Trie
    requires AllNonEmpty(rules)
    decreases |rules|
  {
    if rules == [] then t else Build(Insert(t, rules[0], rules[0][0].endName), rules[1..])
  }

  // ---- looking into a trie ----

  function Lookup(kids: Kids, n: Name): Option<(Part, Trie)>
  {
    match kids
    case Nil => None
    case Kid(p, s, next) => if p.name == n then Some((p, s)) else Lookup(next, n)
  }

  function At(t: Trie, path: seq<Name>): Option<Trie>
    decreases |path|
  {
    if path == [] then Some(t)
    else match Lookup(t.kids, path[0])
      case None => None
      case Some(e) => At(e.1, path[1..])
  }

  /** The key under which the last step of `path` is stored. */
  function PartAt(t: Trie, path: seq<Name>): Option<Part>
    requires path != []
    decreases |path|
  {
    match Lookup(t.kids, path[0])
    case None => None
    case Some(e) => if |path| == 1 then Some(e.0) else PartAt(e.1, path[1..])
  }

  function ValueAt(t: Trie, path: seq<Name>): Option<Name>
  {
    match At(t, path)
    case None => None
    case Some(s) => s.value
  }

  function Keys(kids: Kids): seq<Part>
  {
    match kids
    case Nil => []
    case Kid(p, _, next) => [p] + Keys(next)
  }

  /** Every leaf holds a value: no insertion leaves a dead branch behind. */
  predicate Live(t: Trie)
  {
    (t.kids.Nil? ==> t.value.Some?) && LiveKids(t.kids)
  }

  predicate LiveKids(kids: Kids)
  {
    match kids
    case Nil => true
    case Kid(_, s, next) => Live(s) && LiveKids(next)
  }

  /** Sibling keys are strictly increasing, so `std::map` finds each of them by its name. */
  predicate Sorted(t: Trie)
  {
    SortedKids(t.kids)
  }

  predicate SortedKids(kids: Kids)
  {
    match kids
    case Nil => true
    case Kid(p, s, next) =>
      && Sorted(s) && SortedKids(next)
      && (next.Kid? ==> Less(p.name, next.part.name))
  }

  // ---- one insertion ----

  lemma NamesOfTail(rule: Rule)
    requires rule != []
    ensures NamesOf(rule) == [rule[0].name] + NamesOf(rule[1..])
  {
  }

  lemma {:induction false} AbsentBelow(kids: Kids, n: Name)
    requires SortedKids(kids) && kids.Kid? && Less(n, kids.part.name)
    ensures Lookup(kids, n) == None
  {
    LessTrichotomy(n, kids.part.name);
    if kids.next.Kid? {
      LessTransitive(n, kids.part.name, kids.next.part.name);
      AbsentBelow(kids.next, n);
    }
  }

  lemma {:induction false} InsertSorted(t: Trie, rule: Rule, v: Name)
    requires Sorted(t)
    ensures Sorted(Insert(t, rule, v))
    decreases |rule|, 1
  {
    if rule != [] { InsertKidsSorted(t.kids, rule, v); }
  }

  lemma {:induction false} InsertKidsSorted(kids: Kids, rule: Rule, v: Name)
    requires rule != [] && SortedKids(kids)
    ensures SortedKids(InsertKids(kids, rule, v))
    decreases |rule|, 0, kids
  {
    match kids
    case Nil => InsertSorted(EMPTY, rule[1..], v);
    case Kid(p, s, next) =>
      LessTrichotomy(p.name, rule[0].name);
      InsertSorted(EMPTY, rule[1..], v);
      InsertSorted(s, rule[1..], v);
      InsertKidsSorted(next, rule, v);
  }

  lemma {:induction false} InsertLive(t: Trie, rule: Rule, v: Name)
    requires t == EMPTY || LiveKids(t.kids)
    ensures LiveKids(Insert(t, rule, v).kids)
    ensures rule == [] || Insert(t, rule, v).kids.Kid?
    ensures Live(t) || t == EMPTY ==> Live(Insert(t, rule, v))
    decreases |rule|, 1
  {
    if rule != [] { InsertKidsLive(t.kids, rule, v); }
  }

  lemma {:induction false} InsertKidsLive(kids: Kids, rule: Rule, v: Name)
    requires rule != [] && LiveKids(kids)
    ensures LiveKids(InsertKids(kids, rule, v))
    decreases |rule|, 0, kids
  {
    InsertLive(EMPTY, rule[1..], v);
    match kids
    case Nil =>
    case Kid(p, s, next) =>
      InsertLive(s, rule[1..], v);
      InsertKidsLive(next, rule, v);
  }

  lemma {:induction false} LookupInsertKids(kids: Kids, rule: Rule, v: Name, n: Name)
    requires rule != [] && SortedKids(kids)
    ensures Lookup(InsertKids(kids, rule, v), n) ==
            if n != rule[0].name then Lookup(kids, n)
            else match Lookup(kids, n)
              case None => Some((rule[0], Insert(EMPTY, rule[1..], v)))
              case Some(e) => Some((e.0, Insert(e.1, rule[1..], v)))
    decreases kids
  {
    match kids
    case Nil =>
    case Kid(p, s, next) =>
      if p.name != rule[0].name {
        if Less(rule[0].name, p.name) { AbsentBelow(kids, rule[0].name); }
        else { LookupInsertKids(next, rule, v, n); }
      }
  }

  /** What one `insert` changes, seen along any path: the new rule's prefixes become present, keys
      and values that were there stay, the value lands only at the rule's own end, and only if that
      place was free. */
  lemma {:induction false} InsertAt(t: Trie, rule: Rule, v: Name, path: seq<Name>)
    requires Sorted(t)
    ensures At(Insert(t, rule, v), path).Some? <==> At(t, path).Some? || path <= NamesOf(rule)
    ensures ValueAt(Insert(t, rule, v), path) ==
            if path == NamesOf(rule) && ValueAt(t, path).None? then Some(v) else ValueAt(t, path)
    ensures path != [] ==>
            PartAt(Insert(t, rule, v), path) ==
            if PartAt(t, path).None? && path <= NamesOf(rule) then Some(rule[|path| - 1])
            else PartAt(t, path)
    decreases |path|
  {
    if path != [] && rule != [] {
      NamesOfTail(rule);
      LookupInsertKids(t.kids, rule, v, path[0]);
      assert path == [path[0]] + path[1..];
      if path[0] == rule[0].name {
        match Lookup(t.kids, path[0])
        case None =>
          InsertAt(EMPTY, rule[1..], v, path[1..]);
          EmptyAt(path[1..]);
        case Some(e) =>
          LookupSorted(t.kids, path[0]);
          InsertAt(e.1, rule[1..], v, path[1..]);
      }
    }
  }

  lemma EmptyAt(path: seq<Name>)
    ensures At(EMPTY, path).Some? <==> path == []
    ensures ValueAt(EMPTY, path) == None
    ensures path != [] ==> PartAt(EMPTY, path) == None
  {
  }

  lemma {:induction false} LookupSorted(kids: Kids, n: Name)
    requires SortedKids(kids) && Lookup(kids, n).Some?
    ensures Sorted(Lookup(kids, n).value.1)
  {
    if kids.part.name != n { LookupSorted(kids.next, n); }
  }

  // ---- a whole rule ----

  /** The end name of the first alternative with exactly these symbols. */
  function FirstEnd(rules: seq<Rule>, path: seq<Name>): Option<Name>
    requires AllNonEmpty(rules)
  {
    if rules == [] then None
    else if NamesOf(rules[0]) == path then Some(rules[0][0].endName)
    else FirstEnd(rules[1..], path)
  }

  /** The last symbol of `path` as the first alternative beginning with `path` writes it. */
  function FirstPart(rules: seq<Rule>, path: seq<Name>): Option<Part>
    requires path != []
  {
    if rules == [] then None
    else if path <= NamesOf(rules[0]) then Some(rules[0][|path| - 1])
    else FirstPart(rules[1..], path)
  }

  /** A trie built from a rule's alternatives holds exactly their prefixes; wherever alternatives
      collide, the first one inserted wins, for values as for keys. */
  lemma {:induction false} BuildAt(t: Trie, rules: seq<Rule>, path: seq<Name>)
    requires Sorted(t) && AllNonEmpty(rules)
    ensures At(Build(t, rules), path).Some? <==>
            At(t, path).Some? || exists i :: 0 <= i < |rules| && path <= NamesOf(rules[i])
    ensures ValueAt(Build(t, rules), path) ==
            if ValueAt(t, path).Some? then ValueAt(t, path) else FirstEnd(rules, path)
    ensures path != [] ==>
            PartAt(Build(t, rules), path) ==
            if PartAt(t, path).Some? then PartAt(t, path) else FirstPart(rules, path)
    decreases |rules|
  {
    if rules != [] {
      var t' := Insert(t, rules[0], rules[0][0].endName);
      InsertSorted(t, rules[0], rules[0][0].endName);
      InsertAt(t, rules[0], rules[0][0].endName, path);
      BuildAt(t', rules[1..], path);
      assert forall i :: 0 < i < |rules| ==> rules[i] == rules[1..][i - 1];
    }
  }

  lemma {:induction false} BuildShape(t: Trie, rules: seq<Rule>)
    requires Sorted(t) && AllNonEmpty(rules) && (t == EMPTY || (Live(t) && t.kids.Kid? && t.value.None?))
    ensures Sorted(Build(t, rules))
    ensures rules != [] || t != EMPTY ==>
            Live(Build(t, rules)) && Build(t, rules).kids.Kid? && Build(t, rules).value.None?
    decreases |rules|
  {
    if rules != [] {
      InsertSorted(t, rules[0], rules[0][0].endName);
      InsertLive(t, rules[0], rules[0][0].endName);
      BuildShape(Insert(t, rules[0], rules[0][0].endName), rules[1..]);
    }
  }
}
