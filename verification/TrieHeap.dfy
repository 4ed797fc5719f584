/** trie.hpp as it is written: entries linked through ordered maps, and an `insert` that walks a
    cursor down the links. A ghost index of entries by path ties the heap to the value `tree`. */
module TrieHeap {
  import opened Names
  import opened Tries

  /** One pair of the ordered map: key and the entry it leads to. */
  datatype Link = Link(part: Part, entry: Entry)

  class Entry {
    var links: seq<Link>
    var value: Name
    var isValue: bool
    const depth: nat

    constructor (d: nat)
      ensures links == [] && !isValue && depth == d
    {
      links := [];
      value := "";
      isValue := false;
      depth := d;
    }
  }

  function LinkParts(links: seq<Link>): (ps: seq<Part>)
    ensures |ps| == |links|
  {
    seq(|links|, i requires 0 <= i < |links| => links[i].part)
  }

  // ---- adding one missing entry, on values ----

  /** The entry for a new key goes in front of the first greater key. */
  function AddKid(kids: Kids, part: Part): Kids
  {
    match kids
    case Nil => Kid(part, EMPTY, Nil)
    case Kid(p, s, next) =>
      if Less(part.name, p.name) then Kid(part, EMPTY, kids)
      else Kid(p, s, AddKid(next, part))
  }

  function AddAt(t: Trie, path: seq<Name>, part: Part): Trie
    decreases |path|, 1
  {
    t.(kids := if path == [] then AddKid(t.kids, part) else AddAtKids(t.kids, path, part))
  }

  function AddAtKids(kids: Kids, path: seq<Name>, part: Part): Kids
    requires path != []
    decreases |path|, 0, kids
  {
    match kids
    case Nil => Nil
    case Kid(p, s, next) =>
      if p.name == path[0] then Kid(p, AddAt(s, path[1..], part), next)
      else Kid(p, s, AddAtKids(next, path, part))
  }

  /** Position of the first key not less than `n`. */
  function Slot(parts: seq<Part>, n: Name): (i: nat)
    ensures i <= |parts|
  {
    if parts == [] || Less(n, parts[0].name) then 0 else 1 + Slot(parts[1..], n)
  }

  lemma {:induction false} AddKidLookup(kids: Kids, part: Part, n: Name)
    requires Lookup(kids, part.name) == None
    ensures Lookup(AddKid(kids, part), n) ==
            if n == part.name then Some((part, EMPTY)) else Lookup(kids, n)
  {
    match kids
    case Nil =>
    case Kid(p, s, next) => AddKidLookup(next, part, n);
  }

  lemma {:induction false} AddKidKeys(kids: Kids, part: Part)
    ensures var i := Slot(Keys(kids), part.name);
            Keys(AddKid(kids, part)) == Keys(kids)[..i] + [part] + Keys(kids)[i..]
  {
    match kids
    case Nil =>
    case Kid(p, s, next) =>
      if !Less(part.name, p.name) {
        AddKidKeys(next, part);
        SlotBehind(p, Keys(next), part);
      }
  }

  lemma SlotBehind(p: Part, ps: seq<Part>, part: Part)
    requires !Less(part.name, p.name)
    ensures var i, j := Slot(ps, part.name), Slot([p] + ps, part.name);
            [p] + (ps[..i] + [part] + ps[i..]) == ([p] + ps)[..j] + [part] + ([p] + ps)[j..]
  {
    assert ([p] + ps)[1..] == ps;
  }

  lemma AddKidEffect(kids: Kids, part: Part, n: Name)
    requires Lookup(kids, part.name) == None
    ensures Lookup(AddKid(kids, part), n) ==
            if n == part.name then Some((part, EMPTY)) else Lookup(kids, n)
    ensures var i := Slot(Keys(kids), part.name);
            Keys(AddKid(kids, part)) == Keys(kids)[..i] + [part] + Keys(kids)[i..]
  {
    AddKidLookup(kids, part, n);
    AddKidKeys(kids, part);
  }

  lemma {:induction false} LookupAddAtKids(kids: Kids, path: seq<Name>, part: Part, n: Name)
    requires path != []
    ensures Keys(AddAtKids(kids, path, part)) == Keys(kids)
    ensures Lookup(AddAtKids(kids, path, part), n) ==
            match Lookup(kids, n)
              case None => None
              case Some(e) => if n == path[0] then Some((e.0, AddAt(e.1, path[1..], part))) else Some(e)
    decreases kids
  {
    match kids
    case Nil =>
    case Kid(p, s, next) => LookupAddAtKids(next, path, part, n);
  }

  /** Adding an entry changes its parent's keys and the presence of one path, and nothing else. */
  lemma {:induction false} AddAtEffect(t: Trie, path: seq<Name>, part: Part, q: seq<Name>)
    requires At(t, path).Some? && Lookup(At(t, path).value.kids, part.name) == None
    ensures At(AddAt(t, path, part), q).Some? <==> At(t, q).Some? || q == path + [part.name]
    ensures q == path + [part.name] ==> At(t, q) == None && At(AddAt(t, path, part), q) == Some(EMPTY)
    ensures q == path ==>
            At(AddAt(t, path, part), q) == Some(At(t, q).value.(kids := AddKid(At(t, q).value.kids, part)))
    ensures At(t, q).Some? && q != path ==>
            && At(AddAt(t, path, part), q).value.value == At(t, q).value.value
            && Keys(At(AddAt(t, path, part), q).value.kids) == Keys(At(t, q).value.kids)
    decreases |path|
  {
    if path == [] {
      if q != [] {
        AddKidEffect(t.kids, part, q[0]);
        assert q == [q[0]] + q[1..];
        EmptyAt(q[1..]);
      }
    } else {
      assert (path + [part.name])[1..] == path[1..] + [part.name];
      if q == [] {
        LookupAddAtKids(t.kids, path, part, "");
      } else {
        LookupAddAtKids(t.kids, path, part, q[0]);
        assert q == [q[0]] + q[1..] && path == [path[0]] + path[1..];
        if q[0] == path[0] {
          AddAtEffect(Lookup(t.kids, path[0]).value.1, path[1..], part, q[1..]);
        }
      }
    }
  }

  lemma {:induction false} AddKidInsert(kids: Kids, rule: Rule, v: Name)
    requires rule != [] && Lookup(kids, rule[0].name) == None
    ensures InsertKids(AddKid(kids, rule[0]), rule, v) == InsertKids(kids, rule, v)
    decreases kids
  {
    match kids
    case Nil =>
    case Kid(p, s, next) => AddKidInsert(next, rule, v);
  }

  /** Creating the next missing entry on the way does not change what the whole insertion yields. */
  lemma {:induction false} AddAtInsert(t: Trie, rule: Rule, v: Name, i: nat)
    requires i < |rule| && Sorted(t)
    requires At(t, NamesOf(rule[..i])).Some?
    requires Lookup(At(t, NamesOf(rule[..i])).value.kids, rule[i].name) == None
    ensures Insert(AddAt(t, NamesOf(rule[..i]), rule[i]), rule, v) == Insert(t, rule, v)
    decreases i, 1
  {
    if i == 0 { AddKidInsert(t.kids, rule, v); }
    else { AddAtInsertKids(t.kids, rule, v, i); }
  }

  lemma {:induction false} AddAtInsertKids(kids: Kids, rule: Rule, v: Name, i: nat)
    requires 0 < i < |rule| && SortedKids(kids)
    requires At(Trie(kids, None), NamesOf(rule[..i])).Some?
    requires Lookup(At(Trie(kids, None), NamesOf(rule[..i])).value.kids, rule[i].name) == None
    ensures InsertKids(AddAtKids(kids, NamesOf(rule[..i]), rule[i]), rule, v) == InsertKids(kids, rule, v)
    decreases i, 0, kids
  {
    var path := NamesOf(rule[..i]);
    assert path[1..] == NamesOf(rule[1..][..i - 1]);
    if kids.part.name == path[0] {
      AddAtInsert(kids.sub, rule[1..], v, i - 1);
    } else {
      if Less(rule[0].name, kids.part.name) { AbsentBelow(kids, rule[0].name); }
      AddAtInsertKids(kids.next, rule, v, i);
    }
  }

  lemma {:induction false} AddAtSorted(t: Trie, path: seq<Name>, part: Part)
    requires Sorted(t) && At(t, path).Some? && Lookup(At(t, path).value.kids, part.name) == None
    ensures Sorted(AddAt(t, path, part))
    decreases |path|, 1
  {
    if path == [] { AddKidSorted(t.kids, part); } else { AddAtKidsSorted(t.kids, path, part); }
  }

  lemma {:induction false} AddKidSorted(kids: Kids, part: Part)
    requires SortedKids(kids) && Lookup(kids, part.name) == None
    ensures SortedKids(AddKid(kids, part))
  {
    if kids.Kid? {
      LessTrichotomy(part.name, kids.part.name);
      AddKidSorted(kids.next, part);
    }
  }

  lemma {:induction false} AddAtKidsSorted(kids: Kids, path: seq<Name>, part: Part)
    requires path != [] && SortedKids(kids) && At(Trie(kids, None), path).Some?
    requires Lookup(At(Trie(kids, None), path).value.kids, part.name) == None
    ensures SortedKids(AddAtKids(kids, path, part))
    decreases |path|, 0, kids
  {
    if kids.part.name == path[0] { AddAtSorted(kids.sub, path[1..], part); }
    else {
      AddAtKidsSorted(kids.next, path, part);
      LookupAddAtKids(kids.next, path, part, "");
    }
  }

  /** When the whole path exists, `Insert` only fills in the value at its end. */
  lemma {:induction false} InsertPresent(t: Trie, rule: Rule, v: Name, q: seq<Name>)
    requires Sorted(t) && At(t, NamesOf(rule)).Some?
    ensures At(Insert(t, rule, v), q).Some? <==> At(t, q).Some?
    ensures At(t, q).Some? ==>
            && Keys(At(Insert(t, rule, v), q).value.kids) == Keys(At(t, q).value.kids)
            && At(Insert(t, rule, v), q).value.value ==
               if q == NamesOf(rule) && At(t, q).value.value == None then Some(v) else At(t, q).value.value
    decreases |rule|
  {
    if rule != [] {
      NamesOfTail(rule);
      InsertKidsKeys(t.kids, rule, v);
      if q != [] {
        LookupInsertKids(t.kids, rule, v, q[0]);
        assert q == [q[0]] + q[1..];
        if q[0] == rule[0].name {
          LookupSorted(t.kids, q[0]);
          InsertPresent(Lookup(t.kids, q[0]).value.1, rule[1..], v, q[1..]);
        }
      }
    }
  }

  lemma {:induction false} InsertKidsKeys(kids: Kids, rule: Rule, v: Name)
    requires rule != [] && SortedKids(kids) && Lookup(kids, rule[0].name).Some?
    ensures Keys(InsertKids(kids, rule, v)) == Keys(kids)
    decreases kids
  {
    if kids.part.name != rule[0].name {
      if Less(rule[0].name, kids.part.name) { AbsentBelow(kids, rule[0].name); }
      InsertKidsKeys(kids.next, rule, v);
    }
  }

  lemma {:induction false} LookupKeys(kids: Kids, n: Name)
    ensures Lookup(kids, n).Some? <==> exists i :: 0 <= i < |Keys(kids)| && Keys(kids)[i].name == n
  {
    match kids
    case Nil =>
    case Kid(p, s, next) =>
      LookupKeys(next, n);
      assert forall i :: 0 < i < |Keys(kids)| ==> Keys(kids)[i] == Keys(next)[i - 1];
      if Lookup(next, n).Some? {
        var i :| 0 <= i < |Keys(next)| && Keys(next)[i].name == n;
        assert Keys(kids)[i + 1].name == n;
      }
      if p.name == n { assert Keys(kids)[0].name == n; }
  }

  /** `std::map::find` by name: the index of the key, or the number of links. */
  method FindLink(links: seq<Link>, n: Name) returns (j: nat)
    ensures j <= |links|
    ensures j < |links| ==> links[j].part.name == n
    ensures j == |links| ==> forall i :: 0 <= i < |links| ==> links[i].part.name != n
  {
    j := 0;
    while j < |links| && links[j].part.name != n
      invariant j <= |links|
      invariant forall i :: 0 <= i < j ==> links[i].part.name != n
    {
      j := j + 1;
    }
  }

  type Index = map<seq<Name>, Entry>

  /** The fields of an entry carry exactly what `tree` has at `p`, and its links lead where `nodes` says. */
  ghost predicate Shown(depth: nat, isValue: bool, value: Name, links: seq<Link>,
                        p: seq<Name>, tree: Trie, nodes: Index)
  {
    && At(tree, p).Some?
    && var t := At(tree, p).value;
    && depth == |p|
    && t.value == (if isValue then Some(value) else None)
    && LinkParts(links) == Keys(t.kids)
    && forall i :: 0 <= i < |links| ==> LeadsTo(links[i], p, nodes)
  }

  ghost predicate LeadsTo(link: Link, p: seq<Name>, nodes: Index)
  {
    p + [link.part.name] in nodes && nodes[p + [link.part.name]] == link.entry
  }

  ghost predicate Injective(nodes: Index)
  {
    forall p, q :: p in nodes && q in nodes && nodes[p] == nodes[q] ==> p == q
  }

  ghost predicate SamePaths(tree: Trie, nodes: Index)
  {
    forall p {:trigger p in nodes} :: p in nodes <==> At(tree, p).Some?
  }

  lemma MissingLink(links: seq<Link>, kids: Kids, n: Name)
    requires LinkParts(links) == Keys(kids)
    requires forall i :: 0 <= i < |links| ==> links[i].part.name != n
    ensures Lookup(kids, n) == None
  {
    LookupKeys(kids, n);
    assert forall i :: 0 <= i < |links| ==> LinkParts(links)[i].name != n;
  }

  lemma ExtendOther(depth: nat, isValue: bool, value: Name, links: seq<Link>, p: seq<Name>,
                    tree: Trie, nodes: Index, path: seq<Name>, part: Part, e: Entry)
    requires Shown(depth, isValue, value, links, p, tree, nodes) && p != path
    requires At(tree, path).Some? && Lookup(At(tree, path).value.kids, part.name) == None
    requires path + [part.name] !in nodes
    ensures Shown(depth, isValue, value, links, p, AddAt(tree, path, part), nodes[path + [part.name] := e])
  {
    AddAtEffect(tree, path, part, p);
    forall i | 0 <= i < |links|
      ensures LeadsTo(links[i], p, nodes[path + [part.name] := e])
    {
      assert LeadsTo(links[i], p, nodes);
    }
  }

  lemma InsertedParts(links: seq<Link>, i: nat, link: Link)
    requires i <= |links|
    ensures LinkParts(links[..i] + [link] + links[i..]) == LinkParts(links)[..i] + [link.part] + LinkParts(links)[i..]
  {
  }

  lemma ExtendSelf(depth: nat, isValue: bool, value: Name, links: seq<Link>, links': seq<Link>,
                   tree: Trie, nodes: Index, path: seq<Name>, part: Part, e: Entry)
    requires Shown(depth, isValue, value, links, path, tree, nodes)
    requires Lookup(At(tree, path).value.kids, part.name) == None
    requires path + [part.name] !in nodes
    requires var i := Slot(LinkParts(links), part.name); links' == links[..i] + [Link(part, e)] + links[i..]
    ensures Shown(depth, isValue, value, links', path, AddAt(tree, path, part), nodes[path + [part.name] := e])
  {
    var i := Slot(LinkParts(links), part.name);
    AddAtEffect(tree, path, part, path);
    AddKidEffect(At(tree, path).value.kids, part, "");
    InsertedParts(links, i, Link(part, e));
    forall j | 0 <= j < |links'|
      ensures LeadsTo(links'[j], path, nodes[path + [part.name] := e])
    {
      if j < i { assert LeadsTo(links[j], path, nodes); }
      if i < j { assert links'[j] == links[j - 1] && LeadsTo(links[j - 1], path, nodes); }
    }
  }

  lemma ExtendPaths(tree: Trie, nodes: Index, path: seq<Name>, part: Part, e: Entry)
    requires SamePaths(tree, nodes) && Injective(nodes) && e !in nodes.Values
    requires At(tree, path).Some? && Lookup(At(tree, path).value.kids, part.name) == None
    ensures path + [part.name] !in nodes
    ensures SamePaths(AddAt(tree, path, part), nodes[path + [part.name] := e])
    ensures Injective(nodes[path + [part.name] := e])
    ensures nodes[path + [part.name] := e].Values <= nodes.Values + {e}
  {
    forall p
      ensures p in nodes[path + [part.name] := e] <==> At(AddAt(tree, path, part), p).Some?
      ensures p == path + [part.name] ==> p !in nodes
    {
      AddAtEffect(tree, path, part, p);
    }
  }

  class PrefixTrie {
    const root: Entry
    ghost var tree: Trie
    ghost var nodes: Index

    ghost predicate Valid()
      reads this, nodes.Values
    {
      && Sorted(tree) && SamePaths(tree, nodes) && Injective(nodes)
      && [] in nodes && nodes[[]] == root
      && forall p {:trigger Shows(nodes[p], p, tree, nodes)} :: p in nodes ==> Shows(nodes[p], p, tree, nodes)
    }

    static ghost predicate Shows(e: Entry, p: seq<Name>, tree: Trie, nodes: Index)
      reads e
    {
      Shown(e.depth, e.isValue, e.value, e.links, p, tree, nodes)
    }

    constructor ()
      ensures Valid() && tree == EMPTY && fresh(nodes.Values)
    {
      root := new Entry(0);
      tree := EMPTY;
      new;
      nodes := map[[] := root];
      forall p ensures At(EMPTY, p).Some? <==> p == [] { EmptyAt(p); }
    }

    /** Create the entry for the next symbol below `cur`, which has none yet. */
    method Extend(cur: Entry, ghost path: seq<Name>, part: Part)
      requires Valid() && path in nodes && nodes[path] == cur
      requires forall i :: 0 <= i < |cur.links| ==> cur.links[i].part.name != part.name
      modifies this, cur
      ensures Valid() && fresh(nodes.Values - old(nodes.Values))
      ensures At(old(tree), path).Some? && Lookup(At(old(tree), path).value.kids, part.name) == None
      ensures tree == AddAt(old(tree), path, part)
      ensures path in nodes && nodes[path] == cur
      ensures exists i :: 0 <= i < |cur.links| && cur.links[i].part.name == part.name
    {
      ghost var tree0, nodes0 := tree, nodes;
      assert Shows(cur, path, tree, nodes);
      MissingLink(cur.links, At(tree, path).value.kids, part.name);
      var e := new Entry(cur.depth + 1);
      var slot := Slot(LinkParts(cur.links), part.name);
      cur.links := cur.links[..slot] + [Link(part, e)] + cur.links[slot..];
      tree := AddAt(tree0, path, part);
      nodes := nodes0[path + [part.name] := e];
      assert cur.links[slot].part.name == part.name;
      ExtendPaths(tree0, nodes0, path, part, e);
      AddAtSorted(tree0, path, part);
      forall p | p in nodes
        ensures Shows(nodes[p], p, tree, nodes)
      {
        if p == path + [part.name] {
          AddAtEffect(tree0, path, part, p);
        } else if p == path {
          ExtendSelf(cur.depth, cur.isValue, cur.value, old(cur.links), cur.links, tree0, nodes0, path, part, e);
        } else {
          var o := nodes0[p];
          assert o != cur && old(Shows(o, p, tree, nodes));
          ExtendOther(o.depth, o.isValue, o.value, o.links, p, tree0, nodes0, path, part, e);
        }
      }
    }

    /** trie.hpp's `insert`: false exactly when a value was already stored at the end of `rule`. */
    method Insert(rule: Rule, v: Name) returns (stored: bool)
      requires Valid()
      modifies this, nodes.Values
      ensures Valid() && fresh(nodes.Values - old(nodes.Values))
      ensures tree == Tries.Insert(old(tree), rule, v)
      ensures stored <==> ValueAt(old(tree), NamesOf(rule)) == None
    {
      var cur, i := root, 0;
      while i < |rule|
        invariant i <= |rule| && Valid() && fresh(nodes.Values - old(nodes.Values))
        invariant NamesOf(rule[..i]) in nodes && nodes[NamesOf(rule[..i])] == cur
        invariant Tries.Insert(tree, rule, v) == Tries.Insert(old(tree), rule, v)
        invariant ValueAt(tree, NamesOf(rule)) == ValueAt(old(tree), NamesOf(rule))
      {
        cur := Step(cur, rule, v, i);
        i := i + 1;
      }
      assert rule[..i] == rule;
      stored := !cur.isValue;
      assert Shows(cur, NamesOf(rule), tree, nodes);
      SetValue(cur, rule, v);
    }

    /** One round of the walk: make sure the next symbol has an entry, and move to it. */
    method Step(cur: Entry, rule: Rule, ghost v: Name, i: nat) returns (next: Entry)
      requires Valid() && i < |rule|
      requires NamesOf(rule[..i]) in nodes && nodes[NamesOf(rule[..i])] == cur
      modifies this, cur
      ensures Valid() && fresh(nodes.Values - old(nodes.Values))
      ensures NamesOf(rule[..i + 1]) in nodes && nodes[NamesOf(rule[..i + 1])] == next
      ensures Tries.Insert(tree, rule, v) == Tries.Insert(old(tree), rule, v)
      ensures ValueAt(tree, NamesOf(rule)) == ValueAt(old(tree), NamesOf(rule))
    {
      ghost var path := NamesOf(rule[..i]);
      var j := FindLink(cur.links, rule[i].name);
      if j == |cur.links| {
        Extend(cur, path, rule[i]);
        AddAtInsert(old(tree), rule, v, i);
        AddAtEffect(old(tree), path, rule[i], NamesOf(rule));
        j := FindLink(cur.links, rule[i].name);
      }
      assert Shows(cur, path, tree, nodes);
      assert LeadsTo(cur.links[j], path, nodes);
      assert NamesOf(rule[..i + 1]) == path + [rule[i].name];
      next := cur.links[j].entry;
    }

    /** The end of the walk: fill in the value unless one is there. */
    method SetValue(cur: Entry, ghost rule: Rule, v: Name)
      requires Valid() && NamesOf(rule) in nodes && nodes[NamesOf(rule)] == cur
      modifies this, cur
      ensures Valid() && nodes == old(nodes) && tree == Tries.Insert(old(tree), rule, v)
    {
      assert Shows(cur, NamesOf(rule), tree, nodes);
      if !cur.isValue {
        cur.value, cur.isValue := v, true;
      }
      tree := Tries.Insert(tree, rule, v);
      InsertSorted(old(tree), rule, v);
      forall p
        ensures At(tree, p).Some? <==> At(old(tree), p).Some?
        ensures p in nodes ==> Shows(nodes[p], p, tree, nodes)
      {
        InsertPresent(old(tree), rule, v, p);
        if p in nodes { assert old(Shows(nodes[p], p, tree, nodes)); }
      }
    }
  }
}
