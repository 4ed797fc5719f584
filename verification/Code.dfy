/** The code recde emits for one rule: its structure, its text line by line, and how a prefix trie is
    compiled into it. */
module Code {
  import opened Names
  import opened Tries
  import opened Grammars

  datatype Test = LookAhead(rule: Name) | TypeIs(tok: Name)

  /** What a taken branch does first: store the current token, only advance, or call a parse function. */
  datatype Act = Take(store: Name) | Advance | Call(rule: Name, store: Name)

  /** `return std::make_shared<rule>(args..., ruleEnum::tag)`. */
  datatype Ret = Ret(rule: Name, args: seq<Name>, tag: Name)

  /** `if (test) { act body ret } else ...`; `Fall` is the empty text. */
  datatype Code =
    | Fall
    | Throw(id: nat)
    | If(test: Test, act: Act, body: Code, ret: Option<Ret>, els: Code)

  /** A generated rule: its look-ahead function and its parse function. */
  datatype Fn = Fn(name: Name, look: set<Name>, code: Code)

  datatype ErrorStuff = ErrorStuff(rule: Name, part: Name, depth: nat, possible: seq<Name>)

  // ---- compilation ----

  predicate IsTake(g: Grammar, p: Part)
  {
    p.name in g.tokens && p.storeName != ""
  }

  predicate IsCall(g: Grammar, p: Part)
  {
    p.name in RuleNames(g) && p.storeName != "" && !IsTake(g, p)
  }

  /** The parts whose store name becomes a constructor argument. */
  predicate Pushes(g: Grammar, p: Part)
  {
    IsTake(g, p) || IsCall(g, p)
  }

  function TestOf(g: Grammar, p: Part): Test
  {
    if p.name in RuleNames(g) then LookAhead(p.name) else TypeIs(p.name)
  }

  function ActOf(g: Grammar, p: Part): Act
  {
    if IsTake(g, p) then Take(p.storeName)
    else if IsCall(g, p) then Call(p.name, p.storeName)
    else Advance
  }

  function Push(g: Grammar, names: seq<Name>, p: Part): seq<Name>
  {
    if Pushes(g, p) then names + [p.storeName] else names
  }

  function ErrCount(t: Trie): nat
  {
    if t.kids.Nil? then 0 else ErrCountKids(t.kids) + (if t.value.None? then 1 else 0)
  }

  function ErrCountKids(kids: Kids): nat
  {
    match kids
    case Nil => 0
    case Kid(_, s, next) => ErrCount(s) + ErrCountKids(next)
  }

  function Compile(g: Grammar, rule: Name, t: Trie, names: seq<Name>, base: nat): Code
  {
    if t.kids.Nil? then Fall
    else CompileKids(g, rule, t.kids, names, base, Otherwise(t, base))
  }

  /** A node that holds no value ends its chain of branches with a throw. */
  function Otherwise(t: Trie, base: nat): Code
  {
    if t.value.Some? then Fall else Throw(base + ErrCountKids(t.kids))
  }

  function CompileKids(g: Grammar, rule: Name, kids: Kids, names: seq<Name>, base: nat, els: Code): Code
  {
    match kids
    case Nil => els
    case Kid(p, s, next) =>
      If(TestOf(g, p), ActOf(g, p),
         Compile(g, rule, s, Push(g, names, p), base),
         RetOf(rule, s, Push(g, names, p)),
         CompileKids(g, rule, next, names, base + ErrCount(s), els))
  }

  function RetOf(rule: Name, t: Trie, names: seq<Name>): Option<Ret>
  {
    if t.value.Some? then Some(Ret(rule, names, t.value.value)) else None
  }

  function PossibleOf(kids: Kids): seq<Name>
  {
    match kids
    case Nil => []
    case Kid(p, _, next) => [p.name] + PossibleOf(next)
  }

  /** What an error entry lists: the symbols on which the node goes on, each once, in the order of names. */
  lemma {:induction false} PossibleMeaning(kids: Kids)
    requires SortedKids(kids)
    ensures forall n :: n in PossibleOf(kids) <==> Lookup(kids, n).Some?
    ensures forall i, j :: 0 <= i < j < |PossibleOf(kids)| ==> Less(PossibleOf(kids)[i], PossibleOf(kids)[j])
  {
    if kids.Kid? && kids.next.Kid? {
      PossibleMeaning(kids.next);
      var all, rest := PossibleOf(kids), PossibleOf(kids.next);
      forall i, j | 0 <= i < j < |all| ensures Less(all[i], all[j]) {
        if i > 0 {
          assert all[i] == rest[i - 1] && all[j] == rest[j - 1];
        } else if j > 1 {
          LessTransitive(all[0], rest[0], rest[j - 1]);
        }
      }
    }
  }

  /** `errs` with the entries of a trie appended in the order the walk creates them. */
  function PutErrors(errs: seq<ErrorStuff>, rule: Name, t: Trie, part: Name, depth: nat): (r: seq<ErrorStuff>)
    ensures |r| == |errs| + ErrCount(t)
    decreases t, 1
  {
    if t.kids.Nil? then errs
    else PutErrorsKids(errs, rule, t.kids, depth) +
         (if t.value.None? then [ErrorStuff(rule, part, depth, PossibleOf(t.kids))] else [])
  }

  function PutErrorsKids(errs: seq<ErrorStuff>, rule: Name, kids: Kids, depth: nat): (r: seq<ErrorStuff>)
    ensures |r| == |errs| + ErrCountKids(kids)
    decreases kids, 0
  {
    match kids
    case Nil => errs
    case Kid(p, s, next) => PutErrorsKids(PutErrors(errs, rule, s, p.name, depth + 1), rule, next, depth)
  }

  // ---- the text ----

  datatype Line =
    | Open(first: bool, test: Test)
    | DeclTok(store: Name)
    | NextToken
    | DeclCall(rule: Name, store: Name)
    | Return(ret: Ret)
    | Else
    | ThrowLine(id: nat)
    | Close
    | Break
    | LookAheadFn(rule: Name, look: set<Name>)
    | ParseFn(rule: Name)
    | EndFn

  function RenderAct(a: Act): seq<Line>
  {
    match a
    case Take(s) => [DeclTok(s), NextToken]
    case Advance => [NextToken]
    case Call(r, s) => [DeclCall(r, s)]
  }

  function RenderRet(r: Option<Ret>): seq<Line>
  {
    if r.Some? then [Return(r.value)] else []
  }

  function RenderChain(c: Code, first: bool): seq<Line>
    decreases c, 0
  {
    match c
    case Fall => []
    case Throw(id) => [Else, ThrowLine(id), Close]
    case If(test, act, body, ret, els) =>
      [Open(first, test)] + (RenderAct(act) + (Render(body) + (RenderRet(ret) + ([Close] + RenderChain(els, false)))))
  }

  function Render(c: Code): seq<Line>
    decreases c, 1
  {
    if c.If? then RenderChain(c, true) + [Break] else []
  }

  function RenderFn(f: Fn): seq<Line>
  {
    [LookAheadFn(f.name, f.look), ParseFn(f.name)] + Render(f.code) + [EndFn]
  }

  function RenderAll(fns: seq<Fn>): seq<Line>
  {
    if fns == [] then [] else RenderFn(fns[0]) + RenderAll(fns[1..])
  }

  // ---- writing, piece by piece ----

  /** `out` with the text of a block appended in the order the generator writes it. */
  function Put(out: seq<Line>, c: Code): seq<Line>
    decreases c, 1
  {
    if c.If? then PutChain(out, c, true) + [Break] else out
  }

  function PutChain(out: seq<Line>, c: Code, first: bool): seq<Line>
    decreases c, 0
  {
    match c
    case Fall => out
    case Throw(id) => out + [Else, ThrowLine(id), Close]
    case If(test, act, body, ret, els) =>
      PutChain(Put(out + [Open(first, test)] + RenderAct(act), body) + RenderRet(ret) + [Close], els, false)
  }

  lemma {:induction false} PutAppends(out: seq<Line>, c: Code)
    ensures Put(out, c) == out + Render(c)
    decreases c, 1
  {
    if c.If? {
      PutChainAppends(out, c, true);
      Assoc(out, RenderChain(c, true), [Break]);
    }
  }

  lemma {:induction false} PutChainAppends(out: seq<Line>, c: Code, first: bool)
    ensures PutChain(out, c, first) == out + RenderChain(c, first)
    decreases c, 0
  {
    match c
    case Fall =>
    case Throw(id) =>
    case If(test, act, body, ret, els) =>
      var out1 := out + [Open(first, test)] + RenderAct(act);
      var out2 := out1 + Render(body) + RenderRet(ret) + [Close];
      PutAppends(out1, body);
      PutChainAppends(out2, els, false);
      var s5 := RenderChain(els, false);
      var s4 := [Close] + s5;
      var s3 := RenderRet(ret) + s4;
      var s2 := Render(body) + s3;
      Assoc(out1 + Render(body) + RenderRet(ret), [Close], s5);
      Assoc(out1 + Render(body), RenderRet(ret), s4);
      Assoc(out1, Render(body), s3);
      Assoc(out + [Open(first, test)], RenderAct(act), s2);
      Assoc(out, [Open(first, test)], RenderAct(act) + s2);
  }

  /** A whole function, written piece by piece. */
  lemma PutFn(out: seq<Line>, f: Fn)
    ensures Put(out + [LookAheadFn(f.name, f.look)] + [ParseFn(f.name)], f.code) + [EndFn] == out + RenderFn(f)
  {
    var head := [LookAheadFn(f.name, f.look), ParseFn(f.name)];
    PutAppends(out + [LookAheadFn(f.name, f.look)] + [ParseFn(f.name)], f.code);
    assert out + [LookAheadFn(f.name, f.look)] + [ParseFn(f.name)] == out + head;
    Assoc(out + head, Render(f.code), [EndFn]);
    Assoc(out, head, Render(f.code) + [EndFn]);
    Assoc(head, Render(f.code), [EndFn]);
  }

  lemma Assoc<T>(a: seq<T>, b: seq<T>, c: seq<T>)
    ensures a + b + c == a + (b + c)
  {
  }

  // ---- reading the text back ----

  function ReadAct(ls: seq<Line>): (r: Option<(Act, seq<Line>)>)
    ensures r.Some? ==> |r.value.1| <= |ls|
  {
    if |ls| >= 2 && ls[0].DeclTok? && ls[1] == NextToken then Some((Take(ls[0].store), ls[2..]))
    else if |ls| >= 1 && ls[0].NextToken? then Some((Advance, ls[1..]))
    else if |ls| >= 1 && ls[0].DeclCall? then Some((Call(ls[0].rule, ls[0].store), ls[1..]))
    else None
  }

  function ReadRet(ls: seq<Line>): (r: (Option<Ret>, seq<Line>))
    ensures |r.1| <= |ls|
  {
    if ls != [] && ls[0].Return? then (Some(ls[0].ret), ls[1..]) else (None, ls)
  }

  /** One `if / else if / else` chain. */
  function ReadChain(ls: seq<Line>, first: bool): (r: Option<(Code, seq<Line>)>)
    ensures r.Some? ==> |r.value.1| <= |ls|
    decreases |ls|, 0
  {
    if ls != [] && ls[0].Open? && ls[0].first == first then
      var act := ReadAct(ls[1..]);
      if act.None? then None else
      var body := ReadBlock(act.value.1);
      if body.None? then None else
      var (ret, ls') := ReadRet(body.value.1);
      if ls' == [] || !ls'[0].Close? then None else
      var els := ReadChain(ls'[1..], false);
      if els.None? then None else
      Some((If(ls[0].test, act.value.0, body.value.0, ret, els.value.0), els.value.1))
    else if |ls| >= 3 && !first && ls[0].Else? && ls[1].ThrowLine? && ls[2].Close? then
      Some((Throw(ls[1].id), ls[3..]))
    else
      Some((Fall, ls))
  }

  /** What stands between the braces before the return: nothing, or one chain and a line break. */
  function ReadBlock(ls: seq<Line>): (r: Option<(Code, seq<Line>)>)
    ensures r.Some? ==> |r.value.1| <= |ls|
    decreases |ls|, 1
  {
    if ls != [] && ls[0].Open? && ls[0].first then
      var c := ReadChain(ls, true);
      if c.None? || c.value.1 == [] || !c.value.1[0].Break? then None
      else Some((c.value.0, c.value.1[1..]))
    else Some((Fall, ls))
  }

  /** Blocks are empty or chains, as the generator writes them. */
  predicate Shaped(c: Code)
  {
    c.If? ==> !c.body.Throw? && Shaped(c.body) && Shaped(c.els)
  }

  predicate ShapedFn(f: Fn)
  {
    Shaped(f.code) && !f.code.Throw?
  }

  lemma {:induction false} CompileShaped(g: Grammar, rule: Name, t: Trie, names: seq<Name>, base: nat)
    ensures Shaped(Compile(g, rule, t, names, base)) && !Compile(g, rule, t, names, base).Throw?
    decreases t, 1
  {
    if t.kids.Kid? { CompileKidsShaped(g, rule, t.kids, names, base, Otherwise(t, base)); }
  }

  lemma {:induction false} CompileKidsShaped(g: Grammar, rule: Name, kids: Kids, names: seq<Name>, base: nat, els: Code)
    requires Shaped(els)
    ensures Shaped(CompileKids(g, rule, kids, names, base, els))
    decreases kids, 0
  {
    match kids
    case Nil =>
    case Kid(p, s, next) =>
      CompileShaped(g, rule, s, Push(g, names, p), base);
      CompileKidsShaped(g, rule, next, names, base + ErrCount(s), els);
  }

  predicate EndsBlock(rest: seq<Line>)
  {
    rest != [] && !rest[0].Open? && !rest[0].Else?
  }

  /** The text determines the code: its braces match, and reading it gives back the structure. */
  lemma {:induction false} RoundTripBlock(c: Code, rest: seq<Line>)
    requires Shaped(c) && !c.Throw? && EndsBlock(rest)
    ensures ReadBlock(Render(c) + rest) == Some((c, rest))
    decreases c, 1
  {
    if c.If? {
      var ls := Render(c) + rest;
      Assoc(RenderChain(c, true), [Break], rest);
      RoundTripChain(c, true, [Break] + rest);
      assert ReadChain(ls, true) == Some((c, [Break] + rest));
      assert ([Break] + rest)[1..] == rest;
      assert RenderChain(c, true)[0] == Open(true, c.test);
      assert ls[0] == Open(true, c.test);
    } else {
      assert Render(c) + rest == rest;
    }
  }

  lemma {:induction false} RoundTripChain(c: Code, first: bool, rest: seq<Line>)
    requires Shaped(c) && (first ==> !c.Throw?) && EndsBlock(rest)
    ensures ReadChain(RenderChain(c, first) + rest, first) == Some((c, rest))
    decreases c, 0
  {
    match c
    case Fall => assert RenderChain(c, first) + rest == rest;
    case Throw(id) => assert (RenderChain(c, first) + rest)[3..] == rest;
    case If(test, act, body, ret, els) =>
      var s5 := RenderChain(els, false);
      var afterBody := RenderRet(ret) + ([Close] + (s5 + rest));
      SplitBranch(c, first, rest);
      ReadActBack(act, Render(body) + afterBody);
      RoundTripBlock(body, afterBody);
      ReadRetBack(ret, [Close] + (s5 + rest));
      RoundTripChain(els, false, rest);
      ReadBranch(c, first, RenderAct(act) + (Render(body) + afterBody), Render(body) + afterBody, afterBody, s5 + rest, rest);
  }

  lemma SplitBranch(c: Code, first: bool, rest: seq<Line>)
    requires c.If?
    ensures RenderChain(c, first) + rest ==
            [Open(first, c.test)] + (RenderAct(c.act) + (Render(c.body) + (RenderRet(c.ret) + ([Close] + (RenderChain(c.els, false) + rest)))))
  {
    var s5 := RenderChain(c.els, false);
    var s4 := [Close] + s5;
    var s3 := RenderRet(c.ret) + s4;
    var s2 := Render(c.body) + s3;
    Assoc([Close], s5, rest);
    Assoc(RenderRet(c.ret), s4, rest);
    Assoc(Render(c.body), s3, rest);
    Assoc(RenderAct(c.act), s2, rest);
    Assoc([Open(first, c.test)], RenderAct(c.act) + s2, rest);
  }

  /** Reading a branch, given what reading each of its pieces yields. */
  lemma ReadBranch(c: Code, first: bool, l1: seq<Line>, l2: seq<Line>, l3: seq<Line>, l4: seq<Line>, rest: seq<Line>)
    requires c.If? && ReadAct(l1) == Some((c.act, l2)) && ReadBlock(l2) == Some((c.body, l3))
    requires ReadRet(l3) == (c.ret, [Close] + l4) && ReadChain(l4, false) == Some((c.els, rest))
    ensures ReadChain([Open(first, c.test)] + l1, first) == Some((c, rest))
  {
    assert ([Open(first, c.test)] + l1)[1..] == l1;
    assert ([Close] + l4)[1..] == l4;
  }

  lemma ReadActBack(a: Act, rest: seq<Line>)
    ensures ReadAct(RenderAct(a) + rest) == Some((a, rest))
  {
    var ls := RenderAct(a) + rest;
    match a
    case Take(s) => assert ls[2..] == rest;
    case Advance => assert ls[1..] == rest;
    case Call(r, s) => assert ls[1..] == rest;
  }

  lemma ReadRetBack(r: Option<Ret>, rest: seq<Line>)
    requires rest != [] && rest[0].Close?
    ensures ReadRet(RenderRet(r) + rest) == (r, rest)
  {
    var ls := RenderRet(r) + rest;
    if r.Some? { assert ls[1..] == rest; } else { assert ls == rest; }
  }

  function ReadFn(ls: seq<Line>): (r: Option<(Fn, seq<Line>)>)
    ensures r.Some? ==> |r.value.1| < |ls|
  {
    if |ls| < 2 || !ls[0].LookAheadFn? || ls[1] != ParseFn(ls[0].rule) then None
    else
      var body := ReadBlock(ls[2..]);
      if body.None? || body.value.1 == [] || !body.value.1[0].EndFn? then None
      else Some((Fn(ls[0].rule, ls[0].look, body.value.0), body.value.1[1..]))
  }

  function ReadAll(ls: seq<Line>): Option<seq<Fn>>
    decreases |ls|
  {
    if ls == [] then Some([])
    else
      var f := ReadFn(ls);
      if f.None? then None
      else
        var fns := ReadAll(f.value.1);
        if fns.None? then None else Some([f.value.0] + fns.value)
  }

  lemma ReadFnBack(f: Fn, rest: seq<Line>)
    requires ShapedFn(f)
    ensures ReadFn(RenderFn(f) + rest) == Some((f, rest))
  {
    var ls := RenderFn(f) + rest;
    var head := [LookAheadFn(f.name, f.look), ParseFn(f.name)];
    Assoc(head + Render(f.code), [EndFn], rest);
    Assoc(head, Render(f.code), [EndFn] + rest);
    RoundTripBlock(f.code, [EndFn] + rest);
    assert ls[2..] == Render(f.code) + ([EndFn] + rest);
    assert ([EndFn] + rest)[1..] == rest;
  }

  /** The text of a whole program determines the program. */
  lemma {:induction false} RoundTripAll(fns: seq<Fn>)
    requires forall f :: f in fns ==> ShapedFn(f)
    ensures ReadAll(RenderAll(fns)) == Some(fns)
  {
    if fns != [] {
      RoundTripAll(fns[1..]);
      ReadFnBack(fns[0], RenderAll(fns[1..]));
      assert RenderAll(fns) != [] && fns == [fns[0]] + fns[1..];
    }
  }
}
