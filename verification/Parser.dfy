/** What the generated parser does with a stream of tokens. */
module Parser {
  import opened Names
  import opened Tries
  import opened Grammars
  import opened Code

  datatype Token = Token(kind: Name, text: string)

  /** A constructed AST node, or a token stored in one. */
  datatype Val = Tok(token: Token) | Node(rule: Name, args: seq<Val>, tag: Name)

  /** `Fell`: control reached the end of the text without a return.
      `Stuck`: the text uses a name it has not declared. */
  datatype Res =
    | Done(v: Val, rest: seq<Token>)
    | Fell(left: seq<Token>)
    | Threw(id: nat, at: seq<Token>)
    | Stuck
    | OutOfFuel

  type Env = map<Name, Val>

  function Find(prog: seq<Fn>, n: Name): Option<Fn>
  {
    if prog == [] then None
    else if prog[0].name == n then Some(prog[0])
    else Find(prog[1..], n)
  }

  /** The test of a branch on the current token; at the end of the stream there is none. */
  predicate Passes(prog: seq<Fn>, test: Test, input: seq<Token>)
  {
    input != [] &&
    match test
    case TypeIs(k) => input[0].kind == k
    case LookAhead(r) => Find(prog, r).Some? && input[0].kind in Find(prog, r).value.look
  }

  datatype Step = Go(env: Env, rest: seq<Token>) | Halt(res: Res)

  function Perform(prog: seq<Fn>, act: Act, env: Env, input: seq<Token>, fuel: nat): Step
    requires input != []
    decreases fuel, 1
  {
    match act
    case Advance => Go(env, input[1..])
    case Take(s) => Go(env[s := Tok(input[0])], input[1..])
    case Call(r, s) =>
      match Parse(prog, r, input, fuel)
      case Done(v, rest) => Go(env[s := v], rest)
      case other => Halt(other)
  }

  /** What the lines written for an action do, one after the other. */
  function Statements(prog: seq<Fn>, lines: seq<Line>, env: Env, input: seq<Token>, fuel: nat): Step
    decreases fuel, 1, |lines|
  {
    if lines == [] then Go(env, input)
    else
      match lines[0]
      case DeclTok(s) =>
        if input == [] then Halt(Stuck) else Statements(prog, lines[1..], env[s := Tok(input[0])], input, fuel)
      case NextToken =>
        if input == [] then Halt(Stuck) else Statements(prog, lines[1..], env, input[1..], fuel)
      case DeclCall(r, s) =>
        (match Parse(prog, r, input, fuel)
         case Done(v, rest) => Statements(prog, lines[1..], env[s := v], rest, fuel)
         case other => Halt(other))
      case _ => Halt(Stuck)
  }

  /** The current token is stored before the next one is fetched, so that the lines do what the action means. */
  lemma LinesPerform(prog: seq<Fn>, act: Act, env: Env, input: seq<Token>, fuel: nat)
    requires input != []
    ensures Statements(prog, RenderAct(act), env, input, fuel) == Perform(prog, act, env, input, fuel)
  {
    var lines := RenderAct(act);
    assert [NextToken][1..] == [];
    match act
    case Advance =>
    case Take(s) =>
      var env' := env[s := Tok(input[0])];
      assert Statements(prog, [NextToken], env', input, fuel) == Go(env', input[1..]);
      assert lines[1..] == [NextToken];
    case Call(r, s) => assert lines[1..] == [];
  }

  /** A block of emitted code; declarations made inside it end with it. */
  function Exec(prog: seq<Fn>, c: Code, env: Env, input: seq<Token>, fuel: nat): Res
    decreases fuel, 2, c
  {
    match c
    case Fall => Fell(input)
    case Throw(id) => Threw(id, input)
    case If(test, act, body, ret, els) =>
      if !Passes(prog, test, input) then Exec(prog, els, env, input, fuel)
      else
        match Perform(prog, act, env, input, fuel)
        case Halt(res) => res
        case Go(env', rest) =>
          match Exec(prog, body, env', rest, fuel)
          case Fell(left) => (if ret.Some? then Construct(ret.value, env', left) else Fell(left))
          case other => other
  }

  function Construct(ret: Ret, env: Env, rest: seq<Token>): Res
  {
    if forall n :: n in ret.args ==> n in env then Done(Node(ret.rule, Args(env, ret.args), ret.tag), rest)
    else Stuck
  }

  function Args(env: Env, names: seq<Name>): seq<Val>
    requires forall n :: n in names ==> n in env
  {
    seq(|names|, i requires 0 <= i < |names| => env[names[i]])
  }

  /** A call of the parse function of `r`; each call costs one unit of fuel. */
  function Parse(prog: seq<Fn>, r: Name, input: seq<Token>, fuel: nat): Res
    decreases fuel, 0
  {
    if fuel == 0 then OutOfFuel
    else match Find(prog, r)
      case None => Stuck
      case Some(f) => Exec(prog, f.code, map[], input, fuel - 1)
  }

  /** More fuel never changes a result that was reached. */
  lemma {:induction false} MoreFuelParse(prog: seq<Fn>, r: Name, input: seq<Token>, fuel: nat, more: nat)
    requires fuel <= more && Parse(prog, r, input, fuel) != OutOfFuel
    ensures Parse(prog, r, input, more) == Parse(prog, r, input, fuel)
    decreases fuel, 0
  {
    if Find(prog, r).Some? {
      MoreFuelExec(prog, Find(prog, r).value.code, map[], input, fuel - 1, more - 1);
    }
  }

  lemma {:induction false} MoreFuelExec(prog: seq<Fn>, c: Code, env: Env, input: seq<Token>, fuel: nat, more: nat)
    requires fuel <= more && Exec(prog, c, env, input, fuel) != OutOfFuel
    ensures Exec(prog, c, env, input, more) == Exec(prog, c, env, input, fuel)
    decreases fuel, 2, c
  {
    if c.If? {
      if !Passes(prog, c.test, input) {
        MoreFuelExec(prog, c.els, env, input, fuel, more);
      } else {
        if c.act.Call? { MoreFuelParse(prog, c.act.rule, input, fuel, more); }
        var step := Perform(prog, c.act, env, input, fuel);
        assert Perform(prog, c.act, env, input, more) == step;
        if step.Go? { MoreFuelExec(prog, c.body, step.env, step.rest, fuel, more); }
      }
    }
  }

  // ---- derivations ----

  /** A derivation: a token, or a rule with the symbols of one alternative and a derivation of each. */
  datatype Tree = Leaf(tok: Token) | Inner(rule: Name, kids: Forest)

  datatype Forest = Empty | More(sym: Name, tree: Tree, next: Forest)

  function Yield(t: Tree): seq<Token>
  {
    match t
    case Leaf(tok) => [tok]
    case Inner(_, kids) => YieldAll(kids)
  }

  function YieldAll(f: Forest): seq<Token>
  {
    match f
    case Empty => []
    case More(_, t, next) => Yield(t) + YieldAll(next)
  }

  function Symbols(f: Forest): seq<Name>
  {
    match f
    case Empty => []
    case More(sym, _, next) => [sym] + Symbols(next)
  }

  /** Derivation in the grammar: every rule node uses one of the rule's alternatives. */
  ghost predicate Derives(g: Grammar, t: Tree)
  {
    t.Inner? ==>
      && (exists a :: a in Alternatives(g.rules, t.rule) && NamesOf(a) == Symbols(t.kids))
      && DerivesAll(g, t.kids)
  }

  ghost predicate DerivesAll(g: Grammar, f: Forest)
  {
    f.More? ==>
      && (if f.sym in RuleNames(g) then f.tree.Inner? && f.tree.rule == f.sym
          else f.tree.Leaf? && f.tree.tok.kind == f.sym)
      && Derives(g, f.tree)
      && DerivesAll(g, f.next)
  }

  /** What the code reads at a trie: like a derivation, except that a part the code does not turn
      into a call is read as one single token of its FIRST set. */
  ghost predicate Reads(g: Grammar, t: Trie, f: Forest)
    requires NoEmptyAlternative(g)
    decreases f, 1
  {
    match f
    case Empty => t.value.Some?
    case More(sym, tree, next) =>
      && Lookup(t.kids, sym).Some?
      && Fits(g, Lookup(t.kids, sym).value.0, tree)
      && Reads(g, Lookup(t.kids, sym).value.1, next)
  }

  ghost predicate Fits(g: Grammar, p: Part, tree: Tree)
    requires NoEmptyAlternative(g)
    decreases tree, 0
  {
    if IsCall(g, p) then tree.Inner? && tree.rule == p.name && Reads(g, TrieOf(g, tree.rule), tree.kids)
    else tree.Leaf? && Starts(g, p.name, tree.tok.kind)
  }

  /** The AST the code builds for what it has read. */
  ghost function Ast(g: Grammar, tree: Tree): Val
    requires NoEmptyAlternative(g)
    requires tree.Inner? ==> Reads(g, TrieOf(g, tree.rule), tree.kids)
    decreases tree, 0
  {
    match tree
    case Leaf(tok) => Tok(tok)
    case Inner(rule, kids) => AstAlong(g, rule, TrieOf(g, rule), kids, map[], [])
  }

  ghost function AstAlong(g: Grammar, rule: Name, t: Trie, f: Forest, env: Env, names: seq<Name>): Val
    requires NoEmptyAlternative(g) && Reads(g, t, f)
    requires forall n :: n in names ==> n in env
    decreases f, 1
  {
    match f
    case Empty => Node(rule, Args(env, names), t.value.value)
    case More(sym, tree, next) =>
      var (p, s) := Lookup(t.kids, sym).value;
      assert Fits(g, p, tree);
      AstAlong(g, rule, s, next, Bind(g, p, env, Ast(g, tree)), Push(g, names, p))
  }

  function Bind(g: Grammar, p: Part, env: Env, v: Val): Env
  {
    if Pushes(g, p) then env[p.storeName := v] else env
  }
}
