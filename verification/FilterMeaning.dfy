/**
  The filters that clients send: comparisons joined by and, whose operands are identifiers, literals
  or bracketed filters. Parsing and then evaluating one gives exactly its meaning, with the conjuncts
  taken from left to right and the first fault or failing conjunct deciding.
 */
module FilterMeaning {
  import opened FilterGrammar
  import opened FilterValue

  datatype Operand = Leaf(atom: Atom) | Paren(body: Expr)

  datatype Term = Plain(operand: Operand) | Compare(op: string, left: Operand, right: Operand)

  datatype Chain = One(term: Term) | And(init: Chain, word: string, last: Term)

  /** A bracket may also hold one arithmetic operation, as in (1 & mask) = mask. */
  datatype Expr = Filter(chain: Chain) | Arithmetic(op: string, left: Operand, right: Operand)

  // ----- Operators of the right level -----

  predicate GoodOperand(o: Operand) {
    o.Paren? ==> GoodExpr(o.body)
  }

  predicate GoodTerm(t: Term) {
    match t
    case Plain(o) => GoodOperand(o)
    case Compare(op, l, r) => Level(op) == 3 && GoodOperand(l) && GoodOperand(r)
  }

  predicate GoodChain(c: Chain) {
    match c
    case One(t) => GoodTerm(t)
    case And(init, word, t) => GoodChain(init) && Level(word) == 2 && GoodTerm(t)
  }

  predicate GoodExpr(e: Expr) {
    match e
    case Filter(c) => GoodChain(c)
    case Arithmetic(op, l, r) => Level(op) >= 4 && GoodOperand(l) && GoodOperand(r)
  }

  // ----- Written form -----

  function OperandTokens(o: Operand): seq<Token> {
    match o
    case Leaf(atom) => [Value(atom)]
    case Paren(body) => [Open] + ExprTokens(body) + [Close]
  }

  function TermTokens(t: Term): seq<Token> {
    match t
    case Plain(o) => OperandTokens(o)
    case Compare(op, l, r) => OperandTokens(l) + [Op(op)] + OperandTokens(r)
  }

  function ChainTokens(c: Chain): seq<Token> {
    match c
    case One(t) => TermTokens(t)
    case And(init, word, t) => ChainTokens(init) + [Op(word)] + TermTokens(t)
  }

  function ExprTokens(e: Expr): seq<Token> {
    match e
    case Filter(c) => ChainTokens(c)
    case Arithmetic(op, l, r) => OperandTokens(l) + [Op(op)] + OperandTokens(r)
  }

  // ----- Meaning -----

  function Stands(env: Env, o: Operand): Outcome<string>
    decreases o
  {
    match o
    case Leaf(Number(x)) => Ok(FormatInt(x))
    case Leaf(Identity(name)) => Ok(env.Get(name))
    case Leaf(Text(text)) => Ok(text)
    case Paren(body) => var x :- Means(env, body); Ok(FormatInt(x))
  }

  function Counts(env: Env, o: Operand): Outcome<int>
    decreases o
  {
    match o
    case Leaf(Number(x)) => Ok(x)
    case Leaf(Identity(name)) => ParseInt(env.Get(name))
    case Leaf(Text(text)) => ParseInt(text)
    case Paren(body) => Means(env, body)
  }

  /** Mario Kart Wii searches override comparisons of these values. */
  predicate Overridden(env: Env, o: Operand, names: seq<string>) {
    env.queryGame == MARIO_KART_WII && o.Leaf? && o.atom.Identity? && o.atom.name in names
  }

  /** Equality compares texts, order compares numbers; both sides must have a value. */
  function Compares(env: Env, t: Term): Outcome<bool>
    requires t.Compare?
    decreases t, 0
  {
    var o := Lower(t.op);
    if o in ["=", "=="] && Overridden(env, t.left, ["rk"]) then
      var y :- Stands(env, t.right);
      Ok(RegionFree(env.Get("rk")) == RegionFree(y))
    else if o in ["=", "==", "!="] then
      var x :- Stands(env, t.left);
      var y :- Stands(env, t.right);
      Ok((x == y) == (o != "!="))
    else if Overridden(env, t.left, ["ev", "eb"]) then Ok(true)
    else
      var x :- Counts(env, t.left);
      var y :- Counts(env, t.right);
      Ok(if o == ">" then x > y else if o == "<" then x < y else if o == ">=" then x >= y else x <= y)
  }

  function TermHolds(env: Env, t: Term): Outcome<bool>
    decreases t, 1
  {
    match t
    case Compare(_, _, _) => Compares(env, t)
    case Plain(Leaf(_)) => var s :- Stands(env, t.operand); Ok(s != "0")
    case Plain(Paren(body)) => var x :- Means(env, body); Ok(x != 0)
  }

  function ChainHolds(env: Env, c: Chain): Outcome<bool>
    decreases c
  {
    match c
    case One(t) => TermHolds(env, t)
    case And(init, _, t) =>
      var b :- ChainHolds(env, init);
      if b then TermHolds(env, t) else Ok(false)
  }

  function Means(env: Env, e: Expr): Outcome<int>
    decreases e
  {
    match e
    case Filter(One(Plain(o))) => Counts(env, o)
    case Filter(c) => var b :- ChainHolds(env, c); Ok(Truth(b))
    case Arithmetic(op, l, r) =>
      if !IsMath(Lower(op)) then Fault
      else if Overridden(env, l, ["ev", "eb"]) then Ok(1)
      else
        var x :- Counts(env, l);
        var y :- Counts(env, r);
        Ok(MathOp(Lower(op), x, y))
  }

  // ----- The tree that the parser builds -----

  function OperandTree(o: Operand): Tree {
    match o
    case Leaf(atom) => Node(FilterGrammar.Operand(atom), [])
    case Paren(body) => Node(Group, [ExprTree(body)])
  }

  function TermTree(t: Term): Tree {
    match t
    case Plain(o) => OperandTree(o)
    case Compare(op, l, r) => Node(Operator(op), [OperandTree(l), OperandTree(r)])
  }

  /** The parser is still on the and-node when the last conjunct was a single operand. */
  predicate Merges(init: Chain, word: string) {
    init.And? && init.word == word && init.last.Plain?
  }

  function ChainTree(c: Chain): (t: Tree)
    ensures c.And? ==> t.kind == Operator(c.word) && |t.items| >= 2 && Last(t.items) == TermTree(c.last)
  {
    match c
    case One(t) => TermTree(t)
    case And(init, word, t) =>
      Node(Operator(word), (if Merges(init, word) then ChainTree(init).items else [ChainTree(init)]) + [TermTree(t)])
  }

  function ExprTree(e: Expr): Tree {
    match e
    case Filter(c) => ChainTree(c)
    case Arithmetic(op, l, r) => Node(Operator(op), [OperandTree(l), OperandTree(r)])
  }

  // ----- Parsing -----

  /** A place where a filter may start: the root or a group that is still empty. */
  predicate Fresh(base: Spine) {
    !Last(base).kind.Operator? && Last(base).left == []
  }

  function OpenNode(base: Spine, t: Tree): Spine {
    base + [Frame(t.kind, t.items)]
  }

  /** The spine after a chain: a lone operand is finished, anything else leaves its node open. */
  function AfterChain(base: Spine, c: Chain): Spine {
    match c
    case One(Plain(o)) => AddTree(base, OperandTree(o))
    case One(t) => OpenNode(base, TermTree(t))
    case And(_, _, Plain(_)) => OpenNode(base, ChainTree(c))
    case And(_, word, t) => OpenNode(base + [Frame(Operator(word), Front(ChainTree(c).items))], TermTree(t))
  }

  function AfterExpr(base: Spine, e: Expr): Spine {
    match e
    case Filter(c) => AfterChain(base, c)
    case Arithmetic(_, _, _) => OpenNode(base, ExprTree(e))
  }

  lemma {:induction false} OperandParses(s: Spine, o: Operand)
    requires GoodOperand(o)
    ensures Run(Parsing(s, ValuePart), OperandTokens(o)) == Parsing(AddTree(s, OperandTree(o)), OperatorPart)
    decreases o
  {
    var p := Parsing(s, ValuePart);
    match o
    case Leaf(atom) =>
      assert [Value(atom)] == [] + [Value(atom)];
      RunSnoc(p, [], Value(atom));
    case Paren(body) =>
      var base := s + [Frame(Group, [])];
      RunSnoc(p, [], Open);
      assert [Open] == [] + [Open];
      ExprParses(base, body);
      RunAppend(p, [Open], ExprTokens(body));
      RunSnoc(p, [Open] + ExprTokens(body), Close);
      CloseSettles(base, body);
      assert Front(base) == s;
  }

  lemma {:induction false} PushesOperator(s: Spine, t: Tree, op: string)
    requires Level(op) >= 0
    requires Last(s).kind.Operator? ==> Level(op) > Level(Last(s).kind.op)
    ensures ParseOperator(AddTree(s, t), op) == Parsing(s + [Frame(Operator(op), [t])], ValuePart)
  {
    var f := Last(s);
    assert Front(f.left + [t]) == f.left && Front(AddTree(s, t)) == Front(s);
    assert s == Front(s) + [f];
  }

  lemma {:induction false} AddsToOpen(base: Spine, f: Frame, t: Tree)
    ensures AddTree(base + [f], t) == base + [Frame(f.kind, f.left + [t])]
  {
    assert Front(base + [f]) == base;
  }

  function Half(op: string, l: Operand): Frame {
    Frame(Operator(op), [OperandTree(l)])
  }

  /** A comparison or an arithmetic operation, where the place binds less tightly. */
  lemma {:induction false} BinaryParses(base: Spine, op: string, l: Operand, r: Operand)
    requires Level(op) >= 0
    requires Last(base).kind.Operator? ==> Level(op) > Level(Last(base).kind.op)
    requires Run(Parsing(base, ValuePart), OperandTokens(l)) == Parsing(AddTree(base, OperandTree(l)), OperatorPart)
    requires Run(Parsing(base + [Half(op, l)], ValuePart), OperandTokens(r))
          == Parsing(AddTree(base + [Half(op, l)], OperandTree(r)), OperatorPart)
    ensures Run(Parsing(base, ValuePart), OperandTokens(l) + [Op(op)] + OperandTokens(r))
         == Parsing(OpenNode(base, Node(Operator(op), [OperandTree(l), OperandTree(r)])), OperatorPart)
  {
    var p := Parsing(base, ValuePart);
    RunSnoc(p, OperandTokens(l), Op(op));
    PushesOperator(base, OperandTree(l), op);
    RunAppend(p, OperandTokens(l) + [Op(op)], OperandTokens(r));
    AddsToOpen(base, Half(op, l), OperandTree(r));
    assert [OperandTree(l)] + [OperandTree(r)] == [OperandTree(l), OperandTree(r)];
  }

  lemma {:induction false} OpenAscends(base: Spine, t: Tree)
    ensures Ascend(OpenNode(base, t)) == AddTree(base, t)
  {
    assert Front(OpenNode(base, t)) == base;
  }

  lemma {:induction false} WordAfterComparison(base: Spine, c: Chain, word: string)
    requires Fresh(base) && GoodChain(c) && c.And? && c.last.Compare? && Level(word) == 2
    ensures ParseOperator(AfterChain(base, c), word) == Parsing(base + [Frame(Operator(word), [ChainTree(c)])], ValuePart)
  {
    var s := AfterChain(base, c);
    var up := base + [Frame(Operator(c.word), Front(ChainTree(c).items))];
    OpenAscends(up, TermTree(c.last));
    AddsToOpen(base, Last(up), TermTree(c.last));
    assert Ascend(s) == OpenNode(base, ChainTree(c));
    assert s[|s| - 2] == Last(up) && Ascend(s)[|s| - 3] == Last(base);
    assert Climb(s) == Ascend(s);
    assert Front(Ascend(s)) == base;
  }

  /** An and-word where one operator node is open: it joins a node of its own and pushes any other. */
  lemma {:induction false} WordAfterNode(base: Spine, t: Tree, word: string)
    requires Fresh(base) && t.kind.Operator? && Level(t.kind.op) >= Level(word) == 2
    ensures ParseOperator(OpenNode(base, t), word)
         == Parsing(if t.kind.op == word then OpenNode(base, t) else base + [Frame(Operator(word), [t])], ValuePart)
  {
    var s := OpenNode(base, t);
    assert Front(s) == base && s[|s| - 2] == Last(base);
    assert Climb(s) == s;
    assert Closed(Last(s)) == t;
  }

  /** The next and-word joins the open and-node or takes all that came before as its first child. */
  lemma {:induction false} WordParses(base: Spine, init: Chain, word: string)
    requires Fresh(base) && GoodChain(init) && Level(word) == 2
    ensures ParseOperator(AfterChain(base, init), word) == Parsing(base + [Joined(init, word)], ValuePart)
  {
    var s := AfterChain(base, init);
    match init
    case One(Plain(o)) => PushesOperator(base, OperandTree(o), word);
    case One(Compare(_, _, _)) => WordAfterNode(base, TermTree(init.term), word);
    case And(_, w, Plain(_)) => WordAfterNode(base, ChainTree(init), word);
    case And(_, w, Compare(_, _, _)) => WordAfterComparison(base, init, word);
  }

  /** The open and-node, ready for the next conjunct. */
  function Joined(init: Chain, word: string): Frame {
    Frame(Operator(word), if Merges(init, word) then ChainTree(init).items else [ChainTree(init)])
  }

  lemma {:induction false} AfterConjunct(base: Spine, init: Chain, word: string, t: Term)
    ensures AfterChain(base, And(init, word, t))
         == if t.Plain? then AddTree(base + [Joined(init, word)], TermTree(t)) else OpenNode(base + [Joined(init, word)], TermTree(t))
  {
    var f := Joined(init, word);
    assert Front(f.left + [TermTree(t)]) == f.left;
    AddsToOpen(base, f, TermTree(t));
  }

  /** One more and-word and conjunct, given how what is before and the conjunct itself parse. */
  lemma {:induction false} ConjunctParses(base: Spine, init: Chain, word: string, t: Term)
    requires Fresh(base) && GoodChain(init) && Level(word) == 2
    requires Run(Parsing(base, ValuePart), ChainTokens(init)) == Parsing(AfterChain(base, init), OperatorPart)
    requires var open := base + [Joined(init, word)];
             var after := if t.Plain? then AddTree(open, TermTree(t)) else OpenNode(open, TermTree(t));
             Run(Parsing(open, ValuePart), TermTokens(t)) == Parsing(after, OperatorPart)
    ensures Run(Parsing(base, ValuePart), ChainTokens(And(init, word, t))) == Parsing(AfterChain(base, And(init, word, t)), OperatorPart)
  {
    var p := Parsing(base, ValuePart);
    WordParses(base, init, word);
    RunSnoc(p, ChainTokens(init), Op(word));
    RunAppend(p, ChainTokens(init) + [Op(word)], TermTokens(t));
    AfterConjunct(base, init, word, t);
  }

  lemma {:induction false} ChainParses(base: Spine, c: Chain)
    requires Fresh(base) && GoodChain(c)
    ensures Run(Parsing(base, ValuePart), ChainTokens(c)) == Parsing(AfterChain(base, c), OperatorPart)
    decreases c, 2
  {
    match c
    case One(t) => TermParses(base, t);
    case And(init, word, t) =>
      ChainParses(base, init);
      TermParses(base + [Joined(init, word)], t);
      ConjunctParses(base, init, word, t);
  }

  lemma {:induction false} TermParses(base: Spine, t: Term)
    requires GoodTerm(t)
    requires Last(base).kind.Operator? ==> Level(Last(base).kind.op) < 3
    ensures Run(Parsing(base, ValuePart), TermTokens(t))
         == Parsing(if t.Plain? then AddTree(base, TermTree(t)) else OpenNode(base, TermTree(t)), OperatorPart)
    decreases t, 1
  {
    match t
    case Plain(o) => OperandParses(base, o);
    case Compare(op, l, r) =>
      OperandParses(base, l);
      OperandParses(base + [Half(op, l)], r);
      BinaryParses(base, op, l, r);
  }

  lemma {:induction false} ExprParses(base: Spine, e: Expr)
    requires Fresh(base) && GoodExpr(e)
    ensures Run(Parsing(base, ValuePart), ExprTokens(e)) == Parsing(AfterExpr(base, e), OperatorPart)
    decreases e, 3
  {
    match e
    case Filter(c) => ChainParses(base, c);
    case Arithmetic(op, l, r) =>
      OperandParses(base, l);
      OperandParses(base + [Half(op, l)], r);
      BinaryParses(base, op, l, r);
  }

  /** Leaving every node the filter opened adds its tree to the place where it started. */
  lemma {:induction false} ExprSettles(base: Spine, e: Expr)
    requires GoodExpr(e)
    ensures var s := AfterExpr(base, e);
            || s == AddTree(base, ExprTree(e))
            || (|s| == |base| + 1 && Last(s).kind.Operator? && Ascend(s) == AddTree(base, ExprTree(e)))
            || (|s| == |base| + 2 && Last(s).kind.Operator? && Last(Ascend(s)).kind.Operator?
                && Ascend(Ascend(s)) == AddTree(base, ExprTree(e)))
  {
    var s, tree := AfterExpr(base, e), ExprTree(e);
    if e.Filter? && e.chain.And? && e.chain.last.Compare? {
      var c := e.chain;
      var up := base + [Frame(Operator(c.word), Front(tree.items))];
      OpenAscends(up, TermTree(c.last));
      AddsToOpen(base, Last(up), TermTree(c.last));
      assert Ascend(s) == OpenNode(base, tree);
      OpenAscends(base, tree);
    } else if s != AddTree(base, tree) {
      OpenAscends(base, tree);
    }
  }

  lemma {:induction false} CloseSettles(base: Spine, e: Expr)
    requires GoodExpr(e) && |base| > 1 && Last(base) == Frame(Group, [])
    ensures ParseClose(AfterExpr(base, e)) == Parsing(AddTree(Front(base), Node(Group, [ExprTree(e)])), OperatorPart)
  {
    ExprSettles(base, e);
    var added := AddTree(base, ExprTree(e));
    assert Front(added) == Front(base) && Last(added) == Frame(Group, [ExprTree(e)]);
    assert ParseClose(added) == Parsing(Ascend(added), OperatorPart);
  }

  lemma {:induction false} ParsesTo(e: Expr)
    requires GoodExpr(e)
    ensures Parse(ExprTokens(e)) == Accepted(Node(Base, [ExprTree(e)]))
  {
    var base: Spine := START.spine;
    ExprParses(base, e);
    ExprSettles(base, e);
    var s := AfterExpr(base, e);
    assert Front(base) == [] && Last(base) == Frame(Base, []) && [] + [ExprTree(e)] == [ExprTree(e)];
    var added := AddTree(base, ExprTree(e));
    assert added == [Frame(Base, [ExprTree(e)])];
    if |s| == 3 { assert Collapse(Ascend(s)) == Collapse(added); }
    assert Collapse(s) == Collapse(added);
  }

  // ----- Evaluation -----

  lemma {:induction false} DigitsZero(n: nat)
    ensures Digits(n) == "0" <==> n == 0
    ensures |Digits(n)| >= 1 && Digits(n)[0] in DIGITS
  {
    if n >= 10 { DigitsZero(n / 10); }
  }

  lemma {:induction false} FormatZero(x: int)
    ensures FormatInt(x) == "0" <==> x == 0
  {
    DigitsZero(if x < 0 then -x else x);
  }

  /** The text of a conjunct is "0" exactly when the conjunct fails. */
  predicate Agrees(s: Outcome<string>, b: Outcome<bool>) {
    (s.Ok? <==> b.Ok?) && (s.Fault? <==> b.Fault?) && (b.Ok? ==> (s.value != "0" <==> b.value))
  }

  function Signal(b: Outcome<bool>): Outcome<int> {
    var x :- b;
    Ok(Truth(x))
  }

  lemma {:induction false} OperandEvaluates(env: Env, o: Operand)
    requires GoodOperand(o)
    ensures GetString(env, OperandTree(o)) == Stands(env, o)
    ensures GetNumber(env, OperandTree(o)) == Counts(env, o)
    decreases o, 0
  {
    if o.Paren? { ExprEvaluates(env, o.body, OperandTree(o)); }
  }

  lemma {:induction false} CompareEvaluates(env: Env, t: Term)
    requires GoodTerm(t) && t.Compare?
    ensures SwitchFunction(env, TermTree(t)) == Signal(Compares(env, t))
    decreases t, 0
  {
    OperandEvaluates(env, t.left);
    OperandEvaluates(env, t.right);
    var tree, o := TermTree(t), Lower(t.op);
    assert tree.items[0] == OperandTree(t.left) && tree.items[1] == OperandTree(t.right);
    if o in ["=", "=="] && Overridden(env, t.left, ["rk"]) {
      assert IsIdentity(tree.items[0], ["rk"]);
    } else if o == "=" || o == "==" {
      if Stands(env, t.left).Ok? { AllCompareOne(env, tree, Stands(env, t.left).value, true); }
    } else if o == "!=" {
      if Stands(env, t.left).Ok? { AllCompareOne(env, tree, Stands(env, t.left).value, false); }
    } else if Overridden(env, t.left, ["ev", "eb"]) {
      assert IsIdentity(tree.items[0], ["ev", "eb"]);
    } else if Counts(env, t.left).Ok? {
      FoldMathOne(env, tree, o, Counts(env, t.left).value);
    }
  }

  lemma {:induction false} AllCompareOne(env: Env, t: Tree, first: string, equal: bool)
    requires |t.items| == 2
    ensures AllCompare(env, t, first, equal, 1)
         == (var s :- GetString(env, t.items[1]); Ok(Truth((first == s) == equal)))
  {
    assert AllCompare(env, t, first, equal, 2) == Ok(1);
  }

  lemma {:induction false} FoldMathOne(env: Env, t: Tree, op: string, acc: int)
    requires |t.items| == 2
    ensures FoldMath(env, t, op, acc, 1)
         == (var x :- GetNumber(env, t.items[1]); Ok(MathOp(op, acc, x)))
  {
    var next: nat := 2;
    assert forall a :: FoldMath(env, t, op, a, next) == Ok(a);
  }

  lemma {:induction false} TermEvaluates(env: Env, t: Term)
    requires GoodTerm(t)
    ensures Agrees(GetString(env, TermTree(t)), TermHolds(env, t))
    decreases t, 1
  {
    match t
    case Compare(_, _, _) =>
      CompareEvaluates(env, t);
      FormatZero(0);
      FormatZero(1);
    case Plain(o) =>
      OperandEvaluates(env, o);
      if o.Paren? && Means(env, o.body).Ok? { FormatZero(Means(env, o.body).value); }
  }

  /** Testing one more operand at the end. */
  lemma {:induction false} AllTrueSnoc(env: Env, kind: Kind, items: seq<Tree>, t: Tree, i: nat)
    requires i <= |items|
    ensures AllTrue(env, Node(kind, items + [t]), i)
         == (var v :- AllTrue(env, Node(kind, items), i);
             if v == 0 then Ok(0) else var s :- GetString(env, t); Ok(Truth(s != "0")))
    decreases |items| - i
  {
    var longer := Node(kind, items + [t]);
    if i == |items| {
      assert longer.items[i] == t;
      assert AllTrue(env, longer, i + 1) == Ok(1);
    } else {
      assert longer.items[i] == items[i];
      AllTrueSnoc(env, kind, items, t, i + 1);
    }
  }

  /** The conjuncts read so far, tested on the open and-node. */
  lemma {:induction false} JoinedEvaluates(env: Env, init: Chain, word: string)
    requires GoodChain(init) && Level(word) == 2
    requires Agrees(GetString(env, ChainTree(init)), ChainHolds(env, init))
    requires init.And? ==> SwitchFunction(env, ChainTree(init)) == Signal(ChainHolds(env, init))
    ensures AllTrue(env, Closed(Joined(init, word)), 0) == Signal(ChainHolds(env, init))
  {
    var node := Closed(Joined(init, word));
    if Merges(init, word) {
      assert node == ChainTree(init);
    } else {
      assert node.items == [] + [ChainTree(init)];
      AllTrueSnoc(env, node.kind, [], ChainTree(init), 0);
    }
  }

  lemma {:induction false} ChainEvaluates(env: Env, c: Chain)
    requires GoodChain(c)
    ensures Agrees(GetString(env, ChainTree(c)), ChainHolds(env, c))
    ensures c.And? ==> SwitchFunction(env, ChainTree(c)) == Signal(ChainHolds(env, c))
    decreases c, 2
  {
    match c
    case One(t) => TermEvaluates(env, t);
    case And(init, word, t) =>
      ChainEvaluates(env, init);
      JoinedEvaluates(env, init, word);
      TermEvaluates(env, t);
      AndEvaluates(env, init, word, t);
  }

  lemma {:induction false} AndEvaluates(env: Env, init: Chain, word: string, t: Term)
    requires Level(word) == 2
    requires AllTrue(env, Closed(Joined(init, word)), 0) == Signal(ChainHolds(env, init))
    requires Agrees(GetString(env, TermTree(t)), TermHolds(env, t))
    ensures var c := And(init, word, t);
            && SwitchFunction(env, ChainTree(c)) == Signal(ChainHolds(env, c))
            && Agrees(GetString(env, ChainTree(c)), ChainHolds(env, c))
  {
    var f := Joined(init, word);
    var tree := ChainTree(And(init, word, t));
    assert tree == Node(f.kind, f.left + [TermTree(t)]);
    AllTrueSnoc(env, f.kind, f.left, TermTree(t), 0);
    assert SwitchFunction(env, tree) == AllTrue(env, tree, 0);
    FormatZero(0);
    FormatZero(1);
  }

  lemma {:induction false} MathEvaluates(env: Env, op: string, l: Operand, r: Operand, tree: Tree)
    requires tree == Node(Operator(op), [OperandTree(l), OperandTree(r)]) && IsMath(Lower(op))
    requires GetNumber(env, OperandTree(l)) == Counts(env, l) && GetNumber(env, OperandTree(r)) == Counts(env, r)
    ensures SwitchFunction(env, tree)
         == if Overridden(env, l, ["ev", "eb"]) then Ok(1)
            else (var x :- Counts(env, l); var y :- Counts(env, r); Ok(MathOp(Lower(op), x, y)))
  {
    assert IsIdentity(OperandTree(l), ["ev", "eb"]) <==> l.Leaf? && l.atom.Identity? && l.atom.name in ["ev", "eb"];
    if Counts(env, l).Ok? { FoldMathOne(env, tree, Lower(op), Counts(env, l).value); }
  }

  lemma {:induction false} ArithmeticEvaluates(env: Env, op: string, l: Operand, r: Operand)
    requires Level(op) >= 4
    requires GetNumber(env, OperandTree(l)) == Counts(env, l) && GetNumber(env, OperandTree(r)) == Counts(env, r)
    ensures SwitchFunction(env, ExprTree(Arithmetic(op, l, r))) == Means(env, Arithmetic(op, l, r))
  {
    if IsMath(Lower(op)) {
      MathEvaluates(env, op, l, r, ExprTree(Arithmetic(op, l, r)));
    }
  }

  lemma {:induction false} ExprEvaluates(env: Env, e: Expr, holder: Tree)
    requires GoodExpr(e) && holder.items == [ExprTree(e)]
    ensures Eval(env, holder) == Means(env, e)
    decreases e, 3
  {
    var item := holder.items[0];
    match e
    case Filter(One(Plain(o))) =>
      assert GoodTerm(e.chain.term);
      OperandEvaluates(env, o);
      assert item == ChainTree(e.chain) == TermTree(e.chain.term) == OperandTree(o);
    case Filter(One(Compare(op, l, r))) =>
      CompareEvaluates(env, e.chain.term);
      assert item == ChainTree(e.chain) == TermTree(e.chain.term);
      assert ChainHolds(env, e.chain) == TermHolds(env, e.chain.term);
    case Filter(And(_, _, _)) =>
      ChainEvaluates(env, e.chain);
      assert item == ChainTree(e.chain);
    case Arithmetic(op, l, r) =>
      OperandEvaluates(env, l);
      OperandEvaluates(env, r);
      ArithmeticEvaluates(env, op, l, r);
  }

  // ----- Main results -----

  /** Parsing and then evaluating a filter gives its meaning, faults included. */
  lemma {:induction false} ParseEval(env: Env, e: Expr)
    requires GoodExpr(e)
    ensures Parse(ExprTokens(e)).Accepted? && Eval(env, Parse(ExprTokens(e)).tree) == Means(env, e)
  {
    ParsesTo(e);
    ExprEvaluates(env, e, Node(Base, [ExprTree(e)]));
  }

  function Conjuncts(c: Chain): seq<Term> {
    match c
    case One(t) => [t]
    case And(init, _, t) => Conjuncts(init) + [t]
  }

  ghost predicate AllHold(env: Env, c: Chain) {
    forall t :: t in Conjuncts(c) ==> TermHolds(env, t) == Ok(true)
  }

  lemma {:induction false} ChainIsConjunction(env: Env, c: Chain)
    ensures ChainHolds(env, c) == Ok(true) <==> AllHold(env, c)
  {
    match c
    case One(t) =>
      assert Conjuncts(c) == [t] && t in Conjuncts(c);
    case And(init, _, last) =>
      assert forall t :: t in Conjuncts(c) <==> t in Conjuncts(init) || t == last;
      ChainIsConjunction(env, init);
  }

  /** From left to right, the first conjunct that does not hold decides: it fails or has no value. */
  lemma {:induction false} FirstDecides(env: Env, c: Chain, k: nat)
    requires k < |Conjuncts(c)| && TermHolds(env, Conjuncts(c)[k]) != Ok(true)
    requires forall j :: 0 <= j < k ==> TermHolds(env, Conjuncts(c)[j]) == Ok(true)
    ensures ChainHolds(env, c) == TermHolds(env, Conjuncts(c)[k])
  {
    if c.And? {
      assert forall j :: 0 <= j < |Conjuncts(c.init)| ==> Conjuncts(c)[j] == Conjuncts(c.init)[j];
      if k < |Conjuncts(c.init)| {
        FirstDecides(env, c.init, k);
      } else {
        forall t | t in Conjuncts(c.init)
          ensures TermHolds(env, t) == Ok(true)
        {
          var j :| 0 <= j < |Conjuncts(c.init)| && Conjuncts(c.init)[j] == t;
          assert Conjuncts(c)[j] == t;
        }
        ChainIsConjunction(env, c.init);
      }
    }
  }

  /** A filter that is one bare operand counts by its number, any other by its conjuncts. */
  ghost predicate Accepts(env: Env, c: Chain) {
    if c.One? && c.term.Plain? then
      var x := Counts(env, c.term.operand);
      x.Ok? && x.value != 0
    else AllHold(env, c)
  }

  /** A filter accepts a server exactly when every conjunct holds, whatever spelling joins them and
      however the parser nested or merged the and-nodes. */
  lemma {:induction false} FilterAccepts(env: Env, c: Chain)
    requires GoodChain(c)
    ensures Parse(ChainTokens(c)).Accepted?
    ensures var r := Eval(env, Parse(ChainTokens(c)).tree);
            r.Ok? && r.value != 0 <==> Accepts(env, c)
  {
    ParseEval(env, Filter(c));
    ChainIsConjunction(env, c);
  }
}
