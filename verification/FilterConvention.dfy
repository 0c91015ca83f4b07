/**
  What a filter of any operators means by its conventional reading, with every operator applied to two
  operands, and that evaluating the parser's tree gives that value.
 */
module FilterConvention {
  import opened FilterGrammar
  import opened FilterReading
  import opened FilterValue
  import FilterMeaning
  import FilterPrecedence

  // ----- The value of a reading -----

  /** Mario Kart Wii searches override operators that start with these values. */
  predicate Overridden(env: Env, e: Expr, names: seq<string>) {
    env.queryGame == MARIO_KART_WII && e.Leaf? && e.atom.Identity? && e.atom.name in names
  }

  function TextOf(env: Env, e: Expr): Outcome<string>
    decreases e, 1
  {
    match e
    case Leaf(Number(x)) => Ok(FormatInt(x))
    case Leaf(Identity(name)) => Ok(env.Get(name))
    case Leaf(Text(text)) => Ok(text)
    case _ => var x :- Means(env, e); Ok(FormatInt(x))
  }

  function Means(env: Env, e: Expr): Outcome<int>
    decreases e, 0
  {
    match e
    case Leaf(Number(x)) => Ok(x)
    case Leaf(Identity(name)) => ParseInt(env.Get(name))
    case Leaf(Text(text)) => ParseInt(text)
    case Paren(body) => Means(env, body)
    case Binary(op, l, r) =>
      var o := Lower(op);
      if o in ["=", "=="] && Overridden(env, l, ["rk"]) then
        var y :- TextOf(env, r);
        Ok(Truth(RegionFree(env.Get("rk")) == RegionFree(y)))
      else if o in ["=", "==", "!="] then
        var x :- TextOf(env, l);
        var y :- TextOf(env, r);
        Ok(Truth((x == y) == (o != "!=")))
      else if IsMath(o) then
        if Overridden(env, l, ["ev", "eb"]) then Ok(1)
        else
          var x :- Means(env, l);
          var y :- Means(env, r);
          Ok(MathOp(o, x, y))
      else if o in ["and", "&&"] then
        var x :- TextOf(env, l);
        if x == "0" then Ok(0)
        else
          var y :- TextOf(env, r);
          Ok(Truth(y != "0"))
      else if o in ["or", "||"] then
        var x :- TextOf(env, l);
        if x != "0" then Ok(1)
        else
          var y :- TextOf(env, r);
          Ok(Truth(y != "0"))
      else if o == "like" then
        var x :- TextOf(env, l);
        var y :- TextOf(env, r);
        env.like(x, y)
      else Fault
  }

  // ----- Runs that the evaluator takes together -----

  /** Taking `e op r` together with the operation `e` before it makes no difference. */
  predicate Regular(env: Env, op: string, e: Expr) {
    Joins(op, e) ==>
      Lower(op) !in ["=", "==", "!=", "like"] && !(IsMath(Lower(op)) && Overridden(env, e.left, ["ev", "eb"]))
  }

  /** No comparison for equality or likeness directly repeats, nor an operator on an overridden rating. */
  predicate Pairwise(env: Env, e: Expr) {
    match e
    case Leaf(_) => true
    case Paren(body) => Pairwise(env, body)
    case Binary(op, l, r) => Regular(env, op, l) && Pairwise(env, l) && Pairwise(env, r)
  }

  // ----- One more operand at the end of a node -----

  lemma {:induction false} FoldMathSnoc(env: Env, kind: Kind, items: seq<Tree>, t: Tree, op: string, acc: int, i: nat)
    requires i <= |items|
    ensures FoldMath(env, Node(kind, items + [t]), op, acc, i)
         == (var x :- FoldMath(env, Node(kind, items), op, acc, i); var y :- GetNumber(env, t); Ok(MathOp(op, x, y)))
    decreases |items| - i
  {
    var longer := Node(kind, items + [t]);
    if i == |items| {
      assert longer.items[i] == t;
      var next: nat := i + 1;
      assert forall a :: FoldMath(env, longer, op, a, next) == Ok(a);
    } else {
      assert longer.items[i] == items[i];
      if GetNumber(env, items[i]).Ok? {
        FoldMathSnoc(env, kind, items, t, op, MathOp(op, acc, GetNumber(env, items[i]).value), i + 1);
      }
    }
  }

  lemma {:induction false} AnyTrueSnoc(env: Env, kind: Kind, items: seq<Tree>, t: Tree, i: nat)
    requires i <= |items|
    ensures AnyTrue(env, Node(kind, items + [t]), i)
         == (var x :- AnyTrue(env, Node(kind, items), i);
             if x != 0 then Ok(1) else var y :- GetString(env, t); Ok(Truth(y != "0")))
    decreases |items| - i
  {
    var longer := Node(kind, items + [t]);
    if i == |items| {
      assert longer.items[i] == t;
      assert AnyTrue(env, longer, i + 1) == Ok(0);
    } else {
      assert longer.items[i] == items[i];
      AnyTrueSnoc(env, kind, items, t, i + 1);
    }
  }

  /** The value of a node is that of its first children, taken on with the last one. */
  lemma {:induction false} NodeSnoc(env: Env, op: string, items: seq<Tree>, t: Tree)
    requires |items| >= 2 && Lower(op) !in ["=", "==", "!=", "like"]
    requires !(IsMath(Lower(op)) && |items| == 2 && IsIdentity(items[0], ["ev", "eb"]) && env.queryGame == MARIO_KART_WII)
    ensures var v, o := SwitchFunction(env, Node(Operator(op), items)), Lower(op);
            SwitchFunction(env, Node(Operator(op), items + [t])) ==
            if IsMath(o) then (var x :- v; var y :- GetNumber(env, t); Ok(MathOp(o, x, y)))
            else if o in ["and", "&&"] then (var x :- v; if x == 0 then Ok(0) else var y :- GetString(env, t); Ok(Truth(y != "0")))
            else if o in ["or", "||"] then (var x :- v; if x != 0 then Ok(1) else var y :- GetString(env, t); Ok(Truth(y != "0")))
            else Fault
  {
    var o := Lower(op);
    assert (items + [t])[0] == items[0];
    if IsMath(o) {
      if GetNumber(env, items[0]).Ok? {
        FoldMathSnoc(env, Operator(op), items, t, o, GetNumber(env, items[0]).value, 1);
      }
    } else if o in ["and", "&&"] {
      FilterMeaning.AllTrueSnoc(env, Operator(op), items, t, 0);
    } else if o in ["or", "||"] {
      AnyTrueSnoc(env, Operator(op), items, t, 0);
    }
  }

  // ----- Evaluating a tree gives the value of its reading -----

  ghost predicate Agrees(env: Env, t: Tree, e: Expr) {
    GetString(env, t) == TextOf(env, e) && GetNumber(env, t) == Means(env, e)
  }

  lemma {:induction false} AndPair(env: Env, t: Tree)
    requires |t.items| == 2
    ensures AllTrue(env, t, 0)
         == (var x :- GetString(env, t.items[0]); if x == "0" then Ok(0) else var y :- GetString(env, t.items[1]); Ok(Truth(y != "0")))
  {
    var second: nat := 1;
    assert AllTrue(env, t, second) == (var y :- GetString(env, t.items[1]); Ok(Truth(y != "0")));
  }

  lemma {:induction false} OrPair(env: Env, t: Tree)
    requires |t.items| == 2
    ensures AnyTrue(env, t, 0)
         == (var x :- GetString(env, t.items[0]); if x != "0" then Ok(1) else var y :- GetString(env, t.items[1]); Ok(Truth(y != "0")))
  {
    var second: nat := 1;
    assert AnyTrue(env, t, second) == (var y :- GetString(env, t.items[1]); Ok(Truth(y != "0")));
  }

  ghost predicate SameLeaf(t: Tree, e: Expr) {
    forall names :: IsIdentity(t, names) <==> e.Leaf? && e.atom.Identity? && e.atom.name in names
  }

  lemma {:induction false} LogicPair(env: Env, op: string, a: Tree, b: Tree, l: Expr, r: Expr)
    requires Agrees(env, a, l) && Agrees(env, b, r) && Lower(op) in ["and", "&&", "or", "||"]
    ensures SwitchFunction(env, Node(Operator(op), [a, b])) == Means(env, Binary(op, l, r))
  {
    var t := Node(Operator(op), [a, b]);
    if Lower(op) in ["and", "&&"] {
      AndPair(env, t);
    } else {
      OrPair(env, t);
    }
  }

  lemma {:induction false} TextPair(env: Env, op: string, a: Tree, b: Tree, l: Expr, r: Expr)
    requires Agrees(env, a, l) && Agrees(env, b, r) && SameLeaf(a, l) && Lower(op) in ["=", "==", "!="]
    ensures SwitchFunction(env, Node(Operator(op), [a, b])) == Means(env, Binary(op, l, r))
  {
    if TextOf(env, l).Ok? {
      FilterMeaning.AllCompareOne(env, Node(Operator(op), [a, b]), TextOf(env, l).value, Lower(op) != "!=");
    }
  }

  lemma {:induction false} MathPair(env: Env, op: string, a: Tree, b: Tree, l: Expr, r: Expr)
    requires Agrees(env, a, l) && Agrees(env, b, r) && SameLeaf(a, l) && IsMath(Lower(op))
    ensures SwitchFunction(env, Node(Operator(op), [a, b])) == Means(env, Binary(op, l, r))
  {
    if Means(env, l).Ok? {
      FilterMeaning.FoldMathOne(env, Node(Operator(op), [a, b]), Lower(op), Means(env, l).value);
    }
  }

  /** A node of two children. */
  lemma {:induction false} PairAgrees(env: Env, op: string, a: Tree, b: Tree, l: Expr, r: Expr)
    requires Agrees(env, a, l) && Agrees(env, b, r) && SameLeaf(a, l)
    ensures SwitchFunction(env, Node(Operator(op), [a, b])) == Means(env, Binary(op, l, r))
  {
    if Lower(op) in ["=", "==", "!="] {
      TextPair(env, op, a, b, l, r);
    } else if IsMath(Lower(op)) {
      MathPair(env, op, a, b, l, r);
    } else if Lower(op) in ["and", "&&", "or", "||"] {
      LogicPair(env, op, a, b, l, r);
    }
  }

  /** A node of more children, whose first ones agree with the reading of the operation before. */
  lemma {:induction false} RunAgrees(env: Env, op: string, items: seq<Tree>, t: Tree, e: Expr, r: Expr)
    requires |items| >= 2 && SwitchFunction(env, Node(Operator(op), items)) == Means(env, e) && Agrees(env, t, r)
    requires e.Binary? && e.op == op && Lower(op) !in ["=", "==", "!=", "like"]
    requires !(IsMath(Lower(op)) && |items| == 2 && IsIdentity(items[0], ["ev", "eb"]) && env.queryGame == MARIO_KART_WII)
    ensures SwitchFunction(env, Node(Operator(op), items + [t])) == Means(env, Binary(op, e, r))
  {
    NodeSnoc(env, op, items, t);
    if Means(env, e).Ok? {
      FilterMeaning.FormatZero(Means(env, e).value);
    }
  }

  lemma {:induction false} LeafKind(t: Tree)
    requires Complete(t)
    ensures SameLeaf(t, Read(t))
  {
  }

  /** A first child that is overridden is one in the reading of the first two children. */
  lemma {:induction false} FirstTwo(t: Tree)
    requires Complete(t) && t.kind.Operator?
    ensures ReadFirst(t, 2) == Binary(t.kind.op, Read(t.items[0]), Read(t.items[1]))
  {
    var one: nat := 1;
    assert ReadFirst(t, one) == Read(t.items[0]);
  }

  /** The reading of the first children of a longer node joins what follows. */
  lemma {:induction false} RunRegular(env: Env, t: Tree, n: nat)
    requires Complete(t) && Leans(t) && t.kind.Operator? && 2 <= n < |t.items| && Regular(env, t.kind.op, ReadFirst(t, n))
    ensures var e, o := ReadFirst(t, n), Lower(t.kind.op);
            && e.Binary? && e.op == t.kind.op && o !in ["=", "==", "!=", "like"]
            && !(IsMath(o) && n == 2 && IsIdentity(t.items[0], ["ev", "eb"]) && env.queryGame == MARIO_KART_WII)
  {
    assert LeansAt(t, n - 1);
    ReadTightness(t.items[n - 1]);
    FirstTwo(t);
    LeafKind(t.items[0]);
  }

  lemma {:induction false} NextAgrees(env: Env, t: Tree, n: nat)
    requires Complete(t) && Leans(t) && t.kind.Operator? && 2 <= n < |t.items| && Regular(env, t.kind.op, ReadFirst(t, n))
    requires SwitchFunction(env, Node(t.kind, t.items[..n])) == Means(env, ReadFirst(t, n))
    requires Agrees(env, t.items[n], Read(t.items[n]))
    ensures SwitchFunction(env, Node(t.kind, t.items[..n + 1])) == Means(env, ReadFirst(t, n + 1))
  {
    RunRegular(env, t, n);
    RunAgrees(env, t.kind.op, t.items[..n], t.items[n], ReadFirst(t, n), Read(t.items[n]));
    assert t.items[..n + 1] == t.items[..n] + [t.items[n]];
  }

  lemma {:induction false} FirstAgrees(env: Env, t: Tree, n: nat)
    requires Complete(t) && Leans(t) && t.kind.Operator? && 2 <= n <= |t.items| && Pairwise(env, ReadFirst(t, n))
    requires forall i :: 0 <= i < n ==> Agrees(env, t.items[i], Read(t.items[i]))
    ensures SwitchFunction(env, Node(t.kind, t.items[..n])) == Means(env, ReadFirst(t, n))
    decreases n
  {
    if n == 2 {
      var a, b := t.items[0], t.items[1];
      FirstTwo(t);
      LeafKind(a);
      PairAgrees(env, t.kind.op, a, b, Read(a), Read(b));
      assert t.items[..n] == [a, b];
    } else {
      FirstAgrees(env, t, n - 1);
      NextAgrees(env, t, n - 1);
    }
  }

  lemma {:induction false} PairwiseFirst(env: Env, t: Tree, n: nat)
    requires Complete(t) && t.kind.Operator? && 1 <= n <= |t.items| && Pairwise(env, ReadFirst(t, n))
    ensures forall i :: 0 <= i < n ==> Pairwise(env, Read(t.items[i]))
    decreases n
  {
    if n > 1 {
      PairwiseFirst(env, t, n - 1);
    }
  }

  /** A complete tree that leans to the left evaluates to the value of its reading. */
  lemma {:induction false} TreeAgrees(env: Env, t: Tree)
    requires Complete(t) && Leans(t) && Pairwise(env, Read(t))
    ensures Agrees(env, t, Read(t))
    decreases t
  {
    match t.kind
    case Operand(_) =>
    case Group => TreeAgrees(env, t.items[0]);
    case Operator(op) =>
      PairwiseFirst(env, t, |t.items|);
      forall i | 0 <= i < |t.items|
        ensures Agrees(env, t.items[i], Read(t.items[i]))
      {
        TreeAgrees(env, t.items[i]);
      }
      FirstAgrees(env, t, |t.items|);
      assert t.items[..|t.items|] == t.items;
      ReadTightness(t);
  }

  // ----- Main results -----

  /**
    Evaluating what was parsed from a conventional expression gives its value, whatever operators it
    mixes, if no operator drops to a misplaced level and no run is taken together to another effect.
   */
  lemma {:induction false} ConventionHolds(env: Env, e: Expr)
    requires Conventional(e) && FilterPrecedence.Clean(Tokens(e)) && Pairwise(env, e)
    ensures Parse(Tokens(e)).Accepted? && Eval(env, Parse(Tokens(e)).tree) == Means(env, e)
  {
    ReadsBack(e);
    var t := ParsedTree(Tokens(e));
    ParsedLeans(Tokens(e));
    TreeAgrees(env, t);
    ReadTightness(t);
  }

  /** Every whole sequence without misplaced drops has exactly one conventional reading, whose value it has. */
  lemma {:induction false} SequenceMeans(env: Env, ts: seq<Token>) returns (e: Expr)
    requires Whole(ts) && FilterPrecedence.Clean(ts)
    ensures Conventional(e) && Tokens(e) == ts && forall f :: Conventional(f) && Tokens(f) == ts ==> f == e
    ensures Parse(ts).Accepted? && (Pairwise(env, e) ==> Eval(env, Parse(ts).tree) == Means(env, e))
  {
    e := Read(ParsedTree(ts));
    ReadsIff(ts);
    forall f | Conventional(f) && Tokens(f) == ts
      ensures f == e
    {
      OneReading(f, e);
    }
    if Pairwise(env, e) {
      ConventionHolds(env, e);
    }
  }

  // ----- What a run of equalities means instead -----

  /** The operands that the parser gathers in the node of `e op ...`. */
  function Operands(op: string, e: Expr): (r: seq<Expr>)
    ensures r != []
  {
    if Joins(op, e) then Operands(op, e.left) + [e.right] else [e]
  }

  lemma {:induction false} RunItems(op: string, l: Expr, r: Expr)
    ensures var items, all := TreeOf(Binary(op, l, r)).items, Operands(op, l) + [r];
            |items| == |all| && forall i :: 0 <= i < |all| ==> items[i] == TreeOf(all[i])
    decreases l
  {
    if Joins(op, l) {
      RunItems(op, l.left, l.right);
    }
  }

  lemma {:induction false} OperandsConventional(op: string, e: Expr)
    requires Conventional(e)
    ensures forall o :: o in Operands(op, e) ==> Conventional(o)
  {
    if Joins(op, e) {
      OperandsConventional(op, e.left);
    }
  }

  /** All operands of an outermost run have a text, the same one. */
  ghost predicate AllAlike(env: Env, all: seq<Expr>)
    requires all != []
  {
    TextOf(env, all[0]).Ok? && forall i :: 0 <= i < |all| ==> TextOf(env, all[i]) == TextOf(env, all[0])
  }

  /** A run of equalities holds exactly when all its operands are alike. */
  lemma {:induction false} EqualRun(env: Env, op: string, l: Expr, r: Expr)
    requires var e := Binary(op, l, r); Conventional(e) && FilterPrecedence.Clean(Tokens(e))
    requires Lower(op) in ["=", "=="] && !Overridden(env, l, ["rk"])
    requires forall o :: o in Operands(op, l) + [r] ==> Pairwise(env, o)
    ensures var ts := Tokens(Binary(op, l, r));
            Parse(ts).Accepted? && (Eval(env, Parse(ts).tree) == Ok(1) <==> AllAlike(env, Operands(op, l) + [r]))
  {
    var e, all := Binary(op, l, r), Operands(op, l) + [r];
    var t := TreeOf(e);
    ParsesBack(e);
    RunItems(op, l, r);
    forall i | 0 <= i < |all|
      ensures GetString(env, t.items[i]) == TextOf(env, all[i])
    {
      OperandAgrees(env, e, i);
    }
    if |all| == 2 {
      assert t.items[0] == TreeOf(l);
    }
    EqualsMeans(env, t);
    assert Eval(env, Node(Base, [t])) == SwitchFunction(env, t);
  }

  lemma {:induction false} OperandAgrees(env: Env, e: Expr, i: nat)
    requires Conventional(e) && FilterPrecedence.Clean(Tokens(e)) && e.Binary?
    requires var all := Operands(e.op, e.left) + [e.right]; i < |all| && Pairwise(env, all[i])
    ensures var o, t := (Operands(e.op, e.left) + [e.right])[i], TreeOf(e);
            i < |t.items| && t.items[i] == TreeOf(o) && GetString(env, t.items[i]) == TextOf(env, o)
  {
    var all, t := Operands(e.op, e.left) + [e.right], TreeOf(e);
    RunItems(e.op, e.left, e.right);
    OperandsConventional(e.op, e.left);
    assert all[i] in Operands(e.op, e.left) || all[i] == e.right;
    ReadOf(all[i]);
    ParsesBack(e);
    ReadsBack(e);
    ParsedLeans(Tokens(e));
    assert [t] == [ParsedTree(Tokens(e))] && [t][0] == t;
    assert t.items[i] in t.items;
    TreeAgrees(env, t.items[i]);
  }

  /** Operators of one level only are never misplaced. */
  lemma {:induction false} OneLevelClean(ts: seq<Token>, level: int)
    requires forall i :: 0 <= i < |ts| && ts[i].Op? ==> Level(ts[i].op) == level
    ensures FilterPrecedence.Clean(ts)
    ensures forall s :: s in FilterPrecedence.Scopes(ts) && s.Scope? ==> s.outer == s.last == level
  {
    if ts != [] {
      OneLevelClean(Front(ts), level);
    }
  }

  const TWO := Leaf(Number(2))

  lemma {:induction false} TwoTwice(env: Env)
    ensures Means(env, Binary("=", TWO, TWO)) == Ok(1) && Means(env, Binary("=", Binary("=", TWO, TWO), TWO)) == Ok(0)
  {
    assert Lower("=") == "=";
    assert FormatInt(1) == "1" && FormatInt(2) == "2";
  }

  lemma {:induction false} TwosAlike(env: Env)
    ensures Operands("=", Binary("=", TWO, TWO)) + [TWO] == [TWO, TWO, TWO] && AllAlike(env, [TWO, TWO, TWO])
  {
    assert Operands("=", TWO) == [TWO];
  }

  /** `2 = 2 = 2` holds, although its conventional reading compares 1 with 2. */
  lemma {:induction false} RunDiffers(env: Env)
    ensures var e := Binary("=", Binary("=", TWO, TWO), TWO);
            && Conventional(e) && FilterPrecedence.Clean(Tokens(e)) && !Pairwise(env, e)
            && Parse(Tokens(e)).Accepted? && Eval(env, Parse(Tokens(e)).tree) == Ok(1) && Means(env, e) == Ok(0)
  {
    var l := Binary("=", TWO, TWO);
    FilterPrecedence.DocumentedLevels();
    assert Lower("=") == "=";
    OneLevelClean(Tokens(Binary("=", l, TWO)), Level("="));
    TwosAlike(env);
    EqualRun(env, "=", l, TWO);
    TwoTwice(env);
  }
}
