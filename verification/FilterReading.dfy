/**
  The conventional reading of a filter: operators bind by their level, equals to the left, two operands
  at a time. A token sequence has one at most, and the parser builds it exactly where it keeps precedence.
 */
module FilterReading {
  import opened FilterGrammar
  import FilterParsing
  import FilterPrecedence

  datatype Expr = Leaf(atom: Atom) | Paren(body: Expr) | Binary(op: string, left: Expr, right: Expr)

  function Tokens(e: Expr): seq<Token> {
    match e
    case Leaf(atom) => [Value(atom)]
    case Paren(body) => [Open] + Tokens(body) + [Close]
    case Binary(op, l, r) => Tokens(l) + [Op(op)] + Tokens(r)
  }

  /** Values and brackets bind more tightly than any operator. */
  function Tightness(e: Expr): int {
    if e.Binary? then Level(e.op) else 6
  }

  /** To the left of an operator stands nothing looser, to its right only what is tighter. */
  predicate Conventional(e: Expr) {
    match e
    case Leaf(_) => true
    case Paren(body) => Conventional(body)
    case Binary(op, l, r) =>
      Level(op) >= 0 && Conventional(l) && Conventional(r) && Tightness(l) >= Level(op) && Tightness(r) > Level(op)
  }

  // ----- A token sequence has one conventional reading -----

  lemma {:induction false} BalanceAppend(a: seq<Token>, b: seq<Token>)
    ensures FilterParsing.Balance(a + b) == FilterParsing.Balance(a) + FilterParsing.Balance(b)
  {
    if b == [] {
      assert a + b == a;
    } else {
      assert Front(a + b) == a + Front(b) && Last(a + b) == Last(b);
      BalanceAppend(a, Front(b));
    }
  }

  lemma {:induction false} BracketBalance(t: Token)
    ensures FilterParsing.Balance([t]) == if t.Open? then 1 else if t.Close? then -1 else 0
  {
    assert Front([t]) == [];
  }

  lemma {:induction false} Balanced(e: Expr)
    ensures FilterParsing.Balance(Tokens(e)) == 0
  {
    match e
    case Leaf(atom) => BracketBalance(Value(atom));
    case Paren(body) =>
      Balanced(body);
      BalanceAppend([Open] + Tokens(body), [Close]);
      BalanceAppend([Open], Tokens(body));
      BracketBalance(Open);
      BracketBalance(Close);
    case Binary(op, l, r) =>
      Balanced(l);
      Balanced(r);
      BalanceAppend(Tokens(l) + [Op(op)], Tokens(r));
      BalanceAppend(Tokens(l), [Op(op)]);
      BracketBalance(Op(op));
  }

  /** Where a position in a bracketed expression lies. */
  lemma {:induction false} InParen(body: Expr, k: nat)
    requires 1 <= k <= |Tokens(body)| + 1
    ensures FilterParsing.Balance(Tokens(Paren(body))[..k]) == 1 + FilterParsing.Balance(Tokens(body)[..k - 1])
    ensures k <= |Tokens(body)| ==> Tokens(Paren(body))[k] == Tokens(body)[k - 1]
  {
    assert Tokens(Paren(body))[..k] == [Open] + Tokens(body)[..k - 1];
    BalanceAppend([Open], Tokens(body)[..k - 1]);
    BracketBalance(Open);
  }

  lemma {:induction false} InRight(op: string, l: Expr, r: Expr, k: nat)
    requires |Tokens(l)| < k < |Tokens(Binary(op, l, r))|
    ensures var j := k - |Tokens(l)| - 1;
            && j < |Tokens(r)| && Tokens(Binary(op, l, r))[k] == Tokens(r)[j]
            && FilterParsing.Balance(Tokens(Binary(op, l, r))[..k]) == FilterParsing.Balance(Tokens(r)[..j])
  {
    var j := k - |Tokens(l)| - 1;
    assert Tokens(Binary(op, l, r))[..k] == Tokens(l) + [Op(op)] + Tokens(r)[..j];
    BalanceAppend(Tokens(l) + [Op(op)], Tokens(r)[..j]);
    BalanceAppend(Tokens(l), [Op(op)]);
    BracketBalance(Op(op));
    Balanced(l);
  }

  lemma {:induction false} NeverBelow(e: Expr, k: nat)
    requires k <= |Tokens(e)|
    ensures FilterParsing.Balance(Tokens(e)[..k]) >= 0
  {
    Balanced(e);
    if k == |Tokens(e)| {
      assert Tokens(e)[..k] == Tokens(e);
    } else if k > 0 {
      match e
      case Leaf(_) =>
      case Paren(body) =>
        InParen(body, k);
        NeverBelow(body, k - 1);
      case Binary(op, l, r) =>
        if k <= |Tokens(l)| {
          NeverBelow(l, k);
          assert Tokens(e)[..k] == Tokens(l)[..k];
        } else {
          InRight(op, l, r, k);
          NeverBelow(r, k - |Tokens(l)| - 1);
        }
    }
  }

  /** Outside brackets no operator is looser than the outermost one, and those to its right are tighter. */
  lemma {:induction false} Loosest(e: Expr, k: nat)
    requires Conventional(e) && k < |Tokens(e)| && Tokens(e)[k].Op? && FilterParsing.Balance(Tokens(e)[..k]) == 0
    ensures e.Binary? && Level(Tokens(e)[k].op) >= Tightness(e)
    ensures k > |Tokens(e.left)| ==> Level(Tokens(e)[k].op) > Tightness(e)
  {
    match e
    case Leaf(_) =>
    case Paren(body) =>
      if 1 <= k <= |Tokens(body)| {
        InParen(body, k);
        NeverBelow(body, k - 1);
      }
    case Binary(op, l, r) =>
      if k < |Tokens(l)| {
        assert Tokens(e)[..k] == Tokens(l)[..k];
        Loosest(l, k);
      } else if k > |Tokens(l)| {
        InRight(op, l, r, k);
        Loosest(r, k - |Tokens(l)| - 1);
      }
  }

  lemma {:induction false} AtOperator(op: string, l: Expr, r: Expr)
    ensures var ts := Tokens(Binary(op, l, r));
            |Tokens(l)| < |ts| && ts[|Tokens(l)|] == Op(op) && FilterParsing.Balance(ts[..|Tokens(l)|]) == 0
  {
    var ts := Tokens(Binary(op, l, r));
    assert ts[..|Tokens(l)|] == Tokens(l);
    Balanced(l);
  }

  /** The outermost operator is the last of the loosest ones, so it stands at the same place. */
  lemma {:induction false} SameOperator(e: Expr, f: Expr)
    requires Conventional(e) && Conventional(f) && Tokens(e) == Tokens(f) && e.Binary?
    ensures f.Binary? && |Tokens(e.left)| <= |Tokens(f.left)|
  {
    AtOperator(e.op, e.left, e.right);
    Loosest(f, |Tokens(e.left)|);
    AtOperator(f.op, f.left, f.right);
    Loosest(e, |Tokens(f.left)|);
  }

  lemma {:induction false} OneReading(e: Expr, f: Expr)
    requires Conventional(e) && Conventional(f) && Tokens(e) == Tokens(f)
    ensures e == f
  {
    var ts := Tokens(e);
    if e.Binary? || f.Binary? {
      if e.Binary? { SameOperator(e, f); }
      if f.Binary? { SameOperator(f, e); }
      var n := |Tokens(e.left)|;
      assert ts[..n] == Tokens(e.left) == Tokens(f.left) && ts[n] == Op(e.op) == Op(f.op);
      assert ts[n + 1..] == Tokens(e.right) == Tokens(f.right);
      OneReading(e.left, f.left);
      OneReading(e.right, f.right);
    } else if e.Paren? && f.Paren? {
      assert ts[1..|ts| - 1] == Tokens(e.body) == Tokens(f.body);
      OneReading(e.body, f.body);
    } else {
      assert ts[0] == if e.Leaf? then Value(e.atom) else Open;
      assert ts[0] == if f.Leaf? then Value(f.atom) else Open;
    }
  }

  // ----- Every reading is accepted -----

  lemma {:induction false} OneMore(before: seq<Token>, t: Token)
    ensures FilterParsing.Wellformed(before + [t]) <==> FilterParsing.Wellformed(before) && FilterParsing.MayFollow(before, t)
  {
    var ts := before + [t];
    assert ts[..|before|] == before && ts[|before|] == t;
    assert forall i :: 0 <= i < |before| ==> before[..i] == ts[..i] && before[i] == ts[i];
  }

  /** A place where an expression may start. */
  predicate Starts(before: seq<Token>) {
    FilterParsing.Wellformed(before) && FilterParsing.ModeAfter(before).ValuePart? && FilterParsing.Balance(before) >= 0
  }

  /** What may stand behind an expression that started after `before`. */
  predicate Ends(before: seq<Token>, ts: seq<Token>) {
    && FilterParsing.Wellformed(ts) && FilterParsing.ModeAfter(ts).OperatorPart?
    && FilterParsing.Balance(ts) == FilterParsing.Balance(before)
  }

  lemma {:induction false} LeafEnds(before: seq<Token>, atom: Atom)
    requires Starts(before)
    ensures Ends(before, before + [Value(atom)])
  {
    OneMore(before, Value(atom));
    FilterParsing.TokenAdded(before, Value(atom));
  }

  lemma {:induction false} BracketOpens(before: seq<Token>)
    requires Starts(before)
    ensures Starts(before + [Open]) && FilterParsing.Balance(before + [Open]) == FilterParsing.Balance(before) + 1
  {
    OneMore(before, Open);
    FilterParsing.TokenAdded(before, Open);
  }

  lemma {:induction false} BracketCloses(before: seq<Token>, inner: seq<Token>, ts: seq<Token>)
    requires FilterParsing.Balance(before) >= 0 && FilterParsing.Balance(inner) == FilterParsing.Balance(before) + 1 && Ends(inner, ts)
    ensures Ends(before, ts + [Close])
  {
    OneMore(ts, Close);
    FilterParsing.TokenAdded(ts, Close);
  }

  lemma {:induction false} OperatorContinues(before: seq<Token>, ts: seq<Token>, op: string)
    requires FilterParsing.Balance(before) >= 0 && Ends(before, ts) && Level(op) >= 0
    ensures Starts(ts + [Op(op)]) && FilterParsing.Balance(ts + [Op(op)]) == FilterParsing.Balance(before)
  {
    OneMore(ts, Op(op));
    FilterParsing.TokenAdded(ts, Op(op));
  }

  lemma {:induction false} Grouped(a: seq<Token>, b: seq<Token>, c: seq<Token>, d: seq<Token>)
    ensures a + b + c + d == a + (b + c + d)
  {
  }

  lemma {:induction false} BracketEnds(before: seq<Token>, body: seq<Token>)
    requires Starts(before) && Ends(before + [Open], before + [Open] + body)
    ensures Ends(before, before + ([Open] + body + [Close]))
  {
    BracketOpens(before);
    BracketCloses(before, before + [Open], before + [Open] + body);
    Grouped(before, [Open], body, [Close]);
  }

  lemma {:induction false} BinaryEnds(before: seq<Token>, left: seq<Token>, op: string, right: seq<Token>)
    requires Ends(before, before + left) && Level(op) >= 0 && FilterParsing.Balance(before) >= 0
    requires Ends(before + left + [Op(op)], before + left + [Op(op)] + right)
    ensures Ends(before, before + (left + [Op(op)] + right))
  {
    OperatorContinues(before, before + left, op);
    Grouped(before, left, [Op(op)], right);
  }

  lemma {:induction false} Continues(before: seq<Token>, e: Expr)
    requires Starts(before) && Conventional(e)
    ensures Ends(before, before + Tokens(e))
    decreases e
  {
    match e
    case Leaf(atom) => LeafEnds(before, atom);
    case Paren(body) =>
      BracketOpens(before);
      Continues(before + [Open], body);
      BracketEnds(before, Tokens(body));
    case Binary(op, l, r) =>
      Continues(before, l);
      OperatorContinues(before, before + Tokens(l), op);
      Continues(before + Tokens(l) + [Op(op)], r);
      BinaryEnds(before, Tokens(l), op, Tokens(r));
  }

  // ----- The reading of a tree -----

  /** What the first `n` children of an operator stand for, taken from the left. */
  function ReadFirst(t: Tree, n: nat): Expr
    requires Complete(t) && t.kind.Operator? && 1 <= n <= |t.items|
    decreases t, n
  {
    if n == 1 then Read(t.items[0]) else Binary(t.kind.op, ReadFirst(t, n - 1), Read(t.items[n - 1]))
  }

  function Read(t: Tree): Expr
    requires Complete(t)
    decreases t, |t.items| + 1
  {
    match t.kind
    case Operand(atom) => Leaf(atom)
    case Group => Paren(Read(t.items[0]))
    case Operator(_) => ReadFirst(t, |t.items|)
  }

  lemma {:induction false} ReadFirstShows(t: Tree, n: nat)
    requires Complete(t) && t.kind.Operator? && 1 <= n <= |t.items|
    ensures Tokens(ReadFirst(t, n)) == PrintJoined(t.items[..n], [Op(t.kind.op)])
    decreases t, n
  {
    var sep, item := [Op(t.kind.op)], t.items[n - 1];
    ReadShows(item);
    assert t.items[..n] == t.items[..n - 1] + [item];
    FilterParsing.PrintItemAdded(t.items[..n - 1], item, sep);
    if n == 1 {
      assert [] + Print(item) == Print(item);
    } else {
      ReadFirstShows(t, n - 1);
      FilterParsing.PrintLedIsJoined(t.items[..n - 1], sep);
    }
  }

  lemma {:induction false} GroupShows(t: Tree)
    ensures Print(Node(Group, [t])) == [Open] + Print(t) + [Close]
  {
    assert [] + [t] == [t];
    FilterParsing.PrintItemAdded([], t, []);
    assert PrintJoined([t], []) == [] + Print(t) == Print(t);
  }

  lemma {:induction false} OperatorShows(op: string, items: seq<Tree>)
    ensures Print(Node(Operator(op), items)) == PrintJoined(items, [Op(op)])
  {
    var joined := PrintJoined(items, [Op(op)]);
    assert [] + joined + [] == joined;
  }

  lemma {:induction false} ReadShows(t: Tree)
    requires Complete(t)
    ensures Tokens(Read(t)) == Print(t)
    decreases t, |t.items| + 1
  {
    match t.kind
    case Operand(_) =>
    case Group =>
      ReadShows(t.items[0]);
      GroupShows(t.items[0]);
      assert t.items == [t.items[0]];
    case Operator(op) =>
      ReadFirstShows(t, |t.items|);
      OperatorShows(op, t.items);
      assert t.items[..|t.items|] == t.items;
  }

  // ----- The parser's trees lean to the left -----

  predicate Tighter(kind: Kind, t: Tree) {
    kind.Operator? && t.kind.Operator? ==> Level(kind.op) < Level(t.kind.op)
  }

  /** A child of the same operator could not be continued: it ends in an operator. */
  predicate Settled(kind: Kind, t: Tree) {
    kind.Operator? && t.kind == kind ==> t.items != [] && Last(t.items).kind.Operator?
  }

  /**
    The first child is no node that the parser would have continued; operators behind it bind more
    tightly, and none stands between first and last.
   */
  predicate LeansAt(t: Tree, i: nat)
    requires i < |t.items|
  {
    if i == 0 then Settled(t.kind, t.items[i])
    else Tighter(t.kind, t.items[i]) && (i < |t.items| - 1 ==> !t.items[i].kind.Operator?)
  }

  predicate Leans(t: Tree) {
    (forall i :: 0 <= i < |t.items| ==> LeansAt(t, i)) && (forall c :: c in t.items ==> Leans(c))
  }

  /** Another child may follow. */
  predicate Extends(items: seq<Tree>) {
    |items| > 1 ==> !Last(items).kind.Operator?
  }

  predicate Follows(kind: Kind, items: seq<Tree>, t: Tree) {
    if items == [] then Settled(kind, t) else Tighter(kind, t)
  }

  lemma {:induction false} LeansMore(kind: Kind, items: seq<Tree>, t: Tree)
    ensures Leans(Node(kind, items + [t])) <==>
            Leans(Node(kind, items)) && Extends(items) && Follows(kind, items, t) && Leans(t)
  {
    var n, m := Node(kind, items + [t]), Node(kind, items);
    assert n.items[|items|] == t && t in n.items;
    assert forall c :: c in items ==> c in n.items;
    assert forall i :: 0 <= i < |items| ==> n.items[i] == items[i];
    if Leans(n) {
      forall i | 0 <= i < |m.items|
        ensures LeansAt(m, i)
      {
        assert LeansAt(n, i);
      }
      assert LeansAt(n, |items|);
      if |items| > 1 {
        assert LeansAt(n, |items| - 1);
      }
    } else if Leans(m) && Extends(items) && Follows(kind, items, t) && Leans(t) {
      forall i | 0 <= i < |n.items|
        ensures LeansAt(n, i)
      {
        assert i < |items| ==> LeansAt(m, i);
      }
    }
  }

  /** The open nodes below the current one. */
  ghost predicate BelowLeans(frames: seq<Frame>) {
    frames == [] || (BelowLeans(Front(frames)) && Leans(Closed(Last(frames))) && Extends(Last(frames).left))
  }

  ghost predicate SpineLeans(spine: Spine, mode: Mode) {
    BelowLeans(Front(spine)) && Leans(Closed(Last(spine))) && (mode.ValuePart? ==> Extends(Last(spine).left))
  }

  lemma {:induction false} LeansPushed(below: seq<Frame>, f: Frame, mode: Mode)
    ensures SpineLeans(below + [f], mode) <==> BelowLeans(below) && Leans(Closed(f)) && (mode.ValuePart? ==> Extends(f.left))
    ensures BelowLeans(below + [f]) <==> BelowLeans(below) && Leans(Closed(f)) && Extends(f.left)
  {
    assert Front(below + [f]) == below;
  }

  lemma {:induction false} AscendLeans(spine: Spine)
    requires SpineLeans(spine, OperatorPart) && FilterPrecedence.Rising(spine) && |spine| > 1
    ensures SpineLeans(Ascend(spine), OperatorPart) && FilterPrecedence.Rising(Ascend(spine))
  {
    var up, f := Front(spine), Last(spine);
    var below, parent := Front(up), Last(up);
    assert up == below + [parent] && spine == up + [f];
    FilterPrecedence.Pushed(up, f);
    FilterPrecedence.AscendKeeps(spine);
    LeansMore(parent.kind, parent.left, Closed(f));
    LeansPushed(below, parent, OperatorPart);
    LeansPushed(below, Frame(parent.kind, parent.left + [Closed(f)]), OperatorPart);
  }

  lemma {:induction false} ClimbLeans(spine: Spine)
    requires SpineLeans(spine, OperatorPart) && FilterPrecedence.Rising(spine)
    ensures SpineLeans(Climb(spine), OperatorPart)
    decreases |spine|
  {
    if |spine| > 1 && spine[|spine| - 2].kind.Operator? && Level(spine[|spine| - 2].kind.op) >= 0 {
      AscendLeans(spine);
      ClimbLeans(Ascend(spine));
    }
  }

  /** Where the climb has moved at all, it ends at a node that ends in an operator. */
  lemma {:induction false} ClimbSettles(spine: Spine)
    requires Last(spine).kind.Operator?
    ensures Climb(spine) == spine || (Last(Climb(spine)).left != [] && Last(Last(Climb(spine)).left).kind.Operator?)
    decreases |spine|
  {
    if |spine| > 1 && spine[|spine| - 2].kind.Operator? && Level(spine[|spine| - 2].kind.op) >= 0 {
      var up := Ascend(spine);
      assert Last(Last(up).left) == Closed(Last(spine));
      ClimbSettles(up);
    }
  }

  lemma {:induction false} CloseLeans(spine: Spine)
    requires SpineLeans(spine, OperatorPart) && FilterPrecedence.Rising(spine) && ParseClose(spine).Parsing?
    ensures SpineLeans(ParseClose(spine).spine, OperatorPart) && ParseClose(spine).mode.OperatorPart?
    decreases |spine|
  {
    AscendLeans(spine);
    if !Last(spine).kind.Group? {
      CloseLeans(Ascend(spine));
    }
  }

  lemma {:induction false} PushCurrentLeans(spine: Spine, op: string)
    requires SpineLeans(spine, OperatorPart) && Settled(Operator(op), Closed(Last(spine)))
    ensures SpineLeans(PushCurrent(spine, op), ValuePart)
  {
    var below, t := Front(spine), Closed(Last(spine));
    LeansMore(Operator(op), [], t);
    assert [] + [t] == [t];
    LeansPushed(below, Frame(Operator(op), [t]), ValuePart);
  }

  lemma {:induction false} PushLastLeans(spine: Spine, op: string)
    requires SpineLeans(spine, OperatorPart) && FilterPrecedence.ValueLast(spine)
    ensures SpineLeans(PushLast(spine, op), ValuePart)
  {
    var below, kind, items, t := FilterParsing.PushLastParts(spine, op);
    LeansPushed(below, Frame(kind, items + [t]), OperatorPart);
    LeansMore(kind, items, t);
    LeansMore(Operator(op), [], t);
    assert [] + [t] == [t];
    LeansPushed(below, Frame(kind, items), ValuePart);
    LeansPushed(below + [Frame(kind, items)], Frame(Operator(op), [t]), ValuePart);
  }

  lemma {:induction false} OperatorLeans(spine: Spine, op: string)
    requires SpineLeans(spine, OperatorPart) && FilterPrecedence.Rising(spine) && FilterPrecedence.ValueLast(spine)
    requires ParseOperator(spine, op).Parsing?
    ensures SpineLeans(ParseOperator(spine, op).spine, ValuePart)
  {
    var f := Last(spine);
    if f.kind.Operator? && f.kind.op == op {
    } else if f.kind.Operator? && Level(op) <= Level(f.kind.op) {
      if Level(op) < Level(f.kind.op) {
        ClimbLeans(spine);
        ClimbSettles(spine);
        PushCurrentLeans(Climb(spine), op);
      } else {
        PushCurrentLeans(spine, op);
      }
    } else {
      PushLastLeans(spine, op);
    }
  }

  lemma {:induction false} LeafLeans(spine: Spine, atom: Atom)
    requires SpineLeans(spine, ValuePart)
    ensures SpineLeans(AddTree(spine, Node(Operand(atom), [])), OperatorPart)
  {
    var below, f, t := Front(spine), Last(spine), Node(Operand(atom), []);
    LeansMore(f.kind, f.left, t);
    LeansPushed(below, Frame(f.kind, f.left + [t]), OperatorPart);
  }

  lemma {:induction false} TokenLeans(p: Parsing, before: seq<Token>, t: Token)
    requires p.Parsing? && FilterPrecedence.Matches(p, before) && SpineLeans(p.spine, p.mode) && Step(p, t).Parsing?
    ensures SpineLeans(Step(p, t).spine, Step(p, t).mode)
  {
    var spine := p.spine;
    match t
    case Value(atom) => LeafLeans(spine, atom);
    case Open =>
      assert spine == Front(spine) + [Last(spine)];
      LeansPushed(Front(spine), Last(spine), ValuePart);
      LeansPushed(spine, Frame(Group, []), ValuePart);
    case Op(op) => OperatorLeans(spine, op);
    case Close => CloseLeans(spine);
  }

  lemma {:induction false} RunLeans(ts: seq<Token>)
    requires Run(START, ts).Parsing?
    ensures SpineLeans(Run(START, ts).spine, Run(START, ts).mode)
  {
    if ts == [] {
      assert START.spine == [] + [Frame(Base, [])];
      LeansPushed([], Frame(Base, []), ValuePart);
    } else {
      RunLeans(Front(ts));
      FilterPrecedence.RunKeeps(Front(ts));
      TokenLeans(Run(START, Front(ts)), Front(ts), Last(ts));
    }
  }

  lemma {:induction false} CollapseLeans(spine: Spine)
    requires SpineLeans(spine, OperatorPart) && FilterPrecedence.Rising(spine)
    ensures Leans(Collapse(spine))
    decreases |spine|
  {
    if |spine| > 1 {
      AscendLeans(spine);
      CollapseLeans(Ascend(spine));
    }
  }

  // ----- The tree of a reading -----

  /** `r` of `(l op r) op ...` is a single operand, so the parser keeps both operators in one node. */
  predicate Joins(op: string, e: Expr) {
    e.Binary? && e.op == op && !e.right.Binary?
  }

  function TreeOf(e: Expr): (t: Tree)
    ensures e.Binary? ==> t.kind == Operator(e.op) && |t.items| >= 2
  {
    match e
    case Leaf(atom) => Node(Operand(atom), [])
    case Paren(body) => Node(Group, [TreeOf(body)])
    case Binary(op, l, r) => Node(Operator(op), (if Joins(op, l) then TreeOf(l).items else [TreeOf(l)]) + [TreeOf(r)])
  }

  lemma {:induction false} LastRead(t: Tree)
    requires Complete(t) && t.kind.Operator?
    ensures var e := Read(t); e.Binary? && e.op == t.kind.op && e.right == Read(Last(t.items))
  {
  }

  lemma {:induction false} FirstJoins(t: Tree, n: nat)
    requires Complete(t) && Leans(t) && t.kind.Operator? && 1 <= n < |t.items|
    ensures Joins(t.kind.op, ReadFirst(t, n)) <==> n > 1
  {
    assert LeansAt(t, n - 1);
    ReadTightness(t.items[n - 1]);
    if n == 1 && t.items[0].kind == t.kind {
      LastRead(t.items[0]);
      ReadTightness(Last(t.items[0].items));
    }
  }

  lemma {:induction false} FirstRebuilds(t: Tree, n: nat)
    requires Complete(t) && Leans(t) && t.kind.Operator? && 2 <= n <= |t.items|
    requires forall i :: 0 <= i < n ==> TreeOf(Read(t.items[i])) == t.items[i]
    ensures TreeOf(ReadFirst(t, n)) == Node(t.kind, t.items[..n])
    decreases n
  {
    FirstJoins(t, n - 1);
    assert t.items[..n] == t.items[..n - 1] + [t.items[n - 1]];
    if n > 2 {
      FirstRebuilds(t, n - 1);
    } else {
      assert t.items[..n - 1] == [t.items[0]];
      var one: nat := 1;
      assert ReadFirst(t, one) == Read(t.items[0]);
    }
  }

  /** A tree that leans to the left is the tree of its reading. */
  lemma {:induction false} Rebuilds(t: Tree)
    requires Complete(t) && Leans(t)
    ensures TreeOf(Read(t)) == t
    decreases t
  {
    forall i | 0 <= i < |t.items|
      ensures TreeOf(Read(t.items[i])) == t.items[i]
    {
      Rebuilds(t.items[i]);
    }
    if t.kind.Operator? {
      FirstRebuilds(t, |t.items|);
      assert t.items[..|t.items|] == t.items;
    } else if t.kind.Group? {
      assert t.items == [t.items[0]];
    }
  }

  lemma {:induction false} ReadPrefix(kind: Kind, items: seq<Tree>, t: Tree, n: nat)
    requires Complete(Node(kind, items)) && Complete(Node(kind, items + [t])) && kind.Operator? && 1 <= n <= |items|
    ensures ReadFirst(Node(kind, items + [t]), n) == ReadFirst(Node(kind, items), n)
    decreases n
  {
    if n > 1 {
      ReadPrefix(kind, items, t, n - 1);
    }
  }

  lemma {:induction false} ReadsBinary(op: string, items: seq<Tree>, t: Tree, l: Expr)
    requires Complete(Node(Operator(op), items + [t])) && items != []
    requires if |items| == 1 then Read(items[0]) == l else Complete(Node(Operator(op), items)) && Read(Node(Operator(op), items)) == l
    ensures Read(Node(Operator(op), items + [t])) == Binary(op, l, Read(t))
  {
    var n := Node(Operator(op), items + [t]);
    assert n.items[|items|] == t && n.items[0] == items[0];
    if |items| > 1 {
      ReadPrefix(Operator(op), items, t, |items|);
    } else {
      var one: nat := 1;
      assert ReadFirst(n, one) == Read(n.items[0]);
    }
  }

  /** Reading the tree of a conventional expression gives it back. */
  lemma {:induction false} ReadOf(e: Expr)
    requires Conventional(e)
    ensures Complete(TreeOf(e)) && Read(TreeOf(e)) == e
  {
    match e
    case Leaf(_) =>
    case Paren(body) => ReadOf(body);
    case Binary(op, l, r) =>
      ReadOf(l);
      ReadOf(r);
      var items := if Joins(op, l) then TreeOf(l).items else [TreeOf(l)];
      assert forall c :: c in items + [TreeOf(r)] ==> c in items || c == TreeOf(r);
      ReadsBinary(op, items, TreeOf(r), l);
  }

  // ----- What is read from a parsed sequence -----

  /** Nothing is missing behind the last token. */
  predicate Whole(ts: seq<Token>) {
    FilterParsing.Wellformed(ts) && FilterParsing.Balance(ts) == 0 && FilterParsing.ModeAfter(ts).OperatorPart?
  }

  /** In the operator part every node is complete, and the root holds the one tree. */
  lemma {:induction false} CollapseCompletes(spine: Spine)
    requires Shape(Parsing(spine, OperatorPart))
    ensures var t := Collapse(spine); t.kind.Base? && |t.items| == 1 && Complete(t.items[0])
    decreases |spine|
  {
    if |spine| > 1 {
      FilterParsing.AscendShape(spine);
      CollapseCompletes(Ascend(spine));
    }
  }

  /** The tree below the root of an accepted sequence. */
  function ParsedTree(ts: seq<Token>): (t: Tree)
    requires Whole(ts)
    ensures Parse(ts) == Accepted(Node(Base, [t])) && Complete(t)
  {
    FilterParsing.RunKeeps(ts);
    CollapseCompletes(Run(START, ts).spine);
    var root := Collapse(Run(START, ts).spine);
    assert root.items == [root.items[0]];
    root.items[0]
  }

  lemma {:induction false} ParsedShows(ts: seq<Token>)
    requires Whole(ts)
    ensures Tokens(Read(ParsedTree(ts))) == ts
  {
    var t := ParsedTree(ts);
    FilterParsing.RoundTrip(ts);
    ReadShows(t);
    assert [t] == [] + [t];
    FilterParsing.PrintItemAdded([], t, []);
    assert Print(Node(Base, [t])) == [] + ([] + Print(t)) + [] == Print(t);
  }

  lemma {:induction false} ParsedLeans(ts: seq<Token>)
    requires Whole(ts)
    ensures Leans(ParsedTree(ts)) && (FilterPrecedence.PrecedenceOk(ParsedTree(ts)) <==> FilterPrecedence.Clean(ts))
  {
    var t := ParsedTree(ts);
    FilterParsing.RunKeeps(ts);
    FilterPrecedence.RunKeeps(ts);
    FilterPrecedence.PrecedenceIff(ts);
    FilterPrecedence.OneChild(Base, t);
    RunLeans(ts);
    CollapseLeans(Run(START, ts).spine);
    LeansMore(Base, [], t);
    assert [] + [t] == [t];
  }

  // ----- Precedence in the tree is convention in the reading -----

  lemma {:induction false} ReadTightness(t: Tree)
    requires Complete(t)
    ensures Tightness(Read(t)) == if t.kind.Operator? then Level(t.kind.op) else 6
    ensures Read(t).Binary? <==> t.kind.Operator?
  {
  }

  lemma {:induction false} LevelBound(op: string)
    ensures Level(op) < 6
  {
  }

  lemma {:induction false} FirstConventional(t: Tree, n: nat)
    requires Complete(t) && Leans(t) && t.kind.Operator? && 1 <= n <= |t.items|
    ensures Conventional(ReadFirst(t, n)) <==>
            (n > 1 ==> FilterPrecedence.Nests(t.kind, t.items[0])) && forall i :: 0 <= i < n ==> Conventional(Read(t.items[i]))
    decreases t, n
  {
    if n > 1 {
      FirstConventional(t, n - 1);
      var item := t.items[n - 1];
      assert LeansAt(t, n - 1) && item in t.items;
      ReadTightness(item);
      ReadTightness(t.items[0]);
      LevelBound(t.kind.op);
    }
  }

  lemma {:induction false} ReadConventional(t: Tree)
    requires Complete(t) && Leans(t)
    ensures Conventional(Read(t)) <==> FilterPrecedence.PrecedenceOk(t)
    decreases t
  {
    forall c | c in t.items
      ensures Conventional(Read(c)) <==> FilterPrecedence.PrecedenceOk(c)
    {
      ReadConventional(c);
    }
    if t.kind.Operator? {
      FirstConventional(t, |t.items|);
      forall i | 0 < i < |t.items|
        ensures FilterPrecedence.Nests(t.kind, t.items[i])
      {
        assert LeansAt(t, i);
      }
    }
  }

  /**
    Whatever the parser builds from a whole sequence shows its tokens, and it is their conventional
    reading exactly when no bracket group has a misplaced drop.
   */
  lemma {:induction false} ReadsIff(ts: seq<Token>)
    requires Whole(ts)
    ensures Tokens(Read(ParsedTree(ts))) == ts
    ensures Conventional(Read(ParsedTree(ts))) <==> FilterPrecedence.Clean(ts)
  {
    ParsedShows(ts);
    ParsedLeans(ts);
    ReadConventional(ParsedTree(ts));
  }

  /** A conventional expression is read back as it was written exactly when it has no misplaced drop. */
  lemma {:induction false} ReadsBack(e: Expr)
    requires Conventional(e)
    ensures Whole(Tokens(e)) && (Read(ParsedTree(Tokens(e))) == e <==> FilterPrecedence.Clean(Tokens(e)))
  {
    Continues([], e);
    assert [] + Tokens(e) == Tokens(e);
    ReadsIff(Tokens(e));
    if FilterPrecedence.Clean(Tokens(e)) {
      OneReading(e, Read(ParsedTree(Tokens(e))));
    }
  }

  /** The parser builds the tree of a conventional expression exactly when it has no misplaced drop. */
  lemma {:induction false} ParsesBack(e: Expr)
    requires Conventional(e)
    ensures Parse(Tokens(e)) == Accepted(Node(Base, [TreeOf(e)])) <==> FilterPrecedence.Clean(Tokens(e))
  {
    ReadsBack(e);
    ReadOf(e);
    ParsedLeans(Tokens(e));
    Rebuilds(ParsedTree(Tokens(e)));
    assert [TreeOf(e)][0] == TreeOf(e);
  }
}
