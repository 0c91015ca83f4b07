/**
  When the parsed tree respects operator precedence. Precedence is lost when, inside one bracket
  group, a less tight operator arrives that still binds more tightly than the outermost operator.
 */
module FilterPrecedence {
  import opened FilterGrammar
  import FilterParsing

  // ----- Precedence in a tree -----

  predicate Nests(kind: Kind, t: Tree) {
    kind.Operator? && t.kind.Operator? ==> Level(kind.op) <= Level(t.kind.op)
  }

  /** No operator has a direct operator child that binds less tightly. */
  predicate PrecedenceOk(t: Tree) {
    forall c :: c in t.items ==> Nests(t.kind, c) && PrecedenceOk(c)
  }

  // ----- The condition on the tokens -----

  /**
    Inside one open bracket group: the level of the last operator, and the level at its last drop,
    or of its first operator.
   */
  datatype Scope = Empty | Scope(outer: int, last: int)

  function Seen(s: Scope, level: int): Scope {
    if s.Empty? || level < s.last then Scope(level, level) else Scope(s.outer, level)
  }

  /** A drop to a level above that of the last drop. */
  predicate Misplaced(s: Scope, level: int) {
    s.Scope? && s.outer < level < s.last
  }

  function Scopes(ts: seq<Token>): (r: seq<Scope>)
    ensures r != []
  {
    if ts == [] then [Empty]
    else
      var s := Scopes(Front(ts));
      match Last(ts)
      case Value(_) => s
      case Open => s + [Empty]
      case Close => if |s| > 1 then Front(s) else s
      case Op(op) => Front(s) + [Seen(Last(s), Level(op))]
  }

  predicate Clean(ts: seq<Token>) {
    ts == [] || (Clean(Front(ts)) && (Last(ts).Op? ==> !Misplaced(Last(Scopes(Front(ts))), Level(Last(ts).op))))
  }

  // ----- The same on the spine -----

  function OpenScopes(frames: seq<Frame>): seq<Scope> {
    if frames == [] then []
    else
      var s := OpenScopes(Front(frames));
      if Last(frames).kind.Operator? && s != [] then Front(s) + [Seen(Last(s), Level(Last(frames).kind.op))] else s + [Empty]
  }

  /** Along the open operators of a group levels rise. */
  ghost predicate Rising(frames: seq<Frame>) {
    frames == [] || (Rising(Front(frames)) && RisesTo(Front(frames), Last(frames).kind))
  }

  ghost predicate RisesTo(below: seq<Frame>, kind: Kind) {
    below != [] && Last(below).kind.Operator? && kind.Operator? ==> Level(Last(below).kind.op) < Level(kind.op)
  }

  ghost predicate SpineOk(frames: seq<Frame>) {
    frames == [] || (SpineOk(Front(frames)) && PrecedenceOk(Closed(Last(frames))))
  }

  lemma {:induction false} Pushed(below: seq<Frame>, f: Frame)
    ensures Rising(below + [f]) <==> Rising(below) && RisesTo(below, f.kind)
    ensures SpineOk(below + [f]) <==> SpineOk(below) && PrecedenceOk(Closed(f))
    ensures var s := OpenScopes(below);
            OpenScopes(below + [f]) == if f.kind.Operator? && s != [] then Front(s) + [Seen(Last(s), Level(f.kind.op))] else s + [Empty]
  {
    assert Front(below + [f]) == below;
  }

  lemma {:induction false} ChildAdded(kind: Kind, items: seq<Tree>, t: Tree)
    ensures PrecedenceOk(Node(kind, items + [t])) <==> PrecedenceOk(Node(kind, items)) && Nests(kind, t) && PrecedenceOk(t)
  {
    var n := Node(kind, items + [t]);
    assert t in n.items && forall c :: c in items ==> c in n.items;
  }

  lemma {:induction false} OneChild(kind: Kind, t: Tree)
    ensures PrecedenceOk(Node(kind, [t])) <==> Nests(kind, t) && PrecedenceOk(t)
  {
    ChildAdded(kind, [], t);
    assert [] + [t] == [t];
  }

  /** Closing the innermost node keeps what is known of the spine. */
  lemma {:induction false} Merged(below: seq<Frame>, parent: Frame, f: Frame)
    requires RisesTo(below + [parent], f.kind)
    ensures var merged := Frame(parent.kind, parent.left + [Closed(f)]);
            && (Rising(below + [merged]) <==> Rising(below + [parent]))
            && (SpineOk(below + [merged]) <==> SpineOk(below + [parent] + [f]))
            && OpenScopes(below + [merged]) == OpenScopes(below + [parent])
  {
    var merged := Frame(parent.kind, parent.left + [Closed(f)]);
    Pushed(below, parent);
    Pushed(below, merged);
    Pushed(below + [parent], f);
    ChildAdded(parent.kind, parent.left, Closed(f));
    assert Last(below + [parent]) == parent;
  }

  lemma {:induction false} AscendKeeps(spine: Spine)
    requires Rising(spine) && |spine| > 1
    ensures var up := Ascend(spine);
            Rising(up) && (SpineOk(up) <==> SpineOk(spine)) && OpenScopes(up) == OpenScopes(Front(spine))
  {
    var up := Front(spine);
    assert up == Front(up) + [Last(up)] && spine == up + [Last(spine)];
    Merged(Front(up), Last(up), Last(spine));
  }

  // ----- Operators -----

  lemma {:induction false} ScopesNonempty(frames: seq<Frame>)
    requires frames != []
    ensures OpenScopes(frames) != []
  {
  }

  /** The climb ends at the operator whose level the scope calls the outermost. */
  lemma {:induction false} ClimbKeeps(spine: Spine)
    requires Shape(Parsing(spine, OperatorPart)) && Last(spine).kind.Operator? && Rising(spine)
    ensures var r := Climb(spine);
            && Rising(r) && Last(r).kind.Operator? && (SpineOk(r) <==> SpineOk(spine))
            && Front(OpenScopes(r)) == Front(OpenScopes(spine)) && OpenScopes(Front(r)) == Front(OpenScopes(spine)) + [Empty]
            && Last(OpenScopes(spine)).Scope? && Last(OpenScopes(spine)).outer == Level(Last(r).kind.op)
            && Last(OpenScopes(spine)).last == Level(Last(spine).kind.op)
    decreases |spine|
  {
    var below, f := Front(spine), Last(spine);
    assert spine == below + [f];
    Pushed(below, f);
    if Last(below).kind.Operator? {
      FilterParsing.ClimbStep(spine);
      AscendKeeps(spine);
      ClimbKeeps(Ascend(spine));
      assert Last(Ascend(spine)).kind == Last(below).kind;
    } else {
      assert OpenScopes(below) == OpenScopes(Front(below)) + [Empty];
    }
  }

  /** In the operator part the last value read is no open operator. */
  ghost predicate ValueLast(spine: Spine) {
    Last(spine).left != [] && !Last(Last(spine).left).kind.Operator?
  }

  /** What an operator must do to the state, given the scope it arrives in. */
  ghost predicate Applied(spine: Spine, op: string, r: Spine) {
    var s := OpenScopes(spine);
    && Rising(r) && s != [] && OpenScopes(r) == Front(s) + [Seen(Last(s), Level(op))]
    && (SpineOk(r) <==> SpineOk(spine) && !Misplaced(Last(s), Level(op)))
  }

  lemma {:induction false} PushLastApplies(below: seq<Frame>, f: Frame, items: seq<Tree>, t: Tree, op: string)
    requires f.left == items + [t] && !t.kind.Operator? && Rising(below + [f]) && RisesTo(below + [f], Operator(op))
    requires below == [] ==> !f.kind.Operator?
    ensures Applied(below + [f], op, below + [Frame(f.kind, items)] + [Frame(Operator(op), [t])])
  {
    var g, n := Frame(f.kind, items), Frame(Operator(op), [t]);
    Pushed(below, f);
    Pushed(below, g);
    Pushed(below + [g], n);
    ChildAdded(f.kind, items, t);
    OneChild(Operator(op), t);
    assert Last(below + [f]) == f && Last(below + [g]) == g;
    assert OpenScopes(below + [g]) == OpenScopes(below + [f]);
    ScopesNonempty(below + [f]);
    if f.kind.Operator? {
      ScopesNonempty(below);
    }
  }

  /** Replacing the current operator by one of the same level. */
  lemma {:induction false} PushCurrentApplies(below: seq<Frame>, f: Frame, op: string)
    requires f.kind.Operator? && Level(f.kind.op) == Level(op) && Rising(below + [f]) && below != []
    ensures Applied(below + [f], op, below + [Frame(Operator(op), [Closed(f)])])
  {
    var n := Frame(Operator(op), [Closed(f)]);
    Pushed(below, f);
    Pushed(below, n);
    OneChild(Operator(op), Closed(f));
    ScopesNonempty(below);
  }

  lemma {:induction false} DropKeeps(spine: Spine, op: string)
    requires Shape(Parsing(spine, OperatorPart)) && Last(spine).kind.Operator? && Rising(spine)
    requires Level(op) < Level(Last(spine).kind.op)
    ensures Applied(spine, op, PushCurrent(Climb(spine), op))
  {
    var r := Climb(spine);
    ClimbKeeps(spine);
    FilterParsing.ClimbIsOutermost(spine);
    var below, f, n := Front(r), Last(r), Frame(Operator(op), [Closed(Last(r))]);
    assert r == below + [f] && Last(below) == r[|r| - 2];
    Pushed(below, f);
    Pushed(below, n);
    OneChild(Operator(op), Closed(f));
  }

  /**
    A drop: the new operator becomes the outermost one of its group, whatever is there, with all that
    came before below it. That keeps precedence exactly when the drop is not misplaced.
   */
  lemma {:induction false} DropApplies(spine: Spine, op: string)
    requires Shape(Parsing(spine, OperatorPart)) && Last(spine).kind.Operator? && Rising(spine)
    requires Level(op) < Level(Last(spine).kind.op)
    ensures var r := PushCurrent(Climb(spine), op);
            && (Level(op) >= 0 ==> ParseOperator(spine, op) == Parsing(r, ValuePart)) && Applied(spine, op, r)
            && 1 < |r| <= |spine| && Front(r) == spine[..|r| - 1] && !Last(Front(r)).kind.Operator?
            && Last(r) == Frame(Operator(op), [Closed(Last(Climb(spine)))])
  {
    DropKeeps(spine, op);
    FilterParsing.ClimbIsOutermost(spine);
  }

  lemma {:induction false} SameOperatorApplies(below: seq<Frame>, f: Frame)
    requires below != [] && f.kind.Operator? && Rising(below + [f])
    ensures Applied(below + [f], f.kind.op, below + [f])
  {
    Pushed(below, f);
    ScopesNonempty(below);
  }

  lemma {:induction false} OperatorApplies(spine: Spine, op: string)
    requires Shape(Parsing(spine, OperatorPart)) && Rising(spine) && ValueLast(spine) && Level(op) >= 0
    ensures var q := ParseOperator(spine, op); q.Parsing? && Applied(spine, op, q.spine)
  {
    var below, f := Front(spine), Last(spine);
    assert spine == below + [f];
    Pushed(below, f);
    if f.kind.Operator? && f.kind.op == op {
      SameOperatorApplies(below, f);
    } else if f.kind.Operator? && Level(op) <= Level(f.kind.op) {
      if Level(op) < Level(f.kind.op) {
        DropKeeps(spine, op);
      } else {
        PushCurrentApplies(below, f, op);
      }
    } else {
      var items, t := Front(f.left), Last(f.left);
      assert f.left == items + [t];
      PushLastApplies(below, f, items, t, op);
      assert PushLast(spine, op) == below + [Frame(f.kind, items)] + [Frame(Operator(op), [t])];
    }
  }

  // ----- Brackets -----

  lemma {:induction false} CloseApplies(spine: Spine)
    requires Shape(Parsing(spine, OperatorPart)) && Rising(spine) && ParseClose(spine).Parsing?
    ensures var r := ParseClose(spine).spine;
            && Rising(r) && ValueLast(r) && (SpineOk(r) <==> SpineOk(spine))
            && |OpenScopes(spine)| > 1 && OpenScopes(r) == Front(OpenScopes(spine))
    decreases |spine|
  {
    var below, f := Front(spine), Last(spine);
    assert spine == below + [f];
    Pushed(below, f);
    ScopesNonempty(below);
    AscendKeeps(spine);
    if !f.kind.Group? {
      FilterParsing.AscendShape(spine);
      CloseApplies(Ascend(spine));
    }
  }

  // ----- Whole sequences -----

  ghost predicate Matches(p: Parsing, ts: seq<Token>)
    requires p.Parsing?
  {
    && Rising(p.spine) && (p.mode.OperatorPart? ==> ValueLast(p.spine))
    && OpenScopes(p.spine) == Scopes(ts) && (SpineOk(p.spine) <==> Clean(ts))
  }

  lemma {:induction false} TokenKeeps(p: Parsing, before: seq<Token>, t: Token)
    requires Shape(p) && Matches(p, before) && Step(p, t).Parsing?
    ensures Matches(Step(p, t), before + [t])
  {
    var spine := p.spine;
    assert Front(before + [t]) == before;
    match t
    case Value(atom) => LeafKeeps(spine, atom);
    case Open =>
      Pushed(spine, Frame(Group, []));
    case Op(op) =>
      FilterParsing.OperatorKeeps(spine, op);
      OperatorApplies(spine, op);
    case Close => CloseApplies(spine);
  }

  lemma {:induction false} LeafKeeps(spine: Spine, atom: Atom)
    requires Rising(spine)
    ensures var r := AddTree(spine, Node(Operand(atom), []));
            && Rising(r) && ValueLast(r) && OpenScopes(r) == OpenScopes(spine) && (SpineOk(r) <==> SpineOk(spine))
  {
    var below, f, t := Front(spine), Last(spine), Node(Operand(atom), []);
    assert spine == below + [f];
    Pushed(below, f);
    Pushed(below, Frame(f.kind, f.left + [t]));
    ChildAdded(f.kind, f.left, t);
  }

  lemma {:induction false} StartMatches()
    ensures Matches(START, [])
  {
    Pushed([], Frame(Base, []));
    assert [] + [Frame(Base, [])] == START.spine;
  }

  lemma {:induction false} RunKeeps(ts: seq<Token>)
    requires Run(START, ts).Parsing?
    ensures Matches(Run(START, ts), ts)
  {
    if ts == [] {
      StartMatches();
    } else {
      var before := Front(ts);
      RunKeeps(before);
      FilterParsing.RunKeeps(before);
      TokenKeeps(Run(START, before), before, Last(ts));
      assert ts == before + [Last(ts)];
    }
  }

  lemma {:induction false} CollapseKeeps(spine: Spine)
    requires Rising(spine)
    ensures PrecedenceOk(Collapse(spine)) <==> SpineOk(spine)
    decreases |spine|
  {
    if |spine| == 1 {
      assert Front(spine) == [];
    } else {
      AscendKeeps(spine);
      CollapseKeeps(Ascend(spine));
    }
  }

  /**
    The tree of an accepted sequence respects precedence exactly when, inside each bracket group, no
    operator drops to a level above that of the last drop, or of the group's first operator.
   */
  lemma {:induction false} PrecedenceIff(ts: seq<Token>)
    requires FilterParsing.Wellformed(ts)
    ensures Parse(ts).Accepted? && (PrecedenceOk(Parse(ts).tree) <==> Clean(ts))
  {
    FilterParsing.RunKeeps(ts);
    RunKeeps(ts);
    CollapseKeeps(Run(START, ts).spine);
  }

  // ----- Filters that lose precedence -----

  function Leaf(a: Atom): Tree {
    Node(Operand(a), [])
  }

  lemma {:induction false} ValueAdded(below: seq<Frame>, f: Frame, a: Atom)
    ensures AddTree(below + [f], Leaf(a)) == below + [Frame(f.kind, f.left + [Leaf(a)])]
  {
    assert Front(below + [f]) == below;
  }

  lemma {:induction false} TighterPushed(below: seq<Frame>, f: Frame, t: Tree, op: string)
    requires Level(op) >= 0 && (f.kind.Operator? ==> Level(op) > Level(f.kind.op))
    ensures ParseOperator(below + [Frame(f.kind, f.left + [t])], op) == Parsing(below + [f] + [Frame(Operator(op), [t])], ValuePart)
  {
    var s := below + [Frame(f.kind, f.left + [t])];
    assert Front(s) == below && Front(f.left + [t]) == f.left;
    assert PushLast(s, op) == below + [f] + [Frame(Operator(op), [t])];
  }

  /** A value and an operator, one after the other. */
  lemma {:induction false} TwoTokens(p: Parsing, a: Atom, op: string)
    ensures Run(p, [Value(a), Op(op)]) == Step(Step(p, Value(a)), Op(op))
  {
    RunSnoc(p, [], Value(a));
    RunSnoc(p, [Value(a)], Op(op));
    assert [] + [Value(a)] == [Value(a)] && [Value(a)] + [Op(op)] == [Value(a), Op(op)];
  }

  /** A value and then an operator that binds more tightly than the open one, if any. */
  lemma {:induction false} ValueThenTighter(below: seq<Frame>, f: Frame, a: Atom, op: string)
    requires Level(op) >= 0 && (f.kind.Operator? ==> Level(op) > Level(f.kind.op))
    ensures Run(Parsing(below + [f], ValuePart), [Value(a), Op(op)]) == Parsing(below + [f] + [Frame(Operator(op), [Leaf(a)])], ValuePart)
  {
    TwoTokens(Parsing(below + [f], ValuePart), a, op);
    ValueAdded(below, f, a);
    TighterPushed(below, f, Leaf(a), op);
  }

  lemma {:induction false} ClimbsTwo(lo: Frame, hi: Frame)
    requires lo.kind.Operator? && hi.kind.Operator? && Level(lo.kind.op) >= 0
    ensures Climb([Frame(Base, []), lo, hi]) == [Frame(Base, []), Frame(lo.kind, lo.left + [Closed(hi)])]
  {
    var s: Spine := [Frame(Base, []), lo, hi];
    assert Front(s) == [Frame(Base, []), lo] && Front(Front(s)) == [Frame(Base, [])];
    assert Ascend(s) == [Frame(Base, []), Frame(lo.kind, lo.left + [Closed(hi)])];
  }

  /** The root with the three operators of `a lo b hi c mid`: the last one has taken the place of the first. */
  function Overtaken(a: Atom, b: Atom, c: Atom, lo: string, mid: string, hi: string): Frame {
    Frame(Operator(mid), [Node(Operator(lo), [Leaf(a), Node(Operator(hi), [Leaf(b), Leaf(c)])])])
  }

  lemma {:induction false} RisesThenDrops(a: Atom, b: Atom, c: Atom, lo: string, mid: string, hi: string)
    requires 0 <= Level(lo) < Level(mid) < Level(hi)
    ensures Run(START, [Value(a), Op(lo)] + [Value(b), Op(hi)] + [Value(c), Op(mid)])
         == Parsing([Frame(Base, []), Overtaken(a, b, c, lo, mid, hi)], ValuePart)
  {
    var base, low, high := Frame(Base, []), Frame(Operator(lo), [Leaf(a)]), Frame(Operator(hi), [Leaf(b)]);
    var full := Frame(Operator(hi), [Leaf(b)] + [Leaf(c)]);
    ValueThenTighter([], base, a, lo);
    assert [] + [base] == START.spine && [base] + [low] == [base, low];
    ValueThenTighter([base], low, b, hi);
    assert [base, low] + [high] == [base, low, high];
    RunAppend(START, [Value(a), Op(lo)], [Value(b), Op(hi)]);
    DropsBetween(base, low, high, full, c, mid);
    RunAppend(START, [Value(a), Op(lo)] + [Value(b), Op(hi)], [Value(c), Op(mid)]);
    assert low.left + [Closed(full)] == [Leaf(a), Closed(full)] && full.left == [Leaf(b), Leaf(c)];
  }

  lemma {:induction false} LastValue(f: Frame, d: Atom)
    requires f.kind.Operator?
    ensures Collapse(AddTree([Frame(Base, []), f], Leaf(d))) == Node(Base, [Node(f.kind, f.left + [Leaf(d)])])
  {
    var s: Spine := [Frame(Base, []), Frame(f.kind, f.left + [Leaf(d)])];
    assert Front([Frame(Base, []), f]) == [Frame(Base, [])] && AddTree([Frame(Base, []), f], Leaf(d)) == s;
    var root: Spine := [Frame(Base, [])];
    assert Front(s) == root && Front(root) == [] && [] + [Closed(Last(s))] == [Closed(Last(s))];
    assert Ascend(s) == [Frame(Base, [Closed(Last(s))])];
  }

  /** Whenever levels rise and then drop between the two, as in `a or b = c and d`, precedence is lost. */
  lemma {:induction false} PrecedenceLost(a: Atom, b: Atom, c: Atom, d: Atom, lo: string, mid: string, hi: string)
    requires 0 <= Level(lo) < Level(mid) < Level(hi)
    ensures var ts := [Value(a), Op(lo)] + [Value(b), Op(hi)] + [Value(c), Op(mid)] + [Value(d)];
            var first := Node(Operator(lo), [Leaf(a), Node(Operator(hi), [Leaf(b), Leaf(c)])]);
            var tree := Node(Operator(mid), [first, Leaf(d)]);
            Parse(ts) == Accepted(Node(Base, [tree])) && !PrecedenceOk(tree)
  {
    var f := Overtaken(a, b, c, lo, mid, hi);
    RisesThenDrops(a, b, c, lo, mid, hi);
    RunSnoc(START, [Value(a), Op(lo)] + [Value(b), Op(hi)] + [Value(c), Op(mid)], Value(d));
    LastValue(f, d);
    var first := f.left[0];
    assert f.left + [Leaf(d)] == [first, Leaf(d)];
    assert first in Node(f.kind, [first, Leaf(d)]).items && !Nests(f.kind, first);
  }

  lemma {:induction false} DocumentedLevels()
    ensures 0 <= Level("or") < Level("and") < Level("=")
  {
    assert Lower("or") == "or" && Lower("and") == "and" && Lower("=") == "=";
  }

  lemma {:induction false} DropsBetween(base: Frame, low: Frame, high: Frame, full: Frame, c: Atom, mid: string)
    requires base == Frame(Base, []) && low.kind.Operator? && high.kind.Operator?
    requires 0 <= Level(low.kind.op) < Level(mid) < Level(high.kind.op)
    requires full == Frame(high.kind, high.left + [Leaf(c)])
    ensures Run(Parsing([base, low, high], ValuePart), [Value(c), Op(mid)])
         == Parsing([base, Frame(Operator(mid), [Node(low.kind, low.left + [Closed(full)])])], ValuePart)
  {
    TwoTokens(Parsing([base, low, high], ValuePart), c, mid);
    ValueAdded([base, low], high, c);
    assert [base, low] + [high] == [base, low, high] && [base, low] + [full] == [base, low, full];
    ClimbsTwo(low, full);
    assert Front([base, Frame(low.kind, low.left + [Closed(full)])]) == [base];
  }
}
