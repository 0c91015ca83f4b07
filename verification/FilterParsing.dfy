/**
  What the filter parser does on every token sequence: which sequences it accepts, and that printing
  the tree in order gives the input back whatever the mix of precedences.
 */
module FilterParsing {
  import opened FilterGrammar

  // ----- Which tokens may follow -----

  function ModeAfter(ts: seq<Token>): Mode {
    if ts != [] && (Last(ts).Value? || Last(ts).Close?) then OperatorPart else ValuePart
  }

  /** Open brackets minus closed ones. */
  function Balance(ts: seq<Token>): int {
    if ts == [] then 0
    else Balance(Front(ts)) + (if Last(ts).Open? then 1 else if Last(ts).Close? then -1 else 0)
  }

  predicate MayFollow(before: seq<Token>, t: Token) {
    match t
    case Value(_) => ModeAfter(before).ValuePart?
    case Open => ModeAfter(before).ValuePart?
    case Op(op) => ModeAfter(before).OperatorPart? && Level(op) >= 0
    case Close => ModeAfter(before).OperatorPart? && Balance(before) > 0
  }

  /** Values and operators alternate, operators are known, and no bracket closes too early. */
  predicate Wellformed(ts: seq<Token>) {
    forall i :: 0 <= i < |ts| ==> MayFollow(ts[..i], ts[i])
  }

  function Closes(n: nat): seq<Token> {
    if n == 0 then [] else Closes(n - 1) + [Close]
  }

  predicate EndsWithOperator(ts: seq<Token>) {
    ts != [] && Last(ts).Op?
  }

  // ----- One move -----

  lemma {:induction false} PrintPushed(frames: seq<Frame>, f: Frame)
    ensures PrintFrames(frames + [f]) == PrintFrames(frames) + Opening(f.kind) + PrintLed(f.left, Separator(f.kind))
    ensures Depth(frames + [f]) == Depth(frames) + (if f.kind.Group? then 1 else 0)
  {
    assert Front(frames + [f]) == frames;
  }

  lemma {:induction false} PrintItemAdded(items: seq<Tree>, t: Tree, sep: seq<Token>)
    ensures PrintJoined(items + [t], sep) == PrintLed(items, sep) + Print(t)
    ensures PrintLed(items + [t], sep) == PrintLed(items, sep) + Print(t) + sep
  {
    assert (items + [t])[..|items|] == items;
  }

  lemma {:induction false} PrintLedIsJoined(items: seq<Tree>, sep: seq<Token>)
    requires items != []
    ensures PrintLed(items, sep) == PrintJoined(items, sep) + sep
  {
  }

  function TopPrint(f: Frame): seq<Token> {
    Opening(f.kind) + PrintJoined(f.left, Separator(f.kind))
  }

  lemma {:induction false} PrintTop(below: seq<Frame>, f: Frame)
    ensures PrintSpine(below + [f], OperatorPart) == PrintFrames(below) + TopPrint(f)
  {
    assert Front(below + [f]) == below;
  }

  function Closing(f: Frame): seq<Token> {
    if f.kind.Group? then [Close] else []
  }

  lemma {:induction false} ClosedPrints(before: seq<Token>, f: Frame)
    requires !f.kind.Operand?
    ensures before + Print(Closed(f)) == before + TopPrint(f) + Closing(f)
  {
    assert Print(Closed(f)) == TopPrint(f) + Closing(f);
  }

  lemma {:induction false} Regroup(a: seq<Token>, b: seq<Token>, c: seq<Token>, d: seq<Token>)
    ensures a + b + c + d == a + (b + (c + d))
  {
  }

  lemma {:induction false} AscendPrints(below: seq<Frame>, parent: Frame, f: Frame)
    requires !f.kind.Operand?
    ensures PrintSpine(Ascend(below + [parent] + [f]), OperatorPart)
         == PrintSpine(below + [parent] + [f], OperatorPart) + Closing(f)
  {
    var up := below + [parent];
    var merged := Frame(parent.kind, parent.left + [Closed(f)]);
    assert Front(up + [f]) == up && Front(up) == below;
    assert Ascend(up + [f]) == below + [merged];
    PrintTop(below, merged);
    PrintTop(up, f);
    PrintPushed(below, parent);
    PrintItemAdded(parent.left, Closed(f), Separator(parent.kind));
    Regroup(PrintFrames(below), Opening(parent.kind), PrintLed(parent.left, Separator(parent.kind)), Print(Closed(f)));
    ClosedPrints(PrintFrames(up), f);
  }

  lemma {:induction false} AscendShape(spine: Spine)
    requires Shape(Parsing(spine, OperatorPart)) && |spine| > 1
    ensures Shape(Parsing(Ascend(spine), OperatorPart))
    ensures Depth(Ascend(spine)) == Depth(spine) - (if Last(spine).kind.Group? then 1 else 0)
  {
    var up := Front(spine);
    assert Complete(Closed(Last(spine)));
    assert Front(Ascend(spine)) == Front(up);
  }

  lemma {:induction false} AscendPrintsAt(spine: Spine)
    requires |spine| > 1 && !Last(spine).kind.Operand?
    ensures PrintSpine(Ascend(spine), OperatorPart) == PrintSpine(spine, OperatorPart) + Closing(Last(spine))
  {
    var up := Front(spine);
    assert spine == Front(up) + [Last(up)] + [Last(spine)];
    AscendPrints(Front(up), Last(up), Last(spine));
  }

  lemma {:induction false} ClimbStep(spine: Spine)
    requires Shape(Parsing(spine, OperatorPart)) && |spine| > 1 && Last(spine).kind.Operator?
    requires spine[|spine| - 2].kind.Operator? && Level(spine[|spine| - 2].kind.op) >= 0
    ensures var up := Ascend(spine);
            && Shape(Parsing(up, OperatorPart)) && |up| > 1 && Last(up).kind.Operator? && Climb(up) == Climb(spine)
  {
    AscendShape(spine);
  }

  lemma {:induction false} ClimbShape(spine: Spine)
    requires Shape(Parsing(spine, OperatorPart)) && Last(spine).kind.Operator?
    ensures var r := Climb(spine); Shape(Parsing(r, OperatorPart)) && Last(r).kind.Operator? && Depth(r) == Depth(spine)
    decreases |spine|
  {
    if |spine| > 1 && spine[|spine| - 2].kind.Operator? {
      AscendShape(spine);
      var up := Ascend(spine);
      assert Last(up).kind.Operator?;
      ClimbShape(up);
    }
  }

  lemma {:induction false} ClimbIsOutermost(spine: Spine)
    requires Shape(Parsing(spine, OperatorPart)) && Last(spine).kind.Operator?
    ensures var r := Climb(spine); 1 < |r| <= |spine| && !r[|r| - 2].kind.Operator? && Front(r) == spine[..|r| - 1]
    decreases |spine|
  {
    var below := Front(spine);
    if Last(below).kind.Operator? {
      ClimbStep(spine);
      var up := Ascend(spine);
      ClimbIsOutermost(up);
      assert up[..|below| - 1] == spine[..|below| - 1];
    }
  }

  lemma {:induction false} ClimbPrints(spine: Spine)
    requires Last(spine).kind.Operator?
    ensures PrintSpine(Climb(spine), OperatorPart) == PrintSpine(spine, OperatorPart)
    decreases |spine|
  {
    if |spine| > 1 && spine[|spine| - 2].kind.Operator? && Level(spine[|spine| - 2].kind.op) >= 0 {
      AscendPrintsAt(spine);
      var up := Ascend(spine);
      assert Last(up).kind.Operator?;
      ClimbPrints(up);
    }
  }

  lemma {:induction false} PrintNewOperator(below: seq<Frame>, t: Tree, op: string)
    ensures PrintSpine(below + [Frame(Operator(op), [t])], ValuePart) == PrintFrames(below) + Print(t) + [Op(op)]
  {
    PrintPushed(below, Frame(Operator(op), [t]));
    assert [] + [t] == [t];
    PrintItemAdded([], t, [Op(op)]);
  }

  lemma {:induction false} PushCurrentKeeps(spine: Spine, op: string)
    requires Shape(Parsing(spine, OperatorPart)) && Last(spine).kind.Operator? && Level(op) >= 0
    ensures var r := PushCurrent(spine, op);
            && Shape(Parsing(r, ValuePart))
            && PrintSpine(r, ValuePart) == PrintSpine(spine, OperatorPart) + [Op(op)] && Depth(r) == Depth(spine)
  {
    var f := Last(spine);
    assert Complete(Closed(f));
    PrintNewOperator(Front(spine), Closed(f), op);
    assert Front(PushCurrent(spine, op)) == Front(spine);
  }

  lemma {:induction false} PushLastShape(below: seq<Frame>, kind: Kind, items: seq<Tree>, t: Tree, op: string)
    requires Shape(Parsing(below + [Frame(kind, items + [t])], OperatorPart)) && Level(op) >= 0
    ensures Shape(Parsing(below + [Frame(kind, items)] + [Frame(Operator(op), [t])], ValuePart))
  {
    assert Front(below + [Frame(kind, items + [t])]) == below;
    var up := below + [Frame(kind, items)];
    assert Front(up) == below && Front(up + [Frame(Operator(op), [t])]) == up;
    assert t in items + [t];
    assert forall c :: c in items ==> c in items + [t];
  }

  lemma {:induction false} PushLastPrints(below: seq<Frame>, kind: Kind, items: seq<Tree>, t: Tree, op: string)
    ensures PrintSpine(below + [Frame(kind, items)] + [Frame(Operator(op), [t])], ValuePart)
         == PrintSpine(below + [Frame(kind, items + [t])], OperatorPart) + [Op(op)]
  {
    PrintNewOperator(below + [Frame(kind, items)], t, op);
    PrintPushed(below, Frame(kind, items));
    PrintTop(below, Frame(kind, items + [t]));
    PrintItemAdded(items, t, Separator(kind));
    Regroup(PrintFrames(below), Opening(kind), PrintLed(items, Separator(kind)), Print(t));
  }

  lemma {:induction false} PushLastAt(below: seq<Frame>, kind: Kind, items: seq<Tree>, t: Tree, op: string)
    requires Shape(Parsing(below + [Frame(kind, items + [t])], OperatorPart)) && Level(op) >= 0
    ensures var before, r := below + [Frame(kind, items + [t])], below + [Frame(kind, items)] + [Frame(Operator(op), [t])];
            && Shape(Parsing(r, ValuePart)) && Depth(r) == Depth(before)
            && PrintSpine(r, ValuePart) == PrintSpine(before, OperatorPart) + [Op(op)]
  {
    PushLastShape(below, kind, items, t, op);
    PushLastPrints(below, kind, items, t, op);
    PrintPushed(below, Frame(kind, items + [t]));
    PrintPushed(below, Frame(kind, items));
    PrintPushed(below + [Frame(kind, items)], Frame(Operator(op), [t]));
  }

  lemma {:induction false} PushLastParts(spine: Spine, op: string) returns (below: seq<Frame>, kind: Kind, items: seq<Tree>, t: Tree)
    requires Last(spine).left != []
    ensures spine == below + [Frame(kind, items + [t])]
    ensures PushLast(spine, op) == below + [Frame(kind, items)] + [Frame(Operator(op), [t])]
  {
    var f := Last(spine);
    below, kind, items, t := Front(spine), f.kind, Front(f.left), Last(f.left);
    assert f.left == items + [t];
  }

  lemma {:induction false} PushLastKeeps(spine: Spine, op: string)
    requires Shape(Parsing(spine, OperatorPart)) && Level(op) >= 0
    requires Last(spine).left != []
    ensures var r := PushLast(spine, op);
            && Shape(Parsing(r, ValuePart))
            && PrintSpine(r, ValuePart) == PrintSpine(spine, OperatorPart) + [Op(op)] && Depth(r) == Depth(spine)
  {
    var below, kind, items, t := PushLastParts(spine, op);
    PushLastAt(below, kind, items, t, op);
  }

  lemma {:induction false} OperatorKeeps(spine: Spine, op: string)
    requires Shape(Parsing(spine, OperatorPart))
    ensures var q := ParseOperator(spine, op);
            && (q.Parsing? <==> Level(op) >= 0)
            && (q.Parsing? ==>
                  && Shape(q) && q.mode.ValuePart? && Depth(q.spine) == Depth(spine)
                  && PrintSpine(q.spine, ValuePart) == PrintSpine(spine, OperatorPart) + [Op(op)])
  {
    var f := Last(spine);
    if f.kind.Operator? && f.kind.op == op {
      PrintPushed(Front(spine), f);
      PrintLedIsJoined(f.left, [Op(op)]);
      assert spine == Front(spine) + [f];
    } else if Level(op) >= 0 {
      if f.kind.Operator? && Level(op) <= Level(f.kind.op) {
        if Level(op) < Level(f.kind.op) {
          ClimbShape(spine);
          ClimbPrints(spine);
          PushCurrentKeeps(Climb(spine), op);
        } else {
          PushCurrentKeeps(spine, op);
        }
      } else {
        PushLastKeeps(spine, op);
      }
    }
  }

  lemma {:induction false} CloseKeeps(spine: Spine)
    requires Shape(Parsing(spine, OperatorPart))
    ensures var q := ParseClose(spine);
            && (q.Parsing? <==> Depth(spine) > 0)
            && (q.Parsing? ==>
                  && Shape(q) && q.mode.OperatorPart? && Depth(q.spine) == Depth(spine) - 1
                  && PrintSpine(q.spine, OperatorPart) == PrintSpine(spine, OperatorPart) + [Close])
    decreases |spine|
  {
    if |spine| == 1 {
      assert Front(spine) == [];
    } else {
      AscendShape(spine);
      AscendPrintsAt(spine);
      if !Last(spine).kind.Group? { CloseKeeps(Ascend(spine)); }
    }
  }

  // ----- Whole sequences -----

  /** The parser survives exactly the wellformed prefixes, and then its state has the invariant
      shape and stands for exactly the tokens read. */
  lemma {:induction false} RunKeeps(ts: seq<Token>)
    ensures Run(START, ts).Parsing? <==> Wellformed(ts)
    ensures Wellformed(ts) ==>
              var p := Run(START, ts);
              && Shape(p) && p.mode == ModeAfter(ts) && Depth(p.spine) == Balance(ts)
              && PrintSpine(p.spine, p.mode) == ts
  {
    if ts == [] {
      assert Front(START.spine) == [];
    } else {
      var before, t := Front(ts), Last(ts);
      RunKeeps(before);
      assert forall i :: 0 <= i < |before| ==> before[..i] == ts[..i] && before[i] == ts[i];
      assert ts == before + [t] && ts[..|before|] == before;
      assert Wellformed(ts) <==> Wellformed(before) && MayFollow(before, t);
      if Wellformed(before) { StepKeeps(Run(START, before), before, t); }
    }
  }

  lemma {:induction false} StepKeeps(p: Parsing, before: seq<Token>, t: Token)
    requires Shape(p) && p.mode == ModeAfter(before) && Depth(p.spine) == Balance(before)
    requires PrintSpine(p.spine, p.mode) == before
    ensures var q := Step(p, t);
            && (q.Parsing? <==> MayFollow(before, t))
            && (q.Parsing? ==>
                  && Shape(q) && q.mode == ModeAfter(before + [t]) && Depth(q.spine) == Balance(before + [t])
                  && PrintSpine(q.spine, q.mode) == before + [t])
  {
    var spine := p.spine;
    TokenAdded(before, t);
    match t
    case Value(atom) =>
      if p.mode.ValuePart? { AddLeafKeeps(spine, atom); }
    case Open =>
      if p.mode.ValuePart? { OpenKeeps(spine); }
    case Op(op) =>
      if p.mode.OperatorPart? { OperatorKeeps(spine, op); }
    case Close =>
      if p.mode.OperatorPart? { CloseKeeps(spine); }
  }

  lemma {:induction false} TokenAdded(before: seq<Token>, t: Token)
    ensures ModeAfter(before + [t]) == if t.Value? || t.Close? then OperatorPart else ValuePart
    ensures Balance(before + [t]) == Balance(before) + (if t.Open? then 1 else if t.Close? then -1 else 0)
  {
    assert Front(before + [t]) == before;
  }

  lemma {:induction false} OpenKeeps(spine: Spine)
    requires Shape(Parsing(spine, ValuePart))
    ensures var r := spine + [Frame(Group, [])];
            && Shape(Parsing(r, ValuePart)) && Depth(r) == Depth(spine) + 1
            && PrintSpine(r, ValuePart) == PrintSpine(spine, ValuePart) + [Open]
  {
    PrintPushed(spine, Frame(Group, []));
    assert Front(spine + [Frame(Group, [])]) == spine;
  }

  lemma {:induction false} AddLeafShape(below: seq<Frame>, f: Frame, t: Tree)
    requires Shape(Parsing(below + [f], ValuePart)) && Complete(t)
    ensures Shape(Parsing(below + [Frame(f.kind, f.left + [t])], OperatorPart))
  {
    assert Front(below + [f]) == below && Front(below + [Frame(f.kind, f.left + [t])]) == below;
  }

  lemma {:induction false} AddLeafPrints(below: seq<Frame>, f: Frame, atom: Atom, t: Tree)
    requires t == Node(Operand(atom), [])
    ensures PrintSpine(below + [Frame(f.kind, f.left + [t])], OperatorPart) == PrintSpine(below + [f], ValuePart) + [Value(atom)]
  {
    PrintPushed(below, f);
    PrintTop(below, Frame(f.kind, f.left + [t]));
    PrintItemAdded(f.left, t, Separator(f.kind));
    Regroup(PrintFrames(below), Opening(f.kind), PrintLed(f.left, Separator(f.kind)), [Value(atom)]);
  }

  lemma {:induction false} AddLeafAt(below: seq<Frame>, f: Frame, atom: Atom, t: Tree)
    requires Shape(Parsing(below + [f], ValuePart)) && t == Node(Operand(atom), [])
    ensures var r := below + [Frame(f.kind, f.left + [t])];
            && Shape(Parsing(r, OperatorPart)) && Depth(r) == Depth(below + [f])
            && PrintSpine(r, OperatorPart) == PrintSpine(below + [f], ValuePart) + [Value(atom)]
  {
    AddLeafShape(below, f, t);
    AddLeafPrints(below, f, atom, t);
    PrintPushed(below, f);
    PrintPushed(below, Frame(f.kind, f.left + [t]));
  }

  lemma {:induction false} AddLeafKeeps(spine: Spine, atom: Atom)
    requires Shape(Parsing(spine, ValuePart))
    ensures var r := AddTree(spine, Node(Operand(atom), []));
            && Shape(Parsing(r, OperatorPart)) && Depth(r) == Depth(spine)
            && PrintSpine(r, OperatorPart) == PrintSpine(spine, ValuePart) + [Value(atom)]
  {
    var below, f, t := Front(spine), Last(spine), Node(Operand(atom), []);
    assert spine == below + [f];
    AddLeafAt(below, f, atom, t);
    assert AddTree(spine, t) == below + [Frame(f.kind, f.left + [t])];
  }

  // ----- The finished tree -----

  lemma {:induction false} AscendOpen(spine: Spine)
    requires |spine| > 1 && (forall f :: f in spine ==> !f.kind.Operand?) && !spine[0].kind.Group?
    ensures var up := Ascend(spine);
            && (forall f :: f in up ==> !f.kind.Operand?) && !up[0].kind.Group?
            && Depth(up) + |Closing(Last(spine))| == Depth(spine)
  {
    var up := Ascend(spine);
    assert Last(up).kind == spine[|spine| - 2].kind;
    assert Front(up) == Front(Front(spine));
  }

  lemma {:induction false} OpenFrame(spine: Spine)
    requires |spine| == 1 && !spine[0].kind.Operand? && !spine[0].kind.Group?
    ensures Print(Closed(spine[0])) == PrintSpine(spine, OperatorPart) && Depth(spine) == 0
  {
    PrintTop([], spine[0]);
    assert [] + [spine[0]] == spine;
  }

  lemma {:induction false} AscendCloses(spine: Spine)
    requires |spine| > 1 && !Last(spine).kind.Operand?
    requires Depth(Ascend(spine)) + |Closing(Last(spine))| == Depth(spine)
    ensures PrintSpine(Ascend(spine), OperatorPart) + Closes(Depth(Ascend(spine))) == PrintSpine(spine, OperatorPart) + Closes(Depth(spine))
  {
    AscendPrintsAt(spine);
    CloseOne(PrintSpine(spine, OperatorPart), Closing(Last(spine)), Depth(Ascend(spine)));
  }

  /** Collapsing closes every group that is still open. */
  lemma {:induction false} CollapsePrints(spine: Spine)
    requires forall f :: f in spine ==> !f.kind.Operand?
    requires !spine[0].kind.Group?
    ensures Print(Collapse(spine)) == PrintSpine(spine, OperatorPart) + Closes(Depth(spine))
    decreases |spine|
  {
    if |spine| == 1 {
      OpenFrame(spine);
    } else {
      AscendOpen(spine);
      CollapsePrints(Ascend(spine));
      AscendCloses(spine);
    }
  }

  lemma {:induction false} CloseOne(shown: seq<Token>, closing: seq<Token>, n: nat)
    requires closing == [] || closing == [Close]
    ensures shown + closing + Closes(n) == shown + Closes(n + |closing|)
  {
    ClosesSnoc(n);
    assert shown + closing + Closes(n) == shown + (closing + Closes(n));
  }

  lemma {:induction false} ClosesSnoc(n: nat)
    ensures [Close] + Closes(n) == Closes(n + 1)
  {
    if n > 0 { ClosesSnoc(n - 1); }
  }

  lemma {:induction false} NoOperandOpen(frames: seq<Frame>)
    requires FramesShape(frames)
    ensures forall f :: f in frames ==> !f.kind.Operand?
    ensures frames != [] ==> frames[0].kind.Base?
  {
    if frames != [] { NoOperandOpen(Front(frames)); }
  }

  lemma {:induction false} ShapeHasNoOperand(p: Parsing)
    requires Shape(p)
    ensures (forall f :: f in p.spine ==> !f.kind.Operand?) && p.spine[0].kind.Base?
  {
    NoOperandOpen(Front(p.spine));
    assert p.spine == Front(p.spine) + [Last(p.spine)];
  }

  /** The tokens that the tree can show: a trailing operator has no right operand to stand before. */
  function Shown(ts: seq<Token>): seq<Token> {
    if EndsWithOperator(ts) then Front(ts) else ts
  }

  lemma {:induction false} PendingOperator(below: seq<Frame>, f: Frame, before: seq<Token>)
    requires f.kind.Operator? && f.left != []
    requires PrintSpine(below + [f], ValuePart) == before
    ensures before != [] && Last(before) == Op(f.kind.op) && PrintSpine(below + [f], OperatorPart) == Front(before)
  {
    PrintPushed(below, f);
    PrintTop(below, f);
    PrintLedIsJoined(f.left, [Op(f.kind.op)]);
    assert before == PrintSpine(below + [f], OperatorPart) + [Op(f.kind.op)];
  }

  lemma {:induction false} PendingOther(below: seq<Frame>, f: Frame)
    requires !f.kind.Operator? && f.left == []
    ensures PrintSpine(below + [f], ValuePart) == PrintSpine(below + [f], OperatorPart)
    ensures f.kind.Group? ==> Last(PrintSpine(below + [f], ValuePart)) == Open
    ensures f.kind.Base? && below == [] ==> PrintSpine(below + [f], ValuePart) == []
  {
    PrintPushed(below, f);
    PrintTop(below, f);
  }

  /** Closing the spine shows all tokens read but a trailing operator. */
  lemma {:induction false} SpineShows(below: seq<Frame>, f: Frame, mode: Mode, ts: seq<Token>)
    requires Shape(Parsing(below + [f], mode)) && mode == ModeAfter(ts) && PrintSpine(below + [f], mode) == ts
    ensures PrintSpine(below + [f], OperatorPart) == Shown(ts)
  {
    assert Front(below + [f]) == below;
    if mode.ValuePart? {
      if f.kind.Operator? { PendingOperator(below, f, ts); } else { PendingOther(below, f); }
    }
  }

  lemma {:induction false} SpineShowsAt(p: Parsing, ts: seq<Token>)
    requires Shape(p) && p.mode == ModeAfter(ts) && PrintSpine(p.spine, p.mode) == ts
    ensures PrintSpine(p.spine, OperatorPart) == Shown(ts)
  {
    assert p.spine == Front(p.spine) + [Last(p.spine)];
    SpineShows(Front(p.spine), Last(p.spine), p.mode, ts);
  }

  lemma {:induction false} FinishedPrints(p: Parsing, ts: seq<Token>)
    requires Shape(p) && p.mode == ModeAfter(ts) && PrintSpine(p.spine, p.mode) == ts
    ensures Print(Collapse(p.spine)) == Shown(ts) + Closes(Depth(p.spine))
  {
    SpineShowsAt(p, ts);
    ShapeHasNoOperand(p);
    CollapsePrints(p.spine);
  }

  /** Whatever the mix of precedences, an accepted token sequence is exactly what the tree shows in
      order, up to the brackets left open and a trailing operator. */
  lemma {:induction false} ParsePrints(ts: seq<Token>)
    ensures Parse(ts).Accepted? <==> Wellformed(ts)
    ensures Wellformed(ts) ==> Balance(ts) >= 0 && Print(Parse(ts).tree) == Shown(ts) + Closes(Balance(ts))
  {
    RunKeeps(ts);
    if Wellformed(ts) {
      FinishedPrints(Run(START, ts), ts);
    }
  }

  /** With every bracket closed, printing the tree gives the input back exactly when the input does
      not end in an operator. */
  lemma {:induction false} RoundTrip(ts: seq<Token>)
    requires Wellformed(ts) && Balance(ts) == 0
    ensures Parse(ts).Accepted? && (Print(Parse(ts).tree) == ts <==> !EndsWithOperator(ts))
  {
    ParsePrints(ts);
    assert Shown(ts) + [] == Shown(ts);
  }

  // ----- The shape of the finished tree -----

  /** Groups hold at most one child, operators at least one, leaves none; Base is only at the root. */
  predicate Narrow(t: Tree) {
    && match t.kind {
      case Base => false
      case Operand(_) => t.items == []
      case Operator(op) => |t.items| >= 1 && Level(op) >= 0
      case Group => |t.items| <= 1
    }
    && (forall c :: c in t.items ==> Narrow(c))
  }

  lemma {:induction false} CompleteIsNarrow(t: Tree)
    requires Complete(t)
    ensures Narrow(t)
  {
    forall c | c in t.items ensures Narrow(c) { CompleteIsNarrow(c); }
  }

  /** A finished root: evaluating the first child of the root or of a group loses nothing. */
  ghost predicate NarrowRoot(t: Tree) {
    t.kind.Base? && |t.items| <= 1 && forall c :: c in t.items ==> Narrow(c)
  }

  lemma {:induction false} CollapseIsNarrow(spine: Spine)
    requires FramesShape(Front(spine)) && !Last(spine).kind.Operand?
    requires Last(spine).kind.Base? <==> |spine| == 1
    requires forall c :: c in Last(spine).left ==> Narrow(c)
    requires match Last(spine).kind case Operator(op) => Level(op) >= 0 && Last(spine).left != [] case _ => |Last(spine).left| <= 1
    ensures NarrowRoot(Collapse(spine))
    decreases |spine|
  {
    if |spine| > 1 {
      var parent, t := Last(Front(spine)), Closed(Last(spine));
      assert Narrow(t);
      forall c | c in parent.left ensures Narrow(c) { CompleteIsNarrow(c); }
      assert Last(Ascend(spine)) == Frame(parent.kind, parent.left + [t]);
      assert Front(Ascend(spine)) == Front(Front(spine));
      CollapseIsNarrow(Ascend(spine));
    }
  }

  lemma {:induction false} ParseIsNarrow(ts: seq<Token>)
    requires Wellformed(ts)
    ensures Parse(ts).Accepted? && NarrowRoot(Parse(ts).tree)
  {
    RunKeeps(ts);
    var spine := Run(START, ts).spine;
    forall c | c in Last(spine).left ensures Narrow(c) { CompleteIsNarrow(c); }
    CollapseIsNarrow(spine);
  }
}
