/**
  The filter expression parser on values. The tree under construction is a zipper: the spine of
  open nodes from the root to the current node, each with the finished subtrees to its left.
 */
module FilterGrammar {

  datatype Atom = Number(value: int) | Identity(name: string) | Text(text: string)

  datatype Token = Value(atom: Atom) | Op(op: string) | Open | Close

  datatype Kind = Base | Operand(atom: Atom) | Operator(op: string) | Group

  datatype Tree = Node(kind: Kind, items: seq<Tree>)

  // ----- Operators -----

  const OPERATORS: seq<seq<string>> := [
    ["*", "/", "%"],
    ["+", "-", "&", "^", "|"],
    ["==", "=", "!=", ">=", "<=", ">", "<"],
    ["&&", "and"],
    ["||", "or", "like"]]

  function Lower(s: string): (r: string)
    ensures |r| == |s|
  {
    seq(|s|, i requires 0 <= i < |s| => if 'A' <= s[i] <= 'Z' then s[i] + ' ' else s[i])
  }

  /** Precedence level of an operator; negative when it is none. */
  function Level(op: string): int {
    var o := Lower(op);
    if o in OPERATORS[0] then 5
    else if o in OPERATORS[1] then 4
    else if o in OPERATORS[2] then 3
    else if o in OPERATORS[3] then 2
    else if o in OPERATORS[4] then 1
    else -1
  }

  // ----- The parser's moves on the spine -----

  datatype Frame = Frame(kind: Kind, left: seq<Tree>)

  type Spine = s: seq<Frame> | |s| > 0 witness [Frame(Base, [])]

  datatype Mode = ValuePart | OperatorPart

  datatype Parsing = Parsing(spine: Spine, mode: Mode) | Panic

  const START := Parsing([Frame(Base, [])], ValuePart)

  function Last<T>(s: seq<T>): T
    requires |s| > 0
  {
    s[|s| - 1]
  }

  function Front<T>(s: seq<T>): seq<T>
    requires |s| > 0
  {
    s[..|s| - 1]
  }

  function Closed(f: Frame): Tree {
    Node(f.kind, f.left)
  }

  function AddTree(spine: Spine, t: Tree): Spine {
    Front(spine) + [Frame(Last(spine).kind, Last(spine).left + [t])]
  }

  /** Moving from the current node to its parent. */
  function Ascend(spine: Spine): Spine
    requires |spine| > 1
  {
    AddTree(Front(spine), Closed(Last(spine)))
  }

  /** Puts a new operator in the place of the last child and the child below it. */
  function PushLast(spine: Spine, op: string): Spine
    requires Last(spine).left != []
  {
    var f := Last(spine);
    Front(spine) + [Frame(f.kind, Front(f.left)), Frame(Operator(op), [Last(f.left)])]
  }

  /** Puts a new operator in the place of the current node and that node below it. */
  function PushCurrent(spine: Spine, op: string): Spine {
    Front(spine) + [Frame(Operator(op), [Closed(Last(spine))])]
  }

  /** The climb stops at the outermost operator of the current group. */
  function Climb(spine: Spine): (r: Spine)
    decreases |spine|
  {
    if |spine| > 1 && spine[|spine| - 2].kind.Operator? && Level(spine[|spine| - 2].kind.op) >= 0 then Climb(Ascend(spine)) else spine
  }

  function ParseOperator(spine: Spine, op: string): Parsing {
    var f := Last(spine);
    if f.kind.Operator? && f.kind.op == op then Parsing(spine, ValuePart)
    else if Level(op) < 0 then Panic
    else if f.kind.Operator? && (Level(op) <= Level(f.kind.op) || f.left == []) then
      Parsing(PushCurrent(if Level(op) < Level(f.kind.op) then Climb(spine) else spine, op), ValuePart)
    else if f.left == [] then Panic
    else Parsing(PushLast(spine, op), ValuePart)
  }

  function ParseClose(spine: Spine): Parsing
    decreases |spine|
  {
    if |spine| == 1 then Panic
    else if Last(spine).kind.Group? then Parsing(Ascend(spine), OperatorPart)
    else ParseClose(Ascend(spine))
  }

  function Step(p: Parsing, t: Token): Parsing {
    match (p, t)
    case (Parsing(spine, ValuePart), Value(atom)) => Parsing(AddTree(spine, Node(Operand(atom), [])), OperatorPart)
    case (Parsing(spine, ValuePart), Open) => Parsing(spine + [Frame(Group, [])], ValuePart)
    case (Parsing(spine, OperatorPart), Op(op)) => ParseOperator(spine, op)
    case (Parsing(spine, OperatorPart), Close) => ParseClose(spine)
    case _ => Panic
  }

  function Run(p: Parsing, ts: seq<Token>): Parsing {
    if ts == [] then p else Step(Run(p, Front(ts)), Last(ts))
  }

  function Collapse(spine: Spine): Tree
    decreases |spine|
  {
    if |spine| == 1 then Closed(spine[0]) else Collapse(Ascend(spine))
  }

  datatype Result = Accepted(tree: Tree) | Failed

  function Parse(ts: seq<Token>): Result {
    match Run(START, ts)
    case Parsing(spine, _) => Accepted(Collapse(spine))
    case Panic => Failed
  }

  lemma {:induction false} RunAppend(p: Parsing, a: seq<Token>, b: seq<Token>)
    ensures Run(p, a + b) == Run(Run(p, a), b)
  {
    if b == [] {
      assert a + b == a;
    } else {
      assert Front(a + b) == a + Front(b) && Last(a + b) == Last(b);
      RunAppend(p, a, Front(b));
    }
  }

  lemma {:induction false} PanicStays(ts: seq<Token>)
    ensures Run(Panic, ts) == Panic
  {
    if ts != [] { PanicStays(Front(ts)); }
  }

  lemma {:induction false} RunSnoc(p: Parsing, ts: seq<Token>, t: Token)
    ensures Run(p, ts + [t]) == Step(Run(p, ts), t)
  {
    assert Front(ts + [t]) == ts;
  }

  // ----- Shape of a parser state -----

  /** Finished subtrees: leaves are childless, groups have one child, operators at least two. */
  predicate Complete(t: Tree) {
    && match t.kind {
      case Base => false
      case Operand(_) => t.items == []
      case Operator(op) => |t.items| >= 2 && Level(op) >= 0
      case Group => |t.items| == 1
    }
    && (forall c :: c in t.items ==> Complete(c))
  }

  /** The root and each group have at most one child, and no operator is at the root. */
  ghost predicate FrameShape(f: Frame, bottom: bool) {
    && (f.kind.Base? <==> bottom) && !f.kind.Operand?
    && (f.kind.Operator? ==> Level(f.kind.op) >= 0)
    && (forall c :: c in f.left ==> Complete(c))
  }

  /** Below an open node, a group or the root holds only the open child, an operator something more. */
  ghost predicate FramesShape(frames: seq<Frame>) {
    frames == [] ||
    (FramesShape(Front(frames)) && FrameShape(Last(frames), |frames| == 1)
     && if Last(frames).kind.Operator? then |Last(frames).left| >= 1 else Last(frames).left == [])
  }

  ghost predicate TopShape(f: Frame, bottom: bool, mode: Mode) {
    && FrameShape(f, bottom)
    && var n := |f.left| - (if mode.OperatorPart? then 1 else 0);
       if f.kind.Operator? then n >= 1 else n == 0
  }

  ghost predicate Shape(p: Parsing) {
    p.Parsing? && FramesShape(Front(p.spine)) && TopShape(Last(p.spine), |p.spine| == 1, p.mode)
  }

  // ----- Printing in order -----

  function Separator(k: Kind): seq<Token> {
    if k.Operator? then [Op(k.op)] else []
  }

  function Opening(k: Kind): seq<Token> {
    if k.Group? then [Open] else []
  }

  function Print(t: Tree): seq<Token> {
    match t.kind
    case Operand(atom) => [Value(atom)]
    case k => Opening(k) + PrintJoined(t.items, Separator(k)) + (if k.Group? then [Close] else [])
  }

  /** Every item followed by the separator. */
  function PrintLed(items: seq<Tree>, sep: seq<Token>): seq<Token> {
    if items == [] then [] else PrintLed(items[..|items| - 1], sep) + Print(items[|items| - 1]) + sep
  }

  function PrintJoined(items: seq<Tree>, sep: seq<Token>): seq<Token> {
    if items == [] then [] else PrintLed(items[..|items| - 1], sep) + Print(items[|items| - 1])
  }

  function PrintFrames(frames: seq<Frame>): seq<Token> {
    if frames == [] then []
    else PrintFrames(Front(frames)) + Opening(Last(frames).kind) + PrintLed(Last(frames).left, Separator(Last(frames).kind))
  }

  /** The tokens a spine stands for: in the value part the last separator is still pending. */
  function PrintSpine(spine: Spine, mode: Mode): seq<Token> {
    var f := Last(spine);
    if mode.ValuePart? then PrintFrames(spine)
    else PrintFrames(Front(spine)) + Opening(f.kind) + PrintJoined(f.left, Separator(f.kind))
  }

  function Depth(spine: seq<Frame>): nat {
    if spine == [] then 0 else Depth(Front(spine)) + (if Last(spine).kind.Group? then 1 else 0)
  }
}
