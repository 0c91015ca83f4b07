/**
  The filter parser as it works on the heap: tree nodes with child lists and parent pointers,
  rewritten in place while tokens arrive. The ghost fields give the zipper that the nodes form.
 */
module FilterParser {
  import opened FilterGrammar
  import FilterParsing

  class TreeNode {
    const kind: Kind
    var parent: TreeNode?
    var items: seq<TreeNode>

    constructor (kind: Kind)
      ensures this.kind == kind && parent == null && items == []
    {
      this.kind, parent, items := kind, null, [];
    }

    /** The position of a child; -1 when it is none. */
    method IndexOf(element: TreeNode) returns (index: int)
      ensures index == -1 ==> element !in items
      ensures index != -1 ==> 0 <= index < |items| && items[index] == element && element !in items[..index]
    {
      for i := 0 to |items|
        invariant element !in items[..i]
      {
        if items[i] == element {
          return i;
        }
      }
      return -1;
    }

    /** The element must not be attached to a node yet. */
    method AddElement(element: TreeNode)
      requires element.parent == null
      modifies this`items, element`parent
      ensures element.parent == this && items == old(items) + [element]
    {
      element.parent := this;
      items := items + [element];
    }

    /** Takes the place of this node below its parent, and this node becomes the element's child. */
    method PushElement(element: TreeNode)
      requires element != this && element != parent && element.parent == null && element.items == []
      requires parent != null ==> parent != this && this in parent.items
      modifies this`parent, element, if parent == null then {} else {parent}`items
      ensures parent == element && element.items == [this] && element.parent == old(parent)
      ensures old(parent) != null ==>
                exists i :: 0 <= i < |old(parent.items)| && old(parent.items)[i] == this && this !in old(parent.items)[..i]
                       && old(parent).items == old(parent.items)[i := element]
    {
      var above := parent;
      if above != null {
        var index := above.IndexOf(this);
        above.items := above.items[index := element];
        element.parent := above;
        parent := null;
      }
      element.AddElement(this);
    }
  }

  ghost predicate AllIn(nodes: seq<TreeNode>, finished: map<TreeNode, Tree>) {
    forall n :: n in nodes ==> n in finished
  }

  ghost function Trees(finished: map<TreeNode, Tree>, nodes: seq<TreeNode>): (r: seq<Tree>)
    requires AllIn(nodes, finished)
    ensures |r| == |nodes|
  {
    seq(|nodes|, i requires 0 <= i < |nodes| => finished[nodes[i]])
  }

  lemma {:induction false} TreesKept(finished: map<TreeNode, Tree>, n: TreeNode, t: Tree, nodes: seq<TreeNode>)
    requires AllIn(nodes, finished) && n !in finished
    ensures AllIn(nodes, finished[n := t]) && Trees(finished[n := t], nodes) == Trees(finished, nodes)
  {
  }

  lemma {:induction false} TreesSnoc(finished: map<TreeNode, Tree>, nodes: seq<TreeNode>, n: TreeNode)
    requires AllIn(nodes, finished) && n in finished
    ensures AllIn(nodes + [n], finished) && Trees(finished, nodes + [n]) == Trees(finished, nodes) + [finished[n]]
  {
  }

  ghost predicate Distinct(nodes: seq<TreeNode>) {
    forall i, j :: 0 <= i < j < |nodes| ==> nodes[i] != nodes[j]
  }

  /** The links of all nodes of the parser at one moment: the open nodes from the root to the
      current one with the zipper they stand for, every other node with the tree it heads, and the
      child list and parent of each. */
  datatype Layout = Layout(
    spine: seq<TreeNode>,
    frames: seq<Frame>,
    finished: map<TreeNode, Tree>,
    kids: map<TreeNode, seq<TreeNode>>,
    up: map<TreeNode, TreeNode?>)
  {
    /** Children know their parent and occur once. */
    ghost predicate Attached(n: TreeNode, nodes: seq<TreeNode>) {
      && (forall c :: c in nodes ==> c in up && up[c] == n)
      && Distinct(nodes)
    }

    ghost predicate FinishedAt(n: TreeNode) {
      n in finished ==>
        && n in kids && n in up
        && AllIn(kids[n], finished)
        && finished[n] == Node(n.kind, Trees(finished, kids[n]))
        && Attached(n, kids[n])
        && up[n] != null && up[n] in kids && n in kids[up[n]]
    }

    /** The finished children of an open node are all but the open child. */
    ghost function Left(i: nat): seq<TreeNode>
      requires i < |spine| && spine[i] in kids && (i < |spine| - 1 ==> kids[spine[i]] != [])
    {
      if i < |spine| - 1 then Front(kids[spine[i]]) else kids[spine[i]]
    }

    ghost predicate OpenAt(i: nat)
      requires i < |spine| == |frames|
    {
      && spine[i] in kids && spine[i] in up && spine[i] !in finished
      && (i < |spine| - 1 ==> kids[spine[i]] != [] && Last(kids[spine[i]]) == spine[i + 1])
      && AllIn(Left(i), finished)
      && Attached(spine[i], Left(i))
      && frames[i] == Frame(spine[i].kind, Trees(finished, Left(i)))
      && up[spine[i]] == (if i == 0 then null else spine[i - 1])
    }

    ghost predicate SpineOk() {
      && |spine| == |frames| > 0
      && (forall i {:trigger OpenAt(i)} :: 0 <= i < |spine| ==> OpenAt(i))
    }

    ghost predicate FinishedOk() {
      forall n {:trigger FinishedAt(n)} :: n in finished ==> FinishedAt(n)
    }

    ghost predicate Ok() {
      SpineOk() && FinishedOk() && Distinct(spine)
    }

    /** What the current node looks like from the zipper. */
    lemma {:induction false} Top()
      requires Ok()
      ensures var curr := Last(spine);
              && curr in kids && curr in up && curr.kind == Last(frames).kind && (kids[curr] == [] <==> Last(frames).left == [])
              && (up[curr] == null <==> |spine| == 1)
              && (|spine| > 1 ==> up[curr].kind == frames[|spine| - 2].kind)
    {
      assert OpenAt(|spine| - 1);
      if |spine| > 1 { assert OpenAt(|spine| - 2); }
    }

    ghost function AddLeaf(node: TreeNode): Layout
      requires SpineOk()
    {
      var curr := Last(spine);
      assert OpenAt(|spine| - 1);
      var t := Node(node.kind, []);
      Layout(spine, AddTree(frames, t), finished[node := t],
             kids[curr := kids[curr] + [node]][node := []], up[node := curr])
    }

    ghost function Open(node: TreeNode): Layout
      requires SpineOk()
    {
      var curr := Last(spine);
      assert OpenAt(|spine| - 1);
      Layout(spine + [node], frames + [Frame(node.kind, [])], finished,
             kids[curr := kids[curr] + [node]][node := []], up[node := curr])
    }

    ghost function Leave(): Layout
      requires SpineOk() && |spine| > 1
    {
      Layout(Front(spine), Ascend(frames), finished[Last(spine) := Closed(Last(frames))], kids, up)
    }

    ghost function PushLast(node: TreeNode): Layout
      requires SpineOk() && Last(frames).left != [] && node.kind.Operator?
    {
      var curr := Last(spine);
      assert OpenAt(|spine| - 1);
      var child := Last(kids[curr]);
      Layout(spine + [node], FilterGrammar.PushLast(frames, node.kind.op), finished,
             kids[curr := Front(kids[curr]) + [node]][node := [child]], up[node := curr][child := node])
    }

    ghost function PushCurrent(node: TreeNode): Layout
      requires SpineOk() && |spine| > 1 && node.kind.Operator?
    {
      var k := |spine| - 1;
      var curr, parent := spine[k], spine[k - 1];
      assert OpenAt(k - 1);
      Layout(spine[..k] + [node], FilterGrammar.PushCurrent(frames, node.kind.op), finished[curr := Closed(Last(frames))],
             kids[parent := Front(kids[parent]) + [node]][node := [curr]], up[node := parent][curr := node])
    }

    lemma {:induction false} AddLeafKeeps(node: TreeNode)
      requires Ok() && node !in kids && node !in finished
      ensures AddLeaf(node).Ok()
    {
      var k := |spine| - 1;
      var l := AddLeaf(node);
      assert OpenAt(k);
      TreesKept(finished, node, l.finished[node], Left(k));
      TreesSnoc(l.finished, Left(k), node);
      assert l.OpenAt(k);
      forall i | 0 <= i < k ensures l.OpenAt(i) {
        assert OpenAt(i);
        TreesKept(finished, node, l.finished[node], Left(i));
      }
      forall n | n in finished ensures l.FinishedAt(n) {
        assert FinishedAt(n);
        TreesKept(finished, node, l.finished[node], kids[n]);
      }
      assert l.FinishedAt(node);
    }

    lemma {:induction false} NewNode(node: TreeNode)
      requires SpineOk() && node !in kids
      ensures node !in spine
    {
      forall i | 0 <= i < |spine| ensures spine[i] != node { assert OpenAt(i); }
    }

    lemma {:induction false} OpenSpineKeeps(node: TreeNode)
      requires SpineOk() && Distinct(spine) && node !in kids && node !in finished
      ensures Open(node).SpineOk()
    {
      var k := |spine| - 1;
      var l := Open(node);
      NewNode(node);
      forall i | 0 <= i < k ensures l.OpenAt(i) {
        assert OpenAt(i);
        assert l.spine[i] == spine[i] && l.spine[i + 1] == spine[i + 1] && l.frames[i] == frames[i] && spine[i] != spine[k];
        assert l.Left(i) == Left(i);
      }
      assert OpenAt(k);
      assert l.Left(k) == Left(k);
      assert l.OpenAt(k);
      assert l.OpenAt(k + 1);
    }

    lemma {:induction false} OpenKeeps(node: TreeNode)
      requires Ok() && node !in kids && node !in finished
      ensures Open(node).Ok()
    {
      var l := Open(node);
      NewNode(node);
      OpenSpineKeeps(node);
      assert OpenAt(|spine| - 1);
      forall n | n in finished ensures l.FinishedAt(n) { assert FinishedAt(n); }
    }

    lemma {:induction false} LeaveSpineKeeps()
      requires Ok() && |spine| > 1
      ensures Leave().SpineOk()
    {
      var k := |spine| - 1;
      var l, done := Leave(), spine[k];
      var t := l.finished[done];
      assert OpenAt(k) && OpenAt(k - 1);
      TreesKept(finished, done, t, Left(k - 1));
      TreesSnoc(l.finished, Left(k - 1), done);
      assert l.Left(k - 1) == Left(k - 1) + [done];
      assert l.OpenAt(k - 1);
      forall i | 0 <= i < k - 1 ensures l.OpenAt(i) {
        assert OpenAt(i);
        TreesKept(finished, done, t, Left(i));
      }
    }

    lemma {:induction false} LeaveKeeps()
      requires Ok() && |spine| > 1
      ensures Leave().Ok()
    {
      var k := |spine| - 1;
      var l, done := Leave(), spine[k];
      var t := l.finished[done];
      assert OpenAt(k) && OpenAt(k - 1);
      LeaveSpineKeeps();
      TreesKept(finished, done, t, Left(k));
      forall n | n in finished ensures l.FinishedAt(n) {
        assert FinishedAt(n);
        TreesKept(finished, done, t, kids[n]);
      }
      assert l.FinishedAt(done);
    }

    lemma {:induction false} PushLastSpineKeeps(node: TreeNode)
      requires SpineOk() && Distinct(spine) && node !in kids && node !in finished
      requires Last(frames).left != [] && node.kind.Operator?
      ensures PushLast(node).SpineOk()
    {
      var k := |spine| - 1;
      var l := PushLast(node);
      NewNode(node);
      assert OpenAt(k);
      var child := Last(kids[spine[k]]);
      assert child in finished && up[child] == spine[k];
      forall i | 0 <= i < k ensures l.OpenAt(i) {
        assert OpenAt(i);
        assert l.spine[i] == spine[i] && l.spine[i + 1] == spine[i + 1] && l.frames[i] == frames[i] && spine[i] != spine[k];
        assert l.Left(i) == Left(i) && child !in Left(i);
      }
      assert l.Left(k) == Front(Left(k)) && child !in Front(Left(k));
      assert l.OpenAt(k);
      assert l.OpenAt(k + 1);
    }

    lemma {:induction false} PushLastFinishedKeeps(node: TreeNode, n: TreeNode)
      requires SpineOk() && FinishedOk() && node !in kids && node !in finished
      requires Last(frames).left != [] && node.kind.Operator? && n in finished
      ensures PushLast(node).FinishedAt(n)
    {
      var k := |spine| - 1;
      assert OpenAt(k);
      var child := Last(kids[spine[k]]);
      assert child in finished && up[child] == spine[k];
      assert FinishedAt(n);
      assert child !in kids[n];
      if n != child && up[n] == spine[k] { assert n in Front(kids[spine[k]]); }
    }

    lemma {:induction false} PushLastKeeps(node: TreeNode)
      requires Ok() && Last(frames).left != [] && node.kind.Operator? && node !in kids && node !in finished
      ensures PushLast(node).Ok()
    {
      NewNode(node);
      PushLastSpineKeeps(node);
      forall n | n in finished ensures PushLast(node).FinishedAt(n) { PushLastFinishedKeeps(node, n); }
    }

    ghost function CloseRoot(): map<TreeNode, Tree>
      requires SpineOk() && |spine| == 1
    {
      finished[spine[0] := Closed(frames[0])]
    }

    lemma {:induction false} CloseRootRecords()
      requires Ok() && |spine| == 1 && Synced(kids, up)
      ensures HeapTree(CloseRoot())
    {
      var root, all := spine[0], CloseRoot();
      assert OpenAt(0);
      forall n | n in all
        ensures AllIn(n.items, all) && all[n] == Node(n.kind, Trees(all, n.items)) && Distinct(n.items)
             && forall c :: c in n.items ==> c.parent == n
      {
        if n == root {
          TreesKept(finished, root, all[root], kids[n]);
        } else {
          assert FinishedAt(n);
          TreesKept(finished, root, all[root], kids[n]);
          forall c | c in kids[n] ensures c.parent == n { assert FinishedAt(c); }
        }
      }
    }

    /** The current node is the last child of its parent. */
    lemma {:induction false} CurrentChild()
      requires Ok() && |spine| > 1
      ensures var curr, parent := Last(spine), spine[|spine| - 2];
              && curr != parent && curr in kids && curr in up && parent in kids && up[curr] == parent
              && kids[parent] != [] && Last(kids[parent]) == curr && Distinct(kids[parent])
    {
      var k := |spine| - 1;
      assert OpenAt(k) && OpenAt(k - 1);
      assert kids[spine[k - 1]] == Left(k - 1) + [spine[k]];
      assert spine[k] !in Left(k - 1);
    }

    lemma {:induction false} PushCurrentSpineKeeps(node: TreeNode)
      requires SpineOk() && Distinct(spine) && node !in kids && node !in finished
      requires |spine| > 1 && node.kind.Operator?
      ensures PushCurrent(node).SpineOk()
    {
      var k := |spine| - 1;
      var l, done := PushCurrent(node), spine[k];
      var t := l.finished[done];
      NewNode(node);
      assert OpenAt(k) && OpenAt(k - 1);
      TreesKept(finished, done, t, Left(k - 1));
      forall i | 0 <= i < k - 1 ensures l.OpenAt(i) {
        assert OpenAt(i);
        assert l.spine[i] == spine[i] && l.spine[i + 1] == spine[i + 1] && l.frames[i] == frames[i] && spine[i] != spine[k - 1];
        assert l.Left(i) == Left(i) && done !in Left(i);
        TreesKept(finished, done, t, Left(i));
      }
      assert l.Left(k - 1) == Left(k - 1) && done !in Left(k - 1);
      assert l.OpenAt(k - 1);
      assert l.OpenAt(k);
    }

    lemma {:induction false} PushCurrentFinishedKeeps(node: TreeNode, n: TreeNode)
      requires SpineOk() && FinishedOk() && Distinct(spine) && node !in kids && node !in finished
      requires |spine| > 1 && node.kind.Operator? && n in finished
      ensures PushCurrent(node).FinishedAt(n)
    {
      var k := |spine| - 1;
      var done, t := spine[k], Closed(frames[k]);
      assert OpenAt(k) && OpenAt(k - 1);
      assert FinishedAt(n);
      assert done !in kids[n];
      TreesKept(finished, done, t, kids[n]);
      if up[n] == spine[k - 1] { assert n in Front(kids[spine[k - 1]]); }
    }

    lemma {:induction false} PushCurrentDone(node: TreeNode)
      requires SpineOk() && Distinct(spine) && node !in kids && node !in finished && |spine| > 1 && node.kind.Operator?
      ensures PushCurrent(node).FinishedAt(Last(spine))
    {
      var k := |spine| - 1;
      NewNode(node);
      assert OpenAt(k) && OpenAt(k - 1);
      TreesKept(finished, spine[k], Closed(frames[k]), Left(k));
    }

    lemma {:induction false} PushCurrentKeeps(node: TreeNode)
      requires Ok() && |spine| > 1 && node.kind.Operator? && node !in kids && node !in finished
      ensures PushCurrent(node).Ok()
    {
      PushCurrentSpineKeeps(node);
      NewNode(node);
      forall n | n in finished ensures PushCurrent(node).FinishedAt(n) { PushCurrentFinishedKeeps(node, n); }
      PushCurrentDone(node);
    }
  }

  /** Every node of `finished` heads the value tree recorded for it; its children know it as parent. */
  ghost predicate HeapTree(finished: map<TreeNode, Tree>)
    reads finished.Keys
  {
    forall n {:trigger finished[n]} :: n in finished ==>
      && AllIn(n.items, finished)
      && finished[n] == Node(n.kind, Trees(finished, n.items))
      && Distinct(n.items)
      && forall c :: c in n.items ==> c.parent == n
  }

  /** The heap agrees with the recorded child lists and parents. */
  ghost predicate Synced(kids: map<TreeNode, seq<TreeNode>>, up: map<TreeNode, TreeNode?>)
    reads kids.Keys
  {
    kids.Keys == up.Keys && forall n :: n in kids ==> n.items == kids[n] && n.parent == up[n]
  }

  method Attach(n: TreeNode, node: TreeNode, ghost kids: map<TreeNode, seq<TreeNode>>, ghost up: map<TreeNode, TreeNode?>)
    requires Synced(kids, up) && n in kids && node !in kids && node.parent == null && node.items == []
    modifies n`items, node`parent
    ensures Synced(kids[n := kids[n] + [node]][node := []], up[node := n])
  {
    n.AddElement(node);
  }

  /** Puts a new node between a last child and its parent. */
  method Insert(n: TreeNode, node: TreeNode, ghost kids: map<TreeNode, seq<TreeNode>>, ghost up: map<TreeNode, TreeNode?>)
    requires Synced(kids, up) && n in kids && node !in kids && node.parent == null && node.items == []
    requires n.parent != null && n.parent in kids && n.parent != n && kids[n.parent] != []
    requires Last(kids[n.parent]) == n && Distinct(kids[n.parent])
    modifies n`parent, n.parent`items, node
    ensures Synced(kids[old(n.parent) := Front(kids[old(n.parent)]) + [node]][node := [n]],
                   up[node := old(n.parent)][n := node])
  {
    ghost var list := kids[n.parent];
    n.PushElement(node);
    assert n !in Front(list);
    assert list[|list| - 1 := node] == Front(list) + [node];
  }

  class Parser {
    var root: TreeNode
    var curr: TreeNode
    ghost var layout: Layout

    /** The recorded layout is sound and is what the nodes on the heap say. */
    ghost predicate Valid()
      reads this, layout.kids.Keys
    {
      && layout.Ok() && Synced(layout.kids, layout.up)
      && root == layout.spine[0] && curr == Last(layout.spine)
    }

    constructor ()
      ensures Valid() && layout.frames == START.spine && fresh(layout.kids.Keys)
    {
      var node := new TreeNode(Base);
      root, curr, layout := node, node, Layout([node], START.spine, map[], map[node := []], map[node := null]);
    }

    /** The heap agrees with the layout `l`, and `node` becomes the current node. */
    method MoveTo(node: TreeNode, ghost l: Layout)
      requires l.Ok() && Synced(l.kids, l.up) && root == l.spine[0] && node == Last(l.spine)
      modifies this`curr, this`layout
      ensures Valid() && layout == l
    {
      curr, layout := node, l;
    }

    method AddLeaf(atom: Atom)
      requires Valid()
      modifies this`curr, this`layout, curr
      ensures Valid() && layout.frames == AddTree(old(layout.frames), Node(Operand(atom), []))
      ensures fresh(layout.kids.Keys - old(layout.kids.Keys))
    {
      assert layout.OpenAt(|layout.spine| - 1);
      var node := new TreeNode(Operand(atom));
      layout.AddLeafKeeps(node);
      Attach(curr, node, layout.kids, layout.up);
      MoveTo(curr, layout.AddLeaf(node));
    }

    method OpenBracket()
      requires Valid()
      modifies this`curr, this`layout, curr
      ensures Valid() && layout.frames == old(layout.frames) + [Frame(Group, [])]
      ensures fresh(layout.kids.Keys - old(layout.kids.Keys))
    {
      assert layout.OpenAt(|layout.spine| - 1);
      var node := new TreeNode(Group);
      layout.OpenKeeps(node);
      Attach(curr, node, layout.kids, layout.up);
      MoveTo(node, layout.Open(node));
    }

    /** The parent becomes the current node. */
    method Leave()
      requires Valid() && |layout.spine| > 1
      modifies this`curr, this`layout
      ensures Valid() && layout.frames == Ascend(old(layout.frames)) && layout.kids == old(layout.kids)
    {
      assert layout.OpenAt(|layout.spine| - 1);
      layout.LeaveKeeps();
      MoveTo(curr.parent, layout.Leave());
    }

    method PushLast(op: string)
      requires Valid() && Last(layout.frames).left != []
      modifies this`curr, this`layout, layout.kids.Keys
      ensures Valid() && layout.frames == FilterGrammar.PushLast(old(layout.frames), op)
      ensures fresh(layout.kids.Keys - old(layout.kids.Keys))
    {
      assert layout.OpenAt(|layout.spine| - 1);
      var child := Last(curr.items);
      assert layout.FinishedAt(child);
      var node := new TreeNode(Operator(op));
      layout.PushLastKeeps(node);
      Insert(child, node, layout.kids, layout.up);
      MoveTo(node, layout.PushLast(node));
    }

    method PushCurrent(op: string)
      requires Valid() && |layout.spine| > 1
      modifies this`curr, this`layout, layout.kids.Keys
      ensures Valid() && layout.frames == FilterGrammar.PushCurrent(old(layout.frames), op)
      ensures fresh(layout.kids.Keys - old(layout.kids.Keys))
    {
      layout.CurrentChild();
      var node := new TreeNode(Operator(op));
      layout.PushCurrentKeeps(node);
      Insert(curr, node, layout.kids, layout.up);
      MoveTo(node, layout.PushCurrent(node));
    }

    /** False where the parser panics. */
    method ParseOperator(op: string) returns (ok: bool)
      requires Valid() && Shape(Parsing(layout.frames, OperatorPart))
      modifies this`curr, this`layout, layout.kids.Keys
      ensures Valid() && fresh(layout.kids.Keys - old(layout.kids.Keys))
      ensures FilterGrammar.ParseOperator(old(layout.frames), op) == if ok then Parsing(layout.frames, ValuePart) else Panic
    {
      layout.Top();
      if curr.kind.Operator? {
        if curr.kind.op == op {
          return true;
        }
        if Level(op) > Level(curr.kind.op) && curr.items != [] {
          PushLast(op);
          return true;
        }
        if Level(op) < Level(curr.kind.op) {
          ClimbOperators();
        }
        if Level(op) < 0 {
          return false;
        }
        PushCurrent(op);
        return true;
      }
      if curr.items == [] || Level(op) < 0 {
        return false;
      }
      PushLast(op);
      return true;
    }

    method ClimbOperators()
      requires Valid() && Shape(Parsing(layout.frames, OperatorPart)) && curr.kind.Operator?
      modifies this`curr, this`layout
      ensures Valid() && layout.kids == old(layout.kids)
      ensures layout.frames == Climb(old(layout.frames)) && |layout.spine| > 1
    {
      layout.Top();
      while curr.parent.kind.Operator? && Level(curr.parent.kind.op) >= 0
        invariant Valid() && layout.kids == old(layout.kids) && |layout.spine| == |layout.frames| > 1
        invariant Shape(Parsing(layout.frames, OperatorPart)) && Last(layout.frames).kind.Operator?
        invariant curr.parent != null && curr.parent.kind == layout.frames[|layout.frames| - 2].kind
        invariant Climb(layout.frames) == Climb(old(layout.frames))
        decreases |layout.spine|
      {
        FilterParsing.ClimbStep(layout.frames);
        Leave();
        layout.Top();
      }
    }

    /** Leaves every node up to the innermost open group, and that group itself. */
    method ParseCloseBracket() returns (ok: bool)
      requires Valid()
      modifies this`curr, this`layout
      ensures Valid() && layout.kids == old(layout.kids)
      ensures ParseClose(old(layout.frames)) == if ok then Parsing(layout.frames, OperatorPart) else Panic
    {
      layout.Top();
      while !curr.kind.Group?
        invariant Valid() && layout.kids == old(layout.kids)
        invariant curr.kind == Last(layout.frames).kind && (curr.parent == null <==> |layout.spine| == 1)
        invariant ParseClose(layout.frames) == ParseClose(old(layout.frames))
        decreases |layout.spine|
      {
        if curr.parent == null {
          return false;
        }
        Leave();
        layout.Top();
      }
      if curr.parent == null {
        return false;
      }
      Leave();
      return true;
    }

    /** One turn of the state machine; false where the parser panics. */
    method Turn(mode: Mode, t: Token) returns (ok: bool, next: Mode)
      requires Valid() && Shape(Parsing(layout.frames, mode))
      modifies this`curr, this`layout, layout.kids.Keys
      ensures Valid() && fresh(layout.kids.Keys - old(layout.kids.Keys))
      ensures Step(Parsing(old(layout.frames), mode), t) == if ok then Parsing(layout.frames, next) else Panic
    {
      layout.Top();
      match (mode, t)
      case (ValuePart, Value(atom)) =>
        AddLeaf(atom);
        return true, OperatorPart;
      case (ValuePart, Open) =>
        OpenBracket();
        return true, ValuePart;
      case (OperatorPart, Op(op)) =>
        ok := ParseOperator(op);
        return ok, ValuePart;
      case (OperatorPart, Close) =>
        ok := ParseCloseBracket();
        return ok, OperatorPart;
      case _ =>
        return false, mode;
    }

    /** Every node below the root, recorded with the tree it heads once all open nodes are closed. */
    ghost method Record() returns (finished: map<TreeNode, Tree>)
      requires Valid()
      ensures root in finished && finished[root] == Collapse(layout.frames) && HeapTree(finished)
    {
      ghost var l := layout;
      while |l.spine| > 1
        invariant l.Ok() && l.kids == layout.kids && l.up == layout.up && l.spine[0] == root
        invariant Collapse(l.frames) == Collapse(layout.frames)
        decreases |l.spine|
      {
        l.LeaveKeeps();
        l := l.Leave();
      }
      l.CloseRootRecords();
      finished := l.CloseRoot();
    }
  }

  lemma {:induction false} ReadOneMore(tokens: seq<Token>, i: nat)
    requires i < |tokens| && Run(START, tokens[..i]).Parsing?
    ensures Shape(Run(START, tokens[..i])) && Run(START, tokens[..i + 1]) == Step(Run(START, tokens[..i]), tokens[i])
  {
    FilterParsing.RunKeeps(tokens[..i]);
    RunSnoc(START, tokens[..i], tokens[i]);
    assert tokens[..i] + [tokens[i]] == tokens[..i + 1];
  }

  lemma {:induction false} PanicFails(tokens: seq<Token>, i: nat)
    requires i < |tokens| && Run(START, tokens[..i + 1]) == Panic
    ensures FilterGrammar.Parse(tokens).Failed?
  {
    assert tokens == tokens[..i + 1] + tokens[i + 1..];
    RunAppend(START, tokens[..i + 1], tokens[i + 1..]);
    PanicStays(tokens[i + 1..]);
  }

  /** Builds the tree of a token sequence; null where the parser panics. */
  method Parse(tokens: seq<Token>) returns (root: TreeNode?, ghost finished: map<TreeNode, Tree>)
    ensures root == null <==> FilterGrammar.Parse(tokens).Failed?
    ensures root != null ==>
              root in finished && finished[root] == FilterGrammar.Parse(tokens).tree && HeapTree(finished)
  {
    var p := new Parser();
    var mode := ValuePart;
    finished := map[];
    for i := 0 to |tokens|
      invariant fresh(p) && fresh(p.layout.kids.Keys) && p.Valid()
      invariant Run(START, tokens[..i]) == Parsing(p.layout.frames, mode)
    {
      ReadOneMore(tokens, i);
      var ok, next := p.Turn(mode, tokens[i]);
      if !ok {
        PanicFails(tokens, i);
        return null, map[];
      }
      mode := next;
    }
    assert tokens[..|tokens|] == tokens;
    root := p.root;
    finished := p.Record();
  }
}
