/** Filters as nodes on the heap: Join and Optimize of src/sphinxfilter.cpp, which change a tree in place
    and hand nodes over from one owner to another. */
module FilterNodes {
  import opened FilterTree

  datatype Kind = IsLeaf(leaf: Leaf) | IsAnd2 | IsAnd3 | IsAnd | IsNot

  class Node {
    const kind: Kind
    var args: seq<Node>
    var uses: bool
    ghost var tree: Tree                // the filter tree the node stands for

    constructor (kind: Kind, args: seq<Node>, uses: bool, ghost tree: Tree)
      ensures this.kind == kind && this.args == args && this.uses == uses && this.tree == tree
    {
      this.kind, this.args, this.uses, this.tree := kind, args, uses, tree;
    }
  }

  /** A node's tree is made of its arguments' trees. */
  ghost predicate Matches(n: Node)
    reads n, n.args
  {
    match n.kind
    case IsLeaf(leaf) => n.args == [] && n.tree == One(leaf, n.uses)
    case IsAnd2 => |n.args| == 2 && n.tree == And2(n.args[0].tree, n.args[1].tree, n.uses)
    case IsAnd3 => |n.args| == 3 && n.tree == And3(n.args[0].tree, n.args[1].tree, n.args[2].tree, n.uses)
    case IsAnd => n.tree.And? && n.tree.uses == n.uses && ListOf(n.args, n.tree.list)
    case IsNot => |n.args| == 1 && n.tree == Not(n.args[0].tree, n.uses)
  }

  ghost predicate ListOf(args: seq<Node>, list: seq<Tree>)
    reads args
  {
    |args| == |list| && forall i :: 0 <= i < |args| ==> args[i].tree == list[i]
  }

  /** Nodes that hold only nodes among them, each standing for its tree and held at most once. */
  ghost predicate Forest(nodes: set<Node>)
    reads nodes
  {
    Closed(nodes) && (forall n <- nodes :: Matches(n)) && HeldOnce(nodes)
  }

  ghost predicate Closed(nodes: set<Node>)
    reads nodes`args
  {
    forall n, a | n in nodes && a in n.args :: a in nodes
  }

  ghost predicate HeldOnce(nodes: set<Node>)
    reads nodes`args
  {
    forall m, n, i, j | m in nodes && n in nodes && 0 <= i < |m.args| && 0 <= j < |n.args| && m.args[i] == n.args[j] ::
      m == n && i == j
  }

  /** Held by no node. */
  ghost predicate Root(nodes: set<Node>, n: Node)
    reads nodes`args
  {
    n in nodes && forall m <- nodes :: n !in m.args
  }

  /** The last argument moves into a new conjunction with f, which takes its place. */
  method PushDown(t: Node, f: Node, ghost nodes: set<Node>) returns (joined: Node)
    requires Closed(nodes) && HeldOnce(nodes) && Root(nodes, t) && Root(nodes, f) && t != f && t.args != []
    modifies t`args
    ensures fresh(joined) && joined.kind == IsAnd2 && joined.uses == t.uses
    ensures joined.args == [old(t.args)[|old(t.args)| - 1], f]
    ensures joined.tree == And2(joined.args[0].tree, f.tree, t.uses)
    ensures t.args == old(t.args)[..|old(t.args)| - 1] + [joined]
    ensures Closed(nodes + {joined}) && HeldOnce(nodes + {joined}) && Root(nodes + {joined}, t)
  {
    var last := t.args[|t.args| - 1];
    joined := new Node(IsAnd2, [last, f], t.uses, And2(last.tree, f.tree, t.uses));
    t.args := t.args[..|t.args| - 1] + [joined];
  }

  /** A two-way conjunction keeps its first argument and holds a new one for the rest. */
  method JoinAnd2(t: Node, f: Node, ghost nodes: set<Node>) returns (ghost after: set<Node>)
    requires Forest(nodes) && Root(nodes, t) && Root(nodes, f) && t != f && t.kind.IsAnd2?
    modifies t
    ensures t.tree == Join(old(t.tree), f.tree)
    ensures nodes <= after && fresh(after - nodes) && Forest(after) && Root(after, t)
  {
    hide HeldOnce, Closed;
    var joined := PushDown(t, f, nodes);
    t.tree := And2(t.args[0].tree, joined.tree, t.uses);
    after := nodes + {joined};
  }

  /** A three-way conjunction likewise. */
  method JoinAnd3(t: Node, f: Node, ghost nodes: set<Node>) returns (ghost after: set<Node>)
    requires Forest(nodes) && Root(nodes, t) && Root(nodes, f) && t != f && t.kind.IsAnd3?
    modifies t
    ensures t.tree == Join(old(t.tree), f.tree)
    ensures nodes <= after && fresh(after - nodes) && Forest(after) && Root(after, t)
  {
    hide HeldOnce, Closed;
    var joined := PushDown(t, f, nodes);
    t.tree := And3(t.args[0].tree, t.args[1].tree, joined.tree, t.uses);
    after := nodes + {joined};
  }

  /** A conjunction of many takes one more. */
  method JoinAnd(t: Node, f: Node, ghost nodes: set<Node>)
    requires Forest(nodes) && Root(nodes, t) && Root(nodes, f) && t != f && t.kind.IsAnd?
    modifies t
    ensures t.tree == Join(old(t.tree), f.tree) && Forest(nodes) && Root(nodes, t)
  {
    t.args := t.args + [f];
    t.uses := t.uses || f.uses;
    t.tree := And(t.tree.list + [f.tree], t.uses);
  }

  /** Any other filter becomes part of a new conjunction. */
  method JoinOther(t: Node, f: Node, ghost nodes: set<Node>) returns (r: Node, ghost after: set<Node>)
    requires Forest(nodes) && Root(nodes, t) && Root(nodes, f) && t != f && (t.kind.IsLeaf? || t.kind.IsNot?)
    ensures r.tree == Join(t.tree, f.tree)
    ensures nodes <= after && fresh(after - nodes) && Forest(after) && Root(after, r)
  {
    r := new Node(IsAnd, [t, f], t.uses || f.uses, And([t.tree, f.tree], t.uses || f.uses));
    after := nodes + {r};
  }

  /** Joins f to a filter that no other holds, whatever its kind. */
  method JoinNode(t: Node, f: Node, ghost nodes: set<Node>) returns (r: Node, ghost after: set<Node>)
    requires Forest(nodes) && Root(nodes, t) && Root(nodes, f) && t != f
    modifies t
    ensures r.tree == Join(old(t.tree), f.tree)
    ensures nodes <= after && fresh(after - nodes) && Forest(after) && Root(after, r)
  {
    hide Forest, Root, Join;
    match t.kind {
      case IsAnd2 =>
        after := JoinAnd2(t, f, nodes);
        r := t;
      case IsAnd3 =>
        after := JoinAnd3(t, f, nodes);
        r := t;
      case IsAnd =>
        JoinAnd(t, f, nodes);
        r, after := t, nodes;
      case _ =>
        r, after := JoinOther(t, f, nodes);
    }
  }

  /** A new node of another kind takes over the arguments of one that is then deleted. */
  method TakeOver(t: Node, kind: Kind, ghost tree: Tree, ghost nodes: set<Node>) returns (r: Node)
    requires Closed(nodes) && HeldOnce(nodes) && Root(nodes, t)
    modifies t`args
    ensures fresh(r) && r.kind == kind && r.args == old(t.args) && r.uses == t.uses && r.tree == tree && t !in r.args
    ensures Closed(nodes - {t} + {r}) && HeldOnce(nodes - {t} + {r}) && Root(nodes - {t} + {r}, r)
  {
    r := new Node(kind, t.args, t.uses, tree);
    t.args := [];
  }

  /** A conjunction of two or three hands its arguments over to a node of its own kind and is deleted. */
  method OptimizeNode(t: Node, ghost nodes: set<Node>) returns (r: Node, ghost after: set<Node>)
    requires Forest(nodes) && Root(nodes, t)
    modifies t`args
    ensures r.tree == Optimize(t.tree)
    ensures Forest(after) && Root(after, r) && after - {r} == nodes - {t}
  {
    hide HeldOnce, Closed;
    if t.kind.IsAnd? && |t.args| == 2 {
      r := TakeOver(t, IsAnd2, And2(t.tree.list[0], t.tree.list[1], t.uses), nodes);
      after := nodes - {t} + {r};
    } else if t.kind.IsAnd? && |t.args| == 3 {
      r := TakeOver(t, IsAnd3, And3(t.tree.list[0], t.tree.list[1], t.tree.list[2], t.uses), nodes);
      after := nodes - {t} + {r};
    } else {
      r, after := t, nodes;
    }
  }

  lemma ArgTrees(n: Node, nodes: set<Node>)
    requires Forest(nodes) && n in nodes
    ensures Matches(n) && forall a <- n.args :: a in nodes
    ensures n.kind.IsAnd? ==> forall i :: 0 <= i < |n.args| ==> n.args[i].tree in n.tree.list
  {
  }

  /** Evaluates the filter tree below a node on a row. */
  method EvalNode(n: Node, row: Row, ghost nodes: set<Node>) returns (pass: bool)
    requires Forest(nodes) && n in nodes && Ready(n.tree) && MvaSorted(row)
    ensures pass <==> Eval(n.tree, row)
    decreases n.tree
  {
    hide Forest, LeafEval, LeafReady, MvaSorted;
    ArgTrees(n, nodes);
    match n.kind
    case IsLeaf(leaf) => pass := EvalLeaf(leaf, row);
    case IsAnd2 =>
      pass := EvalNode(n.args[0], row, nodes);
      if pass {
        pass := EvalNode(n.args[1], row, nodes);
      }
    case IsAnd3 =>
      pass := EvalNode(n.args[0], row, nodes);
      if pass {
        pass := EvalNode(n.args[1], row, nodes);
      }
      if pass {
        pass := EvalNode(n.args[2], row, nodes);
      }
    case IsAnd =>
      for i := 0 to |n.args|
        invariant forall k :: 0 <= k < i ==> Eval(n.tree.list[k], row)
      {
        var one := EvalNode(n.args[i], row, nodes);
        if !one {
          return false;
        }
      }
      pass := true;
    case IsNot =>
      pass := EvalNode(n.args[0], row, nodes);
      pass := !pass;
  }

  /** And on the minimum and maximum of a block. */
  method EvalNodeBlock(n: Node, b: Block, ghost nodes: set<Node>) returns (pass: bool)
    requires Forest(nodes) && n in nodes
    ensures pass <==> EvalBlock(n.tree, b)
    decreases n.tree
  {
    hide Forest, LeafEvalBlock;
    ArgTrees(n, nodes);
    match n.kind
    case IsLeaf(leaf) => pass := EvalLeafBlock(leaf, b);
    case IsAnd2 =>
      pass := EvalNodeBlock(n.args[0], b, nodes);
      if pass {
        pass := EvalNodeBlock(n.args[1], b, nodes);
      }
    case IsAnd3 =>
      pass := EvalNodeBlock(n.args[0], b, nodes);
      if pass {
        pass := EvalNodeBlock(n.args[1], b, nodes);
      }
      if pass {
        pass := EvalNodeBlock(n.args[2], b, nodes);
      }
    case IsAnd =>
      for i := 0 to |n.args|
        invariant forall k :: 0 <= k < i ==> EvalBlock(n.tree.list[k], b)
      {
        var one := EvalNodeBlock(n.args[i], b, nodes);
        if !one {
          return false;
        }
      }
      pass := true;
    case IsNot => pass := true;
  }
}
