/** Top-down splay trees (kernel/sys/tree.h). The mirror-image halves of the source are written once, with the side as a
    parameter. */
module Splay {
  import opened Sides
  import opened SplayShape

  class SplayTree {
    var root: Node?
    ghost var nodes: set<Node>
    ghost var tree: Tree
    ghost var lo: int
    ghost var hi: int

    ghost function Snap(): Mem
      reads this`nodes, nodes
    {
      map n | n in nodes :: Cell(n.left, n.right)
    }

    /** The nodes of the tree in the order of their keys. */
    ghost function Contents(): seq<Node>
      reads this
    {
      InOrder(tree)
    }

    ghost predicate Valid()
      reads this, nodes
    {
      root == Ptr(tree) && Holds(Snap(), tree, lo, hi) && forall n :: n in nodes ==> n in Contents()
    }

    constructor ()
      ensures Valid() && nodes == {}
    {
      root, nodes, tree, lo, hi := null, {}, Leaf, 0, 0;
    }

    ghost function Tail(node: Node, c: Spine): Node {
      if c.End? then node else c.n
    }

    /** The state of the loop: `node` is the local sentinel, `left` and `right` the ends of the two spines. */
    ghost predicate At(node: Node, left: Node, right: Node, l: Spine, t: Tree, r: Spine)
      reads this`root, this`nodes, nodes, node
    {
      && node !in nodes && root == Ptr(t) && left == Tail(node, l) && right == Tail(node, r)
      && Parted(Snap(), l, t, r, node.right, node.left)
    }

    /** The nodes outside the tree being splayed keep their links. */
    twostate predicate Kept(l: Spine, r: Spine)
      reads this`nodes, nodes
    {
      nodes == old(nodes) && SameOut(old(Snap()), Snap(), Outer(l), Outer(r))
    }

    /** SPLAY_ROTATE_LEFT and SPLAY_ROTATE_RIGHT: the root sinks to side `s` below `tmp`. */
    method Rotate(s: Side, tmp: Node, ghost node: Node, ghost left: Node, ghost right: Node, ghost l: Spine,
        ghost t: Tree, ghost r: Spine)
      requires At(node, left, right, l, t, r) && t.Bin? && Sub(t, Opp(s)).Bin? && tmp == Sub(t, Opp(s)).n
      modifies this`root, nodes
      ensures At(node, left, right, l, Turn(s, t), r) && InOrder(Turn(s, t)) == InOrder(t) && Kept(l, r)
    {
      ghost var before := Snap();
      assert if s.Left? then Holds(before, t.r, t.n.key, Edge(r)) else Holds(before, t.l, Edge(l), t.n.key);
      if s.Left? {
        root.right := tmp.left;
        tmp.left := root;
      } else {
        root.left := tmp.right;
        tmp.right := root;
      }
      root := tmp;
      PartedTurn(before, Snap(), s, l, t, r, node.right, node.left);
      TurnOrder(s, t);
    }

    /** SPLAY_LINKRIGHT and SPLAY_LINKLEFT: the root goes to the end of the spine of side `s`. */
    method Link(s: Side, node: Node, left: Node, right: Node, ghost l: Spine, ghost t: Tree, ghost r: Spine)
      returns (left': Node, right': Node, ghost l': Spine, ghost r': Spine)
      requires At(node, left, right, l, t, r) && t.Bin?
      modifies this`root, nodes, node
      ensures l' == (if s.Left? then Arm(l, t.n, t.l) else l) && r' == (if s.Left? then r else Arm(r, t.n, t.r))
      ensures At(node, left', right', l', Sub(t, Opp(s)), r') && Flow(l', Sub(t, Opp(s)), r') == Flow(l, t, r)
      ensures Kept(l, r)
    {
      ghost var before, fl, fr := Snap(), node.right, node.left;
      OuterBelow(before, l, fl);
      OuterAbove(before, r, fr);
      PushOrder(l, t, r);
      if s.Left? {
        left.right := root;
        left', right', l', r' := root, right, Arm(l, t.n, t.l), r;
        root := root.right;
        Pushed(before, Snap(), s, l, t, Edge(l), Edge(r), fl, node.right);
        OpenFrame(before, Snap(), Right, r, fr);
      } else {
        right.left := root;
        left', right', l', r' := left, root, l, Arm(r, t.n, t.r);
        root := root.left;
        Pushed(before, Snap(), s, r, t, Edge(l), Edge(r), fr, node.left);
        OpenFrame(before, Snap(), Left, l, fl);
      }
    }

    /** SPLAY_ASSEMBLE. */
    method Assemble(k: int, node: Node, left: Node, right: Node, ghost l: Spine, ghost t: Tree, ghost r: Spine)
      returns (ghost u: Tree)
      requires At(node, left, right, l, t, r) && t.Bin? && Ended(k, l, t, r)
      modifies nodes, node
      ensures u == Bin(Fill(Left, l, t.l), t.n, Fill(Right, r, t.r)) && root == t.n
      ensures Split(Snap(), k, u, Outer(l), Outer(r)) && Kept(l, r)
    {
      hide Holds, Open, Parted, Split, Fill;
      ghost var before, fl, fr := Snap(), node.right, node.left;
      PartedEnds(before, l, t, r, fl, fr);
      OuterBelow(before, l, fl);
      OuterAbove(before, r, fr);
      left.right := root.left;
      right.left := root.right;
      root.left := node.right;
      root.right := node.left;
      u := Bin(Fill(Left, l, t.l), t.n, Fill(Right, r, t.r));
      Assembled(before, Snap(), k, l, t, r, fl, fr, node.right, node.left);
    }

    /** What every round of the loop keeps, for the key `k`, the nodes `flow` and the key bounds `a` and `b`. */
    ghost predicate Going(k: int, node: Node, left: Node, right: Node, l: Spine, t: Tree, r: Spine, flow: seq<Node>,
        a: int, b: int)
      reads this`root, this`nodes, nodes, node
    {
      At(node, left, right, l, t, r) && t.Bin? && Around(k, l, r) && Flow(l, t, r) == flow && Outer(l) == a &&
        Outer(r) == b
    }

    /** The root goes over to the other side and its child on side `s` becomes the root. */
    method Shift(s: Side, k: int, node: Node, left: Node, right: Node, ghost l: Spine, ghost t: Tree, ghost r: Spine,
        ghost flow: seq<Node>, ghost a: int, ghost b: int)
      returns (left': Node, right': Node, ghost l': Spine, ghost t': Tree, ghost r': Spine)
      requires Going(k, node, left, right, l, t, r, flow, a, b) && Beyond(s, k, t.n.key) && Sub(t, s).Bin?
      modifies this`root, nodes, node
      ensures Going(k, node, left', right', l', t', r', flow, a, b) && t' == Sub(t, s)
      ensures nodes == old(nodes) && SameOut(old(Snap()), Snap(), a, b)
    {
      left', right', l', r' := Link(Opp(s), node, left, right, l, t, r);
      t' := Sub(t, s);
    }

    /** The rotation of a round whose key lies beyond the child as well. */
    method Raise(s: Side, tmp: Node, k: int, ghost node: Node, ghost left: Node, ghost right: Node, ghost l: Spine,
        ghost t: Tree, ghost r: Spine, ghost flow: seq<Node>, ghost a: int, ghost b: int)
      returns (ghost t': Tree)
      requires Going(k, node, left, right, l, t, r, flow, a, b) && Sub(t, s).Bin? && tmp == Sub(t, s).n
      modifies this`root, nodes
      ensures t' == Turn(Opp(s), t) && Going(k, node, left, right, l, t', r, flow, a, b)
      ensures nodes == old(nodes) && SameOut(old(Snap()), Snap(), a, b)
    {
      Rotate(Opp(s), tmp, node, left, right, l, t, r);
      t' := Turn(Opp(s), t);
    }

    method RaiseAndShift(s: Side, tmp: Node, k: int, node: Node, left: Node, right: Node, ghost l: Spine, ghost t: Tree,
        ghost r: Spine, ghost flow: seq<Node>, ghost a: int, ghost b: int)
      returns (more: bool, left': Node, right': Node, ghost l': Spine, ghost t': Tree, ghost r': Spine)
      requires Going(k, node, left, right, l, t, r, flow, a, b) && Sub(t, s).Bin? && tmp == Sub(t, s).n
      requires Beyond(s, k, tmp.key)
      modifies this`root, nodes, node
      ensures Going(k, node, left', right', l', t', r', flow, a, b)
      ensures nodes == old(nodes) && SameOut(old(Snap()), Snap(), a, b)
      ensures if more then Height(t') < Height(t) else Ended(k, l', t', r')
    {
      TurnHeight(Opp(s), t);
      t' := Raise(s, tmp, k, node, left, right, l, t, r, flow, a, b);
      more := (if s.Left? then root.left else root.right) != null;
      if more {
        left', right', l', t', r' := Shift(s, k, node, left, right, l, t', r, flow, a, b);
      } else {
        left', right', l', r' := left, right, l, r;
      }
    }

    /** One round of the loop; `more` is false when the source breaks out of it. */
    method Step(elm: Node, node: Node, left: Node, right: Node, ghost l: Spine, ghost t: Tree, ghost r: Spine,
        ghost flow: seq<Node>, ghost a: int, ghost b: int)
      returns (more: bool, left': Node, right': Node, ghost l': Spine, ghost t': Tree, ghost r': Spine)
      requires Going(elm.key, node, left, right, l, t, r, flow, a, b) && elm.key != t.n.key
      modifies this`root, nodes, node
      ensures Going(elm.key, node, left', right', l', t', r', flow, a, b)
      ensures nodes == old(nodes) && SameOut(old(Snap()), Snap(), a, b)
      ensures if more then Height(t') < Height(t) else Ended(elm.key, l', t', r')
    {
      var s := if elm.key < root.key then Left else Right;
      var tmp := if s.Left? then root.left else root.right;
      if tmp == null {
        more, left', right', l', t', r' := false, left, right, l, t, r;
      } else if if s.Left? then elm.key < tmp.key else elm.key > tmp.key {
        more, left', right', l', t', r' := RaiseAndShift(s, tmp, elm.key, node, left, right, l, t, r, flow, a, b);
      } else {
        left', right', l', t', r' := Shift(s, elm.key, node, left, right, l, t, r, flow, a, b);
        more := true;
      }
    }

    /** SPLAY: brings to the root the node with the key of `elm`, or else a neighbour of that key. */
    method Splay(elm: Node, ghost t0: Tree, ghost a: int, ghost b: int) returns (ghost u: Tree)
      requires t0.Bin? && root == t0.n && Holds(Snap(), t0, a, b)
      modifies this`root, nodes
      ensures Split(Snap(), elm.key, u, a, b) && root == u.n && InOrder(u) == InOrder(t0)
      ensures nodes == old(nodes) && SameOut(old(Snap()), Snap(), a, b)
    {
      var node := new Node(0);
      var left, right := node, node;
      ghost var l, t, r := End(a), t0, End(b);
      var more := true;
      while more && elm.key != root.key
        invariant Going(elm.key, node, left, right, l, t, r, InOrder(t0), a, b) && fresh(node)
        invariant nodes == old(nodes) && SameOut(old(Snap()), Snap(), a, b)
        invariant !more ==> Ended(elm.key, l, t, r)
        decreases more, Height(t)
      {
        more, left, right, l, t, r := Step(elm, node, left, right, l, t, r, InOrder(t0), a, b);
      }
      FillOrder(l, t, r);
      u := Assemble(elm.key, node, left, right, l, t, r);
    }

    /** SPLAY_FIND. */
    method Find(elm: Node) returns (res: Node?)
      requires Valid()
      modifies this, nodes
      ensures Valid() && nodes == old(nodes) && Contents() == old(Contents())
      ensures if res == null then forall n :: n in nodes ==> n.key != elm.key
        else res in nodes && res.key == elm.key && root == res
    {
      if root == null {
        return null;
      }
      tree := Splay(elm, tree, lo, hi);
      SplitHolds(Snap(), elm.key, tree, lo, hi);
      Missing(Snap(), elm.key, tree, lo, hi);
      res := if elm.key == root.key then root else null;
    }

    /** SPLAY_INSERT: returns null once `elm` is in, or the node that already has its key. */
    method Insert(elm: Node) returns (res: Node?)
      requires Valid()
      modifies this, nodes, elm
      ensures Valid()
      ensures res == null <==> forall n :: n in old(nodes) ==> n.key != elm.key
      ensures res == null ==> nodes == old(nodes) + {elm} && root == elm
      ensures res != null ==> res in nodes && res.key == elm.key && nodes == old(nodes) && Contents() == old(Contents())
    {
      hide Holds, Split, InOrder;
      if root == null {
        NoNodes();
        Plant(elm);
      } else {
        tree := Splay(elm, tree, lo, hi);
        SplitHolds(Snap(), elm.key, tree, lo, hi);
        Missing(Snap(), elm.key, tree, lo, hi);
        if elm.key == root.key {
          return root;
        }
        InsertAbove(elm);
      }
      root := elm;
      res := null;
    }

    lemma NoNodes()
      requires Valid() && root == null
      ensures nodes == {}
    {
    }

    /** The first node of an empty tree. */
    method Plant(elm: Node)
      modifies this`tree, this`nodes, this`lo, this`hi, elm
      ensures nodes == {elm} && Ptr(tree) == elm && Holds(Snap(), tree, lo, hi)
      ensures forall n :: n in nodes ==> n in InOrder(tree)
    {
      elm.left, elm.right := null, null;
      tree, nodes, lo, hi := Bin(Leaf, elm, Leaf), {elm}, elm.key - 1, elm.key + 1;
    }

    /** The links SPLAY_INSERT writes to put `elm` above the root. */
    method InsertAbove(elm: Node)
      requires root == Ptr(tree) && Split(Snap(), elm.key, tree, lo, hi) && elm.key != root.key && elm !in nodes
      modifies this`nodes, this`tree, this`lo, this`hi, root, elm
      ensures nodes == old(nodes) + {elm} && tree == old(Crown(elm, tree)) && Holds(Snap(), tree, lo, hi)
      ensures forall n :: n in old(InOrder(tree)) || n == elm ==> n in InOrder(tree)
    {
      ghost var before, t, a, b := Snap(), tree, lo, hi;
      if elm.key < root.key {
        elm.left := root.left;
        elm.right := root;
        root.left := null;
      } else {
        elm.right := root.right;
        elm.left := root;
        root.right := null;
      }
      nodes, tree, lo, hi := nodes + {elm}, Crown(elm, t), Min(a, elm.key - 1), Max(b, elm.key + 1);
      Crowned(before, Snap(), elm, t, a, b);
    }

    /** SPLAY_REMOVE: takes out the node with the key of `elm` and returns `elm`, or null when there is none. */
    method Remove(elm: Node) returns (res: Node?)
      requires Valid()
      modifies this, nodes
      ensures Valid() && res == (if exists n :: n in old(nodes) && n.key == elm.key then elm else null)
      ensures nodes == set n | n in old(nodes) && n.key != elm.key
      ensures res == null ==> Contents() == old(Contents())
    {
      if root == null {
        return null;
      }
      tree := Splay(elm, tree, lo, hi);
      SplitHolds(Snap(), elm.key, tree, lo, hi);
      Missing(Snap(), elm.key, tree, lo, hi);
      if elm.key != root.key {
        return null;
      }
      RemoveRoot(elm);
      res := elm;
    }

    /** The case with a left subtree: it is splayed for the removed key and takes the right one over. */
    method JoinKids(elm: Node, ghost m: Node, ghost l: Tree, ghost r: Tree, ghost a: int, ghost b: int)
      returns (ghost v: Tree)
      requires Split(Snap(), elm.key, Bin(l, m, r), a, b) && m.key == elm.key && root == m && l.Bin?
      modifies this`root, this`nodes, nodes
      ensures nodes == old(nodes) - {m} && root == Ptr(v) && Holds(Snap(), v, a, b)
      ensures InOrder(v) == InOrder(l) + InOrder(r)
    {
      ghost var before := Snap();
      var tmp := root.right;
      root := root.left;
      ghost var u := Splay(elm, l, a, elm.key);
      ghost var mid := Snap();
      HoldsFrame(before, mid, r, elm.key, b);
      root.right := tmp;
      nodes := nodes - {m};
      Joined(mid, Snap(), elm.key, u, r, a, b);
      v := Bin(u.l, u.n, r);
    }

    method RemoveRoot(elm: Node)
      requires Valid() && tree.Bin? && Split(Snap(), elm.key, tree, lo, hi) && tree.n.key == elm.key
      modifies this, nodes
      ensures Valid() && nodes == old(nodes) - {old(tree.n)} && Contents() == old(InOrder(tree.l) + InOrder(tree.r))
    {
      ghost var m, l, r, before := tree.n, tree.l, tree.r, Snap();
      assert InOrder(tree) == InOrder(l) + [m] + InOrder(r);
      if root.left == null {
        root := root.right;
        nodes, tree, lo := nodes - {m}, r, elm.key;
        HoldsFrame(before, Snap(), r, lo, hi);
      } else {
        tree := JoinKids(elm, m, l, r, lo, hi);
      }
    }

    /** Between calls the nodes are in strictly ascending order and are exactly the set; the order follows from the
        set. */
    lemma Invariants()
      requires Valid()
      ensures Ascending(Contents()) && forall n: Node {:trigger n in Contents()} :: n in nodes <==> n in Contents()
    {
      OrderHolds(Snap(), tree, lo, hi);
    }
  }
}
