module RedBlack {
  import opened Sides
  import opened RbShape
  import opened RbColor
  import opened Align

  ghost function Opt(p: Node?): set<Node> {
    if p == null then {} else {p}
  }

  /** What a round of RB_REMOVE_COLOR decreases: a red focus ends the loop, otherwise the focus climbs. */
  ghost function Rank(c: Ctx, t: Tree): nat {
    if IsRed(t) then 0 else Depth(c) + 1
  }

  class RbTree {
    var root: Node?
    ghost var nodes: set<Node>
    ghost var tree: Tree
    ghost var lo: int
    ghost var hi: int

    ghost function Entry(n: Node): Cell
      reads n
    {
      Cell(n.left, n.right, n.parent, n.red)
    }

    ghost function Snap(): Mem
      reads this`nodes, nodes
    {
      map n | n in nodes :: Entry(n)
    }

    ghost predicate Focus(c: Ctx, t: Tree)
      reads this`root, this`nodes, nodes
    {
      Shaped(Snap(), root, c, t)
    }

    /** The nodes of the tree in the order of their keys. */
    ghost function Contents(): seq<Node>
      reads this
    {
      InOrder(tree)
    }

    ghost predicate Valid()
      reads this, nodes
    {
      && Focus(Top(lo, hi), tree) && RedBlackTree(tree)
      && (forall n :: n in nodes ==> n in Contents())
    }

    constructor ()
      ensures Valid() && nodes == {} && Contents() == []
    {
      root, nodes, tree, lo, hi := null, {}, Leaf, 0, 0;
      new;
      assert Ok(Leaf, 0);
    }

    /** RB_ROTATE_LEFT and RB_ROTATE_RIGHT, link by link: `elm` sinks to side `s` below its other child. */
    method RotateLinks(elm: Node, s: Side, ghost c: Ctx, ghost a: Tree, ghost ce: bool, ghost b: Tree, ghost y: Node,
        ghost cy: bool, ghost d: Tree)
      returns (tmp: Node)
      requires Turnable(Snap(), c, s, a, elm, ce, b, y, cy, d)
      modifies this`root, Opt(Up(c))`left, Opt(Up(c))`right, Opt(Ptr(b))`parent
      modifies elm`left, elm`right, elm`parent, y`left, y`right, y`parent
      ensures tmp == y
      ensures elm.parent == y && y.parent == Up(c) && (b.Bin? ==> b.n.parent == elm)
      ensures elm.left == (if s.Left? then Ptr(a) else Ptr(b)) && elm.right == (if s.Left? then Ptr(b) else Ptr(a))
      ensures y.left == (if s.Left? then elm else Ptr(d)) && y.right == (if s.Left? then Ptr(d) else elm)
      ensures root == (if c.Top? then y else old(root))
      ensures c.Arm? ==> c.n.left == if c.side.Left? then y else Ptr(c.sib)
      ensures c.Arm? ==> c.n.right == if c.side.Left? then Ptr(c.sib) else y
    {
      tmp := if s.Left? then elm.right else elm.left;
      var kid := if s.Left? then tmp.left else tmp.right;
      if s.Left? { elm.right := kid; } else { elm.left := kid; }
      if kid != null { kid.parent := elm; }
      tmp.parent := elm.parent;
      if elm.parent != null {
        if elm == elm.parent.left { elm.parent.left := tmp; } else { elm.parent.right := tmp; }
      } else {
        root := tmp;
      }
      if s.Left? { tmp.left := elm; } else { tmp.right := elm; }
      elm.parent := tmp;
    }

    method RotateEntries(elm: Node, s: Side, ghost c: Ctx, ghost a: Tree, ghost ce: bool, ghost b: Tree, ghost y: Node,
        ghost cy: bool, ghost d: Tree)
      returns (tmp: Node)
      requires Turnable(Snap(), c, s, a, elm, ce, b, y, cy, d)
      modifies this`root, nodes`left, nodes`right, nodes`parent
      ensures tmp == y
      ensures Turned(old(Snap()), Snap(), old(root), root, c, s, a, elm, ce, b, y, cy, d)
    {
      tmp := RotateLinks(elm, s, c, a, ce, b, y, cy, d);
    }

    method Rotate(elm: Node, s: Side, ghost c: Ctx, ghost t: Tree) returns (tmp: Node)
      requires Focus(c, t) && HasKid(Opp(s), t) && t.n == elm
      modifies this`root, nodes`left, nodes`right, nodes`parent
      ensures Focus(c, Turn(s, t)) && tmp == Turn(s, t).n && InOrder(Turn(s, t)) == InOrder(t)
    {
      ghost var a, low := if s.Left? then t.l else t.r, if s.Left? then t.r else t.l;
      ghost var b, d := if s.Left? then low.l else low.r, if s.Left? then low.r else low.l;
      assert t == Join(s, a, elm, t.red, Join(s, b, low.n, low.red, d));
      CanTurn(Snap(), root, c, s, a, elm, t.red, b, low.n, low.red, d);
      tmp := RotateEntries(elm, s, c, a, t.red, b, low.n, low.red, d);
      Rotated(old(Snap()), Snap(), old(root), root, c, s, a, elm, t.red, b, low.n, low.red, d);
      FlowTurn(s, t);
    }

    method Paint(n: Node, red: bool, ghost c: Ctx, ghost t: Tree)
      requires Focus(c, t) && t.Bin? && t.n == n
      modifies nodes`red
      ensures Focus(c, t.(red := red))
    {
      Look(Snap(), root, c, t);
      n.red := red;
      Painted(old(Snap()), Snap(), root, c, t, red);
    }

    method PaintParent(n: Node, red: bool, ghost c: Ctx, ghost t: Tree)
      requires Focus(c, t) && c.Arm? && c.n == n
      modifies nodes`red
      ensures Focus(c.(red := red), t)
    {
      ghost var u := Join(c.side, t, n, c.red, c.sib);
      Descend(Snap(), root, c.up, c.side, t, n, c.red, c.sib);
      Paint(n, red, c.up, u);
      Descend(Snap(), root, c.up, c.side, t, n, red, c.sib);
    }

    method PaintSibling(n: Node, red: bool, ghost c: Ctx, ghost t: Tree)
      requires Focus(c, t) && c.Arm? && c.sib.Bin? && c.sib.n == n
      modifies nodes`red
      ensures Focus(c.(sib := c.sib.(red := red)), t)
    {
      ghost var d := Arm(c.up, Opp(c.side), c.n, c.red, t);
      Descend(Snap(), root, c.up, c.side, t, c.n, c.red, c.sib);
      Descend(Snap(), root, c.up, Opp(c.side), c.sib, c.n, c.red, t);
      Paint(n, red, d, c.sib);
      Descend(Snap(), root, c.up, c.side, t, c.n, c.red, c.sib.(red := red));
      Descend(Snap(), root, c.up, Opp(c.side), c.sib.(red := red), c.n, c.red, t);
    }

    ghost method Commit(whole: Tree, c: Ctx)
      requires Focus(Base(c), whole) && RedBlackTree(whole) && forall n :: n in nodes ==> n in InOrder(whole)
      modifies this`tree, this`lo, this`hi
      ensures Valid() && tree == whole
    {
      tree, lo, hi := whole, Base(c).lo, Base(c).hi;
    }

    // ----- RB_INSERT_COLOR -----

    method RecolourUncle(parent: Node, gparent: Node, uncle: Node, ghost c: Ctx, ghost t: Tree, ghost k: nat)
      returns (ghost u: Tree)
      requires Focus(c, t) && RedRed(c, t, k) && CtxRed(c) && IsRed(c.up.sib)
      requires parent == c.n && gparent == c.up.n && uncle == c.up.sib.n
      modifies nodes`red
      ensures Focus(c.up.up, u) && u.Bin? && u.n == gparent && RedRed(c.up.up, u, k + 1)
      ensures Flow(c.up.up, u) == Flow(c, t)
    {
      ghost var c1, t1 := c.up, Join(c.side, t, c.n, true, c.sib);
      Descend(Snap(), root, c1, c.side, t, c.n, true, c.sib);
      PaintSibling(uncle, false, c1, t1);
      c1 := c1.(sib := c1.sib.(red := false));
      Paint(parent, false, c1, t1);
      t1 := t1.(red := false);
      PaintParent(gparent, true, c1, t1);
      u := Join(c1.side, t1, gparent, true, c1.sib);
      Descend(Snap(), root, c1.up, c1.side, t1, gparent, true, c1.sib);
      RedUncle(c, t, k);
      FlowDescend(c.up, c.side, t, c.n, true, c.sib);
      FlowDescend(c1.up, c1.side, t1, gparent, true, c1.sib);
    }

    /** Turns an inner grandchild into an outer one; `parent` ends up below `elm`. */
    method RotateInner(parent: Node, elm: Node, ghost c: Ctx, ghost t: Tree, ghost k: nat, s: Side)
      returns (ghost c': Ctx, ghost t': Tree)
      requires Focus(c, t) && RedRed(c, t, k) && CtxRed(c) && c.up.side == s && c.side == Opp(s)
      requires parent == c.n && elm == t.n
      modifies this`root, nodes`left, nodes`right, nodes`parent
      ensures Focus(c', t') && RedRed(c', t', k) && CtxRed(c') && c'.side == s && c'.up == c.up
      ensures c'.n == elm && t'.n == parent && Flow(c', t') == Flow(c, t)
    {
      ghost var t1 := Join(c.side, t, c.n, true, c.sib);
      Descend(Snap(), root, c.up, c.side, t, c.n, true, c.sib);
      var _ := Rotate(parent, s, c.up, t1);
      if s.Left? {
        c', t' := Arm(c.up, Left, t.n, true, t.r), Bin(c.sib, c.n, true, t.l);
      } else {
        c', t' := Arm(c.up, Right, t.n, true, t.l), Bin(t.r, c.n, true, c.sib);
      }
      Descend(Snap(), root, c.up, s, t', t.n, true, c'.sib);
      InnerToOuter(c, t, k);
      FlowDescend(c.up, c.side, t, c.n, true, c.sib);
      FlowDescend(c.up, s, t', t.n, true, c'.sib);
    }

    /** Paints the parent black and the grandparent red and turns the grandparent down. */
    method RotateOuter(parent: Node, gparent: Node, ghost c: Ctx, ghost t: Tree, ghost k: nat, s: Side)
      returns (ghost c': Ctx)
      requires Focus(c, t) && RedRed(c, t, k) && CtxRed(c) && !IsRed(c.up.sib) && c.side == c.up.side == s
      requires parent == c.n && gparent == c.up.n
      modifies this`root, nodes
      ensures Focus(c', t) && RedRed(c', t, k) && !CtxRed(c') && Depth(c') < Depth(c) && Base(c') == Base(c)
      ensures Flow(c', t) == Flow(c, t)
    {
      ghost var c1, t1 := c.up, Join(s, t, c.n, true, c.sib);
      Descend(Snap(), root, c1, s, t, c.n, true, c.sib);
      Paint(parent, false, c1, t1);
      t1 := t1.(red := false);
      PaintParent(gparent, true, c1, t1);
      ghost var t2 := Join(s, t1, gparent, true, c1.sib);
      Descend(Snap(), root, c1.up, s, t1, gparent, true, c1.sib);
      var _ := Rotate(gparent, Opp(s), c1.up, t2);
      ghost var low := Join(s, c.sib, gparent, true, c1.sib);
      c' := Arm(c1.up, s, parent, false, low);
      assert Turn(Opp(s), t2) == Join(s, t, parent, false, low);
      Descend(Snap(), root, c1.up, s, t, parent, false, low);
      BlackUncle(c, t, k);
      FlowDescend(c1, s, t, parent, true, c.sib);
      FlowDescend(c1.up, s, t1, gparent, true, c1.sib);
      FlowDescend(c1.up, s, t, parent, false, low);
    }

    method InsertStep(e: Node, ghost c: Ctx, ghost t: Tree, ghost k: nat)
      returns (elm: Node, ghost c': Ctx, ghost t': Tree, ghost k': nat)
      requires Focus(c, t) && RedRed(c, t, k) && CtxRed(c) && e == t.n
      modifies this`root, nodes
      ensures Focus(c', t') && RedRed(c', t', k') && elm == t'.n && Depth(c') < Depth(c) && Base(c') == Base(c)
      ensures Flow(c', t') == Flow(c, t)
    {
      elm := e;
      Look(Snap(), root, c, t);
      ghost var t1 := Join(c.side, t, c.n, true, c.sib);
      Descend(Snap(), root, c.up, c.side, t, c.n, true, c.sib);
      Look(Snap(), root, c.up, t1);
      var parent := elm.parent;
      var gparent := parent.parent;
      var s := if parent == gparent.left then Left else Right;
      var uncle := if s.Left? then gparent.right else gparent.left;
      assert s == c.up.side && uncle == Ptr(c.up.sib);
      if uncle != null && uncle.red {
        t' := RecolourUncle(parent, gparent, uncle, c, t, k);
        elm, c', k' := gparent, c.up.up, k + 1;
      } else {
        c', t', k' := c, t, k;
        if (if s.Left? then parent.right else parent.left) == elm {
          c', t' := RotateInner(parent, elm, c, t, k, s);
          parent, elm := elm, parent;
        }
        c' := RotateOuter(parent, gparent, c', t', k, s);
      }
    }

    method BlackenRoot(ghost c: Ctx, ghost t: Tree, ghost k: nat) returns (ghost whole: Tree)
      requires Focus(c, t) && RedRed(c, t, k) && !CtxRed(c)
      modifies nodes`red
      ensures Focus(Base(c), whole) && RedBlackTree(whole) && InOrder(whole) == Flow(c, t)
    {
      ghost var p := Plug(c, t);
      PlugBin(c, t);
      Unzip(Snap(), root, c, t);
      FlowPlug(c, t);
      if c.Arm? { PlugOk(c, t, k); } else { assert Ok(p.(red := false), k + 1); }
      Look(Snap(), root, Base(c), p);
      Paint(root, false, Base(c), p);
      whole := p.(red := false);
    }

    method InsertColor(e: Node, ghost c0: Ctx, ghost t0: Tree, ghost k0: nat) returns (ghost whole: Tree)
      requires Focus(c0, t0) && RedRed(c0, t0, k0) && e == t0.n
      modifies this`root, nodes
      ensures Focus(Base(c0), whole) && RedBlackTree(whole) && InOrder(whole) == Flow(c0, t0)
    {
      var elm := e;
      ghost var c, t, k := c0, t0, k0;
      Look(Snap(), root, c, t);
      while elm.parent != null && elm.parent.red
        invariant Focus(c, t) && RedRed(c, t, k) && elm == t.n && elm.parent == Up(c)
        invariant c.Arm? ==> c.n.red == c.red
        invariant Flow(c, t) == Flow(c0, t0) && Base(c) == Base(c0)
        decreases Depth(c)
      {
        elm, c, t, k := InsertStep(elm, c, t, k);
        Look(Snap(), root, c, t);
      }
      whole := BlackenRoot(c, t, k);
    }

    // ----- RB_REMOVE_COLOR -----

    /** Makes a red sibling the grandparent; the sibling is then black. */
    method LiftSibling(parent: Node, tmp: Node, s: Side, ghost c: Ctx, ghost t: Tree, ghost k: nat)
      returns (ghost c': Ctx)
      requires Focus(c, t) && Short(c, t, k) && c.Arm? && IsRed(c.sib) && c.side == s && parent == c.n && tmp == c.sib.n
      modifies this`root, nodes
      ensures Focus(c', t) && Short(c', t, k) && c'.Arm? && c'.side == s && c'.n == parent && !IsRed(c'.sib)
      ensures c'.red && c'.up.Arm? && Depth(c'.up.up) == Depth(c.up) && Base(c') == Base(c) && Flow(c', t) == Flow(c, t)
    {
      RedSibling(c, t, k);
      ghost var near, far := if s.Left? then c.sib.l else c.sib.r, if s.Left? then c.sib.r else c.sib.l;
      PaintSibling(tmp, false, c, t);
      ghost var sib := c.sib.(red := false);
      PaintParent(parent, true, c.(sib := sib), t);
      ghost var j := Join(s, t, parent, true, sib);
      Descend(Snap(), root, c.up, s, t, parent, true, sib);
      var _ := Rotate(parent, s, c.up, j);
      ghost var low := Join(s, t, parent, true, near);
      assert Turn(s, j) == Join(s, low, tmp, false, far);
      ghost var c1 := Arm(c.up, s, tmp, false, far);
      Descend(Snap(), root, c.up, s, low, tmp, false, far);
      Descend(Snap(), root, c1, s, t, parent, true, near);
      c' := Arm(c1, s, parent, true, near);
      FlowDescend(c.up, s, t, parent, c.red, c.sib);
      assert InOrder(Join(s, t, parent, c.red, c.sib)) == InOrder(j);
      FlowDescend(c.up, s, low, tmp, false, far);
      FlowDescend(c1, s, t, parent, true, near);
    }

    /** Makes the outer nephew the red one. */
    method TurnSibling(tmp: Node, nephew: Node, s: Side, ghost c: Ctx, ghost t: Tree, ghost k: nat)
      returns (ghost c': Ctx)
      requires Focus(c, t) && Short(c, t, k) && c.Arm? && c.sib.Bin? && !c.sib.red && c.side == s && tmp == c.sib.n
      requires IsRed(if s.Left? then c.sib.l else c.sib.r) && !IsRed(if s.Left? then c.sib.r else c.sib.l)
      requires nephew == (if s.Left? then c.sib.l.n else c.sib.r.n)
      modifies this`root, nodes
      ensures Focus(c', t) && Short(c', t, k) && c'.Arm? && c' == c.(sib := c'.sib) && c'.sib.Bin? && !c'.sib.red
      ensures c'.sib.n == nephew && IsRed(if s.Left? then c'.sib.r else c'.sib.l)
      ensures Flow(c', t) == Flow(c, t)
    {
      ghost var near, far := if s.Left? then c.sib.l else c.sib.r, if s.Left? then c.sib.r else c.sib.l;
      ghost var x, y := if s.Left? then near.l else near.r, if s.Left? then near.r else near.l;
      ghost var d := Arm(c.up, Opp(s), c.n, c.red, t);
      Descend(Snap(), root, c.up, s, t, c.n, c.red, c.sib);
      Descend(Snap(), root, c.up, Opp(s), c.sib, c.n, c.red, t);
      Descend(Snap(), root, d, s, near, tmp, false, far);
      Paint(nephew, false, Arm(d, s, tmp, false, far), near);
      PaintParent(tmp, true, Arm(d, s, tmp, false, far), near.(red := false));
      ghost var sib := Join(s, near.(red := false), tmp, true, far);
      Descend(Snap(), root, d, s, near.(red := false), tmp, true, far);
      var _ := Rotate(tmp, Opp(s), d, sib);
      ghost var sib' := Join(s, x, nephew, false, Join(s, y, tmp, true, far));
      assert Turn(Opp(s), sib) == sib';
      Descend(Snap(), root, c.up, Opp(s), sib', c.n, c.red, t);
      Descend(Snap(), root, c.up, s, t, c.n, c.red, sib');
      c' := c.(sib := sib');
      RedInnerNephew(c, t, k, x, nephew, y, far);
      assert InOrder(sib) == InOrder(c.sib);
    }

    /** Supplies the missing black node by turning the parent. */
    method TurnParent(parent: Node, tmp: Node, nephew: Node, s: Side, ghost c: Ctx, ghost t: Tree, ghost k: nat)
      returns (ghost whole: Tree)
      requires Focus(c, t) && Short(c, t, k) && c.Arm? && c.sib.Bin? && !c.sib.red && !IsRed(t)
      requires c.side == s && parent == c.n && tmp == c.sib.n
      requires IsRed(if s.Left? then c.sib.r else c.sib.l) && nephew == (if s.Left? then c.sib.r.n else c.sib.l.n)
      modifies this`root, nodes
      ensures Focus(Base(c), whole) && RedBlackTree(whole) && whole.Bin? && InOrder(whole) == Flow(c, t)
    {
      ghost var near, far := if s.Left? then c.sib.l else c.sib.r, if s.Left? then c.sib.r else c.sib.l;
      Look(Snap(), root, c, t);
      PaintSibling(tmp, parent.red, c, t);
      ghost var sib := c.sib.(red := c.red);
      PaintParent(parent, false, c.(sib := sib), t);
      ghost var far' := far.(red := false);
      ghost var sib' := Join(s, near, tmp, c.red, far');
      PaintNephew(nephew, s, c.(sib := sib, red := false), t, near, far);
      ghost var j := Join(s, t, parent, false, sib');
      Descend(Snap(), root, c.up, s, t, parent, false, sib');
      var _ := Rotate(parent, s, c.up, j);
      ghost var u := Join(s, Join(s, t, parent, false, near), tmp, c.red, far');
      assert Turn(s, j) == u;
      RedOuterNephew(c, t, k, near, far);
      PlugOk(c.up, u, if c.red then k + 1 else k + 2);
      Unzip(Snap(), root, c.up, u);
      FlowPlug(c.up, u);
      PlugBin(c.up, u);
      whole := Plug(c.up, u);
      FlowDescend(c.up, s, t, parent, c.red, c.sib);
      assert InOrder(sib') == InOrder(c.sib);
      assert InOrder(Join(s, t, parent, c.red, c.sib)) == InOrder(j);
    }

    /** Paints the outer nephew black. */
    method PaintNephew(nephew: Node, s: Side, ghost c: Ctx, ghost t: Tree, ghost near: Tree, ghost far: Tree)
      requires Focus(c, t) && c.Arm? && c.side == s && c.sib.Bin? && c.sib == Join(s, near, c.sib.n, c.sib.red, far)
      requires far.Bin? && nephew == far.n
      modifies nodes`red
      ensures Focus(c.(sib := Join(s, near, c.sib.n, c.sib.red, far.(red := false))), t)
    {
      ghost var d := Arm(c.up, Opp(s), c.n, c.red, t);
      ghost var far' := far.(red := false);
      ghost var sib' := Join(s, near, c.sib.n, c.sib.red, far');
      Descend(Snap(), root, c.up, s, t, c.n, c.red, c.sib);
      Descend(Snap(), root, c.up, Opp(s), c.sib, c.n, c.red, t);
      Descend(Snap(), root, d, Opp(s), far, c.sib.n, c.sib.red, near);
      Paint(nephew, false, Arm(d, Opp(s), c.sib.n, c.sib.red, near), far);
      Descend(Snap(), root, d, Opp(s), far', c.sib.n, c.sib.red, near);
      Descend(Snap(), root, c.up, Opp(s), sib', c.n, c.red, t);
      Descend(Snap(), root, c.up, s, t, c.n, c.red, sib');
    }

    /** One round: either the shortage is repaired (`done`), or it moves, keeping the focus no deeper. */
    method RemoveStep(par: Node, e: Node?, ghost c: Ctx, ghost t: Tree, ghost k: nat)
      returns (parent: Node?, elm: Node?, done: bool, ghost c': Ctx, ghost t': Tree, ghost k': nat)
      requires Focus(c, t) && Short(c, t, k) && c.Arm? && !IsRed(t) && par == c.n && e == Ptr(t)
      modifies this`root, nodes
      ensures !done ==> Focus(c', t') && Short(c', t', k') && parent == Up(c') && elm == Ptr(t')
      ensures !done ==> Flow(c', t') == Flow(c, t) && Base(c') == Base(c) && Rank(c', t') < Rank(c, t)
      ensures done ==> Focus(Base(c), t') && RedBlackTree(t') && t'.Bin? && InOrder(t') == Flow(c, t) && elm == root
    {
      Look(Snap(), root, c, t);
      parent, elm, done, c', t', k' := par, e, false, c, t, k;
      var s := if parent.left == elm then Left else Right;
      var tmp := if s.Left? then parent.right else parent.left;
      if tmp.red {
        c' := LiftSibling(parent, tmp, s, c, t, k);
        Look(Snap(), root, c', t);
        tmp := if s.Left? then parent.right else parent.left;
      }
      LookAcross(Snap(), root, c', t);
      var near := if s.Left? then tmp.left else tmp.right;
      var far := if s.Left? then tmp.right else tmp.left;
      if (near == null || !near.red) && (far == null || !far.red) {
        t' := PassUp(parent, tmp, c', t, k);
        k' := if c'.red then k else k + 1;
        c' := c'.up;
        elm := parent;
        Look(Snap(), root, c', t');
        parent := elm.parent;
      } else {
        t' := BorrowBlack(parent, tmp, s, c', t, k);
        elm, done := root, true;
      }
    }

    /** The sibling has a red child, which lets the parent's turn repair the shortage. */
    method BorrowBlack(parent: Node, sibling: Node, s: Side, ghost c: Ctx, ghost t: Tree, ghost k: nat)
      returns (ghost whole: Tree)
      requires Focus(c, t) && Short(c, t, k) && c.Arm? && c.sib.Bin? && !c.sib.red && !IsRed(t)
      requires c.side == s && parent == c.n && sibling == c.sib.n && (IsRed(c.sib.l) || IsRed(c.sib.r))
      modifies this`root, nodes
      ensures Focus(Base(c), whole) && RedBlackTree(whole) && whole.Bin? && InOrder(whole) == Flow(c, t)
    {
      var tmp := sibling;
      ghost var d := c;
      LookAcross(Snap(), root, c, t);
      var far := if s.Left? then tmp.right else tmp.left;
      if far == null || !far.red {
        d := TurnSibling(tmp, if s.Left? then tmp.left else tmp.right, s, c, t, k);
        Look(Snap(), root, d, t);
        LookAcross(Snap(), root, d, t);
        tmp := if s.Left? then parent.right else parent.left;
      }
      whole := TurnParent(parent, tmp, if s.Left? then tmp.right else tmp.left, s, d, t, k);
    }

    /** Paints the sibling red; the parent's subtree is now the short one. */
    method PassUp(parent: Node, tmp: Node, ghost c: Ctx, ghost t: Tree, ghost k: nat) returns (ghost u: Tree)
      requires Focus(c, t) && Short(c, t, k) && c.Arm? && !IsRed(t) && parent == c.n
      requires c.sib.Bin? && !c.sib.red && !IsRed(c.sib.l) && !IsRed(c.sib.r) && tmp == c.sib.n
      modifies nodes`red
      ensures Focus(c.up, u) && u.Bin? && u.n == parent && u.red == c.red && Short(c.up, u, if c.red then k else k + 1)
      ensures Flow(c.up, u) == Flow(c, t)
    {
      PaintSibling(tmp, true, c, t);
      ghost var sib := c.sib.(red := true);
      u := Join(c.side, t, parent, c.red, sib);
      Descend(Snap(), root, c.up, c.side, t, parent, c.red, sib);
      BlackNephews(c, t, k);
      FlowDescend(c.up, c.side, t, parent, c.red, sib);
      assert Flow(Arm(c.up, c.side, parent, c.red, sib), t) == Flow(c, t);
    }

    method RemoveColor(par: Node?, e: Node?, ghost c0: Ctx, ghost t0: Tree, ghost k0: nat) returns (ghost whole: Tree)
      requires Focus(c0, t0) && Short(c0, t0, k0) && par == Up(c0) && e == Ptr(t0)
      modifies this`root, nodes
      ensures Focus(Base(c0), whole) && RedBlackTree(whole) && InOrder(whole) == Flow(c0, t0)
    {
      var parent, elm, done := par, e, false;
      ghost var c, t, k := c0, t0, k0;
      Look(Snap(), root, c, t);
      while !done && (elm == null || !elm.red) && elm != root
        invariant !done ==> Focus(c, t) && Short(c, t, k) && parent == Up(c) && elm == Ptr(t)
        invariant !done ==> Flow(c, t) == Flow(c0, t0) && Base(c) == Base(c0)
        invariant !done ==> (t.Bin? ==> elm.red == t.red) && (c.Top? ==> root == elm)
        invariant done ==> Focus(Base(c0), t) && RedBlackTree(t) && t.Bin? && InOrder(t) == Flow(c0, t0) && elm == root
        decreases if done then 0 else 1 + Rank(c, t)
      {
        parent, elm, done, c, t, k := RemoveStep(parent, elm, c, t, k);
        if !done { Look(Snap(), root, c, t); }
      }
      if done { c := Base(c0); Look(Snap(), root, c, t); }
      else { Settle(c, t, k); }
      if elm != null { Paint(elm, false, c, t); t := t.(red := false); }
      Unzip(Snap(), root, c, t);
      FlowPlug(c, t);
      whole := Plug(c, t);
    }

    /** The loop ended without a break: the focus is red, or it is the whole tree. */
    lemma Settle(c: Ctx, t: Tree, k: nat)
      requires Focus(c, t) && Short(c, t, k) && (IsRed(t) || root == Ptr(t))
      ensures t.Leaf? ==> RedBlackTree(Plug(c, t))
      ensures t.Bin? ==> RedBlackTree(Plug(c, t.(red := false)))
    {
      if c.Arm? { RootOutside(Snap(), root, c, Ptr(t)); }
      ShortEnd(c, t, k);
    }

    // ----- RB_REMOVE -----

    /** Takes out a node whose only child, if any, is `child`. */
    method Unhook(elm: Node, child: Node?, ghost c: Ctx, ghost s: Side, ghost x: Tree, ghost red: bool)
      returns (parent: Node?)
      requires Focus(c, Join(s, x, elm, red, Leaf)) && child == Ptr(x)
      modifies this`root, this`nodes, nodes`left, nodes`right, nodes`parent
      ensures Focus(c, x) && nodes == old(nodes) - {elm} && parent == Up(c) && elm.parent == old(elm.parent)
    {
      hide Holds, CtxHolds;
      ghost var h := Snap();
      UnhookApart(h, c, s, x, elm, red);
      parent := elm.parent;
      if child != null { child.parent := parent; }
      if parent != null {
        if parent.left == elm { parent.left := child; } else { parent.right := child; }
      } else {
        root := child;
      }
      nodes := nodes - {elm};
      Spliced(h, Snap(), old(root), root, c, s, x, elm, red);
    }

    lemma UnhookApart(h: Mem, c: Ctx, s: Side, x: Tree, elm: Node, red: bool)
      requires Shaped(h, root, c, Join(s, x, elm, red, Leaf))
      ensures elm in h && h[elm].parent == Up(c) && Up(c) != elm
      ensures x.Bin? ==> x.n in h && x.n != elm && x.n != Up(c)
      ensures c.Arm? ==> c.n in h && Knot(h[c.n], c.side, elm, Ptr(c.sib), Up(c.up), c.red) && Ptr(c.sib) != elm
    {
      Look(h, root, c, Join(s, x, elm, red, Leaf));
      assert Holds(h, x, elm, if s.Left? then Lo(c) else elm.key, if s.Left? then elm.key else Hi(c));
    }

    /** Puts `e` where `o` is. */
    method Replace(o: Node, e: Node, ghost c: Ctx, ghost l: Tree, ghost red: bool, ghost r: Tree)
      requires Focus(c, Bin(l, o, red, r)) && e !in nodes && l.Bin?
      requires o.key < e.key < Hi(c) && Holds(Snap(), r, o, e.key, Hi(c))
      modifies this`root, this`nodes, nodes, e
      ensures Focus(c, Bin(l, e, red, r)) && nodes == old(nodes) - {o} + {e}
    {
      hide Holds, CtxHolds, Knot, Lo, Hi;
      ghost var h := Snap();
      ReplaceApart(h, c, l, o, red, r);
      Redirect(o, e, c, l, red, r);
      nodes := nodes - {o} + {e};
      Replaced(h, Snap(), old(root), root, c, l, o, red, r, e);
    }

    /** Copies the entry of `o` to `e` and redirects the links to it. */
    method Redirect(o: Node, e: Node, ghost c: Ctx, ghost l: Tree, ghost red: bool, ghost r: Tree)
      requires o in nodes && e !in nodes && Knot(Entry(o), Left, Ptr(l), Ptr(r), Up(c), red) && Up(c) != o && l.Bin?
      requires l.n in nodes && l.n != o && l.n != Up(c)
      requires r.Bin? ==> r.n in nodes && r.n != o && r.n != l.n && r.n != Up(c)
      requires c.Arm? ==> c.n in nodes && Knot(Entry(c.n), c.side, o, Ptr(c.sib), Up(c.up), c.red) && Ptr(c.sib) != o
      modifies this`root, nodes, e
      ensures Knot(Entry(e), Left, Ptr(l), Ptr(r), Up(c), red) && root == (if c.Top? then e else old(root))
      ensures c.Arm? ==> Knot(Entry(c.n), c.side, e, Ptr(c.sib), Up(c.up), c.red)
      ensures Entry(l.n) == old(Entry(l.n)).(parent := e) && (r.Bin? ==> Entry(r.n) == old(Entry(r.n)).(parent := e))
      ensures forall n :: n in nodes && n != Ptr(l) && n != Ptr(r) && n != Up(c) ==> Entry(n) == old(Entry(n))
    {
      e.left, e.right, e.parent, e.red := o.left, o.right, o.parent, o.red;
      if o.parent != null {
        if o.parent.left == o { o.parent.left := e; } else { o.parent.right := e; }
      } else {
        root := e;
      }
      o.left.parent := e;
      if o.right != null { o.right.parent := e; }
    }

    lemma ReplaceApart(h: Mem, c: Ctx, l: Tree, o: Node, red: bool, r: Tree)
      requires Shaped(h, root, c, Bin(l, o, red, r)) && l.Bin?
      ensures o in h && Knot(h[o], Left, Ptr(l), Ptr(r), Up(c), red) && Up(c) != o
      ensures l.n in h && l.n != o && l.n != Up(c) && (r.Bin? ==> r.n in h && r.n != o && r.n != l.n && r.n != Up(c))
      ensures c.Arm? ==> c.n in h && Knot(h[c.n], c.side, o, Ptr(c.sib), Up(c.up), c.red) && Ptr(c.sib) != o
    {
      Look(h, root, c, Bin(l, o, red, r));
      assert Holds(h, l, o, Lo(c), o.key) && Holds(h, r, o, o.key, Hi(c));
    }

    // ----- RB_INSERT -----

    /** The state of a search for `k`: the focus is where `k` belongs. */
    ghost predicate Searching(k: int, c: Ctx, t: Tree, b: nat)
      reads this, nodes
    {
      && Focus(c, t) && Flow(c, t) == Contents()
      && Lo(c) < k < Hi(c)
      && Ok(t, b) && CtxOk(c, b) && (IsRed(t) ==> c.Arm? && !c.red)
    }

    lemma StepDown(k: int, c: Ctx, t: Tree, b: nat, s: Side)
      requires Searching(k, c, t, b) && t.Bin? && (if s.Left? then k < t.n.key else t.n.key < k)
      ensures var near := if s.Left? then t.l else t.r;
              Searching(k, Arm(c, s, t.n, t.red, if s.Left? then t.r else t.l), near, if t.red then b else b - 1)
    {
      var near, far := if s.Left? then t.l else t.r, if s.Left? then t.r else t.l;
      assert t == Join(s, near, t.n, t.red, far);
      Descend(Snap(), root, c, s, near, t.n, t.red, far);
      FlowDescend(c, s, near, t.n, t.red, far);
    }

    /** The whole tree in focus, with bounds wide enough for `k`. */
    lemma Begin(k: int) returns (c: Ctx, t: Tree, b: nat)
      requires Valid()
      ensures Searching(k, c, t, b) && c.Top? && t == tree
    {
      b :| Ok(tree, b);
      c, t := Top(if k <= lo then k - 1 else lo, if k >= hi then k + 1 else hi), tree;
      Widen(Snap(), tree, null, lo, hi, c.lo, c.hi);
      assert Flow(c, tree) == InOrder(tree);
    }

    lemma Absent(k: int, c: Ctx, b: nat)
      requires Searching(k, c, Leaf, b)
      ensures forall n :: n in Contents() ==> n.key != k
    {
      FlowOrder(Snap(), root, c, null);
    }

    /** Hangs `elm` as a red leaf in the hole that the search found. */
    method Graft(elm: Node, parent: Node?, s: Side, ghost c: Ctx, ghost b: nat)
      requires Searching(elm.key, c, Leaf, b) && elm !in nodes && parent == Up(c) && (c.Arm? ==> c.side == s)
      modifies this`root, this`nodes, nodes, elm
      ensures nodes == old(nodes) + {elm}
      ensures Focus(c, Bin(Leaf, elm, true, Leaf)) && RedRed(c, Bin(Leaf, elm, true, Leaf), b)
    {
      Look(Snap(), root, c, Leaf);
      elm.parent := parent;
      elm.left, elm.right := null, null;
      elm.red := true;
      if parent != null {
        if s.Left? { parent.left := elm; } else { parent.right := elm; }
      } else {
        root := elm;
      }
      nodes := nodes + {elm};
      Grafted(old(Snap()), Snap(), old(root), root, c, elm);
    }

    /** The descent shared by RB_INSERT and RB_FIND: stops at the node with key `k`, or at the hole for it. */
    method Descent(k: int) returns (tmp: Node?, parent: Node?, s: Side, ghost c: Ctx, ghost t: Tree, ghost b: nat)
      requires Valid()
      ensures Searching(k, c, t, b) && tmp == Ptr(t) && parent == Up(c) && (c.Arm? ==> c.side == s)
      ensures tmp != null ==> tmp.key == k
    {
      c, t, b := Begin(k);
      tmp, parent, s := root, null, Left;
      while tmp != null && tmp.key != k
        invariant Searching(k, c, t, b) && tmp == Ptr(t) && parent == Up(c) && (c.Arm? ==> c.side == s)
        decreases t
      {
        parent := tmp;
        Look(Snap(), root, c, t);
        if k < parent.key {
          s := Left;
          tmp := tmp.left;
        } else {
          s := Right;
          tmp := tmp.right;
        }
        StepDown(k, c, t, b, s);
        c, t, b := Arm(c, s, t.n, t.red, if s.Left? then t.r else t.l),
          if s.Left? then t.l else t.r, if t.red then b else b - 1;
      }
    }

    method Attach(elm: Node, parent: Node?, s: Side, ghost c: Ctx, ghost b: nat)
      requires Valid() && elm !in nodes
      requires Searching(elm.key, c, Leaf, b) && parent == Up(c) && (c.Arm? ==> c.side == s)
      modifies this, nodes, elm
      ensures Valid() && nodes == old(nodes) + {elm} && Inserted(old(Contents()), Contents(), elm)
    {
      Hung(c, elm);
      Graft(elm, parent, s, c, b);
      ghost var whole := InsertColor(elm, c, Bin(Leaf, elm, true, Leaf), b);
      Commit(whole, c);
    }

    /** `r` is null and `elm` joined the tree at its place, or `r` is the node that already has its key. */
    method Insert(elm: Node) returns (r: Node?)
      requires Valid() && elm !in nodes
      modifies this, nodes, elm
      ensures Valid()
      ensures r == null ==> nodes == old(nodes) + {elm} && (forall n :: n in old(nodes) ==> n.key != elm.key)
      ensures r == null ==> Inserted(old(Contents()), Contents(), elm)
      ensures r != null ==> r in nodes && r.key == elm.key && nodes == old(nodes) && Contents() == old(Contents())
      ensures r != null ==> unchanged(this) && unchanged(old(nodes)) && unchanged(elm)
    {
      var tmp, parent, s;
      ghost var c, t, b;
      tmp, parent, s, c, t, b := Descent(elm.key);
      if tmp != null {
        Look(Snap(), root, c, t);
        return tmp;
      }
      Absent(elm.key, c, b);
      Attach(elm, parent, s, c, b);
      return null;
    }

    /** The focus on a node of the tree. */
    lemma Zoom(n: Node, c: Ctx, t: Tree, b: nat) returns (c': Ctx, t': Tree, b': nat)
      requires Searching(n.key, c, t, b) && n in InOrder(t)
      ensures Searching(n.key, c', t', b') && t'.Bin? && t'.n == n
      decreases t
    {
      if t.n == n {
        c', t', b' := c, t, b;
      } else {
        SearchOrder(Snap(), t, Up(c), Lo(c), Hi(c));
        var s := if n.key < t.n.key then Left else Right;
        SideOf(n, c, t);
        StepDown(n.key, c, t, b, s);
        c', t', b' := Zoom(n, Arm(c, s, t.n, t.red, if s.Left? then t.r else t.l),
                           if s.Left? then t.l else t.r, if t.red then b else b - 1);
      }
    }

    lemma SideOf(n: Node, c: Ctx, t: Tree)
      requires Focus(c, t) && n in InOrder(t) && n != t.n
      ensures n.key < t.n.key ==> n in InOrder(t.l)
      ensures n.key >= t.n.key ==> n.key > t.n.key && n in InOrder(t.r)
    {
      SearchOrder(Snap(), t.l, t.n, Lo(c), t.n.key);
      SearchOrder(Snap(), t.r, t.n, t.n.key, Hi(c));
      if n in InOrder(t.l) { var i :| 0 <= i < |InOrder(t.l)| && InOrder(t.l)[i] == n; }
      if n in InOrder(t.r) { var i :| 0 <= i < |InOrder(t.r)| && InOrder(t.r)[i] == n; }
    }

    /** The leftmost node of the right subtree of `o`. */
    method Leftmost(o: Node, ghost c: Ctx, ghost t: Tree, ghost b: nat)
      returns (elm: Node, ghost q: Ctx, ghost x: Tree, ghost red: bool, ghost k: nat)
      requires Searching(o.key, c, t, b) && t.Bin? && t.n == o && t.r.Bin?
      ensures LeftSpine(q) && Plug(q, Bin(Leaf, elm, red, x)) == t.r
      ensures var d := Under(q, Arm(c, Right, o, t.red, t.l));
              Focus(d, Bin(Leaf, elm, red, x)) && Ok(Bin(Leaf, elm, red, x), k) && CtxOk(d, k) &&
                (red ==> d.Arm? && !d.red)
    {
      ghost var c1 := Arm(c, Right, o, t.red, t.l);
      Descend(Snap(), root, c, Right, t.r, o, t.red, t.l);
      q, k := Top(0, 0), if t.red then b else b - 1;
      ghost var u := t.r;
      Look(Snap(), root, c, t);
      elm := o.right;
      Look(Snap(), root, c1, u);
      while elm.left != null
        invariant LeftSpine(q) && Plug(q, u) == t.r && u.Bin? && u.n == elm && Focus(Under(q, c1), u)
        invariant elm.left == Ptr(u.l)
        invariant Ok(u, k) && CtxOk(Under(q, c1), k) && (u.red ==> Under(q, c1).Arm? && !Under(q, c1).red)
        decreases u
      {
        elm := elm.left;
        Descend(Snap(), root, Under(q, c1), Left, u.l, u.n, u.red, u.r);
        q, u, k := Arm(q, Left, u.n, u.red, u.r), u.l, if u.red then k else k - 1;
        Look(Snap(), root, Under(q, c1), u);
      }
      x, red := u.r, u.red;
    }

    /** Repairs the colours after a node of colour `red` was unhooked above `child`. */
    method Recolour(parent: Node?, child: Node?, red: bool, ghost c: Ctx, ghost x: Tree, ghost k: nat)
      returns (ghost whole: Tree)
      requires Focus(c, x) && parent == Up(c) && child == Ptr(x)
      requires red ==> RedBlackTree(Plug(c, x))
      requires !red ==> Short(c, x, k)
      modifies this`root, nodes
      ensures Focus(Base(c), whole) && RedBlackTree(whole) && InOrder(whole) == Flow(c, x)
    {
      if !red {
        whole := RemoveColor(parent, child, c, x, k);
      } else {
        whole := Plug(c, x);
        Unzip(Snap(), root, c, x);
        FlowPlug(c, x);
      }
    }

    method RemoveOuter(o: Node, child: Node?, ghost c: Ctx, ghost s: Side, ghost x: Tree, ghost b: nat)
      returns (ghost whole: Tree)
      requires Focus(c, Join(s, x, o, o.red, Leaf)) && child == Ptr(x)
      requires Ok(Join(s, x, o, o.red, Leaf), b) && CtxOk(c, b) && (o.red ==> c.Arm? && !c.red)
      modifies this`root, this`nodes, nodes
      ensures nodes == old(nodes) - {o}
      ensures Focus(Base(c), whole) && RedBlackTree(whole) && InOrder(whole) == Flow(c, x)
    {
      var red := o.red;
      Unhooked(c, s, x, o, red, b);
      var parent := Unhook(o, child, c, s, x, red);
      whole := Recolour(parent, child, red, c, x, if red then 0 else b - 1);
    }

    lemma SuccessorLeast(o: Node, c: Ctx, t: Tree, q: Ctx, elm: Node, red: bool, x: Tree)
      requires Focus(c, t) && t.Bin? && t.n == o && LeftSpine(q) && Plug(q, Bin(Leaf, elm, red, x)) == t.r
      ensures InOrder(t.r) == [elm] + InOrder(Plug(q, x)) && Between(InOrder(Plug(q, x)), elm.key, Hi(c))
      ensures o.key < elm.key < Hi(c)
    {
      SearchOrder(Snap(), t.r, o, o.key, Hi(c));
      SpineHead(q, elm, red, x);
      HeadLeast(InOrder(t.r), elm, InOrder(Plug(q, x)), o.key, Hi(c));
    }

    /** Unhooks the successor `elm` of `o` and puts it where `o` is. */
    method Promote(o: Node, elm: Node, child: Node?, ghost c: Ctx, ghost t: Tree, ghost q: Ctx, ghost red: bool,
        ghost x: Tree)
      returns (parent: Node?)
      requires Focus(c, t) && t.Bin? && t.n == o && t.l.Bin? && LeftSpine(q) && Plug(q, Bin(Leaf, elm, red, x)) == t.r
      requires Focus(Under(q, Arm(c, Right, o, t.red, t.l)), Bin(Leaf, elm, red, x)) && child == Ptr(x)
      modifies this`root, this`nodes, nodes
      ensures nodes == old(nodes) - {o}
      ensures Focus(Under(q, Arm(c, Right, elm, t.red, t.l)), x)
      ensures parent == Up(Under(q, Arm(c, Right, elm, t.red, t.l)))
    {
      hide Holds, CtxHolds, Plug, LeftSpine;
      ghost var a, a', r := Arm(c, Right, o, t.red, t.l), Arm(c, Right, elm, t.red, t.l), Plug(q, x);
      SuccessorLeast(o, c, t, q, elm, red, x);
      Look(Snap(), root, c, t);
      Look(Snap(), root, Under(q, a), Bin(Leaf, elm, red, x));
      parent := Unhook(elm, child, Under(q, a), Right, x, red);
      UnderShaped(Snap(), root, q, a, x);
      Descend(Snap(), root, c, Right, r, o, t.red, t.l);
      NotAbove(o, q, a, x);
      if elm.parent == o { parent := elm; }
      Narrow(Snap(), r, o, o.key, Hi(c), elm.key);
      Replace(o, elm, c, t.l, t.red, r);
      Descend(Snap(), root, c, Right, r, elm, t.red, t.l);
      UnderShaped(Snap(), root, q, a', x);
    }

    /** The unhooked successor hung directly below `o` exactly when no node lies between them. */
    lemma NotAbove(o: Node, q: Ctx, a: Ctx, x: Tree)
      requires Focus(Under(q, a), x) && LeftSpine(q) && a.Arm? && a.side.Right? && a.n == o
      ensures Up(Under(q, a)) == o <==> q.Top?
    {
      if q.Arm? { SpineAbove(Snap(), q, a, Ptr(x)); }
    }

    lemma {:induction false} SpineAbove(h: Mem, q: Ctx, a: Ctx, hole: Node?)
      requires CtxHolds(h, Under(q, a), hole, root) && LeftSpine(q) && q.Arm? && a.Arm? && a.side.Right?
      ensures q.n.key > a.n.key && Lo(Under(q, a)) == a.n.key
    {
      if q.up.Arm? { SpineAbove(h, q.up, a, q.n); } else { assert Under(q.up, a) == a; }
    }

    /** The colours and contents once the successor stands in the place of `o`. */
    lemma AfterPromotion(o: Node, c: Ctx, t: Tree, q: Ctx, elm: Node, red: bool, x: Tree, k: nat)
      requires Focus(c, t) && t.Bin? && t.n == o && LeftSpine(q) && Plug(q, Bin(Leaf, elm, red, x)) == t.r
      requires var d := Under(q, Arm(c, Right, o, t.red, t.l));
               Ok(Bin(Leaf, elm, red, x), k) && CtxOk(d, k) && (red ==> d.Arm? && !d.red)
      ensures var d := Under(q, Arm(c, Right, elm, t.red, t.l));
              && (red ==> RedBlackTree(Plug(d, x))) && (!red ==> k > 0 && Short(d, x, k - 1)) && Base(d) == Base(c)
              && Flow(d, x) == Before(c) + (InOrder(t.l) + InOrder(t.r)) + After(c)
    {
      var a, a' := Arm(c, Right, o, t.red, t.l), Arm(c, Right, elm, t.red, t.l);
      UnderOk(q, a, a', k);
      Unhooked(Under(q, a'), Right, x, elm, red, k);
      SpineHead(q, elm, red, x);
      PromotedFlow(q, c, t, elm, x);
    }

    method RemoveInner(o: Node, ghost c: Ctx, ghost t: Tree, ghost b: nat) returns (ghost whole: Tree)
      requires Searching(o.key, c, t, b) && t.Bin? && t.n == o && t.l.Bin? && t.r.Bin?
      modifies this`root, this`nodes, nodes
      ensures nodes == old(nodes) - {o}
      ensures Focus(Base(c), whole) && RedBlackTree(whole)
      ensures InOrder(whole) == Before(c) + (InOrder(t.l) + InOrder(t.r)) + After(c)
    {
      var elm;
      ghost var q, x, red, k;
      elm, q, x, red, k := Leftmost(o, c, t, b);
      ghost var a, a' := Arm(c, Right, o, t.red, t.l), Arm(c, Right, elm, t.red, t.l);
      Look(Snap(), root, Under(q, a), Bin(Leaf, elm, red, x));
      var child, color := elm.right, elm.red;
      AfterPromotion(o, c, t, q, elm, red, x, k);
      var parent := Promote(o, elm, child, c, t, q, red, x);
      whole := Recolour(parent, child, color, Under(q, a'), x, if red then 0 else k - 1);
    }

    lemma NoKids(l: Tree, r: Tree)
      ensures l.Leaf? ==> InOrder(l) + InOrder(r) == InOrder(r)
      ensures r.Leaf? ==> InOrder(l) + InOrder(r) == InOrder(l)
    {
    }

    method RemoveAt(o: Node, ghost c: Ctx, ghost t: Tree, ghost b: nat) returns (ghost whole: Tree)
      requires Searching(o.key, c, t, b) && t.Bin? && t.n == o
      modifies this`root, this`nodes, nodes
      ensures nodes == old(nodes) - {o}
      ensures Focus(Base(c), whole) && RedBlackTree(whole)
      ensures InOrder(whole) == Before(c) + (InOrder(t.l) + InOrder(t.r)) + After(c)
    {
      hide Holds, CtxHolds, Ok, CtxOk, RedBlackTree, InOrder, Before, After;
      NoKids(t.l, t.r);
      Look(Snap(), root, c, t);
      if o.left == null {
        whole := RemoveOuter(o, o.right, c, Right, t.r, b);
      } else if o.right == null {
        whole := RemoveOuter(o, o.left, c, Left, t.l, b);
      } else {
        whole := RemoveInner(o, c, t, b);
      }
    }

    lemma Enter(n: Node) returns (c: Ctx, t: Tree, b: nat)
      requires Valid() && n in nodes
      ensures Searching(n.key, c, t, b) && t.Bin? && t.n == n
    {
      c, t, b := Begin(n.key);
      c, t, b := Zoom(n, c, t, b);
    }

    /** Takes `elm` out of the tree; every other node keeps its place in the order. */
    method Remove(elm: Node) returns (r: Node)
      requires Valid() && elm in nodes
      modifies this, nodes
      ensures Valid() && r == elm
      ensures nodes == old(nodes) - {elm} && Inserted(Contents(), old(Contents()), elm)
    {
      ghost var c, t, b := Enter(elm);
      Without(c, t);
      ghost var whole := RemoveAt(elm, c, t, b);
      Commit(whole, c);
      r := elm;
    }

    // ----- reading the tree -----

    /** RB_FIND: the node with key `k`, or null when there is none. */
    method Find(k: int) returns (r: Node?)
      requires Valid()
      ensures r != null ==> r in nodes && r.key == k
      ensures r == null ==> forall n :: n in nodes ==> n.key != k
    {
      var parent, s;
      ghost var c, t, b;
      r, parent, s, c, t, b := Descent(k);
      if r == null { Absent(k, c, b); } else { Look(Snap(), root, c, t); }
    }

    /** RB_NFIND: the first node in order whose key is at least `k`. */
    method NFind(k: int) returns (r: Node?)
      requires Valid()
      ensures r == null ==> forall n :: n in nodes ==> n.key < k
      ensures r != null ==> r in nodes && k <= r.key && forall n :: n in nodes && k <= n.key ==> r.key <= n.key
    {
      ghost var c, t, b := Begin(k);
      var tmp := root;
      r := null;
      while tmp != null && tmp.key != k
        invariant Searching(k, c, t, b) && tmp == Ptr(t)
        invariant r == (if After(c) == [] then null else After(c)[0])
        decreases t
      {
        Look(Snap(), root, c, t);
        var s := if k < tmp.key then Left else Right;
        StepDown(k, c, t, b, s);
        if k < tmp.key {
          r := tmp;
          tmp := tmp.left;
        } else {
          tmp := tmp.right;
        }
        c, t, b := Arm(c, s, t.n, t.red, if s.Left? then t.r else t.l),
          if s.Left? then t.l else t.r, if t.red then b else b - 1;
      }
      FirstAtLeast(k, c, t, b);
      if tmp != null { r := tmp; }
    }

    lemma FirstAtLeast(k: int, c: Ctx, t: Tree, b: nat)
      requires Valid() && Searching(k, c, t, b) && (t.Bin? ==> t.n.key == k)
      ensures t.Bin? ==> t.n in nodes
      ensures t.Leaf? && After(c) == [] ==> forall n :: n in nodes ==> n.key < k
      ensures t.Leaf? && After(c) != [] ==> var r := After(c)[0];
              r in nodes && k < r.key && forall n :: n in nodes && k <= n.key ==> r.key <= n.key
    {
      hide Holds, CtxHolds, CtxOk, Ok, RedBlackTree, Before, After;
      Look(Snap(), root, c, t);
      FlowOrder(Snap(), root, c, Ptr(t));
      if t.Leaf? {
        SearchOrder(Snap(), tree, null, lo, hi);
        var q := Contents();
        assert q == Before(c) + After(c);
        if After(c) != [] {
          var r := After(c)[0];
          assert q[|Before(c)|] == r && r in After(c) && r in q;
          assert r in Snap();
          assert forall j :: 0 <= j < |Before(c)| ==> q[j] in Before(c);
          forall n | n in nodes && k <= n.key ensures r.key <= n.key {
            FromThere(q, |Before(c)|, n, k);
          }
        }
      }
    }

    /** RB_NEXT: the node after `e` in the order, or null after the last. */
    method Next(e: Node) returns (r: Node?)
      requires Valid() && e in nodes
      ensures Follows(Contents(), e, r)
    {
      ghost var c, t, b := Enter(e);
      Look(Snap(), root, c, t);
      ghost var after := InOrder(t.r) + After(c);
      SplitFlow(c, t, after);
      if e.right != null {
        ghost var q, x, red, k;
        r, q, x, red, k := Leftmost(e, c, t, b);
        SpineHead(q, r, red, x);
      } else {
        r := Climb(e, c, t);
      }
    }

    /** The upward half of RB_NEXT: leaves every subtree of which `e` is the last node. */
    method Climb(e: Node, ghost c: Ctx, ghost t: Tree) returns (r: Node?)
      requires Focus(c, t) && t.Bin? && t.n == e
      ensures r == (if After(c) == [] then null else After(c)[0])
    {
      var elm := e;
      ghost var d, u := c, t;
      Look(Snap(), root, d, u);
      if elm.parent != null && elm == elm.parent.left {
        r := elm.parent;
      } else {
        while elm.parent != null && elm == elm.parent.right
          invariant Focus(d, u) && u.Bin? && u.n == elm && elm.parent == Up(d) && After(d) == After(c)
          invariant d.Arm? ==> d.n in nodes && (d.side.Right? <==> elm == d.n.right)
          decreases Depth(d)
        {
          elm := elm.parent;
          Descend(Snap(), root, d.up, d.side, u, d.n, d.red, d.sib);
          d, u := d.up, Join(d.side, u, d.n, d.red, d.sib);
          Look(Snap(), root, d, u);
        }
        r := elm.parent;
      }
    }

    /** What `Valid` says of the heap: key order, parent links, colours and height. */
    lemma Invariants()
      requires Valid()
      ensures Ascending(Contents()) && (forall n :: n in Contents() <==> n in nodes)
      ensures forall n :: n in nodes ==> NodeOk(Snap(), Contents(), n)
      ensures root != null ==> root in nodes && root.parent == null && !root.red
      ensures forall n :: n in nodes && n.red ==>
        (n.left != null ==> n.left in nodes && !n.left.red) && (n.right != null ==> n.right in nodes && !n.right.red)
      ensures exists k: nat :: Ok(tree, k)
      ensures Pow2(Height(tree)) <= (|Contents()| + 1) * (|Contents()| + 1)
    {
      var k: nat :| Ok(tree, k);
      SearchOrder(Snap(), tree, null, lo, hi);
      EachNode(Snap(), tree, null, lo, hi, Contents());
      NoRedPair(Snap(), tree, null, lo, hi, k);
      Look(Snap(), root, Top(lo, hi), tree);
      SizeIsLength(tree);
      HeightBound(tree);
    }
  }

  ghost predicate Follows(q: seq<Node>, n: Node, r: Node?) {
    exists i :: 0 <= i < |q| && q[i] == n && r == (if i + 1 < |q| then q[i + 1] else null)
  }

  lemma SplitFlow(c: Ctx, t: Tree, after: seq<Node>)
    requires t.Bin? && after == InOrder(t.r) + After(c)
    ensures Follows(Flow(c, t), t.n, if after == [] then null else after[0])
  {
    var i := |Before(c) + InOrder(t.l)|;
    assert Flow(c, t) == (Before(c) + InOrder(t.l)) + [t.n] + after;
    var q := Flow(c, t);
    assert q[i] == t.n && |q| == i + 1 + |after|;
    assert after != [] ==> q[i + 1] == after[0];
    FollowsAt(q, i);
  }

  lemma FollowsAt(q: seq<Node>, i: nat)
    requires i < |q|
    ensures Follows(q, q[i], if i + 1 < |q| then q[i + 1] else null)
  {
  }

  lemma FromThere(q: seq<Node>, i: nat, n: Node, k: int)
    requires i < |q| && Ascending(q) && n in q && k <= n.key && forall j :: 0 <= j < i ==> q[j].key < k
    ensures q[i].key <= n.key
  {
  }

  lemma PromotedFlow(q: Ctx, c: Ctx, t: Tree, n: Node, x: Tree)
    requires t.Bin? && InOrder(t.r) == [n] + InOrder(Plug(q, x))
    ensures var d := Under(q, Arm(c, Right, n, t.red, t.l));
            Base(d) == Base(c) && Flow(d, x) == Before(c) + (InOrder(t.l) + InOrder(t.r)) + After(c)
  {
    var a, r := Arm(c, Right, n, t.red, t.l), InOrder(Plug(q, x));
    UnderFlow(q, a, x);
    Regroup(Before(c), InOrder(t.l), n, r, After(c));
  }

  lemma Regroup(a: seq<Node>, b: seq<Node>, n: Node, r: seq<Node>, d: seq<Node>)
    ensures (a + b + [n]) + r + d == a + (b + ([n] + r)) + d
  {
  }

  lemma Hung(c: Ctx, n: Node)
    ensures var one := Flow(c, Bin(Leaf, n, true, Leaf));
            Inserted(Flow(c, Leaf), one, n) && forall m :: m in one <==> m in Flow(c, Leaf) || m == n
  {
    SplitAt(Before(c), After(c), n);
    assert Flow(c, Leaf) == Before(c) + After(c);
    assert Flow(c, Bin(Leaf, n, true, Leaf)) == Before(c) + [n] + After(c);
  }

  lemma Without(c: Ctx, t: Tree)
    requires t.Bin?
    ensures var rest := Before(c) + (InOrder(t.l) + InOrder(t.r)) + After(c);
            Inserted(rest, Flow(c, t), t.n) && forall m :: m in Flow(c, t) && m != t.n ==> m in rest
  {
    var l, r := InOrder(t.l), InOrder(t.r);
    SplitAt(Before(c) + l, r + After(c), t.n);
    Around(Before(c), l, t.n, r, After(c));
  }

  lemma Around(a: seq<Node>, b: seq<Node>, n: Node, r: seq<Node>, d: seq<Node>)
    ensures a + (b + [n] + r) + d == (a + b) + [n] + (r + d) && a + (b + r) + d == (a + b) + (r + d)
  {
  }

  ghost predicate Inserted(q: seq<Node>, q': seq<Node>, n: Node) {
    exists i :: 0 <= i <= |q| && q' == q[..i] + [n] + q[i..]
  }

  lemma SplitAt(a: seq<Node>, b: seq<Node>, n: Node)
    ensures Inserted(a + b, a + [n] + b, n)
    ensures forall m :: m in a + [n] + b <==> m in a + b || m == n
  {
    var q := a + b;
    assert q[..|a|] == a && q[|a|..] == b;
  }
}
