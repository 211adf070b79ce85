/** The colour rules of a red-black tree and what each repair case does to them. */
module RbColor {
  import opened Sides
  import opened Align
  import opened RbShape

  predicate IsRed(t: Tree) {
    t.Bin? && t.red
  }

  predicate CtxRed(c: Ctx) {
    c.Arm? && c.red
  }

  /** Every path from the root of `t` to a leaf passes `k` black nodes, and no red node has a red child. */
  ghost predicate Ok(t: Tree, k: nat) {
    match t
    case Leaf => k == 0
    case Bin(l, _, red, r) =>
      if red then Ok(l, k) && Ok(r, k) && !IsRed(l) && !IsRed(r)
      else k > 0 && Ok(l, k - 1) && Ok(r, k - 1)
  }

  /** `c` obeys the rules around a hole for a subtree of black height `k`, and its root is black. */
  ghost predicate CtxOk(c: Ctx, k: nat) {
    c.Arm? ==>
      && Ok(c.sib, k)
      && (if c.red then !IsRed(c.sib) && c.up.Arm? && !c.up.red && CtxOk(c.up, k) else CtxOk(c.up, k + 1))
  }

  /** `t` would be `Ok` were its root painted black; a black root already is. */
  ghost predicate NearlyOk(t: Tree, k: nat) {
    match t
    case Leaf => k == 0
    case Bin(l, _, red, r) => if red then Ok(l, k) && Ok(r, k) else Ok(t, k)
  }

  ghost predicate RedBlackTree(t: Tree) {
    !IsRed(t) && exists k: nat :: Ok(t, k)
  }

  lemma {:induction false} PlugOk(c: Ctx, t: Tree, k: nat)
    requires Ok(t, k) && CtxOk(c, k) && (IsRed(t) ==> c.Arm? && !c.red)
    ensures RedBlackTree(Plug(c, t))
  {
    if c.Arm? {
      PlugOk(c.up, Join(c.side, t, c.n, c.red, c.sib), if c.red then k else k + 1);
    }
  }

  // ----- insertion -----

  /** A red node under a red parent: the grandparent exists and is black. */
  ghost predicate RedRed(c: Ctx, t: Tree, k: nat) {
    t.Bin? && t.red && Ok(t, k) && CtxOk(c, k)
  }

  /** Red uncle: recolour, and go on from the grandparent. */
  lemma RedUncle(c: Ctx, t: Tree, k: nat)
    requires RedRed(c, t, k) && CtxRed(c) && IsRed(c.up.sib)
    ensures RedRed(c.up.up, Join(c.up.side, Join(c.side, t, c.n, false, c.sib), c.up.n, true, c.up.sib.(red := false)),
      k + 1)
  {
    assert CtxOk(c.up, k) && !c.up.red;
    assert Ok(c.up.sib, k) && CtxOk(c.up.up, k + 1);
    assert Ok(Join(c.side, t, c.n, false, c.sib), k + 1);
    assert Ok(c.up.sib.(red := false), k + 1);
  }

  /** Black uncle, outer grandchild: after turning the grandparent, the red pair hangs under a black node. */
  lemma BlackUncle(c: Ctx, t: Tree, k: nat)
    requires RedRed(c, t, k) && CtxRed(c) && !IsRed(c.up.sib) && c.side == c.up.side
    ensures RedRed(Arm(c.up.up, c.side, c.n, false, Join(c.side, c.sib, c.up.n, true, c.up.sib)), t, k)
  {
    assert CtxOk(c.up, k) && !c.up.red;
    assert Ok(c.up.sib, k) && CtxOk(c.up.up, k + 1);
    assert Ok(Join(c.side, c.sib, c.up.n, true, c.up.sib), k);
  }

  /** Inner grandchild: turning the parent makes it an outer one. */
  lemma InnerToOuter(c: Ctx, t: Tree, k: nat)
    requires RedRed(c, t, k) && CtxRed(c) && c.side != c.up.side
    ensures t.Bin?
    ensures c.up.side.Left? ==> RedRed(Arm(c.up, Left, t.n, true, t.r), Bin(c.sib, c.n, true, t.l), k)
    ensures c.up.side.Right? ==> RedRed(Arm(c.up, Right, t.n, true, t.l), Bin(t.r, c.n, true, c.sib), k)
  {
    assert Ok(t.l, k) && Ok(t.r, k);
  }

  // ----- removal -----

  /** The subtree in focus is one black node short. */
  ghost predicate Short(c: Ctx, t: Tree, k: nat) {
    NearlyOk(t, k) && CtxOk(c, k + 1)
  }

  /** A red sibling is turned above the parent; the new sibling is black. */
  lemma RedSibling(c: Ctx, t: Tree, k: nat)
    requires Short(c, t, k) && c.Arm? && IsRed(c.sib)
    ensures c.sib.l.Bin? && c.sib.r.Bin? && !c.red
    ensures c.side.Left? ==> Short(Arm(Arm(c.up, Left, c.sib.n, false, c.sib.r), Left, c.n, true, c.sib.l), t, k)
    ensures c.side.Right? ==> Short(Arm(Arm(c.up, Right, c.sib.n, false, c.sib.l), Right, c.n, true, c.sib.r), t, k)
  {
    assert Ok(c.sib, k + 1);
    assert Ok(c.sib.l, k + 1) && Ok(c.sib.r, k + 1);
    assert !c.red && CtxOk(c.up, k + 2);
    assert CtxOk(Arm(c.up, c.side, c.sib.n, false, if c.side.Left? then c.sib.r else c.sib.l), k + 1);
  }

  /** Black sibling with black children: paint it red; the parent is now short. */
  lemma BlackNephews(c: Ctx, t: Tree, k: nat)
    requires Short(c, t, k) && c.Arm? && c.sib.Bin? && !c.sib.red && !IsRed(c.sib.l) && !IsRed(c.sib.r) && !IsRed(t)
    ensures Short(c.up, Join(c.side, t, c.n, c.red, c.sib.(red := true)), if c.red then k else k + 1)
  {
  }

  /** Red inner nephew, black outer one: turning the sibling makes the outer one red. */
  lemma RedInnerNephew(c: Ctx, t: Tree, k: nat, x: Tree, n: Node, y: Tree, far: Tree)
    requires Short(c, t, k) && c.Arm? && c.sib.Bin?
    requires c.sib == Join(c.side, Join(c.side, x, n, true, y), c.sib.n, false, far) && !IsRed(far)
    ensures Short(c.(sib := Join(c.side, x, n, false, Join(c.side, y, c.sib.n, true, far))), t, k)
  {
    assert Ok(Join(c.side, x, n, true, y), k) && Ok(far, k);
    assert Ok(x, k) && Ok(y, k) && !IsRed(y);
    assert Ok(Join(c.side, y, c.sib.n, true, far), k);
  }

  /** Red outer nephew: turning the parent supplies the missing black node. */
  lemma RedOuterNephew(c: Ctx, t: Tree, k: nat, near: Tree, far: Tree)
    requires Short(c, t, k) && c.Arm? && c.sib.Bin? && !c.sib.red && !IsRed(t)
    requires c.sib == Join(c.side, near, c.sib.n, false, far) && IsRed(far)
    ensures var u := Join(c.side, Join(c.side, t, c.n, false, near), c.sib.n, c.red, far.(red := false));
            var m := if c.red then k + 1 else k + 2;
            Ok(u, m) && CtxOk(c.up, m) && (u.red ==> c.up.Arm? && !c.up.red)
  {
    assert Ok(near, k) && Ok(far, k) && Ok(t, k);
    assert Ok(Join(c.side, t, c.n, false, near), k + 1);
    assert Ok(far.(red := false), k + 1);
  }

  /** Unhooking a node with at most one child: a red one leaves the rules intact, a black one a shortage. */
  lemma Unhooked(c: Ctx, s: Side, x: Tree, n: Node, red: bool, k: nat)
    requires Ok(Join(s, x, n, red, Leaf), k) && CtxOk(c, k) && (red ==> c.Arm? && !c.red)
    ensures red ==> x.Leaf? && RedBlackTree(Plug(c, x))
    ensures !red ==> k > 0 && Short(c, x, k - 1)
  {
    if red { PlugOk(c, x, k); }
  }

  /** The rules do not depend on which node stands in an arm. */
  lemma {:induction false} UnderOk(q: Ctx, c: Ctx, d: Ctx, k: nat)
    requires c.Arm? && d.Arm? && d == c.(n := d.n) && CtxOk(Under(q, c), k)
    ensures CtxOk(Under(q, d), k)
  {
    if q.Arm? {
      UnderOk(q.up, c, d, if q.red then k else k + 1);
    }
  }

  lemma ShortEnd(c: Ctx, t: Tree, k: nat)
    requires Short(c, t, k) && (IsRed(t) || c.Top?)
    ensures t.Leaf? ==> RedBlackTree(Plug(c, t))
    ensures t.Bin? ==> RedBlackTree(Plug(c, t.(red := false)))
  {
    if t.Leaf? { PlugOk(c, t, 0); }
    else { PlugOk(c, t.(red := false), if t.red then k + 1 else k); }
  }

  // ----- height -----

  function Size(t: Tree): nat {
    if t.Leaf? then 0 else Size(t.l) + 1 + Size(t.r)
  }

  function Height(t: Tree): nat {
    if t.Leaf? then 0 else 1 + if Height(t.l) < Height(t.r) then Height(t.r) else Height(t.l)
  }

  lemma {:induction false} HeightByBlacks(t: Tree, k: nat)
    requires Ok(t, k)
    ensures Height(t) <= 2 * k + (if IsRed(t) then 1 else 0)
    ensures Pow2(k) <= Size(t) + 1
  {
    if t.Bin? {
      var j := if t.red then k else k - 1;
      HeightByBlacks(t.l, j);
      HeightByBlacks(t.r, j);
    }
  }

  lemma Squares(p: nat, n: nat)
    requires p <= n
    ensures p * p <= n * n
  {
    assert p * p <= p * n <= n * n;
  }

  /** The height of a red-black tree of n nodes is at most 2 lg (n + 1). */
  lemma HeightBound(t: Tree)
    requires RedBlackTree(t)
    ensures Pow2(Height(t)) <= (Size(t) + 1) * (Size(t) + 1)
  {
    var k: nat :| Ok(t, k);
    HeightByBlacks(t, k);
    Pow2Order(Height(t), k + k);
    Pow2Add(k, k);
    Squares(Pow2(k), Size(t) + 1);
  }

  /** No red node of a snapshot in the shape of an `Ok` tree has a red child. */
  lemma {:induction false} NoRedPair(h: Mem, t: Tree, par: Node?, lo: int, hi: int, k: nat)
    requires Holds(h, t, par, lo, hi) && Ok(t, k)
    ensures forall n :: n in InOrder(t) ==> n in h && (h[n].red ==>
              && (h[n].left != null ==> h[n].left in h && !h[h[n].left].red)
              && (h[n].right != null ==> h[n].right in h && !h[h[n].right].red))
  {
    if t.Bin? {
      NoRedPair(h, t.l, t.n, lo, t.n.key, if t.red then k else k - 1);
      NoRedPair(h, t.r, t.n, t.n.key, hi, if t.red then k else k - 1);
    }
  }

  lemma {:induction false} SizeIsLength(t: Tree)
    ensures Size(t) == |InOrder(t)|
  {
    if t.Bin? { SizeIsLength(t.l); SizeIsLength(t.r); }
  }
}
