/** Red-black trees of heap nodes, seen as values: the shape of a tree, the one-hole context around a
    subtree, and when a snapshot of the heap is linked in that shape.  Nothing here reads the heap. */
module RbShape {
  import opened Sides

  /** An element with its intrusive tree entry (RB_ENTRY). */
  class Node {
    const key: int
    var left: Node?
    var right: Node?
    var parent: Node?
    var red: bool

    constructor (k: int)
      ensures key == k
    {
      key := k;
    }
  }

  datatype Tree = Leaf | Bin(l: Tree, n: Node, red: bool, r: Tree)

  /** A tree with one hole; `Arm(up, s, n, red, sib)` has the hole as child `s` of `n`.
      `Top` carries bounds on all keys of the tree. */
  datatype Ctx = Top(lo: int, hi: int) | Arm(up: Ctx, side: Side, n: Node, red: bool, sib: Tree)

  function Join(s: Side, near: Tree, n: Node, red: bool, far: Tree): Tree {
    if s.Left? then Bin(near, n, red, far) else Bin(far, n, red, near)
  }

  function Plug(c: Ctx, t: Tree): Tree {
    match c
    case Top(_, _) => t
    case Arm(up, s, n, red, sib) => Plug(up, Join(s, t, n, red, sib))
  }

  function Ptr(t: Tree): Node? {
    if t.Leaf? then null else t.n
  }

  function Up(c: Ctx): Node? {
    if c.Top? then null else c.n
  }

  /** The keys that fit in the hole of `c` lie strictly between `Lo(c)` and `Hi(c)`. */
  function Lo(c: Ctx): int {
    match c
    case Top(lo, _) => lo
    case Arm(up, s, n, _, _) => if s.Left? then Lo(up) else n.key
  }

  function Hi(c: Ctx): int {
    match c
    case Top(_, hi) => hi
    case Arm(up, s, n, _, _) => if s.Left? then n.key else Hi(up)
  }

  /** The tree entry of one node, and a snapshot of the entries of many. */
  datatype Cell = Cell(left: Node?, right: Node?, parent: Node?, red: bool)

  type Mem = map<Node, Cell>

  ghost predicate Knot(e: Cell, s: Side, near: Node?, far: Node?, par: Node?, red: bool) {
    && e.left == (if s.Left? then near else far)
    && e.right == (if s.Left? then far else near)
    && e.parent == par && e.red == red
  }

  /** `t` is a search tree with keys strictly between `lo` and `hi`, and the entries in `h` of its
      nodes are linked as `t` says, below the parent `par`. */
  ghost predicate Holds(h: Mem, t: Tree, par: Node?, lo: int, hi: int) {
    t.Bin? ==>
      && lo < t.n.key < hi
      && t.n in h && Knot(h[t.n], Left, Ptr(t.l), Ptr(t.r), par, t.red)
      && Holds(h, t.l, t.n, lo, t.n.key) && Holds(h, t.r, t.n, t.n.key, hi)
  }

  /** Likewise for a context whose hole holds the pointer `hole`, in a tree with root pointer `root`. */
  ghost predicate CtxHolds(h: Mem, c: Ctx, hole: Node?, root: Node?) {
    match c
    case Top(_, _) => root == hole
    case Arm(up, s, n, red, sib) =>
      && Lo(up) < n.key < Hi(up)
      && n in h && Knot(h[n], s, hole, Ptr(sib), Up(up), red)
      && (if s.Left? then Holds(h, sib, n, n.key, Hi(up)) else Holds(h, sib, n, Lo(up), n.key))
      && CtxHolds(h, up, n, root)
  }

  ghost predicate Shaped(h: Mem, root: Node?, c: Ctx, t: Tree) {
    Holds(h, t, Up(c), Lo(c), Hi(c)) && CtxHolds(h, c, Ptr(t), root)
  }

  ghost predicate SameIn(h: Mem, h': Mem, lo: int, hi: int) {
    forall n :: n in h && lo < n.key < hi ==> n in h' && h'[n] == h[n]
  }

  ghost predicate SameOut(h: Mem, h': Mem, lo: int, hi: int) {
    forall n :: n in h && !(lo < n.key < hi) ==> n in h' && h'[n] == h[n]
  }

  lemma {:induction false} HoldsFrame(h: Mem, h': Mem, t: Tree, par: Node?, lo: int, hi: int)
    requires Holds(h, t, par, lo, hi) && SameIn(h, h', lo, hi)
    ensures Holds(h', t, par, lo, hi)
  {
    if t.Bin? {
      HoldsFrame(h, h', t.l, t.n, lo, t.n.key);
      HoldsFrame(h, h', t.r, t.n, t.n.key, hi);
    }
  }

  lemma {:induction false} CtxFrame(h: Mem, h': Mem, c: Ctx, hole: Node?, root: Node?)
    requires CtxHolds(h, c, hole, root) && SameOut(h, h', Lo(c), Hi(c))
    ensures CtxHolds(h', c, hole, root)
  {
    if c.Arm? {
      if c.side.Left? { HoldsFrame(h, h', c.sib, c.n, c.n.key, Hi(c.up)); }
      else { HoldsFrame(h, h', c.sib, c.n, Lo(c.up), c.n.key); }
      CtxFrame(h, h', c.up, c.n, root);
    }
  }

  /** Changing only the parent link of the root of `t`. */
  lemma Adopted(h: Mem, h': Mem, t: Tree, par: Node?, par': Node?, lo: int, hi: int)
    requires Holds(h, t, par, lo, hi)
    requires t.Bin? ==> SameIn(h, h', lo, t.n.key) && SameIn(h, h', t.n.key, hi)
    requires t.Bin? ==> t.n in h' && h'[t.n] == h[t.n].(parent := par')
    ensures Holds(h', t, par', lo, hi)
  {
    if t.Bin? {
      HoldsFrame(h, h', t.l, t.n, lo, t.n.key);
      HoldsFrame(h, h', t.r, t.n, t.n.key, hi);
    }
  }

  /** Changing only the pointer in the hole of `c`. */
  lemma Rehung(h: Mem, h': Mem, c: Ctx, p: Node?, p': Node?, root: Node?, root': Node?)
    requires CtxHolds(h, c, p, root)
    requires if c.Top? then root' == p'
             else root' == root && c.n in h' && Knot(h'[c.n], c.side, p', Ptr(c.sib), Up(c.up), c.red)
    requires forall n :: n in h && !(Lo(c) < n.key < Hi(c)) && n != Up(c) ==> n in h' && h'[n] == h[n]
    ensures CtxHolds(h', c, p', root')
  {
    if c.Arm? {
      if c.side.Left? { HoldsFrame(h, h', c.sib, c.n, c.n.key, Hi(c.up)); }
      else { HoldsFrame(h, h', c.sib, c.n, Lo(c.up), c.n.key); }
      CtxFrame(h, h', c.up, c.n, root);
    }
  }

  /** What a rotation does to the entries of the subtree it turns. */
  lemma TurnedLeft(h: Mem, h': Mem, par: Node?, lo: int, hi: int,
                   a: Tree, x: Node, cx: bool, b: Tree, y: Node, cy: bool, d: Tree)
    requires Holds(h, Bin(a, x, cx, Bin(b, y, cy, d)), par, lo, hi)
    requires forall n :: n in h && lo < n.key < hi && n != x && n != y && n != Ptr(b) ==> n in h' && h'[n] == h[n]
    requires x in h' && Knot(h'[x], Left, Ptr(a), Ptr(b), y, cx)
    requires y in h' && Knot(h'[y], Left, x, Ptr(d), par, cy)
    requires b.Bin? ==> b.n in h && b.n in h' && h'[b.n] == h[b.n].(parent := x)
    ensures Holds(h', Bin(Bin(a, x, cx, b), y, cy, d), par, lo, hi)
  {
    assert Holds(h, Bin(b, y, cy, d), x, x.key, hi);
    assert Holds(h, b, y, x.key, y.key);
    HoldsFrame(h, h', a, x, lo, x.key);
    Adopted(h, h', b, y, x, x.key, y.key);
    HoldsFrame(h, h', d, y, y.key, hi);
    assert Holds(h', Bin(a, x, cx, b), y, lo, y.key);
  }

  lemma TurnedRight(h: Mem, h': Mem, par: Node?, lo: int, hi: int,
                    a: Tree, x: Node, cx: bool, b: Tree, y: Node, cy: bool, d: Tree)
    requires Holds(h, Bin(Bin(d, y, cy, b), x, cx, a), par, lo, hi)
    requires forall n :: n in h && lo < n.key < hi && n != x && n != y && n != Ptr(b) ==> n in h' && h'[n] == h[n]
    requires x in h' && Knot(h'[x], Left, Ptr(b), Ptr(a), y, cx)
    requires y in h' && Knot(h'[y], Left, Ptr(d), x, par, cy)
    requires b.Bin? ==> b.n in h && b.n in h' && h'[b.n] == h[b.n].(parent := x)
    ensures Holds(h', Bin(d, y, cy, Bin(b, x, cx, a)), par, lo, hi)
  {
    assert Holds(h, Bin(d, y, cy, b), x, lo, x.key);
    assert Holds(h, b, y, y.key, x.key);
    HoldsFrame(h, h', a, x, x.key, hi);
    Adopted(h, h', b, y, x, y.key, x.key);
    HoldsFrame(h, h', d, y, lo, y.key);
    assert Holds(h', Bin(b, x, cx, a), y, y.key, hi);
  }

  /** The entries a rotation of `x` towards side `s` reads. */
  ghost predicate Turnable(h: Mem, c: Ctx, s: Side, a: Tree, x: Node, cx: bool, b: Tree, y: Node, cy: bool, d: Tree) {
    && x in h && Knot(h[x], s, Ptr(a), y, Up(c), cx)
    && y in h && Knot(h[y], s, Ptr(b), Ptr(d), x, cy)
    && x != y && Up(c) != x && Up(c) != y && Ptr(b) != x && Ptr(b) != y
    && (b.Bin? ==> b.n in h && Up(c) != b.n)
    && (c.Arm? ==> c.n in h && Knot(h[c.n], c.side, x, Ptr(c.sib), Up(c.up), c.red) && Ptr(c.sib) != x)
  }

  /** The entries it leaves. */
  ghost predicate Turned(h: Mem, h': Mem, root: Node?, root': Node?, c: Ctx, s: Side,
                         a: Tree, x: Node, cx: bool, b: Tree, y: Node, cy: bool, d: Tree) {
    && (forall n :: n in h && n != x && n != y && n != Ptr(b) && n != Up(c) ==> n in h' && h'[n] == h[n])
    && x in h' && Knot(h'[x], s, Ptr(a), Ptr(b), y, cx)
    && y in h' && Knot(h'[y], s, x, Ptr(d), Up(c), cy)
    && (b.Bin? ==> b.n in h && b.n in h' && h'[b.n] == h[b.n].(parent := x))
    && (if c.Top? then root' == y
        else root' == root && c.n in h' && Knot(h'[c.n], c.side, y, Ptr(c.sib), Up(c.up), c.red))
  }

  lemma CanTurn(h: Mem, root: Node?, c: Ctx, s: Side,
                a: Tree, x: Node, cx: bool, b: Tree, y: Node, cy: bool, d: Tree)
    requires Shaped(h, root, c, Join(s, a, x, cx, Join(s, b, y, cy, d)))
    ensures Turnable(h, c, s, a, x, cx, b, y, cy, d)
    ensures Lo(c) < x.key < Hi(c) && Lo(c) < y.key < Hi(c) && (b.Bin? ==> Lo(c) < b.n.key < Hi(c))
    ensures c.Arm? ==> !(Lo(c) < c.n.key < Hi(c))
  {
    var lo, hi := Lo(c), Hi(c);
    if s.Left? {
      assert Holds(h, Bin(b, y, cy, d), x, x.key, hi);
      assert Holds(h, b, y, x.key, y.key);
    } else {
      assert Holds(h, Bin(d, y, cy, b), x, lo, x.key);
      assert Holds(h, b, y, y.key, x.key);
    }
    if c.Arm? {
      if c.side.Left? { assert Holds(h, c.sib, c.n, c.n.key, Hi(c.up)); }
      else { assert Holds(h, c.sib, c.n, Lo(c.up), c.n.key); }
    }
  }

  /** A rotation turns the shape around its hole and nothing else. */
  lemma Rotated(h: Mem, h': Mem, root: Node?, root': Node?, c: Ctx, s: Side,
                a: Tree, x: Node, cx: bool, b: Tree, y: Node, cy: bool, d: Tree)
    requires Shaped(h, root, c, Join(s, a, x, cx, Join(s, b, y, cy, d)))
    requires Turned(h, h', root, root', c, s, a, x, cx, b, y, cy, d)
    ensures Shaped(h', root', c, Join(s, Join(s, a, x, cx, b), y, cy, d))
  {
    var lo, hi := Lo(c), Hi(c);
    CanTurn(h, root, c, s, a, x, cx, b, y, cy, d);
    if s.Left? {
      TurnedLeft(h, h', Up(c), lo, hi, a, x, cx, b, y, cy, d);
    } else {
      TurnedRight(h, h', Up(c), lo, hi, a, x, cx, b, y, cy, d);
    }
    Rehung(h, h', c, x, y, root, root');
  }

  /** The tree after turning its root down to side `s`. */
  ghost predicate HasKid(s: Side, t: Tree) {
    t.Bin? && (if s.Left? then t.l.Bin? else t.r.Bin?)
  }

  ghost function Turn(s: Side, t: Tree): Tree
    requires HasKid(Opp(s), t)
  {
    if s.Left? then Bin(Bin(t.l, t.n, t.red, t.r.l), t.r.n, t.r.red, t.r.r)
    else Bin(t.l.l, t.l.n, t.l.red, Bin(t.l.r, t.n, t.red, t.r))
  }

  /** Moving the focus one node down or up does not change what is in memory. */
  lemma Descend(h: Mem, root: Node?, c: Ctx, s: Side, near: Tree, n: Node, red: bool, far: Tree)
    ensures Shaped(h, root, c, Join(s, near, n, red, far)) <==> Shaped(h, root, Arm(c, s, n, red, far), near)
  {
  }

  ghost function Base(c: Ctx): (b: Ctx)
    ensures b.Top?
  {
    if c.Top? then c else Base(c.up)
  }

  ghost function Depth(c: Ctx): nat {
    if c.Top? then 0 else 1 + Depth(c.up)
  }

  lemma {:induction false} PlugBin(c: Ctx, t: Tree)
    requires t.Bin? || c.Arm?
    ensures Plug(c, t).Bin?
  {
    if c.Arm? { PlugBin(c.up, Join(c.side, t, c.n, c.red, c.sib)); }
  }

  lemma {:induction false} Unzip(h: Mem, root: Node?, c: Ctx, t: Tree)
    ensures Shaped(h, root, c, t) <==> Shaped(h, root, Base(c), Plug(c, t))
  {
    if c.Arm? {
      Descend(h, root, c.up, c.side, t, c.n, c.red, c.sib);
      Unzip(h, root, c.up, Join(c.side, t, c.n, c.red, c.sib));
    }
  }

  /** Recolouring the root of the focused subtree. */
  lemma Painted(h: Mem, h': Mem, root: Node?, c: Ctx, t: Tree, red: bool)
    requires Shaped(h, root, c, t) && t.Bin?
    requires forall n :: n in h && n != t.n ==> n in h' && h'[n] == h[n]
    requires t.n in h' && h'[t.n] == h[t.n].(red := red)
    ensures Shaped(h', root, c, t.(red := red))
  {
    HoldsFrame(h, h', t.l, t.n, Lo(c), t.n.key);
    HoldsFrame(h, h', t.r, t.n, t.n.key, Hi(c));
    CtxFrame(h, h', c, t.n, root);
  }

  /** The entries next to the focus. */
  lemma Look(h: Mem, root: Node?, c: Ctx, t: Tree)
    requires Shaped(h, root, c, t)
    ensures t.Bin? ==> t.n in h && Knot(h[t.n], Left, Ptr(t.l), Ptr(t.r), Up(c), t.red)
    ensures c.Top? ==> root == Ptr(t)
    ensures c.Arm? ==> c.n in h && Knot(h[c.n], c.side, Ptr(t), Ptr(c.sib), Up(c.up), c.red)
    ensures c.Arm? && c.sib.Bin? ==> c.sib.n in h && h[c.sib.n].red == c.sib.red && c.sib.n != Ptr(t) && c.sib.n != c.n
    ensures c.Arm? ==> Ptr(t) != c.n
  {
    if c.Arm? {
      if c.side.Left? { assert Holds(h, c.sib, c.n, c.n.key, Hi(c.up)); }
      else { assert Holds(h, c.sib, c.n, Lo(c.up), c.n.key); }
    }
  }

  /** The entries of the sibling of the focus and of the sibling's children. */
  lemma LookAcross(h: Mem, root: Node?, c: Ctx, t: Tree)
    requires Shaped(h, root, c, t) && c.Arm? && c.sib.Bin?
    ensures c.sib.n in h && Knot(h[c.sib.n], Left, Ptr(c.sib.l), Ptr(c.sib.r), c.n, c.sib.red)
    ensures c.sib.l.Bin? ==> c.sib.l.n in h && h[c.sib.l.n].red == c.sib.l.red
    ensures c.sib.r.Bin? ==> c.sib.r.n in h && h[c.sib.r.n].red == c.sib.r.red
  {
    var lo, hi := if c.side.Left? then c.n.key else Lo(c.up), if c.side.Left? then Hi(c.up) else c.n.key;
    assert Holds(h, c.sib, c.n, lo, hi);
    assert Holds(h, c.sib.l, c.sib.n, lo, c.sib.n.key) && Holds(h, c.sib.r, c.sib.n, c.sib.n.key, hi);
  }

  /** A focus below the root is not the root. */
  lemma {:induction false} RootOutside(h: Mem, root: Node?, c: Ctx, hole: Node?)
    requires CtxHolds(h, c, hole, root) && c.Arm?
    ensures root != null && !(Lo(c) < root.key < Hi(c))
  {
    if c.up.Arm? { RootOutside(h, root, c.up, c.n); }
  }

  // ----- contents, in order -----

  ghost function InOrder(t: Tree): seq<Node> {
    if t.Leaf? then [] else InOrder(t.l) + [t.n] + InOrder(t.r)
  }

  ghost function Before(c: Ctx): seq<Node> {
    match c
    case Top(_, _) => []
    case Arm(up, s, n, _, sib) => if s.Left? then Before(up) else Before(up) + InOrder(sib) + [n]
  }

  ghost function After(c: Ctx): seq<Node> {
    match c
    case Top(_, _) => []
    case Arm(up, s, n, _, sib) => if s.Left? then [n] + InOrder(sib) + After(up) else After(up)
  }

  ghost function Flow(c: Ctx, t: Tree): seq<Node> {
    Before(c) + InOrder(t) + After(c)
  }

  lemma FlowDescend(c: Ctx, s: Side, near: Tree, n: Node, red: bool, far: Tree)
    ensures Flow(c, Join(s, near, n, red, far)) == Flow(Arm(c, s, n, red, far), near)
  {
    hide InOrder;
    if s.Left? {
      InOrderBin(near, n, red, far);
      Regrouped(Before(c), InOrder(near), n, InOrder(far), After(c));
    } else {
      InOrderBin(far, n, red, near);
      Regrouped(Before(c), InOrder(far), n, InOrder(near), After(c));
    }
  }

  lemma InOrderBin(l: Tree, n: Node, red: bool, r: Tree)
    ensures InOrder(Bin(l, n, red, r)) == InOrder(l) + [n] + InOrder(r)
  {
  }

  lemma Regrouped(a: seq<Node>, p: seq<Node>, n: Node, q: seq<Node>, b: seq<Node>)
    ensures a + (p + [n] + q) + b == a + p + ([n] + q + b) == (a + p + [n]) + q + b
  {
  }

  lemma {:induction false} FlowPlug(c: Ctx, t: Tree)
    ensures InOrder(Plug(c, t)) == Flow(c, t)
  {
    if c.Arm? {
      FlowDescend(c.up, c.side, t, c.n, c.red, c.sib);
      FlowPlug(c.up, Join(c.side, t, c.n, c.red, c.sib));
    }
  }

  lemma FlowTurn(s: Side, t: Tree)
    requires HasKid(Opp(s), t)
    ensures InOrder(Turn(s, t)) == InOrder(t)
  {
    var u := Turn(s, t);
    if s.Left? {
      assert InOrder(u.l) == InOrder(t.l) + [t.n] + InOrder(t.r.l);
    } else {
      assert InOrder(u.r) == InOrder(t.l.r) + [t.n] + InOrder(t.r);
    }
  }

  /** Hanging a new, childless red node in an empty hole. */
  lemma Grafted(h: Mem, h': Mem, root: Node?, root': Node?, c: Ctx, x: Node)
    requires Shaped(h, root, c, Leaf) && x !in h && Lo(c) < x.key < Hi(c)
    requires forall n :: n in h && n != Up(c) ==> n in h' && h'[n] == h[n]
    requires x in h' && h'[x] == Cell(null, null, Up(c), true)
    requires if c.Top? then root' == x
             else root' == root && c.n in h' && Knot(h'[c.n], c.side, x, Ptr(c.sib), Up(c.up), c.red)
    ensures Shaped(h', root', c, Bin(Leaf, x, true, Leaf))
  {
    Rehung(h, h', c, null, x, root, root');
  }

  lemma {:induction false} Widen(h: Mem, t: Tree, par: Node?, lo: int, hi: int, lo': int, hi': int)
    requires Holds(h, t, par, lo, hi) && lo' <= lo && hi <= hi'
    ensures Holds(h, t, par, lo', hi')
  {
    if t.Bin? {
      Widen(h, t.l, t.n, lo, t.n.key, lo', t.n.key);
      Widen(h, t.r, t.n, t.n.key, hi, t.n.key, hi');
    }
  }

  // ----- the search order -----

  ghost predicate Ascending(q: seq<Node>) {
    forall i, j :: 0 <= i < j < |q| ==> q[i].key < q[j].key
  }

  ghost predicate Between(q: seq<Node>, lo: int, hi: int) {
    forall i :: 0 <= i < |q| ==> lo < q[i].key < hi
  }

  lemma {:induction false} SearchOrder(h: Mem, t: Tree, par: Node?, lo: int, hi: int)
    requires Holds(h, t, par, lo, hi)
    ensures Ascending(InOrder(t)) && Between(InOrder(t), lo, hi)
    ensures forall n :: n in InOrder(t) ==> n in h
  {
    if t.Bin? {
      SearchOrder(h, t.l, t.n, lo, t.n.key);
      SearchOrder(h, t.r, t.n, t.n.key, hi);
    }
  }

  /** Before and after a hole come exactly the keys outside its interval. */
  lemma {:induction false} FlowOrder(h: Mem, root: Node?, c: Ctx, hole: Node?)
    requires CtxHolds(h, c, hole, root)
    ensures forall n :: n in Before(c) ==> n.key <= Lo(c)
    ensures forall n :: n in After(c) ==> Hi(c) <= n.key
    ensures Lo(Base(c)) <= Lo(c) && Hi(c) <= Hi(Base(c))
  {
    if c.Arm? {
      FlowOrder(h, root, c.up, c.n);
      if c.side.Left? {
        SearchOrder(h, c.sib, c.n, c.n.key, Hi(c.up));
        forall n | n in After(c) ensures Hi(c) <= n.key {
          if n in InOrder(c.sib) {
            var i :| 0 <= i < |InOrder(c.sib)| && InOrder(c.sib)[i] == n;
          }
        }
      } else {
        SearchOrder(h, c.sib, c.n, Lo(c.up), c.n.key);
        forall n | n in Before(c) ensures n.key <= Lo(c) {
          if n in InOrder(c.sib) {
            var i :| 0 <= i < |InOrder(c.sib)| && InOrder(c.sib)[i] == n;
          }
        }
      }
    }
  }

  // ----- taking a node out -----

  /** The context `q` placed inside the hole of `c`. */
  ghost function Under(q: Ctx, c: Ctx): Ctx {
    if q.Top? then c else Arm(Under(q.up, c), q.side, q.n, q.red, q.sib)
  }

  lemma {:induction false} UnderShaped(h: Mem, root: Node?, q: Ctx, c: Ctx, t: Tree)
    ensures Shaped(h, root, Under(q, c), t) <==> Shaped(h, root, c, Plug(q, t))
  {
    if q.Arm? {
      Descend(h, root, Under(q.up, c), q.side, t, q.n, q.red, q.sib);
      UnderShaped(h, root, q.up, c, Join(q.side, t, q.n, q.red, q.sib));
    }
  }

  lemma {:induction false} UnderFlow(q: Ctx, c: Ctx, t: Tree)
    ensures Flow(Under(q, c), t) == Flow(c, Plug(q, t)) && Base(Under(q, c)) == Base(c)
  {
    if q.Arm? {
      FlowDescend(Under(q.up, c), q.side, t, q.n, q.red, q.sib);
      UnderFlow(q.up, c, Join(q.side, t, q.n, q.red, q.sib));
    }
  }

  ghost predicate LeftSpine(q: Ctx) {
    q.Arm? ==> q.side.Left? && LeftSpine(q.up)
  }

  lemma {:induction false} SpineFirst(q: Ctx, t: Tree)
    requires LeftSpine(q)
    ensures InOrder(Plug(q, t)) == InOrder(t) + After(q)
  {
    FlowPlug(q, t);
    NothingBefore(q);
  }

  lemma SpineHead(q: Ctx, n: Node, red: bool, x: Tree)
    requires LeftSpine(q)
    ensures InOrder(Plug(q, Bin(Leaf, n, red, x))) == [n] + InOrder(Plug(q, x))
  {
    SpineFirst(q, Bin(Leaf, n, red, x));
    SpineFirst(q, x);
    assert InOrder(Bin(Leaf, n, red, x)) == [n] + InOrder(x);
  }

  lemma HeadLeast(q: seq<Node>, n: Node, rest: seq<Node>, lo: int, hi: int)
    requires q == [n] + rest && Ascending(q) && Between(q, lo, hi)
    ensures lo < n.key < hi && Between(rest, n.key, hi)
  {
    assert q[0] == n;
    assert forall i :: 0 <= i < |rest| ==> rest[i] == q[i + 1];
  }

  lemma {:induction false} NothingBefore(q: Ctx)
    requires LeftSpine(q)
    ensures Before(q) == []
  {
    if q.Arm? { NothingBefore(q.up); }
  }

  lemma {:induction false} Narrow(h: Mem, t: Tree, par: Node?, lo: int, hi: int, m: int)
    requires Holds(h, t, par, lo, hi) && Between(InOrder(t), m, hi)
    ensures Holds(h, t, par, m, hi)
  {
    if t.Bin? {
      assert InOrder(t)[|InOrder(t.l)|] == t.n;
      assert Between(InOrder(t.l), m, t.n.key) by {
        SearchOrder(h, t.l, t.n, lo, t.n.key);
        assert forall i :: 0 <= i < |InOrder(t.l)| ==> InOrder(t.l)[i] == InOrder(t)[i];
      }
      Narrow(h, t.l, t.n, lo, t.n.key, m);
    }
  }

  /** Unhooking a node with at most one child `x`. */
  lemma Spliced(h: Mem, h': Mem, root: Node?, root': Node?, c: Ctx, s: Side, x: Tree, e: Node, red: bool)
    requires Shaped(h, root, c, Join(s, x, e, red, Leaf))
    requires forall n :: n in h && n != e && n != Ptr(x) && n != Up(c) ==> n in h' && h'[n] == h[n]
    requires x.Bin? ==> x.n in h && x.n in h' && h'[x.n] == h[x.n].(parent := Up(c))
    requires if c.Top? then root' == Ptr(x)
             else root' == root && c.n in h' && Knot(h'[c.n], c.side, Ptr(x), Ptr(c.sib), Up(c.up), c.red)
    ensures Shaped(h', root', c, x)
  {
    var lo, hi := if s.Left? then Lo(c) else e.key, if s.Left? then e.key else Hi(c);
    assert Holds(h, x, e, lo, hi);
    assert c.Arm? ==> !(Lo(c) < c.n.key < Hi(c));
    Adopted(h, h', x, e, Up(c), lo, hi);
    Widen(h', x, Up(c), lo, hi, Lo(c), Hi(c));
    Rehung(h, h', c, e, Ptr(x), root, root');
  }

  /** Putting the node `s` in the place of `o`. */
  lemma Replaced(h: Mem, h': Mem, root: Node?, root': Node?, c: Ctx, l: Tree, o: Node, red: bool, r: Tree, s: Node)
    requires Shaped(h, root, c, Bin(l, o, red, r)) && s !in h && o.key < s.key < Hi(c) && Holds(h, r, o, s.key, Hi(c))
    requires forall n :: n in h && n != o && n != Ptr(l) && n != Ptr(r) && n != Up(c) ==> n in h' && h'[n] == h[n]
    requires s in h' && Knot(h'[s], Left, Ptr(l), Ptr(r), Up(c), red)
    requires l.Bin? ==> l.n in h && l.n in h' && h'[l.n] == h[l.n].(parent := s)
    requires r.Bin? ==> r.n in h && r.n in h' && h'[r.n] == h[r.n].(parent := s)
    requires if c.Top? then root' == s
             else root' == root && c.n in h' && Knot(h'[c.n], c.side, s, Ptr(c.sib), Up(c.up), c.red)
    ensures Shaped(h', root', c, Bin(l, s, red, r))
  {
    hide Holds, CtxHolds, Knot;
    var lo, hi := Lo(c), Hi(c);
    HoldsParts(h, l, o, red, r, Up(c), lo, hi);
    RootWithin(h, l, o, lo, o.key);
    RootWithin(h, r, o, s.key, hi);
    assert c.Arm? ==> !(lo < c.n.key < hi);
    Adopted(h, h', l, o, s, lo, o.key);
    Widen(h', l, s, lo, o.key, lo, s.key);
    Adopted(h, h', r, o, s, s.key, hi);
    HoldsBin(h', l, s, red, r, Up(c), lo, hi);
    Rehung(h, h', c, o, s, root, root');
  }

  lemma HoldsParts(h: Mem, l: Tree, n: Node, red: bool, r: Tree, par: Node?, lo: int, hi: int)
    requires Holds(h, Bin(l, n, red, r), par, lo, hi)
    ensures lo < n.key < hi && n in h && Holds(h, l, n, lo, n.key) && Holds(h, r, n, n.key, hi)
  {
  }

  lemma RootWithin(h: Mem, t: Tree, par: Node?, lo: int, hi: int)
    requires Holds(h, t, par, lo, hi)
    ensures t.Bin? ==> lo < t.n.key < hi
  {
  }

  lemma HoldsBin(h: Mem, l: Tree, n: Node, red: bool, r: Tree, par: Node?, lo: int, hi: int)
    requires lo < n.key < hi && n in h && Knot(h[n], Left, Ptr(l), Ptr(r), par, red)
    requires Holds(h, l, n, lo, n.key) && Holds(h, r, n, n.key, hi)
    ensures Holds(h, Bin(l, n, red, r), par, lo, hi)
  {
  }

  // ----- what the shape says of each node -----

  /** `n`'s child on one side, if any, is a node of `q` on the proper side of it that points back at it. */
  ghost predicate ChildOk(h: Mem, q: seq<Node>, n: Node, kid: Node?) {
    kid != null ==> kid in q && kid in h && h[kid].parent == n
  }

  ghost predicate NodeOk(h: Mem, q: seq<Node>, n: Node) {
    && n in h
    && ChildOk(h, q, n, h[n].left) && (h[n].left != null ==> h[n].left.key < n.key)
    && ChildOk(h, q, n, h[n].right) && (h[n].right != null ==> n.key < h[n].right.key)
  }

  lemma {:induction false} EachNode(h: Mem, t: Tree, par: Node?, lo: int, hi: int, q: seq<Node>)
    requires Holds(h, t, par, lo, hi) && forall n :: n in InOrder(t) ==> n in q
    ensures forall n :: n in InOrder(t) ==> NodeOk(h, q, n)
    ensures t.Bin? ==> t.n in q && h[t.n].parent == par
  {
    if t.Bin? {
      EachNode(h, t.l, t.n, lo, t.n.key, q);
      EachNode(h, t.r, t.n, t.n.key, hi, q);
    }
  }
}
