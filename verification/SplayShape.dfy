/** Splay trees of heap nodes, seen as values: the tree still to be split, the two spines taken off it, and when a
    snapshot of the heap is linked in that way.  Nothing here reads the heap. */
module SplayShape {
  import opened Sides

  /** An element with its intrusive tree entry (SPLAY_ENTRY). */
  class Node {
    const key: int
    var left: Node?
    var right: Node?

    constructor (k: int)
      ensures key == k && left == null && right == null
    {
      key, left, right := k, null, null;
    }
  }

  datatype Tree = Leaf | Bin(l: Tree, n: Node, r: Tree)

  function Ptr(t: Tree): Node? {
    if t.Leaf? then null else t.n
  }

  function Sub(t: Tree, s: Side): Tree
    requires t.Bin?
  {
    if s.Left? then t.l else t.r
  }

  ghost function Height(t: Tree): nat {
    if t.Leaf? then 0 else 1 + Max(Height(t.l), Height(t.r))
  }

  datatype Cell = Cell(left: Node?, right: Node?)

  function Kid(e: Cell, s: Side): Node? {
    if s.Left? then e.left else e.right
  }

  type Mem = map<Node, Cell>

  /** `t` is a search tree with keys strictly between `lo` and `hi`, linked in `h` as `t` says. */
  ghost predicate Holds(h: Mem, t: Tree, lo: int, hi: int) {
    t.Bin? ==>
      && lo < t.n.key < hi
      && t.n in h && h[t.n].left == Ptr(t.l) && h[t.n].right == Ptr(t.r)
      && Holds(h, t.l, lo, t.n.key) && Holds(h, t.r, t.n.key, hi)
  }

  /** Nodes taken off on side `s`, the last one innermost: each hangs from the inner link of the one before, and keeps
      its outer subtree `sib`.  `End` bounds all keys. */
  datatype Spine = End(bound: int) | Arm(up: Spine, n: Node, sib: Tree)

  function Edge(c: Spine): int {
    if c.End? then c.bound else c.n.key
  }

  ghost predicate Beyond(s: Side, k: int, e: int) {
    if s.Left? then k < e else k > e
  }

  /** The spine is linked as `c` says, from the pointer `first` on; its innermost link may hold anything. */
  ghost predicate Open(h: Mem, s: Side, c: Spine, first: Node?)
    decreases c, 0
  {
    c.Arm? ==>
      && c.n in h && Kid(h[c.n], s) == Ptr(c.sib)
      && Beyond(s, Edge(c.up), c.n.key)
      && (if s.Left? then Holds(h, c.sib, Edge(c.up), c.n.key) else Holds(h, c.sib, c.n.key, Edge(c.up)))
      && Linked(h, s, c.up, c.n, first)
  }

  /** Likewise, with `hole` in the innermost link. */
  ghost predicate Linked(h: Mem, s: Side, c: Spine, hole: Node?, first: Node?)
    decreases c, 1
  {
    (if c.End? then first == hole else c.n in h && Kid(h[c.n], Opp(s)) == hole) && Open(h, s, c, first)
  }

  /** The state of top-down splaying: the left spine, the tree in the middle and the right spine. */
  ghost predicate Parted(h: Mem, l: Spine, t: Tree, r: Spine, fl: Node?, fr: Node?) {
    Open(h, Left, l, fl) && Open(h, Right, r, fr) && Holds(h, t, Edge(l), Edge(r))
  }

  // ----- frames -----

  ghost predicate SameIn(h: Mem, h': Mem, lo: int, hi: int) {
    forall n :: n in h && lo < n.key < hi ==> n in h' && h'[n] == h[n]
  }

  ghost predicate SameOut(h: Mem, h': Mem, lo: int, hi: int) {
    forall n :: n in h && !(lo < n.key < hi) ==> n in h' && h'[n] == h[n]
  }

  ghost predicate SameBeyond(h: Mem, h': Mem, s: Side, e: int) {
    forall n :: n in h && Beyond(s, n.key, e) ==> n in h' && h'[n] == h[n]
  }

  lemma {:induction false} HoldsFrame(h: Mem, h': Mem, t: Tree, lo: int, hi: int)
    requires Holds(h, t, lo, hi) && SameIn(h, h', lo, hi)
    ensures Holds(h', t, lo, hi)
  {
    if t.Bin? {
      HoldsFrame(h, h', t.l, lo, t.n.key);
      HoldsFrame(h, h', t.r, t.n.key, hi);
    }
  }

  lemma {:induction false} HoldsWider(h: Mem, t: Tree, lo: int, hi: int, lo': int, hi': int)
    requires Holds(h, t, lo, hi) && lo' <= lo && hi <= hi'
    ensures Holds(h, t, lo', hi')
  {
    if t.Bin? {
      HoldsWider(h, t.l, lo, t.n.key, lo', t.n.key);
      HoldsWider(h, t.r, t.n.key, hi, t.n.key, hi');
    }
  }

  lemma {:induction false} OpenFrame(h: Mem, h': Mem, s: Side, c: Spine, first: Node?)
    requires Open(h, s, c, first) && SameBeyond(h, h', s, Edge(c))
    requires c.Arm? ==> c.n in h' && Kid(h'[c.n], s) == Kid(h[c.n], s)
    ensures Open(h', s, c, first)
  {
    if c.Arm? {
      if s.Left? { HoldsFrame(h, h', c.sib, Edge(c.up), c.n.key); }
      else { HoldsFrame(h, h', c.sib, c.n.key, Edge(c.up)); }
      OpenFrame(h, h', s, c.up, first);
    }
  }

  // ----- steps -----

  /** Taking the root `t.n` and its subtree on side `s` onto the spine of that side. */
  lemma Pushed(h: Mem, h': Mem, s: Side, c: Spine, t: Tree, lo: int, hi: int, first: Node?, first': Node?)
    requires t.Bin? && Holds(h, t, lo, hi) && Open(h, s, c, first) && Edge(c) == (if s.Left? then lo else hi)
    requires forall n :: n in h && n != (if c.End? then t.n else c.n) ==> n in h' && h'[n] == h[n]
    requires t.n in h' && h'[t.n] == h[t.n]
    requires if c.End? then first' == t.n
      else first' == first && c.n in h' && Kid(h'[c.n], s) == Kid(h[c.n], s) && Kid(h'[c.n], Opp(s)) == t.n
    ensures Open(h', s, Arm(c, t.n, Sub(t, s)), first')
    ensures if s.Left? then Holds(h', t.r, t.n.key, hi) else Holds(h', t.l, lo, t.n.key)
  {
    HoldsFrame(h, h', t.l, lo, t.n.key);
    HoldsFrame(h, h', t.r, t.n.key, hi);
    if c.Arm? { OpenFrame(h, h', s, c, first); }
  }

  /** The tree after turning its root down to side `s`. */
  ghost function Turn(s: Side, t: Tree): Tree
    requires t.Bin? && Sub(t, Opp(s)).Bin?
  {
    if s.Left? then Bin(Bin(t.l, t.n, t.r.l), t.r.n, t.r.r) else Bin(t.l.l, t.l.n, Bin(t.l.r, t.n, t.r))
  }

  lemma TurnHeight(s: Side, t: Tree)
    requires t.Bin? && Sub(t, Opp(s)).Bin?
    ensures Height(Sub(Turn(s, t), Opp(s))) < Height(t)
  {
  }

  lemma Turned(h: Mem, h': Mem, s: Side, t: Tree, lo: int, hi: int)
    requires t.Bin? && Sub(t, Opp(s)).Bin? && Holds(h, t, lo, hi)
    requires var u := Turn(s, t);
             && (forall n :: n in h && n != t.n && n != u.n ==> n in h' && h'[n] == h[n])
             && t.n in h' && Kid(h'[t.n], s) == Ptr(Sub(t, s)) && Kid(h'[t.n], Opp(s)) == Ptr(Sub(Sub(t, Opp(s)), s))
             && u.n in h' && Kid(h'[u.n], s) == t.n && Kid(h'[u.n], Opp(s)) == Ptr(Sub(Sub(t, Opp(s)), Opp(s)))
    ensures Holds(h', Turn(s, t), lo, hi)
  {
    if s.Left? {
      HoldsFrame(h, h', t.l, lo, t.n.key);
      HoldsFrame(h, h', t.r.l, t.n.key, t.r.n.key);
      HoldsFrame(h, h', t.r.r, t.r.n.key, hi);
      assert Holds(h', Bin(t.l, t.n, t.r.l), lo, t.r.n.key);
    } else {
      HoldsFrame(h, h', t.r, t.n.key, hi);
      HoldsFrame(h, h', t.l.r, t.l.n.key, t.n.key);
      HoldsFrame(h, h', t.l.l, lo, t.l.n.key);
      assert Holds(h', Bin(t.l.r, t.n, t.r), t.l.n.key, hi);
    }
  }

  /** Turning the tree in the middle leaves the spines alone. */
  lemma PartedTurn(h: Mem, h': Mem, s: Side, l: Spine, t: Tree, r: Spine, fl: Node?, fr: Node?)
    requires Parted(h, l, t, r, fl, fr) && t.Bin? && Sub(t, Opp(s)).Bin?
    requires var u := Turn(s, t);
             && (forall n :: n in h && n != t.n && n != u.n ==> n in h' && h'[n] == h[n])
             && t.n in h' && Kid(h'[t.n], s) == Ptr(Sub(t, s)) && Kid(h'[t.n], Opp(s)) == Ptr(Sub(Sub(t, Opp(s)), s))
             && u.n in h' && Kid(h'[u.n], s) == t.n && Kid(h'[u.n], Opp(s)) == Ptr(Sub(Sub(t, Opp(s)), Opp(s)))
    ensures Parted(h', l, Turn(s, t), r, fl, fr) && SameOut(h, h', Outer(l), Outer(r))
  {
    assert if s.Left? then Holds(h, t.r, t.n.key, Edge(r)) else Holds(h, t.l, Edge(l), t.n.key);
    OuterBelow(h, l, fl);
    OuterAbove(h, r, fr);
    Turned(h, h', s, t, Edge(l), Edge(r));
    OpenFrame(h, h', Left, l, fl);
    OpenFrame(h, h', Right, r, fr);
  }

  /** The spine of side `s` with `t` in its innermost link. */
  ghost function Fill(s: Side, c: Spine, t: Tree): Tree {
    if c.End? then t
    else Fill(s, c.up, if s.Left? then Bin(c.sib, c.n, t) else Bin(t, c.n, c.sib))
  }

  ghost function Outer(c: Spine): int {
    if c.End? then c.bound else Outer(c.up)
  }

  lemma {:induction false} FilledLeft(h: Mem, c: Spine, t: Tree, m: int, first: Node?)
    requires Linked(h, Left, c, Ptr(t), first) && Holds(h, t, Edge(c), m) && (c.Arm? ==> c.n.key < m)
    ensures Holds(h, Fill(Left, c, t), Outer(c), m) && Ptr(Fill(Left, c, t)) == first
  {
    if c.Arm? { FilledLeft(h, c.up, Bin(c.sib, c.n, t), m, first); }
  }

  lemma {:induction false} FilledRight(h: Mem, c: Spine, t: Tree, m: int, first: Node?)
    requires Linked(h, Right, c, Ptr(t), first) && Holds(h, t, m, Edge(c)) && (c.Arm? ==> m < c.n.key)
    ensures Holds(h, Fill(Right, c, t), m, Outer(c)) && Ptr(Fill(Right, c, t)) == first
  {
    if c.Arm? { FilledRight(h, c.up, Bin(t, c.n, c.sib), m, first); }
  }

  function Min(a: int, b: int): int { if a < b then a else b }

  function Max(a: int, b: int): int { if a < b then b else a }

  /** The spines lie on their sides of `k`. */
  ghost predicate Around(k: int, l: Spine, r: Spine) {
    (l.Arm? ==> l.n.key < k) && (r.Arm? ==> k < r.n.key)
  }

  /** Splaying for `k` can go no further. */
  ghost predicate Ended(k: int, l: Spine, t: Tree, r: Spine) {
    Around(k, l, r) && t.Bin? && (t.n.key == k || if k < t.n.key then t.l.Leaf? else t.r.Leaf?)
  }

  /** A search tree whose root separates the keys below `k` from those above: it has the key `k` or is next to it. */
  ghost predicate Split(h: Mem, k: int, t: Tree, lo: int, hi: int) {
    && t.Bin? && lo < t.n.key < hi
    && t.n in h && h[t.n].left == Ptr(t.l) && h[t.n].right == Ptr(t.r)
    && Holds(h, t.l, lo, Min(k, t.n.key)) && Holds(h, t.r, Max(k, t.n.key), hi)
  }

  lemma SplitHolds(h: Mem, k: int, t: Tree, lo: int, hi: int)
    requires Split(h, k, t, lo, hi)
    ensures Holds(h, t, lo, hi)
  {
    HoldsWider(h, t.l, lo, Min(k, t.n.key), lo, t.n.key);
    HoldsWider(h, t.r, Max(k, t.n.key), hi, t.n.key, hi);
  }

  lemma Closes(h: Mem, s: Side, c: Spine, hole: Node?, first: Node?)
    requires Open(h, s, c, first) && if c.End? then first == hole else c.n in h && Kid(h[c.n], Opp(s)) == hole
    ensures Linked(h, s, c, hole, first)
  {
  }

  lemma PartedEnds(h: Mem, l: Spine, t: Tree, r: Spine, fl: Node?, fr: Node?)
    requires Parted(h, l, t, r, fl, fr) && t.Bin?
    ensures Open(h, Left, l, fl) && Open(h, Right, r, fr) && Edge(l) < t.n.key < Edge(r) && t.n in h
    ensures Holds(h, t.l, Edge(l), t.n.key) && Holds(h, t.r, t.n.key, Edge(r))
    ensures h[t.n].left == Ptr(t.l) && h[t.n].right == Ptr(t.r) && (l.Arm? ==> l.n in h) && (r.Arm? ==> r.n in h)
  {
  }

  lemma Assembled(h: Mem, h': Mem, k: int, l: Spine, t: Tree, r: Spine, fl: Node?, fr: Node?, fl': Node?, fr': Node?)
    requires Parted(h, l, t, r, fl, fr) && Ended(k, l, t, r)
    requires forall n :: n in h && (l.Arm? ==> n != l.n) && (r.Arm? ==> n != r.n) && n != t.n ==>
      n in h' && h'[n] == h[n]
    requires if l.End? then fl' == Ptr(t.l)
      else fl' == fl && l.n in h' && h'[l.n].left == h[l.n].left && h'[l.n].right == Ptr(t.l)
    requires if r.End? then fr' == Ptr(t.r)
      else fr' == fr && r.n in h' && h'[r.n].right == h[r.n].right && h'[r.n].left == Ptr(t.r)
    requires t.n in h' && h'[t.n].left == fl' && h'[t.n].right == fr'
    ensures Outer(l) < t.n.key < Outer(r) ==>
      Split(h', k, Bin(Fill(Left, l, t.l), t.n, Fill(Right, r, t.r)), Outer(l), Outer(r))
  {
    hide Holds, Open, Parted, Fill;
    PartedEnds(h, l, t, r, fl, fr);
    HoldsFrame(h, h', t.l, Edge(l), t.n.key);
    HoldsFrame(h, h', t.r, t.n.key, Edge(r));
    OpenFrame(h, h', Left, l, fl);
    OpenFrame(h, h', Right, r, fr);
    Closes(h', Left, l, Ptr(t.l), fl');
    Closes(h', Right, r, Ptr(t.r), fr');
    FilledLeft(h', l, t.l, Min(k, t.n.key), fl');
    FilledRight(h', r, t.r, Max(k, t.n.key), fr');
  }

  lemma {:induction false} OuterBelow(h: Mem, c: Spine, first: Node?)
    requires Open(h, Left, c, first)
    ensures Outer(c) <= Edge(c) && (c.Arm? ==> Outer(c) < Edge(c))
  {
    if c.Arm? { OuterBelow(h, c.up, first); }
  }

  lemma {:induction false} OuterAbove(h: Mem, c: Spine, first: Node?)
    requires Open(h, Right, c, first)
    ensures Edge(c) <= Outer(c) && (c.Arm? ==> Edge(c) < Outer(c))
  {
    if c.Arm? { OuterAbove(h, c.up, first); }
  }

  // ----- the nodes in order -----

  ghost function InOrder(t: Tree): seq<Node> {
    if t.Leaf? then [] else InOrder(t.l) + [t.n] + InOrder(t.r)
  }

  /** The nodes of a left spine, and of a right one, in order. */
  ghost function Pre(c: Spine): seq<Node> {
    if c.End? then [] else Pre(c.up) + InOrder(c.sib) + [c.n]
  }

  ghost function Post(c: Spine): seq<Node> {
    if c.End? then [] else [c.n] + InOrder(c.sib) + Post(c.up)
  }

  ghost function Flow(l: Spine, t: Tree, r: Spine): seq<Node> {
    Pre(l) + InOrder(t) + Post(r)
  }

  lemma {:induction false} FillLeftOrder(c: Spine, t: Tree)
    ensures InOrder(Fill(Left, c, t)) == Pre(c) + InOrder(t)
  {
    if c.Arm? { FillLeftOrder(c.up, Bin(c.sib, c.n, t)); }
  }

  lemma {:induction false} FillRightOrder(c: Spine, t: Tree)
    ensures InOrder(Fill(Right, c, t)) == InOrder(t) + Post(c)
  {
    if c.Arm? { FillRightOrder(c.up, Bin(t, c.n, c.sib)); }
  }

  lemma TurnOrder(s: Side, t: Tree)
    requires t.Bin? && Sub(t, Opp(s)).Bin?
    ensures InOrder(Turn(s, t)) == InOrder(t)
  {
    if s.Left? {
      assert InOrder(Turn(s, t)) == (InOrder(t.l) + [t.n] + InOrder(t.r.l)) + [t.r.n] + InOrder(t.r.r);
    } else {
      assert InOrder(t) == (InOrder(t.l.l) + [t.l.n] + InOrder(t.l.r)) + [t.n] + InOrder(t.r);
    }
  }

  lemma PushOrder(l: Spine, t: Tree, r: Spine)
    requires t.Bin?
    ensures Flow(Arm(l, t.n, t.l), t.r, r) == Flow(l, t, r) && Flow(l, t.l, Arm(r, t.n, t.r)) == Flow(l, t, r)
  {
  }

  lemma FillOrder(l: Spine, t: Tree, r: Spine)
    requires t.Bin?
    ensures InOrder(Bin(Fill(Left, l, t.l), t.n, Fill(Right, r, t.r))) == Flow(l, t, r)
  {
    FillLeftOrder(l, t.l);
    FillRightOrder(r, t.r);
  }

  ghost predicate Ascending(s: seq<Node>) {
    forall i, j :: 0 <= i < j < |s| ==> s[i].key < s[j].key
  }

  lemma {:induction false} OrderHolds(h: Mem, t: Tree, lo: int, hi: int)
    requires Holds(h, t, lo, hi)
    ensures Ascending(InOrder(t)) && forall n :: n in InOrder(t) ==> n in h && lo < n.key < hi
  {
    if t.Bin? {
      OrderHolds(h, t.l, lo, t.n.key);
      OrderHolds(h, t.r, t.n.key, hi);
      AscendingJoin(InOrder(t.l), t.n, InOrder(t.r));
    }
  }

  lemma AscendingJoin(a: seq<Node>, n: Node, b: seq<Node>)
    requires Ascending(a) && Ascending(b) && (forall m :: m in a ==> m.key < n.key)
    requires forall m :: m in b ==> n.key < m.key
    ensures Ascending(a + [n] + b)
  {
    var s := a + [n] + b;
    forall i, j | 0 <= i < j < |s| ensures s[i].key < s[j].key {
      assert i < |a| ==> s[i] in a;
      assert j > |a| ==> s[j] in b;
    }
  }

  /** A split tree has a node with the key exactly when its root has it. */
  lemma Missing(h: Mem, k: int, t: Tree, lo: int, hi: int)
    requires Split(h, k, t, lo, hi)
    ensures forall n :: n in InOrder(t) && n.key == k ==> n == t.n
  {
    OrderHolds(h, t.l, lo, Min(k, t.n.key));
    OrderHolds(h, t.r, Max(k, t.n.key), hi);
  }

  /** The root of a split tree has the key or is its neighbour: no other node's key lies between the two. */
  lemma Neighbour(h: Mem, k: int, t: Tree, lo: int, hi: int)
    requires Split(h, k, t, lo, hi)
    ensures forall n :: n in InOrder(t) && n != t.n ==> n.key < Min(k, t.n.key) || n.key > Max(k, t.n.key)
  {
    OrderHolds(h, t.l, lo, Min(k, t.n.key));
    OrderHolds(h, t.r, Max(k, t.n.key), hi);
  }

  /** A new root `elm` above a split tree: the old root keeps the side away from `elm`. */
  ghost function Crown(elm: Node, t: Tree): Tree
    requires t.Bin?
  {
    if elm.key < t.n.key then Bin(t.l, elm, Bin(Leaf, t.n, t.r)) else Bin(Bin(t.l, t.n, Leaf), elm, t.r)
  }

  lemma Crowned(h: Mem, h': Mem, elm: Node, t: Tree, lo: int, hi: int)
    requires Split(h, elm.key, t, lo, hi) && elm.key != t.n.key
    requires forall n :: n in h && n != elm && n != t.n ==> n in h' && h'[n] == h[n]
    requires elm !in h && elm in h' && h'[elm].left == (if elm.key < t.n.key then Ptr(t.l) else t.n)
    requires h'[elm].right == (if elm.key < t.n.key then t.n else Ptr(t.r))
    requires t.n in h' && h'[t.n].left == (if elm.key < t.n.key then null else Ptr(t.l))
    requires h'[t.n].right == (if elm.key < t.n.key then Ptr(t.r) else null)
    ensures Holds(h', Crown(elm, t), Min(lo, elm.key - 1), Max(hi, elm.key + 1))
    ensures forall n :: n in InOrder(t) || n == elm ==> n in InOrder(Crown(elm, t))
  {
    var k := elm.key;
    HoldsFrame(h, h', t.l, lo, Min(k, t.n.key));
    HoldsFrame(h, h', t.r, Max(k, t.n.key), hi);
    HoldsWider(h', t.l, lo, Min(k, t.n.key), Min(lo, k - 1), Min(k, t.n.key));
    HoldsWider(h', t.r, Max(k, t.n.key), hi, Max(k, t.n.key), Max(hi, k + 1));
    if k < t.n.key { assert Holds(h', Bin(Leaf, t.n, t.r), k, Max(hi, k + 1)); }
    else { assert Holds(h', Bin(t.l, t.n, Leaf), Min(lo, k - 1), k); }
  }

  /** Two trees on either side of `k`, the left one with an empty right subtree below its root, become one. */
  lemma Joined(h: Mem, h': Mem, k: int, u: Tree, r: Tree, lo: int, hi: int)
    requires Split(h, k, u, lo, k) && Holds(h, r, k, hi) && lo < k < hi
    requires forall n :: n in h && n.key != k && n != u.n ==> n in h' && h'[n] == h[n]
    requires u.n in h' && h'[u.n].left == h[u.n].left && h'[u.n].right == Ptr(r)
    ensures u.r == Leaf && Holds(h', Bin(u.l, u.n, r), lo, hi) && InOrder(Bin(u.l, u.n, r)) == InOrder(u) + InOrder(r)
  {
    HoldsFrame(h, h', u.l, lo, u.n.key);
    HoldsWider(h, r, k, hi, u.n.key, hi);
    HoldsFrame(h, h', r, k, hi);
    HoldsWider(h', r, k, hi, u.n.key, hi);
  }
}
