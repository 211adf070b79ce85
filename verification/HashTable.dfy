/** The uthash table (libs/uthash/src/uthash.h). The hash function is an arbitrary function of the key, and counters do
    not wrap.  The links of the items are mirrored in the ghost maps `ord` and `hh`, so that the shape of the table is
    a statement about values; `bs` mirrors the bucket array. */
module HashTable {
  import opened Align
  import opened HashShape

  const INITIAL_LOG2 := 5
  const CAPACITY := 10

  ghost predicate Mults(bs: seq<Bucket>, ideal: nat) {
    ideal > 0 && forall b :: 0 <= b < |bs| ==> bs[b].mult == if bs[b].count > ideal then bs[b].count / ideal else 0
  }

  /** `n` empty chains. */
  ghost function Empties(n: nat): (cs: seq<seq<Item>>)
    ensures |cs| == n && forall b :: 0 <= b < n ==> cs[b] == []
  {
    seq(n, _ => [])
  }

  lemma Fresh(bs: seq<Bucket>, cs: seq<seq<Item>>, ideal: nat)
    requires |bs| == |cs| && ideal > 0 && forall b :: 0 <= b < |bs| ==> bs[b] == Bucket(null, 0, 0) && cs[b] == []
    ensures Headed(bs, cs) && Mults(bs, ideal) && Excess(cs, ideal) == 0
  {
    ExcessEmpty(cs, ideal, |cs|);
  }

  /** The buckets `bs`, 2^log2 of them, hold exactly the items `its` in the chains `cs`. */
  ghost predicate Filed(h: Links, f: (Key, nat) -> nat, its: set<Item>, bs: seq<Bucket>, cs: seq<seq<Item>>,
      log2: nat) {
    && |cs| == Pow2(log2) && Headed(bs, cs) && Chains(h, f, cs) && Covered(its, f, cs)
  }

  lemma NoItems(h: Links, f: (Key, nat) -> nat, bs: seq<Bucket>, cs: seq<seq<Item>>)
    requires |bs| == |cs| == 32 && forall b :: 0 <= b < |bs| ==> bs[b] == Bucket(null, 0, 0) && cs[b] == []
    ensures Filed(h, f, {}, bs, cs, INITIAL_LOG2)
  {
    forall b | 0 <= b < |cs| ensures ChainOk(h, f, |cs|, cs[b], b) { }
  }

  /** Half way through an expansion: the counts of the new buckets. */
  ghost predicate Counts(nb: seq<Bucket>, cs: seq<seq<Item>>, ideal: nat, nonideal: nat) {
    |nb| == |cs| && Headed(nb, cs) && Mults(nb, ideal) && nonideal == Excess(cs, ideal)
  }

  lemma CountsStep(nb: seq<Bucket>, cs: seq<seq<Item>>, ideal: nat, nonideal: nat, c: int, x: Item)
    requires Counts(nb, cs, ideal, nonideal) && 0 <= c < |cs|
    ensures var count := nb[c].count + 1; var over := count > ideal;
      Counts(nb[c := Bucket(x, count, if over then count / ideal else nb[c].mult)], cs[c := [x] + cs[c]],
             ideal, nonideal + if over then 1 else 0)
  {
    ExcessUpdate(cs, ideal, c, [x] + cs[c], |cs|);
  }

  /** A chain of this length is due for expansion; buckets that are overfull anyway get `mult` times
      the capacity more. */
  predicate Crowded(length: nat, mult: nat) {
    length >= (mult + 1) * 10
  }

  /** `s` is what the array holds. */
  ghost predicate Mirrors(a: array<Bucket>, s: seq<Bucket>)
    reads a
  {
    a.Length == |s| && forall i :: 0 <= i < |s| ==> a[i] == s[i]
  }

  /** The links once `x` is in front of the chain that starts with `first`. */
  ghost function Pushed(h: Links, x: Item, first: Item?): Links {
    var g := h[x := Link(null, first)];
    if first == null || first !in g then g else g[first := g[first].(prev := x)]
  }

  lemma FiledHook(h: Links, f: (Key, nat) -> nat, its: set<Item>, bs: seq<Bucket>, cs: seq<seq<Item>>, log2: nat,
      b: int, x: Item)
    returns (g: Bucket)
    requires Filed(h, f, its, bs, cs, log2) && 0 <= b < |cs| && b == f(x.key, |cs|) && x !in h
    ensures g == Bucket(x, bs[b].count + 1, bs[b].mult) && First(cs[b]) != x && (cs[b] != [] ==> cs[b][0] in h)
    ensures Filed(Pushed(h, x, First(cs[b])), f, its + {x}, bs[b := g], cs[b := [x] + cs[b]], log2)
  {
    g := Bucket(x, bs[b].count + 1, bs[b].mult);
    assert ChainOk(h, f, |cs|, cs[b], b) && (cs[b] != [] ==> LinkedAt(h, cs[b], 0));
    Hooked(h, Pushed(h, x, First(cs[b])), its, f, cs, b, x);
  }

  lemma FiledSizes(h: Links, f: (Key, nat) -> nat, its: set<Item>, bs: seq<Bucket>, cs: seq<seq<Item>>, log2: nat)
    requires Filed(h, f, its, bs, cs, log2)
    ensures |bs| == |cs|
  {
  }

  /** Where an item is filed. */
  lemma FiledAt(h: Links, f: (Key, nat) -> nat, its: set<Item>, bs: seq<Bucket>, cs: seq<seq<Item>>, log2: nat, x: Item)
    returns (k: int)
    requires Filed(h, f, its, bs, cs, log2) && x in its
    ensures var b := f(x.key, |cs|);
      && b < |cs| == |bs| && 0 <= k < |cs[b]| && cs[b][k] == x && LinkedAt(h, cs[b], k) && Distinct(cs[b])
      && (k > 0 ==> cs[b][k - 1] in h) && (k < |cs[b]| - 1 ==> cs[b][k + 1] in h)
      && bs[b].head == cs[b][0] && bs[b].count == |cs[b]|
  {
    k := InChain(h, its, f, cs, x);
  }

  lemma FiledWithout(h: Links, h': Links, f: (Key, nat) -> nat, its: set<Item>, bs: seq<Bucket>, cs: seq<seq<Item>>,
      log2: nat, b: int, k: int)
    requires Filed(h, f, its, bs, cs, log2) && 0 <= b < |cs| == |bs| && 0 <= k < |cs[b]| && Patched(h, h', cs[b], k)
    ensures var c := cs[b];
      Filed(h', f, its - {c[k]}, bs[b := Bucket(if k == 0 then After(c, k) else c[0], |c| - 1, bs[b].mult)],
        cs[b := Without(c, k)], log2)
  {
    hide Chains, Covered, Headed, Patched, Without, After;
    HeadedWithout(bs, cs, b, k);
    Unhooked(h, h', its, f, cs, b, k);
  }

  /** `x` is gone from chain `b`, and nothing else has changed. */
  ghost predicate Plucked(cs: seq<seq<Item>>, cs': seq<seq<Item>>, b: nat, x: Item) {
    b < |cs| && exists k :: 0 <= k < |cs[b]| && cs[b][k] == x && cs' == cs[b := Without(cs[b], k)]
  }

  class Table {
    const hash: Key -> nat

    /** The bucket of a key among `n`: what HASH_TO_BKT makes of its hash. */
    ghost const slot: (Key, nat) -> nat

    var head: Item?
    var tail: Item?
    var buckets: array<Bucket>
    var numBuckets: nat
    var log2: nat
    var numItems: nat
    var ideal: nat
    var nonideal: nat
    var ineff: nat
    var noexpand: bool

    /** The items in the order they were added, the bucket chains, the items as a set, their links, and the buckets. */
    ghost var order: seq<Item>
    ghost var chains: seq<seq<Item>>
    ghost var items: set<Item>
    ghost var ord: Links
    ghost var hh: Links
    ghost var bs: seq<Bucket>

    ghost predicate Slotted() {
      forall k: Key, n: nat {:trigger ToBkt(hash(k), n)} :: n > 0 ==> slot(k, n) == ToBkt(hash(k), n)
    }

    /** HASH_TO_BKT. */
    method ToBucket(hashv: nat, num: nat, ghost key: Key, ghost log2: nat) returns (b: nat)
      requires Slotted() && hashv == hash(key) && num == Pow2(log2)
      ensures b == slot(key, num) < num
    {
      LowBits(hashv, log2);
      b := ToBkt(hashv, num);
    }

    lemma SlotBound(log2: nat)
      requires Slotted()
      ensures forall k :: slot(k, Pow2(log2)) < Pow2(log2)
    {
      forall k ensures slot(k, Pow2(log2)) < Pow2(log2) {
        LowBits(hash(k), log2);
        assert slot(k, Pow2(log2)) == ToBkt(hash(k), Pow2(log2));
      }
    }

    /** The ghost maps mirror the heap. */
    ghost predicate OrdTied()
      reads this`items, this`ord, items`prev, items`next
    {
      && (forall x :: x in items ==> x in ord && ord[x].prev == x.prev && ord[x].next == x.next)
      && forall x :: x in ord ==> x in items
    }

    ghost predicate HhTied(its: set<Item>)
      reads this`hh, its`hhPrev, its`hhNext, its`hashv
    {
      && (forall x :: x in its ==>
        x in hh && hh[x].prev == x.hhPrev && hh[x].next == x.hhNext && x.hashv == hash(x.key))
      && forall x :: x in hh ==> x in its
    }

    /** The application-order list holds exactly the items. */
    ghost predicate Listed()
      reads this`head, this`tail, this`order, this`items, this`ord, items`prev, items`next
    {
      && OrdTied() && head == First(order) && tail == Last(order) && Linked(ord, order)
      && forall x :: x in items ==> x in order
    }

    /** The buckets hold exactly the items `its`. */
    ghost predicate Bucketed(its: set<Item>)
      reads this`buckets, this`bs, this`numBuckets, this`log2, this`chains, this`hh, buckets, its`hhPrev, its`hhNext,
        its`hashv
    {
      && HhTied(its) && Mirrors(buckets, bs) && numBuckets == |chains| == Pow2(log2)
      && Filed(hh, slot, its, bs, chains, log2)
    }

    ghost predicate Valid()
      reads this, buckets, items
    {
      Listed() && Slotted() && (order != [] ==> numItems == |order| && Bucketed(items))
    }

    constructor (f: Key -> nat)
      ensures Valid() && order == [] && hash == f && fresh(buckets)
    {
      hash, slot := f, (k, n) => if n > 0 then ToBkt(f(k), n) else 0;
      head, tail, buckets, numItems := null, null, new Bucket[0], 0;
      order, chains, items, ord, hh, bs := [], [], {}, map[], map[], [];
    }

    // ----- expansion -----

    /** Puts `x` in front of the chain that starts with `first`. */
    method Push(x: Item, first: Item?, ghost its: set<Item>)
      requires HhTied(its) && (first != null ==> first in its && first != x) && items == its + {x}
      requires x.hashv == hash(x.key)
      modifies this`hh, items`hhPrev, items`hhNext
      ensures HhTied(items) && hh == Pushed(old(hh), x, first)
    {
      x.hhNext := first;
      x.hhPrev := null;
      if first != null {
        first.hhPrev := x;
      }
      hh := Pushed(hh, x, first);
    }

    /** Moves the first item of old chain `b` to its new chain, which starts with `first`. */
    method MoveLinks(thh: Item, first: Item?, ghost rest: seq<seq<Item>>, ghost cs: seq<seq<Item>>, ghost b: int,
        ghost c: int)
      requires HhTied(items) && Moving(hh, slot, rest, cs) && 0 <= b < |rest| && rest[b] != [] && thh == rest[b][0]
      requires c == slot(thh.key, |cs|) < |cs| && first == First(cs[c])
      modifies this`hh, items`hhPrev, items`hhNext
      ensures HhTied(items) && Moving(hh, slot, rest[b := rest[b][1..]], cs[c := [thh] + cs[c]])
    {
      ghost var h := hh;
      Front(h, slot, rest, cs, b, thh);
      Push(thh, first, items);
      Moved(h, hh, slot, rest, cs, b, c);
    }

    /** The counts that go with it. */
    method MoveCounts(thh: Item, nb: array<Bucket>, ghost ns: seq<Bucket>, ghost cs: seq<seq<Item>>, c: int)
      returns (ghost ns': seq<Bucket>)
      requires Mirrors(nb, ns) && Counts(ns, cs, ideal, nonideal) && 0 <= c < |cs|
      modifies this`nonideal, nb
      ensures Mirrors(nb, ns') && Counts(ns', cs[c := [thh] + cs[c]], ideal, nonideal)
    {
      CountsStep(ns, cs, ideal, nonideal, c, thh);
      var count := nb[c].count + 1;
      var mult := nb[c].mult;
      if count > ideal {
        nonideal := nonideal + 1;
        mult := count / ideal;
      }
      nb[c] := Bucket(thh, count, mult);
      ns' := ns[c := Bucket(thh, count, mult)];
    }

    /** Half way through an expansion from the chains `rest` to the new ones `cs`. */
    ghost predicate Expanding(nb: array<Bucket>, ns: seq<Bucket>, rest: seq<seq<Item>>, cs: seq<seq<Item>>)
      reads this`items, this`hh, this`ideal, this`nonideal, this`numBuckets, this`log2, nb, items`hhPrev, items`hhNext,
        items`hashv
    {
      && HhTied(items) && Moving(hh, slot, rest, cs) && Mirrors(nb, ns)
      && Counts(ns, cs, ideal, nonideal) && |cs| == numBuckets * 2 && numBuckets == Pow2(log2)
    }

    method MoveFront(thh: Item, nb: array<Bucket>, ghost ns: seq<Bucket>, ghost rest: seq<seq<Item>>,
        ghost cs: seq<seq<Item>>, ghost b: int)
      returns (next: Item?, ghost ns': seq<Bucket>, ghost rest': seq<seq<Item>>, ghost cs': seq<seq<Item>>)
      requires Slotted() && Expanding(nb, ns, rest, cs) && 0 <= b < |rest| && rest[b] != [] && thh == rest[b][0]
      modifies this`nonideal, this`hh, nb, items`hhPrev, items`hhNext
      ensures next == First(rest[b][1..]) && rest' == rest[b := rest[b][1..]] && Expanding(nb, ns', rest', cs')
    {
      hide Moving, Mults, Excess;
      Front(hh, slot, rest, cs, b, thh);
      next := thh.hhNext;
      var bkt := ToBucket(thh.hashv, numBuckets * 2, thh.key, log2 + 1);
      var first := nb[bkt].head;
      ns' := MoveCounts(thh, nb, ns, cs, bkt);
      MoveLinks(thh, first, rest, cs, b, bkt);
      rest', cs' := rest[b := rest[b][1..]], cs[bkt := [thh] + cs[bkt]];
    }

    /** Empties old chain `b`. */
    method Drain(b: nat, nb: array<Bucket>, ghost ns: seq<Bucket>, ghost rest: seq<seq<Item>>, ghost cs: seq<seq<Item>>)
      returns (ghost ns': seq<Bucket>, ghost rest': seq<seq<Item>>, ghost cs': seq<seq<Item>>)
      requires Slotted() && Expanding(nb, ns, rest, cs) && nb != buckets
      requires b < |rest| && b < buckets.Length && buckets[b].head == First(rest[b])
      modifies this`nonideal, this`hh, nb, items`hhPrev, items`hhNext
      ensures Expanding(nb, ns', rest', cs')
      ensures |rest'| == |rest| && rest'[b] == [] && forall i :: 0 <= i < |rest| && i != b ==> rest'[i] == rest[i]
    {
      ns', rest', cs' := ns, rest, cs;
      var thh := buckets[b].head;
      while thh != null
        invariant |rest'| == |rest| && thh == First(rest'[b]) && Expanding(nb, ns', rest', cs')
        invariant forall i :: 0 <= i < |rest| && i != b ==> rest'[i] == rest[i]
        decreases |rest'[b]|
      {
        thh, ns', rest', cs' := MoveFront(thh, nb, ns', rest', cs', b);
      }
    }

    /** Empties all old chains into the new buckets `nb`. */
    method Redistribute(nb: array<Bucket>, ghost ns: seq<Bucket>, ghost cs: seq<seq<Item>>)
      returns (ghost ns': seq<Bucket>, ghost rest: seq<seq<Item>>, ghost cs': seq<seq<Item>>)
      requires Slotted() && Expanding(nb, ns, chains, cs) && nb != buckets
      requires numBuckets == |chains| && Mirrors(buckets, bs) && Headed(bs, chains)
      modifies this`nonideal, this`hh, nb, items`hhPrev, items`hhNext
      ensures Expanding(nb, ns', rest, cs') && forall b :: 0 <= b < |rest| ==> rest[b] == []
    {
      ns', rest, cs' := ns, chains, cs;
      for i := 0 to numBuckets
        invariant |rest| == |chains| && Expanding(nb, ns', rest, cs')
        invariant forall b :: 0 <= b < |rest| ==> rest[b] == if b < i then [] else chains[b]
      {
        ns', rest, cs' := Drain(i, nb, ns', rest, cs');
      }
    }

    /** The new, empty buckets. */
    method Allocate(ghost cs: seq<seq<Item>>) returns (nb: array<Bucket>, ghost ns: seq<Bucket>)
      requires numItems > 0 && |cs| == numBuckets * 2 && forall b :: 0 <= b < |cs| ==> cs[b] == []
      modifies this`ideal, this`nonideal
      ensures Mirrors(nb, ns) && Counts(ns, cs, ideal, nonideal) && fresh(nb)
      ensures ideal == IdealMax(numItems, log2 + 1)
    {
      nb := new Bucket[2 * numBuckets](_ => Bucket(null, 0, 0));
      ns := seq(2 * numBuckets, _ => Bucket(null, 0, 0));
      IdealIsCeiling(numItems, log2 + 1);
      ideal := IdealMax(numItems, log2 + 1);
      nonideal := 0;
      Fresh(ns, cs, ideal);
    }

    method MoveAll() returns (nb: array<Bucket>, ghost ns: seq<Bucket>, ghost cs: seq<seq<Item>>)
      requires Slotted() && Bucketed(items) && numItems > 0
      modifies this`ideal, this`nonideal, this`hh, items`hhPrev, items`hhNext
      ensures HhTied(items) && fresh(nb) && Mirrors(nb, ns) && |cs| == numBuckets * 2
      ensures ideal == IdealMax(numItems, log2 + 1)
      ensures Filed(hh, slot, items, ns, cs, log2 + 1) && Mults(ns, ideal) && nonideal == Excess(cs, ideal)
    {
      hide Headed, Mults, Excess, Mirrors, Chains, Covered, Moving;
      cs := Empties(Pow2(log2 + 1));
      SlotBound(log2 + 1);
      Pow2Order(0, log2 + 1);
      MovingStarts(hh, items, slot, chains, cs);
      nb, ns := Allocate(cs);
      ghost var rest;
      ns, rest, cs := Redistribute(nb, ns, cs);
      MovingEnds(hh, items, slot, rest, cs);
    }

    method Install(nb: array<Bucket>, ghost ns: seq<Bucket>, ghost cs: seq<seq<Item>>)
      requires HhTied(items) && Mirrors(nb, ns) && |cs| == numBuckets * 2 && Filed(hh, slot, items, ns, cs, log2 + 1)
      modifies this`buckets, this`bs, this`numBuckets, this`log2, this`chains
      ensures Bucketed(items) && log2 == old(log2) + 1 && buckets == nb && bs == ns && chains == cs
    {
      numBuckets := numBuckets * 2;
      log2 := log2 + 1;
      buckets := nb;
      bs, chains := ns, cs;
    }

    /** Two doublings in a row that leave more than half of the items beyond the ideal length turn expansion off. */
    method Judge()
      modifies this`ineff, this`noexpand
      ensures ineff == (if nonideal > numItems / 2 then old(ineff) + 1 else 0)
      ensures noexpand == (old(noexpand) || ineff > 1)
    {
      ineff := if nonideal > numItems / 2 then ineff + 1 else 0;
      if ineff > 1 {
        noexpand := true;
      }
    }

    /** HASH_EXPAND_BUCKETS: doubles the buckets and redistributes the items. */
    method Expand()
      requires Slotted() && Bucketed(items) && numItems > 0
      modifies this`buckets, this`bs, this`numBuckets, this`log2, this`chains, this`ideal, this`nonideal, this`ineff,
        this`noexpand, this`hh
      modifies items`hhPrev, items`hhNext
      ensures Bucketed(items) && log2 == old(log2) + 1 && fresh(buckets)
      ensures ideal == IdealMax(numItems, log2) && nonideal == Excess(chains, ideal) && Mults(bs, ideal)
      ensures ineff == (if nonideal > numItems / 2 then old(ineff) + 1 else 0)
      ensures noexpand == (old(noexpand) || ineff > 1)
    {
      hide HhTied, Filed, Mirrors, Excess, Mults, IdealMax;
      var nb, ns, cs := MoveAll();
      Judge();
      Install(nb, ns, cs);
    }

    // ----- adding -----

    /** HASH_MAKE_TABLE. */
    method MakeTable()
      modifies this`buckets, this`bs, this`numBuckets, this`log2, this`numItems, this`chains, this`hh
      modifies this`ideal, this`nonideal, this`ineff, this`noexpand
      ensures Bucketed({}) && numItems == 0 && fresh(buckets) && Blank()
    {
      numItems, ideal, nonideal, ineff, noexpand := 0, 0, 0, 0, false;
      numBuckets, log2 := 32, INITIAL_LOG2;
      buckets := new Bucket[32](_ => Bucket(null, 0, 0));
      bs, chains, hh := seq(32, _ => Bucket(null, 0, 0)), Empties(32), map[];
      NoItems(hh, slot, bs, chains);
    }

    /** Puts `add` in front of its chain. */
    method HookIn(add: Item, bkt: nat, ghost its: set<Item>)
      requires Bucketed(its) && add !in its && items == its + {add}
      requires add.hashv == hash(add.key) && bkt == slot(add.key, numBuckets) < numBuckets
      modifies this`chains, this`bs, this`hh, buckets, items`hhPrev, items`hhNext
      ensures Bucketed(items) && chains == old(chains)[bkt := [add] + old(chains)[bkt]]
      ensures |bs| == |chains| == buckets.Length && bs[bkt].count == |chains[bkt]| && bs[bkt].mult == old(bs)[bkt].mult
    {
      hide Linked, Chains, Covered;
      var first := buckets[bkt].head;
      ghost var g := FiledHook(hh, slot, its, bs, chains, log2, bkt, add);
      bs, chains := bs[bkt := g], chains[bkt := [add] + chains[bkt]];
      buckets[bkt] := Bucket(add, buckets[bkt].count + 1, buckets[bkt].mult);
      Push(add, first, its);
    }

    /** The buckets are the same ones, and so is what the table knows about its shape. */
    twostate predicate Kept()
      reads this
    {
      && buckets == old(buckets) && ideal == old(ideal) && nonideal == old(nonideal)
      && ineff == old(ineff) && noexpand == old(noexpand)
    }

    /** There are twice as many buckets, and the table has judged the new chains. */
    twostate predicate Doubled()
      reads this
    {
      && log2 == old(log2) + 1 && ideal == IdealMax(numItems, log2) && nonideal == Excess(chains, ideal)
      && Mults(bs, ideal) && ineff == (if nonideal > numItems / 2 then old(ineff) + 1 else 0)
      && noexpand == (old(noexpand) || ineff > 1)
    }

    /** HASH_ADD_TO_BKT: the buckets are doubled exactly when the chain has become too long and expansion is not
        switched off. */
    method AddToBkt(add: Item, bkt: nat, ghost its: set<Item>)
      requires numItems > 0 && Slotted() && Bucketed(its) && add !in its && items == its + {add}
      requires add.hashv == hash(add.key) && bkt == slot(add.key, numBuckets) < numBuckets
      modifies this`buckets, this`bs, this`numBuckets, this`log2, this`chains
      modifies this`ideal, this`nonideal, this`ineff, this`noexpand, this`hh
      modifies buckets, items`hhPrev, items`hhNext
      ensures Bucketed(items)
      ensures if Crowded(1 + |old(chains)[bkt]|, old(bs)[bkt].mult) && !old(noexpand)
              then Doubled()
              else log2 == old(log2) && Kept() && chains == old(chains)[bkt := [add] + old(chains)[bkt]]
      ensures buckets == old(buckets) || fresh(buckets)
    {
      hide HhTied, Filed, IdealMax, Excess, Mults;
      HookIn(add, bkt, its);
      if buckets[bkt].count >= (buckets[bkt].mult + 1) * CAPACITY && !noexpand {
        Expand();
      }
    }

    /** Puts `add` at the end of the application order. */
    method Append(add: Item)
      requires Listed() && add !in items
      modifies this`head, this`tail, this`order, this`items, this`ord, items`next, add`prev, add`next
      ensures Listed() && order == old(order) + [add] && items == old(items) + {add}
    {
      hide Linked, Behind;
      ghost var h, s := ord, order;
      KnownIn(h, s);
      LinkLast(add);
      Lengthened(h, s, add);
      items, order := items + {add}, s + [add];
    }

    /** The links that put `add` behind the last item. */
    method LinkLast(add: Item)
      requires OrdTied() && head == First(order) && tail == Last(order) && add !in items
      requires order != [] ==> Last(order) in items
      modifies this`head, this`tail, this`ord, items`next, add`prev, add`next
      ensures ord == Behind(old(ord), order, add) && head == First(order + [add]) && tail == add
      ensures forall x :: x in items || x == add ==> x in ord && ord[x].prev == x.prev && ord[x].next == x.next
      ensures forall x :: x in ord ==> x in items || x == add
    {
      ghost var s := order;
      ord := Behind(ord, s, add);
      add.next := null;
      if head == null {
        head := add;
        add.prev := null;
      } else {
        tail.next := add;
        add.prev := tail;
      }
      tail := add;
    }

    /** A new table has 32 empty buckets and may expand. */
    ghost predicate Blank()
      reads this`log2, this`noexpand, this`ineff, this`chains, this`bs
    {
      && log2 == INITIAL_LOG2 && !noexpand && ineff == 0 && |chains| == |bs| == 32
      && forall b :: 0 <= b < 32 ==> chains[b] == [] && bs[b].mult == 0
    }

    /** Gets the table ready for an item that is about to be added. */
    method Open()
      requires Valid()
      modifies this`buckets, this`bs, this`numBuckets, this`log2, this`numItems, this`chains, this`hh
      modifies this`ideal, this`nonideal, this`ineff, this`noexpand
      ensures Bucketed(items) && numItems == |order| && (buckets == old(buckets) || fresh(buckets))
      ensures if order != [] then Kept() && log2 == old(log2) && chains == old(chains) && bs == old(bs) else Blank()
    {
      if head == null {
        assert items == {};
        MakeTable();
      }
    }

    method Enlist(add: Item)
      requires Listed() && numItems == |order| && add !in items
      modifies this`head, this`tail, this`order, this`items, this`ord, this`numItems, items`next, add`prev, add`next,
        add`hashv
      ensures Listed() && order == old(order) + [add] && items == old(items) + {add} && numItems == |order|
      ensures add.hashv == hash(add.key)
    {
      numItems := numItems + 1;
      add.hashv := hash(add.key);
      Append(add);
    }

    method Start(add: Item)
      requires Valid() && add !in items
      modifies this, items`next, add`prev, add`next, add`hashv
      ensures Listed() && order == old(order) + [add] && items == old(items) + {add} && numItems == |order|
      ensures Bucketed(old(items)) && add.hashv == hash(add.key) && (buckets == old(buckets) || fresh(buckets))
      ensures if old(order) != [] then Kept() && log2 == old(log2) && chains == old(chains) && bs == old(bs)
        else Blank()
    {
      hide Linked, OrdTied, Filed, HhTied, Mirrors, Blank;
      Open();
      Enlist(add);
    }

    /** HASH_ADD_KEYPTR. */
    method Add(add: Item)
      requires Valid() && add !in items
      modifies this, buckets, items, add
      ensures Valid() && order == old(order) + [add] && items == old(items) + {add}
      ensures buckets == old(buckets) || fresh(buckets)
      ensures old(order) != [] ==> var b := slot(add.key, |old(chains)|);
        b < |old(chains)| && b < |old(bs)| &&
        if Crowded(1 + |old(chains)[b]|, old(bs)[b].mult) && !old(noexpand) then Doubled()
        else log2 == old(log2) && Kept() && chains == old(chains)[b := [add] + old(chains)[b]]
    {
      hide Linked, OrdTied, HhTied, Mirrors, Filed, IdealMax, Excess, Mults;
      Start(add);
      FiledSizes(hh, slot, old(items), bs, chains, log2);
      var bkt := ToBucket(add.hashv, numBuckets, add.key, log2);
      AddToBkt(add, bkt, old(items));
    }

    // ----- deleting -----

    /** The links that take `del` out of the application order, which keeps at least one other item. */
    method PatchOrder(del: Item, ghost k: int)
      requires OrdTied() && head == First(order) && tail == Last(order) && Linked(ord, order) && |order| > 1
      requires 0 <= k < |order| && order[k] == del
      modifies this`head, this`tail, items`prev, items`next
      ensures forall x :: x in items ==> x.prev == (if x == After(order, k) then Before(order, k) else old(x.prev))
      ensures forall x :: x in items ==> x.next == (if x == Before(order, k) then After(order, k) else old(x.next))
      ensures head == (if k == 0 then After(order, k) else order[0])
      ensures tail == (if k == |order| - 1 then Before(order, k) else order[|order| - 1])
    {
      ghost var h, s := ord, order;
      assert LinkedAt(h, s, k) && (k > 0 ==> LinkedAt(h, s, k - 1)) && (k < |s| - 1 ==> LinkedAt(h, s, k + 1));
      if del == tail {
        tail := del.prev;
      }
      if del.prev != null {
        del.prev.next := del.next;
      } else {
        head := del.next;
      }
      if del.next != null {
        del.next.prev := del.prev;
      }
    }

    method UnlinkOrder(del: Item, ghost k: int)
      requires Listed() && |order| > 1 && 0 <= k < |order| && order[k] == del
      modifies this`head, this`tail, this`order, this`items, this`ord, items`prev, items`next
      ensures Listed() && order == Without(old(order), k) && items == old(items) - {del}
    {
      hide Linked, Without, First, Last, After, Before;
      ghost var h, s := ord, order;
      assert Distinct(s) by { KnownIn(h, s); }
      PatchOrder(del, k);
      items, order := items - {del}, Without(s, k);
      ord := map x | x in items :: Link(x.prev, x.next);
      UnlinkedBy(h, ord, s, k);
      WithoutHas(s, k);
      WithoutEnds(s, k);
    }

    /** The links that take `del` out of its chain `c`. */
    method PatchChain(del: Item, ghost c: seq<Item>, ghost k: int, ghost its: set<Item>)
      requires HhTied(its) && del in its && 0 <= k < |c| && c[k] == del && LinkedAt(hh, c, k) && Distinct(c)
      requires items == its - {del}
      requires (k > 0 ==> c[k - 1] in hh) && (k < |c| - 1 ==> c[k + 1] in hh)
      modifies this`hh, its`hhPrev, its`hhNext
      ensures HhTied(items) && Patched(old(hh), hh, c, k)
    {
      if del.hhPrev != null {
        del.hhPrev.hhNext := del.hhNext;
      }
      if del.hhNext != null {
        del.hhNext.hhPrev := del.hhPrev;
      }
      hh := map x | x in items :: Link(x.hhPrev, x.hhNext);
    }

    /** The first item of chain `c` once `del`, at place `k` of it, is gone. */
    method HeadWithout(del: Item, first: Item?, ghost c: seq<Item>, ghost k: int, ghost its: set<Item>)
      returns (head: Item?)
      requires 0 <= k < |c| && c[k] == del && HhTied(its) && del in its && LinkedAt(hh, c, k) && Distinct(c)
      requires first == c[0]
      ensures head == if k == 0 then After(c, k) else c[0]
    {
      head := if first == del then del.hhNext else first;
    }

    /** HASH_DEL_IN_BKT. */
    method DelInBkt(del: Item, bkt: nat, ghost its: set<Item>)
      requires Bucketed(its) && del in its && items == its - {del} && bkt == slot(del.key, numBuckets)
      modifies this`chains, this`bs, this`hh, buckets, its`hhPrev, its`hhNext
      ensures Bucketed(items) && Plucked(old(chains), chains, bkt, del)
    {
      hide Filed, Patched, HhTied, Distinct, LinkedAt, After, Without;
      ghost var h, cs, ns := hh, chains, bs;
      ghost var k := FiledAt(h, slot, its, ns, cs, log2, del);
      var first := HeadWithout(del, buckets[bkt].head, cs[bkt], k, its);
      var b := Bucket(first, buckets[bkt].count - 1, buckets[bkt].mult);
      bs, chains := ns[bkt := b], cs[bkt := Without(cs[bkt], k)];
      buckets[bkt] := b;
      PatchChain(del, cs[bkt], k, its);
      FiledWithout(h, hh, slot, its, ns, cs, log2, bkt, k);
    }

    lemma Single(del: Item, k: int)
      requires Listed() && 0 <= k < |order| && order[k] == del
      ensures (del.prev == null && del.next == null <==> |order| == 1)
      ensures |order| == 1 ==> Without(order, k) == [] && items == {del}
      ensures del in items
    {
      Alone(ord, order, k);
    }

    /** The last item goes, and the table with it. */
    method Clear()
      modifies this`head, this`tail, this`items, this`order, this`ord
      ensures Listed() && order == [] && items == {}
    {
      head, tail, items, order, ord := null, null, {}, [], map[];
    }

    lemma Hashed(x: Item)
      requires HhTied(items) && x in items
      ensures x.hashv == hash(x.key)
    {
    }

    /** The case of HASH_DELETE that leaves other items. */
    method Drop(del: Item, ghost k: int)
      requires Listed() && Slotted() && Bucketed(items) && numItems == |order| > 1 && 0 <= k < |order|
      requires order[k] == del && del in items && del.hashv == hash(del.key)
      modifies this`head, this`tail, this`order, this`items, this`ord, this`hh, this`bs, this`chains, this`numItems,
        buckets
      modifies items`prev, items`next, items`hhPrev, items`hhNext
      ensures Listed() && Bucketed(items) && numItems == |order|
      ensures order == Without(old(order), k) && items == old(items) - {del}
      ensures Plucked(old(chains), chains, slot(del.key, |old(chains)|), del)
    {
      hide Filed, Mirrors, Linked, OrdTied, HhTied, Plucked;
      ghost var its := items;
      numItems := numItems - 1;
      UnlinkOrder(del, k);
      var bkt := ToBucket(del.hashv, numBuckets, del.key, log2);
      DelInBkt(del, bkt, its);
    }

    /** HASH_DELETE; `k` is where `del` stood in the application order. */
    method Delete(del: Item) returns (ghost k: int)
      requires Valid() && del in items
      modifies this, buckets, items
      ensures Valid() && 0 <= k < |old(order)| && old(order)[k] == del && order == Without(old(order), k)
      ensures items == old(items) - {del} && buckets == old(buckets)
      ensures order != [] ==>
        Kept() && log2 == old(log2) && Plucked(old(chains), chains, slot(del.key, |old(chains)|), del)
    {
      hide Filed, Plucked, Linked, HhTied, OrdTied, Mirrors, Without;
      k :| 0 <= k < |order| && order[k] == del;
      Single(del, k);
      Hashed(del);
      if del.prev == null && del.next == null {
        Clear();
      } else {
        Drop(del, k);
      }
    }

    // ----- finding and checking -----

    /** HASH_FIND_IN_BKT on chain `c`. */
    method FindInBkt(first: Item?, key: Key, ghost c: seq<Item>) returns (out: Item?)
      requires HhTied(items) && first == First(c) && Linked(hh, c)
      ensures if out == null then forall x :: x in c ==> x.key != key else out in c && out.key == key
    {
      out := first;
      ghost var k := 0;
      while out != null
        invariant 0 <= k <= |c| && out == (if k < |c| then c[k] else null)
        invariant forall j :: 0 <= j < k ==> c[j].key != key
        decreases |c| - k
      {
        if |out.key| == |key| && out.key == key {
          break;
        }
        assert LinkedAt(hh, c, k);
        out := out.hhNext;
        k := k + 1;
      }
    }

    /** HASH_FIND agrees with a search through all items, whatever the hash function. */
    method Find(key: Key) returns (out: Item?)
      requires Valid()
      ensures if out == null then forall x :: x in order ==> x.key != key else out in order && out.key == key
      ensures UniqueKeys(order) ==> out == LinearSearch(order, key)
    {
      out := null;
      if head != null {
        var bkt := ToBucket(hash(key), numBuckets, key, log2);
        assert ChainOk(hh, slot, |chains|, chains[bkt], bkt);
        out := FindInBkt(buckets[bkt].head, key, chains[bkt]);
        Answer(key, bkt, out);
      }
      if UniqueKeys(order) {
        LinearFinds(order, key, out);
      }
    }

    /** What the right chain has of a key is what the whole table has. */
    lemma Answer(key: Key, b: nat, out: Item?)
      requires Valid() && order != [] && b == slot(key, numBuckets) < |chains|
      requires if out == null then forall x :: x in chains[b] ==> x.key != key else out in chains[b] && out.key == key
      ensures if out == null then forall x :: x in order ==> x.key != key else out in order
    {
      forall i | 0 <= i < |order| ensures order[i] in items { assert LinkedAt(ord, order, i); }
      assert ChainOk(hh, slot, |chains|, chains[b], b);
      if out != null {
        var k :| 0 <= k < |chains[b]| && chains[b][k] == out;
        assert LinkedAt(hh, chains[b], k);
      }
    }

    /** The chain that starts at `first` is `c`, as far as its next links go. */
    ghost predicate Walks(first: Item?, c: seq<Item>)
      reads c
    {
      first == First(c) && forall i :: 0 <= i < |c| ==> NextIs(c, i)
    }

    ghost predicate NextIs(c: seq<Item>, i: int)
      reads c
    {
      0 <= i < |c| && c[i].hhNext == if i + 1 < |c| then c[i + 1] else null
    }

    ghost predicate PrevIs(c: seq<Item>, i: int)
      reads c
    {
      0 <= i < |c| && c[i].hhPrev == if i > 0 then c[i - 1] else null
    }

    /** The back links and the count of the chain are right. */
    ghost predicate ChainSound(b: Bucket, c: seq<Item>)
      reads c
    {
      b.count == |c| && forall i :: 0 <= i < |c| ==> PrevIs(c, i)
    }

    /** The checks HASH_FSCK makes of one chain: false exactly if one of its messages would be printed. */
    method FsckChain(b: nat, ghost c: seq<Item>) returns (ok: bool, count: nat)
      requires b < buckets.Length && Walks(buckets[b].head, c)
      ensures count == |c| && (ok <==> ChainSound(buckets[b], c))
    {
      ok, count := true, 0;
      var thh := buckets[b].head;
      var prev: Item? := null;
      while thh != null
        invariant 0 <= count <= |c| && thh == (if count < |c| then c[count] else null)
        invariant prev == (if count == 0 then null else c[count - 1])
        invariant ok <==> forall i :: 0 <= i < count ==> PrevIs(c, i)
        decreases |c| - count
      {
        assert NextIs(c, count) && (prev == thh.hhPrev <==> PrevIs(c, count));
        if prev != thh.hhPrev {
          ok := false;
        }
        count := count + 1;
        prev := thh;
        thh := thh.hhNext;
      }
      if buckets[b].count != count {
        ok := false;
      }
    }

    lemma AllCounted()
      requires Valid() && order != []
      ensures ExcessTo(chains, 0, numBuckets) == numItems
    {
      ChainsCount(hh, slot, items, chains, numBuckets);
      DistinctSize(order);
      forall i | 0 <= i < |order| ensures order[i] in items { assert LinkedAt(ord, order, i); }
      assert items == set x | x in order;
      assert Below(slot, items, |chains|, numBuckets) == items;
    }

    /** The application order is `o`, as far as its next links go, and its back links are right. */
    ghost predicate WalksOrder(o: seq<Item>)
      reads this`head, o
    {
      head == First(o) && forall i :: 0 <= i < |o| ==> OrderNextIs(o, i)
    }

    ghost predicate OrderNextIs(o: seq<Item>, i: int)
      reads o
    {
      0 <= i < |o| && o[i].next == if i + 1 < |o| then o[i + 1] else null
    }

    ghost predicate OrderPrevIs(o: seq<Item>, i: int)
      reads o
    {
      0 <= i < |o| && o[i].prev == if i > 0 then o[i - 1] else null
    }

    ghost predicate OrderSound(o: seq<Item>)
      reads o
    {
      forall i :: 0 <= i < |o| ==> OrderPrevIs(o, i)
    }

    /** HASH_FSCK passes exactly the tables with right back links and counts, whose chains have as many items as the
        application order and the table's count. */
    method Fsck(ghost cs: seq<seq<Item>>, ghost o: seq<Item>) returns (ok: bool)
      requires head != null ==> numBuckets == buckets.Length == |cs| && WalksOrder(o)
      requires head != null ==> forall b :: 0 <= b < |cs| ==> Walks(buckets[b].head, cs[b])
      ensures head == null ==> ok
      ensures head != null ==>
        (ok <==> (forall b :: 0 <= b < |cs| ==> ChainSound(buckets[b], cs[b])) && OrderSound(o)
                 && ExcessTo(cs, 0, |cs|) == numItems == |o|)
    {
      hide Walks, ChainSound, OrderSound, WalksOrder;
      ok := true;
      if head != null {
        var count := 0;
        for b := 0 to numBuckets
          invariant count == ExcessTo(cs, 0, b)
          invariant ok <==> forall a :: 0 <= a < b ==> ChainSound(buckets[a], cs[a])
        {
          var good, n := FsckChain(b, cs[b]);
          ok := ok && good;
          count := count + n;
        }
        if count != numItems {
          ok := false;
        }
        var listed := FsckOrder(o);
        ok := ok && listed;
      }
    }

    method FsckOrder(ghost o: seq<Item>) returns (ok: bool)
      requires WalksOrder(o)
      ensures ok <==> OrderSound(o) && numItems == |o|
    {
      ok := true;
      var count, prev: Item?, thh := 0, null, head;
      while thh != null
        invariant 0 <= count <= |o| && thh == (if count < |o| then o[count] else null)
        invariant prev == (if count == 0 then null else o[count - 1])
        invariant ok <==> forall i :: 0 <= i < count ==> OrderPrevIs(o, i)
        decreases |o| - count
      {
        assert OrderNextIs(o, count) && (prev == thh.prev <==> OrderPrevIs(o, count));
        if prev != thh.prev {
          ok := false;
        }
        count := count + 1;
        prev := thh;
        thh := thh.next;
      }
      if count != numItems {
        ok := false;
      }
    }

    /** Every table that the operations leave passes. */
    method FsckValid() returns (ok: bool)
      requires Valid()
      ensures ok
    {
      hide Filed, Linked, HhTied, OrdTied;
      if head != null {
        AllCounted();
        OrderWalks();
        ChainsWalk();
      }
      ok := Fsck(chains, order);
    }

    lemma OrderWalks()
      requires Listed()
      ensures WalksOrder(order) && OrderSound(order)
    {
      forall i | 0 <= i < |order| ensures OrderNextIs(order, i) && OrderPrevIs(order, i) {
        assert LinkedAt(ord, order, i);
      }
    }

    lemma ChainsWalk()
      requires Bucketed(items)
      ensures numBuckets == buckets.Length == |chains|
      ensures forall b :: 0 <= b < |chains| ==> Walks(buckets[b].head, chains[b]) && ChainSound(buckets[b], chains[b])
    {
      forall b | 0 <= b < |chains| ensures Walks(buckets[b].head, chains[b]) && ChainSound(buckets[b], chains[b]) {
        ChainWalks(b);
      }
    }

    lemma ChainWalks(b: nat)
      requires Bucketed(items) && b < |chains|
      ensures buckets.Length == |chains| && Walks(buckets[b].head, chains[b]) && ChainSound(buckets[b], chains[b])
    {
      var c := chains[b];
      assert ChainOk(hh, slot, |chains|, c, b);
      forall i | 0 <= i < |c| ensures NextIs(c, i) && PrevIs(c, i) { assert LinkedAt(hh, c, i); }
    }
  }
}
