/** uthash seen as values: doubly linked lists of items in a snapshot of the heap, the bucket chains, and what moving an
    item between chains does to them. */
module HashShape {
  import opened Align

  type Key = seq<bv8>

  /** An element with its hash handle (UT_hash_handle): the application order and the bucket order. */
  class Item {
    const key: Key
    var prev: Item?
    var next: Item?
    var hhPrev: Item?
    var hhNext: Item?
    var hashv: nat

    constructor (k: Key)
      ensures key == k
    {
      key := k;
    }
  }

  datatype Link = Link(prev: Item?, next: Item?)

  type Links = map<Item, Link>

  function First(s: seq<Item>): Item? {
    if s == [] then null else s[0]
  }

  function Last(s: seq<Item>): Item? {
    if s == [] then null else s[|s| - 1]
  }

  ghost predicate Distinct(s: seq<Item>) {
    forall i, j :: 0 <= i < j < |s| ==> s[i] != s[j]
  }

  ghost predicate LinkedAt(h: Links, s: seq<Item>, i: int) {
    && 0 <= i < |s| && s[i] in h
    && h[s[i]].prev == (if i == 0 then null else s[i - 1])
    && h[s[i]].next == (if i == |s| - 1 then null else s[i + 1])
  }

  /** `s` is a NULL-terminated doubly linked list. */
  ghost predicate Linked(h: Links, s: seq<Item>) {
    Distinct(s) && forall i :: 0 <= i < |s| ==> LinkedAt(h, s, i)
  }

  lemma LinkedFrame(h: Links, h': Links, s: seq<Item>)
    requires Linked(h, s) && forall x :: x in s ==> x in h' && (x in h ==> h'[x] == h[x])
    ensures Linked(h', s)
  {
    forall i | 0 <= i < |s| ensures LinkedAt(h', s, i) { assert LinkedAt(h, s, i) && s[i] in s; }
  }

  lemma Prepended(h: Links, h': Links, x: Item, s: seq<Item>)
    requires Linked(h, s) && x !in s && x in h' && h'[x] == Link(null, First(s))
    requires forall i :: 0 <= i < |s| ==>
      s[i] in h' && (s[i] in h ==> h'[s[i]] == if i == 0 then h[s[i]].(prev := x) else h[s[i]])
    ensures Linked(h', [x] + s)
  {
    var u := [x] + s;
    forall i | 0 <= i < |u| ensures LinkedAt(h', u, i) { if i > 0 { assert LinkedAt(h, s, i - 1); } }
  }

  lemma Appended(h: Links, h': Links, x: Item, s: seq<Item>)
    requires Linked(h, s) && x !in s && x in h' && h'[x] == Link(Last(s), null)
    requires forall i :: 0 <= i < |s| ==>
      s[i] in h' && (s[i] in h ==> h'[s[i]] == if i == |s| - 1 then h[s[i]].(next := x) else h[s[i]])
    ensures Linked(h', s + [x])
  {
    var u := s + [x];
    forall i | 0 <= i < |u| ensures LinkedAt(h', u, i) { if i < |s| { assert LinkedAt(h, s, i); } }
  }

  ghost function Without(s: seq<Item>, k: int): seq<Item>
    requires 0 <= k < |s|
  {
    s[..k] + s[k + 1..]
  }

  ghost function Before(s: seq<Item>, k: int): Item?
    requires 0 <= k < |s|
  {
    if k == 0 then null else s[k - 1]
  }

  ghost function After(s: seq<Item>, k: int): Item?
    requires 0 <= k < |s|
  {
    if k == |s| - 1 then null else s[k + 1]
  }

  lemma Unlinked(h: Links, h': Links, s: seq<Item>, k: int)
    requires Linked(h, s) && 0 <= k < |s|
    requires forall i :: 0 <= i < |s| && i != k ==>
      && s[i] in h' && s[i] in h
      && h'[s[i]].prev == (if i == k + 1 then Before(s, k) else h[s[i]].prev)
      && h'[s[i]].next == (if i == k - 1 then After(s, k) else h[s[i]].next)
    ensures Linked(h', Without(s, k))
  {
    var u := Without(s, k);
    forall i | 0 <= i < |u| ensures LinkedAt(h', u, i) { assert LinkedAt(h, s, if i < k then i else i + 1); }
  }

  lemma WithoutHas(s: seq<Item>, k: int)
    requires Distinct(s) && 0 <= k < |s|
    ensures forall x :: x in Without(s, k) <==> x in s && x != s[k]
  {
    var u := Without(s, k);
    forall x | x in s && x != s[k] ensures x in u {
      var i :| 0 <= i < |s| && s[i] == x;
      assert x == u[if i < k then i else i - 1];
    }
  }

  /** Only the item of a list of one has no neighbour. */
  lemma Alone(h: Links, s: seq<Item>, k: int)
    requires Linked(h, s) && 0 <= k < |s|
    ensures LinkedAt(h, s, k) && (h[s[k]] == Link(null, null) <==> |s| == 1)
    ensures Linked(map[], []) && (|s| == 1 ==> Without(s, k) == [])
  {
  }

  // ----- buckets -----

  /** HASH_TO_BKT. */
  function ToBkt(hashv: nat, num: nat): nat
    requires num > 0
  {
    And(hashv, num - 1)
  }

  lemma {:induction false} LowBits(x: nat, k: nat)
    ensures Pow2(k) > 0 && And(x, Pow2(k) - 1) == x % Pow2(k)
    decreases k
  {
    if k == 0 {
      assert x % 1 == 0;
    } else {
      LowBits(x / 2, k - 1);
      DoubleMod(x, Pow2(k - 1));
      var mask := Pow2(k) - 1;
      assert mask / 2 == Pow2(k - 1) - 1 && mask % 2 == 1;
    }
  }

  /** A bucket (UT_hash_bucket). */
  datatype Bucket = Bucket(head: Item?, count: nat, mult: nat)

  /** One chain: linked, and only with items that hash to bucket `b` of `num`. */
  ghost predicate ChainOk(h: Links, f: (Key, nat) -> nat, num: nat, c: seq<Item>, b: int) {
    num > 0 && Linked(h, c) && forall x :: x in c ==> f(x.key, num) == b
  }

  ghost predicate Chains(h: Links, f: (Key, nat) -> nat, cs: seq<seq<Item>>) {
    forall b :: 0 <= b < |cs| ==> ChainOk(h, f, |cs|, cs[b], b)
  }

  ghost predicate Headed(bs: seq<Bucket>, cs: seq<seq<Item>>) {
    |bs| == |cs| && forall b :: 0 <= b < |cs| ==> bs[b].head == First(cs[b]) && bs[b].count == |cs[b]|
  }

  ghost predicate Covered(items: set<Item>, f: (Key, nat) -> nat, cs: seq<seq<Item>>) {
    |cs| > 0 && forall x :: x in items ==> f(x.key, |cs|) < |cs| && x in cs[f(x.key, |cs|)]
  }

  function Over(n: nat, m: nat): nat {
    if n > m then n - m else 0
  }

  /** How many items stand further than `m` down the first `n` chains, and down all of them. */
  ghost function ExcessTo(cs: seq<seq<Item>>, m: nat, n: nat): nat
    requires n <= |cs|
  {
    if n == 0 then 0 else ExcessTo(cs, m, n - 1) + Over(|cs[n - 1]|, m)
  }

  ghost function Excess(cs: seq<seq<Item>>, m: nat): nat {
    ExcessTo(cs, m, |cs|)
  }

  lemma {:induction false} ExcessUpdate(cs: seq<seq<Item>>, m: nat, b: int, c: seq<Item>, n: nat)
    requires 0 <= b < |cs| && n <= |cs|
    ensures ExcessTo(cs[b := c], m, n) == ExcessTo(cs, m, n) + if b < n then Over(|c|, m) - Over(|cs[b]|, m) else 0
  {
    if n > 0 { ExcessUpdate(cs, m, b, c, n - 1); }
  }

  lemma {:induction false} ExcessEmpty(cs: seq<seq<Item>>, m: nat, n: nat)
    requires n <= |cs| && forall b :: 0 <= b < |cs| ==> cs[b] == []
    ensures ExcessTo(cs, m, n) == 0
  {
    if n > 0 { ExcessEmpty(cs, m, n - 1); }
  }

  lemma {:induction false} DistinctSize(s: seq<Item>)
    requires Distinct(s)
    ensures |set x | x in s| == |s|
  {
    if s != [] {
      DistinctSize(s[1..]);
      TailSet(s);
    }
  }

  lemma TailSet(s: seq<Item>)
    requires s != [] && Distinct(s)
    ensures (set x | x in s) == (set x | x in s[1..]) + {s[0]} && s[0] !in s[1..]
  {
  }

  ghost function Below(f: (Key, nat) -> nat, its: set<Item>, num: nat, n: nat): set<Item> {
    set x | x in its && f(x.key, num) < n
  }

  lemma BelowStep(h: Links, f: (Key, nat) -> nat, its: set<Item>, cs: seq<seq<Item>>, n: nat)
    requires n < |cs| && ChainOk(h, f, |cs|, cs[n], n) && Covered(its, f, cs) && forall x :: x in h ==> x in its
    ensures |Below(f, its, |cs|, n + 1)| == |Below(f, its, |cs|, n)| + |cs[n]|
  {
    var c := cs[n];
    var low, here := Below(f, its, |cs|, n), set x | x in c;
    DistinctSize(c);
    forall i | 0 <= i < |c| ensures c[i] in its { assert LinkedAt(h, c, i); }
    assert Below(f, its, |cs|, n + 1) == low + here && low !! here;
  }

  /** The chains together hold as many items as the table: none twice and none missing. */
  lemma {:induction false} ChainsCount(h: Links, f: (Key, nat) -> nat, its: set<Item>, cs: seq<seq<Item>>, n: nat)
    requires Chains(h, f, cs) && Covered(its, f, cs) && (forall x :: x in h ==> x in its) && n <= |cs|
    ensures ExcessTo(cs, 0, n) == |Below(f, its, |cs|, n)|
  {
    hide ChainOk, Covered;
    if n > 0 {
      ChainsCount(h, f, its, cs, n - 1);
      BelowStep(h, f, its, cs, n - 1);
    }
  }

  /** ideal_chain_maxlen as HASH_EXPAND_BUCKETS computes it, with a shift and a mask. */
  function IdealMax(n: nat, log2: nat): nat {
    LowBits(n, log2);
    n / Pow2(log2) + (if And(n, Pow2(log2) - 1) != 0 then 1 else 0)
  }

  /** It is n / 2^log2 rounded up, and so never 0 as long as there are items. */
  lemma IdealIsCeiling(n: nat, log2: nat)
    ensures n <= IdealMax(n, log2) * Pow2(log2) < n + Pow2(log2)
    ensures n > 0 ==> IdealMax(n, log2) > 0
  {
    LowBits(n, log2);
    Ceiling(n, Pow2(log2));
  }

  lemma Ceiling(n: nat, b: nat)
    requires b > 0
    ensures var m := n / b + if n % b != 0 then 1 else 0; n <= m * b < n + b && (n > 0 ==> m > 0)
  {
    var q, r := n / b, n % b;
    assert n == q * b + r && r < b;
    assert (q + 1) * b == q * b + b;
  }

  // ----- expansion -----

  ghost predicate NextAt(h: Links, s: seq<Item>, i: int) {
    0 <= i < |s| && s[i] in h && h[s[i]].next == After(s, i)
  }

  /** What is left of an old chain: only the next links still hold. */
  ghost predicate RestOk(h: Links, f: (Key, nat) -> nat, num: nat, c: seq<Item>, b: int) {
    && num > 0 && Distinct(c) && (forall i :: 0 <= i < |c| ==> NextAt(h, c, i))
    && forall x :: x in c ==> f(x.key, num) == b
  }

  /** Half way through an expansion: each item is either still in the old chains `rest` or already in the new ones. */
  ghost predicate Moving(h: Links, f: (Key, nat) -> nat, rest: seq<seq<Item>>, cs: seq<seq<Item>>) {
    && |rest| > 0 && |cs| > 0
    && (forall b :: 0 <= b < |rest| ==> RestOk(h, f, |rest|, rest[b], b))
    && Chains(h, f, cs)
    && forall x :: x in h ==> Sorted(f, rest, cs, x)
  }

  ghost predicate Sorted(f: (Key, nat) -> nat, rest: seq<seq<Item>>, cs: seq<seq<Item>>, x: Item)
    requires |rest| > 0 && |cs| > 0
  {
    var b, c := f(x.key, |rest|), f(x.key, |cs|);
    b < |rest| && c < |cs| && (x in rest[b] <==> x !in cs[c])
  }

  /** The first item left in an old chain, and the new chain it goes to. */
  lemma Front(h: Links, f: (Key, nat) -> nat, rest: seq<seq<Item>>, cs: seq<seq<Item>>, b: int, x: Item)
    requires Moving(h, f, rest, cs) && 0 <= b < |rest| && rest[b] != [] && x == rest[b][0]
    ensures x in h && h[x].next == First(rest[b][1..]) && f(x.key, |cs|) < |cs| && x !in cs[f(x.key, |cs|)]
    ensures First(cs[f(x.key, |cs|)]) != x
    ensures var c := cs[f(x.key, |cs|)]; c != [] ==> c[0] in h
  {
    assert RestOk(h, f, |rest|, rest[b], b) && NextAt(h, rest[b], 0) && Sorted(f, rest, cs, x);
    var k := f(x.key, |cs|);
    assert ChainOk(h, f, |cs|, cs[k], k) && (cs[k] != [] ==> LinkedAt(h, cs[k], 0));
  }

  lemma Moved(h: Links, h': Links, f: (Key, nat) -> nat, rest: seq<seq<Item>>, cs: seq<seq<Item>>, b: int, c: int)
    requires Moving(h, f, rest, cs) && 0 <= b < |rest| && rest[b] != [] && c == f(rest[b][0].key, |cs|) < |cs|
    requires forall y :: y in h <==> y in h'
    requires rest[b][0] in h' && h'[rest[b][0]] == Link(null, First(cs[c]))
    requires forall y :: y in h && y != rest[b][0] ==> h'[y] == if y == First(cs[c]) then h[y].(prev := rest[b][0])
      else h[y]
    ensures Moving(h', f, rest[b := rest[b][1..]], cs[c := [rest[b][0]] + cs[c]])
  {
    var x := rest[b][0];
    var rest', cs' := rest[b := rest[b][1..]], cs[c := [x] + cs[c]];
    assert NextAt(h, rest[b], 0);
    assert Sorted(f, rest, cs, x) && x in rest[b];
    forall i | 0 <= i < |rest'| ensures RestOk(h', f, |rest'|, rest'[i], i) { RestStep(h, h', f, |rest|, rest, b, i); }
    forall i | 0 <= i < |cs'| ensures ChainOk(h', f, |cs'|, cs'[i], i) { ChainStep(h, h', f, cs, c, x, i); }
    forall y | y in h' ensures Sorted(f, rest', cs', y) {
      assert Sorted(f, rest, cs, y);
      TailHas(rest[b], y);
    }
  }

  lemma TailHas(s: seq<Item>, y: Item)
    requires s != [] && Distinct(s)
    ensures y in s[1..] <==> y in s && y != s[0]
  {
    if y in s && y != s[0] {
      var i :| 0 <= i < |s| && s[i] == y;
      assert s[1..][i - 1] == y;
    }
  }

  lemma RestStep(h: Links, h': Links, f: (Key, nat) -> nat, num: nat, rest: seq<seq<Item>>, b: int, i: int)
    requires num == |rest| > 0 && 0 <= b < |rest| && 0 <= i < |rest| && rest[b] != []
    requires RestOk(h, f, num, rest[i], i) && RestOk(h, f, num, rest[b], b)
    requires forall y :: y in h && y != rest[b][0] ==> y in h' && h'[y].next == h[y].next
    ensures RestOk(h', f, num, rest[b := rest[b][1..]][i], i)
  {
    var c, x := rest[b := rest[b][1..]][i], rest[b][0];
    forall k | 0 <= k < |c| ensures NextAt(h', c, k) {
      assert NextAt(h, rest[i], if i == b then k + 1 else k);
      assert i != b ==> f(c[k].key, num) == i;
      assert x in rest[b];
    }
  }

  lemma ChainStep(h: Links, h': Links, f: (Key, nat) -> nat, cs: seq<seq<Item>>, c: int, x: Item, i: int)
    requires 0 <= c < |cs| && 0 <= i < |cs| && ChainOk(h, f, |cs|, cs[i], i) && f(x.key, |cs|) == c && x !in cs[c]
    requires x in h' && h'[x] == Link(null, First(cs[c]))
    requires forall y :: y in h && y != x ==> y in h' && h'[y] == if y == First(cs[c]) then h[y].(prev := x) else h[y]
    requires cs[c] != [] ==> f(cs[c][0].key, |cs|) == c
    ensures ChainOk(h', f, |cs|, cs[c := [x] + cs[c]][i], i)
  {
    forall k | 0 <= k < |cs[i]| ensures cs[i][k] in h && cs[i][k] != x && f(cs[i][k].key, |cs|) == i {
      assert LinkedAt(h, cs[i], k);
    }
    if i == c { Prepended(h, h', x, cs[i]); } else { LinkedFrame(h, h', cs[i]); }
  }

  lemma MovingStarts(h: Links, its: set<Item>, f: (Key, nat) -> nat, rest: seq<seq<Item>>, cs: seq<seq<Item>>)
    requires Chains(h, f, rest) && Covered(its, f, rest) && forall x :: x in h ==> x in its
    requires |cs| > 0 && (forall b :: 0 <= b < |cs| ==> cs[b] == []) && forall k :: f(k, |cs|) < |cs|
    ensures Moving(h, f, rest, cs)
  {
    forall b | 0 <= b < |rest| ensures RestOk(h, f, |rest|, rest[b], b) {
      assert ChainOk(h, f, |rest|, rest[b], b);
      forall i | 0 <= i < |rest[b]| ensures NextAt(h, rest[b], i) { assert LinkedAt(h, rest[b], i); }
    }
    forall x | x in h ensures Sorted(f, rest, cs, x) { }
  }

  lemma MovingEnds(h: Links, its: set<Item>, f: (Key, nat) -> nat, rest: seq<seq<Item>>, cs: seq<seq<Item>>)
    requires Moving(h, f, rest, cs) && (forall b :: 0 <= b < |rest| ==> rest[b] == [])
    requires forall x :: x in its ==> x in h
    ensures Chains(h, f, cs) && Covered(its, f, cs)
  {
    forall x | x in its ensures f(x.key, |cs|) < |cs| && x in cs[f(x.key, |cs|)] { assert Sorted(f, rest, cs, x); }
  }

  // ----- adding and deleting -----

  lemma Hooked(h: Links, h': Links, its: set<Item>, f: (Key, nat) -> nat, cs: seq<seq<Item>>, c: int, x: Item)
    requires Chains(h, f, cs) && Covered(its, f, cs) && 0 <= c < |cs| && c == f(x.key, |cs|) && x !in h
    requires x in h' && h'[x] == Link(null, First(cs[c]))
    requires forall y :: y in h && y != x ==> y in h' && h'[y] == if y == First(cs[c]) then h[y].(prev := x) else h[y]
    ensures Chains(h', f, cs[c := [x] + cs[c]]) && Covered(its + {x}, f, cs[c := [x] + cs[c]])
  {
    assert ChainOk(h, f, |cs|, cs[c], c);
    forall k | 0 <= k < |cs[c]| ensures cs[c][k] != x { assert LinkedAt(h, cs[c], k); }
    var cs' := cs[c := [x] + cs[c]];
    forall i | 0 <= i < |cs'| ensures ChainOk(h', f, |cs'|, cs'[i], i) { ChainStep(h, h', f, cs, c, x, i); }
  }

  /** Where an item stands in its chain. */
  lemma InChain(h: Links, its: set<Item>, f: (Key, nat) -> nat, cs: seq<seq<Item>>, x: Item) returns (k: int)
    requires Chains(h, f, cs) && Covered(its, f, cs) && x in its
    ensures var b := f(x.key, |cs|); b < |cs| && 0 <= k < |cs[b]| && cs[b][k] == x && LinkedAt(h, cs[b], k)
    ensures var c := cs[f(x.key, |cs|)]; (k > 0 ==> c[k - 1] in h) && (k < |c| - 1 ==> c[k + 1] in h) && Distinct(c)
  {
    var b := f(x.key, |cs|);
    k :| 0 <= k < |cs[b]| && cs[b][k] == x;
    assert ChainOk(h, f, |cs|, cs[b], b) && LinkedAt(h, cs[b], k);
    assert k > 0 ==> LinkedAt(h, cs[b], k - 1);
    assert k < |cs[b]| - 1 ==> LinkedAt(h, cs[b], k + 1);
  }

  ghost predicate Patched(h: Links, h': Links, s: seq<Item>, k: int) {
    0 <= k < |s| && forall y :: y in h && y != s[k] ==>
      && y in h'
      && h'[y].prev == (if y == After(s, k) then Before(s, k) else h[y].prev)
      && h'[y].next == (if y == Before(s, k) then After(s, k) else h[y].next)
  }

  lemma KnownIn(h: Links, s: seq<Item>)
    requires Linked(h, s)
    ensures Distinct(s) && forall x :: x in s ==> x in h
  {
    forall i | 0 <= i < |s| ensures s[i] in h { assert LinkedAt(h, s, i); }
  }

  /** The links once `x` is behind the last item. */
  ghost function Behind(h: Links, s: seq<Item>, x: Item): Links
    requires s != [] ==> s[|s| - 1] in h
  {
    (if s == [] then h else h[s[|s| - 1] := h[s[|s| - 1]].(next := x)])[x := Link(Last(s), null)]
  }

  lemma Lengthened(h: Links, s: seq<Item>, x: Item)
    requires Linked(h, s) && x !in s
    ensures (forall y :: y in s ==> y in h) && Linked(Behind(h, s, x), s + [x])
  {
    KnownIn(h, s);
    Appended(h, Behind(h, s, x), x, s);
  }

  lemma UnlinkedBy(h: Links, h': Links, s: seq<Item>, k: int)
    requires Linked(h, s) && Patched(h, h', s, k)
    ensures Linked(h', Without(s, k))
  {
    forall i | 0 <= i < |s| && i != k
      ensures s[i] in h && s[i] != s[k] && (s[i] == After(s, k) <==> i == k + 1)
      ensures s[i] == Before(s, k) <==> i == k - 1
    {
      assert LinkedAt(h, s, i);
    }
    Unlinked(h, h', s, k);
  }

  lemma WithoutEnds(s: seq<Item>, k: int)
    requires 0 <= k < |s|
    ensures First(Without(s, k)) == (if k == 0 then After(s, k) else s[0])
    ensures Last(Without(s, k)) == (if k == |s| - 1 then Before(s, k) else s[|s| - 1])
  {
  }

  lemma HeadedWithout(bs: seq<Bucket>, cs: seq<seq<Item>>, b: int, k: int)
    requires Headed(bs, cs) && 0 <= b < |cs| && 0 <= k < |cs[b]|
    ensures Headed(bs[b := Bucket(if k == 0 then After(cs[b], k) else cs[b][0], |cs[b]| - 1, bs[b].mult)],
      cs[b := Without(cs[b], k)])
  {
    WithoutEnds(cs[b], k);
  }

  lemma Unhooked(h: Links, h': Links, its: set<Item>, f: (Key, nat) -> nat, cs: seq<seq<Item>>, b: int, k: int)
    requires Chains(h, f, cs) && Covered(its, f, cs) && 0 <= b < |cs| && 0 <= k < |cs[b]| && Patched(h, h', cs[b], k)
    ensures Chains(h', f, cs[b := Without(cs[b], k)]) && Covered(its - {cs[b][k]}, f, cs[b := Without(cs[b], k)])
  {
    var cs' := cs[b := Without(cs[b], k)];
    assert ChainOk(h, f, |cs|, cs[b], b);
    WithoutHas(cs[b], k);
    forall i | 0 <= i < |cs'| ensures ChainOk(h', f, |cs'|, cs'[i], i) {
      assert ChainOk(h, f, |cs|, cs[i], i);
      if i == b { UnlinkedBy(h, h', cs[b], k); } else { OtherChain(h, h', f, cs, b, k, i); }
    }
  }

  lemma OtherChain(h: Links, h': Links, f: (Key, nat) -> nat, cs: seq<seq<Item>>, b: int, k: int, i: int)
    requires 0 <= b < |cs| && 0 <= i < |cs| && i != b && ChainOk(h, f, |cs|, cs[b], b) && ChainOk(h, f, |cs|, cs[i], i)
    requires 0 <= k < |cs[b]| && Patched(h, h', cs[b], k)
    ensures ChainOk(h', f, |cs|, cs[i], i)
  {
    forall j | 0 <= j < |cs[i]| ensures cs[i][j] in h && f(cs[i][j].key, |cs|) == i { assert LinkedAt(h, cs[i], j); }
    forall x | x in cs[b] ensures f(x.key, |cs|) == b { }
    assert cs[b][k] in cs[b] && (k > 0 ==> cs[b][k - 1] in cs[b]) && (k < |cs[b]| - 1 ==> cs[b][k + 1] in cs[b]);
    LinkedFrame(h, h', cs[i]);
  }

  // ----- linear search -----

  ghost predicate UniqueKeys(s: seq<Item>) {
    forall i, j :: 0 <= i < j < |s| ==> s[i].key != s[j].key
  }

  ghost function LinearSearch(s: seq<Item>, key: Key): Item? {
    if s == [] then null else if s[0].key == key then s[0] else LinearSearch(s[1..], key)
  }

  lemma {:induction false} LinearFinds(s: seq<Item>, key: Key, x: Item?)
    requires UniqueKeys(s) && if x == null then forall y :: y in s ==> y.key != key else x in s && x.key == key
    ensures LinearSearch(s, key) == x
  {
    if s != [] && s[0].key != key { LinearFinds(s[1..], key, x); }
  }
}
