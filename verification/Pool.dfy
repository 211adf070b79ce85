/** The invariant shared by the malloc pool and the kernel address space: the bytes of a label in the region
    list and the blocks handed out partition a word-aligned space. */
module Pool {
  import opened Range
  import opened RangeList
  import opened RangeMap
  import opened Align
  import opened Allocator

  ghost predicate LiveHas(live: set<Region>, x: int) {
    exists b :: b in live && Covers(b, x)
  }

  ghost predicate Disjoint(a: Region, b: Region) {
    End(a) <= b.address || End(b) <= a.address
  }

  /** Bytes of one word are in the space together. */
  ghost predicate WholeWords(space: iset<int>) {
    forall x, y :: x / 4 == y / 4 ==> (x in space <==> y in space)
  }

  /** `l` holds the free bytes of `space` under the label `f`; `live` are the blocks handed out. */
  ghost predicate Inv(l: seq<Region>, f: nat, live: set<Region>, space: iset<int>) {
    && Wf(l) && WholeWords(space) && 0 !in space
    && (forall b :: b in live ==> Good(b) && b.flags == f && b.address % 4 == 0)
    && (forall a, b :: a in live && b in live && a != b ==> Disjoint(a, b))
    && (forall x :: x in space <==> Has(l, x, f) || LiveHas(live, x))
    && (forall x :: !(Has(l, x, f) && LiveHas(live, x)))
    && (forall x, g :: Has(l, x, g) && g != f ==> x !in space)
  }

  lemma InvWf(l: seq<Region>, f: nat, live: set<Region>, space: iset<int>)
    requires Inv(l, f, live, space)
    ensures Wf(l) && Sorted(l) && 0 !in space && forall x :: Has(l, x, f) ==> x in space && x != 0
  {
    WfSorted(l);
  }

  lemma LiveGood(l: seq<Region>, f: nat, live: set<Region>, space: iset<int>, b: Region)
    requires Inv(l, f, live, space) && b in live
    ensures Good(b) && b.flags == f && b.address % 4 == 0 && b.address > 0 && forall x :: Covers(b, x) ==> x in space
  {
    forall x | Covers(b, x) ensures x in space { assert LiveHas(live, x); }
  }

  /** A free byte that does not end its word is followed by a free byte. */
  lemma NextFree(l: seq<Region>, f: nat, live: set<Region>, space: iset<int>, x: int)
    requires Inv(l, f, live, space)
    ensures Has(l, x, f) && (x + 1) % 4 != 0 ==> Has(l, x + 1, f)
  {
    if Has(l, x, f) && (x + 1) % 4 != 0 {
      assert x / 4 == (x + 1) / 4;
      assert x in space && x + 1 in space;
      forall b | b in live ensures Covers(b, x + 1) ==> Covers(b, x) { assert b.address % 4 == 0; }
    }
  }

  /** The first byte past a region of a well-formed list does not carry its label. */
  lemma {:induction false} GapAfter(l: seq<Region>, i: nat)
    requires Wf(l) && i < |l|
    ensures !Has(l, End(l[i]), l[i].flags)
  {
    if i == 0 { FirstGap(l); }
    else {
      GapAfter(l[1..], i - 1);
      WfSorted(l);
    }
  }

  /** Every free region of the pool ends on a word boundary, so the allocator's subtraction never wraps. */
  lemma EndsAligned(l: seq<Region>, f: nat, live: set<Region>, space: iset<int>, i: nat)
    requires Inv(l, f, live, space) && i < |l| && l[i].flags == f
    ensures End(l[i]) % 4 == 0 && !Overshoots(l[i], 4)
  {
    WfSorted(l);
    var e := End(l[i]);
    HasAt(l, i, e - 1);
    GapAfter(l, i);
    NextFree(l, f, live, space, e - 1);
    RoundUpLeast(l[i].address, 4, e);
  }

  /** A contiguous run of one label lies in one region. */
  lemma {:induction false} RunInOne(l: seq<Region>, f: nat, a: nat, b: nat) returns (i: nat)
    requires Wf(l) && a < b && forall x :: a <= x < b ==> Has(l, x, f)
    ensures i < |l| && l[i].flags == f && l[i].address <= a && b <= End(l[i])
  {
    assert Has(l, a, f);
    FirstGap(l);
    if a < End(l[0]) {
      i := 0;
      var e := End(l[0]);
      assert !Has(l, e, f);
    } else {
      forall x | a <= x < b ensures Has(l[1..], x, f) { TailBytes(l, x, f); }
      i := RunInOne(l[1..], f, a, b);
      i := i + 1;
    }
  }

  // ----- the three moves -----

  ghost function Plus(space: iset<int>, r: Region): iset<int> {
    space + iset x | Covers(r, x)
  }

  /** Handing out an aligned piece of a free region. */
  lemma Take(l: seq<Region>, f: nat, live: set<Region>, space: iset<int>, i: nat, hole: Region)
    requires Inv(l, f, live, space) && i < |l| && l[i].flags == f && Good(hole) && Inside(hole, l[i])
    requires hole.address % 4 == 0
    ensures Inv(Carved(l, i, hole), f, live + {hole}, space)
    ensures hole !in live && forall b :: b in live ==> Disjoint(b, hole)
  {
    var m := Carved(l, i, hole);
    CarvedBytes(l, i, hole);
    forall b | b in live ensures Disjoint(b, hole) {
      var x := Max(b.address, hole.address);
      assert Covers(b, x) ==> LiveHas(live, x);
    }
    forall x ensures LiveHas(live + {hole}, x) <==> LiveHas(live, x) || Covers(hole, x) { LivePlus(live, hole, x); }
  }

  lemma LivePlus(live: set<Region>, b: Region, x: int)
    ensures LiveHas(live + {b}, x) <==> LiveHas(live, x) || Covers(b, x)
  {
    if LiveHas(live, x) { var c :| c in live && Covers(c, x); assert c in live + {b}; }
    if Covers(b, x) { assert b in live + {b}; }
  }

  /** Taking a block back. */
  lemma Give(l: seq<Region>, f: nat, live: set<Region>, space: iset<int>, b: Region)
    requires Inv(l, f, live, space) && b in live
    ensures Inv(Added(SameFlags, l, b), f, live - {b}, space)
  {
    var rest := live - {b};
    assert live == rest + {b};
    forall x ensures LiveHas(live, x) <==> LiveHas(rest, x) || Covers(b, x) { LivePlus(rest, b, x); }
    forall x, g | Has(l, x, g) ensures !Covers(b, x) { assert Covers(b, x) ==> LiveHas(live, x); }
    assert Spare(l, b, 0);
    AddUnion(l, b, 0);
    forall x, c | Covers(b, x) && c in rest ensures !Covers(c, x) { assert Disjoint(b, c); }
  }

  /** Adding a fresh word-aligned range to the space. */
  lemma Grow(l: seq<Region>, f: nat, live: set<Region>, space: iset<int>, r: Region)
    requires Inv(l, f, live, space) && Good(r) && r.flags == f && r.address > 0 && r.address % 4 == 0 && r.size % 4 == 0
    requires (forall x :: Covers(r, x) ==> x !in space) && (forall x, g :: Has(l, x, g) ==> !Covers(r, x))
    ensures Inv(Added(SameFlags, l, r), f, live, Plus(space, r))
  {
    assert Spare(l, r, 0);
    AddUnion(l, r, 0);
    WordsPlus(space, r);
  }

  lemma WordsPlus(space: iset<int>, r: Region)
    requires WholeWords(space) && r.address % 4 == 0 && r.size % 4 == 0
    ensures WholeWords(Plus(space, r))
  {
    forall x, y | x / 4 == y / 4 ensures Covers(r, x) <==> Covers(r, y) { }
  }

  /** Once a range of at least `size` bytes was added, a request for `size` cannot fail. */
  lemma GrownFits(l: seq<Region>, f: nat, live: set<Region>, space: iset<int>, r: Region, size: u32, flags: nat)
    requires Inv(l, f, live, space) && Good(r) && r.flags == f && r.address % 4 == 0 && 0 < size <= r.size
    requires forall x :: Covers(r, x) ==> Has(l, x, f)
    requires flags == f || flags == 0
    requires NoOvershoot(l, 4, flags)
    ensures FirstFit(l, size, 4, flags) < |l|
  {
    var i := RunInOne(l, f, r.address, End(r));
    assert IsPower(4) by { assert Pow2(2) == 4; }
    AllocFails(l, size, 4, flags);
    assert HoldsRun(l[i], size, 4, r.address);
  }

  /** In a pool the test is exact: a request succeeds if and only if some free range holds an
      aligned run of its size. */
  lemma RoomExact(l: seq<Region>, f: nat, live: set<Region>, space: iset<int>, size: u32)
    requires Inv(l, f, live, space) && size > 0 && forall i :: 0 <= i < |l| && f == 0 ==> l[i].flags == 0
    ensures FirstFit(l, size, 4, f) < |l| <==> RunSomewhere(l, size, 4, f)
  {
    assert IsPower(4) by { assert Pow2(2) == 4; }
    forall i | 0 <= i < |l| && Matches(l[i], f) ensures !Overshoots(l[i], 4) { EndsAligned(l, f, live, space, i); }
    InvWf(l, f, live, space);
    AllocExact(l, size, 4, f);
  }
}
