/** Lists of memory ranges: what adding to and subtracting from them computes, and that the sorted,
    coalesced list of a set of labelled bytes is unique. */
module RangeList {
  import opened Range

  ghost predicate Good(r: Region) {
    InSpace(r) && r.size > 0
  }

  /** `a` lies below `b` and the two could not be one region. */
  ghost predicate Below(a: Region, b: Region) {
    End(a) < b.address || (End(a) == b.address && a.flags != b.flags)
  }

  /** Sorted, disjoint, without empty regions, and fully coalesced among equal flags. */
  ghost predicate Wf(l: seq<Region>) {
    l != [] ==> Good(l[0]) && (|l| > 1 ==> Below(l[0], l[1])) && Wf(l[1..])
  }

  /** The byte `x` is in the list with label `f`. */
  ghost predicate Has(l: seq<Region>, x: int, f: nat) {
    l != [] && ((l[0].flags == f && Covers(l[0], x)) || Has(l[1..], x, f))
  }

  ghost predicate SameBytes(l: seq<Region>, m: seq<Region>) {
    forall x, f :: Has(l, x, f) <==> Has(m, x, f)
  }

  lemma {:induction false} HasFrom(l: seq<Region>, x: int, f: nat)
    requires Wf(l) && Has(l, x, f)
    ensures l[0].address <= x < W
  {
    if !(l[0].flags == f && Covers(l[0], x)) { HasFrom(l[1..], x, f); }
  }

  lemma {:induction false} HasConcat(l: seq<Region>, m: seq<Region>, x: int, f: nat)
    ensures Has(l + m, x, f) <==> Has(l, x, f) || Has(m, x, f)
  {
    if l == [] { assert l + m == m; }
    else {
      HasConcat(l[1..], m, x, f);
      assert (l + m)[1..] == l[1..] + m;
    }
  }

  lemma {:induction false} WfConcat(l: seq<Region>, m: seq<Region>)
    ensures Wf(l + m) <==> Wf(l) && Wf(m) && (l != [] && m != [] ==> Below(l[|l| - 1], m[0]))
  {
    if l == [] { assert l + m == m; }
    else {
      WfConcat(l[1..], m);
      assert (l + m)[1..] == l[1..] + m;
    }
  }

  // ----- uniqueness -----

  /** The end of the first region is the first byte after its start that does not carry its label. */
  lemma FirstGap(l: seq<Region>)
    requires Wf(l) && l != []
    ensures forall x :: l[0].address <= x < End(l[0]) ==> Has(l, x, l[0].flags)
    ensures !Has(l, End(l[0]), l[0].flags)
    ensures forall x, f :: Has(l, x, f) ==> l[0].address <= x
    ensures forall x, f :: Has(l, x, f) && x < End(l[0]) ==> f == l[0].flags
  {
    forall x, f | Has(l[1..], x, f) ensures x >= l[1].address { HasFrom(l[1..], x, f); }
  }

  lemma {:induction false} Unique(l: seq<Region>, m: seq<Region>)
    requires Wf(l) && Wf(m) && SameBytes(l, m)
    ensures l == m
  {
    if l == [] {
      if m != [] { assert Has(m, m[0].address, m[0].flags); }
    } else if m == [] {
      assert Has(l, l[0].address, l[0].flags);
    } else {
      FirstGap(l);
      FirstGap(m);
      SameHead(l, m);
      forall x, f ensures Has(l[1..], x, f) <==> Has(m[1..], x, f) { TailBytes(l, x, f); TailBytes(m, x, f); }
      Unique(l[1..], m[1..]);
      assert l == [l[0]] + l[1..] && m == [m[0]] + m[1..];
    }
  }

  lemma SameHead(l: seq<Region>, m: seq<Region>)
    requires Wf(l) && Wf(m) && l != [] && m != [] && SameBytes(l, m)
    ensures l[0] == m[0]
  {
    FirstGap(l);
    FirstGap(m);
    assert Has(l, l[0].address, l[0].flags) && Has(m, m[0].address, m[0].flags);
    assert l[0].address == m[0].address && l[0].flags == m[0].flags;
    var el, em, f := End(l[0]), End(m[0]), l[0].flags;
    assert !Has(l, el, f) && !Has(m, em, f);
    assert el < em ==> Has(m, el, f);
    assert em < el ==> Has(l, em, f);
  }

  lemma TailBytes(l: seq<Region>, x: int, f: nat)
    requires Wf(l) && l != []
    ensures Has(l[1..], x, f) <==> Has(l, x, f) && x >= End(l[0])
  {
    if Has(l[1..], x, f) { HasFrom(l[1..], x, f); }
  }

  // ----- add -----

  /** The list that name##_add leaves: the region joins the first one it merges with, which may then
      join its successor, or it takes its place in the order. */
  function Added(p: Policy, l: seq<Region>, r: Region): seq<Region> {
    if l == [] then [r]
    else
      var m := Merge(p, l[0], r);
      if m.Some? then
        if |l| > 1 && Merge(p, l[1], m.value).Some? then [Merge(p, l[1], m.value).value] + l[2..]
        else [m.value] + l[1..]
      else if r.address < l[0].address then [r] + l
      else [l[0]] + Added(p, l[1..], r)
  }

  ghost predicate Apart(l: seq<Region>, r: Region) {
    forall x, f :: Has(l, x, f) ==> !Covers(r, x)
  }

  /** Some byte `z` would still not carry the label of `r`: the union is not the whole 32-bit space. */
  ghost predicate Spare(l: seq<Region>, r: Region, z: int) {
    0 <= z < W && !Covers(r, z) && !Has(l, z, r.flags)
  }

  ghost predicate AddsBytes(l: seq<Region>, m: seq<Region>, r: Region) {
    forall x, f :: Has(m, x, f) <==> Has(l, x, f) || (f == r.flags && Covers(r, x))
  }

  /** `m` starts no lower than `l` and `r` do, so it can follow whatever both can follow. */
  ghost predicate Succeeds(l: seq<Region>, r: Region, m: seq<Region>) {
    m != [] && forall p: Region :: Below(p, r) && (l != [] ==> Below(p, l[0])) ==> Below(p, m[0])
  }

  lemma HeadApart(l: seq<Region>, r: Region)
    requires Wf(l) && l != [] && Good(r) && Apart(l, r)
    ensures End(l[0]) <= r.address || End(r) <= l[0].address
    ensures Apart(l[1..], r)
  {
    var x := Max(l[0].address, r.address);
    assert Covers(l[0], x) ==> Has(l, x, l[0].flags);
    forall x, f | Has(l[1..], x, f) ensures !Covers(r, x) { assert Has(l, x, f); }
  }

  /** A region and one that touches it on the right but not in the list: no merge fills the space. */
  lemma NoFill(l: seq<Region>, r: Region, z: int, a: Region, b: Region)
    requires Spare(l, r, z) && InSpace(a) && InSpace(b) && a.flags == b.flags == r.flags
    requires forall x :: Covers(a, x) || Covers(b, x) ==> Has(l, x, r.flags) || Covers(r, x)
    ensures !FillSpace(a, b)
  {
    assert !Covers(a, z) && !Covers(b, z);
  }

  /** The byte sets of lists that differ in their first elements. */
  lemma HasCons(a: Region, l: seq<Region>, x: int, f: nat)
    ensures Has([a] + l, x, f) <==> (a.flags == f && Covers(a, x)) || Has(l, x, f)
  {
    assert ([a] + l)[1..] == l;
  }

  lemma WfCons(a: Region, l: seq<Region>)
    ensures Wf([a] + l) <==> Good(a) && Wf(l) && (l != [] ==> Below(a, l[0]))
  {
    assert ([a] + l)[1..] == l;
  }

  /** The region merges with the head and the result with nothing. */
  lemma AddMergedOne(l: seq<Region>, r: Region, m: Region)
    requires Wf(l) && l != [] && Good(r) && Apart(l, r)
    requires l[0].flags == r.flags && (End(l[0]) == r.address || End(r) == l[0].address)
    requires m.address == Min(l[0].address, r.address) && m.size == l[0].size + r.size && m.flags == r.flags
    requires |l| > 1 ==> !(l[1].flags == r.flags && Touch(l[1], m))
    ensures var n := [m] + l[1..]; Wf(n) && AddsBytes(l, n, r) && Succeeds(l, r, n)
  {
    HeadApart(l, r);
    if |l| > 1 { HeadApart(l[1..], r); }
    WfCons(m, l[1..]);
    forall x, f
      ensures Has([m] + l[1..], x, f) <==> Has(l, x, f) || (f == r.flags && Covers(r, x)) { HasCons(m, l[1..], x, f); }
  }

  /** The region closes the gap between the first two. */
  lemma AddMergedTwo(l: seq<Region>, r: Region, m: Region)
    requires Wf(l) && |l| > 1 && Good(r) && Apart(l, r)
    requires l[0].flags == l[1].flags == r.flags && End(l[0]) == r.address && End(r) == l[1].address
    requires End(l[1]) - l[0].address < W && m == Region(l[0].address, End(l[1]) - l[0].address, r.flags)
    ensures var n := [m] + l[2..]; Wf(n) && AddsBytes(l, n, r) && Succeeds(l, r, n)
  {
    assert l[1..][1..] == l[2..];
    WfCons(m, l[2..]);
    forall x, f
      ensures Has([m] + l[2..], x, f) <==> Has(l, x, f) || (f == r.flags && Covers(r, x)) { HasCons(m, l[2..], x, f); }
  }

  lemma AddMerged(l: seq<Region>, r: Region, m: Region, z: int)
    requires Wf(l) && l != [] && Good(r) && Apart(l, r) && Spare(l, r, z)
    requires l[0].flags == r.flags && (End(l[0]) == r.address || End(r) == l[0].address)
    requires m.address == Min(l[0].address, r.address) && m.size == l[0].size + r.size && m.flags == r.flags
    ensures var n := if |l| > 1 && Merge(SameFlags, l[1], m).Some? then [Merge(SameFlags, l[1], m).value] + l[2..]
      else [m] + l[1..];
            Wf(n) && AddsBytes(l, n, r) && Succeeds(l, r, n)
  {
    if |l| > 1 {
      HeadApart(l, r);
      HeadApart(l[1..], r);
      if l[1].flags == r.flags {
        forall x | Covers(l[1], x) || Covers(m, x)
          ensures Has(l, x, r.flags) || Covers(r, x) { assert Covers(l[1], x) ==> Has(l[1..], x, r.flags); }
        NoFill(l, r, z, l[1], m);
      }
      MergeHull(l[1], m);
      if Merge(SameFlags, l[1], m).Some? {
        AddMergedTwo(l, r, Merge(SameFlags, l[1], m).value);
      } else {
        AddMergedOne(l, r, m);
      }
    } else {
      AddMergedOne(l, r, m);
    }
  }

  lemma AddFront(l: seq<Region>, r: Region)
    requires Wf(l) && l != [] && Good(r) && Apart(l, r) && r.address < l[0].address
    requires !(l[0].flags == r.flags && Touch(l[0], r))
    ensures var n := [r] + l; Wf(n) && AddsBytes(l, n, r) && Succeeds(l, r, n)
  {
    HeadApart(l, r);
    WfCons(r, l);
    forall x, f ensures Has([r] + l, x, f) <==> Has(l, x, f) || (f == r.flags && Covers(r, x)) { HasCons(r, l, x, f); }
  }

  lemma AddLater(l: seq<Region>, r: Region, m: seq<Region>)
    requires Wf(l) && l != [] && Good(r) && Apart(l, r) && r.address >= l[0].address
    requires !(l[0].flags == r.flags && Touch(l[0], r))
    requires Wf(m) && AddsBytes(l[1..], m, r) && Succeeds(l[1..], r, m)
    ensures var n := [l[0]] + m; Wf(n) && AddsBytes(l, n, r) && Succeeds(l, r, n)
  {
    HeadApart(l, r);
    assert Below(l[0], r) && (l[1..] != [] ==> Below(l[0], l[1..][0]));
    WfCons(l[0], m);
    forall x, f
      ensures Has([l[0]] + m, x, f) <==> Has(l, x, f) || (f == r.flags && Covers(r, x)) { HasCons(l[0], m, x, f); }
  }

  /** Adding a disjoint region is labelled set union, and keeps the list sorted, disjoint and coalesced. */
  lemma {:induction false} AddUnion(l: seq<Region>, r: Region, z: int)
    requires Wf(l) && Good(r) && Apart(l, r) && Spare(l, r, z)
    ensures var m := Added(SameFlags, l, r); Wf(m) && AddsBytes(l, m, r) && Succeeds(l, r, m)
  {
    if l == [] {
      forall x, f
        ensures Has([r], x, f) <==> (f == r.flags && Covers(r, x)) { HasCons(r, [], x, f); assert [r] + [] == [r]; }
    } else {
      HeadApart(l, r);
      if l[0].flags == r.flags {
        forall x | Covers(l[0], x) || Covers(r, x)
          ensures Has(l, x, r.flags) || Covers(r, x) { assert Covers(l[0], x) ==> Has(l, x, r.flags); }
        NoFill(l, r, z, l[0], r);
      }
      MergeHull(l[0], r);
      var m := Merge(SameFlags, l[0], r);
      if m.Some? {
        AddMerged(l, r, m.value, z);
      } else if r.address < l[0].address {
        AddFront(l, r);
      } else {
        AddUnion(l[1..], r, z);
        AddLater(l, r, Added(SameFlags, l[1..], r));
      }
    }
  }

  /** Whatever overlaps, adding loses no byte and invents none. */
  lemma {:induction false} AddBytes(l: seq<Region>, r: Region, z: int)
    requires Wf(l) && Good(r) && Spare(l, r, z)
    ensures AddsBytes(l, Added(SameFlags, l, r), r)
  {
    hide Merge;
    if l == [] {
      OneRegion(r);
    } else {
      if l[0].flags == r.flags {
        forall x | Covers(l[0], x) || Covers(r, x) ensures Has(l, x, r.flags) || Covers(r, x) { }
        NoFill(l, r, z, l[0], r);
      }
      MergeHull(l[0], r);
      var m := Merge(SameFlags, l[0], r);
      if m.Some? {
        AddBytesMerged(l, r, m.value, z);
      } else if r.address < l[0].address {
        forall x, f
          ensures Has([r] + l, x, f) <==> Has(l, x, f) || (f == r.flags && Covers(r, x))
        {
          HasCons(r, l, x, f);
        }
      } else {
        AddBytes(l[1..], r, z);
        var n := Added(SameFlags, l[1..], r);
        forall x, f ensures Has([l[0]] + n, x, f) <==> Has(l, x, f) || (f == r.flags && Covers(r, x)) {
          HasCons(l[0], n, x, f);
        }
      }
    }
  }

  lemma AddBytesMerged(l: seq<Region>, r: Region, m: Region, z: int)
    requires Wf(l) && l != [] && Good(r) && Spare(l, r, z) && l[0].flags == r.flags && Touch(l[0], r)
    requires m.flags == r.flags && m.address == Min(l[0].address, r.address) && End(m) == Max(End(l[0]), End(r))
    ensures var n := if |l| > 1 && Merge(SameFlags, l[1], m).Some? then [Merge(SameFlags, l[1], m).value] + l[2..]
      else [m] + l[1..];
      AddsBytes(l, n, r)
  {
    hide Merge;
    forall x ensures Covers(m, x) <==> Covers(l[0], x) || Covers(r, x) { }
    if |l| > 1 && Merge(SameFlags, l[1], m).Some? {
      MergeHull(l[1], m);
      forall x | Covers(l[1], x) || Covers(m, x) ensures Has(l, x, r.flags) || Covers(r, x) {
        assert Covers(l[1], x) && l[1].flags == r.flags ==> Has(l[1..], x, r.flags);
      }
      NoFill(l, r, z, l[1], m);
      var k := Merge(SameFlags, l[1], m).value;
      forall x ensures Covers(k, x) <==> Covers(l[1], x) || Covers(m, x) { }
      forall x, f ensures Has([k] + l[2..], x, f) <==> Has(l, x, f) || (f == r.flags && Covers(r, x)) {
        HasCons(k, l[2..], x, f);
        HasTwo(l, x, f);
      }
    } else {
      forall x, f ensures Has([m] + l[1..], x, f) <==> Has(l, x, f) || (f == r.flags && Covers(r, x)) {
        HasCons(m, l[1..], x, f);
      }
    }
  }

  lemma HasTwo(l: seq<Region>, x: int, f: nat)
    requires |l| > 1
    ensures Has(l, x, f) <==>
      (l[0].flags == f && Covers(l[0], x)) || (l[1].flags == f && Covers(l[1], x)) || Has(l[2..], x, f)
  {
    assert l[1..][1..] == l[2..];
  }

  /** Adding keeps its promise exactly when some byte stays outside the union. */
  lemma AddExact(l: seq<Region>, r: Region)
    requires Wf(l) && Good(r) && Apart(l, r)
    ensures Wf(Added(SameFlags, l, r)) && AddsBytes(l, Added(SameFlags, l, r), r) <==> exists z :: Spare(l, r, z)
  {
    var m := Added(SameFlags, l, r);
    if z :| Spare(l, r, z) { AddUnion(l, r, z); }
    if Wf(m) && AddsBytes(l, m, r) {
      assert Has(m, r.address, r.flags);
      FirstGap(m);
      assert Spare(l, r, if m[0].address > 0 || m[0].flags != r.flags then 0 else End(m[0]));
    }
  }

  /** Adding the upper half of the space to the lower one leaves an empty region. */
  lemma AddLoses()
    ensures var l, r := [Region(0, 0x8000_0000, 0)], Region(0x8000_0000, 0x8000_0000, 0);
      Wf(l) && Apart(l, r) && Added(SameFlags, l, r) == [Region(0, 0, 0)] && !AddsBytes(l, [Region(0, 0, 0)], r)
  {
    hide Merge, MergeKept;
    var a, r, e := Region(0, 0x8000_0000, 0), Region(0x8000_0000, 0x8000_0000, 0), Region(0, 0, 0);
    MergeLoses();
    OneRegion(a);
    OneRegion(e);
    assert [a][1..] == [] && [e] + [] == [e];
    assert Covers(r, r.address) && !Has([e], r.address, 0);
  }

  lemma OneRegion(a: Region)
    ensures (Wf([a]) <==> Good(a)) && forall x, f :: Has([a], x, f) <==> a.flags == f && Covers(a, x)
  {
    assert [a][1..] == [];
  }

  // ----- subtract -----

  /** What is left of `a` in the list after cutting `hole` out of it. */
  function Pieces(a: Region, hole: Region): seq<Region> {
    var c := Cut(a, hole);
    if !c.overlap then [a]
    else
      (if c.a.size > 0 then [c.a] else []) +
      (if c.b.size > 0 then [a.(address := c.b.address, size := c.b.size)] else [])
  }

  function Subtracted(l: seq<Region>, hole: Region): seq<Region> {
    if l == [] then [] else Pieces(l[0], hole) + Subtracted(l[1..], hole)
  }

  function PieceBelow(a: Region, hole: Region): seq<Region> {
    if hole.address > a.address then [a.(size := Min(hole.address, End(a)) - a.address)] else []
  }

  function PieceAbove(a: Region, hole: Region): seq<Region>
    requires InSpace(a)
  {
    if End(hole) < End(a) then
      var start := Max(End(hole), a.address);
      [a.(address := start, size := End(a) - start)]
    else []
  }

  lemma PiecesSplit(a: Region, hole: Region)
    requires Good(a) && !CutWraps(a, hole)
    ensures Pieces(a, hole) == PieceBelow(a, hole) + PieceAbove(a, hole)
  {
  }

  ghost predicate RemovesBytes(l: seq<Region>, m: seq<Region>, hole: Region) {
    forall x, f :: Has(m, x, f) <==> Has(l, x, f) && !Covers(hole, x)
  }

  lemma PiecesBytes(a: Region, hole: Region, x: int, f: nat)
    requires Good(a) && !CutWraps(a, hole)
    ensures Has(Pieces(a, hole), x, f) <==> a.flags == f && Covers(a, x) && !Covers(hole, x)
  {
    PiecesSplit(a, hole);
    var p, q := PieceBelow(a, hole), PieceAbove(a, hole);
    HasConcat(p, q, x, f);
    assert p != [] ==> p[1..] == [];
    assert q != [] ==> q[1..] == [];
  }

  ghost predicate AnyWraps(l: seq<Region>, hole: Region) {
    exists i :: 0 <= i < |l| && CutWraps(l[i], hole)
  }

  lemma {:induction false} SubtractBytes(l: seq<Region>, hole: Region)
    requires Wf(l) && !AnyWraps(l, hole)
    ensures RemovesBytes(l, Subtracted(l, hole), hole)
  {
    if l != [] {
      assert forall i :: 0 <= i < |l[1..]| ==> l[1..][i] == l[i + 1];
      SubtractBytes(l[1..], hole);
      forall x, f ensures Has(Subtracted(l, hole), x, f) <==> Has(l, x, f) && !Covers(hole, x) {
        HasConcat(Pieces(l[0], hole), Subtracted(l[1..], hole), x, f);
        PiecesBytes(l[0], hole, x, f);
      }
    }
  }

  /** The cut of one region is right exactly unless it wraps. */
  lemma PiecesExact(a: Region, hole: Region)
    requires Good(a)
    ensures (forall x, f :: Has(Pieces(a, hole), x, f) <==> a.flags == f && Covers(a, x) && !Covers(hole, x)) <==>
      !CutWraps(a, hole)
  {
    if CutWraps(a, hole) {
      assert Pieces(a, hole) == [] && Covers(a, W - 1) && !Covers(hole, W - 1);
      assert !Has(Pieces(a, hole), W - 1, a.flags);
    } else {
      forall x, f ensures Has(Pieces(a, hole), x, f) <==> a.flags == f && Covers(a, x) && !Covers(hole, x) {
        PiecesBytes(a, hole, x, f);
      }
    }
  }

  /** A wrapping cut takes the whole list, the last byte of the space included. */
  lemma {:induction false} TakesAll(l: seq<Region>, hole: Region, i: nat)
    requires Wf(l) && i < |l| && CutWraps(l[i], hole)
    ensures Subtracted(l, hole) == [] && Has(l, W - 1, l[i].flags) && l[0].address < hole.size
  {
    if i == 0 {
      assert |l| == 1 && Pieces(l[0], hole) == [] && Subtracted(l[1..], hole) == [];
    } else {
      TakesAll(l[1..], hole, i - 1);
      PiecesSplit(l[0], hole);
    }
  }

  /** Subtracting is labelled set difference, unless the hole starts at 0 and reaches into a region
      that ends at 2^32. */
  lemma SubtractExact(l: seq<Region>, hole: Region)
    requires Wf(l)
    ensures RemovesBytes(l, Subtracted(l, hole), hole) <==> !AnyWraps(l, hole)
  {
    if i: nat :| i < |l| && CutWraps(l[i], hole) {
      TakesAll(l, hole, i);
      assert !Has(Subtracted(l, hole), W - 1, l[i].flags);
    } else {
      SubtractBytes(l, hole);
    }
  }

  /** An empty hole strictly inside a region splits it into two that touch. */
  ghost predicate Splits(l: seq<Region>, hole: Region) {
    hole.size == 0 && exists i :: 0 <= i < |l| && l[i].address < hole.address < End(l[i])
  }

  /** What is left stays sorted and coalesced unless an empty hole splits a region. */
  lemma {:induction false} SubtractWf(l: seq<Region>, hole: Region)
    requires Wf(l)
    ensures Wf(Subtracted(l, hole)) <==> !Splits(l, hole)
    ensures var m := Subtracted(l, hole);
            m != [] ==>
              && l != [] && l[0].address <= m[0].address
              && (m[0].address == l[0].address ==> m[0].flags == l[0].flags)
  {
    if i: nat :| i < |l| && CutWraps(l[i], hole) {
      TakesAll(l, hole, i);
    } else if l != [] {
      assert forall i :: 0 <= i < |l[1..]| ==> l[1..][i] == l[i + 1];
      var m := Subtracted(l[1..], hole);
      SubtractWf(l[1..], hole);
      PiecesWf(l[0], hole);
      WfConcat(Pieces(l[0], hole), m);
      SplitsTail(l, hole);
    }
  }

  /** Subtracting a hole at 0 from a region that ends at 2^32 leaves nothing. */
  lemma SubtractLoses()
    ensures var l, hole := [Region(0x1000, W - 0x1000, 0)], Region(0, 0x2000, 0);
      Wf(l) && Subtracted(l, hole) == [] && !RemovesBytes(l, [], hole)
  {
    var l, hole := [Region(0x1000, W - 0x1000, 0)], Region(0, 0x2000, 0);
    TakesAll(l, hole, 0);
    SubtractExact(l, hole);
  }

  /** Subtracting nothing from within a region leaves two that could be one. */
  lemma EmptyHoleSplits()
    ensures var l, hole := [Region(0x1000, 0x1000, 0)], Region(0x1800, 0, 0);
      Wf(l) && Subtracted(l, hole) == [Region(0x1000, 0x800, 0), Region(0x1800, 0x800, 0)] && !Wf(Subtracted(l, hole))
  {
    var l, hole := [Region(0x1000, 0x1000, 0)], Region(0x1800, 0, 0);
    assert l[1..] == [] && Subtracted(l[1..], hole) == [];
    assert Splits(l, hole) by { assert l[0].address < hole.address < End(l[0]); }
    SubtractWf(l, hole);
  }

  lemma PiecesWf(a: Region, hole: Region)
    requires Good(a) && !CutWraps(a, hole)
    ensures var p := Pieces(a, hole);
            && (Wf(p) <==> !(hole.size == 0 && a.address < hole.address < End(a)))
            && (p != [] ==> a.address <= p[0].address && p[0].flags == a.flags)
            && (p != [] ==> End(p[|p| - 1]) <= End(a) && p[|p| - 1].flags == a.flags)
  {
    PiecesSplit(a, hole);
    var p, q := PieceBelow(a, hole), PieceAbove(a, hole);
    WfConcat(p, q);
    assert p != [] ==> p[1..] == [];
    assert q != [] ==> q[1..] == [];
  }

  lemma SplitsTail(l: seq<Region>, hole: Region)
    requires l != []
    ensures Splits(l, hole) <==> (hole.size == 0 && l[0].address < hole.address < End(l[0])) || Splits(l[1..], hole)
  {
    if hole.size == 0 {
      if i :| 0 <= i < |l| && l[i].address < hole.address < End(l[i]) {
        if i > 0 { assert l[1..][i - 1] == l[i]; }
      }
      if i :| 0 <= i < |l[1..]| && l[1..][i].address < hole.address < End(l[1..][i]) { assert l[i + 1] == l[1..][i]; }
    }
  }
}
