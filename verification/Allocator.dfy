/** The first-fit aligned allocator over a list of available regions (kernel/mm/allocator.c). */
module Allocator {
  import opened Range
  import opened RangeList
  import opened RangeMap
  import opened Align

  /** sizeof(uintptr_t), the alignment used when the caller gives none. */
  const WORD: u32 := 4

  predicate Matches(r: Region, flags: nat) {
    flags == 0 || r.flags == flags
  }

  /** Room left in the region from its aligned start on, in 32-bit arithmetic. */
  function Remaining(r: Region, align: u32): u32
    requires align > 0
  {
    Sub32(r.size, Sub32(AlignAddress(r.address, align), r.address))
  }

  predicate Fits(r: Region, size: u32, align: u32, flags: nat)
    requires align > 0
  {
    Matches(r, flags) && Remaining(r, align) >= size
  }

  /** The index of the first region that passes the test, or the length of the list. */
  function FirstFit(l: seq<Region>, size: u32, align: u32, flags: nat): (i: nat)
    requires align > 0
    ensures i <= |l|
    ensures forall j :: 0 <= j < i ==> !Fits(l[j], size, align, flags)
    ensures i < |l| ==> Fits(l[i], size, align, flags)
  {
    if l == [] || Fits(l[0], size, align, flags) then 0 else 1 + FirstFit(l[1..], size, align, flags)
  }

  /** A region may be used if its flags are the ones asked for, or if any will do; it is taken if what is left of it
      from its aligned start on is enough. */
  lemma FirstFitMeans(l: seq<Region>, size: u32, align: u32, flags: nat)
    requires align > 0
    ensures var i := FirstFit(l, size, align, flags);
      && (forall j :: 0 <= j < i && (flags == 0 || l[j].flags == flags) ==> Remaining(l[j], align) < size)
      && (i < |l| ==> (flags == 0 || l[i].flags == flags) && Remaining(l[i], align) >= size)
  {
    hide FirstFit, Remaining;
    var i := FirstFit(l, size, align, flags);
    forall j | 0 <= j < i ensures !Fits(l[j], size, align, flags) { }
  }

  // ----- the test -----

  ghost predicate HoldsRun(r: Region, size: nat, align: nat, p: nat)
    requires align > 0
  {
    p % align == 0 && r.address <= p && p + size <= End(r)
  }

  /** The aligned start lies past the end of the region, so that the subtraction wraps. */
  predicate Overshoots(r: Region, align: nat)
    requires align > 0
  {
    Padding(r.address, align) > r.size
  }

  lemma RemainingIs(r: Region, align: u32)
    requires InSpace(r) && align > 0 && IsPower(align)
    ensures Remaining(r, align) ==
            if Overshoots(r, align) then W + r.size - Padding(r.address, align) else r.size - Padding(r.address, align)
  {
    AlignUp(r.address, align);
  }

  /** The subtraction wraps to a number that looks like enough room. */
  predicate Deceives(r: Region, size: nat, align: nat)
    requires align > 0
  {
    Overshoots(r, align) && W + r.size >= size + Padding(r.address, align)
  }

  /** For a nonzero size the test is right about a region unless the subtraction wrapped to enough room. */
  lemma FitExact(r: Region, size: u32, align: u32)
    requires Good(r) && align > 0 && IsPower(align) && size > 0
    ensures (Remaining(r, align) >= size <==> exists p :: HoldsRun(r, size, align, p)) <==> !Deceives(r, size, align)
    ensures Remaining(r, align) >= size <==>
      Deceives(r, size, align) || HoldsRun(r, size, align, AlignAddress(r.address, align))
    ensures (exists p :: HoldsRun(r, size, align, p)) ==> !Deceives(r, size, align)
  {
    RemainingIs(r, align);
    AlignUp(r.address, align);
    RoundUp(r.address, align);
    if p: nat :| HoldsRun(r, size, align, p) { RoundUpLeast(r.address, align, p); }
    if !Overshoots(r, align) && Remaining(r, align) >= size {
      assert HoldsRun(r, size, align, r.address + Padding(r.address, align));
    }
  }

  /** A region too short for its padding passes the test for any small size. */
  lemma OvershootPasses()
    ensures var r := Region(0x1001, 1, 0);
            Good(r) && Deceives(r, 100, 4) && Remaining(r, 4) >= 100 && !exists p :: HoldsRun(r, 100, 4, p)
  {
    var r := Region(0x1001, 1, 0);
    assert IsPower(4) by { assert Pow2(2) == 4; }
    RemainingIs(r, 4);
  }

  // ----- allocation and release -----

  /** No region the request may use is too short for its padding. */
  ghost predicate NoOvershoot(l: seq<Region>, align: nat, flags: nat)
    requires align > 0
  {
    forall i :: 0 <= i < |l| && Matches(l[i], flags) ==> !Overshoots(l[i], align)
  }

  /** The hole a request cuts out of the region it found. */
  function Hole(r: Region, size: u32, align: u32): Region
    requires align > 0
  {
    Region(AlignAddress(r.address, align), size, r.flags)
  }

  function Carved(l: seq<Region>, i: nat, hole: Region): seq<Region>
    requires i < |l|
  {
    l[..i] + Pieces(l[i], hole) + l[i + 1..]
  }

  /** A deceptive region gives bytes it does not have: the hole starts past its end and leaves it as it is, unless the
      start wraps to 0, when the bytes of the hole that it does have are cut off it. */
  lemma OvershootTakes(r: Region, size: u32, align: u32)
    requires Good(r) && align > 0 && IsPower(align) && Overshoots(r, align)
    ensures var hole := Hole(r, size, align);
      && (r.address + Padding(r.address, align) < W ==> End(r) < hole.address && Pieces(r, hole) == [r])
      && (r.address + Padding(r.address, align) >= W ==> hole.address == 0)
      && forall x, f :: Has(Pieces(r, hole), x, f) <==> r.flags == f && Covers(r, x) && !Covers(hole, x)
  {
    AlignUp(r.address, align);
    RoundUp(r.address, align);
    PiecesExact(r, Hole(r, size, align));
    PiecesSplit(r, Hole(r, size, align));
  }

  /** Some matching region holds an aligned run of `size` bytes. */
  ghost predicate RunSomewhere(l: seq<Region>, size: nat, align: nat, flags: nat)
    requires align > 0
  {
    exists i, p :: 0 <= i < |l| && Matches(l[i], flags) && HoldsRun(l[i], size, align, p)
  }

  /** An allocation of nonzero size fails exactly when no matching region holds an aligned run of that size, unless
      there is no such run and a region deceives the test. */
  lemma AllocExact(l: seq<Region>, size: u32, align: u32, flags: nat)
    requires Wf(l) && align > 0 && IsPower(align) && size > 0
    ensures RunSomewhere(l, size, align, flags) ==> FirstFit(l, size, align, flags) < |l|
    ensures (FirstFit(l, size, align, flags) == |l| <==> !RunSomewhere(l, size, align, flags)) <==>
            RunSomewhere(l, size, align, flags) ||
            forall i :: 0 <= i < |l| && Matches(l[i], flags) ==> !Deceives(l[i], size, align)
  {
    WfSorted(l);
    forall i | 0 <= i < |l|
      ensures Remaining(l[i], align) >= size <==>
        Deceives(l[i], size, align) || exists p :: HoldsRun(l[i], size, align, p)
    {
      FitExact(l[i], size, align);
    }
  }

  /** An allocation of nonzero size fails exactly when no matching region holds an aligned run of that size. */
  lemma AllocFails(l: seq<Region>, size: u32, align: u32, flags: nat)
    requires Wf(l) && align > 0 && IsPower(align) && size > 0 && NoOvershoot(l, align, flags)
    ensures FirstFit(l, size, align, flags) == |l| <==>
            forall i, p :: 0 <= i < |l| && Matches(l[i], flags) ==> !HoldsRun(l[i], size, align, p)
  {
    WfSorted(l);
    forall i | 0 <= i < |l| && Matches(l[i], flags)
      ensures Fits(l[i], size, align, flags) <==> exists p :: HoldsRun(l[i], size, align, p)
    {
      FitExact(l[i], size, align);
    }
  }

  ghost predicate Inside(hole: Region, r: Region) {
    r.address <= hole.address && End(hole) <= End(r) && hole.flags == r.flags
  }

  lemma {:induction false} CarvedIsSubtracted(l: seq<Region>, i: nat, hole: Region)
    requires Wf(l) && i < |l| && Good(hole) && Inside(hole, l[i])
    ensures Carved(l, i, hole) == Subtracted(l, hole) && !AnyWraps(l, hole)
  {
    hide Pieces, CutWraps;
    WfSorted(l);
    if i == 0 {
      Untouched(l[1..], hole);
      NoWrapInside(l[0], hole);
      assert l[..0] == [];
    } else {
      CarvedIsSubtracted(l[1..], i - 1, hole);
      UntouchedOne(l[0], hole);
      CarvedLater(l, i, hole);
    }
    forall j | 0 <= j < |l| ensures !CutWraps(l[j], hole) { if j > 0 { assert l[j] == l[1..][j - 1]; } }
  }

  lemma CarvedLater(l: seq<Region>, i: nat, hole: Region)
    requires 0 < i < |l|
    ensures Carved(l, i, hole) == [l[0]] + Carved(l[1..], i - 1, hole)
  {
    hide Pieces;
    assert l[..i] == [l[0]] + l[1..][..i - 1] && l[i + 1..] == l[1..][i..];
  }

  lemma NoWrapInside(a: Region, hole: Region)
    requires Inside(hole, a)
    ensures !CutWraps(a, hole)
  {
  }

  lemma UntouchedOne(a: Region, hole: Region)
    requires Good(a) && Good(hole) && (End(hole) <= a.address || End(a) <= hole.address)
    ensures Pieces(a, hole) == [a] && !CutWraps(a, hole)
  {
    PiecesSplit(a, hole);
  }

  lemma {:induction false} Untouched(l: seq<Region>, hole: Region)
    requires Wf(l) && Good(hole) && forall j :: 0 <= j < |l| ==> End(hole) <= l[j].address
    ensures Subtracted(l, hole) == l && !AnyWraps(l, hole)
  {
    hide Pieces, CutWraps;
    if l != [] {
      assert forall j :: 0 <= j < |l[1..]| ==> l[1..][j] == l[j + 1];
      Untouched(l[1..], hole);
      UntouchedOne(l[0], hole);
    }
  }

  lemma SpareByte(l: seq<Region>, f: nat) returns (z: int)
    requires Wf(l)
    ensures 0 <= z < W && !Has(l, z, f)
  {
    if l == [] || !Has(l, 0, f) { z := 0; }
    else { FirstGap(l); z := End(l[0]); }
  }

  /** Carving removes exactly the bytes of the hole, which were free with the region's label. */
  lemma CarvedBytes(l: seq<Region>, i: nat, hole: Region)
    requires Wf(l) && i < |l| && Good(hole) && Inside(hole, l[i])
    ensures Wf(Carved(l, i, hole)) && RemovesBytes(l, Carved(l, i, hole), hole)
    ensures forall x :: Covers(hole, x) ==> Has(l, x, hole.flags)
  {
    CarvedIsSubtracted(l, i, hole);
    SubtractBytes(l, hole);
    SubtractWf(l, hole);
    forall x | Covers(hole, x) ensures Has(l, x, hole.flags) { HasAt(l, i, x); }
  }

  lemma {:induction false} HasAt(l: seq<Region>, i: nat, x: int)
    requires i < |l| && Covers(l[i], x)
    ensures Has(l, x, l[i].flags)
  {
    if i > 0 { HasAt(l[1..], i - 1, x); }
  }

  /** In a well-formed list a byte has at most one label. */
  lemma {:induction false} OneLabel(l: seq<Region>, x: int, f: nat, g: nat)
    requires Wf(l) && Has(l, x, f) && Has(l, x, g)
    ensures f == g
  {
    if x < End(l[0]) { FirstGap(l); }
    else { OneLabel(l[1..], x, f, g); }
  }

  /** Releasing what was just allocated, with the region's own flags, restores the very same list. */
  lemma FreeRestores(l: seq<Region>, i: nat, hole: Region)
    requires Wf(l) && i < |l| && Good(hole) && Inside(hole, l[i])
    ensures Added(SameFlags, Carved(l, i, hole), hole) == l
  {
    var m := Carved(l, i, hole);
    CarvedBytes(l, i, hole);
    var z := SpareByte(l, hole.flags);
    AddUnion(m, hole, z);
    forall x, f | Has(l, x, f) && Covers(hole, x) ensures f == hole.flags { OneLabel(l, x, f, hole.flags); }
    Unique(Added(SameFlags, m, hole), l);
  }

  /** allocator_mem_alloc. */
  method MemAlloc(am: RegionMap, size: u32, alignment: u32, flags: nat) returns (r: Option<u32>)
    requires Sorted(am.regions)
    modifies am
    ensures var l, align := old(am.regions), if alignment == 0 then WORD else alignment;
            var i := FirstFit(l, size, align, flags);
            if i == |l| then r == None && am.regions == l
            else
              && r == Some(AlignAddress(l[i].address, align))
              && am.regions == Carved(l, i, Region(AlignAddress(l[i].address, align), size, l[i].flags))
  {
    hide FirstFit;
    var align := if alignment == 0 then WORD else alignment;
    ghost var l := am.regions;
    var i := 0;
    while i < |am.regions|
      invariant am.regions == l && i <= |l| && forall j :: 0 <= j < i ==> !Fits(l[j], size, align, flags)
    {
      if Matches(am.regions[i], flags) {
        var start := AlignAddress(am.regions[i].address, align);
        if Sub32(am.regions[i].size, Sub32(start, am.regions[i].address)) >= size {
          assert l == l[..i] + [l[i]] + l[i + 1..];
          am.CutAndStitch(i, Hole(am.regions[i], size, align), l[..i], l[i], l[i + 1..]);
          return Some(start);
        }
      }
      i := i + 1;
    }
    return None;
  }

  lemma HoleInSpace(l: seq<Region>, i: nat, size: u32, align: u32)
    requires Wf(l) && i < |l| && align > 0 && IsPower(align) && !Overshoots(l[i], align)
    requires Remaining(l[i], align) >= size
    ensures InSpace(Hole(l[i], size, align)) && Good(l[i])
    ensures size > 0 ==> Good(Hole(l[i], size, align)) && Inside(Hole(l[i], size, align), l[i])
    ensures size > 0 ==> Hole(l[i], size, align).address % align == 0
  {
    WfSorted(l);
    RemainingIs(l[i], align);
    AlignUp(l[i].address, align);
    RoundUp(l[i].address, align);
  }

  /** allocator_mem_free and allocator_region_add_new. */
  method MemFree(am: RegionMap, ptr: u32, size: u32, flags: nat)
    modifies am
    ensures am.regions == Added(am.policy, old(am.regions), Region(ptr, size, flags))
  {
    am.Add(Region(ptr, size, flags));
  }

  /** allocator_range_acquire. */
  method RangeAcquire(am: RegionMap, address: u32, size: u32)
    requires Sorted(am.regions)
    modifies am
    ensures am.regions == Subtracted(old(am.regions), Region(address, size, 0))
  {
    am.Subtract(Region(address, size, 0));
  }
}
