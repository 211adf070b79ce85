/** The kernel's virtual address space: available ranges in one list, blocks in use in another (kernel/mm/kmem.c). */
module Kmem {
  import opened Range
  import opened RangeList
  import opened RangeMap
  import opened Align
  import opened Allocator
  import opened Pool

  const ALLOC_VM_USER: nat := 1
  const ALLOC_VM_KERNEL: nat := 2

  /** What a never-merging add does. */
  lemma {:induction false} AddedNever(l: seq<Region>, r: Region)
    ensures Added(Never, l, r) == Placed(l, r)
  {
    if l != [] { AddedNever(l[1..], r); }
  }

  ghost function Elems(l: seq<Region>): set<Region> {
    set r | r in l
  }

  ghost predicate Ascending(l: seq<Region>) {
    forall i, j :: 0 <= i < j < |l| ==> l[i].address < l[j].address
  }

  lemma AscendingCons(a: Region, l: seq<Region>)
    requires Ascending(l) && forall r :: r in l ==> a.address < r.address
    ensures Ascending([a] + l)
  {
    forall i, j | 0 <= i < j < |[a] + l| ensures ([a] + l)[i].address < ([a] + l)[j].address {
      assert ([a] + l)[j] == l[j - 1] && l[j - 1] in l;
    }
  }

  lemma {:induction false} PlacedElems(l: seq<Region>, e: Region)
    requires Ascending(l) && forall r :: r in l ==> r.address != e.address
    ensures Elems(Placed(l, e)) == Elems(l) + {e} && Ascending(Placed(l, e))
  {
    if l != [] {
      assert l == [l[0]] + l[1..];
      if e.address < l[0].address {
        AscendingCons(e, l);
      } else {
        PlacedElems(l[1..], e);
        var m := Placed(l[1..], e);
        forall r | r in m ensures l[0].address < r.address { assert r in Elems(m); }
        AscendingCons(l[0], m);
        forall r ensures r in [l[0]] + m <==> r in l || r == e { assert r in m <==> r in Elems(m); }
      }
    }
  }

  /** Removing what was just placed gives the list back. */
  lemma {:induction false} DropPlaced(l: seq<Region>, e: Region)
    requires Ascending(l) && forall r :: r in l ==> r.address != e.address
    ensures Dropped(Placed(l, e), e.address) == l && e in Placed(l, e)
  {
    if l != [] && e.address >= l[0].address { DropPlaced(l[1..], e); }
  }

  lemma {:induction false} PlacedHas(l: seq<Region>, e: Region)
    ensures e in Placed(l, e)
  {
    if l != [] { PlacedHas(l[1..], e); }
  }

  lemma {:induction false} DroppedElems(l: seq<Region>, b: Region)
    requires Ascending(l) && b in l
    ensures Elems(Dropped(l, b.address)) == Elems(l) - {b} && Ascending(Dropped(l, b.address))
  {
    assert l == [l[0]] + l[1..];
    if l[0].address != b.address {
      DroppedElems(l[1..], b);
      var m := Dropped(l[1..], b.address);
      forall r | r in m ensures l[0].address < r.address { assert r in Elems(m); }
      AscendingCons(l[0], m);
      forall r ensures r in [l[0]] + m <==> r in l && r != b { assert r in m <==> r in Elems(m); }
    }
  }

  function Raw(segmentStart: u32): seq<Region>
    requires PAGE_SIZE < segmentStart
  {
    Added(SameFlags, Added(SameFlags, [], Region(PAGE_SIZE, segmentStart - PAGE_SIZE, ALLOC_VM_USER)),
          Region(segmentStart, W - segmentStart, ALLOC_VM_KERNEL))
  }

  lemma LayoutRaw(segmentStart: u32)
    requires PAGE_SIZE < segmentStart
    ensures Wf(Raw(segmentStart))
    ensures forall x, f :: Has(Raw(segmentStart), x, f) <==>
              (f == ALLOC_VM_USER && PAGE_SIZE <= x < segmentStart) || (f == ALLOC_VM_KERNEL && segmentStart <= x < W)
  {
    var user := Region(PAGE_SIZE, segmentStart - PAGE_SIZE, ALLOC_VM_USER);
    var kernel := Region(segmentStart, W - segmentStart, ALLOC_VM_KERNEL);
    AddUnion([], user, 0);
    AddUnion(Added(SameFlags, [], user), kernel, 0);
  }

  lemma LayoutBytes(segmentStart: u32, memoryEnd: u32)
    requires PAGE_SIZE < segmentStart < memoryEnd
    ensures var l := Subtracted(Raw(segmentStart), Region(segmentStart, memoryEnd - segmentStart, 0));
            Wf(l) && forall x, f :: Has(l, x, f) <==>
              (f == ALLOC_VM_USER && PAGE_SIZE <= x < segmentStart) || (f == ALLOC_VM_KERNEL && memoryEnd <= x < W)
  {
    var boot := Region(segmentStart, memoryEnd - segmentStart, 0);
    LayoutRaw(segmentStart);
    assert !AnyWraps(Raw(segmentStart), boot);
    SubtractBytes(Raw(segmentStart), boot);
    SubtractWf(Raw(segmentStart), boot);
  }

  lemma LayoutInv(l: seq<Region>, segmentStart: u32, memoryEnd: u32)
    requires PAGE_SIZE < segmentStart < memoryEnd && memoryEnd % 4 == 0
    requires l == Subtracted(Raw(segmentStart), Region(segmentStart, memoryEnd - segmentStart, 0))
    ensures Inv(l, ALLOC_VM_KERNEL, Elems([]), Plus(iset{}, Region(memoryEnd, W - memoryEnd, ALLOC_VM_KERNEL)))
  {
    LayoutBytes(segmentStart, memoryEnd);
    WordsPlus(iset{}, Region(memoryEnd, W - memoryEnd, ALLOC_VM_KERNEL));
  }

  function Block(addr: u32, size: u32): Region {
    Region(addr, size, ALLOC_VM_KERNEL)
  }

  /** Some kernel range passes the test for `size` bytes. */
  ghost predicate HasRoom(l: seq<Region>, size: u32) {
    FirstFit(l, size, 4, ALLOC_VM_KERNEL) < |l|
  }

  /** `hole` was cut out of the region at `i`. */
  ghost predicate Given(l: seq<Region>, i: nat, m: seq<Region>, hole: Region, addr: u32) {
    i < |l| && addr == hole.address && m == Carved(l, i, hole)
  }

  /** The block in use `b` is new, and overlaps no other. */
  ghost predicate NewBlock(before: seq<Region>, after: seq<Region>, b: Region) {
    && Elems(after) == Elems(before) + {b} && Good(b) && b.address > 0 && b.address % 4 == 0
    && forall a :: a in before ==> Disjoint(a, b)
  }

  /** What VmAlloc cuts out of the first range that fits. */
  lemma BlockFits(l: seq<Region>, u: seq<Region>, space: iset<int>, i: nat, size: u32)
    requires Inv(l, ALLOC_VM_KERNEL, Elems(u), space) && size > 0 && i == FirstFit(l, size, 4, ALLOC_VM_KERNEL) < |l|
    ensures var hole := Hole(l[i], size, 4);
      && hole.flags == l[i].flags == ALLOC_VM_KERNEL && Good(hole) && Inside(hole, l[i])
      && hole.address % 4 == 0 && hole.address > 0
  {
    hide Inv, FirstFit;
    assert IsPower(4) by { assert Pow2(2) == 4; }
    EndsAligned(l, ALLOC_VM_KERNEL, Elems(u), space, i);
    InvWf(l, ALLOC_VM_KERNEL, Elems(u), space);
    HoleInSpace(l, i, size, 4);
    CarvedBytes(l, i, Hole(l[i], size, 4));
    assert Has(l, Hole(l[i], size, 4).address, ALLOC_VM_KERNEL);
  }

  lemma TakeBlock(l: seq<Region>, u: seq<Region>, space: iset<int>, i: nat, size: u32)
    requires Inv(l, ALLOC_VM_KERNEL, Elems(u), space) && Ascending(u) && size > 0
    requires i == FirstFit(l, size, 4, ALLOC_VM_KERNEL) < |l|
    ensures var hole := Hole(l[i], size, 4);
      var u' := Placed(u, hole);
      && hole == Block(hole.address, size) && NewBlock(u, u', hole) && Ascending(u')
      && (forall b :: b in u ==> b.address != hole.address)
      && Inv(Carved(l, i, hole), ALLOC_VM_KERNEL, Elems(u'), space)
  {
    hide Inv, Carved, FirstFit, Hole;
    var hole := Hole(l[i], size, 4);
    BlockFits(l, u, space, i, size);
    assert hole == Block(hole.address, size) by { HoleIs(l[i], size); }
    Take(l, ALLOC_VM_KERNEL, Elems(u), space, i, hole);
    forall b | b in u ensures b.address != hole.address && Disjoint(b, hole) {
      assert b in Elems(u);
      LiveGood(l, ALLOC_VM_KERNEL, Elems(u), space, b);
    }
    PlacedElems(u, hole);
  }

  lemma HoleIs(r: Region, size: u32)
    ensures Hole(r, size, 4) == Region(AlignAddress(r.address, 4), size, r.flags)
  {
  }

  lemma EmptyBlock(l: seq<Region>, u: seq<Region>, space: iset<int>, addr: u32)
    requires Block(addr, 0) in u
    ensures !Inv(l, ALLOC_VM_KERNEL, Elems(u), space)
  {
    assert Block(addr, 0) in Elems(u) && !Good(Block(addr, 0));
  }

  /** Freeing a block just taken restores both lists. */
  lemma UndoTake(l: seq<Region>, u: seq<Region>, space: iset<int>, i: nat, size: u32)
    requires Inv(l, ALLOC_VM_KERNEL, Elems(u), space) && Ascending(u) && size > 0
    requires i == FirstFit(l, size, 4, ALLOC_VM_KERNEL) < |l|
    ensures var hole := Hole(l[i], size, 4);
      && hole == Block(hole.address, size) && hole in Placed(u, hole)
      && Dropped(Placed(u, hole), hole.address) == u && Added(SameFlags, Carved(l, i, hole), hole) == l
  {
    hide Inv, Carved, FirstFit, Hole, Added;
    TakeBlock(l, u, space, i, size);
    BlockFits(l, u, space, i, size);
    InvWf(l, ALLOC_VM_KERNEL, Elems(u), space);
    FreeRestores(l, i, Hole(l[i], size, 4));
    DropPlaced(u, Hole(l[i], size, 4));
  }

  /** Exactly one block was taken, from the first range that fits. */
  ghost predicate OneBlock(l: seq<Region>, l': seq<Region>, u: seq<Region>, u': seq<Region>, size: u32, addr: u32) {
    var i := FirstFit(l, size, 4, ALLOC_VM_KERNEL);
    i < |l| && Given(l, i, l', Hole(l[i], size, 4), addr) && u' == Placed(u, Block(addr, size))
  }

  lemma GiveBlock(l: seq<Region>, u: seq<Region>, space: iset<int>, b: Region)
    requires Inv(l, ALLOC_VM_KERNEL, Elems(u), space) && Ascending(u) && b in u
    ensures b == Block(b.address, b.size) && Ascending(Dropped(u, b.address))
    ensures Elems(Dropped(u, b.address)) == Elems(u) - {b}
    ensures Inv(Added(SameFlags, l, b), ALLOC_VM_KERNEL, Elems(Dropped(u, b.address)), space)
  {
    hide Inv, Added, Dropped;
    assert b in Elems(u);
    LiveGood(l, ALLOC_VM_KERNEL, Elems(u), space, b);
    DroppedElems(u, b);
    Give(l, ALLOC_VM_KERNEL, Elems(u), space, b);
  }

  // ----- blocks of no bytes -----

  /** A list of the kernel's ranges after a block of no bytes was cut out of the first. */
  ghost function Nicked(l: seq<Region>): seq<Region>
    requires HasRoom(l, 0)
  {
    var i := FirstFit(l, 0, 4, ALLOC_VM_KERNEL);
    Carved(l, i, Hole(l[i], 0, 4))
  }

  /** The address at which VmAlloc finds `size` bytes. */
  ghost function Spot(l: seq<Region>, size: u32): u32
    requires HasRoom(l, size)
  {
    Hole(l[FirstFit(l, size, 4, ALLOC_VM_KERNEL)], size, 4).address
  }

  lemma {:induction false} FitBehind(p: seq<Region>, q: seq<Region>, size: u32)
    requires forall i :: 0 <= i < |p| ==> !Fits(p[i], size, 4, ALLOC_VM_KERNEL)
    ensures FirstFit(p + q, size, 4, ALLOC_VM_KERNEL) == |p| + FirstFit(q, size, 4, ALLOC_VM_KERNEL)
  {
    if p == [] {
      assert p + q == q;
    } else {
      FitBehind(p[1..], q, size);
      assert (p + q)[1..] == p[1..] + q;
    }
  }

  /** What an empty cut at the aligned start leaves of a range: two parts, or all of it. */
  lemma NickedPieces(r: Region)
    requires Good(r) && r.address > 0 && End(r) % 4 == 0
    ensures var up := r.address + Padding(r.address, 4);
      Pieces(r, Hole(r, 0, 4)) ==
        if r.address < up < End(r) then [r.(size := up - r.address), r.(address := up, size := End(r) - up)] else [r]
  {
    assert IsPower(4) by { assert Pow2(2) == 4; }
    AlignUp(r.address, 4);
    RoundUp(r.address, 4);
    RoundUpLeast(r.address, 4, End(r));
    hide AlignAddress, Pieces;
    PiecesSplit(r, Hole(r, 0, 4));
  }

  /** The parts serve a request as the whole range does, and from the same address. */
  lemma NickedFits(r: Region, size: u32, rest: seq<Region>)
    requires Good(r) && r.address > 0 && End(r) % 4 == 0 && r.flags == ALLOC_VM_KERNEL && size > 0
    ensures var p := Pieces(r, Hole(r, 0, 4)) + rest;
      && (Fits(r, size, 4, ALLOC_VM_KERNEL) ==> HasRoom(p, size) && Spot(p, size) == Hole(r, size, 4).address)
      && (!Fits(r, size, 4, ALLOC_VM_KERNEL) ==>
           FirstFit(p, size, 4, ALLOC_VM_KERNEL) == |p| - |rest| + FirstFit(rest, size, 4, ALLOC_VM_KERNEL))
  {
    hide AlignAddress, Pieces, FirstFit;
    assert IsPower(4) by { assert Pow2(2) == 4; }
    NickedPieces(r);
    AlignUp(r.address, 4);
    RoundUp(r.address, 4);
    RoundUpLeast(r.address, 4, End(r));
    RemainingIs(r, 4);
    var a, q := AlignAddress(r.address, 4), Pieces(r, Hole(r, 0, 4));
    if |q| == 2 {
      RemainingIs(q[0], 4);
      RemainingIs(q[1], 4);
      AlignUp(a, 4);
      FitBehind([q[0]], [q[1]] + rest, size);
      assert q + rest == [q[0]] + ([q[1]] + rest);
    }
    if !Fits(r, size, 4, ALLOC_VM_KERNEL) { FitBehind(q, rest, size); }
    else if |q| == 1 { HeadFits(r, rest, size); }
    else { HeadFits(q[1], rest, size); }
  }

  lemma HeadFits(r: Region, rest: seq<Region>, size: u32)
    requires Fits(r, size, 4, ALLOC_VM_KERNEL)
    ensures FirstFit([r] + rest, size, 4, ALLOC_VM_KERNEL) == 0
  {
  }

  /** The list around its first kernel range `i`. */
  lemma AroundFirst(l: seq<Region>, i: nat)
    requires i == FirstFit(l, 0, 4, ALLOC_VM_KERNEL) < |l|
    ensures l == l[..i] + ([l[i]] + l[i + 1..]) && Nicked(l) == l[..i] + (Pieces(l[i], Hole(l[i], 0, 4)) + l[i + 1..])
  {
    hide FirstFit, Pieces, AlignAddress, Fits;
    var q := Pieces(l[i], Hole(l[i], 0, 4));
    assert l[..i] + q + l[i + 1..] == l[..i] + (q + l[i + 1..]);
  }

  /** No range before the first kernel range fits any size. */
  lemma NoneBefore(l: seq<Region>, i: nat, size: u32)
    requires i == FirstFit(l, 0, 4, ALLOC_VM_KERNEL) < |l|
    ensures l[i].flags == ALLOC_VM_KERNEL && forall j :: 0 <= j < i ==> !Fits(l[j], size, 4, ALLOC_VM_KERNEL)
  {
    hide FirstFit, AlignAddress, Remaining;
    forall j | 0 <= j < i ensures !Matches(l[j], ALLOC_VM_KERNEL) { assert !Fits(l[j], 0, 4, ALLOC_VM_KERNEL); }
  }

  lemma FirstRange(l: seq<Region>, u: seq<Region>, space: iset<int>, i: nat)
    requires Inv(l, ALLOC_VM_KERNEL, Elems(u), space) && i < |l| && l[i].flags == ALLOC_VM_KERNEL
    ensures Good(l[i]) && l[i].address > 0 && End(l[i]) % 4 == 0
  {
    hide Inv;
    InvWf(l, ALLOC_VM_KERNEL, Elems(u), space);
    WfSorted(l);
    EndsAligned(l, ALLOC_VM_KERNEL, Elems(u), space, i);
    HasAt(l, i, l[i].address);
  }

  /** After a block of no bytes the next one gets the same address exactly when the first kernel
      range has room for it. */
  lemma SameAddress(l: seq<Region>, u: seq<Region>, space: iset<int>, size: u32)
    requires Inv(l, ALLOC_VM_KERNEL, Elems(u), space) && HasRoom(l, 0) && size > 0
    ensures HasRoom(Nicked(l), size) && Spot(Nicked(l), size) == Spot(l, 0) <==>
            FirstFit(l, size, 4, ALLOC_VM_KERNEL) == FirstFit(l, 0, 4, ALLOC_VM_KERNEL)
  {
    hide Inv, FirstFit, Pieces, AlignAddress, Fits, Nicked, Good, HasRoom, Spot;
    var i := FirstFit(l, 0, 4, ALLOC_VM_KERNEL);
    assert i < |l| && Spot(l, 0) == Hole(l[i], 0, 4).address by { SpotIs(l, 0); }
    var p, r, rest := l[..i], l[i], l[i + 1..];
    AroundFirst(l, i);
    NoneBefore(l, i, size);
    FirstRange(l, u, space, i);
    NickedFits(r, size, rest);
    SpotBehind(p, Pieces(r, Hole(r, 0, 4)) + rest, size);
    FitBehind(p, [r] + rest, size);
    if Fits(r, size, 4, ALLOC_VM_KERNEL) {
      HeadFits(r, rest, size);
    } else {
      RestSpot(l, u, space, i, size);
    }
  }

  lemma SpotIs(l: seq<Region>, size: u32)
    requires HasRoom(l, size)
    ensures var k := FirstFit(l, size, 4, ALLOC_VM_KERNEL); k < |l| && Spot(l, size) == Hole(l[k], size, 4).address
  {
  }

  lemma SpotBehind(p: seq<Region>, q: seq<Region>, size: u32)
    requires forall i :: 0 <= i < |p| ==> !Fits(p[i], size, 4, ALLOC_VM_KERNEL)
    ensures HasRoom(p + q, size) <==> HasRoom(q, size)
    ensures HasRoom(q, size) ==> Spot(p + q, size) == Spot(q, size)
  {
    hide FirstFit, Fits;
    FitBehind(p, q, size);
  }

  /** If the first kernel range has no room, what its parts and the rest of the list give lies elsewhere. */
  lemma RestSpot(l: seq<Region>, u: seq<Region>, space: iset<int>, i: nat, size: u32)
    requires Inv(l, ALLOC_VM_KERNEL, Elems(u), space) && i < |l| && l[i].flags == ALLOC_VM_KERNEL && size > 0
    requires !Fits(l[i], size, 4, ALLOC_VM_KERNEL) && FirstFit(l, 0, 4, ALLOC_VM_KERNEL) == i
    ensures var m := Pieces(l[i], Hole(l[i], 0, 4)) + l[i + 1..];
      (HasRoom(m, size) ==> Spot(m, size) != Hole(l[i], 0, 4).address) && FirstFit(l, size, 4, ALLOC_VM_KERNEL) != i
  {
    hide Inv, FirstFit, Pieces, AlignAddress, Fits, Good;
    var q, rest := Pieces(l[i], Hole(l[i], 0, 4)), l[i + 1..];
    FirstRange(l, u, space, i);
    NickedFits(l[i], size, rest);
    var k := FirstFit(rest, size, 4, ALLOC_VM_KERNEL);
    if k < |rest| {
      assert (q + rest)[|q| + k] == l[i + 1 + k];
      LaterSpot(l, u, space, i, i + 1 + k, size);
    }
  }

  /** A later kernel range starts behind the end of an earlier one. */
  lemma LaterSpot(l: seq<Region>, u: seq<Region>, space: iset<int>, i: nat, j: nat, size: u32)
    requires Inv(l, ALLOC_VM_KERNEL, Elems(u), space) && i < j < |l| && l[i].flags == ALLOC_VM_KERNEL
    requires Fits(l[j], size, 4, ALLOC_VM_KERNEL) && size > 0
    ensures Hole(l[j], size, 4).address != Hole(l[i], 0, 4).address
  {
    hide Inv, AlignAddress;
    assert IsPower(4) by { assert Pow2(2) == 4; }
    InvWf(l, ALLOC_VM_KERNEL, Elems(u), space);
    WfSorted(l);
    EndsAligned(l, ALLOC_VM_KERNEL, Elems(u), space, i);
    EndsAligned(l, ALLOC_VM_KERNEL, Elems(u), space, j);
    GapAfter(l, i);
    HasAt(l, j, l[j].address);
    RemainingIs(l[j], 4);
    AlignUp(l[i].address, 4);
    AlignUp(l[j].address, 4);
    RoundUpLeast(l[i].address, 4, End(l[i]));
  }

  /** A block recorded behind an empty one at its address is hidden by it: kmem_vm_get_size answers 0, and kmem_vm_free
      takes the empty one. */
  lemma {:induction false} Shadowed(u: seq<Region>, a: u32, size: u32)
    requires Ascending(u) && forall b :: b in u ==> b.address != a
    ensures var v := Placed(Placed(u, Block(a, 0)), Block(a, size));
      && Block(a, size) in v && FirstAt(v, a) == Some(Block(a, 0)) && Dropped(v, a) == Placed(u, Block(a, size))
  {
    if u == [] || a < u[0].address {
      assert Placed(u, Block(a, 0)) == [Block(a, 0)] + u;
      assert ([Block(a, 0)] + u)[1..] == u;
      PlacedHas(u, Block(a, size));
    } else {
      Shadowed(u[1..], a, size);
    }
  }

  /** One free page serves every request of up to its size from its start, and an empty cut leaves it as it is. */
  lemma OnePage(size: u32)
    requires size <= 0x1000
    ensures var l := [Region(0xD000_0000, 0x1000, ALLOC_VM_KERNEL)];
      HasRoom(l, size) && Spot(l, size) == 0xD000_0000 && HasRoom(l, 0) && Nicked(l) == l
  {
    hide AlignAddress, Pieces, FirstFit, Remaining;
    var r: Region := Region(0xD000_0000, 0x1000, ALLOC_VM_KERNEL);
    assert IsPower(4) by { assert Pow2(2) == 4; }
    AlignUp(r.address, 4);
    RemainingIs(r, 4);
    NickedPieces(r);
    HeadFits(r, [], size);
    HeadFits(r, [], 0);
    assert [r] + [] == [r] && [r][..0] + [r] + [r][1..] == [r];
  }

  /** There a block of no bytes and the next block lie at the same address, and the first hides the second. */
  lemma EmptyBlockHides(size: u32)
    requires 0 < size <= 0x1000
    ensures var l, a := [Region(0xD000_0000, 0x1000, ALLOC_VM_KERNEL)], 0xD000_0000;
      && HasRoom(l, 0) && Spot(l, 0) == a && Nicked(l) == l && HasRoom(l, size) && Spot(l, size) == a
      && Placed(Placed([], Block(a, 0)), Block(a, size)) == [Block(a, 0), Block(a, size)]
      && FirstAt([Block(a, 0), Block(a, size)], a) == Some(Block(a, 0))
      && Dropped([Block(a, 0), Block(a, size)], a) == [Block(a, size)]
  {
    hide HasRoom, Spot, Nicked;
    OnePage(0);
    OnePage(size);
    var a: u32 := 0xD000_0000;
    assert [Block(a, 0)][1..] == [] && [Block(a, 0), Block(a, size)][1..] == [Block(a, size)];
  }

  class KernelSpace {
    /** Available ranges, and ranges in use; regions in use never merge. */
    const avail: RegionMap
    const used: RegionMap
    ghost var space: iset<int>

    ghost predicate Valid()
      reads this, avail, used
    {
      && avail != used && avail.policy == SameFlags && used.policy == Never
      && Ascending(used.regions)
      && Inv(avail.regions, ALLOC_VM_KERNEL, Elems(used.regions), space)
    }

    constructor ()
      ensures Valid() && space == iset{} && avail.regions == [] && used.regions == [] && fresh(avail) && fresh(used)
    {
      var a := new RegionMap(SameFlags);
      var u := new RegionMap(Never);
      avail, used, space := a, u, iset{};
    }

    /** kmem_load_layout: user space below the kernel's link address, and the rest, less the bootstrap area, for the
        kernel. */
    method LoadLayout(segmentStart: u32, memoryEnd: u32)
      requires avail != used && avail.policy == SameFlags && used.policy == Never && avail.regions == []
      requires used.regions == []
      requires PAGE_SIZE < segmentStart < memoryEnd && memoryEnd % 4 == 0
      modifies this`space, avail
      ensures Valid() && space == Plus(iset{}, Region(memoryEnd, W - memoryEnd, ALLOC_VM_KERNEL))
      ensures forall x :: Has(avail.regions, x, ALLOC_VM_USER) <==> PAGE_SIZE <= x < segmentStart
      ensures forall x :: Has(avail.regions, x, ALLOC_VM_KERNEL) <==> memoryEnd <= x < W
    {
      hide Inv, Wf, Added, Subtracted, Elems;
      MemFree(avail, PAGE_SIZE, segmentStart - PAGE_SIZE, ALLOC_VM_USER);
      MemFree(avail, segmentStart, W - segmentStart, ALLOC_VM_KERNEL);
      assert avail.regions == Raw(segmentStart);
      LayoutRaw(segmentStart);
      WfSorted(avail.regions);
      RangeAcquire(avail, segmentStart, memoryEnd - segmentStart);
      LayoutBytes(segmentStart, memoryEnd);
      space := Plus(iset{}, Region(memoryEnd, W - memoryEnd, ALLOC_VM_KERNEL));
      LayoutInv(avail.regions, segmentStart, memoryEnd);
    }

    /** kmem_vm_alloc: a new block from the kernel's ranges, or 0 when no range can hold one. A block of no bytes
        breaks the invariant: it is recorded as in use, and may split the range it comes from. */
    method VmAlloc(size: u32) returns (addr: u32)
      requires Valid()
      modifies avail, used
      ensures var l, i := old(avail.regions), FirstFit(old(avail.regions), size, 4, ALLOC_VM_KERNEL);
        if i == |l| then addr == 0 && avail.regions == l && used.regions == old(used.regions)
        else
          && Given(l, i, avail.regions, Hole(l[i], size, 4), addr)
          && used.regions == Placed(old(used.regions), Block(addr, size))
      ensures Valid() <==> size > 0 || !HasRoom(old(avail.regions), size)
      ensures size > 0 ==> (addr == 0 <==> !HasRoom(old(avail.regions), size))
      ensures size > 0 && addr != 0 ==> NewBlock(old(used.regions), used.regions, Block(addr, size))
    {
      hide Inv, Carved, AlignAddress;
      ghost var l, u := avail.regions, used.regions;
      ghost var i := FirstFit(l, size, 4, ALLOC_VM_KERNEL);
      InvWf(l, ALLOC_VM_KERNEL, Elems(u), space);
      var r := MemAlloc(avail, size, 0, ALLOC_VM_KERNEL);
      addr := 0;
      if r.Some? {
        addr := r.value;
        AddedNever(u, Block(addr, size));
        used.Add(Region(addr, size, ALLOC_VM_KERNEL));
        if size > 0 {
          TakeBlock(l, u, space, i, size);
        } else {
          PlacedHas(u, Block(addr, 0));
          EmptyBlock(avail.regions, used.regions, space, addr);
        }
      }
    }

    /** kmem_vm_free: the first block recorded at an address becomes available; without one the kernel panics. */
    method VmFree(addr: u32) returns (panicked: bool)
      requires avail != used && avail.policy == SameFlags
      modifies avail, used
      ensures old(Valid()) ==> Valid()
      ensures panicked <==> FirstAt(old(used.regions), addr).None?
      ensures panicked ==> avail.regions == old(avail.regions) && used.regions == old(used.regions)
      ensures !panicked ==> var b := FirstAt(old(used.regions), addr).value;
        && used.regions == Dropped(old(used.regions), addr)
        && avail.regions == Added(SameFlags, old(avail.regions), Block(addr, b.size))
        && (old(Valid()) ==> Elems(used.regions) == Elems(old(used.regions)) - {b})
    {
      hide Inv, Added, Dropped;
      ghost var l, u, valid := avail.regions, used.regions, Valid();
      var r := used.FindAddress(addr);
      panicked := r.None?;
      if r.Some? {
        if valid {
          GiveBlock(l, u, space, r.value);
        }
        used.Remove(addr);
        MemFree(avail, addr, r.value.size, ALLOC_VM_KERNEL);
      }
    }

    /** kmem_alloc: whole pages, or 0 if there is no room or, as `wired` says, not enough frames to map, in which case
        the address space is as before. A size that rounds to 0 gives the start of the first kernel range, with no
        page, and records an empty block there. */
    method Alloc(size: u32, wired: bool) returns (addr: u32)
      requires Valid()
      modifies avail, used
      ensures PageAlign(size) > 0 ==>
        Valid() && (addr == 0 <==> !HasRoom(old(avail.regions), PageAlign(size)) || !wired)
      ensures PageAlign(size) > 0 && addr == 0 ==>
        avail.regions == old(avail.regions) && used.regions == old(used.regions)
      ensures PageAlign(size) > 0 && addr != 0 ==>
        NewBlock(old(used.regions), used.regions, Block(addr, PageAlign(size)))
      ensures HasRoom(old(avail.regions), PageAlign(size)) && (wired || PageAlign(size) == 0) ==>
        OneBlock(old(avail.regions), avail.regions, old(used.regions), used.regions, PageAlign(size), addr)
      ensures !HasRoom(old(avail.regions), PageAlign(size)) ==>
        Valid() && addr == 0 && avail.regions == old(avail.regions) && used.regions == old(used.regions)
      ensures PageAlign(size) == 0 && HasRoom(old(avail.regions), 0) ==>
        !Valid() && used.regions == Placed(old(used.regions), Block(addr, 0))
      ensures PageAlign(size) == 0 && addr != 0 ==>
        exists i :: 0 <= i < |old(avail.regions)| && old(avail.regions)[i].flags == ALLOC_VM_KERNEL &&
          addr == Hole(old(avail.regions)[i], 0, 4).address
    {
      hide Inv, Carved, AlignAddress, Added;
      ghost var l, u := avail.regions, used.regions;
      var aligned := PageAlign(size);
      addr := VmAlloc(aligned);
      if addr != 0 {
        ghost var i := FirstFit(l, aligned, 4, ALLOC_VM_KERNEL);
        if !wired && aligned > 0 {
          UndoTake(l, u, space, i, aligned);
          var _ := VmFree(addr);
          addr := 0;
        }
      }
    }

    /** kmem_vm_get_size: the size of the first block recorded at an address. */
    method VmGetSize(addr: u32) returns (size: Option<u32>)
      ensures size == match FirstAt(used.regions, addr) case Some(b) => Some(b.size) case None => None
      ensures Valid() ==> forall b :: b in used.regions && b.address == addr ==> size == Some(b.size)
    {
      var r := used.FindAddress(addr);
      size := if r.Some? then Some(r.value.size) else None;
    }
  }
}
