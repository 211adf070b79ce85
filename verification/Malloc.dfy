/** kmalloc and kfree over the free pool (kernel/mm/malloc.c), which grows by pages of the kernel's address space.
    Memory is a map from addresses to the words stored there. */
module Malloc {
  import opened Range
  import opened RangeList
  import opened RangeMap
  import opened Align
  import opened Allocator
  import opened Pool
  import opened Kmem

  /** sizeof(struct kmalloc_block): the two size fields that precede the data. */
  const HEADER: u32 := 8

  /** Neither the block size nor its page-aligned size wraps. */
  predicate Servable(size: u32) {
    size + HEADER <= W - PAGE_SIZE
  }

  /** Some free range of the pool passes the test for `size` bytes. */
  ghost predicate Fitting(l: seq<Region>, size: u32) {
    FirstFit(l, size, 4, 0) < |l|
  }

  ghost predicate Plain(l: seq<Region>) {
    forall x, f :: Has(l, x, f) ==> f == 0
  }

  /** The header of block `b` gives its size and that of its data. */
  ghost predicate HeaderOk(mem: map<u32, u32>, b: Region) {
    && HEADER <= b.size && b.address % 4 == 0 && b.address + 4 < W && b.address in mem && b.address + 4 in mem
    && mem[b.address] == b.size && mem[b.address + 4] == b.size - HEADER
  }

  /** The pages of the pool are in use in the kernel's address space. */
  ghost predicate Owned(pages: iset<int>, used: seq<Region>) {
    forall x :: x in pages ==> LiveHas(Elems(used), x)
  }

  class Kmalloc {
    const avail: RegionMap
    const kern: KernelSpace
    var mem: map<u32, u32>
    ghost var live: set<Region>
    ghost var pages: iset<int>

    ghost predicate Apart()
      reads this, kern
    {
      avail.policy == SameFlags && avail != kern.avail && avail != kern.used
    }

    /** Live blocks and free regions partition the pages obtained so far. */
    ghost predicate Partition()
      reads this, avail, kern, kern.avail, kern.used
    {
      && Apart() && kern.Valid() && Owned(pages, kern.used.regions)
      && Inv(avail.regions, 0, live, pages) && Plain(avail.regions)
    }

    ghost predicate Headers()
      reads this
    {
      forall b :: b in live ==> HeaderOk(mem, b)
    }

    ghost predicate Valid()
      reads this, avail, kern, kern.avail, kern.used
    {
      Partition() && Headers()
    }

    constructor (k: KernelSpace)
      requires k.Valid()
      ensures Valid() && live == {} && pages == iset{} && kern == k && fresh(avail)
    {
      var m := new RegionMap(SameFlags);
      avail, kern := m, k;
      mem, live, pages := map[], {}, iset{};
    }

    /** One call of allocator_mem_alloc on the pool. */
    method Carve(size: u32) returns (r: Option<u32>)
      requires Partition()
      modifies this`live, avail
      ensures r.None? <==> !Fitting(old(avail.regions), size)
      ensures r.None? ==> Partition() && live == old(live) && avail.regions == old(avail.regions)
      ensures r.Some? ==> live == old(live) + {Region(r.value, size, 0)}
      ensures r.Some? && size > 0 ==> Partition() && Handed(old(live), live, Region(r.value, size, 0))
      ensures r.Some? && size > 0 ==> Added(SameFlags, avail.regions, Region(r.value, size, 0)) == old(avail.regions)
    {
      hide Inv, Carved, FirstFit, Owned, Plain, AlignAddress, Added;
      ghost var l := avail.regions;
      InvWf(l, 0, live, pages);
      r := MemAlloc(avail, size, 0, 0);
      if r.Some? {
        if size > 0 { TakeFit(l, live, pages, size); }
        live := live + {Region(r.value, size, 0)};
      }
    }

    /** kmalloc: `block` is what was carved out of the pool, `ptr` what the caller gets: null on failure, else the
        address behind the block's header. Below 2^32 less the header a block has room for the request and disturbs no
        other; beyond, the block size wraps, and a block too small even for its header is handed out. A size that rounds
        to no pages leaves an empty block behind in the kernel's space, whether or not the request is served. */
    method Alloc(size: u32, wired: bool) returns (ptr: u32, ghost block: Option<Region>)
      requires Valid()
      modifies this`mem, this`live, this`pages, avail, kern.avail, kern.used
      ensures block.None? ==> ptr == 0 && live == old(live) && mem == old(mem)
      ensures block.Some? ==> block.value.size == Add32(HEADER, size) && ptr == Add32(block.value.address, HEADER)
      ensures block.Some? ==> live == old(live) + {block.value}
      ensures Valid() <==> Sound(old(avail.regions), old(kern.avail.regions), size, wired)
      ensures block.Some? && size + HEADER < W ==> Handed(old(live), live, block.value) && (size > 0 ==> ptr != 0)
      ensures Fitting(old(avail.regions), Add32(HEADER, size)) ==> block.Some? && pages == old(pages)
      ensures Fitting(old(avail.regions), Add32(HEADER, size)) && size + HEADER < W ==>
        Added(SameFlags, avail.regions, block.value) == old(avail.regions)
      ensures Fitting(old(avail.regions), Add32(HEADER, size)) ==>
        kern.avail.regions == old(kern.avail.regions) && kern.used.regions == old(kern.used.regions)
      ensures !Fitting(old(avail.regions), Add32(HEADER, size)) ==>
        var n := PageAlign(Add32(HEADER, size));
        HasRoom(old(kern.avail.regions), n) && (wired || n == 0) ==>
          Obtained(old(pages), pages, old(kern.avail.regions), kern.avail.regions, old(kern.used.regions),
                   kern.used.regions, n)
      ensures !Fitting(old(avail.regions), Add32(HEADER, size)) ==>
        var n := PageAlign(Add32(HEADER, size));
        !(HasRoom(old(kern.avail.regions), n) && (wired || n == 0)) ==>
          && kern.avail.regions == old(kern.avail.regions) && kern.used.regions == old(kern.used.regions)
          && avail.regions == old(avail.regions) && pages == old(pages) && block.None?
      ensures block.Some? ==>
        mem == old(mem)[block.value.address := block.value.size][Add32(block.value.address, 4) := size]
      ensures Servable(size) ==>
        Valid() && (block.None? <==> Fails(old(avail.regions), old(kern.avail.regions), size, wired))
      ensures Servable(size) && block.None? ==> avail.regions == old(avail.regions) && pages == old(pages)
      ensures Servable(size) && block.None? ==>
        kern.avail.regions == old(kern.avail.regions) && kern.used.regions == old(kern.used.regions)
      ensures !Servable(size) && size + HEADER < W && !Fitting(old(avail.regions), size + HEADER) ==> block.None?
    {
      hide Inv, FirstFit, Owned, Plain, AlignAddress, Added, Obtained;
      var blockSize := Add32(HEADER, size);
      PageSize(blockSize);
      var r := Carve(blockSize);
      if r.None? {
        r := Extend(blockSize, wired);
      }
      block, ptr := None, 0;
      if r.Some? {
        block := Some(Region(r.value, blockSize, 0));
        ptr := Add32(r.value, HEADER);
        ghost var m := mem;
        mem := mem[r.value := blockSize][Add32(r.value, 4) := size];
        if size + HEADER < W {
          NewHeader(old(live), live, block.value, m, mem, size);
        } else {
          assert block.value in live && !HeaderOk(mem, block.value);
        }
      }
    }

    /** The second attempt: more pages, if there are any, and then the request cannot fail. A size that rounds to no
        pages adds an empty range to the pool, which serves nothing. */
    method Extend(blockSize: u32, wired: bool) returns (r: Option<u32>)
      requires Partition() && !Fitting(avail.regions, blockSize)
      modifies this`live, this`pages, avail, kern.avail, kern.used
      ensures live == if r.Some? then old(live) + {Region(r.value, blockSize, 0)} else old(live)
      ensures PageAlign(blockSize) > 0 ==>
        Partition() && (r.None? <==> !HasRoom(old(kern.avail.regions), PageAlign(blockSize)) || !wired)
      ensures PageAlign(blockSize) > 0 && r.None? ==> avail.regions == old(avail.regions) && pages == old(pages)
      ensures PageAlign(blockSize) > 0 && r.None? ==>
        kern.avail.regions == old(kern.avail.regions) && kern.used.regions == old(kern.used.regions)
      ensures PageAlign(blockSize) > 0 && r.Some? ==> Handed(old(live), live, Region(r.value, blockSize, 0))
      ensures HasRoom(old(kern.avail.regions), PageAlign(blockSize)) && (wired || PageAlign(blockSize) == 0) ==>
        Obtained(old(pages), pages, old(kern.avail.regions), kern.avail.regions, old(kern.used.regions),
                 kern.used.regions, PageAlign(blockSize))
      ensures PageAlign(blockSize) == 0 && blockSize > 0 ==> r.None?
      ensures !HasRoom(old(kern.avail.regions), PageAlign(blockSize)) ==>
        && Partition() && r.None? && avail.regions == old(avail.regions) && pages == old(pages)
        && kern.avail.regions == old(kern.avail.regions) && kern.used.regions == old(kern.used.regions)
      ensures PageAlign(blockSize) == 0 && HasRoom(old(kern.avail.regions), 0) ==> !Partition()
    {
      hide Inv, Carved, FirstFit, Hole, Owned, Plain, AlignAddress, Added, Elems, NewBlock;
      ghost var l, k, u := avail.regions, kern.avail.regions, kern.used.regions;
      var aligned := PageAlign(blockSize);
      PageSize(blockSize);
      var grant := kern.Alloc(aligned, wired);
      ghost var p := pages;
      r := None;
      if grant != 0 {
        MemFree(avail, grant, aligned, 0);
        if aligned > 0 {
          Grown(l, live, pages, u, kern.used.regions, Block(grant, aligned), blockSize);
          pages := Plus(pages, Region(grant, aligned, 0));
          r := Carve(blockSize);
        } else {
          InvWf(l, 0, live, pages);
          NowhereInside(l, live, pages, k, u, kern.space, grant);
          AddEmpty(l, Region(grant, 0, 0), blockSize);
          r := MemAlloc(avail, blockSize, 0, 0);
          if r.Some? { live := live + {Region(r.value, blockSize, 0)}; }
        }
      }
      if HasRoom(k, aligned) && (wired || aligned == 0) {
        assert OneBlock(k, kern.avail.regions, u, kern.used.regions, aligned, grant);
        assert Obtained(p, pages, k, kern.avail.regions, u, kern.used.regions, aligned);
      }
    }

    /** A caller stores a word in the data of a live block. */
    method Store(ghost b: Region, at: u32, word: u32)
      requires Valid() && b in live && b.address + HEADER <= at && at + 4 <= End(b) && at % 4 == 0
      modifies this`mem
      ensures Valid() && mem == old(mem)[at := word]
    {
      hide Inv, Owned, Plain;
      DataApart(avail.regions, live, pages, mem, b, at, word);
      mem := mem[at := word];
    }

    /** kfree: null is ignored; a live block, whose size its header tells, goes back to the pool. */
    method Free(ptr: u32)
      requires Valid() && (ptr == 0 || exists b :: b in live && ptr == b.address + HEADER)
      modifies this`live, avail
      ensures Valid()
      ensures ptr == 0 ==> live == old(live) && avail.regions == old(avail.regions)
      ensures ptr != 0 ==> exists b :: b in old(live) && ptr == b.address + HEADER && live == old(live) - {b}
                                    && avail.regions == Added(SameFlags, old(avail.regions), b)
    {
      hide Inv, Owned, Plain, Added;
      if ptr != 0 {
        ghost var b :| b in live && ptr == b.address + HEADER;
        var block := Sub32(ptr, HEADER);
        assert HeaderOk(mem, b);
        LiveGood(avail.regions, 0, live, pages, b);
        Give(avail.regions, 0, live, pages, b);
        GiveLabel(avail.regions, live, pages, b);
        MemFree(avail, block, mem[block], 0);
        live := live - {b};
      }
    }
  }

  /** kmalloc has no block for a servable size: the pool has no room, and the kernel no room for more pages or no
      frames. */
  ghost predicate Fails(pool: seq<Region>, kernel: seq<Region>, size: u32, wired: bool)
    requires Servable(size)
  {
    !Fitting(pool, size + HEADER) && (!HasRoom(kernel, PageAlign(size + HEADER)) || !wired)
  }

  /** When kmalloc keeps its invariant: a block served has room for its header, and no request for no pages reaches a
      kernel that has a free range. */
  ghost predicate Sound(pool: seq<Region>, kernel: seq<Region>, size: u32, wired: bool) {
    var blockSize := Add32(HEADER, size);
    if Fitting(pool, blockSize) then size + HEADER < W
    else if PageAlign(blockSize) == 0 then !HasRoom(kernel, 0)
    else size + HEADER < W || !HasRoom(kernel, PageAlign(blockSize)) || !wired
  }

  /** The pool got exactly the pages of one block of `size` bytes that the kernel's lists gave up; none for no bytes. */
  ghost predicate Obtained(pages: iset<int>, pages': iset<int>, l: seq<Region>, l': seq<Region>, u: seq<Region>,
      u': seq<Region>, size: u32)
  {
    exists a :: OneBlock(l, l', u, u', size, a) && pages' == if size > 0 then Plus(pages, Region(a, size, 0)) else pages
  }

  /** A new block joined the live ones and overlaps none of them. */
  ghost predicate Handed(before: set<Region>, after: set<Region>, b: Region) {
    && b !in before && after == before + {b} && Good(b) && b.address > 0 && b.address % 4 == 0
    && forall a :: a in before ==> Disjoint(a, b)
  }

  lemma PoolFlags(l: seq<Region>)
    requires Wf(l) && Plain(l)
    ensures forall i :: 0 <= i < |l| ==> l[i].flags == 0
  {
    WfSorted(l);
    forall i | 0 <= i < |l| ensures l[i].flags == 0 { HasAt(l, i, l[i].address); }
  }

  /** What Carve cuts out of the pool. */
  lemma TakeFit(l: seq<Region>, live: set<Region>, pages: iset<int>, size: u32)
    requires Inv(l, 0, live, pages) && Plain(l) && size > 0 && Fitting(l, size)
    ensures var i := FirstFit(l, size, 4, 0);
      var hole := Hole(l[i], size, 4);
      && hole == Region(hole.address, size, 0)
      && Inv(Carved(l, i, hole), 0, live + {hole}, pages) && Plain(Carved(l, i, hole))
      && Handed(live, live + {hole}, hole) && Added(SameFlags, Carved(l, i, hole), hole) == l
  {
    hide Inv, Carved, FirstFit, Added;
    var i := FirstFit(l, size, 4, 0);
    InvWf(l, 0, live, pages);
    PoolFlags(l);
    assert IsPower(4) by { assert Pow2(2) == 4; }
    EndsAligned(l, 0, live, pages, i);
    HoleInSpace(l, i, size, 4);
    var hole := Hole(l[i], size, 4);
    Take(l, 0, live, pages, i, hole);
    CarvedBytes(l, i, hole);
    FreeRestores(l, i, hole);
    assert Has(l, hole.address, 0);
  }

  /** A page-aligned grant extends the pool, which then has room for the block. */
  lemma Grown(l: seq<Region>, live: set<Region>, pages: iset<int>, u: seq<Region>, u': seq<Region>, b: Region,
      size: u32)
    requires Inv(l, 0, live, pages) && Plain(l) && Owned(pages, u) && NewBlock(u, u', b) && b.size % 4 == 0
    requires 0 < size <= b.size
    ensures var r := Region(b.address, b.size, 0);
      var m := Added(SameFlags, l, r);
      && Inv(m, 0, live, Plus(pages, r)) && Plain(m) && Owned(Plus(pages, r), u') && Fitting(m, size)
  {
    hide Inv, Added;
    var r := Region(b.address, b.size, 0);
    var m := Added(SameFlags, l, r);
    InvWf(l, 0, live, pages);
    Fresh(pages, u, u', b);
    forall x, g | Has(l, x, g) ensures !Covers(r, x) { assert g == 0; }
    Grow(l, 0, live, pages, r);
    AddUnion(l, r, 0);
    InvWf(m, 0, live, Plus(pages, r));
    PoolFlags(m);
    forall i | 0 <= i < |m| ensures !Overshoots(m[i], 4) { EndsAligned(m, 0, live, Plus(pages, r), i); }
    GrownFits(m, 0, live, Plus(pages, r), r, size, 0);
  }

  lemma Fresh(pages: iset<int>, u: seq<Region>, u': seq<Region>, b: Region)
    requires Owned(pages, u) && NewBlock(u, u', b)
    ensures Owned(Plus(pages, Region(b.address, b.size, 0)), u') && forall x :: Covers(b, x) ==> x !in pages
  {
    forall x | x in pages ensures !Covers(b, x) {
      var a :| a in Elems(u) && Covers(a, x);
      assert a in u && Disjoint(a, b);
    }
    forall x | x in pages || Covers(b, x) ensures LiveHas(Elems(u'), x) { LivePlus(Elems(u), b, x); }
  }

  /** No region of the pool has `g` strictly inside. */
  ghost predicate Outside(l: seq<Region>, g: u32) {
    forall i :: 0 <= i < |l| ==> !(l[i].address < g < End(l[i]))
  }

  /** The start of a free kernel range is not inside the pool. */
  lemma NowhereInside(l: seq<Region>, live: set<Region>, pages: iset<int>, k: seq<Region>, u: seq<Region>,
      space: iset<int>, g: u32)
    requires Inv(l, 0, live, pages) && Plain(l) && Inv(k, ALLOC_VM_KERNEL, Elems(u), space) && Owned(pages, u) && g != 0
    requires exists i :: 0 <= i < |k| && k[i].flags == ALLOC_VM_KERNEL && g == Hole(k[i], 0, 4).address
    ensures Outside(l, g) && g % 4 == 0
  {
    var i :| 0 <= i < |k| && k[i].flags == ALLOC_VM_KERNEL && g == Hole(k[i], 0, 4).address;
    InvWf(k, ALLOC_VM_KERNEL, Elems(u), space);
    InvWf(l, 0, live, pages);
    WfSorted(k);
    assert IsPower(4) by { assert Pow2(2) == 4; }
    EndsAligned(k, ALLOC_VM_KERNEL, Elems(u), space, i);
    RemainingIs(k[i], 4);
    AlignUp(k[i].address, 4);
    RoundUp(k[i].address, 4);
    var y := if g < End(k[i]) then g else g - 1;
    HasAt(k, i, y);
    assert y !in pages;
    PoolFlags(l);
    forall j | 0 <= j < |l| ensures !(l[j].address < g < End(l[j])) {
      if l[j].address < g < End(l[j]) { HasAt(l, j, y); }
    }
  }

  /** An empty region joins the pool as it is or not at all, and serves no request. */
  lemma AddEmpty(l: seq<Region>, e: Region, size: u32)
    requires Wf(l) && Plain(l) && e.size == 0 && e.flags == 0 && e.address > 0 && e.address % 4 == 0
    requires Outside(l, e.address)
    requires (forall x :: Has(l, x, 0) ==> x != 0) && !Fitting(l, size)
    ensures var m := Added(SameFlags, l, e); Sorted(m) && (size > 0 ==> !Fitting(m, size))
  {
    hide FirstFit, Added;
    PoolFlags(l);
    WfSorted(l);
    forall i | 0 <= i < |l| ensures l[i].address > 0 { HasAt(l, i, l[i].address); }
    EmptyAdded(l, e);
    var m := Added(SameFlags, l, e);
    assert IsPower(4) by { assert Pow2(2) == 4; }
    RemainingIs(e, 4);
    forall i | 0 <= i < |m| ensures size > 0 ==> !Fits(m[i], size, 4, 0) {
      assert m[i] in m;
      if m[i] in l { var j :| 0 <= j < |l| && l[j] == m[i]; }
    }
  }

  lemma EmptyMerge(a: Region, e: Region)
    requires Good(a) && e.size == 0 && a.flags == e.flags && a.address > 0 && e.address > 0
    requires !(a.address < e.address < End(a))
    ensures Merge(SameFlags, a, e) == if e.address == a.address || e.address == End(a) then Some(a) else None
  {
    hide Merge;
    MergeHull(a, e);
  }

  lemma NextApart(a: Region, b: Region)
    requires Good(a) && Good(b) && a.flags == b.flags && Below(a, b)
    ensures Merge(SameFlags, b, a) == None
  {
    hide Merge;
    MergeHull(b, a);
  }

  lemma {:induction false} EmptyAdded(l: seq<Region>, e: Region)
    requires Wf(l) && e.size == 0 && e.flags == 0 && e.address > 0 && Outside(l, e.address)
    requires forall i :: 0 <= i < |l| ==> l[i].flags == 0 && l[i].address > 0
    ensures var m := Added(SameFlags, l, e); Sorted(m) && forall r :: r in m ==> r in l || r == e
  {
    hide Merge;
    if l != [] {
      WfSorted(l);
      EmptyMerge(l[0], e);
      if e.address == l[0].address || e.address == End(l[0]) {
        if |l| > 1 { NextApart(l[0], l[1]); }
        assert [l[0]] + l[1..] == l;
      } else if e.address > l[0].address {
        assert forall i :: 0 <= i < |l[1..]| ==> l[1..][i] == l[i + 1];
        EmptyAdded(l[1..], e);
        SortedCons(l[0], Added(SameFlags, l[1..], e));
      } else {
        SortedCons(e, l);
      }
    }
  }

  lemma SortedCons(a: Region, l: seq<Region>)
    requires InSpace(a) && Sorted(l) && forall r :: r in l ==> End(a) <= r.address
    ensures Sorted([a] + l)
  {
    forall i | 0 <= i < |l| ensures End(a) <= l[i].address { assert l[i] in l; }
  }

  lemma NewHeader(before: set<Region>, after: set<Region>, b: Region, mem: map<u32, u32>, mem': map<u32, u32>,
      size: u32)
    requires Handed(before, after, b) && b.size == size + HEADER
    requires mem' == mem[b.address := b.size][Add32(b.address, 4) := size]
    requires forall a :: a in before ==> HeaderOk(mem, a)
    ensures forall a :: a in after ==> HeaderOk(mem', a)
  {
    forall a | a in before ensures HeaderOk(mem', a) { assert Disjoint(a, b) && HeaderOk(mem, a); }
  }

  /** Words in the data of one block are in no header. */
  lemma DataApart(l: seq<Region>, live: set<Region>, pages: iset<int>, mem: map<u32, u32>, b: Region, at: u32,
      word: u32)
    requires Inv(l, 0, live, pages) && b in live && b.address + HEADER <= at && at + 4 <= End(b)
    requires forall a :: a in live ==> HeaderOk(mem, a)
    ensures forall a :: a in live ==> HeaderOk(mem[at := word], a)
  {
    forall a | a in live ensures HeaderOk(mem[at := word], a) { assert HeaderOk(mem, a) && (a == b || Disjoint(a, b)); }
  }

  lemma GiveLabel(l: seq<Region>, live: set<Region>, pages: iset<int>, b: Region)
    requires Inv(l, 0, live, pages) && b in live && Plain(l)
    ensures Plain(Added(SameFlags, l, b))
  {
    forall x, g | Has(l, x, g) ensures !Covers(b, x) { assert Covers(b, x) ==> LiveHas(live, x); }
    assert b.address > 0 by { assert LiveHas(live, b.address); }
    AddUnion(l, b, 0);
  }

  /** Page alignment: sizes from 1 to 2^32 less a page round up, all others to 0. */
  lemma PageSize(size: u32)
    ensures PageAlign(size) % 4 == 0 && PageAlign(PageAlign(size)) == PageAlign(size)
    ensures if 0 < size <= W - PAGE_SIZE then size <= PageAlign(size) else PageAlign(size) == 0
  {
    hide AlignAddress;
    assert IsPower(PAGE_SIZE) by { assert Pow2(8) == 256; assert Pow2(12) == 4096; }
    AlignUp(size, PAGE_SIZE);
    RoundUp(size, PAGE_SIZE);
    AlignUp(PageAlign(size), PAGE_SIZE);
    if size <= W - PAGE_SIZE { RoundUpLeast(size, PAGE_SIZE, W - PAGE_SIZE); }
    else { MultipleAbove(size + Padding(size, PAGE_SIZE)); }
  }

  lemma MultipleAbove(p: nat)
    requires W - PAGE_SIZE < p <= W && p % PAGE_SIZE == 0
    ensures p == W
  {
  }

  /** The block covers the request and its pages cover the block exactly for the servable sizes. */
  lemma ServableExact(size: u32)
    ensures Servable(size) <==> size <= Add32(HEADER, size) <= PageAlign(Add32(HEADER, size))
  {
    PageSize(Add32(HEADER, size));
  }

  /** A request of 2^32 - 8 bytes gets a block of none from every pool that is not empty. */
  lemma WrappedRequest(l: seq<Region>)
    requires l != []
    ensures var size := 0xFFFF_FFF8;
      !Servable(size) && Add32(HEADER, size) == 0 && FirstFit(l, Add32(HEADER, size), 4, 0) == 0
  {
  }

  /** A request for just below 2^32 bytes that the pool cannot serve asks the kernel for no pages, gets null, and
      breaks the invariant if the kernel has any free range. */
  lemma RefusedRequest(pool: seq<Region>, wired: bool)
    requires !Fitting(pool, 0xFFFF_F808)
    ensures var size, kernel := 0xFFFF_F800, [Region(0xD000_0000, 0x1000, ALLOC_VM_KERNEL)];
      !Servable(size) && size + HEADER < W && PageAlign(size + HEADER) == 0 && !Sound(pool, kernel, size, wired)
  {
    PageSize(0xFFFF_F808);
    EmptyBlockHides(1);
  }
}
