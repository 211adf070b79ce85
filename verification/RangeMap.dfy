/** The region list as the kernel keeps it: an object whose list the MRL_ operations edit in place. */
module RangeMap {
  import opened Range
  import opened RangeList

  /** Regions in order and without overlap; they may be empty or touch. */
  ghost predicate Sorted(l: seq<Region>) {
    (forall i :: 0 <= i < |l| ==> InSpace(l[i])) && forall i, j :: 0 <= i < j < |l| ==> End(l[i]) <= l[j].address
  }

  /** The list name##_insert leaves: `e` before the first region with a larger address. */
  function Placed(l: seq<Region>, e: Region): seq<Region> {
    if l == [] then [e]
    else if e.address < l[0].address then [e] + l
    else [l[0]] + Placed(l[1..], e)
  }

  lemma {:induction false} PlacedAt(l: seq<Region>, e: Region, k: nat)
    requires k <= |l| && (forall j :: 0 <= j < k ==> l[j].address <= e.address)
    requires k < |l| ==> e.address < l[k].address
    ensures Placed(l, e) == l[..k] + [e] + l[k..]
  {
    if k > 0 {
      PlacedAt(l[1..], e, k - 1);
      assert l[..k] == [l[0]] + l[1..][..k - 1] && l[k..] == l[1..][k - 1..];
    }
  }

  lemma PlacedAfter(pre: seq<Region>, a: Region, e: Region, post: seq<Region>)
    requires (forall r :: r in pre ==> r.address <= e.address) && a.address <= e.address
    requires post != [] ==> e.address < post[0].address
    ensures Placed(pre + [a] + post, e) == pre + [a] + ([e] + post)
  {
    var l, k := pre + [a] + post, |pre| + 1;
    assert l[..k] == pre + [a] && l[k..] == post;
    assert forall j :: 0 <= j < |pre| ==> l[j] == pre[j];
    PlacedAt(l, e, k);
  }

  lemma DropMiddle(pre: seq<Region>, a: Region, post: seq<Region>)
    ensures var l := pre + [a] + post; l[..|pre|] + l[|pre| + 1..] == pre + post
  {
  }

  lemma StitchedPieces(pre: seq<Region>, a: Region, hole: Region, post: seq<Region>)
    requires Cut(a, hole).overlap
    ensures var c := Cut(a, hole);
            var tail := if c.b.size > 0 then [c.a.(address := c.b.address, size := c.b.size)] + post else post;
            pre + Pieces(a, hole) + post == if c.a.size > 0 then pre + [c.a] + tail else pre + tail
  {
  }

  /** The scan of name##_add passes over regions that neither merge with `r` nor follow it. */
  lemma {:induction false} AddedFrom(p: Policy, l: seq<Region>, r: Region, i: nat)
    requires i <= |l| && forall j :: 0 <= j < i ==> Merge(p, l[j], r).None? && r.address >= l[j].address
    ensures Added(p, l, r) == l[..i] + Added(p, l[i..], r)
  {
    if i > 0 {
      AddedFrom(p, l[1..], r, i - 1);
      assert l[..i] == [l[0]] + l[1..][..i - 1] && l[i..] == l[1..][i - 1..];
    } else {
      assert l[0..] == l;
    }
  }

  lemma {:induction false} SubtractedSnoc(l: seq<Region>, a: Region, hole: Region)
    ensures Subtracted(l + [a], hole) == Subtracted(l, hole) + Pieces(a, hole)
  {
    hide Pieces;
    if l == [] {
      assert l + [a] == [a] && [a][1..] == [];
    } else {
      SubtractedSnoc(l[1..], a, hole);
      assert (l + [a])[1..] == l[1..] + [a];
    }
  }

  /** The first region that starts at `addr`. */
  function FirstAt(l: seq<Region>, addr: u32): (r: Option<Region>)
    ensures r.Some? ==> r.value in l && r.value.address == addr
    ensures r.None? ==> forall b :: b in l ==> b.address != addr
  {
    if l == [] then None else if l[0].address == addr then Some(l[0]) else FirstAt(l[1..], addr)
  }

  class RegionMap {
    const policy: Policy
    var regions: seq<Region>

    constructor (p: Policy)
      ensures policy == p && regions == []
    {
      policy, regions := p, [];
    }

    /** MRL_INSERT_IMPL2. */
    method Insert(e: Region)
      modifies this
      ensures regions == Placed(old(regions), e)
    {
      var k := 0;
      while k < |regions| && regions[k].address <= e.address
        invariant k <= |regions| && forall j :: 0 <= j < k ==> regions[j].address <= e.address
      {
        k := k + 1;
      }
      PlacedAt(regions, e, k);
      regions := regions[..k] + [e] + regions[k..];
    }

    /** MRL_ADD_IMPL2. */
    method Add(r: Region)
      modifies this
      ensures regions == Added(policy, old(regions), r)
    {
      var i := 0;
      while i < |regions|
        invariant i <= |regions| && regions == old(regions)
        invariant forall j :: 0 <= j < i ==> Merge(policy, regions[j], r).None? && r.address >= regions[j].address
      {
        var m := Merge(policy, regions[i], r);
        if m.Some? {
          AddedFrom(policy, regions, r, i);
          if i + 1 < |regions| && Merge(policy, regions[i + 1], m.value).Some? {
            assert regions[i..][2..] == regions[i + 2..];
            regions := regions[..i] + ([Merge(policy, regions[i + 1], m.value).value] + regions[i + 2..]);
          } else {
            assert regions[i..][1..] == regions[i + 1..];
            regions := regions[..i] + ([m.value] + regions[i + 1..]);
          }
          return;
        } else if r.address < regions[i].address {
          AddedFrom(policy, regions, r, i);
          regions := regions[..i] + ([r] + regions[i..]);
          return;
        }
        i := i + 1;
      }
      AddedFrom(policy, regions, r, i);
      regions := regions + [r];
    }

    /** MR_CUT_AND_STITCH_IMPL2 for the region `a` at index `i`, between `pre` and `post`. */
    method CutAndStitch(i: nat, hole: Region, ghost pre: seq<Region>, ghost a: Region, ghost post: seq<Region>)
      requires regions == pre + [a] + post && i == |pre| && InSpace(a)
      requires forall r :: r in pre ==> r.address <= a.address
      requires post != [] ==> End(a) <= post[0].address
      modifies this
      ensures regions == pre + Pieces(a, hole) + post
    {
      var c := Cut(regions[i], hole);
      if c.overlap {
        ghost var tail := post;
        regions := regions[i := c.a];
        assert regions == pre + [c.a] + tail;
        if c.b.size != 0 {
          var piece := c.a.(address := c.b.address, size := c.b.size);
          PlacedAfter(pre, c.a, piece, post);
          Insert(piece);
          tail := [piece] + post;
        }
        StitchedPieces(pre, a, hole, post);
        if c.a.size == 0 {
          DropMiddle(pre, c.a, tail);
          regions := regions[..i] + regions[i + 1..];
        }
      }
    }

    /** MRL_SUBTRACT_IMPL2. */
    method Subtract(hole: Region)
      requires Sorted(regions)
      modifies this
      ensures regions == Subtracted(old(regions), hole)
    {
      hide Sorted, Subtracted, Pieces;
      ghost var l := regions;
      ghost var n, m := 0, [];
      var k := 0;
      SubtractedStart(l, hole);
      while k < |regions|
        invariant n <= |l| && m == Subtracted(l[..n], hole) && regions == m + l[n..] && k == |m|
        decreases |l| - n
      {
        var size := |regions|;
        Prefix(l, n, hole);
        NextRegion(l, n, m, hole);
        CutAndStitch(k, hole, m, l[n], l[n + 1..]);
        k := k + 1 + |regions| - size;
        n, m := n + 1, m + Pieces(l[n], hole);
      }
      assert l[..n] == l;
    }

    /** MRL_FIND_ADDRESS_IMPL2. */
    method FindAddress(addr: u32) returns (r: Option<Region>)
      ensures r == FirstAt(regions, addr)
    {
      var i := 0;
      assert regions[0..] == regions;
      while i < |regions|
        invariant i <= |regions| && FirstAt(regions, addr) == FirstAt(regions[i..], addr)
      {
        assert regions[i..][1..] == regions[i + 1..];
        if regions[i].address == addr { return Some(regions[i]); }
        i := i + 1;
      }
      return None;
    }

    /** vm_map_region_remove: drops the first region that starts at `addr`. */
    method Remove(addr: u32)
      modifies this
      ensures regions == Dropped(old(regions), addr)
    {
      hide Dropped;
      ghost var l := regions;
      var i := 0;
      DroppedStep(l, addr, 0);
      while i < |regions|
        invariant i <= |l| && regions == l && DroppedFrom(l, addr, i)
      {
        DroppedStep(l, addr, i);
        if regions[i].address == addr {
          regions := regions[..i] + regions[i + 1..];
          return;
        }
        i := i + 1;
      }
      DroppedStep(l, addr, i);
    }
  }

  ghost predicate DroppedFrom(l: seq<Region>, addr: u32, i: nat) {
    i <= |l| && Dropped(l, addr) == l[..i] + Dropped(l[i..], addr)
  }

  lemma DroppedStep(l: seq<Region>, addr: u32, i: nat)
    requires i <= |l|
    ensures DroppedFrom(l, addr, 0)
    ensures DroppedFrom(l, addr, i) ==>
      if i == |l| then Dropped(l, addr) == l
      else if l[i].address == addr then Dropped(l, addr) == l[..i] + l[i + 1..] else DroppedFrom(l, addr, i + 1)
  {
    assert l[..0] == [] && l[0..] == l && l[|l|..] == [] && l[..|l|] == l;
    if i < |l| {
      assert l[i..][1..] == l[i + 1..];
      Shift(l, i, Dropped(l[i + 1..], addr));
    }
  }

  lemma Shift(l: seq<Region>, i: nat, d: seq<Region>)
    requires i < |l|
    ensures l[..i] + ([l[i]] + d) == l[..i + 1] + d
  {
  }

  function Dropped(l: seq<Region>, addr: u32): seq<Region> {
    if l == [] then [] else if l[0].address == addr then l[1..] else [l[0]] + Dropped(l[1..], addr)
  }

  lemma SubtractedStart(l: seq<Region>, hole: Region)
    ensures Subtracted(l[..0], hole) == [] && l[0..] == l && l[..|l|] == l
  {
  }

  lemma {:induction false} WfSorted(l: seq<Region>)
    requires Wf(l)
    ensures Sorted(l) && forall i :: 0 <= i < |l| ==> Good(l[i])
  {
    if l != [] {
      WfSorted(l[1..]);
      assert forall i :: 0 < i < |l| ==> l[i] == l[1..][i - 1];
    }
  }

  lemma {:induction false} LeftBelow(l: seq<Region>, hole: Region, bound: nat)
    requires forall i :: 0 <= i < |l| ==> InSpace(l[i]) && End(l[i]) <= bound
    ensures forall r :: r in Subtracted(l, hole) ==> r.address <= bound
  {
    if l != [] {
      LeftBelow(l[1..], hole, bound);
      assert forall r :: r in Pieces(l[0], hole) ==> r.address <= bound;
    }
  }

  lemma NextRegion(l: seq<Region>, n: nat, m: seq<Region>, hole: Region)
    requires n < |l| && m == Subtracted(l[..n], hole)
    ensures m + l[n..] == m + [l[n]] + l[n + 1..] && m + Pieces(l[n], hole) == Subtracted(l[..n + 1], hole)
  {
    hide Subtracted, Pieces;
    assert l[n..] == [l[n]] + l[n + 1..];
    SubtractedSnoc(l[..n], l[n], hole);
    assert l[..n + 1] == l[..n] + [l[n]];
  }

  /** While subtracting, what is left of the first `n` regions lies below the next one. */
  lemma Prefix(l: seq<Region>, n: nat, hole: Region)
    requires Sorted(l) && n < |l|
    ensures InSpace(l[n]) && forall j :: n < j < |l| ==> End(l[n]) <= l[j].address
    ensures forall r :: r in Subtracted(l[..n], hole) ==> r.address <= l[n].address
  {
    LeftBelow(l[..n], hole, l[n].address);
  }
}
