/** Memory ranges in 32-bit arithmetic: merge and cut of two ranges (MR_MERGE_IMPL2, MR_CUT_IMPL2). */
module Range {

  const W: nat := 0x1_0000_0000

  type u32 = x: nat | x < W

  /** Unsigned 32-bit addition and subtraction wrap modulo 2^32. */
  function Add32(a: u32, b: u32): u32 {
    if a + b < W then a + b else a + b - W
  }

  function Sub32(a: u32, b: u32): u32 {
    if a >= b then a - b else a + W - b
  }

  datatype Region = Region(address: u32, size: u32, flags: nat)

  datatype Option<T> = None | Some(value: T)

  /** A range of the 32-bit space; it may end at 2^32 but not beyond. */
  predicate InSpace(r: Region) {
    r.address + r.size <= W
  }

  function End(r: Region): nat { r.address + r.size }

  ghost predicate Covers(r: Region, x: int) {
    r.address <= x < End(r)
  }

  // ----- the comparison macros -----

  predicate EndPointLtEndPoint(ps: u32, pz: u32, rs: u32, rz: u32) {
    pz <= Sub32(rz, Sub32(ps, rs))
  }

  predicate EndPointGtStartPoint(ps: u32, pz: u32, rs: u32, rz: u32) {
    ps >= rs || pz >= Sub32(rs, ps)
  }

  predicate StartPointInRange(p: u32, start: u32, size: u32) {
    p >= start && Sub32(p, start) < size
  }

  predicate EndPointInRange(ps: u32, pz: u32, rs: u32, rz: u32) {
    EndPointGtStartPoint(ps, pz, rs, rz) && EndPointLtEndPoint(ps, pz, rs, rz)
  }

  // ----- merge -----

  /** Which ranges an instance of the list may merge (name##_pre_merge). */
  datatype Policy = SameFlags | Never

  predicate PreMerge(p: Policy, a: Region, b: Region) {
    p.SameFlags? && a.flags == b.flags
  }

  /** The new value of `a` if the ranges merge; `b` is never written. */
  function Merge(p: Policy, a: Region, b: Region): Option<Region> {
    if !PreMerge(p, a, b) then None
    else
      var lo, hi := if a.address > b.address then b else a, if a.address > b.address then a else b;
      if StartPointInRange(hi.address, lo.address, lo.size) &&
        EndPointInRange(hi.address, hi.size, lo.address, lo.size) then
        Some(a.(address := lo.address, size := lo.size))
      else if StartPointInRange(hi.address, lo.address, lo.size) &&
        EndPointInRange(lo.address, lo.size, hi.address, hi.size) then
        Some(a.(address := lo.address, size := Add32(hi.size, Sub32(hi.address, lo.address))))
      else if Sub32(hi.address, lo.address) == lo.size then
        Some(a.(address := lo.address, size := Add32(lo.size, hi.size)))
      else None
  }

  /** The ranges overlap or one starts where the other ends. */
  predicate Touch(a: Region, b: Region) {
    if a.address <= b.address then b.address <= End(a) else a.address <= End(b)
  }

  /** Together the ranges are the whole 32-bit space, whose size is not a 32-bit number. */
  predicate FillSpace(a: Region, b: Region) {
    && Touch(a, b) && (a.address == 0 || b.address == 0) && (End(a) == W || End(b) == W)
  }

  ghost predicate IsUnion(r: Region, a: Region, b: Region) {
    InSpace(r) && forall x :: Covers(r, x) <==> Covers(a, x) || Covers(b, x)
  }

  /** The promise in the comment on merge. */
  ghost predicate MergeKept(a: Region, b: Region) {
    var m := Merge(SameFlags, a, b);
    && (m.Some? <==> a.flags == b.flags && Touch(a, b))
    && (m.Some? ==> m.value.flags == a.flags && IsUnion(m.value, a, b))
  }

  function Min(a: nat, b: nat): nat { if a <= b then a else b }

  function Max(a: nat, b: nat): nat { if a <= b then b else a }

  /** What Merge should give; two ranges that fill the whole space come out empty if they are adjacent, and do not
      merge if they overlap. */
  function Hull(a: Region, b: Region): Option<Region>
    requires InSpace(a) && InSpace(b)
  {
    if !Touch(a, b) then None
    else if !FillSpace(a, b) then
      Some(Region(Min(a.address, b.address), Max(End(a), End(b)) - Min(a.address, b.address), a.flags))
    else if End(a) == b.address || End(b) == a.address then Some(Region(0, 0, a.flags))
    else None
  }

  /** Ranges merge if their flags are equal and they touch, and then into their hull. */
  lemma MergeHull(a: Region, b: Region)
    requires InSpace(a) && InSpace(b)
    ensures Merge(SameFlags, a, b) == if a.flags == b.flags then Hull(a, b) else None
  {
    hide Merge, Hull;
    if a.flags != b.flags { MergeFlags(a, b); }
    else if a.address > b.address { MergeDown(a, b); }
    else { MergeUp(a, b); }
  }

  lemma MergeFlags(a: Region, b: Region)
    requires a.flags != b.flags
    ensures Merge(SameFlags, a, b) == None
  {
  }

  lemma MergeUp(a: Region, b: Region)
    requires InSpace(a) && InSpace(b) && a.flags == b.flags && a.address <= b.address
    ensures Merge(SameFlags, a, b) == Hull(a, b)
  {
  }

  lemma MergeDown(a: Region, b: Region)
    requires InSpace(a) && InSpace(b) && a.flags == b.flags && b.address < a.address
    ensures Merge(SameFlags, a, b) == Hull(a, b)
  {
  }

  lemma MergeExact(a: Region, b: Region)
    requires InSpace(a) && InSpace(b)
    ensures MergeKept(a, b) <==> !(a.flags == b.flags && FillSpace(a, b))
  {
    MergeHull(a, b);
    if FillSpace(a, b) {
      assert Covers(a, 0) || Covers(b, 0);
    }
  }

  /** The two halves of the space merge into an empty range. */
  lemma MergeLoses()
    ensures var a, b := Region(0, 0x8000_0000, 0), Region(0x8000_0000, 0x8000_0000, 0);
      Merge(SameFlags, a, b) == Some(Region(0, 0, 0)) && !MergeKept(a, b)
  {
    MergeExact(Region(0, 0x8000_0000, 0), Region(0x8000_0000, 0x8000_0000, 0));
  }

  // ----- cut -----

  /** What cut leaves in `a` and in `b`, and whether it reports an overlap. */
  datatype CutResult = CutResult(overlap: bool, a: Region, b: Region)

  function Cut(a: Region, b: Region): CutResult {
    if StartPointInRange(b.address, a.address, a.size) then
      if EndPointInRange(b.address, b.size, a.address, a.size) then
        var second := Add32(b.address, b.size);
        CutResult(true, a.(size := Sub32(b.address, a.address)),
                  b.(address := second, size := Sub32(a.size, Sub32(second, a.address))))
      else
        CutResult(true, a.(size := Sub32(b.address, a.address)), b.(size := 0))
    else if b.address < a.address then
      if EndPointInRange(b.address, b.size, a.address, a.size) then
        CutResult(true, a.(address := Add32(b.address, b.size),
                           size := Sub32(a.size, Sub32(b.size, Sub32(a.address, b.address)))), b.(size := 0))
      else if StartPointInRange(a.address, b.address, b.size) then
        CutResult(true, a.(size := 0), b.(size := 0))
      else CutResult(false, a, b)
    else CutResult(false, a, b)
  }

  /** `b` starts at 0 and reaches into a range that ends at 2^32: the distance between the two ends wraps to 0. */
  predicate CutWraps(a: Region, b: Region) {
    b.address == 0 && b.address < a.address < b.size && End(a) == W
  }

  /** The promise in the comment on cut: the pieces left are `a` minus `b`. */
  ghost predicate CutKept(a: Region, b: Region) {
    var r := Cut(a, b);
    && (!r.overlap ==> r.a == a && r.b == b && forall x :: !(Covers(a, x) && Covers(b, x)))
    && (r.overlap ==>
         && (r.a.size > 0 ==> InSpace(r.a)) && (r.b.size > 0 ==> InSpace(r.b))
         && (r.a.size > 0 && r.b.size > 0 ==> End(r.a) <= r.b.address)
         && forall x :: Covers(r.a, x) || Covers(r.b, x) <==> Covers(a, x) && !Covers(b, x))
  }

  /** `b` may run past 2^32: it then cuts like a range that ends there. */
  lemma CutExact(a: Region, b: Region)
    requires InSpace(a)
    ensures CutKept(a, b) <==> !CutWraps(a, b)
  {
    if CutWraps(a, b) {
      assert Covers(a, W - 1) && !Covers(b, W - 1);
    }
  }

  /** Cutting the first two pages out of a range that has the rest of the space takes all of it. */
  lemma CutLoses()
    ensures var a, b := Region(0x1000, W - 0x1000, 0), Region(0, 0x2000, 0);
      Cut(a, b).overlap && Cut(a, b).a.size == 0 && Cut(a, b).b.size == 0 && !CutKept(a, b)
  {
    CutExact(Region(0x1000, W - 0x1000, 0), Region(0, 0x2000, 0));
  }
}
