/** Substring search (libs/uthash/src/utstring.h): the optimised Knuth-Morris-Pratt table and both search directions.
    A string read from either end is a `View`, so that the two directions share one theory. */
module Search {

  /** A string, read from the left or, when `back`, from the right. */
  datatype View = View(s: seq<char>, back: bool)

  function Len(v: View): nat { |v.s| }

  /** The character at position `k` from the end where reading starts. */
  function At(v: View, k: int): char
    requires 0 <= k < Len(v)
  {
    if v.back then v.s[|v.s| - 1 - k] else v.s[k]
  }

  ghost predicate SameAt(v: View, a: int, w: View, c: int, k: int) {
    0 <= a + k < Len(v) && 0 <= c + k < Len(w) && At(v, a + k) == At(w, c + k)
  }

  /** The `n` characters from `a` on in `v` are those from `c` on in `w`. */
  ghost predicate Same(v: View, a: int, w: View, c: int, n: int) {
    0 <= n && 0 <= a <= Len(v) - n && 0 <= c <= Len(w) - n && forall k :: 0 <= k < n ==> SameAt(v, a, w, c, k)
  }

  lemma SamePart(v: View, a: int, w: View, c: int, n: int, x: int, m: int)
    requires Same(v, a, w, c, n) && 0 <= x && 0 <= m && x + m <= n
    ensures Same(v, a + x, w, c + x, m)
  {
    var a', c' := a + x, c + x;
    forall k | 0 <= k < m ensures SameAt(v, a', w, c', k) { assert SameAt(v, a, w, c, x + k); }
  }

  lemma SameMore(v: View, a: int, w: View, c: int, n: int)
    requires 0 <= n && 0 <= a < Len(v) - n && 0 <= c < Len(w) - n
    ensures Same(v, a, w, c, n + 1) <==> Same(v, a, w, c, n) && At(v, a + n) == At(w, c + n)
  {
    assert SameAt(v, a, w, c, n) <==> At(v, a + n) == At(w, c + n);
  }

  lemma SameFlip(v: View, a: int, w: View, c: int, n: int)
    requires Same(v, a, w, c, n)
    ensures Same(w, c, v, a, n)
  {
    forall k | 0 <= k < n ensures SameAt(w, c, v, a, k) { assert SameAt(v, a, w, c, k); }
  }

  lemma SameTrans(u: View, a: int, v: View, b: int, w: View, c: int, n: int)
    requires Same(u, a, v, b, n) && Same(u, a, w, c, n)
    ensures Same(v, b, w, c, n)
  {
    forall k | 0 <= k < n ensures SameAt(v, b, w, c, k) { assert SameAt(u, a, v, b, k) && SameAt(u, a, w, c, k); }
  }

  // ----- borders -----

  /** The first `j` characters of `p` are also the last `j` of its first `i`. */
  ghost predicate Border(p: View, i: int, j: int) {
    0 <= j < i <= Len(p) && Same(p, 0, p, i - j, j)
  }

  /** `v` is the longest proper border of the first `i` characters, or -1 for `i == 0`. */
  ghost predicate Longest(p: View, i: int, v: int) {
    if i == 0 then v == -1 else Border(p, i, v) && forall r :: v < r < i ==> !Border(p, i, r)
  }

  /** `v` is where to resume after a mismatch at `i`: the longest border not followed by the same character. */
  ghost predicate Resume(p: View, i: int, v: int) {
    && 0 <= i < Len(p) && (v == -1 || (Border(p, i, v) && At(p, v) != At(p, i)))
    && forall r :: v < r < i && Border(p, i, r) ==> At(p, r) == At(p, i)
  }

  lemma BorderOfBorder(p: View, i: int, j: int, r: int)
    requires Border(p, i, j)
    ensures r < j ==> (Border(p, i, r) <==> Border(p, j, r))
  {
    if 0 <= r < j {
      SamePart(p, 0, p, i - j, j, j - r, r);
      if Border(p, i, r) {
        SameFlip(p, 0, p, i - r, r);
        SameFlip(p, j - r, p, i - r, r);
        SameTrans(p, i - r, p, 0, p, j - r, r);
      }
      if Border(p, j, r) { SameFlip(p, 0, p, j - r, r); SameTrans(p, j - r, p, 0, p, i - r, r); }
    }
  }

  lemma BorderExtends(p: View, i: int, r: int)
    requires 0 <= i < Len(p)
    ensures Border(p, i + 1, r + 1) <==> r == -1 || (Border(p, i, r) && At(p, r) == At(p, i))
  {
    if 0 <= r < i { SameMore(p, 0, p, i - r, r); }
  }

  // ----- building the table -----

  /** The state of the inner loop: `j` is a border (or -1) and no longer one can be extended by the character at `i`. */
  ghost predicate Narrowing(p: View, i: int, j: int) {
    && 0 <= i < Len(p) && (j == -1 || Border(p, i, j))
    && forall r :: j < r < i && Border(p, i, r) ==> At(p, r) != At(p, i)
  }

  lemma NarrowOnce(p: View, i: int, j: int, v: int)
    requires Narrowing(p, i, j) && j >= 0 && At(p, i) != At(p, j) && Resume(p, j, v)
    ensures Narrowing(p, i, v)
  {
    forall r | v < r < i && Border(p, i, r) ensures At(p, r) != At(p, i) {
      if r < j { BorderOfBorder(p, i, j, r); }
    }
    if v >= 0 { BorderOfBorder(p, i, j, v); }
  }

  lemma Advance(p: View, i: int, j: int)
    requires Narrowing(p, i, j) && (j == -1 || At(p, i) == At(p, j))
    ensures Longest(p, i + 1, j + 1)
  {
    var n := i + 1;
    BorderExtends(p, i, j);
    forall r | j + 1 < r < n ensures !Border(p, n, r) { BorderExtends(p, i, r - 1); }
  }

  /** The entry the loop writes once the longest border is known. */
  lemma Entry(p: View, i: int, j: int, v: int)
    requires 0 < i < Len(p) && Longest(p, i, j)
    requires if At(p, i) == At(p, j) then Resume(p, j, v) else v == j
    ensures Resume(p, i, v)
  {
    forall r | v < r < i && Border(p, i, r) ensures At(p, r) == At(p, i) {
      if r < j { BorderOfBorder(p, i, j, r); }
    }
    if v >= 0 && v < j { BorderOfBorder(p, i, j, v); }
  }

  ghost predicate Filled(p: seq<char>, t: seq<int>, n: int) {
    |t| == |p| + 1 && forall k :: 0 <= k < n && k < |p| ==> Resume(View(p, false), k, t[k])
  }

  ghost predicate TableOk(p: seq<char>, t: seq<int>) {
    Filled(p, t, |p|) && Longest(View(p, false), |p|, t[|p|])
  }

  /** The inner loop: follows the table until the border can be extended. */
  method Shrink(p: seq<char>, t: array<int>, i: int, start: int) returns (j: int)
    requires Narrowing(View(p, false), i, start) && Filled(p, t[..], i)
    ensures Narrowing(View(p, false), i, j) && (j == -1 || p[i] == p[j])
  {
    j := start;
    while j > -1 && p[i] != p[j]
      invariant Narrowing(View(p, false), i, j)
      decreases j
    {
      NarrowOnce(View(p, false), i, j, t[..][j]);
      j := t[j];
    }
  }

  /** _utstring_BuildTable. */
  method BuildTable(p: seq<char>, t: array<int>)
    requires t.Length == |p| + 1
    modifies t
    ensures TableOk(p, t[..])
  {
    ghost var w := View(p, false);
    var i := 0;
    var j := i - 1;
    t[i] := j;
    while i < |p|
      invariant 0 <= i <= |p| && Longest(w, i, j) && Filled(p, t[..], i + 1)
      invariant i == |p| ==> t[i] == j
    {
      j := Shrink(p, t, i, j);
      Advance(w, i, j);
      i, j := i + 1, j + 1;
      if i < |p| {
        Entry(w, i, j, if p[i] == p[j] then t[..][j] else j);
        t[i] := if p[i] == p[j] then t[j] else j;
      } else {
        t[i] := j;
      }
    }
  }

  /** The right-to-left table is stored one place up, with positions counted from the left. */
  ghost predicate FilledR(p: seq<char>, t: seq<int>, n: int) {
    |t| == |p| + 1 && forall k :: 0 <= k < n && k < |p| ==> EntryOkR(p, t, k)
  }

  ghost predicate EntryOkR(p: seq<char>, t: seq<int>, k: int) {
    0 <= k < |p| < |t| && Resume(View(p, true), k, |p| - 1 - t[|p| - k])
  }

  ghost predicate TableOkR(p: seq<char>, t: seq<int>) {
    FilledR(p, t, |p|) && Longest(View(p, true), |p|, |p| - 1 - t[0])
  }

  lemma FilledAt(p: seq<char>, t: seq<int>, n: int, y: int) returns (v: int)
    requires FilledR(p, t, n) && |p| - n < y <= |p| && 0 < y
    ensures v == |p| - 1 - t[y] && Resume(View(p, true), |p| - y, v)
  {
    assert EntryOkR(p, t, |p| - y);
    v := |p| - 1 - t[y];
  }

  lemma FilledMore(p: seq<char>, t: seq<int>, n: int, a: int, e: int, v: int)
    requires 0 <= n <= |p| && FilledR(p, t, n) && n == a && v == |p| - 1 - e
    requires a < |p| ==> Resume(View(p, true), a, v)
    ensures FilledR(p, t[|p| - n := e], n + 1)
  {
    var u := t[|p| - n := e];
    forall k | 0 <= k < n + 1 && k < |p| ensures EntryOkR(p, u, k) {
      if k < n { EntryKept(p, t, u, k); }
    }
  }

  lemma EntryKept(p: seq<char>, t: seq<int>, u: seq<int>, k: int)
    requires EntryOkR(p, t, k) && |u| == |t| && u[|p| - k] == t[|p| - k]
    ensures EntryOkR(p, u, k)
  {
  }

  lemma StartR(p: seq<char>, t: seq<int>)
    requires |t| == |p| + 1 && t[|p|] == |p|
    ensures FilledR(p, t, 1)
  {
    assert |p| > 0 ==> EntryOkR(p, t, 0);
  }

  lemma EntryR(p: seq<char>, t: seq<int>, n: int, b: int, e: int, v: int)
    requires 0 < n < |p| && FilledR(p, t, n) && v == |p| - 1 - e && Longest(View(p, true), n, b)
    requires if At(View(p, true), n) == At(View(p, true), b) then Resume(View(p, true), b, v) else v == b
    ensures FilledR(p, t[|p| - n := e], n + 1)
  {
    Entry(View(p, true), n, b, v);
    FilledMore(p, t, n, n, e, v);
  }

  /** In the right-to-left methods the ghosts `a` and `b` are the positions `i` and `j` counted from the right. */
  method ShrinkR(p: seq<char>, t: array<int>, i: int, start: int, ghost a: int, ghost b0: int, ghost n: int)
    returns (j: int, ghost b: int)
    requires a == |p| - 1 - i && b0 == |p| - 1 - start && Narrowing(View(p, true), a, b0) && n == a + 1
    requires FilledR(p, t[..], n)
    ensures b == |p| - 1 - j && Narrowing(View(p, true), a, b) && (j == |p| || (i < j < |p| && p[i] == p[j]))
  {
    j, b := start, b0;
    while j < |p| && p[i] != p[j]
      invariant b == |p| - 1 - j && Narrowing(View(p, true), a, b) && i < j <= |p|
      decreases |p| - j
    {
      ghost var v := FilledAt(p, t[..], n, j + 1);
      NarrowOnce(View(p, true), a, b, v);
      j := t[j + 1];
      b := v;
    }
  }

  /** The part of the loop that writes the entry for position `i`. */
  method WriteEntryR(p: seq<char>, t: array<int>, i: int, j: int, ghost a: int, ghost b: int, ghost n: int)
    requires t.Length == |p| + 1 && -1 <= i < |p| && a == |p| - 1 - i && b == |p| - 1 - j && a > 0
    requires Longest(View(p, true), a, b)
    requires n == a && FilledR(p, t[..], n)
    modifies t
    ensures FilledR(p, t[..], n + 1) && (i == -1 ==> t[0] == j)
  {
    var e := j;
    ghost var v, before := b, t[..];
    if i < 0 {
      FilledMore(p, before, n, a, e, v);
    } else {
      if p[i] == p[j] {
        v := FilledAt(p, before, n, j + 1);
        e := t[j + 1];
      }
      EntryR(p, before, n, b, e, v);
    }
    t[i + 1] := e;
    assert t[..] == before[i + 1 := e];
  }

  /** _utstring_BuildTableR. */
  method BuildTableR(p: seq<char>, t: array<int>)
    requires t.Length == |p| + 1
    modifies t
    ensures TableOkR(p, t[..])
  {
    ghost var w := View(p, true);
    var i := |p| - 1;
    var j := i + 1;
    ghost var a, b, n := 0, -1, 1;
    t[i + 1] := j;
    StartR(p, t[..]);
    while i >= 0
      invariant a == |p| - 1 - i && b == |p| - 1 - j && -1 <= i && Longest(w, a, b)
      invariant n == a + 1 && FilledR(p, t[..], n)
      invariant i == -1 ==> t[0] == j
    {
      j, b := ShrinkR(p, t, i, j, a, b, n);
      Advance(w, a, b);
      i, j := i - 1, j - 1;
      a, b := a + 1, b + 1;
      WriteEntryR(p, t, i, j, a, b, n);
      n := n + 1;
    }
  }

  // ----- searching -----

  ghost predicate Occurs(h: seq<char>, p: seq<char>, s: int) {
    0 <= s && s + |p| <= |h| && h[s..s + |p|] == p
  }

  /** An occurrence `s` places from the end where reading starts. */
  ghost predicate Occ(h: View, p: View, s: int) {
    Same(h, s, p, 0, Len(p))
  }

  lemma OccIsOccurs(h: seq<char>, p: seq<char>, back: bool, s: int)
    ensures Occ(View(h, back), View(p, back), s) <==> Occurs(h, p, if back then |h| - |p| - s else s)
  {
    if 0 <= s && s + |p| <= |h| {
      var vh, vp, x := View(h, back), View(p, back), if back then |h| - |p| - s else s;
      var a := h[x..x + |p|];
      forall k | 0 <= k < |p|
        ensures SameAt(vh, s, vp, 0, k) <==> if back then a[|p| - 1 - k] == p[|p| - 1 - k] else a[k] == p[k] { }
      if Occ(vh, vp, s) {
        forall k | 0 <= k < |p| ensures a[k] == p[k] { assert SameAt(vh, s, vp, 0, if back then |p| - 1 - k else k); }
      }
    }
  }

  /** The first `i` characters of `p` match just before position `j`, and no occurrence starts earlier. */
  ghost predicate Aligned(h: View, p: View, i: int, j: int) {
    && 0 <= j <= Len(h) && -1 <= i <= Len(p) && i <= j
    && (i >= 0 ==> Same(h, j - i, p, 0, i))
    && forall s :: s < j - i ==> !Occ(h, p, s)
  }

  lemma Slide(h: View, p: View, i: int, j: int, v: int)
    requires Aligned(h, p, i, j) && 0 <= i < Len(p) && j < Len(h) && At(p, i) != At(h, j) && Resume(p, i, v)
    ensures Aligned(h, p, v, j)
  {
    hide Same, Occ, Resume;
    ResumeBounds(p, i, v);
    forall s | s < j - v ensures !Occ(h, p, s) {
      if s >= j - i { SlidesPast(h, p, i, j, v, s); }
    }
    if v >= 0 { StillSame(h, p, i, j, v); }
  }

  lemma ResumeBounds(p: View, i: int, v: int)
    requires Resume(p, i, v) && i >= 0
    ensures -1 <= v <= i && v <= Len(p)
  {
  }

  /** No occurrence starts between the old alignment and the new one. */
  lemma SlidesPast(h: View, p: View, i: int, j: int, v: int, s: int)
    requires 0 <= i < Len(p) && 0 <= j < Len(h) && i <= j && Same(h, j - i, p, 0, i) && At(p, i) != At(h, j)
    requires Resume(p, i, v)
    requires j - i <= s < j - v
    ensures !Occ(h, p, s)
  {
    if Occ(h, p, s) { Overlap(h, p, i, j, s); }
  }

  /** What matched still matches at the new alignment. */
  lemma StillSame(h: View, p: View, i: int, j: int, v: int)
    requires 0 <= v <= i < Len(p) && i <= j < Len(h) && Same(h, j - i, p, 0, i) && Resume(p, i, v)
    ensures Same(h, j - v, p, 0, v)
  {
    SamePart(h, j - i, p, 0, i, i - v, v);
    SameFlip(h, j - v, p, i - v, v);
    SameFlip(p, 0, p, i - v, v);
    SameTrans(p, i - v, h, j - v, p, 0, v);
  }

  /** An occurrence that starts inside the matched part makes a border followed by the character found. */
  lemma Overlap(h: View, p: View, i: int, j: int, s: int)
    requires 0 <= i < Len(p) && 0 <= j < Len(h) && i <= j && Same(h, j - i, p, 0, i)
    requires Occ(h, p, s) && j - i <= s <= j
    ensures At(p, j - s) == At(h, j) && (s > j - i ==> Border(p, i, j - s))
  {
    var r := j - s;
    assert SameAt(h, s, p, 0, r);
    if r < i {
      SamePart(h, s, p, 0, Len(p), 0, r);
      SamePart(h, j - i, p, 0, i, i - r, r);
      SameTrans(h, s, p, 0, p, i - r, r);
    }
  }

  lemma Step(h: View, p: View, i: int, j: int)
    requires Aligned(h, p, i, j) && j < Len(h) && i < Len(p) && (i == -1 || At(p, i) == At(h, j))
    ensures Aligned(h, p, i + 1, j + 1)
  {
    if i >= 0 { SameMore(h, j - i, p, 0, i); }
  }

  /** `pos` is the leftmost occurrence, or -1 when there is none. */
  ghost predicate Leftmost(h: seq<char>, p: seq<char>, pos: int) {
    if pos == -1 then forall s :: !Occurs(h, p, s)
    else Occurs(h, p, pos) && forall s :: s < pos ==> !Occurs(h, p, s)
  }

  /** `pos` is the rightmost occurrence, or -1 when there is none. */
  ghost predicate Rightmost(h: seq<char>, p: seq<char>, pos: int) {
    if pos == -1 then forall s :: !Occurs(h, p, s)
    else Occurs(h, p, pos) && forall s :: pos < s ==> !Occurs(h, p, s)
  }

  lemma Found(h: seq<char>, p: seq<char>, j: int)
    requires Aligned(View(h, false), View(p, false), |p|, j)
    ensures Leftmost(h, p, j - |p|)
  {
    OccIsOccurs(h, p, false, j - |p|);
    forall s | s < j - |p| ensures !Occurs(h, p, s) { OccIsOccurs(h, p, false, s); }
  }

  lemma FoundR(h: seq<char>, p: seq<char>, j: int)
    requires Aligned(View(h, true), View(p, true), |p|, j)
    ensures Rightmost(h, p, |h| - j)
  {
    OccIsOccurs(h, p, true, j - |p|);
    forall s | s > |h| - j ensures !Occurs(h, p, s) { OccIsOccurs(h, p, true, |h| - |p| - s); }
  }

  lemma Exhausted(h: seq<char>, p: seq<char>, back: bool, i: int, j: int)
    requires Aligned(View(h, back), View(p, back), i, j) && |h| - j + i < |p|
    ensures forall s :: !Occurs(h, p, s)
  {
    forall s ensures !Occurs(h, p, s) { OccIsOccurs(h, p, back, if back then |h| - |p| - s else s); }
  }

  method Resync(h: seq<char>, p: seq<char>, t: array<int>, start: int, j: int) returns (i: int)
    requires Filled(p, t[..], |p|) && Aligned(View(h, false), View(p, false), start, j) && start < |p| && j < |h|
    ensures Aligned(View(h, false), View(p, false), i, j) && i < |p| && (i == -1 || p[i] == h[j])
  {
    i := start;
    while i > -1 && p[i] != h[j]
      invariant Aligned(View(h, false), View(p, false), i, j) && i < |p|
      decreases i
    {
      Slide(View(h, false), View(p, false), i, j, t[..][i]);
      i := t[i];
    }
  }

  /** _utstring_find. */
  method FindFrom(h: seq<char>, p: seq<char>, t: array<int>) returns (pos: int)
    requires |p| > 0 && TableOk(p, t[..])
    ensures Leftmost(h, p, pos)
  {
    ghost var vh, vp := View(h, false), View(p, false);
    var i, j := 0, 0;
    while j < |h| && |h| - j + i >= |p|
      invariant Aligned(vh, vp, i, j) && 0 <= i < |p|
    {
      i := Resync(h, p, t, i, j);
      Step(vh, vp, i, j);
      i, j := i + 1, j + 1;
      if i >= |p| {
        Found(h, p, j);
        return j - i;
      }
    }
    Exhausted(h, p, false, i, j);
    return -1;
  }

  method ResyncR(h: seq<char>, p: seq<char>, t: array<int>, start: int, j: int, ghost a0: int, ghost b: int)
    returns (i: int, ghost a: int)
    requires FilledR(p, t[..], |p|) && 0 <= start && 0 <= j < |h| && a0 == |p| - 1 - start && b == |h| - 1 - j
    requires Aligned(View(h, true), View(p, true), a0, b)
    ensures a == |p| - 1 - i && Aligned(View(h, true), View(p, true), a, b)
    ensures i == |p| || (0 <= i < |p| && p[i] == h[j])
  {
    i, a := start, a0;
    while i < |p| && p[i] != h[j]
      invariant a == |p| - 1 - i && Aligned(View(h, true), View(p, true), a, b) && 0 <= i <= |p|
      decreases |p| - i
    {
      ghost var v := FilledAt(p, t[..], |p|, i + 1);
      Slide(View(h, true), View(p, true), a, b, v);
      i := t[i + 1];
      a := v;
    }
  }

  /** _utstring_findR. */
  method FindFromR(h: seq<char>, p: seq<char>, t: array<int>) returns (pos: int)
    requires |p| > 0 && TableOkR(p, t[..])
    ensures Rightmost(h, p, pos)
  {
    ghost var vh, vp, a, b := View(h, true), View(p, true), 0, 0;
    var j, i := |h| - 1, |p| - 1;
    while j >= 0 && j >= i
      invariant a == |p| - 1 - i && b == |h| - 1 - j && Aligned(vh, vp, a, b) && 0 <= i < |p|
    {
      i, a := ResyncR(h, p, t, i, j, a, b);
      Step(vh, vp, a, b);
      i, j := i - 1, j - 1;
      a, b := a + 1, b + 1;
      if i < 0 {
        FoundR(h, p, b);
        return j + 1;
      }
    }
    Exhausted(h, p, true, a, b);
    return -1;
  }

  // ----- one-time search -----

  /** `pos` is the leftmost occurrence at or after `from`, or -1 when there is none; the empty needle is never found,
      and neither is any without memory for the table. */
  ghost predicate LeftmostFrom(h: seq<char>, p: seq<char>, from: int, memory: bool, pos: int) {
    if memory && |p| > 0 && exists s :: from <= s && Occurs(h, p, s)
    then from <= pos && Occurs(h, p, pos) && forall s :: from <= s < pos ==> !Occurs(h, p, s)
    else pos == -1
  }

  /** `pos` is the rightmost occurrence that ends at or before `last`, or -1 likewise. */
  ghost predicate RightmostTo(h: seq<char>, p: seq<char>, last: int, memory: bool, pos: int) {
    if memory && |p| > 0 && exists s :: s + |p| - 1 <= last && Occurs(h, p, s)
    then pos + |p| - 1 <= last && Occurs(h, p, pos) && forall s :: pos < s && s + |p| - 1 <= last ==> !Occurs(h, p, s)
    else pos == -1
  }

  /** utstring_find: a negative start position counts from the end of the string. */
  method Find(h: seq<char>, start: int, p: seq<char>, memory: bool) returns (pos: int)
    requires -|h| <= start
    ensures start >= 0 ==> LeftmostFrom(h, p, start, memory, pos)
    ensures start < 0 ==> LeftmostFrom(h, p, |h| + start, memory, pos)
  {
    pos := -1;
    var from := if start < 0 then |h| + start else start;
    if |h| - from >= |p| && |p| > 0 && memory {
      var t := new int[|p| + 1];
      BuildTable(p, t);
      pos := FindFrom(h[from..], p, t);
      forall s
        ensures Occurs(h[from..], p, s) <==> from <= from + s && Occurs(h, p, from + s) { OccursFrom(h, p, from, s); }
      assert forall s :: from <= s && Occurs(h, p, s) ==> Occurs(h[from..], p, s - from);
      if pos >= 0 {
        pos := pos + from;
      }
    }
  }

  lemma OccursFrom(h: seq<char>, p: seq<char>, from: nat, s: int)
    requires from <= |h|
    ensures Occurs(h[from..], p, s) <==> 0 <= s && Occurs(h, p, from + s)
  {
    if 0 <= s && from + s + |p| <= |h| { assert h[from..][s..s + |p|] == h[from + s..from + s + |p|]; }
  }

  /** utstring_findR: likewise from the right. */
  method FindR(h: seq<char>, start: int, p: seq<char>, memory: bool) returns (pos: int)
    requires start < |h|
    ensures start >= 0 ==> RightmostTo(h, p, start, memory, pos)
    ensures start < 0 ==> RightmostTo(h, p, |h| + start, memory, pos)
  {
    pos := -1;
    var end := (if start < 0 then |h| + start else start) + 1;
    if end >= |p| && |p| > 0 && memory {
      var t := new int[|p| + 1];
      BuildTableR(p, t);
      pos := FindFromR(h[..end], p, t);
      forall s ensures Occurs(h[..end], p, s) <==> s + |p| <= end && Occurs(h, p, s) { OccursTo(h, p, end, s); }
    }
  }

  lemma OccursTo(h: seq<char>, p: seq<char>, end: nat, s: int)
    requires end <= |h|
    ensures Occurs(h[..end], p, s) <==> s + |p| <= end && Occurs(h, p, s)
  {
    if 0 <= s && s + |p| <= end { assert h[..end][s..s + |p|] == h[s..s + |p|]; }
  }
}
