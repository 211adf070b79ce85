/** utlist seen as values: doubly linked lists in a snapshot of the heap, the order a comparison function gives, and one
    merge of the bottom-up mergesort. */
module ListShape {

  /** An element of a list; the comparison function looks at `key`. */
  class Elem {
    const key: int
    var prev: Elem?
    var next: Elem?

    constructor (k: int)
      ensures key == k
    {
      key := k;
    }
  }

  type Ptrs = map<Elem, Elem?>

  function First(s: seq<Elem>): Elem? {
    if s == [] then null else s[0]
  }

  function Last(s: seq<Elem>): Elem? {
    if s == [] then null else s[|s| - 1]
  }

  ghost predicate Distinct(s: seq<Elem>) {
    forall i, j :: 0 <= i < j < |s| ==> s[i] != s[j]
  }

  ghost function After(s: seq<Elem>, k: int): Elem?
    requires 0 <= k < |s|
  {
    if k == |s| - 1 then null else s[k + 1]
  }

  ghost function Before(s: seq<Elem>, k: int): Elem?
    requires 0 <= k < |s|
  {
    if k == 0 then null else s[k - 1]
  }

  ghost predicate LinkedAt(nx: Ptrs, pv: Ptrs, s: seq<Elem>, k: int) {
    && 0 <= k < |s| && s[k] in nx && s[k] in pv
    && nx[s[k]] == After(s, k) && pv[s[k]] == if k == 0 then Last(s) else s[k - 1]
  }

  /** A list as utlist keeps it: NULL-terminated, and the head points back at the tail. */
  ghost predicate Linked(nx: Ptrs, pv: Ptrs, s: seq<Elem>) {
    Distinct(s) && forall k :: 0 <= k < |s| ==> LinkedAt(nx, pv, s, k)
  }

  lemma EndsKnown(nx: Ptrs, pv: Ptrs, s: seq<Elem>)
    requires Linked(nx, pv, s)
    ensures s != [] ==> s[0] in nx && s[0] in pv && pv[s[0]] == Last(s) && s[|s| - 1] in nx && s[|s| - 1] in pv
  {
    if s != [] { assert LinkedAt(nx, pv, s, 0) && LinkedAt(nx, pv, s, |s| - 1); }
  }

  lemma Prepended(nx: Ptrs, pv: Ptrs, nx': Ptrs, pv': Ptrs, s: seq<Elem>, x: Elem)
    requires Linked(nx, pv, s) && x !in s && x in nx' && x in pv' && nx'[x] == First(s)
    requires pv'[x] == (if s == [] then x else Last(s))
    requires forall y :: y in s ==> y in nx' && y in pv' && (y in nx ==> nx'[y] == nx[y])
    requires forall y :: y in s && y in pv ==> pv'[y] == if y == First(s) then x else pv[y]
    ensures Linked(nx', pv', [x] + s)
  {
    var u := [x] + s;
    forall k | 0 <= k < |u|
      ensures LinkedAt(nx', pv', u, k) { if k > 0 { assert LinkedAt(nx, pv, s, k - 1) && s[k - 1] in s; } }
  }

  lemma Appended(nx: Ptrs, pv: Ptrs, nx': Ptrs, pv': Ptrs, s: seq<Elem>, x: Elem)
    requires Linked(nx, pv, s) && x !in s && x in nx' && x in pv' && nx'[x] == null
    requires pv'[x] == (if s == [] then x else Last(s))
    requires forall y :: y in s ==> y in nx' && y in pv'
    requires forall y :: y in s && y in nx ==> nx'[y] == if y == Last(s) then x else nx[y]
    requires forall y :: y in s && y in pv ==> pv'[y] == if y == First(s) then x else pv[y]
    ensures Linked(nx', pv', s + [x])
  {
    var u := s + [x];
    forall k | 0 <= k < |u|
      ensures LinkedAt(nx', pv', u, k) { if k < |s| { assert LinkedAt(nx, pv, s, k) && s[k] in s; } }
  }

  /** The links once `x` is put in front of the list, or behind it. */
  ghost function FrontPv(pv: Ptrs, s: seq<Elem>, x: Elem): Ptrs {
    (if s == [] then pv else pv[s[0] := x])[x := if s == [] then x else Last(s)]
  }

  ghost function BackNx(nx: Ptrs, s: seq<Elem>, x: Elem): Ptrs {
    (if s == [] then nx else nx[s[|s| - 1] := x])[x := null]
  }

  lemma FrontLinks(nx: Ptrs, pv: Ptrs, s: seq<Elem>, x: Elem)
    requires Linked(nx, pv, s) && x !in s
    ensures Linked(nx[x := First(s)], FrontPv(pv, s, x), [x] + s)
  {
    forall i | 0 <= i < |s| ensures s[i] in nx && s[i] in pv { assert LinkedAt(nx, pv, s, i); }
    Prepended(nx, pv, nx[x := First(s)], FrontPv(pv, s, x), s, x);
  }

  lemma BackLinks(nx: Ptrs, pv: Ptrs, s: seq<Elem>, x: Elem)
    requires Linked(nx, pv, s) && x !in s
    ensures Linked(BackNx(nx, s, x), FrontPv(pv, s, x), s + [x])
  {
    forall i | 0 <= i < |s| ensures s[i] in nx && s[i] in pv { assert LinkedAt(nx, pv, s, i); }
    Appended(nx, pv, BackNx(nx, s, x), FrontPv(pv, s, x), s, x);
  }

  /** The element whose back link changes when element `k` is deleted: its successor, or the head for the tail. */
  ghost function Bumped(s: seq<Elem>, k: int): Elem?
    requires 0 <= k < |s|
  {
    if k < |s| - 1 then s[k + 1] else if k > 0 then s[0] else null
  }

  /** The links once element `k` is deleted; its own ones stay. */
  ghost function Skipped(nx: Ptrs, s: seq<Elem>, k: int): Ptrs
    requires 0 <= k < |s|
  {
    if k > 0 then nx[s[k - 1] := After(s, k)] else nx
  }

  ghost function Bumps(pv: Ptrs, s: seq<Elem>, k: int): Ptrs
    requires 0 <= k < |s| && s[k] in pv
  {
    if Bumped(s, k) == null then pv else pv[Bumped(s, k) := pv[s[k]]]
  }

  ghost function Without(s: seq<Elem>, k: int): seq<Elem>
    requires 0 <= k < |s|
  {
    s[..k] + s[k + 1..]
  }

  lemma Deleted(nx: Ptrs, pv: Ptrs, nx': Ptrs, pv': Ptrs, s: seq<Elem>, k: int)
    requires Linked(nx, pv, s) && 0 <= k < |s|
    requires s[k] in pv && forall x :: x in s && x != s[k] ==> x in nx' && x in pv'
    requires forall x :: x in s && x != s[k] && x in nx ==> nx'[x] == if k > 0 && x == s[k - 1] then After(s, k)
      else nx[x]
    requires forall x :: x in s && x != s[k] && x in pv ==> pv'[x] == if x == Bumped(s, k) then pv[s[k]] else pv[x]
    ensures Linked(nx', pv', Without(s, k)) && First(Without(s, k)) == if k > 0 then s[0] else After(s, 0)
    ensures forall x :: x in Without(s, k) <==> x in s && x != s[k]
  {
    var u := Without(s, k);
    assert LinkedAt(nx, pv, s, k);
    forall i | 0 <= i < |u| ensures LinkedAt(nx', pv', u, i) {
      var m := if i < k then i else i + 1;
      assert LinkedAt(nx, pv, s, m) && s[m] in s && s[m] != s[k];
    }
    forall x | x in s && x != s[k] ensures x in u {
      var i :| 0 <= i < |s| && s[i] == x;
      assert x == u[if i < k then i else i - 1];
    }
  }

  lemma CutLinks(nx: Ptrs, pv: Ptrs, s: seq<Elem>, k: int)
    requires Linked(nx, pv, s) && 0 <= k < |s|
    ensures s[k] in pv && Linked(Skipped(nx, s, k), Bumps(pv, s, k), Without(s, k))
    ensures First(Without(s, k)) == (if k > 0 then s[0] else After(s, 0))
    ensures forall x :: x in Without(s, k) <==> x in s && x != s[k]
  {
    forall i | 0 <= i < |s| ensures s[i] in nx && s[i] in pv { assert LinkedAt(nx, pv, s, i); }
    Deleted(nx, pv, Skipped(nx, s, k), Bumps(pv, s, k), s, k);
  }

  // ----- order -----

  /** `cmp(x, y) <= 0` is a total preorder. */
  ghost predicate TotalPreorder(cmp: (int, int) -> int) {
    && (forall x, y :: cmp(x, y) <= 0 || cmp(y, x) <= 0)
    && forall x, y, z :: cmp(x, y) <= 0 && cmp(y, z) <= 0 ==> cmp(x, z) <= 0
  }

  type Places = map<Elem, int>

  /** `x` must come before `y`: it is smaller, or equivalent and was before `y` in the list to be sorted. */
  ghost predicate Precedes(cmp: (int, int) -> int, at: Places, x: Elem, y: Elem) {
    x in at && y in at && cmp(x.key, y.key) <= 0 && (cmp(y.key, x.key) > 0 || at[x] < at[y])
  }

  lemma PrecedesTrans(cmp: (int, int) -> int, at: Places, x: Elem, y: Elem, z: Elem)
    requires TotalPreorder(cmp) && Precedes(cmp, at, x, y) && Precedes(cmp, at, y, z)
    ensures Precedes(cmp, at, x, z)
  {
    assert cmp(x.key, z.key) <= 0;
    if cmp(z.key, x.key) <= 0 { assert cmp(y.key, x.key) <= 0 && cmp(z.key, y.key) <= 0; }
  }

  ghost predicate Ascending(cmp: (int, int) -> int, at: Places, s: seq<Elem>, lo: int, hi: int) {
    forall i, j :: 0 <= lo <= i < j < hi <= |s| ==> Precedes(cmp, at, s[i], s[j])
  }

  ghost predicate Within(at: Places, s: seq<Elem>, lo: int, hi: int) {
    forall i :: 0 <= lo <= i < hi <= |s| ==> s[i] in at && lo <= at[s[i]] < hi
  }

  /** Places `lo` to `hi` hold a sorted run of the elements that were at those places to begin with. */
  ghost predicate Run(cmp: (int, int) -> int, at: Places, s: seq<Elem>, lo: int, hi: int) {
    Ascending(cmp, at, s, lo, hi) && Within(at, s, lo, hi)
  }

  // ----- one merge -----

  /** Elements `i..pe` and `j..` of `s` are still to be moved. */
  ghost predicate Left(i: int, pe: int, j: int, k: int) {
    i <= k < pe || j <= k
  }

  /** The next links that a merge still follows. */
  ghost predicate Strung(nx: Ptrs, s: seq<Elem>, i: int, pe: int, j: int) {
    && 0 <= i <= pe <= j <= |s|
    && (forall k :: i <= k < pe ==> s[k] in nx && (k + 1 < pe ==> nx[s[k]] == s[k + 1]))
    && forall k :: j <= k < |s| ==> s[k] in nx && nx[s[k]] == After(s, k)
  }

  /** The output list: linked both ways, with the link out of its end still open and no link back from its head. */
  ghost predicate Built(nx: Ptrs, pv: Ptrs, out: seq<Elem>) {
    Distinct(out) && forall m :: 0 <= m < |out| ==> BuiltAt(nx, pv, out, m)
  }

  ghost predicate BuiltAt(nx: Ptrs, pv: Ptrs, out: seq<Elem>, m: int) {
    && 0 <= m < |out| && out[m] in nx && out[m] in pv
    && (m + 1 < |out| ==> nx[out[m]] == out[m + 1]) && pv[out[m]] == Before(out, m)
  }

  /** The output has exactly the elements that are not left. */
  ghost predicate Split(s: seq<Elem>, out: seq<Elem>, i: int, pe: int, j: int) {
    && |out| == i + j - pe
    && (forall k :: 0 <= k < |s| ==> (s[k] in out <==> !Left(i, pe, j, k)))
    && forall x :: x in out ==> x in s
  }

  /** The output from place `a` on is sorted and comes before what is left of the two runs. */
  ghost predicate Woven(cmp: (int, int) -> int, at: Places, s: seq<Elem>, out: seq<Elem>, a: int, i: int, pe: int,
      j: int, qe: int) {
    && 0 <= a <= |out| && Ascending(cmp, at, out, a, |out|)
    && (forall m :: a <= m < |out| ==> out[m] in at && a <= at[out[m]] < qe)
    && forall m, k :: a <= m < |out| && 0 <= k < |s| && k < qe && Left(i, pe, j, k) ==> Precedes(cmp, at, out[m], s[k])
  }

  /** Appending `e` to the output. */
  lemma BuiltMore(nx: Ptrs, pv: Ptrs, nx': Ptrs, pv': Ptrs, out: seq<Elem>, e: Elem)
    requires Built(nx, pv, out) && e !in out
    requires forall x :: x in out ==> x in nx' && (x in nx ==> nx'[x] == if x == Last(out) then e else nx[x])
    requires forall x :: x in out ==> x in pv' && (x in pv ==> pv'[x] == pv[x])
    requires e in nx' && e in pv' && pv'[e] == Last(out)
    ensures Built(nx', pv', out + [e])
  {
    var u := out + [e];
    forall m | 0 <= m < |u| ensures BuiltAt(nx', pv', u, m) {
      if m < |out| { assert BuiltAt(nx, pv, out, m) && out[m] in out; }
    }
  }

  lemma StrungKept(nx: Ptrs, nx': Ptrs, s: seq<Elem>, out: seq<Elem>, i: int, pe: int, j: int)
    requires Strung(nx, s, i, pe, j) && Split(s, out, i, pe, j)
    requires forall x :: x in nx && x !in out ==> x in nx' && nx'[x] == nx[x]
    ensures Strung(nx', s, i, pe, j)
  {
    forall k | i <= k < pe || j <= k < |s| ensures s[k] !in out { assert Left(i, pe, j, k); }
  }

  /** Moving the head of either run. */
  lemma SplitMore(s: seq<Elem>, out: seq<Elem>, i: int, pe: int, j: int, fromP: bool)
    requires Distinct(s) && Split(s, out, i, pe, j) && 0 <= i <= pe <= j <= |s| && (if fromP then i < pe else j < |s|)
    ensures var e := s[if fromP then i else j];
      e !in out && Split(s, out + [e], if fromP then i + 1 else i, pe, if fromP then j else j + 1)
  {
    var c := if fromP then i else j;
    var u := out + [s[c]];
    assert Left(i, pe, j, c);
    forall k | 0 <= k < |s|
      ensures s[k] in u <==> !Left(if fromP then i + 1 else i, pe, if fromP then j else j + 1, k)
    {
      assert s[k] in out <==> !Left(i, pe, j, k);
      assert s[k] in u <==> s[k] in out || s[k] == s[c];
    }
  }

  /** The moved element comes before everything else that is left. */
  lemma Least(cmp: (int, int) -> int, at: Places, s: seq<Elem>, a: int, i: int, pe: int, j: int, qe: int, fromP: bool,
      k: int)
    requires TotalPreorder(cmp) && Run(cmp, at, s, a, pe) && Run(cmp, at, s, pe, qe)
    requires 0 <= a <= i <= pe <= j <= qe <= |s|
    requires if fromP then i < pe && (j == qe || cmp(s[i].key, s[j].key) <= 0)
      else j < qe && (i == pe || cmp(s[i].key, s[j].key) > 0)
    requires Left(i, pe, j, k) && k < qe && k != if fromP then i else j
    ensures Precedes(cmp, at, s[if fromP then i else j], s[k])
  {
    var c := if fromP then i else j;
    if (c < pe) != (k < pe) {
      var d := if fromP then j else i;
      assert Precedes(cmp, at, s[c], s[d]);
      if k != d { PrecedesTrans(cmp, at, s[c], s[d], s[k]); }
    }
  }

  lemma WovenMore(cmp: (int, int) -> int, at: Places, s: seq<Elem>, out: seq<Elem>, a: int, i: int, pe: int, j: int,
      qe: int, fromP: bool)
    requires TotalPreorder(cmp) && Run(cmp, at, s, a, pe) && Run(cmp, at, s, pe, qe)
    requires 0 <= a <= i <= pe <= j <= qe <= |s|
    requires Woven(cmp, at, s, out, a, i, pe, j, qe)
    requires if fromP then i < pe && (j == qe || cmp(s[i].key, s[j].key) <= 0)
      else j < qe && (i == pe || cmp(s[i].key, s[j].key) > 0)
    ensures Woven(cmp, at, s, out + [s[if fromP then i else j]], a, if fromP then i + 1 else i, pe, if fromP then j
      else j + 1, qe)
  {
    var c, i', j' := if fromP then i else j, if fromP then i + 1 else i, if fromP then j else j + 1;
    var u := out + [s[c]];
    assert Left(i, pe, j, c);
    forall m, k | a <= m < |u| && 0 <= k < |s| && k < qe && Left(i', pe, j', k) ensures Precedes(cmp, at, u[m], s[k]) {
      assert Left(i, pe, j, k);
      if m == |out| { Least(cmp, at, s, a, i, pe, j, qe, fromP, k); }
    }
  }

  /** The next links once `e` is appended after `tail`. */
  ghost function Chained(nx: Ptrs, tail: Elem?, e: Elem): Ptrs {
    if tail == null then nx else nx[tail := e]
  }

  /** What moving the head `e` of a run to the output does to the links. */
  lemma LinksMore(nx: Ptrs, pv: Ptrs, s: seq<Elem>, out: seq<Elem>, i: int, pe: int, j: int, fromP: bool, e: Elem)
    requires Distinct(s) && Built(nx, pv, out) && Strung(nx, s, i, pe, j) && Split(s, out, i, pe, j)
    requires (if fromP then i < pe else j < |s|) && e == s[if fromP then i else j]
    ensures e in nx && (if fromP then i + 1 < pe ==> nx[e] == s[i + 1] else nx[e] == After(s, j))
    ensures out != [] ==> Last(out) in s
    ensures var nx', i', j' := Chained(nx, Last(out), e), if fromP then i + 1 else i, if fromP then j else j + 1;
      Built(nx', pv[e := Last(out)], out + [e]) && Strung(nx', s, i', pe, j') && Split(s, out + [e], i', pe, j')
  {
    var nx', pv' := Chained(nx, Last(out), e), pv[e := Last(out)];
    SplitMore(s, out, i, pe, j, fromP);
    forall m | 0 <= m < |out| ensures out[m] in nx && out[m] in pv { assert BuiltAt(nx, pv, out, m); }
    BuiltMore(nx, pv, nx', pv', out, e);
    StrungKept(nx, nx', s, out, i, pe, j);
  }

  // ----- passes -----

  /** Where run `k` of width `w` starts in a list of `len` elements. */
  ghost function Start(k: nat, w: nat, len: nat): (r: nat)
    ensures r <= len
  {
    if k * w < len then k * w else len
  }

  /** The first `m` runs of width `w` of a list that is to have `len` elements are in order. */
  ghost predicate Runs(cmp: (int, int) -> int, at: Places, s: seq<Elem>, w: nat, len: nat, m: nat) {
    forall k :: 0 <= k < m ==> RunAt(cmp, at, s, w, len, k)
  }

  ghost predicate RunAt(cmp: (int, int) -> int, at: Places, s: seq<Elem>, w: nat, len: nat, k: nat) {
    Start(k + 1, w, len) <= |s| && Run(cmp, at, s, Start(k, w, len), Start(k + 1, w, len))
  }

  lemma StartStep(k: nat, w: nat, len: nat)
    ensures Start(k + 1, w, len) == if Start(k, w, len) + w < len then Start(k, w, len) + w else len
    ensures Start(2 * k, w, len) == Start(k, 2 * w, len) && Start(2 * k + 2, w, len) == Start(k + 1, 2 * w, len)
  {
    assert (k + 1) * w == k * w + w;
    assert 2 * k * w == k * (2 * w) && (2 * k + 2) * w == (k + 1) * (2 * w);
  }

  ghost predicate AllRuns(cmp: (int, int) -> int, at: Places, s: seq<Elem>, w: nat) {
    forall k: nat :: RunAt(cmp, at, s, w, |s|, k)
  }

  lemma StartPast(m: nat, k: nat, w: nat, len: nat)
    requires m <= k && Start(m, w, len) == len
    ensures Start(k, w, len) == len
  {
    assert k * w == m * w + (k - m) * w;
  }

  lemma RunsAll(cmp: (int, int) -> int, at: Places, s: seq<Elem>, w: nat, m: nat)
    requires Runs(cmp, at, s, w, |s|, m) && Start(m, w, |s|) == |s|
    ensures AllRuns(cmp, at, s, w) && (m <= 1 ==> Run(cmp, at, s, 0, |s|))
  {
    forall k: nat ensures RunAt(cmp, at, s, w, |s|, k) {
      if k >= m { StartPast(m, k, w, |s|); StartPast(m, k + 1, w, |s|); }
    }
    if m <= 1 { StartPast(m, 1, w, |s|); assert RunAt(cmp, at, s, w, |s|, 0); }
  }

  /** Before the first pass every element is a run of its own. */
  lemma SingleRuns(cmp: (int, int) -> int, at: Places, s: seq<Elem>)
    requires PlacesOf(at, s)
    ensures AllRuns(cmp, at, s, 1)
  {
    forall k: nat ensures RunAt(cmp, at, s, 1, |s|, k) { }
  }

  /** Closing the output list at the end of a pass. */
  lemma Closed(nx: Ptrs, pv: Ptrs, out: seq<Elem>)
    requires Built(nx, pv, out) && out != []
    ensures Linked(nx[out[|out| - 1] := null], pv[out[0] := Last(out)], out)
  {
    var nx', pv' := nx[out[|out| - 1] := null], pv[out[0] := Last(out)];
    forall k | 0 <= k < |out| ensures LinkedAt(nx', pv', out, k) { assert BuiltAt(nx, pv, out, k); }
  }

  lemma OpenList(nx: Ptrs, pv: Ptrs, s: seq<Elem>)
    requires Linked(nx, pv, s)
    ensures Strung(nx, s, 0, 0, 0) && Split(s, [], 0, 0, 0) && Built(nx, pv, [])
  {
    forall k | 0 <= k < |s| ensures s[k] in nx && nx[s[k]] == After(s, k) { assert LinkedAt(nx, pv, s, k); }
  }

  lemma RunPrefix(cmp: (int, int) -> int, at: Places, s: seq<Elem>, u: seq<Elem>, lo: int, hi: int)
    requires Run(cmp, at, s, lo, hi) && 0 <= lo <= hi <= |s| <= |u| && forall m :: 0 <= m < |s| ==> u[m] == s[m]
    ensures Run(cmp, at, u, lo, hi)
  {
    assert forall m :: lo <= m < hi ==> u[m] == s[m];
  }

  /** One more pair of runs has been merged. */
  lemma RunsMore(cmp: (int, int) -> int, at: Places, s: seq<Elem>, out: seq<Elem>, w: nat, len: nat, m: nat)
    requires Runs(cmp, at, s, w, len, m) && |s| == Start(m, w, len) && |s| <= |out|
    requires forall k :: 0 <= k < |s| ==> out[k] == s[k]
    requires RunAt(cmp, at, out, w, len, m)
    ensures Runs(cmp, at, out, w, len, m + 1)
  {
    forall k | 0 <= k < m ensures RunAt(cmp, at, out, w, len, k) {
      assert RunAt(cmp, at, s, w, len, k);
      RunPrefix(cmp, at, s, out, Start(k, w, len), Start(k + 1, w, len));
    }
  }

  /** A finished merge in terms of the next one. */
  lemma MergeDone(cmp: (int, int) -> int, at: Places, nx: Ptrs, s: seq<Elem>, out: seq<Elem>, a: int, pe: int, qe: int)
    requires Strung(nx, s, pe, pe, qe) && Split(s, out, pe, pe, qe) && Woven(cmp, at, s, out, a, pe, pe, qe, qe)
    ensures Strung(nx, s, qe, qe, qe) && Split(s, out, qe, qe, qe) && Run(cmp, at, out, a, qe) && |out| == qe
  {
    forall k | 0 <= k < |s|
      ensures s[k] in out <==> !Left(qe, qe, qe, k) { assert s[k] in out <==> !Left(pe, pe, qe, k); }
  }

  /** Starting a merge of `a..pe` with what follows. */
  lemma MergeStart(cmp: (int, int) -> int, at: Places, nx: Ptrs, s: seq<Elem>, out: seq<Elem>, a: int, pe: int, qe: int)
    requires Strung(nx, s, a, a, a) && Split(s, out, a, a, a) && a <= pe <= qe <= |s|
    ensures Strung(nx, s, a, pe, pe) && Split(s, out, a, pe, pe) && Woven(cmp, at, s, out, a, a, pe, pe, qe)
  {
    forall k | 0 <= k < |s| ensures s[k] in out <==> !Left(a, pe, pe, k) { assert s[k] in out <==> !Left(a, a, a, k); }
  }

  // ----- what sorting means -----

  ghost predicate Sorted(cmp: (int, int) -> int, s: seq<Elem>) {
    forall i, j :: 0 <= i < j < |s| ==> cmp(s[i].key, s[j].key) <= 0
  }

  /** Equivalent elements of `s` keep the order they have in `was`. */
  ghost predicate Stable(cmp: (int, int) -> int, was: seq<Elem>, s: seq<Elem>) {
    forall i, j, a, b :: 0 <= i < j < |s| && 0 <= a < |was| && 0 <= b < |was| ==>
      (was[a] == s[i] && was[b] == s[j] && cmp(s[j].key, s[i].key) <= 0 ==> a < b)
  }

  ghost predicate PlacesOf(at: Places, s: seq<Elem>) {
    forall k :: 0 <= k < |s| ==> s[k] in at && at[s[k]] == k
  }

  lemma {:induction false} MakePlaces(s: seq<Elem>) returns (at: Places)
    requires Distinct(s)
    ensures PlacesOf(at, s)
  {
    at := map[];
    var n := 0;
    while n < |s|
      invariant 0 <= n <= |s| && forall k :: 0 <= k < n ==> s[k] in at && at[s[k]] == k
    {
      at := at[s[n] := n];
      n := n + 1;
    }
  }

  lemma SortedByPlace(cmp: (int, int) -> int, at: Places, was: seq<Elem>, s: seq<Elem>)
    requires PlacesOf(at, was) && Ascending(cmp, at, s, 0, |s|)
    ensures Sorted(cmp, s) && Stable(cmp, was, s)
  {
    forall i, j | 0 <= i < j < |s| ensures Precedes(cmp, at, s[i], s[j]) { }
  }

  lemma RunSorts(cmp: (int, int) -> int, at: Places, was: seq<Elem>, s: seq<Elem>)
    requires PlacesOf(at, was) && Run(cmp, at, s, 0, |s|)
    ensures Sorted(cmp, s) && Stable(cmp, was, s)
  {
    SortedByPlace(cmp, at, was, s);
  }

  /** Two lists without repetition that have the same elements have them equally often. */
  lemma SameElements(s: seq<Elem>, u: seq<Elem>)
    requires Distinct(s) && Distinct(u) && (forall x :: x in s <==> x in u)
    ensures multiset(s) == multiset(u)
  {
    forall x ensures multiset(s)[x] == multiset(u)[x] {
      Once(s, x);
      Once(u, x);
    }
  }

  lemma {:induction false} Once(s: seq<Elem>, x: Elem)
    requires Distinct(s)
    ensures multiset(s)[x] == if x in s then 1 else 0
  {
    if s != [] {
      Once(s[1..], x);
      assert s == [s[0]] + s[1..];
    }
  }
}
