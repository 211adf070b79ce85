/** Doubly linked lists (libs/uthash/src/utlist.h), and their bottom-up mergesort. The links are mirrored in the ghost
    maps `nx` and `pv`. The run length is not bounded as the source's int is. */
module List {
  import opened ListShape

  class DList {
    var head: Elem?
    ghost var elems: seq<Elem>
    ghost var nodes: set<Elem>
    ghost var nx: Ptrs
    ghost var pv: Ptrs

    ghost predicate TiedIn(these: set<Elem>)
      reads this`nx, this`pv, these
    {
      forall x :: x in these ==> x in nx && x in pv && nx[x] == x.next && pv[x] == x.prev
    }

    ghost predicate Tied()
      reads this`nodes, this`nx, this`pv, nodes
    {
      TiedIn(nodes)
    }

    ghost predicate Valid()
      reads this, nodes
    {
      && Tied() && head == First(elems) && Linked(nx, pv, elems)
      && (forall x :: x in nodes ==> x in elems) && forall x :: x in elems ==> x in nodes
    }

    constructor ()
      ensures Valid() && elems == [] && nodes == {}
    {
      head, elems, nodes, nx, pv := null, [], {}, map[], map[];
    }

    // ----- adding and deleting -----

    /** DL_PREPEND. */
    method Prepend(add: Elem)
      requires Valid() && add !in nodes
      modifies this, nodes, add
      ensures Valid() && elems == [add] + old(elems) && nodes == old(nodes) + {add}
    {
      hide Linked, TiedIn, FrontPv;
      ghost var nx0, pv0, s := nx, pv, elems;
      EndsKnown(nx0, pv0, s);
      PutInFront(add);
      FrontLinks(nx0, pv0, s, add);
      elems, nodes := [add] + s, nodes + {add};
    }

    method PutInFront(add: Elem)
      requires Tied() && head == First(elems) && add !in nodes && forall x :: x in elems ==> x in nodes
      requires elems != [] ==> elems[0] in pv && pv[elems[0]] == Last(elems)
      modifies this`head, this`nx, this`pv, nodes, add
      ensures nx == old(nx)[add := First(elems)] && pv == FrontPv(old(pv), elems, add)
      ensures head == add && TiedIn(nodes + {add})
    {
      nx, pv := nx[add := First(elems)], FrontPv(pv, elems, add);
      add.next := head;
      if head != null {
        add.prev := head.prev;
        head.prev := add;
      } else {
        add.prev := add;
      }
      head := add;
    }

    /** DL_APPEND. */
    method Append(add: Elem)
      requires Valid() && add !in nodes
      modifies this, nodes, add
      ensures Valid() && elems == old(elems) + [add] && nodes == old(nodes) + {add}
    {
      hide Linked, TiedIn, BackNx, FrontPv;
      ghost var nx0, pv0, s := nx, pv, elems;
      EndsKnown(nx0, pv0, s);
      Tack(add);
      BackLinks(nx0, pv0, s, add);
      elems, nodes := s + [add], nodes + {add};
    }

    method Tack(add: Elem)
      requires Tied() && head == First(elems) && add !in nodes && forall x :: x in elems ==> x in nodes
      requires elems != [] ==> elems[0] in pv && pv[elems[0]] == Last(elems)
      modifies this`head, this`nx, this`pv, nodes, add
      ensures nx == BackNx(old(nx), elems, add) && pv == FrontPv(old(pv), elems, add)
      ensures head == (if elems == [] then add else old(head)) && TiedIn(nodes + {add})
    {
      ghost var s := elems;
      nx, pv := BackNx(nx, s, add), FrontPv(pv, s, add);
      if head != null {
        var tail := head.prev;
        add.prev := tail;
        tail.next := add;
        head.prev := add;
        add.next := null;
      } else {
        head := add;
        head.prev := head;
        head.next := null;
      }
    }

    /** DL_DELETE; `k` is where `del` stood. */
    method Delete(del: Elem) returns (ghost k: int)
      requires Valid() && del in nodes
      modifies this, nodes
      ensures Valid() && 0 <= k < |old(elems)| && old(elems)[k] == del
      ensures elems == Without(old(elems), k) && nodes == old(nodes) - {del}
    {
      hide Linked, After, Bumped, Without, Skipped, Bumps;
      ghost var nx0, pv0, s := nx, pv, elems;
      k :| 0 <= k < |elems| && elems[k] == del;
      Unlink(del, k);
      CutLinks(nx0, pv0, s, k);
      nodes, elems := nodes - {del}, Without(s, k);
    }

    method Unlink(del: Elem, ghost k: int)
      requires Tied() && head == First(elems) && Linked(nx, pv, elems) && 0 <= k < |elems| && elems[k] == del
      requires forall x :: x in elems ==> x in nodes
      modifies this`head, this`nx, this`pv, nodes
      ensures Tied() && head == (if k > 0 then old(head) else After(elems, 0))
      ensures nx == Skipped(old(nx), elems, k) && pv == Bumps(old(pv), elems, k)
    {
      ghost var s := elems;
      assert LinkedAt(nx, pv, s, k) && LinkedAt(nx, pv, s, 0);
      nx, pv := Skipped(nx, s, k), Bumps(pv, s, k);
      if del.prev == del {
        head := null;
      } else if del == head {
        del.next.prev := del.prev;
        head := del.next;
      } else {
        del.prev.next := del.next;
        if del.next != null {
          del.next.prev := del.prev;
        } else {
          head.prev := del.prev;
        }
      }
    }

    // ----- DL_SORT -----

    /** Puts `e` at the end of the output. */
    method Take(e: Elem, tail: Elem?)
      requires Tied() && e in nodes && (tail != null ==> tail in nodes)
      modifies this`head, this`nx, this`pv, nodes
      ensures Tied() && nx == Chained(old(nx), tail, e) && pv == old(pv)[e := tail]
      ensures head == if tail == null then e else old(head)
    {
      if tail != null {
        tail.next := e;
        nx := nx[tail := e];
      } else {
        head := e;
      }
      e.prev := tail;
      pv := pv[e := tail];
    }

    /** The state of a merge of the runs `a..pe` and `pe..qe` of `s` into `out`. */
    ghost predicate Merging(cmp: (int, int) -> int, at: Places, s: seq<Elem>, out: seq<Elem>, a: int, i: int, pe: int,
        j: int, qe: int)
      reads this`head, this`nodes, this`nx, this`pv, nodes
    {
      && Tied() && head == First(out) && Built(nx, pv, out) && Strung(nx, s, i, pe, j) && Split(s, out, i, pe, j)
      && Woven(cmp, at, s, out, a, i, pe, j, qe) && 0 <= a <= i <= pe <= j <= qe <= |s|
    }

    /** What every merge works on: the runs are in order. */
    ghost predicate Mergeable(cmp: (int, int) -> int, at: Places, s: seq<Elem>, a: int, pe: int, qe: int)
      reads this`nodes
    {
      && TotalPreorder(cmp) && Distinct(s) && (forall x :: x in s ==> x in nodes)
      && 0 <= a <= pe <= qe <= |s| && Run(cmp, at, s, a, pe) && Run(cmp, at, s, pe, qe)
    }

    /** Moves the head of one run to the output. */
    method MoveOne(e: Elem, tail: Elem?, fromP: bool, ghost cmp: (int, int) -> int, ghost at: Places,
        ghost s: seq<Elem>, ghost out: seq<Elem>, ghost a: int, ghost i: int, ghost pe: int, ghost j: int,
        ghost qe: int)
      returns (next: Elem?, ghost out': seq<Elem>, ghost i': int, ghost j': int)
      requires Mergeable(cmp, at, s, a, pe, qe) && Merging(cmp, at, s, out, a, i, pe, j, qe) && tail == Last(out)
      requires if fromP then i < pe && (j == qe || cmp(s[i].key, s[j].key) <= 0)
        else j < qe && (i == pe || cmp(s[i].key, s[j].key) > 0)
      requires e == s[if fromP then i else j]
      modifies this`head, this`nx, this`pv, nodes
      ensures i' == (if fromP then i + 1 else i) && j' == (if fromP then j else j + 1) && out' == out + [e]
      ensures Merging(cmp, at, s, out', a, i', pe, j', qe)
      ensures if fromP then i' < pe ==> next == s[i'] else next == if j' < |s| then s[j'] else null
    {
      hide Built, Strung, Split, Woven, Run, Distinct, TotalPreorder;
      i', j', out' := if fromP then i + 1 else i, if fromP then j else j + 1, out + [e];
      LinksMore(nx, pv, s, out, i, pe, j, fromP, e);
      WovenMore(cmp, at, s, out, a, i, pe, j, qe, fromP);
      next := e.next;
      Take(e, tail);
    }

    /** Merges the run `p` of `psize` elements with the at most `insize` elements from `q` on. */
    method MergeRuns(p0: Elem, psize0: nat, q0: Elem?, insize: nat, tail0: Elem?, cmp: (int, int) -> int,
        ghost at: Places, ghost s: seq<Elem>, ghost out0: seq<Elem>, ghost a: int, ghost pe: int, ghost qe: int)
      returns (q: Elem?, tail: Elem?, ghost out: seq<Elem>)
      requires Mergeable(cmp, at, s, a, pe, qe) && Merging(cmp, at, s, out0, a, a, pe, pe, qe) && tail0 == Last(out0)
      requires psize0 == pe - a > 0 && p0 == s[a] && q0 == (if pe < |s| then s[pe] else null)
      requires qe == if pe + insize < |s| then pe + insize else |s|
      modifies this`head, this`nx, this`pv, nodes
      ensures Merging(cmp, at, s, out, a, pe, pe, qe, qe) && tail == Last(out)
      ensures q == (if qe < |s| then s[qe] else null)
      ensures |out0| <= |out| && forall k :: 0 <= k < |out0| ==> out[k] == out0[k]
    {
      hide Tied, Built, Strung, Split, Woven, Run, Distinct, TotalPreorder;
      var p: Elem? := p0;
      var psize, qsize := psize0, insize;
      q, tail, out := q0, tail0, out0;
      ghost var i, j := a, pe;
      while psize > 0 || (qsize > 0 && q != null)
        invariant Merging(cmp, at, s, out, a, i, pe, j, qe) && tail == Last(out)
        invariant psize == pe - i && (psize > 0 ==> p == s[i])
        invariant qsize == insize - (j - pe) && q == if j < |s| then s[j] else null
        invariant |out0| <= |out| && forall k :: 0 <= k < |out0| ==> out[k] == out0[k]
        decreases psize + qsize
      {
        var e: Elem;
        if psize == 0 {
          e := q;
          q, out, i, j := MoveOne(e, tail, false, cmp, at, s, out, a, i, pe, j, qe);
          qsize := qsize - 1;
        } else if qsize == 0 || q == null {
          e := p;
          p, out, i, j := MoveOne(e, tail, true, cmp, at, s, out, a, i, pe, j, qe);
          psize := psize - 1;
        } else if cmp(p.key, q.key) <= 0 {
          e := p;
          p, out, i, j := MoveOne(e, tail, true, cmp, at, s, out, a, i, pe, j, qe);
          psize := psize - 1;
        } else {
          e := q;
          q, out, i, j := MoveOne(e, tail, false, cmp, at, s, out, a, i, pe, j, qe);
          qsize := qsize - 1;
        }
        tail := e;
      }
    }

    /** Steps over at most `insize` elements from `p` on. */
    method FindEnd(p: Elem, insize: nat, ghost s: seq<Elem>, ghost a: int) returns (q: Elem?, psize: nat)
      requires Tied() && Strung(nx, s, a, a, a) && a < |s| && p == s[a] && insize > 0
      requires forall x :: x in s ==> x in nodes
      ensures psize == (if a + insize < |s| then insize else |s| - a)
      ensures q == if a + psize < |s| then s[a + psize] else null
    {
      q, psize := p, 0;
      var i := 0;
      while i < insize
        invariant psize == i <= insize && a + psize < |s| && q == s[a + psize]
      {
        psize := psize + 1;
        q := q.next;
        if q == null { break; }
        i := i + 1;
      }
    }

    /** The state between two merges: the first `m` pairs of runs, up to place `a`, have been merged. */
    ghost predicate Passing(cmp: (int, int) -> int, at: Places, s: seq<Elem>, out: seq<Elem>, w: nat, a: int, m: nat)
      reads this`head, this`nodes, this`nx, this`pv, nodes
    {
      && Tied() && head == First(out) && Built(nx, pv, out) && Strung(nx, s, a, a, a) && Split(s, out, a, a, a)
      && Runs(cmp, at, out, w, |s|, m) && a == Start(m, w, |s|) == |out|
    }

    /** Merges the next two runs. */
    method MergeNext(p: Elem, insize: nat, tail0: Elem?, cmp: (int, int) -> int, ghost at: Places, ghost s: seq<Elem>,
                     ghost out0: seq<Elem>, ghost a: int, ghost m: nat)
      returns (q: Elem?, tail: Elem?, ghost out: seq<Elem>, ghost b: int)
      requires Sortable(cmp, at, s, insize) && Passing(cmp, at, s, out0, 2 * insize, a, m) && a < |s| && p == s[a]
      requires tail0 == Last(out0)
      modifies this`head, this`nx, this`pv, nodes
      ensures Passing(cmp, at, s, out, 2 * insize, b, m + 1) && a < b && tail == Last(out)
      ensures q == (if b < |s| then s[b] else null)
    {
      hide Tied, Built, Strung, Split, Woven, Run, Distinct, TotalPreorder, Runs, Start;
      var q0, psize := FindEnd(p, insize, s, a);
      ghost var pe := a + psize;
      StartStep(m, insize, |s|);
      StartStep(2 * m, insize, |s|);
      StartStep(2 * m + 1, insize, |s|);
      b := Start(m + 1, 2 * insize, |s|);
      assert RunAt(cmp, at, s, insize, |s|, 2 * m) && RunAt(cmp, at, s, insize, |s|, 2 * m + 1);
      MergeStart(cmp, at, nx, s, out0, a, pe, b);
      q, tail, out := MergeRuns(p, psize, q0, insize, tail0, cmp, at, s, out0, a, pe, b);
      MergeDone(cmp, at, nx, s, out, a, pe, b);
      RunsMore(cmp, at, out0, out, 2 * insize, |s|, m);
    }

    ghost predicate Sortable(cmp: (int, int) -> int, at: Places, s: seq<Elem>, insize: nat)
      reads this`nodes
    {
      insize > 0 && TotalPreorder(cmp) && Distinct(s) && (forall x :: x in s ==> x in nodes) &&
        AllRuns(cmp, at, s, insize)
    }

    /** One pass of the sort: merges all pairs of runs of `insize` elements. */
    method Pass(insize: nat, cmp: (int, int) -> int, ghost at: Places, ghost s: seq<Elem>)
      returns (nmerges: nat, ghost out: seq<Elem>)
      requires Sortable(cmp, at, s, insize) && Tied() && head == First(s) && Linked(nx, pv, s) && s != []
      modifies this`head, this`nx, this`pv, nodes
      ensures Tied() && head == First(out) && Linked(nx, pv, out) && AllRuns(cmp, at, out, 2 * insize)
      ensures |out| == |s| && (forall x :: x in out <==> x in s)
      ensures if nmerges <= 1 then Run(cmp, at, out, 0, |out|) else 2 * insize < |s|
    {
      hide Tied, Built, Strung, Split, Run, TotalPreorder, Linked, AllRuns;
      var p := head;
      head := null;
      var tail: Elem? := null;
      nmerges, out := 0, [];
      ghost var a := 0;
      OpenList(nx, pv, s);
      while p != null
        invariant Passing(cmp, at, s, out, 2 * insize, a, nmerges) && tail == Last(out)
        invariant p == if a < |s| then s[a] else null
        invariant nmerges > 1 ==> 2 * insize < |s|
        decreases |s| - a
      {
        if nmerges == 1 { StartStep(0, 2 * insize, |s|); }
        p, tail, out, a := MergeNext(p, insize, tail, cmp, at, s, out, a, nmerges);
        nmerges := nmerges + 1;
      }
      RunsAll(cmp, at, out, 2 * insize, nmerges);
      Close(s, out, tail);
    }

    /** The end of a pass. */
    method Close(ghost s: seq<Elem>, ghost out: seq<Elem>, tail: Elem?)
      requires Tied() && head == First(out) && Built(nx, pv, out) && Split(s, out, |s|, |s|, |s|) && tail == Last(out)
      requires s != []
      requires forall x :: x in s ==> x in nodes
      modifies this`nx, this`pv, nodes
      ensures Tied() && Linked(nx, pv, out) && |out| == |s| && forall x :: x in out <==> x in s
    {
      Closed(nx, pv, out);
      head.prev := tail;
      tail.next := null;
      nx, pv := nx[tail := null], pv[head := tail];
      forall x | x in s ensures x in out {
        var k :| 0 <= k < |s| && s[k] == x;
        assert s[k] in out <==> !Left(|s|, |s|, |s|, k);
      }
    }

    /** DL_SORT: a stable sort of the list by `cmp`. */
    method Sort(cmp: (int, int) -> int)
      requires Valid() && TotalPreorder(cmp)
      modifies this, nodes
      ensures Valid() && nodes == old(nodes) && multiset(elems) == multiset(old(elems))
      ensures Sorted(cmp, elems) && Stable(cmp, old(elems), elems)
    {
      hide Tied, Linked, AllRuns, Run;
      ghost var was := elems;
      Apart();
      ghost var at := MakePlaces(was);
      SingleRuns(cmp, at, was);
      if head != null {
        var insize, looping := 1, true;
        while looping
          invariant Tied() && head == First(elems) && Linked(nx, pv, elems) && nodes == old(nodes) && |elems| == |was|
          invariant elems != []
          invariant (forall x :: x in elems <==> x in was) && insize > 0
          invariant if looping then AllRuns(cmp, at, elems, insize) else Run(cmp, at, elems, 0, |elems|)
          invariant insize > 1 && looping ==> insize < |elems|
          decreases looping, |elems| - insize
        {
          Apart();
          var nmerges;
          nmerges, elems := Pass(insize, cmp, at, elems);
          if nmerges <= 1 {
            looping := false;
          }
          insize := insize * 2;
        }
        Apart();
        SameElements(was, elems);
        RunSorts(cmp, at, was, elems);
      }
    }

    lemma Apart()
      requires Linked(nx, pv, elems)
      ensures Distinct(elems)
    {
    }
  }
}
