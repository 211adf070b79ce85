/** Sorting by insertion, and that it gives what DL_SORT leaves. */
module Insertion {
  import opened ListShape

  /** A new element goes before its equals. */
  function Inserted<T>(le: (T, T) -> bool, x: T, s: seq<T>): seq<T> {
    if s == [] || le(x, s[0]) then [x] + s else [s[0]] + Inserted(le, x, s[1..])
  }

  function InsertionSorted<T>(le: (T, T) -> bool, s: seq<T>): seq<T> {
    if s == [] then [] else Inserted(le, s[0], InsertionSorted(le, s[1..]))
  }

  lemma {:induction false} InsertedHas<T>(le: (T, T) -> bool, x: T, s: seq<T>, y: T)
    ensures y in Inserted(le, x, s) <==> y in s || y == x
  {
    if s != [] {
      InsertedHas(le, x, s[1..], y);
      assert s == [s[0]] + s[1..];
    }
  }

  lemma {:induction false} InsertionSortedHas<T>(le: (T, T) -> bool, s: seq<T>, y: T)
    ensures y in InsertionSorted(le, s) <==> y in s
  {
    if s != [] {
      InsertionSortedHas(le, s[1..], y);
      InsertedHas(le, s[0], InsertionSorted(le, s[1..]), y);
    }
  }

  /** What the elements of a list hold, in order. */
  ghost function Held<T>(val: map<Elem, T>, s: seq<Elem>): (r: seq<T>)
    requires forall x :: x in s ==> x in val
    ensures |r| == |s| && forall i :: 0 <= i < |s| ==> r[i] == val[s[i]]
  {
    seq(|s|, i requires 0 <= i < |s| => assert s[i] in s; val[s[i]])
  }

  /** The order `le` of what the elements hold is the order `cmp` of their keys. */
  ghost predicate Agree<T>(cmp: (int, int) -> int, le: (T, T) -> bool, val: map<Elem, T>, s: seq<Elem>) {
    && (forall x :: x in s ==> x in val)
    && forall x, y :: x in s && y in s ==> (le(val[x], val[y]) <==> cmp(x.key, y.key) <= 0)
  }

  lemma {:induction false} InsertedAt<T>(le: (T, T) -> bool, x: T, s: seq<T>, k: nat)
    requires k <= |s| && (forall j :: 0 <= j < k ==> !le(x, s[j])) && (k < |s| ==> le(x, s[k]))
    ensures Inserted(le, x, s) == s[..k] + [x] + s[k..]
  {
    if k > 0 {
      InsertedAt(le, x, s[1..], k - 1);
      assert s[..k] == [s[0]] + s[1..][..k - 1] && s[k..] == s[1..][k - 1..];
    }
  }

  /** The result of DL_SORT: the same elements, sorted, equals in their old order. */
  ghost predicate StablySorts(cmp: (int, int) -> int, was: seq<Elem>, s: seq<Elem>) {
    && Distinct(was) && Distinct(s) && |was| == |s| && (forall x :: x in was ==> x in s) &&
      (forall x :: x in s ==> x in was)
    && Sorted(cmp, s) && Stable(cmp, was, s)
  }

  lemma RestHas(was: seq<Elem>, s: seq<Elem>, k: int, x: Elem)
    requires Distinct(was) && Distinct(s) && was != [] && 0 <= k < |s| && s[k] == was[0]
    requires (forall x :: x in was ==> x in s) && forall x :: x in s ==> x in was
    ensures x in was[1..] <==> x in Without(s, k)
  {
    assert was == [was[0]] + was[1..];
    var u := Without(s, k);
    if x in s && x != s[k] {
      var i :| 0 <= i < |s| && s[i] == x;
      assert x == u[if i < k then i else i - 1];
    }
    if x in u {
      var i :| 0 <= i < |u| && u[i] == x;
      assert x == s[if i < k then i else i + 1];
    }
  }

  lemma RestStable(cmp: (int, int) -> int, was: seq<Elem>, s: seq<Elem>, k: int)
    requires Sorted(cmp, s) && Stable(cmp, was, s) && was != [] && 0 <= k < |s|
    ensures Sorted(cmp, Without(s, k)) && Stable(cmp, was[1..], Without(s, k))
  {
    var t, u := was[1..], Without(s, k);
    forall i | 0 <= i < |u| ensures u[i] == s[if i < k then i else i + 1] { }
    forall a | 0 <= a < |t| ensures t[a] == was[a + 1] { }
  }

  /** Without the first element of the list, and where that went. */
  lemma SortsRest(cmp: (int, int) -> int, was: seq<Elem>, s: seq<Elem>, k: int)
    requires StablySorts(cmp, was, s) && was != [] && 0 <= k < |s| && s[k] == was[0]
    ensures StablySorts(cmp, was[1..], Without(s, k))
    ensures forall j :: 0 <= j < k ==> cmp(s[k].key, s[j].key) > 0
    ensures k + 1 < |s| ==> cmp(s[k].key, s[k + 1].key) <= 0
  {
    forall j | 0 <= j < k ensures cmp(s[k].key, s[j].key) > 0 {
      assert s[j] in was;
      var a :| 0 <= a < |was| && was[a] == s[j];
    }
    RestStable(cmp, was, s, k);
    hide Sorted, Stable;
    forall x ensures x in was[1..] <==> x in Without(s, k) { RestHas(was, s, k, x); }
  }

  lemma InsertsBack<T>(le: (T, T) -> bool, val: map<Elem, T>, s: seq<Elem>, k: int)
    requires 0 <= k < |s| && forall x :: x in s ==> x in val
    requires (forall j :: 0 <= j < k ==> !le(val[s[k]], val[s[j]])) && (k + 1 < |s| ==> le(val[s[k]], val[s[k + 1]]))
    ensures forall x :: x in Without(s, k) ==> x in val
    ensures Inserted(le, val[s[k]], Held(val, Without(s, k))) == Held(val, s)
  {
    var h := Held(val, Without(s, k));
    forall j | 0 <= j < |h| ensures h[j] == val[s[if j < k then j else j + 1]] { }
    InsertedAt(le, val[s[k]], h, k);
    assert Held(val, s) == h[..k] + [val[s[k]]] + h[k..];
  }

  lemma AgreeAt<T>(cmp: (int, int) -> int, le: (T, T) -> bool, val: map<Elem, T>, was: seq<Elem>, x: Elem, y: Elem)
    requires Agree(cmp, le, val, was) && x in was && y in was
    ensures le(val[x], val[y]) <==> cmp(x.key, y.key) <= 0
  {
  }

  lemma AgreeRest<T>(cmp: (int, int) -> int, le: (T, T) -> bool, val: map<Elem, T>, was: seq<Elem>)
    requires Agree(cmp, le, val, was) && was != []
    ensures Agree(cmp, le, val, was[1..]) && Held(val, was)[1..] == Held(val, was[1..])
    ensures Held(val, was)[0] == val[was[0]]
  {
    assert forall x :: x in was[1..] ==> x in was;
  }

  /** What DL_SORT leaves is what insertion leaves. */
  lemma {:induction false} SortsLikeInsertion<T>(
    cmp: (int, int) -> int, le: (T, T) -> bool, val: map<Elem, T>, was: seq<Elem>, s: seq<Elem>)
    requires StablySorts(cmp, was, s) && Agree(cmp, le, val, was)
    ensures (forall x :: x in s ==> x in val) && Held(val, s) == InsertionSorted(le, Held(val, was))
  {
    hide Sorted, Stable, Distinct, Agree, Inserted, Without;
    assert forall x :: x in was ==> x in val by { AgreeIn(cmp, le, val, was); }
    if was != [] {
      assert was[0] in s;
      var k :| 0 <= k < |s| && s[k] == was[0];
      SortsRest(cmp, was, s, k);
      AgreeRest(cmp, le, val, was);
      SortsLikeInsertion(cmp, le, val, was[1..], Without(s, k));
      forall j | 0 <= j < |s| ensures le(val[s[k]], val[s[j]]) <==> cmp(s[k].key, s[j].key) <= 0 {
        AgreeAt(cmp, le, val, was, s[k], s[j]);
      }
      InsertsBack(le, val, s, k);
    }
  }

  lemma AgreeIn<T>(cmp: (int, int) -> int, le: (T, T) -> bool, val: map<Elem, T>, was: seq<Elem>)
    requires Agree(cmp, le, val, was)
    ensures forall x :: x in was ==> x in val
  {
  }

  /** Putting an element in front and sorting is entering what it holds. */
  lemma EntersLikeInsertion<T>(
    cmp: (int, int) -> int, le: (T, T) -> bool, val: map<Elem, T>, s: seq<Elem>, e: Elem, s': seq<Elem>)
    requires Distinct([e] + s) && Distinct(s') && multiset([e] + s) == multiset(s') && Sorted(cmp, s')
    requires Stable(cmp, [e] + s, s')
    requires Agree(cmp, le, val, [e] + s) && e in val && forall x :: x in s ==> x in val
    ensures (forall x :: x in s' ==> x in val) && Held(val, s') == InsertionSorted(le, [val[e]] + Held(val, s))
  {
    hide Sorted, Stable, Distinct, Agree, InsertionSorted;
    var was := [e] + s;
    SameList(was, s');
    SortsLikeInsertion(cmp, le, val, was, s');
    assert Held(val, was) == [val[e]] + Held(val, s);
  }

  lemma SameList(was: seq<Elem>, s: seq<Elem>)
    requires multiset(was) == multiset(s)
    ensures |was| == |s| && (forall x :: x in was ==> x in s) && forall x :: x in s ==> x in was
  {
    assert |was| == |multiset(was)| && |s| == |multiset(s)|;
    forall x | x in was ensures x in s { assert x in multiset(was); }
    forall x | x in s ensures x in was { assert x in multiset(s); }
  }
}
