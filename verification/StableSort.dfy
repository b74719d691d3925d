/** `sorted(comparator)` on an ordered stream: a stable sort, modelled as insertion sort
    driven by a Java `Comparator` (a function returning a negative, zero or positive int). */
module StableSort {
  import Seq = Sequences

  /** Adjacent elements are in `cmp` order. */
  ghost predicate SortedBy<T>(s: seq<T>, cmp: (T, T) -> int) {
    forall i :: 0 <= i < |s| - 1 ==> cmp(s[i], s[i + 1]) <= 0
  }

  /** `cmp` orders every two elements of `s` one way or the other. */
  ghost predicate TotalOn<T>(s: seq<T>, cmp: (T, T) -> int) {
    forall i, j :: 0 <= i < |s| && 0 <= j < |s| ==> cmp(s[i], s[j]) <= 0 || cmp(s[j], s[i]) <= 0
  }

  /** Places `x` before the first element it does not exceed, so it stays ahead of its equals. */
  function Insert<T>(x: T, t: seq<T>, cmp: (T, T) -> int): (r: seq<T>)
    ensures multiset(r) == multiset(t) + multiset{x}
    ensures |r| == |t| + 1
    ensures r[0] == x || (|t| > 0 && r[0] == t[0])
  {
    if |t| == 0 then [x]
    else if cmp(x, t[0]) <= 0 then [x] + t
    else
      assert t == [t[0]] + t[1..];
      [t[0]] + Insert(x, t[1..], cmp)
  }

  /** The sorted permutation of `s`. */
  function Sort<T>(s: seq<T>, cmp: (T, T) -> int): (r: seq<T>)
    ensures multiset(r) == multiset(s)
    ensures |r| == |s|
  {
    if |s| == 0 then []
    else
      assert s == [s[0]] + s[1..];
      Insert(s[0], Sort(s[1..], cmp), cmp)
  }

  lemma {:induction false} InsertSorted<T>(x: T, t: seq<T>, cmp: (T, T) -> int)
    requires SortedBy(t, cmp)
    requires forall j :: 0 <= j < |t| ==> cmp(x, t[j]) <= 0 || cmp(t[j], x) <= 0
    ensures SortedBy(Insert(x, t, cmp), cmp)
  {
    if |t| > 0 && cmp(x, t[0]) > 0 {
      InsertSorted(x, t[1..], cmp);
      var r := Insert(x, t, cmp);
      var u := Insert(x, t[1..], cmp);
      assert r == [t[0]] + u;
      assert cmp(t[0], u[0]) <= 0;
    }
  }

  /** Under a comparator that orders the input's elements, the result is sorted. */
  lemma {:induction false} SortSorted<T>(s: seq<T>, cmp: (T, T) -> int)
    requires TotalOn(s, cmp)
    ensures SortedBy(Sort(s, cmp), cmp)
  {
    if |s| > 0 {
      var tail := s[1..];
      assert TotalOn(tail, cmp) by {
        forall i, j | 0 <= i < |tail| && 0 <= j < |tail|
          ensures cmp(tail[i], tail[j]) <= 0 || cmp(tail[j], tail[i]) <= 0
        {
          assert tail[i] == s[i + 1] && tail[j] == s[j + 1];
        }
      }
      SortSorted(tail, cmp);
      var t := Sort(tail, cmp);
      forall j | 0 <= j < |t|
        ensures cmp(s[0], t[j]) <= 0 || cmp(t[j], s[0]) <= 0
      {
        assert t[j] in multiset(tail);
        var k :| 0 <= k < |tail| && tail[k] == t[j];
        assert s[k + 1] == t[j];
      }
      InsertSorted(s[0], t, cmp);
    }
  }

  /** Under a comparator that orders the input's elements, the result is sorted; otherwise
      nothing is promised about the order. */
  lemma SortOrders<T>(s: seq<T>, cmp: (T, T) -> int)
    ensures TotalOn(s, cmp) ==> SortedBy(Sort(s, cmp), cmp)
  {
    if TotalOn(s, cmp) {
      SortSorted(s, cmp);
    }
  }

  /** Inserting `x` moves it past no element of its own class: the members of a class of
      mutually equal elements come out of `Insert` in the order they went in. */
  lemma {:induction false} InsertKeepsClass<T>(x: T, t: seq<T>, cmp: (T, T) -> int, p: T -> bool)
    requires forall j :: 0 <= j < |t| && p(x) && p(t[j]) ==> cmp(x, t[j]) == 0
    ensures Seq.Filter(Insert(x, t, cmp), p) == (if p(x) then [x] else []) + Seq.Filter(t, p)
  {
    if |t| == 0 {
      assert Insert(x, t, cmp) == [x] + t;
      Seq.FilterCons(x, t, p);
    } else if cmp(x, t[0]) <= 0 {
      Seq.FilterCons(x, t, p);
    } else {
      forall j | 0 <= j < |t[1..]| && p(x) && p(t[1..][j])
        ensures cmp(x, t[1..][j]) == 0
      {
        assert t[1..][j] == t[j + 1];
      }
      InsertKeepsClass(x, t[1..], cmp, p);
      assert Insert(x, t, cmp) == [t[0]] + Insert(x, t[1..], cmp);
      assert !(p(x) && p(t[0]));
      SwapPast(x, t[0], t[1..], Insert(x, t[1..], cmp), p);
      assert t == [t[0]] + t[1..];
    }
  }

  /** Moving `x` past an element `y` of another class leaves every class's order as it was. */
  lemma SwapPast<T>(x: T, y: T, rest: seq<T>, u: seq<T>, p: T -> bool)
    requires !(p(x) && p(y))
    requires Seq.Filter(u, p) == (if p(x) then [x] else []) + Seq.Filter(rest, p)
    ensures Seq.Filter([y] + u, p) == (if p(x) then [x] else []) + Seq.Filter([y] + rest, p)
  {
    Seq.FilterCons(y, u, p);
    Seq.FilterCons(y, rest, p);
    if p(x) {
      assert Seq.Filter([y] + u, p) == Seq.Filter(u, p);
      assert Seq.Filter([y] + rest, p) == Seq.Filter(rest, p);
    } else {
      assert Seq.Filter(u, p) == Seq.Filter(rest, p);
    }
  }

  /** Stability: elements of any class whose members compare equal keep their relative order. */
  lemma {:induction false} SortStable<T>(s: seq<T>, cmp: (T, T) -> int, p: T -> bool)
    requires forall i, j :: 0 <= i < |s| && 0 <= j < |s| && p(s[i]) && p(s[j]) ==> cmp(s[i], s[j]) == 0
    ensures Seq.Filter(Sort(s, cmp), p) == Seq.Filter(s, p)
  {
    if |s| > 0 {
      var tail := s[1..];
      forall i, j | 0 <= i < |tail| && 0 <= j < |tail| && p(tail[i]) && p(tail[j])
        ensures cmp(tail[i], tail[j]) == 0
      {
        assert tail[i] == s[i + 1] && tail[j] == s[j + 1];
      }
      SortStable(tail, cmp, p);
      var t := Sort(tail, cmp);
      forall j | 0 <= j < |t| && p(s[0]) && p(t[j])
        ensures cmp(s[0], t[j]) == 0
      {
        assert t[j] in multiset(tail);
        var k :| 0 <= k < |tail| && tail[k] == t[j];
        assert s[k + 1] == t[j];
      }
      InsertKeepsClass(s[0], t, cmp, p);
    }
  }

  /** Under a comparator obeying the `Comparator` contract on the input, the elements comparing
      equal to any one element appear in the sorted result in their original order. */
  lemma EqualElementsKeepOrder<T>(s: seq<T>, cmp: (T, T) -> int, k: nat)
    requires Seq.PreorderOn(s, cmp)
    requires k < |s|
    ensures Seq.Filter(Sort(s, cmp), x => cmp(x, s[k]) == 0) == Seq.Filter(s, x => cmp(x, s[k]) == 0)
  {
    var p := x => cmp(x, s[k]) == 0;
    forall i, j | 0 <= i < |s| && 0 <= j < |s| && p(s[i]) && p(s[j])
      ensures cmp(s[i], s[j]) == 0
    {
      assert cmp(s[k], s[j]) == 0;
      assert cmp(s[i], s[j]) <= 0;
      assert cmp(s[k], s[i]) == 0;
      assert cmp(s[j], s[i]) <= 0;
    }
    SortStable(s, cmp, p);
  }
}
