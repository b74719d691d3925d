/** The sequential, encounter-ordered meaning of the `java.util.stream`
    operations that the decorators delegate to, stated on finite sequences. */
module Sequences {
  import opened Results

  /** No element occurs twice. */
  ghost predicate NoDuplicates<T>(s: seq<T>) {
    forall i, j :: 0 <= i < j < |s| ==> s[i] != s[j]
  }

  /** `filter(p)`: the elements satisfying `p`, in encounter order. */
  function Filter<T>(s: seq<T>, p: T -> bool): (r: seq<T>)
    ensures |r| <= |s|
    ensures forall i :: 0 <= i < |r| ==> r[i] in s && p(r[i])
    ensures forall i :: 0 <= i < |s| && p(s[i]) ==> s[i] in r
    ensures |r| == |s| ==> r == s
  {
    if |s| == 0 then [] else (if p(s[0]) then [s[0]] else []) + Filter(s[1..], p)
  }

  /** Filtering distributes over concatenation, so relative order is kept. */
  lemma {:induction false} FilterConcat<T>(a: seq<T>, b: seq<T>, p: T -> bool)
    ensures Filter(a + b, p) == Filter(a, p) + Filter(b, p)
  {
    if |a| == 0 {
      assert a + b == b;
    } else {
      assert (a + b)[1..] == a[1..] + b;
      FilterConcat(a[1..], b, p);
    }
  }

  /** `Filter` on a sequence with a known first element. */
  lemma FilterCons<T>(x: T, u: seq<T>, p: T -> bool)
    ensures Filter([x] + u, p) == (if p(x) then [x] else []) + Filter(u, p)
  {
    assert ([x] + u)[1..] == u;
  }

  /** A sequence whose every element passes is left unchanged. */
  lemma {:induction false} FilterKeepsAll<T>(s: seq<T>, p: T -> bool)
    requires forall i :: 0 <= i < |s| ==> p(s[i])
    ensures Filter(s, p) == s
  {
    if |s| > 0 {
      FilterKeepsAll(s[1..], p);
    }
  }

  /** Filtering a sequence without duplicates yields one without duplicates. */
  lemma {:induction false} FilterNoDuplicates<T>(s: seq<T>, p: T -> bool)
    requires NoDuplicates(s)
    ensures NoDuplicates(Filter(s, p))
  {
    if |s| > 0 {
      FilterNoDuplicates(s[1..], p);
      assert s[0] !in s[1..];
    }
  }

  /** `map(f)`: `f` applied to every element, position by position. */
  function Map<T, U>(s: seq<T>, f: T -> U): (r: seq<U>)
    ensures |r| == |s|
    ensures forall i :: 0 <= i < |s| ==> r[i] == f(s[i])
  {
    if |s| == 0 then [] else [f(s[0])] + Map(s[1..], f)
  }

  /** The concatenation of a sequence of sequences. */
  function Flatten<T>(ss: seq<seq<T>>): (r: seq<T>)
    ensures |ss| > 0 ==> ss[0] <= r
    ensures forall i, j :: 0 <= i < |ss| && 0 <= j < |ss[i]| ==> ss[i][j] in r
  {
    if |ss| == 0 then [] else ss[0] + Flatten(ss[1..])
  }

  lemma {:induction false} FlattenConcat<T>(a: seq<seq<T>>, b: seq<seq<T>>)
    ensures Flatten(a + b) == Flatten(a) + Flatten(b)
  {
    if |a| == 0 {
      assert a + b == b;
    } else {
      assert (a + b)[1..] == a[1..] + b;
      FlattenConcat(a[1..], b);
    }
  }

  /** A mapped stream that is `null` contributes no elements. */
  function OrEmpty<T>(o: Option<seq<T>>): seq<T> {
    match o
    case None => []
    case Some(s) => s
  }

  /** `flatMap(f)`: the concatenation of the streams `f` yields, where a `null` stream counts as empty. */
  function FlatMap<T, U>(s: seq<T>, f: T -> Option<seq<U>>): (r: seq<U>)
    ensures forall i, j :: 0 <= i < |s| && 0 <= j < |OrEmpty(f(s[i]))| ==> OrEmpty(f(s[i]))[j] in r
  {
    Flatten(Map(s, (x: T) => OrEmpty(f(x))))
  }

  /** `limit(n)`: the first `n` elements, or all of them when there are fewer. */
  function Limit<T>(s: seq<T>, n: nat): (r: seq<T>)
    ensures r <= s
    ensures |r| == if n < |s| then n else |s|
  {
    if n < |s| then s[..n] else s
  }

  /** `skip(n)`: everything after the first `n` elements. */
  function Skip<T>(s: seq<T>, n: nat): (r: seq<T>)
    ensures |r| == if n < |s| then |s| - n else 0
    ensures forall i :: 0 <= i < |r| ==> r[i] == s[i + (|s| - |r|)]
  {
    if n < |s| then s[n..] else []
  }

  /** What `limit(n)` keeps and what `skip(n)` keeps are the whole sequence, split in two. */
  lemma LimitThenSkip<T>(s: seq<T>, n: nat)
    ensures Limit(s, n) + Skip(s, n) == s
  {
    if n < |s| {
      assert s[..n] + s[n..] == s;
    }
  }

  /** `takeWhile(p)`: the longest prefix whose elements all satisfy `p`. */
  function TakeWhile<T>(s: seq<T>, p: T -> bool): (r: seq<T>)
    ensures r <= s
    ensures forall i :: 0 <= i < |r| ==> p(r[i])
    ensures |r| < |s| ==> !p(s[|r|])
  {
    if |s| == 0 || !p(s[0]) then [] else [s[0]] + TakeWhile(s[1..], p)
  }

  /** `dropWhile(p)`: what remains after that prefix is removed. */
  function DropWhile<T>(s: seq<T>, p: T -> bool): (r: seq<T>)
    ensures TakeWhile(s, p) + r == s
    ensures |r| > 0 ==> !p(r[0])
  {
    if |s| == 0 || !p(s[0]) then s else DropWhile(s[1..], p)
  }

  /** The position of the first occurrence of `x` in `s`. */
  function FirstIndex<T(==)>(s: seq<T>, x: T): (i: nat)
    requires x in s
    ensures i < |s| && s[i] == x
    ensures forall j :: 0 <= j < i ==> s[j] != x
  {
    if s[0] == x then 0 else 1 + FirstIndex(s[1..], x)
  }

  /** Appending elements does not move a first occurrence that is already there. */
  lemma FirstIndexAppend<T>(a: seq<T>, b: seq<T>, x: T)
    requires x in a
    ensures FirstIndex(a + b, x) == FirstIndex(a, x)
  {
    var k := FirstIndex(a, x);
    assert (a + b)[k] == x;
  }

  /** `distinct()`: the first occurrence of every element, in encounter order. */
  function Distinct<T(==)>(s: seq<T>): (r: seq<T>)
    ensures NoDuplicates(r)
    ensures forall i :: 0 <= i < |r| ==> r[i] in s
    ensures forall i :: 0 <= i < |s| ==> s[i] in r
    ensures NoDuplicates(s) ==> r == s
  {
    if |s| == 0 then []
    else
      var init := s[..|s| - 1];
      var last := s[|s| - 1];
      assert s == init + [last];
      assert forall i :: 0 <= i < |init| ==> s[i] == init[i];
      var r0 := Distinct(init);
      assert NoDuplicates(s) ==> NoDuplicates(init) && last !in init;
      if last in init then r0
      else
        assert last !in r0;
        r0 + [last]
  }

  /** `Distinct` keeps the survivors in the order of their first occurrences. */
  lemma {:induction false} DistinctKeepsEncounterOrder<T>(s: seq<T>)
    ensures forall i, j :: 0 <= i < j < |Distinct(s)| ==>
      FirstIndex(s, Distinct(s)[i]) < FirstIndex(s, Distinct(s)[j])
  {
    if |s| > 0 {
      var init := s[..|s| - 1];
      var last := s[|s| - 1];
      assert s == init + [last];
      var r0 := Distinct(init);
      DistinctKeepsEncounterOrder(init);
      forall i | 0 <= i < |r0|
        ensures FirstIndex(s, r0[i]) == FirstIndex(init, r0[i])
      {
        FirstIndexAppend(init, [last], r0[i]);
      }
      if last !in init {
        var r := Distinct(s);
        assert r == r0 + [last];
        assert FirstIndex(s, last) == |s| - 1;
        forall i, j | 0 <= i < j < |r|
          ensures FirstIndex(s, r[i]) < FirstIndex(s, r[j])
        {
          assert r[i] == r0[i];
          if j < |r0| {
            assert r[j] == r0[j];
          }
        }
      }
    }
  }

  /** `Distinct` needs no second application. */
  lemma DistinctIdempotent<T>(s: seq<T>)
    ensures Distinct(Distinct(s)) == Distinct(s)
  {
  }

  /** The sequential fold `reduce(identity, op)` and `collect` perform: `op` applied left to right. */
  function FoldLeft<A, T>(s: seq<T>, z: A, f: (A, T) -> A): A {
    if |s| == 0 then z else FoldLeft(s[1..], f(z, s[0]), f)
  }

  /** Folding a concatenation folds the second part from the result of the first. */
  lemma {:induction false} FoldLeftConcat<A, T>(a: seq<T>, b: seq<T>, z: A, f: (A, T) -> A)
    ensures FoldLeft(a + b, z, f) == FoldLeft(b, FoldLeft(a, z, f), f)
  {
    if |a| == 0 {
      assert a + b == b;
    } else {
      assert (a + b)[1..] == a[1..] + b;
      FoldLeftConcat(a[1..], b, f(z, a[0]), f);
    }
  }

  /** The last step of a fold applies `f` to the fold of everything before it. */
  lemma FoldLeftLast<A, T>(s: seq<T>, z: A, f: (A, T) -> A)
    ensures |s| > 0 ==> FoldLeft(s, z, f) == f(FoldLeft(s[..|s| - 1], z, f), s[|s| - 1])
  {
    if |s| > 0 {
      assert s == s[..|s| - 1] + [s[|s| - 1]];
      FoldLeftConcat(s[..|s| - 1], [s[|s| - 1]], z, f);
    }
  }

  /** `reduce(op)` without identity: empty for no elements, otherwise the fold from the first. */
  function Reduce<T>(s: seq<T>, f: (T, T) -> T): (r: Option<T>)
    ensures r.None? <==> |s| == 0
  {
    if |s| == 0 then None else Some(FoldLeft(s[1..], s[0], f))
  }

  /** `anyMatch(p)`. */
  function AnyMatch<T>(s: seq<T>, p: T -> bool): (r: bool)
    ensures r <==> exists i :: 0 <= i < |s| && p(s[i])
  {
    if |s| == 0 then false else p(s[0]) || AnyMatch(s[1..], p)
  }

  /** `allMatch(p)`: in particular true for no elements. */
  function AllMatch<T>(s: seq<T>, p: T -> bool): (r: bool)
    ensures r <==> forall i :: 0 <= i < |s| ==> p(s[i])
  {
    if |s| == 0 then true else p(s[0]) && AllMatch(s[1..], p)
  }

  /** `noneMatch(p)`. */
  function NoneMatch<T>(s: seq<T>, p: T -> bool): (r: bool)
    ensures r <==> forall i :: 0 <= i < |s| ==> !p(s[i])
  {
    !AnyMatch(s, p)
  }

  /** `BinaryOperator.minBy(cmp)`: the left operand unless the right one is strictly smaller. */
  function MinBy<T>(cmp: (T, T) -> int): (T, T) -> T {
    (a: T, b: T) => if cmp(a, b) <= 0 then a else b
  }

  /** `BinaryOperator.maxBy(cmp)`: the left operand unless the right one is strictly greater. */
  function MaxBy<T>(cmp: (T, T) -> int): (T, T) -> T {
    (a: T, b: T) => if cmp(a, b) >= 0 then a else b
  }

  /** A fold of a choosing operator returns the start value or one of the elements. */
  lemma {:induction false} FoldChoosesAnElement<T>(s: seq<T>, z: T, f: (T, T) -> T)
    requires forall a, b :: f(a, b) == a || f(a, b) == b
    ensures FoldLeft(s, z, f) == z || FoldLeft(s, z, f) in s
  {
    if |s| > 0 {
      FoldChoosesAnElement(s[1..], f(z, s[0]), f);
    }
  }

  /** `cmp` keeps the `Comparator` contract on the elements of `s`: swapping the
      arguments flips the sign, and "not greater than" is transitive. */
  ghost predicate PreorderOn<T>(s: seq<T>, cmp: (T, T) -> int) {
    && (forall i, j :: 0 <= i < |s| && 0 <= j < |s| ==>
                       (cmp(s[i], s[j]) < 0 <==> cmp(s[j], s[i]) > 0) && (cmp(s[i], s[j]) == 0 <==> cmp(s[j], s[i]) == 0))
    && (forall i, j, k :: 0 <= i < |s| && 0 <= j < |s| && 0 <= k < |s| ==>
                          (cmp(s[i], s[j]) <= 0 && cmp(s[j], s[k]) <= 0 ==> cmp(s[i], s[k]) <= 0))
  }

  /** Transitivity of a preorder, for three elements of `all`. */
  lemma Transitive<T>(all: seq<T>, cmp: (T, T) -> int, a: T, b: T, c: T)
    requires PreorderOn(all, cmp)
    requires a in all && b in all && c in all
    requires cmp(a, b) <= 0 && cmp(b, c) <= 0
    ensures cmp(a, c) <= 0
  {
    var i :| 0 <= i < |all| && all[i] == a;
    var j :| 0 <= j < |all| && all[j] == b;
    var k :| 0 <= k < |all| && all[k] == c;
  }

  /** Two elements of `all` are ordered one way or the other, consistently from both sides. */
  lemma Total<T>(all: seq<T>, cmp: (T, T) -> int, a: T, b: T)
    requires PreorderOn(all, cmp)
    requires a in all && b in all
    ensures cmp(a, b) <= 0 || cmp(b, a) <= 0
    ensures cmp(a, b) >= 0 ==> cmp(b, a) <= 0
  {
    var i :| 0 <= i < |all| && all[i] == a;
    var j :| 0 <= j < |all| && all[j] == b;
  }

  /** Folding `minBy` over `[z] + t` yields an element no greater than any of them. */
  lemma {:induction false} FoldMinByIsLeast<T>(z: T, t: seq<T>, cmp: (T, T) -> int, all: seq<T>)
    requires PreorderOn(all, cmp)
    requires z in all && forall i :: 0 <= i < |t| ==> t[i] in all
    ensures FoldLeft(t, z, MinBy(cmp)) in all
    ensures cmp(FoldLeft(t, z, MinBy(cmp)), z) <= 0
    ensures forall i :: 0 <= i < |t| ==> cmp(FoldLeft(t, z, MinBy(cmp)), t[i]) <= 0
  {
    if |t| == 0 {
      Total(all, cmp, z, z);
    } else {
      var z' := MinBy(cmp)(z, t[0]);
      Total(all, cmp, z, t[0]);
      Total(all, cmp, z, z);
      Total(all, cmp, t[0], t[0]);
      assert cmp(z', z) <= 0 && cmp(z', t[0]) <= 0;
      FoldMinByIsLeast(z', t[1..], cmp, all);
      var r := FoldLeft(t, z, MinBy(cmp));
      assert r == FoldLeft(t[1..], z', MinBy(cmp));
      Transitive(all, cmp, r, z', z);
      Transitive(all, cmp, r, z', t[0]);
      forall i | 0 <= i < |t| ensures cmp(r, t[i]) <= 0 {
        if i > 0 {
          assert t[i] == t[1..][i - 1];
        }
      }
    }
  }

  /** Folding `maxBy` over `[z] + t` yields an element no smaller than any of them. */
  lemma {:induction false} FoldMaxByIsGreatest<T>(z: T, t: seq<T>, cmp: (T, T) -> int, all: seq<T>)
    requires PreorderOn(all, cmp)
    requires z in all && forall i :: 0 <= i < |t| ==> t[i] in all
    ensures FoldLeft(t, z, MaxBy(cmp)) in all
    ensures cmp(z, FoldLeft(t, z, MaxBy(cmp))) <= 0
    ensures forall i :: 0 <= i < |t| ==> cmp(t[i], FoldLeft(t, z, MaxBy(cmp))) <= 0
  {
    if |t| == 0 {
      Total(all, cmp, z, z);
    } else {
      var z' := MaxBy(cmp)(z, t[0]);
      Total(all, cmp, z, t[0]);
      Total(all, cmp, z, z);
      Total(all, cmp, t[0], t[0]);
      assert cmp(z, z') <= 0 && cmp(t[0], z') <= 0;
      FoldMaxByIsGreatest(z', t[1..], cmp, all);
      var r := FoldLeft(t, z, MaxBy(cmp));
      assert r == FoldLeft(t[1..], z', MaxBy(cmp));
      Transitive(all, cmp, z, z', r);
      Transitive(all, cmp, t[0], z', r);
      forall i | 0 <= i < |t| ensures cmp(t[i], r) <= 0 {
        if i > 0 {
          assert t[i] == t[1..][i - 1];
        }
      }
    }
  }

  /** `reduce(minBy(cmp))` on a non-empty sequence yields one of its least elements. */
  lemma ReduceMinByIsLeast<T>(s: seq<T>, cmp: (T, T) -> int)
    ensures |s| > 0 && PreorderOn(s, cmp) ==>
              && Reduce(s, MinBy(cmp)).value in s
              && forall i :: 0 <= i < |s| ==> cmp(Reduce(s, MinBy(cmp)).value, s[i]) <= 0
  {
    if |s| > 0 && PreorderOn(s, cmp) {
      FoldMinByIsLeast(s[0], s[1..], cmp, s);
      assert forall i :: 1 <= i < |s| ==> s[i] == s[1..][i - 1];
    }
  }

  /** `reduce(maxBy(cmp))` on a non-empty sequence yields one of its greatest elements. */
  lemma ReduceMaxByIsGreatest<T>(s: seq<T>, cmp: (T, T) -> int)
    ensures |s| > 0 && PreorderOn(s, cmp) ==>
              && Reduce(s, MaxBy(cmp)).value in s
              && forall i :: 0 <= i < |s| ==> cmp(s[i], Reduce(s, MaxBy(cmp)).value) <= 0
  {
    if |s| > 0 && PreorderOn(s, cmp) {
      FoldMaxByIsGreatest(s[0], s[1..], cmp, s);
      assert forall i :: 1 <= i < |s| ==> s[i] == s[1..][i - 1];
    }
  }

  /** The exact (unbounded) sum of a sequence of integers. */
  function ExactSum(s: seq<int>): int {
    if |s| == 0 then 0 else s[0] + ExactSum(s[1..])
  }
}
