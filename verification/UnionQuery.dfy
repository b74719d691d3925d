/** The union query: concatenating the films of two filtered streams, dropping duplicates and
    sorting by id gives the same list as one stream filtered on the disjunction and sorted by id. */
module UnionQuery {
  import opened JavaNumbers
  import Seq = Sequences
  import StableSort

  /** The film entity, reduced to the attributes the query reads. */
  datatype Film = Film(filmId: Int, length: Int, rating: string)

  /** `Comparator.comparing(key)` over an integer key. */
  function ByKey<T>(key: T -> int): (T, T) -> int {
    (a: T, b: T) => Compare(key(a), key(b))
  }

  /** No two positions of `s` carry the same key (the key is an identifier). */
  ghost predicate KeysUnique<T>(s: seq<T>, key: T -> int) {
    forall i, j :: 0 <= i < j < |s| ==> key(s[i]) != key(s[j])
  }

  /** Keys strictly increase along `s`. */
  ghost predicate KeysIncreasing<T>(s: seq<T>, key: T -> int) {
    forall i, j :: 0 <= i < j < |s| ==> key(s[i]) < key(s[j])
  }

  /** Each element occurs at most once, counted through the multiset. */
  lemma {:induction false} NoDuplicatesCountsOnce<T>(s: seq<T>)
    requires Seq.NoDuplicates(s)
    ensures forall x :: multiset(s)[x] <= 1
  {
    if |s| > 0 {
      var t := s[1..];
      assert s == [s[0]] + t;
      assert Seq.NoDuplicates(t) by {
        forall i, j | 0 <= i < j < |t| ensures t[i] != t[j] {
          assert t[i] == s[i + 1] && t[j] == s[j + 1];
        }
      }
      NoDuplicatesCountsOnce(t);
      assert s[0] !in t by {
        forall k | 0 <= k < |t| ensures t[k] != s[0] {
          assert t[k] == s[k + 1];
        }
      }
    }
  }

  /** A permutation of a duplicate-free sequence is duplicate-free. */
  lemma PermutationNoDuplicates<T>(a: seq<T>, b: seq<T>)
    requires Seq.NoDuplicates(a) && multiset(a) == multiset(b)
    ensures Seq.NoDuplicates(b)
  {
    NoDuplicatesCountsOnce(a);
    forall i, j | 0 <= i < j < |b| ensures b[i] != b[j] {
      assert b == b[..i] + [b[i]] + b[i + 1..j] + [b[j]] + b[j + 1..];
      assert multiset(b)[b[i]] <= 1;
    }
  }

  /** Distinct elements drawn from a sequence with unique keys have distinct keys. */
  lemma KeysUniqueSubset<T>(u: seq<T>, s: seq<T>, key: T -> int)
    requires KeysUnique(s, key) && Seq.NoDuplicates(u)
    requires forall i :: 0 <= i < |u| ==> u[i] in s
    ensures KeysUnique(u, key)
  {
    forall i, j | 0 <= i < j < |u| ensures key(u[i]) != key(u[j]) {
      var a :| 0 <= a < |s| && s[a] == u[i];
      var b :| 0 <= b < |s| && s[b] == u[j];
      assert a != b;
    }
  }

  /** Sorted by key with unique keys means strictly increasing keys. */
  lemma {:induction false} SortedUniqueIncreasing<T>(u: seq<T>, key: T -> int)
    requires StableSort.SortedBy(u, ByKey(key)) && KeysUnique(u, key)
    ensures KeysIncreasing(u, key)
  {
    if |u| > 1 {
      var t := u[1..];
      assert StableSort.SortedBy(t, ByKey(key)) by {
        forall i | 0 <= i < |t| - 1 ensures ByKey(key)(t[i], t[i + 1]) <= 0 {
          assert t[i] == u[i + 1] && t[i + 1] == u[i + 2];
        }
      }
      assert KeysUnique(t, key) by {
        forall i, j | 0 <= i < j < |t| ensures key(t[i]) != key(t[j]) {
          assert t[i] == u[i + 1] && t[j] == u[j + 1];
        }
      }
      SortedUniqueIncreasing(t, key);
      assert ByKey(key)(u[0], u[1]) <= 0;
      assert key(u[0]) < key(u[1]);
      forall i, j | 0 <= i < j < |u| ensures key(u[i]) < key(u[j]) {
        if i > 0 {
          assert u[i] == t[i - 1] && u[j] == t[j - 1];
        } else if j > 1 {
          assert u[1] == t[0] && u[j] == t[j - 1];
        }
      }
    }
  }

  /** Dropping the first element keeps keys increasing. */
  lemma TailIncreasing<T>(u: seq<T>, key: T -> int)
    requires |u| > 0 && KeysIncreasing(u, key)
    ensures KeysIncreasing(u[1..], key)
  {
    var t := u[1..];
    forall a, b | 0 <= a < b < |t| ensures key(t[a]) < key(t[b]) {
      assert t[a] == u[a + 1] && t[b] == u[b + 1];
    }
  }

  /** With the same first element, key-increasing sequences with the same members have
      tails with the same members: the first element has the least key, so it is not in a tail. */
  lemma TailsSameMembers<T>(u: seq<T>, v: seq<T>, key: T -> int)
    requires |u| > 0 && |v| > 0 && u[0] == v[0]
    requires KeysIncreasing(u, key) && KeysIncreasing(v, key)
    requires forall x :: x in u <==> x in v
    ensures forall x :: x in u[1..] <==> x in v[1..]
  {
    forall x | x in u[1..] ensures x in v[1..] {
      var k :| 0 <= k < |u| - 1 && u[1..][k] == x;
      assert key(u[0]) < key(u[k + 1]);
      assert x in v;
      var m :| 0 <= m < |v| && v[m] == x;
      assert m != 0;
      assert v[1..][m - 1] == x;
    }
    forall x | x in v[1..] ensures x in u[1..] {
      var k :| 0 <= k < |v| - 1 && v[1..][k] == x;
      assert key(v[0]) < key(v[k + 1]);
      assert x in u;
      var m :| 0 <= m < |u| && u[m] == x;
      assert m != 0;
      assert u[1..][m - 1] == x;
    }
  }

  /** Sequences with the same members are empty together. */
  lemma SameMembersBothEmpty<T>(u: seq<T>, v: seq<T>)
    requires forall x :: x in u <==> x in v
    ensures |u| == 0 <==> |v| == 0
  {
    if |u| > 0 {
      assert u[0] in v;
    }
    if |v| > 0 {
      assert v[0] in u;
    }
  }

  /** Two key-increasing sequences with the same members are the same sequence. */
  lemma {:induction false} IncreasingByMembersUnique<T>(u: seq<T>, v: seq<T>, key: T -> int)
    requires KeysIncreasing(u, key) && KeysIncreasing(v, key)
    requires forall x :: x in u <==> x in v
    ensures u == v
  {
    SameMembersBothEmpty(u, v);
    if |u| > 0 {
      assert u[0] in u;
      var j :| 0 <= j < |v| && v[j] == u[0];
      assert v[0] in v;
      var i :| 0 <= i < |u| && u[i] == v[0];
      TailIncreasing(u, key);
      TailIncreasing(v, key);
      TailsSameMembers(u, v, key);
      IncreasingByMembersUnique(u[1..], v[1..], key);
      assert u == [u[0]] + u[1..] && v == [v[0]] + v[1..];
    }
  }

  /** Sorting keeps the members. */
  lemma SortKeepsMembers<T>(a: seq<T>, cmp: (T, T) -> int)
    ensures forall x :: x in StableSort.Sort(a, cmp) <==> x in a
  {
    var r := StableSort.Sort(a, cmp);
    forall x ensures x in r <==> x in a {
      assert x in r <==> x in multiset(r);
      assert x in a <==> x in multiset(a);
    }
  }

  /** Unique keys imply no duplicate elements. */
  lemma KeysUniqueNoDuplicates<T>(s: seq<T>, key: T -> int)
    requires KeysUnique(s, key)
    ensures Seq.NoDuplicates(s)
  {
    forall i, j | 0 <= i < j < |s| ensures s[i] != s[j] {
      assert key(s[i]) != key(s[j]);
    }
  }

  /** Sorting a duplicate-free selection of a uniquely keyed sequence by key yields
      strictly increasing keys. */
  lemma SortSelection<T>(a: seq<T>, s: seq<T>, key: T -> int)
    requires Seq.NoDuplicates(a)
    requires forall i :: 0 <= i < |a| ==> a[i] in s
    ensures KeysUnique(s, key) ==> KeysIncreasing(StableSort.Sort(a, ByKey(key)), key)
  {
    if KeysUnique(s, key) {
      var r := StableSort.Sort(a, ByKey(key));
      assert StableSort.TotalOn(a, ByKey(key));
      StableSort.SortSorted(a, ByKey(key));
      PermutationNoDuplicates(a, r);
      forall i | 0 <= i < |r| ensures r[i] in s {
        assert r[i] in multiset(a);
      }
      KeysUniqueSubset(r, s, key);
      SortedUniqueIncreasing(r, key);
    }
  }

  /** The left-hand query: two filtered streams, flat-mapped with the identity, made distinct
      and sorted by key. */
  function Union<T(==, !new)>(s: seq<T>, p: T -> bool, q: T -> bool, key: T -> int): (r: seq<T>)
    ensures forall x :: x in r <==> x in s && (p(x) || q(x))
    ensures KeysUnique(s, key) ==> KeysIncreasing(r, key)
  {
    var a := Seq.Filter(s, p);
    var b := Seq.Filter(s, q);
    var both := Seq.Flatten([a, b]);
    assert both == a + b by {
      assert [a, b] == [a] + [b];
      Seq.FlattenConcat([a], [b]);
      assert [a][1..] == [] && [b][1..] == [];
    }
    var d := Seq.Distinct(both);
    assert forall i :: 0 <= i < |d| ==> d[i] in s by {
      forall i | 0 <= i < |d| ensures d[i] in s {
        assert d[i] in both;
      }
    }
    assert forall x :: x in d <==> x in s && (p(x) || q(x)) by {
      forall x ensures x in d <==> x in s && (p(x) || q(x)) {
        if x in d {
          assert x in both;
        }
        if x in s && (p(x) || q(x)) {
          var k :| 0 <= k < |s| && s[k] == x;
          assert x in a || x in b;
          assert x in both;
          var m :| 0 <= m < |both| && both[m] == x;
        }
      }
    }
    SortKeepsMembers(d, ByKey(key));
    SortSelection(d, s, key);
    StableSort.Sort(d, ByKey(key))
  }

  /** The right-hand query: one stream filtered on `either`, sorted by key. */
  function Disjunction<T(!new)>(s: seq<T>, either: T -> bool, key: T -> int): (r: seq<T>)
    ensures forall x :: x in r <==> x in s && either(x)
    ensures KeysUnique(s, key) ==> KeysIncreasing(r, key)
  {
    var f := Seq.Filter(s, either);
    assert forall x :: x in f <==> x in s && either(x) by {
      forall x ensures x in f <==> x in s && either(x) {
        if x in s && either(x) {
          var k :| 0 <= k < |s| && s[k] == x;
        }
      }
    }
    SortKeepsMembers(f, ByKey(key));
    FilterSelection(s, either, key);
    StableSort.Sort(f, ByKey(key))
  }

  /** Filtering a uniquely keyed sequence and sorting by key yields strictly increasing keys. */
  lemma FilterSelection<T>(s: seq<T>, either: T -> bool, key: T -> int)
    ensures KeysUnique(s, key) ==> KeysIncreasing(StableSort.Sort(Seq.Filter(s, either), ByKey(key)), key)
  {
    if KeysUnique(s, key) {
      KeysUniqueNoDuplicates(s, key);
      Seq.FilterNoDuplicates(s, either);
      SortSelection(Seq.Filter(s, either), s, key);
    }
  }

  /** With unique ids, the union query and the disjunction query return the same list. */
  lemma UnionEqualsDisjunction<T(!new)>(s: seq<T>, p: T -> bool, q: T -> bool, either: T -> bool, key: T -> int)
    requires KeysUnique(s, key)
    requires forall x :: either(x) <==> p(x) || q(x)
    ensures Union(s, p, q, key) == Disjunction(s, either, key)
  {
    IncreasingByMembersUnique(Union(s, p, q, key), Disjunction(s, either, key), key);
  }

  /** The films instance: length above 120 or rating "PG-13", sorted by film id. */
  lemma FilmsUnion(films: seq<Film>)
    requires KeysUnique(films, (f: Film) => f.filmId)
    ensures Union(films, (f: Film) => f.length > 120, (f: Film) => f.rating == "PG-13", (f: Film) => f.filmId)
         == Disjunction(films, (f: Film) => f.length > 120 || f.rating == "PG-13", (f: Film) => f.filmId)
  {
    UnionEqualsDisjunction(films, (f: Film) => f.length > 120, (f: Film) => f.rating == "PG-13",
                           (f: Film) => f.length > 120 || f.rating == "PG-13", (f: Film) => f.filmId);
  }
}
