/** The long lane of the auto-closing decorator (`LongStream`): the decorator at
    element type `Long`, plus the operations only a stream of `long` has. The shared
    intermediate and terminal operations are those of the `AutoClosing` module. */
module AutoClosingLong {
  import opened Results
  import opened JavaNumbers
  import AC = AutoClosing
  import Seq = Sequences
  import StableSort

  type LongDecorator = AC.Decorator<Long>

  /** `LongSummaryStatistics`: count, sum, minimum and maximum of the values seen. */
  datatype LongSummaryStatistics = LongSummaryStatistics(count: Long, sum: Long, min: Long, max: Long)

  /** What `average()` divides: the sum and the count (the `double` division itself is not modelled). */
  datatype AverageOperands = AverageOperands(sum: Long, count: Long)

  // ---------------------------------------------------------------------------
  // Folds over `long` values

  /** Summing with `Long.sum` gives the exact sum truncated to 64 bits. */
  lemma {:induction false} FoldAddIsWrappedSum(s: seq<Long>, z: Long)
    ensures Seq.FoldLeft(s, z, LongAdd) == WrapLong(z + Seq.ExactSum(s))
  {
    if |s| > 0 {
      FoldAddIsWrappedSum(s[1..], LongAdd(z, s[0]));
      WrapAddLeft(z + s[0], Seq.ExactSum(s[1..]));
    }
  }

  /** Folding `Math.min` yields the start value or an element, and nothing above either. */
  lemma {:induction false} FoldMinIsLeast(s: seq<Long>, z: Long)
    ensures var m := Seq.FoldLeft(s, z, LongMin);
            && (m == z || m in s) && m <= z
            && forall i :: 0 <= i < |s| ==> m <= s[i]
  {
    if |s| > 0 {
      FoldMinIsLeast(s[1..], LongMin(z, s[0]));
      assert forall i :: 1 <= i < |s| ==> s[i] == s[1..][i - 1];
    }
  }

  /** Folding `Math.max` yields the start value or an element, and nothing below either. */
  lemma {:induction false} FoldMaxIsGreatest(s: seq<Long>, z: Long)
    ensures var m := Seq.FoldLeft(s, z, LongMax);
            && (m == z || m in s) && m >= z
            && forall i :: 0 <= i < |s| ==> m >= s[i]
  {
    if |s| > 0 {
      FoldMaxIsGreatest(s[1..], LongMax(z, s[0]));
      assert forall i :: 1 <= i < |s| ==> s[i] == s[1..][i - 1];
    }
  }

  // ---------------------------------------------------------------------------
  // Terminal operations of the long lane

  /** `sum()`: the sum of the elements, wrapping around on overflow like `long` addition. */
  function Sum(d: LongDecorator): (r: AC.Step<Long, Long>)
    ensures r.after == AC.Close(d)
    ensures d.closed ==> r.result == Failure(IllegalState)
    ensures !d.closed ==> r.result == Success(WrapLong(Seq.ExactSum(d.elems)))
  {
    FoldAddIsWrappedSum(d.elems, 0);
    AC.FinallyClose(d, AC.Consume(d, (s: seq<Long>) => AC.Value(Seq.FoldLeft(s, 0, LongAdd))))
  }

  /** A sum that fits in a `long` is the exact sum. */
  lemma SumWithoutOverflow(d: LongDecorator)
    requires !d.closed && LONG_MIN <= Seq.ExactSum(d.elems) <= LONG_MAX
    ensures Sum(d).result == Success(Seq.ExactSum(d.elems))
  {
  }

  /** `min()`: empty for no elements, otherwise the least element. */
  function Min(d: LongDecorator): (r: AC.Step<Option<Long>, Long>)
    ensures r.after == AC.Close(d)
    ensures d.closed ==> r.result == Failure(IllegalState)
    ensures !d.closed ==> r.result.Success? && (r.result.value.None? <==> |d.elems| == 0)
    ensures !d.closed && |d.elems| > 0 ==>
              && r.result.value.value in d.elems
              && forall i :: 0 <= i < |d.elems| ==> r.result.value.value <= d.elems[i]
  {
    if |d.elems| == 0 then AC.FinallyClose(d, AC.Consume(d, (s: seq<Long>) => AC.Value(Seq.Reduce(s, LongMin))))
    else
      FoldMinIsLeast(d.elems[1..], d.elems[0]);
      assert forall i :: 1 <= i < |d.elems| ==> d.elems[i] == d.elems[1..][i - 1];
      AC.FinallyClose(d, AC.Consume(d, (s: seq<Long>) => AC.Value(Seq.Reduce(s, LongMin))))
  }

  /** `max()`: empty for no elements, otherwise the greatest element. */
  function Max(d: LongDecorator): (r: AC.Step<Option<Long>, Long>)
    ensures r.after == AC.Close(d)
    ensures d.closed ==> r.result == Failure(IllegalState)
    ensures !d.closed ==> r.result.Success? && (r.result.value.None? <==> |d.elems| == 0)
    ensures !d.closed && |d.elems| > 0 ==>
              && r.result.value.value in d.elems
              && forall i :: 0 <= i < |d.elems| ==> r.result.value.value >= d.elems[i]
  {
    if |d.elems| == 0 then AC.FinallyClose(d, AC.Consume(d, (s: seq<Long>) => AC.Value(Seq.Reduce(s, LongMax))))
    else
      FoldMaxIsGreatest(d.elems[1..], d.elems[0]);
      assert forall i :: 1 <= i < |d.elems| ==> d.elems[i] == d.elems[1..][i - 1];
      AC.FinallyClose(d, AC.Consume(d, (s: seq<Long>) => AC.Value(Seq.Reduce(s, LongMax))))
  }

  /** One step of the `long[2]` accumulation `average()` performs: count and sum, both wrapping. */
  function AverageStep(acc: AverageOperands, v: Long): AverageOperands {
    AverageOperands(LongAdd(acc.sum, v), WrapLong(acc.count + 1))
  }

  lemma {:induction false} FoldAverageStep(s: seq<Long>, z: AverageOperands)
    ensures Seq.FoldLeft(s, z, AverageStep) ==
              AverageOperands(WrapLong(z.sum + Seq.ExactSum(s)), WrapLong(z.count + |s|))
  {
    if |s| > 0 {
      FoldAverageStep(s[1..], AverageStep(z, s[0]));
      WrapAddLeft(z.sum + s[0], Seq.ExactSum(s[1..]));
      WrapAddLeft(z.count + 1, |s| - 1);
    }
  }

  /** `average()`: the wrapped sum and the count it divides, empty when the `long` count is not
      positive; that is exactly the empty stream unless the count itself overflows. */
  function Average(d: LongDecorator): (r: AC.Step<Option<AverageOperands>, Long>)
    ensures r.after == AC.Close(d)
    ensures d.closed ==> r.result == Failure(IllegalState)
    ensures !d.closed ==> r.result.Success? && (r.result.value.None? <==> WrapLong(|d.elems|) <= 0)
    ensures !d.closed && |d.elems| <= LONG_MAX ==> (r.result.value.None? <==> |d.elems| == 0)
    ensures !d.closed && r.result.value.Some? ==>
              r.result.value.value == AverageOperands(WrapLong(Seq.ExactSum(d.elems)), WrapLong(|d.elems|))
  {
    FoldAverageStep(d.elems, AverageOperands(0, 0));
    AC.FinallyClose(d, AC.Consume(d, (s: seq<Long>) =>
      var acc := Seq.FoldLeft(s, AverageOperands(0, 0), AverageStep);
      AC.Value(if acc.count > 0 then Some(acc) else None)))
  }

  /** `LongSummaryStatistics.accept(value)`. */
  function Accept(st: LongSummaryStatistics, v: Long): LongSummaryStatistics {
    LongSummaryStatistics(WrapLong(st.count + 1), LongAdd(st.sum, v), LongMin(st.min, v), LongMax(st.max, v))
  }

  /** A fresh `LongSummaryStatistics`. */
  const EMPTY_STATISTICS := LongSummaryStatistics(0, 0, LONG_MAX, LONG_MIN)

  /** Accepting values one by one keeps each statistic as its own fold. */
  lemma {:induction false} FoldAccept(s: seq<Long>, z: LongSummaryStatistics)
    ensures Seq.FoldLeft(s, z, Accept) == LongSummaryStatistics(
              WrapLong(z.count + |s|), Seq.FoldLeft(s, z.sum, LongAdd),
              Seq.FoldLeft(s, z.min, LongMin), Seq.FoldLeft(s, z.max, LongMax))
  {
    if |s| > 0 {
      FoldAccept(s[1..], Accept(z, s[0]));
      WrapAddLeft(z.count + 1, |s| - 1);
    }
  }

  /** `summaryStatistics()`: count, sum, least and greatest element; with no elements the
      minimum is `Long.MAX_VALUE` and the maximum `Long.MIN_VALUE`. */
  function SummaryStatistics(d: LongDecorator): (r: AC.Step<LongSummaryStatistics, Long>)
    ensures r.after == AC.Close(d)
    ensures d.closed ==> r.result == Failure(IllegalState)
    ensures !d.closed ==> r.result.Success?
    ensures !d.closed ==> (r.result.value.count == WrapLong(|d.elems|)
                           && r.result.value.sum == WrapLong(Seq.ExactSum(d.elems)))
    ensures !d.closed && |d.elems| == 0 ==> r.result.value == EMPTY_STATISTICS
    ensures !d.closed && |d.elems| > 0 ==>
              && r.result.value.min in d.elems && r.result.value.max in d.elems
              && forall i :: 0 <= i < |d.elems| ==> r.result.value.min <= d.elems[i] <= r.result.value.max
  {
    FoldAccept(d.elems, EMPTY_STATISTICS);
    FoldAddIsWrappedSum(d.elems, 0);
    FoldMinIsLeast(d.elems, LONG_MAX);
    FoldMaxIsGreatest(d.elems, LONG_MIN);
    assert |d.elems| > 0 ==> d.elems[0] <= LONG_MAX && d.elems[0] >= LONG_MIN;
    AC.FinallyClose(d, AC.Consume(d, (s: seq<Long>) => AC.Value(Seq.FoldLeft(s, EMPTY_STATISTICS, Accept))))
  }

  /** `toArray()`, written as `try { return stream().toArray(); } finally { close(); }`:
      the decorator is closed whether the array is produced or the call raises. */
  function ToArray(d: LongDecorator): (r: AC.Step<seq<Long>, Long>)
    ensures r.after.closed && r.after == AC.Close(d)
    ensures r.result.Success? <==> !d.closed && |d.elems| < AC.MAX_ARRAY_SIZE
    ensures r.result.Success? ==> r.result.value == d.elems
  {
    var attempt := if d.closed then Failure(IllegalState)
                   else if |d.elems| >= AC.MAX_ARRAY_SIZE then Failure(IllegalArgument)
                   else Success(d.elems);
    AC.Step(attempt, AC.Close(d))
  }

  /** The explicit try/finally of `toArray` behaves exactly like routing it through `finallyClose`. */
  lemma ToArrayAgreesWithFinallyClose(d: LongDecorator)
    ensures ToArray(d) == AC.ToArray(d)
  {
  }

  // ---------------------------------------------------------------------------
  // Intermediate operations and lane conversions of the long lane

  /** `sorted()`: the elements in ascending numeric order. */
  function Sorted(d: LongDecorator): (r: Result<LongDecorator>)
    ensures AC.Wraps(d, r, StableSort.Sort(d.elems, (a: Long, b: Long) => Compare(a, b)))
    ensures r.Success? ==> multiset(r.value.elems) == multiset(d.elems)
    ensures r.Success? ==> forall i :: 0 <= i < |r.value.elems| - 1 ==> r.value.elems[i] <= r.value.elems[i + 1]
  {
    var cmp := (a: Long, b: Long) => Compare(a, b);
    StableSort.SortSorted(d.elems, cmp);
    AC.Sorted(d, cmp)
  }

  /** `boxed()`: a reference-lane wrapper over the same values in the same order. */
  function Boxed(d: LongDecorator): (r: Result<AC.Decorator<Long>>)
    ensures AC.Wraps(d, r, d.elems)
  {
    AC.Wrap(d, d.elems)
  }

  /** `asDoubleStream()`: a double-lane wrapper over the converted values; the conversion
      of a `long` to a `double` is the parameter `toDouble`. */
  function AsDoubleStream<D>(d: LongDecorator, toDouble: Long -> D): (r: Result<AC.Decorator<D>>)
    ensures AC.Wraps(d, r, Seq.Map(d.elems, toDouble))
  {
    AC.Map(d, toDouble)
  }

  /** The long lane's intermediate operations are the shared ones at element type `Long`:
      none closes (a successful one is open exactly when the original is), and each keeps
      the flag and mode. */
  lemma IntermediateOperationsNeverClose(d: LongDecorator, p: Long -> bool, f: Long -> Long,
                                         g: Long -> Option<seq<Long>>, n: Long)
    ensures AC.KeepsOpen(d, AC.Filter(d, p)) && AC.KeepsOpen(d, AC.Map(d, f)) && AC.KeepsOpen(d, AC.FlatMap(d, g))
    ensures AC.KeepsOpen(d, AC.Distinct(d)) && AC.KeepsOpen(d, Sorted(d)) && AC.KeepsOpen(d, AC.Peek(d))
    ensures AC.KeepsOpen(d, AC.Limit(d, n)) && AC.KeepsOpen(d, AC.Skip(d, n))
    ensures AC.KeepsOpen(d, AC.TakeWhile(d, p)) && AC.KeepsOpen(d, AC.DropWhile(d, p))
    ensures !d.closed ==> AC.Filter(d, p).Success? && Sorted(d).Success? && AC.Distinct(d).Success?
  {
  }

  /** `mapToObj`, `mapToInt`, `mapToDouble`, `asDoubleStream` and `boxed` wrap the converted
      values in a decorator of the target lane without closing; `boxed` keeps values and order. */
  lemma LaneConversionsWrap<U, D>(d: LongDecorator, toObj: Long -> U, toInt: Long -> Int, toDouble: Long -> D)
    requires !d.closed
    ensures AC.Map(d, toObj).Success? && AC.Map(d, toInt).Success? && AC.Map(d, toDouble).Success?
    ensures AsDoubleStream(d, toDouble).Success? && Boxed(d).Success?
    ensures !AC.Map(d, toObj).value.closed && !AC.Map(d, toInt).value.closed && !AC.Map(d, toDouble).value.closed
    ensures !AsDoubleStream(d, toDouble).value.closed
    ensures Boxed(d).value == AC.Decorator(d.elems, false, d.allowIter, d.parallel)
    ensures forall i :: 0 <= i < |d.elems| ==> AC.Map(d, toInt).value.elems[i] == toInt(d.elems[i])
  {
  }

  /** The short-circuiting terminal operations of the long lane close too. */
  lemma ShortCircuitTerminalsClose(d: LongDecorator, p: Long -> bool)
    ensures AC.AnyMatch(d, p).after.closed && AC.AllMatch(d, p).after.closed && AC.NoneMatch(d, p).after.closed
    ensures AC.FindFirst(d).after.closed && AC.FindAny(d).after.closed
    ensures !d.closed && |d.elems| > 0 && p(d.elems[0]) ==> AC.AnyMatch(d, p).result == Success(true)
  {
  }

  /** `iterator()`/`spliterator()` of the long lane are gated by the flag exactly like the reference lane. */
  lemma CursorsGated(d: LongDecorator)
    ensures !d.allowIter ==> AC.Iterator(d).result.Failure? && AC.Spliterator(d).result.Failure?
    ensures d.allowIter && !d.closed ==> AC.Iterator(d).result == Success(d.elems)
    ensures AC.Iterator(d).after == d && AC.Spliterator(d).after == d
  {
  }

  /** `reduce(0, Long::sum)` is `sum()`, and `reduce(Math::min)`/`reduce(Math::max)` are `min()`/`max()`:
      the reduce forms are left folds over the same elements, and all of them close. */
  lemma ReduceAgreesWithArithmetic(d: LongDecorator)
    ensures AC.ReduceWithIdentity(d, 0, LongAdd).result == Sum(d).result
    ensures AC.Reduce(d, LongMin).result == Min(d).result
    ensures AC.Reduce(d, LongMax).result == Max(d).result
    ensures AC.ReduceWithIdentity(d, 0, LongAdd).after == Sum(d).after
  {
    FoldAddIsWrappedSum(d.elems, 0);
  }

  /** The long lane's constructors: without the system property set, the cursors of the
      wrapper and of every stage built from it raise `UnsupportedOperationException`. */
  lemma ConstructedWithoutPropertyIsGated(elems: seq<Long>, parallel: bool, properties: map<string, string>, p: Long -> bool)
    requires AC.ALLOW_ITERATOR_PROPERTY !in properties
    ensures var d := AC.OpenWithSystemProperties(elems, parallel, properties);
            && !d.closed && d.elems == elems
            && AC.Iterator(d).result == Failure(UnsupportedOperation("iterator"))
            && AC.Spliterator(d).result == Failure(UnsupportedOperation("spliterator"))
            && AC.Iterator(AC.Filter(d, p).value).result.Failure?
  {
  }
}
