/** The auto-closing stream decorator: a wrapper around a finite stream that is
    OPEN until a terminal operation runs, and CLOSED from then on, whatever the
    terminal operation's outcome. This module holds the decorator state shared by
    every lane and the operations of the reference lane (`Stream<T>`); the same
    generic operations serve the primitive lanes at their element type. */
module AutoClosing {
  import opened Results
  import opened JavaNumbers
  import Seq = Sequences
  import StableSort

  /** The system property the one-argument constructor reads. */
  const ALLOW_ITERATOR_PROPERTY: string := "jpastreamer.allowiteratorandspliterator"

  /** The largest array a stream can be collected into (`Integer.MAX_VALUE - 8`). */
  const MAX_ARRAY_SIZE: int := 0x7FFF_FFFF - 8

  /** The decorator: the elements of the underlying stream in encounter order, whether
      the underlying resource has been closed, whether `iterator()`/`spliterator()`
      are allowed, and whether the underlying stream is parallel. */
  datatype Decorator<T> = Decorator(elems: seq<T>, closed: bool, allowIter: bool, parallel: bool)

  /** What an operation returns (or raises), and the decorator afterwards. */
  datatype Step<R, T> = Step(result: Result<R>, after: Decorator<T>)

  /** A `Collector`: a mutable container, the accumulator that adds one element, and the finisher. */
  datatype Collector<!T, !A, R> = Collector(supplier: A, accumulator: (A, T) -> A, finisher: A -> R)

  // ---------------------------------------------------------------------------
  // Construction and closing

  /** The two-argument constructor: an open decorator storing the given flag. */
  function Open<T>(elems: seq<T>, parallel: bool, allowIter: bool): (d: Decorator<T>)
    ensures !d.closed && d.elems == elems && d.parallel == parallel && d.allowIter == allowIter
  {
    Decorator(elems, false, allowIter, parallel)
  }

  function LowerAscii(c: char): char {
    if 'A' <= c <= 'Z' then (c as int + 32) as char else c
  }

  /** `String.equalsIgnoreCase` for ASCII text. */
  predicate EqualsIgnoreCase(a: string, b: string) {
    |a| == |b| && forall i :: 0 <= i < |a| ==> LowerAscii(a[i]) == LowerAscii(b[i])
  }

  /** `Boolean.getBoolean(name)`: the property is set to "true", ignoring case. */
  function GetBoolean(properties: map<string, string>, name: string): (r: bool)
    ensures r ==> name in properties && |properties[name]| == 4
  {
    name in properties && EqualsIgnoreCase(properties[name], "true")
  }

  /** Only a property spelling "true" in some case sets the flag; an unset property leaves it off. */
  lemma GetBooleanCases(properties: map<string, string>)
    ensures ALLOW_ITERATOR_PROPERTY !in properties ==> !GetBoolean(properties, ALLOW_ITERATOR_PROPERTY)
    ensures GetBoolean(properties[ALLOW_ITERATOR_PROPERTY := "true"], ALLOW_ITERATOR_PROPERTY)
    ensures GetBoolean(properties[ALLOW_ITERATOR_PROPERTY := "TRUE"], ALLOW_ITERATOR_PROPERTY)
    ensures !GetBoolean(properties[ALLOW_ITERATOR_PROPERTY := "yes"], ALLOW_ITERATOR_PROPERTY)
    ensures !GetBoolean(properties[ALLOW_ITERATOR_PROPERTY := "1"], ALLOW_ITERATOR_PROPERTY)
  {
    assert !EqualsIgnoreCase("TRUE", "true") ==> LowerAscii('T') != 't';
  }

  /** The values `Boolean.getBoolean` accepts: "true" with each letter in either case. */
  const TRUE_SPELLINGS: set<string> :=
    set c0, c1, c2, c3 | c0 in "tT" && c1 in "rR" && c2 in "uU" && c3 in "eE" :: [c0, c1, c2, c3]

  /** Only an upper- or lower-case letter folds onto a given lower-case letter. */
  lemma LowerAsciiFolds(c: char, lower: char)
    requires 'a' <= lower <= 'z'
    ensures LowerAscii(c) == lower <==> c == lower || c as int == lower as int - 32
  {
  }

  /** A spelling of "true" is four letters, each one of the two cases of the letter in "true". */
  lemma TrueSpellingsByLetter(v: string)
    ensures v in TRUE_SPELLINGS <==> |v| == 4 && v[0] in "tT" && v[1] in "rR" && v[2] in "uU" && v[3] in "eE"
  {
    if |v| == 4 && v[0] in "tT" && v[1] in "rR" && v[2] in "uU" && v[3] in "eE" {
      assert v == [v[0], v[1], v[2], v[3]];
    }
  }

  /** Comparing with "true" ignoring case checks each letter against its two cases. */
  lemma EqualsTrueByLetter(v: string)
    ensures EqualsIgnoreCase(v, "true") <==> |v| == 4 && v[0] in "tT" && v[1] in "rR" && v[2] in "uU" && v[3] in "eE"
  {
    if |v| == 4 {
      LowerAsciiFolds(v[0], 't');
      LowerAsciiFolds(v[1], 'r');
      LowerAsciiFolds(v[2], 'u');
      LowerAsciiFolds(v[3], 'e');
      assert EqualsIgnoreCase(v, "true") <==>
        LowerAscii(v[0]) == 't' && LowerAscii(v[1]) == 'r' && LowerAscii(v[2]) == 'u' && LowerAscii(v[3]) == 'e';
    }
  }

  /** `getBoolean` is on exactly when the property is set to one of the sixteen spellings of "true". */
  lemma GetBooleanMatchesSpellings(properties: map<string, string>, name: string)
    ensures GetBoolean(properties, name) <==> name in properties && properties[name] in TRUE_SPELLINGS
  {
    if name in properties {
      TrueSpellingsByLetter(properties[name]);
      EqualsTrueByLetter(properties[name]);
    }
  }

  /** The one-argument constructor: the flag comes from the system properties and is off unless set. */
  function OpenWithSystemProperties<T>(elems: seq<T>, parallel: bool, properties: map<string, string>)
    : (d: Decorator<T>)
    ensures d == Open(elems, parallel, GetBoolean(properties, ALLOW_ITERATOR_PROPERTY))
    ensures ALLOW_ITERATOR_PROPERTY !in properties ==> !d.allowIter
  {
    Open(elems, parallel, GetBoolean(properties, ALLOW_ITERATOR_PROPERTY))
  }

  /** `close()`: the resource is released; nothing else about the decorator changes. */
  function Close<T>(d: Decorator<T>): (r: Decorator<T>)
    ensures r.closed
    ensures r.elems == d.elems && r.allowIter == d.allowIter && r.parallel == d.parallel
  {
    d.(closed := true)
  }

  /** Closing a closed decorator changes nothing. */
  lemma CloseIdempotent<T>(d: Decorator<T>)
    ensures Close(Close(d)) == Close(d)
    ensures d.closed ==> Close(d) == d
  {
  }

  /** `finallyClose(action)`: the outcome of the action, with the decorator closed on every path. */
  function FinallyClose<R, T>(d: Decorator<T>, outcome: Result<R>): (r: Step<R, T>)
    ensures r.result == outcome && r.after == Close(d)
  {
    Step(outcome, Close(d))
  }

  /** A terminal call on the underlying stream: it fails once the stream is closed. */
  function Consume<R, T>(d: Decorator<T>, op: seq<T> -> Result<R>): Result<R> {
    if d.closed then Failure(IllegalState) else op(d.elems)
  }

  /** The outcome of a terminal call that cannot fail on an open stream. */
  function Value<R>(v: R): Result<R> {
    Success(v)
  }

  // ---------------------------------------------------------------------------
  // Intermediate operations: `wrap(stream().op(...))`

  /** `wrap(s)`: a new open decorator over the transformed elements, with the same flag and mode;
      creating a stage on a closed stream raises `IllegalStateException`. */
  function Wrap<T, U>(d: Decorator<T>, elems: seq<U>): Result<Decorator<U>> {
    if d.closed then Failure(IllegalState) else Success(Decorator(elems, false, d.allowIter, d.parallel))
  }

  /** `r` is what wrapping `elems` over `d` gives: never a closed decorator, and the same policy. */
  ghost predicate Wraps<T, U>(d: Decorator<T>, r: Result<Decorator<U>>, elems: seq<U>) {
    && (r.Failure? <==> d.closed)
    && (r.Failure? ==> r.error == IllegalState)
    && (r.Success? ==> && r.value.elems == elems
                       && !r.value.closed
                       && r.value.allowIter == d.allowIter
                       && r.value.parallel == d.parallel)
  }

  /** `filter(p)`. */
  function Filter<T>(d: Decorator<T>, p: T -> bool): (r: Result<Decorator<T>>)
    ensures Wraps(d, r, Seq.Filter(d.elems, p))
    ensures r.Success? ==> forall i :: 0 <= i < |r.value.elems| ==> p(r.value.elems[i])
  {
    Wrap(d, Seq.Filter(d.elems, p))
  }

  /** `map(f)`, and at a primitive element type `mapToInt`/`mapToLong`/`mapToDouble`. */
  function Map<T, U>(d: Decorator<T>, f: T -> U): (r: Result<Decorator<U>>)
    ensures Wraps(d, r, Seq.Map(d.elems, f))
    ensures r.Success? ==> |r.value.elems| == |d.elems|
  {
    Wrap(d, Seq.Map(d.elems, f))
  }

  /** `flatMap(f)`, and at a primitive element type `flatMapToInt`/`flatMapToLong`/`flatMapToDouble`;
      a mapped stream that is `null` contributes nothing. */
  function FlatMap<T, U>(d: Decorator<T>, f: T -> Option<seq<U>>): (r: Result<Decorator<U>>)
    ensures Wraps(d, r, Seq.FlatMap(d.elems, f))
  {
    Wrap(d, Seq.FlatMap(d.elems, f))
  }

  /** `distinct()`. */
  function Distinct<T(==)>(d: Decorator<T>): (r: Result<Decorator<T>>)
    ensures Wraps(d, r, Seq.Distinct(d.elems))
    ensures r.Success? ==> Seq.NoDuplicates(r.value.elems)
    ensures r.Success? ==> forall i :: 0 <= i < |d.elems| ==> d.elems[i] in r.value.elems
    ensures r.Success? ==> forall i :: 0 <= i < |r.value.elems| ==> r.value.elems[i] in d.elems
    ensures r.Success? ==> forall i, j :: 0 <= i < j < |r.value.elems| ==>
              Seq.FirstIndex(d.elems, r.value.elems[i]) < Seq.FirstIndex(d.elems, r.value.elems[j])
  {
    Seq.DistinctKeepsEncounterOrder(d.elems);
    Wrap(d, Seq.Distinct(d.elems))
  }

  /** `sorted(cmp)`, and `sorted()` with the natural order as `cmp`. */
  function Sorted<T>(d: Decorator<T>, cmp: (T, T) -> int): (r: Result<Decorator<T>>)
    ensures Wraps(d, r, StableSort.Sort(d.elems, cmp))
    ensures r.Success? ==> multiset(r.value.elems) == multiset(d.elems)
    ensures r.Success? && StableSort.TotalOn(d.elems, cmp) ==> StableSort.SortedBy(r.value.elems, cmp)
  {
    StableSort.SortOrders(d.elems, cmp);
    Wrap(d, StableSort.Sort(d.elems, cmp))
  }

  /** `sorted(cmp)` is stable: under a comparator obeying its contract, the elements that
      compare equal to any one element keep their encounter order. */
  lemma SortedIsStable<T>(d: Decorator<T>, cmp: (T, T) -> int, k: nat)
    requires Seq.PreorderOn(d.elems, cmp)
    requires k < |d.elems|
    ensures var r := Sorted(d, cmp);
            r.Success? ==>
              Seq.Filter(r.value.elems, x => cmp(x, d.elems[k]) == 0) == Seq.Filter(d.elems, x => cmp(x, d.elems[k]) == 0)
  {
    StableSort.EqualElementsKeepOrder(d.elems, cmp, k);
  }

  /** `peek(action)`: the elements pass through unchanged. */
  function Peek<T>(d: Decorator<T>): (r: Result<Decorator<T>>)
    ensures Wraps(d, r, d.elems)
  {
    Wrap(d, d.elems)
  }

  /** `unordered()`: only an ordering hint; the elements stay as they are. */
  function Unordered<T>(d: Decorator<T>): (r: Result<Decorator<T>>)
    ensures Wraps(d, r, d.elems)
  {
    Wrap(d, d.elems)
  }

  /** `limit(maxSize)`: a negative size raises `IllegalArgumentException`. */
  function Limit<T>(d: Decorator<T>, maxSize: Long): (r: Result<Decorator<T>>)
    ensures maxSize < 0 ==> r == Failure(IllegalArgument)
    ensures maxSize >= 0 ==> Wraps(d, r, Seq.Limit(d.elems, maxSize))
    ensures r.Success? ==> r.value.elems <= d.elems && |r.value.elems| <= maxSize
  {
    if maxSize < 0 then Failure(IllegalArgument) else Wrap(d, Seq.Limit(d.elems, maxSize))
  }

  /** `skip(n)`: a negative count raises `IllegalArgumentException`; `skip(0)` is answered by the
      underlying stream with itself, so the new wrapper is over the same stream and equals `d`,
      even a closed one. */
  function Skip<T>(d: Decorator<T>, n: Long): (r: Result<Decorator<T>>)
    ensures n < 0 ==> r == Failure(IllegalArgument)
    ensures n == 0 ==> r == Success(d)
    ensures n > 0 ==> Wraps(d, r, Seq.Skip(d.elems, n))
    ensures r.Success? && n < |d.elems| ==> r.value.elems == d.elems[n..]
  {
    if n < 0 then Failure(IllegalArgument)
    else if n == 0 then Success(d)
    else Wrap(d, Seq.Skip(d.elems, n))
  }

  /** `takeWhile(p)`. */
  function TakeWhile<T>(d: Decorator<T>, p: T -> bool): (r: Result<Decorator<T>>)
    ensures Wraps(d, r, Seq.TakeWhile(d.elems, p))
    ensures r.Success? ==> r.value.elems <= d.elems
  {
    Wrap(d, Seq.TakeWhile(d.elems, p))
  }

  /** `dropWhile(p)`. */
  function DropWhile<T>(d: Decorator<T>, p: T -> bool): (r: Result<Decorator<T>>)
    ensures Wraps(d, r, Seq.DropWhile(d.elems, p))
    ensures r.Success? ==> Seq.TakeWhile(d.elems, p) + r.value.elems == d.elems
  {
    Wrap(d, Seq.DropWhile(d.elems, p))
  }

  /** `isParallel()`: the mode of the underlying stream. */
  function IsParallel<T>(d: Decorator<T>): bool {
    d.parallel
  }

  /** `parallel()`: a wrapper in parallel mode; it never fails and never closes. */
  function Parallel<T>(d: Decorator<T>): (r: Decorator<T>)
    ensures IsParallel(r)
    ensures r.elems == d.elems && r.closed == d.closed && r.allowIter == d.allowIter
  {
    d.(parallel := true)
  }

  /** `sequential()`: a wrapper in sequential mode; it never fails and never closes. */
  function Sequential<T>(d: Decorator<T>): (r: Decorator<T>)
    ensures !IsParallel(r)
    ensures r.elems == d.elems && r.closed == d.closed && r.allowIter == d.allowIter
  {
    d.(parallel := false)
  }

  /** Switching mode back and forth only records the last switch. */
  lemma ModeSwitches<T>(d: Decorator<T>)
    ensures Sequential(Parallel(d)) == Sequential(d)
    ensures Parallel(Sequential(d)) == Parallel(d)
    ensures !d.parallel ==> Sequential(d) == d
  {
  }

  /** `r`, whenever it was created at all, is no more closed than `d` and carries its flag and mode. */
  ghost predicate KeepsOpen<T, U>(d: Decorator<T>, r: Result<Decorator<U>>) {
    r.Success? ==> r.value.closed == d.closed && r.value.allowIter == d.allowIter && r.value.parallel == d.parallel
  }

  /** No intermediate operation closes the stream: a successful one yields a decorator that is
      open exactly when the original is (only `skip(0)` succeeds on a closed one), with the
      flag and mode of the original, and on an open decorator only a negative `limit`/`skip`
      argument fails. */
  lemma IntermediateOperationsNeverClose<T>(d: Decorator<T>, p: T -> bool, cmp: (T, T) -> int, n: Long)
    ensures KeepsOpen(d, Filter(d, p)) && KeepsOpen(d, Map(d, p)) && KeepsOpen(d, Sorted(d, cmp))
    ensures KeepsOpen(d, Peek(d)) && KeepsOpen(d, Unordered(d)) && KeepsOpen(d, Limit(d, n))
    ensures KeepsOpen(d, Skip(d, n)) && KeepsOpen(d, TakeWhile(d, p)) && KeepsOpen(d, DropWhile(d, p))
    ensures !d.closed ==> Filter(d, p).Success? && Map(d, p).Success? && Sorted(d, cmp).Success?
    ensures !d.closed && n >= 0 ==> Limit(d, n).Success? && Skip(d, n).Success?
  {
  }

  // ---------------------------------------------------------------------------
  // Terminal operations: `finallyClose(() -> stream().op(...))`

  /** `forEach(action)`: the elements handed to the action, in some order; an action that throws
      makes the whole call raise. */
  function ForEach<T>(d: Decorator<T>, action: T -> bool): (r: Step<seq<T>, T>)
    ensures r.after == Close(d)
    ensures d.closed ==> r.result == Failure(IllegalState)
    ensures !d.closed && Seq.AllMatch(d.elems, action) ==> r.result.Success? && multiset(r.result.value) == multiset(d.elems)
    ensures !d.closed && !Seq.AllMatch(d.elems, action) ==> r.result == Failure(CallbackFailed)
  {
    FinallyClose(d, Consume(d, (s: seq<T>) => if Seq.AllMatch(s, action) then Success(s) else Failure(CallbackFailed)))
  }

  /** `forEachOrdered(action)`: the elements handed to the action, in encounter order. */
  function ForEachOrdered<T>(d: Decorator<T>, action: T -> bool): (r: Step<seq<T>, T>)
    ensures r.after == Close(d)
    ensures d.closed ==> r.result == Failure(IllegalState)
    ensures !d.closed && (forall i :: 0 <= i < |d.elems| ==> action(d.elems[i])) ==> r.result == Success(d.elems)
    ensures !d.closed && (exists i :: 0 <= i < |d.elems| && !action(d.elems[i])) ==> r.result == Failure(CallbackFailed)
  {
    FinallyClose(d, Consume(d, (s: seq<T>) => if Seq.AllMatch(s, action) then Success(s) else Failure(CallbackFailed)))
  }

  /** `toArray()` and `toArray(generator)`: a stream too large for an array raises
      `IllegalArgumentException`. */
  function ToArray<T>(d: Decorator<T>): (r: Step<seq<T>, T>)
    ensures r.after == Close(d)
    ensures r.result.Success? <==> !d.closed && |d.elems| < MAX_ARRAY_SIZE
    ensures r.result.Success? ==> r.result.value == d.elems
    ensures !d.closed && |d.elems| >= MAX_ARRAY_SIZE ==> r.result == Failure(IllegalArgument)
    ensures d.closed ==> r.result == Failure(IllegalState)
  {
    FinallyClose(d, Consume(d, (s: seq<T>) => if |s| >= MAX_ARRAY_SIZE then Failure(IllegalArgument) else Success(s)))
  }

  /** `reduce(identity, accumulator)`: the left fold from `identity`. */
  function ReduceWithIdentity<T>(d: Decorator<T>, identity: T, accumulator: (T, T) -> T): (r: Step<T, T>)
    ensures r.after == Close(d)
    ensures d.closed ==> r.result == Failure(IllegalState)
    ensures !d.closed ==> r.result.Success?
    ensures !d.closed && |d.elems| == 0 ==> r.result.value == identity
    ensures !d.closed && |d.elems| > 0 ==>
              r.result.value == accumulator(Seq.FoldLeft(d.elems[..|d.elems| - 1], identity, accumulator), d.elems[|d.elems| - 1])
  {
    Seq.FoldLeftLast(d.elems, identity, accumulator);
    FinallyClose(d, Consume(d, (s: seq<T>) => Value(Seq.FoldLeft(s, identity, accumulator))))
  }

  /** `reduce(accumulator)`: empty for no elements, otherwise the left fold from the first element. */
  function Reduce<T>(d: Decorator<T>, accumulator: (T, T) -> T): (r: Step<Option<T>, T>)
    ensures r.after == Close(d)
    ensures d.closed ==> r.result == Failure(IllegalState)
    ensures !d.closed ==> r.result.Success? && (r.result.value.None? <==> |d.elems| == 0)
    ensures !d.closed && |d.elems| > 0 ==>
              r.result.value == Some(Seq.FoldLeft(d.elems[1..], d.elems[0], accumulator))
  {
    FinallyClose(d, Consume(d, (s: seq<T>) => Value(Seq.Reduce(s, accumulator))))
  }

  /** `reduce(identity, accumulator, combiner)`: sequentially, the left fold from `identity`;
      the combiner only joins partial results of a parallel run. */
  function ReduceCombining<T, U>(d: Decorator<T>, identity: U, accumulator: (U, T) -> U): (r: Step<U, T>)
    ensures r.after == Close(d)
    ensures d.closed ==> r.result == Failure(IllegalState)
    ensures !d.closed ==> r.result.Success?
    ensures !d.closed && |d.elems| == 0 ==> r.result.value == identity
    ensures !d.closed && |d.elems| > 0 ==>
              r.result.value == accumulator(Seq.FoldLeft(d.elems[..|d.elems| - 1], identity, accumulator), d.elems[|d.elems| - 1])
  {
    Seq.FoldLeftLast(d.elems, identity, accumulator);
    FinallyClose(d, Consume(d, (s: seq<T>) => Value(Seq.FoldLeft(s, identity, accumulator))))
  }

  /** `collect(supplier, accumulator, combiner)`: the container after every element was added, in order. */
  function CollectInto<T, R>(d: Decorator<T>, supplier: R, accumulator: (R, T) -> R): (r: Step<R, T>)
    ensures r.after == Close(d)
    ensures d.closed ==> r.result == Failure(IllegalState)
    ensures !d.closed ==> r.result.Success?
    ensures !d.closed && |d.elems| == 0 ==> r.result.value == supplier
    ensures !d.closed && |d.elems| > 0 ==>
              r.result.value == accumulator(Seq.FoldLeft(d.elems[..|d.elems| - 1], supplier, accumulator), d.elems[|d.elems| - 1])
  {
    Seq.FoldLeftLast(d.elems, supplier, accumulator);
    FinallyClose(d, Consume(d, (s: seq<T>) => Value(Seq.FoldLeft(s, supplier, accumulator))))
  }

  /** The collector's result for a sequence of elements. */
  function Finish<T, A, R>(collector: Collector<T, A, R>, s: seq<T>): R {
    collector.finisher(Seq.FoldLeft(s, collector.supplier, collector.accumulator))
  }

  /** `collect(collector)`: the finisher applied to the filled container. */
  function Collect<T, A, R>(d: Decorator<T>, collector: Collector<T, A, R>): (r: Step<R, T>)
    ensures r.after == Close(d)
    ensures d.closed ==> r.result == Failure(IllegalState)
    ensures !d.closed ==> r.result.Success?
    ensures !d.closed && |d.elems| == 0 ==> r.result.value == collector.finisher(collector.supplier)
    ensures !d.closed && |d.elems| > 0 ==>
              r.result.value == collector.finisher(collector.accumulator(
                Seq.FoldLeft(d.elems[..|d.elems| - 1], collector.supplier, collector.accumulator), d.elems[|d.elems| - 1]))
  {
    Seq.FoldLeftLast(d.elems, collector.supplier, collector.accumulator);
    FinallyClose(d, Consume(d, (s: seq<T>) => Value(Finish(collector, s))))
  }

  /** `min(cmp)`: empty for no elements, otherwise an element no greater than any other. */
  function Min<T>(d: Decorator<T>, cmp: (T, T) -> int): (r: Step<Option<T>, T>)
    ensures r.after == Close(d)
    ensures d.closed ==> r.result == Failure(IllegalState)
    ensures !d.closed ==> r.result.Success? && (r.result.value.None? <==> |d.elems| == 0)
    ensures !d.closed && |d.elems| > 0 && Seq.PreorderOn(d.elems, cmp) ==>
              && r.result.value.value in d.elems
              && forall i :: 0 <= i < |d.elems| ==> cmp(r.result.value.value, d.elems[i]) <= 0
  {
    Seq.ReduceMinByIsLeast(d.elems, cmp);
    FinallyClose(d, Consume(d, (s: seq<T>) => Value(Seq.Reduce(s, Seq.MinBy(cmp)))))
  }

  /** `max(cmp)`: empty for no elements, otherwise an element no smaller than any other. */
  function Max<T>(d: Decorator<T>, cmp: (T, T) -> int): (r: Step<Option<T>, T>)
    ensures r.after == Close(d)
    ensures d.closed ==> r.result == Failure(IllegalState)
    ensures !d.closed ==> r.result.Success? && (r.result.value.None? <==> |d.elems| == 0)
    ensures !d.closed && |d.elems| > 0 && Seq.PreorderOn(d.elems, cmp) ==>
              && r.result.value.value in d.elems
              && forall i :: 0 <= i < |d.elems| ==> cmp(d.elems[i], r.result.value.value) <= 0
  {
    Seq.ReduceMaxByIsGreatest(d.elems, cmp);
    FinallyClose(d, Consume(d, (s: seq<T>) => Value(Seq.Reduce(s, Seq.MaxBy(cmp)))))
  }

  /** `count()`: the number of elements, as a `long`. */
  function Count<T>(d: Decorator<T>): (r: Step<Long, T>)
    ensures r.after == Close(d)
    ensures d.closed ==> r.result == Failure(IllegalState)
    ensures !d.closed ==> r.result.Success?
    ensures !d.closed && |d.elems| <= LONG_MAX ==> r.result.value == |d.elems|
  {
    FinallyClose(d, Consume(d, (s: seq<T>) => Value(WrapLong(|s|))))
  }

  /** `anyMatch(p)`. */
  function AnyMatch<T>(d: Decorator<T>, p: T -> bool): (r: Step<bool, T>)
    ensures r.after == Close(d)
    ensures d.closed ==> r.result == Failure(IllegalState)
    ensures !d.closed ==> r.result.Success? && (r.result.value <==> exists i :: 0 <= i < |d.elems| && p(d.elems[i]))
  {
    FinallyClose(d, Consume(d, (s: seq<T>) => Value(Seq.AnyMatch(s, p))))
  }

  /** `allMatch(p)`. */
  function AllMatch<T>(d: Decorator<T>, p: T -> bool): (r: Step<bool, T>)
    ensures r.after == Close(d)
    ensures d.closed ==> r.result == Failure(IllegalState)
    ensures !d.closed ==> r.result.Success? && (r.result.value <==> forall i :: 0 <= i < |d.elems| ==> p(d.elems[i]))
  {
    FinallyClose(d, Consume(d, (s: seq<T>) => Value(Seq.AllMatch(s, p))))
  }

  /** `noneMatch(p)`. */
  function NoneMatch<T>(d: Decorator<T>, p: T -> bool): (r: Step<bool, T>)
    ensures r.after == Close(d)
    ensures d.closed ==> r.result == Failure(IllegalState)
    ensures !d.closed ==> r.result.Success? && (r.result.value <==> forall i :: 0 <= i < |d.elems| ==> !p(d.elems[i]))
  {
    FinallyClose(d, Consume(d, (s: seq<T>) => Value(Seq.NoneMatch(s, p))))
  }

  /** `findFirst()`: the first element, or empty for none. */
  function FindFirst<T>(d: Decorator<T>): (r: Step<Option<T>, T>)
    ensures r.after == Close(d)
    ensures d.closed ==> r.result == Failure(IllegalState)
    ensures !d.closed ==> r.result.Success? && (r.result.value.None? <==> |d.elems| == 0)
    ensures !d.closed && |d.elems| > 0 ==> r.result.value == Some(d.elems[0])
  {
    FinallyClose(d, Consume(d, (s: seq<T>) => Value(if |s| == 0 then None else Some(s[0]))))
  }

  /** `findAny()`: some element, or empty for none; which element is not promised. */
  function FindAny<T>(d: Decorator<T>): (r: Step<Option<T>, T>)
    ensures r.after == Close(d)
    ensures d.closed ==> r.result == Failure(IllegalState)
    ensures !d.closed ==> r.result.Success? && (r.result.value.None? <==> |d.elems| == 0)
    ensures !d.closed && |d.elems| > 0 ==> r.result.value.value in d.elems
  {
    FinallyClose(d, Consume(d, (s: seq<T>) => Value(if |s| == 0 then None else Some(s[0]))))
  }

  /** `toList(stream)`: collects the stream passed as argument (not this decorator's own
      stream) and closes this decorator. */
  function ToList<T>(d: Decorator<T>, stream: seq<T>): (r: Step<seq<T>, T>)
    ensures r.after == Close(d)
    ensures r.result == Success(stream)
  {
    FinallyClose(d, Success(stream))
  }

  /** `after` is `d` closed, with its elements, flag and mode kept. */
  ghost predicate ClosedFrom<T>(d: Decorator<T>, after: Decorator<T>) {
    after.closed && after.elems == d.elems && after.allowIter == d.allowIter && after.parallel == d.parallel
  }

  /** After any terminal operation the decorator is closed, and its elements, flag and mode are kept. */
  lemma TerminalOperationsClose<T, A, R>(d: Decorator<T>, action: T -> bool, p: T -> bool, op: (T, T) -> T,
                                         identity: T, cmp: (T, T) -> int, stream: seq<T>,
                                         collector: Collector<T, A, R>)
    ensures ClosedFrom(d, ForEach(d, action).after) && ClosedFrom(d, ForEachOrdered(d, action).after)
    ensures ClosedFrom(d, ToArray(d).after) && ClosedFrom(d, ToList(d, stream).after)
    ensures ClosedFrom(d, ReduceWithIdentity(d, identity, op).after) && ClosedFrom(d, Reduce(d, op).after)
    ensures ClosedFrom(d, ReduceCombining(d, identity, op).after) && ClosedFrom(d, CollectInto(d, identity, op).after)
    ensures ClosedFrom(d, Min(d, cmp).after) && ClosedFrom(d, Max(d, cmp).after) && ClosedFrom(d, Count(d).after)
    ensures ClosedFrom(d, AnyMatch(d, p).after) && ClosedFrom(d, AllMatch(d, p).after)
    ensures ClosedFrom(d, NoneMatch(d, p).after)
    ensures ClosedFrom(d, FindFirst(d).after) && ClosedFrom(d, FindAny(d).after)
    ensures ClosedFrom(d, Collect(d, collector).after)
  {
  }

  // ---------------------------------------------------------------------------
  // The escape hatch

  /** `iterator()`: the underlying cursor when allowed; otherwise `UnsupportedOperationException`.
      Either way the decorator is left as it was. */
  function Iterator<T>(d: Decorator<T>): (r: Step<seq<T>, T>)
    ensures r.after == d
    ensures !d.allowIter ==> r.result == Failure(UnsupportedOperation("iterator"))
    ensures d.allowIter && !d.closed ==> r.result == Success(d.elems)
    ensures d.allowIter && d.closed ==> r.result == Failure(IllegalState)
  {
    if d.allowIter then Step(Consume(d, (s: seq<T>) => Success(s)), d)
    else Step(Failure(UnsupportedOperation("iterator")), d)
  }

  /** `spliterator()`: gated exactly like `iterator()`. */
  function Spliterator<T>(d: Decorator<T>): (r: Step<seq<T>, T>)
    ensures r.after == d
    ensures !d.allowIter ==> r.result == Failure(UnsupportedOperation("spliterator"))
    ensures d.allowIter && !d.closed ==> r.result == Success(d.elems)
    ensures d.allowIter && d.closed ==> r.result == Failure(IllegalState)
  {
    if d.allowIter then Step(Consume(d, (s: seq<T>) => Success(s)), d)
    else Step(Failure(UnsupportedOperation("spliterator")), d)
  }

  /** The flag fixed at construction decides, for the rest of the pipeline, whether the cursors are available. */
  lemma CursorPolicyFollowsConstruction<T>(elems: seq<T>, parallel: bool, allow: bool, p: T -> bool)
    ensures var d := Open(elems, parallel, allow);
            && (allow <==> Iterator(d).result.Success?)
            && (allow <==> Spliterator(d).result.Success?)
            && (allow <==> Iterator(Filter(d, p).value).result.Success?)
  {
  }

  // ---------------------------------------------------------------------------
  // Scenarios

  /** `limit(0)` followed by any terminal operation sees no elements, and still closes. */
  lemma LimitZeroThenTerminal<T>(d: Decorator<T>, p: T -> bool)
    requires !d.closed
    ensures Limit(d, 0).Success?
    ensures var e := Limit(d, 0).value;
            && e.elems == []
            && Count(e).result == Success(0) && Count(e).after.closed
            && FindFirst(e).result == Success(None) && FindFirst(e).after.closed
            && ToArray(e).result == Success([]) && ToArray(e).after.closed
            && AnyMatch(e, p).result == Success(false) && AnyMatch(e, p).after.closed
  {
  }

  /** A terminal operation on an already closed decorator raises, and the decorator stays closed. */
  lemma SecondTerminalFails<T>(d: Decorator<T>)
    ensures Count(Count(d).after).result == Failure(IllegalState)
    ensures Count(Count(d).after).after == Count(d).after
    ensures Filter(Count(d).after, (x: T) => true) == Failure(IllegalState)
  {
  }

  // ---------------------------------------------------------------------------
  // Null elements

  /* A stream of a reference type may hold `null`. Such a stream is a decorator over
     `Option<T>` elements, `None` standing for `null`. The JDK wraps the element that
     `findFirst`, `findAny`, `min`, `max` and `reduce(op)` select in `Optional.of`, which
     raises `NullPointerException` for `null`; the wrapper still closes through `finallyClose`. */

  /** `Optional.of(v)`: `NullPointerException` for `null`, otherwise a present value. */
  function OptionalOf<T>(v: Option<T>): (r: Result<Option<T>>)
    ensures r == Failure(NullPointer) <==> v.None?
    ensures v.Some? ==> r == Success(Some(v.value))
  {
    if v.None? then Failure(NullPointer) else Success(Some(v.value))
  }

  /** `reduce(op)` over elements that may be `null`: a `null` reduction result raises
      `NullPointerException`. */
  function ReduceNullable<T>(d: Decorator<Option<T>>, accumulator: (Option<T>, Option<T>) -> Option<T>)
    : (r: Step<Option<T>, Option<T>>)
    ensures r.after == Close(d)
    ensures d.closed ==> r.result == Failure(IllegalState)
    ensures !d.closed && |d.elems| == 0 ==> r.result == Success(None)
    ensures !d.closed && |d.elems| > 0 ==>
              var v := Seq.FoldLeft(d.elems[1..], d.elems[0], accumulator);
              && (r.result == Failure(NullPointer) <==> v.None?)
              && (v.Some? ==> r.result == Success(v))
  {
    FinallyClose(d, Consume(d, (s: seq<Option<T>>) =>
      if |s| == 0 then Success(None) else OptionalOf(Seq.FoldLeft(s[1..], s[0], accumulator))))
  }

  /** `findFirst()` over elements that may be `null`: a `null` first element raises
      `NullPointerException`. */
  function FindFirstNullable<T>(d: Decorator<Option<T>>): (r: Step<Option<T>, Option<T>>)
    ensures r.after == Close(d)
    ensures d.closed ==> r.result == Failure(IllegalState)
    ensures !d.closed ==> (r.result == Failure(NullPointer) <==> |d.elems| > 0 && d.elems[0].None?)
    ensures !d.closed && |d.elems| == 0 ==> r.result == Success(None)
    ensures !d.closed && |d.elems| > 0 && d.elems[0].Some? ==> r.result == Success(d.elems[0])
  {
    FinallyClose(d, Consume(d, (s: seq<Option<T>>) => if |s| == 0 then Success(None) else OptionalOf(s[0])))
  }

  /** `findAny()` over elements that may be `null`: the selected element, or
      `NullPointerException` when it is `null`; a stream without `null` never raises. */
  function FindAnyNullable<T>(d: Decorator<Option<T>>): (r: Step<Option<T>, Option<T>>)
    ensures r.after == Close(d)
    ensures d.closed ==> r.result == Failure(IllegalState)
    ensures !d.closed ==> r.result.Success? || r.result == Failure(NullPointer)
    ensures !d.closed && r.result.Success? ==> (r.result.value.None? <==> |d.elems| == 0)
    ensures !d.closed && r.result.Success? && r.result.value.Some? ==> r.result.value in d.elems
    ensures r.result == Failure(NullPointer) ==> None in d.elems
    ensures !d.closed && None !in d.elems ==> r.result.Success?
  {
    FinallyClose(d, Consume(d, (s: seq<Option<T>>) => if |s| == 0 then Success(None) else OptionalOf(s[0])))
  }

  /** A `minBy`/`maxBy` reduction only ever picks one of the elements. */
  lemma ReduceByPicksAnElement<T>(s: seq<T>, f: (T, T) -> T)
    requires |s| > 0
    requires forall a, b :: f(a, b) == a || f(a, b) == b
    ensures Seq.FoldLeft(s[1..], s[0], f) in s
  {
    Seq.FoldChoosesAnElement(s[1..], s[0], f);
    assert s == [s[0]] + s[1..];
  }

  /** `min(cmp)` over elements that may be `null`: the least element under a lawful comparator,
      `NullPointerException` when that element is `null`; a stream without `null` never raises. */
  function MinNullable<T>(d: Decorator<Option<T>>, cmp: (Option<T>, Option<T>) -> int)
    : (r: Step<Option<T>, Option<T>>)
    ensures r.after == Close(d)
    ensures d.closed ==> r.result == Failure(IllegalState)
    ensures !d.closed ==> (r.result == Success(None) <==> |d.elems| == 0)
    ensures !d.closed && |d.elems| > 0 && Seq.PreorderOn(d.elems, cmp) ==>
              var m := Seq.Reduce(d.elems, Seq.MinBy(cmp)).value;
              && m in d.elems
              && (forall i :: 0 <= i < |d.elems| ==> cmp(m, d.elems[i]) <= 0)
              && (r.result == Failure(NullPointer) <==> m.None?)
              && (m.Some? ==> r.result == Success(m))
    ensures !d.closed && None !in d.elems ==> r.result.Success?
  {
    Seq.ReduceMinByIsLeast(d.elems, cmp);
    if |d.elems| > 0 then
      ReduceByPicksAnElement(d.elems, Seq.MinBy(cmp));
      ReduceNullable(d, Seq.MinBy(cmp))
    else
      ReduceNullable(d, Seq.MinBy(cmp))
  }

  /** `max(cmp)` over elements that may be `null`: as `MinNullable`, for the greatest element. */
  function MaxNullable<T>(d: Decorator<Option<T>>, cmp: (Option<T>, Option<T>) -> int)
    : (r: Step<Option<T>, Option<T>>)
    ensures r.after == Close(d)
    ensures d.closed ==> r.result == Failure(IllegalState)
    ensures !d.closed ==> (r.result == Success(None) <==> |d.elems| == 0)
    ensures !d.closed && |d.elems| > 0 && Seq.PreorderOn(d.elems, cmp) ==>
              var m := Seq.Reduce(d.elems, Seq.MaxBy(cmp)).value;
              && m in d.elems
              && (forall i :: 0 <= i < |d.elems| ==> cmp(d.elems[i], m) <= 0)
              && (r.result == Failure(NullPointer) <==> m.None?)
              && (m.Some? ==> r.result == Success(m))
    ensures !d.closed && None !in d.elems ==> r.result.Success?
  {
    Seq.ReduceMaxByIsGreatest(d.elems, cmp);
    if |d.elems| > 0 then
      ReduceByPicksAnElement(d.elems, Seq.MaxBy(cmp));
      ReduceNullable(d, Seq.MaxBy(cmp))
    else
      ReduceNullable(d, Seq.MaxBy(cmp))
  }

  /** The null-aware operations agree with the generic ones at element type `Option<T>`,
      except that a selected `null` raises instead of being returned as a present `null`. */
  lemma NullableAgreesWithGeneric<T>(d: Decorator<Option<T>>, accumulator: (Option<T>, Option<T>) -> Option<T>,
                                     cmp: (Option<T>, Option<T>) -> int)
    ensures ReduceNullable(d, accumulator).after == Reduce(d, accumulator).after
    ensures FindFirstNullable(d).after == FindFirst(d).after
    ensures !d.closed ==>
              (ReduceNullable(d, accumulator).result == Failure(NullPointer) <==> Reduce(d, accumulator).result == Success(Some(None)))
    ensures !d.closed ==> (FindFirstNullable(d).result == Failure(NullPointer) <==> FindFirst(d).result == Success(Some(None)))
    ensures !d.closed ==> (MinNullable(d, cmp).result == Failure(NullPointer) <==> Min(d, cmp).result == Success(Some(None)))
    ensures !d.closed ==> (MaxNullable(d, cmp).result == Failure(NullPointer) <==> Max(d, cmp).result == Success(Some(None)))
    ensures var v := ReduceNullable(d, accumulator).result;
            v.Success? ==> Reduce(d, accumulator).result == Success(if v.value.None? then None else Some(v.value))
    ensures var v := FindFirstNullable(d).result;
            v.Success? ==> FindFirst(d).result == Success(if v.value.None? then None else Some(v.value))
  {
  }

  /** Raising `NullPointerException` or not, the null-aware terminal operations close the stream. */
  lemma NullableTerminalsClose<T>(d: Decorator<Option<T>>, accumulator: (Option<T>, Option<T>) -> Option<T>,
                                  cmp: (Option<T>, Option<T>) -> int)
    ensures ClosedFrom(d, ReduceNullable(d, accumulator).after)
    ensures ClosedFrom(d, FindFirstNullable(d).after) && ClosedFrom(d, FindAnyNullable(d).after)
    ensures ClosedFrom(d, MinNullable(d, cmp).after) && ClosedFrom(d, MaxNullable(d, cmp).after)
    ensures !d.closed && |d.elems| > 0 && d.elems[0].None? ==> FindFirstNullable(d).result == Failure(NullPointer)
  {
  }
}
