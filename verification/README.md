# JPAstreamer core in Dafny

A model of the core of JPAstreamer, a library that exposes JPA entity queries as
`java.util.stream` pipelines. Three parts are modelled:

- **Fields** (`LongFields`, `ByteFields`, `FieldExpressions`): immutable descriptors of one
  primitive-typed attribute of an entity. A field reads its value from an entity, hands out
  comparators (ascending, reversed, "nulls first"), and builds the ten kinds of predicate
  (`equal` … `notIn`) that a query renderer later turns into SQL.
- **The terminal-operation optimizer** (`Pipelines`): the standard optimizer rejects a
  `null` pipeline and otherwise returns the pipeline unchanged.
- **The auto-closing decorators** (`AutoClosing` for `Stream<T>`, `AutoClosingLong` for
  `LongStream`): wrappers that keep a database-backed stream open across intermediate
  operations and close it exactly when a terminal operation runs, whether that operation
  returns or raises. `iterator()` and `spliterator()` would let a caller escape the
  automatic close, so they raise `UnsupportedOperationException` unless the wrapper was
  built with the allow flag (by default read from the system property
  `jpastreamer.allowiteratorandspliterator`).

A stream is modelled as the finite sequence of its elements in encounter order
(`Sequences`, `StableSort` give the sequential `java.util.stream` semantics); a decorator
is that sequence plus the closed flag, the allow flag and the parallel mode. Every
operation returns a `Result`: a Java exception becomes a `Failure` naming its class.
Terminal operations return a `Step`: the result and the decorator afterwards. Java
`long` arithmetic wraps modulo 2^64 and is written out (`JavaNumbers`). A `null`
argument is `None` of an `Option`, and a stream that may hold `null` is one over `Option`
elements (the `...Nullable` terminal operations). Callbacks (predicates, mappers, comparators,
getters) are Dafny function values; a `forEach` action returns `false` to stand for a
throwing action.

`UnionQuery` states, over sequences, the equivalence the union integration test asserts:
two filtered streams concatenated, made distinct and sorted by id give the same list as
one stream filtered on the disjunction and sorted by id, when ids are unique. The test runs
three separate database queries; the model gives all three the same sequence of films. This
assumes the table does not change between the queries, and that `distinct()` sees two rows as
equal exactly when they are the same film, which holds because JPA hands out one entity
instance per row within a persistence context.

## Model

| member | source | states |
|---|---|---|
| LongFields.New | field/src/main/java/com/speedment/jpastreamer/field/internal/LongFieldImpl.java:57-66 | a null entity class raises NullPointerException; a null converter class is accepted; otherwise the field stores exactly the given class, getter, converter and uniqueness |
| LongFields.GetAsLongAppliesGetter | field/src/main/java/com/speedment/jpastreamer/field/trait/HasLongValue.java:44-46 | reading a constructed field's value (GetAsLong) applies the getter the field was built with and yields a 64-bit value |
| LongFields.Comparator | field/src/main/java/com/speedment/jpastreamer/field/internal/LongFieldImpl.java:89-91 | the comparator is on this field, ascending, and carries the field's null order, LAST |
| LongFields.ReversedComparator | field/src/main/java/com/speedment/jpastreamer/field/internal/LongFieldImpl.java:94-96 | reversed() is the same field and null order with the direction flipped |
| LongFields.ComparatorNullFieldsFirst | field/src/main/java/com/speedment/jpastreamer/field/internal/LongFieldImpl.java:99-101 | comparatorNullFieldsFirst() is the plain comparator, so it carries the null order LAST |
| LongFields.ComparatorsOfField | field/src/main/java/com/speedment/jpastreamer/field/internal/LongFieldImpl.java:89-111 | the field reports null order LAST (NullOrderOf) and not reversed (IsReversed); reversing the reversed comparator gives back the plain one |
| LongFields.CompareEntities | field/src/main/java/com/speedment/jpastreamer/field/internal/LongFieldImpl.java:89-96 | a field comparator orders two entities by their long values, reversed when the comparator is reversed, and ties exactly on equal values |
| LongFields.ReversedOrdersOpposite | field/src/main/java/com/speedment/jpastreamer/field/internal/LongFieldImpl.java:94-96 | the reversed comparator orders every pair of entities opposite to the plain one |
| LongFields.Equal | field/src/main/java/com/speedment/jpastreamer/field/internal/LongFieldImpl.java:114-116 | equal(v) is an EQUAL predicate on this field with operand v |
| LongFields.GreaterThan | field/src/main/java/com/speedment/jpastreamer/field/internal/LongFieldImpl.java:119-121 | greaterThan(v) is a GREATER_THAN predicate on this field with operand v |
| LongFields.GreaterOrEqual | field/src/main/java/com/speedment/jpastreamer/field/internal/LongFieldImpl.java:124-126 | greaterOrEqual(v) is a GREATER_OR_EQUAL predicate on this field with operand v |
| LongFields.Between | field/src/main/java/com/speedment/jpastreamer/field/internal/LongFieldImpl.java:129-134 | between(start, end, inclusion) is a BETWEEN predicate carrying the range and inclusion unchanged |
| LongFields.In | field/src/main/java/com/speedment/jpastreamer/field/internal/LongFieldImpl.java:137-139 | in(values) is an IN predicate whose operand set holds exactly the collection's elements |
| LongFields.NotEqual | field/src/main/java/com/speedment/jpastreamer/field/internal/LongFieldImpl.java:142-144 | notEqual(v) is a NOT_EQUAL predicate on this field with operand v |
| LongFields.LessOrEqual | field/src/main/java/com/speedment/jpastreamer/field/internal/LongFieldImpl.java:147-149 | lessOrEqual(v) is a LESS_OR_EQUAL predicate on this field with operand v |
| LongFields.LessThan | field/src/main/java/com/speedment/jpastreamer/field/internal/LongFieldImpl.java:152-154 | lessThan(v) is a LESS_THAN predicate on this field with operand v |
| LongFields.NotBetween | field/src/main/java/com/speedment/jpastreamer/field/internal/LongFieldImpl.java:157-162 | notBetween(start, end, inclusion) is a NOT_BETWEEN predicate carrying the range and inclusion unchanged |
| LongFields.NotIn | field/src/main/java/com/speedment/jpastreamer/field/internal/LongFieldImpl.java:165-167 | notIn(values) is a NOT_IN predicate whose operand set holds exactly the collection's elements |
| LongFields.FactoriesCoverEveryKind | field/src/main/java/com/speedment/jpastreamer/field/internal/LongFieldImpl.java:113-167 | the ten factories build ten different predicate kinds and every kind is built by one of them |
| LongFields.BetweenAndNotBetweenDifferInKindOnly | field/src/main/java/com/speedment/jpastreamer/field/internal/LongFieldImpl.java:129-162 | between and notBetween with the same arguments differ in nothing but the kind |
| LongFields.InIgnoresDuplicatesAndOrder | field/src/main/java/com/speedment/jpastreamer/field/internal/LongFieldImpl.java:137-139 | in/notIn of two collections are equal exactly when each collection's elements all occur in the other |
| LongFields.InCollapsesDuplicates | field/src/main/java/com/speedment/jpastreamer/field/internal/LongFieldImpl.java:137-139 | in([1,1,2]) and in([2,1]) are the same predicate, as are the notIn forms, while in([1,2]) differs from in([1]) |
| ByteFields.New | field/src/main/java/com/speedment/jpastreamer/field/internal/ByteFieldImpl.java:49-58 | a null entity class or a null column name raises NullPointerException; otherwise the field stores exactly the given class, column name, getter and uniqueness |
| ByteFields.AccessorsReturnConstructorArguments | field/src/main/java/com/speedment/jpastreamer/field/internal/ByteFieldImpl.java:61-159 | table(), getter(), isUnique() (lines 61-73) and columnName() (lines 157-159) give back what the constructor received |
| ByteFields.Comparator | field/src/main/java/com/speedment/jpastreamer/field/internal/ByteFieldImpl.java:76-78 | the comparator is on this field, ascending, and carries the field's null order, LAST |
| ByteFields.ReversedComparator | field/src/main/java/com/speedment/jpastreamer/field/internal/ByteFieldImpl.java:81-83 | reversed() is the same field and null order with the direction flipped |
| ByteFields.ComparatorNullFieldsFirst | field/src/main/java/com/speedment/jpastreamer/field/internal/ByteFieldImpl.java:86-88 | comparatorNullFieldsFirst() is the plain comparator, so it carries the null order LAST |
| ByteFields.ComparatorsOfField | field/src/main/java/com/speedment/jpastreamer/field/internal/ByteFieldImpl.java:76-98 | the field reports null order LAST (NullOrderOf) and not reversed (IsReversed); reversing the reversed comparator gives back the plain one |
| ByteFields.CompareEntities | field/src/main/java/com/speedment/jpastreamer/field/internal/ByteFieldImpl.java:76-83 | a field comparator orders two entities by their byte values (GetAsByte), reversed when the comparator is reversed |
| ByteFields.ReversedOrdersOpposite | field/src/main/java/com/speedment/jpastreamer/field/internal/ByteFieldImpl.java:81-83 | the reversed comparator orders every pair of entities opposite to the plain one |
| ByteFields.Equal | field/src/main/java/com/speedment/jpastreamer/field/internal/ByteFieldImpl.java:101-103 | equal(v) is an EQUAL predicate on this field with operand v |
| ByteFields.GreaterThan | field/src/main/java/com/speedment/jpastreamer/field/internal/ByteFieldImpl.java:106-108 | greaterThan(v) is a GREATER_THAN predicate on this field with operand v |
| ByteFields.GreaterOrEqual | field/src/main/java/com/speedment/jpastreamer/field/internal/ByteFieldImpl.java:111-113 | greaterOrEqual(v) is a GREATER_OR_EQUAL predicate on this field with operand v |
| ByteFields.Between | field/src/main/java/com/speedment/jpastreamer/field/internal/ByteFieldImpl.java:116-121 | between(start, end, inclusion) is a BETWEEN predicate carrying the range and inclusion unchanged |
| ByteFields.In | field/src/main/java/com/speedment/jpastreamer/field/internal/ByteFieldImpl.java:124-126 | in(values) is an IN predicate whose operand set holds exactly the collection's elements |
| ByteFields.NotEqual | field/src/main/java/com/speedment/jpastreamer/field/internal/ByteFieldImpl.java:129-131 | notEqual(v) is a NOT_EQUAL predicate on this field with operand v |
| ByteFields.LessOrEqual | field/src/main/java/com/speedment/jpastreamer/field/internal/ByteFieldImpl.java:134-136 | lessOrEqual(v) is a LESS_OR_EQUAL predicate on this field with operand v |
| ByteFields.LessThan | field/src/main/java/com/speedment/jpastreamer/field/internal/ByteFieldImpl.java:139-141 | lessThan(v) is a LESS_THAN predicate on this field with operand v |
| ByteFields.NotBetween | field/src/main/java/com/speedment/jpastreamer/field/internal/ByteFieldImpl.java:144-149 | notBetween(start, end, inclusion) is a NOT_BETWEEN predicate carrying the range and inclusion unchanged |
| ByteFields.NotIn | field/src/main/java/com/speedment/jpastreamer/field/internal/ByteFieldImpl.java:152-154 | notIn(values) is a NOT_IN predicate whose operand set holds exactly the collection's elements |
| ByteFields.FactoriesCoverEveryKind | field/src/main/java/com/speedment/jpastreamer/field/internal/ByteFieldImpl.java:100-154 | the ten factories build ten different predicate kinds and every kind is built by one of them |
| ByteFields.BetweenAndNotBetweenDifferInKindOnly | field/src/main/java/com/speedment/jpastreamer/field/internal/ByteFieldImpl.java:116-149 | between and notBetween with the same arguments differ in nothing but the kind |
| ByteFields.InIgnoresDuplicatesAndOrder | field/src/main/java/com/speedment/jpastreamer/field/internal/ByteFieldImpl.java:124-126 | in/notIn of two collections are equal exactly when each collection's elements all occur in the other |
| ByteFields.InCollapsesDuplicates | field/src/main/java/com/speedment/jpastreamer/field/internal/ByteFieldImpl.java:124-126 | in([1,1,2]) and in([2,1]) are the same predicate, as are the notIn forms, while in([1,2]) differs from in([1]) |
| FieldExpressions.ToSetEqual | field/src/main/java/com/speedment/jpastreamer/field/internal/LongFieldImpl.java:137-139 | collectionToSet of two collections agree exactly when each one's elements all occur in the other |
| FieldExpressions.ReversedTwice | field/src/main/java/com/speedment/jpastreamer/field/internal/LongFieldImpl.java:94-96 | reversing a field comparator twice restores it |
| Pipelines.Optimize | provider/termopoptimizer-standard/src/main/java/com/speedment/jpastreamer/termopoptimizer/standard/internal/StandardTerminalOperationOptimizer.java:23-29 | a null pipeline raises NullPointerException; any other pipeline is returned as it came |
| Pipelines.OptimizeIdempotent | provider/termopoptimizer-standard/src/main/java/com/speedment/jpastreamer/termopoptimizer/standard/internal/StandardTerminalOperationOptimizer.java:23-29 | optimizing an optimized pipeline changes nothing |
| Pipelines.OptimizeKeepsOperations | provider/termopoptimizer-standard/src/main/java/com/speedment/jpastreamer/termopoptimizer/standard/internal/StandardTerminalOperationOptimizer.java:23-29 | every intermediate operation keeps its position and the terminal operation is kept |
| AutoClosing.Open | jpastreamer.provider/jpastreamer.autoclose.standard/src/main/java/com/speedment/jpastreamer/autoclose/standard/internal/AutoClosingStream.java:43-48 | the two-argument constructor gives an open wrapper over the stream with the given allow flag |
| AutoClosing.OpenWithSystemProperties | jpastreamer.provider/jpastreamer.autoclose.standard/src/main/java/com/speedment/jpastreamer/autoclose/standard/internal/AutoClosingStream.java:39-41 | the one-argument constructor takes the allow flag from the system property, off when it is unset |
| AutoClosing.GetBooleanCases | jpastreamer.provider/jpastreamer.autoclose.standard/src/main/java/com/speedment/jpastreamer/autoclose/standard/internal/AutoClosingStream.java:39-41 | an unset property leaves the flag off; "true" and "TRUE" turn it on, "yes" and "1" do not |
| AutoClosing.GetBooleanMatchesSpellings | jpastreamer.provider/jpastreamer.autoclose.standard/src/main/java/com/speedment/jpastreamer/autoclose/standard/internal/AutoClosingStream.java:39-41 | for every property map and name, Boolean.getBoolean holds exactly when the property is set to one of the sixteen letter-case spellings of "true" |
| AutoClosing.Filter | jpastreamer.provider/jpastreamer.autoclose.standard/src/main/java/com/speedment/jpastreamer/autoclose/standard/internal/AutoClosingStream.java:50-53 | filter wraps the elements satisfying the predicate in a new open wrapper with the same flag and mode; on a closed stream it raises IllegalStateException |
| AutoClosing.Map | jpastreamer.provider/jpastreamer.autoclose.standard/src/main/java/com/speedment/jpastreamer/autoclose/standard/internal/AutoClosingStream.java:55-73 | map, mapToInt, mapToLong and mapToDouble wrap the mapped elements, one per input element |
| AutoClosing.FlatMap | jpastreamer.provider/jpastreamer.autoclose.standard/src/main/java/com/speedment/jpastreamer/autoclose/standard/internal/AutoClosingStream.java:75-93 | flatMap and its primitive variants wrap the concatenation of the mapped streams, a null mapped stream contributing nothing |
| AutoClosing.Distinct | jpastreamer.provider/jpastreamer.autoclose.standard/src/main/java/com/speedment/jpastreamer/autoclose/standard/internal/AutoClosingStream.java:95-98 | distinct wraps a duplicate-free sequence holding every element, in the order of first occurrence |
| AutoClosing.Sorted | jpastreamer.provider/jpastreamer.autoclose.standard/src/main/java/com/speedment/jpastreamer/autoclose/standard/internal/AutoClosingStream.java:100-108 | sorted wraps a permutation of the elements, in comparator order whenever the comparator orders every two elements |
| AutoClosing.Peek | jpastreamer.provider/jpastreamer.autoclose.standard/src/main/java/com/speedment/jpastreamer/autoclose/standard/internal/AutoClosingStream.java:110-113 | peek wraps the same elements in the same order |
| AutoClosing.Limit | jpastreamer.provider/jpastreamer.autoclose.standard/src/main/java/com/speedment/jpastreamer/autoclose/standard/internal/AutoClosingStream.java:115-118 | limit wraps a prefix of at most maxSize elements; a negative size raises IllegalArgumentException |
| AutoClosing.Skip | jpastreamer.provider/jpastreamer.autoclose.standard/src/main/java/com/speedment/jpastreamer/autoclose/standard/internal/AutoClosingStream.java:120-123 | skip wraps the elements after the first n; a negative count raises IllegalArgumentException; skip(0) wraps the very same underlying stream, so it succeeds and the result is closed exactly when the original is |
| AutoClosing.TakeWhile | jpastreamer.provider/jpastreamer.autoclose.standard/src/main/java/com/speedment/jpastreamer/autoclose/standard/internal/AutoClosingStream.java:125-128 | takeWhile wraps a prefix of the elements |
| AutoClosing.DropWhile | jpastreamer.provider/jpastreamer.autoclose.standard/src/main/java/com/speedment/jpastreamer/autoclose/standard/internal/AutoClosingStream.java:130-133 | dropWhile wraps exactly what takeWhile leaves |
| AutoClosing.Unordered | jpastreamer.provider/jpastreamer.autoclose.standard/src/main/java/com/speedment/jpastreamer/autoclose/standard/internal/AutoClosingStream.java:251-254 | unordered wraps the same elements |
| AutoClosing.Parallel | jpastreamer.provider/jpastreamer.autoclose.standard/src/main/java/com/speedment/jpastreamer/autoclose/standard/internal/AutoClosingStream.java:246-249 | parallel switches the mode to parallel and keeps elements, closed state and flag |
| AutoClosing.Sequential | jpastreamer.provider/jpastreamer.autoclose.standard/src/main/java/com/speedment/jpastreamer/autoclose/standard/internal/AutoClosingStream.java:241-244 | sequential switches the mode to sequential and keeps elements, closed state and flag |
| AutoClosing.ModeSwitches | jpastreamer.provider/jpastreamer.autoclose.standard/src/main/java/com/speedment/jpastreamer/autoclose/standard/internal/AutoClosingStream.java:236-249 | isParallel (IsParallel) reports the last mode switch |
| AutoClosing.IntermediateOperationsNeverClose | jpastreamer.provider/jpastreamer.autoclose.standard/src/main/java/com/speedment/jpastreamer/autoclose/standard/internal/AutoClosingStream.java:50-133 | no intermediate operation closes: a stage is open exactly when its source is (only skip(0) succeeds on a closed one); each keeps the flag and mode, and on an open stream only a negative limit/skip fails |
| AutoClosing.ForEach | jpastreamer.provider/jpastreamer.autoclose.standard/src/main/java/com/speedment/jpastreamer/autoclose/standard/internal/AutoClosingStream.java:135-138 | forEach hands every element to the action and closes; a throwing action makes the call raise and it still closes |
| AutoClosing.ForEachOrdered | jpastreamer.provider/jpastreamer.autoclose.standard/src/main/java/com/speedment/jpastreamer/autoclose/standard/internal/AutoClosingStream.java:140-143 | forEachOrdered hands the elements to the action in encounter order and closes |
| AutoClosing.ToArray | jpastreamer.provider/jpastreamer.autoclose.standard/src/main/java/com/speedment/jpastreamer/autoclose/standard/internal/AutoClosingStream.java:145-153 | toArray returns the elements in order and closes; a stream too large for an array raises IllegalArgumentException and still closes |
| AutoClosing.ReduceWithIdentity | jpastreamer.provider/jpastreamer.autoclose.standard/src/main/java/com/speedment/jpastreamer/autoclose/standard/internal/AutoClosingStream.java:155-158 | reduce(identity, op) is the left fold from identity, then closes |
| AutoClosing.Reduce | jpastreamer.provider/jpastreamer.autoclose.standard/src/main/java/com/speedment/jpastreamer/autoclose/standard/internal/AutoClosingStream.java:160-163 | reduce(op) is empty exactly for no elements, otherwise the left fold from the first element, then closes |
| AutoClosing.ReduceCombining | jpastreamer.provider/jpastreamer.autoclose.standard/src/main/java/com/speedment/jpastreamer/autoclose/standard/internal/AutoClosingStream.java:165-168 | the three-argument reduce is, sequentially, the left fold of the accumulator from identity, then closes |
| AutoClosing.CollectInto | jpastreamer.provider/jpastreamer.autoclose.standard/src/main/java/com/speedment/jpastreamer/autoclose/standard/internal/AutoClosingStream.java:170-173 | collect(supplier, accumulator, combiner) gives the supplied container for no elements and otherwise adds every element to it in order, then closes |
| AutoClosing.Collect | jpastreamer.provider/jpastreamer.autoclose.standard/src/main/java/com/speedment/jpastreamer/autoclose/standard/internal/AutoClosingStream.java:175-178 | collect(collector) applies the finisher to the container filled in order, then closes |
| AutoClosing.Min | jpastreamer.provider/jpastreamer.autoclose.standard/src/main/java/com/speedment/jpastreamer/autoclose/standard/internal/AutoClosingStream.java:180-183 | min is empty exactly for no elements, otherwise an element no greater than any other under a lawful comparator, then closes |
| AutoClosing.Max | jpastreamer.provider/jpastreamer.autoclose.standard/src/main/java/com/speedment/jpastreamer/autoclose/standard/internal/AutoClosingStream.java:185-188 | max is empty exactly for no elements, otherwise an element no smaller than any other under a lawful comparator, then closes |
| AutoClosing.Count | jpastreamer.provider/jpastreamer.autoclose.standard/src/main/java/com/speedment/jpastreamer/autoclose/standard/internal/AutoClosingStream.java:190-193 | count is the number of elements, then closes |
| AutoClosing.AnyMatch | jpastreamer.provider/jpastreamer.autoclose.standard/src/main/java/com/speedment/jpastreamer/autoclose/standard/internal/AutoClosingStream.java:195-198 | anyMatch holds exactly when some element satisfies the predicate, then closes |
| AutoClosing.AllMatch | jpastreamer.provider/jpastreamer.autoclose.standard/src/main/java/com/speedment/jpastreamer/autoclose/standard/internal/AutoClosingStream.java:200-203 | allMatch holds exactly when every element satisfies the predicate, then closes |
| AutoClosing.NoneMatch | jpastreamer.provider/jpastreamer.autoclose.standard/src/main/java/com/speedment/jpastreamer/autoclose/standard/internal/AutoClosingStream.java:205-208 | noneMatch holds exactly when no element satisfies the predicate, then closes |
| AutoClosing.FindFirst | jpastreamer.provider/jpastreamer.autoclose.standard/src/main/java/com/speedment/jpastreamer/autoclose/standard/internal/AutoClosingStream.java:210-213 | findFirst is the first element, empty exactly for no elements, then closes |
| AutoClosing.FindAny | jpastreamer.provider/jpastreamer.autoclose.standard/src/main/java/com/speedment/jpastreamer/autoclose/standard/internal/AutoClosingStream.java:215-218 | findAny is some element, empty exactly for no elements, then closes |
| AutoClosing.ToList | jpastreamer.provider/jpastreamer.autoclose.standard/src/main/java/com/speedment/jpastreamer/autoclose/standard/internal/AutoClosingStream.java:261-264 | toList collects the stream passed as argument and closes this wrapper |
| AutoClosing.ReduceNullable | jpastreamer.provider/jpastreamer.autoclose.standard/src/main/java/com/speedment/jpastreamer/autoclose/standard/internal/AutoClosingStream.java:160-163 | over elements that may be null, reduce(op) raises NullPointerException exactly when the reduction result is null, otherwise returns it; it closes either way |
| AutoClosing.FindFirstNullable | jpastreamer.provider/jpastreamer.autoclose.standard/src/main/java/com/speedment/jpastreamer/autoclose/standard/internal/AutoClosingStream.java:210-213 | over elements that may be null, findFirst raises NullPointerException exactly when the first element is null, is empty exactly for no elements, then closes |
| AutoClosing.FindAnyNullable | jpastreamer.provider/jpastreamer.autoclose.standard/src/main/java/com/speedment/jpastreamer/autoclose/standard/internal/AutoClosingStream.java:215-218 | over elements that may be null, findAny gives an element or raises NullPointerException only if some element is null; without nulls it never raises; then closes |
| AutoClosing.MinNullable | jpastreamer.provider/jpastreamer.autoclose.standard/src/main/java/com/speedment/jpastreamer/autoclose/standard/internal/AutoClosingStream.java:180-183 | over elements that may be null, min is empty exactly for no elements, otherwise the least element under a lawful comparator, raising NullPointerException exactly when that element is null; without nulls it never raises |
| AutoClosing.MaxNullable | jpastreamer.provider/jpastreamer.autoclose.standard/src/main/java/com/speedment/jpastreamer/autoclose/standard/internal/AutoClosingStream.java:185-188 | over elements that may be null, max is as min for the greatest element |
| AutoClosing.NullableAgreesWithGeneric | jpastreamer.provider/jpastreamer.autoclose.standard/src/main/java/com/speedment/jpastreamer/autoclose/standard/internal/AutoClosingStream.java:160-218 | the null-aware reduce, findFirst, min and max raise exactly where the generic ones would return a present null, and otherwise return the same value and close alike |
| AutoClosing.NullableTerminalsClose | jpastreamer.provider/jpastreamer.autoclose.standard/src/main/java/com/speedment/jpastreamer/autoclose/standard/internal/AutoClosingStream.java:160-218 | the null-aware terminal operations close the stream whether they return or raise NullPointerException |
| AutoClosing.TerminalOperationsClose | jpastreamer.provider/jpastreamer.autoclose.standard/src/main/java/com/speedment/jpastreamer/autoclose/standard/internal/AutoClosingStream.java:135-218 | after every terminal operation, collect(collector) included, the wrapper is closed with its elements, flag and mode unchanged |
| AutoClosing.Iterator | jpastreamer.provider/jpastreamer.autoclose.standard/src/main/java/com/speedment/jpastreamer/autoclose/standard/internal/AutoClosingStream.java:220-226 | iterator raises UnsupportedOperationException unless allowed; allowed, it yields the elements; it never closes |
| AutoClosing.Spliterator | jpastreamer.provider/jpastreamer.autoclose.standard/src/main/java/com/speedment/jpastreamer/autoclose/standard/internal/AutoClosingStream.java:228-234 | spliterator is gated like iterator |
| AutoClosing.CursorPolicyFollowsConstruction | jpastreamer.provider/jpastreamer.autoclose.standard/src/main/java/com/speedment/jpastreamer/autoclose/standard/internal/AutoClosingStream.java:220-234 | the allow flag fixed by the constructor decides the cursors, also after an intermediate operation |
| AutoClosing.LimitZeroThenTerminal | jpastreamer.provider/jpastreamer.autoclose.standard/src/main/java/com/speedment/jpastreamer/autoclose/standard/internal/AutoClosingStream.java:115-218 | after limit(0) a terminal operation sees no elements and still closes |
| AutoClosing.SecondTerminalFails | jpastreamer.provider/jpastreamer.autoclose.standard/src/main/java/com/speedment/jpastreamer/autoclose/standard/internal/AutoClosingStream.java:190-193 | a second terminal operation or a new stage on a closed wrapper raises IllegalStateException and the wrapper stays closed |
| AutoClosingLong.FoldAddIsWrappedSum | jpastreamer.provider/jpastreamer.autoclose.standard/src/main/java/com/speedment/jpastreamer/autoclose/standard/internal/AutoClosingLongStream.java:147-150 | summing with long addition gives the exact sum reduced modulo 2^64 into the long range |
| AutoClosingLong.Sum | jpastreamer.provider/jpastreamer.autoclose.standard/src/main/java/com/speedment/jpastreamer/autoclose/standard/internal/AutoClosingLongStream.java:147-150 | sum is the exact sum wrapped to 64 bits, then closes |
| AutoClosingLong.SumWithoutOverflow | jpastreamer.provider/jpastreamer.autoclose.standard/src/main/java/com/speedment/jpastreamer/autoclose/standard/internal/AutoClosingLongStream.java:147-150 | a sum that fits in a long is the exact sum |
| AutoClosingLong.FoldMinIsLeast | jpastreamer.provider/jpastreamer.autoclose.standard/src/main/java/com/speedment/jpastreamer/autoclose/standard/internal/AutoClosingLongStream.java:152-155 | folding Math.min gives a value that is the start or an element, and no greater than either |
| AutoClosingLong.Min | jpastreamer.provider/jpastreamer.autoclose.standard/src/main/java/com/speedment/jpastreamer/autoclose/standard/internal/AutoClosingLongStream.java:152-155 | min is empty exactly for no elements, otherwise the least element, then closes |
| AutoClosingLong.FoldMaxIsGreatest | jpastreamer.provider/jpastreamer.autoclose.standard/src/main/java/com/speedment/jpastreamer/autoclose/standard/internal/AutoClosingLongStream.java:157-160 | folding Math.max gives a value that is the start or an element, and no smaller than either |
| AutoClosingLong.Max | jpastreamer.provider/jpastreamer.autoclose.standard/src/main/java/com/speedment/jpastreamer/autoclose/standard/internal/AutoClosingLongStream.java:157-160 | max is empty exactly for no elements, otherwise the greatest element, then closes |
| AutoClosingLong.FoldAverageStep | jpastreamer.provider/jpastreamer.autoclose.standard/src/main/java/com/speedment/jpastreamer/autoclose/standard/internal/AutoClosingLongStream.java:167-170 | accumulating count and sum keeps each the wrapped total |
| AutoClosingLong.Average | jpastreamer.provider/jpastreamer.autoclose.standard/src/main/java/com/speedment/jpastreamer/autoclose/standard/internal/AutoClosingLongStream.java:167-170 | average is empty exactly when the long count is not positive, otherwise divides the wrapped sum by the count, then closes |
| AutoClosingLong.FoldAccept | jpastreamer.provider/jpastreamer.autoclose.standard/src/main/java/com/speedment/jpastreamer/autoclose/standard/internal/AutoClosingLongStream.java:172-175 | accepting values one by one keeps count, sum, minimum and maximum each as its own fold |
| AutoClosingLong.SummaryStatistics | jpastreamer.provider/jpastreamer.autoclose.standard/src/main/java/com/speedment/jpastreamer/autoclose/standard/internal/AutoClosingLongStream.java:172-175 | summaryStatistics holds the count, the wrapped sum, the least and the greatest element (Long.MAX_VALUE and Long.MIN_VALUE when empty), then closes |
| AutoClosingLong.ToArray | jpastreamer.provider/jpastreamer.autoclose.standard/src/main/java/com/speedment/jpastreamer/autoclose/standard/internal/AutoClosingLongStream.java:123-130 | toArray returns the elements and closes in a finally block, whether it returns or raises |
| AutoClosingLong.ToArrayAgreesWithFinallyClose | jpastreamer.provider/jpastreamer.autoclose.standard/src/main/java/com/speedment/jpastreamer/autoclose/standard/internal/AutoClosingLongStream.java:123-130 | the explicit try/finally behaves exactly like the finallyClose route of the reference lane |
| AutoClosingLong.Sorted | jpastreamer.provider/jpastreamer.autoclose.standard/src/main/java/com/speedment/jpastreamer/autoclose/standard/internal/AutoClosingLongStream.java:83-86 | sorted wraps a permutation of the elements in ascending order |
| AutoClosingLong.Boxed | jpastreamer.provider/jpastreamer.autoclose.standard/src/main/java/com/speedment/jpastreamer/autoclose/standard/internal/AutoClosingLongStream.java:207-210 | boxed wraps the same values in the same order |
| AutoClosingLong.AsDoubleStream | jpastreamer.provider/jpastreamer.autoclose.standard/src/main/java/com/speedment/jpastreamer/autoclose/standard/internal/AutoClosingLongStream.java:202-205 | asDoubleStream wraps the converted values without closing |
| AutoClosingLong.IntermediateOperationsNeverClose | jpastreamer.provider/jpastreamer.autoclose.standard/src/main/java/com/speedment/jpastreamer/autoclose/standard/internal/AutoClosingLongStream.java:48-111 | the long lane's intermediate operations never close and keep flag and mode |
| AutoClosingLong.LaneConversionsWrap | jpastreamer.provider/jpastreamer.autoclose.standard/src/main/java/com/speedment/jpastreamer/autoclose/standard/internal/AutoClosingLongStream.java:58-71 | mapToObj, mapToInt and mapToDouble wrap the converted values in an open wrapper; boxed keeps values and order |
| AutoClosingLong.ShortCircuitTerminalsClose | jpastreamer.provider/jpastreamer.autoclose.standard/src/main/java/com/speedment/jpastreamer/autoclose/standard/internal/AutoClosingLongStream.java:177-200 | anyMatch, allMatch, noneMatch, findFirst and findAny close |
| AutoClosingLong.CursorsGated | jpastreamer.provider/jpastreamer.autoclose.standard/src/main/java/com/speedment/jpastreamer/autoclose/standard/internal/AutoClosingLongStream.java:222-236 | the long lane's iterator and spliterator are gated by the allow flag and never close |
| AutoClosingLong.ConstructedWithoutPropertyIsGated | jpastreamer.provider/jpastreamer.autoclose.standard/src/main/java/com/speedment/jpastreamer/autoclose/standard/internal/AutoClosingLongStream.java:37-46 | a long wrapper built without the system property is open over the given elements and its cursors, and those of its stages, raise UnsupportedOperationException |
| AutoClosingLong.ReduceAgreesWithArithmetic | jpastreamer.provider/jpastreamer.autoclose.standard/src/main/java/com/speedment/jpastreamer/autoclose/standard/internal/AutoClosingLongStream.java:132-160 | reduce(0, Long::sum) gives what sum() gives and reduce(Math::min/max) what min()/max() give, closing alike |
| Sequences.FoldMinByIsLeast | jpastreamer.provider/jpastreamer.autoclose.standard/src/main/java/com/speedment/jpastreamer/autoclose/standard/internal/AutoClosingStream.java:180-183 | folding minBy under a lawful comparator gives an element no greater than any other |
| Sequences.FoldMaxByIsGreatest | jpastreamer.provider/jpastreamer.autoclose.standard/src/main/java/com/speedment/jpastreamer/autoclose/standard/internal/AutoClosingStream.java:185-188 | folding maxBy under a lawful comparator gives an element no smaller than any other |
| Sequences.DistinctKeepsEncounterOrder | jpastreamer.provider/jpastreamer.autoclose.standard/src/main/java/com/speedment/jpastreamer/autoclose/standard/internal/AutoClosingStream.java:95-98 | the elements distinct keeps appear in the order of their first occurrence in the input |
| Sequences.DistinctIdempotent | jpastreamer.provider/jpastreamer.autoclose.standard/src/main/java/com/speedment/jpastreamer/autoclose/standard/internal/AutoClosingStream.java:95-98 | distinct of a distinct sequence changes nothing |
| AutoClosing.SortedIsStable | jpastreamer.provider/jpastreamer.autoclose.standard/src/main/java/com/speedment/jpastreamer/autoclose/standard/internal/AutoClosingStream.java:100-108 | sorted is stable: under a lawful comparator the elements comparing equal to any given element keep their encounter order |
| StableSort.SortStable | jpastreamer.provider/jpastreamer.autoclose.standard/src/main/java/com/speedment/jpastreamer/autoclose/standard/internal/AutoClosingStream.java:105-108 | sorting keeps the relative order of any class of elements that compare equal to each other |
| StableSort.EqualElementsKeepOrder | jpastreamer.provider/jpastreamer.autoclose.standard/src/main/java/com/speedment/jpastreamer/autoclose/standard/internal/AutoClosingStream.java:105-108 | under a comparator obeying the Comparator contract, the elements equal to a given one come out of the sort in their input order |
| StableSort.SortSorted | jpastreamer.provider/jpastreamer.autoclose.standard/src/main/java/com/speedment/jpastreamer/autoclose/standard/internal/AutoClosingStream.java:105-108 | sorting with a comparator that orders the elements yields adjacent elements in comparator order |
| UnionQuery.Union | integration-tests/src/test/java/com/speedment/jpastreamer/integration/test/standard/UnionTest.java:40-47 | the union query returns exactly the films matching either filter, with strictly increasing ids |
| UnionQuery.Disjunction | integration-tests/src/test/java/com/speedment/jpastreamer/integration/test/standard/UnionTest.java:49-52 | the disjunction query returns exactly the films matching the combined filter, with strictly increasing ids |
| UnionQuery.IncreasingByMembersUnique | integration-tests/src/test/java/com/speedment/jpastreamer/integration/test/standard/UnionTest.java:54 | two lists with strictly increasing ids and the same members are equal |
| UnionQuery.UnionEqualsDisjunction | integration-tests/src/test/java/com/speedment/jpastreamer/integration/test/standard/UnionTest.java:40-54 | with unique ids the union query and the disjunction query return the same list |
| UnionQuery.FilmsUnion | integration-tests/src/test/java/com/speedment/jpastreamer/integration/test/standard/UnionTest.java:40-54 | the films instance: length over 120 or rating PG-13, sorted by film id, the two queries agree |

## Left out

- The base class `AbstractAutoClosingBaseStream` is not part of this model: its `wrap`,
  `finallyClose`, `close` and `isAllowStreamIteratorAndSpliterator` are modelled from how
  the two decorators call them. Exception chaining when `close()` itself throws is not modelled.
- `onClose` handlers are not modelled: the wrapper returned by `onClose` is the one `Peek`
  returns, and the handler is never run.
- `mapMulti`, `mapMultiToInt`, `mapMultiToLong`, `mapMultiToDouble`: they delegate to
  `Java16StreamUtil`, whose code is not part of this model.
- AutoClosing.ToList: `toList(stream)` also delegates to `Java16StreamUtil.toList`, which is not
  part of this model; its result is assumed to be exactly the argument's elements in order, and
  it is assumed never to raise.
- Parallel execution: `parallel()` only records the mode; every operation uses the
  sequential semantics, so the combiner of the three-argument `reduce` and of `collect` is never called.
- Floating point: `average()` yields the wrapped sum and count it would divide; the division,
  `mapToDouble` and `asDoubleStream` values are left abstract (the conversion is a parameter).
- The int, double and reference lanes other than `Stream<T>` and `LongStream` are
  represented only by the generic operations at their element type.
- The comparator and predicate classes the fields instantiate are not part of this model:
  how a predicate tests an entity, the `Inclusion` ends of a range and the treatment of
  `null` values are not modelled; a predicate is the record of its kind, field and operands.
- The comparator record carrying the field's null order is what the model promises; how the
  comparator classes order `null` values is not modelled.
- `getter()` wraps the getter in a `GetLongImpl`/`GetByteImpl`; the model stores the function itself.
- Boxed `null` operands of the factories (`equal(null)`) and `null` collections passed to `in` are not modelled.
- `Boolean.getBoolean`: letter case is folded for ASCII letters only.
- Linkage: the JDK's "stream has already been operated upon" is not modelled. It is raised
  for a stage reused after a new stage was created from it, and for a terminal operation
  after `iterator()` or `spliterator()` consumed the stream. Only the closed flag fails later calls.
- `unordered()` on a stream that is already unordered returns the stream itself in the JDK,
  which would, like `skip(0)`, succeed even when closed; the model keeps no ordered flag and
  treats `unordered()` as a new stage.
- AutoClosing.Parallel, AutoClosing.Sequential, AutoClosing.Skip: in the JDK `parallel()`,
  `sequential()` and `skip(0)` return the very stream they are called on, so the new wrapper and
  the original share one underlying stream. The mode is a property of the whole pipeline, and
  switching it through one wrapper shows through the original and every earlier stage; closing
  either wrapper closes the other. A decorator here is an independent value: the mode switch and
  the close are seen only along the chain of returned wrappers. The same holds for
  `parallel()`, `sequential()` and `skip(0)` of the long lane (`AutoClosingLong`).
- AutoClosing.Reduce: at a generic element type no element or result is `null`, so the
  `NullPointerException` that `Optional.of` raises for a `null` result is stated by
  `ReduceNullable`, over `Option` elements, and not by `Reduce`.
- AutoClosing.FindFirst: the `NullPointerException` for a `null` first element is stated by
  `FindFirstNullable`, not by `FindFirst`, for the same reason.
- Callbacks other than the `forEach`/`forEachOrdered` action never throw or have effects:
  predicates, mappers, comparators, accumulators, combiners, suppliers and finishers are pure
  total functions, `peek` takes no action at all, and the `ClassCastException` of `sorted()`
  over non-`Comparable` elements is not modelled.
- AutoClosing.ForEach: promises only that every element reaches the action, as a multiset,
  because `forEach` does not promise an order.
- AutoClosing.FindAny: promises an element of the stream, not which one; the
  `NullPointerException` for a selected `null` is stated by `FindAnyNullable`.
- AutoClosing.Min: the least-element property is stated only for comparators that obey the
  `Comparator` contract on the elements; for other comparators only emptiness is promised.
  The `NullPointerException` for a `null` minimum is stated by `MinNullable`, over `Option` elements.
- AutoClosing.Max: as for `Min`; the `null` maximum is stated by `MaxNullable`.
- AutoClosing.Sorted: comparator order is promised only for comparators that order every two
  elements, and stability (SortedIsStable) only for comparators obeying the `Comparator` contract.
- AutoClosing.Count: the value is stated for streams of at most `Long.MAX_VALUE` elements;
  beyond that the count wraps.

## Notes on the code

- `comparatorNullFieldsFirst()` returns the plain comparator, whose null order is LAST; the
  model follows the code, not the name.
- `LongFields.CompareEntities` and `ByteFields.CompareEntities` state the ordering assumed of
  `LongFieldComparatorImpl` and `ByteFieldComparatorImpl`, which are not part of this model: by
  the getter's values, flipped when reversed. The cited lines only construct those comparators.
- `toList(stream)` collects the stream given as argument, not the decorator's own stream,
  and then closes the decorator; the model follows the code.
- A closed wrapper raises `IllegalStateException` on a further stage or terminal operation
  because the OpenJDK stream it wraps does so once closed; the model assumes that behaviour.
  The exception is `skip(0)`, which OpenJDK answers with the stream itself without any check,
  so the wrapper returns a decorator over the same, still closed, stream.
