/** A field of an entity holding a primitive `byte`: its descriptor with column name,
    its comparators and its ten predicate factories. */
module ByteFields {
  import opened Results
  import opened JavaNumbers
  import opened FieldExpressions

  /** An immutable field descriptor: entity class, column name, getter, uniqueness. */
  datatype ByteField<!E> = ByteField(
    table: ClassName,
    columnName: string,
    getter: E -> Byte,
    unique: bool)

  type BytePredicate<!E> = FieldPredicate<ByteField<E>, Byte>
  type ByteComparator<!E> = FieldComparator<ByteField<E>>

  /** The constructor: a `null` entity class or a `null` column name is rejected. */
  function New<E>(table: Option<ClassName>, columnName: Option<string>, getter: E -> Byte, unique: bool)
    : (r: Result<ByteField<E>>)
    ensures r.Failure? <==> table.None? || columnName.None?
    ensures r.Failure? ==> r.error == NullPointer
    ensures r.Success? ==> && r.value.table == table.value
                           && r.value.columnName == columnName.value
                           && r.value.getter == getter
                           && r.value.unique == unique
  {
    if table.None? || columnName.None? then Failure(NullPointer)
    else Success(ByteField(table.value, columnName.value, getter, unique))
  }

  /** `table()`, `columnName()`, `getter()` and `isUnique()` give back what the constructor was given. */
  lemma AccessorsReturnConstructorArguments<E>(table: ClassName, columnName: string, getter: E -> Byte, unique: bool)
    ensures New(Some(table), Some(columnName), getter, unique).Success?
    ensures var f := New(Some(table), Some(columnName), getter, unique).value;
            f.table == table && f.columnName == columnName && f.unique == unique && f.getter == getter
  {
  }

  /** The value the field's getter reads from an entity. */
  function GetAsByte<E>(f: ByteField<E>, entity: E): Byte {
    f.getter(entity)
  }

  /** `getNullOrder()`. */
  function NullOrderOf<E>(f: ByteField<E>): NullOrder {
    Last
  }

  /** `isReversed()`. */
  function IsReversed<E>(f: ByteField<E>): bool {
    false
  }

  /** `comparator()`: ascending on this field, with the field's null order. */
  function Comparator<E>(f: ByteField<E>): (c: ByteComparator<E>)
    ensures c.field == f && !c.reversed && c.nullOrder == Last
  {
    FieldComparator(f, IsReversed(f), NullOrderOf(f))
  }

  /** `reversed()`: the comparator, reversed. */
  function ReversedComparator<E>(f: ByteField<E>): (c: ByteComparator<E>)
    ensures c.field == f && c.reversed && c.nullOrder == Last
  {
    Reversed(Comparator(f))
  }

  /** `comparatorNullFieldsFirst()`: the plain comparator, null order included. */
  function ComparatorNullFieldsFirst<E>(f: ByteField<E>): (c: ByteComparator<E>)
    ensures c == Comparator(f)
  {
    Comparator(f)
  }

  /** The plain field is unreversed and sorts nulls last; its three comparators
      are the plain one, the plain one reversed, and the plain one again. */
  lemma ComparatorsOfField<E>(f: ByteField<E>)
    ensures NullOrderOf(f) == Last && !IsReversed(f)
    ensures ComparatorNullFieldsFirst(f) == Comparator(f)
    ensures ReversedComparator(f) == Reversed(Comparator(f))
    ensures Reversed(ReversedComparator(f)) == Comparator(f)
  {
  }

  /** How a comparator on a `byte` field orders two entities: `Byte.compare` of their values. */
  function CompareEntities<E>(c: ByteComparator<E>, a: E, b: E): (r: int)
    ensures r < 0 <==> (if c.reversed then GetAsByte(c.field, b) < GetAsByte(c.field, a)
                                     else GetAsByte(c.field, a) < GetAsByte(c.field, b))
    ensures r == 0 <==> GetAsByte(c.field, a) == GetAsByte(c.field, b)
  {
    Directed(GetAsByte(c.field, a), GetAsByte(c.field, b), c.reversed)
  }

  /** The reversed comparator puts every two entities the other way round. */
  lemma ReversedOrdersOpposite<E>(f: ByteField<E>, a: E, b: E)
    ensures CompareEntities(ReversedComparator(f), a, b) == CompareEntities(Comparator(f), b, a)
    ensures CompareEntities(ReversedComparator(f), a, b) < 0 <==> CompareEntities(Comparator(f), a, b) > 0
  {
  }

  /** `equal(value)`. */
  function Equal<E>(f: ByteField<E>, value: Byte): (p: BytePredicate<E>)
    ensures WellShaped(p) && p.predicateType == PredicateType.Equal
    ensures p.field == f && p.operands.value == value
  {
    FieldPredicate(PredicateType.Equal, f, One(value))
  }

  /** `notEqual(value)`. */
  function NotEqual<E>(f: ByteField<E>, value: Byte): (p: BytePredicate<E>)
    ensures WellShaped(p) && p.predicateType == PredicateType.NotEqual
    ensures p.field == f && p.operands.value == value
  {
    FieldPredicate(PredicateType.NotEqual, f, One(value))
  }

  /** `greaterThan(value)`. */
  function GreaterThan<E>(f: ByteField<E>, value: Byte): (p: BytePredicate<E>)
    ensures WellShaped(p) && p.predicateType == PredicateType.GreaterThan
    ensures p.field == f && p.operands.value == value
  {
    FieldPredicate(PredicateType.GreaterThan, f, One(value))
  }

  /** `greaterOrEqual(value)`. */
  function GreaterOrEqual<E>(f: ByteField<E>, value: Byte): (p: BytePredicate<E>)
    ensures WellShaped(p) && p.predicateType == PredicateType.GreaterOrEqual
    ensures p.field == f && p.operands.value == value
  {
    FieldPredicate(PredicateType.GreaterOrEqual, f, One(value))
  }

  /** `lessThan(value)`. */
  function LessThan<E>(f: ByteField<E>, value: Byte): (p: BytePredicate<E>)
    ensures WellShaped(p) && p.predicateType == PredicateType.LessThan
    ensures p.field == f && p.operands.value == value
  {
    FieldPredicate(PredicateType.LessThan, f, One(value))
  }

  /** `lessOrEqual(value)`. */
  function LessOrEqual<E>(f: ByteField<E>, value: Byte): (p: BytePredicate<E>)
    ensures WellShaped(p) && p.predicateType == PredicateType.LessOrEqual
    ensures p.field == f && p.operands.value == value
  {
    FieldPredicate(PredicateType.LessOrEqual, f, One(value))
  }

  /** `between(start, end, inclusion)`. */
  function Between<E>(f: ByteField<E>, start: Byte, end: Byte, inclusion: Inclusion): (p: BytePredicate<E>)
    ensures WellShaped(p) && p.predicateType == PredicateType.Between
    ensures p.field == f && p.operands == Range(start, end, inclusion)
  {
    FieldPredicate(PredicateType.Between, f, Range(start, end, inclusion))
  }

  /** `notBetween(start, end, inclusion)`. */
  function NotBetween<E>(f: ByteField<E>, start: Byte, end: Byte, inclusion: Inclusion): (p: BytePredicate<E>)
    ensures WellShaped(p) && p.predicateType == PredicateType.NotBetween
    ensures p.field == f && p.operands == Range(start, end, inclusion)
  {
    FieldPredicate(PredicateType.NotBetween, f, Range(start, end, inclusion))
  }

  /** `in(values)`: the operands are the collection normalised to a set. */
  function In<E>(f: ByteField<E>, values: seq<Byte>): (p: BytePredicate<E>)
    ensures WellShaped(p) && p.predicateType == PredicateType.In && p.field == f
    ensures forall i :: 0 <= i < |values| ==> values[i] in p.operands.values
    ensures forall x | x in p.operands.values :: x in values
  {
    FieldPredicate(PredicateType.In, f, Many(ToSet(values)))
  }

  /** `notIn(values)`: the operands are the collection normalised to a set. */
  function NotIn<E>(f: ByteField<E>, values: seq<Byte>): (p: BytePredicate<E>)
    ensures WellShaped(p) && p.predicateType == PredicateType.NotIn && p.field == f
    ensures forall i :: 0 <= i < |values| ==> values[i] in p.operands.values
    ensures forall x | x in p.operands.values :: x in values
  {
    FieldPredicate(PredicateType.NotIn, f, Many(ToSet(values)))
  }

  /** The ten factories produce the ten kinds, one each. */
  lemma FactoriesCoverEveryKind<E>(f: ByteField<E>, v: Byte, start: Byte, end: Byte, inclusion: Inclusion, values: seq<Byte>)
    ensures var kinds := [
              Equal(f, v).predicateType, NotEqual(f, v).predicateType,
              GreaterThan(f, v).predicateType, GreaterOrEqual(f, v).predicateType,
              LessThan(f, v).predicateType, LessOrEqual(f, v).predicateType,
              Between(f, start, end, inclusion).predicateType, NotBetween(f, start, end, inclusion).predicateType,
              In(f, values).predicateType, NotIn(f, values).predicateType];
            && (forall i, j :: 0 <= i < j < |kinds| ==> kinds[i] != kinds[j])
            && (forall k: PredicateType :: k in kinds)
  {
    var kinds := [
      Equal(f, v).predicateType, NotEqual(f, v).predicateType,
      GreaterThan(f, v).predicateType, GreaterOrEqual(f, v).predicateType,
      LessThan(f, v).predicateType, LessOrEqual(f, v).predicateType,
      Between(f, start, end, inclusion).predicateType, NotBetween(f, start, end, inclusion).predicateType,
      In(f, values).predicateType, NotIn(f, values).predicateType];
    forall k: PredicateType ensures k in kinds {
      match k
      case Equal => assert kinds[0] == k;
      case NotEqual => assert kinds[1] == k;
      case GreaterThan => assert kinds[2] == k;
      case GreaterOrEqual => assert kinds[3] == k;
      case LessThan => assert kinds[4] == k;
      case LessOrEqual => assert kinds[5] == k;
      case Between => assert kinds[6] == k;
      case NotBetween => assert kinds[7] == k;
      case In => assert kinds[8] == k;
      case NotIn => assert kinds[9] == k;
    }
  }

  /** `between` and `notBetween` carry the same field and range and differ only in kind. */
  lemma BetweenAndNotBetweenDifferInKindOnly<E>(f: ByteField<E>, start: Byte, end: Byte, inclusion: Inclusion)
    ensures Between(f, start, end, inclusion).(predicateType := PredicateType.NotBetween)
            == NotBetween(f, start, end, inclusion)
  {
  }

  /** `in` and `notIn` see a collection only as a set: duplicates and order do not matter. */
  lemma InIgnoresDuplicatesAndOrder<E>(f: ByteField<E>, xs: seq<Byte>, ys: seq<Byte>)
    ensures In(f, xs) == In(f, ys) <==>
              (forall i :: 0 <= i < |xs| ==> xs[i] in ys) && (forall j :: 0 <= j < |ys| ==> ys[j] in xs)
    ensures NotIn(f, xs) == NotIn(f, ys) <==> In(f, xs) == In(f, ys)
  {
    ToSetEqual(xs, ys);
  }

  /** Duplicates collapse: `in([1, 1, 2])` and `in([2, 1])` are the same predicate, and so are the `notIn` forms. */
  lemma InCollapsesDuplicates<E>(f: ByteField<E>)
    ensures In(f, [1, 1, 2]) == In(f, [2, 1])
    ensures NotIn(f, [1, 1, 2]) == NotIn(f, [2, 1])
    ensures In(f, [1, 2]) != In(f, [1])
  {
    ToSetEqual([1, 1, 2], [2, 1]);
    assert 2 in ToSet([1, 2]);
  }
}
