/** The values a field hands out: predicates (filter conditions) and comparators
    (ordering rules), each referring back to the field that built it. */
module FieldExpressions {
  import opened JavaNumbers

  /** An entity class, identified by name: what a field's `table()` returns. */
  type ClassName = string

  /** Where entities whose field is `null` sort. */
  datatype NullOrder = First | Last

  /** Which ends of a `between` range belong to it. */
  datatype Inclusion =
    | StartInclusiveEndInclusive
    | StartInclusiveEndExclusive
    | StartExclusiveEndInclusive
    | StartExclusiveEndExclusive

  /** The ten predicate kinds. The negated kinds are kinds of their own, not a flag. */
  datatype PredicateType =
    | Equal | NotEqual
    | GreaterThan | GreaterOrEqual | LessThan | LessOrEqual
    | Between | NotBetween
    | In | NotIn

  /** What a predicate compares the field with. */
  datatype Operands<V> =
    | One(value: V)
    | Range(start: V, end: V, inclusion: Inclusion)
    | Many(values: set<V>)

  /** A predicate on field `field` of kind `predicateType`. */
  datatype FieldPredicate<F, V> = FieldPredicate(predicateType: PredicateType, field: F, operands: Operands<V>)

  /** The operands have the shape the kind calls for. */
  predicate WellShaped<F, V>(p: FieldPredicate<F, V>) {
    match p.predicateType
    case Between | NotBetween => p.operands.Range?
    case In | NotIn => p.operands.Many?
    case _ => p.operands.One?
  }

  /** The set `collectionToSet` builds from the elements of a collection. */
  function ToSet<V>(values: seq<V>): (r: set<V>)
    ensures forall i :: 0 <= i < |values| ==> values[i] in r
    ensures forall x | x in r :: x in values
  {
    set x | x in values
  }

  /** Two collections normalise to the same set exactly when every element of each occurs in the other. */
  lemma ToSetEqual<V>(xs: seq<V>, ys: seq<V>)
    ensures ToSet(xs) == ToSet(ys) <==>
              (forall i :: 0 <= i < |xs| ==> xs[i] in ys) && (forall j :: 0 <= j < |ys| ==> ys[j] in xs)
  {
    if (forall i :: 0 <= i < |xs| ==> xs[i] in ys) && (forall j :: 0 <= j < |ys| ==> ys[j] in xs) {
      forall x | x in ToSet(xs) ensures x in ToSet(ys) {
        var i :| 0 <= i < |xs| && xs[i] == x;
      }
      forall y | y in ToSet(ys) ensures y in ToSet(xs) {
        var j :| 0 <= j < |ys| && ys[j] == y;
      }
    }
  }

  /** An ordering on field `field`, ascending unless `reversed`. */
  datatype FieldComparator<F> = FieldComparator(field: F, reversed: bool, nullOrder: NullOrder)

  /** `reversed()` on a field comparator: the opposite direction on the same field. */
  function Reversed<F>(c: FieldComparator<F>): (r: FieldComparator<F>)
    ensures r.field == c.field && r.nullOrder == c.nullOrder
    ensures r.reversed != c.reversed
  {
    c.(reversed := !c.reversed)
  }

  /** Reversing twice restores the comparator. */
  lemma ReversedTwice<F>(c: FieldComparator<F>)
    ensures Reversed(Reversed(c)) == c
  {
  }

  /** The three-way comparison of two field values in the direction of a comparator. */
  function Directed(x: int, y: int, reversed: bool): (r: int)
    ensures r < 0 <==> (if reversed then y < x else x < y)
    ensures r == 0 <==> x == y
  {
    if reversed then Compare(y, x) else Compare(x, y)
  }
}
