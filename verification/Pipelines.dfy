/** The pipeline a query stream records, and the standard terminal-operation
    optimizer that may rewrite it before execution. */
module Pipelines {
  import opened Results

  /** The intermediate operations a pipeline can record, by kind. */
  datatype IntermediateOperation =
    | Filter | Map | FlatMap | Sorted | Distinct | Limit | Skip | Peek | TakeWhile | DropWhile

  /** The terminal operations a pipeline can end with, by kind. */
  datatype TerminalOperation =
    | Collect | Reduce | Count | ForEach | ForEachOrdered | FindFirst | FindAny
    | AnyMatch | AllMatch | NoneMatch | ToArray | Statistics

  /** The intermediate operations in the order they were appended, and the terminal operation once there is one. */
  datatype Pipeline = Pipeline(intermediateOperations: seq<IntermediateOperation>, terminalOperation: Option<TerminalOperation>)

  /** `optimize(pipeline)`: a `null` pipeline is rejected; any other is returned as it came. */
  function Optimize(pipeline: Option<Pipeline>): (r: Result<Pipeline>)
    ensures r.Failure? <==> pipeline.None?
    ensures r.Failure? ==> r.error == NullPointer
    ensures r.Success? ==> r.value == pipeline.value
  {
    match pipeline
    case None => Failure(NullPointer)
    case Some(p) => Success(p)
  }

  /** Optimizing an optimized pipeline changes nothing more. */
  lemma OptimizeIdempotent(p: Pipeline)
    ensures Optimize(Some(p)).Success?
    ensures Optimize(Some(Optimize(Some(p)).value)) == Optimize(Some(p))
  {
  }

  /** Every intermediate operation stays at its position and the terminal operation is kept. */
  lemma OptimizeKeepsOperations(p: Pipeline)
    ensures Optimize(Some(p)).Success?
    ensures var q := Optimize(Some(p)).value;
            && |q.intermediateOperations| == |p.intermediateOperations|
            && (forall i :: 0 <= i < |p.intermediateOperations| ==> q.intermediateOperations[i] == p.intermediateOperations[i])
            && q.terminalOperation == p.terminalOperation
  {
  }
}
