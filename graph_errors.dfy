/** The failure conditions the graph reports, and the results its operations return. */
module GraphErrors {

  /** One constructor per exception class the graph throws. */
  datatype GraphError =
    | VertexAlreadyExists
    | NoSuchVertex
    | EdgeAlreadyExists
    | NoSuchEdge

  /** The result of an operation that returns nothing when it succeeds. */
  datatype Outcome = Pass | Fail(error: GraphError)

  /** The result of an operation that returns a value when it succeeds. */
  datatype Result<+R> = Success(value: R) | Failure(error: GraphError)

  /** A value that may be missing, as a Java reference that may be null. */
  datatype Option<+R> = None | Some(value: R)
}
