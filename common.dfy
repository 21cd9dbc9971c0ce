/** Shared result and error types of the graph engine. */
module Common {

  /** A value that may be absent (Python's `None`). */
  datatype Option<+T> = None | Some(value: T)

  /** The engine's error kinds. Each one is raised as an exception by the source. */
  datatype Error =
    | NodeNotFound(node: nat)        // "Node v not found in graph"
    | StartNotFound(node: nat)       // shortest_path: "Start node v not found in graph"
    | EndNotFound(node: nat)         // shortest_path: "End node v not found in graph"
    | NoPathExists(source: nat, target: nat)
    | MissingNames                   // a *_names operation before set_node_names
    | NotAnEndpoint(node: nat)       // Edge.get_other_node on a node the edge does not touch
    | IndexOutOfRange                // Python's IndexError from indexing a list

  /** Either a value or the error the source raises instead. */
  datatype Result<+T> = Ok(value: T) | Err(error: Error)

  /** The right operand of Python's `==`: an object of the same class, or anything else. */
  datatype Operand<+T> = Same(obj: T) | Foreign
}
