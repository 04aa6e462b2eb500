/** Shared wrappers and the failure kinds of the solver.

    The solver raises plain Python exceptions; each constructor of `Error`
    names the statement that raises it in solver/greedy_2opt.py. */
module Basics {

  datatype Option<T> = None | Some(value: T)

  datatype Result<T> = Ok(value: T) | Err(error: Error)

  datatype Error =
    | StartOutOfRange        // ValueError, start outside [0, N)
    | EndOutOfRange          // ValueError, end outside [0, N)
    | RowTooShort(row: nat)  // ValueError, row `row` has fewer than `row` entries
    | RaggedMatrix           // IndexError: rows of unequal length form no two-dimensional array to index
    | NoOpenEnd              // StopIteration: no node with exactly one neighbour
    | DeadEnd(at: nat)       // StopIteration: no neighbour of `at` other than the previous node
    | LoopEndCount(count: nat) // unpacking `count` degree-one nodes into two names
    | NoPassRun              // the progress bar is unbound when zero passes ran
    | MissingNeighbour(node: nat, neighbour: nat) // KeyError from removing an absent neighbour
}
