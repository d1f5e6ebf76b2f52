/**
 * The shape of what the dense engines of scripts/decompose.js return (lines
 * 8-31): a list of step-by-step logs, each a name and a list of matrices, then
 * any number of extra named matrices; or the empty `NO_DECOMP_RESULT`.
 */
module Results {
  import opened Matrices

  /** An extra result matrix: `[name, data]`. */
  datatype Named = Named(name: string, data: Matrix)

  /** A step-by-step log: `[name, [m1, m2, ...]]`. */
  datatype Log = Log(name: string, steps: seq<Matrix>)

  /** A decomposition result, or `NO_DECOMP_RESULT` when there is none. */
  datatype Decomposition = NoDecomposition | Decomposition(steps: seq<Log>, extras: seq<Named>)
}
