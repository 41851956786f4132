/** Value types shared by the graph, the integrator and the verifiers. */
module Contracts {
  datatype Option<+T> = None | Some(value: T)

  datatype Result<+T, +E> = Success(value: T) | Failure(error: E)

  /** A lexical path: its components, with empty and `.` components dropped. */
  type Path = seq<string>

  datatype ExecutionMode = ReadOnly | Patch | Execute | Monitor

  /** An empty `semanticCheck` stands for an absent one. */
  datatype VerificationContract = VerificationContract(
    deterministicChecks: seq<string>,
    evidenceRequirements: seq<string>,
    semanticCheck: string)

  datatype TaskNodeContract = TaskNodeContract(
    requirementRefs: seq<string>,
    writePaths: seq<Path>,
    mode: ExecutionMode,
    verification: VerificationContract,
    maxAttempts: nat,
    worker: Option<string>,
    softCapabilities: map<string, real>)

  datatype GraphEdge = GraphEdge(source: string, target: string, edgeType: string)

  const REQUIRES := "requires"
}
