/** `BranchRelationStrategy` of src/git/branch.rs: the switch that decides
    which algorithm builds the branch hierarchy. */
module Strategy {

  datatype BranchRelationStrategy =
    | CommitHistory  // ancestry between branch tips
    | CreationTime   // tip timestamps, nearest related older branch
    | DefaultRoot    // the default branch is parent of every other branch
    | Manual         // the relationships stored in the configuration

  /** `impl Default for BranchRelationStrategy`. */
  function DefaultStrategy(): BranchRelationStrategy {
    CommitHistory
  }
}
