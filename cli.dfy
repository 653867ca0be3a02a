/** The command-line spelling of the detection strategies (src/cli.rs) and
    its conversion into the internal `BranchRelationStrategy`. */
module Cli {
  import opened Strategy

  datatype BranchDetectionStrategy = History | Time | Default | Manual

  /** `impl From<BranchDetectionStrategy> for BranchRelationStrategy`. */
  function ToRelationStrategy(s: BranchDetectionStrategy): BranchRelationStrategy {
    match s
    case History => CommitHistory
    case Time => CreationTime
    case Default => DefaultRoot
    case Manual => BranchRelationStrategy.Manual
  }

  /** The command-line name of an internal strategy: the inverse conversion. */
  function ToDetectionStrategy(r: BranchRelationStrategy): BranchDetectionStrategy {
    match r
    case CommitHistory => History
    case CreationTime => Time
    case DefaultRoot => Default
    case Manual => BranchDetectionStrategy.Manual
  }

  /** Every internal strategy is reachable from exactly one command-line value. */
  lemma ConversionIsBijection()
    ensures forall s :: ToDetectionStrategy(ToRelationStrategy(s)) == s
    ensures forall r :: ToRelationStrategy(ToDetectionStrategy(r)) == r
    ensures forall s1, s2 :: ToRelationStrategy(s1) == ToRelationStrategy(s2) ==> s1 == s2
  {
  }
}
