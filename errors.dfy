/** Error taxonomy of the tool (src/error.rs) and the Result type that its
    fallible operations return. The payloads that the source formats from
    foreign error values (git2, octocrab, io, serde, url) are kept as strings. */
module Errors {

  datatype GitFlowError =
    | Git(message: string)
    | Aborted(message: string)
    | BranchNotFound(branch: string)
    | Config(message: string)
    | Environment(message: string)
    | GitHub(message: string)
    | Io(message: string)
    | RemoteNotFound(remote: string)
    | Runtime(message: string)
    | Serialization(message: string)
    | Url(message: string)
    | Unknown(message: string)

  /** `Result<T>` of the source: the value, or the error that `?` propagates. */
  datatype Result<+T> = Ok(value: T) | Err(error: GitFlowError) {
    predicate IsFailure() { Err? }

    function PropagateFailure<U>(): Result<U>
      requires Err?
    {
      Err(error)
    }

    function Extract(): T
      requires Ok?
    {
      value
    }
  }

  datatype Option<+T> = None | Some(value: T)
}
