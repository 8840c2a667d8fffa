/** Failure-compatible wrappers shared by the codec: Go's `(T, error)` return pairs become a
    `Result`, and Go's nilable pointers become an `Option`. */
module Results {

  /** The errors the decoders can report. */
  datatype CodecError =
    | EmptyRepoSpec                          // ParseRepoSpec on an empty token
    | InvalidSyntax(num: seq<char>)          // strconv.Atoi rejected the text after "R$"
    | EmptyRevWithCommitID(commitID: seq<char>) // a commit ID decoded without a revision
    | CorruptBase64                          // base64url decoding of a cross-repository token failed

  datatype Result<+T> = Ok(value: T) | Err(error: CodecError) {

    predicate IsFailure() {
      Err?
    }

    function PropagateFailure<U>(): Result<U>
      requires Err?
    {
      Err(error)
    }

    function Extract(): T
      requires Ok?
    {
      value
    }
  }

  datatype Option<+T> = None | Some(value: T)
}
