/** Error values and the failure-carrying wrappers used throughout the model.
    Go functions return `(value, error)`; here they return `Result<T>` or, when
    they return only an `error`, an `Option<Error>` (None standing for nil). */
module Errors {

  datatype Option<+T> = None | Some(value: T)

  datatype Result<+T> = Success(value: T) | Failure(error: Error)

  /** The errors the store and the commands can return.  Collaborators that the
      model leaves abstract (the codecs, MarshalBinary, date parsing) produce
      their own errors, which are passed on unchanged. */
  datatype Error =
    | EntryExists(entry: string)            // os.OpenFile with O_CREATE|O_EXCL on an existing entry
    | NoSuchEntry(entry: string)            // os.ReadFile or os.Remove of a missing entry
    | IsADirectory(entry: string)           // os.ReadFile of a sub-directory
    | MarkNotFound(name: string)            // "mark '%s' does not exist"
    | SpanExists(name: string)              // "span '%s' already exists"
    | SpanNotFound(name: string)            // "span '%s' does not exist"
    | TooManySpans(count: nat, name: string) // "too many (%d) spans with name '%s'"
    | IndexOutOfRange                       // the run-time panic of indexing an empty result
    | NotEnoughArguments(message: string)   // errors.New("not enough arguments ...")
    | External(detail: string)              // an error made by an abstract collaborator

  /** The error `start` and `end` return when the name is missing. */
  const NotEnoughArgs: Error := NotEnoughArguments("not enough arguments")
}
