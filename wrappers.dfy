/** Optional values, results and the failures the object store reports.

    The C++ code signals most failures with exceptions (std::runtime_error,
    the out_of_range and invalid_argument errors of std::stol) and a few with
    std::optional or tl::expected; the model turns every one of them into an
    `Err` carrying one of the `Error` values below. */
module Wrappers {

  datatype Option<+T> = None | Some(value: T)

  datatype Error =
    | InvalidId              // fromId: the text is not 40 characters long
    | CorruptRepository      // readAsTree / readAsCommit on the wrong variant
    | NoCommitMessage        // readAsCommit: no blank line in the body
    | InvalidUser            // UserWithTime::from_string: "> " or a space missing
    | InvalidNumber          // std::stol: no digits
    | NumberOutOfRange       // std::stol: the value does not fit a long
    | Truncated              // a reader ran out of bytes
    | IndexCorrupted         // Index::load: trailing digest does not match
    | InvalidMagic           // Index::load: not a "DIRC" file
    | UnexpectedVersion(version: nat)
    | ReadFailed(item: nat)  // Index::load: entry number `item` could not be read
    | InvalidParentCommit    // Index::toTree: parent commit not in the store
    | MissingBackingFile     // Index::toTree: tree entry points at a missing object
    | BrokenRepository       // GitCAM::add: something other than a file at the shard path
    | FilesystemError        // std::filesystem::create_directories failed
    | NotFound               // GitCAM::get: the size lookup failed
    | InvalidObjectId        // WritePack: an id the database does not have
    | StatFailed             // Index::add: stat() failed on the path

  datatype Result<+T> = Ok(value: T) | Err(error: Error) {

    predicate IsFailure() {
      Err?
    }

    function PropagateFailure<U>(): Result<U>
      requires Err?
    {
      Err(error)
    }

    function Extract(): T
      requires Ok?
    {
      value
    }
  }
}
