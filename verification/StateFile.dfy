/**
 One persistent JSON file, as the three stores see it.

 A write replaces the whole file atomically or fails. A write can also report a
 failure after the new content is already in place, because the directory is
 synchronised after the rename.
 */
module StateFile {

  datatype Outcome = Written | Failed | FailedAfterReplace

  class File<T> {
    var content: T

    constructor (initial: T)
      ensures content == initial
    {
      content := initial;
    }

    method Write(value: T) returns (outcome: Outcome)
      modifies this
      ensures content == if outcome.Failed? then old(content) else value
    {
      outcome := *;
      if outcome != Failed {
        content := value;
      }
    }
  }
}
