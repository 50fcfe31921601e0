/** Values shared by every part of the IOS cliconf model: optional values,
    results, and the exceptions the plugin raises. */
module Common {

  datatype Option<+T> = None | Some(value: T)

  /** A Python value that may be None or empty; truthy when present and non-empty. */
  predicate Truthy(o: Option<string>) {
    o.Some? && o.value != ""
  }

  /** The exceptions the plugin raises, one constructor per raise site. */
  datatype Error =
    | CandidateRequired                 // get_diff: candidate is None
    | InvalidMatch(diffMatch: string)   // get_diff: diff_match not a known mode
    | InvalidReplace(diffReplace: string)
    | BlockNotFound(path: seq<string>)  // NetworkConfig.get_block on the candidate section
    | UnsupportedSource(source: string) // get_config
    | UnsupportedFormat(format: string) // get_config
    | FileNameRequired                  // restore
    | CommandTimeoutTooLarge            // configure: command timeout beyond the revert window
    | ArchiveNotEnabled                 // configure: archiving is off on the device
    | RollbackPending                   // configure: a confirmed change is already pending
    | CheckModeUnsupported              // edit_config with commit false
    | EmptyCommand                      // edit_config: indexing the first character of ""
    | PopFromEmptyList                  // edit_macro: fewer than two candidate lines
    | CommandsRequired                  // run_commands: commands is None
    | OutputUnsupported(output: string) // run_commands: an 'output' option was given
    | Transport(err: string)            // a connection failure raised by the channel

  datatype Result<+T> = Success(value: T) | Failure(error: Error) {
    predicate IsFailure() { Failure? }

    function PropagateFailure<U>(): Result<U>
      requires Failure?
    {
      Failure(error)
    }

    function Extract(): T
      requires Success?
    {
      value
    }
  }
}
