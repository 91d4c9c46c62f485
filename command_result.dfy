/**
 * What running a command produces: the feedback of a `CommandResult`, the
 * message of a `CommandException`, an `AssertionError`, or a
 * `NullPointerException` escaping from the model.
 */
module CommandResults {
  datatype CommandOutcome =
    | Executed(feedback: string)
    | CommandFailure(message: string)
    | AssertionFailed(message: string)
    | NullDereference
}
