/** How an operation of the game can fail. */
module Failures {
  /** `Illegal`: the rules forbid the action (an `IllegalActionException`).
      `Fault`: a runtime error the program does not expect to happen, such as
      an `IllegalArgumentException`, a failed cast or a missing map entry. */
  datatype Failure = Illegal | Fault
}
