/** The way an operation of the board model ends. The C# classes signal failure
    by throwing; the object they were changing keeps whatever had already been
    written to it when the exception left. `Thrown` therefore carries that
    partial state next to the reason. */
module Outcomes {

  /** Why an operation threw. */
  datatype Fault =
    | NoMoreValidValues   // a cell's candidate count fell below one
    | NotImplemented      // the base rule was executed

  datatype Outcome<T> = Done(value: T) | Thrown(fault: Fault, state: T)
  {
    /** The state the object is in after the call, whether it returned or threw. */
    function State(): T {
      match this
      case Done(v) => v
      case Thrown(_, s) => s
    }
  }
}
