/** The two ways a call of the planner ends: with a value, or with an exception. */
module Outcomes {
  datatype Outcome<+T> = Done(value: T) | Thrown
}
