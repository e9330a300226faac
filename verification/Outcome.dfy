/** A failed `assert`, a `panic` and a `halt` all stop the kernel.  A member that may stop returns an
`Outcome`; `Stopped` says that the original does not return from that call. */
module Outcomes {
  datatype Outcome<+T> = Done(value: T) | Stopped
}
