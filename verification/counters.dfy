/** The two counters the run reports, shared by the fetch and parse phases. */
module Counters {

  /** Captures retrieved (or parsed, in the second phase) and errors. */
  datatype Tally = Tally(count: nat, errors: nat) {
    function Retrieved(): Tally { Tally(count + 1, errors) }
    function Error(): Tally { Tally(count, errors + 1) }
  }
}
