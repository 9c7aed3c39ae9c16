/** Timers, as the time each is due. */
module Timers {
  import opened Bytes

  /** On an ideal clock an armed timer is never overdue. */
  predicate Due(timer: Option<nat>, now: nat) {
    timer.Some? ==> now <= timer.value
  }
}
