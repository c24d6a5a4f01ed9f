// The free-running 32-bit clock, in steps of 100 ns.
module Timebase {
  import opened Words

  /** The time since `since`, on a clock that wraps, is at least `timeout`. */
  predicate HasExpired(now: u32, since: u32, timeout: u32) { (now - since) % 0x1_0000_0000 >= timeout }
}
