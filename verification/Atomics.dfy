/** The 64-bit atomic counters used throughout: additions and subtractions wrap. */
module Atomics {
  const WORD: nat := 0x1_0000_0000_0000_0000

  function FetchAdd(x: nat): nat {
    if x + 1 < WORD then x + 1 else 0
  }

  function FetchSub(x: nat): nat {
    if x == 0 then WORD - 1 else x - 1
  }
}
