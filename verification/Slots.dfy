/** The space of hash slots. */
module Slots {
  const SLOT_COUNT := 16384
}
