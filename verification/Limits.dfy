/** Word size and pool size, shared by the models. */
module Limits {
  const U64: nat := 0x1_0000_0000_0000_0000

  const SLOT_CHUNK: nat := 16
  const MAX_SLOT_CHUNKS: nat := 64
  const MAX_SLOTS: nat := SLOT_CHUNK * MAX_SLOT_CHUNKS
}
