// The firmware's memory map, as both page allocators read it.
module MemoryMap {
  import opened Prelude

  const ONE_MIB: nat := 0x10_0000
  const USABLE: nat := 1

  type U64 = x: int | 0 <= x < 0x1_0000_0000_0000_0000

  datatype Entry = Entry(addr: U64, len: U64, kind: nat)
  datatype Range = Range(start: nat, end: nat)

  // Byte x is usable memory of the entry, above 1 MiB and below the last 32-bit byte. An entry
  // that ends at `limit` or above is passed over.
  ghost predicate UsableByte(e: Entry, x: nat, limit: nat) {
    e.kind == 1 && e.addr <= x < e.addr + e.len < limit && 0x10_0000 <= x < 0xFFFF_FFFF
  }

  // A page with a byte in [start, end).
  predicate Touches(a: nat, start: nat, end: nat) {
    start < end && a < end && start < a + PAGE_SIZE
  }
}
