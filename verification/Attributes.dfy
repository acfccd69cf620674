/** Access permissions and memory attributes of a leaf. */
module Attributes {
  /** Permission bits; the five of them that have a meaning. */
  datatype AccessFlags = AccessFlags(bits: bv64)

  const READ: bv64 := 0x01
  const WRITE: bv64 := 0x02
  const EXECUTE: bv64 := 0x04
  const USER: bv64 := 0x08
  const GLOBAL: bv64 := 0x10
  const ALL_ACCESS: bv64 := 0x1f

  function FromBitsTruncate(bits: bv64): AccessFlags {
    AccessFlags(bits & ALL_ACCESS)
  }

  datatype CachePolicy = Writeback | Uncached | WriteCombine | WriteThrough

  datatype Shareability = NonShareable | Inner | Outer | System

  datatype Coherency = NonCoherent | Coherent

  datatype MemoryAttributes = MemoryAttributes(cache: CachePolicy, shareability: Shareability, coherency: Coherency)

  const DEFAULT_ATTRIBUTES := MemoryAttributes(Writeback, Inner, Coherent)

  /** The flags of a leaf. */
  datatype LeafFlags = LeafFlags(access: AccessFlags, attrs: MemoryAttributes)
}
