/** Limits of the C types and of the memory allocator that several extensions test. */
module CLimits {

  predicate IsInt32(n: int) { -0x8000_0000 <= n < 0x8000_0000 }

  /** MaxAllocSize: the largest request that palloc grants. */
  const MAX_ALLOC_SIZE: nat := 0x3fff_ffff
}
