/** What several modules share: the word size and the allocator's page size, a value that may be
    missing, and lists without repetition. */
module Basics {

  const WORD := 0x1_0000_0000_0000_0000  // 2^64
  const PAGE_SIZE := 0x2000

  datatype Option<+T> = None | Some(value: T)

  ghost predicate NoDup<T>(list: seq<T>) {
    forall i, j | 0 <= i < j < |list| :: list[i] != list[j]
  }
}
