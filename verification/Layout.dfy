/** What several parts share: 32-bit words and bytes, the memory map of kernel/src/mm/paging.h, and the bounds check that
    both breaks make. */
module Layout {

  const WORD: int := 0x1_0000_0000
  const INT32: int := 0x8000_0000

  const PAGE_SIZE: int := 4096
  const KSTACK_BEGIN: int := 0x0FC0_0000
  const UMEM_BEGIN: int := 0x1000_0000
  const USTACK_BEGIN: int := 0xFFC0_0000
  const USTACK_END: int := 0xFFFF_FFF0

  type byte = x: int | 0 <= x < 256

  datatype Option<T> = None | Some(value: T)

  /** x does not occur in s: for C strings, x is the NUL. */
  predicate Lacks<T(==)>(s: seq<T>, x: T) { forall k :: 0 <= k < |s| ==> s[k] != x }

  // ---------------------------------------------------------------- lowering a break

  /** `ksbrk` and `uvm_sbrk` accept a negative increment: addresses are compared after 32-bit addition. */
  predicate ShrinkAccepted(begin: int, end: int, incr: int) { (end + incr) % WORD >= begin }

  function ShrunkEnd(end: int, incr: int): int { end - -incr / PAGE_SIZE * PAGE_SIZE }

  /** An accepted increment leaves the end above the beginning exactly when the sum does not go below address 0; and
      that is also exactly when the test tells whether the bytes are there. */
  lemma ShrinkCheckRight(begin: int, end: int, incr: int)
    requires 0 < begin <= end <= USTACK_BEGIN && begin % PAGE_SIZE == 0 && end % PAGE_SIZE == 0 && -INT32 <= incr < 0
    ensures ShrinkAccepted(begin, end, incr) ==> (begin <= ShrunkEnd(end, incr) <==> end + incr >= 0)
    ensures (ShrinkAccepted(begin, end, incr) <==> begin <= end + incr) <==> end + incr >= 0
  {
    assert end / PAGE_SIZE * PAGE_SIZE == end;
    assert end + incr < 0 ==> -incr / PAGE_SIZE >= end / PAGE_SIZE;
  }

  /** The sum can go below address 0: an empty user heap lets 512 MiB be given back, a kernel heap of 16 pages lets
      16 MiB. */
  lemma ShrinkCheckWraps()
    ensures ShrinkAccepted(0x1040_0000, 0x1040_0000, -0x2000_0000) && ShrunkEnd(0x1040_0000, -0x2000_0000) < 0x1040_0000
    ensures ShrinkAccepted(0x80_0000, 0x81_0000, -0x100_0000) && ShrunkEnd(0x81_0000, -0x100_0000) < 0x80_0000
  {
  }
}
