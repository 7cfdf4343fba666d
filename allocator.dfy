/**
 * The backing allocator a `CHash` is built on (`CAllocator`). Its source is not
 * part of this model; what the table relies on is that every block it asks
 * for is new, pointer-aligned, zero-filled and never freed, and that the
 * request never fails. An arena that only bumps a high-water mark gives
 * exactly that: every block lies above every block handed out before it.
 */
module Allocator {

  class Arena {
    /** The first byte no block has been handed out from. */
    var top: int

    ghost predicate Valid()
      reads this
    {
      top > 0
    }

    constructor (base: int)
      requires base > 0
      ensures Valid() && top == base
    {
      top := base;
    }

    /** `AllocateBytes(size, sizeof(void*))`: a fresh, 8-byte aligned block of `size` bytes. */
    method AllocateBytes(size: nat) returns (p: int)
      requires Valid()
      modifies this
      ensures Valid()
      ensures p % 8 == 0 && old(top) <= p && top == p + size
    {
      p := ((top + 7) / 8) * 8;
      top := p + size;
    }
  }
}
