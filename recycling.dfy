/**
 * The recycling cursor of `CHash`: after a resize, the bytes of the superseded
 * bucket array are handed out, one pointer-aligned `Hash_t` at a time, to the
 * nodes that later insertions create. Addresses are plain integers (byte
 * offsets); 0 is `nullptr`. The target is 64-bit: a pointer and a bucket slot
 * take 8 bytes and a `Hash_t` (key, value, Next) takes 24.
 */
module Recycling {

  /** `sizeof(void*)`, also the alignment of every block. */
  const PointerBytes := 8

  /** `sizeof(Hash_t)`: three pointers. */
  const NodeBytes := 24

  /** One more than the largest `size_t`. */
  const SizeLimit := 0x1_0000_0000_0000_0000

  /** `OldHashTable` (the next free byte, 0 when retired) and `OldHashTableFreeRemaining`. */
  datatype Cursor = Cursor(free: int, remaining: int)

  const Retired := Cursor(0, 0)

  /** Rounds `p` up to the next multiple of the pointer size. */
  function AlignUp(p: int): (r: int)
    ensures r % PointerBytes == 0 && p <= r < p + PointerBytes
  {
    ((p + PointerBytes - 1) / PointerBytes) * PointerBytes
  }

  /**
   * `AllocateFromOldHashTable`: the block handed out is the cursor's position;
   * the cursor moves to the aligned address past one `Hash_t`, the distance
   * moved is taken from the remaining count in `size_t` arithmetic, and when
   * fewer than `sizeof(Hash_t)` bytes are left the cursor is retired.
   */
  function Carve(c: Cursor): (r: (int, Cursor))
    ensures r.0 == c.free
    ensures r.1 == Retired ||
            (r.1.free % PointerBytes == 0 && c.free + NodeBytes <= r.1.free && NodeBytes <= r.1.remaining < SizeLimit)
  {
    var aligned := AlignUp(c.free + NodeBytes);
    var remaining := (c.remaining - (aligned - c.free)) % SizeLimit;
    if remaining >= NodeBytes then (c.free, Cursor(aligned, remaining)) else (c.free, Retired)
  }

  /**
   * The cursor that `IncreaseHashTableSize` sets up over the old bucket array
   * of `slots` pointers at `start`, as written: active whatever its size.
   */
  function OpenWindowAsWritten(start: int, slots: nat): Cursor
  {
    Cursor(start, slots * PointerBytes)
  }

  /**
   * The same cursor, retired at once when the old array cannot hold a single
   * `Hash_t` (a table of one or two buckets), so that no block is ever carved
   * from a window too small for it.
   */
  function OpenWindow(start: int, slots: nat): (c: Cursor)
    ensures c == Retired || (c.free == start && c.remaining == slots * PointerBytes >= NodeBytes)
  {
    if slots * PointerBytes >= NodeBytes then Cursor(start, slots * PointerBytes) else Retired
  }

  /** An active cursor: aligned, not null, and holding room for at least one node. */
  predicate Active(c: Cursor)
  {
    c.free > 0 && c.free % PointerBytes == 0 && NodeBytes <= c.remaining < SizeLimit
  }

  /**
   * Carving from an active cursor hands out a whole `Hash_t` inside the window
   * and leaves as the new window exactly the bytes after that block, or
   * retires the cursor; so blocks carved one after another never overlap and
   * never leave the window.
   */
  lemma CarveStaysInWindow(c: Cursor)
    requires Active(c)
    ensures Carve(c).0 == c.free
    ensures Carve(c).0 + NodeBytes <= c.free + c.remaining
    ensures Carve(c).1 == Retired || Active(Carve(c).1)
    ensures Carve(c).1 != Retired ==>
              Carve(c).1.free == c.free + NodeBytes && Carve(c).1.free + Carve(c).1.remaining == c.free + c.remaining
  {
    assert AlignUp(c.free + NodeBytes) == c.free + NodeBytes;
  }

  /** The window of an array of at least three buckets is active, as is the one it opens. */
  lemma OpenWindowActive(start: int, slots: nat)
    requires start > 0 && start % PointerBytes == 0 && slots * PointerBytes < SizeLimit
    ensures OpenWindow(start, slots) == Retired || Active(OpenWindow(start, slots))
    ensures slots >= 3 <==> OpenWindow(start, slots) != Retired
    ensures slots >= 3 ==> OpenWindow(start, slots) == OpenWindowAsWritten(start, slots)
  {
  }

  /**
   * As written, the window of a two-bucket array (16 bytes) is opened anyway;
   * the first block carved from it is a 24-byte `Hash_t` that runs 8 bytes
   * past the window, and the unsigned subtraction wraps, so the cursor stays
   * active and keeps carving beyond the window.
   */
  lemma TwoSlotWindowOverruns(start: int)
    requires start > 0 && start % PointerBytes == 0
    ensures var (block, after) := Carve(OpenWindowAsWritten(start, 2));
            block + NodeBytes > start + 2 * PointerBytes
            && after == Cursor(start + NodeBytes, SizeLimit - 8)
  {
    assert AlignUp(start + NodeBytes) == start + NodeBytes;
    assert (16 - 24) % SizeLimit == SizeLimit - 8;
  }
}
