/** How both heaps round a request up, in machine words. */
module Rounding {

  const WORD: int := 0x1_0000_0000  // rt_size_t is 32 bits wide
  const ALIGN: int := 4             // RT_ALIGN_SIZE
  const LEAST: int := 12            // RT_MEMHEAP_MINIALLOC of memheap.c, MIN_SIZE_ALIGNED of mem.c

  /** RT_ALIGN on a machine word. */
  function Align(n: int): int {
    (n + ALIGN - 1) % WORD / ALIGN * ALIGN
  }

  /** The payload length an allocation of `size` bytes asks for. */
  function Request(size: int): int {
    if Align(size) < LEAST then LEAST else Align(size)
  }

  lemma AlignNonNegative(size: int)
    ensures Align(size) >= 0 && Align(size) % ALIGN == 0
  {
  }

  lemma AlignTwice(size: int)
    ensures Align(Align(size)) == Align(size)
  {
    var q := (size + ALIGN - 1) % WORD / ALIGN;
    assert 0 <= ALIGN * q <= WORD - ALIGN;
    assert (ALIGN * q + ALIGN - 1) % WORD == ALIGN * q + ALIGN - 1;
  }

  /** The rounding serves a request in full exactly up to 2^32 - 4 bytes; beyond, it wraps to nothing. */
  lemma RequestRange(size: int)
    requires 0 <= size < WORD
    ensures LEAST <= Request(size) < WORD && Request(size) % ALIGN == 0
    ensures Request(size) >= size <==> size <= WORD - ALIGN
    ensures size > WORD - ALIGN ==> Align(size) == 0
  {
    if size <= WORD - ALIGN {
      assert (size + ALIGN - 1) % WORD == size + ALIGN - 1;
    } else {
      assert (size + ALIGN - 1) % WORD == size + ALIGN - 1 - WORD;
    }
  }

  lemma RequestAligned(size: int)
    ensures Request(size) % ALIGN == 0
  {
  }

  lemma RequestTwice(size: int)
    requires 0 <= size < WORD
    ensures Request(Request(size)) == Request(size)
  {
    RequestRange(size);
    RequestRange(Request(size));
    assert (Request(size) + ALIGN - 1) % WORD == Request(size) + ALIGN - 1;
  }
}
