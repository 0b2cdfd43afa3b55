/**
 * Three places where malloclab-handout/mm.c, as written, does something its
 * authors evidently did not mean.  Each as-written definition is set beside
 * the one the rest of the model uses, with the input that tells them apart.
 */
module MmFindings {
  import opened MmLayout
  import opened MmRealloc

  /** The values of a 64-bit size_t and of a 32-bit int. */
  const SIZE_T_RANGE: nat := 0x1_0000_0000_0000_0000
  const INT_RANGE: nat := 0x1_0000_0000

  /**
   * mm_malloc's `int newsize = ALIGN(size + SIZE_T_SIZE * 3)`: the sum and
   * the rounding are done in size_t, then the conversion to int keeps the
   * low 32 bits as a two's-complement value.
   */
  function NewsizeAsWritten(size: nat): int
    requires size < SIZE_T_RANGE
  {
    var sum := (size + 24) % SIZE_T_RANGE;
    var rounded := (sum + 7) % SIZE_T_RANGE;
    var aligned := rounded - rounded % 8;
    var low := aligned % INT_RANGE;
    if low < INT_RANGE / 2 then low else low - INT_RANGE
  }

  /**
   * A request of 4 GiB gets a block of 24 bytes, no payload at all, and a
   * request just under 2 GiB gets a negative size, from which get_root_ind
   * computes a negative bucket.
   */
  lemma NewsizeTruncates()
    ensures NewsizeAsWritten(INT_RANGE) == 24 < Align(INT_RANGE + 24)
    ensures NewsizeAsWritten(INT_RANGE / 2 - 16) < 0
  {
  }

  /** Below 2 GiB the int holds the size: as written and the model agree. */
  lemma NewsizeAgrees(size: nat)
    requires size + 31 < INT_RANGE / 2
    ensures NewsizeAsWritten(size) == Align(size + 24)
  {
  }

  /**
   * mm_realloc's calls as written: the zero-size test frees `ptr` and falls
   * through to the rest of the function instead of returning.
   */
  function ReallocCallsAsWritten(ptr: int, size: nat, got: int): seq<Call>
  {
    (if size == 0 then [FreeCall(ptr)] else []) +
    (if ptr == NIL then [MallocCall(size)]
     else [MallocCall(size)] + (if got == NIL then [] else [FreeCall(ptr)]))
  }

  /**
   * realloc(p, 0) frees p twice once mm_malloc(0) succeeds, and
   * realloc(NULL, 0) passes NULL to mm_free, whose assert rejects it.
   */
  lemma ReallocZeroFreesTwice(ptr: int, got: int)
    requires ptr != NIL && got != NIL
    ensures FreesOf(ReallocCallsAsWritten(ptr, 0, got), ptr) == 2
    ensures FreesOf(ReallocCallsAsWritten(NIL, 0, got), NIL) == 1
  {
    var c := ReallocCallsAsWritten(ptr, 0, got);
    assert c == [FreeCall(ptr), MallocCall(0), FreeCall(ptr)];
    assert c[..2][..1] == [FreeCall(ptr)];
    assert c[..2] == [FreeCall(ptr), MallocCall(0)];
    var c' := ReallocCallsAsWritten(NIL, 0, got);
    assert c' == [FreeCall(NIL), MallocCall(0)];
    assert c'[..1] == [FreeCall(NIL)];
  }

  /** For a non-zero size the two orders of the tests make the same calls. */
  lemma ReallocCallsAgree(ptr: int, size: nat, got: int)
    requires size > 0
    ensures ReallocCallsAsWritten(ptr, size, got) == ReallocCalls(ptr, size, got)
  {
    assert ReallocCallsAsWritten(ptr, size, got) == [] + ReallocCalls(ptr, size, got);
  }

  /**
   * mm_realloc's copy length as written: the header of the old block, which
   * counts its 24 bytes of link, header and footer, capped by the request.
   */
  function CopySizeAsWritten(h: nat, size: nat): nat
  {
    if size < h then size else h
  }

  /**
   * The as-written copy reads past the old payload exactly when the request
   * is larger than that payload, as in h = 32 (8 payload bytes), size = 100.
   */
  lemma CopyOverreads(h: nat, size: nat)
    requires 24 <= h
    ensures CopySizeAsWritten(h, size) > h - 24 <==> size > h - 24
    ensures CopySizeAsWritten(h, size) > CopySize(h, size) <==> size > h - 24
  {
  }

  lemma CopyOverreadsExample()
    ensures CopySizeAsWritten(32, 100) == 32 && CopySize(32, 100) == 8
  {
  }
}
