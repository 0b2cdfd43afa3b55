/**
 * What mm_realloc of malloclab-handout/mm.c does besides allocating and
 * freeing: how many bytes it carries over, and which of mm_malloc and
 * mm_free it calls in which order.
 */
module MmRealloc {
  import opened MmLayout

  /**
   * The bytes carried over from an old block of total size `h` to a new
   * request of `size` bytes: the smaller of the request and the old payload,
   * which is `h` less the 24 bytes of link, header and footer.
   */
  function CopySize(h: nat, size: nat): (r: nat)
    requires 24 <= h
    ensures r <= size && r <= h - 24
    ensures r == size || r == h - 24
  {
    if size < h - 24 then size else h - 24
  }

  /** The copy of CopySize(h, size) bytes done a whole word at a time. */
  function CopyCount(h: nat, size: nat): nat
    requires 24 <= h
  {
    Align(CopySize(h, size)) / ALIGNMENT
  }

  /** Rounding up to the alignment never passes an aligned bound. */
  lemma AlignBelow(x: nat, y: nat)
    requires x <= y && y % 8 == 0
    ensures Align(x) <= y
  {
    var a := Align(x);
    assert a == 8 * (a / 8) && y == 8 * (y / 8);
  }

  /** The words copied cover the bytes carried over and stay inside the old payload. */
  lemma CopyWithin(h: nat, size: nat)
    requires 24 <= h && h % 8 == 0
    ensures CopySize(h, size) <= 8 * CopyCount(h, size) <= h - 24
  {
    AlignBelow(CopySize(h, size), h - 24);
  }

  /** The words copied also stay inside the payload of any block of at least `size + 24` bytes. */
  lemma CopyFits(h: nat, size: nat, s: nat)
    requires 24 <= h && h % 8 == 0 && s % 8 == 0 && size + 24 <= s
    ensures 8 * CopyCount(h, size) <= h - 24
    ensures 8 * CopyCount(h, size) <= s - 24
  {
    CopyWithin(h, size);
    AlignBelow(CopySize(h, size), s - 24);
  }

  /** The first `n` words at byte address `dst` in `m'` are those at `src` in `m`. */
  ghost predicate Moved(m: seq<int>, m': seq<int>, src: int, dst: int, n: nat)
  {
    0 <= src / 8 && src / 8 + n <= |m| && 0 <= dst / 8 && dst / 8 + n <= |m'| &&
    forall w :: src / 8 <= w < src / 8 + n ==> m'[w - src / 8 + dst / 8] == m[w]
  }

  /** One call mm_realloc makes into the allocator. */
  datatype Call = MallocCall(size: nat) | FreeCall(ptr: int)

  /**
   * The calls of mm_realloc, where `got` is what its mm_malloc returns: a
   * NULL pointer is a plain allocation, a zero size a plain release, and
   * otherwise the old block is released once the new one is had.
   */
  function ReallocCalls(ptr: int, size: nat, got: int): seq<Call>
  {
    if ptr == NIL then [MallocCall(size)]
    else if size == 0 then [FreeCall(ptr)]
    else [MallocCall(size)] + (if got == NIL then [] else [FreeCall(ptr)])
  }

  /** How often `calls` releases `p`. */
  function FreesOf(calls: seq<Call>, p: int): (n: nat)
    ensures n <= |calls|
    ensures n == 0 <==> FreeCall(p) !in calls
  {
    if |calls| == 0 then 0
    else FreesOf(calls[..|calls| - 1], p) + (if calls[|calls| - 1] == FreeCall(p) then 1 else 0)
  }

  /** mm_realloc never releases a pointer twice and never releases NULL. */
  lemma ReallocFreesOnce(ptr: int, size: nat, got: int, p: int)
    ensures FreesOf(ReallocCalls(ptr, size, got), p) <= 1
    ensures FreesOf(ReallocCalls(ptr, size, got), NIL) == 0
    ensures FreesOf(ReallocCalls(ptr, size, got), p) == 1 <==>
              p == ptr && ptr != NIL && (size == 0 || got != NIL)
  {
    var calls := ReallocCalls(ptr, size, got);
    if ptr != NIL && size > 0 && got != NIL {
      assert calls[..1] == [MallocCall(size)];
    }
  }
}
