/**
 * Block format, size classes and the shape of the heap managed by the
 * segregated-fit allocator of malloclab-handout/mm.c.
 *
 * Heap addresses are byte offsets from the low end of the heap; every block
 * address is a multiple of 8, and the heap word holding byte offset `a` is
 * `m[a / 8]`.  A block starting at `b` with total size `h` is laid out as
 *
 *   b          link word (next free block, used only while the block is free)
 *   b + 8      header: the plain size h (the allocated flag is never stored here)
 *   b + 16     payload, the address handed to the caller
 *   b + h - 8  footer: h while the block is free, anything odd while allocated
 */
module MmLayout {

  const ALIGNMENT: nat := 8
  const SIZE_T_SIZE: nat := 8
  /** The bound memlib puts on the heap (20 MiB in the lab's configuration). */
  const MAX_HEAP: nat := 20 * 1024 * 1024
  const MAX_WORDS: nat := MAX_HEAP / ALIGNMENT
  const THRESHOLD: nat := 1024
  const SEPARATE_GAP: nat := 1024 * 16
  const LIST_SIZE: nat := MAX_HEAP / ALIGNMENT / SEPARATE_GAP + THRESHOLD
  /** Smallest remainder that mm_malloc splits off as a free block. */
  const MIN_SPLIT: nat := 32
  /** The NULL pointer.  Offset 0 is the first block, so NULL needs its own value. */
  const NIL: int := -1
  /** One heap word after mm_init's byte-wise 0xff fill. */
  const FILL: int := 0xFFFF_FFFF_FFFF_FFFF

  /** ALIGN(n): `(n + 7) & ~0x7`, i.e. n + 7 with its three low bits cleared. */
  function Align(n: nat): (r: nat)
    ensures r % ALIGNMENT == 0 && n <= r < n + ALIGNMENT
  {
    (n + 7) - (n + 7) % 8
  }

  /** get_root_ind: the bucket of a block of `size` words. */
  function RootIndex(size: nat): nat
  {
    if size < THRESHOLD then size else THRESHOLD + (size - THRESHOLD) / SEPARATE_GAP
  }

  /** `*p | 1`: sets the low bit of a word. */
  function SetLowBit(v: int): (r: int)
    ensures r % 2 == 1
    ensures v % 2 == 1 ==> r == v
  {
    if v % 2 == 0 then v + 1 else v
  }

  lemma RootIndexMonotone(s1: nat, s2: nat)
    requires s1 <= s2
    ensures RootIndex(s1) <= RootIndex(s2)
  {
  }

  /** Small sizes have a bucket of their own. */
  lemma RootIndexExact(s: nat)
    requires s < THRESHOLD
    ensures RootIndex(s) == s
    ensures forall t: nat :: RootIndex(t) == RootIndex(s) ==> t == s
  {
  }

  /** Large sizes share a bucket exactly when they lie in the same band of SEPARATE_GAP words. */
  lemma RootIndexBand(s: nat, band: nat)
    ensures RootIndex(s) == THRESHOLD + band <==>
              THRESHOLD + band * SEPARATE_GAP <= s < THRESHOLD + (band + 1) * SEPARATE_GAP
  {
    if s >= THRESHOLD {
      var q := (s - THRESHOLD) / SEPARATE_GAP;
      assert THRESHOLD + q * SEPARATE_GAP <= s < THRESHOLD + (q + 1) * SEPARATE_GAP;
      if q < band {
        assert (q + 1) * SEPARATE_GAP <= band * SEPARATE_GAP;
      } else if q > band {
        assert (band + 1) * SEPARATE_GAP <= q * SEPARATE_GAP;
      }
    }
  }

  /** The table has a bucket for every block that fits in the heap. */
  lemma RootIndexInRange(bytes: nat)
    requires bytes <= MAX_HEAP
    ensures RootIndex(bytes / ALIGNMENT) < LIST_SIZE
  {
  }

  // ---------------------------------------------------------------------------
  // Blocks and the tiling of [0, brk)
  // ---------------------------------------------------------------------------

  datatype Blk = Blk(start: nat, size: nat, free: bool)
  {
    function End(): nat { start + size }
  }

  /** Shape of one block: aligned, at least the 24 bytes of overhead, below the break. */
  predicate WellSized(b: Blk, brk: nat)
  {
    b.start % 8 == 0 && b.size % 8 == 0 && b.size >= 24 && b.End() <= brk
  }

  /** The blocks, in address order, cover [0, brk) without gap or overlap. */
  ghost predicate Tiled(blocks: seq<Blk>, brk: nat)
  {
    brk <= MAX_HEAP &&
    (|blocks| == 0 ==> brk == 0) &&
    (|blocks| > 0 ==> blocks[0].start == 0 && blocks[|blocks| - 1].End() == brk) &&
    (forall k :: 0 <= k < |blocks| ==> WellSized(blocks[k], brk)) &&
    (forall k :: 0 < k < |blocks| ==> blocks[k].start == blocks[k - 1].End())
  }

  function SumSizes(blocks: seq<Blk>): nat
  {
    if |blocks| == 0 then 0 else SumSizes(blocks[..|blocks| - 1]) + blocks[|blocks| - 1].size
  }

  /** Earlier blocks end before later ones start. */
  lemma {:induction false} Ordered(blocks: seq<Blk>, brk: nat, j: nat, k: nat)
    requires Tiled(blocks, brk)
    requires j < k < |blocks|
    ensures blocks[j].End() <= blocks[k].start
    decreases k - j
  {
    if j + 1 < k {
      Ordered(blocks, brk, j + 1, k);
    }
  }

  /** Split and coalesce keep the byte count: the block sizes always add up to the break. */
  lemma {:induction false} TiledSum(blocks: seq<Blk>, brk: nat)
    requires Tiled(blocks, brk)
    ensures SumSizes(blocks) == brk
    decreases |blocks|
  {
    if |blocks| > 0 {
      var n := |blocks| - 1;
      var pre := blocks[..n];
      if n == 0 {
      } else {
        var e := pre[n - 1].End();
        assert Tiled(pre, e) by {
          forall k | 0 <= k < n ensures pre[k].End() <= e {
            if k < n - 1 { Ordered(blocks, brk, k, n - 1); }
          }
        }
        TiledSum(pre, e);
      }
    }
  }

  ghost function Starts(blocks: seq<Blk>): set<int>
  {
    set k | 0 <= k < |blocks| :: blocks[k].start as int
  }

  /** Starts of the free blocks (`free`) or of the allocated blocks (`!free`). */
  ghost function StartsWhere(blocks: seq<Blk>, free: bool): set<int>
  {
    set k | 0 <= k < |blocks| && blocks[k].free == free :: blocks[k].start as int
  }

  ghost function FreeStarts(blocks: seq<Blk>): set<int> { StartsWhere(blocks, true) }

  ghost function AllocStarts(blocks: seq<Blk>): set<int> { StartsWhere(blocks, false) }

  lemma StartIn(blocks: seq<Blk>, j: nat, free: bool)
    requires j < |blocks| && blocks[j].free == free
    ensures blocks[j].start as int in StartsWhere(blocks, free)
  {
  }

  /** Every block starts below the break, far enough for its 24 bytes of overhead. */
  lemma StartsBelow(blocks: seq<Blk>, brk: nat, x: int)
    requires Tiled(blocks, brk) && x in Starts(blocks)
    ensures 0 <= x && x + 24 <= brk && x % 8 == 0
  {
    var k :| 0 <= k < |blocks| && blocks[k].start == x;
    assert WellSized(blocks[k], brk);
  }

  /** No block starts strictly inside another one. */
  lemma InteriorNotStart(blocks: seq<Blk>, brk: nat, k: nat, x: int)
    requires Tiled(blocks, brk) && k < |blocks|
    requires blocks[k].start < x < blocks[k].End()
    ensures x !in Starts(blocks)
  {
    if x in Starts(blocks) {
      var k' :| 0 <= k' < |blocks| && blocks[k'].start == x;
      if k' < k {
        Ordered(blocks, brk, k', k);
      } else if k < k' {
        Ordered(blocks, brk, k, k');
      }
      assert false;
    }
  }

  /** Two blocks with the same start are the same block. */
  lemma StartsUnique(blocks: seq<Blk>, brk: nat, j: nat, k: nat)
    requires Tiled(blocks, brk) && j < |blocks| && k < |blocks|
    requires blocks[j].start == blocks[k].start
    ensures j == k
  {
    if j < k {
      Ordered(blocks, brk, j, k);
    } else if k < j {
      Ordered(blocks, brk, k, j);
    }
  }

  /** The index of the block that starts at `x`. */
  lemma FindBlock(blocks: seq<Blk>, brk: nat, x: int) returns (k: nat)
    requires Tiled(blocks, brk) && x in Starts(blocks)
    ensures k < |blocks| && blocks[k].start == x
    ensures forall j :: 0 <= j < |blocks| && blocks[j].start == x ==> j == k
  {
    k :| 0 <= k < |blocks| && blocks[k].start == x;
    forall j | 0 <= j < |blocks| && blocks[j].start == x ensures j == k {
      StartsUnique(blocks, brk, j, k);
    }
  }

  // ---------------------------------------------------------------------------
  // Boundary tags in the heap words
  // ---------------------------------------------------------------------------

  /** Word index of the header (p_h_size) and of the footer (p_t_size) of a block. */
  function HdrWord(b: int): int { b / 8 + 1 }
  function FtrWord(b: int, size: int): int { (b + size) / 8 - 1 }

  /** The word indices of an aligned block's link, header and footer, back in bytes. */
  lemma WordsOf(b: int, size: int)
    requires b % 8 == 0 && size % 8 == 0
    ensures (b / 8) * 8 == b && HdrWord(b) * 8 == b + 8 && FtrWord(b, size) * 8 == b + size - 8
  {
  }

  /** The header holds the size; the footer holds the size while free and an odd word while allocated. */
  ghost predicate TagOk(m: seq<int>, b: Blk)
  {
    0 <= HdrWord(b.start) < |m| && 0 <= FtrWord(b.start, b.size) < |m| &&
    m[HdrWord(b.start)] == b.size &&
    (if b.free then m[FtrWord(b.start, b.size)] == b.size
     else m[FtrWord(b.start, b.size)] % 2 == 1)
  }

  ghost predicate TagsOk(m: seq<int>, blocks: seq<Blk>)
  {
    forall k :: 0 <= k < |blocks| ==> TagOk(m, blocks[k])
  }

  /** The words of `m'` differ from those of `m` only at block starts (link words) or inside [lo, hi). */
  ghost predicate ChangedOnly(m: seq<int>, m': seq<int>, blocks: seq<Blk>, lo: int, hi: int)
  {
    |m'| == |m| &&
    forall w :: 0 <= w < |m| && m'[w] != m[w] ==> w * 8 in Starts(blocks) || lo <= w * 8 < hi
  }

  /** The payload words [b + 16, b + size - 8) agree in `m` and `m'`. */
  ghost predicate PayloadSame(m: seq<int>, m': seq<int>, b: Blk)
  {
    forall w :: (b.start + 16) / 8 <= w < FtrWord(b.start, b.size) && 0 <= w < |m| && w < |m'| ==> m'[w] == m[w]
  }

  /** Tags, and payloads of allocated blocks, survive changes confined to link words and [lo, hi). */
  lemma TagsKeep(m: seq<int>, m': seq<int>, blocks: seq<Blk>, brk: nat, lo: int, hi: int, k: nat)
    requires Tiled(blocks, brk) && |m| == MAX_WORDS && k < |blocks|
    requires TagOk(m, blocks[k])
    requires ChangedOnly(m, m', blocks, lo, hi)
    requires blocks[k].End() <= lo || hi <= blocks[k].start
    ensures TagOk(m', blocks[k])
    ensures PayloadSame(m, m', blocks[k])
  {
    var b := blocks[k];
    InteriorNotStart(blocks, brk, k, b.start + 8);
    InteriorNotStart(blocks, brk, k, b.End() - 8);
    assert HdrWord(b.start) * 8 == b.start + 8;
    assert FtrWord(b.start, b.size) * 8 == b.End() - 8;
    forall w | (b.start + 16) / 8 <= w < FtrWord(b.start, b.size) && 0 <= w < |m|
      ensures m'[w] == m[w]
    {
      InteriorNotStart(blocks, brk, k, w * 8);
    }
  }
}
