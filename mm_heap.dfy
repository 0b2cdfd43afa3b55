/**
 * The whole-heap invariant of the allocator in malloclab-handout/mm.c and the
 * block-list surgery its two operations perform: mm_malloc carves a free block
 * or appends one at the break, mm_free replaces a run of neighbouring blocks
 * by one free block covering the same bytes.
 */
module MmHeap {
  import opened MmLayout
  import opened MmLists

  /** Words, bucket roots, break, block list and free lists agree with each other. */
  ghost predicate HeapOk(m: seq<int>, roots: seq<int>, brk: nat, blocks: seq<Blk>, lists: seq<seq<int>>)
  {
    ListsOk(m, roots, lists) && Tiled(blocks, brk) && TagsOk(m, blocks) &&
    Listed(lists) == FreeStarts(blocks)
  }

  /** The members of `S` that lie outside [lo, hi). */
  ghost function Outside(S: set<int>, lo: int, hi: int): set<int>
  {
    set x | x in S && (x < lo || hi <= x)
  }

  /** `X` tiles [lo, hi) with well-sized blocks. */
  ghost predicate Covers(X: seq<Blk>, lo: int, hi: int, brk: nat)
  {
    |X| > 0 && X[0].start == lo && X[|X| - 1].End() == hi &&
    (forall k :: 0 <= k < |X| ==> WellSized(X[k], brk)) &&
    (forall k :: 0 < k < |X| ==> X[k].start == X[k - 1].End())
  }

  lemma SpliceIndex(B: seq<Blk>, a: nat, c: nat, X: seq<Blk>, k: nat)
    requires a < c <= |B| && k < |B[..a] + X + B[c..]|
    ensures (B[..a] + X + B[c..])[k] ==
              if k < a then B[k] else if k < a + |X| then X[k - a] else B[k - a - |X| + c]
  {
  }

  /** Replacing blocks a..c-1 by blocks covering the same bytes keeps the heap tiled. */
  lemma SpliceTiled(B: seq<Blk>, brk: nat, a: nat, c: nat, X: seq<Blk>)
    requires Tiled(B, brk) && a < c <= |B|
    requires Covers(X, B[a].start, B[c - 1].End(), brk)
    ensures Tiled(B[..a] + X + B[c..], brk)
  {
    var B' := B[..a] + X + B[c..];
    forall k | 0 <= k < |B'| ensures WellSized(B'[k], brk) {
      SpliceIndex(B, a, c, X, k);
    }
    forall k | 0 < k < |B'| ensures B'[k].start == B'[k - 1].End() {
      SpliceIndex(B, a, c, X, k);
      SpliceIndex(B, a, c, X, k - 1);
    }
    SpliceIndex(B, a, c, X, 0);
    SpliceIndex(B, a, c, X, |B'| - 1);
  }

  /** A block lies outside the bytes of the run a..c-1 exactly when its index lies outside a..c-1. */
  lemma OutsideRun(B: seq<Blk>, brk: nat, a: nat, c: nat, j: nat)
    requires Tiled(B, brk) && a < c <= |B| && j < |B|
    ensures j < a ==> B[j].End() <= B[a].start
    ensures c <= j ==> B[c - 1].End() <= B[j].start
    ensures a <= j < c ==> B[a].start <= B[j].start < B[j].End() <= B[c - 1].End()
  {
    if j < a {
      Ordered(B, brk, j, a);
    } else if c <= j {
      Ordered(B, brk, c - 1, j);
    } else {
      if a < j {
        Ordered(B, brk, a, j);
      }
      if j < c - 1 {
        Ordered(B, brk, j, c - 1);
      }
    }
  }

  /** After the splice, the free (or allocated) starts are the old ones outside the run plus those of `X`. */
  lemma SpliceStarts(B: seq<Blk>, brk: nat, a: nat, c: nat, X: seq<Blk>, f: bool)
    requires Tiled(B, brk) && a < c <= |B|
    requires Covers(X, B[a].start, B[c - 1].End(), brk)
    ensures StartsWhere(B[..a] + X + B[c..], f) ==
              Outside(StartsWhere(B, f), B[a].start, B[c - 1].End()) + StartsWhere(X, f)
  {
    SpliceStartsSub(B, brk, a, c, X, f);
    SpliceStartsSup(B, brk, a, c, X, f);
  }

  lemma SpliceStartsSub(B: seq<Blk>, brk: nat, a: nat, c: nat, X: seq<Blk>, f: bool)
    requires Tiled(B, brk) && a < c <= |B|
    requires Covers(X, B[a].start, B[c - 1].End(), brk)
    ensures StartsWhere(B[..a] + X + B[c..], f) <=
              Outside(StartsWhere(B, f), B[a].start, B[c - 1].End()) + StartsWhere(X, f)
  {
    var B' := B[..a] + X + B[c..];
    forall x | x in StartsWhere(B', f)
      ensures x in Outside(StartsWhere(B, f), B[a].start, B[c - 1].End()) + StartsWhere(X, f)
    {
      var k :| 0 <= k < |B'| && B'[k].free == f && B'[k].start == x;
      SpliceStartFrom(B, brk, a, c, X, f, k);
    }
  }

  lemma SpliceStartFrom(B: seq<Blk>, brk: nat, a: nat, c: nat, X: seq<Blk>, f: bool, k: nat)
    requires Tiled(B, brk) && a < c <= |B| && k < |B[..a] + X + B[c..]|
    requires (B[..a] + X + B[c..])[k].free == f
    ensures (B[..a] + X + B[c..])[k].start in Outside(StartsWhere(B, f), B[a].start, B[c - 1].End()) + StartsWhere(X, f)
  {
    var n := |X|;
    SpliceIndex(B, a, c, X, k);
    if k < a {
      OutsideRun(B, brk, a, c, k);
      assert B[k].start in StartsWhere(B, f);
    } else if k < a + n {
      assert X[k - a].start in StartsWhere(X, f);
    } else {
      OutsideRun(B, brk, a, c, k - a - n + c);
      assert B[k - a - n + c].start in StartsWhere(B, f);
    }
  }

  lemma SpliceStartsSup(B: seq<Blk>, brk: nat, a: nat, c: nat, X: seq<Blk>, f: bool)
    requires Tiled(B, brk) && a < c <= |B|
    ensures Outside(StartsWhere(B, f), B[a].start, B[c - 1].End()) + StartsWhere(X, f) <=
              StartsWhere(B[..a] + X + B[c..], f)
  {
    var B' := B[..a] + X + B[c..];
    forall x | x in StartsWhere(X, f) ensures x in StartsWhere(B', f) {
      var i :| 0 <= i < |X| && X[i].free == f && X[i].start == x;
      SpliceIndex(B, a, c, X, a + i);
    }
    forall x | x in Outside(StartsWhere(B, f), B[a].start, B[c - 1].End()) ensures x in StartsWhere(B', f) {
      var j :| 0 <= j < |B| && B[j].free == f && B[j].start == x;
      SpliceStartTo(B, brk, a, c, X, j);
    }
  }

  lemma SpliceStartTo(B: seq<Blk>, brk: nat, a: nat, c: nat, X: seq<Blk>, j: nat)
    requires Tiled(B, brk) && a < c <= |B| && j < |B|
    requires B[j].start < B[a].start || B[c - 1].End() <= B[j].start
    ensures B[j] in B[..a] + X + B[c..]
  {
    OutsideRun(B, brk, a, c, j);
    if j < a {
      SpliceIndex(B, a, c, X, j);
    } else {
      SpliceIndex(B, a, c, X, j - c + a + |X|);
    }
  }

  /** A block outside the run keeps its tags and its payload, and has a place in the new list. */
  lemma KeepOutside(m: seq<int>, m': seq<int>, B: seq<Blk>, brk: nat, a: nat, c: nat, X: seq<Blk>, j: nat)
    requires Tiled(B, brk) && |m| == MAX_WORDS && a < c <= |B| && j < |B| && (j < a || c <= j)
    requires TagOk(m, B[j]) && ChangedOnly(m, m', B, B[a].start, B[c - 1].End())
    ensures TagOk(m', B[j]) && PayloadSame(m, m', B[j])
    ensures B[j] == (B[..a] + X + B[c..])[if j < a then j else j - c + a + |X|]
  {
    OutsideRun(B, brk, a, c, j);
    TagsKeep(m, m', B, brk, B[a].start, B[c - 1].End(), j);
    SpliceIndex(B, a, c, X, if j < a then j else j - c + a + |X|);
  }

  /**
   * Word changes confined to link words and to the bytes of the run keep the
   * boundary tags of the new list, and the blocks outside the run with their payloads.
   */
  lemma SpliceTags(m: seq<int>, m': seq<int>, B: seq<Blk>, brk: nat, a: nat, c: nat, X: seq<Blk>)
    requires Tiled(B, brk) && |m| == MAX_WORDS && a < c <= |B| && TagsOk(m, B)
    requires ChangedOnly(m, m', B, B[a].start, B[c - 1].End())
    requires TagsOk(m', X)
    ensures TagsOk(m', B[..a] + X + B[c..])
    ensures forall j :: 0 <= j < |B| && (j < a || c <= j) ==>
              B[j] in B[..a] + X + B[c..] && PayloadSame(m, m', B[j])
  {
    var B' := B[..a] + X + B[c..];
    var n := |X|;
    forall k | 0 <= k < |B'| ensures TagOk(m', B'[k]) {
      SpliceIndex(B, a, c, X, k);
      if k < a {
        KeepOutside(m, m', B, brk, a, c, X, k);
      } else if k >= a + n {
        KeepOutside(m, m', B, brk, a, c, X, k - a - n + c);
      }
    }
    assert TagsOk(m', B');
    SpliceKeeps(m, m', B, brk, a, c, X);
  }

  lemma SpliceKeeps(m: seq<int>, m': seq<int>, B: seq<Blk>, brk: nat, a: nat, c: nat, X: seq<Blk>)
    requires Tiled(B, brk) && |m| == MAX_WORDS && a < c <= |B| && TagsOk(m, B)
    requires ChangedOnly(m, m', B, B[a].start, B[c - 1].End())
    ensures forall j :: 0 <= j < |B| && (j < a || c <= j) ==>
              B[j] in B[..a] + X + B[c..] && PayloadSame(m, m', B[j])
  {
    forall j | 0 <= j < |B| && (j < a || c <= j) ensures B[j] in B[..a] + X + B[c..] && PayloadSame(m, m', B[j]) {
      KeepOutside(m, m', B, brk, a, c, X, j);
    }
  }

  /** mem_sbrk: a block appended at the break keeps the tags of the old blocks and their payloads. */
  lemma ExtendTags(m: seq<int>, m': seq<int>, B: seq<Blk>, brk: nat, x: Blk)
    requires Tiled(B, brk) && |m| == MAX_WORDS && TagsOk(m, B)
    requires x.start == brk && WellSized(x, x.End()) && x.End() <= MAX_HEAP
    requires ChangedOnly(m, m', B, brk, x.End()) && TagOk(m', x)
    ensures Tiled(B + [x], x.End()) && TagsOk(m', B + [x])
    ensures AllKept(m, m', B, B + [x])
  {
    ExtendTiled(B, brk, x);
    var B' := B + [x];
    forall j | 0 <= j < |B| ensures B[j] in B' && TagOk(m', B[j]) && PayloadSame(m, m', B[j]) {
      assert B'[j] == B[j];
      TagsKeep(m, m', B, brk, brk, x.End(), j);
    }
    assert B'[|B|] == x;
  }

  /** mem_sbrk: a block appended at the break extends the tiling to its end. */
  lemma ExtendTiled(B: seq<Blk>, brk: nat, x: Blk)
    requires Tiled(B, brk) && x.start == brk && WellSized(x, x.End()) && x.End() <= MAX_HEAP
    ensures Tiled(B + [x], x.End())
  {
    var B' := B + [x];
    forall k | 0 <= k < |B'| ensures WellSized(B'[k], x.End()) {
      if k < |B| {
        assert B'[k] == B[k] && WellSized(B[k], brk);
      }
    }
    forall k | 0 < k < |B'| ensures B'[k].start == B'[k - 1].End() {
      if k < |B| {
        assert B'[k] == B[k] && B'[k - 1] == B[k - 1];
      }
    }
  }

  /** mem_sbrk: the appended block adds its start to the starts of its kind. */
  lemma ExtendStarts(B: seq<Blk>, x: Blk, f: bool)
    ensures StartsWhere(B + [x], f) == StartsWhere(B, f) + (if x.free == f then {x.start as int} else {})
  {
    var B' := B + [x];
    forall y | y in StartsWhere(B, f) ensures y in StartsWhere(B', f) {
      var j :| 0 <= j < |B| && B[j].free == f && B[j].start == y;
      assert B'[j] == B[j];
    }
    if x.free == f {
      assert B'[|B|] == x;
    }
  }

  // ---------------------------------------------------------------------------
  // mm_malloc: taking a free block
  // ---------------------------------------------------------------------------

  /**
   * The blocks mm_malloc leaves in place of the free block `b` it takes for a
   * request of `need` bytes: an allocated block of `need` bytes and a free
   * remainder when at least MIN_SPLIT bytes are left, the whole block otherwise.
   */
  function Carve(b: Blk, need: nat): seq<Blk>
  {
    if b.size - need >= MIN_SPLIT then [Blk(b.start, need, false), Blk(b.start + need, b.size - need, true)]
    else [Blk(b.start, b.size, false)]
  }

  /** The block list after mm_malloc takes block k for a request of `need` bytes. */
  ghost function Taken(B: seq<Blk>, k: nat, need: nat): seq<Blk>
    requires k < |B|
  {
    B[..k] + Carve(B[k], need) + B[k + 1..]
  }

  /** Every block of `B` other than block k is still in `B'`, with its payload words. */
  ghost predicate KeptBut(m: seq<int>, m': seq<int>, B: seq<Blk>, B': seq<Blk>, k: nat)
  {
    forall j :: 0 <= j < |B| && j != k ==> B[j] in B' && PayloadSame(m, m', B[j])
  }

  /** Every allocated block of `B` is still in `B'`, with its payload words. */
  ghost predicate AllocKept(m: seq<int>, m': seq<int>, B: seq<Blk>, B': seq<Blk>)
  {
    forall j :: 0 <= j < |B| && !B[j].free ==> B[j] in B' && PayloadSame(m, m', B[j])
  }

  /** Every allocated block of `B` other than the one at `b` is still in `B'`, with its payload words. */
  ghost predicate AllocKeptBut(m: seq<int>, m': seq<int>, B: seq<Blk>, B': seq<Blk>, b: int)
  {
    forall j :: 0 <= j < |B| && !B[j].free && B[j].start != b ==> B[j] in B' && PayloadSame(m, m', B[j])
  }

  /** Every block of `B` is still a block of `B'`, with the same payload words. */
  ghost predicate AllKept(m: seq<int>, m': seq<int>, B: seq<Blk>, B': seq<Blk>)
  {
    forall j :: 0 <= j < |B| ==> B[j] in B' && PayloadSame(m, m', B[j])
  }

  lemma AllKeptAlloc(m: seq<int>, m': seq<int>, B: seq<Blk>, B': seq<Blk>)
    requires AllKept(m, m', B, B')
    ensures AllocKept(m, m', B, B')
  {
  }

  lemma KeptAlloc(m: seq<int>, m': seq<int>, B: seq<Blk>, B': seq<Blk>, k: nat)
    requires KeptBut(m, m', B, B', k) && k < |B| && B[k].free
    ensures AllocKept(m, m', B, B')
  {
  }

  /** The carved blocks cover the taken block; the first is allocated and large enough, the remainder free. */
  lemma CarveCovers(b: Blk, need: nat, brk: nat)
    requires WellSized(b, brk) && need % 8 == 0 && 24 <= need <= b.size
    ensures var X := Carve(b, need);
            Covers(X, b.start, b.End(), brk) && X[0].start == b.start && !X[0].free && X[0].size >= need &&
            AllocStarts(X) == {b.start as int} &&
            FreeStarts(X) == (if b.size - need >= MIN_SPLIT then {b.start + need} else {})
  {
    var X := Carve(b, need);
    if b.size - need >= MIN_SPLIT {
      assert X[1].start in FreeStarts(X);
      assert X[0].start in AllocStarts(X);
    } else {
      assert X[0].start in AllocStarts(X);
    }
  }

  /** No two neighbouring blocks are both free. */
  ghost predicate Separated(B: seq<Blk>)
  {
    forall k :: 0 < k < |B| ==> !(B[k - 1].free && B[k].free)
  }

  /** Taking a free block out of a heap without free neighbours leaves none. */
  lemma CarveSeparated(B: seq<Blk>, k: nat, need: nat)
    requires Separated(B) && k < |B| && B[k].free
    ensures Separated(Taken(B, k, need))
  {
    var X := Carve(B[k], need);
    var B' := B[..k] + X + B[k + 1..];
    forall j | 0 < j < |B'| ensures !(B'[j - 1].free && B'[j].free) {
      SpliceIndex(B, k, k + 1, X, j);
      SpliceIndex(B, k, k + 1, X, j - 1);
    }
  }

  // ---------------------------------------------------------------------------
  // mm_free: coalescing
  // ---------------------------------------------------------------------------

  /** First block mm_free merges: the predecessor when it is free and the freed block starts 32 bytes or more into the heap. */
  function MergeFrom(B: seq<Blk>, k: nat): nat
    requires k < |B|
  {
    if k > 0 && B[k].start >= 32 && B[k - 1].free then k - 1 else k
  }

  /** One past the last block mm_free merges: the successor when it is free and its first 32 bytes lie below the last heap byte. */
  function MergeTo(B: seq<Blk>, brk: nat, k: nat): nat
    requires k < |B|
  {
    if k + 1 < |B| && B[k].End() + 32 <= brk - 1 && B[k + 1].free then k + 2 else k + 1
  }

  /** The block list after mm_free releases block k: the merged run becomes one free block. */
  function Coalesce(B: seq<Blk>, brk: nat, k: nat): seq<Blk>
    requires k < |B|
  {
    var a := MergeFrom(B, k);
    var c := MergeTo(B, brk, k);
    B[..a] + [Blk(B[a].start, SumSizes(B[a..c]), true)] + B[c..]
  }

  /** The sizes of a run of blocks add up to the bytes it spans. */
  lemma {:induction false} SumRun(B: seq<Blk>, brk: nat, a: nat, c: nat)
    requires Tiled(B, brk) && a < c <= |B|
    ensures SumSizes(B[a..c]) == B[c - 1].End() - B[a].start
    decreases c - a
  {
    var R := B[a..c];
    assert R[..|R| - 1] == B[a..c - 1];
    if c == a + 1 {
      assert SumSizes(B[a..c - 1]) == 0;
    } else {
      SumRun(B, brk, a, c - 1);
    }
  }

  /** mm_free merges at most the predecessor, the block itself and the successor. */
  lemma MergeBounds(B: seq<Blk>, brk: nat, k: nat)
    requires k < |B|
    ensures MergeFrom(B, k) <= k < MergeTo(B, brk, k) <= |B|
    ensures MergeTo(B, brk, k) - MergeFrom(B, k) <= 3
  {
  }

  /** The merged block covers exactly the run it replaces. */
  lemma CoalesceCovers(B: seq<Blk>, brk: nat, k: nat)
    requires Tiled(B, brk) && k < |B|
    ensures var a := MergeFrom(B, k);
            var c := MergeTo(B, brk, k);
            a < c <= |B| && Covers([Blk(B[a].start, SumSizes(B[a..c]), true)], B[a].start, B[c - 1].End(), brk)
  {
    MergeBounds(B, brk, k);
    MergedCovers(B, brk, MergeFrom(B, k), MergeTo(B, brk, k));
  }

  lemma MergedCovers(B: seq<Blk>, brk: nat, a: nat, c: nat)
    requires Tiled(B, brk) && a < c <= |B|
    ensures Covers([Blk(B[a].start, SumSizes(B[a..c]), true)], B[a].start, B[c - 1].End(), brk)
  {
    SumRun(B, brk, a, c);
    OutsideRun(B, brk, a, c, c - 1);
    assert WellSized(B[a], brk) && WellSized(B[c - 1], brk);
    OneCovers(B[a], B[c - 1], brk, SumSizes(B[a..c]));
  }

  /** One free block from the start of `x` to the end of `y` is well sized. */
  lemma OneCovers(x: Blk, y: Blk, brk: nat, n: nat)
    requires WellSized(x, brk) && WellSized(y, brk) && x.start <= y.start && n == y.End() - x.start
    ensures Covers([Blk(x.start, n, true)], x.start, y.End(), brk)
  {
    var X := [Blk(x.start, n, true)];
    assert WellSized(X[0], brk);
  }

  /** mm_free keeps the heap tiled. */
  lemma CoalesceTiled(B: seq<Blk>, brk: nat, k: nat)
    requires Tiled(B, brk) && k < |B|
    ensures Tiled(Coalesce(B, brk, k), brk)
  {
    var a := MergeFrom(B, k);
    var c := MergeTo(B, brk, k);
    CoalesceCovers(B, brk, k);
    SpliceTiled(B, brk, a, c, [Blk(B[a].start, SumSizes(B[a..c]), true)]);
  }

  /** The merged run holds the freed block, allocated, and the free neighbours mm_free absorbs. */
  lemma RunKinds(B: seq<Blk>, brk: nat, k: nat)
    requires k < |B| && !B[k].free
    ensures var a := MergeFrom(B, k);
            var c := MergeTo(B, brk, k);
            StartsWhere(B[a..c], false) == {B[k].start as int} &&
            StartsWhere(B[a..c], true) ==
              (if a < k then {B[k - 1].start as int} else {}) + (if k + 1 < c then {B[k + 1].start as int} else {})
  {
    var a := MergeFrom(B, k);
    var c := MergeTo(B, brk, k);
    MergeBounds(B, brk, k);
    assert StartsWhere([], true) == {} && StartsWhere([], false) == {};
    assert B[a..a + 1] == [] + [B[a]];
    ExtendStarts([], B[a], true);
    ExtendStarts([], B[a], false);
    if c - a >= 2 {
      assert B[a..a + 2] == B[a..a + 1] + [B[a + 1]];
      ExtendStarts(B[a..a + 1], B[a + 1], true);
      ExtendStarts(B[a..a + 1], B[a + 1], false);
    }
    if c - a == 3 {
      assert B[a..a + 3] == B[a..a + 2] + [B[a + 2]];
      ExtendStarts(B[a..a + 2], B[a + 2], true);
      ExtendStarts(B[a..a + 2], B[a + 2], false);
    }
  }

  lemma CoalesceKind(B: seq<Blk>, brk: nat, k: nat, f: bool)
    requires Tiled(B, brk) && k < |B|
    ensures var a := MergeFrom(B, k);
            var c := MergeTo(B, brk, k);
            StartsWhere(Coalesce(B, brk, k), f) ==
              StartsWhere(B, f) - StartsWhere(B[a..c], f) + (if f then {B[a].start as int} else {})
  {
    var a := MergeFrom(B, k);
    var c := MergeTo(B, brk, k);
    var X := [Blk(B[a].start, SumSizes(B[a..c]), true)];
    CoalesceCovers(B, brk, k);
    SpliceStarts(B, brk, a, c, X, f);
    RunStarts(B, brk, a, c, f);
    assert StartsWhere(X, f) == (if f then {B[a].start as int} else {}) by {
      assert X[0].start in StartsWhere(X, true);
    }
  }

  /** The starts lying in the bytes of a run of blocks are the run's own starts. */
  lemma RunStarts(B: seq<Blk>, brk: nat, a: nat, c: nat, f: bool)
    requires Tiled(B, brk) && a < c <= |B|
    ensures Outside(StartsWhere(B, f), B[a].start, B[c - 1].End()) == StartsWhere(B, f) - StartsWhere(B[a..c], f)
  {
    forall x | x in StartsWhere(B, f)
      ensures x in Outside(StartsWhere(B, f), B[a].start, B[c - 1].End()) <==> x !in StartsWhere(B[a..c], f)
    {
      var j :| 0 <= j < |B| && B[j].free == f && B[j].start == x;
      RunStart(B, brk, a, c, f, j);
    }
    forall x | x in StartsWhere(B[a..c], f) ensures x in StartsWhere(B, f) {
      var i :| 0 <= i < c - a && B[a..c][i].free == f && B[a..c][i].start == x;
      assert B[a..c][i] == B[a + i];
    }
  }

  lemma RunStart(B: seq<Blk>, brk: nat, a: nat, c: nat, f: bool, j: nat)
    requires Tiled(B, brk) && a < c <= |B| && j < |B| && B[j].free == f
    ensures B[a].start <= B[j].start < B[c - 1].End() <==> B[j].start in StartsWhere(B[a..c], f)
  {
    var R := B[a..c];
    OutsideRun(B, brk, a, c, j);
    if a <= j < c {
      assert R[j - a] == B[j];
      assert R[j - a].start in StartsWhere(R, f);
    }
    if B[j].start in StartsWhere(R, f) {
      var i :| 0 <= i < |R| && R[i].free == f && R[i].start == B[j].start;
      assert R[i] == B[a + i];
      StartsUnique(B, brk, a + i, j);
    }
  }

  /**
   * Freeing keeps free blocks apart when neither boundary test of mm_free
   * skips a free neighbour.
   */
  lemma CoalesceSeparated(B: seq<Blk>, brk: nat, k: nat)
    requires Tiled(B, brk) && Separated(B) && k < |B| && !B[k].free
    requires k > 0 && B[k - 1].free ==> B[k].start >= 32
    requires k + 1 < |B| && B[k + 1].free ==> B[k].End() + 40 <= brk
    ensures Separated(Coalesce(B, brk, k))
  {
    var a := MergeFrom(B, k);
    var c := MergeTo(B, brk, k);
    var X := [Blk(B[a].start, SumSizes(B[a..c]), true)];
    var B' := Coalesce(B, brk, k);
    CoalesceCovers(B, brk, k);
    forall j | 0 < j < |B'| ensures !(B'[j - 1].free && B'[j].free) {
      SpliceIndex(B, a, c, X, j);
      SpliceIndex(B, a, c, X, j - 1);
    }
  }

  /**
   * The boundary test on the predecessor is stricter than the heap needs: a
   * free first block of 24 bytes is not merged with the block freed after it.
   */
  lemma CoalesceSkipsSmallFirst()
    ensures var B := [Blk(0, 24, true), Blk(24, 24, false)];
            Tiled(B, 48) && Separated(B) && !Separated(Coalesce(B, 48, 1))
  {
    var B := [Blk(0, 24, true), Blk(24, 24, false)];
    assert B[1..2] == [B[1]];
    assert SumSizes([B[1]]) == SumSizes([]) + 24;
    var C := Coalesce(B, 48, 1);
    assert C == [Blk(0, 24, true), Blk(24, 24, true)];
    assert C[0].free && C[1].free;
  }

  /**
   * The boundary test on the successor is stricter than the heap needs: a free
   * last block of 32 bytes is not merged with the block freed before it.
   */
  lemma CoalesceSkipsSmallLast()
    ensures var B := [Blk(0, 24, false), Blk(24, 32, true)];
            Tiled(B, 56) && Separated(B) && !Separated(Coalesce(B, 56, 0))
  {
    var B := [Blk(0, 24, false), Blk(24, 32, true)];
    assert B[0..1] == [B[0]];
    assert SumSizes([B[0]]) == SumSizes([]) + 24;
    var C := Coalesce(B, 56, 0);
    assert C == [Blk(0, 24, true), Blk(24, 32, true)];
    assert C[0].free && C[1].free;
  }

  // ---------------------------------------------------------------------------
  // Steps shared by the operations
  // ---------------------------------------------------------------------------

  lemma KindsInStarts(B: seq<Blk>, f: bool)
    ensures StartsWhere(B, f) <= Starts(B)
  {
  }

  /** No block is both free and allocated. */
  lemma KindsApart(B: seq<Blk>, brk: nat, x: int)
    requires Tiled(B, brk) && x in FreeStarts(B)
    ensures x !in AllocStarts(B)
  {
    var j :| 0 <= j < |B| && B[j].free && B[j].start == x;
    if x in AllocStarts(B) {
      var j' :| 0 <= j' < |B| && !B[j'].free && B[j'].start == x;
      StartsUnique(B, brk, j, j');
    }
  }

  /** Nothing listed or allocated lies at or above the old break. */
  lemma ExtendClear(B: seq<Blk>, brk: nat, lists: seq<seq<int>>, need: nat)
    requires Tiled(B, brk) && Listed(lists) == FreeStarts(B) && need % 8 == 0 && 24 <= need
    ensures brk % 8 == 0 && Clear(lists, HdrWord(brk) * 8) && Clear(lists, FtrWord(brk, need) * 8)
    ensures brk !in AllocStarts(B)
  {
    if |B| > 0 {
      assert WellSized(B[|B| - 1], brk);
    }
    WordsOf(brk, need);
    KindsInStarts(B, true);
    KindsInStarts(B, false);
    forall y | y in Listed(lists) ensures y + 24 <= brk {
      StartsBelow(B, brk, y);
    }
    if brk in AllocStarts(B) {
      StartsBelow(B, brk, brk);
    }
  }

  /** The tags mm_malloc writes on a block cut from fresh heap. */
  lemma NewTag(m: seq<int>, m': seq<int>, brk: nat, need: nat)
    requires brk % 8 == 0 && need % 8 == 0 && 24 <= need && 0 <= FtrWord(brk, need) < |m|
    requires m' == m[HdrWord(brk) := need][FtrWord(brk, need) := SetLowBit(m[FtrWord(brk, need)])]
    ensures TagOk(m', Blk(brk, need, false))
  {
    WordsOf(brk, need);
  }

  /**
   * mem_sbrk and mm_malloc's marking: the block appended at the break is
   * allocated, with its size in the header and an odd footer, and the rest of
   * the heap, bucket table included, is as before.
   */
  lemma ExtendOk(m: seq<int>, m': seq<int>, roots: seq<int>, brk: nat, B: seq<Blk>, lists: seq<seq<int>>, need: nat)
    requires HeapOk(m, roots, brk, B, lists) && need % 8 == 0 && 24 <= need && brk + need <= MAX_HEAP
    requires 0 <= FtrWord(brk, need) < |m| && m' == m[HdrWord(brk) := need][FtrWord(brk, need) := SetLowBit(m[FtrWord(brk, need)])]
    ensures HeapOk(m', roots, brk + need, B + [Blk(brk, need, false)], lists)
    ensures AllocStarts(B + [Blk(brk, need, false)]) == AllocStarts(B) + {brk as int} && brk !in AllocStarts(B)
    ensures AllKept(m, m', B, B + [Blk(brk, need, false)])
  {
    var x := Blk(brk, need, false);
    ExtendClear(B, brk, lists, need);
    MarkListsOk(m, roots, lists, brk, need, SetLowBit(m[FtrWord(brk, need)]));
    NewTag(m, m', brk, need);
    ExtendTags(m, m', B, brk, x);
    ExtendStarts(B, x, true);
    assert FreeStarts(B + [x]) == FreeStarts(B);
    ExtendStarts(B, x, false);
  }

  /** A write inside [lo, hi) keeps the changes confined. */
  lemma ChangedWrite(m0: seq<int>, m: seq<int>, B: seq<Blk>, lo: int, hi: int, w: int, v: int)
    requires ChangedOnly(m0, m, B, lo, hi) && 0 <= w < |m| && lo <= w * 8 < hi
    ensures ChangedOnly(m0, m[w := v], B, lo, hi)
  {
  }

  /** Changes to link words of blocks keep the changes confined. */
  lemma ChangedLinks(m0: seq<int>, m: seq<int>, m': seq<int>, B: seq<Blk>, lo: int, hi: int, L: seq<int>)
    requires ChangedOnly(m0, m, B, lo, hi) && |m'| == |m|
    requires forall w :: 0 <= w < |m| && m'[w] != m[w] ==> w * 8 in L
    requires forall x :: x in L ==> x in Starts(B)
    ensures ChangedOnly(m0, m', B, lo, hi)
  {
  }

  /** What mm_free reads at `ptr - 8`: the predecessor's footer, even exactly when the predecessor is free. */
  lemma PrevFooter(m: seq<int>, B: seq<Blk>, brk: nat, k: nat)
    requires Tiled(B, brk) && TagsOk(m, B) && k < |B| && B[k].start >= 32
    ensures 0 < k && B[k].start / 8 - 1 == FtrWord(B[k - 1].start, B[k - 1].size)
    ensures m[B[k].start / 8 - 1] % 2 == 0 <==> B[k - 1].free
    ensures B[k - 1].free ==> B[k].start - m[B[k].start / 8 - 1] == B[k - 1].start
  {
    assert B[0].start == 0;
    var x := B[k - 1];
    assert TagOk(m, x) && WellSized(x, brk) && B[k].start == x.start + x.size;
    FooterParity(m, x);
  }

  /** A block's footer is even exactly when the block is free (sizes are multiples of 8). */
  lemma FooterParity(m: seq<int>, x: Blk)
    requires TagOk(m, x) && x.size % 8 == 0
    ensures m[FtrWord(x.start, x.size)] % 2 == 0 <==> x.free
  {
    EvenOf8(x.size);
  }

  lemma EvenOf8(n: int)
    requires n % 8 == 0
    ensures n % 2 == 0
  {
    var q := n / 8;
    assert n == 2 * (4 * q);
  }

  /** What mm_free reads after the block: the successor's header and footer. */
  lemma NextTags(m: seq<int>, B: seq<Blk>, brk: nat, k: nat)
    requires Tiled(B, brk) && TagsOk(m, B) && k < |B| && B[k].End() + 32 <= brk - 1
    ensures k + 1 < |B| && B[k + 1].start == B[k].End()
    ensures m[B[k].End() / 8 + 1] == B[k + 1].size
    ensures m[(B[k].End() + B[k + 1].size) / 8 - 1] % 2 == 1 <==> !B[k + 1].free
  {
    assert B[|B| - 1].End() == brk && WellSized(B[k], brk);
    var y := B[k + 1];
    assert TagOk(m, y) && WellSized(y, brk) && y.start == B[k].End();
    FooterParity(m, y);
  }

  /** Setting a block's header and footer words, neither of which is a listed link or header word, keeps the bucket table. */
  lemma MarkListsOk(m: seq<int>, roots: seq<int>, lists: seq<seq<int>>, b: int, n: int, v: int)
    requires ListsOk(m, roots, lists) && 0 <= HdrWord(b) < |m| && 0 <= FtrWord(b, n) < |m|
    requires Clear(lists, HdrWord(b) * 8) && Clear(lists, FtrWord(b, n) * 8)
    ensures ListsOk(m[HdrWord(b) := n][FtrWord(b, n) := v], roots, lists)
  {
    ListsOkWrite(m, roots, lists, HdrWord(b), n);
    ListsOkWrite(m[HdrWord(b) := n], roots, lists, FtrWord(b, n), v);
  }

  /** mm_malloc's carving keeps the heap tiled and tagged and moves the taken block to the allocated ones. */
  lemma CarveOk(m: seq<int>, m': seq<int>, B: seq<Blk>, brk: nat, k: nat, need: nat)
    requires Tiled(B, brk) && |m| == MAX_WORDS && TagsOk(m, B) && k < |B| && B[k].free
    requires need % 8 == 0 && 24 <= need <= B[k].size
    requires ChangedOnly(m, m', B, B[k].start, B[k].End())
    requires TagsOk(m', Carve(B[k], need))
    ensures Tiled(Taken(B, k, need), brk) && TagsOk(m', Taken(B, k, need))
    ensures KeptBut(m, m', B, Taken(B, k, need), k)
  {
    var X := Carve(B[k], need);
    CarveCovers(B[k], need, brk);
    SpliceTiled(B, brk, k, k + 1, X);
    SpliceTags(m, m', B, brk, k, k + 1, X);
  }

  /** mm_malloc's carving: the taken start becomes allocated, a split-off remainder becomes free. */
  lemma CarveStarts(B: seq<Blk>, brk: nat, k: nat, p: int, need: nat)
    requires Tiled(B, brk) && k < |B| && B[k].free && p == B[k].start
    requires need % 8 == 0 && 24 <= need <= B[k].size
    ensures AllocStarts(Taken(B, k, need)) == AllocStarts(B) + {p}
    ensures FreeStarts(Taken(B, k, need)) == FreeStarts(B) - {p} + (if B[k].size - need >= MIN_SPLIT then {p + need} else {})
  {
    var X := Carve(B[k], need);
    CarveCovers(B[k], need, brk);
    assert B[k..k + 1] == [] + [B[k]];
    assert StartsWhere([], true) == {} && StartsWhere([], false) == {};
    ExtendStarts([], B[k], true);
    ExtendStarts([], B[k], false);
    SpliceStarts(B, brk, k, k + 1, X, true);
    RunStarts(B, brk, k, k + 1, true);
    SpliceStarts(B, brk, k, k + 1, X, false);
    RunStarts(B, brk, k, k + 1, false);
  }

  /** Every allocated block other than block k survives mm_free's merge, with its payload words. */
  ghost predicate OthersKept(m: seq<int>, m': seq<int>, B: seq<Blk>, brk: nat, k: nat)
    requires k < |B|
  {
    forall j :: 0 <= j < |B| && !B[j].free && j != k ==> B[j] in Coalesce(B, brk, k) && PayloadSame(m, m', B[j])
  }

  /** mm_free's merging keeps the heap tagged, and the other allocated blocks with their payloads. */
  lemma CoalesceOk(m: seq<int>, m': seq<int>, B: seq<Blk>, brk: nat, k: nat, s: int, n: int)
    requires Tiled(B, brk) && |m| == MAX_WORDS && TagsOk(m, B) && k < |B| && !B[k].free
    requires s == B[MergeFrom(B, k)].start && n == B[MergeTo(B, brk, k) - 1].End() - s
    requires ChangedOnly(m, m', B, s, s + n)
    requires 0 <= n && TagOk(m', Blk(s, n, true))
    ensures TagsOk(m', Coalesce(B, brk, k))
    ensures OthersKept(m, m', B, brk, k)
  {
    var a, c := MergeFrom(B, k), MergeTo(B, brk, k);
    MergeBounds(B, brk, k);
    MergedTags(m, m', B, brk, a, c);
    CoalesceKept(m, m', B, brk, k);
  }

  lemma CoalesceKept(m: seq<int>, m': seq<int>, B: seq<Blk>, brk: nat, k: nat)
    requires k < |B| && MergeFrom(B, k) <= k < MergeTo(B, brk, k) <= |B|
    requires var a, c := MergeFrom(B, k), MergeTo(B, brk, k);
             forall j :: 0 <= j < |B| && (j < a || c <= j) ==>
               B[j] in B[..a] + [Blk(B[a].start, SumSizes(B[a..c]), true)] + B[c..] && PayloadSame(m, m', B[j])
    ensures OthersKept(m, m', B, brk, k)
  {
    var a, c := MergeFrom(B, k), MergeTo(B, brk, k);
    RunFreeNeighbours(B, brk, k);
    forall j | 0 <= j < |B| && !B[j].free && j != k
      ensures B[j] in Coalesce(B, brk, k) && PayloadSame(m, m', B[j])
    {
      assert j < a || c <= j;
    }
  }

  lemma MergedTags(m: seq<int>, m': seq<int>, B: seq<Blk>, brk: nat, a: nat, c: nat)
    requires Tiled(B, brk) && |m| == MAX_WORDS && TagsOk(m, B) && a < c <= |B|
    requires ChangedOnly(m, m', B, B[a].start, B[c - 1].End())
    requires B[a].start <= B[c - 1].End() && TagOk(m', Blk(B[a].start, B[c - 1].End() - B[a].start, true))
    ensures TagsOk(m', B[..a] + [Blk(B[a].start, SumSizes(B[a..c]), true)] + B[c..])
    ensures forall j :: 0 <= j < |B| && (j < a || c <= j) ==>
              B[j] in B[..a] + [Blk(B[a].start, SumSizes(B[a..c]), true)] + B[c..] && PayloadSame(m, m', B[j])
  {
    SumRun(B, brk, a, c);
    SpliceTags(m, m', B, brk, a, c, [Blk(B[a].start, SumSizes(B[a..c]), true)]);
  }

  /** Every block of the merged run other than the freed one is free. */
  lemma RunFreeNeighbours(B: seq<Blk>, brk: nat, k: nat)
    requires k < |B|
    ensures forall j :: MergeFrom(B, k) <= j < MergeTo(B, brk, k) && j != k ==> B[j].free
  {
  }

  /** mm_free's merging, on the starts: the freed block leaves the allocated ones, the merged block joins the free ones. */
  lemma CoalesceKinds(B: seq<Blk>, brk: nat, k: nat)
    requires Tiled(B, brk) && k < |B| && !B[k].free
    ensures var a := MergeFrom(B, k);
            var c := MergeTo(B, brk, k);
            var B' := Coalesce(B, brk, k);
            AllocStarts(B') == AllocStarts(B) - {B[k].start as int} &&
            FreeStarts(B') == FreeStarts(B) - (if a < k then {B[k - 1].start as int} else {})
                              - (if k + 1 < c then {B[k + 1].start as int} else {}) + {B[a].start as int}
  {
    RunKinds(B, brk, k);
    CoalesceKind(B, brk, k, true);
    CoalesceKind(B, brk, k, false);
  }

  /** A write to a payload word of a block keeps the whole heap invariant and every payload but that word. */
  lemma PayloadWriteOk(m: seq<int>, roots: seq<int>, brk: nat, B: seq<Blk>, lists: seq<seq<int>>, k: nat, w: int, v: int)
    requires HeapOk(m, roots, brk, B, lists) && k < |B|
    requires B[k].start + 16 <= w * 8 < B[k].End() - 8
    ensures HeapOk(m[w := v], roots, brk, B, lists)
    ensures forall j :: 0 <= j < |B| && j != k ==> PayloadSame(m, m[w := v], B[j])
  {
    InteriorNotStart(B, brk, k, w * 8);
    InteriorNotStart(B, brk, k, w * 8 - 8);
    KindsInStarts(B, true);
    ListsOkWrite(m, roots, lists, w, v);
    PayloadWriteTags(m, B, brk, k, w, v);
  }

  lemma PayloadWriteTags(m: seq<int>, B: seq<Blk>, brk: nat, k: nat, w: int, v: int)
    requires Tiled(B, brk) && |m| == MAX_WORDS && TagsOk(m, B) && k < |B|
    requires B[k].start + 16 <= w * 8 < B[k].End() - 8
    ensures TagsOk(m[w := v], B)
    ensures forall j :: 0 <= j < |B| && j != k ==> PayloadSame(m, m[w := v], B[j])
  {
    forall j | 0 <= j < |B| ensures TagOk(m[w := v], B[j]) && (j != k ==> PayloadSame(m, m[w := v], B[j])) {
      PayloadWriteTag(m, B, brk, k, j, w, v);
    }
  }

  lemma PayloadWriteTag(m: seq<int>, B: seq<Blk>, brk: nat, k: nat, j: nat, w: int, v: int)
    requires Tiled(B, brk) && |m| == MAX_WORDS && TagsOk(m, B) && k < |B| && j < |B|
    requires B[k].start + 16 <= w * 8 < B[k].End() - 8
    ensures TagOk(m[w := v], B[j]) && (j != k ==> PayloadSame(m, m[w := v], B[j]))
  {
    assert TagOk(m, B[j]);
    if j != k {
      if j < k {
        Ordered(B, brk, j, k);
      } else {
        Ordered(B, brk, k, j);
      }
      assert ChangedOnly(m, m[w := v], B, B[k].start, B[k].End());
      TagsKeep(m, m[w := v], B, brk, B[k].start, B[k].End(), j);
    }
  }
}
