/**
 * The allocator of malloclab-handout/mm.c as a class over the simulated heap.
 *
 * `mem` is the 20 MiB heap as words, `roots` the bucket table m_root and
 * `brk` memlib's break.  The ghost fields say what the words mean: `blocks`
 * is the tiling of [0, brk) into blocks and `lists` the contents of every
 * bucket.  `Valid()` ties the two views together; every operation keeps it
 * and states its effect on the blocks.
 */
module MmAlloc {
  import opened MmLayout
  import opened MmLists
  import opened MmHeap
  import opened MmRealloc

  class Allocator {
    const mem: array<int>
    const roots: array<int>
    var brk: nat
    ghost var blocks: seq<Blk>
    ghost var lists: seq<seq<int>>

    ghost predicate Valid()
      reads this, mem, roots
    {
      mem.Length == MAX_WORDS && roots.Length == LIST_SIZE && mem != roots &&
      HeapOk(mem[..], roots[..], brk, blocks, lists)
    }

    /** A fresh heap: memlib's break at the low end, then mm_init. */
    constructor ()
      ensures Valid() && fresh(mem) && fresh(roots)
      ensures brk == 0 && blocks == [] && Listed(lists) == {}
    {
      mem := new int[MAX_WORDS];
      roots := new int[LIST_SIZE];
      brk := 0;
      blocks := [];
      lists := seq(LIST_SIZE, _ => []);
      new;
      Init();
    }

    /**
     * mm_init: every bucket empty and every heap byte 0xff.  The break is
     * reset too, as the driver's mem_reset_brk does before each mm_init.
     */
    method Init()
      requires mem.Length == MAX_WORDS && roots.Length == LIST_SIZE && mem != roots
      modifies this, mem, roots
      ensures Valid()
      ensures brk == 0 && blocks == [] && lists == seq(LIST_SIZE, _ => [])
      ensures forall i :: 0 <= i < LIST_SIZE ==> roots[i] == NIL
      ensures forall w :: 0 <= w < MAX_WORDS ==> mem[w] == FILL
    {
      var i := 0;
      while i < LIST_SIZE
        invariant 0 <= i <= LIST_SIZE
        invariant forall i' :: 0 <= i' < i ==> roots[i'] == NIL
      {
        roots[i] := NIL;
        i := i + 1;
      }
      var w := 0;
      while w < MAX_WORDS
        invariant 0 <= w <= MAX_WORDS
        invariant forall w' :: 0 <= w' < w ==> mem[w'] == FILL
        invariant forall i' :: 0 <= i' < LIST_SIZE ==> roots[i'] == NIL
      {
        mem[w] := FILL;
        w := w + 1;
      }
      brk := 0;
      blocks := [];
      lists := seq(LIST_SIZE, _ => []);
      EmptyListsOk(mem[..], roots[..]);
      assert FreeStarts(blocks) == {};
    }

    /**
     * mem_sbrk: moves the break up by `incr` bytes and returns the old break,
     * or fails with NULL when `incr` is negative or the heap would pass MAX_HEAP.
     */
    method Sbrk(incr: int) returns (p: int)
      modifies this`brk
      ensures incr < 0 || old(brk) + incr > MAX_HEAP ==> p == NIL && brk == old(brk)
      ensures 0 <= incr && old(brk) + incr <= MAX_HEAP ==> p == old(brk) && brk == old(brk) + incr
    {
      if incr < 0 || brk + incr > MAX_HEAP {
        return NIL;
      }
      p := brk;
      brk := brk + incr;
    }

    /**
     * insert: writes the footer from the header, then pushes `b` on the front
     * of the bucket its size selects.
     */
    method Insert(b: int, ghost h: int)
      requires mem != roots && ListsOk(mem[..], roots[..], lists) && Node(mem[..], b) && mem[b / 8 + 1] == h
      requires 24 <= h && h % 8 == 0 && b + h <= MAX_HEAP
      requires Clear(lists, b) && b + 8 !in Listed(lists) && Clear(lists, b + h - 8)
      modifies mem, roots, this`lists
      ensures RootIndex(h / ALIGNMENT) < LIST_SIZE
      ensures mem[..] == old(mem[..])[FtrWord(b, h) := h][b / 8 := old(roots[..])[RootIndex(h / ALIGNMENT)]]
      ensures roots[..] == old(roots[..])[RootIndex(h / ALIGNMENT) := b]
      ensures lists == old(lists)[RootIndex(h / ALIGNMENT) := [b] + old(lists)[RootIndex(h / ALIGNMENT)]]
      ensures ListsOk(mem[..], roots[..], lists)
      ensures Listed(lists) == old(Listed(lists)) + {b}
    {
      ghost var m0, r0 := mem[..], roots[..];
      InsertOk(m0, r0, lists, b, h, RootIndex(h / ALIGNMENT));
      var ind := RootIndex(mem[b / 8 + 1] / ALIGNMENT);
      mem[(b + mem[b / 8 + 1]) / 8 - 1] := mem[b / 8 + 1];
      assert b != roots[ind];
      mem[b / 8] := roots[ind];
      roots[ind] := b;
      lists := lists[ind := [b] + lists[ind]];
      assert mem[..] == m0[FtrWord(b, m0[b / 8 + 1]) := m0[b / 8 + 1]][b / 8 := r0[ind]];
      assert roots[..] == r0[ind := b];
    }

    /**
     * erase: walks the bucket the header of `b` selects and unlinks `b`,
     * through the root when it is first and through its predecessor's link
     * word otherwise; a block that is not in that bucket is left alone.
     */
    method Erase(b: int)
      requires mem != roots && ListsOk(mem[..], roots[..], lists) && Node(mem[..], b) && 0 <= mem[b / 8 + 1] <= MAX_HEAP
      modifies mem, roots, this`lists
      ensures var i := RootIndex(old(mem[b / 8 + 1]) / ALIGNMENT);
              i < LIST_SIZE &&
              lists == old(lists)[i := Remove(old(lists)[i], b)] &&
              (forall i' :: 0 <= i' < LIST_SIZE && i' != i ==> roots[i'] == old(roots[i'])) &&
              LinksOnly(old(mem[..]), mem[..], old(lists)[i], b)
      ensures ListsOk(mem[..], roots[..], lists)
      ensures Listed(lists) == old(Listed(lists)) - {b}
    {
      ghost var m, r := mem[..], roots[..];
      var ind := RootIndex(mem[b / 8 + 1] / ALIGNMENT);
      RootIndexInRange(m[b / 8 + 1]);
      ghost var L := lists[ind];
      assert Linked(m, r[ind], L) && NoDup(L);
      var cur := roots[ind];
      var pre := NIL;
      ghost var k := 0;
      while cur != NIL
        invariant 0 <= k <= |L|
        invariant cur == (if k < |L| then L[k] else NIL)
        invariant pre == (if k > 0 then L[k - 1] else NIL)
        invariant b !in L[..k]
        invariant mem[..] == m && roots[..] == r && lists == old(lists)
        decreases |L| - k
      {
        if cur == b {
          EraseAt(ind, pre, cur, k);
          return;
        }
        pre := cur;
        cur := mem[cur / 8];
        k := k + 1;
        assert L[..k] == L[..k - 1] + [L[k - 1]];
      }
      assert L[..k] == L;
      EraseMissing(m, r, lists, b);
      lists := lists[ind := Remove(L, b)];
    }

    /**
     * The unlinking step of erase, once `b` is found at position k of
     * bucket `ind` behind `pre`: the predecessor's link word, or the root
     * when `b` is first, takes over the link of `b`.
     */
    method EraseAt(ind: int, pre: int, b: int, ghost k: nat)
      requires mem != roots && ListsOk(mem[..], roots[..], lists) && 0 <= ind < LIST_SIZE
      requires k < |lists[ind]| && lists[ind][k] == b && b !in lists[ind][..k]
      requires pre == if k > 0 then lists[ind][k - 1] else NIL
      modifies mem, roots, this`lists
      ensures lists == old(lists)[ind := Remove(old(lists)[ind], b)]
      ensures forall i' :: 0 <= i' < LIST_SIZE && i' != ind ==> roots[i'] == old(roots[i'])
      ensures LinksOnly(old(mem[..]), mem[..], old(lists)[ind], b)
      ensures ListsOk(mem[..], roots[..], lists)
      ensures Listed(lists) == old(Listed(lists)) - {b}
    {
      ghost var m, r, L := mem[..], roots[..], lists[ind];
      assert Linked(m, r[ind], L) && NoDup(L);
      if pre != NIL {
        mem[pre / 8] := mem[b / 8];
        EraseAfter(m, r, lists, ind, k, b);
        assert mem[..] == m[L[k - 1] / 8 := m[L[k] / 8]];
      } else {
        roots[ind] := mem[b / 8];
        EraseHead(m, r, lists, ind, b);
        assert roots[..] == r[ind := m[L[0] / 8]];
      }
      lists := lists[ind := Remove(L, b)];
    }

    /**
     * The search loop of mm_malloc: buckets from the one `need` selects
     * upwards, each walked from its root, stopping at the first block whose
     * header is at least `need`.
     */
    method FindFit(need: nat) returns (p: int)
      requires ListsOk(mem[..], roots[..], lists)
      ensures p == FirstFit(mem[..], lists, need)
      ensures mem[..] == old(mem[..]) && roots[..] == old(roots[..])
    {
      p := NIL;
      var ind := RootIndex(need / ALIGNMENT);
      while ind < LIST_SIZE && p == NIL
        invariant p == NIL ==> ScanFrom(mem[..], lists, ind, 0, need) == FirstFit(mem[..], lists, need)
        invariant p != NIL ==> p == FirstFit(mem[..], lists, need)
        decreases LIST_SIZE - ind
      {
        if roots[ind] != NIL {
          ghost var L := lists[ind];
          assert Linked(mem[..], roots[ind], L);
          var cur := roots[ind];
          ghost var j := 0;
          while cur != NIL
            invariant 0 <= j <= |L|
            invariant cur == (if j < |L| then L[j] else NIL)
            invariant ScanFrom(mem[..], lists, ind, j, need) == FirstFit(mem[..], lists, need)
            decreases |L| - j
          {
            if mem[cur / 8 + 1] >= need {
              p := cur;
              break;
            }
            cur := mem[cur / 8];
            j := j + 1;
          }
        } else {
          assert Linked(mem[..], roots[ind], lists[ind]);
        }
        ind := ind + 1;
      }
    }

    /**
     * mm_malloc: a request of `size` payload bytes needs ALIGN(size + 24)
     * bytes of block; the first listed block that large is taken, otherwise
     * the heap grows by that much; NULL when it cannot.  The payload address,
     * 16 bytes into the block, is returned.
     */
    method Malloc(size: nat) returns (ptr: int, ghost k: nat)
      requires Valid()
      modifies mem, roots, this`lists, this`blocks, this`brk
      ensures Valid()
      ensures FirstFit(old(mem[..]), old(lists), Align(size + 24)) != NIL ==>
                ptr == FirstFit(old(mem[..]), old(lists), Align(size + 24)) + 16 && brk == old(brk)
      ensures FirstFit(old(mem[..]), old(lists), Align(size + 24)) == NIL && old(brk) + Align(size + 24) <= MAX_HEAP ==>
                ptr == old(brk) + 16 && brk == old(brk) + Align(size + 24)
      ensures FirstFit(old(mem[..]), old(lists), Align(size + 24)) == NIL && old(brk) + Align(size + 24) > MAX_HEAP ==>
                ptr == NIL && brk == old(brk) && blocks == old(blocks) && mem[..] == old(mem[..])
      ensures ptr != NIL ==> Handed(old(blocks), blocks, k, ptr, size)
      ensures ptr == NIL ==> brk == old(brk) && blocks == old(blocks) && mem[..] == old(mem[..])
      ensures Allotted(old(mem[..]), old(lists), old(blocks), old(brk), size, blocks, k)
      ensures AllocKept(old(mem[..]), mem[..], old(blocks), blocks)
    {
      ghost var B0, m0 := blocks, mem[..];
      var need := Align(size + 24);
      var p := FindFit(need);
      if p != NIL {
        FitFound(mem[..], roots[..], lists, need);
        KindsApart(B0, brk, p);
        var newsize;
        newsize, k := TakeFit(p, need);
        ptr := p + 16;
        KeptAlloc(m0, mem[..], B0, blocks, k);
        HandedIntro(B0, blocks, k, p, ptr, need, size);
      } else {
        p, k := Extend(need);
        AllKeptAlloc(m0, mem[..], B0, blocks);
        if p == NIL {
          return NIL, 0;
        }
        ptr := p + 16;
        HandedIntro(B0, blocks, k, p, ptr, need, size);
      }
    }

    /**
     * mm_malloc when no listed block fits: mem_sbrk moves the break up by
     * `need` bytes and the block at the old break is marked allocated.
     */
    method Extend(need: nat) returns (p: int, ghost k: nat)
      requires Valid() && 24 <= need && need % 8 == 0
      modifies mem, this`brk, this`blocks
      ensures Valid() && lists == old(lists)
      ensures old(brk) + need > MAX_HEAP ==>
                p == NIL && brk == old(brk) && blocks == old(blocks) && mem[..] == old(mem[..])
      ensures old(brk) + need <= MAX_HEAP ==>
                p == old(brk) && brk == old(brk) + need && blocks == old(blocks) + [Blk(p, need, false)] &&
                k == |old(blocks)| && k < |blocks| && blocks[k] == Blk(p, need, false) &&
                p !in AllocStarts(old(blocks)) && AllocStarts(blocks) == AllocStarts(old(blocks)) + {p}
      ensures AllKept(old(mem[..]), mem[..], old(blocks), blocks)
    {
      ghost var B, m0 := blocks, mem[..];
      k := |B|;
      p := Sbrk(need);
      if p == NIL {
        return;
      }
      WordsOf(p, need);
      MarkUsed(p, need);
      ExtendOk(m0, mem[..], roots[..], p, B, lists, need);
      blocks := B + [Blk(p, need, false)];
    }

    /**
     * mm_free: the block whose payload is at `ptr` becomes free, merged with
     * its predecessor and its successor when they are free and the boundary
     * tests let them through, and the merged block goes on its bucket.
     */
    method Free(ptr: int) returns (ghost k: nat)
      requires Valid() && ptr - 16 in AllocStarts(blocks)
      modifies mem, roots, this`lists, this`blocks
      ensures Valid() && brk == old(brk)
      ensures k < |old(blocks)| && old(blocks)[k].start == ptr - 16 && !old(blocks)[k].free
      ensures blocks == Coalesce(old(blocks), brk, k)
      ensures AllocStarts(blocks) == AllocStarts(old(blocks)) - {ptr - 16}
      ensures OthersKept(old(mem[..]), mem[..], old(blocks), brk, k)
    {
      var b := ptr - 16;
      ghost var B, m0 := blocks, mem[..];
      KindsInStarts(B, false);
      k := FindBlock(B, brk, b);
      var pr, ne := Neighbours(b, k);
      AbsorbedIs(B, brk, k, pr, ne);
      var start, size := Absorb(b, pr, ne, B, k);
      ghost var m2, L2 := mem[..], lists;
      FreeClear(B, brk, k, pr, ne, L2, start, size);
      ghost var r2 := roots[..];
      PutFree(start, size);
      CarvedFreed(m2, r2, mem[..], start, size);
      blocks := Coalesce(B, brk, k);
      FreeFinish(m0, m2, mem[..], roots[..], B, brk, L2, lists, k, start, size);
    }

    /**
     * The merging half of mm_free: the sizes of the free neighbours found by
     * Neighbours are added to that of the block at `b`, and the neighbours
     * leave their buckets; `start` is where the merged block begins.
     */
    method Absorb(b: int, pr: int, ne: int, ghost B: seq<Blk>, ghost k: nat) returns (start: int, size: int)
      requires mem != roots && ListsOk(mem[..], roots[..], lists)
      requires Tiled(B, brk) && TagsOk(mem[..], B) && Listed(lists) <= FreeStarts(B)
      requires k < |B| && B[k].start == b
      requires pr != NIL ==> 0 < k && B[k - 1].start == pr && pr in Listed(lists)
      requires ne != NIL ==> k + 1 < |B| && B[k + 1].start == ne && ne in Listed(lists) && ne != pr
      modifies mem, roots, this`lists
      ensures start == (if pr != NIL then pr else b)
      ensures size == (if pr != NIL then B[k - 1].size else 0) + B[k].size + (if ne != NIL then B[k + 1].size else 0)
      ensures ListsOk(mem[..], roots[..], lists)
      ensures Listed(lists) == old(Listed(lists)) - (if pr != NIL then {pr} else {}) - (if ne != NIL then {ne} else {})
      ensures ChangedOnly(old(mem[..]), mem[..], B, 0, 0)
    {
      ghost var m0 := mem[..];
      assert TagOk(m0, B[k]);
      assert Unlinkable(B);
      size := mem[b / 8 + 1];
      start := b;
      var n := Unlink(pr, B, k - 1);
      size := size + n;
      if pr != NIL {
        start := pr;
      }
      ghost var m1 := mem[..];
      n := Unlink(ne, B, k + 1);
      size := size + n;
      ChangedJoin(m0, m1, mem[..], B);
    }

    /** The state mm_free's unlinking of neighbours works in: well-formed buckets over a tiled, tagged heap. */
    ghost predicate Unlinkable(B: seq<Blk>)
      reads this, mem, roots
    {
      mem != roots && ListsOk(mem[..], roots[..], lists) &&
      Tiled(B, brk) && TagsOk(mem[..], B) && Listed(lists) <= FreeStarts(B)
    }

    /** A free neighbour taken off its bucket by mm_free; `n` is its size. */
    method Unlink(x: int, ghost B: seq<Blk>, ghost j: int) returns (n: int)
      requires Unlinkable(B)
      requires x != NIL ==> 0 <= j < |B| && B[j].start == x && x in Listed(lists)
      modifies mem, roots, this`lists
      ensures n == (if x != NIL then B[j].size else 0)
      ensures Unlinkable(B) && Listed(lists) == old(Listed(lists)) - (if x != NIL then {x} else {})
      ensures ChangedOnly(old(mem[..]), mem[..], B, 0, 0)
    {
      n := 0;
      if x != NIL {
        ghost var m0, L0 := mem[..], lists;
        assert TagOk(m0, B[j]) && WellSized(B[j], brk);
        n := mem[x / 8 + 1];
        Erase(x);
        ErasedTags(m0, mem[..], B, brk, L0, x);
      }
    }

    /**
     * The writes shared by the split in mm_malloc and by mm_free: the block of
     * `n` bytes at `b` gets `n` in its header, the header's value in its
     * footer, and goes on its bucket through insert.
     */
    method PutFree(b: int, n: int)
      requires mem != roots && ListsOk(mem[..], roots[..], lists)
      requires 0 <= b && b % 8 == 0 && n % 8 == 0 && 24 <= n && b + n <= MAX_HEAP
      requires Clear(lists, b) && b + 8 !in Listed(lists) && Clear(lists, b + n - 8)
      modifies mem, roots, this`lists
      ensures RootIndex(n / ALIGNMENT) < LIST_SIZE
      ensures Put(old(mem[..]), old(roots[..]), mem[..], b, n)
      ensures Pushed(old(roots[..]), old(lists), roots[..], lists, b, n)
      ensures ListsOk(mem[..], roots[..], lists) && Listed(lists) == old(Listed(lists)) + {b}
    {
      ghost var m2, r2, L2 := mem[..], roots[..], lists;
      WordsOf(b, n);
      MarkListsOk(m2, r2, L2, b, n, n);
      mem[b / 8 + 1] := n;
      mem[(b + mem[b / 8 + 1]) / 8 - 1] := mem[b / 8 + 1];
      ghost var m3 := mem[..];
      assert m3 == m2[HdrWord(b) := n][FtrWord(b, n) := n];
      Insert(b, n);
      TagInsert(m2, m3, mem[..], b, n, r2[RootIndex(n / ALIGNMENT)]);
      assert Put(m2, r2, mem[..], b, n);
    }

    /**
     * mm_free's look at the neighbours of the block at `b`: the predecessor
     * through the footer word just below `b`, the successor through the
     * header of `b`, each only when the boundary test lets it through, and
     * each NULL unless free.
     */
    method Neighbours(b: int, ghost k: nat) returns (pr: int, ne: int)
      requires mem.Length == MAX_WORDS && Tiled(blocks, brk) && TagsOk(mem[..], blocks)
      requires k < |blocks| && blocks[k].start == b
      ensures pr == (if MergeFrom(blocks, k) < k then blocks[k - 1].start else NIL)
      ensures ne == (if k + 1 < MergeTo(blocks, brk, k) then blocks[k + 1].start else NIL)
    {
      pr := PrevFree(b, k);
      ne := NextFree(b, k);
    }

    /** The predecessor half: read the footer just below `b` unless `b` is among the first 32 bytes. */
    method PrevFree(b: int, ghost k: nat) returns (pr: int)
      requires mem.Length == MAX_WORDS && Tiled(blocks, brk) && TagsOk(mem[..], blocks)
      requires k < |blocks| && blocks[k].start == b
      ensures pr == (if MergeFrom(blocks, k) < k then blocks[k - 1].start else NIL)
    {
      pr := NIL;
      if b - 32 >= 0 {
        PrevFooter(mem[..], blocks, brk, k);
        pr := b - mem[b / 8 - 1];
        if mem[b / 8 - 1] % 2 == 1 {
          pr := NIL;
        }
      }
    }

    /** The successor half: read the next block's footer unless it would reach past the last 32 bytes of the heap. */
    method NextFree(b: int, ghost k: nat) returns (ne: int)
      requires mem.Length == MAX_WORDS && Tiled(blocks, brk) && TagsOk(mem[..], blocks)
      requires k < |blocks| && blocks[k].start == b
      ensures ne == (if k + 1 < MergeTo(blocks, brk, k) then blocks[k + 1].start else NIL)
    {
      ne := NIL;
      ghost var m := mem[..];
      assert TagOk(m, blocks[k]) && mem[b / 8 + 1] == blocks[k].size;
      assert WellSized(blocks[k], brk);
      EvenOf8(blocks[k].size);
      if b + mem[b / 8 + 1] + 32 <= brk - 1 {
        NextTags(m, blocks, brk, k);
        // The header holds a multiple of 8, so this test always passes.
        if mem[b / 8 + 1] % 2 == 0 {
          ne := b + mem[b / 8 + 1];
          if mem[(ne + mem[ne / 8 + 1]) / 8 - 1] % 2 == 1 {
            ne := NIL;
          }
        }
      }
    }

    /** mm_malloc's last two writes: the header takes the size, the footer gets its low bit set. */
    method MarkUsed(p: int, n: int)
      requires 0 <= HdrWord(p) < mem.Length && 0 <= FtrWord(p, n) < mem.Length && HdrWord(p) != FtrWord(p, n)
      modifies mem
      ensures mem[..] == Marked(old(mem[..]), p, n)
    {
      mem[p / 8 + 1] := n;
      mem[(p + mem[p / 8 + 1]) / 8 - 1] := SetLowBit(mem[(p + mem[p / 8 + 1]) / 8 - 1]);
    }

    /**
     * mm_malloc on a fit: unlinks the free block `p`, splits off the rest as
     * a new free block when at least 32 bytes remain (otherwise the whole
     * block is handed out) and marks the block allocated.
     */
    method TakeFit(p: int, need: nat) returns (newsize: nat, ghost k: nat)
      requires Valid() && p in FreeStarts(blocks) && 24 <= need && need % 8 == 0
      requires mem[p / 8 + 1] >= need
      modifies mem, roots, this`lists, this`blocks
      ensures Valid() && brk == old(brk)
      ensures k < |old(blocks)| && old(blocks)[k].start == p && old(blocks)[k].free
      ensures blocks == Taken(old(blocks), k, need)
      ensures need <= newsize && mem[p / 8 + 1] == newsize && k < |blocks| && blocks[k] == Blk(p, newsize, false)
      ensures AllocStarts(blocks) == AllocStarts(old(blocks)) + {p}
      ensures KeptBut(old(mem[..]), mem[..], old(blocks), blocks, k)
    {
      ghost var B, m0, L0 := blocks, mem[..], lists;
      KindsInStarts(B, true);
      k := FindBlock(B, brk, p);
      assert TagOk(m0, B[k]) && WellSized(B[k], brk);
      Erase(p);
      ghost var m1, r1, L1 := mem[..], roots[..], lists;
      TakeErased(m0, m1, B, brk, L0, L1, k);
      newsize := Place(p, need, B[k].size);
      blocks := Taken(B, k, need);
      TakeFinish(m0, m1, r1, mem[..], roots[..], B, brk, L1, lists, k, p, need);
      assert blocks[k] == Carve(B[k], need)[0];
    }

    /**
     * The rest of mm_malloc's reuse path, once the block at `p` (of `h` bytes) is off its list:
     * split off the remainder when at least 32 bytes are left, otherwise hand out the whole
     * block; then write the size into the header and set the footer's low bit.
     */
    method Place(p: int, need: nat, ghost h: nat) returns (newsize: nat)
      requires mem.Length == MAX_WORDS && roots.Length == LIST_SIZE && mem != roots && ListsOk(mem[..], roots[..], lists)
      requires 0 <= p && p % 8 == 0 && h % 8 == 0 && need % 8 == 0 && 24 <= need <= h && p + h <= MAX_HEAP
      requires mem[p / 8 + 1] == h && mem[FtrWord(p, h)] == h && Unlisted(lists, p, p + h)
      modifies mem, roots, this`lists
      ensures newsize == (if h - need >= MIN_SPLIT then need else h)
      ensures PlaceWords(old(mem[..]), old(roots[..]), mem[..], p, h, need)
      ensures if h - need >= MIN_SPLIT then Pushed(old(roots[..]), old(lists), roots[..], lists, p + need, h - need)
              else roots[..] == old(roots[..]) && lists == old(lists)
      ensures mem[p / 8 + 1] == newsize && ListsOk(mem[..], roots[..], lists)
      ensures Listed(lists) == old(Listed(lists)) + (if h - need >= MIN_SPLIT then {p + need} else {})
    {
      ghost var m0, r0, L0 := mem[..], roots[..], lists;
      newsize := Cut(p, need, h);
      ghost var m2 := mem[..];
      PlaceClear(L0, lists, p, h, need, newsize);
      MarkListed(p, newsize);
      PlaceWordsIntro(m0, r0, m2, mem[..], p, h, need, newsize);
    }

    /** The choice in mm_malloc: split off the remainder when at least 32 bytes are left, else keep the whole block. */
    method Cut(p: int, need: nat, ghost h: nat) returns (newsize: nat)
      requires mem.Length == MAX_WORDS && roots.Length == LIST_SIZE && mem != roots && ListsOk(mem[..], roots[..], lists)
      requires 0 <= p && p % 8 == 0 && h % 8 == 0 && need % 8 == 0 && 24 <= need <= h && p + h <= MAX_HEAP
      requires mem[p / 8 + 1] == h && Unlisted(lists, p, p + h)
      modifies mem, roots, this`lists
      ensures newsize == (if h - need >= MIN_SPLIT then need else h)
      ensures if h - need >= MIN_SPLIT then Put(old(mem[..]), old(roots[..]), mem[..], p + need, h - need)
              else mem[..] == old(mem[..])
      ensures if h - need >= MIN_SPLIT then Pushed(old(roots[..]), old(lists), roots[..], lists, p + need, h - need)
              else roots[..] == old(roots[..]) && lists == old(lists)
      ensures ListsOk(mem[..], roots[..], lists)
      ensures Listed(lists) == old(Listed(lists)) + (if h - need >= MIN_SPLIT then {p + need} else {})
    {
      var size := mem[p / 8 + 1];
      if size - need >= MIN_SPLIT {
        Split(p, need, size);
        newsize := need;
      } else {
        newsize := size;
      }
    }

    /** MarkUsed on a block that is off the lists: the bucket chains are untouched. */
    method MarkListed(p: int, n: int)
      requires mem != roots && ListsOk(mem[..], roots[..], lists)
      requires 0 <= p && p % 8 == 0 && n % 8 == 0 && 24 <= n && p + n <= MAX_HEAP
      requires Clear(lists, HdrWord(p) * 8) && Clear(lists, FtrWord(p, n) * 8)
      modifies mem
      ensures mem[..] == Marked(old(mem[..]), p, n) && mem[p / 8 + 1] == n
      ensures roots[..] == old(roots[..]) && ListsOk(mem[..], roots[..], lists)
    {
      ghost var m2, r2 := mem[..], roots[..];
      WordsOf(p, n);
      MarkedOk(m2, r2, lists, p, n);
      MarkUsed(p, n);
      assert roots[..] == r2;
    }

    /** The split in mm_malloc: the remainder past `need` bytes of the block at `p` becomes a free block. */
    method Split(p: int, need: nat, h: nat)
      requires mem.Length == MAX_WORDS && roots.Length == LIST_SIZE && mem != roots && ListsOk(mem[..], roots[..], lists)
      requires 0 <= p && p % 8 == 0 && h % 8 == 0 && need % 8 == 0 && 24 <= need
      requires h - need >= MIN_SPLIT && p + h <= MAX_HEAP && mem[p / 8 + 1] == h
      requires Unlisted(lists, p, p + h)
      modifies mem, roots, this`lists
      ensures RootIndex((h - need) / ALIGNMENT) < LIST_SIZE
      ensures Put(old(mem[..]), old(roots[..]), mem[..], p + need, h - need)
      ensures Pushed(old(roots[..]), old(lists), roots[..], lists, p + need, h - need)
      ensures ListsOk(mem[..], roots[..], lists) && Listed(lists) == old(Listed(lists)) + {p + need}
    {
      assert (p + need) % 8 == 0 && (h - need) % 8 == 0 &&
             Clear(lists, p + need) && p + need + 8 !in Listed(lists) && Clear(lists, p + need + (h - need) - 8) by {
        SplitWordsOf(p, need, h);
        SplitClear(lists, p, p + need, h - need);
      }
      PutFree(p + need, h - need);
    }

    /**
     * mm_realloc, with its first two tests put in the order that frees
     * nothing twice: a NULL pointer is a plain mm_malloc, a zero size a
     * plain mm_free, and otherwise the payload moves to a new block (Move).
     * `h` is the size of the block at `ptr`; `k` is the index of the new
     * block, or on the zero-size path that of the freed one; `calls` lists
     * the mm_malloc and mm_free calls made, in order.
     */
    method Realloc(ptr: int, size: nat) returns (newptr: int, ghost calls: seq<Call>, ghost k: nat, ghost h: nat)
      requires Valid() && (ptr == NIL || ptr - 16 in AllocStarts(blocks))
      modifies mem, roots, this`lists, this`blocks, this`brk
      ensures Valid()
      ensures calls == ReallocCalls(ptr, size, newptr)
      ensures ptr != NIL ==> Blk(ptr - 16, h, false) in old(blocks) && 24 <= h
      ensures ptr == NIL ==> Allotted(old(mem[..]), old(lists), old(blocks), old(brk), size, blocks, k)
      ensures ptr != NIL && size == 0 ==>
                newptr == NIL && AllocStarts(blocks) == AllocStarts(old(blocks)) - {ptr - 16} &&
                k < |old(blocks)| && old(blocks)[k].start == ptr - 16 && blocks == Coalesce(old(blocks), brk, k)
      ensures newptr == NIL && (ptr == NIL || size > 0) ==>
                brk == old(brk) && blocks == old(blocks) && mem[..] == old(mem[..])
      ensures newptr != NIL ==> Granted(old(blocks), blocks, k, newptr, size, if ptr == NIL then {} else {ptr - 16})
      ensures ptr != NIL && newptr != NIL ==> 24 <= h && Moved(old(mem[..]), mem[..], ptr, newptr, CopyCount(h, size))
      ensures AllocKeptBut(old(mem[..]), mem[..], old(blocks), blocks, ptr - 16)
    {
      if ptr == NIL {
        ghost var c;
        newptr, k, c := Fresh(size, NIL);
        return newptr, [c], k, 0;
      }
      if size == 0 {
        ghost var c;
        h, k, c := Release(ptr);
        return NIL, [c], k, h;
      }
      newptr, k, h, calls := Move(ptr, size);
    }

    /**
     * mm_malloc as mm_realloc uses it; the new payload is not at `busy`,
     * which is in use.  `c` is the call made.
     */
    method Fresh(size: nat, ghost busy: int) returns (newptr: int, ghost k: nat, ghost c: Call)
      requires Valid() && (busy == NIL || busy - 16 in AllocStarts(blocks))
      modifies mem, roots, this`lists, this`blocks, this`brk
      ensures Valid() && (busy != NIL ==> newptr != busy) && c == MallocCall(size)
      ensures newptr == NIL ==> brk == old(brk) && blocks == old(blocks) && mem[..] == old(mem[..])
      ensures newptr != NIL ==> Granted(old(blocks), blocks, k, newptr, size, {})
      ensures Allotted(old(mem[..]), old(lists), old(blocks), old(brk), size, blocks, k)
      ensures AllocKept(old(mem[..]), mem[..], old(blocks), blocks)
    {
      ghost var B0 := blocks;
      newptr, k := Malloc(size);
      c := MallocCall(size);
      if newptr != NIL {
        HandedGranted(B0, blocks, k, newptr, size);
      }
      if busy != NIL {
        assert newptr - 16 != busy - 16;
      }
    }

    /**
     * mm_free as mm_realloc uses it; `h` is the size of the released block,
     * `k` its index, `c` the call made.
     */
    method Release(ptr: int) returns (ghost h: nat, ghost k: nat, ghost c: Call)
      requires Valid() && ptr - 16 in AllocStarts(blocks)
      modifies mem, roots, this`lists, this`blocks
      ensures Valid() && brk == old(brk) && c == FreeCall(ptr)
      ensures Blk(ptr - 16, h, false) in old(blocks) && 24 <= h
      ensures k < |old(blocks)| && old(blocks)[k].start == ptr - 16 && blocks == Coalesce(old(blocks), brk, k)
      ensures AllocStarts(blocks) == AllocStarts(old(blocks)) - {ptr - 16}
      ensures AllocKeptBut(old(mem[..]), mem[..], old(blocks), blocks, ptr - 16)
    {
      h := OldSize(ptr);
      k := Free(ptr);
      c := FreeCall(ptr);
    }

    /** The size of the allocated block whose payload is at `ptr`. */
    ghost method OldSize(ptr: int) returns (h: nat)
      requires Valid() && ptr - 16 in AllocStarts(blocks)
      ensures 16 <= ptr && Blk(ptr - 16, h, false) in blocks && 24 <= h
    {
      var j :| 0 <= j < |blocks| && !blocks[j].free && blocks[j].start == ptr - 16;
      assert WellSized(blocks[j], brk);
      h := blocks[j].size;
      assert blocks[j] == Blk(ptr - 16, h, false);
    }

    /** The index of block `x` in the current block list. */
    ghost method Survivor(x: Blk) returns (j: nat)
      requires x in blocks
      ensures j < |blocks| && blocks[j] == x
    {
      j :| 0 <= j < |blocks| && blocks[j] == x;
    }

    /**
     * The main path of mm_realloc: a block for `size` bytes from mm_malloc,
     * the old payload carried into it, the old block freed.  When mm_malloc
     * fails nothing changes and NULL is returned.  `calls` lists the calls
     * made, in order.
     */
    method Move(ptr: int, size: nat) returns (newptr: int, ghost k: nat, ghost h: nat, ghost calls: seq<Call>)
      requires Valid() && ptr - 16 in AllocStarts(blocks)
      modifies mem, roots, this`lists, this`blocks, this`brk
      ensures Valid()
      ensures calls == [MallocCall(size)] + (if newptr == NIL then [] else [FreeCall(ptr)])
      ensures Blk(ptr - 16, h, false) in old(blocks) && 24 <= h
      ensures newptr == NIL ==> brk == old(brk) && blocks == old(blocks) && mem[..] == old(mem[..])
      ensures newptr != NIL ==> Granted(old(blocks), blocks, k, newptr, size, {ptr - 16})
      ensures newptr != NIL ==> Moved(old(mem[..]), mem[..], ptr, newptr, CopyCount(h, size))
      ensures AllocKeptBut(old(mem[..]), mem[..], old(blocks), blocks, ptr - 16)
    {
      ghost var B0, m0 := blocks, mem[..];
      h := OldSize(ptr);
      ghost var kn, c1;
      newptr, kn, c1 := Fresh(size, ptr);
      if newptr == NIL {
        k := 0;
        calls := [c1] + [];
        return;
      }
      ghost var c2;
      k, c2 := CopyAndFree(ptr, newptr, size, h, kn, m0, B0);
      calls := [c1] + [c2];
    }

    /**
     * The memcpy and mm_free of mm_realloc, seen from before the mm_malloc
     * that made block kn: `m0` and `B0` are the words and blocks then.
     */
    method CopyAndFree(ptr: int, newptr: int, size: nat, ghost h: nat, ghost kn: nat, ghost m0: seq<int>, ghost B0: seq<Blk>)
        returns (ghost k: nat, ghost c: Call)
      requires Valid() && 16 <= ptr && Blk(ptr - 16, h, false) in B0 && 24 <= h && ptr - 16 in AllocStarts(B0)
      requires Granted(B0, blocks, kn, newptr, size, {}) && |m0| == MAX_WORDS
      requires AllocKept(m0, mem[..], B0, blocks)
      modifies mem, roots, this`lists, this`blocks
      ensures Valid() && c == FreeCall(ptr)
      ensures Relocated(m0, mem[..], B0, blocks, k, ptr, newptr, size, h)
    {
      ghost var m1, B1 := mem[..], blocks;
      assert Blk(ptr - 16, h, false) in B1 && PayloadSame(m0, m1, Blk(ptr - 16, h, false)) &&
             (ptr - 16) % 8 == 0 && 8 * CopyCount(h, size) <= h - 24 by {
        KeptOne(m0, m1, B0, B1, Blk(ptr - 16, h, false));
        CopyFromBlock(B1, brk, ptr, h, size);
        GrantedNew(B0, B1, kn, newptr, size, ptr);
      }
      k, c := CopyThenFree(ptr, newptr, size, h, kn);
      ghost var m3 := mem[..];
      assert Relocated(m0, m3, B0, blocks, k, ptr, newptr, size, h) by {
        MovedKeptSrc(m0, m1, m3, Blk(ptr - 16, h, false), ptr, newptr, CopyCount(h, size));
        GrantedIntro(B0, B1, blocks, k, kn, newptr, ptr, size);
        KeptChain(m0, m1, m3, B0, B1, blocks, ptr - 16, kn, newptr, size);
      }
    }

    /**
     * CopySize bytes, read from the header of the old block, go from `ptr`
     * to the new block kn at `newptr`, then the old block is freed.
     */
    method CopyThenFree(ptr: int, newptr: int, size: nat, ghost h: nat, ghost kn: nat) returns (ghost k: nat, ghost c: Call)
      requires Valid() && 16 <= ptr && Blk(ptr - 16, h, false) in blocks && 24 <= h
      requires kn < |blocks| && blocks[kn].start == newptr - 16 && !blocks[kn].free && blocks[kn].size >= size + 24
      requires newptr != ptr
      modifies mem, roots, this`lists, this`blocks
      ensures Valid() && c == FreeCall(ptr)
      ensures k < |blocks| && blocks[k] == old(blocks)[kn]
      ensures AllocStarts(blocks) == AllocStarts(old(blocks)) - {ptr - 16}
      ensures Moved(old(mem[..]), mem[..], ptr, newptr, CopyCount(h, size))
      ensures KeptBesides(old(mem[..]), mem[..], old(blocks), blocks, ptr - 16, kn)
    {
      ghost var m1, B1 := mem[..], blocks;
      assert WellSized(B1[kn], brk);
      CarryOver(ptr, newptr, size, h, kn);
      ghost var m2 := mem[..];
      k, c := FreeOld(ptr, h, kn);
      ghost var m3 := mem[..];
      assert Moved(m1, m3, ptr, newptr, CopyCount(h, size)) && KeptBesides(m1, m3, B1, blocks, ptr - 16, kn) by {
        CopyFits(h, size, B1[kn].size);
        MovedKeptDst(m1, m2, m3, B1[kn], ptr, newptr, CopyCount(h, size));
        KeptThrough(m1, m2, m3, B1, blocks, ptr - 16, kn);
      }
    }

    /**
     * The mm_free of mm_realloc: the old block goes, the new block kn stays
     * with its payload, now at index k, and so does every other allocated
     * block; `c` is the call made.
     */
    method FreeOld(ptr: int, ghost h: nat, ghost kn: nat) returns (ghost k: nat, ghost c: Call)
      requires Valid() && 16 <= ptr && Blk(ptr - 16, h, false) in blocks
      requires kn < |blocks| && !blocks[kn].free && blocks[kn].start != ptr - 16
      modifies mem, roots, this`lists, this`blocks
      ensures Valid() && brk == old(brk) && c == FreeCall(ptr)
      ensures k < |blocks| && blocks[k] == old(blocks)[kn]
      ensures PayloadSame(old(mem[..]), mem[..], old(blocks)[kn])
      ensures AllocStarts(blocks) == AllocStarts(old(blocks)) - {ptr - 16}
      ensures AllocKeptBut(old(mem[..]), mem[..], old(blocks), blocks, ptr - 16)
    {
      ghost var B1 := blocks;
      ghost var j1 := Survivor(Blk(ptr - 16, h, false));
      StartIn(B1, j1, false);
      ghost var fk := Free(ptr);
      c := FreeCall(ptr);
      StartsUnique(B1, brk, fk, j1);
      assert B1[kn] in blocks;
      k := Survivor(B1[kn]);
    }

    /**
     * The memcpy of mm_realloc: CopySize bytes, with the size read from the
     * header of the old block, go from `ptr` into the new block kn at
     * `newptr`; every other block keeps its payload.
     */
    method CarryOver(ptr: int, newptr: int, size: nat, ghost h: nat, ghost kn: nat)
      requires Valid() && 16 <= ptr && Blk(ptr - 16, h, false) in blocks && 24 <= h
      requires kn < |blocks| && blocks[kn].start == newptr - 16 && !blocks[kn].free && blocks[kn].size >= size + 24
      requires newptr != ptr
      modifies mem
      ensures Valid()
      ensures Moved(old(mem[..]), mem[..], ptr, newptr, CopyCount(h, size))
      ensures PayloadsKept(old(mem[..]), mem[..], blocks, kn)
    {
      ghost var j1 := Survivor(Blk(ptr - 16, h, false));
      assert TagOk(mem[..], blocks[j1]) && WellSized(blocks[j1], brk) && WellSized(blocks[kn], brk);
      HeaderWord(ptr - 16);
      var copySize := CopySize(mem[ptr / 8 - 1], size);
      var n := Align(copySize) / ALIGNMENT;
      CopyFits(h, size, blocks[kn].size);
      Apart(blocks, brk, j1, kn, n);
      CopyWords(newptr, ptr, n, kn);
    }

    /** One word stored into the payload of the allocated block k. */
    method PutWord(w: int, v: int, ghost k: nat)
      requires Valid() && k < |blocks| && blocks[k].start + 16 <= w * 8 < blocks[k].End() - 8
      modifies mem
      ensures Valid() && mem[..] == old(mem[..])[w := v]
    {
      ghost var m1, r1 := mem[..], roots[..];
      assert WellSized(blocks[k], brk);
      PayloadWriteOk(m1, r1, brk, blocks, lists, k, w, v);
      mem[w] := v;
      assert mem[..] == m1[w := v] && roots[..] == r1;
    }

    /**
     * The memcpy of mm_realloc, a word at a time: `n` words from `src` into
     * the payload of the allocated block k, which starts at `dst`; the
     * words at `src` lie outside that block.
     */
    method CopyWords(dst: int, src: int, n: nat, ghost k: nat)
      requires Valid() && k < |blocks| && !blocks[k].free && dst == blocks[k].start + 16
      requires 8 * n <= blocks[k].size - 24
      requires 0 <= src && src % 8 == 0 && src + 8 * n <= MAX_HEAP
      requires src + 8 * n <= blocks[k].start || blocks[k].End() <= src
      modifies mem
      ensures Valid()
      ensures Moved(old(mem[..]), mem[..], src, dst, n)
      ensures forall j :: 0 <= j < |blocks| && j != k ==> PayloadSame(old(mem[..]), mem[..], blocks[j])
    {
      ghost var m0 := mem[..];
      var d, s := dst / 8, src / 8;
      CopyRange(blocks[k], brk, dst, src, n);
      var i := 0;
      while i < n
        invariant 0 <= i <= n && Valid()
        invariant CopiedUpTo(m0, mem[..], d, s, i)
      {
        CopyOne(d, s, i, n, k, m0);
        i := i + 1;
      }
      MovedIntro(m0, mem[..], src, dst, n);
      OutsidePayload(m0, mem[..], blocks, brk, k, d, d + n, s);
    }

    /** One word of CopyWords: word s + i of the old memory goes to word d + i of block k's payload. */
    method CopyOne(d: int, s: int, i: nat, n: nat, ghost k: nat, ghost m0: seq<int>)
      requires Valid() && k < |blocks| && blocks[k].start + 16 == 8 * d && 8 * (d + n) <= blocks[k].End() - 8
      requires CopiedUpTo(m0, mem[..], d, s, i) && i < n
      requires 0 <= s && s + n <= MAX_WORDS && (s + n <= d || d + n <= s)
      modifies mem
      ensures Valid() && CopiedUpTo(m0, mem[..], d, s, i + 1)
    {
      ghost var m1 := mem[..];
      PutWord(d + i, mem[s + i], k);
      CopyStep(m0, m1, mem[..], d, s, i, n);
    }
  }

  /** `m'` differs from `m` only in link words of the blocks in `L` other than `b`. */
  ghost predicate LinksOnly(m: seq<int>, m': seq<int>, L: seq<int>, b: int)
  {
    |m'| == |m| && forall w :: 0 <= w < |m| && m'[w] != m[w] ==> w * 8 in L && w * 8 != b
  }

  /** What insert does to the words, the roots and the lists keeps the bucket table well formed. */
  lemma InsertOk(m: seq<int>, roots: seq<int>, lists: seq<seq<int>>, b: int, h: int, i: int)
    requires ListsOk(m, roots, lists) && Node(m, b) && h == m[b / 8 + 1]
    requires 24 <= h && h % 8 == 0 && b + h <= MAX_HEAP && i == RootIndex(h / ALIGNMENT)
    requires Clear(lists, b) && b + 8 !in Listed(lists) && Clear(lists, b + h - 8)
    ensures i < LIST_SIZE && 0 <= FtrWord(b, h) < |m| && roots[i] != b
    ensures ListsOk(m[FtrWord(b, h) := h][b / 8 := roots[i]], roots[i := b], lists[i := [b] + lists[i]])
    ensures Listed(lists[i := [b] + lists[i]]) == Listed(lists) + {b}
  {
    RootIndexInRange(h);
    WordsOf(b, h);
    ListsOkWrite(m, roots, lists, FtrWord(b, h), h);
    var m1 := m[FtrWord(b, h) := h];
    assert InBucket(m1, b, i);
    if |lists[i]| > 0 {
      ListedIn(lists, i, 0);
    }
    ListsOkPush(m1, roots, lists, i, b);
  }


  /** erase of a later entry: the predecessor's link word takes the entry's link. */
  lemma EraseAfter(m: seq<int>, roots: seq<int>, lists: seq<seq<int>>, i: int, k: int, b: int)
    requires ListsOk(m, roots, lists) && 0 <= i < LIST_SIZE && 0 < k < |lists[i]|
    requires lists[i][k] == b && b !in lists[i][..k]
    ensures var L := lists[i];
            var m' := m[L[k - 1] / 8 := m[L[k] / 8]];
            var l' := lists[i := Remove(L, b)];
            ListsOk(m', roots, l') && Listed(l') == Listed(lists) - {b} && LinksOnly(m, m', L, b)
  {
    var L := lists[i];
    assert Linked(m, roots[i], L) && NoDup(L);
    assert L[k - 1] != b;
    RemoveAt(L, b, k);
    ListsOkUnlinkAfter(m, roots, lists, i, k);
  }

  /** erase of the first entry: the root takes the entry's link. */
  lemma EraseHead(m: seq<int>, roots: seq<int>, lists: seq<seq<int>>, i: int, b: int)
    requires ListsOk(m, roots, lists) && 0 <= i < LIST_SIZE && 0 < |lists[i]| && lists[i][0] == b
    ensures var L := lists[i];
            var l' := lists[i := Remove(L, b)];
            ListsOk(m, roots[i := m[L[0] / 8]], l') && Listed(l') == Listed(lists) - {b}
  {
    ListsOkUnlinkHead(m, roots, lists, i);
  }

  /** erase of a block its bucket does not hold changes nothing. */
  lemma EraseMissing(m: seq<int>, roots: seq<int>, lists: seq<seq<int>>, b: int)
    requires ListsOk(m, roots, lists) && Node(m, b) && 0 <= m[HdrWord(b)] <= MAX_HEAP
    requires b !in lists[RootIndex(m[HdrWord(b)] / ALIGNMENT)]
    ensures var i := RootIndex(m[HdrWord(b)] / ALIGNMENT);
            lists[i := Remove(lists[i], b)] == lists && Listed(lists) == Listed(lists) - {b}
  {
    var i := RootIndex(m[HdrWord(b)] / ALIGNMENT);
    RemoveAbsent(lists[i], b);
    ListedBucket(m, roots, lists, b);
  }

  /**
   * The words after header, footer and insert for a free block of `n` bytes at
   * `b`, from the words `m` and roots `r`: its tags hold `n`, its link the old root.
   */
  ghost predicate Put(m: seq<int>, r: seq<int>, m': seq<int>, b: int, n: int)
  {
    |m| == MAX_WORDS && |r| == LIST_SIZE && 0 <= b && b % 8 == 0 && n % 8 == 0 && 24 <= n && b + n <= MAX_HEAP &&
    RootIndex(n / ALIGNMENT) < LIST_SIZE && m' == Carved(m, b, n, r[RootIndex(n / ALIGNMENT)])
  }

  /** What insert does to the roots `r` and bucket contents `L`: `b` goes on the front of the bucket of a block of `n` bytes. */
  ghost predicate Pushed(r: seq<int>, L: seq<seq<int>>, r': seq<int>, L': seq<seq<int>>, b: int, n: int)
  {
    0 <= n &&
    var i := RootIndex(n / ALIGNMENT);
    i < |r| && i < |L| && r' == r[i := b] && L' == L[i := [b] + L[i]]
  }

  /** No block in the bucket table starts in [lo, hi). */
  ghost predicate Unlisted(lists: seq<seq<int>>, lo: int, hi: int)
  {
    forall x :: lo <= x < hi ==> x !in Listed(lists)
  }

  /**
   * The words after mm_malloc's reuse path, from the words `m` and roots `r` once the
   * block of `h` bytes at `p` is off its list: the split writes when at least 32 bytes
   * remain, then the marking of the handed-out block.
   */
  ghost predicate PlaceWords(m: seq<int>, r: seq<int>, m': seq<int>, p: int, h: int, need: int)
  {
    |m| == MAX_WORDS && |r| == LIST_SIZE && 0 <= p && p % 8 == 0 && h % 8 == 0 && need % 8 == 0 &&
    24 <= need <= h && p + h <= MAX_HEAP &&
    if h - need >= MIN_SPLIT then
      m' == Marked(Carved(m, p + need, h - need, r[RootIndex((h - need) / ALIGNMENT)]), p, need)
    else
      m' == Marked(m, p, h)
  }

  /** The marking writes no link word, and leaves the size in the header. */
  lemma MarkedOk(m: seq<int>, r: seq<int>, L: seq<seq<int>>, p: int, n: int)
    requires ListsOk(m, r, L) && 0 <= HdrWord(p) < |m| && 0 <= FtrWord(p, n) < |m| && HdrWord(p) != FtrWord(p, n)
    requires Clear(L, HdrWord(p) * 8) && Clear(L, FtrWord(p, n) * 8)
    ensures ListsOk(Marked(m, p, n), r, L) && Marked(m, p, n)[HdrWord(p)] == n
  {
    MarkListsOk(m, r, L, p, n, SetLowBit(m[FtrWord(p, n)]));
  }

  /** The split (when taken) followed by the marking gives the words PlaceWords describes. */
  lemma PlaceWordsIntro(m0: seq<int>, r0: seq<int>, m2: seq<int>, m3: seq<int>, p: int, h: int, need: int, newsize: int)
    requires |m0| == MAX_WORDS && |r0| == LIST_SIZE && 0 <= p && p % 8 == 0 && h % 8 == 0 && need % 8 == 0
    requires 24 <= need <= h && p + h <= MAX_HEAP
    requires newsize == (if h - need >= MIN_SPLIT then need else h)
    requires if h - need >= MIN_SPLIT then Put(m0, r0, m2, p + need, h - need) else m2 == m0
    requires 0 <= HdrWord(p) < |m2| && 0 <= FtrWord(p, newsize) < |m2| && m3 == Marked(m2, p, newsize)
    ensures PlaceWords(m0, r0, m3, p, h, need)
  {
  }

  /** Nothing listed, before or after the split, lies where mm_malloc writes the taken block's tags. */
  lemma PlaceClear(L: seq<seq<int>>, L': seq<seq<int>>, p: int, h: int, need: int, newsize: int)
    requires Unlisted(L, p, p + h) && 24 <= need <= h && need % 8 == 0 && h % 8 == 0 && p % 8 == 0
    requires newsize == (if h - need >= MIN_SPLIT then need else h)
    requires Listed(L') == Listed(L) + (if h - need >= MIN_SPLIT then {p + need} else {})
    ensures Clear(L', HdrWord(p) * 8) && Clear(L', FtrWord(p, newsize) * 8)
  {
    WordsOf(p, newsize);
  }

  /** Nothing listed lies near the remainder of `r` bytes at `q` that the split writes and inserts. */
  lemma SplitClear(L: seq<seq<int>>, p: int, q: int, r: int)
    requires Unlisted(L, p, q + r) && p + 24 <= q && r >= MIN_SPLIT && q % 8 == 0 && r % 8 == 0
    ensures Clear(L, HdrWord(q) * 8) && Clear(L, FtrWord(q, r) * 8)
    ensures Clear(L, q) && q + 8 !in Listed(L) && Clear(L, q + r - 8)
  {
    WordsOf(q, r);
  }

  /** The words after mm_malloc's last two writes: size in the header, low bit set in the footer. */
  function Marked(m: seq<int>, p: int, n: int): seq<int>
    requires 0 <= HdrWord(p) < |m| && 0 <= FtrWord(p, n) < |m|
  {
    m[HdrWord(p) := n][FtrWord(p, n) := SetLowBit(m[FtrWord(p, n)])]
  }

  /** The words after the split: the remainder at `q` gets its tags and, through insert, its link. */
  function Carved(m: seq<int>, q: int, r: int, link: int): seq<int>
    requires 0 <= q / 8 < |m| && 0 <= HdrWord(q) < |m| && 0 <= FtrWord(q, r) < |m|
  {
    m[HdrWord(q) := r][FtrWord(q, r) := r][q / 8 := link]
  }

  /** The word indices of the remainder split off `need` bytes into an aligned block of `h` bytes. */
  lemma SplitWordsOf(p: int, need: int, h: int)
    requires p % 8 == 0 && need % 8 == 0 && h % 8 == 0
    ensures (p + need) % 8 == 0 && (h - need) % 8 == 0 && ((p + need) / 8) * 8 == p + need
    ensures HdrWord(p + need) * 8 == p + need + 8 && FtrWord(p + need, h - need) * 8 == p + h - 8
  {
  }

  /** erase changes link words only, so every block keeps its tags. */
  lemma ErasedTags(m0: seq<int>, m1: seq<int>, B: seq<Blk>, brk: nat, L0: seq<seq<int>>, x: int)
    requires Tiled(B, brk) && |m0| == MAX_WORDS && TagsOk(m0, B) && Listed(L0) <= FreeStarts(B)
    requires 0 <= HdrWord(x) < |m0| && 0 <= m0[HdrWord(x)]
    requires var i := RootIndex(m0[HdrWord(x)] / ALIGNMENT);
             i < |L0| && LinksOnly(m0, m1, L0[i], x)
    ensures ChangedOnly(m0, m1, B, 0, 0) && TagsOk(m1, B)
  {
    var i := RootIndex(m0[HdrWord(x)] / ALIGNMENT);
    KindsInStarts(B, true);
    forall y | y in L0[i] ensures y in Starts(B) {
      var j :| 0 <= j < |L0[i]| && L0[i][j] == y;
      ListedIn(L0, i, j);
    }
    forall j | 0 <= j < |B| ensures TagOk(m1, B[j]) {
      TagsKeep(m0, m1, B, brk, 0, 0, j);
    }
  }

  /** The free neighbours mm_free merges into block k. */
  ghost function Absorbed(B: seq<Blk>, brk: nat, k: nat): set<int>
    requires k < |B|
  {
    (if MergeFrom(B, k) < k then {B[k - 1].start as int} else {}) +
    (if k + 1 < MergeTo(B, brk, k) then {B[k + 1].start as int} else {})
  }

  /** The absorbed neighbours are those Neighbours reports. */
  lemma AbsorbedIs(B: seq<Blk>, brk: nat, k: nat, pr: int, ne: int)
    requires k < |B|
    requires pr == (if MergeFrom(B, k) < k then B[k - 1].start else NIL)
    requires ne == (if k + 1 < MergeTo(B, brk, k) then B[k + 1].start else NIL)
    ensures Absorbed(B, brk, k) == (if pr != NIL then {pr} else {}) + (if ne != NIL then {ne} else {})
    ensures pr != NIL ==> 0 < k && B[k - 1].start == pr && pr in FreeStarts(B)
    ensures ne != NIL ==> k + 1 < |B| && B[k + 1].start == ne && ne in FreeStarts(B)
    ensures Tiled(B, brk) ==>
              (ne != NIL ==> ne != pr) &&
              B[MergeFrom(B, k)].start == (if pr != NIL then pr else B[k].start) &&
              B[MergeTo(B, brk, k) - 1].End() - B[MergeFrom(B, k)].start ==
                (if pr != NIL then B[k - 1].size else 0) + B[k].size + (if ne != NIL then B[k + 1].size else 0)
  {
    if Tiled(B, brk) && ne != NIL {
      assert WellSized(B[k], brk) && WellSized(B[k + 1], brk);
      if pr != NIL {
        assert WellSized(B[k - 1], brk);
      }
    }
  }

  /** Changes at block starts only, twice over, are changes at block starts only. */
  lemma ChangedJoin(m0: seq<int>, m1: seq<int>, m2: seq<int>, B: seq<Blk>)
    requires ChangedOnly(m0, m1, B, 0, 0) && ChangedOnly(m1, m2, B, 0, 0)
    ensures ChangedOnly(m0, m2, B, 0, 0)
  {
  }

  /** `m'` is `m` with a free block of `n` bytes at `s`: its size in the header and the footer, and a new link word. */
  ghost predicate Freed(m: seq<int>, m': seq<int>, s: int, n: int)
  {
    |m'| == |m| && 0 <= HdrWord(s) < |m| && 0 <= FtrWord(s, n) < |m| &&
    m'[HdrWord(s)] == n && m'[FtrWord(s, n)] == n &&
    forall w :: 0 <= w < |m| && m'[w] != m[w] ==> w == s / 8 || w == HdrWord(s) || w == FtrWord(s, n)
  }

  /** insert rewrites the footer just written, so the words are those of Carved. */
  lemma TagInsert(m2: seq<int>, m3: seq<int>, m4: seq<int>, s: int, n: int, v: int)
    requires 0 <= s && s % 8 == 0 && n % 8 == 0 && 24 <= n && (s + n) / 8 <= |m2|
    requires m3 == m2[HdrWord(s) := n][FtrWord(s, n) := n]
    requires m4 == m3[FtrWord(s, n) := n][s / 8 := v]
    ensures m4 == Carved(m2, s, n, v)
  {
    WordsOf(s, n);
  }

  /** A carved block is a freed one: tags of `n`, and no word changed outside its link, header and footer. */
  lemma CarvedFreed(m: seq<int>, r: seq<int>, m': seq<int>, s: int, n: int)
    requires Put(m, r, m', s, n)
    ensures Freed(m, m', s, n)
  {
    WordsOf(s, n);
  }

  /** Nothing still listed when mm_free writes the merged block lies in or right below it. */
  lemma FreeClear(B: seq<Blk>, brk: nat, k: nat, pr: int, ne: int, L2: seq<seq<int>>, s: int, n: int)
    requires Tiled(B, brk) && k < |B| && !B[k].free
    requires pr == (if MergeFrom(B, k) < k then B[k - 1].start else NIL)
    requires ne == (if k + 1 < MergeTo(B, brk, k) then B[k + 1].start else NIL)
    requires Listed(L2) == FreeStarts(B) - (if pr != NIL then {pr} else {}) - (if ne != NIL then {ne} else {})
    requires s == (if pr != NIL then pr else B[k].start)
    requires pr != NIL ==> 0 < k
    requires ne != NIL ==> k + 1 < |B|
    requires n == (if pr != NIL then B[k - 1].size else 0) + B[k].size + (if ne != NIL then B[k + 1].size else 0)
    ensures Absorbing(B, brk, k, L2, s, n)
    ensures 0 <= s && 24 <= n && n % 8 == 0 && s % 8 == 0 && s + n <= MAX_HEAP
    ensures Clear(L2, s) && s + 8 !in Listed(L2) && Clear(L2, s + n - 8)
  {
    AbsorbedIs(B, brk, k, pr, ne);
    FreeRun(B, brk, k);
    FreeClearAll(B, brk, k, Listed(L2));
    ClearAround(Listed(L2), s, n);
  }

  /** The merged run starts and ends on aligned addresses inside the heap and spans at least one block. */
  lemma FreeRun(B: seq<Blk>, brk: nat, k: nat)
    requires Tiled(B, brk) && k < |B| && !B[k].free
    ensures MergeFrom(B, k) <= k < MergeTo(B, brk, k) <= |B|
    ensures var s, e := B[MergeFrom(B, k)].start, B[MergeTo(B, brk, k) - 1].End();
              0 <= s && s + 24 <= e && (e - s) % 8 == 0 && s % 8 == 0 && e <= MAX_HEAP
  {
    var a, c := MergeFrom(B, k), MergeTo(B, brk, k);
    MergeBounds(B, brk, k);
    OutsideRun(B, brk, a, c, k);
    assert WellSized(B[a], brk) && WellSized(B[c - 1], brk) && WellSized(B[k], brk);
    AlignedSpan(B[a], B[c - 1]);
  }

  /** No start outside [s - 24, s + n) is the run's start, its header or footer, or the word below it. */
  lemma ClearAround(S: set<int>, s: int, n: int)
    requires 24 <= n && forall y | y in S :: y + 24 <= s || s + n <= y
    ensures s !in S && s - 8 !in S && s + 8 !in S && s + n - 8 !in S && s + n - 16 !in S
  {
  }

  /** Every free block but the absorbed neighbours lies wholly outside the merged run. */
  lemma FreeClearAll(B: seq<Blk>, brk: nat, k: nat, S: set<int>)
    requires Tiled(B, brk) && k < |B| && !B[k].free
    requires S == FreeStarts(B) - Absorbed(B, brk, k)
    ensures forall y | y in S :: y + 24 <= B[MergeFrom(B, k)].start || B[MergeTo(B, brk, k) - 1].End() <= y
  {
    forall y | y in S ensures y + 24 <= B[MergeFrom(B, k)].start || B[MergeTo(B, brk, k) - 1].End() <= y {
      FreeClearOne(B, brk, k, y);
    }
  }

  /**
   * After the merging half of mm_free: `L2` holds every free block but the
   * absorbed neighbours, and [s, s + n) is the merged run around block k.
   */
  ghost predicate Absorbing(B: seq<Blk>, brk: nat, k: nat, L2: seq<seq<int>>, s: int, n: int)
  {
    Tiled(B, brk) && k < |B| && !B[k].free &&
    Listed(L2) == FreeStarts(B) - Absorbed(B, brk, k) &&
    s == B[MergeFrom(B, k)].start && n == B[MergeTo(B, brk, k) - 1].End() - s
  }

  /** The bytes from the start of one aligned block to the end of another are a multiple of 8. */
  lemma AlignedSpan(x: Blk, y: Blk)
    requires x.start % 8 == 0 && y.start % 8 == 0 && y.size % 8 == 0
    ensures (y.End() - x.start) % 8 == 0
  {
    assert y.End() - x.start == 8 * (y.start / 8 + y.size / 8 - x.start / 8);
  }

  /** A free block other than the merged neighbours lies wholly outside the merged run. */
  lemma FreeClearOne(B: seq<Blk>, brk: nat, k: nat, y: int)
    requires Tiled(B, brk) && k < |B| && !B[k].free && y in FreeStarts(B)
    requires MergeFrom(B, k) < k ==> y != B[k - 1].start
    requires k + 1 < MergeTo(B, brk, k) ==> y != B[k + 1].start
    ensures y + 24 <= B[MergeFrom(B, k)].start || B[MergeTo(B, brk, k) - 1].End() <= y
  {
    var a, c := MergeFrom(B, k), MergeTo(B, brk, k);
    MergeBounds(B, brk, k);
    var j :| 0 <= j < |B| && B[j].free && B[j].start == y;
    OutsideRun(B, brk, a, c, j);
    assert WellSized(B[j], brk);
  }

  /** Link-word changes followed by the writes of the merged block stay at block starts and inside the block. */
  lemma FreedChanged(m0: seq<int>, m2: seq<int>, m4: seq<int>, B: seq<Blk>, s: int, n: int)
    requires ChangedOnly(m0, m2, B, 0, 0) && Freed(m2, m4, s, n)
    requires 0 <= s && s % 8 == 0 && n % 8 == 0 && 24 <= n
    ensures ChangedOnly(m0, m4, B, s, s + n)
    ensures TagOk(m4, Blk(s, n, true))
  {
    WordsOf(s, n);
  }

  /**
   * mm_free as a whole: after the erases of the merged neighbours and the
   * writing and insertion of the merged block, the coalesced blocks form a
   * well-formed heap in which the freed block is no longer allocated and
   * every other allocated block, with its payload, is as before.
   */
  lemma FreeFinish(m0: seq<int>, m2: seq<int>, m4: seq<int>, r4: seq<int>, B: seq<Blk>, brk: nat,
                   L2: seq<seq<int>>, L4: seq<seq<int>>, k: nat, s: int, n: int)
    requires Absorbing(B, brk, k, L2, s, n) && |m0| == MAX_WORDS && TagsOk(m0, B)
    requires ChangedOnly(m0, m2, B, 0, 0)
    requires ListsOk(m4, r4, L4) && Listed(L4) == Listed(L2) + {s}
    requires Freed(m2, m4, s, n) && 0 <= s && s % 8 == 0 && n % 8 == 0 && 24 <= n
    ensures HeapOk(m4, r4, brk, Coalesce(B, brk, k), L4)
    ensures AllocStarts(Coalesce(B, brk, k)) == AllocStarts(B) - {B[k].start as int}
    ensures OthersKept(m0, m4, B, brk, k)
  {
    FreedChanged(m0, m2, m4, B, s, n);
    CoalesceOk(m0, m4, B, brk, k, s, n);
    CoalesceTiled(B, brk, k);
    CoalesceKinds(B, brk, k);
  }

  /** After erase unlinks the taken block: its tags are intact, only link words changed, and nothing listed lies inside it. */
  lemma TakeErased(m0: seq<int>, m1: seq<int>, B: seq<Blk>, brk: nat, L0: seq<seq<int>>, L1: seq<seq<int>>, k: nat)
    requires Tiled(B, brk) && |m0| == MAX_WORDS && TagsOk(m0, B) && k < |B| && B[k].free
    requires Listed(L0) == FreeStarts(B) && |L0| == LIST_SIZE
    requires var i := RootIndex(m0[B[k].start / 8 + 1] / ALIGNMENT);
             i < LIST_SIZE && LinksOnly(m0, m1, L0[i], B[k].start)
    requires Listed(L1) == Listed(L0) - {B[k].start as int}
    ensures ChangedOnly(m0, m1, B, B[k].start, B[k].End())
    ensures m1[HdrWord(B[k].start)] == B[k].size && m1[FtrWord(B[k].start, B[k].size)] == B[k].size
    ensures Unlisted(L1, B[k].start, B[k].End())
  {
    var i := RootIndex(m0[B[k].start / 8 + 1] / ALIGNMENT);
    KindsInStarts(B, true);
    forall x | x in L0[i] ensures x in Starts(B) {
      var j :| 0 <= j < |L0[i]| && L0[i][j] == x;
      ListedIn(L0, i, j);
    }
    assert TagOk(m0, B[k]) && WellSized(B[k], brk);
    WordsOf(B[k].start, B[k].size);
    InteriorNotStart(B, brk, k, B[k].start + 8);
    InteriorNotStart(B, brk, k, B[k].End() - 8);
    forall x | B[k].start <= x < B[k].End() ensures x !in Listed(L1) {
      if x != B[k].start {
        InteriorNotStart(B, brk, k, x);
      }
    }
  }

  /** The words written by the split and by the marking all lie inside the taken block. */
  lemma PlaceChanged(m0: seq<int>, m1: seq<int>, r1: seq<int>, m3: seq<int>, B: seq<Blk>, brk: nat, k: nat, p: int, need: nat)
    requires |m0| == MAX_WORDS && k < |B| && p == B[k].start && WellSized(B[k], brk) && brk <= MAX_HEAP
    requires ChangedOnly(m0, m1, B, B[k].start, B[k].End())
    requires PlaceWords(m1, r1, m3, p, B[k].size, need)
    ensures ChangedOnly(m0, m3, B, B[k].start, B[k].End())
  {
    PlaceWordsAt(m1, r1, m3, p, B[k].size, need);
  }

  /** After marking, the carved blocks carry their tags. */
  lemma MarkTags(m1: seq<int>, r1: seq<int>, m3: seq<int>, b: Blk, brk: nat, p: int, need: nat)
    requires p == b.start && WellSized(b, brk) && brk <= MAX_HEAP
    requires PlaceWords(m1, r1, m3, p, b.size, need)
    ensures TagsOk(m3, Carve(b, need))
  {
    PlaceWordsAt(m1, r1, m3, p, b.size, need);
    CarveTagged(m3, b, need);
  }

  /** The carved blocks are tagged once the headers and footers PlaceWordsAt describes are in place. */
  lemma CarveTagged(m3: seq<int>, b: Blk, need: nat)
    requires |m3| == MAX_WORDS && 0 <= b.start && b.start % 8 == 0 && b.size % 8 == 0 && need % 8 == 0
    requires 24 <= need <= b.size && b.End() <= MAX_HEAP
    requires var p, h := b.start, b.size;
             (h - need >= MIN_SPLIT ==>
                m3[HdrWord(p)] == need && m3[FtrWord(p, need)] % 2 == 1 &&
                m3[HdrWord(p + need)] == h - need && m3[FtrWord(p + need, h - need)] == h - need) &&
             (h - need < MIN_SPLIT ==> m3[HdrWord(p)] == h && m3[FtrWord(p, h)] % 2 == 1)
    ensures TagsOk(m3, Carve(b, need))
  {
    var p := b.start;
    var X := Carve(b, need);
    if b.size - need >= MIN_SPLIT {
      assert X == [Blk(p, need, false), Blk(p + need, b.size - need, true)];
      TagFrom(m3, X[0]);
      TagFrom(m3, X[1]);
    } else {
      assert X == [Blk(p, b.size, false)];
      TagFrom(m3, X[0]);
    }
  }

  /** A block inside the heap is tagged once its header and footer words say so. */
  lemma TagFrom(m: seq<int>, x: Blk)
    requires |m| == MAX_WORDS && x.start >= 0 && x.start % 8 == 0 && x.size % 8 == 0
    requires 16 <= x.size && x.End() <= MAX_HEAP
    requires m[HdrWord(x.start)] == x.size
    requires if x.free then m[FtrWord(x.start, x.size)] == x.size else m[FtrWord(x.start, x.size)] % 2 == 1
    ensures TagOk(m, x)
  {
    WordsOf(x.start, x.size);
  }

  /** The words mm_malloc's placement writes: all inside the taken block, with the tags of the carved blocks. */
  lemma PlaceWordsAt(m1: seq<int>, r1: seq<int>, m3: seq<int>, p: int, h: int, need: int)
    requires PlaceWords(m1, r1, m3, p, h, need)
    ensures |m3| == |m1|
    ensures forall w :: 0 <= w < |m1| && m3[w] != m1[w] ==> p <= w * 8 < p + h
    ensures h - need >= MIN_SPLIT ==>
              m3[HdrWord(p)] == need && m3[FtrWord(p, need)] % 2 == 1 &&
              m3[HdrWord(p + need)] == h - need && m3[FtrWord(p + need, h - need)] == h - need
    ensures h - need < MIN_SPLIT ==> m3[HdrWord(p)] == h && m3[FtrWord(p, h)] % 2 == 1
  {
    if h - need >= MIN_SPLIT {
      SplitWordsAt(m1, r1[RootIndex((h - need) / ALIGNMENT)], m3, p, h, need);
    } else {
      WordsOf(p, h);
      MarkedAt(m1, p, h);
    }
  }

  /** PlaceWordsAt when the remainder is split off: the words of the two new blocks' tags. */
  lemma SplitWordsAt(m1: seq<int>, v: int, m3: seq<int>, p: int, h: int, need: int)
    requires |m1| == MAX_WORDS && 0 <= p && p % 8 == 0 && h % 8 == 0 && need % 8 == 0
    requires 24 <= need && h - need >= MIN_SPLIT && p + h <= MAX_HEAP
    requires m3 == Marked(Carved(m1, p + need, h - need, v), p, need)
    ensures |m3| == |m1|
    ensures forall w :: 0 <= w < |m1| && m3[w] != m1[w] ==> p <= w * 8 < p + h
    ensures m3[HdrWord(p)] == need && m3[FtrWord(p, need)] % 2 == 1
    ensures m3[HdrWord(p + need)] == h - need && m3[FtrWord(p + need, h - need)] == h - need
  {
    WordsOf(p, need);
    WordsOf(p + need, h - need);
    CarvedAt(m1, p + need, h - need, v);
    MarkedAt(Carved(m1, p + need, h - need, v), p, need);
  }

  /** What Carved writes, word by word. */
  lemma CarvedAt(m: seq<int>, q: int, r: int, link: int)
    requires 0 <= q && q % 8 == 0 && r % 8 == 0 && 24 <= r && (q + r) / 8 <= |m|
    ensures |Carved(m, q, r, link)| == |m|
    ensures Carved(m, q, r, link)[HdrWord(q)] == r && Carved(m, q, r, link)[FtrWord(q, r)] == r
    ensures forall w :: 0 <= w < |m| && w != q / 8 && w != HdrWord(q) && w != FtrWord(q, r) ==>
              Carved(m, q, r, link)[w] == m[w]
  {
  }

  /** What Marked writes, word by word. */
  lemma MarkedAt(m: seq<int>, p: int, n: int)
    requires 0 <= p && p % 8 == 0 && n % 8 == 0 && 24 <= n && (p + n) / 8 <= |m|
    ensures |Marked(m, p, n)| == |m|
    ensures Marked(m, p, n)[HdrWord(p)] == n && Marked(m, p, n)[FtrWord(p, n)] % 2 == 1
    ensures forall w :: 0 <= w < |m| && w != HdrWord(p) && w != FtrWord(p, n) ==> Marked(m, p, n)[w] == m[w]
  {
  }

  /**
   * mm_malloc's reuse path as a whole: after the erase, the split and the marking, the carved
   * blocks form a well-formed heap in which the taken block is allocated and every other
   * block, with its payload, is as before.
   */
  lemma TakeFinish(m0: seq<int>, m1: seq<int>, r1: seq<int>, m3: seq<int>, r3: seq<int>, B: seq<Blk>, brk: nat,
                   L1: seq<seq<int>>, L3: seq<seq<int>>, k: nat, p: int, need: nat)
    requires Tiled(B, brk) && k < |B| && p == B[k].start && |m0| == MAX_WORDS && TagsOk(m0, B) && k < |B| && B[k].free
    requires need % 8 == 0 && 24 <= need <= B[k].size
    requires ChangedOnly(m0, m1, B, B[k].start, B[k].End())
    requires m1[HdrWord(B[k].start)] == B[k].size && m1[FtrWord(B[k].start, B[k].size)] == B[k].size
    requires Listed(L1) == FreeStarts(B) - {p}
    requires ListsOk(m3, r3, L3)
    requires Listed(L3) == Listed(L1) + (if B[k].size - need >= MIN_SPLIT then {p + need} else {})
    requires PlaceWords(m1, r1, m3, p, B[k].size, need)
    ensures HeapOk(m3, r3, brk, Taken(B, k, need), L3)
    ensures AllocStarts(Taken(B, k, need)) == AllocStarts(B) + {p}
    ensures KeptBut(m0, m3, B, Taken(B, k, need), k)
  {
    TakeTags(m0, m1, r1, m3, B, brk, k, p, need);
    CarveStarts(B, brk, k, p, need);
    SwapMember(Listed(L1), Listed(L3), FreeStarts(B), FreeStarts(Taken(B, k, need)), p,
               if B[k].size - need >= MIN_SPLIT then {p + need} else {});
  }

  /**
   * The block list mm_malloc leaves behind for a request of `size` bytes,
   * given the words, buckets, blocks and break it starts from: on a fit,
   * block k is the first fit and is carved by Taken (so its size is
   * ALIGN(size + 24), or the whole block when less than 32 bytes would be
   * left); otherwise block k is a new allocated block of ALIGN(size + 24)
   * bytes at the old break, or nothing changes when the heap is full.
   */
  ghost predicate Allotted(m: seq<int>, L: seq<seq<int>>, B: seq<Blk>, brk: nat, size: nat, B': seq<Blk>, k: nat)
  {
    var need := Align(size + 24);
    var p := FirstFit(m, L, need);
    if p != NIL then k < |B| && B[k].start == p && B[k].free && B' == Taken(B, k, need)
    else if brk + need <= MAX_HEAP then k == |B| && B' == B + [Blk(brk, need, false)]
    else B' == B
  }

  /**
   * Block k of `B'` is the block mm_malloc hands out at `ptr` for a request of
   * `size` bytes: allocated, room for the request and the 24 bytes of
   * overhead, and the only block that was not allocated before.
   */
  ghost predicate Handed(B: seq<Blk>, B': seq<Blk>, k: nat, ptr: int, size: nat)
  {
    k < |B'| && B'[k].start == ptr - 16 && !B'[k].free && B'[k].size >= size + 24 &&
    ptr - 16 !in AllocStarts(B) && AllocStarts(B') == AllocStarts(B) + {ptr - 16}
  }

  lemma HandedIntro(B: seq<Blk>, B': seq<Blk>, k: nat, p: int, ptr: int, need: nat, size: nat)
    requires k < |B'| && B'[k].start == p && !B'[k].free && B'[k].size >= need && need >= size + 24
    requires p !in AllocStarts(B) && AllocStarts(B') == AllocStarts(B) + {p} && ptr == p + 16
    ensures Handed(B, B', k, ptr, size)
  {
  }

  /** Set bookkeeping shared by the list and the block view: take `p` out, put `X` in. */
  lemma SwapMember(S1: set<int>, S3: set<int>, F: set<int>, F': set<int>, p: int, X: set<int>)
    requires S1 == F - {p} && S3 == S1 + X && F' == F - {p} + X
    ensures S3 == F'
  {
  }

  /** The taken block's words stay inside it, so the carved list is tiled and tagged and the other blocks keep their payloads. */
  lemma TakeTags(m0: seq<int>, m1: seq<int>, r1: seq<int>, m3: seq<int>, B: seq<Blk>, brk: nat, k: nat, p: int, need: nat)
    requires Tiled(B, brk) && k < |B| && p == B[k].start && |m0| == MAX_WORDS && TagsOk(m0, B) && B[k].free
    requires need % 8 == 0 && 24 <= need <= B[k].size
    requires ChangedOnly(m0, m1, B, B[k].start, B[k].End())
    requires m1[HdrWord(B[k].start)] == B[k].size && m1[FtrWord(B[k].start, B[k].size)] == B[k].size
    requires PlaceWords(m1, r1, m3, p, B[k].size, need)
    ensures Tiled(Taken(B, k, need), brk) && TagsOk(m3, Taken(B, k, need))
    ensures KeptBut(m0, m3, B, Taken(B, k, need), k)
  {
    assert WellSized(B[k], brk);
    Placed(m0, m1, r1, m3, B, brk, k, p, need);
    CarveOk(m0, m3, B, brk, k, need);
  }

  /** The words written by the split and the marking stay inside the taken block and give the carved blocks their tags. */
  lemma Placed(m0: seq<int>, m1: seq<int>, r1: seq<int>, m3: seq<int>, B: seq<Blk>, brk: nat, k: nat, p: int, need: nat)
    requires |m0| == MAX_WORDS && k < |B| && p == B[k].start && WellSized(B[k], brk) && brk <= MAX_HEAP
    requires need % 8 == 0 && 24 <= need <= B[k].size
    requires ChangedOnly(m0, m1, B, B[k].start, B[k].End())
    requires m1[HdrWord(B[k].start)] == B[k].size && m1[FtrWord(B[k].start, B[k].size)] == B[k].size
    requires PlaceWords(m1, r1, m3, p, B[k].size, need)
    ensures ChangedOnly(m0, m3, B, B[k].start, B[k].End()) && TagsOk(m3, Carve(B[k], need))
  {
    PlaceChanged(m0, m1, r1, m3, B, brk, k, p, need);
    MarkTags(m1, r1, m3, B[k], brk, p, need);
  }

  /**
   * The block mm_realloc hands out at `ptr` for `size` bytes is block k of
   * `B'`: allocated, room for the request and the overhead, new, and the
   * only change to the allocated blocks besides the release of `gone`.
   */
  ghost predicate Granted(B: seq<Blk>, B': seq<Blk>, k: nat, ptr: int, size: nat, gone: set<int>)
  {
    k < |B'| && B'[k].start == ptr - 16 && !B'[k].free && B'[k].size >= size + 24 &&
    ptr - 16 !in AllocStarts(B) && AllocStarts(B') == AllocStarts(B) - gone + {ptr - 16}
  }

  lemma HandedGranted(B: seq<Blk>, B': seq<Blk>, k: nat, ptr: int, size: nat)
    requires Handed(B, B', k, ptr, size)
    ensures Granted(B, B', k, ptr, size, {})
  {
    assert AllocStarts(B) - {} == AllocStarts(B);
  }

  lemma GrantedIntro(B0: seq<Blk>, B1: seq<Blk>, B2: seq<Blk>, k: nat, kn: nat, newptr: int, ptr: int, size: nat)
    requires Granted(B0, B1, kn, newptr, size, {}) && ptr - 16 in AllocStarts(B0)
    requires AllocStarts(B2) == AllocStarts(B1) - {ptr - 16}
    requires k < |B2| && B2[k] == B1[kn]
    ensures Granted(B0, B2, k, newptr, size, {ptr - 16})
  {
  }

  /** The header of the block at `b`, seen from its payload address. */
  lemma HeaderWord(b: int)
    requires b % 8 == 0
    ensures HdrWord(b) == (b + 16) / 8 - 1
  {
  }

  /** Two different blocks are apart: `n` words from the payload of the first miss the second. */
  lemma Apart(B: seq<Blk>, brk: nat, j: nat, k: nat, n: nat)
    requires Tiled(B, brk) && j < |B| && k < |B| && B[j].start != B[k].start
    requires 8 * n <= B[j].size - 24
    ensures B[j].start + 16 + 8 * n <= B[k].start || B[k].End() <= B[j].start + 16
  {
    if j < k {
      Ordered(B, brk, j, k);
    } else if k < j {
      Ordered(B, brk, k, j);
    }
  }

  /** The word arithmetic of CopyWords: `n` words at `dst` lie in the payload of `b` and miss those at `src`. */
  lemma CopyRange(b: Blk, brk: nat, dst: int, src: int, n: nat)
    requires WellSized(b, brk) && brk <= MAX_HEAP && dst == b.start + 16 && 8 * n <= b.size - 24
    requires 0 <= src && src % 8 == 0 && src + 8 * n <= MAX_HEAP
    requires src + 8 * n <= b.start || b.End() <= src
    ensures 8 * (dst / 8) == dst && 8 * (src / 8) == src
    ensures dst / 8 + n <= MAX_WORDS && src / 8 + n <= MAX_WORDS
    ensures src / 8 + n <= dst / 8 || dst / 8 + n <= src / 8
  {
  }

  /**
   * The state of CopyWords after `i` words: the words [d, d + i) hold the
   * words [s, s + i) of `m0`, and no other word has changed.
   */
  ghost predicate CopiedUpTo(m0: seq<int>, m: seq<int>, d: int, s: int, i: int)
  {
    |m| == |m0| == MAX_WORDS && 0 <= d && d + i <= MAX_WORDS && 0 <= s && s + i <= MAX_WORDS &&
    (forall w :: 0 <= w < MAX_WORDS && !(d <= w < d + i) ==> m[w] == m0[w]) &&
    (forall w :: s <= w < s + i ==> m[w - s + d] == m0[w])
  }

  lemma CopyStep(m0: seq<int>, m: seq<int>, m': seq<int>, d: int, s: int, i: nat, n: nat)
    requires CopiedUpTo(m0, m, d, s, i) && i < n
    requires 0 <= d && d + n <= MAX_WORDS && 0 <= s && s + n <= MAX_WORDS && (s + n <= d || d + n <= s)
    requires m' == m[d + i := m[s + i]]
    ensures CopiedUpTo(m0, m', d, s, i + 1)
  {
  }

  lemma MovedIntro(m0: seq<int>, m: seq<int>, src: int, dst: int, n: nat)
    requires 0 <= src / 8 && src / 8 + n <= MAX_WORDS && 0 <= dst / 8 && dst / 8 + n <= MAX_WORDS
    requires CopiedUpTo(m0, m, dst / 8, src / 8, n)
    ensures Moved(m0, m, src, dst, n)
  {
  }

  /** Changes confined to words [lo, hi) of the payload of block k keep every other payload. */
  lemma OutsidePayload(m0: seq<int>, m: seq<int>, B: seq<Blk>, brk: nat, k: nat, lo: int, hi: int, src: int)
    requires Tiled(B, brk) && |m0| == MAX_WORDS && |m| == MAX_WORDS && k < |B|
    requires CopiedUpTo(m0, m, lo, src, hi - lo)
    requires B[k].start + 16 <= lo * 8 && hi * 8 <= B[k].End() - 8
    ensures forall j :: 0 <= j < |B| && j != k ==> PayloadSame(m0, m, B[j])
  {
    forall j | 0 <= j < |B| && j != k ensures PayloadSame(m0, m, B[j]) {
      assert WellSized(B[j], brk);
      if j < k {
        Ordered(B, brk, j, k);
      } else {
        Ordered(B, brk, k, j);
      }
    }
  }

  /** mm_malloc keeps the old payload, so what the copy moved is what was there before mm_malloc. */
  lemma MovedKeptSrc(m0: seq<int>, m1: seq<int>, m2: seq<int>, s: Blk, src: int, dst: int, n: nat)
    requires |m0| == |m1| && s.start % 8 == 0 && src == s.start + 16 && 8 * n <= s.size - 24
    requires PayloadSame(m0, m1, s) && Moved(m1, m2, src, dst, n)
    ensures Moved(m0, m2, src, dst, n)
  {
  }

  /** mm_free keeps the new payload, so what the copy moved is still there after mm_free. */
  lemma MovedKeptDst(m1: seq<int>, m2: seq<int>, m3: seq<int>, d: Blk, src: int, dst: int, n: nat)
    requires |m2| == |m3| && d.start % 8 == 0 && dst == d.start + 16 && 8 * n <= d.size - 24
    requires Moved(m1, m2, src, dst, n) && PayloadSame(m2, m3, d)
    ensures Moved(m1, m3, src, dst, n)
  {
  }

  /**
   * mm_realloc's move, from words `m` and blocks `B` to `m'` and `B'`: block
   * k of `B'` is the granted block at `newptr`, which took the place of the
   * block at `ptr` (of `h` bytes) among the allocated ones; the first
   * CopyCount words of the old payload are in the new one; and every other
   * allocated block keeps its place and payload.
   */
  ghost predicate Relocated(m: seq<int>, m': seq<int>, B: seq<Blk>, B': seq<Blk>, k: nat, ptr: int, newptr: int, size: nat, h: nat)
  {
    24 <= h && Granted(B, B', k, newptr, size, {ptr - 16}) && Moved(m, m', ptr, newptr, CopyCount(h, size)) &&
    AllocKeptBut(m, m', B, B', ptr - 16)
  }

  /** The block mm_malloc grants is block kn, and is not the block at `ptr`, which was allocated already. */
  lemma GrantedNew(B: seq<Blk>, B': seq<Blk>, kn: nat, newptr: int, size: nat, ptr: int)
    requires Granted(B, B', kn, newptr, size, {}) && ptr - 16 in AllocStarts(B)
    ensures kn < |B'| && B'[kn].start == newptr - 16 && !B'[kn].free && B'[kn].size >= size + 24 && newptr != ptr
  {
  }

  /** One allocated block that AllocKept keeps. */
  lemma KeptOne(m: seq<int>, m': seq<int>, B: seq<Blk>, B': seq<Blk>, x: Blk)
    requires AllocKept(m, m', B, B') && x in B && !x.free
    ensures x in B' && PayloadSame(m, m', x)
  {
    var j :| 0 <= j < |B| && B[j] == x;
  }

  /** The old block of mm_realloc is aligned, and the words copied out of it lie inside its payload. */
  lemma CopyFromBlock(B: seq<Blk>, brk: nat, ptr: int, h: nat, size: nat)
    requires Tiled(B, brk) && 16 <= ptr && Blk(ptr - 16, h, false) in B
    ensures 24 <= h && (ptr - 16) % 8 == 0 && 8 * CopyCount(h, size) <= h - 24
  {
    var j :| 0 <= j < |B| && B[j] == Blk(ptr - 16, h, false);
    assert WellSized(B[j], brk);
    CopyWithin(h, size);
  }

  /** Every block of `B` other than block kn keeps its payload words. */
  ghost predicate PayloadsKept(m: seq<int>, m': seq<int>, B: seq<Blk>, kn: nat)
  {
    forall j :: 0 <= j < |B| && j != kn ==> PayloadSame(m, m', B[j])
  }

  /** Every allocated block of `B` other than block kn and the one at `b` is still in `B'`, with its payload words. */
  ghost predicate KeptBesides(m: seq<int>, m': seq<int>, B: seq<Blk>, B': seq<Blk>, b: int, kn: nat)
  {
    forall j :: 0 <= j < |B| && !B[j].free && j != kn && B[j].start != b ==> B[j] in B' && PayloadSame(m, m', B[j])
  }

  /** The memcpy keeps every payload but block kn's, and mm_free every allocated one but the freed block's. */
  lemma KeptThrough(m1: seq<int>, m2: seq<int>, m3: seq<int>, B: seq<Blk>, B': seq<Blk>, b: int, kn: nat)
    requires |m1| == |m2| == |m3|
    requires PayloadsKept(m1, m2, B, kn)
    requires AllocKeptBut(m2, m3, B, B', b)
    ensures KeptBesides(m1, m3, B, B', b, kn)
  {
  }

  /**
   * mm_malloc keeps every allocated block, and the block it hands out (kn)
   * is new, so the copy and mm_free that follow keep every allocated block
   * that was there before except the one at `b`.
   */
  lemma KeptChain(m0: seq<int>, m1: seq<int>, m2: seq<int>, B0: seq<Blk>, B1: seq<Blk>, B2: seq<Blk>, b: int, kn: nat,
                  newptr: int, size: nat)
    requires |m0| == |m1| == |m2|
    requires AllocKept(m0, m1, B0, B1) && KeptBesides(m1, m2, B1, B2, b, kn)
    requires Granted(B0, B1, kn, newptr, size, {})
    ensures AllocKeptBut(m0, m2, B0, B2, b)
  {
    forall j | 0 <= j < |B0| && !B0[j].free && B0[j].start != b
      ensures B0[j] in B2 && PayloadSame(m0, m2, B0[j])
    {
      var i :| 0 <= i < |B1| && B1[i] == B0[j];
      StartIn(B0, j, false);
    }
  }
}
