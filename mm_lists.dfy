/**
 * The segregated free lists of malloclab-handout/mm.c: one NULL-terminated,
 * singly linked list per bucket, threaded through the link words of the free
 * blocks and rooted in the table m_root.  The ghost value `lists[i]` is the
 * sequence of block offsets met when walking bucket i from its root.
 */
module MmLists {
  import opened MmLayout

  /** An offset whose link word and header word lie inside the heap. */
  predicate Node(m: seq<int>, c: int)
  {
    0 <= c && c % 8 == 0 && c / 8 + 1 < |m|
  }

  /** `L` is what `next` visits from `root` until it reaches NULL. */
  ghost predicate Linked(m: seq<int>, root: int, L: seq<int>)
  {
    root == (if |L| == 0 then NIL else L[0]) &&
    (forall j :: 0 <= j < |L| ==> Node(m, L[j])) &&
    (forall j :: 0 < j < |L| ==> m[L[j - 1] / 8] == L[j]) &&
    (|L| > 0 ==> m[L[|L| - 1] / 8] == NIL)
  }

  ghost predicate NoDup(L: seq<int>)
  {
    forall j, j' :: 0 <= j < j' < |L| ==> L[j] != L[j']
  }

  /** The header of the block at `c` sends it to bucket `i`. */
  ghost predicate InBucket(m: seq<int>, c: int, i: int)
  {
    Node(m, c) && m[HdrWord(c)] >= 0 && RootIndex(m[HdrWord(c)] / ALIGNMENT) == i
  }

  ghost function Listed(lists: seq<seq<int>>): set<int>
  {
    set i, j | 0 <= i < |lists| && 0 <= j < |lists[i]| :: lists[i][j]
  }

  /** The bucket table: every list well linked, duplicate-free and in the bucket its headers name. */
  ghost predicate ListsOk(m: seq<int>, roots: seq<int>, lists: seq<seq<int>>)
  {
    |m| == MAX_WORDS && |roots| == LIST_SIZE && |lists| == LIST_SIZE &&
    (forall i :: 0 <= i < LIST_SIZE ==> Linked(m, roots[i], lists[i]) && NoDup(lists[i])) &&
    (forall i, j :: 0 <= i < LIST_SIZE && 0 <= j < |lists[i]| ==> InBucket(m, lists[i][j], i)) &&
    (forall c, d :: c in Listed(lists) && d in Listed(lists) ==> d != c + 8)
  }

  /** Byte offset `x` is neither the link word nor the header word of a listed block. */
  ghost predicate Clear(lists: seq<seq<int>>, x: int)
  {
    x !in Listed(lists) && x - 8 !in Listed(lists)
  }

  /** Removes the first occurrence of `b`, keeping the order of the others. */
  function Remove(L: seq<int>, b: int): seq<int>
  {
    if |L| == 0 then [] else if L[0] == b then L[1..] else [L[0]] + Remove(L[1..], b)
  }

  lemma {:induction false} RemoveAt(L: seq<int>, b: int, k: nat)
    requires k < |L| && L[k] == b && b !in L[..k]
    ensures Remove(L, b) == L[..k] + L[k + 1..]
  {
    if k > 0 {
      assert L[1..][..k - 1] == L[1..k];
      RemoveAt(L[1..], b, k - 1);
      assert L[1..][k..] == L[k + 1..];
    }
  }

  lemma {:induction false} RemoveAbsent(L: seq<int>, b: int)
    requires b !in L
    ensures Remove(L, b) == L
  {
    if |L| > 0 {
      RemoveAbsent(L[1..], b);
    }
  }

  lemma {:induction false} RemoveElems(L: seq<int>, b: int, x: int)
    requires NoDup(L)
    ensures x in Remove(L, b) <==> x in L && x != b
  {
    if |L| > 0 {
      assert NoDup(L[1..]);
      RemoveElems(L[1..], b, x);
      if L[0] == b {
        assert b !in L[1..];
      }
    }
  }

  lemma ListedIn(lists: seq<seq<int>>, i: int, j: int)
    requires 0 <= i < |lists| && 0 <= j < |lists[i]|
    ensures lists[i][j] in Listed(lists)
  {
  }

  lemma ListedEmpty(n: nat)
    ensures Listed(seq(n, _ => [])) == {}
  {
    var e: seq<seq<int>> := seq(n, _ => []);
    forall i | 0 <= i < n ensures |e[i]| == 0 {
    }
  }

  /** mm_init's table: every root NULL and every bucket empty. */
  lemma EmptyListsOk(m: seq<int>, roots: seq<int>)
    requires |m| == MAX_WORDS && |roots| == LIST_SIZE
    requires forall i :: 0 <= i < LIST_SIZE ==> roots[i] == NIL
    ensures ListsOk(m, roots, seq(LIST_SIZE, _ => [])) && Listed(seq(LIST_SIZE, _ => [])) == {}
  {
    var e: seq<seq<int>> := seq(LIST_SIZE, _ => []);
    ListedEmpty(LIST_SIZE);
    forall i | 0 <= i < LIST_SIZE ensures Linked(m, roots[i], e[i]) && NoDup(e[i]) {
      assert |e[i]| == 0;
    }
  }

  /** A list survives a write to a word that is not one of its link words. */
  lemma LinkedWrite(m: seq<int>, root: int, L: seq<int>, w: int, v: int)
    requires Linked(m, root, L) && 0 <= w < |m|
    requires forall j :: 0 <= j < |L| ==> L[j] != w * 8
    ensures Linked(m[w := v], root, L)
  {
    var m' := m[w := v];
    forall j | 0 < j < |L| ensures m'[L[j - 1] / 8] == L[j] {
      assert L[j - 1] != w * 8;
    }
    if |L| > 0 {
      assert L[|L| - 1] != w * 8;
    }
  }

  /** A write to a word that is no listed block's link or header word leaves the table intact. */
  lemma ListsOkWrite(m: seq<int>, roots: seq<int>, lists: seq<seq<int>>, w: int, v: int)
    requires ListsOk(m, roots, lists) && 0 <= w < |m| && Clear(lists, w * 8)
    ensures ListsOk(m[w := v], roots, lists)
  {
    var m' := m[w := v];
    forall i, j | 0 <= i < LIST_SIZE && 0 <= j < |lists[i]|
      ensures InBucket(m', lists[i][j], i)
    {
      ListedIn(lists, i, j);
      assert InBucket(m, lists[i][j], i);
    }
    forall i | 0 <= i < LIST_SIZE ensures Linked(m', roots[i], lists[i]) {
      forall j | 0 <= j < |lists[i]| ensures lists[i][j] != w * 8 {
        ListedIn(lists, i, j);
      }
      LinkedWrite(m, roots[i], lists[i], w, v);
    }
  }

  /** A block can only be listed in the bucket its header names. */
  lemma ListedBucket(m: seq<int>, roots: seq<int>, lists: seq<seq<int>>, b: int)
    requires ListsOk(m, roots, lists) && Node(m, b) && m[HdrWord(b)] >= 0
    requires RootIndex(m[HdrWord(b)] / ALIGNMENT) >= LIST_SIZE || b !in lists[RootIndex(m[HdrWord(b)] / ALIGNMENT)]
    ensures b !in Listed(lists)
  {
    forall i, j | 0 <= i < |lists| && 0 <= j < |lists[i]| ensures lists[i][j] != b {
      assert InBucket(m, lists[i][j], i);
    }
  }

  lemma ListedPush(lists: seq<seq<int>>, i: int, b: int)
    requires 0 <= i < |lists|
    ensures Listed(lists[i := [b] + lists[i]]) == Listed(lists) + {b}
  {
    var l' := lists[i := [b] + lists[i]];
    forall x ensures x in Listed(l') <==> x in Listed(lists) + {b} {
      if x in Listed(l') {
        var i', j :| 0 <= i' < |l'| && 0 <= j < |l'[i']| && l'[i'][j] == x;
        if i' != i {
          ListedIn(lists, i', j);
        } else if j > 0 {
          assert l'[i'][j] == lists[i][j - 1];
          ListedIn(lists, i, j - 1);
        }
      }
      if x in Listed(lists) {
        var i', j :| 0 <= i' < |lists| && 0 <= j < |lists[i']| && lists[i'][j] == x;
        if i' == i {
          assert l'[i][j + 1] == x;
          ListedIn(l', i, j + 1);
        } else {
          ListedIn(l', i', j);
        }
      }
      if x == b {
        ListedIn(l', i, 0);
      }
    }
  }

  /** Pushing `b` on a list: its link word takes the old root. */
  lemma LinkedPush(m: seq<int>, root: int, L: seq<int>, b: int)
    requires Linked(m, root, L) && Node(m, b) && b !in L
    ensures Linked(m[b / 8 := root], b, [b] + L)
  {
    var m' := m[b / 8 := root];
    var L' := [b] + L;
    LinkedWrite(m, root, L, b / 8, root);
    forall j | 0 < j < |L'| ensures m'[L'[j - 1] / 8] == L'[j] {
      if j > 1 {
        assert L'[j - 1] == L[j - 2] && L'[j] == L[j - 1];
      }
    }
    assert L'[|L'| - 1] == if |L| == 0 then b else L[|L| - 1];
  }

  /** Adding `b` keeps a set free of pairs eight bytes apart when neither neighbour of `b` is in it. */
  lemma AdjacentAdd(S: set<int>, b: int)
    requires forall c, d :: c in S && d in S ==> d != c + 8
    requires b - 8 !in S && b + 8 !in S
    ensures forall c, d :: c in S + {b} && d in S + {b} ==> d != c + 8
  {
  }

  /** insert: pushing `b` on bucket i, its link word taking the old root. */
  lemma ListsOkPush(m: seq<int>, roots: seq<int>, lists: seq<seq<int>>, i: int, b: int)
    requires ListsOk(m, roots, lists) && 0 <= i < LIST_SIZE && InBucket(m, b, i)
    requires Clear(lists, b) && b + 8 !in Listed(lists)
    ensures ListsOk(m[b / 8 := roots[i]], roots[i := b], lists[i := [b] + lists[i]])
    ensures Listed(lists[i := [b] + lists[i]]) == Listed(lists) + {b}
  {
    var m1 := m[b / 8 := roots[i]];
    var l' := lists[i := [b] + lists[i]];
    var r' := roots[i := b];
    ListsOkWrite(m, roots, lists, b / 8, roots[i]);
    ListedPush(lists, i, b);
    AdjacentAdd(Listed(lists), b);
    PushLinks(m, roots, lists, i, b);
    forall i', j | 0 <= i' < LIST_SIZE && 0 <= j < |l'[i']| ensures InBucket(m1, l'[i'][j], i') {
      if i' == i && j > 0 {
        assert l'[i'][j] == lists[i][j - 1];
      }
    }
  }

  lemma PushLinks(m: seq<int>, roots: seq<int>, lists: seq<seq<int>>, i: int, b: int)
    requires ListsOk(m, roots, lists) && 0 <= i < LIST_SIZE && InBucket(m, b, i)
    requires Clear(lists, b)
    ensures var m1 := m[b / 8 := roots[i]];
            var l' := lists[i := [b] + lists[i]];
            forall i' :: 0 <= i' < LIST_SIZE ==> Linked(m1, roots[i := b][i'], l'[i']) && NoDup(l'[i'])
  {
    var m1 := m[b / 8 := roots[i]];
    var l' := lists[i := [b] + lists[i]];
    var r' := roots[i := b];
    ListsOkWrite(m, roots, lists, b / 8, roots[i]);
    assert b !in lists[i];
    LinkedPush(m, roots[i], lists[i], b);
    forall i' | 0 <= i' < LIST_SIZE ensures Linked(m1, r'[i'], l'[i']) && NoDup(l'[i']) {
      if i' == i {
        assert NoDup(lists[i]);
      } else {
        assert Linked(m1, roots[i'], lists[i']);
      }
    }
  }

  lemma ListedRemove(m: seq<int>, roots: seq<int>, lists: seq<seq<int>>, i: int, L': seq<int>, b: int)
    requires ListsOk(m, roots, lists) && 0 <= i < LIST_SIZE
    requires forall x :: x in L' <==> x in lists[i] && x != b
    requires b in lists[i]
    ensures Listed(lists[i := L']) == Listed(lists) - {b}
  {
    var l' := lists[i := L'];
    var jb :| 0 <= jb < |lists[i]| && lists[i][jb] == b;
    assert InBucket(m, lists[i][jb], i);
    forall x ensures x in Listed(l') <==> x in Listed(lists) - {b} {
      if x in Listed(l') {
        var i', j :| 0 <= i' < |l'| && 0 <= j < |l'[i']| && l'[i'][j] == x;
        if i' != i {
          ListedIn(lists, i', j);
          assert InBucket(m, lists[i'][j], i');
        } else {
          assert x in L';
          var j' :| 0 <= j' < |lists[i]| && lists[i][j'] == x;
          ListedIn(lists, i, j');
        }
      }
      if x in Listed(lists) && x != b {
        var i', j :| 0 <= i' < |lists| && 0 <= j < |lists[i']| && lists[i'][j] == x;
        if i' == i {
          assert x in L';
          var j' :| 0 <= j' < |L'| && L'[j'] == x;
          ListedIn(l', i, j');
        } else {
          ListedIn(l', i', j);
        }
      }
    }
  }

  /** The list left when the k-th entry of `L` is unlinked: the others, in their order. */
  lemma CutElems(L: seq<int>, k: int)
    requires NoDup(L) && 0 <= k < |L|
    ensures var L' := L[..k] + L[k + 1..];
            |L'| == |L| - 1 && NoDup(L') &&
            (forall j :: 0 <= j < |L'| ==> L'[j] == (if j < k then L[j] else L[j + 1])) &&
            (forall x :: x in L' <==> x in L && x != L[k])
  {
    var L' := L[..k] + L[k + 1..];
    assert forall j :: 0 <= j < |L'| ==> L'[j] == (if j < k then L[j] else L[j + 1]);
    forall x ensures x in L' <==> x in L && x != L[k] {
      if x in L' {
        var j :| 0 <= j < |L'| && L'[j] == x;
      }
      if x in L && x != L[k] {
        var j :| 0 <= j < |L| && L[j] == x;
        assert x == L'[if j < k then j else j - 1];
      }
    }
  }

  /** Dropping the head of a list: the root moves to the head's link. */
  lemma LinkedTail(m: seq<int>, root: int, L: seq<int>)
    requires Linked(m, root, L) && |L| > 0
    ensures Linked(m, m[L[0] / 8], L[1..])
  {
    var T := L[1..];
    forall j | 0 < j < |T| ensures m[T[j - 1] / 8] == T[j] {
      assert T[j - 1] == L[j] && T[j] == L[j + 1];
    }
    if |L| > 1 {
      assert m[L[0] / 8] == L[1];
    }
  }

  /** Unlinking the k-th entry (k > 0): the predecessor's link word takes the entry's link. */
  lemma LinkedCut(m: seq<int>, root: int, L: seq<int>, k: int)
    requires Linked(m, root, L) && NoDup(L) && 0 < k < |L|
    ensures Linked(m[L[k - 1] / 8 := m[L[k] / 8]], root, L[..k] + L[k + 1..])
  {
    var L' := L[..k] + L[k + 1..];
    var m' := m[L[k - 1] / 8 := m[L[k] / 8]];
    CutElems(L, k);
    forall j | 0 <= j < |L'| ensures Node(m', L'[j]) {
    }
    forall j | 0 < j < |L'| ensures m'[L'[j - 1] / 8] == L'[j] {
      if j < k - 1 {
        assert L[j - 1] != L[k - 1];
      } else if j == k - 1 {
        assert L[j - 1] != L[k - 1];
      } else if j == k {
        assert L'[j] == L[k + 1];
      } else {
        assert L[j] != L[k - 1];
      }
    }
    var n := |L'| - 1;
    if k == |L| - 1 {
      assert L'[n] == L[k - 1];
    } else {
      assert L'[n] == L[|L| - 1] && L[|L| - 1] != L[k - 1];
    }
  }

  /** erase, first entry: the root takes the block's link. */
  lemma ListsOkUnlinkHead(m: seq<int>, roots: seq<int>, lists: seq<seq<int>>, i: int)
    requires ListsOk(m, roots, lists) && 0 <= i < LIST_SIZE && 0 < |lists[i]|
    ensures var L := lists[i];
            var l' := lists[i := L[1..]];
            ListsOk(m, roots[i := m[L[0] / 8]], l') && Listed(l') == Listed(lists) - {L[0]}
  {
    var L := lists[i];
    var l' := lists[i := L[1..]];
    var r' := roots[i := m[L[0] / 8]];
    assert Linked(m, roots[i], L) && NoDup(L);
    forall x ensures x in L[1..] <==> x in L && x != L[0] {
      if x in L && x != L[0] {
        var j :| 0 <= j < |L| && L[j] == x;
        assert L[1..][j - 1] == x;
      }
    }
    ListedRemove(m, roots, lists, i, L[1..], L[0]);
    LinkedTail(m, roots[i], L);
    forall i' | 0 <= i' < LIST_SIZE ensures Linked(m, r'[i'], l'[i']) && NoDup(l'[i']) {
    }
    forall i', j | 0 <= i' < LIST_SIZE && 0 <= j < |l'[i']| ensures InBucket(m, l'[i'][j], i') {
      if i' == i {
        assert l'[i'][j] == L[j + 1];
      }
    }
  }

  /** erase, later entry: the predecessor's link word takes the block's link. */
  lemma ListsOkUnlinkAfter(m: seq<int>, roots: seq<int>, lists: seq<seq<int>>, i: int, k: int)
    requires ListsOk(m, roots, lists) && 0 <= i < LIST_SIZE && 0 < k < |lists[i]|
    ensures var L := lists[i];
            var l' := lists[i := L[..k] + L[k + 1..]];
            ListsOk(m[L[k - 1] / 8 := m[L[k] / 8]], roots, l') && Listed(l') == Listed(lists) - {L[k]}
  {
    var L := lists[i];
    var L' := L[..k] + L[k + 1..];
    var l' := lists[i := L'];
    var w := L[k - 1] / 8;
    var m' := m[w := m[L[k] / 8]];
    assert Linked(m, roots[i], L) && NoDup(L);
    CutElems(L, k);
    ListedRemove(m, roots, lists, i, L', L[k]);
    UnlinkAfterLinks(m, roots, lists, i, k);
    UnlinkAfterBuckets(m, roots, lists, i, k);
  }

  lemma UnlinkAfterLinks(m: seq<int>, roots: seq<int>, lists: seq<seq<int>>, i: int, k: int)
    requires ListsOk(m, roots, lists) && 0 <= i < LIST_SIZE && 0 < k < |lists[i]|
    ensures var L := lists[i];
            var l' := lists[i := L[..k] + L[k + 1..]];
            var m' := m[L[k - 1] / 8 := m[L[k] / 8]];
            forall i' :: 0 <= i' < LIST_SIZE ==> Linked(m', roots[i'], l'[i']) && NoDup(l'[i'])
  {
    var L := lists[i];
    var L' := L[..k] + L[k + 1..];
    var l' := lists[i := L'];
    var w := L[k - 1] / 8;
    var m' := m[w := m[L[k] / 8]];
    assert Linked(m, roots[i], L) && NoDup(L);
    CutElems(L, k);
    LinkedCut(m, roots[i], L, k);
    forall i' | 0 <= i' < LIST_SIZE && i' != i ensures Linked(m', roots[i'], l'[i']) {
      forall j | 0 <= j < |lists[i']| ensures lists[i'][j] != w * 8 {
        assert InBucket(m, lists[i'][j], i');
        assert InBucket(m, L[k - 1], i);
      }
      LinkedWrite(m, roots[i'], lists[i'], w, m[L[k] / 8]);
    }
  }

  lemma UnlinkAfterBuckets(m: seq<int>, roots: seq<int>, lists: seq<seq<int>>, i: int, k: int)
    requires ListsOk(m, roots, lists) && 0 <= i < LIST_SIZE && 0 < k < |lists[i]|
    ensures var L := lists[i];
            var l' := lists[i := L[..k] + L[k + 1..]];
            var m' := m[L[k - 1] / 8 := m[L[k] / 8]];
            forall i', j :: 0 <= i' < LIST_SIZE && 0 <= j < |l'[i']| ==> InBucket(m', l'[i'][j], i')
  {
    var L := lists[i];
    var L' := L[..k] + L[k + 1..];
    var l' := lists[i := L'];
    var w := L[k - 1] / 8;
    var m' := m[w := m[L[k] / 8]];
    assert NoDup(L);
    CutElems(L, k);
    ListedIn(lists, i, k - 1);
    forall i', j | 0 <= i' < LIST_SIZE && 0 <= j < |lists[i']| ensures InBucket(m', lists[i'][j], i') {
      ListedIn(lists, i', j);
      assert InBucket(m, lists[i'][j], i');
    }
    forall i', j | 0 <= i' < LIST_SIZE && 0 <= j < |l'[i']| ensures InBucket(m', l'[i'][j], i') {
      if i' == i {
        assert l'[i'][j] == (if j < k then L[j] else L[j + 1]);
      }
    }
  }

  // ---------------------------------------------------------------------------
  // The search order of mm_malloc
  // ---------------------------------------------------------------------------

  /** The first block of at least `need` bytes met when scanning bucket i from position j, then the later buckets. */
  ghost function ScanFrom(m: seq<int>, lists: seq<seq<int>>, i: nat, j: nat, need: int): int
    decreases |lists| - i, if i < |lists| then |lists[i]| - j else 0
  {
    if i >= |lists| then NIL
    else if j >= |lists[i]| then ScanFrom(m, lists, i + 1, 0, need)
    else if Node(m, lists[i][j]) && m[HdrWord(lists[i][j])] >= need then lists[i][j]
    else ScanFrom(m, lists, i, j + 1, need)
  }

  /** The block mm_malloc takes for a request of `need` bytes, or NULL. */
  ghost function FirstFit(m: seq<int>, lists: seq<seq<int>>, need: nat): int
  {
    ScanFrom(m, lists, RootIndex(need / ALIGNMENT), 0, need)
  }

  /** What the scan finds is a listed block of at least `need` bytes, in a bucket no lower than where it started. */
  lemma {:induction false} ScanFound(m: seq<int>, lists: seq<seq<int>>, i: nat, j: nat, need: int)
    returns (fi: nat, fj: nat)
    requires ScanFrom(m, lists, i, j, need) != NIL
    ensures i <= fi < |lists| && fj < |lists[fi]| && (fi == i ==> j <= fj)
    ensures ScanFrom(m, lists, i, j, need) == lists[fi][fj]
    ensures Node(m, lists[fi][fj]) && m[HdrWord(lists[fi][fj])] >= need
    decreases |lists| - i, if i < |lists| then |lists[i]| - j else 0
  {
    if j >= |lists[i]| {
      fi, fj := ScanFound(m, lists, i + 1, 0, need);
    } else if Node(m, lists[i][j]) && m[HdrWord(lists[i][j])] >= need {
      fi, fj := i, j;
    } else {
      fi, fj := ScanFound(m, lists, i, j + 1, need);
    }
  }

  /** When the scan finds nothing, no block it passes is big enough. */
  lemma {:induction false} ScanMissed(m: seq<int>, lists: seq<seq<int>>, i: nat, j: nat, need: int, i': nat, j': nat)
    requires ScanFrom(m, lists, i, j, need) == NIL
    requires i <= i' < |lists| && j' < |lists[i']| && (i' == i ==> j <= j')
    requires Node(m, lists[i'][j'])
    ensures m[HdrWord(lists[i'][j'])] < need
    decreases |lists| - i, if i < |lists| then |lists[i]| - j else 0
  {
    if j >= |lists[i]| {
      ScanMissed(m, lists, i + 1, 0, need, i', j');
    } else if i' == i && j' == j {
    } else {
      ScanMissed(m, lists, i, j + 1, need, i', j');
    }
  }

  /** What mm_malloc's search finds is a listed block of at least `need` bytes. */
  lemma FitFound(m: seq<int>, roots: seq<int>, lists: seq<seq<int>>, need: nat)
    requires ListsOk(m, roots, lists) && FirstFit(m, lists, need) != NIL
    ensures FirstFit(m, lists, need) in Listed(lists)
    ensures Node(m, FirstFit(m, lists, need)) && m[HdrWord(FirstFit(m, lists, need))] >= need
  {
    var fi, fj := ScanFound(m, lists, RootIndex(need / ALIGNMENT), 0, need);
    ListedIn(lists, fi, fj);
  }

  /** When the search finds nothing, no listed block has `need` bytes: the buckets it skips hold smaller blocks only. */
  lemma FitMissing(m: seq<int>, roots: seq<int>, lists: seq<seq<int>>, need: nat, x: int)
    requires ListsOk(m, roots, lists) && FirstFit(m, lists, need) == NIL && x in Listed(lists)
    ensures Node(m, x) && m[HdrWord(x)] < need
  {
    var i, j :| 0 <= i < |lists| && 0 <= j < |lists[i]| && lists[i][j] == x;
    assert InBucket(m, x, i);
    var s := RootIndex(need / ALIGNMENT);
    if i < s {
      if m[HdrWord(x)] >= need {
        RootIndexMonotone(need / ALIGNMENT, m[HdrWord(x)] / ALIGNMENT);
      }
    } else {
      ScanMissed(m, lists, s, 0, need, i, j);
    }
  }
}
