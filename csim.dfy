/**
 * The LRU set-associative cache simulator of cachelab-handout/csim.c.
 *
 * An address of 64 bits splits into a tag, a set index of `s` bits and a
 * block offset of `b` bits.  Each of the 2^s sets holds at most E lines,
 * kept as a list ordered from least to most recently used; the list of
 * tags is modelled as a sequence.  data_access counts hits, misses and
 * evictions.
 */
module CacheSim {

  /** The width of an address. */
  const ADDR_BITS: nat := 64
  /** The number of addresses, 2^64. */
  const ADDR_RANGE: nat := 0x1_0000_0000_0000_0000

  function Pow2(n: nat): (r: nat)
    ensures r >= 1
  {
    if n == 0 then 1 else 2 * Pow2(n - 1)
  }

  lemma {:induction false} Pow2Add(m: nat, n: nat)
    ensures Pow2(m + n) == Pow2(m) * Pow2(n)
  {
    if n > 0 {
      Pow2Add(m, n - 1);
    }
  }

  lemma AddrRange()
    ensures Pow2(ADDR_BITS) == ADDR_RANGE
  {
    assert Pow2(1) == 2;
    Pow2Add(1, 1);
    assert Pow2(2) == 4;
    Pow2Add(2, 2);
    assert Pow2(4) == 16;
    Pow2Add(4, 4);
    assert Pow2(8) == 0x100;
    Pow2Add(8, 8);
    assert Pow2(16) == 0x1_0000;
    Pow2Add(16, 16);
    assert Pow2(32) == 0x1_0000_0000;
    Pow2Add(32, 32);
  }

  // ---------------------------------------------------------------------
  // Bitwise operations on unsigned values
  // ---------------------------------------------------------------------

  /** Bitwise AND, bit by bit from the lowest. */
  function BitAnd(x: nat, y: nat): nat
  {
    if x == 0 || y == 0 then 0
    else 2 * BitAnd(x / 2, y / 2) + (if x % 2 == 1 && y % 2 == 1 then 1 else 0)
  }

  /** Bitwise OR, bit by bit from the lowest. */
  function BitOr(x: nat, y: nat): nat
    decreases x + y
  {
    if x == 0 then y
    else if y == 0 then x
    else 2 * BitOr(x / 2, y / 2) + (if x % 2 == 1 || y % 2 == 1 then 1 else 0)
  }

  /** `x >> n` on an unsigned value. */
  function Shr(x: nat, n: nat): nat
  {
    if n == 0 then x else Shr(x / 2, n - 1)
  }

  /** `x << n`, without a width limit. */
  function Shl(x: nat, n: nat): nat
  {
    if n == 0 then x else 2 * Shl(x, n - 1)
  }

  /** The value of the `n` lowest bits of `x`. */
  function LowBits(x: nat, n: nat): nat
  {
    if n == 0 then 0 else 2 * LowBits(x / 2, n - 1) + x % 2
  }

  lemma {:induction false} LowBitsBound(x: nat, n: nat)
    ensures LowBits(x, n) < Pow2(n)
  {
    if n > 0 {
      LowBitsBound(x / 2, n - 1);
    }
  }

  /** A value of fewer than `n` bits is its own `n` lowest bits. */
  lemma {:induction false} LowBitsAll(x: nat, n: nat)
    requires x < Pow2(n)
    ensures LowBits(x, n) == x
  {
    if n > 0 {
      LowBitsAll(x / 2, n - 1);
    }
  }

  /** Shifting a value of n + m bits right by n leaves fewer than m bits. */
  lemma {:induction false} ShrBound(x: nat, n: nat, m: nat)
    requires x < Pow2(n + m)
    ensures Shr(x, n) < Pow2(m)
  {
    if n > 0 {
      ShrBound(x / 2, n - 1, m);
    }
  }

  lemma {:induction false} ShrShr(x: nat, n: nat, m: nat)
    ensures Shr(x, n + m) == Shr(Shr(x, n), m)
  {
    if n > 0 {
      ShrShr(x / 2, n - 1, m);
    }
  }

  lemma {:induction false} ShrShl(x: nat, n: nat)
    ensures Shr(Shl(x, n), n) == x
  {
    if n > 0 {
      ShrShl(x, n - 1);
    }
  }

  /** A value is its high part shifted back plus its low bits. */
  lemma {:induction false} ShrSplit(x: nat, n: nat)
    ensures x == Shl(Shr(x, n), n) + LowBits(x, n)
  {
    if n > 0 {
      ShrSplit(x / 2, n - 1);
      ShlShr(Shr(x / 2, n - 1), n);
    }
  }

  lemma ShlShr(y: nat, n: nat)
    requires n > 0
    ensures Shl(y, n) == 2 * Shl(y, n - 1)
  {
  }

  /** OR with a bit the value does not have yet adds that bit. */
  lemma {:induction false} OrNewBit(x: nat, i: nat)
    requires x < Pow2(i)
    ensures BitOr(x, Pow2(i)) == x + Pow2(i)
  {
    if x > 0 {
      assert i > 0;
      OrNewBit(x / 2, i - 1);
    }
  }

  /** AND with the n lowest bits set keeps the n lowest bits. */
  lemma {:induction false} AndLow(x: nat, n: nat)
    ensures BitAnd(x, Pow2(n) - 1) == LowBits(x, n)
  {
    if n > 0 {
      AndLow(x / 2, n - 1);
      assert Pow2(n) - 1 == 2 * (Pow2(n - 1) - 1) + 1;
    }
  }

  /** AND with a mask shifted left by `n` is the AND of the value shifted right, shifted back. */
  lemma {:induction false} AndShift(x: nat, n: nat, m: nat)
    ensures BitAnd(x, Shl(m, n)) == Shl(BitAnd(Shr(x, n), m), n)
  {
    if n > 0 {
      if x == 0 || m == 0 {
        ShrZero(n);
        ShlZero(n);
      } else {
        ShlPos(m, n - 1);
        AndShift(x / 2, n - 1, m);
        assert BitAnd(x, Shl(m, n)) == 2 * BitAnd(x / 2, Shl(m, n - 1));
      }
    }
  }

  lemma {:induction false} ShrZero(n: nat)
    ensures Shr(0, n) == 0
  {
    if n > 0 {
      ShrZero(n - 1);
    }
  }

  lemma {:induction false} ShlPos(x: nat, n: nat)
    requires x > 0
    ensures Shl(x, n) > 0
  {
    if n > 0 {
      ShlPos(x, n - 1);
    }
  }

  lemma {:induction false} ShlZero(n: nat)
    ensures Shl(0, n) == 0
  {
    if n > 0 {
      ShlZero(n - 1);
    }
  }

  /** The mask with bits [lo, hi) set is the mask of the hi - lo lowest bits shifted left by lo. */
  lemma {:induction false} FieldMask(lo: nat, hi: nat)
    requires lo <= hi
    ensures Pow2(lo) <= Pow2(hi)
    ensures Pow2(hi) - Pow2(lo) == Shl(Pow2(hi - lo) - 1, lo)
  {
    if lo > 0 {
      FieldMask(lo - 1, hi - 1);
    }
  }

  /** AND with the mask of bits [lo, hi), shifted right by lo, is that bit field. */
  lemma AndField(x: nat, lo: nat, hi: nat)
    requires lo <= hi
    ensures Pow2(lo) <= Pow2(hi)
    ensures Shr(BitAnd(x, Pow2(hi) - Pow2(lo)), lo) == LowBits(Shr(x, lo), hi - lo)
  {
    FieldMask(lo, hi);
    AndShift(x, lo, Pow2(hi - lo) - 1);
    ShrShl(BitAnd(Shr(x, lo), Pow2(hi - lo) - 1), lo);
    AndLow(Shr(x, lo), hi - lo);
  }

  // ---------------------------------------------------------------------
  // Splitting an address
  // ---------------------------------------------------------------------

  /** The set an address maps to: bits [b, b + s) of the address. */
  function SetIndex(b: nat, s: nat, address: nat): nat
  {
    LowBits(Shr(address, b), s)
  }

  /** The tag of an address: its bits from b + s upward. */
  function TagOf(b: nat, s: nat, address: nat): nat
  {
    Shr(address, b + s)
  }

  /** The mask with bits [lo, hi) set, built one bit at a time. */
  method BuildMask(lo: nat, hi: nat) returns (mask: nat)
    requires lo <= hi
    ensures mask == Pow2(hi) - Pow2(lo)
  {
    mask := 0;
    var i := lo;
    while i < hi
      invariant lo <= i <= hi
      invariant Pow2(lo) <= Pow2(i) && mask == Pow2(i) - Pow2(lo)
    {
      OrNewBit(mask, i);
      mask := BitOr(mask, Pow2(i));
      i := i + 1;
    }
  }

  /** get_set_id: the address masked to bits [b, b + s) and shifted right by b. */
  method GetSetId(b: nat, s: nat, address: nat) returns (id: nat)
    requires b + s < ADDR_BITS
    ensures id == SetIndex(b, s, address) && id < Pow2(s)
  {
    var mask := BuildMask(b, b + s);
    id := Shr(BitAnd(address, mask), b);
    AndField(address, b, b + s);
    LowBitsBound(Shr(address, b), s);
  }

  /** get_tag: the address masked to bits [b + s, 64) and shifted right by b + s. */
  method GetTag(b: nat, s: nat, address: nat) returns (tag: nat)
    requires b + s < ADDR_BITS && address < ADDR_RANGE
    ensures tag == TagOf(b, s, address)
  {
    AddrRange();
    var mask := BuildMask(b + s, ADDR_BITS);
    tag := Shr(BitAnd(address, mask), b + s);
    AndField(address, b + s, ADDR_BITS);
    ShrBound(address, b + s, ADDR_BITS - (b + s));
    LowBitsAll(Shr(address, b + s), ADDR_BITS - (b + s));
  }

  /** Tag, set index and block offset together give back the address. */
  lemma AddressSplit(b: nat, s: nat, address: nat)
    ensures SetIndex(b, s, address) < Pow2(s) && LowBits(address, b) < Pow2(b)
    ensures address == Shl(Shl(TagOf(b, s, address), s) + SetIndex(b, s, address), b) + LowBits(address, b)
  {
    LowBitsBound(Shr(address, b), s);
    LowBitsBound(address, b);
    ShrSplit(address, b);
    ShrSplit(Shr(address, b), s);
    ShrShr(address, b, s);
  }

  /** Two addresses fall in the same memory block exactly when tag and set index agree. */
  lemma SameBlock(b: nat, s: nat, a1: nat, a2: nat)
    ensures Shr(a1, b) == Shr(a2, b) <==>
              TagOf(b, s, a1) == TagOf(b, s, a2) && SetIndex(b, s, a1) == SetIndex(b, s, a2)
  {
    ShrShr(a1, b, s);
    ShrShr(a2, b, s);
    ShrSplit(Shr(a1, b), s);
    ShrSplit(Shr(a2, b), s);
  }

  // ---------------------------------------------------------------------
  // Sets of lines
  // ---------------------------------------------------------------------

  ghost predicate Distinct(xs: seq<nat>)
  {
    forall i, j :: 0 <= i < j < |xs| ==> xs[i] != xs[j]
  }

  /**
   * search_line: the position of the first line holding `tag`, scanning
   * from the least recently used one, or -1 when none does.
   */
  method SearchLine(lines: seq<nat>, tag: nat) returns (k: int)
    ensures -1 <= k < |lines|
    ensures k < 0 <==> tag !in lines
    ensures 0 <= k ==> lines[k] == tag && tag !in lines[..k]
  {
    var i := 0;
    while i < |lines|
      invariant 0 <= i <= |lines|
      invariant tag !in lines[..i]
    {
      if lines[i] == tag {
        return i;
      }
      i := i + 1;
    }
    assert lines[..i] == lines;
    return -1;
  }

  /**
   * move_to_tail: the line at `k` becomes the most recently used one; the
   * others keep their order, and the line already at the tail stays put.
   */
  function ToTail(lines: seq<nat>, k: nat): (r: seq<nat>)
    requires k < |lines|
    ensures |r| == |lines| && r[|r| - 1] == lines[k]
    ensures forall i :: 0 <= i < k ==> r[i] == lines[i]
    ensures forall i :: k <= i < |r| - 1 ==> r[i] == lines[i + 1]
    ensures multiset(r) == multiset(lines)
    ensures k == |lines| - 1 ==> r == lines
  {
    assert lines == lines[..k] + [lines[k]] + lines[k + 1..];
    lines[..k] + lines[k + 1..] + [lines[k]]
  }

  /** `xs` without any occurrence of `t`, the others in order. */
  function Without(xs: seq<nat>, t: nat): (r: seq<nat>)
    ensures |r| <= |xs| && (t in xs ==> |r| < |xs|)
  {
    if |xs| == 0 then []
    else Without(xs[..|xs| - 1], t) + (if xs[|xs| - 1] == t then [] else [xs[|xs| - 1]])
  }

  /** Without keeps every element but `t`, and drops `t`. */
  lemma {:induction false} WithoutMembers(xs: seq<nat>, t: nat)
    ensures forall y :: y in Without(xs, t) <==> y in xs && y != t
  {
    if |xs| > 0 {
      assert xs == xs[..|xs| - 1] + [xs[|xs| - 1]];
      WithoutMembers(xs[..|xs| - 1], t);
    }
  }

  /** The last `n` elements of `xs`, or all of them when there are fewer. */
  function LastN(xs: seq<nat>, n: nat): (r: seq<nat>)
    ensures |r| <= n && |r| <= |xs|
    ensures |xs| > n ==> |r| == n
    ensures |xs| <= n ==> |r| == |xs|
  {
    if |xs| <= n then xs else xs[|xs| - n..]
  }

  /**
   * The distinct tags of an access history, each placed at its most recent
   * use: least recently used first.
   */
  function Recency(history: seq<nat>): seq<nat>
  {
    if |history| == 0 then []
    else
      var t := history[|history| - 1];
      Without(Recency(history[..|history| - 1]), t) + [t]
  }

  /**
   * The reference meaning of an LRU set of E lines: after the accesses of
   * `history` it holds the E most recently used distinct tags, least
   * recently used first.
   */
  function Lru(history: seq<nat>, E: nat): seq<nat>
  {
    LastN(Recency(history), E)
  }

  /**
   * One access of `t` to a set of E lines, as data_access does it: a hit
   * moves the line to the tail; a miss appends a line while there is room,
   * and otherwise overwrites the head's tag and moves it to the tail.
   */
  function Touch(lines: seq<nat>, t: nat, E: nat): (r: seq<nat>)
    requires 1 <= E && |lines| <= E
    ensures |r| <= E && |r| > 0 && r[|r| - 1] == t
  {
    if t in lines then Without(lines, t) + [t]
    else if |lines| < E then lines + [t]
    else lines[1..] + [t]
  }

  lemma DistinctSnoc(xs: seq<nat>, t: nat)
    requires Distinct(xs) && t !in xs
    ensures Distinct(xs + [t])
  {
  }

  lemma {:induction false} WithoutDistinct(xs: seq<nat>, t: nat)
    requires Distinct(xs)
    ensures Distinct(Without(xs, t))
  {
    if |xs| > 0 {
      var init, y := xs[..|xs| - 1], xs[|xs| - 1];
      assert xs == init + [y];
      WithoutDistinct(init, t);
      WithoutMembers(init, t);
      if y != t {
        assert y !in init;
        DistinctSnoc(Without(init, t), y);
      }
    }
  }

  lemma {:induction false} WithoutAppend(x: seq<nat>, y: seq<nat>, t: nat)
    ensures Without(x + y, t) == Without(x, t) + Without(y, t)
  {
    if |y| == 0 {
      assert x + y == x;
    } else {
      var y', z := y[..|y| - 1], y[|y| - 1];
      assert (x + y)[..|x + y| - 1] == x + y';
      assert (x + y)[|x + y| - 1] == z;
      WithoutAppend(x, y', t);
    }
  }

  lemma {:induction false} WithoutAbsent(xs: seq<nat>, t: nat)
    requires t !in xs
    ensures Without(xs, t) == xs
  {
    if |xs| > 0 {
      assert xs == xs[..|xs| - 1] + [xs[|xs| - 1]];
      WithoutAbsent(xs[..|xs| - 1], t);
    }
  }

  /** In a list without repeats, removing the tag at `p` removes exactly that position. */
  lemma WithoutOne(A: seq<nat>, t: nat, C: seq<nat>)
    requires t !in A && t !in C
    ensures Without(A + [t] + C, t) == A + C
  {
    WithoutAppend(A + [t], C, t);
    WithoutAppend(A, [t], t);
    WithoutSingle(t);
    WithoutAbsent(A, t);
    WithoutAbsent(C, t);
    calc {
      Without(A + [t] + C, t);
    ==
      Without(A + [t], t) + Without(C, t);
    ==
      (Without(A, t) + Without([t], t)) + Without(C, t);
    ==
      (A + []) + C;
    ==
      { assert A + [] == A; }
      A + C;
    }
  }

  lemma WithoutSingle(t: nat)
    ensures Without([t], t) == []
  {
    assert [t][..0] == [];
  }

  /** In a list without repeats, an element occurs neither before nor after its position. */
  lemma DistinctAt(xs: seq<nat>, p: nat)
    requires Distinct(xs) && p < |xs|
    ensures xs[p] !in xs[..p] && xs[p] !in xs[p + 1..]
  {
    var A, C := xs[..p], xs[p + 1..];
    forall i | 0 <= i < |A| ensures A[i] != xs[p] {
      assert A[i] == xs[i];
    }
    forall i | 0 <= i < |C| ensures C[i] != xs[p] {
      assert C[i] == xs[p + 1 + i];
    }
  }

  /** In a list without repeats, move_to_tail is the removal of the tag and its append. */
  lemma ToTailTouch(lines: seq<nat>, k: nat)
    requires Distinct(lines) && k < |lines|
    ensures ToTail(lines, k) == Without(lines, lines[k]) + [lines[k]]
  {
    var A, t, C := lines[..k], lines[k], lines[k + 1..];
    DistinctAt(lines, k);
    assert A + [t] + C == lines;
    WithoutOne(A, t, C);
    assert ToTail(lines, k) == A + C + [t];
  }

  lemma {:induction false} RecencyDistinct(history: seq<nat>)
    ensures Distinct(Recency(history))
    ensures forall t :: t in Recency(history) <==> t in history
  {
    if |history| > 0 {
      var init, t := history[..|history| - 1], history[|history| - 1];
      assert history == init + [t];
      RecencyDistinct(init);
      WithoutDistinct(Recency(init), t);
      WithoutMembers(Recency(init), t);
      DistinctSnoc(Without(Recency(init), t), t);
    }
  }

  /** A set never holds more than E lines, nor the same tag twice. */
  lemma LruShape(history: seq<nat>, E: nat)
    ensures |Lru(history, E)| <= E && Distinct(Lru(history, E))
    ensures forall t :: t in Lru(history, E) ==> t in history
  {
    RecencyDistinct(history);
    LastNDistinct(Recency(history), E);
  }

  /** The recency order after one more access of `t`: `t` leaves its place and becomes the newest. */
  lemma RecencySnoc(history: seq<nat>, t: nat)
    ensures Recency(history + [t]) == Without(Recency(history), t) + [t]
  {
    assert (history + [t])[..|history|] == history;
  }

  /** The last n elements of a list without repeats have none either. */
  lemma LastNDistinct(O: seq<nat>, n: nat)
    requires Distinct(O)
    ensures Distinct(LastN(O, n))
    ensures O == O[..|O| - |LastN(O, n)|] + LastN(O, n)
  {
    LastNSuffix(O, n);
    SuffixDistinct(O, |O| - |LastN(O, n)|);
  }

  lemma SuffixDistinct(O: seq<nat>, d: nat)
    requires Distinct(O) && d <= |O|
    ensures Distinct(O[d..])
  {
    var S := O[d..];
    forall i, j | 0 <= i < j < |S| ensures S[i] != S[j] {
      assert S[i] == O[d + i] && S[j] == O[d + j];
    }
  }

  /** The last n of O are the suffix of O after its first |O| - |LastN(O, n)| elements. */
  lemma LastNSuffix(O: seq<nat>, n: nat)
    ensures LastN(O, n) == O[|O| - |LastN(O, n)|..]
    ensures O == O[..|O| - |LastN(O, n)|] + LastN(O, n)
  {
    if |O| <= n {
      assert O[..0] + O == O;
    } else {
      assert O == O[..|O| - n] + O[|O| - n..];
    }
  }

  /** In a list without repeats, an element of the second part occurs nowhere else. */
  lemma DistinctParts(P: seq<nat>, S: seq<nat>, j: nat)
    requires Distinct(P + S) && j < |S|
    ensures S[j] !in P && S[j] !in S[..j] && S[j] !in S[j + 1..]
  {
    var O := P + S;
    assert S[j] == O[|P| + j];
    forall i | 0 <= i < |P| ensures P[i] != S[j] {
      assert P[i] == O[i];
    }
    var A, C := S[..j], S[j + 1..];
    forall i | 0 <= i < |A| ensures A[i] != S[j] {
      assert A[i] == O[|P| + i];
    }
    forall i | 0 <= i < |C| ensures C[i] != S[j] {
      assert C[i] == O[|P| + j + 1 + i];
    }
  }

  /** A hit: the newest E of the updated order are the set without `t`, then `t`. */
  lemma LastNHit(O: seq<nat>, t: nat, E: nat)
    requires Distinct(O) && t in LastN(O, E)
    ensures LastN(Without(O, t) + [t], E) == Without(LastN(O, E), t) + [t]
  {
    var S := LastN(O, E);
    LastNDistinct(O, E);
    var P := O[..|O| - |S|];
    var p :| 0 <= p < |S| && S[p] == t;
    DistinctParts(P, S, p);
    assert |P| == 0 || |S| == E;
    HitPieces(O, P, S, p, t, E);
  }

  /** LastNHit once `t` is known to occur in O only at position p of its last E. */
  lemma HitPieces(O: seq<nat>, P: seq<nat>, S: seq<nat>, p: nat, t: nat, E: nat)
    requires O == P + S && |S| <= E && (|P| == 0 || |S| == E) && p < |S| && S[p] == t
    requires t !in P && t !in S[..p] && t !in S[p + 1..]
    ensures LastN(Without(O, t) + [t], E) == Without(S, t) + [t]
  {
    var S1, S2 := S[..p], S[p + 1..];
    assert S == S1 + [t] + S2;
    assert O == (P + S1) + [t] + S2;
    WithoutOne(S1, t, S2);
    WithoutOne(P + S1, t, S2);
    Regroup(P, S1, S2, t);
    var R := S1 + S2 + [t];
    assert |R| == |S|;
    LastNAfter(P, R, E);
  }

  /** The last E of P + R are R when R is E long, or when there is no P and R is short enough. */
  lemma LastNAfter(P: seq<nat>, R: seq<nat>, E: nat)
    requires |R| <= E && (|P| == 0 || |R| == E)
    ensures LastN(P + R, E) == R
  {
    if |P| == 0 {
      assert P + R == R;
    } else {
      assert (P + R)[|P|..] == R;
    }
  }

  lemma Regroup(P: seq<nat>, S1: seq<nat>, S2: seq<nat>, t: nat)
    ensures (P + S1) + S2 + [t] == P + (S1 + S2 + [t])
    ensures |S1 + S2 + [t]| == |S1 + [t] + S2|
  {
  }

  /** A miss with room: fewer than E tags were ever used, and `t` is new. */
  lemma LastNRoom(O: seq<nat>, t: nat, E: nat)
    requires t !in LastN(O, E) && |LastN(O, E)| < E
    ensures LastN(Without(O, t) + [t], E) == LastN(O, E) + [t]
  {
    WithoutAbsent(O, t);
  }

  /** A miss in a full set: the least recently used of the E goes, and `t` comes last. */
  lemma LastNEvict(O: seq<nat>, t: nat, E: nat)
    requires E >= 1 && t !in LastN(O, E) && |LastN(O, E)| == E
    ensures LastN(Without(O, t) + [t], E) == LastN(O, E)[1..] + [t]
  {
    var S := LastN(O, E);
    var P := O[..|O| - |S|];
    assert O == P + S;
    WithoutAppend(P, S, t);
    WithoutAbsent(S, t);
    var W := Without(P, t);
    SplitHead(W, S, t);
    LastNAfter(W + [S[0]], S[1..] + [t], E);
  }

  lemma SplitHead(W: seq<nat>, S: seq<nat>, t: nat)
    requires |S| > 0
    ensures W + S + [t] == (W + [S[0]]) + (S[1..] + [t])
  {
    assert S == [S[0]] + S[1..];
  }

  /**
   * data_access keeps the reference meaning: one access of `t` to the set
   * that holds the E most recently used tags of `history` leaves the E most
   * recently used tags of `history + [t]`.
   */
  lemma LruStep(history: seq<nat>, t: nat, E: nat)
    requires E >= 1
    ensures |Lru(history, E)| <= E
    ensures Touch(Lru(history, E), t, E) == Lru(history + [t], E)
  {
    var O := Recency(history);
    RecencyDistinct(history);
    RecencySnoc(history, t);
    var S := Lru(history, E);
    if t in S {
      LastNHit(O, t, E);
    } else if |S| < E {
      LastNRoom(O, t, E);
    } else {
      LastNEvict(O, t, E);
    }
  }

  // ---------------------------------------------------------------------
  // The cache
  // ---------------------------------------------------------------------

  /** What one access found, as the verbose trace reports it. */
  datatype Outcome = Hit | Miss | MissEvict

  /** The kinds of trace record: instruction load, data load, store, modify. */
  datatype Kind = Instruction | Load | Store | Modify

  /** One trace record; the access size plays no part in the simulation. */
  datatype Record = Record(kind: Kind, address: nat, size: nat)

  /** How many data accesses a record makes. */
  function Accesses(kind: Kind): nat
  {
    match kind
    case Instruction => 0
    case Modify => 2
    case _ => 1
  }

  function TotalAccesses(trace: seq<Record>): nat
  {
    if |trace| == 0 then 0 else TotalAccesses(trace[..|trace| - 1]) + Accesses(trace[|trace| - 1].kind)
  }

  /** The set histories after a record: its address is accessed once per data access it makes. */
  function AfterRecord(h: seq<seq<nat>>, b: nat, s: nat, rec: Record): (r: seq<seq<nat>>)
    requires |h| == Pow2(s)
    ensures |r| == |h|
  {
    var id, t := SetIndex(b, s, rec.address), TagOf(b, s, rec.address);
    LowBitsBound(Shr(rec.address, b), s);
    h[id := h[id] + seq(Accesses(rec.kind), _ => t)]
  }

  /** A record's history, kind by kind: no access, one access, or two accesses with the same tag. */
  lemma AfterRecordKinds(h: seq<seq<nat>>, b: nat, s: nat, rec: Record)
    requires |h| == Pow2(s)
    ensures SetIndex(b, s, rec.address) < |h|
    ensures var id, t := SetIndex(b, s, rec.address), TagOf(b, s, rec.address);
            var h1 := h[id := h[id] + [t]];
            (rec.kind == Instruction ==> AfterRecord(h, b, s, rec) == h) &&
            (rec.kind in {Load, Store} ==> AfterRecord(h, b, s, rec) == h1) &&
            (rec.kind == Modify ==> AfterRecord(h, b, s, rec) == h1[id := h1[id] + [t]])
  {
    var id, t := SetIndex(b, s, rec.address), TagOf(b, s, rec.address);
    LowBitsBound(Shr(rec.address, b), s);
    match rec.kind
    case Instruction =>
      assert h[id] + seq(0, _ => t) == h[id];
    case Modify =>
      assert h[id] + seq(2, _ => t) == h[id] + [t] + [t];
    case _ =>
      assert h[id] + seq(1, _ => t) == h[id] + [t];
  }

  function AfterTrace(h: seq<seq<nat>>, b: nat, s: nat, trace: seq<Record>): (r: seq<seq<nat>>)
    requires |h| == Pow2(s)
    ensures |r| == |h|
  {
    if |trace| == 0 then h
    else AfterRecord(AfterTrace(h, b, s, trace[..|trace| - 1]), b, s, trace[|trace| - 1])
  }

  /** Each set holds the LRU contents of its history. */
  ghost predicate SetsMatch(sets: seq<seq<nat>>, history: seq<seq<nat>>, E: nat)
  {
    |sets| == |history| && forall i :: 0 <= i < |sets| ==> sets[i] == Lru(history[i], E)
  }

  /** Updating one set and its history together keeps the sets matching. */
  lemma SetsMatchUpdate(sets: seq<seq<nat>>, history: seq<seq<nat>>, E: nat, id: nat, next: seq<nat>, h: seq<nat>)
    requires SetsMatch(sets, history, E) && id < |sets| && next == Lru(h, E)
    ensures SetsMatch(sets[id := next], history[id := h], E)
  {
  }

  /** The lines of a matching set are few enough and distinct. */
  lemma SetShape(sets: seq<seq<nat>>, history: seq<seq<nat>>, E: nat, id: nat)
    requires SetsMatch(sets, history, E) && id < |sets|
    ensures |history| == |sets| && |sets[id]| <= E && Distinct(sets[id])
  {
    LruShape(history[id], E);
  }

  /** Touching a set with the tag it is accessed with keeps the sets matching. */
  lemma SetsMatchTouch(sets: seq<seq<nat>>, history: seq<seq<nat>>, E: nat, id: nat, t: nat)
    requires SetsMatch(sets, history, E) && id < |sets| && E >= 1
    ensures SetsMatch(sets[id := Touch(sets[id], t, E)], history[id := history[id] + [t]], E)
  {
    LruStep(history[id], t, E);
    SetsMatchUpdate(sets, history, E, id, Touch(sets[id], t, E), history[id] + [t]);
  }

  /**
   * How many accesses of a set's history `h`, replayed from an empty set of
   * E lines, had outcome `o`: each access meets the Lru contents of the
   * accesses before it.
   */
  ghost function Tally(h: seq<nat>, E: nat, o: Outcome): nat
  {
    if |h| == 0 then 0
    else Tally(h[..|h| - 1], E, o) + (if Found(Lru(h[..|h| - 1], E), h[|h| - 1], E, o) then 1 else 0)
  }

  /** Tally summed over the histories of all sets. */
  ghost function TallyAll(H: seq<seq<nat>>, E: nat, o: Outcome): nat
  {
    if |H| == 0 then 0 else TallyAll(H[..|H| - 1], E, o) + Tally(H[|H| - 1], E, o)
  }

  /** The counts csim prints, as functions of the access histories of the sets. */
  ghost function HitsOf(H: seq<seq<nat>>, E: nat): nat
  {
    TallyAll(H, E, Hit)
  }

  ghost function MissesOf(H: seq<seq<nat>>, E: nat): nat
  {
    TallyAll(H, E, Miss) + TallyAll(H, E, MissEvict)
  }

  ghost function EvictionsOf(H: seq<seq<nat>>, E: nat): nat
  {
    TallyAll(H, E, MissEvict)
  }

  /** An access has exactly one outcome. */
  lemma FoundOne(lines: seq<nat>, t: nat, E: nat, r: Outcome, o: Outcome)
    requires Found(lines, t, E, r)
    ensures Found(lines, t, E, o) <==> o == r
  {
  }

  /** Every access has exactly one outcome, so the three tallies of a history add up to its length. */
  lemma {:induction false} TallyPartition(h: seq<nat>, E: nat)
    ensures Tally(h, E, Hit) + Tally(h, E, Miss) + Tally(h, E, MissEvict) == |h|
  {
    if |h| > 0 {
      var p, t := h[..|h| - 1], h[|h| - 1];
      TallyPartition(p, E);
      var lines := Lru(p, E);
      var r := if t in lines then Hit else if |lines| == E then MissEvict else Miss;
      FoundOne(lines, t, E, r, Hit);
      FoundOne(lines, t, E, r, Miss);
      FoundOne(lines, t, E, r, MissEvict);
    }
  }

  /** Histories with no accesses have no outcomes. */
  lemma {:induction false} TallyAllEmpty(H: seq<seq<nat>>, E: nat, o: Outcome)
    requires forall i :: 0 <= i < |H| ==> H[i] == []
    ensures TallyAll(H, E, o) == 0
  {
    if |H| > 0 {
      TallyAllEmpty(H[..|H| - 1], E, o);
    }
  }

  /** Appending one access to a history adds its outcome to the tally. */
  lemma TallyStep(h: seq<nat>, t: nat, E: nat, o: Outcome)
    ensures Tally(h + [t], E, o) == Tally(h, E, o) + (if Found(Lru(h, E), t, E, o) then 1 else 0)
  {
    assert (h + [t])[..|h|] == h;
  }

  /** Replacing the history of set id changes the total by the change in that set's tally. */
  lemma {:induction false} TallyAllUpdate(H: seq<seq<nat>>, E: nat, o: Outcome, id: nat, x: seq<nat>)
    requires id < |H|
    ensures TallyAll(H[id := x], E, o) + Tally(H[id], E, o) == TallyAll(H, E, o) + Tally(x, E, o)
    decreases |H|
  {
    var n := |H| - 1;
    if id == n {
      assert H[id := x][..n] == H[..n];
    } else {
      assert H[id := x][..n] == H[..n][id := x];
      TallyAllUpdate(H[..n], E, o, id, x);
    }
  }

  /** One access of set id with outcome r adds one to the tally of r and nothing to the others. */
  lemma CountsStep(H: seq<seq<nat>>, E: nat, id: nat, t: nat, r: Outcome, o: Outcome)
    requires id < |H| && Found(Lru(H[id], E), t, E, r)
    ensures TallyAll(H[id := H[id] + [t]], E, o) == TallyAll(H, E, o) + (if o == r then 1 else 0)
  {
    TallyAllUpdate(H, E, o, id, H[id] + [t]);
    TallyStep(H[id], t, E, o);
    FoundOne(Lru(H[id], E), t, E, r, o);
  }

  /** One access with outcome r keeps a cache consistent, with the counter of r increased. */
  lemma ConsistentStep(s: nat, E: nat, b: nat, S: seq<seq<nat>>, H: seq<seq<nat>>, hits: nat, misses: nat, evictions: nat,
                       id: nat, t: nat, r: Outcome)
    requires Consistent(s, E, b, S, H, hits, misses, evictions) && id < |S| && Found(S[id], t, E, r)
    ensures |S[id]| <= E && Consistent(s, E, b, S[id := Touch(S[id], t, E)], H[id := H[id] + [t]],
                                       hits + (if r == Hit then 1 else 0), misses + (if r == Hit then 0 else 1),
                                       evictions + (if r == MissEvict then 1 else 0))
  {
    SetShape(S, H, E, id);
    SetsMatchTouch(S, H, E, id, t);
    CountsStep(H, E, id, t, r, Hit);
    CountsStep(H, E, id, t, r, Miss);
    CountsStep(H, E, id, t, r, MissEvict);
  }

  /**
   * The state of a cache as values: its geometry, its sets matching their
   * histories, and its counts equal to the outcomes of those histories.
   */
  ghost predicate Consistent(s: nat, E: nat, b: nat, sets: seq<seq<nat>>, history: seq<seq<nat>>,
                             hits: nat, misses: nat, evictions: nat)
  {
    E >= 1 && b + s < ADDR_BITS && |sets| == Pow2(s) && SetsMatch(sets, history, E) &&
    hits == HitsOf(history, E) && misses == MissesOf(history, E) && evictions == EvictionsOf(history, E)
  }

  /** What an access of `t` finds in `lines`: a hit when present, an eviction when absent from a full set. */
  ghost predicate Found(lines: seq<nat>, t: nat, E: nat, r: Outcome)
  {
    (r == Hit <==> t in lines) && (r == MissEvict <==> t !in lines && |lines| == E)
  }

  /**
   * The work of data_access on the list of one set: search for the tag,
   * move a hit to the tail, append on a miss with room, and otherwise
   * overwrite the head's tag and move it to the tail.
   */
  method SetAccess(lines: seq<nat>, t: nat, E: nat) returns (next: seq<nat>, r: Outcome)
    requires 1 <= E && |lines| <= E && Distinct(lines)
    ensures Found(lines, t, E, r)
    ensures next == Touch(lines, t, E)
  {
    var k := SearchLine(lines, t);
    if k < 0 {
      if |lines| < E {
        next, r := lines + [t], Miss;
      } else {
        next := ToTail(lines[0 := t], 0);
        assert next == lines[1..] + [t];
        r := MissEvict;
      }
    } else {
      ToTailTouch(lines, k);
      next, r := ToTail(lines, k), Hit;
    }
  }

  class Cache {
    /** Set index bits, lines per set and block offset bits. */
    const s: nat
    const E: nat
    const b: nat
    /** The tags of each set, least recently used first. */
    const sets: array<seq<nat>>
    var hits: nat
    var misses: nat
    var evictions: nat
    /** The tags each set has been accessed with, oldest first. */
    ghost var history: seq<seq<nat>>

    ghost predicate Valid()
      reads this, sets
    {
      Consistent(s, E, b, sets[..], history, hits, misses, evictions)
    }

    /** The cache main sets up: 2^s empty sets and zero counts. */
    constructor (s: nat, E: nat, b: nat)
      requires E >= 1 && b + s < ADDR_BITS
      ensures Valid() && this.s == s && this.E == E && this.b == b
      ensures hits == 0 && misses == 0 && evictions == 0
      ensures forall i :: 0 <= i < sets.Length ==> sets[i] == [] && history[i] == []
    {
      this.s, this.E, this.b := s, E, b;
      sets := new seq<nat>[Pow2(s)](_ => []);
      ghost var H: seq<seq<nat>> := seq(Pow2(s), _ => []);
      TallyAllEmpty(H, E, Hit);
      TallyAllEmpty(H, E, Miss);
      TallyAllEmpty(H, E, MissEvict);
      history := H;
      hits, misses, evictions := 0, 0, 0;
    }

    /**
     * data_access: look the tag up in its set; a hit moves its line to the
     * tail, a miss adds a line while the set has room and otherwise evicts
     * the least recently used one.  Exactly one of hits and misses grows.
     */
    method Access(address: nat) returns (r: Outcome)
      requires Valid() && address < ADDR_RANGE
      modifies this`hits, this`misses, this`evictions, this`history, sets
      ensures Valid()
      ensures var id, t := SetIndex(b, s, address), TagOf(b, s, address);
                id < sets.Length &&
                history == old(history)[id := old(history)[id] + [t]] &&
                Found(old(sets[id]), t, E, r) &&
                sets[..] == old(sets[..])[id := Touch(old(sets[id]), t, E)]
      ensures hits == old(hits) + (if r == Hit then 1 else 0)
      ensures misses == old(misses) + (if r == Hit then 0 else 1)
      ensures evictions == old(evictions) + (if r == MissEvict then 1 else 0)
    {
      var id := GetSetId(b, s, address);
      var t := GetTag(b, s, address);
      ghost var S0, H0 := sets[..], history;
      SetShape(S0, H0, E, id);
      var lines := sets[id];
      var next;
      next, r := SetAccess(lines, t, E);
      if r == Hit {
        hits := hits + 1;
      } else {
        misses := misses + 1;
        if r == MissEvict {
          evictions := evictions + 1;
        }
      }
      assert Consistent(s, E, b, S0[id := next], H0[id := H0[id] + [t]], hits, misses, evictions) by {
        ConsistentStep(s, E, b, S0, H0, old(hits), old(misses), old(evictions), id, t, r);
      }
      history := H0[id := H0[id] + [t]];
      Store(id, next);
    }

    /** Writes back the lines of one set. */
    method Store(id: nat, lines: seq<nat>)
      requires id < sets.Length
      modifies sets
      ensures sets[..] == old(sets[..])[id := lines]
    {
      sets[id] := lines;
    }

    /**
     * The trace loop's handling of one record: an instruction load makes no
     * access, a modify makes two to the same address, the second of which
     * always hits, and loads and stores make one.
     */
    method Replay(rec: Record)
      requires Valid() && rec.address < ADDR_RANGE
      modifies this`hits, this`misses, this`evictions, this`history, sets
      ensures Valid()
      ensures history == AfterRecord(old(history), b, s, rec)
      ensures hits + misses == old(hits + misses) + Accesses(rec.kind)
      ensures rec.kind == Instruction ==>
                hits == old(hits) && misses == old(misses) && evictions == old(evictions) &&
                sets[..] == old(sets[..])
      ensures rec.kind != Instruction ==>
                var id, t := SetIndex(b, s, rec.address), TagOf(b, s, rec.address);
                id < sets.Length &&
                hits == old(hits) + (if t in old(sets[id]) then 1 else 0) + (if rec.kind == Modify then 1 else 0) &&
                misses == old(misses) + (if t in old(sets[id]) then 0 else 1) &&
                evictions == old(evictions) + (if t !in old(sets[id]) && |old(sets[id])| == E then 1 else 0)
    {
      AfterRecordKinds(history, b, s, rec);
      if rec.kind == Instruction {
        return;
      }
      var r := Access(rec.address);
      if rec.kind == Modify {
        ghost var id, t := SetIndex(b, s, rec.address), TagOf(b, s, rec.address);
        assert t in sets[id];
        var r2 := Access(rec.address);
      }
    }

    /** The trace loop: replays the records in order. */
    method Run(trace: seq<Record>)
      requires Valid() && forall i :: 0 <= i < |trace| ==> trace[i].address < ADDR_RANGE
      modifies this`hits, this`misses, this`evictions, this`history, sets
      ensures Valid()
      ensures history == AfterTrace(old(history), b, s, trace)
      ensures hits == HitsOf(history, E) && misses == MissesOf(history, E) && evictions == EvictionsOf(history, E)
      ensures hits + misses == old(hits + misses) + TotalAccesses(trace)
      ensures evictions <= misses
    {
      var i := 0;
      while i < |trace|
        invariant 0 <= i <= |trace| && Valid()
        invariant history == AfterTrace(old(history), b, s, trace[..i])
        invariant hits + misses == old(hits + misses) + TotalAccesses(trace[..i])
      {
        Replay(trace[i]);
        assert trace[..i + 1][..i] == trace[..i];
        i := i + 1;
      }
      assert trace[..i] == trace;
    }
  }
}
