/**
 * The matrix transposes of cachelab-handout/trans.c.  A is an N by M
 * matrix (N rows of M ints), B an M by N one; both transposes write
 * B = A^T and leave A alone, and is_transpose checks the result.
 */
module Transpose {

  /** The side of the square tiles transpose_submit works in. */
  const TILE: nat := 8

  /** B has the transposed shape of A. */
  predicate Shaped(A: array2<int>, B: array2<int>)
  {
    B.Length0 == A.Length1 && B.Length1 == A.Length0
  }

  /** B holds A^T: B[j, i] == A[i, j] for every row i and column j of A. */
  ghost predicate Transposed(A: array2<int>, B: array2<int>)
    reads A, B
  {
    Shaped(A, B) &&
    forall i, j :: 0 <= i < A.Length0 && 0 <= j < A.Length1 ==> B[j, i] == A[i, j]
  }

  /** Transposing is symmetric: B holds A^T exactly when A holds B^T. */
  lemma TransposedSymmetric(A: array2<int>, B: array2<int>)
    ensures Transposed(A, B) <==> Transposed(B, A)
  {
    if Transposed(B, A) {
      forall i, j | 0 <= i < A.Length0 && 0 <= j < A.Length1
        ensures B[j, i] == A[i, j]
      {
        assert 0 <= j < B.Length0 && 0 <= i < B.Length1;
      }
    }
  }

  /** The transpose is unique: two matrices that both hold A^T agree everywhere. */
  lemma TransposedUnique(A: array2<int>, B: array2<int>, C: array2<int>)
    requires Transposed(A, B) && Transposed(A, C)
    ensures forall x, y :: 0 <= x < B.Length0 && 0 <= y < B.Length1 ==> B[x, y] == C[x, y]
  {
    forall x, y | 0 <= x < B.Length0 && 0 <= y < B.Length1
      ensures B[x, y] == C[x, y]
    {
      assert B[x, y] == A[y, x];
    }
  }

  /** trans: the plain row-by-row scan of A, writing each element to its mirrored place in B. */
  method Trans(A: array2<int>, B: array2<int>)
    requires A != B && Shaped(A, B)
    modifies B
    ensures Transposed(A, B)
    ensures unchanged(A)
  {
    var i := 0;
    while i < A.Length0
      invariant 0 <= i <= A.Length0
      invariant forall r, c :: 0 <= r < i && 0 <= c < A.Length1 ==> B[c, r] == A[r, c]
    {
      var j := 0;
      while j < A.Length1
        invariant 0 <= j <= A.Length1
        invariant forall r, c :: 0 <= r < i && 0 <= c < A.Length1 ==> B[c, r] == A[r, c]
        invariant forall c :: 0 <= c < j ==> B[c, i] == A[i, c]
      {
        var tmp := A[i, j];
        B[j, i] := tmp;
        j := j + 1;
      }
      i := i + 1;
    }
  }

  /** Cell (x, y) of B lies in the tile whose top-left corner in A is (i, j). */
  predicate InTile(x: int, y: int, i: int, j: int)
  {
    j <= x < j + TILE && i <= y < i + TILE
  }

  /**
   * One 8 by 8 tile of transpose_submit: rows i to i + 7 of A, columns j to
   * j + 7, in the order of the source's 64 assignments.  The ghost `written`
   * collects the cells of B written to: each cell of the tile once, and no
   * other cell of B is touched.
   */
  method WriteTile(A: array2<int>, B: array2<int>, i: nat, j: nat) returns (ghost written: multiset<(int, int)>)
    requires A != B && Shaped(A, B)
    requires i + TILE <= A.Length0 && j + TILE <= A.Length1
    modifies B
    ensures forall x, y :: written[(x, y)] == if InTile(x, y, i, j) then 1 else 0
    ensures forall x, y :: 0 <= x < B.Length0 && 0 <= y < B.Length1 ==>
              B[x, y] == if InTile(x, y, i, j) then A[y, x] else old(B[x, y])
  {
    written := multiset{};
    var r := 0;
    while r < TILE
      invariant 0 <= r <= TILE
      invariant forall x, y :: written[(x, y)] == if InTile(x, y, i, j) && y < i + r then 1 else 0
      invariant forall x, y :: 0 <= x < B.Length0 && 0 <= y < B.Length1 ==>
                  B[x, y] == if InTile(x, y, i, j) && y < i + r then A[y, x] else old(B[x, y])
    {
      var c := 0;
      while c < TILE
        invariant 0 <= c <= TILE
        invariant forall x, y :: written[(x, y)] ==
                    if InTile(x, y, i, j) && (y < i + r || (y == i + r && x < j + c)) then 1 else 0
        invariant forall x, y :: 0 <= x < B.Length0 && 0 <= y < B.Length1 ==>
                    B[x, y] == if InTile(x, y, i, j) && (y < i + r || (y == i + r && x < j + c))
                               then A[y, x] else old(B[x, y])
      {
        B[j + c, i + r] := A[i + r, j + c];
        written := written + multiset{(j + c, i + r)};
        c := c + 1;
      }
      r := r + 1;
    }
  }

  /** Cell (x, y) of B is covered once the tiles up to row band i and, in it, up to column j are done. */
  predicate Covered(x: int, y: int, i: int, j: int)
  {
    0 <= y && 0 <= x && (y < i || (y < i + TILE && x < j))
  }

  /**
   * transpose_submit: when both dimensions are multiples of 8, the tiles
   * are visited row band by row band and each is transposed whole; every
   * cell of B is then written exactly once.  Otherwise nothing is written.
   * The ghost `written` collects the cells of B written to.
   */
  method TransposeSubmit(A: array2<int>, B: array2<int>) returns (ghost written: multiset<(int, int)>)
    requires A != B && Shaped(A, B)
    modifies B
    ensures A.Length0 % TILE == 0 && A.Length1 % TILE == 0 ==>
              Transposed(A, B) &&
              forall x, y :: written[(x, y)] == if 0 <= x < B.Length0 && 0 <= y < B.Length1 then 1 else 0
    ensures !(A.Length0 % TILE == 0 && A.Length1 % TILE == 0) ==> unchanged(B) && written == multiset{}
    ensures unchanged(A)
  {
    written := multiset{};
    if A.Length0 % TILE == 0 && A.Length1 % TILE == 0 {
      var i := 0;
      while i < A.Length0
        invariant 0 <= i <= A.Length0 && i % TILE == 0
        invariant forall x, y :: written[(x, y)] == if 0 <= x < B.Length0 && 0 <= y < i then 1 else 0
        invariant forall x, y :: 0 <= x < B.Length0 && 0 <= y < i ==> B[x, y] == A[y, x]
      {
        var j := 0;
        while j < A.Length1
          invariant 0 <= j <= A.Length1 && j % TILE == 0
          invariant forall x, y :: written[(x, y)] == if x < B.Length0 && Covered(x, y, i, j) then 1 else 0
          invariant forall x, y :: 0 <= x < B.Length0 && 0 <= y < B.Length1 && Covered(x, y, i, j) ==>
                      B[x, y] == A[y, x]
        {
          var tile := WriteTile(A, B, i, j);
          written := written + tile;
          j := j + TILE;
        }
        i := i + TILE;
      }
    }
  }

  /**
   * is_transpose: scans A row by row and answers 0 at the first element
   * whose mirror in B differs, and 1 when there is none.
   */
  method IsTranspose(A: array2<int>, B: array2<int>) returns (ok: int)
    requires Shaped(A, B)
    ensures ok == 0 || ok == 1
    ensures ok == 1 <==> Transposed(A, B)
  {
    var i := 0;
    while i < A.Length0
      invariant 0 <= i <= A.Length0
      invariant forall r, c :: 0 <= r < i && 0 <= c < A.Length1 ==> B[c, r] == A[r, c]
    {
      var j := 0;
      while j < A.Length1
        invariant 0 <= j <= A.Length1
        invariant forall c :: 0 <= c < j ==> B[c, i] == A[i, c]
      {
        if A[i, j] != B[j, i] {
          return 0;
        }
        j := j + 1;
      }
      i := i + 1;
    }
    return 1;
  }
}
