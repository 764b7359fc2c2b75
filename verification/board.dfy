/** The board of an N×N sliding-tile puzzle: a flat sequence of size*size
    integers in which 0 marks the empty cell. Cell i sits at row
    floor(i / size) and column i mod size. Everything here is pure:
    index arithmetic, the neighbour list used by the shuffle, the
    permutation invariant, the solved board and the win test. */
module Board {

  /** Row of cell `i`: `Math.floor(i / size)`. With a positive divisor
      Dafny's `/` rounds toward minus infinity, as Math.floor does. */
  function Row(i: int, size: int): (r: int)
    requires size > 0
    ensures size * r <= i < size * r + size
  {
    i / size
  }

  /** Column of cell `i`: JavaScript's `i % size`, which truncates toward
      zero, so a negative index (indexOf's -1) has a negative column. */
  function Col(i: int, size: int): (c: int)
    requires size > 0
    ensures Abs(c) < size
    ensures i >= 0 ==> c >= 0 && i == size * Row(i, size) + c
    ensures i <= 0 ==> c <= 0 && -i == size * Row(-i, size) - c
  {
    if i >= 0 then i % size else -((-i) % size)
  }

  function Abs(x: int): nat
  {
    if x < 0 then -x else x
  }

  /** Two indices are adjacent when their grid Manhattan distance is 1. */
  predicate IsAdjacent(a: int, b: int, size: int)
    requires size > 0
    ensures IsAdjacent(a, b, size) ==> a != b
    ensures IsAdjacent(a, b, size) ==> Row(a, size) == Row(b, size) || Col(a, size) == Col(b, size)
  {
    Abs(Row(a, size) - Row(b, size)) + Abs(Col(a, size) - Col(b, size)) == 1
  }

  /** The cells the shuffle may slide into the empty cell `e`, in the order
      up, down, left, right; a direction is listed only when it stays on
      the board. */
  function Neighbors(e: int, size: int): (r: seq<int>)
    requires size > 0
    ensures |r| <= 4
  {
    var row, col := Row(e, size), Col(e, size);
    (if row > 0 then [e - size] else [])
    + (if row < size - 1 then [e + size] else [])
    + (if col > 0 then [e - 1] else [])
    + (if col < size - 1 then [e + 1] else [])
  }

  /** `Array.prototype.indexOf`: the first index holding `v`, or -1. */
  function PositionOf(s: seq<int>, v: int): (r: int)
    ensures -1 <= r < |s|
    ensures r == -1 <==> v !in s
    ensures 0 <= r ==> s[r] == v && v !in s[..r]
  {
    if |s| == 0 then -1
    else if s[0] == v then 0
    else
      var t := PositionOf(s[1..], v);
      assert s == [s[0]] + s[1..];
      if t == -1 then -1
      else
        assert s[..t + 1] == [s[0]] + s[1..][..t];
        t + 1
  }

  /** The board with cells `i` and `j` exchanged. */
  function Swapped(s: seq<int>, i: int, j: int): (r: seq<int>)
    requires 0 <= i < |s| && 0 <= j < |s|
    ensures |r| == |s|
    ensures r[i] == s[j] && r[j] == s[i]
    ensures forall k :: 0 <= k < |s| && k != i && k != j ==> r[k] == s[k]
  {
    s[i := s[j]][j := s[i]]
  }

  /** The permutation invariant: exactly the values 0 .. n-1, each once. */
  predicate IsPermutation(s: seq<int>, n: int)
  {
    |s| == n
    && (forall i :: 0 <= i < |s| ==> 0 <= s[i] < n)
    && (forall v :: 0 <= v < n ==> multiset(s)[v] == 1)
  }

  /** The solved board [1, 2, ..., n-1, 0]. */
  function Solved(n: nat): (r: seq<int>)
    ensures |r| == n
    ensures n > 0 ==> r[n - 1] == 0
  {
    seq(n, i => if i < n - 1 then i + 1 else 0)
  }

  /** The test `checkWin` runs: every cell but the last holds its index + 1. */
  predicate IsWin(s: seq<int>)
  {
    forall i :: 0 <= i < |s| - 1 ==> s[i] == i + 1
  }

  /** `Math.floor(r * len)` for a value `r` that Math.random may return. */
  function PickIndex(r: real, len: nat): (k: nat)
    requires 0.0 <= r < 1.0 && len > 0
    ensures k < len
  {
    var x := r * len as real;
    assert x < len as real by {
      assert r * len as real < 1.0 * len as real;
    }
    x.Floor
  }

  // ---------------------------------------------------------------------
  // Index arithmetic

  /** A cell of the board has a row and a column inside the grid and is
      recovered from them. */
  lemma CellCoords(i: int, size: int)
    requires size > 0 && 0 <= i < size * size
    ensures 0 <= Row(i, size) < size && 0 <= Col(i, size) < size
    ensures i == size * Row(i, size) + Col(i, size)
  {
    var q := Row(i, size);
    assert size * (q + 1) == size * q + size;
    MulMono(size, size, q);
    MulMono(size, q + 1, 0);
  }

  /** Row and column of the cell at (r, c). */
  lemma CellAt(r: int, c: int, size: int)
    requires size > 0 && 0 <= r && 0 <= c < size
    ensures Row(size * r + c, size) == r && Col(size * r + c, size) == c
  {
    var i := size * r + c;
    var q, m := i / size, i % size;
    assert i == size * q + m && 0 <= m < size;
    assert size * (q - r) == c - m;
    MulMono(size, 1, q - r);
    MulMono(size, q - r, -1);
  }

  lemma MulMono(a: int, b: int, c: int)
    requires a >= 0
    ensures b <= c ==> a * b <= a * c
  {
  }

  /** Adjacency is symmetric and irreflexive, and a diagonal step (a change
      of both row and column) is never adjacent. */
  lemma AdjacencyShape(a: int, b: int, size: int)
    requires size > 0
    ensures IsAdjacent(a, b, size) == IsAdjacent(b, a, size)
    ensures !IsAdjacent(a, a, size)
    ensures Row(a, size) != Row(b, size) && Col(a, size) != Col(b, size) ==> !IsAdjacent(a, b, size)
  {
  }

  /** indexOf's -1, for a value that is not on the board, is adjacent to
      no cell. */
  lemma MissingNotAdjacent(e: int, size: int)
    requires size >= 2 && 0 <= e
    ensures Row(-1, size) == -1 && Col(-1, size) == -1
    ensures !IsAdjacent(-1, e, size)
  {
    assert Row(-1, size) == -1 by {
      assert -1 == size * (-1) + (size - 1);
    }
    assert Col(-1, size) == -1;
    assert Row(e, size) >= 0 && Col(e, size) >= 0;
  }

  /** Between two cells of the board, adjacency is exactly membership in
      the neighbour list, in both directions. */
  lemma AdjacentIffNeighbor(a: int, b: int, size: int)
    requires size > 0 && 0 <= a < size * size && 0 <= b < size * size
    ensures IsAdjacent(a, b, size) <==> b in Neighbors(a, size)
  {
    if IsAdjacent(a, b, size) {
      AdjacentIsNeighbor(a, b, size);
    }
    if b in Neighbors(a, size) {
      NeighborIsAdjacent(a, b, size);
    }
  }

  lemma AdjacentIsNeighbor(a: int, b: int, size: int)
    requires size > 0 && 0 <= a < size * size && 0 <= b < size * size
    requires IsAdjacent(a, b, size)
    ensures b in Neighbors(a, size)
  {
    CellCoords(a, size);
    CellCoords(b, size);
    var ra, ca, rb, cb := Row(a, size), Col(a, size), Row(b, size), Col(b, size);
    if ra == rb + 1 {
      assert size * ra == size * rb + size;
      assert b == a - size;
    } else if rb == ra + 1 {
      assert size * rb == size * ra + size;
      assert b == a + size;
    } else {
      assert ra == rb;
    }
  }

  lemma NeighborIsAdjacent(a: int, b: int, size: int)
    requires size > 0 && 0 <= a < size * size
    requires b in Neighbors(a, size)
    ensures IsAdjacent(a, b, size)
  {
    CellCoords(a, size);
    var ra, ca := Row(a, size), Col(a, size);
    if ra > 0 && b == a - size {
      assert size * (ra - 1) == size * ra - size;
      CellAt(ra - 1, ca, size);
    } else if ra < size - 1 && b == a + size {
      assert size * (ra + 1) == size * ra + size;
      CellAt(ra + 1, ca, size);
    } else if ca > 0 && b == a - 1 {
      CellAt(ra, ca - 1, size);
    } else {
      CellAt(ra, ca + 1, size);
    }
  }

  /** On a board of size at least 2 every cell has between 2 and 4
      neighbours, all of them on the board and adjacent to it. */
  lemma NeighborsOnBoard(e: int, size: int)
    requires size >= 2 && 0 <= e < size * size
    ensures 2 <= |Neighbors(e, size)| <= 4
    ensures forall j :: j in Neighbors(e, size) ==> 0 <= j < size * size && IsAdjacent(e, j, size)
  {
    CellCoords(e, size);
    var row, col := Row(e, size), Col(e, size);
    assert size * (row + 1) == size * row + size;
    assert size * (size - 1) == size * size - size;
    MulMono(size, 1, row);
    MulMono(size, row + 1, size - 1);
    forall j | j in Neighbors(e, size)
      ensures 0 <= j < size * size && IsAdjacent(e, j, size)
    {
      AdjacentIffNeighbor(e, j, size);
    }
  }

  /** Exchanging the same two cells twice restores the board. */
  lemma SwappedTwice(s: seq<int>, i: int, j: int)
    requires 0 <= i < |s| && 0 <= j < |s|
    ensures Swapped(Swapped(s, i, j), i, j) == s && Swapped(Swapped(s, i, j), j, i) == s
  {
  }

  // ---------------------------------------------------------------------
  // The permutation invariant

  /** A value found at two different cells is counted at least twice. */
  lemma RepeatCounted(s: seq<int>, i: int, j: int)
    requires 0 <= i < j < |s| && s[i] == s[j]
    ensures multiset(s)[s[i]] >= 2
  {
    var v := s[i];
    assert s == s[..j] + s[j..];
    assert s[..j][i] == v;
    assert s[j..][0] == v;
    assert multiset(s)[v] == multiset(s[..j])[v] + multiset(s[j..])[v];
  }

  /** Under the invariant no value occurs twice. */
  lemma PermutationInjective(s: seq<int>, n: int, i: int, j: int)
    requires IsPermutation(s, n)
    requires 0 <= i < |s| && 0 <= j < |s| && s[i] == s[j]
    ensures i == j
  {
    if i < j {
      RepeatCounted(s, i, j);
    } else if j < i {
      RepeatCounted(s, j, i);
    }
  }

  /** A cell holding `v` with no earlier cell holding it is what indexOf
      finds. */
  lemma PositionOfFirst(s: seq<int>, v: int, i: int)
    requires 0 <= i < |s| && s[i] == v && v !in s[..i]
    ensures PositionOf(s, v) == i
  {
    var r := PositionOf(s, v);
    assert forall k :: 0 <= k < i ==> s[..i][k] == s[k];
    assert forall k :: 0 <= k < r ==> s[..r][k] == s[k];
  }

  /** Under the invariant every value of the range is found, at the one
      cell that holds it. */
  lemma PositionOfOnBoard(s: seq<int>, n: int, v: int)
    requires IsPermutation(s, n) && 0 <= v < n
    ensures 0 <= PositionOf(s, v) < n && s[PositionOf(s, v)] == v
  {
    assert multiset(s)[v] == 1;
  }

  /** indexOf finds the cell that holds a value, whichever it is. */
  lemma PositionOfCell(s: seq<int>, n: int, i: int)
    requires IsPermutation(s, n) && 0 <= i < |s|
    ensures PositionOf(s, s[i]) == i
  {
    PositionOfOnBoard(s, n, s[i]);
    PermutationInjective(s, n, PositionOf(s, s[i]), i);
  }

  /** Exchanging two cells keeps the invariant. */
  lemma SwappedPermutation(s: seq<int>, n: int, i: int, j: int)
    requires IsPermutation(s, n) && 0 <= i < |s| && 0 <= j < |s|
    ensures multiset(Swapped(s, i, j)) == multiset(s)
    ensures IsPermutation(Swapped(s, i, j), n)
  {
  }

  /** A sequence without repeated values holds each of its values once. */
  lemma {:induction false} DistinctOnce(s: seq<int>, v: int)
    requires forall i, j :: 0 <= i < j < |s| ==> s[i] != s[j]
    requires v in s
    ensures multiset(s)[v] == 1
  {
    assert s == [s[0]] + s[1..];
    if s[0] == v {
      forall k | 0 <= k < |s| - 1
        ensures s[1..][k] != v
      {
        assert s[1..][k] == s[k + 1];
      }
      assert v !in s[1..];
    } else {
      DistinctOnce(s[1..], v);
    }
  }

  /** The solved board satisfies the invariant and wins. */
  lemma SolvedIsPermutation(n: nat)
    requires n >= 1
    ensures IsPermutation(Solved(n), n) && IsWin(Solved(n))
  {
    var s := Solved(n);
    forall v | 0 <= v < n
      ensures multiset(s)[v] == 1
    {
      assert s[if v == 0 then n - 1 else v - 1] == v;
      DistinctOnce(s, v);
    }
  }

  /** Under the invariant, the win test holds exactly on the solved board:
      the last cell need not be checked because it is forced to hold 0. */
  lemma WinIffSolved(s: seq<int>, n: nat)
    requires n >= 1 && IsPermutation(s, n)
    ensures IsWin(s) <==> s == Solved(n)
  {
    if IsWin(s) {
      var v := s[n - 1];
      if v != 0 {
        assert s[v - 1] == v;
        PermutationInjective(s, n, v - 1, n - 1);
      }
      assert forall i :: 0 <= i < n ==> s[i] == Solved(n)[i];
    }
  }

  /** Exchanging any two different cells of the solved board gives a board
      that does not win. */
  lemma SwapBreaksWin(n: nat, i: int, j: int)
    requires 0 <= i < n && 0 <= j < n && i != j
    ensures !IsWin(Swapped(Solved(n), i, j))
  {
    var t := Swapped(Solved(n), i, j);
    SolvedIsPermutation(n);
    SwappedPermutation(Solved(n), n, i, j);
    WinIffSolved(t, n);
    assert t[i] == Solved(n)[j] != Solved(n)[i];
  }
}
