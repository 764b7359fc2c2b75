/** The engine as the page runs it: module-level mutable state (the board
    array, the move counter and the playing flag) updated in place by the
    reset, click, shuffle and win-check handlers. Reset, TryMove,
    ShuffleStep and Shuffle are proved equal to the pure transitions of
    module Game; IndexOf, Swap and CheckWin to the functions of module
    Board. */
module Engine {
  import opened Board
  import opened Game

  class Engine {
    /** Width of the board; the page fixes it at 4. */
    const size: int
    /** Cell i holds the tile at row i / size, column i % size; 0 is empty. */
    var state: array<int>
    var moves: nat
    var isPlaying: bool

    /** The session as a value. */
    ghost function Snap(): Snapshot
      reads this, state
    {
      Snapshot(state[..], moves, isPlaying)
    }

    /** The board is always a permutation of 0 .. size²-1. */
    ghost predicate Valid()
      reads this, state
    {
      Game.Valid(Snap(), size)
    }

    /** Page load: the initial variable values, then a reset. */
    constructor (size: int)
      requires size >= 2
      ensures this.size == size && fresh(state)
      ensures Valid() && Snap() == Game.Reset(size)
    {
      this.size := size;
      state := new int[0];
      moves := 0;
      isPlaying := false;
      new;
      Reset();
    }

    /** Rebuild the solved board [1, ..., size²-1, 0] in a new array, clear
        the move counter and wait for a shuffle before play starts. */
    method Reset()
      requires size >= 2
      modifies this
      ensures fresh(state)
      ensures Valid() && Snap() == Game.Reset(size)
    {
      moves := 0;
      var n := size * size;
      var a := new int[n];
      var i := 1;
      while i < n
        invariant 1 <= i <= n
        invariant forall k :: 0 <= k < i - 1 ==> a[k] == k + 1
        modifies a
      {
        a[i - 1] := i;
        i := i + 1;
      }
      a[n - 1] := 0;
      assert a[..] == Solved(n);
      state := a;
      isPlaying := false;
      assert Snap() == Game.Reset(size);
    }

    /** `state.indexOf(val)`: the first cell holding `val`, or -1. */
    method IndexOf(val: int) returns (idx: int)
      ensures idx == PositionOf(state[..], val)
    {
      idx := 0;
      while idx < state.Length
        invariant 0 <= idx <= state.Length
        invariant val !in state[..idx]
      {
        if state[idx] == val {
          PositionOfFirst(state[..], val, idx);
          return;
        }
        idx := idx + 1;
      }
      assert state[..idx] == state[..];
      idx := -1;
    }

    /** Exchange two cells in place. */
    method Swap(i: int, j: int)
      requires 0 <= i < state.Length && 0 <= j < state.Length
      modifies state
      ensures state[..] == Swapped(old(state[..]), i, j)
    {
      state[i], state[j] := state[j], state[i];
    }

    /** A click on tile `val`: ignored unless playing; a tile next to the
        empty cell slides into it, the move is counted and the win test
        runs; any other tile is rejected and nothing changes. */
    method TryMove(val: int) returns (outcome: MoveOutcome)
      requires Valid()
      modifies this, state
      ensures Valid() && state == old(state)
      ensures outcome == Classify(old(Snap()), size, val)
      ensures Snap() == Click(old(Snap()), size, val)
    {
      if !isPlaying {
        return NotPlaying;
      }
      var currentIndex := IndexOf(val);
      var emptyIdx := IndexOf(0);
      if IsAdjacent(currentIndex, emptyIdx, size) {
        ClickMoved(Snap(), size, val);
        SwappedPermutation(state[..], size * size, currentIndex, emptyIdx);
        Swap(currentIndex, emptyIdx);
        moves := moves + 1;
        CheckWin();
        outcome := Moved;
      } else {
        outcome := Illegal;
      }
    }

    /** The win test: scan the cells but the last, stopping at the first
        one that does not hold its index + 1; if none is found, play ends. */
    method CheckWin()
      modifies this`isPlaying
      ensures isPlaying == if IsWin(state[..]) then false else old(isPlaying)
    {
      var i := 0;
      while i < state.Length - 1
        invariant 0 <= i && (i == 0 || i < state.Length)
        invariant forall k :: 0 <= k < i ==> state[k] == k + 1
      {
        if state[i] != i + 1 {
          return;
        }
        i := i + 1;
      }
      isPlaying := false;
    }

    /** One shuffle step: list the empty cell's neighbours, pick one with
        the random value `r` and exchange it with the empty cell. */
    method ShuffleStep(r: real)
      requires Valid() && 0.0 <= r < 1.0
      modifies state
      ensures Valid()
      ensures state[..] == ShuffleStepBoard(old(state[..]), size, r)
    {
      var emptyIdx := IndexOf(0);
      PositionOfOnBoard(state[..], size * size, 0);
      NeighborsOnBoard(emptyIdx, size);
      var neighbors := Neighbors(emptyIdx, size);
      var randomNeighbor := neighbors[PickIndex(r, |neighbors|)];
      assert randomNeighbor in neighbors;
      ghost var before := state[..];
      SwappedPermutation(before, size * size, emptyIdx, randomNeighbor);
      state[emptyIdx], state[randomNeighbor] := state[randomNeighbor], state[emptyIdx];
      assert state[..] == Swapped(before, emptyIdx, randomNeighbor);
    }

    /** A shuffle: SHUFFLE_MOVES steps, one random value each, then play
        starts with the move counter at zero. */
    method Shuffle(randoms: seq<real>)
      requires Valid() && |randoms| == SHUFFLE_MOVES && IsRandom(randoms)
      modifies this, state
      ensures Valid() && state == old(state)
      ensures Snap() == Game.Shuffle(old(Snap()), size, randoms)
    {
      var shuffleMoves := 0;
      while shuffleMoves < SHUFFLE_MOVES
        invariant 0 <= shuffleMoves <= SHUFFLE_MOVES
        invariant state == old(state) && Valid()
        invariant state[..] == ShuffleBoard(old(state[..]), size, randoms[..shuffleMoves])
      {
        ShuffleBoardPrefix(old(state[..]), size, randoms, shuffleMoves);
        ShuffleStep(randoms[shuffleMoves]);
        shuffleMoves := shuffleMoves + 1;
      }
      assert randoms[..shuffleMoves] == randoms;
      isPlaying := true;
      moves := 0;
    }
  }
}
