/** The puzzle engine as pure transitions on a snapshot of its session
    state: the board, the move counter and the playing flag. These
    functions are the specification that the imperative engine (module
    Engine) is proved against, and the lemmas below state what the game
    promises about them. */
module Game {
  import opened Board

  /** Number of random slides one shuffle performs. */
  const SHUFFLE_MOVES := 100

  datatype Snapshot = Snapshot(board: seq<int>, moves: nat, playing: bool)

  /** Which branch a click request takes. */
  datatype MoveOutcome = NotPlaying | Illegal | Moved

  /** The session invariant: the board is a permutation of 0 .. size²-1. */
  predicate Valid(g: Snapshot, size: int)
  {
    size >= 2 && IsPermutation(g.board, size * size)
  }

  /** The state after a reset: the solved board, no moves, not playing. */
  function Reset(size: int): (g: Snapshot)
    requires size >= 2
    ensures Valid(g, size) && IsWin(g.board) && g.moves == 0 && !g.playing
  {
    SolvedIsPermutation(size * size);
    Snapshot(Solved(size * size), 0, false)
  }

  // ---------------------------------------------------------------------
  // Moves

  /** The decision a click on tile `val` makes: nothing while not playing,
      a move when the tile's cell is adjacent to the empty cell, otherwise
      a rejection. */
  function Classify(g: Snapshot, size: int, val: int): (o: MoveOutcome)
    requires size > 0
    ensures o == NotPlaying <==> !g.playing
  {
    if !g.playing then NotPlaying
    else if IsAdjacent(PositionOf(g.board, val), PositionOf(g.board, 0), size) then Moved
    else Illegal
  }

  /** The session after a click on tile `val`: on a legal move the tile and
      the empty cell are exchanged, one move is counted and the win test
      may end play; otherwise nothing changes. */
  function Click(g: Snapshot, size: int, val: int): (r: Snapshot)
    requires Valid(g, size)
    ensures Valid(r, size)
  {
    if Classify(g, size, val) == Moved then
      var i, e := PositionOf(g.board, val), PositionOf(g.board, 0);
      PositionOfOnBoard(g.board, size * size, 0);
      MissingNotAdjacent(e, size);
      SwappedPermutation(g.board, size * size, i, e);
      var b := Swapped(g.board, i, e);
      Snapshot(b, g.moves + 1, if IsWin(b) then false else g.playing)
    else
      g
  }

  /** The session after a legal move, written out. */
  lemma ClickMoved(g: Snapshot, size: int, val: int)
    requires Valid(g, size) && Classify(g, size, val) == Moved
    ensures var i, e := PositionOf(g.board, val), PositionOf(g.board, 0);
            0 <= i < |g.board| && 0 <= e < |g.board|
            && var b := Swapped(g.board, i, e);
               Click(g, size, val) == Snapshot(b, g.moves + 1, if IsWin(b) then false else g.playing)
  {
    PositionOfOnBoard(g.board, size * size, 0);
    MissingNotAdjacent(PositionOf(g.board, 0), size);
  }

  /** A series of click requests, handled in order. */
  function Clicks(g: Snapshot, size: int, vals: seq<int>): (r: Snapshot)
    requires Valid(g, size)
    ensures Valid(r, size)
    decreases |vals|
  {
    if vals == [] then g else Clicks(Click(g, size, vals[0]), size, vals[1..])
  }

  /** A click moves exactly when the game is playing and the clicked value
      is a tile (not the empty cell, not a value off the board) whose cell
      is one of the empty cell's neighbours. */
  lemma ClassifyMovedIff(g: Snapshot, size: int, val: int)
    requires Valid(g, size)
    ensures Classify(g, size, val) == Moved
        <==> g.playing && 1 <= val < size * size
             && PositionOf(g.board, val) in Neighbors(PositionOf(g.board, 0), size)
  {
    var n := size * size;
    var i, e := PositionOf(g.board, val), PositionOf(g.board, 0);
    PositionOfOnBoard(g.board, n, 0);
    AdjacencyShape(i, e, size);
    if 1 <= val < n {
      PositionOfOnBoard(g.board, n, val);
      AdjacentIffNeighbor(e, i, size);
    } else if val == 0 {
      assert i == e;
    } else {
      assert val !in g.board;
      MissingNotAdjacent(e, size);
    }
  }

  /** A legal move slides the clicked tile into the empty cell, leaves
      every other cell alone, moves the empty cell to an adjacent cell and
      counts one move; play ends exactly when the new board is the solved
      board. Any other click changes nothing. */
  lemma ClickSlidesTile(g: Snapshot, size: int, val: int)
    requires Valid(g, size)
    ensures var r, i, e := Click(g, size, val), PositionOf(g.board, val), PositionOf(g.board, 0);
            if Classify(g, size, val) == Moved then
              0 <= i < |g.board| && 0 <= e < |g.board| && IsAdjacent(i, e, size)
              && r.board[e] == val && r.board[i] == 0 && PositionOf(r.board, 0) == i
              && (forall k :: 0 <= k < |g.board| && k != i && k != e ==> r.board[k] == g.board[k])
              && r.moves == g.moves + 1
              && (r.playing <==> r.board != Solved(size * size))
            else r == g
  {
    var r, i, e := Click(g, size, val), PositionOf(g.board, val), PositionOf(g.board, 0);
    if Classify(g, size, val) == Moved {
      PositionOfOnBoard(g.board, size * size, 0);
      MissingNotAdjacent(e, size);
      PositionOfCell(r.board, size * size, i);
      WinIffSolved(r.board, size * size);
    }
  }

  /** While the game is not playing (before the first shuffle, or after a
      win) no series of clicks changes anything. */
  lemma {:induction false} ClicksWhileIdle(g: Snapshot, size: int, vals: seq<int>)
    requires Valid(g, size) && !g.playing
    ensures Clicks(g, size, vals) == g
    decreases |vals|
  {
    if vals != [] {
      ClicksWhileIdle(Click(g, size, vals[0]), size, vals[1..]);
    }
  }

  /** A winning move freezes the game: every later click is ignored. */
  lemma WonGameFreezes(g: Snapshot, size: int, val: int, later: seq<int>)
    requires Valid(g, size)
    requires Classify(g, size, val) == Moved && IsWin(Click(g, size, val).board)
    ensures !Click(g, size, val).playing
    ensures Clicks(Click(g, size, val), size, later) == Click(g, size, val)
  {
    ClicksWhileIdle(Click(g, size, val), size, later);
  }

  // ---------------------------------------------------------------------
  // Shuffle

  /** Values Math.random may return: each in [0, 1). */
  predicate IsRandom(rs: seq<real>)
  {
    forall k :: 0 <= k < |rs| ==> 0.0 <= rs[k] < 1.0
  }

  /** One shuffle step: list the empty cell's neighbours, pick one with
      the random value `r`, and exchange it with the empty cell. */
  function ShuffleStepBoard(s: seq<int>, size: int, r: real): (t: seq<int>)
    requires size >= 2 && IsPermutation(s, size * size) && 0.0 <= r < 1.0
    ensures IsPermutation(t, size * size)
    ensures 0 <= PositionOf(s, 0) < |s| && 0 <= PositionOf(t, 0) < |s|
    ensures PositionOf(t, 0) in Neighbors(PositionOf(s, 0), size)
    ensures t == Swapped(s, PositionOf(s, 0), PositionOf(t, 0))
  {
    var e := PositionOf(s, 0);
    PositionOfOnBoard(s, size * size, 0);
    NeighborsOnBoard(e, size);
    var neighbors := Neighbors(e, size);
    var j := neighbors[PickIndex(r, |neighbors|)];
    assert j in neighbors;
    var t := Swapped(s, e, j);
    SwappedPermutation(s, size * size, e, j);
    assert t[j] == 0;
    PositionOfCell(t, size * size, j);
    t
  }

  /** The board after one shuffle step per random value, in order. */
  function ShuffleBoard(s: seq<int>, size: int, rs: seq<real>): (t: seq<int>)
    requires size >= 2 && IsPermutation(s, size * size) && IsRandom(rs)
    ensures IsPermutation(t, size * size)
    decreases |rs|
  {
    if rs == [] then s
    else ShuffleStepBoard(ShuffleBoard(s, size, rs[..|rs| - 1]), size, rs[|rs| - 1])
  }

  /** The shuffle of the first k + 1 values is one more step after the
      shuffle of the first k. */
  lemma ShuffleBoardPrefix(s: seq<int>, size: int, rs: seq<real>, k: nat)
    requires size >= 2 && IsPermutation(s, size * size) && IsRandom(rs) && k < |rs|
    ensures IsRandom(rs[..k]) && IsRandom(rs[..k + 1])
    ensures ShuffleBoard(s, size, rs[..k + 1])
            == ShuffleStepBoard(ShuffleBoard(s, size, rs[..k]), size, rs[k])
  {
    assert rs[..k + 1][..k] == rs[..k];
  }

  /** Shuffling with `xs` and then `ys` is shuffling with `xs + ys`. */
  lemma {:induction false} ShuffleBoardAppend(s: seq<int>, size: int, xs: seq<real>, ys: seq<real>)
    requires size >= 2 && IsPermutation(s, size * size) && IsRandom(xs) && IsRandom(ys)
    ensures IsRandom(xs + ys)
    ensures ShuffleBoard(s, size, xs + ys) == ShuffleBoard(ShuffleBoard(s, size, xs), size, ys)
    decreases |ys|
  {
    if ys == [] {
      assert xs + ys == xs;
    } else {
      var m := |xs + ys| - 1;
      var front := ys[..|ys| - 1];
      assert (xs + ys)[..m] == xs + front;
      ShuffleBoardAppend(s, size, xs, front);
      ShuffleBoardPrefix(s, size, xs + ys, m);
      assert (xs + ys)[..m + 1] == xs + ys;
    }
  }

  /** A complete shuffle: SHUFFLE_MOVES steps, then play starts with the
      move counter at zero. The win test is not run, so play starts even
      on a board that happens to be solved. */
  function Shuffle(g: Snapshot, size: int, rs: seq<real>): (r: Snapshot)
    requires Valid(g, size) && |rs| == SHUFFLE_MOVES && IsRandom(rs)
    ensures Valid(r, size) && r.playing && r.moves == 0
  {
    Snapshot(ShuffleBoard(g.board, size, rs), 0, true)
  }

  /** The cells the empty cell visits during a shuffle: where it starts,
      then where it is after each step. */
  function EmptyTrail(s: seq<int>, size: int, rs: seq<real>): (tr: seq<int>)
    requires size >= 2 && IsPermutation(s, size * size) && IsRandom(rs)
    ensures |tr| == |rs| + 1
    ensures tr[0] == PositionOf(s, 0)
    ensures tr[|rs|] == PositionOf(ShuffleBoard(s, size, rs), 0)
    ensures forall k :: 0 <= k < |tr| ==> 0 <= tr[k] < |s|
    ensures forall k :: 0 <= k < |rs| ==> tr[k + 1] in Neighbors(tr[k], size)
    decreases |rs|
  {
    PositionOfOnBoard(s, size * size, 0);
    if rs == [] then [PositionOf(s, 0)]
    else EmptyTrail(s, size, rs[..|rs| - 1]) + [PositionOf(ShuffleBoard(s, size, rs), 0)]
  }

  /** Cells all on a board of `n` cells. */
  predicate OnBoard(ps: seq<int>, n: int)
  {
    forall k :: 0 <= k < |ps| ==> 0 <= ps[k] < n
  }

  /** A prefix of a walk on the board is on the board. */
  lemma OnBoardPrefix(ps: seq<int>, n: int, k: nat)
    requires OnBoard(ps, n) && k <= |ps|
    ensures OnBoard(ps[..k], n)
  {
    forall i | 0 <= i < k
      ensures 0 <= ps[..k][i] < n
    {
      assert ps[..k][i] == ps[i];
    }
  }

  /** The board after sliding along a walk of cells: each consecutive pair
      of cells is exchanged in turn. */
  function SlideAlong(s: seq<int>, ps: seq<int>): (t: seq<int>)
    requires |ps| >= 1 && OnBoard(ps, |s|)
    ensures |t| == |s|
    decreases |ps|
  {
    if |ps| == 1 then s
    else Swapped(SlideAlong(s, ps[..|ps| - 1]), ps[|ps| - 2], ps[|ps| - 1])
  }

  function Reversed(ps: seq<int>): (r: seq<int>)
    ensures |r| == |ps|
    ensures forall k :: 0 <= k < |ps| ==> r[k] == ps[|ps| - 1 - k]
    decreases |ps|
  {
    if ps == [] then [] else [ps[|ps| - 1]] + Reversed(ps[..|ps| - 1])
  }

  /** A shuffle is the walk of the empty cell along its trail. */
  lemma {:induction false} ShuffleFollowsTrail(s: seq<int>, size: int, rs: seq<real>)
    requires size >= 2 && IsPermutation(s, size * size) && IsRandom(rs)
    ensures ShuffleBoard(s, size, rs) == SlideAlong(s, EmptyTrail(s, size, rs))
    decreases |rs|
  {
    if rs != [] {
      var front := rs[..|rs| - 1];
      ShuffleFollowsTrail(s, size, front);
      var tr := EmptyTrail(s, size, rs);
      assert tr[..|tr| - 1] == EmptyTrail(s, size, front);
      var u := ShuffleBoard(s, size, front);
      assert tr[|tr| - 2] == PositionOf(u, 0);
    }
  }

  /** Sliding along a walk that starts with the pair (a, b) is exchanging
      a and b first and then sliding along the rest of the walk from b. */
  lemma {:induction false} SlideAlongFront(s: seq<int>, a: int, b: int, rest: seq<int>)
    requires 0 <= a < |s| && 0 <= b < |s| && OnBoard([a, b] + rest, |s|)
    ensures OnBoard([b] + rest, |s|)
    ensures SlideAlong(s, [a, b] + rest) == SlideAlong(Swapped(s, a, b), [b] + rest)
    decreases |rest|
  {
    assert OnBoard([b] + rest, |s|) by {
      forall k | 0 <= k < |[b] + rest|
        ensures 0 <= ([b] + rest)[k] < |s|
      {
        assert ([b] + rest)[k] == ([a, b] + rest)[k + 1];
      }
    }
    if rest == [] {
      assert ([a, b] + rest)[..1] == [a];
    } else {
      var front := rest[..|rest| - 1];
      assert ([a, b] + rest)[..|[a, b] + rest| - 1] == [a, b] + front;
      assert ([b] + rest)[..|[b] + rest| - 1] == [b] + front;
      assert OnBoard([a, b] + front, |s|) by {
        forall k | 0 <= k < |[a, b] + front|
          ensures 0 <= ([a, b] + front)[k] < |s|
        {
          assert ([a, b] + front)[k] == ([a, b] + rest)[k];
        }
      }
      SlideAlongFront(s, a, b, front);
    }
  }

  /** Walking back along the reversed walk restores the board. */
  lemma {:induction false} SlideBack(s: seq<int>, ps: seq<int>)
    requires |ps| >= 1 && OnBoard(ps, |s|)
    ensures OnBoard(Reversed(ps), |s|)
    ensures SlideAlong(SlideAlong(s, ps), Reversed(ps)) == s
    decreases |ps|
  {
    if |ps| > 1 {
      var front := ps[..|ps| - 1];
      var x, y := ps[|ps| - 1], ps[|ps| - 2];
      var u := SlideAlong(s, front);
      SlideBack(s, front);
      var back := Reversed(front);
      assert Reversed(ps) == [x] + back;
      assert back == [y] + back[1..];
      assert Reversed(ps) == [x, y] + back[1..];
      SlideAlongFront(SlideAlong(s, ps), x, y, back[1..]);
      SwappedTwice(u, y, x);
    }
  }

  /** A shuffle can always be undone: the empty cell's trail, walked in
      reverse, is again a walk between neighbouring cells, and sliding
      along it returns the board the shuffle started from. So a shuffled
      board is exactly as reachable as the board it came from. */
  lemma ShuffleReversible(s: seq<int>, size: int, rs: seq<real>)
    requires size >= 2 && IsPermutation(s, size * size) && IsRandom(rs)
    ensures var back := Reversed(EmptyTrail(s, size, rs));
            OnBoard(back, |s|)
            && back[0] == PositionOf(ShuffleBoard(s, size, rs), 0)
            && (forall k :: 0 <= k < |rs| ==> back[k + 1] in Neighbors(back[k], size))
            && SlideAlong(ShuffleBoard(s, size, rs), back) == s
  {
    var tr := EmptyTrail(s, size, rs);
    var back := Reversed(tr);
    forall k | 0 <= k < |rs|
      ensures back[k + 1] in Neighbors(back[k], size)
    {
      var m := |rs| - 1 - k;
      assert back[k] == tr[m + 1] && back[k + 1] == tr[m];
      NeighborIsAdjacent(tr[m], tr[m + 1], size);
      AdjacencyShape(tr[m], tr[m + 1], size);
      AdjacentIsNeighbor(tr[m + 1], tr[m], size);
    }
    ShuffleFollowsTrail(s, size, rs);
    SlideBack(s, tr);
  }

  /** While playing, sliding the empty cell into one of its neighbours is
      a legal click on the tile in that neighbour. */
  lemma SlideIsClick(g: Snapshot, size: int, p: int)
    requires Valid(g, size) && g.playing
    requires p in Neighbors(PositionOf(g.board, 0), size)
    ensures 0 <= PositionOf(g.board, 0) < |g.board| && 0 <= p < |g.board|
    ensures Classify(g, size, g.board[p]) == Moved
    ensures Click(g, size, g.board[p]).board == Swapped(g.board, PositionOf(g.board, 0), p)
  {
    var n, e := size * size, PositionOf(g.board, 0);
    PositionOfOnBoard(g.board, n, 0);
    NeighborsOnBoard(e, size);
    PositionOfCell(g.board, n, p);
    assert g.board[p] != 0;
    ClassifyMovedIff(g, size, g.board[p]);
    var b := Click(g, size, g.board[p]).board;
    assert b == Swapped(g.board, p, e);
    assert b == Swapped(g.board, e, p) by {
      forall k | 0 <= k < |b|
        ensures b[k] == Swapped(g.board, e, p)[k]
      {
      }
    }
  }

  /** Sliding along a walk that starts at the empty cell moves the empty
      cell to the walk's last cell and keeps the permutation invariant. */
  lemma {:induction false} SlideAlongEmpty(s: seq<int>, size: int, ps: seq<int>)
    requires size >= 2 && IsPermutation(s, size * size)
    requires |ps| >= 1 && OnBoard(ps, |s|) && ps[0] == PositionOf(s, 0)
    ensures IsPermutation(SlideAlong(s, ps), size * size)
    ensures PositionOf(SlideAlong(s, ps), 0) == ps[|ps| - 1]
    decreases |ps|
  {
    var n := size * size;
    if |ps| > 1 {
      var front := ps[..|ps| - 1];
      OnBoardPrefix(ps, |s|, |ps| - 1);
      assert front[0] == ps[0];
      SlideAlongEmpty(s, size, front);
      var u := SlideAlong(s, front);
      var a, b := ps[|ps| - 2], ps[|ps| - 1];
      assert PositionOf(u, 0) == a;
      PositionOfOnBoard(u, n, 0);
      assert u[a] == 0;
      SwappedPermutation(u, n, a, b);
      var t := Swapped(u, a, b);
      assert SlideAlong(s, ps) == t;
      assert t[b] == 0;
      PositionOfCell(t, n, b);
    } else {
      PositionOfOnBoard(s, n, 0);
    }
  }

  /** Walking the empty cell along a walk between neighbouring cells is a
      series of legal clicks: before step k the empty cell is at ps[k],
      and clicking the tile at ps[k + 1] gives the board of the next step. */
  lemma WalkIsClicks(s: seq<int>, size: int, ps: seq<int>, k: nat, moves: nat)
    requires size >= 2 && IsPermutation(s, size * size)
    requires |ps| >= 1 && OnBoard(ps, |s|) && ps[0] == PositionOf(s, 0)
    requires forall i :: 0 <= i < |ps| - 1 ==> ps[i + 1] in Neighbors(ps[i], size)
    requires k < |ps| - 1
    ensures OnBoard(ps[..k + 1], |s|) && OnBoard(ps[..k + 2], |s|)
    ensures var b := SlideAlong(s, ps[..k + 1]);
            var g := Snapshot(b, moves, true);
            Valid(g, size) && PositionOf(b, 0) == ps[k]
            && Classify(g, size, b[ps[k + 1]]) == Moved
            && Click(g, size, b[ps[k + 1]]).board == SlideAlong(s, ps[..k + 2])
  {
    var pre, next := ps[..k + 1], ps[..k + 2];
    OnBoardPrefix(ps, |s|, k + 1);
    OnBoardPrefix(ps, |s|, k + 2);
    assert pre[0] == ps[0] && pre[k] == ps[k];
    SlideAlongEmpty(s, size, pre);
    var b := SlideAlong(s, pre);
    var g := Snapshot(b, moves, true);
    assert ps[k + 1] in Neighbors(ps[k], size);
    SlideIsClick(g, size, ps[k + 1]);
    assert next[..k + 1] == pre;
  }

  /** A shuffle can be undone by clicks: along the reversed trail, step k
      finds the empty cell at back[k] and is a legal click on the tile at
      back[k + 1]; the last step restores the board the shuffle started
      from (ShuffleReversible). */
  lemma ShuffleUndoneByClicks(s: seq<int>, size: int, rs: seq<real>, k: nat, moves: nat)
    requires size >= 2 && IsPermutation(s, size * size) && IsRandom(rs) && k < |rs|
    ensures var t, back := ShuffleBoard(s, size, rs), Reversed(EmptyTrail(s, size, rs));
            OnBoard(back[..k + 1], |t|) && OnBoard(back[..k + 2], |t|)
            && var b := SlideAlong(t, back[..k + 1]);
               var g := Snapshot(b, moves, true);
               Valid(g, size) && PositionOf(b, 0) == back[k]
               && Classify(g, size, b[back[k + 1]]) == Moved
               && Click(g, size, b[back[k + 1]]).board == SlideAlong(t, back[..k + 2])
  {
    var t, back := ShuffleBoard(s, size, rs), Reversed(EmptyTrail(s, size, rs));
    ShuffleReversible(s, size, rs);
    WalkIsClicks(t, size, back, k, moves);
  }

  /** The tiles a player clicks to walk the empty cell along `ps` from the
      board `b`: at each step, the tile in the next cell of the walk. */
  function WalkTiles(b: seq<int>, ps: seq<int>): (vs: seq<int>)
    requires OnBoard(ps, |b|)
    ensures |ps| >= 1 ==> |vs| == |ps| - 1
    decreases |ps|
  {
    if |ps| <= 1 then []
    else
      assert OnBoard(ps[1..], |b|) by {
        forall k | 0 <= k < |ps| - 1
          ensures 0 <= ps[1..][k] < |b|
        {
          assert ps[1..][k] == ps[k + 1];
        }
      }
      [b[ps[1]]] + WalkTiles(Swapped(b, ps[0], ps[1]), ps[1..])
  }

  /** The rest of a walk of neighbouring cells on the board is again one. */
  lemma WalkTail(ps: seq<int>, n: int, size: int)
    requires size > 0 && |ps| >= 1 && OnBoard(ps, n)
    requires forall i :: 0 <= i < |ps| - 1 ==> ps[i + 1] in Neighbors(ps[i], size)
    ensures OnBoard(ps[1..], n)
    ensures forall i :: 0 <= i < |ps[1..]| - 1 ==> ps[1..][i + 1] in Neighbors(ps[1..][i], size)
  {
    var tail := ps[1..];
    forall k | 0 <= k < |tail|
      ensures 0 <= tail[k] < n
    {
      assert tail[k] == ps[k + 1];
    }
    forall i | 0 <= i < |tail| - 1
      ensures tail[i + 1] in Neighbors(tail[i], size)
    {
      assert tail[i] == ps[i + 1] && tail[i + 1] == ps[i + 2];
    }
  }

  /** While playing, clicking the tile next to the empty cell moves the
      empty cell there; if play ends, the board is solved. */
  lemma NeighborClick(g: Snapshot, size: int, p: int)
    requires Valid(g, size) && g.playing
    requires p in Neighbors(PositionOf(g.board, 0), size)
    ensures 0 <= PositionOf(g.board, 0) < |g.board| && 0 <= p < |g.board|
    ensures var g' := Click(g, size, g.board[p]);
            g'.board == Swapped(g.board, PositionOf(g.board, 0), p)
            && PositionOf(g'.board, 0) == p
            && (!g'.playing ==> g'.board == Solved(size * size))
  {
    SlideIsClick(g, size, p);
    ClickSlidesTile(g, size, g.board[p]);
    PositionOfCell(g.board, size * size, p);
  }

  /** The first click along a walk: it is legal, exchanges the empty
      cell with the next cell of the walk, and leaves the rest of the walk
      to the rest of the tiles. */
  lemma WalkClickStep(g: Snapshot, size: int, ps: seq<int>)
    requires Valid(g, size) && g.playing
    requires |ps| >= 2 && OnBoard(ps, |g.board|) && ps[0] == PositionOf(g.board, 0)
    requires forall i :: 0 <= i < |ps| - 1 ==> ps[i + 1] in Neighbors(ps[i], size)
    ensures var g' := Click(g, size, g.board[ps[1]]);
            OnBoard(ps[1..], |g'.board|)
            && PositionOf(g'.board, 0) == ps[1]
            && (!g'.playing ==> g'.board == Solved(size * size))
            && Clicks(g, size, WalkTiles(g.board, ps)) == Clicks(g', size, WalkTiles(g'.board, ps[1..]))
            && SlideAlong(g.board, ps) == SlideAlong(g'.board, ps[1..])
  {
    var b, p := g.board, ps[1];
    assert p in Neighbors(ps[0], size);
    NeighborClick(g, size, p);
    var b' := Swapped(b, ps[0], p);
    WalkTail(ps, |b|, size);
    var vals := WalkTiles(b, ps);
    assert vals[0] == b[p] && vals[1..] == WalkTiles(b', ps[1..]);
    assert ps == [ps[0], p] + ps[2..] && ps[1..] == [p] + ps[2..];
    SlideAlongFront(b, ps[0], p, ps[2..]);
  }

  /** Clicking the tiles along a walk of neighbouring cells that starts
      at the empty cell, while playing, either walks the empty cell to the
      walk's end, or stops early on the solved board with play ended (a
      click that solves the board ends play and the rest are ignored). */
  lemma {:induction false} WalkClicks(g: Snapshot, size: int, ps: seq<int>)
    requires Valid(g, size) && g.playing
    requires |ps| >= 1 && OnBoard(ps, |g.board|) && ps[0] == PositionOf(g.board, 0)
    requires forall i :: 0 <= i < |ps| - 1 ==> ps[i + 1] in Neighbors(ps[i], size)
    ensures var r := Clicks(g, size, WalkTiles(g.board, ps));
            r.board == SlideAlong(g.board, ps)
            || (r.board == Solved(size * size) && !r.playing)
    decreases |ps|
  {
    if |ps| > 1 {
      WalkClickStep(g, size, ps);
      WalkTail(ps, |g.board|, size);
      var g' := Click(g, size, g.board[ps[1]]);
      if g'.playing {
        WalkClicks(g', size, ps[1..]);
      } else {
        ClicksWhileIdle(g', size, WalkTiles(g'.board, ps[1..]));
      }
    }
  }

  /** A shuffle can always be clicked back: starting a game on the
      shuffled board and clicking the tiles along the reversed trail ends
      either on the board the shuffle started from or, if a click solves
      the board on the way, on the solved board with play ended. */
  lemma ShuffleClickedBack(s: seq<int>, size: int, rs: seq<real>, moves: nat)
    requires size >= 2 && IsPermutation(s, size * size) && IsRandom(rs)
    ensures var t, back := ShuffleBoard(s, size, rs), Reversed(EmptyTrail(s, size, rs));
            OnBoard(back, |t|)
            && var r := Clicks(Snapshot(t, moves, true), size, WalkTiles(t, back));
               r.board == s || (r.board == Solved(size * size) && !r.playing)
  {
    var t, back := ShuffleBoard(s, size, rs), Reversed(EmptyTrail(s, size, rs));
    ShuffleReversible(s, size, rs);
    WalkClicks(Snapshot(t, moves, true), size, back);
  }

  /** In particular a shuffle of the solved board, such as the one a reset
      followed by a shuffle performs, can always be clicked back to the
      solved board. */
  lemma SolvedShuffleClickedBack(size: int, rs: seq<real>, moves: nat)
    requires size >= 2 && IsRandom(rs)
    ensures IsPermutation(Solved(size * size), size * size)
    ensures var s := Solved(size * size);
            var t, back := ShuffleBoard(s, size, rs), Reversed(EmptyTrail(s, size, rs));
            OnBoard(back, |t|)
            && Clicks(Snapshot(t, moves, true), size, WalkTiles(t, back)).board == s
  {
    SolvedIsPermutation(size * size);
    ShuffleClickedBack(Solved(size * size), size, rs, moves);
  }

  /** Random values that slide the empty cell up and straight back down,
      `pairs` times over. */
  function UpAndBack(pairs: nat): (rs: seq<real>)
    ensures |rs| == 2 * pairs && IsRandom(rs)
  {
    seq(2 * pairs, i => if i % 2 == 0 then 0.0 else 0.5)
  }

  /** `CellAt` for a cell written as an index. */
  lemma CellAtRowCol(r: int, c: int, size: int, i: int)
    requires size > 0 && 0 <= r && 0 <= c < size && i == size * r + c
    ensures Row(i, size) == r && Col(i, size) == c
  {
    CellAt(r, c, size);
  }

  /** On a board of size at least 3, the bottom-right cell's neighbours
      are the cell above it and the cell to its left. */
  lemma CornerNeighbors(size: int)
    requires size >= 3
    ensures var last := size * size - 1;
            Neighbors(last, size) == [last - size, last - 1]
  {
    CellAtRowCol(size - 1, size - 1, size, size * size - 1);
  }

  /** On a board of size at least 3, the cell above the bottom-right
      corner has neighbours up, down (the corner) and left. */
  lemma AboveCornerNeighbors(size: int)
    requires size >= 3
    ensures var above := size * size - 1 - size;
            Neighbors(above, size) == [above - size, above + size, above - 1]
  {
    CellAtRowCol(size - 2, size - 1, size, size * size - 1 - size);
  }

  /** With the empty cell in the bottom-right corner (size at least 3),
      the random value 0.0 slides it up one row. */
  lemma StepUp(s: seq<int>, size: int)
    requires size >= 3 && IsPermutation(s, size * size)
    requires PositionOf(s, 0) == size * size - 1
    ensures var t := ShuffleStepBoard(s, size, 0.0);
            t == Swapped(s, size * size - 1, size * size - 1 - size)
            && PositionOf(t, 0) == size * size - 1 - size
  {
    var last := size * size - 1;
    CornerNeighbors(size);
    assert PickIndex(0.0, 2) == 0;
    assert Neighbors(last, size)[0] == last - size;
  }

  /** With the empty cell just above the bottom-right corner (size at
      least 3), the random value 0.5 slides it back down into the corner. */
  lemma StepDown(t: seq<int>, size: int)
    requires size >= 3 && IsPermutation(t, size * size)
    requires PositionOf(t, 0) == size * size - 1 - size
    ensures ShuffleStepBoard(t, size, 0.5) == Swapped(t, size * size - 1 - size, size * size - 1)
  {
    var above := size * size - 1 - size;
    AboveCornerNeighbors(size);
    assert PickIndex(0.5, 3) == 1;
    assert Neighbors(above, size)[1] == size * size - 1;
  }

  /** From any board whose empty cell is in the bottom-right corner (size
      at least 3), the random values 0.0 then 0.5 slide the empty cell up
      one row and back again, restoring the board. */
  lemma UpAndBackStep(s: seq<int>, size: int)
    requires size >= 3 && IsPermutation(s, size * size)
    requires PositionOf(s, 0) == size * size - 1
    ensures ShuffleBoard(s, size, UpAndBack(1)) == s
  {
    var last, above := size * size - 1, size * size - 1 - size;
    StepUp(s, size);
    var t := ShuffleStepBoard(s, size, 0.0);
    StepDown(t, size);
    SwappedTwice(s, last, above);
    var rs := UpAndBack(1);
    assert rs[0] == 0.0 && rs[1] == 0.5 && rs[..0] == [] && rs[..2] == rs;
    ShuffleBoardPrefix(s, size, rs, 0);
    ShuffleBoardPrefix(s, size, rs, 1);
  }

  /** One more pair of random values is appended at the end. */
  lemma UpAndBackSnoc(pairs: nat)
    ensures UpAndBack(pairs + 1) == UpAndBack(pairs) + UpAndBack(1)
  {
    var rs, front, pair := UpAndBack(pairs + 1), UpAndBack(pairs), UpAndBack(1);
    forall k | 0 <= k < |rs|
      ensures rs[k] == (front + pair)[k]
    {
      if k >= |front| {
        assert k == 2 * pairs || k == 2 * pairs + 1;
      }
    }
  }

  /** A board that one up-and-back pair restores is restored by any
      number of such pairs. */
  lemma {:induction false} UpAndBackSolved(s: seq<int>, size: int, pairs: nat)
    requires size >= 2 && IsPermutation(s, size * size)
    requires ShuffleBoard(s, size, UpAndBack(1)) == s
    ensures ShuffleBoard(s, size, UpAndBack(pairs)) == s
  {
    if pairs > 0 {
      UpAndBackSnoc(pairs - 1);
      UpAndBackSolved(s, size, pairs - 1);
      ShuffleBoardAppend(s, size, UpAndBack(pairs - 1), UpAndBack(1));
    } else {
      assert UpAndBack(pairs) == [];
    }
  }

  /** The empty cell of the solved board is the last cell. */
  lemma SolvedEmptyCorner(n: nat)
    requires n >= 1
    ensures PositionOf(Solved(n), 0) == n - 1
  {
    SolvedIsPermutation(n);
    PositionOfCell(Solved(n), n, n - 1);
  }

  /** The solved board (size at least 3) is restored by any number of
      up-and-back pairs. */
  lemma SolvedUpAndBack(size: int, pairs: nat)
    requires size >= 3
    ensures IsPermutation(Solved(size * size), size * size)
    ensures ShuffleBoard(Solved(size * size), size, UpAndBack(pairs)) == Solved(size * size)
  {
    var s := Solved(size * size);
    SolvedIsPermutation(size * size);
    SolvedEmptyCorner(size * size);
    UpAndBackStep(s, size);
    UpAndBackSolved(s, size, pairs);
  }

  /** A shuffle of the solved board can end on the solved board, and play
      still starts: the shuffle never runs the win test. */
  lemma ShuffleCanEndSolved(size: int)
    requires size >= 3
    ensures |UpAndBack(SHUFFLE_MOVES / 2)| == SHUFFLE_MOVES
    ensures var r := Shuffle(Reset(size), size, UpAndBack(SHUFFLE_MOVES / 2));
            r.board == Solved(size * size) && IsWin(r.board) && r.playing
  {
    SolvedUpAndBack(size, SHUFFLE_MOVES / 2);
    SolvedIsPermutation(size * size);
  }

  /** The 4×4 solved board with tile 12 slid down into the empty corner. */
  lemma SlidOnceBoard()
    ensures Swapped(Solved(16), 15, 11) == [1, 2, 3, 4, 5, 6, 7, 8, 9, 10, 11, 0, 13, 14, 15, 12]
  {
    var t := Swapped(Solved(16), 15, 11);
    var b := [1, 2, 3, 4, 5, 6, 7, 8, 9, 10, 11, 0, 13, 14, 15, 12];
    forall k | 0 <= k < 16
      ensures t[k] == b[k]
    {
    }
  }

  /** On the 4×4 board, a shuffle step with random value 0.25 from the
      solved board picks the first of the empty corner's two neighbours,
      the cell above it, and slides tile 12 down. */
  lemma ShuffleStepExample()
    ensures ShuffleStepBoard(Reset(4).board, 4, 0.25)
            == [1, 2, 3, 4, 5, 6, 7, 8, 9, 10, 11, 0, 13, 14, 15, 12]
  {
    var s := Reset(4).board;
    CornerNeighbors(4);
    PositionOfCell(s, 16, 15);
    assert PickIndex(0.25, 2) == 0;
    assert ShuffleStepBoard(s, 4, 0.25) == Swapped(s, 15, 11);
    SlidOnceBoard();
  }

  /** On that board, while playing, clicking tile 12 slides it back,
      counts the move, wins and ends play. */
  lemma ClickBackToSolved(moves: nat)
    ensures var g := Snapshot(Swapped(Solved(16), 15, 11), moves, true);
            Valid(g, 4) && Click(g, 4, 12) == Snapshot(Solved(16), moves + 1, false)
  {
    var s := Reset(4).board;
    var b := Swapped(s, 15, 11);
    var g := Snapshot(b, moves, true);
    SwappedPermutation(s, 16, 15, 11);
    PositionOfCell(b, 16, 15);
    PositionOfCell(b, 16, 11);
    assert IsAdjacent(15, 11, 4);
    assert Classify(g, 4, 12) == Moved;
    SwappedTwice(s, 15, 11);
    assert Click(g, 4, 12) == Snapshot(s, moves + 1, false);
  }
}
