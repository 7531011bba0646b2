/** The puzzle session: the board size, the tile array, the blank reference
    and the move counter, updated in place by building, clicking, shuffling
    and solving. Each method is specified by the pure functions of Grid. */
module PuzzleGame {
  import opened Wrappers
  import opened Grid

  class Puzzle {
    /** The side N of the board. */
    var n: nat
    /** The tile records, in the order they were pushed. */
    var tiles: seq<Tile>
    /** The index in `tiles` of the blank tile (the blank reference). */
    var blank: nat
    /** Moves made by the player since the last shuffle or solve. */
    var moves: nat

    ghost predicate Valid()
      reads this
    {
      WellFormed(n, tiles, blank)
    }

    /** A session on a fresh board of side `size`. */
    constructor (size: nat)
      requires size >= 1
      ensures Valid()
      ensures n == size && tiles == SolvedGrid(size) && blank == size * size - 1 && moves == 0
    {
      n := size;
      tiles := [];
      blank := 0;
      moves := 0;
      new;
      CreateTiles();
    }

    /** Rebuild the board in solved order: tile k at (⌊(k-1)/n⌋, (k-1) mod n)
        for k = 1..n*n, the last one blank, and no moves made. */
    method CreateTiles()
      requires n >= 1
      modifies this`tiles, this`blank, this`moves
      ensures Valid()
      ensures n == old(n) && tiles == SolvedGrid(n) && blank == LastIndex(n) && moves == 0
    {
      tiles := [];
      moves := 0;
      var id := 0;
      for row := 0 to n
        invariant id == |tiles| == row * n && id <= Area(n) && moves == 0
        invariant forall k :: 0 <= k < id ==> tiles[k] == SolvedGrid(n)[k]
        invariant row == n ==> blank == LastIndex(n)
      {
        RowStart(n, row);
        id := PushRow(row, id);
      }
      assert |tiles| == Area(n);
      assert tiles == SolvedGrid(n);
      SolvedGridWellFormed(n);
    }

    /** The inner loop of CreateTiles: push the n tiles of one row, the blank
        last on the bottom row. */
    method PushRow(row: nat, id0: nat) returns (id: nat)
      requires n >= 1 && row < n && id0 == |tiles| == row * n && (row + 1) * n <= Area(n)
      requires forall k :: 0 <= k < id0 ==> tiles[k] == SolvedGrid(n)[k]
      modifies this`tiles, this`blank
      ensures id == |tiles| == (row + 1) * n && id <= Area(n)
      ensures forall k :: 0 <= k < id ==> tiles[k] == SolvedGrid(n)[k]
      ensures row == n - 1 ==> blank == LastIndex(n)
      ensures row < n - 1 ==> blank == old(blank)
    {
      RowStart(n, row);
      id := id0;
      for col := 0 to n
        invariant id == |tiles| == row * n + col && id <= Area(n)
        invariant forall k :: 0 <= k < id ==> tiles[k] == SolvedGrid(n)[k]
        invariant row == n - 1 && col == n ==> blank == LastIndex(n)
        invariant row < n - 1 ==> blank == old(blank)
      {
        SolvedGridAt(n, row, col);
        CellBelowArea(n, row, col);
        id := id + 1;
        var isBlank := row == n - 1 && col == n - 1;
        var t := Tile(id, row, col, isBlank);
        if isBlank {
          blank := |tiles|;
        }
        tiles := tiles + [t];
      }
    }

    /** The shared swap of the click handler and the shuffle: tile k and the
        blank exchange cells. */
    method SwapWithBlank(k: nat)
      requires Valid() && k < |tiles|
      modifies this`tiles, this`blank, this`moves
      ensures Valid()
      ensures n == old(n) && blank == old(blank) && moves == old(moves)
      ensures tiles == Swap(old(tiles), k, blank)
    {
      SwapKeepsWellFormed(n, tiles, blank, k);
      var t, b := tiles[k], tiles[blank];
      var tr, tc := t.row, t.col;
      tiles := tiles[k := t.(row := b.row, col := b.col)];
      tiles := tiles[blank := b.(row := tr, col := tc)];
    }

    /** A click on tile k: if k is the blank or is not next to it nothing
        changes; otherwise the two exchange cells and the move counter grows by
        one. The result says whether the click solved the board (the handler
        then shows the congratulations). */
    method TileClick(k: nat) returns (solved: bool)
      requires Valid() && k < |tiles|
      modifies this`tiles, this`blank, this`moves
      ensures Valid()
      ensures n == old(n) && blank == old(blank)
      ensures k == blank || Distance(old(tiles)[k], old(tiles)[blank]) != 1 ==>
        tiles == old(tiles) && moves == old(moves) && !solved
      ensures k != blank && Distance(old(tiles)[k], old(tiles)[blank]) == 1 ==>
        tiles == Swap(old(tiles), k, blank) && moves == old(moves) + 1 && solved == IsSolved(n, tiles)
    {
      if k == blank {
        return false;
      }
      var t, b := tiles[k], tiles[blank];
      var dr := Abs(t.row - b.row);
      var dc := Abs(t.col - b.col);
      if dr + dc != 1 {
        return false;
      }
      SwapWithBlank(k);
      moves := moves + 1;
      solved := CheckSolved();
    }

    /** Scramble by one swap per draw: each step lists the neighbours of the
        blank, drops the tile moved by the step before (unless it is the only
        one left), and swaps the blank with the candidate the draw selects.
        `choices[i]` is the index that step i computes from `Math.random()`.
        Afterwards the move counter is 0. */
    method ShuffleAll(choices: seq<nat>)
      requires Valid() && ChoicesFit(tiles, blank, None, choices)
      modifies this`tiles, this`blank, this`moves
      ensures Valid()
      ensures n == old(n) && blank == old(blank) && moves == 0
      ensures tiles == ApplyMoves(old(tiles), blank, WalkPath(old(tiles), blank, None, choices))
    {
      ghost var target := ApplyMoves(tiles, blank, WalkPath(tiles, blank, None, choices));
      var last: Option<nat> := None;
      for i := 0 to |choices|
        invariant Valid() && n == old(n) && blank == old(blank)
        invariant LastOk(tiles, blank, last)
        invariant ChoicesFit(tiles, blank, last, choices[i..])
        invariant ApplyMoves(tiles, blank, WalkPath(tiles, blank, last, choices[i..])) == target
      {
        var neighbours := Neighbours(tiles, blank);
        if last.Some? {
          neighbours := Without(neighbours, last.value);
          if |neighbours| == 0 {
            neighbours := [last.value];
          }
        }
        assert neighbours == Candidates(tiles, blank, last);
        WalkStep(tiles, blank, last, choices[i..]);
        assert choices[i..][0] == choices[i] && choices[i..][1..] == choices[i + 1..];
        var chosen := neighbours[choices[i]];
        SwapWithBlank(chosen);
        last := Some(chosen);
      }
      moves := 0;
    }

    /** Put every tile back on the cell its id names and reset the move
        counter, whatever the board looked like before. */
    method Solve()
      requires Valid()
      modifies this`tiles, this`blank, this`moves
      ensures Valid()
      ensures n == old(n) && tiles == SolvedGrid(n) && blank == LastIndex(n) && moves == 0
    {
      // `tiles.sort` by id leaves the array as it is: IdsInOrder holds.
      var idx := 0;
      for r := 0 to n
        invariant idx == r * n && idx <= Area(n) && moves == old(moves)
        invariant |tiles| == Area(n) && IdsInOrder(tiles) && OnlyBlank(tiles, blank)
        invariant blank == LastIndex(n)
        invariant forall k :: 0 <= k < idx ==> tiles[k] == SolvedGrid(n)[k]
      {
        RowStart(n, r);
        idx := SolveRow(r, idx);
      }
      assert tiles == SolvedGrid(n);
      moves := 0;
      SolvedGridWellFormed(n);
    }

    /** The inner loop of Solve: the n tiles from index idx0 on take the cells
        of row r, left to right. */
    method SolveRow(r: nat, idx0: nat) returns (idx: nat)
      requires n >= 1 && r < n && idx0 == r * n && (r + 1) * n <= Area(n)
      requires |tiles| == Area(n) && IdsInOrder(tiles) && OnlyBlank(tiles, blank)
      requires blank == LastIndex(n)
      requires forall k :: 0 <= k < idx0 ==> tiles[k] == SolvedGrid(n)[k]
      modifies this`tiles, this`blank
      ensures idx == (r + 1) * n && idx <= Area(n)
      ensures |tiles| == Area(n) && IdsInOrder(tiles) && OnlyBlank(tiles, blank)
      ensures blank == LastIndex(n)
      ensures forall k :: 0 <= k < idx ==> tiles[k] == SolvedGrid(n)[k]
      ensures forall k :: idx <= k < |tiles| ==> tiles[k] == old(tiles)[k]
    {
      RowStart(n, r);
      idx := idx0;
      for c := 0 to n
        invariant idx == r * n + c && idx <= Area(n)
        invariant |tiles| == Area(n) && IdsInOrder(tiles) && OnlyBlank(tiles, blank)
        invariant blank == LastIndex(n)
        invariant forall k :: 0 <= k < idx ==> tiles[k] == SolvedGrid(n)[k]
        invariant forall k :: idx <= k < |tiles| ==> tiles[k] == old(tiles)[k]
      {
        SolvedGridAt(n, r, c);
        CellBelowArea(n, r, c);
        var t := tiles[idx];
        tiles := tiles[idx := t.(row := r, col := c)];
        if t.isBlank {
          blank := idx;
        }
        idx := idx + 1;
      }
    }

    /** The solved check: every tile stands on the cell its id names. */
    method CheckSolved() returns (solved: bool)
      requires n >= 1
      ensures solved == IsSolved(n, tiles)
    {
      for i := 0 to |tiles|
        invariant forall k :: 0 <= k < i ==> AtHome(n, tiles[k])
      {
        var t := tiles[i];
        var id0 := t.id - 1;
        var er := id0 / n;
        var ec := id0 % n;
        if t.row != er || t.col != ec {
          return false;
        }
      }
      return true;
    }

    /** A fresh board, then a shuffle: the "new game" and "replay" buttons
        shuffle with six draws, the start of the page with the default seven.
        Grid.ShuffledIsSolvable proves that the result is reachable from the
        solved board by exactly as many legal moves as draws, and that those
        moves replayed backwards solve it again. */
    method NewGame(choices: seq<nat>)
      requires n >= 1
      requires ChoicesFit(SolvedGrid(n), LastIndex(n), None, choices)
      modifies this`tiles, this`blank, this`moves
      ensures Valid() && n == old(n) && blank == LastIndex(n) && moves == 0
      ensures tiles == ApplyMoves(SolvedGrid(n), LastIndex(n), WalkPath(SolvedGrid(n), LastIndex(n), None, choices))
    {
      CreateTiles();
      ShuffleAll(choices);
    }
  }
}
