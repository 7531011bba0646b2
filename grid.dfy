/** The tile model of the sliding puzzle.

    The board is an N x N grid held as a sequence of tiles. Each tile keeps its
    identity (1..N*N, fixed when the board is built), the cell it stands on, and
    whether it is the blank. Every move exchanges the cells of one tile and the
    blank. Everything in this module is pure; the class in puzzle.dfy holds the
    mutable state and is specified by these functions. */
module Grid {
  import opened Wrappers
  import opened Arith

  /** A tile record: `{id, row, col}` plus the flag that marks the blank. */
  datatype Tile = Tile(id: nat, row: nat, col: nat, isBlank: bool)

  function Abs(x: int): nat {
    if x < 0 then -x else x
  }

  /** Manhattan distance between the cells of two tiles: 0 on the same cell,
      1 exactly when the cells are side by side in a row or a column. */
  function Distance(a: Tile, b: Tile): (d: nat)
    ensures d == 0 <==> a.row == b.row && a.col == b.col
    ensures d == 1 <==>
      || (a.row == b.row && (a.col == b.col + 1 || b.col == a.col + 1))
      || (a.col == b.col && (a.row == b.row + 1 || b.row == a.row + 1))
  {
    Abs(a.row - b.row) + Abs(a.col - b.col)
  }

  // ---------------------------------------------------------------------------
  // Solved configuration
  // ---------------------------------------------------------------------------

  /** The test applied to one tile by the solved check: the tile stands on the
      cell its id names in row-major order. */
  predicate AtHome(n: nat, t: Tile)
    requires n >= 1
  {
    t.row == (t.id - 1) / n && t.col == (t.id - 1) % n
  }

  /** Every tile is at home. */
  predicate IsSolved(n: nat, tiles: seq<Tile>)
    requires n >= 1
  {
    forall k :: 0 <= k < |tiles| ==> AtHome(n, tiles[k])
  }

  /** The number of cells of an n x n board. */
  function Area(n: nat): (a: nat)
    ensures n >= 1 ==> a >= n
  {
    MulSign(n, n);
    n * n
  }

  /** The index of the last tile of the board, the blank of a fresh board. */
  function LastIndex(n: nat): (i: nat)
    requires n >= 1
    ensures i < Area(n) && i + 1 == Area(n)
  {
    Area(n) - 1
  }

  /** The board as it is freshly built: the tile with id k + 1 on row k / n,
      column k % n, and only the last one (on the bottom-right cell) blank. */
  function SolvedGrid(n: nat): (g: seq<Tile>)
    requires n >= 1
    ensures |g| == Area(n)
    ensures forall k :: 0 <= k < |g| ==> g[k].id == k + 1 && AtHome(n, g[k])
    ensures forall k :: 0 <= k < |g| ==> (g[k].isBlank <==> k == LastIndex(n))
  {
    seq(Area(n), k requires 0 <= k < Area(n) => Tile(k + 1, k / n, k % n, k == LastIndex(n)))
  }

  // ---------------------------------------------------------------------------
  // The board invariant
  // ---------------------------------------------------------------------------

  /** All coordinates lie in [0, n). */
  predicate InBounds(n: nat, tiles: seq<Tile>) {
    forall k :: 0 <= k < |tiles| ==> tiles[k].row < n && tiles[k].col < n
  }

  /** No two tiles share a cell. */
  predicate DistinctCells(tiles: seq<Tile>) {
    forall i, j :: 0 <= i < |tiles| && 0 <= j < |tiles| && i != j ==>
      tiles[i].row != tiles[j].row || tiles[i].col != tiles[j].col
  }

  /** The array is kept in id order: tile k carries id k + 1. */
  predicate IdsInOrder(tiles: seq<Tile>) {
    forall k :: 0 <= k < |tiles| ==> tiles[k].id == k + 1
  }

  /** `blank` is the index of the one and only blank tile. */
  predicate OnlyBlank(tiles: seq<Tile>, blank: nat) {
    blank < |tiles| && forall k :: 0 <= k < |tiles| ==> (tiles[k].isBlank <==> k == blank)
  }

  /** The invariant of every board the game can reach: n*n tiles in id order,
      the last of them the blank, their cells all different and on the board.
      EveryCellOccupied shows that the cells then cover the whole board. */
  predicate WellFormed(n: nat, tiles: seq<Tile>, blank: nat) {
    && n >= 1
    && |tiles| == Area(n)
    && blank == LastIndex(n)
    && IdsInOrder(tiles)
    && OnlyBlank(tiles, blank)
    && InBounds(n, tiles)
    && DistinctCells(tiles)
  }

  // ---------------------------------------------------------------------------
  // Row-major cell numbers
  // ---------------------------------------------------------------------------

  /** The number of cell (row, col) in row-major order. */
  function Cell(n: nat, row: nat, col: nat): nat {
    row * n + col
  }

  /** Division by n recovers the row and column of a cell number. */
  lemma CellDivMod(n: nat, row: nat, col: nat)
    requires col < n
    ensures Cell(n, row, col) / n == row && Cell(n, row, col) % n == col
  {
    DivModUnique(n, row, col);
  }

  /** Distinct cells have distinct cell numbers. */
  lemma CellInjective(n: nat, r1: nat, c1: nat, r2: nat, c2: nat)
    requires c1 < n && c2 < n
    requires Cell(n, r1, c1) == Cell(n, r2, c2)
    ensures r1 == r2 && c1 == c2
  {
    CellDivMod(n, r1, c1);
    CellDivMod(n, r2, c2);
  }

  /** A cell of the board has a number below n*n, and n*n - 1 is the number of
      the bottom-right cell only. */
  lemma CellBelowArea(n: nat, row: nat, col: nat)
    requires row < n && col < n
    ensures Cell(n, row, col) < Area(n)
    ensures Cell(n, row, col) == LastIndex(n) <==> row == n - 1 && col == n - 1
  {
    MulMono(row, n - 1, n);
    MulMono(row, n - 2, n);
    assert (n - 1) * n == n * n - n;
    assert (n - 2) * n == n * n - n - n;
  }

  /** Row r of the board starts at cell number r * n, and the next row n
      cells further on; the rows up to n fill the board. */
  lemma RowStart(n: nat, row: nat)
    requires row <= n
    ensures row * n + n == (row + 1) * n
    ensures row * n <= Area(n)
    ensures row < n ==> (row + 1) * n <= Area(n)
  {
    MulMono(row, n, n);
    MulMono(row + 1, n, n);
  }

  /** Every cell number below n*n names a cell of the board, and the cell of
      that row and column has that number again. */
  lemma CellOnBoard(n: nat, k: nat)
    requires n >= 1 && k < Area(n)
    ensures k / n < n && k % n < n
    ensures Cell(n, k / n, k % n) == k
  {
    var q, r := k / n, k % n;
    assert k == q * n + r;
    MulMono(n, q, n);
  }

  /** The solved check's test on one tile says that the tile stands on the
      cell whose row-major number is its id minus one. */
  lemma AtHomeIsCell(n: nat, t: Tile)
    requires n >= 1 && t.id >= 1
    ensures AtHome(n, t) <==> t.col < n && Cell(n, t.row, t.col) == t.id - 1
  {
    if t.col < n && Cell(n, t.row, t.col) == t.id - 1 {
      CellDivMod(n, t.row, t.col);
    }
    if AtHome(n, t) {
      var k := t.id - 1;
      assert k == (k / n) * n + k % n;
    }
  }

  // ---------------------------------------------------------------------------
  // The cells of a well-formed board cover it
  // ---------------------------------------------------------------------------

  predicate Unique(s: seq<nat>) {
    forall i, j :: 0 <= i < j < |s| ==> s[i] != s[j]
  }

  lemma {:induction false} UniqueCount(s: seq<nat>)
    requires Unique(s)
    ensures |set x: nat | x in s| == |s|
  {
    if s != [] {
      var tail := s[1..];
      assert Unique(tail) by {
        forall i, j | 0 <= i < j < |tail| ensures tail[i] != tail[j] {
          assert tail[i] == s[i + 1] && tail[j] == s[j + 1];
        }
      }
      UniqueCount(tail);
      var a := set x: nat | x in tail;
      assert s[0] !in a by {
        forall j | 0 <= j < |tail| ensures tail[j] != s[0] {
          assert tail[j] == s[j + 1];
        }
      }
      assert (set x: nat | x in s) == a + {s[0]};
    }
  }

  /** The numbers below m. */
  function Below(m: nat): (r: set<nat>)
    ensures forall x :: x in r <==> 0 <= x < m
    ensures |r| == m
  {
    if m == 0 then {} else Below(m - 1) + {m - 1}
  }

  lemma SubsetCount<T>(a: set<T>, b: set<T>)
    requires a <= b
    ensures |a| <= |b|
  {
    assert b == a + (b - a);
    assert a * (b - a) == {};
  }

  /** m distinct numbers below m take every value below m. */
  lemma Pigeonhole(s: seq<nat>, v: nat)
    requires Unique(s)
    requires forall i :: 0 <= i < |s| ==> s[i] < |s|
    requires v < |s|
    ensures v in s
  {
    var used := set x: nat | x in s;
    UniqueCount(s);
    if v !in s {
      var rest := Below(|s|) - {v};
      assert Below(|s|) == rest + {v};
      assert used <= rest;
      SubsetCount(used, rest);
      assert false;
    }
  }

  /** The cell numbers of the tiles, in array order. */
  function CellNumbers(n: nat, tiles: seq<Tile>): (r: seq<nat>)
    ensures |r| == |tiles|
    ensures forall k :: 0 <= k < |tiles| ==> r[k] == Cell(n, tiles[k].row, tiles[k].col)
  {
    seq(|tiles|, k requires 0 <= k < |tiles| => Cell(n, tiles[k].row, tiles[k].col))
  }

  /** The positions are a bijection onto the cells: on a board with n*n tiles
      on distinct in-range cells (so no cell holds two), every cell holds a tile. */
  lemma EveryCellOccupied(n: nat, tiles: seq<Tile>, row: nat, col: nat)
    requires |tiles| == Area(n) && InBounds(n, tiles) && DistinctCells(tiles)
    requires row < n && col < n
    ensures exists k :: 0 <= k < |tiles| && tiles[k].row == row && tiles[k].col == col
  {
    var k := OccupantOf(n, tiles, row, col);
  }

  /** The index of the tile standing on cell (row, col). */
  lemma OccupantOf(n: nat, tiles: seq<Tile>, row: nat, col: nat) returns (k: nat)
    requires |tiles| == Area(n) && InBounds(n, tiles) && DistinctCells(tiles)
    requires row < n && col < n
    ensures k < |tiles| && tiles[k].row == row && tiles[k].col == col
  {
    var cells := CellNumbers(n, tiles);
    forall i, j | 0 <= i < j < |cells| ensures cells[i] != cells[j] {
      if cells[i] == cells[j] {
        CellInjective(n, tiles[i].row, tiles[i].col, tiles[j].row, tiles[j].col);
      }
    }
    forall i | 0 <= i < |cells| ensures cells[i] < |cells| {
      CellBelowArea(n, tiles[i].row, tiles[i].col);
    }
    CellBelowArea(n, row, col);
    Pigeonhole(cells, Cell(n, row, col));
    k :| 0 <= k < |cells| && cells[k] == Cell(n, row, col);
    CellInjective(n, tiles[k].row, tiles[k].col, row, col);
  }

  // ---------------------------------------------------------------------------
  // The fresh board
  // ---------------------------------------------------------------------------

  /** The fresh board satisfies the invariant: n*n tiles, tile k + 1 at
      (k / n, k % n), the bottom-right one blank. */
  lemma SolvedGridWellFormed(n: nat)
    requires n >= 1
    ensures WellFormed(n, SolvedGrid(n), LastIndex(n))
    ensures SolvedGrid(n)[LastIndex(n)].row == n - 1 && SolvedGrid(n)[LastIndex(n)].col == n - 1
  {
    SolvedGridAt(n, n - 1, n - 1);
    CellBelowArea(n, n - 1, n - 1);
    var g := SolvedGrid(n);
    forall k | 0 <= k < Area(n) ensures g[k].row < n && g[k].col < n && Cell(n, g[k].row, g[k].col) == k {
      CellOnBoard(n, k);
    }
  }

  /** The tile the fresh board holds at the cell number of (row, col) stands
      on (row, col), and only the bottom-right one is blank. */
  lemma SolvedGridAt(n: nat, row: nat, col: nat)
    requires row < n && col < n
    ensures Cell(n, row, col) < Area(n)
    ensures SolvedGrid(n)[Cell(n, row, col)] ==
      Tile(Cell(n, row, col) + 1, row, col, row == n - 1 && col == n - 1)
  {
    CellBelowArea(n, row, col);
    CellDivMod(n, row, col);
  }

  /** The solved check holds on the fresh board. */
  lemma SolvedGridIsSolved(n: nat)
    requires n >= 1
    ensures IsSolved(n, SolvedGrid(n))
  {
  }

  /** On a well-formed board, the solved check holds exactly when the board is
      the fresh one. */
  lemma SolvedIffFresh(n: nat, tiles: seq<Tile>, blank: nat)
    requires WellFormed(n, tiles, blank)
    ensures IsSolved(n, tiles) <==> tiles == SolvedGrid(n)
  {
    if IsSolved(n, tiles) {
      forall k | 0 <= k < Area(n) ensures tiles[k] == SolvedGrid(n)[k] {
        assert AtHome(n, tiles[k]);
      }
    }
  }

  // ---------------------------------------------------------------------------
  // Swapping a tile with the blank
  // ---------------------------------------------------------------------------

  /** Exchange the cells of tiles i and j; ids, flags and every other tile stay. */
  function Swap(tiles: seq<Tile>, i: nat, j: nat): (r: seq<Tile>)
    requires i < |tiles| && j < |tiles|
    ensures |r| == |tiles|
    ensures i != j ==> r[i].row == tiles[j].row && r[i].col == tiles[j].col
    ensures i != j ==> r[j].row == tiles[i].row && r[j].col == tiles[i].col
    ensures forall k :: 0 <= k < |tiles| ==> r[k].id == tiles[k].id && r[k].isBlank == tiles[k].isBlank
    ensures forall k :: 0 <= k < |tiles| && k != i && k != j ==> r[k] == tiles[k]
    ensures i == j ==> r == tiles
  {
    var ti, tj := tiles[i], tiles[j];
    tiles[i := ti.(row := tj.row, col := tj.col)][j := tj.(row := ti.row, col := ti.col)]
  }

  /** Swapping twice restores the board. */
  lemma SwapTwice(tiles: seq<Tile>, i: nat, j: nat)
    requires i < |tiles| && j < |tiles| && i != j
    ensures Swap(Swap(tiles, i, j), i, j) == tiles
  {
    var r := Swap(Swap(tiles, i, j), i, j);
    assert forall k :: 0 <= k < |tiles| ==> r[k] == tiles[k];
  }

  /** A swap keeps the bijection of tiles onto cells, the ids and the blank. */
  lemma SwapKeepsWellFormed(n: nat, tiles: seq<Tile>, blank: nat, k: nat)
    requires WellFormed(n, tiles, blank) && k < |tiles|
    ensures WellFormed(n, Swap(tiles, k, blank), blank)
  {
    var r := Swap(tiles, k, blank);
    if k != blank {
      forall i, j | 0 <= i < |r| && 0 <= j < |r| && i != j
        ensures r[i].row != r[j].row || r[i].col != r[j].col
      {
        var i' := if i == k then blank else if i == blank then k else i;
        var j' := if j == k then blank else if j == blank then k else j;
        assert r[i].row == tiles[i'].row && r[i].col == tiles[i'].col;
        assert r[j].row == tiles[j'].row && r[j].col == tiles[j'].col;
      }
    }
  }

  // ---------------------------------------------------------------------------
  // Neighbours of the blank
  // ---------------------------------------------------------------------------

  predicate Increasing(s: seq<nat>) {
    forall i, j :: 0 <= i < j < |s| ==> s[i] < s[j]
  }

  /** The indices from `from` on whose tiles are at distance 1 from the blank,
      in array order. */
  function NeighboursFrom(tiles: seq<Tile>, blank: nat, from: nat): (r: seq<nat>)
    requires blank < |tiles| && from <= |tiles|
    ensures forall x: nat :: x in r <==> from <= x < |tiles| && Distance(tiles[x], tiles[blank]) == 1
    ensures forall i :: 0 <= i < |r| ==> from <= r[i] < |tiles|
    ensures Increasing(r)
    decreases |tiles| - from
  {
    if from == |tiles| then []
    else
      var rest := NeighboursFrom(tiles, blank, from + 1);
      if Distance(tiles[from], tiles[blank]) == 1 then [from] + rest else rest
  }

  /** The tiles next to the blank, in array order, as `tiles.filter(...)`
      computes them. */
  function Neighbours(tiles: seq<Tile>, blank: nat): (r: seq<nat>)
    requires blank < |tiles|
    ensures forall x: nat :: x in r <==> x < |tiles| && Distance(tiles[x], tiles[blank]) == 1
    ensures forall i :: 0 <= i < |r| ==> r[i] < |tiles|
    ensures Increasing(r)
  {
    NeighboursFrom(tiles, blank, 0)
  }

  /** `s.filter(y => y !== x)`. */
  function Without(s: seq<nat>, x: nat): (r: seq<nat>)
    ensures forall y: nat :: y in r <==> y in s && y != x
    ensures Increasing(s) ==> Increasing(r)
  {
    if s == [] then []
    else
      var rest := Without(s[1..], x);
      assert forall y: nat :: y in s[1..] ==> y in s;
      assert Increasing(s) ==> forall i :: 0 <= i < |rest| ==> s[0] < rest[i] by {
        if Increasing(s) {
          forall i | 0 <= i < |rest| ensures s[0] < rest[i] {
            assert rest[i] in s[1..];
          }
        }
      }
      if s[0] == x then rest else [s[0]] + rest
  }

  /** What the shuffle knows of its previous step: nothing, or a tile that
      stands next to the blank. */
  predicate LastOk(tiles: seq<Tile>, blank: nat, last: Option<nat>)
    requires blank < |tiles|
  {
    last.Some? ==> last.value < |tiles| && Distance(tiles[last.value], tiles[blank]) == 1
  }

  /** The tiles one shuffle step chooses from: the neighbours of the blank,
      without the tile moved in the previous step unless it is the only one. */
  function Candidates(tiles: seq<Tile>, blank: nat, last: Option<nat>): (r: seq<nat>)
    requires blank < |tiles| && LastOk(tiles, blank, last)
    ensures forall i :: 0 <= i < |r| ==> r[i] < |tiles| && Distance(tiles[r[i]], tiles[blank]) == 1
    ensures last.None? ==> r == Neighbours(tiles, blank)
    ensures last.Some? ==> forall x: nat :: x != last.value ==> (x in r <==> x in Neighbours(tiles, blank))
    ensures last.Some? && last.value in r ==>
      r == [last.value] && forall x: nat :: x in Neighbours(tiles, blank) ==> x == last.value
    ensures last.Some? && (forall x: nat :: x in Neighbours(tiles, blank) ==> x == last.value) ==>
      r == [last.value]
    ensures Increasing(r)
  {
    var neighbours := Neighbours(tiles, blank);
    match last
    case None => neighbours
    case Some(l) =>
      var others := Without(neighbours, l);
      assert forall i :: 0 <= i < |others| ==> others[i] in others;
      if others == [] then [l] else assert others[0] in others; others
  }

  /** On a well-formed board of side at least 2 the blank has at least two
      neighbours: one in its column and one in its row. */
  lemma TwoNeighbours(n: nat, tiles: seq<Tile>, blank: nat)
    requires WellFormed(n, tiles, blank) && n >= 2
    ensures |Neighbours(tiles, blank)| >= 2
  {
    var b := tiles[blank];
    var vr := if b.row > 0 then b.row - 1 else b.row + 1;
    var hc := if b.col > 0 then b.col - 1 else b.col + 1;
    var k1 := OccupantOf(n, tiles, vr, b.col);
    var k2 := OccupantOf(n, tiles, b.row, hc);
    var nb := Neighbours(tiles, blank);
    assert Distance(tiles[k1], b) == 1 && Distance(tiles[k2], b) == 1;
    TwoMembers(nb, k1, k2);
  }

  /** A sequence holding two different values has at least two elements. */
  lemma TwoMembers(s: seq<nat>, a: nat, b: nat)
    requires a in s && b in s && a != b
    ensures |s| >= 2
  {
    var i :| 0 <= i < |s| && s[i] == a;
    var j :| 0 <= j < |s| && s[j] == b;
    assert i != j;
  }

  /** On a board of side at least 2 a shuffle step never picks the tile that
      the previous step moved: the fallback to it cannot trigger. */
  lemma NeverUndoTile(n: nat, tiles: seq<Tile>, blank: nat, l: nat)
    requires WellFormed(n, tiles, blank) && n >= 2 && LastOk(tiles, blank, Some(l))
    ensures l !in Candidates(tiles, blank, Some(l))
    ensures |Candidates(tiles, blank, Some(l))| >= 1
  {
    var nb := Neighbours(tiles, blank);
    TwoNeighbours(n, tiles, blank);
    var y := if nb[0] != l then nb[0] else nb[1];
    assert y in nb && y != l;
  }

  /** On a board of side at least 2 every shuffle step has a tile to choose. */
  lemma CandidatesNonEmpty(n: nat, tiles: seq<Tile>, blank: nat, last: Option<nat>)
    requires WellFormed(n, tiles, blank) && n >= 2 && LastOk(tiles, blank, last)
    ensures |Candidates(tiles, blank, last)| >= 1
  {
    if last.None? {
      TwoNeighbours(n, tiles, blank);
    }
  }

  // ---------------------------------------------------------------------------
  // Move sequences
  // ---------------------------------------------------------------------------

  /** Every move of `path` names a tile of a board of `size` tiles. */
  predicate MovesBelow(path: seq<nat>, size: nat) {
    forall i :: 0 <= i < |path| ==> path[i] < size
  }

  /** Apply the moves of `path` in order, each swapping a tile with the blank. */
  function ApplyMoves(tiles: seq<Tile>, blank: nat, path: seq<nat>): (r: seq<Tile>)
    requires blank < |tiles| && MovesBelow(path, |tiles|)
    ensures |r| == |tiles|
    decreases |path|
  {
    if path == [] then tiles
    else ApplyMoves(Swap(tiles, path[0], blank), blank, path[1..])
  }

  /** Every move of `path` swaps the blank with a tile next to it. */
  predicate LegalPath(tiles: seq<Tile>, blank: nat, path: seq<nat>)
    requires blank < |tiles|
    decreases |path|
  {
    path == [] ||
    (path[0] < |tiles| && Distance(tiles[path[0]], tiles[blank]) == 1 &&
     LegalPath(Swap(tiles, path[0], blank), blank, path[1..]))
  }

  /** The moves of a legal path all name tiles of the board. */
  lemma {:induction false} LegalPathInRange(tiles: seq<Tile>, blank: nat, path: seq<nat>)
    requires blank < |tiles| && LegalPath(tiles, blank, path)
    ensures MovesBelow(path, |tiles|)
    decreases |path|
  {
    if path != [] {
      LegalPathInRange(Swap(tiles, path[0], blank), blank, path[1..]);
      assert forall i :: 1 <= i < |path| ==> path[i] == path[1..][i - 1];
    }
  }

  /** Any sequence of swaps with the blank keeps the board invariant. */
  lemma {:induction false} ApplyMovesKeepsWellFormed(n: nat, tiles: seq<Tile>, blank: nat, path: seq<nat>)
    requires WellFormed(n, tiles, blank) && MovesBelow(path, |tiles|)
    ensures WellFormed(n, ApplyMoves(tiles, blank, path), blank)
    decreases |path|
  {
    if path != [] {
      SwapKeepsWellFormed(n, tiles, blank, path[0]);
      ApplyMovesKeepsWellFormed(n, Swap(tiles, path[0], blank), blank, path[1..]);
    }
  }

  lemma {:induction false} ApplyMovesAppend(tiles: seq<Tile>, blank: nat, p: seq<nat>, q: seq<nat>)
    requires blank < |tiles| && MovesBelow(p, |tiles|) && MovesBelow(q, |tiles|)
    ensures MovesBelow(p + q, |tiles|)
    ensures ApplyMoves(tiles, blank, p + q) == ApplyMoves(ApplyMoves(tiles, blank, p), blank, q)
    decreases |p|
  {
    if p == [] {
      assert p + q == q;
    } else {
      assert (p + q)[0] == p[0] && (p + q)[1..] == p[1..] + q;
      ApplyMovesAppend(Swap(tiles, p[0], blank), blank, p[1..], q);
    }
  }

  lemma {:induction false} LegalPathAppend(tiles: seq<Tile>, blank: nat, p: seq<nat>, q: seq<nat>)
    requires blank < |tiles| && MovesBelow(p, |tiles|)
    requires LegalPath(tiles, blank, p)
    requires LegalPath(ApplyMoves(tiles, blank, p), blank, q)
    ensures LegalPath(tiles, blank, p + q)
    decreases |p|
  {
    if p == [] {
      assert p + q == q;
    } else {
      assert (p + q)[0] == p[0] && (p + q)[1..] == p[1..] + q;
      LegalPathAppend(Swap(tiles, p[0], blank), blank, p[1..], q);
    }
  }

  /** The moves of `s` in the opposite order. */
  function Reverse(s: seq<nat>): (r: seq<nat>)
    ensures |r| == |s|
    ensures forall i :: 0 <= i < |s| ==> r[i] == s[|s| - 1 - i]
  {
    if s == [] then [] else Reverse(s[1..]) + [s[0]]
  }

  /** Replaying a legal path backwards is legal and undoes it: every board
      reached by legal moves can be brought back to where it started. */
  lemma {:induction false} ReplayInverse(tiles: seq<Tile>, blank: nat, path: seq<nat>)
    requires blank < |tiles| && LegalPath(tiles, blank, path)
    ensures MovesBelow(path, |tiles|) && MovesBelow(Reverse(path), |tiles|)
    ensures LegalPath(ApplyMoves(tiles, blank, path), blank, Reverse(path))
    ensures ApplyMoves(ApplyMoves(tiles, blank, path), blank, Reverse(path)) == tiles
    decreases |path|
  {
    LegalPathInRange(tiles, blank, path);
    if path != [] {
      var c := path[0];
      var t1 := Swap(tiles, c, blank);
      ReplayInverse(t1, blank, path[1..]);
      var end := ApplyMoves(t1, blank, path[1..]);
      var back := Reverse(path[1..]);
      assert Reverse(path) == back + [c];
      ApplyMovesAppend(end, blank, back, [c]);
      SwapTwice(tiles, c, blank);
      assert ApplyMoves(t1, blank, [c]) == Swap(t1, c, blank);
      assert LegalPath(t1, blank, [c]);
      LegalPathAppend(end, blank, back, [c]);
    }
  }

  // ---------------------------------------------------------------------------
  // The shuffle walk
  // ---------------------------------------------------------------------------

  /** Each random draw of the shuffle, given as the index it selects, is below
      the number of candidates at its step. */
  predicate ChoicesFit(tiles: seq<Tile>, blank: nat, last: Option<nat>, choices: seq<nat>)
    requires blank < |tiles| && LastOk(tiles, blank, last)
    decreases |choices|
  {
    choices == [] ||
    (var cs := Candidates(tiles, blank, last);
     choices[0] < |cs| &&
     ChoicesFit(Swap(tiles, cs[choices[0]], blank), blank, Some(cs[choices[0]]), choices[1..]))
  }

  /** The tiles the shuffle moves, one per draw: a legal path with exactly as
      many moves as draws. */
  function WalkPath(tiles: seq<Tile>, blank: nat, last: Option<nat>, choices: seq<nat>): (r: seq<nat>)
    requires blank < |tiles| && LastOk(tiles, blank, last) && ChoicesFit(tiles, blank, last, choices)
    ensures |r| == |choices|
    ensures MovesBelow(r, |tiles|)
    ensures LegalPath(tiles, blank, r)
    decreases |choices|
  {
    if choices == [] then []
    else
      var c := Candidates(tiles, blank, last)[choices[0]];
      var t1 := Swap(tiles, c, blank);
      SwapBackIsLegal(tiles, blank, c);
      var rest := WalkPath(t1, blank, Some(c), choices[1..]);
      assert ([c] + rest)[0] == c && ([c] + rest)[1..] == rest;
      [c] + rest
  }

  /** After a tile next to the blank is swapped with it, it is next to the
      blank again, on the other side. */
  lemma SwapBackIsLegal(tiles: seq<Tile>, blank: nat, c: nat)
    requires blank < |tiles| && c < |tiles| && Distance(tiles[c], tiles[blank]) == 1
    ensures c != blank && LastOk(Swap(tiles, c, blank), blank, Some(c))
  {
  }

  /** One step of the walk: the first draw picks its candidate, and the rest of
      the walk continues from the board after that swap. */
  lemma WalkStep(tiles: seq<Tile>, blank: nat, last: Option<nat>, choices: seq<nat>)
    requires blank < |tiles| && LastOk(tiles, blank, last) && ChoicesFit(tiles, blank, last, choices)
    requires choices != []
    ensures var cs := Candidates(tiles, blank, last);
      choices[0] < |cs| &&
      var c := cs[choices[0]];
      var t1 := Swap(tiles, c, blank);
      && c < |tiles|
      && LastOk(t1, blank, Some(c))
      && ChoicesFit(t1, blank, Some(c), choices[1..])
      && ApplyMoves(tiles, blank, WalkPath(tiles, blank, last, choices))
         == ApplyMoves(t1, blank, WalkPath(t1, blank, Some(c), choices[1..]))
  {
    var c := Candidates(tiles, blank, last)[choices[0]];
    var t1 := Swap(tiles, c, blank);
    var rest := WalkPath(t1, blank, Some(c), choices[1..]);
    assert WalkPath(tiles, blank, last, choices) == [c] + rest;
    assert ([c] + rest)[1..] == rest;
  }

  /** On a board of side at least 2 a walk of any length whose draws are all
      0 fits: every step has a candidate, so the first one can be drawn. */
  lemma {:induction false} ZeroDrawsFit(n: nat, tiles: seq<Tile>, blank: nat, last: Option<nat>, k: nat)
    requires WellFormed(n, tiles, blank) && n >= 2 && LastOk(tiles, blank, last)
    ensures ChoicesFit(tiles, blank, last, seq(k, _ => 0))
    decreases k
  {
    var zs: seq<nat> := seq(k, _ => 0);
    if k > 0 {
      CandidatesNonEmpty(n, tiles, blank, last);
      var c := Candidates(tiles, blank, last)[0];
      SwapKeepsWellFormed(n, tiles, blank, c);
      SwapBackIsLegal(tiles, blank, c);
      var rest: seq<nat> := seq(k - 1, _ => 0);
      ZeroDrawsFit(n, Swap(tiles, c, blank), blank, Some(c), k - 1);
      assert zs == [0] + rest;
      FitsStep(tiles, blank, last, 0, rest);
    }
  }

  /** A first draw that fits, followed by draws that fit from the board it
      leads to, fit. */
  lemma FitsStep(tiles: seq<Tile>, blank: nat, last: Option<nat>, d: nat, rest: seq<nat>)
    requires blank < |tiles| && LastOk(tiles, blank, last)
    requires d < |Candidates(tiles, blank, last)|
    requires var c := Candidates(tiles, blank, last)[d];
      c != blank && ChoicesFit(Swap(tiles, c, blank), blank, Some(c), rest)
    ensures ChoicesFit(tiles, blank, last, [d] + rest)
  {
    var c := Candidates(tiles, blank, last)[d];
    SwapBackIsLegal(tiles, blank, c);
    assert ([d] + rest)[0] == d && ([d] + rest)[1..] == rest;
  }

  /** On a one-tile board the blank has no neighbour, so no draw at all fits:
      a shuffle of one or more steps has nothing to choose from. */
  lemma OneTileNoDraws(choices: seq<nat>)
    requires choices != []
    ensures Candidates(SolvedGrid(1), LastIndex(1), None) == []
    ensures !ChoicesFit(SolvedGrid(1), LastIndex(1), None, choices)
  {
    assert |SolvedGrid(1)| == 1;
  }

  /** No move repeats the one before it. */
  predicate NoImmediateRepeat(p: seq<nat>) {
    forall i :: 1 <= i < |p| ==> p[i] != p[i - 1]
  }

  lemma ConsNoImmediateRepeat(c: nat, rest: seq<nat>)
    requires NoImmediateRepeat(rest) && (|rest| > 0 ==> rest[0] != c)
    ensures NoImmediateRepeat([c] + rest)
  {
    var p := [c] + rest;
    forall i | 2 <= i < |p| ensures p[i] != p[i - 1] {
      assert p[i] == rest[i - 1] && p[i - 1] == rest[i - 2];
    }
  }

  /** On a board of side at least 2 no shuffle step moves back the tile moved
      by the step before it (nor, when given, the tile moved before the walk). */
  lemma {:induction false} WalkNeverUndoes(n: nat, tiles: seq<Tile>, blank: nat, last: Option<nat>, choices: seq<nat>)
    requires WellFormed(n, tiles, blank) && n >= 2
    requires LastOk(tiles, blank, last) && ChoicesFit(tiles, blank, last, choices)
    ensures var p := WalkPath(tiles, blank, last, choices);
      (last.Some? && |p| > 0 ==> p[0] != last.value) && NoImmediateRepeat(p)
    decreases |choices|
  {
    if choices != [] {
      var c := Candidates(tiles, blank, last)[choices[0]];
      if last.Some? {
        NeverUndoTile(n, tiles, blank, last.value);
      }
      SwapKeepsWellFormed(n, tiles, blank, c);
      var t1 := Swap(tiles, c, blank);
      WalkNeverUndoes(n, t1, blank, Some(c), choices[1..]);
      var rest := WalkPath(t1, blank, Some(c), choices[1..]);
      assert WalkPath(tiles, blank, last, choices) == [c] + rest;
      ConsNoImmediateRepeat(c, rest);
    }
  }

  /** A shuffled board is reachable from the fresh board by exactly as many
      legal moves as there were draws, and replaying them backwards solves it. */
  lemma ShuffledIsSolvable(n: nat, choices: seq<nat>)
    requires n >= 1
    requires ChoicesFit(SolvedGrid(n), LastIndex(n), None, choices)
    ensures var start := SolvedGrid(n);
      var p := WalkPath(start, LastIndex(n), None, choices);
      var shuffled := ApplyMoves(start, LastIndex(n), p);
      && |p| == |choices|
      && LegalPath(start, LastIndex(n), p)
      && LegalPath(shuffled, LastIndex(n), Reverse(p))
      && ApplyMoves(shuffled, LastIndex(n), Reverse(p)) == start
  {
    var p := WalkPath(SolvedGrid(n), LastIndex(n), None, choices);
    ReplayInverse(SolvedGrid(n), LastIndex(n), p);
  }

  /** A first move on the fresh 3 x 3 board:
      tile 6 above the blank moves down, and the board is no longer solved. */
  lemma ThreeByThreeExample()
    ensures var g := SolvedGrid(3);
      var g' := Swap(g, 5, 8);
      && g[5].id == 6 && g[5].row == 1 && g[5].col == 2
      && Distance(g[5], g[8]) == 1
      && g'[5].row == 2 && g'[5].col == 2
      && g'[8].row == 1 && g'[8].col == 2
      && !IsSolved(3, g')
  {
    var g' := Swap(SolvedGrid(3), 5, 8);
    assert !AtHome(3, g'[5]);
  }
}
