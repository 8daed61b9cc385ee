/** The board's grid as a value: a list of rows of 0/1 cells, row 0 at the top.
    The functions here say what collision testing, stamping a piece and
    clearing full rows compute; the GameBoard class in module Board performs
    them in place. */
module Grids {
  import opened Tetromino

  type Grid = seq<seq<int>>

  /** `height` rows of `width` cells each. */
  predicate Rect(g: Grid, width: nat, height: nat)
  {
    |g| == height && forall r :: 0 <= r < |g| ==> |g[r]| == width
  }

  /** Every cell is 0 (empty) or 1 (occupied). */
  predicate Binary(g: Grid)
  {
    forall r, c :: 0 <= r < |g| && 0 <= c < |g[r]| ==> g[r][c] == 0 || g[r][c] == 1
  }

  /** `[v] * width` */
  function ConstRow(width: nat, v: int): (row: seq<int>)
    ensures |row| == width && forall c :: 0 <= c < width ==> row[c] == v
  {
    seq(width, _ => v)
  }

  function ZeroRow(width: nat): seq<int>
  {
    ConstRow(width, 0)
  }

  /** `k` empty rows. */
  function ZeroRows(k: nat, width: nat): (z: Grid)
    ensures |z| == k && forall i :: 0 <= i < k ==> z[i] == ZeroRow(width)
  {
    seq(k, _ => ZeroRow(width))
  }

  /** The grid of a new board: `height` empty rows of `width` cells. */
  function EmptyGrid(width: nat, height: nat): (g: Grid)
    ensures Rect(g, width, height) && Binary(g)
    ensures forall r, c :: 0 <= r < height && 0 <= c < width ==> g[r][c] == 0
  {
    ZeroRows(height, width)
  }

  // ---------------------------------------------------------------------------
  // Collision

  /** Python's reading of a possibly negative index `i` into a list of length `n`. */
  function Wrap(n: nat, i: int): int
  {
    if i < 0 then i + n else i
  }

  /** What `is_collision` concludes from one 'O' cell placed at row `r`, column `c`:
      an index outside `[-len, len)` raises IndexError, which counts as a
      collision; otherwise the cell collides when the (possibly wrapped) grid
      cell is non-zero or the column lies outside `[0, width)`. */
  predicate CellBlocked(g: Grid, width: nat, r: int, c: int)
    ensures 0 <= r && Rect(g, width, |g|) ==>
              (CellBlocked(g, width, r, c) <==> r >= |g| || c < 0 || c >= width || g[r][c] != 0)
  {
    if !(-|g| <= r < |g|) then true
    else
      var row := g[Wrap(|g|, r)];
      if !(-|row| <= c < |row|) then true
      else row[Wrap(|row|, c)] != 0 || c < 0 || c >= width
  }

  /** The scan of mask row `i` from column `j` on, stopping at the first 'O'
      cell that collides. */
  predicate ScanRow(g: Grid, width: nat, m: Mask, x: int, y: int, i: nat, j: nat)
    requires i < |m|
    ensures ScanRow(g, width, m, x, y, i, j) <==>
              exists j' :: j <= j' && Occupied(m, i, j') && CellBlocked(g, width, y + i, x + j')
    decreases |m[i]| - j
  {
    if j >= |m[i]| then false
    else if m[i][j] == 'O' && CellBlocked(g, width, y + i, x + j) then
      assert Occupied(m, i, j);
      true
    else ScanRow(g, width, m, x, y, i, j + 1)
  }

  /** The scan of the mask rows from row `i` on. */
  predicate ScanRows(g: Grid, width: nat, m: Mask, x: int, y: int, i: nat)
    ensures ScanRows(g, width, m, x, y, i) <==>
              exists i', j :: i <= i' && Occupied(m, i', j) && CellBlocked(g, width, y + i', x + j)
    decreases |m| - i
  {
    if i >= |m| then false
    else if ScanRow(g, width, m, x, y, i, 0) then true
    else ScanRows(g, width, m, x, y, i + 1)
  }

  /** `is_collision`: mask `m` placed with its top-left cell at column `x`, row `y`. */
  predicate Collides(g: Grid, width: nat, m: Mask, x: int, y: int)
    ensures Collides(g, width, m, x, y) <==>
              exists i, j :: Occupied(m, i, j) && CellBlocked(g, width, y + i, x + j)
  {
    ScanRows(g, width, m, x, y, 0)
  }

  /** A board cell at a non-negative row that a piece cell may not occupy:
      left or right of the board, below the bottom row, or already filled. */
  predicate Blocked(g: Grid, width: nat, r: nat, c: int)
    requires Rect(g, width, |g|)
  {
    r >= |g| || c < 0 || c >= width || g[r][c] != 0
  }

  /** For a placement at a non-negative row, `is_collision` holds exactly when
      some 'O' cell of the mask lands on a blocked board cell; '.' cells never
      matter. */
  lemma CollidesIff(g: Grid, width: nat, m: Mask, x: int, y: nat)
    requires Rect(g, width, |g|)
    ensures Collides(g, width, m, x, y) <==>
              exists i, j :: Occupied(m, i, j) && Blocked(g, width, y + i, x + j)
  {
    forall i, j | Occupied(m, i, j)
      ensures CellBlocked(g, width, y + i, x + j) == Blocked(g, width, y + i, x + j)
    {
    }
  }

  /** Every 'O' cell of the placement lies on the board. */
  ghost predicate InBounds(m: Mask, x: int, y: int, width: nat, height: nat)
  {
    forall i, j :: Occupied(m, i, j) ==> 0 <= y + i < height && 0 <= x + j < width
  }

  /** A non-colliding placement at a non-negative row lies on the board and
      covers only empty cells. */
  lemma FreePlacement(g: Grid, width: nat, m: Mask, x: int, y: nat)
    requires Rect(g, width, |g|) && !Collides(g, width, m, x, y)
    ensures InBounds(m, x, y, width, |g|)
    ensures forall i, j :: Occupied(m, i, j) ==> g[y + i][x + j] == 0
  {
    CollidesIff(g, width, m, x, y);
  }

  /** A fresh piece (rotation 0, column `width / 2`, row 0) of any kind fits on
      an empty 15 x 20 board. */
  lemma SpawnFits(k: Kind)
    ensures !Collides(EmptyGrid(15, 20), 15, MaskOf(k, 0), 15 / 2, 0)
  {
    var m := MaskOf(k, 0);
    var g := EmptyGrid(15, 20);
    CollidesIff(g, 15, m, 15 / 2, 0);
    forall i, j | Occupied(m, i, j) ensures !Blocked(g, 15, i, 15 / 2 + j) {
      assert i < 5 && j < |m[i]| == 5;
    }
  }

  // ---------------------------------------------------------------------------
  // Stamping a piece

  /** The grid after `place_tetromino`: every 'O' cell of the placement set to 1. */
  function Stamp(g: Grid, m: Mask, x: int, y: int): (s: Grid)
    ensures |s| == |g| && forall r :: 0 <= r < |g| ==> |s[r]| == |g[r]|
    ensures forall r, c :: 0 <= r < |g| && 0 <= c < |g[r]| && s[r][c] != g[r][c] ==>
              s[r][c] == 1 && Occupied(m, r - y, c - x)
  {
    seq(|g|, r requires 0 <= r < |g| =>
      seq(|g[r]|, c requires 0 <= c < |g[r]| => if Occupied(m, r - y, c - x) then 1 else g[r][c]))
  }

  /** Stamping keeps the grid's shape and its 0/1 cells, sets the piece's
      cells and leaves every other cell as it was. */
  lemma StampCells(g: Grid, m: Mask, x: int, y: int, width: nat, height: nat)
    requires Rect(g, width, height) && Binary(g)
    ensures Rect(Stamp(g, m, x, y), width, height) && Binary(Stamp(g, m, x, y))
    ensures InBounds(m, x, y, width, height) ==>
              forall i, j :: Occupied(m, i, j) ==> Stamp(g, m, x, y)[y + i][x + j] == 1
    ensures forall r, c :: 0 <= r < height && 0 <= c < width && !Occupied(m, r - y, c - x) ==>
              Stamp(g, m, x, y)[r][c] == g[r][c]
  {
  }

  /** Mask cell (a, b) comes before cell (i, j) in row-major order. */
  predicate Before(a: int, b: int, i: int, j: int)
  {
    a < i || (a == i && b < j)
  }

  /** The grid part-way through `place_tetromino`: the 'O' cells before mask
      cell (i, j) in row-major order are set. */
  function StampUpTo(g: Grid, m: Mask, x: int, y: int, i: int, j: int): Grid
  {
    seq(|g|, r requires 0 <= r < |g| =>
      seq(|g[r]|, c requires 0 <= c < |g[r]| =>
        if Occupied(m, r - y, c - x) && Before(r - y, c - x, i, j) then 1 else g[r][c]))
  }

  /** Two grids with the same rows lengths and the same cells are equal. */
  lemma SameCells(a: Grid, b: Grid)
    requires |a| == |b| && forall r :: 0 <= r < |a| ==> |a[r]| == |b[r]|
    requires forall r, c :: 0 <= r < |a| && 0 <= c < |a[r]| ==> a[r][c] == b[r][c]
    ensures a == b
  {
    forall r | 0 <= r < |a| ensures a[r] == b[r] {
      assert forall c :: 0 <= c < |a[r]| ==> a[r][c] == b[r][c];
    }
  }

  lemma StampUpToAt(g: Grid, m: Mask, x: int, y: int, i: int, j: int, r: nat, c: nat)
    requires r < |g| && c < |g[r]|
    ensures |StampUpTo(g, m, x, y, i, j)| == |g| && |StampUpTo(g, m, x, y, i, j)[r]| == |g[r]|
    ensures StampUpTo(g, m, x, y, i, j)[r][c]
            == if Occupied(m, r - y, c - x) && Before(r - y, c - x, i, j) then 1 else g[r][c]
  {
    var v := StampUpTo(g, m, x, y, i, j)[r][c];
    assert v == if Occupied(m, r - y, c - x) && Before(r - y, c - x, i, j) then 1 else g[r][c];
  }

  lemma StampAt(g: Grid, m: Mask, x: int, y: int, r: nat, c: nat)
    requires r < |g| && c < |g[r]|
    ensures |Stamp(g, m, x, y)| == |g| && |Stamp(g, m, x, y)[r]| == |g[r]|
    ensures Stamp(g, m, x, y)[r][c] == if Occupied(m, r - y, c - x) then 1 else g[r][c]
  {
    var v := Stamp(g, m, x, y)[r][c];
    assert v == if Occupied(m, r - y, c - x) then 1 else g[r][c];
  }

  lemma StampUpToStart(g: Grid, m: Mask, x: int, y: int)
    ensures StampUpTo(g, m, x, y, 0, 0) == g
  {
    var s := StampUpTo(g, m, x, y, 0, 0);
    forall r, c | 0 <= r < |g| && 0 <= c < |g[r]| ensures |s[r]| == |g[r]| && s[r][c] == g[r][c] {
      StampUpToAt(g, m, x, y, 0, 0, r, c);
    }
    forall r | 0 <= r < |g| ensures |s[r]| == |g[r]| {
      assert s[r] == seq(|g[r]|, c requires 0 <= c < |g[r]| =>
        if Occupied(m, r - y, c - x) && Before(r - y, c - x, 0, 0) then 1 else g[r][c]);
    }
    SameCells(s, g);
  }

  lemma StampUpToEnd(g: Grid, m: Mask, x: int, y: int)
    ensures StampUpTo(g, m, x, y, |m|, 0) == Stamp(g, m, x, y)
  {
    var s := StampUpTo(g, m, x, y, |m|, 0);
    var t := Stamp(g, m, x, y);
    forall r, c | 0 <= r < |g| && 0 <= c < |g[r]| ensures s[r][c] == t[r][c] {
      StampUpToAt(g, m, x, y, |m|, 0, r, c);
      StampAt(g, m, x, y, r, c);
    }
    SameCells(s, t);
  }

  lemma StampUpToNextRow(g: Grid, m: Mask, x: int, y: int, i: nat)
    requires i < |m|
    ensures StampUpTo(g, m, x, y, i, |m[i]|) == StampUpTo(g, m, x, y, i + 1, 0)
  {
    var s := StampUpTo(g, m, x, y, i, |m[i]|);
    var t := StampUpTo(g, m, x, y, i + 1, 0);
    forall r, c | 0 <= r < |g| && 0 <= c < |g[r]| ensures s[r][c] == t[r][c] {
      StampUpToAt(g, m, x, y, i, |m[i]|, r, c);
      StampUpToAt(g, m, x, y, i + 1, 0, r, c);
    }
    SameCells(s, t);
  }

  /** The inner loop of `place_tetromino` passing over a '.' cell. */
  lemma StampUpToSkip(g: Grid, m: Mask, x: int, y: int, i: nat, j: nat)
    requires i < |m| && j < |m[i]| && m[i][j] != 'O'
    ensures StampUpTo(g, m, x, y, i, j) == StampUpTo(g, m, x, y, i, j + 1)
  {
    var s := StampUpTo(g, m, x, y, i, j);
    var t := StampUpTo(g, m, x, y, i, j + 1);
    forall r, c | 0 <= r < |g| && 0 <= c < |g[r]| ensures s[r][c] == t[r][c] {
      StampUpToAt(g, m, x, y, i, j, r, c);
      StampUpToAt(g, m, x, y, i, j + 1, r, c);
    }
    SameCells(s, t);
  }

  /** The inner loop of `place_tetromino` writing a 1 under an 'O' cell. */
  lemma StampUpToSet(g: Grid, m: Mask, x: int, y: int, i: nat, j: nat, width: nat, height: nat)
    requires Rect(g, width, height) && InBounds(m, x, y, width, height) && Occupied(m, i, j)
    ensures var s := StampUpTo(g, m, x, y, i, j);
            Rect(s, width, height) &&
            s[y + i := s[y + i][x + j := 1]] == StampUpTo(g, m, x, y, i, j + 1)
  {
    var s := StampUpTo(g, m, x, y, i, j);
    var t := StampUpTo(g, m, x, y, i, j + 1);
    var u := s[y + i := s[y + i][x + j := 1]];
    forall r, c | 0 <= r < |g| && 0 <= c < |g[r]| ensures |s[r]| == width && u[r][c] == t[r][c] {
      StampUpToAt(g, m, x, y, i, j, r, c);
      StampUpToAt(g, m, x, y, i, j + 1, r, c);
    }
    forall r | 0 <= r < |g| ensures |s[r]| == width {
      StampUpToAt(g, m, x, y, i, j, r, x + j);
    }
    SameCells(u, t);
  }

  /** Stamping only adds blocked cells: a placement that collided before still
      collides afterwards. */
  lemma StampMonotone(g: Grid, width: nat, m: Mask, x: int, y: int, m': Mask, x': int, y': nat)
    requires Rect(g, width, |g|) && Collides(g, width, m', x', y')
    ensures Collides(Stamp(g, m, x, y), width, m', x', y')
  {
    var s := Stamp(g, m, x, y);
    CollidesIff(g, width, m', x', y');
    CollidesIff(s, width, m', x', y');
    var i, j :| Occupied(m', i, j) && Blocked(g, width, y' + i, x' + j);
    assert Blocked(s, width, y' + i, x' + j);
  }

  /** Once a piece with at least one cell is stamped, the same placement
      collides. */
  lemma StampBlocksItself(g: Grid, width: nat, m: Mask, x: int, y: nat)
    requires Rect(g, width, |g|) && InBounds(m, x, y, width, |g|)
    requires exists i, j :: Occupied(m, i, j)
    ensures Collides(Stamp(g, m, x, y), width, m, x, y)
  {
    var s := Stamp(g, m, x, y);
    CollidesIff(s, width, m, x, y);
    var i, j :| Occupied(m, i, j);
    assert s[y + i][x + j] == 1;
  }

  // ---------------------------------------------------------------------------
  // Clearing full rows

  /** Every cell of the row is non-zero. */
  predicate IsFull(row: seq<int>)
  {
    forall c :: 0 <= c < |row| ==> row[c] != 0
  }

  /** Indices of the full rows among the first `n` rows, ascending. */
  function FullRows(g: Grid, n: nat): (f: seq<nat>)
    requires n <= |g|
    ensures |f| <= n
  {
    if n == 0 then []
    else FullRows(g, n - 1) + (if IsFull(g[n - 1]) then [n - 1] else [])
  }

  /** The rows among the first `n` that are not full, in their original order. */
  function KeptRows(g: Grid, n: nat): (k: Grid)
    requires n <= |g|
    ensures |k| <= n
  {
    if n == 0 then []
    else KeptRows(g, n - 1) + (if IsFull(g[n - 1]) then [] else [g[n - 1]])
  }

  /** `FullRows` lists exactly the full rows among the first `n`, each once,
      in ascending order. */
  lemma {:induction false} FullRowsSpec(g: Grid, n: nat)
    requires n <= |g|
    ensures forall a :: 0 <= a < |FullRows(g, n)| ==> FullRows(g, n)[a] < n && IsFull(g[FullRows(g, n)[a]])
    ensures forall a, b :: 0 <= a < b < |FullRows(g, n)| ==> FullRows(g, n)[a] < FullRows(g, n)[b]
    ensures forall r :: 0 <= r < n && IsFull(g[r]) ==> r in FullRows(g, n)
  {
    if n > 0 {
      FullRowsSpec(g, n - 1);
    }
  }

  /** Every one of the first `n` rows is either kept or listed as full. */
  lemma {:induction false} KeptRowsLength(g: Grid, n: nat)
    requires n <= |g|
    ensures |KeptRows(g, n)| + |FullRows(g, n)| == n
  {
    if n > 0 {
      KeptRowsLength(g, n - 1);
    }
  }

  /** A list of row indices in strictly ascending order. */
  predicate Ascending(f: seq<nat>)
  {
    forall a, b :: 0 <= a < b < |f| ==> f[a] < f[b]
  }

  /** No kept row is full. */
  lemma {:induction false} KeptRowsNotFull(g: Grid, n: nat)
    requires n <= |g|
    ensures forall i :: 0 <= i < |KeptRows(g, n)| ==> !IsFull(KeptRows(g, n)[i])
  {
    if n > 0 {
      KeptRowsNotFull(g, n - 1);
    }
  }

  /** The kept rows are rows of the grid, so they keep its width and its 0/1 cells. */
  lemma {:induction false} KeptRowsShape(g: Grid, n: nat, width: nat)
    requires n <= |g| && Rect(g, width, |g|) && Binary(g)
    ensures Rect(KeptRows(g, n), width, |KeptRows(g, n)|) && Binary(KeptRows(g, n))
  {
    if n > 0 {
      KeptRowsShape(g, n - 1, width);
    }
  }

  /** The grid after `clear_lines`: the rows that were not full, in order, at
      the bottom, under one empty row per full row removed. */
  function Cleared(g: Grid, width: nat): (c: Grid)
    ensures |c| == |g|
  {
    KeptRowsLength(g, |g|);
    ZeroRows(|FullRows(g, |g|)|, width) + KeptRows(g, |g|)
  }

  /** `del grid[i]` followed by `grid.insert(0, [0] * width)`. */
  function RemoveRow(g: Grid, i: nat, width: nat): (g': Grid)
    requires i < |g|
    ensures |g'| == |g| && g'[0] == ZeroRow(width)
    ensures forall r :: 1 <= r <= i ==> g'[r] == g[r - 1]
    ensures forall r :: i < r < |g| ==> g'[r] == g[r]
  {
    [ZeroRow(width)] + g[..i] + g[i + 1..]
  }

  /** Between rows `p` and `n` there is no full row: neither list changes
      except that the kept rows grow by those rows. */
  lemma {:induction false} NoFullBetween(g: Grid, p: nat, n: nat)
    requires p <= n <= |g|
    requires forall i :: p <= i < n ==> !IsFull(g[i])
    ensures FullRows(g, n) == FullRows(g, p)
    ensures KeptRows(g, n) == KeptRows(g, p) + g[p..n]
    decreases n
  {
    if n > p {
      NoFullBetween(g, p, n - 1);
      assert !IsFull(g[n - 1]);
      assert KeptRows(g, n) == KeptRows(g, n - 1) + [g[n - 1]];
      assert g[p..n] == g[p..n - 1] + [g[n - 1]];
    }
  }

  /** A grid without full rows is its own cleared grid. */
  lemma NoFullRowsCleared(g: Grid, width: nat)
    requires forall r :: 0 <= r < |g| ==> !IsFull(g[r])
    ensures FullRows(g, |g|) == [] && Cleared(g, width) == g
  {
    NoFullBetween(g, 0, |g|);
    assert g[0..|g|] == g;
    assert KeptRows(g, |g|) == g;
    assert ZeroRows(0, width) == [];
  }

  /** The cleared grid keeps the board's shape and its 0/1 cells. */
  lemma ClearedShape(g: Grid, width: nat, height: nat)
    requires Rect(g, width, height) && Binary(g)
    ensures Rect(Cleared(g, width), width, height) && Binary(Cleared(g, width))
  {
    KeptRowsShape(g, |g|, width);
  }

  /** After clearing, no row of a board at least one column wide is full. */
  lemma ClearedHasNoFullRow(g: Grid, width: nat)
    requires width > 0 && Rect(g, width, |g|)
    ensures forall r :: 0 <= r < |Cleared(g, width)| ==> !IsFull(Cleared(g, width)[r])
  {
    var z := ZeroRows(|FullRows(g, |g|)|, width);
    var c := Cleared(g, width);
    forall r | 0 <= r < |c| ensures !IsFull(c[r]) {
      if r < |z| {
        assert c[r][0] == 0;
      } else {
        KeptRowsNotFull(g, |g|);
        assert c[r] == KeptRows(g, |g|)[r - |z|];
      }
    }
  }

  /** Clearing twice is clearing once, and the second time removes nothing. */
  lemma ClearIdempotent(g: Grid, width: nat)
    requires width > 0 && Rect(g, width, |g|)
    ensures FullRows(Cleared(g, width), |g|) == []
    ensures Cleared(Cleared(g, width), width) == Cleared(g, width)
  {
    ClearedHasNoFullRow(g, width);
    NoFullRowsCleared(Cleared(g, width), width);
  }

  /** Stamping, at a row `y >= 0`, a mask whose first row is empty leaves the
      grid's top row as it was. */
  lemma StampKeepsTopRow(g: Grid, m: Mask, x: int, y: int, width: nat)
    requires Rect(g, width, |g|) && |g| > 0 && width > 0 && y >= 0
    requires forall j :: !Occupied(m, 0, j)
    ensures Stamp(g, m, x, y)[0] == g[0]
  {
    StampAt(g, m, x, y, 0, 0);
    forall c | 0 <= c < width ensures Stamp(g, m, x, y)[0][c] == g[0][c] {
      StampAt(g, m, x, y, 0, c);
      assert !Occupied(m, 0 - y, c - x);
    }
  }

  /** Clearing keeps an empty top row empty: either full rows were removed
      and empty rows came in on top, or nothing changed. */
  lemma ClearedKeepsTopRow(g: Grid, width: nat)
    requires Rect(g, width, |g|) && |g| > 0 && width > 0 && g[0] == ZeroRow(width)
    ensures Cleared(g, width)[0] == ZeroRow(width)
  {
    var f := FullRows(g, |g|);
    if f == [] {
      FullRowsSpec(g, |g|);
      assert forall r :: 0 <= r < |g| ==> !IsFull(g[r]);
      NoFullRowsCleared(g, width);
    } else {
      KeptRowsLength(g, |g|);
      assert Cleared(g, width)[0] == ZeroRows(|f|, width)[0];
    }
  }
}
