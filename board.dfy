/** `GameBoard`: the grid a session plays on, updated in place. Its methods
    are proved against the value-level functions of module Grids. */
module Board {
  import opened Tetromino
  import opened Grids

  class GameBoard {
    const width: nat
    const height: nat
    var grid: Grid

    /** The grid is `height` rows of `width` cells, each 0 or 1. */
    ghost predicate Valid()
      reads this
    {
      Rect(grid, width, height) && Binary(grid)
    }

    constructor (w: nat, h: nat)
      ensures Valid()
      ensures width == w && height == h && grid == EmptyGrid(w, h)
    {
      width := w;
      height := h;
      grid := EmptyGrid(w, h);
    }

    /** `is_collision(tetromino, x, y, rotation)`: the piece's kind in the
        given rotation state, placed at column `x`, row `y`. */
    predicate IsCollision(t: Tetromino, x: int, y: int, rotation: nat)
      reads this
      requires rotation < NumStates(t.kind)
      ensures Valid() && y >= 0 ==>
                (IsCollision(t, x, y, rotation) <==>
                 exists i, j :: Occupied(MaskOf(t.kind, rotation), i, j) && Blocked(grid, width, y + i, x + j))
    {
      Collides(grid, width, MaskOf(t.kind, rotation), x, y)
    }

    /** `place_tetromino`: writes 1 into every board cell under an 'O' cell of
        the piece's current mask, row by row. */
    method PlaceTetromino(t: Tetromino)
      requires Valid() && t.Valid()
      requires InBounds(t.Shape(), t.x, t.y, width, height)
      modifies this
      ensures Valid()
      ensures grid == Stamp(old(grid), t.Shape(), t.x, t.y)
    {
      var m, x, y := t.Shape(), t.x, t.y;
      ghost var g0 := grid;
      StampUpToStart(g0, m, x, y);
      var i := 0;
      while i < |m|
        invariant 0 <= i <= |m|
        invariant grid == StampUpTo(g0, m, x, y, i, 0)
      {
        PlaceMaskRow(g0, m, x, y, i);
        i := i + 1;
      }
      StampUpToEnd(g0, m, x, y);
      StampCells(g0, m, x, y, width, height);
    }

    /** The inner loop of `place_tetromino`: the cells of mask row `i`. */
    method PlaceMaskRow(ghost g0: Grid, m: Mask, x: int, y: int, i: nat)
      requires Rect(g0, width, height) && InBounds(m, x, y, width, height) && i < |m|
      requires grid == StampUpTo(g0, m, x, y, i, 0)
      modifies this
      ensures grid == StampUpTo(g0, m, x, y, i + 1, 0)
    {
      var j := 0;
      while j < |m[i]|
        invariant 0 <= j <= |m[i]|
        invariant grid == StampUpTo(g0, m, x, y, i, j)
      {
        if m[i][j] == 'O' {
          assert Occupied(m, i, j);
          StampUpToSet(g0, m, x, y, i, j, width, height);
          grid := grid[y + i := grid[y + i][x + j := 1]];
        } else {
          StampUpToSkip(g0, m, x, y, i, j);
        }
        j := j + 1;
      }
      StampUpToNextRow(g0, m, x, y, i);
    }

    /** `remove_line(line)`: drops row `line` (a negative index counts from the
        bottom, as Python's `pop` does) and puts an empty row on top. */
    method RemoveLine(line: int)
      requires Valid() && -(height as int) <= line < height
      modifies this
      ensures Valid()
      ensures grid == RemoveRow(old(grid), Wrap(height, line), width)
    {
      grid := RemoveRow(grid, Wrap(height, line), width);
    }

    /** `self.grid[row] = [v] * self.width` for every row in `rows`. */
    method FillRows(rows: seq<nat>, v: int)
      requires Valid() && (v == 0 || v == 1)
      requires forall k :: 0 <= k < |rows| ==> rows[k] < height
      modifies this
      ensures Valid()
      ensures forall r :: 0 <= r < height ==> grid[r] == if r in rows then ConstRow(width, v) else old(grid)[r]
    {
      var k := 0;
      while k < |rows|
        invariant 0 <= k <= |rows|
        invariant Valid()
        invariant forall r :: 0 <= r < height ==>
                    grid[r] == if r in rows[..k] then ConstRow(width, v) else old(grid)[r]
      {
        assert rows[..k + 1] == rows[..k] + [rows[k]];
        grid := grid[rows[k] := ConstRow(width, v)];
        k := k + 1;
      }
      assert rows[..k] == rows;
    }

    /** The scan at the start of `clear_lines`: the indices of the rows whose
        every cell is non-zero, top to bottom. */
    method FindFullRows() returns (fullRows: seq<nat>)
      requires Valid()
      ensures fullRows == FullRows(grid, height)
    {
      fullRows := [];
      var row := 0;
      while row < height
        invariant 0 <= row <= height
        invariant fullRows == FullRows(grid, row)
      {
        if IsFull(grid[row]) {
          fullRows := fullRows + [row];
        }
        row := row + 1;
      }
    }

    /** The blinking in `clear_lines`: three times, the full rows are set to
        zeros and then to ones. A full row of a 0/1 grid is all ones, so the
        grid ends as it began. */
    method Blink(fullRows: seq<nat>)
      requires Valid() && fullRows == FullRows(grid, height)
      modifies this
      ensures grid == old(grid)
    {
      FullRowsSpec(grid, height);
      var blink := 0;
      while blink < 3
        invariant 0 <= blink <= 3
        invariant grid == old(grid)
      {
        FillRows(fullRows, 0);
        FillRows(fullRows, 1);
        forall r | 0 <= r < height ensures grid[r] == old(grid)[r] {
          if r in fullRows {
            FullRowIsOnes(old(grid), r, width, height);
          }
        }
        blink := blink + 1;
      }
    }

    /** The deletions in `clear_lines`: for each full row, in ascending order,
        `del grid[row]` and `grid.insert(0, [0] * width)`. Deleting a row
        shifts only the rows above it, so the later (lower) full rows keep
        their indices. */
    method RemoveFullRows(fullRows: seq<nat>) returns (linesCleared: nat)
      requires |grid| == height && forall i :: 0 <= i < |fullRows| ==> fullRows[i] < height
      modifies this
      ensures linesCleared == |fullRows|
      ensures grid == Collapsing(old(grid), fullRows, |fullRows|, width)
    {
      ghost var g0 := grid;
      linesCleared := 0;
      var k := 0;
      while k < |fullRows|
        invariant 0 <= k <= |fullRows|
        invariant linesCleared == k
        invariant grid == Collapsing(g0, fullRows, k, width)
      {
        grid := RemoveRow(grid, fullRows[k], width);
        linesCleared := linesCleared + 1;
        k := k + 1;
      }
    }

    /** `clear_lines`: finds the full rows, blinks them, removes them and
        returns how many rows were removed. */
    method ClearLines() returns (linesCleared: nat)
      requires Valid()
      modifies this
      ensures Valid()
      ensures linesCleared == |FullRows(old(grid), height)|
      ensures grid == Cleared(old(grid), width)
    {
      linesCleared := 0;
      var fullRows := FindFullRows();
      CollapsingIsCleared(grid, width, height);
      if fullRows != [] {
        Blink(fullRows);
        linesCleared := RemoveFullRows(fullRows);
      }
    }

    /** `is_game_over`: some cell of the top row is 1. On a 0/1 grid that is
        the same as the top row not being empty. */
    predicate IsGameOver()
      reads this
      requires Valid() && height > 0
      ensures IsGameOver() <==> grid[0] != ZeroRow(width)
    {
      exists c :: 0 <= c < |grid[0]| && grid[0][c] == 1
    }
  }

  /** A full row of a 0/1 grid is a row of ones, so refilling it with ones
      restores it. */
  lemma FullRowIsOnes(g: Grid, r: nat, width: nat, height: nat)
    requires Rect(g, width, height) && Binary(g) && r < height && IsFull(g[r])
    ensures g[r] == ConstRow(width, 1)
  {
    assert forall c :: 0 <= c < width ==> g[r][c] == 0 || g[r][c] == 1;
  }

  /** No row between the previously removed full row (exclusive) and the
      next one is full, since the list of full rows is ascending and complete. */
  lemma GapHasNoFullRow(g: Grid, fullRows: seq<nat>, k: nat, p: nat)
    requires Ascending(fullRows)
    requires forall r :: 0 <= r < |g| && IsFull(g[r]) ==> r in fullRows
    requires k <= |fullRows|
    requires p == if k == 0 then 0 else fullRows[k - 1] + 1
    ensures forall i :: p <= i < |g| && (k < |fullRows| ==> i < fullRows[k]) ==> !IsFull(g[i])
  {
    forall i | p <= i < |g| && (k < |fullRows| ==> i < fullRows[k]) ensures !IsFull(g[i]) {
      forall a | 0 <= a < |fullRows| ensures fullRows[a] != i {
        if a < k {
          assert fullRows[a] <= fullRows[k - 1];
        } else {
          assert fullRows[k] <= fullRows[a];
        }
      }
      assert i !in fullRows;
    }
  }

  /** `fullRows` lists exactly the full rows of `g`, ascending. */
  ghost predicate FullRowList(g: Grid, fullRows: seq<nat>)
  {
    Ascending(fullRows) &&
    (forall a :: 0 <= a < |fullRows| ==> fullRows[a] < |g| && IsFull(g[fullRows[a]])) &&
    (forall r :: 0 <= r < |g| && IsFull(g[r]) ==> r in fullRows)
  }

  /** The rows from `p` up to the next full row to remove (or to the bottom
      when none is left) are not full. */
  lemma NextGap(g: Grid, fullRows: seq<nat>, k: nat, p: nat)
    requires FullRowList(g, fullRows) && k <= |fullRows|
    requires p == if k == 0 then 0 else fullRows[k - 1] + 1
    ensures p <= |g|
    ensures k < |fullRows| ==> p <= fullRows[k] < |g| && IsFull(g[fullRows[k]])
    ensures forall i :: p <= i < (if k < |fullRows| then fullRows[k] else |g|) ==> !IsFull(g[i])
  {
    GapHasNoFullRow(g, fullRows, k, p);
  }

  /** The grid after the first `k` deletions of `clear_lines`, applied one
      after the other to `g`, as the loop does. */
  function Collapsing(g: Grid, rows: seq<nat>, k: nat, width: nat): (c: Grid)
    requires k <= |rows| && forall i :: 0 <= i < |rows| ==> rows[i] < |g|
    ensures |c| == |g|
  {
    if k == 0 then g else RemoveRow(Collapsing(g, rows, k - 1, width), rows[k - 1], width)
  }

  /** After `k` deletions the grid is `k` empty rows, then the rows above the
      `k`-th full row that are not full, then the untouched rows below it. */
  ghost predicate Collapsed(g: Grid, fullRows: seq<nat>, k: nat, width: nat)
    requires k <= |fullRows| && FullRowList(g, fullRows)
  {
    var p := if k == 0 then 0 else fullRows[k - 1] + 1;
    p <= |g| && k + |KeptRows(g, p)| == p &&
    Collapsing(g, fullRows, k, width) == ZeroRows(k, width) + KeptRows(g, p) + g[p..]
  }

  /** Before any deletion the grid is in collapsed form with nothing collapsed. */
  lemma CollapsingStart(g: Grid, fullRows: seq<nat>, width: nat)
    requires FullRowList(g, fullRows)
    ensures Collapsed(g, fullRows, 0, width)
  {
    assert ZeroRows(0, width) + KeptRows(g, 0) + g[0..] == g;
  }

  lemma {:induction false} CollapsingForm(g: Grid, fullRows: seq<nat>, k: nat, width: nat)
    requires FullRowList(g, fullRows) && k <= |fullRows|
    ensures Collapsed(g, fullRows, k, width)
  {
    if k == 0 {
      CollapsingStart(g, fullRows, width);
    } else {
      CollapsingForm(g, fullRows, k - 1, width);
      RemoveNext(g, fullRows, k - 1, width);
    }
  }

  /** The deletion of the `k`-th full row keeps the grid in collapsed form. */
  lemma RemoveNext(g: Grid, fullRows: seq<nat>, k: nat, width: nat)
    requires FullRowList(g, fullRows) && k < |fullRows|
    requires Collapsed(g, fullRows, k, width)
    ensures Collapsed(g, fullRows, k + 1, width)
  {
    var p := if k == 0 then 0 else fullRows[k - 1] + 1;
    var f := fullRows[k];
    var before := ZeroRows(k, width) + KeptRows(g, p) + g[p..];
    assert Collapsing(g, fullRows, k + 1, width) == RemoveRow(before, f, width);
    RemoveNextRow(g, fullRows, k, p, width);
  }

  /** `RemoveStep` at the `k`-th full row, whose predecessor is `p - 1`. */
  lemma RemoveNextRow(g: Grid, fullRows: seq<nat>, k: nat, p: nat, width: nat)
    requires FullRowList(g, fullRows) && k < |fullRows|
    requires p == (if k == 0 then 0 else fullRows[k - 1] + 1) && p <= |g| && k + |KeptRows(g, p)| == p
    ensures fullRows[k] < |g| && k + 1 + |KeptRows(g, fullRows[k] + 1)| == fullRows[k] + 1
    ensures RemoveRow(ZeroRows(k, width) + KeptRows(g, p) + g[p..], fullRows[k], width)
            == ZeroRows(k + 1, width) + KeptRows(g, fullRows[k] + 1) + g[fullRows[k] + 1..]
  {
    NextGap(g, fullRows, k, p);
    RemoveStep(g, k, p, fullRows[k], width);
  }

  /** `FullRows` is the list `FullRowList` describes. */
  lemma FullRowsIsList(g: Grid)
    ensures FullRowList(g, FullRows(g, |g|))
  {
    FullRowsSpec(g, |g|);
  }

  /** Removing every full row, one at a time, yields `Cleared`; when no row
      is full, that is the grid itself. */
  lemma CollapsingIsCleared(g: Grid, width: nat, height: nat)
    requires Rect(g, width, height) && Binary(g)
    ensures FullRowList(g, FullRows(g, height))
    ensures var f := FullRows(g, height);
            Collapsing(g, f, |f|, width) == Cleared(g, width)
    ensures Rect(Cleared(g, width), width, height) && Binary(Cleared(g, width))
  {
    var f := FullRows(g, height);
    FullRowsIsList(g);
    var p := if f == [] then 0 else f[|f| - 1] + 1;
    var collapsed := ZeroRows(|f|, width) + KeptRows(g, p) + g[p..];
    assert Collapsing(g, f, |f|, width) == collapsed by {
      CollapsingForm(g, f, |f|, width);
    }
    assert collapsed == Cleared(g, width) by {
      AfterLastFullRow(g, f, p, width);
    }
    assert Rect(Cleared(g, width), width, height) && Binary(Cleared(g, width)) by {
      ClearedShape(g, width, height);
    }
  }

  /** Below the last full row nothing is full, so the collapsed grid after the
      last deletion is `Cleared`. */
  lemma AfterLastFullRow(g: Grid, f: seq<nat>, p: nat, width: nat)
    requires f == FullRows(g, |g|) && FullRowList(g, f)
    requires p == if f == [] then 0 else f[|f| - 1] + 1
    ensures p <= |g|
    ensures ZeroRows(|f|, width) + KeptRows(g, p) + g[p..] == Cleared(g, width)
  {
    NextGap(g, f, |f|, p);
    NoFullBetween(g, p, |g|);
    assert g[p..] == g[p..|g|];
  }

  /** One deletion step of `clear_lines`: removing full row `f` from the
      partly collapsed grid extends the collapsed part up to `f`. */
  lemma RemoveStep(g: Grid, k: nat, p: nat, f: nat, width: nat)
    requires p <= f < |g| && IsFull(g[f])
    requires forall i :: p <= i < f ==> !IsFull(g[i])
    requires k + |KeptRows(g, p)| == p
    ensures k + 1 + |KeptRows(g, f + 1)| == f + 1
    ensures RemoveRow(ZeroRows(k, width) + KeptRows(g, p) + g[p..], f, width)
            == ZeroRows(k + 1, width) + KeptRows(g, f + 1) + g[f + 1..]
  {
    NoFullBetween(g, p, f);
    var z := ZeroRows(k, width);
    var kept := KeptRows(g, p);
    DeleteInSuffix(z + kept, g, f, ZeroRow(width));
    assert KeptRows(g, f + 1) == kept + g[p..f];
    assert ZeroRows(k + 1, width) == [ZeroRow(width)] + z;
    assert [ZeroRow(width)] + (z + kept) + g[p..f] + g[f + 1..]
        == ([ZeroRow(width)] + z) + (kept + g[p..f]) + g[f + 1..];
  }

  /** Deleting index `f` of `front + g[|front|..]` and putting `top` first,
      when `f` falls in the suffix. */
  lemma DeleteInSuffix<T>(front: seq<T>, g: seq<T>, f: nat, top: T)
    requires |front| <= f < |g|
    ensures var s := front + g[|front|..];
            [top] + s[..f] + s[f + 1..] == [top] + front + g[|front|..f] + g[f + 1..]
  {
    var s := front + g[|front|..];
    assert s[..f] == front + g[|front|..f];
    assert s[f + 1..] == g[f + 1..];
  }
}
