/** The game session the main loop keeps in module-level variables: the
    board, the falling piece, the next piece, the score and the time of the
    last lock, with the transitions one frame makes on them. The clock and
    the random kind of each new piece come in as parameters. */
module Game {
  import opened Tetromino
  import opened Grids
  import opened Board

  const Width: nat := 15
  const Height: nat := 20
  /** Milliseconds that must pass (strictly) before gravity acts. */
  const FallSpeed: int := 500
  /** Points per cleared row. */
  const LinePoints: nat := 100

  /** The key-down events the loop reacts to; any other key is ignored. */
  datatype Key = Down | Left | Right | Space | Other

  /** Where the falling piece is: column, row and rotation index. */
  datatype Pose = Pose(x: int, y: int, rotation: nat)

  /** What one key event does to the falling piece of kind `k` on grid `g`:
      K_DOWN tries the row below, K_LEFT and K_RIGHT the neighbouring columns,
      K_SPACE the next rotation state; the piece takes the new pose only when
      it does not collide there. */
  function KeyStep(g: Grid, k: Kind, p: Pose, key: Key): (q: Pose)
    requires p.rotation < NumStates(k)
    ensures q.rotation < NumStates(k)
    ensures q == p || !Collides(g, Width, MaskOf(k, q.rotation), q.x, q.y)
    ensures q.y == p.y || (key == Down && q.y == p.y + 1)
  {
    var target := match key
      case Down => p.(y := p.y + 1)
      case Left => p.(x := p.x - 1)
      case Right => p.(x := p.x + 1)
      case Space => p.(rotation := NextRotation(k, p.rotation))
      case Other => p;
    if Collides(g, Width, MaskOf(k, target.rotation), target.x, target.y) then p else target
  }

  /** The key events of one frame, applied in order. A piece that fits where
      it starts still fits after them, and it never moves up. */
  function ApplyKeys(g: Grid, k: Kind, p: Pose, keys: seq<Key>): (q: Pose)
    requires p.rotation < NumStates(k)
    ensures q.rotation < NumStates(k)
    ensures !Collides(g, Width, MaskOf(k, p.rotation), p.x, p.y) ==>
              !Collides(g, Width, MaskOf(k, q.rotation), q.x, q.y)
    ensures q.y >= p.y
    decreases |keys|
  {
    if keys == [] then p
    else KeyStep(g, k, ApplyKeys(g, k, p, keys[..|keys| - 1]), keys[|keys| - 1])
  }

  /** `new_tetromino`: a piece of the given kind, unrotated, at column
      `width // 2` of the top row. */
  method NewTetromino(width: nat, kind: Kind) returns (t: Tetromino)
    ensures fresh(t) && t.Valid()
    ensures t.x == width / 2 && t.y == 0 && t.kind == kind && t.rotation == 0
  {
    t := new Tetromino(width / 2, 0, kind);
  }

  /** No row of the grid is full. */
  predicate NoFullRow(g: Grid)
  {
    forall r :: 0 <= r < |g| ==> !IsFull(g[r])
  }

  /** The board a session starts with: no full row and an empty top row. */
  lemma EmptyGridFacts()
    ensures NoFullRow(EmptyGrid(Width, Height))
    ensures EmptyGrid(Width, Height)[0] == ZeroRow(Width)
  {
    var g := EmptyGrid(Width, Height);
    forall r | 0 <= r < |g| ensures !IsFull(g[r]) {
      assert g[r][0] == 0;
    }
  }

  /** Writing a piece that fits into a session board and clearing the full
      rows gives a session board again: the 0/1 cells, no full row and an
      empty top row. */
  lemma LockedBoard(g: Grid, m: Mask, x: int, y: int)
    requires Rect(g, Width, Height) && Binary(g) && g[0] == ZeroRow(Width)
    requires WellFormed(m) && y >= 0 && !Collides(g, Width, m, x, y)
    ensures InBounds(m, x, y, Width, Height)
    ensures var c := Cleared(Stamp(g, m, x, y), Width);
            Rect(c, Width, Height) && Binary(c) && NoFullRow(c) && c[0] == ZeroRow(Width)
  {
    FreePlacement(g, Width, m, x, y);
    var placed := Stamp(g, m, x, y);
    StampCells(g, m, x, y, Width, Height);
    forall j | true ensures !Occupied(m, 0, j) {
      TopRowEmpty(m, j);
    }
    StampKeepsTopRow(g, m, x, y, Width);
    ClearedShape(placed, Width, Height);
    ClearedHasNoFullRow(placed, Width);
    ClearedKeepsTopRow(placed, Width);
  }

  class Session {
    var board: GameBoard
    var current: Tetromino
    var next: Tetromino
    var score: nat
    var fallTime: int
    var gameOver: bool
    /** The number of rows cleared since the session (re)started. */
    ghost var totalLines: nat

    /** The state between two frames. While the game runs, the falling piece
        overlaps no settled cell and stays inside the board; no row is full,
        since every lock clears the full rows; the top row stays empty, since
        pieces spawn at row 0 with an empty first mask row and only move down. */
    ghost predicate Valid()
      reads this, board, current, next
    {
      Stable() &&
      (!gameOver ==> !board.IsCollision(current, current.x, current.y, current.rotation))
    }

    /** `Valid` without its condition on the falling piece: what holds between
        writing a landed piece into the board and promoting the next one. */
    ghost predicate Stable()
      reads this, board, current, next
    {
      board.Valid() && board.width == Width && board.height == Height &&
      current.Valid() && next.Valid() && current != next &&
      current.y >= 0 &&
      next.x == Width / 2 && next.y == 0 && next.rotation == 0 &&
      score == LinePoints * totalLines &&
      NoFullRow(board.grid) && board.grid[0] == ZeroRow(Width)
    }

    /** The falling piece's pose. */
    ghost function CurrentPose(): Pose
      reads this, current
    {
      Pose(current.x, current.y, current.rotation)
    }

    /** The falling piece cannot move one row down. */
    ghost predicate Landed()
      reads this, board, current
      requires current.Valid()
    {
      board.IsCollision(current, current.x, current.y + 1, current.rotation)
    }

    /** The set-up before the main loop: an empty 15x20 board, two new
        pieces, score 0 and fall time 0. */
    constructor (first: Kind, second: Kind)
      ensures Valid() && !gameOver
      ensures board.grid == EmptyGrid(Width, Height) && score == 0 && fallTime == 0
      ensures current.kind == first && current.x == Width / 2 && current.y == 0 && current.rotation == 0
      ensures next.kind == second
    {
      var c := NewTetromino(Width, first);
      var n := NewTetromino(Width, second);
      board := new GameBoard(Width, Height);
      current := c;
      next := n;
      score := 0;
      totalLines := 0;
      fallTime := 0;
      gameOver := false;
      SpawnFits(first);
      EmptyGridFacts();
    }

    /** K_LEFT: one column left, unless the piece would collide there. */
    method MoveLeft()
      requires Valid() && !gameOver
      modifies current
      ensures Valid()
      ensures current.y == old(current.y) && current.rotation == old(current.rotation)
      ensures current.x == if board.IsCollision(current, old(current.x) - 1, current.y, current.rotation)
                           then old(current.x) else old(current.x) - 1
      ensures CurrentPose() == KeyStep(board.grid, current.kind, old(CurrentPose()), Left)
    {
      if !board.IsCollision(current, current.x - 1, current.y, current.rotation) {
        current.x := current.x - 1;
      }
    }

    /** K_RIGHT: one column right, unless the piece would collide there. */
    method MoveRight()
      requires Valid() && !gameOver
      modifies current
      ensures Valid()
      ensures current.y == old(current.y) && current.rotation == old(current.rotation)
      ensures current.x == if board.IsCollision(current, old(current.x) + 1, current.y, current.rotation)
                           then old(current.x) else old(current.x) + 1
      ensures CurrentPose() == KeyStep(board.grid, current.kind, old(CurrentPose()), Right)
    {
      if !board.IsCollision(current, current.x + 1, current.y, current.rotation) {
        current.x := current.x + 1;
      }
    }

    /** K_DOWN: one row down, unless the piece would collide there. */
    method SoftDrop()
      requires Valid() && !gameOver
      modifies current
      ensures Valid()
      ensures current.x == old(current.x) && current.rotation == old(current.rotation)
      ensures current.y == if old(Landed()) then old(current.y) else old(current.y) + 1
      ensures CurrentPose() == KeyStep(board.grid, current.kind, old(CurrentPose()), Down)
    {
      if !board.IsCollision(current, current.x, current.y + 1, current.rotation) {
        current.y := current.y + 1;
      }
    }

    /** K_SPACE: the next rotation state, unless the piece would collide in it. */
    method RotatePiece()
      requires Valid() && !gameOver
      modifies current
      ensures Valid()
      ensures current.x == old(current.x) && current.y == old(current.y)
      ensures var r := NextRotation(current.kind, old(current.rotation));
              current.rotation == if board.IsCollision(current, current.x, current.y, r)
                                  then old(current.rotation) else r
      ensures CurrentPose() == KeyStep(board.grid, current.kind, old(CurrentPose()), Space)
    {
      var r := NextRotation(current.kind, current.rotation);
      if !board.IsCollision(current, current.x, current.y, r) {
        current.rotation := r;
      }
    }

    /** One KEYDOWN event. Only the falling piece changes. */
    method HandleKey(key: Key)
      requires Valid() && !gameOver
      modifies current
      ensures Valid()
      ensures CurrentPose() == KeyStep(board.grid, current.kind, old(CurrentPose()), key)
      ensures key == Other ==> unchanged(current)
    {
      match key {
        case Down => SoftDrop();
        case Left => MoveLeft();
        case Right => MoveRight();
        case Space => RotatePiece();
        case Other =>
      }
    }

    /** The first half of a lock: `place_tetromino`, `clear_lines` and the
        score update. */
    method Settle() returns (cleared: nat)
      requires Valid() && !gameOver
      modifies board, this`score, this`totalLines
      ensures Stable() && !gameOver
      ensures var placed := Stamp(old(board.grid), current.Shape(), current.x, current.y);
              board.grid == Cleared(placed, Width) && cleared == |FullRows(placed, Height)|
      ensures totalLines == old(totalLines) + cleared && score == LinePoints * totalLines
      ensures score == old(score) + LinePoints * cleared
    {
      LockedBoard(board.grid, current.Shape(), current.x, current.y);
      board.PlaceTetromino(current);
      cleared := board.ClearLines();
      score := score + LinePoints * cleared;
      totalLines := totalLines + cleared;
    }

    /** The second half of a lock: the next piece becomes the falling one, a
        new next piece of kind `spawn` is made, the game is over when the new
        falling piece collides where it spawns, and the fall timer is reset. */
    method Promote(now: int, spawn: Kind)
      requires Stable()
      modifies this
      ensures Valid() && board == old(board) && score == old(score)
      ensures current == old(next) && fresh(next) && next.kind == spawn
      ensures gameOver <==> board.IsCollision(current, current.x, current.y, current.rotation)
      ensures fallTime == now
    {
      current := next;
      next := NewTetromino(board.width, spawn);
      gameOver := board.IsCollision(current, current.x, current.y, current.rotation);
      fallTime := now;
    }

    /** The `else` branch of the gravity step: the landed piece is written
        into the board, full rows are cleared and scored, the next piece
        becomes the falling one and a new next piece of kind `spawn` is
        made. The game is over when the new falling piece collides where it
        spawns. The fall timer is reset to `now`. */
    method Lock(now: int, spawn: Kind) returns (cleared: nat)
      requires Valid() && !gameOver
      modifies this, board
      ensures Valid() && board == old(board)
      ensures var placed := Stamp(old(board.grid), old(current.Shape()), old(current.x), old(current.y));
              board.grid == Cleared(placed, Width) && cleared == |FullRows(placed, Height)|
      ensures score == old(score) + LinePoints * cleared
      ensures current == old(next) && fresh(next) && next.kind == spawn
      ensures gameOver <==> board.IsCollision(current, current.x, current.y, current.rotation)
      ensures fallTime == now
    {
      cleared := Settle();
      Promote(now, spawn);
    }

    /** The state the gravity step leaves, from grid `g0`, score `s0`, fall
        time `f0`, falling piece `c0` at pose `p` and next piece `n0`:
        - no more than `FallSpeed` milliseconds since the last lock: nothing changes;
        - otherwise, when the row below is free: the piece falls one row, and
          the fall timer is left alone;
        - otherwise the piece locks: the grid is the placed grid with its full
          rows cleared, the score grows by 100 per cleared row, `n0` becomes
          the falling piece, the new next piece has kind `spawn`, the timer is
          `now`, and the game is over exactly when the new falling piece
          collides where it spawns. */
    ghost predicate TickOutcome(g0: Grid, s0: nat, f0: int, c0: Tetromino, n0: Tetromino,
                                p: Pose, now: int, spawn: Kind)
      reads this, board, current, next
      requires |g0| == Height && p.rotation < NumStates(c0.kind)
    {
      var m := MaskOf(c0.kind, p.rotation);
      if now - f0 <= FallSpeed then
        current == c0 && CurrentPose() == p && board.grid == g0 &&
        score == s0 && next == n0 && fallTime == f0 && !gameOver
      else if !Collides(g0, Width, m, p.x, p.y + 1) then
        current == c0 && CurrentPose() == p.(y := p.y + 1) && board.grid == g0 &&
        score == s0 && next == n0 && fallTime == f0 && !gameOver
      else
        var placed := Stamp(g0, m, p.x, p.y);
        board.grid == Cleared(placed, Width) &&
        score == s0 + LinePoints * |FullRows(placed, Height)| &&
        current == n0 && next.kind == spawn && fallTime == now && current.Valid() &&
        (gameOver <==> board.IsCollision(current, current.x, current.y, current.rotation))
    }

    /** The gravity step, run when more than `FallSpeed` milliseconds have
        passed since the last lock: the piece falls one row if it can, and
        locks otherwise. The fall timer is reset only by a lock. */
    method Tick(now: int, spawn: Kind)
      requires Valid() && !gameOver
      modifies this, board, current
      ensures Valid() && board == old(board) && score >= old(score)
      ensures TickOutcome(old(board.grid), old(score), old(fallTime), old(current), old(next),
                          old(CurrentPose()), now, spawn)
      ensures now - old(fallTime) > FallSpeed && old(Landed()) ==> fresh(next)
    {
      ghost var g0, s0, f0, c0, n0, p0 := board.grid, score, fallTime, current, next, CurrentPose();
      if now - fallTime > FallSpeed {
        if !board.IsCollision(current, current.x, current.y + 1, current.rotation) {
          current.y := current.y + 1;
          assert TickOutcome(g0, s0, f0, c0, n0, p0, now, spawn);
        } else {
          ghost var m := MaskOf(c0.kind, p0.rotation);
          assert Collides(g0, Width, m, p0.x, p0.y + 1) && current.Shape() == m;
          var _ := Lock(now, spawn);
          assert TickOutcome(g0, s0, f0, c0, n0, p0, now, spawn);
        }
      } else {
        assert TickOutcome(g0, s0, f0, c0, n0, p0, now, spawn);
      }
    }

    /** One pass of the main loop while the game runs: the key events in
        order, then the gravity step at the pose they leave the piece in. */
    method Frame(now: int, keys: seq<Key>, spawn: Kind)
      requires Valid() && !gameOver
      modifies this, board, current
      ensures Valid() && board == old(board) && score >= old(score)
      ensures var p := ApplyKeys(old(board.grid), old(current.kind), old(CurrentPose()), keys);
              TickOutcome(old(board.grid), old(score), old(fallTime), old(current), old(next), p, now, spawn)
    {
      ghost var g0, s0, f0, c0, n0, p0 := board.grid, score, fallTime, current, next, CurrentPose();
      HandleKeys(keys);
      ghost var p := CurrentPose();
      assert p == ApplyKeys(g0, c0.kind, p0, keys);
      assert board.grid == g0 && score == s0 && fallTime == f0 && current == c0 && next == n0;
      Tick(now, spawn);
      assert TickOutcome(g0, s0, f0, c0, n0, p, now, spawn);
    }

    /** The KEYDOWN events of one frame, handled in order. */
    method HandleKeys(keys: seq<Key>)
      requires Valid() && !gameOver
      modifies current
      ensures Valid()
      ensures CurrentPose() == ApplyKeys(board.grid, current.kind, old(CurrentPose()), keys)
    {
      ghost var p0, g0 := CurrentPose(), board.grid;
      var i := 0;
      while i < |keys|
        invariant 0 <= i <= |keys|
        invariant Valid() && !gameOver && board.grid == g0
        invariant CurrentPose() == ApplyKeys(g0, current.kind, p0, keys[..i])
      {
        HandleKey(keys[i]);
        assert keys[..i + 1][..i] == keys[..i];
        i := i + 1;
      }
      assert keys[..i] == keys;
    }

    /** K_RETURN on the game-over screen: a new empty board, two new pieces
        and score 0. The loop's `fall_time = 0` here is overwritten by the
        `fall_time = current_time` that follows, which the lock has already
        done, so the fall time is left as it is. */
    method Restart(first: Kind, second: Kind)
      requires Valid() && gameOver
      modifies this
      ensures Valid() && !gameOver
      ensures fresh(board) && board.grid == EmptyGrid(Width, Height) && score == 0
      ensures fresh(current) && current.kind == first && current.x == Width / 2 && current.y == 0 && current.rotation == 0
      ensures fresh(next) && next.kind == second
      ensures fallTime == old(fallTime)
    {
      var b := new GameBoard(Width, Height);
      var c := NewTetromino(b.width, first);
      var n := NewTetromino(b.width, second);
      SpawnFits(first);
      EmptyGridFacts();
      board, current, next := b, c, n;
      score, totalLines, gameOver := 0, 0, false;
    }
  }

  /** While the game runs, every 'O' cell of the falling piece is on the
      board, over an empty cell. */
  lemma PieceOnBoard(s: Session)
    requires s.Valid() && !s.gameOver
    ensures InBounds(s.current.Shape(), s.current.x, s.current.y, Width, Height)
    ensures forall i, j :: Occupied(s.current.Shape(), i, j) ==>
              s.board.grid[s.current.y + i][s.current.x + j] == 0
  {
    FreePlacement(s.board.grid, Width, s.current.Shape(), s.current.x, s.current.y);
  }

  /** Between frames every row of the board holds an empty cell. */
  lemma EveryRowHasGap(s: Session)
    requires s.Valid()
    ensures forall r :: 0 <= r < Height ==> 0 in s.board.grid[r]
  {
    forall r | 0 <= r < Height ensures 0 in s.board.grid[r] {
      assert !IsFull(s.board.grid[r]);
    }
  }

  /** The score is always a whole number of 100-point rows. */
  lemma ScoreIsWholeRows(s: Session)
    requires s.Valid()
    ensures s.score % LinePoints == 0
  {
    assert s.score == 100 * s.totalLines;
  }

  /** `is_game_over` (some cell of the top row is 1) never holds on the board
      of a session: the top row stays empty, and the game ends through the
      spawn collision instead. */
  lemma TopRowCheckNeverFires(s: Session)
    requires s.Valid()
    ensures !s.board.IsGameOver()
  {
  }
}
