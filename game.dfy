/** The board of the game: the settled grid, the falling piece and the flags, driven by key
    presses and timer ticks. Every operation is proved to turn the board's state into the
    state that the matching function of Steps computes, and to keep the invariant. */
module Game {
  import opened Tetrominoes
  import opened Shapes
  import opened Grid
  import opened Steps

  class Board {
    /** The settled cells, row by row from the bottom; clearBoard appends to it. */
    var board: seq<Tetrominoe>
    var curPiece: Shape
    var curX: int
    var curY: int
    var numLinesRemoved: nat
    var isStarted: bool
    var isPaused: bool
    var isWaitingAfterLine: bool
    /** Whether the drop timer is running. */
    var timerRunning: bool
    /** The messages sent to the status bar so far. */
    ghost var log: seq<Status>

    ghost function State(): Snapshot
      reads this
    {
      Snapshot(board, curPiece, curX, curY, numLinesRemoved,
               isWaitingAfterLine, isStarted, isPaused, timerRunning, log)
    }

    ghost predicate Valid()
      reads this
    {
      Inv(State())
    }

    /** initBoard: flags off, counters at zero, one block of 220 empty cells. */
    constructor ()
      ensures State() == Initial() && Valid()
    {
      timerRunning := false;
      isWaitingAfterLine := false;
      curX := 0;
      curY := 0;
      numLinesRemoved := 0;
      board := [];
      isStarted := false;
      isPaused := false;
      curPiece := NewShape(NoShape);
      log := [];
      new;
      ClearBoard();
      assert [] + Blank(CELLS) == Blank(CELLS);
    }

    function ShapeAt(x: int, y: int): Tetrominoe
      reads this
      requires 0 <= Index(x, y) < |board|
    {
      board[Index(x, y)]
    }

    method SetShapeAt(x: int, y: int, shape: Tetrominoe)
      requires 0 <= Index(x, y) < |board|
      modifies this`board
      ensures board == old(board)[Index(x, y) := shape]
    {
      board := board[Index(x, y) := shape];
    }

    /** Appends 220 empty cells; the cells already there are kept. */
    method ClearBoard()
      modifies this`board
      ensures board == old(board) + Blank(CELLS)
    {
      for i := 0 to CELLS
        invariant board == old(board) + Blank(i)
      {
        assert Blank(i + 1) == Blank(i) + [NoShape];
        board := board + [NoShape];
      }
    }

    // -------------------------------------------------------------------------------------
    // The operations

    /** start: nothing while paused. Otherwise the flags are reset, the count is zeroed and
        sent, 220 more empty cells are appended, the first piece spawns (or the game ends
        at once) and the timer starts. */
    method Start(next: Tetrominoe)
      requires Valid() && next != NoShape
      modifies this`board, this`curPiece, this`curX, this`curY, this`numLinesRemoved,
               this`isStarted, this`isWaitingAfterLine, this`timerRunning, this`log
      ensures State() == StartGame(old(State()), next) && Valid()
    {
      ghost var s0 := State();
      StartKeepsInv(s0, next);
      if isPaused {
        return;
      }
      isStarted := true;
      isWaitingAfterLine := false;
      numLinesRemoved := 0;
      ClearBoard();
      log := log + [Count(numLinesRemoved)];
      NewPiece(next);
      timerRunning := true;
    }

    /** pause: nothing when not started; otherwise the flag flips, and either the timer stops
        and "paused" is sent, or the timer restarts and the count is sent. */
    method Pause()
      requires Valid()
      modifies this`isPaused, this`timerRunning, this`log
      ensures State() == Toggle(old(State())) && Valid()
    {
      ToggleKeepsInv(State());
      if !isStarted {
        return;
      }
      isPaused := !isPaused;
      if isPaused {
        timerRunning := false;
        log := log + [Paused];
      } else {
        timerRunning := true;
        log := log + [Count(numLinesRemoved)];
      }
    }

    /** keyPressEvent: ignored unless a game runs with a live piece; P toggles the pause;
        while paused every other key is ignored; otherwise the arrows move or turn the piece
        (Down turns right, Up turns left), Space drops it and D steps it down. */
    method KeyPressEvent(key: Key, next: Tetrominoe)
      requires Valid() && next != NoShape
      modifies this`board, this`curPiece, this`curX, this`curY, this`numLinesRemoved,
               this`isStarted, this`isPaused, this`isWaitingAfterLine, this`timerRunning, this`log
      ensures State() == KeyPress(old(State()), key, next) && Valid()
    {
      ghost var s0 := State();
      KeyPressKeepsInv(s0, key, next);
      if !isStarted || curPiece.kind == NoShape {
        return;
      }
      if key == KeyP {
        Pause();
        return;
      }
      if isPaused {
        return;
      }
      assert KeyPress(s0, key, next) == Act(s0, key, next);
      match key {
        case KeyLeft =>
          var _ := TryMove(curPiece, curX - 1, curY);
        case KeyRight =>
          var _ := TryMove(curPiece, curX + 1, curY);
        case KeyDown =>
          var _ := TryMove(RotateRight(curPiece), curX, curY);
        case KeyUp =>
          var _ := TryMove(RotateLeft(curPiece), curX, curY);
        case KeySpace =>
          DropDown(next);
        case KeyD =>
          OneLineDown(next);
        case OtherKey =>
      }
    }

    /** timerEvent for the board's own timer, which arrives only while the timer runs: a
        waiting spawn happens now, otherwise the piece steps down. */
    method TimerEvent(next: Tetrominoe)
      requires Valid() && timerRunning && next != NoShape
      modifies this`board, this`curPiece, this`curX, this`curY, this`numLinesRemoved,
               this`isStarted, this`isWaitingAfterLine, this`timerRunning, this`log
      ensures State() == Tick(old(State()), next) && Valid()
    {
      ghost var s0 := State();
      TickKeepsInv(s0, next);
      if isWaitingAfterLine {
        isWaitingAfterLine := false;
        NewPiece(next);
      } else {
        OneLineDown(next);
      }
    }

    /** The loop of dropDown: move down one row at a time while the move succeeds and the
        anchor is above row 0. */
    method FallToLanding()
      requires |board| >= CELLS
      modifies this`curPiece, this`curX, this`curY
      ensures State() == old(State()).(y := LandingY(board, curPiece, curX, old(curY)))
    {
      ghost var landing := LandingY(board, curPiece, curX, curY);
      var newY := curY;
      while newY > 0
        invariant newY == curY
        invariant curPiece == old(curPiece) && curX == old(curX)
        invariant LandingY(board, curPiece, curX, curY) == landing
        decreases newY
      {
        var ok := TryMove(curPiece, curX, newY - 1);
        if !ok {
          break;
        }
        newY := newY - 1;
      }
    }

    /** dropDown: the piece falls to its landing row and is dropped there. */
    method DropDown(next: Tetrominoe)
      requires |board| >= CELLS + BOARD_WIDTH && PieceInBounds(curPiece, curX, curY)
      requires next != NoShape
      modifies this`board, this`curPiece, this`curX, this`curY, this`numLinesRemoved,
               this`isStarted, this`isWaitingAfterLine, this`timerRunning, this`log
      ensures State() == HardDrop(old(State()), next)
    {
      FallToLanding();
      PieceDropped(next);
    }

    /** oneLineDown: one row down if the piece fits there, dropped where it is otherwise. */
    method OneLineDown(next: Tetrominoe)
      requires |board| >= CELLS + BOARD_WIDTH && PieceInBounds(curPiece, curX, curY)
      requires next != NoShape
      modifies this`board, this`curPiece, this`curX, this`curY, this`numLinesRemoved,
               this`isStarted, this`isWaitingAfterLine, this`timerRunning, this`log
      ensures State() == StepDown(old(State()), next)
    {
      var ok := TryMove(curPiece, curX, curY - 1);
      if !ok {
        PieceDropped(next);
      }
    }

    /** The first half of pieceDropped: the kind of the falling piece written into each of
        its four cells. */
    method PlacePiece()
      requires |board| >= CELLS && PieceInBounds(curPiece, curX, curY)
      modifies this`board
      ensures State() == Place(old(State()))
    {
      for i := 0 to 4
        invariant board == Stamp(old(board), curPiece, curX, curY, i)
      {
        var x := curX + curPiece.coords[i].x;
        var y := curY - curPiece.coords[i].y;
        assert InBounds(CellX(curPiece, curX, i), CellY(curPiece, curY, i));
        IndexIsOneToOne(x, y, 0, 0);
        SetShapeAt(x, y, curPiece.kind);
      }
    }

    /** pieceDropped: place the piece, clear full rows, and spawn the next piece unless a
        spawn now waits for the next tick. */
    method PieceDropped(next: Tetrominoe)
      requires |board| >= CELLS + BOARD_WIDTH && PieceInBounds(curPiece, curX, curY)
      requires next != NoShape
      modifies this`board, this`curPiece, this`curX, this`curY, this`numLinesRemoved,
               this`isStarted, this`isWaitingAfterLine, this`timerRunning, this`log
      ensures State() == Drop(old(State()), next)
    {
      PlacePiece();
      RemoveFullLines();
      if !isWaitingAfterLine {
        NewPiece(next);
      }
    }

    /** The inner loop of the count: how many of the ten cells of row i are occupied. */
    method CountFilled(i: int) returns (n: int)
      requires |board| >= CELLS && 0 <= i < BOARD_HEIGHT
      ensures n == Filled(Rows(board)[i])
    {
      ghost var row := board[i * BOARD_WIDTH .. i * BOARD_WIDTH + BOARD_WIDTH];
      n := 0;
      for j := 0 to BOARD_WIDTH
        invariant n == Filled(row[..j])
      {
        assert row[..j + 1][..j] == row[..j];
        assert row[j] == ShapeAt(j, i);
        if ShapeAt(j, i) != NoShape {
          n := n + 1;
        }
      }
      assert row[..BOARD_WIDTH] == row;
    }

    /** The counting half of removeFullLines: the rows, bottom up, whose ten cells are all
        occupied. */
    method FullRowIndices() returns (rowsToRemove: seq<int>)
      requires |board| >= CELLS
      ensures rowsToRemove == FullRows(Rows(board))
    {
      ghost var rs := Rows(board);
      rowsToRemove := [];
      for i := 0 to BOARD_HEIGHT
        invariant rowsToRemove == FullRows(rs[..i])
      {
        var n := CountFilled(i);
        FilledAllIffFull(rs[i]);
        assert rs[..i + 1][..i] == rs[..i];
        if n == 10 {
          rowsToRemove := rowsToRemove + [i];
        }
      }
      assert rs[..BOARD_HEIGHT] == rs;
    }

    /** One pass of the shifting half of removeFullLines: every cell of rows m to 21 takes
        the value of the cell above it. */
    method ShiftRowsDown(m: int)
      requires |board| >= CELLS + BOARD_WIDTH && 0 <= m < BOARD_HEIGHT
      modifies this`board
      ensures board == ShiftDown(old(board), m)
    {
      ghost var g := board;
      assert ShiftedBelow(g, m, 10 * m) == g;
      for k := m to BOARD_HEIGHT
        invariant board == ShiftedBelow(g, m, 10 * k)
      {
        for l := 0 to BOARD_WIDTH
          invariant board == ShiftedBelow(g, m, 10 * k + l)
        {
          SetShapeAt(l, k, ShapeAt(l, k + 1));
          assert board == ShiftedBelow(g, m, 10 * k + l + 1);
        }
      }
      assert board == ShiftDown(g, m);
    }

    /** The removing half of removeFullLines: one shift pass per listed row, in list order. */
    method ShiftOutRows(rows: seq<int>)
      requires |board| >= CELLS + BOARD_WIDTH
      requires forall j :: 0 <= j < |rows| ==> 0 <= rows[j] < BOARD_HEIGHT
      modifies this`board
      ensures board == RemovalFlat(old(board), rows)
    {
      ghost var g0 := board;
      for idx := 0 to |rows|
        invariant |board| == |g0|
        invariant RemovalFlat(board, rows[idx..]) == RemovalFlat(g0, rows)
      {
        assert rows[idx..][0] == rows[idx];
        assert rows[idx..][1..] == rows[idx + 1..];
        ShiftRowsDown(rows[idx]);
      }
      assert rows[|rows|..] == [];
    }

    /** removeFullLines: find the full rows and remove them from the highest down, each pass
        moving every row above the removed one a row lower; then, if any row went, raise the
        count, send it, drop the piece and make the next spawn wait for a tick. */
    method RemoveFullLines()
      requires |board| >= CELLS + BOARD_WIDTH
      modifies this`board, this`numLinesRemoved, this`log, this`isWaitingAfterLine, this`curPiece
      ensures State() == ClearLines(old(State()))
    {
      ghost var g0 := board;
      var numFullLines := 0;
      var rowsToRemove := FullRowIndices();
      rowsToRemove := Reverse(rowsToRemove);
      ShiftOutRows(rowsToRemove);
      assert board == Cleared(g0) && |rowsToRemove| == |FullRows(Rows(g0))|;

      numFullLines := numFullLines + |rowsToRemove|;
      if numFullLines > 0 {
        numLinesRemoved := numLinesRemoved + numFullLines;
        log := log + [Count(numLinesRemoved)];
        isWaitingAfterLine := true;
        curPiece := NewShape(NoShape);
      }
    }

    /** The row newPiece puts a new piece on: the top row plus the piece's least y offset. */
    static method SpawnRow(k: Tetrominoe) returns (y: int)
      ensures y == SpawnY(k)
    {
      var minY := MinY(NewShape(k));
      SpawnYIsMin(k);
      y := BOARD_HEIGHT - 1 + minY;
    }

    /** newPiece: a piece of the drawn kind at column 6, its least y offset below the top
        row; if it does not fit there the game is over. */
    method NewPiece(next: Tetrominoe)
      requires |board| >= CELLS && next != NoShape
      modifies this`curPiece, this`curX, this`curY, this`isStarted, this`timerRunning, this`log
      ensures State() == Spawn(old(State()), next)
    {
      curPiece := NewShape(next);
      curX := SPAWN_X;
      curY := SpawnRow(next);
      var ok := TryMove(curPiece, curX, curY);
      if !ok {
        curPiece := NewShape(NoShape);
        timerRunning := false;
        isStarted := false;
        log := log + [GameOver];
      }
    }

    /** tryMove: the only legality test. The move to piece p at (x, y) is made exactly when
        all four cells are on the board and empty; otherwise nothing changes. */
    method TryMove(newPiece: Shape, newX: int, newY: int) returns (ok: bool)
      requires |board| >= CELLS
      modifies this`curPiece, this`curX, this`curY
      ensures ok == Fits(board, newPiece, newX, newY)
      ensures State() == Move(old(State()), newPiece, newX, newY)
    {
      for i := 0 to 4
        invariant curPiece == old(curPiece) && curX == old(curX) && curY == old(curY)
        invariant forall j :: 0 <= j < i ==> CellFree(board, CellX(newPiece, newX, j), CellY(newPiece, newY, j))
      {
        var x := newX + newPiece.coords[i].x;
        var y := newY - newPiece.coords[i].y;
        if x < 0 || x >= BOARD_WIDTH || y < 0 || y >= BOARD_HEIGHT {
          assert !CellFree(board, CellX(newPiece, newX, i), CellY(newPiece, newY, i));
          return false;
        }
        IndexIsOneToOne(x, y, 0, 0);
        if ShapeAt(x, y) != NoShape {
          assert !CellFree(board, CellX(newPiece, newX, i), CellY(newPiece, newY, i));
          return false;
        }
      }
      curPiece := newPiece;
      curX := newX;
      curY := newY;
      return true;
    }
  }

  /** The main window's set-up: a new board, started once with the first drawn kind. The
      list then holds 440 empty cells and the first piece is live at its spawn position. */
  method NewGame(next: Tetrominoe) returns (b: Board)
    requires next != NoShape
    ensures fresh(b) && b.State() == StartGame(Initial(), next) && b.Valid()
    ensures b.board == Blank(2 * CELLS) && b.isStarted && b.timerRunning && !b.isWaitingAfterLine
    ensures b.curPiece == NewShape(next) && b.curX == SPAWN_X && b.curY == SpawnY(next)
  {
    b := new Board();
    b.Start(next);
    FirstPieceIsLive(next);
  }
}
