/** The board's transitions as functions of its state: what each key press, timer tick and
    lifecycle call turns a board state into, and the facts proved about them. */
module Steps {
  import opened Tetrominoes
  import opened Shapes
  import opened Grid

  /** The messages the board sends to the status bar. */
  datatype Status = Count(lines: int) | Paused | GameOver

  /** The keys the board reacts to, and every other key. */
  datatype Key = KeyP | KeyLeft | KeyRight | KeyDown | KeyUp | KeySpace | KeyD | OtherKey

  /** All of a board's state: the cell list, the falling piece and its anchor, the count of
      removed lines, the four flags, and the messages sent so far. */
  datatype Snapshot = Snapshot(
    board: seq<Tetrominoe>, piece: Shape, x: int, y: int, lines: nat,
    waiting: bool, started: bool, paused: bool, timer: bool, log: seq<Status>)

  // ---------------------------------------------------------------------------------------
  // The invariant

  /** The list holds at least the 220 board cells, and every cell past them is empty. */
  predicate GridOk(g: seq<Tetrominoe>) {
    |g| >= CELLS && forall i :: CELLS <= i < |g| ==> g[i] == NoShape
  }

  /** The part of the invariant about the list and the flags. Once start has run the list
      holds a second block of 220 cells, so the row above the board can be read; while paused
      the timer is stopped, and in a started game it runs exactly when the game is not paused. */
  predicate ListAndFlagsOk(s: Snapshot) {
    && GridOk(s.board)
    && ((s.started || s.timer) ==> |s.board| >= 2 * CELLS)
    && (s.paused ==> !s.timer)
    && (s.started ==> (s.timer <==> !s.paused))
  }

  /** What holds between operations: the falling piece has its anchor on the board and, when
      it is live, sits on empty cells; a waiting spawn means there is no live piece. */
  ghost predicate Inv(s: Snapshot) {
    && ListAndFlagsOk(s)
    && WellFormed(s.piece)
    && InBounds(s.x, s.y)
    && (s.piece.kind != NoShape ==> Fits(s.board, s.piece, s.x, s.y))
    && (s.waiting ==> s.piece.kind == NoShape)
  }

  // ---------------------------------------------------------------------------------------
  // The transitions

  /** initBoard: flags off, counters at zero, a NoShape piece, and 220 empty cells. */
  function Initial(): Snapshot {
    Snapshot(Blank(CELLS), NewShape(NoShape), 0, 0, 0, false, false, false, false, [])
  }

  /** newPiece with the drawn kind k: the new piece at column 6 with its least y offset
      below the top row; if it does not fit there, the piece becomes NoShape, the timer
      stops, the game ends and "Game over" is sent. */
  function Spawn(s: Snapshot, k: Tetrominoe): (r: Snapshot)
    requires |s.board| >= CELLS
    ensures r.board == s.board && r.lines == s.lines && r.waiting == s.waiting && r.paused == s.paused
  {
    var p := NewShape(k);
    if Fits(s.board, p, SPAWN_X, SpawnY(k)) then s.(piece := p, x := SPAWN_X, y := SpawnY(k))
    else s.(piece := NewShape(NoShape), x := SPAWN_X, y := SpawnY(k),
            timer := false, started := false, log := s.log + [GameOver])
  }

  /** tryMove: the piece p at (x, y) replaces the falling piece exactly when it fits. */
  function Move(s: Snapshot, p: Shape, x: int, y: int): Snapshot
    requires |s.board| >= CELLS
  {
    if Fits(s.board, p, x, y) then s.(piece := p, x := x, y := y) else s
  }

  /** The first half of pieceDropped: the piece's kind written into its four cells. */
  function Place(s: Snapshot): (r: Snapshot)
    requires |s.board| >= CELLS && PieceInBounds(s.piece, s.x, s.y)
    ensures |r.board| == |s.board| && r.lines == s.lines
  {
    s.(board := Placed(s.board, s.piece, s.x, s.y))
  }

  /** removeFullLines: the full rows removed, the count raised by their number, and, when
      there were any, the new count sent, the piece set to NoShape and the spawn deferred. */
  function ClearLines(s: Snapshot): (r: Snapshot)
    requires |s.board| >= CELLS + BOARD_WIDTH
    ensures |r.board| == |s.board| && r.lines >= s.lines
  {
    var n := |FullRows(Rows(s.board))|;
    var s1 := s.(board := Cleared(s.board), lines := s.lines + n);
    if n > 0 then s1.(waiting := true, piece := NewShape(NoShape), log := s1.log + [Count(s1.lines)])
    else s1
  }

  /** pieceDropped: place, clear, and spawn the next piece unless a spawn now waits. */
  function Drop(s: Snapshot, next: Tetrominoe): (r: Snapshot)
    requires |s.board| >= CELLS + BOARD_WIDTH && PieceInBounds(s.piece, s.x, s.y)
    ensures |r.board| == |s.board| && r.lines >= s.lines
  {
    var s2 := ClearLines(Place(s));
    if s2.waiting then s2 else Spawn(s2, next)
  }

  /** dropDown: the piece falls to its landing row and is dropped there. */
  function HardDrop(s: Snapshot, next: Tetrominoe): (r: Snapshot)
    requires |s.board| >= CELLS + BOARD_WIDTH && PieceInBounds(s.piece, s.x, s.y)
    ensures |r.board| == |s.board| && r.lines >= s.lines
  {
    Drop(s.(y := LandingY(s.board, s.piece, s.x, s.y)), next)
  }

  /** oneLineDown: one row down if the piece fits there, dropped where it is otherwise. */
  function StepDown(s: Snapshot, next: Tetrominoe): (r: Snapshot)
    requires |s.board| >= CELLS + BOARD_WIDTH && PieceInBounds(s.piece, s.x, s.y)
    ensures |r.board| == |s.board| && r.lines >= s.lines
  {
    if Fits(s.board, s.piece, s.x, s.y - 1) then s.(y := s.y - 1) else Drop(s, next)
  }

  /** pause: nothing when not started; otherwise the flag flips, and either the timer stops
      and "paused" is sent, or the timer restarts and the count is sent. */
  function Toggle(s: Snapshot): Snapshot {
    if !s.started then s
    else s.(paused := !s.paused, timer := s.paused,
            log := s.log + [if s.paused then Count(s.lines) else Paused])
  }

  /** A timer tick: a waiting spawn happens now, otherwise the piece steps down. */
  function Tick(s: Snapshot, next: Tetrominoe): Snapshot
    requires Inv(s) && s.timer
  {
    LivePieceInBounds(s.board, s.piece, s.x, s.y);
    if s.waiting then Spawn(s.(waiting := false), next) else StepDown(s, next)
  }

  /** What a key does in a running game with a live piece: P toggles the pause, Left and
      Right move, Down turns right, Up turns left, Space drops, D steps down. */
  function Act(s: Snapshot, key: Key, next: Tetrominoe): Snapshot
    requires |s.board| >= CELLS + BOARD_WIDTH && PieceInBounds(s.piece, s.x, s.y)
  {
    match key
    case KeyP => Toggle(s)
    case KeyLeft => Move(s, s.piece, s.x - 1, s.y)
    case KeyRight => Move(s, s.piece, s.x + 1, s.y)
    case KeyDown => Move(s, RotateRight(s.piece), s.x, s.y)
    case KeyUp => Move(s, RotateLeft(s.piece), s.x, s.y)
    case KeySpace => HardDrop(s, next)
    case KeyD => StepDown(s, next)
    case OtherKey => s
  }

  /** keyPressEvent: ignored unless a game runs with a live piece, and while paused every
      key but P is ignored too. */
  function KeyPress(s: Snapshot, key: Key, next: Tetrominoe): Snapshot
    requires Inv(s)
  {
    if !s.started || s.piece.kind == NoShape || (s.paused && key != KeyP) then s
    else
      LivePieceInBounds(s.board, s.piece, s.x, s.y);
      Act(s, key, next)
  }

  /** start: nothing while paused; otherwise the game starts with the count at zero (and
      sent), 220 more empty cells appended, the first piece spawned and the timer running. */
  function StartGame(s: Snapshot, next: Tetrominoe): Snapshot {
    if s.paused then s
    else
      var s1 := s.(started := true, waiting := false, lines := 0,
                   board := s.board + Blank(CELLS), log := s.log + [Count(0)]);
      Spawn(s1, next).(timer := true)
  }

  // ---------------------------------------------------------------------------------------
  // Every transition keeps the invariant

  lemma InitialKeepsInv()
    ensures Inv(Initial()) && |Initial().board| == CELLS
  {
  }

  /** A spawn puts the anchor at the spawn position and keeps the invariant; when a tetromino
      was drawn but the piece is NoShape afterwards, the game is over. */
  lemma SpawnKeepsInv(s: Snapshot, k: Tetrominoe)
    requires ListAndFlagsOk(s) && !s.waiting
    ensures Inv(Spawn(s, k))
    ensures Spawn(s, k).x == SPAWN_X && Spawn(s, k).y == SpawnY(k)
    ensures k != NoShape && Spawn(s, k).piece.kind == NoShape ==> !Spawn(s, k).started
  {
    SpawnTouchesTop(k);
  }

  lemma MoveKeepsInv(s: Snapshot, p: Shape, x: int, y: int)
    requires Inv(s) && WellFormed(p) && !s.waiting
    ensures Inv(Move(s, p, x, y))
  {
    if Fits(s.board, p, x, y) {
      FitsPutsAnchorInBounds(s.board, p, x, y);
    }
  }

  /** Placing a piece and clearing lines keep the list's length and the empty cells past
      the board. */
  lemma PlaceAndClearKeepGrid(s: Snapshot)
    requires GridOk(s.board) && |s.board| >= CELLS + BOARD_WIDTH && PieceInBounds(s.piece, s.x, s.y)
    ensures |ClearLines(Place(s)).board| == |s.board|
    ensures GridOk(ClearLines(Place(s)).board)
  {
    var g1 := Placed(s.board, s.piece, s.x, s.y);
    forall j | CELLS <= j < |g1|
      ensures g1[j] == NoShape
    {
      PlacedCells(s.board, s.piece, s.x, s.y, j);
    }
    ClearedIsCompact(g1);
    var h := Cleared(g1);
    forall j | CELLS <= j < |h|
      ensures h[j] == NoShape
    {
      assert h[j] == h[CELLS..][j - CELLS] == g1[CELLS..][j - CELLS];
    }
  }

  lemma DropKeepsInv(s: Snapshot, next: Tetrominoe)
    requires Inv(s) && |s.board| >= CELLS + BOARD_WIDTH && PieceInBounds(s.piece, s.x, s.y)
    ensures Inv(Drop(s, next))
  {
    PlaceAndClearKeepGrid(s);
    var s2 := ClearLines(Place(s));
    if !s2.waiting {
      SpawnKeepsInv(s2, next);
    }
  }

  /** A piece that fits one row lower may be moved there. */
  lemma LowerKeepsInv(s: Snapshot)
    requires Inv(s) && Fits(s.board, s.piece, s.x, s.y - 1)
    ensures Inv(s.(y := s.y - 1))
  {
    FitsPutsAnchorInBounds(s.board, s.piece, s.x, s.y - 1);
  }

  lemma StepDownKeepsInv(s: Snapshot, next: Tetrominoe)
    requires Inv(s) && |s.board| >= CELLS + BOARD_WIDTH && PieceInBounds(s.piece, s.x, s.y)
    ensures Inv(StepDown(s, next))
  {
    if Fits(s.board, s.piece, s.x, s.y - 1) {
      LowerKeepsInv(s);
      assert StepDown(s, next) == s.(y := s.y - 1);
    } else {
      assert Inv(Drop(s, next)) by {
        DropKeepsInv(s, next);
      }
      assert StepDown(s, next) == Drop(s, next);
    }
  }

  lemma HardDropKeepsInv(s: Snapshot, next: Tetrominoe)
    requires Inv(s) && |s.board| >= CELLS + BOARD_WIDTH && PieceInBounds(s.piece, s.x, s.y)
    ensures Inv(HardDrop(s, next))
  {
    var y' := LandingY(s.board, s.piece, s.x, s.y);
    var s' := s.(y := y');
    assert InBounds(s.x, y') by {
      if s.piece.kind != NoShape {
        if y' < s.y {
          FitsPutsAnchorInBounds(s.board, s.piece, s.x, y');
        }
      } else {
        var i :| 0 <= i < 4 && s.piece.coords[i] == ORIGIN;
        assert InBounds(CellX(s.piece, s.x, i), CellY(s.piece, y', i));
      }
    }
    assert s.piece.kind != NoShape ==> Fits(s.board, s.piece, s.x, y');
    DropKeepsInv(s', next);
  }

  lemma ToggleKeepsInv(s: Snapshot)
    requires Inv(s)
    ensures Inv(Toggle(s))
  {
  }

  lemma TickKeepsInv(s: Snapshot, next: Tetrominoe)
    requires Inv(s) && s.timer
    ensures Inv(Tick(s, next)) && PieceInBounds(s.piece, s.x, s.y)
  {
    LivePieceInBounds(s.board, s.piece, s.x, s.y);
    if s.waiting {
      assert Inv(Spawn(s.(waiting := false), next)) by {
        SpawnKeepsInv(s.(waiting := false), next);
      }
      assert Tick(s, next) == Spawn(s.(waiting := false), next);
    } else {
      assert Inv(StepDown(s, next)) by {
        StepDownKeepsInv(s, next);
      }
      assert Tick(s, next) == StepDown(s, next);
    }
  }

  lemma ActKeepsInv(s: Snapshot, key: Key, next: Tetrominoe)
    requires Inv(s) && |s.board| >= CELLS + BOARD_WIDTH && PieceInBounds(s.piece, s.x, s.y)
    requires !s.waiting
    ensures Inv(Act(s, key, next))
  {
    match key
    case KeyP => KeyPKeepsInv(s, next);
    case KeyLeft => KeyLeftKeepsInv(s, next);
    case KeyRight => KeyRightKeepsInv(s, next);
    case KeyDown => KeyDownKeepsInv(s, next);
    case KeyUp => KeyUpKeepsInv(s, next);
    case KeySpace => KeySpaceKeepsInv(s, next);
    case KeyD => KeyDKeepsInv(s, next);
    case OtherKey =>
  }

  lemma KeyPKeepsInv(s: Snapshot, next: Tetrominoe)
    requires Inv(s) && |s.board| >= CELLS + BOARD_WIDTH && PieceInBounds(s.piece, s.x, s.y)
    requires !s.waiting
    ensures Inv(Act(s, KeyP, next))
  {
    ToggleKeepsInv(s);
    assert Act(s, KeyP, next) == Toggle(s);
  }

  lemma KeyLeftKeepsInv(s: Snapshot, next: Tetrominoe)
    requires Inv(s) && |s.board| >= CELLS + BOARD_WIDTH && PieceInBounds(s.piece, s.x, s.y)
    requires !s.waiting
    ensures Inv(Act(s, KeyLeft, next))
  {
    MoveKeepsInv(s, s.piece, s.x - 1, s.y);
    assert Act(s, KeyLeft, next) == Move(s, s.piece, s.x - 1, s.y);
  }

  lemma KeyRightKeepsInv(s: Snapshot, next: Tetrominoe)
    requires Inv(s) && |s.board| >= CELLS + BOARD_WIDTH && PieceInBounds(s.piece, s.x, s.y)
    requires !s.waiting
    ensures Inv(Act(s, KeyRight, next))
  {
    MoveKeepsInv(s, s.piece, s.x + 1, s.y);
    assert Act(s, KeyRight, next) == Move(s, s.piece, s.x + 1, s.y);
  }

  lemma KeyDownKeepsInv(s: Snapshot, next: Tetrominoe)
    requires Inv(s) && |s.board| >= CELLS + BOARD_WIDTH && PieceInBounds(s.piece, s.x, s.y)
    requires !s.waiting
    ensures Inv(Act(s, KeyDown, next))
  {
    RotationKeepsWellFormed(s.piece);
    MoveKeepsInv(s, RotateRight(s.piece), s.x, s.y);
    assert Act(s, KeyDown, next) == Move(s, RotateRight(s.piece), s.x, s.y);
  }

  lemma KeyUpKeepsInv(s: Snapshot, next: Tetrominoe)
    requires Inv(s) && |s.board| >= CELLS + BOARD_WIDTH && PieceInBounds(s.piece, s.x, s.y)
    requires !s.waiting
    ensures Inv(Act(s, KeyUp, next))
  {
    RotationKeepsWellFormed(s.piece);
    MoveKeepsInv(s, RotateLeft(s.piece), s.x, s.y);
    assert Act(s, KeyUp, next) == Move(s, RotateLeft(s.piece), s.x, s.y);
  }

  lemma KeySpaceKeepsInv(s: Snapshot, next: Tetrominoe)
    requires Inv(s) && |s.board| >= CELLS + BOARD_WIDTH && PieceInBounds(s.piece, s.x, s.y)
    requires !s.waiting
    ensures Inv(Act(s, KeySpace, next))
  {
    HardDropKeepsInv(s, next);
    assert Act(s, KeySpace, next) == HardDrop(s, next);
  }

  lemma KeyDKeepsInv(s: Snapshot, next: Tetrominoe)
    requires Inv(s) && |s.board| >= CELLS + BOARD_WIDTH && PieceInBounds(s.piece, s.x, s.y)
    requires !s.waiting
    ensures Inv(Act(s, KeyD, next))
  {
    StepDownKeepsInv(s, next);
    assert Act(s, KeyD, next) == StepDown(s, next);
  }

  lemma KeyPressKeepsInv(s: Snapshot, key: Key, next: Tetrominoe)
    requires Inv(s)
    ensures Inv(KeyPress(s, key, next)) && PieceInBounds(s.piece, s.x, s.y)
  {
    LivePieceInBounds(s.board, s.piece, s.x, s.y);
    if s.started && s.piece.kind != NoShape && !(s.paused && key != KeyP) {
      assert Inv(Act(s, key, next)) by {
        ActKeepsInv(s, key, next);
      }
      assert KeyPress(s, key, next) == Act(s, key, next);
    } else {
      assert KeyPress(s, key, next) == s;
    }
  }

  lemma StartKeepsInv(s: Snapshot, next: Tetrominoe)
    requires Inv(s)
    ensures Inv(StartGame(s, next))
  {
    if !s.paused {
      var s1 := s.(started := true, waiting := false, lines := 0, timer := true,
                   board := s.board + Blank(CELLS), log := s.log + [Count(0)]);
      assert ListAndFlagsOk(s1);
      assert StartGame(s, next) == Spawn(s1, next).(timer := true);
      SpawnKeepsInv(s1, next);
    }
  }

  // ---------------------------------------------------------------------------------------
  // What the transitions achieve

  /** A drop writes the piece and then removes exactly the full rows: the rows become the
      non-full rows packed down in order under empty rows, the count grows by the number of
      full rows, and the cells past the board are untouched. */
  lemma DropClearsFullRows(s: Snapshot, next: Tetrominoe)
    requires GridOk(s.board) && |s.board| >= CELLS + BOARD_WIDTH && PieceInBounds(s.piece, s.x, s.y)
    ensures var g1 := Placed(s.board, s.piece, s.x, s.y);
            && Rows(Drop(s, next).board) == Compact(Rows(g1))
            && Drop(s, next).board[CELLS..] == s.board[CELLS..]
            && Drop(s, next).lines == s.lines + |FullRows(Rows(g1))|
  {
    var g1 := Placed(s.board, s.piece, s.x, s.y);
    forall j | CELLS <= j < |g1|
      ensures g1[j] == NoShape && g1[j] == s.board[j]
    {
      PlacedCells(s.board, s.piece, s.x, s.y, j);
    }
    assert g1[CELLS..] == s.board[CELLS..];
    ClearedIsCompact(g1);
    var s2 := ClearLines(Place(s));
    assert s2.board == Cleared(g1) && s2.lines == s.lines + |FullRows(Rows(g1))|;
    assert Drop(s, next).board == s2.board && Drop(s, next).lines == s2.lines;
  }

  /** After any drop no row of the board is full. */
  lemma DropLeavesNoFullRow(s: Snapshot, next: Tetrominoe)
    requires GridOk(s.board) && |s.board| >= CELLS + BOARD_WIDTH && PieceInBounds(s.piece, s.x, s.y)
    ensures forall k :: 0 <= k < BOARD_HEIGHT ==> !IsFull(Rows(Drop(s, next).board)[k])
  {
    DropClearsFullRows(s, next);
    CompactHasNoFullRow(Rows(Placed(s.board, s.piece, s.x, s.y)));
  }

  /** From a state with no spawn pending, a drop defers the next spawn exactly when it
      removed a row, and then the piece is NoShape and the new count was sent. */
  lemma DropWaitsIffLinesCleared(s: Snapshot, next: Tetrominoe)
    requires |s.board| >= CELLS + BOARD_WIDTH && PieceInBounds(s.piece, s.x, s.y) && !s.waiting
    ensures var n := |FullRows(Rows(Placed(s.board, s.piece, s.x, s.y)))|;
            && (Drop(s, next).waiting <==> n > 0)
            && (n > 0 ==> Drop(s, next).piece.kind == NoShape
                          && Drop(s, next).log == s.log + [Count(s.lines + n)])
  {
  }

  /** A hard drop ends where the piece cannot move one row lower. */
  lemma HardDropRests(s: Snapshot, next: Tetrominoe)
    requires |s.board| >= CELLS + BOARD_WIDTH && WellFormed(s.piece) && PieceInBounds(s.piece, s.x, s.y)
    ensures var y' := LandingY(s.board, s.piece, s.x, s.y);
            && y' <= s.y && !Fits(s.board, s.piece, s.x, y' - 1)
            && HardDrop(s, next) == Drop(s.(y := y'), next)
  {
    LandingIsResting(s.board, s.piece, s.x, s.y);
  }

  /** A spawn that does not fit ends the game: the timer is stopped, and from then on every
      key is ignored. */
  lemma GameOverIgnoresKeys(s: Snapshot, k: Tetrominoe, key: Key, next: Tetrominoe)
    requires ListAndFlagsOk(s) && !s.waiting && !Fits(s.board, NewShape(k), SPAWN_X, SpawnY(k))
    ensures Inv(Spawn(s, k))
    ensures !Spawn(s, k).timer && !Spawn(s, k).started
    ensures KeyPress(Spawn(s, k), key, next) == Spawn(s, k)
  {
    SpawnKeepsInv(s, k);
  }

  /** Pausing and resuming restores the state, with two more messages sent. */
  lemma PauseTwiceRestores(s: Snapshot)
    requires Inv(s) && s.started
    ensures Toggle(Toggle(s)).(log := s.log) == s
    ensures Toggle(Toggle(s)).log == s.log + (if s.paused then [Count(s.lines), Paused] else [Paused, Count(s.lines)])
  {
  }

  /** A successful move left is undone by a move right. */
  lemma LeftThenRightRestores(s: Snapshot, next: Tetrominoe)
    requires Inv(s) && s.started && !s.paused && s.piece.kind != NoShape
    requires Fits(s.board, s.piece, s.x - 1, s.y)
    ensures Inv(KeyPress(s, KeyLeft, next))
    ensures KeyPress(KeyPress(s, KeyLeft, next), KeyRight, next) == s
  {
    KeyPressKeepsInv(s, KeyLeft, next);
  }

  /** A successful left turn is undone by a right turn (key Up, then key Down). */
  lemma TurnThenTurnBackRestores(s: Snapshot, next: Tetrominoe)
    requires Inv(s) && s.started && !s.paused && s.piece.kind != NoShape
    requires Fits(s.board, RotateLeft(s.piece), s.x, s.y)
    ensures Inv(KeyPress(s, KeyUp, next))
    ensures KeyPress(KeyPress(s, KeyUp, next), KeyDown, next) == s
  {
    KeyPressKeepsInv(s, KeyUp, next);
    RotateLeftThenRight(s.piece);
    RotationKeepsWellFormed(s.piece);
  }

  /** Ticks and key presses never lower the count of removed lines. */
  lemma CountNeverDecreases(s: Snapshot, key: Key, next: Tetrominoe)
    requires Inv(s)
    ensures KeyPress(s, key, next).lines >= s.lines
    ensures s.timer ==> Tick(s, next).lines >= s.lines
  {
  }

  /** On a fresh board the first piece always fits, so a new game never ends at once. */
  lemma FirstPieceIsLive(next: Tetrominoe)
    requires next != NoShape
    ensures var s := StartGame(Initial(), next);
            && Inv(s) && s.board == Blank(2 * CELLS) && s.started && s.timer && !s.waiting
            && s.piece == NewShape(next) && s.x == SPAWN_X && s.y == SpawnY(next)
            && s.lines == 0 && s.log == [Count(0)]
  {
    assert Blank(CELLS) + Blank(CELLS) == Blank(2 * CELLS);
    SpawnFitsOnEmptyGrid(Blank(2 * CELLS), next);
    InitialKeepsInv();
    StartKeepsInv(Initial(), next);
  }
}
