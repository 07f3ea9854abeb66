/** The rules of the settled grid, as functions on its flat cell list: a cell (x, y) is kept at
    index y * BOARD_WIDTH + x, row 0 is the bottom row, and pieces spawn at the top. */
module Grid {
  import opened Tetrominoes
  import opened Shapes

  const BOARD_WIDTH := 10
  const BOARD_HEIGHT := 22
  /** The number of cells clearBoard appends. */
  const CELLS := BOARD_WIDTH * BOARD_HEIGHT

  type Row = seq<Tetrominoe>

  function Index(x: int, y: int): int {
    y * BOARD_WIDTH + x
  }

  predicate InBounds(x: int, y: int) {
    0 <= x < BOARD_WIDTH && 0 <= y < BOARD_HEIGHT
  }

  /** The flat layout places each in-bounds cell at its own index below CELLS. */
  lemma IndexIsOneToOne(x: int, y: int, x': int, y': int)
    requires InBounds(x, y) && InBounds(x', y')
    ensures 0 <= Index(x, y) < CELLS
    ensures Index(x, y) == Index(x', y') <==> x == x' && y == y'
  {
    if y < y' {
      assert Index(x, y) < (y + 1) * BOARD_WIDTH <= Index(x', y');
    } else if y' < y {
      assert Index(x', y') < (y' + 1) * BOARD_WIDTH <= Index(x, y);
    }
  }

  // ---------------------------------------------------------------------------------------
  // Pieces on the grid

  /** The board column and row of the i-th cell of piece p anchored at (x, y); offsets are
      added to x and subtracted from y. */
  function CellX(p: Shape, x: int, i: int): int
    requires 0 <= i < 4
  {
    x + p.coords[i].x
  }

  function CellY(p: Shape, y: int, i: int): int
    requires 0 <= i < 4
  {
    y - p.coords[i].y
  }

  /** The cell is on the board and holds no settled block. */
  predicate CellFree(g: seq<Tetrominoe>, x: int, y: int)
    requires |g| >= CELLS
  {
    InBounds(x, y) && g[Index(x, y)] == NoShape
  }

  /** The legality test of a move: all four cells of p at (x, y) are on the board and empty. */
  predicate Fits(g: seq<Tetrominoe>, p: Shape, x: int, y: int)
    requires |g| >= CELLS
  {
    forall i :: 0 <= i < 4 ==> CellFree(g, CellX(p, x, i), CellY(p, y, i))
  }

  predicate PieceInBounds(p: Shape, x: int, y: int) {
    forall i :: 0 <= i < 4 ==> InBounds(CellX(p, x, i), CellY(p, y, i))
  }

  /** A piece the game can hold (a live piece that fits, or a NoShape piece at an on-board
      anchor) has all four cells on the board. */
  lemma LivePieceInBounds(g: seq<Tetrominoe>, p: Shape, x: int, y: int)
    requires |g| >= CELLS && WellFormed(p) && InBounds(x, y)
    requires p.kind != NoShape ==> Fits(g, p, x, y)
    ensures PieceInBounds(p, x, y)
  {
  }

  /** A piece holding its anchor can fit only with its anchor on the board. */
  lemma FitsPutsAnchorInBounds(g: seq<Tetrominoe>, p: Shape, x: int, y: int)
    requires |g| >= CELLS && WellFormed(p) && Fits(g, p, x, y)
    ensures InBounds(x, y)
  {
    var i :| 0 <= i < 4 && p.coords[i] == ORIGIN;
    assert CellFree(g, CellX(p, x, i), CellY(p, y, i));
  }

  /** Writes the kind of p into its first n cells, one after the other. */
  function Stamp(g: seq<Tetrominoe>, p: Shape, x: int, y: int, n: int): (h: seq<Tetrominoe>)
    requires |g| >= CELLS && PieceInBounds(p, x, y) && 0 <= n <= 4
    ensures |h| == |g|
  {
    if n == 0 then g
    else Stamp(g, p, x, y, n - 1)[Index(CellX(p, x, n - 1), CellY(p, y, n - 1)) := p.kind]
  }

  /** The grid once a landed piece p at (x, y) has been written into it. */
  function Placed(g: seq<Tetrominoe>, p: Shape, x: int, y: int): seq<Tetrominoe>
    requires |g| >= CELLS && PieceInBounds(p, x, y)
  {
    Stamp(g, p, x, y, 4)
  }

  /** True iff index j is one of the first n cells of p at (x, y). */
  predicate AmongCells(p: Shape, x: int, y: int, n: int, j: int)
    requires 0 <= n <= 4
  {
    exists i :: 0 <= i < n && j == Index(CellX(p, x, i), CellY(p, y, i))
  }

  lemma {:induction false} StampCells(g: seq<Tetrominoe>, p: Shape, x: int, y: int, n: int, j: int)
    requires |g| >= CELLS && PieceInBounds(p, x, y) && 0 <= n <= 4 && 0 <= j < |g|
    ensures Stamp(g, p, x, y, n)[j] == if AmongCells(p, x, y, n, j) then p.kind else g[j]
  {
    if n > 0 {
      StampCells(g, p, x, y, n - 1, j);
      var last := Index(CellX(p, x, n - 1), CellY(p, y, n - 1));
      if j != last && AmongCells(p, x, y, n, j) {
        var i :| 0 <= i < n && j == Index(CellX(p, x, i), CellY(p, y, i));
        assert AmongCells(p, x, y, n - 1, j);
      }
    }
  }

  /** Placing a piece writes its kind into exactly its four cells, all below index CELLS, and
      leaves every other cell as it was. */
  lemma PlacedCells(g: seq<Tetrominoe>, p: Shape, x: int, y: int, j: int)
    requires |g| >= CELLS && PieceInBounds(p, x, y) && 0 <= j < |g|
    ensures |Placed(g, p, x, y)| == |g|
    ensures Placed(g, p, x, y)[j] == if AmongCells(p, x, y, 4, j) then p.kind else g[j]
    ensures AmongCells(p, x, y, 4, j) ==> j < CELLS
  {
    StampCells(g, p, x, y, 4, j);
    if AmongCells(p, x, y, 4, j) {
      var i :| 0 <= i < 4 && j == Index(CellX(p, x, i), CellY(p, y, i));
      IndexIsOneToOne(CellX(p, x, i), CellY(p, y, i), 0, 0);
    }
  }

  /** The row a hard drop reaches: keep moving down while the piece fits one row lower and the
      anchor is above row 0. */
  function LandingY(g: seq<Tetrominoe>, p: Shape, x: int, y: int): (y': int)
    requires |g| >= CELLS
    ensures y' <= y
    ensures PieceInBounds(p, x, y) ==> PieceInBounds(p, x, y')
    ensures y' > 0 ==> !Fits(g, p, x, y' - 1)
    ensures forall z :: y' <= z < y ==> Fits(g, p, x, z)
    decreases y
  {
    if y > 0 && Fits(g, p, x, y - 1) then LandingY(g, p, x, y - 1) else y
  }

  /** The anchor of a piece is one of its cells, so the guard "above row 0" never stops a
      drop early: the landing row is always one where the piece cannot move lower. */
  lemma LandingIsResting(g: seq<Tetrominoe>, p: Shape, x: int, y: int)
    requires |g| >= CELLS && WellFormed(p)
    ensures !Fits(g, p, x, LandingY(g, p, x, y) - 1)
  {
    var y' := LandingY(g, p, x, y);
    if y' <= 0 && Fits(g, p, x, y' - 1) {
      FitsPutsAnchorInBounds(g, p, x, y' - 1);
    }
  }

  // ---------------------------------------------------------------------------------------
  // Rows and line clearing

  /** The 22 rows of the grid, from the bottom up. */
  function Rows(g: seq<Tetrominoe>): (rs: seq<Row>)
    requires |g| >= CELLS
    ensures |rs| == BOARD_HEIGHT
  {
    seq(BOARD_HEIGHT, k requires 0 <= k < BOARD_HEIGHT => g[k * BOARD_WIDTH .. k * BOARD_WIDTH + BOARD_WIDTH])
  }

  predicate IsFull(r: Row) {
    forall l :: 0 <= l < |r| ==> r[l] != NoShape
  }

  /** n empty cells. */
  function Blank(n: nat): seq<Tetrominoe> {
    seq(n, _ => NoShape)
  }

  function EmptyRow(): Row {
    seq(BOARD_WIDTH, _ => NoShape)
  }

  function Empties(n: nat): (e: seq<Row>)
    ensures |e| == n
  {
    if n == 0 then [] else [EmptyRow()] + Empties(n - 1)
  }

  lemma {:induction false} EmptiesAreEmpty(n: nat)
    ensures forall i :: 0 <= i < n ==> Empties(n)[i] == EmptyRow()
  {
    if n > 0 {
      EmptiesAreEmpty(n - 1);
    }
  }

  /** The number of occupied cells of a row, counted left to right. */
  function Filled(r: Row): (n: nat)
    ensures n <= |r|
  {
    if r == [] then 0 else Filled(r[..|r| - 1]) + (if r[|r| - 1] != NoShape then 1 else 0)
  }

  /** Counting reaches the row's width exactly when every cell is occupied. */
  lemma {:induction false} FilledAllIffFull(r: Row)
    ensures Filled(r) == |r| <==> IsFull(r)
  {
    if r != [] {
      var r' := r[..|r| - 1];
      FilledAllIffFull(r');
      if IsFull(r) {
        assert IsFull(r') by {
          forall l | 0 <= l < |r'| ensures r'[l] != NoShape {
            assert r'[l] == r[l];
          }
        }
      }
      if Filled(r) == |r| {
        assert Filled(r') == |r'| && r[|r| - 1] != NoShape;
        forall l | 0 <= l < |r| ensures r[l] != NoShape {
          if l < |r| - 1 {
            assert r'[l] == r[l];
          }
        }
      }
    }
  }

  /** The indices of the full rows, ascending. */
  function FullRows(rs: seq<Row>): (ix: seq<int>)
    ensures |ix| <= |rs|
    ensures forall j :: 0 <= j < |ix| ==> 0 <= ix[j] < |rs|
  {
    if rs == [] then []
    else
      FullRows(rs[..|rs| - 1]) + (if IsFull(rs[|rs| - 1]) then [|rs| - 1] else [])
  }

  /** A row index is listed iff that row is full, and the list is ascending. */
  lemma {:induction false} FullRowsAreTheFullRows(rs: seq<Row>)
    ensures forall j :: 0 <= j < |FullRows(rs)| ==> IsFull(rs[FullRows(rs)[j]])
    ensures forall k :: 0 <= k < |rs| && IsFull(rs[k]) ==> k in FullRows(rs)
    ensures forall j, j' :: 0 <= j < j' < |FullRows(rs)| ==> FullRows(rs)[j] < FullRows(rs)[j']
  {
    if rs != [] {
      var rs' := rs[..|rs| - 1];
      FullRowsAreTheFullRows(rs');
      assert forall k :: 0 <= k < |rs'| ==> rs'[k] == rs[k];
    }
  }

  /** The rows that are not full, in their original order. */
  function Kept(rs: seq<Row>): (kept: seq<Row>)
    ensures forall k :: 0 <= k < |kept| ==> !IsFull(kept[k])
  {
    if rs == [] then []
    else Kept(rs[..|rs| - 1]) + (if IsFull(rs[|rs| - 1]) then [] else [rs[|rs| - 1]])
  }

  /** Line clearing as a whole: the rows that are not full packed down from row 0 in their
      original order, with one empty row on top per removed row. */
  function Compact(rs: seq<Row>): seq<Row> {
    Kept(rs) + Empties(|FullRows(rs)|)
  }

  /** Every row is either kept or removed. */
  lemma {:induction false} KeptAndRemovedPartition(rs: seq<Row>)
    ensures |Kept(rs)| + |FullRows(rs)| == |rs|
  {
    if rs != [] {
      KeptAndRemovedPartition(rs[..|rs| - 1]);
    }
  }

  /** Gravity: a row that is not full moves down by the number of full rows below it, and
      keeps its content. */
  lemma {:induction false} KeptRowMovesDown(rs: seq<Row>, k: int)
    requires 0 <= k < |rs| && !IsFull(rs[k])
    ensures 0 <= k - |FullRows(rs[..k])| < |Kept(rs)|
    ensures Kept(rs)[k - |FullRows(rs[..k])|] == rs[k]
  {
    var rs' := rs[..|rs| - 1];
    if k == |rs| - 1 {
      assert rs[..k] == rs';
      KeptAndRemovedPartition(rs');
    } else {
      assert rs'[..k] == rs[..k];
      KeptRowMovesDown(rs', k);
    }
  }

  /** After line clearing the grid has as many rows as before and none of them is full. */
  lemma CompactHasNoFullRow(rs: seq<Row>)
    ensures |Compact(rs)| == |rs|
    ensures forall k :: 0 <= k < |rs| ==> !IsFull(Compact(rs)[k])
  {
    KeptAndRemovedPartition(rs);
    EmptiesAreEmpty(|FullRows(rs)|);
    forall k | |Kept(rs)| <= k < |rs| ensures !IsFull(Compact(rs)[k]) {
      assert Compact(rs)[k] == EmptyRow();
      assert EmptyRow()[0] == NoShape;
    }
  }

  /** With no full row, line clearing changes nothing. */
  lemma {:induction false} NoFullRowMeansNoChange(rs: seq<Row>)
    requires FullRows(rs) == []
    ensures Compact(rs) == rs
  {
    if rs != [] {
      var rs' := rs[..|rs| - 1];
      assert !IsFull(rs[|rs| - 1]);
      assert FullRows(rs') == [];
      NoFullRowMeansNoChange(rs');
      assert rs == rs' + [rs[|rs| - 1]];
    }
  }

  // ---------------------------------------------------------------------------------------
  // The shift the program performs, and why it compacts

  /** One pass of the shift loop for removed row m: every cell from row m up to row 21 takes the
      value of the cell one row above it; the cells from index CELLS on are only read. */
  function ShiftDown(g: seq<Tetrominoe>, m: int): (h: seq<Tetrominoe>)
    requires |g| >= CELLS + BOARD_WIDTH && 0 <= m < BOARD_HEIGHT
    ensures |h| == |g|
  {
    seq(|g|, i requires 0 <= i < |g| => if m * BOARD_WIDTH <= i < CELLS then g[i + BOARD_WIDTH] else g[i])
  }

  /** The shift pass part-way: the cells from row m up to (not including) index t have taken
      the value one row above. */
  function ShiftedBelow(g: seq<Tetrominoe>, m: int, t: int): (h: seq<Tetrominoe>)
    requires 0 <= t <= CELLS && |g| >= CELLS + BOARD_WIDTH
    ensures |h| == |g|
  {
    seq(|g|, i requires 0 <= i < |g| => if m * BOARD_WIDTH <= i < t then g[i + BOARD_WIDTH] else g[i])
  }

  /** Row m taken out, everything above it one row lower, an empty row on top. */
  function Del(rs: seq<Row>, m: int): (rs': seq<Row>)
    ensures |rs'| == |rs|
  {
    if 0 <= m < |rs| then rs[..m] + rs[m + 1..] + [EmptyRow()] else rs
  }

  /** Deleting the rows of ms, one after the other. */
  function Removal(rs: seq<Row>, ms: seq<int>): seq<Row>
    decreases |ms|
  {
    if ms == [] then rs else Removal(Del(rs, ms[0]), ms[1..])
  }

  function Reverse(s: seq<int>): (r: seq<int>)
    ensures |r| == |s| && forall j :: 0 <= j < |s| ==> r[j] == s[|s| - 1 - j]
  {
    if s == [] then [] else [s[|s| - 1]] + Reverse(s[..|s| - 1])
  }

  /** On rows, one shift pass is exactly Del, provided the row above the grid is empty. */
  lemma ShiftDownRows(g: seq<Tetrominoe>, m: int)
    requires |g| >= CELLS + BOARD_WIDTH && 0 <= m < BOARD_HEIGHT
    requires forall i :: CELLS <= i < CELLS + BOARD_WIDTH ==> g[i] == NoShape
    ensures Rows(ShiftDown(g, m)) == Del(Rows(g), m)
    ensures ShiftDown(g, m)[CELLS..] == g[CELLS..]
  {
    var h := ShiftDown(g, m);
    var rs := Rows(g);
    forall k | 0 <= k < BOARD_HEIGHT ensures Rows(h)[k] == Del(rs, m)[k] {
      var lo := k * BOARD_WIDTH;
      if k < m {
        assert Rows(h)[k] == h[lo .. lo + BOARD_WIDTH] == g[lo .. lo + BOARD_WIDTH];
      } else if k < BOARD_HEIGHT - 1 {
        assert Rows(h)[k] == h[lo .. lo + BOARD_WIDTH] == g[lo + BOARD_WIDTH .. lo + 2 * BOARD_WIDTH];
        assert Del(rs, m)[k] == rs[k + 1];
      } else {
        assert Rows(h)[k] == h[lo .. lo + BOARD_WIDTH] == g[CELLS .. CELLS + BOARD_WIDTH];
        assert g[CELLS .. CELLS + BOARD_WIDTH] == EmptyRow();
      }
    }
  }

  lemma SeqAssoc(w: seq<Row>, x: seq<Row>, y: seq<Row>, z: seq<Row>)
    ensures w + (x + y) + z == w + x + (y + z)
  {
  }

  lemma Assoc(x: seq<Row>, y: seq<Row>, z: seq<Row>)
    ensures x + y + z == x + (y + z)
  {
  }

  lemma ReverseSnoc(s: seq<int>, v: int)
    ensures Reverse(s + [v]) == [v] + Reverse(s)
  {
    assert (s + [v])[..|s|] == s;
  }

  /** Deleting the top row of A from A + B leaves A's other rows under B and an empty row. */
  lemma DelLastOfPrefix(A: seq<Row>, B: seq<Row>)
    requires A != []
    ensures Del(A + B, |A| - 1) == A[..|A| - 1] + (B + [EmptyRow()])
  {
    assert (A + B)[..|A| - 1] == A[..|A| - 1];
    assert (A + B)[|A|..] == B;
  }

  lemma RemovalCons(rs: seq<Row>, m: int, ms: seq<int>)
    ensures Removal(rs, [m] + ms) == Removal(Del(rs, m), ms)
  {
    assert ([m] + ms)[0] == m && ([m] + ms)[1..] == ms;
  }

  lemma EmptiesCons(n: nat)
    ensures Empties(n + 1) == [EmptyRow()] + Empties(n)
  {
  }

  /** Deleting a full top row of A first: what remains is A without it, under B and an
      empty row. */
  lemma RemovalOfTopRow(A: seq<Row>, B: seq<Row>)
    requires A != [] && IsFull(A[|A| - 1])
    ensures Removal(A + B, Reverse(FullRows(A)))
            == Removal(A[..|A| - 1] + (B + [EmptyRow()]), Reverse(FullRows(A[..|A| - 1])))
  {
    var n := |A|;
    var F' := FullRows(A[..n - 1]);
    assert FullRows(A) == F' + [n - 1];
    ReverseSnoc(F', n - 1);
    RemovalCons(A + B, n - 1, Reverse(F'));
    DelLastOfPrefix(A, B);
  }

  /** The same full top row on the compacted side: one more empty row on top. */
  lemma CompactOfTopRow(A: seq<Row>, B: seq<Row>)
    requires A != [] && IsFull(A[|A| - 1])
    ensures Kept(A[..|A| - 1]) + (B + [EmptyRow()]) + Empties(|FullRows(A[..|A| - 1])|)
            == Kept(A) + B + Empties(|FullRows(A)|)
  {
    var n := |A|;
    var F' := FullRows(A[..n - 1]);
    assert Kept(A) == Kept(A[..n - 1]);
    assert |FullRows(A)| == |F'| + 1;
    EmptiesCons(|F'|);
    SeqAssoc(Kept(A), B, [EmptyRow()], Empties(|F'|));
  }

  /** Induction step of RemovalCompacts when the top row of A is full. */
  lemma RemovalStepFull(A: seq<Row>, B: seq<Row>)
    requires A != [] && IsFull(A[|A| - 1])
    requires Removal(A[..|A| - 1] + (B + [EmptyRow()]), Reverse(FullRows(A[..|A| - 1])))
             == Kept(A[..|A| - 1]) + (B + [EmptyRow()]) + Empties(|FullRows(A[..|A| - 1])|)
    ensures Removal(A + B, Reverse(FullRows(A))) == Kept(A) + B + Empties(|FullRows(A)|)
  {
    RemovalOfTopRow(A, B);
    CompactOfTopRow(A, B);
  }

  /** A top row of A that is not full is not deleted: it can be counted as part of B. */
  lemma RemovalOfKeptRow(A: seq<Row>, B: seq<Row>)
    requires A != [] && !IsFull(A[|A| - 1])
    ensures Removal(A + B, Reverse(FullRows(A)))
            == Removal(A[..|A| - 1] + ([A[|A| - 1]] + B), Reverse(FullRows(A[..|A| - 1])))
  {
    var A' := A[..|A| - 1];
    assert A == A' + [A[|A| - 1]];
    Assoc(A', [A[|A| - 1]], B);
    assert FullRows(A) == FullRows(A');
  }

  /** The same row on the compacted side: it becomes the top kept row. */
  lemma CompactOfKeptRow(A: seq<Row>, B: seq<Row>)
    requires A != [] && !IsFull(A[|A| - 1])
    ensures Kept(A[..|A| - 1]) + ([A[|A| - 1]] + B) + Empties(|FullRows(A[..|A| - 1])|)
            == Kept(A) + B + Empties(|FullRows(A)|)
  {
    var A' := A[..|A| - 1];
    var a := A[|A| - 1];
    assert Kept(A) == Kept(A') + [a];
    assert FullRows(A) == FullRows(A');
    SeqAssoc(Kept(A'), [a], B, Empties(|FullRows(A')|));
  }

  /** Induction step of RemovalCompacts when the top row of A is kept. */
  lemma RemovalStepKept(A: seq<Row>, B: seq<Row>)
    requires A != [] && !IsFull(A[|A| - 1])
    requires Removal(A[..|A| - 1] + ([A[|A| - 1]] + B), Reverse(FullRows(A[..|A| - 1])))
             == Kept(A[..|A| - 1]) + ([A[|A| - 1]] + B) + Empties(|FullRows(A[..|A| - 1])|)
    ensures Removal(A + B, Reverse(FullRows(A))) == Kept(A) + B + Empties(|FullRows(A)|)
  {
    RemovalOfKeptRow(A, B);
    CompactOfKeptRow(A, B);
  }

  /** The program's algorithm is line clearing: deleting the full rows of A from the highest
      index down leaves the rows that are not full in order, whatever lies above them, and one
      empty row per deleted row on top. */
  lemma {:induction false} RemovalCompacts(A: seq<Row>, B: seq<Row>)
    ensures Removal(A + B, Reverse(FullRows(A))) == Kept(A) + B + Empties(|FullRows(A)|)
  {
    if A != [] {
      var A' := A[..|A| - 1];
      var a := A[|A| - 1];
      if IsFull(a) {
        RemovalCompacts(A', B + [EmptyRow()]);
        RemovalStepFull(A, B);
      } else {
        RemovalCompacts(A', [a] + B);
        RemovalStepKept(A, B);
      }
    }
  }

  /** The shift passes for the row indices ms, one after the other, on the flat list. */
  function RemovalFlat(g: seq<Tetrominoe>, ms: seq<int>): (h: seq<Tetrominoe>)
    requires |g| >= CELLS + BOARD_WIDTH
    requires forall j :: 0 <= j < |ms| ==> 0 <= ms[j] < BOARD_HEIGHT
    ensures |h| == |g|
    decreases |ms|
  {
    if ms == [] then g else RemovalFlat(ShiftDown(g, ms[0]), ms[1..])
  }

  /** removeFullLines on the flat list: one shift pass per full row, highest row first. */
  function Cleared(g: seq<Tetrominoe>): (h: seq<Tetrominoe>)
    requires |g| >= CELLS + BOARD_WIDTH
    ensures |h| == |g|
  {
    RemovalFlat(g, Reverse(FullRows(Rows(g))))
  }

  /** On rows, the shift passes delete the listed rows one after the other. */
  lemma {:induction false} RemovalFlatRows(g: seq<Tetrominoe>, ms: seq<int>)
    requires |g| >= CELLS + BOARD_WIDTH
    requires forall j :: 0 <= j < |ms| ==> 0 <= ms[j] < BOARD_HEIGHT
    requires forall i :: CELLS <= i < CELLS + BOARD_WIDTH ==> g[i] == NoShape
    ensures Rows(RemovalFlat(g, ms)) == Removal(Rows(g), ms)
    ensures RemovalFlat(g, ms)[CELLS..] == g[CELLS..]
    decreases |ms|
  {
    if ms != [] {
      var h := ShiftDown(g, ms[0]);
      ShiftDownRows(g, ms[0]);
      forall i | CELLS <= i < CELLS + BOARD_WIDTH
        ensures h[i] == NoShape
      {
        assert h[i] == h[CELLS..][i - CELLS] == g[CELLS..][i - CELLS];
      }
      RemovalFlatRows(h, ms[1..]);
    }
  }

  /** The program's line clearing leaves the non-full rows packed down in order with empty
      rows on top, and never writes past the 220 board cells. */
  lemma ClearedIsCompact(g: seq<Tetrominoe>)
    requires |g| >= CELLS + BOARD_WIDTH
    requires forall i :: CELLS <= i < CELLS + BOARD_WIDTH ==> g[i] == NoShape
    ensures Rows(Cleared(g)) == Compact(Rows(g))
    ensures Cleared(g)[CELLS..] == g[CELLS..]
  {
    var ms := Reverse(FullRows(Rows(g)));
    assert Cleared(g) == RemovalFlat(g, ms);
    RemovalFlatRows(g, ms);
    RemovingFullRowsCompacts(Rows(g));
  }

  /** Deleting the full rows from the highest down is line clearing on rows. */
  lemma RemovingFullRowsCompacts(rs: seq<Row>)
    ensures Removal(rs, Reverse(FullRows(rs))) == Compact(rs)
  {
    var ms := Reverse(FullRows(rs));
    var e := Empties(|FullRows(rs)|);
    var kept := Kept(rs);
    assert Removal(rs, ms) == kept + [] + e by {
      assert rs + [] == rs;
      RemovalCompacts(rs, []);
    }
    assert kept + [] == kept;
  }

  // ---------------------------------------------------------------------------------------
  // Spawning

  const SPAWN_X := BOARD_WIDTH / 2 + 1

  /** The anchor row of a new piece: the top row shifted by the piece's least y offset. */
  function SpawnY(k: Tetrominoe): int {
    if k == NoShape || k == TShape || k == SquareShape then 21 else 20
  }

  /** The spawn row is the top row plus the least y offset of the piece's table entry. */
  lemma SpawnYIsMin(k: Tetrominoe)
    ensures SpawnY(k) == BOARD_HEIGHT - 1 + MinOf(Ys(NewShape(k)))
  {
    var ys := Ys(NewShape(k));
    var m := SpawnY(k) - (BOARD_HEIGHT - 1);
    assert ys[0] == NewShape(k).coords[0].y && ys[1] == NewShape(k).coords[1].y;
    assert ys[2] == NewShape(k).coords[2].y && ys[3] == NewShape(k).coords[3].y;
    assert m in ys && forall j :: 0 <= j < |ys| ==> m <= ys[j];
    assert MinOf(ys) <= m && m <= MinOf(ys);
  }

  /** A new piece spawns flush with the top: its highest cell is on row 21 and the anchor is
      on the board. */
  lemma SpawnTouchesTop(k: Tetrominoe)
    ensures InBounds(SPAWN_X, SpawnY(k))
    ensures forall i :: 0 <= i < 4 ==> CellY(NewShape(k), SpawnY(k), i) <= BOARD_HEIGHT - 1
    ensures exists i :: 0 <= i < 4 && CellY(NewShape(k), SpawnY(k), i) == BOARD_HEIGHT - 1
  {
    var s := NewShape(k);
    var ys := Ys(s);
    var m := MinOf(ys);
    SpawnYIsMin(k);
    var i :| 0 <= i < 4 && ys[i] == m;
    assert CellY(s, SpawnY(k), i) == BOARD_HEIGHT - 1;
    var o :| 0 <= o < 4 && s.coords[o] == ORIGIN;
    assert m <= ys[o] == 0;
    forall j | 0 <= j < 4
      ensures CellY(s, SpawnY(k), j) <= BOARD_HEIGHT - 1
    {
      assert m <= ys[j] == s.coords[j].y;
    }
  }

  /** On an empty grid every tetromino fits at its spawn position, so the first piece of a
      game never ends it. */
  lemma SpawnFitsOnEmptyGrid(g: seq<Tetrominoe>, k: Tetrominoe)
    requires |g| >= CELLS && forall j :: 0 <= j < CELLS ==> g[j] == NoShape
    ensures Fits(g, NewShape(k), SPAWN_X, SpawnY(k))
  {
    var s := NewShape(k);
    SpawnTouchesTop(k);
    SpawnYIsMin(k);
    forall i | 0 <= i < 4 ensures CellFree(g, CellX(s, SPAWN_X, i), CellY(s, SpawnY(k), i)) {
      var ys := Ys(s);
      assert MinOf(ys) <= ys[i];
      assert ys[i] <= 2;
      assert -1 <= MinOf(ys);
      IndexIsOneToOne(CellX(s, SPAWN_X, i), CellY(s, SpawnY(k), i), 0, 0);
    }
  }
}
