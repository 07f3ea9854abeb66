/** A falling piece: a shape kind and four cell offsets taken from a fixed table, with the
    left and right quarter turns and the min/max queries over the offsets. */
module Shapes {
  import opened Tetrominoes

  /** One cell offset, relative to the piece's anchor. */
  datatype Point = Point(x: int, y: int)

  const ORIGIN := Point(0, 0)

  /** A piece always has exactly four offsets. */
  type Coords = c: seq<Point> | |c| == 4 witness [ORIGIN, ORIGIN, ORIGIN, ORIGIN]

  datatype Shape = Shape(kind: Tetrominoe, coords: Coords)

  /** The offset table, one row per kind. Every row holds the anchor offset (0, 0). */
  function CoordsTable(k: Tetrominoe): (c: Coords)
    ensures ORIGIN in c
    ensures forall i :: 0 <= i < 4 ==> -1 <= c[i].x <= 1 && -1 <= c[i].y <= 2
  {
    match k
    case NoShape => [Point(0, 0), Point(0, 0), Point(0, 0), Point(0, 0)]
    case ZShape => [Point(0, -1), Point(0, 0), Point(-1, 0), Point(-1, 1)]
    case SShape => [Point(0, -1), Point(0, 0), Point(1, 0), Point(1, 1)]
    case LineShape => [Point(0, -1), Point(0, 0), Point(0, 1), Point(0, 2)]
    case TShape => [Point(-1, 0), Point(0, 0), Point(1, 0), Point(0, 1)]
    case SquareShape => [Point(0, 0), Point(1, 0), Point(0, 1), Point(1, 1)]
    case LShape => [Point(-1, -1), Point(0, -1), Point(0, 0), Point(0, 1)]
    case MirroredLShape => [Point(1, -1), Point(0, -1), Point(0, 0), Point(0, 1)]
  }

  /** What every piece the game handles satisfies: its anchor is one of its cells, and a
      NoShape piece has all four offsets at (0, 0). */
  ghost predicate WellFormed(s: Shape) {
    && ORIGIN in s.coords
    && (s.kind == NoShape ==> s.coords == CoordsTable(NoShape))
  }

  /** The piece that setShape(k) leaves behind: kind k with the table's offsets. */
  function NewShape(k: Tetrominoe): (s: Shape)
    ensures s.kind == k && WellFormed(s)
    ensures forall i :: 0 <= i < 4 ==> -1 <= s.coords[i].x <= 1 && -1 <= s.coords[i].y <= 2
  {
    Shape(k, CoordsTable(k))
  }

  /** Quarter turn to the left: (x, y) becomes (y, -x); the Square is returned as it is. */
  function RotateLeft(s: Shape): Shape {
    if s.kind == SquareShape then s
    else Shape(s.kind, seq(4, i requires 0 <= i < 4 => Point(s.coords[i].y, -s.coords[i].x)))
  }

  /** Quarter turn to the right: (x, y) becomes (-y, x); the Square is returned as it is. */
  function RotateRight(s: Shape): Shape {
    if s.kind == SquareShape then s
    else Shape(s.kind, seq(4, i requires 0 <= i < 4 => Point(-s.coords[i].y, s.coords[i].x)))
  }

  /** Each offset is moved by the turn's formula and the kind is kept. */
  lemma RotationMovesEachOffset(s: Shape, i: int)
    requires 0 <= i < 4 && s.kind != SquareShape
    ensures RotateLeft(s).kind == s.kind && RotateRight(s).kind == s.kind
    ensures RotateLeft(s).coords[i] == Point(s.coords[i].y, -s.coords[i].x)
    ensures RotateRight(s).coords[i] == Point(-s.coords[i].y, s.coords[i].x)
  {
  }

  /** The Square rotates to the identical piece, in both directions. */
  lemma SquareRotatesToItself(s: Shape)
    requires s.kind == SquareShape
    ensures RotateLeft(s) == s && RotateRight(s) == s
  {
  }

  /** The two turns undo each other. */
  lemma RotateLeftThenRight(s: Shape)
    ensures RotateRight(RotateLeft(s)) == s
    ensures RotateLeft(RotateRight(s)) == s
  {
    if s.kind != SquareShape {
      assert RotateRight(RotateLeft(s)).coords == s.coords;
      assert RotateLeft(RotateRight(s)).coords == s.coords;
    }
  }

  /** Four turns the same way bring every piece back to its original offsets. */
  lemma FourTurnsAreIdentity(s: Shape)
    ensures RotateLeft(RotateLeft(RotateLeft(RotateLeft(s)))) == s
    ensures RotateRight(RotateRight(RotateRight(RotateRight(s)))) == s
  {
    if s.kind != SquareShape {
      assert RotateLeft(RotateLeft(RotateLeft(RotateLeft(s)))).coords == s.coords;
      assert RotateRight(RotateRight(RotateRight(RotateRight(s)))).coords == s.coords;
    }
  }

  /** Rotation keeps the anchor among the piece's cells, and keeps a NoShape piece at (0, 0). */
  lemma RotationKeepsWellFormed(s: Shape)
    requires WellFormed(s)
    ensures WellFormed(RotateLeft(s)) && WellFormed(RotateRight(s))
    ensures RotateLeft(s).kind == s.kind && RotateRight(s).kind == s.kind
  {
    if s.kind != SquareShape {
      var i :| 0 <= i < 4 && s.coords[i] == ORIGIN;
      assert RotateLeft(s).coords[i] == ORIGIN;
      assert RotateRight(s).coords[i] == ORIGIN;
      if s.kind == NoShape {
        assert RotateLeft(s).coords == CoordsTable(NoShape);
        assert RotateRight(s).coords == CoordsTable(NoShape);
      }
    }
  }

  /** Without its special case the Square would not rotate in place: the turn formula applied
      to its table row gives a different set of cells. */
  lemma SquareFormulaWouldMoveCells()
    ensures var sq := NewShape(SquareShape);
            var turned := seq(4, i requires 0 <= i < 4 => Point(sq.coords[i].y, -sq.coords[i].x));
            Point(1, 1) in sq.coords && Point(1, 1) !in turned
  {
    var sq := NewShape(SquareShape);
    var turned := seq(4, i requires 0 <= i < 4 => Point(sq.coords[i].y, -sq.coords[i].x));
    assert turned == [Point(0, 0), Point(0, -1), Point(1, 0), Point(1, -1)];
  }

  /** The x offsets and the y offsets, in order. */
  function Xs(s: Shape): seq<int> {
    seq(4, i requires 0 <= i < 4 => s.coords[i].x)
  }

  function Ys(s: Shape): seq<int> {
    seq(4, i requires 0 <= i < 4 => s.coords[i].y)
  }

  /** The least element of a non-empty sequence. */
  function MinOf(v: seq<int>): (m: int)
    requires |v| > 0
    ensures m in v
    ensures forall j :: 0 <= j < |v| ==> m <= v[j]
  {
    if |v| == 1 then v[0]
    else
      var m' := MinOf(v[..|v| - 1]);
      if v[|v| - 1] < m' then v[|v| - 1] else m'
  }

  /** The greatest element of a non-empty sequence. */
  function MaxOf(v: seq<int>): (m: int)
    requires |v| > 0
    ensures m in v
    ensures forall j :: 0 <= j < |v| ==> v[j] <= m
  {
    if |v| == 1 then v[0]
    else
      var m' := MaxOf(v[..|v| - 1]);
      if v[|v| - 1] > m' then v[|v| - 1] else m'
  }

  /** minX: starts from the first offset and keeps the smaller value over all four. */
  method MinX(s: Shape) returns (m: int)
    ensures m == MinOf(Xs(s))
  {
    var xs := Xs(s);
    m := s.coords[0].x;
    for i := 0 to 4
      invariant m == MinOf(xs[..if i == 0 then 1 else i])
    {
      assert xs[..i + 1][..i] == xs[..i];
      if s.coords[i].x < m {
        m := s.coords[i].x;
      }
    }
    assert xs[..4] == xs;
  }

  /** maxX: starts from the first offset and keeps the larger value over all four. */
  method MaxX(s: Shape) returns (m: int)
    ensures m == MaxOf(Xs(s))
  {
    var xs := Xs(s);
    m := s.coords[0].x;
    for i := 0 to 4
      invariant m == MaxOf(xs[..if i == 0 then 1 else i])
    {
      assert xs[..i + 1][..i] == xs[..i];
      if s.coords[i].x > m {
        m := s.coords[i].x;
      }
    }
    assert xs[..4] == xs;
  }

  /** minY: starts from the first offset and keeps the smaller value over all four. */
  method MinY(s: Shape) returns (m: int)
    ensures m == MinOf(Ys(s))
  {
    var ys := Ys(s);
    m := s.coords[0].y;
    for i := 0 to 4
      invariant m == MinOf(ys[..if i == 0 then 1 else i])
    {
      assert ys[..i + 1][..i] == ys[..i];
      if s.coords[i].y < m {
        m := s.coords[i].y;
      }
    }
    assert ys[..4] == ys;
  }

  /** maxY: starts from the first offset and keeps the larger value over all four. */
  method MaxY(s: Shape) returns (m: int)
    ensures m == MaxOf(Ys(s))
  {
    var ys := Ys(s);
    m := s.coords[0].y;
    for i := 0 to 4
      invariant m == MaxOf(ys[..if i == 0 then 1 else i])
    {
      assert ys[..i + 1][..i] == ys[..i];
      if s.coords[i].y > m {
        m := s.coords[i].y;
      }
    }
    assert ys[..4] == ys;
  }
}
