/** The playing field: grid constants, points and the set of all cells. */
module Board {

  /** Side of the square board; valid coordinates are 1..BoardSize on both axes. */
  const BoardSize: int := 16

  /** Capacity of the snake's body array. */
  const MaxLength: int := 256

  /** A cell of the grid, or a velocity (dx, dy). */
  datatype Point = Point(x: int, y: int)

  /** Field-wise comparison of two points, as the game compares segments. */
  function ComparePoints(a: Point, b: Point): (same: bool)
    ensures same <==> a == b
  {
    a.x == b.x && a.y == b.y
  }

  predicate InBounds(p: Point) {
    1 <= p.x <= BoardSize && 1 <= p.y <= BoardSize
  }

  /** The point `p` displaced by the velocity (dx, dy). */
  function Move(p: Point, dx: int, dy: int): Point {
    Point(p.x + dx, p.y + dy)
  }

  /** The set of positions a sequence of points occupies. */
  function Cells(s: seq<Point>): set<Point> {
    set p | p in s
  }

  /** Every cell of the board, row by row. */
  function AllCells(): (cells: seq<Point>)
    ensures |cells| == BoardSize * BoardSize
    ensures forall i :: 0 <= i < |cells| ==> InBounds(cells[i])
  {
    seq(BoardSize * BoardSize, i => Point(i % BoardSize + 1, i / BoardSize + 1))
  }

  predicate Distinct(s: seq<Point>) {
    forall i, j :: 0 <= i < j < |s| ==> s[i] != s[j]
  }

  lemma AllCellsDistinct()
    ensures Distinct(AllCells())
  {
    var cells := AllCells();
    forall i, j | 0 <= i < j < |cells| ensures cells[i] != cells[j] {
    }
  }

  /** A sequence occupies at most as many cells as it has elements, and exactly as many when distinct. */
  lemma {:induction false} CellsCard(s: seq<Point>)
    ensures |Cells(s)| <= |s|
    ensures Distinct(s) ==> |Cells(s)| == |s|
  {
    if s != [] {
      var rest := s[1..];
      CellsCard(rest);
      assert Cells(s) == {s[0]} + Cells(rest);
      if Distinct(s) {
        assert Distinct(rest) by {
          forall i, j | 0 <= i < j < |rest| ensures rest[i] != rest[j] {
            assert rest[i] == s[i + 1] && rest[j] == s[j + 1];
          }
        }
        assert s[0] !in Cells(rest) by {
          forall k | 0 <= k < |rest| ensures rest[k] != s[0] {
            assert rest[k] == s[k + 1];
          }
        }
      }
    }
  }

  /**
   * Pigeonhole: a sequence that occupies fewer cells than the board has
   * leaves at least one in-bounds cell free.
   */
  lemma {:induction false} FreeCellExists(s: seq<Point>)
    requires |Cells(s)| < BoardSize * BoardSize
    ensures exists p :: InBounds(p) && p !in s
  {
    var cells := AllCells();
    AllCellsDistinct();
    CellsCard(cells);
    if forall i :: 0 <= i < |cells| ==> cells[i] in s {
      assert Cells(cells) <= Cells(s);
      assert |Cells(cells)| <= |Cells(s)| by {
        SubsetCard(Cells(cells), Cells(s));
      }
      assert false;
    }
    var i :| 0 <= i < |cells| && cells[i] !in s;
    assert InBounds(cells[i]);
  }

  lemma SubsetCard(a: set<Point>, b: set<Point>)
    requires a <= b
    ensures |a| <= |b|
  {
    assert b == a + (b - a);
  }
}
