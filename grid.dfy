/**
  The board geometry of the snake game: the four headings, grid cells
  compared by value, the one-cell step along a heading, and the playing field
  [0, width) x [0, height) together with a count of its cells.
 */
module Grid {

  /** The heading of the snake. */
  datatype Direction = Up | Down | Left | Right

  /** A cell of the board. Equality is structural, so a cell can key a map. */
  datatype Coordinate = Coordinate(x: int, y: int)

  predicate IsHorizontal(d: Direction) {
    d == Left || d == Right
  }

  predicate IsVertical(d: Direction) {
    d == Up || d == Down
  }

  /** Two headings lie on different axes. */
  predicate Perpendicular(a: Direction, b: Direction) {
    IsHorizontal(a) != IsHorizontal(b)
  }

  /** The heading that undoes `d`. */
  function Opposite(d: Direction): Direction {
    match d
    case Up => Down
    case Down => Up
    case Left => Right
    case Right => Left
  }

  function Abs(n: int): nat {
    if n < 0 then -n else n
  }

  /** Manhattan distance between two cells. */
  function Distance(a: Coordinate, b: Coordinate): nat {
    Abs(a.x - b.x) + Abs(a.y - b.y)
  }

  /**
    The cell one unit from `c` along `d`. The y axis grows downwards, so Up
    decreases y and Down increases it.
   */
  function Advance(c: Coordinate, d: Direction): (r: Coordinate)
    ensures Distance(c, r) == 1
    ensures IsHorizontal(d) <==> r.y == c.y
    ensures (d == Up || d == Left) <==> r.x + r.y < c.x + c.y
  {
    match d
    case Up => Coordinate(c.x, c.y - 1)
    case Down => Coordinate(c.x, c.y + 1)
    case Left => Coordinate(c.x - 1, c.y)
    case Right => Coordinate(c.x + 1, c.y)
  }

  /** Stepping back along the opposite heading returns to the start cell. */
  lemma AdvanceOpposite(c: Coordinate, d: Direction)
    ensures Advance(Advance(c, d), Opposite(d)) == c
    ensures Opposite(Opposite(d)) == d && !Perpendicular(d, Opposite(d)) && Opposite(d) != d
  {
  }

  /** `c` lies on the board, that is in [0, width) x [0, height). */
  predicate InBounds(c: Coordinate, width: int, height: int) {
    0 <= c.x < width && 0 <= c.y < height
  }

  /** The cells of row `y` with x in [0, width). */
  ghost function Row(width: nat, y: int): set<Coordinate> {
    set x | 0 <= x < width :: Coordinate(x, y)
  }

  /** Every cell of a width x height board. */
  ghost function Cells(width: nat, height: nat): set<Coordinate> {
    set x, y | 0 <= x < width && 0 <= y < height :: Coordinate(x, y)
  }

  lemma {:induction false} RowSize(width: nat, y: int)
    ensures |Row(width, y)| == width
  {
    if width == 0 {
      assert Row(width, y) == {};
    } else {
      RowSize(width - 1, y);
      assert Row(width, y) == Row(width - 1, y) + {Coordinate(width - 1, y)};
    }
  }

  /** A cell is one of the board's cells exactly when it is in bounds. */
  lemma CellsMembership(width: nat, height: nat, c: Coordinate)
    ensures c in Cells(width, height) <==> InBounds(c, width, height)
  {
    if InBounds(c, width, height) {
      assert c == Coordinate(c.x, c.y);
    }
  }

  /** A width x height board has exactly width * height cells. */
  lemma {:induction false} CellsSize(width: nat, height: nat)
    ensures |Cells(width, height)| == width * height
  {
    if height == 0 {
      assert Cells(width, height) == {};
    } else {
      CellsSize(width, height - 1);
      RowSize(width, height - 1);
      var upper, row := Cells(width, height - 1), Row(width, height - 1);
      assert Cells(width, height) == upper + row;
      assert upper * row == {};
      assert |upper + row| == |upper| + |row|;
      assert width * (height - 1) + width == width * height;
    }
  }

  lemma {:induction false} SubsetSize<T>(a: set<T>, b: set<T>)
    requires a <= b
    ensures |a| <= |b|
  {
    assert b == a + (b - a);
    assert a * (b - a) == {};
  }

  /**
    A set of cells on the board that is smaller than the board leaves a cell
    free: the condition under which rejection sampling of food terminates.
   */
  lemma FreeCellExists(occupied: set<Coordinate>, width: nat, height: nat)
    requires forall c :: c in occupied ==> InBounds(c, width, height)
    requires |occupied| < width * height
    ensures exists c :: InBounds(c, width, height) && c !in occupied
  {
    CellsSize(width, height);
    if forall c :: InBounds(c, width, height) ==> c in occupied {
      forall c | c in Cells(width, height)
        ensures c in occupied
      {
        CellsMembership(width, height, c);
      }
      SubsetSize(Cells(width, height), occupied);
      assert false;
    }
  }
}
