// Coordinates, cells and the Moore neighbourhood of the minesweeper board.

module Cells {

  /** A board coordinate (x, y); a board of size n holds the cells 0 <= x, y < n. */
  type Coord = (int, int)

  /** What the board holds at a coordinate: a mine, or the number of mines around it. */
  datatype Cell = Mine | Count(n: int)

  predicate InBounds(c: Coord, n: int)
  {
    0 <= c.0 < n && 0 <= c.1 < n
  }

  /** Every coordinate of an n-by-n board. */
  function Grid(n: int): (g: set<Coord>)
    ensures forall c :: c in g <==> InBounds(c, n)
  {
    set x, y | 0 <= x < n && 0 <= y < n :: (x, y)
  }

  /** The first w columns of a board of height h. */
  function Columns(w: int, h: int): (g: set<Coord>)
    ensures forall c :: c in g <==> 0 <= c.0 < w && 0 <= c.1 < h
  {
    set x, y | 0 <= x < w && 0 <= y < h :: (x, y)
  }

  /** The first h cells of column x. */
  function ColumnPrefix(x: int, h: int): (g: set<Coord>)
    ensures forall c :: c in g <==> c.0 == x && 0 <= c.1 < h
  {
    set y | 0 <= y < h :: (x, y)
  }

  lemma {:induction false} ColumnPrefixSize(x: int, h: nat)
    ensures |ColumnPrefix(x, h)| == h
  {
    if h > 0 {
      ColumnPrefixSize(x, h - 1);
      assert ColumnPrefix(x, h) == ColumnPrefix(x, h - 1) + {(x, h - 1)};
    }
  }

  lemma {:induction false} ColumnsSize(w: nat, h: nat)
    ensures |Columns(w, h)| == w * h
  {
    if w > 0 {
      ColumnsSize(w - 1, h);
      ColumnPrefixSize(w - 1, h);
      ColumnsSplit(w, h);
      MulStep(w, h);
    }
  }

  /** The first w columns are the first w - 1 columns and, apart from them, column w - 1. */
  lemma ColumnsSplit(w: int, h: int)
    requires 0 < w
    ensures Columns(w, h) == Columns(w - 1, h) + ColumnPrefix(w - 1, h)
    ensures Columns(w - 1, h) !! ColumnPrefix(w - 1, h)
  {
    forall c | c in Columns(w, h)
      ensures c in Columns(w - 1, h) + ColumnPrefix(w - 1, h)
    {
      if c.0 == w - 1 {
        assert c in ColumnPrefix(w - 1, h);
      }
    }
  }

  lemma MulStep(w: int, h: int)
    ensures w * h == (w - 1) * h + h
  {
  }

  lemma ColumnsEmpty(s: set<Coord>, x: int, h: int)
    ensures |s * Columns(0, h)| == 0 && |s * ColumnPrefix(x, 0)| == 0
  {
    assert s * Columns(0, h) == {};
    assert s * ColumnPrefix(x, 0) == {};
  }

  lemma ColumnPrefixStep(s: set<Coord>, x: int, y: int)
    requires 0 < y
    ensures |s * ColumnPrefix(x, y)| == |s * ColumnPrefix(x, y - 1)| + (if (x, y - 1) in s then 1 else 0)
  {
    forall c | c in ColumnPrefix(x, y)
      ensures c in ColumnPrefix(x, y - 1) + {(x, y - 1)}
    {
      if c.1 == y - 1 {
        assert c == (x, y - 1);
      }
    }
    assert ColumnPrefix(x, y) == ColumnPrefix(x, y - 1) + {(x, y - 1)};
    CountStep(s, ColumnPrefix(x, y - 1), (x, y - 1));
  }

  lemma ColumnsStep(s: set<Coord>, x: int, h: int)
    requires 0 < x
    ensures |s * Columns(x, h)| == |s * Columns(x - 1, h)| + |s * ColumnPrefix(x - 1, h)|
  {
    ColumnsSplit(x, h);
    assert s * Columns(x, h) == s * Columns(x - 1, h) + s * ColumnPrefix(x - 1, h);
    assert (s * Columns(x - 1, h)) !! (s * ColumnPrefix(x - 1, h));
  }

  /** How many of the first y cells of column x are in s, counted cell by cell from the top. */
  function CountInColumn(s: set<Coord>, x: int, y: int): nat
    requires 0 <= y
  {
    if y == 0 then 0 else CountInColumn(s, x, y - 1) + (if (x, y - 1) in s then 1 else 0)
  }

  /** How many cells of the first w columns of height h are in s, counted column by column. */
  function CountInColumns(s: set<Coord>, w: int, h: int): nat
    requires 0 <= w && 0 <= h
  {
    if w == 0 then 0 else CountInColumns(s, w - 1, h) + CountInColumn(s, w - 1, h)
  }

  /** Counting column x cell by cell gives the number of members of s among its first y cells. */
  lemma {:induction false} CountInColumnSize(s: set<Coord>, x: int, y: int)
    requires 0 <= y
    ensures CountInColumn(s, x, y) == |s * ColumnPrefix(x, y)|
  {
    if y == 0 {
      ColumnsEmpty(s, x, 0);
    } else {
      CountInColumnSize(s, x, y - 1);
      ColumnPrefixStep(s, x, y);
    }
  }

  /** Counting w columns one by one gives the number of members of s among their cells. */
  lemma {:induction false} CountInColumnsSize(s: set<Coord>, w: int, h: int)
    requires 0 <= w && 0 <= h
    ensures CountInColumns(s, w, h) == |s * Columns(w, h)|
  {
    if w == 0 {
      ColumnsEmpty(s, 0, h);
    } else {
      CountInColumnsSize(s, w - 1, h);
      CountInColumnSize(s, w - 1, h);
      ColumnsStep(s, w, h);
    }
  }

  /** Counting over all n columns of an n-by-n board counts every member of s on it. */
  lemma CountInGrid(s: set<Coord>, n: nat)
    requires s <= Grid(n)
    ensures CountInColumns(s, n, n) == |s|
  {
    CountInColumnsSize(s, n, n);
    assert s * Columns(n, n) == s;
  }

  /** An n-by-n board has n * n cells. */
  lemma GridSize(n: nat)
    ensures |Grid(n)| == n * n
  {
    ColumnsSize(n, n);
    assert Grid(n) == Columns(n, n);
  }

  /** d is one of the (up to) eight cells around c. */
  predicate Adjacent(c: Coord, d: Coord)
  {
    c != d && -1 <= d.0 - c.0 <= 1 && -1 <= d.1 - c.1 <= 1
  }

  /**
   * The eight offsets (i, j) in the order the board's nested neighbour loops
   * visit them: i and j each run from -1 to 1, and (0, 0) is skipped.
   */
  const Offsets: seq<Coord> := [(-1, -1), (-1, 0), (-1, 1), (0, -1), (0, 1), (1, -1), (1, 0), (1, 1)]

  /** The k-th neighbour of c in loop order. */
  function Shift(c: Coord, k: int): (d: Coord)
    requires 0 <= k < 8
    ensures Adjacent(c, d)
  {
    (c.0 + Offsets[k].0, c.1 + Offsets[k].1)
  }

  /** The position in loop order of the neighbour d of c. */
  function OffsetIndex(c: Coord, d: Coord): (k: int)
    requires Adjacent(c, d)
    ensures 0 <= k < 8 && Shift(c, k) == d
  {
    var i, j := d.0 - c.0, d.1 - c.1;
    if i == -1 then j + 1
    else if i == 0 then (if j == -1 then 3 else 4)
    else j + 6
  }

  /** The neighbours of c visited by the first k steps of a neighbour loop. */
  function Visited(c: Coord, k: int): set<Coord>
    requires 0 <= k <= 8
  {
    if k == 0 then {} else Visited(c, k - 1) + {Shift(c, k - 1)}
  }

  lemma {:induction false} VisitedMembers(c: Coord, k: int)
    requires 0 <= k <= 8
    ensures forall j :: 0 <= j < k ==> Shift(c, j) in Visited(c, k)
    ensures forall d :: d in Visited(c, k) ==> Adjacent(c, d)
  {
    if k > 0 {
      VisitedMembers(c, k - 1);
    }
  }

  /** A neighbour loop never visits a cell twice. */
  lemma {:induction false} NotYetVisited(c: Coord, k: int, j: int)
    requires 0 <= k <= j < 8
    ensures Shift(c, j) !in Visited(c, k)
  {
    if k > 0 {
      NotYetVisited(c, k - 1, j);
    }
  }

  /** A loop over all eight offsets visits exactly the cells around c. */
  lemma VisitedAll(c: Coord)
    ensures forall d :: d in Visited(c, 8) <==> Adjacent(c, d)
  {
    VisitedMembers(c, 8);
    forall d | Adjacent(c, d)
      ensures d in Visited(c, 8)
    {
      var j := OffsetIndex(c, d);
    }
  }

  lemma {:induction false} VisitedSize(c: Coord, k: int)
    requires 0 <= k <= 8
    ensures |Visited(c, k)| == k
  {
    if k > 0 {
      VisitedSize(c, k - 1);
      NotYetVisited(c, k - 1, k - 1);
    }
  }

  /** Looking at one more cell d counts one more member of s exactly when d is in s. */
  lemma CountStep(s: set<Coord>, seen: set<Coord>, d: Coord)
    requires d !in seen
    ensures |s * (seen + {d})| == |s * seen| + (if d in s then 1 else 0)
  {
    if d in s {
      assert s * (seen + {d}) == s * seen + {d};
    } else {
      assert s * (seen + {d}) == s * seen;
    }
  }

  /** One more step of a neighbour loop counts one more cell of s when it visits one. */
  lemma VisitedCountStep(s: set<Coord>, c: Coord, k: int)
    requires 0 <= k < 8
    ensures |s * Visited(c, k + 1)| == |s * Visited(c, k)| + (if Shift(c, k) in s then 1 else 0)
  {
    NotYetVisited(c, k, k);
    CountStep(s, Visited(c, k), Shift(c, k));
  }

  /** The mines of `mines` that lie on an n-by-n board around c. */
  function MinesNear(mines: set<Coord>, c: Coord, n: int): (s: set<Coord>)
    ensures forall d :: d in s <==> d in mines && InBounds(d, n) && Adjacent(c, d)
  {
    set d | d in mines && InBounds(d, n) && Adjacent(c, d)
  }

  /** The adjacency number of c: how many in-bounds cells around c are mines. */
  function MinesAround(mines: set<Coord>, c: Coord, n: int): nat
  {
    |MinesNear(mines, c, n)|
  }

  lemma SubsetSize<T>(a: set<T>, b: set<T>)
    requires a <= b
    ensures |a| <= |b|
  {
    assert b == a + (b - a);
  }

  /** A full neighbour loop visits every cell counted by MinesNear. */
  lemma NearAllVisited(mines: set<Coord>, c: Coord, n: int)
    ensures MinesNear(mines, c, n) * Visited(c, 8) == MinesNear(mines, c, n)
  {
    VisitedAll(c);
  }

  /** An adjacency number lies between 0 and 8. */
  lemma MinesAroundAtMostEight(mines: set<Coord>, c: Coord, n: int)
    ensures 0 <= MinesAround(mines, c, n) <= 8
  {
    VisitedAll(c);
    VisitedSize(c, 8);
    SubsetSize(MinesNear(mines, c, n), Visited(c, 8));
  }

  /** An adjacency number of 0 means no cell around c is a mine. */
  lemma NoMineAroundZero(mines: set<Coord>, c: Coord, n: int, d: Coord)
    requires MinesAround(mines, c, n) == 0
    requires Adjacent(c, d) && InBounds(d, n)
    ensures d !in mines
  {
  }
}
