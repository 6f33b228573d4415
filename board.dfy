/**
 * The board of Othello.py: a 10x10 grid of cells whose outermost rows and
 * columns hold the '*' sentinel, so that every scan started inside the 8x8
 * playing area meets the frame before it can leave the grid.  Positions are
 * (row, column) pairs; the eight scan directions are unit vectors.
 */
module Board {

  /** One square: '.' (Empty), 'X' (Black), 'O' (White) or the '*' frame (Border). */
  datatype Cell = Empty | Black | White | Border

  /** The colour a move is made with: 'X' or 'O'. */
  type Color = c: Cell | c == Black || c == White witness Black

  /** (row, column); also used for direction vectors. */
  type Pos = (int, int)

  /** The grid as a value: a list of rows, as the Python board is a list of lists. */
  type Grid = seq<seq<Cell>>

  /** The colour a run must consist of to be captured: 'O' if the mover is 'X', else 'X'. */
  function Opponent(c: Color): (o: Color)
    ensures o != c
  {
    if c == Black then White else Black
  }

  predicate WellFormed(g: Grid) {
    |g| == 10 && forall a :: 0 <= a < 10 ==> |g[a]| == 10
  }

  predicate InGrid(p: Pos) {
    0 <= p.0 < 10 && 0 <= p.1 < 10
  }

  /** Rows and columns 0 and 9. */
  predicate OnFrame(p: Pos) {
    p.0 == 0 || p.0 == 9 || p.1 == 0 || p.1 == 9
  }

  /** The 8x8 playing area, rows and columns 1..8. */
  predicate Interior(p: Pos) {
    1 <= p.0 <= 8 && 1 <= p.1 <= 8
  }

  /** The sentinel invariant: a cell holds Border exactly when it lies on the frame. */
  predicate Framed(g: Grid) {
    WellFormed(g) &&
    forall a, b :: 0 <= a < 10 && 0 <= b < 10 ==> (g[a][b] == Border <==> OnFrame((a, b)))
  }

  /** The cell at p; positions off the grid read as Border, like the frame around it. */
  function At(g: Grid, p: Pos): Cell {
    if 0 <= p.0 < |g| && 0 <= p.1 < |g[p.0]| then g[p.0][p.1] else Border
  }

  /** A unit step in one of the eight compass directions. */
  predicate IsDir(d: Pos) {
    -1 <= d.0 <= 1 && -1 <= d.1 <= 1 && d != (0, 0)
  }

  type Dir = d: Pos | IsDir(d) witness (0, 1)

  /** The eight directions in the order Othello.py scans them. */
  const Directions: seq<Dir> := [(0, 1), (1, 0), (0, -1), (-1, 0), (-1, -1), (-1, 1), (1, -1), (1, 1)]

  /** A list of distinct directions, such as Directions. */
  predicate DirList(ds: seq<Dir>) {
    forall m, n :: 0 <= m < n < |ds| ==> ds[m] != ds[n]
  }

  /** s times the step component dx (which is -1, 0 or 1), kept linear. */
  function Scale(s: int, dx: int): int {
    if dx > 0 then s else if dx < 0 then -s else 0
  }

  /** The cell s steps from (i, j) in direction d. */
  function RayCell(i: int, j: int, d: Pos, s: int): Pos {
    (i + Scale(s, d.0), j + Scale(s, d.1))
  }

  /** One more step along d moves each coordinate by that component of d. */
  lemma RayCellStep(i: int, j: int, d: Dir, s: int)
    ensures RayCell(i, j, d, s + 1).0 == RayCell(i, j, d, s).0 + d.0
    ensures RayCell(i, j, d, s + 1).1 == RayCell(i, j, d, s).1 + d.1
  {
  }

  /** How many steps along d lead from (i, j) to p, when p is on that ray. */
  function Dist(i: int, j: int, d: Pos, p: Pos): int {
    if d.0 > 0 then p.0 - i
    else if d.0 < 0 then i - p.0
    else if d.1 > 0 then p.1 - j
    else j - p.1
  }

  /** p is on the ray from (i, j) along d, between lo and hi steps inclusive. */
  predicate OnSegment(i: int, j: int, d: Pos, lo: int, hi: int, p: Pos) {
    var s := Dist(i, j, d, p);
    lo <= s <= hi && p == RayCell(i, j, d, s)
  }

  /** A walk along d is back at its origin only after zero steps. */
  lemma RayCellOrigin(i: int, j: int, d: Dir, s: int)
    ensures RayCell(i, j, d, s).0 == i && RayCell(i, j, d, s).1 == j <==> s == 0
  {
  }

  /** Growing a segment by one step at its near end adds exactly the cell at that step. */
  lemma OnSegmentGrow(i: int, j: int, d: Dir, lo: int, hi: int, p: Pos)
    requires lo <= hi + 1
    ensures OnSegment(i, j, d, lo - 1, hi, p) <==> OnSegment(i, j, d, lo, hi, p) || p == RayCell(i, j, d, lo - 1)
  {
    DistRayCell(i, j, d, lo - 1);
  }

  /** Steps left before a walk along dx from coordinate x reaches index 0 or 9. */
  function Reach(x: int, dx: int): int {
    if dx > 0 then 9 - x else if dx < 0 then x else 0
  }

  lemma DistRayCell(i: int, j: int, d: Pos, s: int)
    requires IsDir(d)
    ensures Dist(i, j, d, RayCell(i, j, d, s)) == s
    ensures RayCell(i, j, d, s) == (i, j) <==> s == 0
  {
  }

  /**
   * Two of the eight rays from one cell meet only at that cell: a cell at
   * least one step away lies on one direction's ray only, at one distance.
   */
  lemma RaysDisjoint(i: int, j: int, d: Pos, e: Pos, s: int, t: int)
    requires IsDir(d) && IsDir(e) && s >= 1 && t >= 1
    requires RayCell(i, j, d, s) == RayCell(i, j, e, t)
    ensures d == e && s == t
  {
  }

  /** Two 10x10 grids that agree on every cell are equal. */
  lemma GridExt(g: Grid, h: Grid)
    requires WellFormed(g) && WellFormed(h)
    requires forall p :: InGrid(p) ==> At(g, p) == At(h, p)
    ensures g == h
  {
    forall a | 0 <= a < 10
      ensures g[a] == h[a]
    {
      forall b | 0 <= b < 10
        ensures g[a][b] == h[a][b]
      {
        assert At(g, (a, b)) == At(h, (a, b));
      }
    }
  }

  /** The grid with one cell replaced: `board[a][b] = v`. */
  function Place(g: Grid, p: Pos, v: Cell): (r: Grid)
    requires 0 <= p.0 < |g| && 0 <= p.1 < |g[p.0]|
  {
    g[p.0 := g[p.0][p.1 := v]]
  }

  lemma PlaceAt(g: Grid, q: Pos, v: Cell)
    requires WellFormed(g) && InGrid(q)
    ensures WellFormed(Place(g, q, v))
    ensures forall p :: InGrid(p) ==> At(Place(g, q, v), p) == if p == q then v else At(g, p)
  {
  }

  lemma PlaceFramed(g: Grid, p: Pos, v: Cell)
    requires Framed(g) && Interior(p) && v != Border
    ensures Framed(Place(g, p, v))
    ensures forall q :: InGrid(q) ==> At(Place(g, p, v), q) == if q == p then v else At(g, q)
  {
  }

  /** Some cell of g holds c. */
  predicate Holds(g: Grid, c: Cell) {
    exists a, b :: 0 <= a < |g| && 0 <= b < |g[a]| && g[a][b] == c
  }

  /** The number of cells holding c: `sum(row.count(c) for row in board)`. */
  function Count(g: Grid, c: Cell): (n: nat) {
    if g == [] then 0 else Count(g[..|g| - 1], c) + multiset(g[|g| - 1])[c]
  }

  /** Writing v at index k of a row moves the row's count of c as the old and new contents say. */
  lemma RowPlaceCount(row: seq<Cell>, k: int, v: Cell, c: Cell)
    requires 0 <= k < |row|
    ensures multiset(row[k := v])[c] ==
            multiset(row)[c] - (if row[k] == c then 1 else 0) + (if v == c then 1 else 0)
  {
    assert row == row[..k] + [row[k]] + row[k + 1..];
    assert row[k := v] == row[..k] + [v] + row[k + 1..];
  }

  /** Replacing one cell moves the count of c by at most one, as the old and new contents say. */
  lemma {:induction false} CountPlace(g: Grid, p: Pos, v: Cell, c: Cell)
    requires 0 <= p.0 < |g| && 0 <= p.1 < |g[p.0]|
    ensures Count(Place(g, p, v), c) ==
            Count(g, c) - (if g[p.0][p.1] == c then 1 else 0) + (if v == c then 1 else 0)
  {
    var r := Place(g, p, v);
    var n := |g| - 1;
    if p.0 == n {
      assert r[..n] == g[..n];
      RowPlaceCount(g[n], p.1, v, c);
    } else {
      assert r[..n] == Place(g[..n], p, v) && r[n] == g[n];
      CountPlace(g[..n], p, v, c);
    }
  }

  /** The count of c is zero exactly when no cell of g holds c. */
  lemma {:induction false} CountZero(g: Grid, c: Cell)
    ensures Count(g, c) == 0 <==> !Holds(g, c)
  {
    if g != [] {
      var front, row := g[..|g| - 1], g[|g| - 1];
      CountZero(front, c);
      if c in row {
        var b :| 0 <= b < |row| && row[b] == c;
        assert g[|g| - 1][b] == c;
      }
      if Holds(front, c) {
        var a, b :| 0 <= a < |front| && 0 <= b < |front[a]| && front[a][b] == c;
        assert g[a][b] == c;
      }
    }
  }
}
