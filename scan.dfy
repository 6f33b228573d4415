/**
 * The sandwich rule and the list of legal moves
 * (Othello.return_available_positions).
 */
module Scan {
  import opened Board

  /**
   * The nine cells met walking from (i, j) along d, one step at a time;
   * steps off the grid read as Border.  From a playing cell the walk reaches
   * the frame within eight steps.
   */
  function Ray(g: Grid, i: int, j: int, d: Dir): (r: seq<Cell>)
    ensures |r| == 9
  {
    seq(9, t requires 0 <= t < 9 => At(g, RayCell(i, j, d, t + 1)))
  }

  /** The number of leading o cells of r: the inner `while` of the scan. */
  function LeadRun(r: seq<Cell>, o: Cell): (n: nat)
    ensures n <= |r|
    ensures forall t :: 0 <= t < n ==> r[t] == o
    ensures n < |r| ==> r[n] != o
  {
    if r == [] || r[0] != o then 0 else 1 + LeadRun(r[1..], o)
  }

  /** The run of opponent cells right next to (i, j) along d. */
  function RunLength(g: Grid, i: int, j: int, d: Dir, c: Color): (n: nat)
    ensures n <= 9
    ensures forall t :: 1 <= t <= n ==> At(g, RayCell(i, j, d, t)) == Opponent(c)
  {
    var r := Ray(g, i, j, d);
    assert forall t :: 1 <= t <= 9 ==> r[t - 1] == At(g, RayCell(i, j, d, t));
    LeadRun(r, Opponent(c))
  }

  /**
   * Direction d qualifies for a move by c at (i, j): at least one opponent
   * cell, and the first cell after the run holds c.
   */
  predicate Qualifies(g: Grid, i: int, j: int, d: Dir, c: Color)
    ensures Qualifies(g, i, j, d, c) <==>
              1 <= RunLength(g, i, j, d, c) < 9 && At(g, RayCell(i, j, d, RunLength(g, i, j, d, c) + 1)) == c
  {
    var r := Ray(g, i, j, d);
    var n := LeadRun(r, Opponent(c));
    1 <= n < |r| && r[n] == c
  }

  /** LeadRun is determined by its two defining facts. */
  lemma {:induction false} LeadRunUnique(r: seq<Cell>, o: Cell, n: nat)
    requires n < |r| && r[n] != o
    requires forall t :: 0 <= t < n ==> r[t] == o
    ensures LeadRun(r, o) == n
  {
    if n > 0 {
      LeadRunUnique(r[1..], o, n - 1);
    }
  }

  /** Steps from (i, j) along d to the frame. */
  function FrameSteps(i: int, j: int, d: Dir): int {
    if d.0 == 0 then Reach(j, d.1)
    else if d.1 == 0 then Reach(i, d.0)
    else if Reach(i, d.0) <= Reach(j, d.1) then Reach(i, d.0)
    else Reach(j, d.1)
  }

  lemma FrameStepsBounds(i: int, j: int, d: Dir)
    requires Interior((i, j))
    ensures 1 <= FrameSteps(i, j, d) <= 8
    ensures OnFrame(RayCell(i, j, d, FrameSteps(i, j, d)))
    ensures forall t :: 1 <= t <= FrameSteps(i, j, d) ==> InGrid(RayCell(i, j, d, t))
  {
  }

  /**
   * The scan stays on the grid: on a framed board the opponent run from a
   * playing cell ends before the frame, and the cell that ends it is on the
   * grid, because Border is never an opponent.
   */
  lemma RunStaysInside(g: Grid, i: int, j: int, d: Dir, c: Color)
    requires Framed(g) && Interior((i, j))
    ensures RunLength(g, i, j, d, c) < FrameSteps(i, j, d)
    ensures forall t :: 1 <= t <= RunLength(g, i, j, d, c) + 1 ==> InGrid(RayCell(i, j, d, t))
  {
    var k := FrameSteps(i, j, d);
    FrameStepsBounds(i, j, d);
    var r := Ray(g, i, j, d);
    assert r[k - 1] == At(g, RayCell(i, j, d, k)) == Border;
  }

  /**
   * The run cell by cell, as a walk over the grid sees it: the first
   * RunLength steps hold the opponent and the step after does not, all on the grid.
   */
  lemma RunCells(g: Grid, i: int, j: int, d: Dir, c: Color)
    requires Framed(g) && Interior((i, j))
    ensures forall t :: 1 <= t <= RunLength(g, i, j, d, c) + 1 ==> InGrid(RayCell(i, j, d, t))
    ensures forall t :: 1 <= t <= RunLength(g, i, j, d, c) ==> At(g, RayCell(i, j, d, t)) == Opponent(c)
    ensures At(g, RayCell(i, j, d, RunLength(g, i, j, d, c) + 1)) != Opponent(c)
  {
    RunStaysInside(g, i, j, d, c);
    var r := Ray(g, i, j, d);
    assert forall t :: 1 <= t <= 9 ==> r[t - 1] == At(g, RayCell(i, j, d, t));
  }

  /**
   * What the scan's walk decides: the neighbour along d is on the grid, it
   * holds the opponent exactly when the run is not empty, and then d
   * qualifies exactly when the cell after the run holds c.
   */
  lemma WalkDecides(g: Grid, i: int, j: int, d: Dir, c: Color)
    requires Framed(g) && Interior((i, j))
    ensures InGrid((i + d.0, j + d.1))
    ensures At(g, (i + d.0, j + d.1)) == Opponent(c) <==> RunLength(g, i, j, d, c) >= 1
    ensures RunLength(g, i, j, d, c) >= 1 ==>
              (Qualifies(g, i, j, d, c) <==> At(g, RayCell(i, j, d, RunLength(g, i, j, d, c) + 1)) == c)
    ensures RunLength(g, i, j, d, c) == 0 ==> !Qualifies(g, i, j, d, c)
  {
    var n := RunLength(g, i, j, d, c);
    RunStaysInside(g, i, j, d, c);
    var r := Ray(g, i, j, d);
    assert r[0] == At(g, (i + d.0, j + d.1));
    if n == 0 {
      assert !Qualifies(g, i, j, d, c);
    } else {
      assert n < 9;
    }
  }

  /** Steps 1..n along d from (i, j) all hold the opponent of c. */
  ghost predicate OpponentRun(g: Grid, i: int, j: int, d: Dir, c: Color, n: int) {
    forall t :: 1 <= t <= n ==> At(g, RayCell(i, j, d, t)) == Opponent(c)
  }

  /** Step n + 1 along d from (i, j) holds c. */
  predicate ClosedAt(g: Grid, i: int, j: int, d: Dir, c: Color, n: int) {
    At(g, RayCell(i, j, d, n + 1)) == c
  }

  /** The sandwich rule stated directly: some run of one or more opponent cells closed by c. */
  ghost predicate Sandwiched(g: Grid, i: int, j: int, d: Dir, c: Color) {
    exists n :: n >= 1 && OpponentRun(g, i, j, d, c, n) && ClosedAt(g, i, j, d, c, n)
  }

  /** A sandwich of n opponent cells closed by c is exactly the run the scan finds, so d qualifies. */
  lemma SandwichFound(g: Grid, i: int, j: int, d: Dir, c: Color, n: int)
    requires Framed(g) && Interior((i, j)) && n >= 1
    requires OpponentRun(g, i, j, d, c, n) && ClosedAt(g, i, j, d, c, n)
    ensures RunLength(g, i, j, d, c) == n && Qualifies(g, i, j, d, c)
  {
    var r := Ray(g, i, j, d);
    var k := FrameSteps(i, j, d);
    FrameStepsBounds(i, j, d);
    assert n >= k ==> At(g, RayCell(i, j, d, k)) == Opponent(c);
    assert At(g, RayCell(i, j, d, k)) == Border;
    forall t | 0 <= t < n
      ensures r[t] == Opponent(c)
    {
      assert At(g, RayCell(i, j, d, t + 1)) == Opponent(c);
    }
    LeadRunUnique(r, Opponent(c), n);
  }

  /** The scan implements the sandwich rule, in both directions. */
  lemma QualifiesIffSandwiched(g: Grid, i: int, j: int, d: Dir, c: Color)
    requires Framed(g) && Interior((i, j))
    ensures Qualifies(g, i, j, d, c) <==> Sandwiched(g, i, j, d, c)
  {
    if Qualifies(g, i, j, d, c) {
      RunCells(g, i, j, d, c);
      WalkDecides(g, i, j, d, c);
      var len := RunLength(g, i, j, d, c);
      assert OpponentRun(g, i, j, d, c, len) && ClosedAt(g, i, j, d, c, len);
    }
    if Sandwiched(g, i, j, d, c) {
      var n :| n >= 1 && OpponentRun(g, i, j, d, c, n) && ClosedAt(g, i, j, d, c, n);
      SandwichFound(g, i, j, d, c, n);
    }
  }


  /** A legal move for c: an Empty playing cell from which some direction qualifies. */
  predicate Legal(g: Grid, c: Color, p: Pos)
    requires Framed(g)
    ensures Legal(g, c, p) <==> Multiplicity(g, c, p) > 0
  {
    if Interior(p) && g[p.0][p.1] == Empty then
      TrueCountPositive(Flags(g, p.0, p.1, c));
      FlagsQualify(g, p.0, p.1, c);
      exists m :: 0 <= m < 8 && Qualifies(g, p.0, p.1, Directions[m], c)
    else
      false
  }

  /** Which of the eight directions qualify at (i, j), in scan order. */
  function Flags(g: Grid, i: int, j: int, c: Color): (f: seq<bool>)
    requires Framed(g) && Interior((i, j))
    ensures |f| == 8
  {
    seq(8, m requires 0 <= m < 8 => Qualifies(g, i, j, Directions[m], c))
  }

  /** One copy of p per true flag: what the direction loop appends for one cell. */
  function Repeat(p: Pos, f: seq<bool>): (r: seq<Pos>)
    ensures |r| <= |f|
    ensures forall q :: q in r ==> q == p
  {
    if f == [] then [] else Repeat(p, f[..|f| - 1]) + (if f[|f| - 1] then [p] else [])
  }

  /** The number of true flags. */
  function TrueCount(f: seq<bool>): nat {
    if f == [] then 0 else TrueCount(f[..|f| - 1]) + (if f[|f| - 1] then 1 else 0)
  }

  /** Scanning one more direction appends p when that direction's flag is set. */
  lemma RepeatSnoc(p: Pos, f: seq<bool>, k: nat)
    requires k < |f|
    ensures Repeat(p, f[..k + 1]) == Repeat(p, f[..k]) + (if f[k] then [p] else [])
  {
    assert f[..k + 1][..k] == f[..k];
  }

  lemma {:induction false} TrueCountPositive(f: seq<bool>)
    ensures TrueCount(f) > 0 <==> true in f
  {
    if f != [] {
      TrueCountPositive(f[..|f| - 1]);
      assert f == f[..|f| - 1] + [f[|f| - 1]];
    }
  }

  lemma {:induction false} RepeatCount(p: Pos, f: seq<bool>, q: Pos)
    ensures multiset(Repeat(p, f))[q] == if q == p then TrueCount(f) else 0
  {
    if f != [] {
      RepeatCount(p, f[..|f| - 1], q);
    }
  }

  lemma {:induction false} RepeatRowMajor(p: Pos, f: seq<bool>)
    ensures forall q :: q in Repeat(p, f) ==> q == p
    ensures RowMajor(Repeat(p, f))
  {
    if f != [] {
      RepeatRowMajor(p, f[..|f| - 1]);
    }
    var r := Repeat(p, f);
    forall a, b | 0 <= a < b < |r|
      ensures RowMajorLe(r[a], r[b])
    {
      assert r[a] in r && r[b] in r;
    }
  }

  /** A cell has a qualifying direction exactly when one of its flags is set. */
  lemma FlagsQualify(g: Grid, i: int, j: int, c: Color)
    requires Framed(g) && Interior((i, j))
    ensures true in Flags(g, i, j, c) <==> exists m :: 0 <= m < 8 && Qualifies(g, i, j, Directions[m], c)
  {
    var f := Flags(g, i, j, c);
    if true in f {
      var m :| 0 <= m < 8 && f[m];
      assert Qualifies(g, i, j, Directions[m], c);
    }
    if exists m :: 0 <= m < 8 && Qualifies(g, i, j, Directions[m], c) {
      var m :| 0 <= m < 8 && Qualifies(g, i, j, Directions[m], c);
      assert f[m];
    }
  }

  /** The entries for (i, j): none unless the cell is Empty, else one per qualifying direction. */
  function CellEntries(g: Grid, i: int, j: int, c: Color): (r: seq<Pos>)
    requires Framed(g) && Interior((i, j))
    ensures |r| <= 8
    ensures forall q :: q in r ==> q == (i, j)
  {
    if g[i][j] == Empty then Repeat((i, j), Flags(g, i, j, c)) else []
  }

  /** The entries for cells (i, 1) .. (i, j - 1) of row i. */
  function RowEntries(g: Grid, c: Color, i: int, j: int): (r: seq<Pos>)
    requires Framed(g) && 1 <= i <= 8 && 1 <= j <= 9
    decreases j
  {
    if j == 1 then [] else RowEntries(g, c, i, j - 1) + CellEntries(g, i, j - 1, c)
  }

  /** The entries for rows 1 .. i - 1, in row-major order. */
  function ScanRows(g: Grid, c: Color, i: int): (r: seq<Pos>)
    requires Framed(g) && 1 <= i <= 9
    decreases i
  {
    if i == 1 then [] else ScanRows(g, c, i - 1) + RowEntries(g, c, i - 1, 9)
  }

  /** The list `return_available_positions(c)` returns. */
  function AvailablePositions(g: Grid, c: Color): (r: seq<Pos>)
    requires Framed(g)
    ensures forall q :: q in r ==> Interior(q)
  {
    ScanRowsOrdered(g, c, 9);
    ScanRows(g, c, 9)
  }

  /** Row-major (lexicographic) order on positions, ties allowed. */
  predicate RowMajorLe(p: Pos, q: Pos) {
    p.0 < q.0 || (p.0 == q.0 && p.1 <= q.1)
  }

  predicate RowMajor(s: seq<Pos>) {
    forall a, b :: 0 <= a < b < |s| ==> RowMajorLe(s[a], s[b])
  }

  /** How often the full list holds p: once per qualifying direction of an Empty playing cell. */
  function Multiplicity(g: Grid, c: Color, p: Pos): nat
    requires Framed(g)
  {
    if Interior(p) && g[p.0][p.1] == Empty then TrueCount(Flags(g, p.0, p.1, c)) else 0
  }

  /** One cell's entries hold that cell as often as it has qualifying directions, and nothing else. */
  lemma CellEntriesCount(g: Grid, i: int, j: int, c: Color, p: Pos)
    requires Framed(g) && Interior((i, j))
    ensures multiset(CellEntries(g, i, j, c))[p] == if p == (i, j) then Multiplicity(g, c, p) else 0
  {
    RepeatCount((i, j), Flags(g, i, j, c), p);
  }

  lemma {:induction false} RowEntriesCount(g: Grid, c: Color, i: int, j: int, p: Pos)
    requires Framed(g) && 1 <= i <= 8 && 1 <= j <= 9
    ensures multiset(RowEntries(g, c, i, j))[p] == if p.0 == i && p.1 < j then Multiplicity(g, c, p) else 0
    decreases j
  {
    if j > 1 {
      var before, here := RowEntries(g, c, i, j - 1), CellEntries(g, i, j - 1, c);
      RowEntriesCount(g, c, i, j - 1, p);
      CellEntriesCount(g, i, j - 1, c, p);
      assert RowEntries(g, c, i, j) == before + here;
      assert multiset(before + here)[p] == multiset(before)[p] + multiset(here)[p];
      if p.0 == i && p.1 == j - 1 {
        assert p == (i, j - 1);
      }
    }
  }

  lemma {:induction false} ScanRowsCount(g: Grid, c: Color, i: int, p: Pos)
    requires Framed(g) && 1 <= i <= 9
    ensures multiset(ScanRows(g, c, i))[p] == if p.0 < i then Multiplicity(g, c, p) else 0
    decreases i
  {
    if i > 1 {
      ScanRowsCount(g, c, i - 1, p);
      RowEntriesCount(g, c, i - 1, 9, p);
      assert multiset(ScanRows(g, c, i))[p] ==
             multiset(ScanRows(g, c, i - 1))[p] + multiset(RowEntries(g, c, i - 1, 9))[p];
    }
  }

  /**
   * The list holds each position exactly as often as it has qualifying
   * directions, and only Empty cells of the playing area.
   */
  lemma AvailableMultiplicity(g: Grid, c: Color, p: Pos)
    requires Framed(g)
    ensures multiset(AvailablePositions(g, c))[p] == Multiplicity(g, c, p)
  {
    ScanRowsCount(g, c, 9, p);
  }

  /** A position is in the list exactly when it is a legal move. */
  lemma AvailableIffLegal(g: Grid, c: Color, p: Pos)
    requires Framed(g)
    ensures p in AvailablePositions(g, c) <==> Legal(g, c, p)
    ensures p in AvailablePositions(g, c) ==> Interior(p) && g[p.0][p.1] == Empty
  {
    AvailableMultiplicity(g, c, p);
    if Interior(p) {
      TrueCountPositive(Flags(g, p.0, p.1, c));
      FlagsQualify(g, p.0, p.1, c);
    }
  }

  lemma RowMajorConcat(s: seq<Pos>, u: seq<Pos>)
    requires RowMajor(s) && RowMajor(u)
    requires forall p, q :: p in s && q in u ==> RowMajorLe(p, q)
    ensures RowMajor(s + u)
  {
    forall a, b | 0 <= a < b < |s + u|
      ensures RowMajorLe((s + u)[a], (s + u)[b])
    {
      if b < |s| {
      } else if a >= |s| {
        assert (s + u)[a] == u[a - |s|] && (s + u)[b] == u[b - |s|];
      } else {
        assert (s + u)[a] in s && (s + u)[b] in u;
      }
    }
  }

  lemma {:induction false} RowEntriesOrdered(g: Grid, c: Color, i: int, j: int)
    requires Framed(g) && 1 <= i <= 8 && 1 <= j <= 9
    ensures RowMajor(RowEntries(g, c, i, j))
    ensures forall q :: q in RowEntries(g, c, i, j) ==> q.0 == i && 1 <= q.1 < j
    decreases j
  {
    if j > 1 {
      RowEntriesOrdered(g, c, i, j - 1);
      RepeatRowMajor((i, j - 1), Flags(g, i, j - 1, c));
      RowMajorConcat(RowEntries(g, c, i, j - 1), CellEntries(g, i, j - 1, c));
    }
  }

  lemma {:induction false} ScanRowsOrdered(g: Grid, c: Color, i: int)
    requires Framed(g) && 1 <= i <= 9
    ensures RowMajor(ScanRows(g, c, i))
    ensures forall q :: q in ScanRows(g, c, i) ==> 1 <= q.0 < i && 1 <= q.1 <= 8
    decreases i
  {
    if i > 1 {
      ScanRowsOrdered(g, c, i - 1);
      RowEntriesOrdered(g, c, i - 1, 9);
      RowMajorConcat(ScanRows(g, c, i - 1), RowEntries(g, c, i - 1, 9));
    }
  }

  /** The list comes out in row-major order, as the two nested `for` loops visit the cells. */
  lemma AvailableRowMajor(g: Grid, c: Color)
    requires Framed(g)
    ensures RowMajor(AvailablePositions(g, c))
  {
    ScanRowsOrdered(g, c, 9);
  }
}
