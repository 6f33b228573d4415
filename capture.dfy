/**
 * Placing a piece and capturing (Othello.make_move): the piece is put down,
 * then each direction, in scan order, that shows a run of opponent cells
 * closed by the mover's colour has that run turned over.
 */
module Capture {
  import opened Board
  import opened Scan

  /** The grid with the cells 1..n steps from (i, j) along d set to c: one walk back of make_move. */
  function FlipRun(g: Grid, i: int, j: int, d: Dir, n: int, c: Color): (r: Grid)
    requires WellFormed(g)
    ensures WellFormed(r)
    ensures InGrid((i, j)) ==> r[i][j] == g[i][j]
  {
    seq(10, a requires 0 <= a < 10 =>
      seq(10, b requires 0 <= b < 10 => if OnSegment(i, j, d, 1, n, (a, b)) then c else g[a][b]))
  }

  /** What FlipRun does to one cell. */
  lemma FlipRunAt(g: Grid, i: int, j: int, d: Dir, n: int, c: Color, p: Pos)
    requires WellFormed(g) && InGrid(p)
    ensures At(FlipRun(g, i, j, d, n, c), p) == if OnSegment(i, j, d, 1, n, p) then c else At(g, p)
  {
  }

  /** Every cell of the run next to (i, j) holds the opponent's colour. */
  lemma RunCellOpponent(g: Grid, i: int, j: int, d: Dir, c: Color, p: Pos)
    requires Framed(g) && Interior((i, j))
    requires OnSegment(i, j, d, 1, RunLength(g, i, j, d, c), p)
    ensures At(g, p) == Opponent(c) && InGrid(p) && !OnFrame(p)
  {
    var s := Dist(i, j, d, p);
    RunStaysInside(g, i, j, d, c);
    assert Ray(g, i, j, d)[s - 1] == Opponent(c);
  }

  /** Turning over a run of opponent cells keeps the frame and the origin. */
  lemma FlipRunFramed(g: Grid, i: int, j: int, d: Dir, c: Color)
    requires Framed(g) && Interior((i, j))
    ensures var r := FlipRun(g, i, j, d, RunLength(g, i, j, d, c), c);
      Framed(r) && r[i][j] == g[i][j]
  {
    var n := RunLength(g, i, j, d, c);
    var r := FlipRun(g, i, j, d, n, c);
    forall a, b | 0 <= a < 10 && 0 <= b < 10
      ensures r[a][b] == Border <==> OnFrame((a, b))
    {
      FlipRunAt(g, i, j, d, n, c, (a, b));
      if OnSegment(i, j, d, 1, n, (a, b)) {
        RunCellOpponent(g, i, j, d, c, (a, b));
      }
    }
    DistRayCell(i, j, d, 0);
    FlipRunAt(g, i, j, d, n, c, (i, j));
  }

  /** One pass of make_move's direction loop: d's run is turned over when d qualifies. */
  function FlipStep(h: Grid, i: int, j: int, c: Color, d: Dir): (r: Grid)
    requires Framed(h) && Interior((i, j))
    ensures Framed(r) && r[i][j] == h[i][j]
  {
    if Qualifies(h, i, j, d, c) then
      FlipRunFramed(h, i, j, d, c);
      FlipRun(h, i, j, d, RunLength(h, i, j, d, c), c)
    else h
  }

  /**
   * The board after the direction loop has handled the directions ds, in
   * order: the one just handled is flipped when it qualifies on the board
   * as the earlier directions left it.
   */
  function Sweep(g: Grid, i: int, j: int, c: Color, ds: seq<Dir>): (r: Grid)
    requires Framed(g) && Interior((i, j))
    ensures Framed(r) && r[i][j] == g[i][j]
    decreases |ds|
  {
    if ds == [] then g
    else FlipStep(Sweep(g, i, j, c, ds[..|ds| - 1]), i, j, c, ds[|ds| - 1])
  }

  /** Handling the first k + 1 directions is handling the first k, then direction k. */
  lemma SweepSnoc(g: Grid, i: int, j: int, c: Color, ds: seq<Dir>, k: int)
    requires Framed(g) && Interior((i, j)) && 0 <= k < |ds|
    ensures Sweep(g, i, j, c, ds[..k + 1]) == FlipStep(Sweep(g, i, j, c, ds[..k]), i, j, c, ds[k])
  {
    assert ds[..k + 1][..k] == ds[..k];
  }

  /** The board after make_move(c, (i, j)). */
  function Move(g: Grid, i: int, j: int, c: Color): (r: Grid)
    requires Framed(g) && Interior((i, j))
    ensures Framed(r) && r[i][j] == c
  {
    PlaceFramed(g, (i, j), c);
    Sweep(Place(g, (i, j), c), i, j, c, Directions)
  }

  /**
   * p is captured by a move of c at (i, j) over directions ds, judged on the
   * board before the move: it lies inside the opponent run of a direction
   * that qualifies.
   */
  ghost predicate Captured(g: Grid, i: int, j: int, c: Color, ds: seq<Dir>, p: Pos) {
    exists d :: d in ds && InRun(g, i, j, c, d, p)
  }

  /** d qualifies and p lies inside its opponent run. */
  predicate InRun(g: Grid, i: int, j: int, c: Color, d: Dir, p: Pos) {
    Qualifies(g, i, j, d, c) && OnSegment(i, j, d, 1, RunLength(g, i, j, d, c), p)
  }

  /** The total number of cells turned over: the lengths of the qualifying runs. */
  function Flips(g: Grid, i: int, j: int, c: Color, ds: seq<Dir>): (k: nat)
    requires Framed(g) && Interior((i, j))
    ensures k <= 8 * |ds|
    decreases |ds|
  {
    if ds == [] then 0
    else
      var d := ds[|ds| - 1];
      Flips(g, i, j, c, ds[..|ds| - 1]) + (if Qualifies(g, i, j, d, c) then RunLength(g, i, j, d, c) else 0)
  }

  /** The run and the verdict of a direction depend only on the cells of its ray. */
  lemma RayAgree(g: Grid, h: Grid, i: int, j: int, d: Dir)
    requires forall t :: t >= 1 ==> At(g, RayCell(i, j, d, t)) == At(h, RayCell(i, j, d, t))
    ensures Ray(g, i, j, d) == Ray(h, i, j, d)
  {
    var r, q := Ray(g, i, j, d), Ray(h, i, j, d);
    forall t | 0 <= t < 9
      ensures r[t] == q[t]
    {
      assert At(g, RayCell(i, j, d, t + 1)) == At(h, RayCell(i, j, d, t + 1));
    }
  }

  /** Cells on the ray of a direction not in ds lie on no ray of ds, so the sweep leaves them alone. */
  lemma CapturedOffRay(g: Grid, i: int, j: int, c: Color, ds: seq<Dir>, d: Dir, t: int)
    requires Framed(g) && Interior((i, j)) && d !in ds && t >= 1
    ensures !Captured(g, i, j, c, ds, RayCell(i, j, d, t))
  {
    var q := RayCell(i, j, d, t);
    if Captured(g, i, j, c, ds, q) {
      var e :| e in ds && InRun(g, i, j, c, e, q);
      RaysDisjoint(i, j, e, d, Dist(i, j, e, q), t);
      assert false;
    }
  }

  /** One more direction: the sweep flips that direction's run when it qualifies on the current board. */
  lemma SweepStep(g: Grid, i: int, j: int, c: Color, ds: seq<Dir>)
    requires Framed(g) && Interior((i, j)) && ds != []
    ensures var h := Sweep(g, i, j, c, ds[..|ds| - 1]);
            var d := ds[|ds| - 1];
      forall p :: InGrid(p) ==>
        At(Sweep(g, i, j, c, ds), p) ==
        if Qualifies(h, i, j, d, c) && OnSegment(i, j, d, 1, RunLength(h, i, j, d, c), p) then c else At(h, p)
  {
    var h := Sweep(g, i, j, c, ds[..|ds| - 1]);
    var d := ds[|ds| - 1];
    forall p | InGrid(p)
      ensures At(Sweep(g, i, j, c, ds), p) ==
        if Qualifies(h, i, j, d, c) && OnSegment(i, j, d, 1, RunLength(h, i, j, d, c), p) then c else At(h, p)
    {
      FlipRunAt(h, i, j, d, RunLength(h, i, j, d, c), c, p);
    }
  }

  /** Captured over ds is captured over its prefix or by its last direction. */
  lemma CapturedSplit(g: Grid, i: int, j: int, c: Color, ds: seq<Dir>, p: Pos)
    requires Framed(g) && Interior((i, j)) && ds != []
    ensures var d := ds[|ds| - 1];
      Captured(g, i, j, c, ds, p) <==>
      Captured(g, i, j, c, ds[..|ds| - 1], p) || InRun(g, i, j, c, d, p)
  {
    var ds', d := ds[..|ds| - 1], ds[|ds| - 1];
    assert ds == ds' + [d];
  }

  /**
   * Exactly the captured cells change: the sweep over a list of distinct
   * directions sets to c every cell inside a run that qualified on the
   * board before it started, and leaves every other cell as it was.
   */
  lemma {:induction false} SweepExact(g: Grid, i: int, j: int, c: Color, ds: seq<Dir>)
    requires Framed(g) && Interior((i, j)) && DirList(ds)
    ensures forall p :: InGrid(p) ==>
      At(Sweep(g, i, j, c, ds), p) == if Captured(g, i, j, c, ds, p) then c else At(g, p)
    decreases |ds|
  {
    if ds != [] {
      var ds', d := ds[..|ds| - 1], ds[|ds| - 1];
      var h := Sweep(g, i, j, c, ds');
      assert DirList(ds') && d !in ds' by {
        forall m | 0 <= m < |ds'|
          ensures ds'[m] != d
        {
          assert ds'[m] == ds[m];
        }
      }
      SweepExact(g, i, j, c, ds');
      SweepRayUntouched(g, i, j, c, ds', d);
      assert RunLength(h, i, j, d, c) == RunLength(g, i, j, d, c);
      assert Qualifies(h, i, j, d, c) == Qualifies(g, i, j, d, c);
      SweepStep(g, i, j, c, ds);
      forall p | InGrid(p)
        ensures At(Sweep(g, i, j, c, ds), p) == if Captured(g, i, j, c, ds, p) then c else At(g, p)
      {
        CapturedSplit(g, i, j, c, ds, p);
      }
    }
  }

  /** The ray of a direction the sweep has not yet handled is as it was before the move. */
  lemma SweepRayUntouched(g: Grid, i: int, j: int, c: Color, ds: seq<Dir>, d: Dir)
    requires Framed(g) && Interior((i, j)) && d !in ds
    requires forall p :: InGrid(p) ==>
      At(Sweep(g, i, j, c, ds), p) == if Captured(g, i, j, c, ds, p) then c else At(g, p)
    ensures Ray(Sweep(g, i, j, c, ds), i, j, d) == Ray(g, i, j, d)
  {
    var h := Sweep(g, i, j, c, ds);
    forall t | t >= 1
      ensures At(g, RayCell(i, j, d, t)) == At(h, RayCell(i, j, d, t))
    {
      CapturedOffRay(g, i, j, c, ds, d, t);
    }
    RayAgree(g, h, i, j, d);
  }

  /** Writing the origin changes none of its rays. */
  lemma PlaceOffRays(g: Grid, i: int, j: int, v: Cell, d: Dir)
    requires WellFormed(g) && Interior((i, j))
    ensures Ray(Place(g, (i, j), v), i, j, d) == Ray(g, i, j, d)
  {
    PlaceAt(g, (i, j), v);
    forall t | t >= 1
      ensures At(g, RayCell(i, j, d, t)) == At(Place(g, (i, j), v), RayCell(i, j, d, t))
    {
      DistRayCell(i, j, d, t);
    }
    RayAgree(g, Place(g, (i, j), v), i, j, d);
  }

  lemma CapturedPlace(g: Grid, i: int, j: int, c: Color, ds: seq<Dir>, p: Pos)
    requires WellFormed(g) && Interior((i, j))
    ensures Captured(Place(g, (i, j), c), i, j, c, ds, p) == Captured(g, i, j, c, ds, p)
  {
    forall d: Dir
      ensures InRun(Place(g, (i, j), c), i, j, c, d, p) == InRun(g, i, j, c, d, p)
    {
      PlaceOffRays(g, i, j, c, d);
    }
  }

  lemma DirectionsDistinct()
    ensures DirList(Directions) && |Directions| == 8
  {
  }

  /** A captured cell held the opponent's colour before the move. */
  lemma CapturedOpponent(g: Grid, i: int, j: int, c: Color, ds: seq<Dir>, p: Pos)
    requires Framed(g) && Interior((i, j)) && Captured(g, i, j, c, ds, p)
    ensures At(g, p) == Opponent(c) && !OnFrame(p)
  {
    var d :| d in ds && InRun(g, i, j, c, d, p);
    RunCellOpponent(g, i, j, d, c, p);
  }

  /**
   * make_move(c, (i, j)) exactly: the placed cell holds c, every cell inside
   * a qualifying run (judged on the board before the move) turns from the
   * opponent's colour to c, and every other cell, the frame included, is
   * unchanged.
   */
  lemma MoveExact(g: Grid, i: int, j: int, c: Color)
    requires Framed(g) && Interior((i, j))
    ensures Framed(Move(g, i, j, c))
    ensures forall p :: InGrid(p) ==>
      At(Move(g, i, j, c), p) == if p == (i, j) || Captured(g, i, j, c, Directions, p) then c else At(g, p)
    ensures forall p :: Captured(g, i, j, c, Directions, p) ==> At(g, p) == Opponent(c)
  {
    var g0 := Place(g, (i, j), c);
    PlaceFramed(g, (i, j), c);
    DirectionsDistinct();
    SweepExact(g0, i, j, c, Directions);
    forall p | InGrid(p)
      ensures At(Move(g, i, j, c), p) == if p == (i, j) || Captured(g, i, j, c, Directions, p) then c else At(g, p)
    {
      CapturedPlace(g, i, j, c, Directions, p);
      if p == (i, j) {
        DistRayCell(i, j, (0, 1), 0);
        assert !Captured(g, i, j, c, Directions, p) by {
          forall d: Dir ensures !OnSegment(i, j, d, 1, RunLength(g, i, j, d, c), p) {
            DistRayCell(i, j, d, 0);
          }
        }
      }
    }
    forall p | Captured(g, i, j, c, Directions, p)
      ensures At(g, p) == Opponent(c)
    {
      CapturedOpponent(g, i, j, c, Directions, p);
    }
  }

  /**
   * The directions do not interfere, so the order they are scanned in does
   * not matter: any two lists of the same distinct directions give the same
   * board.
   */
  lemma SweepOrderFree(g: Grid, i: int, j: int, c: Color, ds: seq<Dir>, es: seq<Dir>)
    requires Framed(g) && Interior((i, j)) && DirList(ds) && DirList(es)
    requires forall d :: d in ds <==> d in es
    ensures Sweep(g, i, j, c, ds) == Sweep(g, i, j, c, es)
  {
    SweepExact(g, i, j, c, ds);
    SweepExact(g, i, j, c, es);
    forall p | InGrid(p)
      ensures At(Sweep(g, i, j, c, ds), p) == At(Sweep(g, i, j, c, es), p)
    {
      assert Captured(g, i, j, c, ds, p) == Captured(g, i, j, c, es, p);
    }
    GridExt(Sweep(g, i, j, c, ds), Sweep(g, i, j, c, es));
  }

  /** Scanning the eight directions in any other order gives the board make_move gives. */
  lemma MoveOrderFree(g: Grid, i: int, j: int, c: Color, es: seq<Dir>)
    requires Framed(g) && Interior((i, j)) && DirList(es)
    requires forall d :: d in es <==> d in Directions
    ensures Sweep(Place(g, (i, j), c), i, j, c, es) == Move(g, i, j, c)
  {
    PlaceFramed(g, (i, j), c);
    DirectionsDistinct();
    SweepOrderFree(Place(g, (i, j), c), i, j, c, es, Directions);
  }

  /** Turning over no cells changes nothing. */
  lemma FlipRunNone(h: Grid, i: int, j: int, d: Dir, c: Color)
    requires WellFormed(h)
    ensures FlipRun(h, i, j, d, 0, c) == h
  {
    forall p | InGrid(p)
      ensures At(FlipRun(h, i, j, d, 0, c), p) == At(h, p)
    {
      FlipRunAt(h, i, j, d, 0, c, p);
    }
    GridExt(FlipRun(h, i, j, d, 0, c), h);
  }

  /** Turning over n cells is turning over the first n - 1, then writing c at step n. */
  lemma FlipRunSnoc(h: Grid, i: int, j: int, d: Dir, n: int, c: Color)
    requires WellFormed(h) && n >= 1 && InGrid(RayCell(i, j, d, n))
    ensures FlipRun(h, i, j, d, n, c) == Place(FlipRun(h, i, j, d, n - 1, c), RayCell(i, j, d, n), c)
  {
    var f, q := FlipRun(h, i, j, d, n - 1, c), RayCell(i, j, d, n);
    DistRayCell(i, j, d, n);
    PlaceAt(f, q, c);
    forall p | InGrid(p)
      ensures At(FlipRun(h, i, j, d, n, c), p) == At(Place(f, q, c), p)
    {
      FlipRunAt(h, i, j, d, n, c, p);
      FlipRunAt(h, i, j, d, n - 1, c, p);
    }
    GridExt(FlipRun(h, i, j, d, n, c), Place(f, q, c));
  }

  /** Turning over n opponent cells adds n to the mover's count and takes n from the opponent's. */
  lemma {:induction false} FlipRunCount(h: Grid, i: int, j: int, d: Dir, n: nat, c: Color)
    requires WellFormed(h)
    requires forall t :: 1 <= t <= n ==> At(h, RayCell(i, j, d, t)) == Opponent(c)
    ensures Count(FlipRun(h, i, j, d, n, c), c) == Count(h, c) + n
    ensures Count(FlipRun(h, i, j, d, n, c), Opponent(c)) == Count(h, Opponent(c)) - n
  {
    if n > 0 {
      FlipRunCount(h, i, j, d, n - 1, c);
      var f, q := FlipRun(h, i, j, d, n - 1, c), RayCell(i, j, d, n);
      assert At(h, q) == Opponent(c);
      DistRayCell(i, j, d, n);
      FlipRunAt(h, i, j, d, n - 1, c, q);
      FlipRunSnoc(h, i, j, d, n, c);
      CountPlace(f, q, c, c);
      CountPlace(f, q, c, Opponent(c));
    } else {
      FlipRunNone(h, i, j, d, c);
    }
  }

  /** One step of the sweep on its own: the run it turns over, if the direction qualifies. */
  lemma StepCounts(h: Grid, i: int, j: int, d: Dir, c: Color)
    requires Framed(h) && Interior((i, j))
    ensures var k := if Qualifies(h, i, j, d, c) then RunLength(h, i, j, d, c) else 0;
      var r := if Qualifies(h, i, j, d, c) then FlipRun(h, i, j, d, RunLength(h, i, j, d, c), c) else h;
      Count(r, c) == Count(h, c) + k && Count(r, Opponent(c)) == Count(h, Opponent(c)) - k
  {
    if Qualifies(h, i, j, d, c) {
      var r := Ray(h, i, j, d);
      var n := RunLength(h, i, j, d, c);
      forall t | 1 <= t <= n
        ensures At(h, RayCell(i, j, d, t)) == Opponent(c)
      {
        assert r[t - 1] == Opponent(c);
      }
      FlipRunCount(h, i, j, d, n, c);
    }
  }

  /** The direction a sweep handles last sees its ray as it was before the sweep. */
  lemma SweepLastRay(g: Grid, i: int, j: int, c: Color, ds: seq<Dir>)
    requires Framed(g) && Interior((i, j)) && DirList(ds) && ds != []
    ensures DirList(ds[..|ds| - 1])
    ensures Ray(Sweep(g, i, j, c, ds[..|ds| - 1]), i, j, ds[|ds| - 1]) == Ray(g, i, j, ds[|ds| - 1])
  {
    var ds', d := ds[..|ds| - 1], ds[|ds| - 1];
    assert DirList(ds') && d !in ds' by {
      forall m | 0 <= m < |ds'|
        ensures ds'[m] != d
      {
        assert ds'[m] == ds[m];
      }
    }
    SweepExact(g, i, j, c, ds');
    SweepRayUntouched(g, i, j, c, ds', d);
  }

  /** The sweep turns over exactly Flips cells from the opponent's colour to c. */
  lemma {:induction false} SweepCounts(g: Grid, i: int, j: int, c: Color, ds: seq<Dir>)
    requires Framed(g) && Interior((i, j)) && DirList(ds)
    ensures Count(Sweep(g, i, j, c, ds), c) == Count(g, c) + Flips(g, i, j, c, ds)
    ensures Count(Sweep(g, i, j, c, ds), Opponent(c)) == Count(g, Opponent(c)) - Flips(g, i, j, c, ds)
    decreases |ds|
  {
    if ds != [] {
      var ds', d := ds[..|ds| - 1], ds[|ds| - 1];
      var h := Sweep(g, i, j, c, ds');
      SweepLastRay(g, i, j, c, ds);
      SweepCounts(g, i, j, c, ds');
      assert RunLength(h, i, j, d, c) == RunLength(g, i, j, d, c);
      assert Qualifies(h, i, j, d, c) == Qualifies(g, i, j, d, c);
      StepCounts(h, i, j, d, c);
    }
  }

  /** Flips counts at least the run of every qualifying direction in ds. */
  lemma {:induction false} FlipsAtLeast(g: Grid, i: int, j: int, c: Color, ds: seq<Dir>, m: int)
    requires Framed(g) && Interior((i, j)) && 0 <= m < |ds| && Qualifies(g, i, j, ds[m], c)
    ensures Flips(g, i, j, c, ds) >= RunLength(g, i, j, ds[m], c) >= 1
    decreases |ds|
  {
    if m < |ds| - 1 {
      FlipsAtLeast(g, i, j, c, ds[..|ds| - 1], m);
    }
  }

  /** Flips depends only on the rays, which placing the piece does not touch. */
  lemma {:induction false} FlipsPlace(g: Grid, i: int, j: int, c: Color, ds: seq<Dir>)
    requires Framed(g) && Interior((i, j))
    ensures Framed(Place(g, (i, j), c))
    ensures Flips(Place(g, (i, j), c), i, j, c, ds) == Flips(g, i, j, c, ds)
    decreases |ds|
  {
    PlaceFramed(g, (i, j), c);
    if ds != [] {
      FlipsPlace(g, i, j, c, ds[..|ds| - 1]);
      PlaceOffRays(g, i, j, c, ds[|ds| - 1]);
    }
  }

  /**
   * Piece counts: a move on an Empty cell that turns over k cells raises the
   * mover's count by k + 1 and lowers the opponent's by k.
   */
  lemma MoveCounts(g: Grid, i: int, j: int, c: Color)
    requires Framed(g) && Interior((i, j)) && g[i][j] == Empty
    ensures Count(Move(g, i, j, c), c) == Count(g, c) + Flips(g, i, j, c, Directions) + 1
    ensures Count(Move(g, i, j, c), Opponent(c)) == Count(g, Opponent(c)) - Flips(g, i, j, c, Directions)
  {
    var g0 := Place(g, (i, j), c);
    FlipsPlace(g, i, j, c, Directions);
    DirectionsDistinct();
    SweepCounts(g0, i, j, c, Directions);
    CountPlace(g, (i, j), c, c);
    CountPlace(g, (i, j), c, Opponent(c));
  }

  /** A legal move turns over at least one cell. */
  lemma LegalFlips(g: Grid, c: Color, p: Pos)
    requires Framed(g) && Legal(g, c, p)
    ensures Flips(g, p.0, p.1, c, Directions) >= 1
  {
    var m :| 0 <= m < 8 && Qualifies(g, p.0, p.1, Directions[m], c);
    FlipsAtLeast(g, p.0, p.1, c, Directions, m);
  }
}
