/**
 * The Othello class: the board as a 10x10 array updated in place, the
 * registered players, and the operations a game-flow driver calls.
 */
module Game {
  import opened Board
  import opened Scan
  import opened Capture

  /** A registered player: a name and the colour name it was created with ("black" or "white"). */
  datatype Player = Player(name: string, color: string)

  datatype Option<T> = None | Some(value: T)

  /**
   * What return_winner reports.  PlayerMissing stands for the IndexError
   * Python raises when the player list has no entry where the lookup needs one.
   */
  datatype Verdict = BlackWins(name: string) | WhiteWins(name: string) | Tie | PlayerMissing

  /** What play_game reports: a refusal with the legal list, an accepted move, or an accepted move that ended the game. */
  datatype Outcome =
    | Rejected(valid: seq<Pos>)
    | Completed
    | GameOver(black: nat, white: nat, verdict: Verdict)

  /** play_game's colour mapping: "black" plays 'X', any other string plays 'O'. */
  function ColorOf(playerColor: string): (c: Color)
    ensures c == Black <==> playerColor == "black"
  {
    if playerColor == "black" then Black else White
  }

  /**
   * The name return_winner reports for the colour named colorName: the first
   * player's if that player has the colour, otherwise the second player's.
   */
  function NameFor(players: seq<Player>, colorName: string): (r: Option<string>)
    ensures r.Some? <==> |players| >= 2 || (|players| == 1 && players[0].color == colorName)
    ensures r.Some? && players[0].color == colorName ==> r.value == players[0].name
    ensures r.Some? && players[0].color != colorName ==> r.value == players[1].name
  {
    if |players| == 0 then None
    else if players[0].color == colorName then Some(players[0].name)
    else if |players| < 2 then None
    else Some(players[1].name)
  }

  /** return_winner on a board: the colour with strictly more pieces wins; equal counts tie. */
  function Decide(g: Grid, players: seq<Player>): (v: Verdict)
    ensures v.Tie? <==> Count(g, Black) == Count(g, White)
    ensures v.BlackWins? ==> Count(g, Black) > Count(g, White)
    ensures v.WhiteWins? ==> Count(g, White) > Count(g, Black)
    ensures v.PlayerMissing? ==> |players| < 2
  {
    var black, white := Count(g, Black), Count(g, White);
    if black > white then
      match NameFor(players, "black")
      case Some(n) => BlackWins(n)
      case None => PlayerMissing
    else if white > black then
      match NameFor(players, "white")
      case Some(n) => WhiteWins(n)
      case None => PlayerMissing
    else Tie
  }

  /**
   * With one player of each colour registered, in either order, the winner
   * is the player holding the colour with more pieces.
   */
  lemma DecideNamesWinner(g: Grid, black: Player, white: Player, players: seq<Player>)
    requires black.color == "black" && white.color == "white"
    requires players == [black, white] || players == [white, black]
    ensures Decide(g, players) ==
      if Count(g, Black) > Count(g, White) then BlackWins(black.name)
      else if Count(g, White) > Count(g, Black) then WhiteWins(white.name)
      else Tie
  {
  }

  /** Both colours have no legal move: the end-of-game test of play_game. */
  predicate GameIsOver(g: Grid)
    requires Framed(g)
  {
    AvailablePositions(g, White) == [] && AvailablePositions(g, Black) == []
  }

  /** A colour's list is empty exactly when that colour has no legal move. */
  lemma NoneAvailableIffNoLegal(g: Grid, c: Color)
    requires Framed(g)
    ensures AvailablePositions(g, c) == [] <==> forall p :: !Legal(g, c, p)
  {
    var l := AvailablePositions(g, c);
    if l == [] {
      forall p
        ensures !Legal(g, c, p)
      {
        AvailableIffLegal(g, c, p);
      }
    } else {
      AvailableIffLegal(g, c, l[0]);
    }
  }

  /** The game is over exactly when neither colour has a legal move anywhere. */
  lemma GameIsOverIffNoLegalMove(g: Grid)
    requires Framed(g)
    ensures GameIsOver(g) <==> forall p :: !Legal(g, Black, p) && !Legal(g, White, p)
  {
    var none := forall p :: !Legal(g, Black, p) && !Legal(g, White, p);
    NoneAvailableIffNoLegal(g, Black);
    NoneAvailableIffNoLegal(g, White);
    assert GameIsOver(g) ==> none;
    assert none ==> GameIsOver(g);
  }

  /** The frame and the empty playing area, before the four opening pieces. */
  function Blank(): (g: Grid) {
    seq(10, a requires 0 <= a < 10 => seq(10, b requires 0 <= b < 10 => if OnFrame((a, b)) then Border else Empty))
  }

  /** The opening board: 'O' on (4,4) and (5,5), 'X' on (4,5) and (5,4), on the blank board. */
  function Initial(): (g: Grid) {
    Place(Place(Place(Place(Blank(), (4, 4), White), (5, 5), White), (4, 5), Black), (5, 4), Black)
  }

  /** The opening layout cell by cell, written out independently of the four writes. */
  function InitialCell(p: Pos): Cell {
    if OnFrame(p) then Border
    else if p == (4, 4) || p == (5, 5) then White
    else if p == (4, 5) || p == (5, 4) then Black
    else Empty
  }

  /**
   * The opening board: Border on the frame, 'O' on (4,4) and (5,5), 'X' on
   * (4,5) and (5,4), every other playing cell Empty.
   */
  lemma InitialLayout()
    ensures WellFormed(Initial()) && Framed(Initial())
    ensures forall a, b :: 0 <= a < 10 && 0 <= b < 10 ==> Initial()[a][b] == InitialCell((a, b))
  {
    var g0 := Blank();
    var g1 := Place(g0, (4, 4), White);
    var g2 := Place(g1, (5, 5), White);
    var g3 := Place(g2, (4, 5), Black);
    var g4 := Place(g3, (5, 4), Black);
    forall a, b | 0 <= a < 10 && 0 <= b < 10
      ensures g4[a][b] == InitialCell((a, b))
    {
      assert g0[a][b] == if OnFrame((a, b)) then Border else Empty;
    }
  }

  /** The blank board holds no piece of either colour. */
  lemma BlankCounts()
    ensures Count(Blank(), Black) == 0 && Count(Blank(), White) == 0
  {
    CountZero(Blank(), Black);
    CountZero(Blank(), White);
  }

  /** A piece put on an Empty cell adds one to its colour's count and leaves the other colour's alone. */
  lemma PlacePiece(g: Grid, p: Pos, v: Color)
    requires WellFormed(g) && InGrid(p) && g[p.0][p.1] == Empty
    ensures Count(Place(g, p, v), v) == Count(g, v) + 1
    ensures Count(Place(g, p, v), Opponent(v)) == Count(g, Opponent(v))
  {
    CountPlace(g, p, v, v);
    CountPlace(g, p, v, Opponent(v));
  }

  /** The four opening pieces, put on any board whose four centre cells are Empty, add two pieces of each colour. */
  lemma FourPieces(g: Grid)
    requires WellFormed(g) && g[4][4] == Empty && g[5][5] == Empty && g[4][5] == Empty && g[5][4] == Empty
    ensures var r := Place(Place(Place(Place(g, (4, 4), White), (5, 5), White), (4, 5), Black), (5, 4), Black);
            Count(r, Black) == Count(g, Black) + 2 && Count(r, White) == Count(g, White) + 2
  {
    var g1 := Place(g, (4, 4), White);
    PlacePiece(g, (4, 4), White);
    var g2 := Place(g1, (5, 5), White);
    PlacePiece(g1, (5, 5), White);
    var g3 := Place(g2, (4, 5), Black);
    PlacePiece(g2, (4, 5), Black);
    PlacePiece(g3, (5, 4), Black);
  }

  /** The opening board holds two pieces of each colour. */
  lemma InitialCounts()
    ensures Count(Initial(), Black) == 2 && Count(Initial(), White) == 2
  {
    var g0 := Blank();
    BlankCounts();
    assert g0[4][4] == Empty && g0[5][5] == Empty && g0[4][5] == Empty && g0[5][4] == Empty;
    FourPieces(g0);
  }

  /**
   * g with the cells lo..hi steps from (i, j) along d set to c, written from
   * the far end inwards: the board part-way through make_move's walk back,
   * once it has come back to step lo.  Cells off the grid are skipped.
   */
  ghost function Painted(g: Grid, i: int, j: int, d: Dir, lo: int, hi: int, c: Color): (r: Grid)
    requires WellFormed(g)
    ensures WellFormed(r)
    decreases if lo > hi then 0 else hi - lo + 1
  {
    if lo > hi then g
    else
      var p := RayCell(i, j, d, lo);
      var h := Painted(g, i, j, d, lo + 1, hi, c);
      if InGrid(p) then Place(h, p, c) else h
  }

  /** Stepping back from step t to step t - 1 and writing c there paints one more cell. */
  lemma PaintedStep(g: Grid, i: int, j: int, d: Dir, t: int, n: int, c: Color, x: int, y: int)
    requires WellFormed(g) && t <= n + 1 && InGrid((x, y))
    requires x == RayCell(i, j, d, t - 1).0 && y == RayCell(i, j, d, t - 1).1
    ensures Place(Painted(g, i, j, d, t, n, c), (x, y), c) == Painted(g, i, j, d, t - 1, n, c)
  {
    assert t - 1 + 1 == t;
  }

  /** A cell of the grid ends up c when it lies on the painted segment and keeps its value otherwise. */
  lemma {:induction false} PaintedAt(g: Grid, i: int, j: int, d: Dir, lo: int, hi: int, c: Color, p: Pos)
    requires WellFormed(g) && InGrid(p)
    ensures Painted(g, i, j, d, lo, hi, c)[p.0][p.1] == if OnSegment(i, j, d, lo, hi, p) then c else g[p.0][p.1]
    decreases if lo > hi then 0 else hi - lo + 1
  {
    if lo <= hi {
      PaintedAt(g, i, j, d, lo + 1, hi, c, p);
      OnSegmentGrow(i, j, d, lo + 1, hi, p);
      assert lo + 1 - 1 == lo;
    }
  }

  /** Repainting the origin with the colour it already holds leaves exactly FlipRun's board. */
  lemma PaintedOrigin(g: Grid, i: int, j: int, d: Dir, n: int, c: Color)
    requires WellFormed(g) && InGrid((i, j)) && g[i][j] == c && n >= 0
    ensures Painted(g, i, j, d, 0, n, c) == FlipRun(g, i, j, d, n, c)
  {
    var l, r := Painted(g, i, j, d, 0, n, c), FlipRun(g, i, j, d, n, c);
    DistRayCell(i, j, d, 0);
    forall a | 0 <= a < 10
      ensures l[a] == r[a]
    {
      forall b | 0 <= b < 10
        ensures l[a][b] == r[a][b]
      {
        PaintedAt(g, i, j, d, 0, n, c, (a, b));
        OnSegmentGrow(i, j, d, 1, n, (a, b));
      }
    }
  }

  class Othello {
    var board: array2<Cell>
    var players: seq<Player>
    /** The contents of board as a grid value. */
    ghost var cells: Grid

    /** board is 10x10 and holds exactly cells. */
    ghost predicate Mirrors()
      reads this, board
    {
      board.Length0 == 10 && board.Length1 == 10 && WellFormed(cells) &&
      forall a, b :: 0 <= a < 10 && 0 <= b < 10 ==> board[a, b] == cells[a][b]
    }

    /** board holds cells, which is Border exactly on its frame. */
    ghost predicate Valid()
      reads this, board
    {
      Mirrors() && Framed(cells)
    }

    /** A copy of the board as a grid value, read from the array. */
    function Snapshot(): (g: Grid)
      reads this, board
      requires Valid()
      ensures g == cells
    {
      var arr := board;
      var g := seq(10, a requires 0 <= a < 10 reads arr =>
                 seq(10, b requires 0 <= b < 10 reads arr => arr[a, b]));
      GridExt(g, cells);
      g
    }

    /** `__init__`: the opening board and no players yet. */
    constructor ()
      ensures Valid() && fresh(board)
      ensures cells == Initial() && players == []
    {
      board := new Cell[10, 10]((a, b) => if a == 0 || a == 9 || b == 0 || b == 9 then Border else Empty);
      players := [];
      cells := Blank();
      new;
      assert Mirrors();
      Put((4, 4), White);
      Put((5, 5), White);
      Put((4, 5), Black);
      Put((5, 4), Black);
      InitialLayout();
    }

    /** `board[p.0][p.1] = v`, written to the array and to its grid value alike. */
    method Put(p: Pos, v: Cell)
      requires Mirrors() && InGrid(p)
      modifies this`cells, board
      ensures Mirrors() && cells == Place(old(cells), p, v)
    {
      board[p.0, p.1] := v;
      cells := Place(cells, p, v);
    }

    /** `create_player`: registers a player; the board is untouched. */
    method CreatePlayer(name: string, color: string)
      requires Valid()
      modifies this`players
      ensures Valid()
      ensures players == old(players) + [Player(name, color)]
    {
      players := players + [Player(name, color)];
    }

    /** `return_winner`: the verdict on the board as it stands, changing nothing. */
    function ReturnWinner(): (v: Verdict)
      reads this, board
      requires Valid()
      ensures v == Decide(cells, players)
    {
      Decide(Snapshot(), players)
    }

    /**
     * The inner `while` of both scans: from the neighbour of (i, j) along d,
     * step over opponent cells; stop on the first cell that is not one.
     */
    method WalkRun(i: int, j: int, d: Dir, color: Color) returns (x: int, y: int)
      requires Valid() && Interior((i, j))
      ensures InGrid((x, y))
      ensures x == RayCell(i, j, d, RunLength(cells, i, j, d, color) + 1).0
      ensures y == RayCell(i, j, d, RunLength(cells, i, j, d, color) + 1).1
    {
      ghost var n := RunLength(cells, i, j, d, color);
      RunCells(cells, i, j, d, color);
      var opponent := Opponent(color);
      x, y := i + d.0, j + d.1;
      ghost var t := 1;
      while board[x, y] == opponent
        invariant 1 <= t <= n + 1
        invariant x == RayCell(i, j, d, t).0 && y == RayCell(i, j, d, t).1
        decreases n + 1 - t
      {
        assert board[x, y] == At(cells, (x, y));
        assert t <= n;
        RayCellStep(i, j, d, t);
        x, y := x + d.0, y + d.1;
        t := t + 1;
      }
    }

    /**
     * The walk along one direction that both the scan and make_move do:
     * look at the neighbour along d and, when it holds the opponent, walk
     * the run and report whether color closes it, and at which cell.
     */
    method ScanDirection(i: int, j: int, d: Dir, color: Color) returns (x: int, y: int, found: bool)
      requires Valid() && Interior((i, j))
      ensures found == Qualifies(cells, i, j, d, color)
      ensures found ==> InGrid((x, y)) && board[x, y] == color
      ensures found ==> x == RayCell(i, j, d, RunLength(cells, i, j, d, color) + 1).0
      ensures found ==> y == RayCell(i, j, d, RunLength(cells, i, j, d, color) + 1).1
    {
      ghost var n := RunLength(cells, i, j, d, color);
      WalkDecides(cells, i, j, d, color);
      var opponent := Opponent(color);
      x, y := i + d.0, j + d.1;
      assert board[x, y] == At(cells, (x, y));
      if board[x, y] == opponent {
        x, y := WalkRun(i, j, d, color);
        assert board[x, y] == At(cells, RayCell(i, j, d, n + 1));
        found := board[x, y] == color;
      } else {
        found := false;
      }
    }

    /**
     * The scan of one playing cell: nothing unless it is Empty, otherwise
     * (i, j) once for every direction that qualifies, in direction order.
     */
    method ScanCell(i: int, j: int, color: Color) returns (entries: seq<Pos>)
      requires Valid() && Interior((i, j))
      ensures entries == CellEntries(cells, i, j, color)
    {
      entries := [];
      if board[i, j] == Empty {
        ghost var f := Flags(cells, i, j, color);
        for k := 0 to 8
          invariant entries == Repeat((i, j), f[..k])
        {
          RepeatSnoc((i, j), f, k);
          var _, _, found := ScanDirection(i, j, Directions[k], color);
          if found {
            entries := entries + [(i, j)];
          }
        }
        assert f[..8] == f;
      }
    }

    /** One pass of the row loop of the scan: the entries for row i, left to right. */
    method ScanRow(i: int, color: Color) returns (entries: seq<Pos>)
      requires Valid() && 1 <= i <= 8
      ensures entries == RowEntries(cells, color, i, 9)
    {
      entries := [];
      for j := 1 to 9
        invariant entries == RowEntries(cells, color, i, j)
      {
        var found := ScanCell(i, j, color);
        entries := entries + found;
      }
    }

    /**
     * `return_available_positions(color)`: every Empty playing cell in
     * row-major order, once for each direction that qualifies.
     */
    method ReturnAvailablePositions(color: Color) returns (positions: seq<Pos>)
      requires Valid()
      ensures positions == AvailablePositions(cells, color)
    {
      positions := [];
      for i := 1 to 9
        invariant positions == ScanRows(cells, color, i)
      {
        var row := ScanRow(i, color);
        positions := positions + row;
      }
    }

    /**
     * The walk back of make_move: from (x0, y0), n + 1 steps from (i, j)
     * along d, step towards (i, j), setting every cell reached to color, the
     * origin included; every other cell keeps its value.
     */
    method WalkBack(i: int, j: int, d: Dir, color: Color, x0: int, y0: int, ghost n: nat)
      requires Mirrors() && InGrid((i, j)) && cells[i][j] == color
      requires x0 == RayCell(i, j, d, n + 1).0 && y0 == RayCell(i, j, d, n + 1).1
      requires forall t :: 0 <= t <= n ==> InGrid(RayCell(i, j, d, t))
      modifies this`cells, board
      ensures Mirrors() && cells == FlipRun(old(cells), i, j, d, n, color)
    {
      ghost var g := cells;
      var x, y := x0, y0;
      ghost var t := n + 1;
      while x != i || y != j
        invariant 0 <= t <= n + 1
        invariant x == RayCell(i, j, d, t).0 && y == RayCell(i, j, d, t).1
        invariant Mirrors() && cells == Painted(g, i, j, d, t, n, color)
        decreases t
      {
        RayCellOrigin(i, j, d, t);
        RayCellStep(i, j, d, t - 1);
        x, y := x - d.0, y - d.1;
        PaintedStep(g, i, j, d, t, n, color, x, y);
        Put((x, y), color);
        t := t - 1;
      }
      RayCellOrigin(i, j, d, t);
      PaintedOrigin(g, i, j, d, n, color);
    }

    /**
     * The flipping branch of make_move's direction loop: the run along d is
     * closed by color at (x, y), so walk back to (i, j) turning it over.
     */
    method TurnRun(i: int, j: int, d: Dir, color: Color, x: int, y: int)
      requires Valid() && Interior((i, j)) && board[i, j] == color
      requires Qualifies(cells, i, j, d, color)
      requires x == RayCell(i, j, d, RunLength(cells, i, j, d, color) + 1).0
      requires y == RayCell(i, j, d, RunLength(cells, i, j, d, color) + 1).1
      modifies this`cells, board
      ensures Valid() && board[i, j] == color
      ensures cells == FlipRun(old(cells), i, j, d, RunLength(old(cells), i, j, d, color), color)
    {
      ghost var g := cells;
      ghost var n := RunLength(g, i, j, d, color);
      RunStaysInside(g, i, j, d, color);
      DistRayCell(i, j, d, 0);
      WalkBack(i, j, d, color, x, y, n);
      FlipRunFramed(g, i, j, d, color);
    }

    /** One pass of make_move's direction loop: direction d is flipped when it qualifies. */
    method FlipDirection(i: int, j: int, d: Dir, color: Color)
      requires Valid() && Interior((i, j)) && board[i, j] == color
      modifies this`cells, board
      ensures Valid() && board[i, j] == color
      ensures cells == FlipStep(old(cells), i, j, color, d)
    {
      var x, y, closes := ScanDirection(i, j, d, color);
      if closes {
        TurnRun(i, j, d, color, x, y);
      }
    }

    /** make_move's direction loop: each direction in scan order, on the board as the earlier ones left it. */
    method SweepDirections(i: int, j: int, color: Color)
      requires Valid() && Interior((i, j)) && board[i, j] == color
      modifies this`cells, board
      ensures Valid()
      ensures cells == Sweep(old(cells), i, j, color, Directions)
    {
      ghost var start := cells;
      for k := 0 to 8
        invariant Valid() && board[i, j] == color
        invariant cells == Sweep(start, i, j, color, Directions[..k])
      {
        SweepSnoc(start, i, j, color, Directions, k);
        FlipDirection(i, j, Directions[k], color);
      }
      assert Directions[..8] == Directions;
    }

    /**
     * `make_move(color, pos)`: put the piece down, then turn over the run
     * of every direction that qualifies on the board as it then stands.
     */
    method MakeMove(color: Color, pos: Pos)
      requires Valid() && Interior(pos)
      modifies this`cells, board
      ensures Valid()
      ensures cells == Move(old(cells), pos.0, pos.1, color)
    {
      PlaceFramed(cells, pos, color);
      Put(pos, color);
      SweepDirections(pos.0, pos.1, color);
    }

    /** The end-of-game test of play_game: neither colour has a position left. */
    method NoMovesLeft() returns (over: bool)
      requires Valid()
      ensures over == GameIsOver(cells)
    {
      var whites := ReturnAvailablePositions(White);
      over := false;
      if whites == [] {
        var blacks := ReturnAvailablePositions(Black);
        over := blacks == [];
      }
    }

    /**
     * play_game after a position has been accepted: make the move, then end
     * the game with both counts and return_winner's verdict when neither
     * colour has a move left.
     */
    method Accept(color: Color, pos: Pos) returns (outcome: Outcome)
      requires Valid() && Interior(pos)
      modifies this`cells, board
      ensures Valid() && cells == Move(old(cells), pos.0, pos.1, color)
      ensures outcome == if GameIsOver(cells)
                         then GameOver(Count(cells, Black), Count(cells, White), Decide(cells, players))
                         else Completed
    {
      MakeMove(color, pos);
      var over := NoMovesLeft();
      if over {
        var after := Snapshot();
        outcome := GameOver(Count(after, Black), Count(after, White), ReturnWinner());
      } else {
        outcome := Completed;
      }
    }

    /**
     * `play_game(player_color, pos)`: a position that is not a legal move
     * for the player's colour is refused with that colour's list and the
     * board untouched; a legal one is accepted as Accept describes.
     */
    method PlayGame(playerColor: string, pos: Pos) returns (outcome: Outcome)
      requires Valid()
      modifies this`cells, board
      ensures Valid()
      ensures !Legal(old(cells), ColorOf(playerColor), pos) ==>
                outcome == Rejected(AvailablePositions(old(cells), ColorOf(playerColor))) && cells == old(cells)
      ensures Legal(old(cells), ColorOf(playerColor), pos) ==>
                Interior(pos) && cells == Move(old(cells), pos.0, pos.1, ColorOf(playerColor)) &&
                outcome == if GameIsOver(cells)
                           then GameOver(Count(cells, Black), Count(cells, White), Decide(cells, players))
                           else Completed
    {
      var color := ColorOf(playerColor);
      var valid := ReturnAvailablePositions(color);
      AvailableIffLegal(cells, color, pos);
      if pos !in valid {
        outcome := Rejected(valid);
      } else {
        outcome := Accept(color, pos);
      }
    }
  }
}
