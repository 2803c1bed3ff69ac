/** The game session: the board and counters the game keeps in global
    variables, and the operations that change them — starting a game,
    laying out a level, handing colours to the shooter, firing, landing a
    projectile, popping matches, dropping floating bubbles, dropping the
    ceiling and advancing a level.

    The projectile and the two shooter slots are kept as colours: the
    flight of a projectile is not part of the model, and where it lands is
    given to SnapToGrid as its position. Every random draw is a parameter
    in [0, 1). */
module Session {
  import opened HexGrid
  import opened Geometry
  import opened Levels
  import opened SeqUtil
  import opened MatchEngine
  import opened Board

  /** A grid with cells emptied and nothing else changed keeps every
      remaining bubble resident. */
  lemma ThinnedWellFormed(g: Grid, h: Grid, ceiling: int)
    requires WellFormed(g, ceiling)
    requires |h| == |g| && forall r :: 0 <= r < |g| ==> |h[r]| == |g[r]|
    requires forall p :: At(h, p) == None || At(h, p) == At(g, p)
    ensures WellFormed(h, ceiling)
  {
    forall p | Occupied(h, p)
      ensures Resident(At(h, p).value, p.row, p.col, ceiling)
    {
      assert At(h, p) == At(g, p);
    }
  }

  /** The board once the projectile of the given colour has been stored
      at (row, col) under the given ceiling: a fresh empty row is added
      when the projectile lands just below the last row, and the bubble
      sits on the cell's centre and records the cell. */
  function Placed(g: Grid, row: int, col: int, color: Color, ceiling: int): (h: Grid)
    requires 0 <= row <= |g| && 0 <= col < COLS
    requires Rectangular(g)
    ensures Occupied(h, Pos(row, col)) && At(h, Pos(row, col)).value.color == color
  {
    var rows := if row == |g| then g + [EmptyRow()] else g;
    SetCell(rows, Pos(row, col), Some(Bubble(PixelX(row, col), PixelY(row, ceiling), color, row, col)))
  }

  /** Landing a projectile keeps the board well formed, puts a bubble of
      its colour in the landing cell, and leaves every other cell as it was. */
  lemma PlacedLayout(g: Grid, row: int, col: int, color: Color, ceiling: int)
    requires WellFormed(g, ceiling)
    requires 0 <= row <= |g| && 0 <= col < COLS
    ensures WellFormed(Placed(g, row, col, color, ceiling), ceiling)
    ensures forall p :: p != Pos(row, col) ==> At(Placed(g, row, col, color, ceiling), p) == At(g, p)
  {
    var rows := if row == |g| then g + [EmptyRow()] else g;
    forall p | p != Pos(row, col)
      ensures At(rows, p) == At(g, p)
    {
      if row == |g| && p.row == row {
        assert At(rows, p) == None;
      } else if InBounds(g, p) {
        assert At(rows, p) == g[p.row][p.col];
      }
    }
  }

  /** The outcome of checkMatches around the bubble at seed: the board
      left behind, the bubbles that start falling, the points gained and
      whether the board was cleared. */
  datatype Settled = Settled(grid: Grid, falling: seq<Bubble>, gained: int, cleared: bool)

  /** When the seed's same-colour component has at least three bubbles it
      is popped (10 points each), every bubble no longer hanging from the
      ceiling falls (20 points each), and an empty board earns 100 points
      per level; otherwise nothing happens. */
  ghost function Settle(g: Grid, seed: Pos, level: int): Settled
    requires Occupied(g, seed)
  {
    var comp := SameColorComponent(g, seed);
    if |comp| < 3 then Settled(g, [], 0, false)
    else
      var emptied := Emptied(g, comp);
      var rest := Pruned(emptied);
      var clear := NoBubbles(rest);
      Settled(rest, Detached(emptied),
              10 * |comp| + 20 * |Detached(emptied)| + (if clear then 100 * level else 0), clear)
  }

  /** A landing keeps the board well formed and never costs points. */
  lemma SettleWellFormed(g: Grid, seed: Pos, level: int, ceiling: int)
    requires WellFormed(g, ceiling) && Occupied(g, seed) && level >= 1
    ensures WellFormed(Settle(g, seed, level).grid, ceiling)
    ensures Settle(g, seed, level).gained >= 0
  {
    var comp := SameColorComponent(g, seed);
    if |comp| >= 3 {
      var emptied := Emptied(g, comp);
      ThinnedWellFormed(g, emptied, ceiling);
      ThinnedWellFormed(emptied, Pruned(emptied), ceiling);
    }
  }

  /** A pop removes the whole component, earns at least 30 points, and
      leaves only bubbles that hang from the ceiling; the board counts as
      cleared exactly when nothing is left on it. */
  lemma SettlePopped(g: Grid, seed: Pos, level: int)
    requires Occupied(g, seed) && |SameColorComponent(g, seed)| >= 3
    ensures var s := Settle(g, seed, level);
            && s.gained >= 30 + (if s.cleared then 100 * level else 0)
            && (forall p :: p in SameColorComponent(g, seed) ==> !Occupied(s.grid, p))
            && (forall p :: Occupied(s.grid, p) ==> p in AnchoredSet(s.grid))
            && (s.cleared <==> NoBubbles(s.grid))
  {
    var comp := SameColorComponent(g, seed);
    var emptied := Emptied(g, comp);
    forall p | p in comp
      ensures !Occupied(Pruned(emptied), p)
    {
      assert At(emptied, p) == None;
    }
    PruneIdempotent(emptied);
  }

  /** A component of fewer than three bubbles changes nothing. */
  lemma SettleUnpopped(g: Grid, seed: Pos, level: int)
    requires Occupied(g, seed) && |SameColorComponent(g, seed)| < 3
    ensures Settle(g, seed, level) == Settled(g, [], 0, false)
  {
  }

  /** The shooter is offered a colour still on the board, or one of the
      level's palette once the board is empty. */
  lemma PickedColorOnBoard(g: Grid, level: int, u: real)
    requires 0.0 <= u < 1.0
    ensures !NoBubbles(g) ==> exists p :: Scanned(g, p) && ColorAt(g, p, Pick(AvailableColors(g, level), u))
    ensures NoBubbles(g) ==> Pick(AvailableColors(g, level), u) in GetColorsForLevel(level)
  {
    AvailableColorsMeaning(g, level);
  }

  /** A restarted game lays out level 1, whose board holds only the three
      colours of that level's palette: a colour such as Purple, which only
      later levels use, is not among the colours offered on it. */
  lemma RestartOffersStaleColor(draw: (int, int) -> real)
    requires forall i, j :: 0.0 <= draw(i, j) < 1.0
    ensures Purple !in AvailableColors(Seeded([], 1, draw), 1)
  {
    var h := Seeded([], 1, draw);
    assert GetColorsForLevel(1) == [Coral, Turquoise, Yellow];
    forall p | Scanned(h, p)
      ensures !ColorAt(h, p, Purple)
    {
      assert At(h, p) == GeneratedCell(1, p.row, p.col, draw);
    }
    SeededNotEmpty(1, draw);
    AvailableColorsMeaning(h, 1);
  }

  /** On a well-formed board the falling list holds every detached bubble
      exactly once, so it has one entry per cell pruning empties. */
  lemma DetachedOncePerCell(g: Grid, ceiling: int)
    requires WellFormed(g, ceiling)
    ensures NoDup(Detached(g))
  {
    DetachedNoDup(g);
  }

  /** The removal scan of removeFloatingBubbles: in row-major order every
      bubble whose recorded cell is not in `keep` is appended to the
      falling list and its cell emptied. */
  method SweepDetached(g: Grid, keep: set<Pos>, ghost ceiling: int) returns (h: Grid, dropped: seq<Bubble>)
    requires WellFormed(g, ceiling)
    ensures |h| == |g| && forall r :: 0 <= r < |g| ==> |h[r]| == |g[r]|
    ensures forall p :: At(h, p) == if p in keep then At(g, p) else None
    ensures dropped == DetachedInRows(g, keep, |g|)
  {
    h := g;
    dropped := [];
    for row := 0 to |g|
      invariant |h| == |g| && forall r :: 0 <= r < |g| ==> |h[r]| == |g[r]|
      invariant forall p :: At(h, p) == if p.row < row && p !in keep then None else At(g, p)
      invariant dropped == DetachedInRows(g, keep, row)
    {
      h, dropped := SweepRow(g, keep, row, h, dropped, ceiling);
    }
  }

  /** The removal scan over the cells of one row. */
  method SweepRow(g: Grid, keep: set<Pos>, row: nat, h: Grid, dropped: seq<Bubble>, ghost ceiling: int)
    returns (h': Grid, dropped': seq<Bubble>)
    requires WellFormed(g, ceiling) && row < |g|
    requires |h| == |g| && forall r :: 0 <= r < |g| ==> |h[r]| == |g[r]|
    requires forall p :: At(h, p) == if p.row < row && p !in keep then None else At(g, p)
    ensures |h'| == |g| && forall r :: 0 <= r < |g| ==> |h'[r]| == |g[r]|
    ensures forall p :: At(h', p) == if p.row <= row && p !in keep then None else At(g, p)
    ensures dropped' == dropped + DetachedInRow(g[row], row, keep, |g[row]|)
  {
    h', dropped' := h, dropped;
    for col := 0 to COLS
      invariant |h'| == |g| && forall r :: 0 <= r < |g| ==> |h'[r]| == |g[r]|
      invariant forall p :: At(h', p) ==
                  if (p.row < row || (p.row == row && p.col < col)) && p !in keep then None else At(g, p)
      invariant dropped' == dropped + DetachedInRow(g[row], row, keep, col)
    {
      assert At(h', Pos(row, col)) == h'[row][col] && At(g, Pos(row, col)) == g[row][col];
      var bubble := h'[row][col];
      if bubble.Some? && Pos(bubble.value.row, bubble.value.col) !in keep {
        dropped' := dropped' + [bubble.value];
        h' := SetCell(h', Pos(row, col), None);
      }
    }
  }

  /** The popping loop of checkMatches: every matched cell is emptied and
      scores 10 points. */
  method PopMatches(g: Grid, matches: seq<Pos>, score: int) returns (h: Grid, points: int)
    requires forall q :: q in matches ==> Occupied(g, q)
    ensures h == Emptied(g, Elems(matches))
    ensures points == score + 10 * |matches|
  {
    h := g;
    points := score;
    for i := 0 to |matches|
      invariant |h| == |g| && forall r :: 0 <= r < |g| ==> |h[r]| == |g[r]|
      invariant forall p :: At(h, p) == if p in matches[..i] then None else At(g, p)
      invariant points == score + 10 * i
    {
      assert matches[i] in matches;
      TakeOneMore(matches, i);
      h := SetCell(h, matches[i], None);
      points := points + 10;
    }
    assert matches[..|matches|] == matches;
    GridsEqual(h, Emptied(g, Elems(matches)));
  }

  class GameSession {
    var grid: Grid
    var fallingBubbles: seq<Bubble>
    var projectile: Option<Color>
    var shooterBubble: Option<Color>
    var nextBubble: Option<Color>
    var score: int
    var level: int
    var gameOver: bool
    var shotsUntilDrop: int
    var shotsFired: int
    var ceilingOffset: int

    /** The session invariant: the counters agree with the level's
        configuration, the ceiling has dropped a whole number of rows, and
        every bubble on the board sits in the cell it records. */
    ghost predicate Valid()
      reads this
    {
      && level >= 1
      && shotsUntilDrop == GetLevelConfig(level).shotsUntilDrop
      && 0 <= shotsFired < shotsUntilDrop
      && ceilingOffset >= 0 && ceilingOffset % ROW_PITCH == 0
      && WellFormed(grid, ceilingOffset)
      && score >= 0
    }

    /** The values the game's globals start with when the page loads. */
    constructor ()
      ensures Valid()
      ensures grid == [] && fallingBubbles == []
      ensures projectile == None && shooterBubble == None && nextBubble == None
      ensures score == 0 && level == 1 && !gameOver
      ensures shotsUntilDrop == 15 && shotsFired == 0 && ceilingOffset == 0
    {
      grid := [];
      fallingBubbles := [];
      projectile := None;
      shooterBubble := None;
      nextBubble := None;
      score := 0;
      level := 1;
      gameOver := false;
      shotsUntilDrop := 15;
      shotsFired := 0;
      ceilingOffset := 0;
    }

    /** initGame: everything but the projectile and the shooter slots is
        reset, level 1 is laid out, and the shooter is loaded. A colour
        still waiting in the next slot from an earlier game is handed on. */
    method InitGame(draw: (int, int) -> real, u1: real, u2: real)
      requires forall i, j :: 0.0 <= draw(i, j) < 1.0
      requires 0.0 <= u1 < 1.0 && 0.0 <= u2 < 1.0
      modifies this
      ensures Valid()
      ensures score == 0 && level == 1 && !gameOver
      ensures grid == Seeded([], level, draw) && fallingBubbles == []
      ensures shotsUntilDrop == 15 && shotsFired == 0 && ceilingOffset == 0
      ensures projectile == old(projectile)
      ensures shooterBubble == Some(if old(nextBubble).Some? then old(nextBubble).value
                                    else Pick(AvailableColors(grid, level), u1))
      ensures nextBubble == Some(Pick(AvailableColors(grid, level), u2))
    {
      ResetGame(draw);
      CreateNewShooterBubble(u1, u2);
    }

    /** initGame as evidently intended: the projectile and the waiting
        next colour of the previous game are discarded as well, so both
        shooter colours are drawn from the new board. */
    method StartFreshGame(draw: (int, int) -> real, u1: real, u2: real)
      requires forall i, j :: 0.0 <= draw(i, j) < 1.0
      requires 0.0 <= u1 < 1.0 && 0.0 <= u2 < 1.0
      modifies this
      ensures Valid()
      ensures score == 0 && level == 1 && !gameOver
      ensures grid == Seeded([], level, draw) && fallingBubbles == []
      ensures shotsUntilDrop == 15 && shotsFired == 0 && ceilingOffset == 0
      ensures projectile == None
      ensures shooterBubble.Some? && nextBubble.Some?
      ensures exists p :: Scanned(grid, p) && ColorAt(grid, p, shooterBubble.value)
      ensures exists p :: Scanned(grid, p) && ColorAt(grid, p, nextBubble.value)
    {
      projectile := None;
      nextBubble := None;
      ResetGame(draw);
      CreateNewShooterBubble(u1, u2);
      SeededNotEmpty(level, draw);
      PickedColorOnBoard(grid, level, u1);
      PickedColorOnBoard(grid, level, u2);
    }

    /** The resets of initGame and the layout of level 1. */
    method ResetGame(draw: (int, int) -> real)
      requires forall i, j :: 0.0 <= draw(i, j) < 1.0
      modifies this
      ensures Valid()
      ensures score == 0 && level == 1 && !gameOver
      ensures grid == Seeded([], level, draw) && fallingBubbles == []
      ensures shotsUntilDrop == 15 && shotsFired == 0 && ceilingOffset == 0
      ensures projectile == old(projectile)
      ensures shooterBubble == old(shooterBubble) && nextBubble == old(nextBubble)
    {
      grid := [];
      fallingBubbles := [];
      score := 0;
      level := 1;
      gameOver := false;
      shotsFired := 0;
      ceilingOffset := 0;
      shotsUntilDrop := GetLevelConfig(level).shotsUntilDrop;
      GenerateBubblesForLevel(level, draw);
      SeededWellFormed(level, draw);
    }

    /** generateBubblesForLevel: rows 0 .. rows - 1 are each reset to an
        empty row and filled, every even row in all COLS columns and every
        odd row in all but the last, with colours drawn from the level's
        palette; rows below them are kept. */
    method GenerateBubblesForLevel(lvl: int, draw: (int, int) -> real)
      requires forall i, j :: 0.0 <= draw(i, j) < 1.0
      modifies this
      ensures grid == Seeded(old(grid), lvl, draw)
      ensures fallingBubbles == old(fallingBubbles) && projectile == old(projectile)
      ensures shooterBubble == old(shooterBubble) && nextBubble == old(nextBubble)
      ensures score == old(score) && level == old(level) && gameOver == old(gameOver)
      ensures shotsUntilDrop == old(shotsUntilDrop) && shotsFired == old(shotsFired)
      ensures ceilingOffset == old(ceilingOffset)
    {
      var rows := GetLevelConfig(lvl).rows;
      var levelColors := GetColorsForLevel(lvl);
      ghost var g0 := grid;
      var g := grid;
      for row := 0 to rows
        invariant |g| == if |g0| < row then row else |g0|
        invariant forall r :: 0 <= r < row ==> g[r] == GeneratedRow(lvl, r, draw)
        invariant forall r :: row <= r < |g| ==> g[r] == g0[r]
      {
        if row < |g| {
          g := g[row := EmptyRow()];
        } else {
          g := g + [EmptyRow()];
        }
        for col := 0 to COLS
          invariant |g| == if |g0| < row + 1 then row + 1 else |g0|
          invariant |g[row]| == COLS
          invariant forall c :: 0 <= c < COLS ==> g[row][c] == if c < col then GeneratedCell(lvl, row, c, draw) else None
          invariant forall r :: 0 <= r < row ==> g[r] == GeneratedRow(lvl, r, draw)
          invariant forall r :: row < r < |g| ==> g[r] == g0[r]
        {
          if row % 2 == 0 || col < COLS - 1 {
            var x := PixelX(row, col);
            var y := PixelY(row, 0);
            var color := Pick(levelColors, draw(row, col));
            g := g[row := g[row][col := Some(Bubble(x, y, color, row, col))]];
          }
        }
        assert g[row] == GeneratedRow(lvl, row, draw);
      }
      grid := g;
      assert grid == Seeded(g0, lvl, draw);
    }

    /** createNewShooterBubble: the colour waiting in the next slot moves
        into the shooter (or, with nothing waiting, a colour is drawn), and
        a fresh next colour is drawn, both from the colours still on the
        board — or from the level's palette once the board is empty. */
    method CreateNewShooterBubble(u1: real, u2: real)
      requires 0.0 <= u1 < 1.0 && 0.0 <= u2 < 1.0
      modifies this
      ensures shooterBubble == Some(if old(nextBubble).Some? then old(nextBubble).value
                                    else Pick(AvailableColors(grid, level), u1))
      ensures nextBubble == Some(Pick(AvailableColors(grid, level), u2))
      ensures grid == old(grid) && fallingBubbles == old(fallingBubbles) && projectile == old(projectile)
      ensures score == old(score) && level == old(level) && gameOver == old(gameOver)
      ensures shotsUntilDrop == old(shotsUntilDrop) && shotsFired == old(shotsFired)
      ensures ceilingOffset == old(ceilingOffset)
    {
      if nextBubble.Some? {
        shooterBubble := Some(nextBubble.value);
      } else {
        var availableColors := GetAvailableColors(grid, level);
        shooterBubble := Some(Pick(availableColors, u1));
      }
      var availableColors := GetAvailableColors(grid, level);
      nextBubble := Some(Pick(availableColors, u2));
    }

    /** dropCeiling: the ceiling comes down one row pitch and every bubble
        moves down with it; the board stays well formed under the new
        ceiling and keeps its bubbles and colours. */
    method DropCeiling()
      requires Valid()
      modifies this
      ensures Valid()
      ensures ceilingOffset == old(ceilingOffset) + ROW_PITCH
      ensures grid == Lowered(old(grid), ROW_PITCH)
      ensures forall p :: Occupied(grid, p) <==> Occupied(old(grid), p)
      ensures fallingBubbles == old(fallingBubbles) && projectile == old(projectile)
      ensures shooterBubble == old(shooterBubble) && nextBubble == old(nextBubble)
      ensures score == old(score) && level == old(level) && gameOver == old(gameOver)
      ensures shotsUntilDrop == old(shotsUntilDrop) && shotsFired == old(shotsFired)
    {
      ceilingOffset := ceilingOffset + ROW_PITCH;
      ghost var g0 := grid;
      var g := grid;
      for row := 0 to |g|
        invariant |g| == |g0|
        invariant forall r :: 0 <= r < |g0| ==> g[r] == if r < row then Lowered(g0, ROW_PITCH)[r] else g0[r]
      {
        for col := 0 to COLS
          invariant |g| == |g0|
          invariant forall r :: 0 <= r < |g0| && r != row ==> g[r] == if r < row then Lowered(g0, ROW_PITCH)[r] else g0[r]
          invariant |g[row]| == COLS
          invariant forall c :: 0 <= c < COLS ==> g[row][c] == if c < col then Lowered(g0, ROW_PITCH)[row][c] else g0[row][c]
        {
          if g[row][col].Some? {
            var b := g[row][col].value;
            g := g[row := g[row][col := Some(b.(y := b.y + ROW_PITCH))]];
          }
        }
        assert g[row] == Lowered(g0, ROW_PITCH)[row];
      }
      grid := g;
      assert grid == Lowered(g0, ROW_PITCH);
      LoweredResident(g0, old(ceilingOffset));
    }

    /** shootBubble: ignored while a projectile is in flight, the shooter
        is empty or the game is over; otherwise the shooter's colour becomes
        the projectile and the shot counter advances, the ceiling dropping
        whenever it reaches the level's limit. */
    method ShootBubble()
      requires Valid()
      modifies this
      ensures Valid()
      ensures old(projectile).Some? || old(shooterBubble).None? || old(gameOver) ==>
                && projectile == old(projectile) && shooterBubble == old(shooterBubble)
                && shotsFired == old(shotsFired) && grid == old(grid) && ceilingOffset == old(ceilingOffset)
      ensures !(old(projectile).Some? || old(shooterBubble).None? || old(gameOver)) ==>
                var o := NextShot(old(shotsFired), old(shotsUntilDrop));
                && projectile == old(shooterBubble) && shooterBubble == None
                && shotsFired == o.fired
                && grid == (if o.drop then Lowered(old(grid), ROW_PITCH) else old(grid))
                && ceilingOffset == old(ceilingOffset) + (if o.drop then ROW_PITCH else 0)
      ensures fallingBubbles == old(fallingBubbles) && nextBubble == old(nextBubble)
      ensures score == old(score) && level == old(level) && gameOver == old(gameOver)
      ensures shotsUntilDrop == old(shotsUntilDrop)
    {
      if projectile.Some? || shooterBubble.None? || gameOver {
        return;
      }
      projectile := shooterBubble;
      shooterBubble := None;
      shotsFired := shotsFired + 1;
      if shotsFired >= shotsUntilDrop {
        shotsFired := 0;
        DropCeiling();
      }
    }

    /** removeFloatingBubbles: the bubbles hanging from the ceiling are
        marked, then a row-major scan moves every other bubble to the
        falling list, empties its cell and scores 20 points for it. */
    method RemoveFloatingBubbles()
      requires Valid()
      modifies this
      ensures Valid()
      ensures grid == Pruned(old(grid))
      ensures fallingBubbles == old(fallingBubbles) + Detached(old(grid))
      ensures score == old(score) + 20 * |Detached(old(grid))|
      ensures projectile == old(projectile)
      ensures shooterBubble == old(shooterBubble) && nextBubble == old(nextBubble)
      ensures level == old(level) && gameOver == old(gameOver)
      ensures shotsUntilDrop == old(shotsUntilDrop) && shotsFired == old(shotsFired)
      ensures ceilingOffset == old(ceilingOffset)
    {
      var connected := ConnectedToCeiling(grid);
      ghost var g0 := grid;
      var g, dropped := SweepDetached(grid, connected, ceilingOffset);
      GridsEqual(g, Pruned(g0));
      ThinnedWellFormed(g0, g, ceilingOffset);
      grid := g;
      fallingBubbles := fallingBubbles + dropped;
      score := score + 20 * |dropped|;
    }

    /** checkMatches: the same-colour search from the bubble just placed;
        three or more matches are popped one by one for 10 points each,
        floating bubbles are then dropped, and an empty board earns
        100 points per level and reports that the level is cleared. */
    method CheckMatches(seed: Pos) returns (cleared: bool)
      requires Valid() && Occupied(grid, seed)
      modifies this
      ensures Valid()
      ensures var s := Settle(old(grid), seed, old(level));
              && grid == s.grid && fallingBubbles == old(fallingBubbles) + s.falling
              && score == old(score) + s.gained && cleared == s.cleared
      ensures projectile == old(projectile)
      ensures shooterBubble == old(shooterBubble) && nextBubble == old(nextBubble)
      ensures level == old(level) && gameOver == old(gameOver)
      ensures shotsUntilDrop == old(shotsUntilDrop) && shotsFired == old(shotsFired)
      ensures ceilingOffset == old(ceilingOffset)
    {
      ghost var g0 := grid;
      var color := grid[seed.row][seed.col].value.color;
      var matches, found := FindMatches(grid, seed, color, {});
      FoundIsComponent(g0, seed, found);
      NoDupCard(matches);
      assert Elems(matches) == found;
      if |matches| < 3 {
        return false;
      }
      cleared := PopAndDrop(matches);
    }

    /** The part of checkMatches that runs on three or more matches: the
        matched bubbles are popped for 10 points each, floating bubbles are
        dropped, and an empty board earns 100 points per level. */
    method PopAndDrop(matches: seq<Pos>) returns (cleared: bool)
      requires Valid() && forall q :: q in matches ==> Occupied(grid, q)
      modifies this
      ensures Valid()
      ensures var emptied := Emptied(old(grid), Elems(matches));
              && grid == Pruned(emptied)
              && fallingBubbles == old(fallingBubbles) + Detached(emptied)
              && cleared == NoBubbles(grid)
              && score == old(score) + 10 * |matches| + 20 * |Detached(emptied)| + (if cleared then 100 * level else 0)
      ensures projectile == old(projectile)
      ensures shooterBubble == old(shooterBubble) && nextBubble == old(nextBubble)
      ensures level == old(level) && gameOver == old(gameOver)
      ensures shotsUntilDrop == old(shotsUntilDrop) && shotsFired == old(shotsFired)
      ensures ceilingOffset == old(ceilingOffset)
    {
      ghost var g0 := grid;
      var g, points := PopMatches(grid, matches, score);
      ThinnedWellFormed(g0, g, ceilingOffset);
      grid := g;
      score := points;
      RemoveFloatingBubbles();
      cleared := CheckClear(grid);
      if cleared {
        score := score + 100 * level;
      }
    }

    /** snapToGrid: the projectile is stored in the cell under its landing
        point, matches are checked, the shooter is reloaded, and the game
        ends when a bubble has reached the danger line. */
    method SnapToGrid(px: real, py: real, u1: real, u2: real) returns (cleared: bool)
      requires Valid() && projectile.Some?
      requires 0 <= SnapRow(py, ceilingOffset) <= |grid|
      requires 0.0 <= u1 < 1.0 && 0.0 <= u2 < 1.0
      modifies this
      ensures Valid()
      ensures var row := SnapRow(py, old(ceilingOffset));
              var seed := Pos(row, SnapCol(px, row));
              var s := Settle(Placed(old(grid), row, seed.col, old(projectile).value, old(ceilingOffset)), seed, old(level));
              && grid == s.grid && fallingBubbles == old(fallingBubbles) + s.falling
              && score == old(score) + s.gained && cleared == s.cleared
      ensures projectile == None
      ensures shooterBubble == Some(if old(nextBubble).Some? then old(nextBubble).value
                                    else Pick(AvailableColors(grid, level), u1))
      ensures nextBubble == Some(Pick(AvailableColors(grid, level), u2))
      ensures gameOver == (old(gameOver) || AnyPastDanger(grid))
      ensures level == old(level) && shotsUntilDrop == old(shotsUntilDrop)
      ensures shotsFired == old(shotsFired) && ceilingOffset == old(ceilingOffset)
    {
      var row := SnapRow(py, ceilingOffset);
      var col := SnapCol(px, row);
      cleared := Land(row, col);
      Reload(u1, u2);
    }

    /** The first half of snapToGrid: the projectile is stored in cell
        (row, col) — a new empty row is opened when it lands just below the
        last row — and checkMatches runs around it. */
    method Land(row: int, col: int) returns (cleared: bool)
      requires Valid() && projectile.Some?
      requires 0 <= row <= |grid| && 0 <= col < COLS
      modifies this
      ensures Valid()
      ensures var s := Settle(Placed(old(grid), row, col, old(projectile).value, old(ceilingOffset)), Pos(row, col), old(level));
              && grid == s.grid && fallingBubbles == old(fallingBubbles) + s.falling
              && score == old(score) + s.gained && cleared == s.cleared
      ensures projectile == old(projectile)
      ensures shooterBubble == old(shooterBubble) && nextBubble == old(nextBubble)
      ensures level == old(level) && gameOver == old(gameOver)
      ensures shotsUntilDrop == old(shotsUntilDrop) && shotsFired == old(shotsFired)
      ensures ceilingOffset == old(ceilingOffset)
    {
      var color := projectile.value;
      PlacedLayout(grid, row, col, color, ceilingOffset);
      grid := Placed(grid, row, col, color, ceilingOffset);
      cleared := CheckMatches(Pos(row, col));
    }

    /** The second half of snapToGrid: the projectile is gone, the shooter
        is reloaded, and the game is over once a bubble has reached the
        danger line (a game already over stays over). */
    method Reload(u1: real, u2: real)
      requires Valid()
      requires 0.0 <= u1 < 1.0 && 0.0 <= u2 < 1.0
      modifies this
      ensures Valid()
      ensures projectile == None
      ensures shooterBubble == Some(if old(nextBubble).Some? then old(nextBubble).value
                                    else Pick(AvailableColors(grid, level), u1))
      ensures nextBubble == Some(Pick(AvailableColors(grid, level), u2))
      ensures gameOver == (old(gameOver) || AnyPastDanger(grid))
      ensures grid == old(grid) && fallingBubbles == old(fallingBubbles) && score == old(score)
      ensures level == old(level) && shotsUntilDrop == old(shotsUntilDrop)
      ensures shotsFired == old(shotsFired) && ceilingOffset == old(ceilingOffset)
    {
      projectile := None;
      CreateNewShooterBubble(u1, u2);
      var over := CheckGameOver(grid);
      if over {
        gameOver := true;
      }
    }

    /** nextLevel: the level advances, its shot limit applies, the ceiling
        and the shot counter are reset, and the new level is laid out on an
        empty board; the score carries over. */
    method NextLevel(draw: (int, int) -> real)
      requires Valid() && forall i, j :: 0.0 <= draw(i, j) < 1.0
      modifies this
      ensures Valid()
      ensures level == old(level) + 1
      ensures shotsUntilDrop == GetLevelConfig(level).shotsUntilDrop
      ensures shotsFired == 0 && ceilingOffset == 0
      ensures grid == Seeded([], level, draw)
      ensures fallingBubbles == old(fallingBubbles) && projectile == old(projectile)
      ensures shooterBubble == old(shooterBubble) && nextBubble == old(nextBubble)
      ensures score == old(score) && gameOver == old(gameOver)
    {
      level := level + 1;
      shotsUntilDrop := GetLevelConfig(level).shotsUntilDrop;
      ceilingOffset := 0;
      shotsFired := 0;
      grid := [];
      GenerateBubblesForLevel(level, draw);
      assert grid == Seeded([], level, draw);
      SeededWellFormed(level, draw);
    }

    /** The step scheduled after a cleared board: the next level is laid
        out and the shooter reloaded from its colours. */
    method LevelUp(draw: (int, int) -> real, u1: real, u2: real)
      requires Valid() && forall i, j :: 0.0 <= draw(i, j) < 1.0
      requires 0.0 <= u1 < 1.0 && 0.0 <= u2 < 1.0
      modifies this
      ensures Valid()
      ensures level == old(level) + 1 && grid == Seeded([], level, draw)
      ensures shotsUntilDrop == GetLevelConfig(level).shotsUntilDrop
      ensures shotsFired == 0 && ceilingOffset == 0
      ensures shooterBubble == Some(if old(nextBubble).Some? then old(nextBubble).value
                                    else Pick(AvailableColors(grid, level), u1))
      ensures nextBubble == Some(Pick(AvailableColors(grid, level), u2))
      ensures fallingBubbles == old(fallingBubbles) && projectile == old(projectile)
      ensures score == old(score) && gameOver == old(gameOver)
    {
      NextLevel(draw);
      CreateNewShooterBubble(u1, u2);
    }
  }

  /** A restart of a session that has Purple waiting in the next slot, as
      one that reached level 3 can: initGame hands Purple to the shooter
      although no bubble of the fresh level-1 board has that colour. */
  method RestartHandsOverStaleColor(draw: (int, int) -> real, u1: real, u2: real) returns (s: GameSession)
    requires forall i, j :: 0.0 <= draw(i, j) < 1.0
    requires 0.0 <= u1 < 1.0 && 0.0 <= u2 < 1.0
    ensures s.level == 1 && s.shooterBubble == Some(Purple)
    ensures Purple !in AvailableColors(s.grid, s.level)
  {
    s := new GameSession();
    s.nextBubble := Some(Purple);
    s.InitGame(draw, u1, u2);
    RestartOffersStaleColor(draw);
  }
}
