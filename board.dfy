/** Whole-board facts and scans: where resident bubbles sit, the row-major
    scans of checkClear, checkGameOver and getAvailableColors, the rows that
    generateBubblesForLevel lays out, and what a ceiling drop does to the
    bubbles. The scans visit rows 0 .. |g| - 1 and columns 0 .. COLS - 1 and
    treat a missing cell as empty, as the game's `bubbleGrid[row][col]`
    test does. */
module Board {
  import opened HexGrid
  import opened Geometry
  import opened Levels
  import opened SeqUtil

  /** A bubble stored in cell (r, c): it records that cell and sits on the
      cell's centre under the given ceiling offset. */
  predicate Resident(b: Bubble, r: int, c: int, ceiling: int)
  {
    b.row == r && b.col == c && b.x == PixelX(r, c) && b.y == PixelY(r, ceiling)
  }

  /** Every row has COLS cells and every bubble is resident in its cell. */
  ghost predicate WellFormed(g: Grid, ceiling: int)
  {
    && Rectangular(g)
    && forall p :: Occupied(g, p) ==> Resident(At(g, p).value, p.row, p.col, ceiling)
  }

  /** A cell of one of the first n rows, in one of the COLS columns. */
  predicate InFirstRows(p: Pos, n: int)
  {
    0 <= p.row < n && 0 <= p.col < COLS
  }

  /** A cell the scans visit. */
  predicate Scanned(g: Grid, p: Pos)
  {
    InFirstRows(p, |g|)
  }

  ghost predicate NoBubbles(g: Grid)
  {
    forall p :: Scanned(g, p) ==> !Occupied(g, p)
  }

  /** checkClear: true exactly when no visited cell holds a bubble. */
  method CheckClear(g: Grid) returns (clear: bool)
    ensures clear <==> NoBubbles(g)
  {
    for row := 0 to |g|
      invariant forall p :: Scanned(g, p) && p.row < row ==> !Occupied(g, p)
    {
      for col := 0 to COLS
        invariant forall p :: Scanned(g, p) && (p.row < row || (p.row == row && p.col < col)) ==> !Occupied(g, p)
      {
        if Occupied(g, Pos(row, col)) {
          return false;
        }
      }
    }
    return true;
  }

  /** Some visited bubble has its lower edge on or past the danger line. */
  ghost predicate AnyPastDanger(g: Grid)
  {
    exists p :: Scanned(g, p) && Occupied(g, p) && PastDangerLine(At(g, p).value.y)
  }

  /** checkGameOver: true exactly when some bubble has reached the danger line. */
  method CheckGameOver(g: Grid) returns (over: bool)
    ensures over <==> AnyPastDanger(g)
  {
    for row := 0 to |g|
      invariant forall p :: Scanned(g, p) && p.row < row && Occupied(g, p) ==> !PastDangerLine(At(g, p).value.y)
    {
      for col := 0 to COLS
        invariant forall p :: Scanned(g, p) && (p.row < row || (p.row == row && p.col < col)) && Occupied(g, p) ==>
                    !PastDangerLine(At(g, p).value.y)
      {
        var cell := At(g, Pos(row, col));
        if cell.Some? && PastDangerLine(cell.value.y) {
          return true;
        }
      }
    }
    return false;
  }

  /** On a well-formed board after `drops` ceiling drops, the game is over
      exactly when some bubble sits in row ROWS - 1 - drops or below. */
  lemma GameOverByRow(g: Grid, drops: int)
    requires WellFormed(g, drops * ROW_PITCH)
    ensures AnyPastDanger(g) <==> exists p :: Scanned(g, p) && Occupied(g, p) && p.row + drops >= ROWS - 1
  {
    forall p | Scanned(g, p) && Occupied(g, p)
      ensures PastDangerLine(At(g, p).value.y) <==> p.row + drops >= ROWS - 1
    {
      DangerRow(p.row, drops);
    }
  }

  /** Cell p holds a bubble of colour c. */
  predicate ColorAt(g: Grid, p: Pos, c: Color)
  {
    Occupied(g, p) && At(g, p).value.color == c
  }

  /** Colours of the bubbles in the first m columns of row r, left to right. */
  function RowColors(g: Grid, r: int, m: nat): seq<Color>
  {
    if m == 0 then []
    else
      var cell := At(g, Pos(r, m - 1));
      RowColors(g, r, m - 1) + (if cell.Some? then [cell.value.color] else [])
  }

  /** Colours of the bubbles of the first n rows, in row-major order. */
  function GridColors(g: Grid, n: nat): seq<Color>
  {
    if n == 0 then [] else GridColors(g, n - 1) + RowColors(g, n - 1, COLS)
  }

  lemma {:induction false} RowColorsMembership(g: Grid, r: int, m: nat, c: Color)
    ensures c in RowColors(g, r, m) <==> exists k :: 0 <= k < m && ColorAt(g, Pos(r, k), c)
  {
    if m > 0 {
      RowColorsMembership(g, r, m - 1, c);
      if ColorAt(g, Pos(r, m - 1), c) {
        assert c in RowColors(g, r, m);
      }
    }
  }

  /** A colour occurs in the row-major listing of the first n rows exactly
      when some scanned cell of those rows holds a bubble of that colour. */
  lemma {:induction false} GridColorsMembership(g: Grid, n: nat, c: Color)
    ensures c in GridColors(g, n) <==> exists p :: InFirstRows(p, n) && ColorAt(g, p, c)
  {
    if n > 0 {
      GridColorsMembership(g, n - 1, c);
      RowColorsMembership(g, n - 1, COLS, c);
      if c in RowColors(g, n - 1, COLS) {
        var k :| 0 <= k < COLS && ColorAt(g, Pos(n - 1, k), c);
        assert InFirstRows(Pos(n - 1, k), n);
      }
      if p :| InFirstRows(p, n) && ColorAt(g, p, c) {
        if p.row == n - 1 {
          assert Pos(n - 1, p.col) == p;
        }
      }
    }
  }

  /** getAvailableColors as a value: the colours on the board in order of
      first appearance, or the level's palette when the board is empty. */
  function AvailableColors(g: Grid, level: int): (cs: seq<Color>)
    ensures |cs| > 0
  {
    var inGrid := Dedup(GridColors(g, |g|));
    if |inGrid| > 0 then inGrid else GetColorsForLevel(level)
  }

  /** The shooter is always offered at least one colour, never the same one
      twice; on a board with bubbles exactly the colours present, and on an
      empty board the level's palette. */
  lemma AvailableColorsMeaning(g: Grid, level: int)
    ensures |AvailableColors(g, level)| > 0 && NoDup(AvailableColors(g, level))
    ensures !NoBubbles(g) ==> forall c :: c in AvailableColors(g, level) <==> exists p :: Scanned(g, p) && ColorAt(g, p, c)
    ensures NoBubbles(g) ==> AvailableColors(g, level) == GetColorsForLevel(level)
  {
    var listed := GridColors(g, |g|);
    var inGrid := Dedup(listed);
    if NoBubbles(g) {
      if |inGrid| > 0 {
        GridColorsMembership(g, |g|, inGrid[0]);
        assert false;
      }
      var cs := GetColorsForLevel(level);
      assert forall i, j :: 0 <= i < j < |cs| ==> cs[i] != cs[j];
    } else {
      var p :| Scanned(g, p) && Occupied(g, p);
      GridColorsMembership(g, |g|, At(g, p).value.color);
      assert At(g, p).value.color in inGrid;
      forall c
        ensures c in inGrid <==> exists q :: Scanned(g, q) && ColorAt(g, q, c)
      {
        GridColorsMembership(g, |g|, c);
      }
    }
  }

  /** The colours the scan has listed before cell (row, col). */
  function ScannedColors(g: Grid, row: nat, col: nat): seq<Color>
  {
    GridColors(g, row) + RowColors(g, row, col)
  }

  /** One scan step: the distinct colours listed so far grow by the
      colour of cell (row, col) when it holds a bubble of a new colour. */
  lemma ScanStep(g: Grid, row: nat, col: nat)
    ensures var cell := At(g, Pos(row, col));
            var seen := Dedup(ScannedColors(g, row, col));
            Dedup(ScannedColors(g, row, col + 1))
            == if cell.Some? && cell.value.color !in seen then seen + [cell.value.color] else seen
  {
    var before := ScannedColors(g, row, col);
    var cell := At(g, Pos(row, col));
    if cell.Some? {
      var after := before + [cell.value.color];
      assert ScannedColors(g, row, col + 1) == after;
      assert after[..|after| - 1] == before;
    } else {
      assert ScannedColors(g, row, col + 1) == before;
    }
  }

  /** getAvailableColors: the two nested loops add each visited bubble's
      colour to an insertion-ordered set; with no bubble left the level's
      palette is used instead. */
  method GetAvailableColors(g: Grid, level: int) returns (colors: seq<Color>)
    ensures colors == AvailableColors(g, level)
  {
    var seen: seq<Color> := [];
    for row := 0 to |g|
      invariant seen == Dedup(GridColors(g, row))
    {
      seen := ScanRowColors(g, row, seen);
    }
    colors := if |seen| > 0 then seen else GetColorsForLevel(level);
  }

  /** The inner loop of getAvailableColors over the cells of one row. */
  method ScanRowColors(g: Grid, row: nat, seen: seq<Color>) returns (seenOut: seq<Color>)
    requires seen == Dedup(GridColors(g, row))
    ensures seenOut == Dedup(GridColors(g, row + 1))
  {
    seenOut := seen;
    assert ScannedColors(g, row, 0) == GridColors(g, row);
    for col := 0 to COLS
      invariant seenOut == Dedup(ScannedColors(g, row, col))
    {
      ScanStep(g, row, col);
      var cell := At(g, Pos(row, col));
      if cell.Some? && cell.value.color !in seenOut {
        seenOut := seenOut + [cell.value.color];
      }
    }
    assert ScannedColors(g, row, COLS) == GridColors(g, row + 1);
  }

  /** Whether generateBubblesForLevel fills column col of row: all of an
      even row, all but the last column of an odd row. */
  predicate FilledAtStart(row: int, col: int)
  {
    row % 2 == 0 || col < COLS - 1
  }

  /** The cell generateBubblesForLevel lays out at (row, col), with the
      colour `draw` picks from the level's palette. */
  function GeneratedCell(level: int, row: int, col: int, draw: (int, int) -> real): (cell: Option<Bubble>)
    requires 0.0 <= draw(row, col) < 1.0
    ensures cell.Some? <==> FilledAtStart(row, col)
    ensures cell.Some? ==> Resident(cell.value, row, col, 0) && cell.value.color in GetColorsForLevel(level)
  {
    if FilledAtStart(row, col) then
      Some(Bubble(PixelX(row, col), PixelY(row, 0), Pick(GetColorsForLevel(level), draw(row, col)), row, col))
    else None
  }

  function GeneratedRow(level: int, row: int, draw: (int, int) -> real): (r: Row)
    requires forall i, j :: 0.0 <= draw(i, j) < 1.0
    ensures |r| == COLS
  {
    seq(COLS, c => GeneratedCell(level, row, c, draw))
  }

  /** The board after generateBubblesForLevel on board g: the level's first
      rows are replaced by freshly laid-out rows, later rows are kept. */
  function Seeded(g: Grid, level: int, draw: (int, int) -> real): (h: Grid)
    requires forall i, j :: 0.0 <= draw(i, j) < 1.0
    ensures |h| == if |g| < GetLevelConfig(level).rows then GetLevelConfig(level).rows else |g|
  {
    var n := GetLevelConfig(level).rows;
    seq(if |g| < n then n else |g|, r requires 0 <= r < (if |g| < n then n else |g|) =>
      if r < n then GeneratedRow(level, r, draw) else g[r])
  }

  /** A level laid out on an empty board has the configured number of
      rows, and every bubble is resident with no ceiling offset. */
  lemma SeededWellFormed(level: int, draw: (int, int) -> real)
    requires forall i, j :: 0.0 <= draw(i, j) < 1.0
    ensures |Seeded([], level, draw)| == GetLevelConfig(level).rows
    ensures WellFormed(Seeded([], level, draw), 0)
  {
    var h := Seeded([], level, draw);
    forall p | Occupied(h, p)
      ensures Resident(At(h, p).value, p.row, p.col, 0)
    {
      assert At(h, p) == GeneratedCell(level, p.row, p.col, draw);
    }
  }

  /** On a level laid out on an empty board every bubble is coloured from
      the level's palette, and there are ten bubbles on each even row and
      nine on each odd row. */
  lemma SeededLayout(level: int, draw: (int, int) -> real)
    requires forall i, j :: 0.0 <= draw(i, j) < 1.0
    ensures forall p :: Occupied(Seeded([], level, draw), p) ==>
              At(Seeded([], level, draw), p).value.color in GetColorsForLevel(level)
    ensures forall p :: Scanned(Seeded([], level, draw), p) ==>
              (Occupied(Seeded([], level, draw), p) <==> FilledAtStart(p.row, p.col))
  {
    var h := Seeded([], level, draw);
    forall p | Occupied(h, p)
      ensures At(h, p).value.color in GetColorsForLevel(level)
    {
      assert At(h, p) == GeneratedCell(level, p.row, p.col, draw);
    }
    forall p | Scanned(h, p)
      ensures Occupied(h, p) <==> FilledAtStart(p.row, p.col)
    {
      assert At(h, p) == GeneratedCell(level, p.row, p.col, draw);
    }
  }

  /** A freshly laid-out level always has a bubble in its top-left cell. */
  lemma SeededNotEmpty(level: int, draw: (int, int) -> real)
    requires forall i, j :: 0.0 <= draw(i, j) < 1.0
    ensures !NoBubbles(Seeded([], level, draw))
  {
    var h := Seeded([], level, draw);
    assert Scanned(h, Pos(0, 0));
    assert h[0] == GeneratedRow(level, 0, draw);
    assert At(h, Pos(0, 0)) == GeneratedCell(level, 0, 0, draw);
  }

  /** The board after a ceiling drop of dy: every bubble moved down by dy. */
  function Lowered(g: Grid, dy: int): (h: Grid)
    ensures |h| == |g| && forall r :: 0 <= r < |g| ==> |h[r]| == |g[r]|
    ensures forall p :: Occupied(h, p) <==> Occupied(g, p)
    ensures forall p :: Occupied(g, p) ==> Occupied(h, p) && At(h, p).value == At(g, p).value.(y := At(g, p).value.y + dy)
  {
    seq(|g|, r requires 0 <= r < |g| =>
      seq(|g[r]|, c requires 0 <= c < |g[r]| =>
        if g[r][c].Some? then Some(g[r][c].value.(y := g[r][c].value.y + dy)) else None))
  }

  /** A ceiling drop of one row pitch keeps every bubble in its cell, with
      its colour, resident under the lowered ceiling; so the occupied cells
      and their colours, and hence every colour component, are unchanged. */
  lemma LoweredResident(g: Grid, ceiling: int)
    requires WellFormed(g, ceiling)
    ensures WellFormed(Lowered(g, ROW_PITCH), ceiling + ROW_PITCH)
    ensures forall p :: Occupied(Lowered(g, ROW_PITCH), p) <==> Occupied(g, p)
    ensures forall p :: Occupied(g, p) ==> At(Lowered(g, ROW_PITCH), p).value.color == At(g, p).value.color
  {
  }
}
