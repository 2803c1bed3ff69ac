/** The hexagonal offset-coordinate bubble grid (`bubbleGrid` in game.js):
    rows of ten cells, odd rows shifted right by half a bubble, a
    panic-free cell lookup and the parity-dependent neighbour table. */
module HexGrid {

  datatype Option<T> = None | Some(value: T)

  /** BUBBLE_RADIUS; every layout pitch derived from it is an integer. */
  const RADIUS: int := 20
  /** Number of columns of every row. */
  const COLS: int := 10
  /** Nominal number of rows, used only to place the danger line. */
  const ROWS: int := 12

  /** The six bubble colours. The game stores them as CSS colour strings
      and compares them with ===; the model names each one, and Hex gives
      the string it stands for. */
  datatype Color = Coral | Turquoise | Yellow | Green | Purple | Blue

  function Hex(c: Color): (h: string)
    ensures |h| == 7 && h[0] == '#'
  {
    match c
    case Coral => "#ff6b6b"
    case Turquoise => "#4ecdc4"
    case Yellow => "#f1c40f"
    case Green => "#2ecc71"
    case Purple => "#9b59b6"
    case Blue => "#3498db"
  }

  /** BUBBLE_COLORS, in the order levels take them. */
  const PALETTE: seq<Color> := [Coral, Turquoise, Yellow, Green, Purple, Blue]
  const BUBBLE_COLORS: seq<string> := ["#ff6b6b", "#4ecdc4", "#f1c40f", "#2ecc71", "#9b59b6", "#3498db"]

  /** The palette lists every colour once, in the order of the colour
      strings, so comparing colours is comparing their strings. */
  lemma PaletteMatchesStrings()
    ensures |PALETTE| == |BUBBLE_COLORS|
    ensures forall i :: 0 <= i < |PALETTE| ==> Hex(PALETTE[i]) == BUBBLE_COLORS[i]
    ensures forall c, d :: Hex(c) == Hex(d) ==> c == d
  {
    forall c, d | Hex(c) == Hex(d)
      ensures c == d
    {
      assert Hex(c)[1] == Hex(d)[1] && Hex(c)[2] == Hex(d)[2];
    }
  }

  /** A (row, col) cell address; rows grow downwards from the ceiling row 0. */
  datatype Pos = Pos(row: int, col: int)

  /** A grid-resident bubble: pixel centre, colour, and the cell it records. */
  datatype Bubble = Bubble(x: int, y: int, color: Color, row: int, col: int)

  type Row = seq<Option<Bubble>>
  type Grid = seq<Row>

  /** A row with no bubble in it (`bubbleGrid[row] = []`). */
  function EmptyRow(): (r: Row)
    ensures |r| == COLS && forall c :: 0 <= c < COLS ==> r[c] == None
  {
    seq(COLS, _ => None)
  }

  ghost predicate Rectangular(g: Grid)
  {
    forall r :: 0 <= r < |g| ==> |g[r]| == COLS
  }

  predicate InBounds(g: Grid, p: Pos)
  {
    0 <= p.row < |g| && 0 <= p.col < |g[p.row]|
  }

  /** Cell lookup that answers None for any address outside the grid,
      negative or past the end, as `bubbleGrid[r] && bubbleGrid[r][c]` does. */
  function At(g: Grid, p: Pos): (b: Option<Bubble>)
    ensures b.Some? ==> InBounds(g, p)
  {
    if InBounds(g, p) then g[p.row][p.col] else None
  }

  predicate Occupied(g: Grid, p: Pos)
  {
    At(g, p).Some?
  }

  /** Every in-range address of the grid. */
  ghost function AllCells(g: Grid): set<Pos>
  {
    set r, c | 0 <= r < |g| && 0 <= c < |g[r]| :: Pos(r, c)
  }

  lemma OccupiedInAllCells(g: Grid, p: Pos)
    requires Occupied(g, p)
    ensures p in AllCells(g)
  {
    assert p == Pos(p.row, p.col);
  }

  /** Neighbour offsets (drow, dcol) of a cell on an even row. */
  const EVEN_ROW_OFFSETS: seq<(int, int)> := [(-1, -1), (-1, 0), (0, -1), (0, 1), (1, -1), (1, 0)]
  /** Neighbour offsets of a cell on an odd row, which sits half a bubble to the right. */
  const ODD_ROW_OFFSETS: seq<(int, int)> := [(-1, 0), (-1, 1), (0, -1), (0, 1), (1, 0), (1, 1)]

  function Offsets(row: int): (ds: seq<(int, int)>)
    ensures |ds| == 6
  {
    if row % 2 == 0 then EVEN_ROW_OFFSETS else ODD_ROW_OFFSETS
  }

  /** q touches p in the hexagonal packing: the two cells beside it on its
      own row, and two cells on each neighbouring row, which lean left of
      an even row and right of an odd one. */
  predicate Adjacent(p: Pos, q: Pos)
  {
    var dr, dc := q.row - p.row, q.col - p.col;
    if dr == 0 then dc == -1 || dc == 1
    else if dr == -1 || dr == 1 then
      if p.row % 2 == 0 then dc == -1 || dc == 0 else dc == 0 || dc == 1
    else false
  }

  /** The offset table of p's row lists exactly the cells adjacent to p. */
  lemma OffsetsAreAdjacency(p: Pos)
    ensures forall q :: Adjacent(p, q) <==> (q.row - p.row, q.col - p.col) in Offsets(p.row)
  {
  }

  /** The packing makes adjacency symmetric for both row parities. */
  lemma AdjacentSymmetric(p: Pos, q: Pos)
    ensures Adjacent(p, q) <==> Adjacent(q, p)
  {
    if q.row == p.row - 1 || q.row == p.row + 1 {
      assert (p.row % 2 == 0) <==> (q.row % 2 != 0);
    }
  }

  /** getNeighbors: the occupied cells among the six offsets of p's row
      parity, in the order of the offset table. */
  function Neighbors(g: Grid, p: Pos): (ns: seq<Pos>)
    ensures |ns| <= 6
    ensures forall q :: q in ns <==> Adjacent(p, q) && Occupied(g, q)
  {
    OffsetsAreAdjacency(p);
    NeighborsAlong(g, p, Offsets(p.row))
  }

  function NeighborsAlong(g: Grid, p: Pos, ds: seq<(int, int)>): (ns: seq<Pos>)
    ensures |ns| <= |ds|
    ensures forall q :: q in ns <==> (q.row - p.row, q.col - p.col) in ds && Occupied(g, q)
  {
    if ds == [] then []
    else
      var q := Pos(p.row + ds[0].0, p.col + ds[0].1);
      (if Occupied(g, q) then [q] else []) + NeighborsAlong(g, p, ds[1..])
  }

  /** Writes one in-range cell. */
  function SetCell(g: Grid, p: Pos, v: Option<Bubble>): (h: Grid)
    requires InBounds(g, p)
    ensures |h| == |g| && forall r :: 0 <= r < |g| ==> |h[r]| == |g[r]|
    ensures forall q :: At(h, q) == if q == p then v else At(g, q)
  {
    g[p.row := g[p.row][p.col := v]]
  }

  /** Two grids of the same shape that agree on every cell are equal. */
  lemma GridsEqual(a: Grid, b: Grid)
    requires |a| == |b| && forall r :: 0 <= r < |a| ==> |a[r]| == |b[r]|
    requires forall p :: At(a, p) == At(b, p)
    ensures a == b
  {
    forall r | 0 <= r < |a|
      ensures a[r] == b[r]
    {
      forall c | 0 <= c < |a[r]|
        ensures a[r][c] == b[r][c]
      {
        assert At(a, Pos(r, c)) == At(b, Pos(r, c));
      }
    }
  }
}
