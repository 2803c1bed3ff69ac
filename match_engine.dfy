/** Connected-component search over the hex adjacency: the same-colour
    search of findMatches, the ceiling-reachability search of
    markConnected, and the specification of what match removal and
    floating-bubble pruning leave behind.

    Both searches are specified against walks: a cell is reached from a
    start cell when a chain of adjacent admitted cells leads from one to
    the other. Each search is shown to add only cells reached from its
    start, and to leave a set closed under stepping to an admitted
    neighbour; a closed set of reached cells that holds the start cells is
    exactly the set of cells they reach. */
module MatchEngine {
  import opened HexGrid
  import opened SeqUtil

  /** Which occupied cells a search may step onto: any bubble
      (markConnected) or only bubbles of one colour (findMatches). */
  datatype Filter = AnyColor | OnlyColor(color: Color)

  predicate Admits(g: Grid, f: Filter, p: Pos)
  {
    Occupied(g, p) && (f.OnlyColor? ==> At(g, p).value.color == f.color)
  }

  /** A non-empty chain of admitted cells, each adjacent to the next. */
  ghost predicate IsWalk(g: Grid, f: Filter, w: seq<Pos>)
    decreases |w|
  {
    && |w| > 0
    && Admits(g, f, w[0])
    && (|w| > 1 ==> Adjacent(w[0], w[1]) && IsWalk(g, f, w[1..]))
  }

  /** w is a walk from a to b. */
  ghost predicate WalkBetween(g: Grid, f: Filter, w: seq<Pos>, a: Pos, b: Pos)
  {
    IsWalk(g, f, w) && w[0] == a && w[|w| - 1] == b
  }

  ghost predicate Reaches(g: Grid, f: Filter, a: Pos, b: Pos)
  {
    exists w :: WalkBetween(g, f, w, a, b)
  }

  /** The cells reached by a walk from some cell of `from`. */
  ghost function ReachSet(g: Grid, f: Filter, from: set<Pos>): set<Pos>
  {
    set p | p in AllCells(g) && exists a :: a in from && Reaches(g, f, a, p)
  }

  /** Every admitted neighbour of p lies in s. */
  ghost predicate NeighboursIn(g: Grid, f: Filter, p: Pos, s: set<Pos>)
  {
    forall q :: q in Neighbors(g, p) && Admits(g, f, q) ==> q in s
  }

  /** Growing the set keeps every admitted neighbour of p inside it. */
  lemma NeighboursInGrow(g: Grid, f: Filter, p: Pos, s: set<Pos>, t: set<Pos>)
    requires NeighboursIn(g, f, p, s) && s <= t
    ensures NeighboursIn(g, f, p, t)
  {
  }

  /** s holds only admitted cells and is closed under stepping to an admitted neighbour. */
  ghost predicate Closed(g: Grid, f: Filter, s: set<Pos>)
  {
    && (forall p :: p in s ==> Admits(g, f, p))
    && (forall p {:trigger NeighboursIn(g, f, p, s)} :: p in s ==> NeighboursIn(g, f, p, s))
  }

  /** Adding admitted cells whose admitted neighbours are all in the larger set keeps it closed. */
  lemma ClosedGrow(g: Grid, f: Filter, s: set<Pos>, t: set<Pos>)
    requires Closed(g, f, s) && s <= t
    requires forall q :: q in t - s ==> Admits(g, f, q)
    requires forall q {:trigger NeighboursIn(g, f, q, t)} :: q in t - s ==> NeighboursIn(g, f, q, t)
    ensures Closed(g, f, t)
  {
    forall q | q in s
      ensures NeighboursIn(g, f, q, t)
    {
      assert NeighboursIn(g, f, q, s);
      NeighboursInGrow(g, f, q, s, t);
    }
  }

  /** A closed set that holds the start of a walk holds its end. */
  lemma {:induction false} ClosedHoldsWalk(g: Grid, f: Filter, s: set<Pos>, w: seq<Pos>)
    requires Closed(g, f, s) && IsWalk(g, f, w) && w[0] in s
    ensures w[|w| - 1] in s
    decreases |w|
  {
    if |w| > 1 {
      assert NeighboursIn(g, f, w[0], s);
      assert Admits(g, f, w[1]);
      assert w[1] in Neighbors(g, w[0]);
      ClosedHoldsWalk(g, f, s, w[1..]);
    }
  }

  /** A closed set holds every cell reached from one of its cells. */
  lemma ClosedHoldsReached(g: Grid, f: Filter, s: set<Pos>, a: Pos, p: Pos)
    requires Closed(g, f, s) && a in s && Reaches(g, f, a, p)
    ensures p in s
  {
    var w :| WalkBetween(g, f, w, a, p);
    ClosedHoldsWalk(g, f, s, w);
  }

  /** A single admitted cell reaches itself. */
  lemma ReachSelf(g: Grid, f: Filter, p: Pos)
    requires Admits(g, f, p)
    ensures Reaches(g, f, p, p)
  {
    assert WalkBetween(g, f, [p], p, p);
  }

  /** An admitted cell reaches whatever its admitted neighbour reaches. */
  lemma ReachPrepend(g: Grid, f: Filter, p: Pos, n: Pos, q: Pos)
    requires Admits(g, f, p) && Adjacent(p, n) && Reaches(g, f, n, q)
    ensures Reaches(g, f, p, q)
  {
    var w :| WalkBetween(g, f, w, n, q);
    var w' := [p] + w;
    assert w'[1..] == w;
    assert WalkBetween(g, f, w', p, q);
  }

  /** A closed set holding the start cells and reached from them is their reachable set. */
  lemma ClosedReachedIsReachSet(g: Grid, f: Filter, from: set<Pos>, c: set<Pos>)
    requires from <= c && Closed(g, f, c)
    requires c <= ReachSet(g, f, from)
    ensures c == ReachSet(g, f, from)
  {
    forall p | p in ReachSet(g, f, from)
      ensures p in c
    {
      var a :| a in from && Reaches(g, f, a, p);
      ClosedHoldsReached(g, f, c, a, p);
    }
  }

  /** The same-colour component of an occupied seed cell. */
  ghost function SameColorComponent(g: Grid, seed: Pos): set<Pos>
    requires Occupied(g, seed)
  {
    ReachSet(g, OnlyColor(At(g, seed).value.color), {seed})
  }

  /** A set of cells of the seed's colour that holds the seed, is closed
      under stepping to a same-coloured neighbour and is reached from the
      seed is the seed's same-colour component. */
  lemma FoundIsComponent(g: Grid, seed: Pos, found: set<Pos>)
    requires Occupied(g, seed) && seed in found
    requires Closed(g, OnlyColor(At(g, seed).value.color), found)
    requires forall q :: q in found ==> Reaches(g, OnlyColor(At(g, seed).value.color), seed, q)
    ensures found == SameColorComponent(g, seed)
  {
    var f := OnlyColor(At(g, seed).value.color);
    forall q | q in found
      ensures q in ReachSet(g, f, {seed})
    {
      OccupiedInAllCells(g, q);
    }
    ClosedReachedIsReachSet(g, f, {seed}, found);
  }

  /** One neighbour's recursive search inside a search from p: what the
      cells added before it already had stays true in the grown set, and
      the cells it adds are reached from p through that neighbour. */
  lemma SearchStep(g: Grid, f: Filter, p: Pos, n: Pos, base: set<Pos>, before: set<Pos>, after: set<Pos>)
    requires Admits(g, f, p) && Adjacent(p, n) && before <= after
    requires forall q {:trigger NeighboursIn(g, f, q, before)} ::
               q in before - base - {p} ==> NeighboursIn(g, f, q, before)
    requires forall q :: q in after - before ==> Reaches(g, f, n, q)
    ensures forall q {:trigger NeighboursIn(g, f, q, after)} ::
              q in before - base - {p} ==> NeighboursIn(g, f, q, after)
    ensures forall q :: q in after - before ==> Reaches(g, f, p, q)
  {
    forall q | q in before - base - {p}
      ensures NeighboursIn(g, f, q, after)
    {
      NeighboursInGrow(g, f, q, before, after);
    }
    forall q | q in after - before
      ensures Reaches(g, f, p, q)
    {
      ReachPrepend(g, f, p, n, q);
    }
  }

  /** findMatches: depth-first search from p over neighbours of the given
      colour, growing the shared `visited` set. The cells it returns are
      exactly the ones it adds to `visited`, each once, all of the colour;
      every same-coloured neighbour of an added cell ends up visited; and
      every added cell is reached from p by a walk of that colour. */
  method FindMatches(g: Grid, p: Pos, color: Color, visited: set<Pos>)
    returns (matches: seq<Pos>, visitedOut: set<Pos>)
    requires Occupied(g, p)
    ensures visited <= visitedOut
    ensures NoDup(matches)
    ensures forall q :: q in matches <==> q in visitedOut - visited
    ensures forall q :: q in visitedOut - visited ==> Admits(g, OnlyColor(color), q)
    ensures forall q {:trigger NeighboursIn(g, OnlyColor(color), q, visitedOut)} ::
              q in visitedOut - visited ==> NeighboursIn(g, OnlyColor(color), q, visitedOut)
    ensures Admits(g, OnlyColor(color), p) ==> p in visitedOut
    ensures !Admits(g, OnlyColor(color), p) ==> visitedOut == visited
    ensures forall q :: q in visitedOut - visited ==> Reaches(g, OnlyColor(color), p, q)
    decreases AllCells(g) - visited
  {
    var bubble := g[p.row][p.col].value;
    if p in visited || bubble.color != color {
      return [], visited;
    }
    ghost var f := OnlyColor(color);
    OccupiedInAllCells(g, p);
    ReachSelf(g, f, p);
    visitedOut := visited + {p};
    matches := [p];
    var neighbors := Neighbors(g, p);
    for i := 0 to |neighbors|
      invariant visited + {p} <= visitedOut
      invariant NoDup(matches)
      invariant forall q :: q in matches <==> q in visitedOut - visited
      invariant forall q :: q in visitedOut - visited ==> Admits(g, f, q)
      invariant forall q {:trigger NeighboursIn(g, f, q, visitedOut)} ::
                  q in visitedOut - visited - {p} ==> NeighboursIn(g, f, q, visitedOut)
      invariant forall q :: q in neighbors[..i] && Admits(g, f, q) ==> q in visitedOut
      invariant forall q :: q in visitedOut - visited ==> Reaches(g, f, p, q)
    {
      var more, v := FindMatches(g, neighbors[i], color, visitedOut);
      SearchStep(g, f, p, neighbors[i], visited, visitedOut, v);
      TakeOneMore(neighbors, i);
      NoDupAppend(matches, more);
      matches := matches + more;
      visitedOut := v;
    }
    assert neighbors[..|neighbors|] == neighbors;
  }

  /** markConnected: depth-first search from p over all occupied
      neighbours, growing the shared `connected` set. */
  method MarkConnected(g: Grid, p: Pos, connected: set<Pos>) returns (connectedOut: set<Pos>)
    requires Occupied(g, p)
    ensures connected <= connectedOut
    ensures p in connectedOut
    ensures forall q :: q in connectedOut - connected ==> Occupied(g, q)
    ensures forall q {:trigger NeighboursIn(g, AnyColor, q, connectedOut)} ::
              q in connectedOut - connected ==> NeighboursIn(g, AnyColor, q, connectedOut)
    ensures forall q :: q in connectedOut - connected ==> Reaches(g, AnyColor, p, q)
    decreases AllCells(g) - connected
  {
    if p in connected {
      return connected;
    }
    OccupiedInAllCells(g, p);
    ReachSelf(g, AnyColor, p);
    connectedOut := connected + {p};
    var neighbors := Neighbors(g, p);
    for i := 0 to |neighbors|
      invariant connected + {p} <= connectedOut
      invariant forall q :: q in connectedOut - connected ==> Occupied(g, q)
      invariant forall q {:trigger NeighboursIn(g, AnyColor, q, connectedOut)} ::
                  q in connectedOut - connected - {p} ==> NeighboursIn(g, AnyColor, q, connectedOut)
      invariant forall q :: q in neighbors[..i] ==> q in connectedOut
      invariant forall q :: q in connectedOut - connected ==> Reaches(g, AnyColor, p, q)
    {
      var c := MarkConnected(g, neighbors[i], connectedOut);
      SearchStep(g, AnyColor, p, neighbors[i], connected, connectedOut, c);
      TakeOneMore(neighbors, i);
      connectedOut := c;
    }
    assert neighbors[..|neighbors|] == neighbors;
  }

  /** The occupied cells of the ceiling row 0. */
  ghost function TopRow(g: Grid): set<Pos>
  {
    set c | 0 <= c < COLS && Occupied(g, Pos(0, c)) :: Pos(0, c)
  }

  /** The bubbles hanging from the ceiling: reachable from an occupied row-0 cell. */
  ghost function AnchoredSet(g: Grid): set<Pos>
  {
    ReachSet(g, AnyColor, TopRow(g))
  }

  /** The marking half of removeFloatingBubbles: markConnected from every
      occupied row-0 cell into one shared set, which ends up being exactly
      the set of bubbles hanging from the ceiling. */
  method ConnectedToCeiling(g: Grid) returns (connected: set<Pos>)
    ensures connected == AnchoredSet(g)
  {
    connected := {};
    for col := 0 to COLS
      invariant forall c :: 0 <= c < col && Occupied(g, Pos(0, c)) ==> Pos(0, c) in connected
      invariant Closed(g, AnyColor, connected)
      invariant connected <= AnchoredSet(g)
    {
      if Occupied(g, Pos(0, col)) {
        var c := MarkConnected(g, Pos(0, col), connected);
        forall q | q in c - connected
          ensures q in AnchoredSet(g)
        {
          assert Pos(0, col) in TopRow(g);
          OccupiedInAllCells(g, q);
        }
        ClosedGrow(g, AnyColor, connected, c);
        connected := c;
      }
    }
    ClosedReachedIsReachSet(g, AnyColor, TopRow(g), connected);
  }

  /** The grid with every cell in `gone` emptied and nothing else changed. */
  function Emptied(g: Grid, gone: set<Pos>): (h: Grid)
    ensures |h| == |g| && forall r :: 0 <= r < |g| ==> |h[r]| == |g[r]|
    ensures forall p :: At(h, p) == if p in gone then None else At(g, p)
  {
    seq(|g|, r requires 0 <= r < |g| =>
      seq(|g[r]|, c requires 0 <= c < |g[r]| => if Pos(r, c) in gone then None else g[r][c]))
  }

  /** The grid after pruning: only the bubbles hanging from the ceiling remain. */
  ghost function Pruned(g: Grid): (h: Grid)
    ensures |h| == |g| && forall r :: 0 <= r < |g| ==> |h[r]| == |g[r]|
    ensures forall p :: At(h, p) == if p in AnchoredSet(g) then At(g, p) else None
  {
    Emptied(g, AllCells(g) - AnchoredSet(g))
  }

  /** Row-major list of the bubbles of the first m cells of row r that are not in keep. */
  function DetachedInRow(cells: Row, r: int, keep: set<Pos>, m: nat): seq<Bubble>
    requires m <= |cells|
  {
    if m == 0 then []
    else
      DetachedInRow(cells, r, keep, m - 1)
      + (if cells[m - 1].Some? && Pos(r, m - 1) !in keep then [cells[m - 1].value] else [])
  }

  /** Row-major list of the bubbles of the first n rows that are not in keep. */
  function DetachedInRows(g: Grid, keep: set<Pos>, n: nat): seq<Bubble>
    requires n <= |g|
  {
    if n == 0 then []
    else DetachedInRows(g, keep, n - 1) + DetachedInRow(g[n - 1], n - 1, keep, |g[n - 1]|)
  }

  /** The bubbles pruning detaches, in the order the scan appends them to
      the falling list: exactly the bubbles not hanging from the ceiling. */
  ghost function Detached(g: Grid): (bs: seq<Bubble>)
    ensures forall b :: b in bs <==> exists p :: p !in AnchoredSet(g) && At(g, p) == Some(b)
  {
    DetachedInRowsMembers(g, AnchoredSet(g), |g|);
    DetachedInRows(g, AnchoredSet(g), |g|)
  }

  /** The row scan collects exactly the bubbles of the row's first m cells outside keep. */
  lemma {:induction false} DetachedInRowMembers(cells: Row, r: int, keep: set<Pos>, m: nat)
    requires m <= |cells|
    ensures forall b :: b in DetachedInRow(cells, r, keep, m) <==>
              exists k :: 0 <= k < m && Pos(r, k) !in keep && cells[k] == Some(b)
  {
    if m > 0 {
      DetachedInRowMembers(cells, r, keep, m - 1);
    }
  }

  /** The scan of the first n rows collects exactly the bubbles of those rows outside keep. */
  lemma {:induction false} DetachedInRowsMembers(g: Grid, keep: set<Pos>, n: nat)
    requires n <= |g|
    ensures forall b :: b in DetachedInRows(g, keep, n) <==>
              exists p: Pos :: p.row < n && p !in keep && At(g, p) == Some(b)
  {
    if n > 0 {
      var r := n - 1;
      DetachedInRowsMembers(g, keep, r);
      DetachedInRowMembers(g[r], r, keep, |g[r]|);
      forall b
        ensures b in DetachedInRows(g, keep, n) <==> exists p: Pos :: p.row < n && p !in keep && At(g, p) == Some(b)
      {
        if b in DetachedInRow(g[r], r, keep, |g[r]|) {
          var k :| 0 <= k < |g[r]| && Pos(r, k) !in keep && g[r][k] == Some(b);
          assert At(g, Pos(r, k)) == Some(b);
        }
        if exists p: Pos :: p.row < n && p !in keep && At(g, p) == Some(b) {
          var p: Pos :| p.row < n && p !in keep && At(g, p) == Some(b);
          if p.row == r {
            assert g[r][p.col] == Some(b) && Pos(r, p.col) == p;
          }
        }
      }
    }
  }

  /** Every bubble records the cell it is stored in. */
  ghost predicate RecordsOwnCell(g: Grid)
  {
    forall p :: Occupied(g, p) ==> At(g, p).value.row == p.row && At(g, p).value.col == p.col
  }

  /** On a board whose bubbles record their own cells the falling list
      holds each detached bubble once: one entry per cell emptied. */
  lemma DetachedNoDup(g: Grid)
    requires RecordsOwnCell(g)
    ensures NoDup(Detached(g))
  {
    DetachedInRowsNoDup(g, AnchoredSet(g), |g|);
  }

  lemma {:induction false} DetachedInRowNoDup(cells: Row, r: int, keep: set<Pos>, m: nat)
    requires m <= |cells|
    requires forall k :: 0 <= k < |cells| && cells[k].Some? ==> cells[k].value.col == k
    ensures NoDup(DetachedInRow(cells, r, keep, m))
    ensures forall b :: b in DetachedInRow(cells, r, keep, m) ==> b.col < m
  {
    if m > 0 {
      DetachedInRowNoDup(cells, r, keep, m - 1);
      DetachedInRowMembers(cells, r, keep, m - 1);
      if cells[m - 1].Some? && Pos(r, m - 1) !in keep {
        NoDupAppend(DetachedInRow(cells, r, keep, m - 1), [cells[m - 1].value]);
      }
    }
  }

  lemma {:induction false} DetachedInRowsNoDup(g: Grid, keep: set<Pos>, n: nat)
    requires n <= |g| && RecordsOwnCell(g)
    ensures NoDup(DetachedInRows(g, keep, n))
    ensures forall b :: b in DetachedInRows(g, keep, n) ==> b.row < n
  {
    if n > 0 {
      var r := n - 1;
      DetachedInRowsNoDup(g, keep, r);
      forall k | 0 <= k < |g[r]| && g[r][k].Some?
        ensures g[r][k].value.col == k && g[r][k].value.row == r
      {
        assert At(g, Pos(r, k)) == g[r][k];
      }
      DetachedInRowNoDup(g[r], r, keep, |g[r]|);
      DetachedInRowMembers(g[r], r, keep, |g[r]|);
      NoDupAppend(DetachedInRows(g, keep, r), DetachedInRow(g[r], r, keep, |g[r]|));
    }
  }

  /** A scan over a board whose every bubble is kept collects nothing. */
  lemma {:induction false} DetachedInRowNone(cells: Row, r: int, keep: set<Pos>, m: nat)
    requires m <= |cells|
    requires forall k :: 0 <= k < |cells| && cells[k].Some? ==> Pos(r, k) in keep
    ensures DetachedInRow(cells, r, keep, m) == []
  {
    if m > 0 {
      DetachedInRowNone(cells, r, keep, m - 1);
    }
  }

  lemma {:induction false} DetachedInRowsNone(g: Grid, keep: set<Pos>, n: nat)
    requires n <= |g|
    requires forall p :: Occupied(g, p) ==> p in keep
    ensures DetachedInRows(g, keep, n) == []
  {
    if n > 0 {
      var r := n - 1;
      DetachedInRowsNone(g, keep, r);
      forall k | 0 <= k < |g[r]| && g[r][k].Some?
        ensures Pos(r, k) in keep
      {
        assert At(g, Pos(r, k)) == g[r][k];
      }
      DetachedInRowNone(g[r], r, keep, |g[r]|);
    }
  }

  /** Every cell of a walk is admitted. */
  lemma {:induction false} WalkAdmits(g: Grid, f: Filter, w: seq<Pos>)
    requires IsWalk(g, f, w)
    ensures forall i :: 0 <= i < |w| ==> Admits(g, f, w[i])
    decreases |w|
  {
    if |w| > 1 {
      var rest := w[1..];
      WalkAdmits(g, f, rest);
      assert forall i :: 1 <= i < |w| ==> w[i] == rest[i - 1];
    }
  }

  /** The start of a walk reaches every cell of the walk. */
  lemma {:induction false} WalkReachesAll(g: Grid, f: Filter, w: seq<Pos>)
    requires IsWalk(g, f, w)
    ensures forall i :: 0 <= i < |w| ==> Reaches(g, f, w[0], w[i])
    decreases |w|
  {
    ReachSelf(g, f, w[0]);
    if |w| > 1 {
      var rest := w[1..];
      WalkReachesAll(g, f, rest);
      forall i | 1 <= i < |w|
        ensures Reaches(g, f, w[0], w[i])
      {
        assert rest[i - 1] == w[i];
        ReachPrepend(g, f, w[0], w[1], w[i]);
      }
    }
  }

  /** A walk stays a walk in another grid that admits each of its cells. */
  lemma {:induction false} WalkCarriesOver(g: Grid, h: Grid, f: Filter, w: seq<Pos>)
    requires IsWalk(g, f, w)
    requires forall i :: 0 <= i < |w| ==> Admits(h, f, w[i])
    ensures IsWalk(h, f, w)
    decreases |w|
  {
    if |w| > 1 {
      var rest := w[1..];
      assert forall i :: 0 <= i < |rest| ==> rest[i] == w[i + 1];
      WalkCarriesOver(g, h, f, rest);
    }
  }

  /** Every cell of a walk that starts on the ceiling row hangs from the ceiling. */
  lemma WalkFromCeilingAnchored(g: Grid, w: seq<Pos>)
    requires IsWalk(g, AnyColor, w) && w[0] in TopRow(g)
    ensures forall i :: 0 <= i < |w| ==> w[i] in AnchoredSet(g)
  {
    WalkReachesAll(g, AnyColor, w);
    WalkAdmits(g, AnyColor, w);
    forall i | 0 <= i < |w|
      ensures w[i] in AnchoredSet(g)
    {
      OccupiedInAllCells(g, w[i]);
    }
  }

  /** Pruning removes no bubble that hangs from the ceiling, so the pruned
      grid has the same anchored set. */
  lemma {:induction false} PrunedKeepsAnchors(g: Grid)
    ensures AnchoredSet(Pruned(g)) == AnchoredSet(g)
  {
    var h := Pruned(g);
    var k := AnchoredSet(g);
    forall p | p in AnchoredSet(h)
      ensures p in k
    {
      var a :| a in TopRow(h) && Reaches(h, AnyColor, a, p);
      var w :| WalkBetween(h, AnyColor, w, a, p);
      WalkAdmits(h, AnyColor, w);
      forall i | 0 <= i < |w|
        ensures Admits(g, AnyColor, w[i])
      {
        assert At(h, w[i]).Some?;
      }
      WalkCarriesOver(h, g, AnyColor, w);
      assert WalkBetween(g, AnyColor, w, a, p);
      assert a in TopRow(g);
      OccupiedInAllCells(g, p);
    }
    forall p | p in k
      ensures p in AnchoredSet(h)
    {
      var a :| a in TopRow(g) && Reaches(g, AnyColor, a, p);
      var w :| WalkBetween(g, AnyColor, w, a, p);
      WalkFromCeilingAnchored(g, w);
      WalkAdmits(g, AnyColor, w);
      forall i | 0 <= i < |w|
        ensures Admits(h, AnyColor, w[i])
      {
        assert At(h, w[i]) == At(g, w[i]);
      }
      WalkCarriesOver(g, h, AnyColor, w);
      assert WalkBetween(h, AnyColor, w, a, p);
      assert a in TopRow(h);
      OccupiedInAllCells(h, p);
    }
  }

  /** After pruning every remaining bubble hangs from the ceiling, so
      pruning a second time changes nothing and detaches no bubble. */
  lemma PruneIdempotent(g: Grid)
    ensures forall p :: Occupied(Pruned(g), p) ==> p in AnchoredSet(Pruned(g))
    ensures Pruned(Pruned(g)) == Pruned(g)
    ensures Detached(Pruned(g)) == []
  {
    PrunedKeepsAnchors(g);
    GridsEqual(Pruned(Pruned(g)), Pruned(g));
    var h := Pruned(g);
    DetachedInRowsNone(h, AnchoredSet(h), |h|);
  }
}
