# Bubble shooter game rules in Dafny

This project models the game-rules core of a browser bubble shooter (`game.js`).
The playing field is a hexagonal grid of 10 columns. Even rows hold 10 cells and
odd rows are shifted half a bubble to the right. Bubbles hang from a ceiling
that drops one row pitch (36 pixels) after a fixed number of shots. A shot
bubble lands in the cell under its landing point. If it joins a same-coloured
group of three or more, the group pops for 10 points per bubble. Every bubble
no longer connected to row 0 then falls for 20 points. An emptied board earns
100 points per level and leads to the next level. The game ends once a bubble's
lower edge reaches the danger line at y = 426.

The model is split into these modules:

- `HexGrid` (`hex_grid.dfy`) holds the colours, the bubble record, the grid as
  a sequence of rows of optional bubbles, and cell lookup and update. It also
  has the row-parity neighbour offsets of getNeighbors, with an arithmetic
  adjacency relation they are proved to agree with.
- `Geometry` (`geometry.dfy`) holds the pixel layout of a cell, the snapping of
  a landing point to a row and column, and the danger line.
- `Levels` (`levels.dfy`) holds the level table and each level's palette. It
  also has the random choice of a colour, with each draw taken as a parameter
  in [0, 1), and the shot counter that triggers the ceiling drop.
- `MatchEngine` (`match_engine.dfy`) holds the two depth-first searches,
  findMatches and markConnected. Both are specified against walks of adjacent
  admitted cells. Each search adds only the cells it reaches, and it ends with
  a set that is closed under stepping to an admitted neighbour. This makes
  checkMatches' result exactly the same-colour component of the landed bubble.
  It makes removeFloatingBubbles' kept set exactly the bubbles reachable from
  row 0. The module also states what popping and pruning leave on the board.
- `Board` (`board.dfy`) holds the board-wide scans checkClear, checkGameOver
  and getAvailableColors, together with the level layout of
  generateBubblesForLevel and the lowering of dropCeiling.
- `Session` (`session.dfy`) holds the class `GameSession`, whose fields are the
  game's global variables. Its methods are the operations that change them.
  Its invariant `Valid` states six things:
  - the level is at least 1;
  - the shot limit is the one the level's configuration gives;
  - the shot counter is at least 0 and stays below that limit;
  - the ceiling offset is at least 0 and a whole number of rows;
  - every row has 10 cells and every bubble sits on the centre of the cell it records;
  - the score is at least 0.

  The ghost function `Settle` gives the meaning of one landing as values: the
  board left behind, the falling bubbles, the points and whether the board was
  cleared.
- `SeqUtil` (`seq_util.dfy`) holds the first-occurrence de-duplication that
  `Array.from(new Set(...))` performs, with its facts.

## Model

| member | source | states |
|---|---|---|
| HexGrid.PaletteMatchesStrings | game.js:5 | The six colours line up one-to-one with the six CSS colour strings of the palette, in order, and no two colours share a string |
| HexGrid.OffsetsAreAdjacency | game.js:378-384 | The six direction pairs for an even row and for an odd row are exactly the moves to a hex neighbour under the shifted-row layout |
| HexGrid.AdjacentSymmetric | game.js:381-383 | Hex adjacency is symmetric, although the two parities use different offset tables |
| HexGrid.Neighbors | game.js:378-395 | getNeighbors returns at most six cells: exactly the occupied cells adjacent to the bubble, with missing rows and columns skipped |
| HexGrid.At | game.js:389 | Cell lookup answers None for any address outside the grid: a negative row or column, a row past the last, or a column past the row's end. The same test guards the row-0 lookups at game.js:445 |
| HexGrid.SetCell | game.js:365 | Storing into a cell changes that cell only and keeps every row's length |
| Geometry.PixelX | game.js:233 | The horizontal centre of a cell lies in its column's 40-pixel slot, one radius in on even rows and exactly one radius further right on odd rows. The landing cell at game.js:355 uses the same centre |
| Geometry.PixelY | game.js:356 | The vertical centre of a cell lies inside its row's 36-pixel band below the lowered ceiling, one radius below the band's top. The starting layout at game.js:234 uses it with no ceiling drop |
| Geometry.Round | game.js:344-346 | Math.round picks the integer within half a unit of its argument |
| Geometry.SnapRow | game.js:340 | The landing row is the band of height 36 below the lowered ceiling that holds the landing point's y |
| Geometry.SnapCol | game.js:343-349 | The landing column is in range. Inside the row's span it is the cell whose centre is nearest to x. Off either edge it is clamped to the first or last column |
| Geometry.SnapCentre | game.js:340-356 | Snapping a cell's own centre gives that cell back, so the placed bubble's coordinates are consistent with its row and column |
| Geometry.PastDangerLine | game.js:489-490 | A bubble's lower edge reaches the danger line exactly when its centre is at or below the top of the band of row 11 |
| Geometry.DangerRow | game.js:28 | A bubble in row r after d ceiling drops reaches the danger line exactly when r + d >= 11 |
| Levels.GetLevelConfig | game.js:189-198 | Palette size, rows and shot limit stay within the table's ranges, and every level from 5 on uses the level-5 entry |
| Levels.GetColorsForLevel | game.js:200-203 | A level's colours are the first `colors` entries of the palette, at least three |
| Levels.Pick | game.js:262-267 | `xs[floor(u * |xs|)]` for a draw u in [0, 1) is an element of xs; the same draw picks each starting colour at game.js:235 |
| Levels.NextShot | game.js:313-318 | One shot increments the counter modulo the limit, and the ceiling drops exactly when it reaches the limit |
| Levels.ShotCounterCycles | game.js:313-318 | After n shots, n equals the number of drops times the limit plus the counter, and the counter stays below the limit |
| MatchEngine.FindMatches | game.js:397-410 | The returned cells have no duplicates and are exactly the cells newly visited. They all have the colour and are reached from the start. Every cell the call adds has all its same-coloured neighbours in the returned visited set, so a call from an empty visited set returns a closed set |
| MatchEngine.FoundIsComponent | game.js:397-413 | What findMatches returns from an empty visited set is exactly the same-colour component of the landed bubble |
| MatchEngine.MarkConnected | game.js:476-483 | Every newly marked cell is occupied and reached from the start, and has all its occupied neighbours in the returned set, so marking from an empty set returns a closed set |
| MatchEngine.ConnectedToCeiling | game.js:442-448 | Marking from every occupied row-0 cell yields exactly the set of bubbles connected to the ceiling |
| MatchEngine.Emptied | game.js:423 | Emptying a set of cells makes them empty and leaves every other cell unchanged |
| MatchEngine.Pruned | game.js:450-468 | After pruning, a cell keeps its bubble exactly when that bubble is connected to the ceiling |
| MatchEngine.Detached | game.js:450-468 | The falling list that pruning produces, in scan order, holds exactly the bubbles not connected to the ceiling |
| MatchEngine.DetachedInRowsMembers | game.js:451-467 | The scan of the first n rows collects exactly the bubbles of those rows whose cells are outside the kept set |
| MatchEngine.DetachedNoDup | game.js:450-468 | When every bubble records its own cell, no bubble appears twice in the falling list |
| MatchEngine.PrunedKeepsAnchors | game.js:441-474 | Pruning leaves the set of ceiling-connected bubbles unchanged |
| MatchEngine.PruneIdempotent | game.js:441-474 | After pruning every bubble hangs from the ceiling. A second removeFloatingBubbles leaves the board unchanged and detaches no bubble, so it adds nothing to the falling list or the score |
| Board.CheckClear | game.js:499-508 | Reports true exactly when no scanned cell holds a bubble |
| Board.CheckGameOver | game.js:485-497 | Reports true exactly when some bubble's lower edge is at or below the danger line |
| Board.GameOverByRow | game.js:485-497 | On a well-formed board after d ceiling drops, the game is over exactly when an occupied row r has r + d >= 11 |
| Board.AvailableColors | game.js:242-255 | The colours offered are never empty |
| Board.AvailableColorsMeaning | game.js:242-255 | The colours are duplicate-free. On a non-empty board they are exactly the colours of the bubbles on it. On an empty board they are the level's palette |
| Board.GetAvailableColors | game.js:242-255 | The row-by-row scan computes the de-duplicated colours in first-seen order, or the palette when none are seen |
| Board.ScanRowColors | game.js:245-251 | Scanning one more row extends the first-seen colour list by that row's new colours |
| Board.GeneratedCell | game.js:232-236 | A starting cell is filled except the last cell of an odd row. It sits on its cell's centre and has a colour of the level's palette |
| Board.SeededWellFormed | game.js:225-240 | Laying out a level on an empty board gives the configured number of rows, with every bubble resident in its cell |
| Board.SeededLayout | game.js:225-240 | Every starting bubble has a palette colour, and a scanned cell is occupied exactly when the layout fills it |
| Board.SeededNotEmpty | game.js:229-236 | A freshly laid-out level always holds at least one bubble |
| Board.Lowered | game.js:527-533 | After lowering, the same cells are occupied, and each bubble is unchanged apart from its vertical position, which moves down by the drop |
| Board.LoweredResident | game.js:523-534 | Lowering every bubble by one row pitch keeps occupancy and colours, and keeps the board well formed under the lowered ceiling |
| Session.ThinnedWellFormed | game.js:423 | Emptying cells of a well-formed board leaves it well formed |
| Session.Placed | game.js:351-365 | The landing cell holds a bubble of the projectile's colour |
| Session.PlacedLayout | game.js:351-365 | Landing keeps the board well formed, and every cell other than the landing cell is unchanged |
| Session.SettleWellFormed | game.js:412-439 | A landing keeps the board well formed and never loses points |
| Session.SettlePopped | game.js:415-437 | A component of three or more is removed completely for at least 30 points, plus 100 per level on a clear. Every remaining bubble hangs from the ceiling, and the board counts as cleared exactly when it is empty |
| Session.SettleUnpopped | game.js:415 | A component of fewer than three changes nothing |
| Session.PickedColorOnBoard | game.js:257-269 | A colour drawn for the shooter is on the board, or comes from the level's palette once the board is empty |
| Session.RestartOffersStaleColor | game.js:205-223 | A restarted game's level-1 board never offers Purple, a colour only later levels use |
| Session.DetachedOncePerCell | game.js:450-468 | On a well-formed board each detached bubble is appended to the falling list once, so there is one entry and 20 points per emptied cell |
| Session.RestartHandsOverStaleColor | game.js:205-223 | A session with Purple waiting in the next slot is restarted. Its shooter then holds Purple, which is not among the colours the new level-1 board offers |
| Session.SweepDetached | game.js:450-468 | The removal scan empties exactly the cells outside the kept set and collects their bubbles in row-major order |
| Session.SweepRow | game.js:452-467 | The removal scan of one row empties the row's cells outside the kept set and appends their bubbles in column order |
| Session.PopMatches | game.js:418-425 | Popping empties exactly the matched cells and adds 10 points per match |
| SeqUtil.Dedup | game.js:243-254 | The first-occurrence de-duplication that `Array.from(new Set(...))` performs: no duplicates, the same members, and no longer than its input |
| Session.GameSession.constructor | game.js:10-26 | The globals start with an empty board, no bubbles, score 0, level 1 and a limit of 15 shots |
| Session.GameSession.InitGame | game.js:205-223 | Resets the score, level, counters and ceiling, and lays out level 1. The shooter gets the previous next colour if there is one, otherwise a colour from the board. The projectile is left as it was |
| Session.GameSession.StartFreshGame | game.js:205-223 | As InitGame, but the projectile and the waiting next colour are discarded, so both shooter colours are colours present on the new board |
| Session.GameSession.ResetGame | game.js:206-222 | The resets of initGame and the level-1 layout, keeping the session invariant |
| Session.GameSession.GenerateBubblesForLevel | game.js:225-240 | Rows 0 to rows - 1 are replaced by the level's generated rows, and every later row and every other field is unchanged |
| Session.GameSession.CreateNewShooterBubble | game.js:257-269 | The next colour moves to the shooter, or a fresh draw from the available colours is used when the slot is empty. A new next colour is drawn from the available colours |
| Session.GameSession.DropCeiling | game.js:523-534 | The ceiling moves down one row pitch, and every bubble moves down with it, keeping its cell and colour. The session invariant is kept |
| Session.GameSession.ShootBubble | game.js:302-319 | Nothing happens while a projectile is in flight, the shooter is empty or the game is over. Otherwise the shooter's colour becomes the projectile, the counter advances, and the ceiling drops when the counter reaches the limit |
| Session.GameSession.RemoveFloatingBubbles | game.js:441-474 | The board becomes its pruned form, and the detached bubbles are appended to the falling list in scan order at 20 points each |
| Session.GameSession.CheckMatches | game.js:412-439 | The board, falling list, score and cleared flag become exactly the outcome `Settle` gives for the landed bubble's component |
| Session.GameSession.PopAndDrop | game.js:415-437 | Pops the matched cells, removes floating bubbles and adds the clear bonus exactly when the board ends empty |
| Session.GameSession.SnapToGrid | game.js:339-376 | The projectile is stored in the snapped cell and `Settle` applies. The projectile slot empties, the shooter is reloaded, and the game is over exactly when it already was or a bubble is past the danger line |
| Session.GameSession.Land | game.js:340-367 | Stores the projectile in the cell (row, col) and settles matches around it |
| Session.GameSession.Reload | game.js:368-375 | Empties the projectile slot, reloads the shooter and sets game over exactly when a bubble is past the danger line |
| Session.GameSession.NextLevel | game.js:510-521 | The level advances, its shot limit applies, the counter and ceiling reset, and the board becomes the new level's layout |
| Session.GameSession.LevelUp | game.js:433-436 | The deferred step after a clear: the next level is laid out and the shooter is reloaded from it |

## Left out

- Drawing, particles, sounds, the score display, the high score kept in local storage, the modal dialog and input handling are not modelled. They do not affect the game state.
- The flight of a projectile is not modelled: its velocity, the wall bounces and checkCollision. SnapToGrid takes the landing point as its parameters.
- The motion of falling bubbles (updateFalling) and the game loop are not modelled. Neither is the filter in draw (game.js:595-599) that removes a falling bubble from the list once it leaves the screen. So in the model `fallingBubbles` only ever grows.
- Every `Math.random()` draw is a parameter in [0, 1): `draw(row, col)` for the layout and u1, u2 for the shooter. The falling bubbles' random velocities are not modelled, so a bubble on the falling list is kept as it was on the board.
- The 500 ms `setTimeout` after a clear is not modelled as scheduling. CheckMatches and SnapToGrid return `cleared`, and the deferred callback is the separate method LevelUp.
- Session.GameSession.SnapToGrid: requires the landing row to be between 0 and the number of rows. The game's collision test only lands a projectile next to a bubble or at the ceiling. A row further down would leave missing rows that the board scans would fail on.
- Session.GameSession.Land: requires the landing row to be between 0 and the number of rows, for the same reason as SnapToGrid.
- The projectile and the two shooter slots are kept as colours. Their pixel positions and velocities are not modelled, and neither is the object identity shared between the shooter slot and the projectile.
- Colours are an enumeration of the six palette colours. `HexGrid.Hex` maps each to its CSS string.
- Pixel coordinates are integers, because every cell centre and every ceiling drop is a whole number of pixels. The landing point is a real number.
- Valid requires every bubble to record its own cell. The game keeps this implicitly, and findMatches, markConnected and the removal scan rely on it when they use a bubble's stored row and column.
- Several source functions are split into more than one method. Each part covers the cited lines:
  - ResetGame, InitGame and StartFreshGame for initGame;
  - Land and Reload for snapToGrid;
  - PopAndDrop and PopMatches for checkMatches;
  - SweepDetached and SweepRow for removeFloatingBubbles;
  - ScanRowColors for getAvailableColors.
- A landing on a cell that already holds a bubble overwrites it, as in the source.

## Findings

| source | as written | input that shows it | evidently intended | confidence | as-written member | corrected member |
|---|---|---|---|---|---|---|
| game.js:205-223 | initGame resets the board and counters but not `shooter.nextBubble` (or a projectile in flight). Its closing createNewShooterBubble hands the previous game's next colour to the shooter | A game reaches level 3, where Purple is in the palette, with Purple waiting in the next slot, and the player presses "new game". The first shooter colour is then Purple, which the level-1 board cannot hold | After a restart both shooter colours come from the new board | medium, not executed | Session.RestartHandsOverStaleColor | Session.GameSession.StartFreshGame |
