/** Level configuration, the colour palette a level uses, the random choice
    of a colour, and the shot counter that drives the ceiling drop. */
module Levels {
  import opened HexGrid

  /** Per-level tuple: palette size, initial rows, shots between ceiling drops. */
  datatype LevelConfig = LevelConfig(colors: nat, rows: nat, shotsUntilDrop: nat)

  /** The configuration that every level from 5 on reuses. */
  const LAST_CONFIG: LevelConfig := LevelConfig(6, 5, 8)

  /** getLevelConfig: a table for levels 1 to 4; any other level (5 and
      above, and a level below 1, which the table has no entry for)
      falls back to the level-5 entry. */
  function GetLevelConfig(level: int): (cfg: LevelConfig)
    ensures 3 <= cfg.colors <= |PALETTE|
    ensures 3 <= cfg.rows <= 5
    ensures 8 <= cfg.shotsUntilDrop <= 15
    ensures level >= 5 ==> cfg == LAST_CONFIG
  {
    if level == 1 then LevelConfig(3, 3, 15)
    else if level == 2 then LevelConfig(4, 4, 12)
    else if level == 3 then LevelConfig(5, 4, 10)
    else if level == 4 then LevelConfig(6, 5, 9)
    else LAST_CONFIG
  }

  /** getColorsForLevel: the first `colors` entries of the palette. */
  function GetColorsForLevel(level: int): (cs: seq<Color>)
    ensures |cs| == GetLevelConfig(level).colors && |cs| >= 3
    ensures cs == PALETTE[..|cs|]
    ensures forall c :: c in cs ==> c in PALETTE
  {
    PALETTE[..GetLevelConfig(level).colors]
  }

  /** `xs[Math.floor(u * xs.length)]` for a random draw u in [0, 1):
      always an element of xs. */
  function Pick<T>(xs: seq<T>, u: real): (x: T)
    requires |xs| > 0 && 0.0 <= u < 1.0
    ensures x in xs
  {
    ScaledDrawInRange(u, |xs|);
    xs[(u * |xs| as real).Floor]
  }

  lemma ScaledDrawInRange(u: real, n: nat)
    requires 0.0 <= u < 1.0 && n > 0
    ensures 0 <= (u * n as real).Floor < n
  {
    assert u * n as real < n as real by {
      assert (1.0 - u) * n as real > 0.0;
    }
  }

  /** What one shot does to the counter: it is incremented, and when it
      reaches the limit the ceiling drops and the counter restarts at 0. */
  datatype ShotOutcome = ShotOutcome(fired: nat, drop: bool)

  function NextShot(fired: nat, limit: nat): (o: ShotOutcome)
    requires fired < limit
    ensures o.fired < limit
    ensures o.drop <==> fired + 1 == limit
    ensures o.fired == (fired + 1) % limit
  {
    if fired + 1 >= limit then ShotOutcome(0, true) else ShotOutcome(fired + 1, false)
  }

  /** The counter and the number of drops after n shots from a fresh counter. */
  function ShotsAfter(n: nat, limit: nat): (o: ShotOutcome)
    requires limit > 0
  {
    if n == 0 then ShotOutcome(0, false)
    else NextShot(ShotsAfter(n - 1, limit).fired, limit)
  }

  function DropsAfter(n: nat, limit: nat): nat
    requires limit > 0
  {
    if n == 0 then 0
    else DropsAfter(n - 1, limit) + (if ShotsAfter(n, limit).drop then 1 else 0)
  }

  /** n shots at shotsUntilDrop = limit make DropsAfter(n) full cycles of
      `limit` shots plus the counter's current value: the ceiling drops once
      every `limit` shots and the counter always stays below the limit. */
  lemma {:induction false} ShotCounterCycles(n: nat, limit: nat)
    requires limit > 0
    ensures ShotsAfter(n, limit).fired < limit
    ensures n == DropsAfter(n, limit) * limit + ShotsAfter(n, limit).fired
  {
    if n > 0 {
      ShotCounterCycles(n - 1, limit);
      var d := DropsAfter(n - 1, limit);
      if ShotsAfter(n, limit).drop {
        assert (d + 1) * limit == d * limit + limit;
      }
    }
  }
}
