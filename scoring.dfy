/**
 * Scoring and difficulty of js/game.js and js/tetrominoes.js: the two
 * line-clear score tables, the level rule and the fall interval.
 */
module Scoring {

  /** Points per line clear in js/game.js: 1, 2, 3, 4 lines give 100, 300,
      500, 800 (times the level). */
  function LineScore(n: int): (points: int)
    requires 0 <= n <= 4
    ensures points >= 0 && (n > 0 ==> points >= 100 * n)
    ensures n > 0 ==> points > LineScore(n - 1)
  {
    [0, 100, 300, 500, 800][n]
  }

  /** Points per line clear in the second copy in js/tetrominoes.js:
      40, 100, 300, 1200. */
  function ClassicLineScore(n: int): (points: int)
    requires 0 <= n <= 4
    ensures points >= 0 && (n > 0 ==> points >= 40 * n)
    ensures n > 0 ==> points > ClassicLineScore(n - 1)
  {
    [0, 40, 100, 300, 1200][n]
  }

  /** One level per ten cleared lines, starting at level 1. */
  function LevelFor(lines: int): (level: int)
    ensures lines >= 0 ==> level >= 1 && 10 * (level - 1) <= lines < 10 * level
  {
    lines / 10 + 1
  }

  function Min(a: int, b: int): int { if a <= b then a else b }
  function Max(a: int, b: int): int { if a >= b then a else b }

  /** The fall period in milliseconds: 1000 at level 1, 50 less per level,
      never less than 100. For any reachable level (>= 1) the speed-up stops
      at level 16, so the period lies in [250, 1000]. */
  function DropInterval(level: int): (ms: int)
    ensures ms >= 100
    ensures level >= 1 ==> 250 <= ms <= 1000
    ensures level >= 16 ==> ms == 250
  {
    Max(1000 - Min(level - 1, 15) * 50, 100)
  }

  /** The period never grows as the level grows. */
  lemma DropIntervalMonotone(a: int, b: int)
    requires a <= b
    ensures DropInterval(b) <= DropInterval(a)
  {
  }

  /** The 100 ms floor is never what decides the period at a reachable
      level. */
  lemma DropIntervalFloorUnreached(level: int)
    requires level >= 1
    ensures DropInterval(level) == 1000 - Min(level - 1, 15) * 50
    ensures DropInterval(level) > 100
  {
  }

  /** Ten cleared lines reach level 2, whose period is 950 ms; one line at
      level 1 is worth 100 points (40 with the classic table). */
  lemma TenLinesScenario()
    ensures LevelFor(10) == 2 && DropInterval(LevelFor(10)) == 950
    ensures LevelFor(9) == 1 && DropInterval(1) == 1000
    ensures LineScore(1) * 1 == 100 && ClassicLineScore(1) * 1 == 40
  {
  }
}
