/** Points for cleared rows, the level, and the drop interval. */
module Scoring {

  /** The source's table [0, 40, 100, 300, 1200], indexed by the number of rows cleared at once. */
  function LinePoints(n: nat): (points: nat)
    requires n <= 4
    ensures n == 0 <==> points == 0
    ensures forall m: nat :: m < n ==> LinePoints(m) < points
  {
    [0, 40, 100, 300, 1200][n]
  }

  /** The level reached after a number of cleared rows: one level per ten rows, from 1. */
  function LevelFor(lines: nat): (level: int)
    ensures level >= 1
  {
    lines / 10 + 1
  }

  /** The delay between automatic drops, in milliseconds: 1000 at level 1, 50 less per level,
      never under 50. */
  function DropIntervalFor(level: int): (interval: int)
    ensures interval >= 50
    ensures level >= 1 ==> interval <= 1000
  {
    if 1000 - (level - 1) * 50 > 50 then 1000 - (level - 1) * 50 else 50
  }

  /** Points paid at a level of at least 1 are never negative, and at least the table entry. */
  lemma PaidPoints(n: nat, level: int)
    requires n <= 4 && level >= 1
    ensures LinePoints(n) <= LinePoints(n) * level
  {
  }

  /** A clear of one to four rows pays 40 to 1200 times the level, and the same clear never
      pays less at a higher level. */
  lemma PayoutBounds(n: nat, level: int, higher: int)
    requires 1 <= n <= 4 && 1 <= level <= higher
    ensures 40 * level <= LinePoints(n) * level <= 1200 * level
    ensures LinePoints(n) * level <= LinePoints(n) * higher
  {
  }

  /** Level k + 1 is exactly the band of 10 * k to 10 * k + 9 cleared rows. */
  lemma LevelBands(lines: nat, k: nat)
    ensures LevelFor(lines) == k + 1 <==> 10 * k <= lines < 10 * k + 10
  {
  }

  /** More cleared rows never lower the level, and the drop interval never grows with it;
      it reaches its floor of 50 ms exactly from level 20 on. */
  lemma DifficultyMonotone(lines: nat, more: nat)
    requires lines <= more
    ensures LevelFor(lines) <= LevelFor(more)
    ensures DropIntervalFor(LevelFor(more)) <= DropIntervalFor(LevelFor(lines))
    ensures DropIntervalFor(LevelFor(lines)) == 50 <==> LevelFor(lines) >= 20
  {
  }

  /** Counters of a session that the line clear updates. */
  datatype Stats = Stats(score: nat, lines: nat, level: int, dropInterval: int)

  /** Level and interval agree with the number of cleared rows. */
  predicate Consistent(s: Stats) {
    s.level == LevelFor(s.lines) && s.dropInterval == DropIntervalFor(s.level)
  }

  const INITIAL_STATS := Stats(0, 0, 1, 1000)

  /** The counters after n rows are cleared at once: nothing changes when n is 0; otherwise the
      points are paid at the level before the update, then level and interval follow the rows. */
  function AfterClear(s: Stats, n: nat): (r: Stats)
    requires n <= 4 && s.level >= 1
    ensures r.score >= s.score && r.lines >= s.lines
  {
    if n == 0 then s
    else
      var lines := s.lines + n;
      var level := LevelFor(lines);
      Stats(s.score + LinePoints(n) * s.level, lines, level, DropIntervalFor(level))
  }

  /** A clear keeps the counters consistent, adds n rows, and pays LinePoints(n) times the
      old level; a clear of four rows pays 1200 at level 1 and 3600 at level 3. */
  lemma AfterClearSpec(s: Stats, n: nat)
    requires Consistent(s) && n <= 4
    ensures var t := AfterClear(s, n);
            Consistent(t) && t.lines == s.lines + n && t.score == s.score + LinePoints(n) * s.level
    ensures n == 4 && s.level == 1 ==> AfterClear(s, n).score == s.score + 1200
    ensures n == 4 && s.level == 3 ==> AfterClear(s, n).score == s.score + 3600
  {
  }
}
