/**
 * The XP curve of the leveling system: the total XP at which a level is
 * reached, the XP step between levels, and the level a total XP amount
 * corresponds to.  The level loop starts from a threshold of 100 for level 1
 * (not the curve's value 155), so the levels are
 *   0: xp < 100,   1: 100 <= xp < 220,   L >= 2: total(L) <= xp < total(L + 1).
 */
module LevelCurve {

  /** `get_total_xp_for_level`: 5L^2 + 50L + 100 for L >= 0, and 0 below. */
  function TotalXp(level: int): (xp: int)
    ensures level < 0 ==> xp == 0
    ensures level >= 0 ==> xp >= 100
  {
    if level < 0 then 0 else 5 * level * level + 50 * level + 100
  }

  /** `get_xp_for_level`: 100 up to level 0, then the difference between consecutive totals. */
  function XpForLevel(level: int): (xp: int)
    ensures level <= 0 ==> xp == 100
    ensures level > 0 ==> TotalXp(level - 1) + xp == TotalXp(level)
  {
    if level <= 0 then 100
    else
      var total := 5 * level * level + 50 * level + 100;
      var previous := 5 * (level - 1) * (level - 1) + 50 * (level - 1) + 100;
      total - previous
  }

  /** The step from level L - 1 to L grows linearly: 10L + 45. */
  lemma XpForLevelClosedForm(level: int)
    requires level >= 1
    ensures XpForLevel(level) == 10 * level + 45
    ensures XpForLevel(level + 1) == XpForLevel(level) + 10
  {
  }

  /** The curve is strictly increasing from level 0 on. */
  lemma TotalXpIncreasing(a: int, b: int)
    requires 0 <= a < b
    ensures TotalXp(a) < TotalXp(b)
  {
    assert 5 * b * b >= 5 * a * a by {
      assert b * b >= a * a by {
        assert b * b - a * a == (b - a) * (b + a);
      }
    }
  }

  /** The XP at which the loop in `get_level_from_xp` moves from level L - 1 to L (L >= 1). */
  function Threshold(level: nat): (xp: int)
    requires level >= 1
    ensures xp >= 100
  {
    if level == 1 then 100 else TotalXp(level)
  }

  lemma ThresholdIncreasing(a: nat, b: nat)
    requires 1 <= a < b
    ensures Threshold(a) < Threshold(b)
  {
    if a >= 2 {
      TotalXpIncreasing(a, b);
    }
  }

  /** The level the loop stops at when it has reached `level` without stopping. */
  function LevelSearch(xp: int, level: nat): (r: nat)
    requires level == 0 || xp >= Threshold(level)
    decreases xp - level
  {
    if xp >= Threshold(level + 1) then
      assert xp >= level + 1 by { ThresholdAtLeastLevel(level + 1); }
      LevelSearch(xp, level + 1)
    else level
  }

  lemma ThresholdAtLeastLevel(level: nat)
    requires level >= 1
    ensures Threshold(level) >= level
  {
  }

  /** The level of an XP total, as `get_level_from_xp` computes it. */
  function LevelForXp(xp: int): (level: nat)
    ensures IsLevelOf(xp, level)
  {
    LevelSearchIsLevel(xp, 0);
    LevelSearch(xp, 0)
  }

  /** The level L is the unique one with Threshold(L) <= xp < Threshold(L + 1) (no lower bound for 0). */
  ghost predicate IsLevelOf(xp: int, level: nat) {
    (level == 0 || xp >= Threshold(level)) && xp < Threshold(level + 1)
  }

  lemma {:induction false} LevelSearchIsLevel(xp: int, level: nat)
    requires level == 0 || xp >= Threshold(level)
    ensures IsLevelOf(xp, LevelSearch(xp, level))
    ensures LevelSearch(xp, level) >= level
    decreases xp - level
  {
    if xp >= Threshold(level + 1) {
      ThresholdAtLeastLevel(level + 1);
      LevelSearchIsLevel(xp, level + 1);
    }
  }

  /** At most one level fits an XP total. */
  lemma LevelOfUnique(xp: int, a: nat, b: nat)
    requires IsLevelOf(xp, a) && IsLevelOf(xp, b)
    ensures a == b
  {
    if a < b {
      if a + 1 < b { ThresholdIncreasing(a + 1, b); }
    } else if b < a {
      if b + 1 < a { ThresholdIncreasing(b + 1, a); }
    }
  }

  /** `get_level_from_xp` returns exactly the level whose band contains xp; it is 0 iff xp < 100. */
  lemma LevelForXpSpec(xp: int, level: nat)
    ensures LevelForXp(xp) == level <==> IsLevelOf(xp, level)
    ensures LevelForXp(xp) == 0 <==> xp < 100
    ensures xp < Threshold(LevelForXp(xp) + 1)
  {
    if IsLevelOf(xp, level) {
      LevelOfUnique(xp, level, LevelForXp(xp));
    }
    if xp >= 100 {
      assert LevelForXp(xp) != 0;
    }
  }

  /** More XP never means a lower level. */
  lemma LevelForXpMonotone(x: int, y: int)
    requires x <= y
    ensures LevelForXp(x) <= LevelForXp(y)
  {
    LevelSearchIsLevel(x, 0);
    LevelSearchIsLevel(y, 0);
    var a, b := LevelForXp(x), LevelForXp(y);
    if a > b {
      // y < Threshold(b + 1) <= Threshold(a) <= x, contradicting x <= y
      if b + 1 < a { ThresholdIncreasing(b + 1, a); }
    }
  }

  /** For L >= 1 the curve's total for L maps back to L. */
  lemma LevelOfTotalXp(level: nat)
    requires level >= 1
    ensures LevelForXp(TotalXp(level)) == level
  {
    TotalXpIncreasing(level, level + 1);
    LevelForXpSpec(TotalXp(level), level);
  }

  /** For L = 0 the total (100) already counts as level 1, which is why a level set to 0 is later corrected. */
  lemma LevelOfTotalXpZero()
    ensures LevelForXp(TotalXp(0)) == 1
  {
    LevelForXpSpec(TotalXp(0), 1);
  }

  /** `get_level_from_xp`: climbs from level 0 while xp reaches the next threshold. */
  method GetLevelFromXp(xp: int) returns (level: nat)
    ensures level == LevelForXp(xp)
    ensures IsLevelOf(xp, level)
  {
    level := 0;
    var needed := 100;
    while xp >= needed
      invariant level == 0 || xp >= Threshold(level)
      invariant needed == Threshold(level + 1)
      invariant LevelSearch(xp, level) == LevelForXp(xp)
      decreases xp - level
    {
      ThresholdAtLeastLevel(level + 1);
      level := level + 1;
      needed := TotalXp(level + 1);
    }
    LevelSearchIsLevel(xp, 0);
  }
}
