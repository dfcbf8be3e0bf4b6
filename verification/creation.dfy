/** What a freshly cooked item gets when the creation event fires: a level
    quantised to a multiple of 5 from the cook's skill factor, and a chance
    to be cooked "perfectly" (happy) decided by one random roll. */
module Creation {

  /** `Mathf.RoundToInt`, i.e. `Math.Round` with ties to the even neighbour,
      over exact reals. */
  function RoundToInt(x: real): (n: int)
    ensures n as real - 0.5 <= x <= n as real + 0.5
    ensures (x == n as real - 0.5 || x == n as real + 0.5) ==> n % 2 == 0
  {
    var down := x.Floor;
    var frac := x - down as real;
    if frac < 0.5 then down
    else if frac > 0.5 then down + 1
    else if down % 2 == 0 then down
    else down + 1
  }

  /** The rounding is the only integer strictly nearer than one half. */
  lemma RoundToIntNearest(x: real, k: int)
    requires k as real - 0.5 < x < k as real + 0.5
    ensures RoundToInt(x) == k
  {
  }

  /** The level stored on a new item: the skill factor in percent, rounded
      to the nearest multiple of 5. */
  function CreationLevel(skillFactor: real): (level: int)
    ensures level % 5 == 0
    ensures level as real - 2.5 <= skillFactor * 100.0 <= level as real + 2.5
    ensures 0.0 <= skillFactor <= 1.0 ==> 0 <= level <= 100
  {
    RoundToInt(skillFactor * 100.0 / 5.0) * 5
  }

  /** No skill gives level 0, full skill gives level 100, and 73% gives 75. */
  lemma CreationLevelExamples()
    ensures CreationLevel(0.0) == 0
    ensures CreationLevel(1.0) == 100
    ensures CreationLevel(0.73) == 75
  {
    RoundToIntNearest(0.0, 0);
    RoundToIntNearest(20.0, 20);
    RoundToIntNearest(14.6, 15);
  }

  /** A higher skill factor never gives a lower level. */
  lemma CreationLevelMonotone(f: real, g: real)
    requires f <= g
    ensures CreationLevel(f) <= CreationLevel(g)
  {
  }

  /** The happy roll: with the feature on (`minimum > 0`) an item is happy
      when the roll of `Random.Range(0, 100)`, an integer in [0, 99], is at
      most its level minus the minimum. */
  function RollHappy(level: int, minimum: int, roll: int): bool
    requires 0 <= roll < 100
  {
    minimum > 0 && roll <= level - minimum
  }

  /** The happy outcome is never granted with the feature off or below the
      minimum level, and always granted 99 levels above the minimum. */
  lemma RollHappyBounds(level: int, minimum: int, roll: int)
    requires 0 <= roll < 100
    ensures minimum <= 0 ==> !RollHappy(level, minimum, roll)
    ensures level < minimum ==> !RollHappy(level, minimum, roll)
    ensures minimum > 0 && level - minimum >= 99 ==> RollHappy(level, minimum, roll)
  {
  }

  /** The rolls that make an item happy. */
  function HappyRolls(level: int, minimum: int): set<int> {
    set roll | 0 <= roll < 100 && RollHappy(level, minimum, roll)
  }

  function Clamp(x: int, lo: int, hi: int): int
    requires lo <= hi
  {
    if x < lo then lo else if x > hi then hi else x
  }

  /** The integers 0 to n - 1. */
  function Below(n: nat): (s: set<int>)
    ensures forall i :: i in s <==> 0 <= i < n
  {
    if n == 0 then {} else Below(n - 1) + {n - 1}
  }

  lemma {:induction false} BelowSize(n: nat)
    ensures |Below(n)| == n
  {
    if n > 0 {
      assert n - 1 !in Below(n - 1);
      BelowSize(n - 1);
    }
  }

  /** The chance of a happy item in percent: one roll in a hundred for each
      level from the minimum up to the item's level, between 0 and 100. */
  lemma HappyChance(level: int, minimum: int)
    ensures minimum > 0 ==> |HappyRolls(level, minimum)| == Clamp(level - minimum + 1, 0, 100)
    ensures minimum <= 0 ==> |HappyRolls(level, minimum)| == 0
  {
    var n: nat := if minimum > 0 then Clamp(level - minimum + 1, 0, 100) else 0;
    assert HappyRolls(level, minimum) == Below(n);
    BelowSize(n);
  }
}
