/** The bonsai's growth stage, from 0 (seedling) to 4 (full bonsai), as a
    threshold mapping over the number of journal entries. */
module GrowthStage {

  /** The stage shown for `entriesCount` entries.  The count comes from the
      length of the entry list; a negative count fails the `=== 0` test and
      the `< 5` test succeeds, so it shows stage 1. */
  function GetGrowthStage(entriesCount: int): (stage: int)
    ensures 0 <= stage <= 4
    ensures stage == 0 <==> entriesCount == 0
  {
    if entriesCount == 0 then 0
    else if entriesCount < 5 then 1
    else if entriesCount < 10 then 2
    else if entriesCount < 20 then 3
    else 4
  }

  /** The smallest entry count at which each stage after the seedling is
      reached. */
  const Thresholds: seq<nat> := [1, 5, 10, 20]

  /** How many of `thresholds` a count has reached: an independent reading of
      the stage table. */
  function Reached(thresholds: seq<nat>, count: int): (n: nat)
    ensures n <= |thresholds|
  {
    if thresholds == [] then 0
    else (if thresholds[0] <= count then 1 else 0) + Reached(thresholds[1..], count)
  }

  /** The number of thresholds reached never decreases as the count grows. */
  lemma {:induction false} ReachedMonotone(thresholds: seq<nat>, count: int, larger: int)
    requires count <= larger
    ensures Reached(thresholds, count) <= Reached(thresholds, larger)
  {
    if thresholds != [] {
      ReachedMonotone(thresholds[1..], count, larger);
    }
  }

  /** For every non-negative count, the stage is the number of thresholds
      the count has reached. */
  lemma StageCountsThresholds(entriesCount: nat)
    ensures GetGrowthStage(entriesCount) == Reached(Thresholds, entriesCount)
  {
    var c := entriesCount;
    assert Reached([20], c) == if 20 <= c then 1 else 0 by {
      assert [20][1..] == [];
    }
    assert Reached([10, 20], c) == (if 10 <= c then 1 else 0) + Reached([20], c) by {
      assert [10, 20][1..] == [20];
    }
    assert Reached([5, 10, 20], c) == (if 5 <= c then 1 else 0) + Reached([10, 20], c) by {
      assert [5, 10, 20][1..] == [10, 20];
    }
    assert Thresholds[1..] == [5, 10, 20];
  }

  /** Stage boundaries: 0 entries is the seedling, 1 to 4 stage 1, 5 to 9
      stage 2, 10 to 19 stage 3 and 20 or more the full bonsai. */
  lemma StageTable(entriesCount: nat)
    ensures entriesCount == 0 ==> GetGrowthStage(entriesCount) == 0
    ensures 1 <= entriesCount <= 4 ==> GetGrowthStage(entriesCount) == 1
    ensures 5 <= entriesCount <= 9 ==> GetGrowthStage(entriesCount) == 2
    ensures 10 <= entriesCount <= 19 ==> GetGrowthStage(entriesCount) == 3
    ensures 20 <= entriesCount ==> GetGrowthStage(entriesCount) == 4
  {
  }

  /** The tree never shrinks as entries are added. */
  lemma StageMonotone(count: nat, larger: nat)
    requires count <= larger
    ensures GetGrowthStage(count) <= GetGrowthStage(larger)
  {
    StageCountsThresholds(count);
    StageCountsThresholds(larger);
    ReachedMonotone(Thresholds, count, larger);
  }

  /** A stage is reached exactly when the count reaches its threshold. */
  lemma StageReachedIff(entriesCount: nat, stage: nat)
    requires 1 <= stage <= 4
    ensures GetGrowthStage(entriesCount) >= stage <==> entriesCount >= Thresholds[stage - 1]
  {
  }

  /** Monotonicity holds only from 0 on: a negative count shows stage 1,
      above the seedling stage of count 0. */
  lemma NegativeCountShowsStageOne(entriesCount: int)
    requires entriesCount < 0
    ensures GetGrowthStage(entriesCount) == 1 > GetGrowthStage(0)
  {
  }
}
