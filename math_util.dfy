/** Model of the summation step: the sum of a sequence of numbers, taken as
    JavaScript's reduce does, from left to right starting at 0. */
module MathUtil {

  /** calculateSum: the left fold of + over the numbers, starting from 0. Numbers
      that are all non-negative (all non-positive) have a non-negative
      (non-positive) sum. */
  function CalculateSum(nums: seq<int>): (r: int)
    ensures (forall i :: 0 <= i < |nums| ==> nums[i] >= 0) ==> r >= 0
    ensures (forall i :: 0 <= i < |nums| ==> nums[i] <= 0) ==> r <= 0
  {
    if nums == [] then 0 else CalculateSum(nums[..|nums| - 1]) + nums[|nums| - 1]
  }

  /** The sum taken from the right; the same numbers in the same order. */
  function SumFromRight(nums: seq<int>): int {
    if nums == [] then 0 else nums[0] + SumFromRight(nums[1..])
  }

  /** The fold starts at 0, and a single number is its own sum. */
  lemma CalculateSumBase(x: int)
    ensures CalculateSum([]) == 0
    ensures CalculateSum([x]) == x
  {
  }

  /** One more number on the right adds it to the sum. */
  lemma CalculateSumAppend(nums: seq<int>, x: int)
    ensures CalculateSum(nums + [x]) == CalculateSum(nums) + x
  {
    assert (nums + [x])[..|nums|] == nums;
  }

  /** The sum of a concatenation is the sum of the parts' sums. */
  lemma {:induction false} CalculateSumConcat(a: seq<int>, b: seq<int>)
    ensures CalculateSum(a + b) == CalculateSum(a) + CalculateSum(b)
  {
    if b == [] {
      assert a + b == a;
    } else {
      var front := b[..|b| - 1];
      assert a + b == (a + front) + [b[|b| - 1]];
      assert b == front + [b[|b| - 1]];
      CalculateSumAppend(a + front, b[|b| - 1]);
      CalculateSumAppend(front, b[|b| - 1]);
      CalculateSumConcat(a, front);
    }
  }

  /** Over integers the direction of the fold does not matter. */
  lemma {:induction false} CalculateSumFromRight(nums: seq<int>)
    ensures CalculateSum(nums) == SumFromRight(nums)
  {
    if nums != [] {
      assert nums == [nums[0]] + nums[1..];
      CalculateSumConcat([nums[0]], nums[1..]);
      CalculateSumFromRight(nums[1..]);
    }
  }

  /** The summation's test case. */
  lemma CalculateSumExample()
    ensures CalculateSum([1, 2, 3]) == 6
  {
    assert [1, 2, 3][..2] == [1, 2];
    assert [1, 2][..1] == [1];
  }
}
