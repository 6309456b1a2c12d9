/** Day 1 (src/day1.rs): a depth report, one number per line, and the number
    of times a reading is larger than the reading `size` places before it. */
module Day1 {
  import opened Text

  /** `parse_nums`: one number per input line, in order. */
  function ParseNums(input: string): (r: Option<seq<nat>>)
    ensures r.Some? ==> |r.value| == |Lines(input)|
    ensures r.Some? ==> forall k :: 0 <= k < |r.value| ==> ParseRadix(Lines(input)[k], 10) == Some(r.value[k])
    ensures r.None? ==> exists k :: 0 <= k < |Lines(input)| && ParseRadix(Lines(input)[k], 10).None?
  {
    ParseAll(Lines(input))
  }

  /** The input text of a report: each number in decimal on its own line. */
  function Render(nums: seq<nat>): string
  {
    JoinLines(FormatAll(nums))
  }

  /** Parsing a rendered report gives the report back. */
  lemma ParseRender(nums: seq<nat>)
    requires forall k :: 0 <= k < |nums| ==> nums[k] < U32_LIMIT
    ensures ParseNums(Render(nums)) == Some(nums)
  {
    var ls := FormatAll(nums);
    forall k | 0 <= k < |ls| ensures PlainLine(ls[k]) {
      FormatHasNo(nums[k], 10, '\n');
    }
    LinesOfJoin(ls);
    ParseFormatAll(nums);
  }

  /** `increasing_window_sum`: the number of windows of `size + 1` readings
      whose last reading is larger than its first.  The windows are taken
      here from the back of the report; their order does not affect the count. */
  function IncreasingWindowSum(nums: seq<nat>, size: nat): (r: nat)
    decreases |nums|
    ensures r <= if |nums| > size then |nums| - size else 0
  {
    if |nums| <= size then 0
    else
      var n := |nums|;
      IncreasingWindowSum(nums[..n - 1], size) + (if nums[n - 1 - size] < nums[n - 1] then 1 else 0)
  }

  /** The reading at `i + size` is larger than the reading at `i`. */
  predicate IncreaseAt(nums: seq<nat>, size: nat, i: nat)
  {
    i + size < |nums| && nums[i] < nums[i + size]
  }

  /** The indices `i` with `nums[i] < nums[i + size]`. */
  function Increases(nums: seq<nat>, size: nat): set<nat>
  {
    set i: nat | i < |nums| && IncreaseAt(nums, size, i)
  }

  /** Dropping the last reading loses at most the increase that ends at it. */
  lemma IncreasesOfPrefix(nums: seq<nat>, size: nat)
    requires |nums| > size
    ensures var last := |nums| - 1 - size;
      Increases(nums, size) == Increases(nums[..|nums| - 1], size)
        + (if nums[last] < nums[|nums| - 1] then {last} else {})
  {
    var n := |nums|;
    var prefix := nums[..n - 1];
    var last: nat := n - 1 - size;
    var extra: set<nat> := if nums[last] < nums[n - 1] then {last} else {};
    forall i: nat | i in Increases(nums, size) ensures i in Increases(prefix, size) + extra {
      if i < last {
        assert IncreaseAt(prefix, size, i);
      }
    }
    forall i: nat | i in Increases(prefix, size) + extra ensures i in Increases(nums, size) {
      if i in Increases(prefix, size) {
        assert nums[i] == prefix[i] && nums[i + size] == prefix[i + size];
      }
    }
  }

  /** The window count is the number of indices `i` with
      `i + size < |nums|` and `nums[i] < nums[i + size]`. */
  lemma {:induction false} WindowSumCounts(nums: seq<nat>, size: nat)
    ensures IncreasingWindowSum(nums, size) == |Increases(nums, size)|
    decreases |nums|
  {
    if |nums| <= size {
      assert Increases(nums, size) == {};
    } else {
      var n := |nums|;
      var prefix := nums[..n - 1];
      WindowSumCounts(prefix, size);
      IncreasesOfPrefix(nums, size);
      var last: nat := n - 1 - size;
      assert last !in Increases(prefix, size);
    }
  }

  /** `part1`: the number of readings larger than the one before. */
  function Part1(nums: seq<nat>): (r: nat)
    ensures r == |Increases(nums, 1)|
    ensures r < |nums| || r == 0
  {
    WindowSumCounts(nums, 1);
    IncreasingWindowSum(nums, 1)
  }

  /** The sums of every three consecutive readings. */
  function WindowSums(nums: seq<nat>): (r: seq<nat>)
    ensures |r| == if |nums| >= 3 then |nums| - 2 else 0
    ensures forall i :: 0 <= i < |r| ==> r[i] == nums[i] + nums[i + 1] + nums[i + 2]
  {
    if |nums| < 3 then []
    else
      var n := |nums|;
      var r := WindowSums(nums[..n - 1]);
      WindowsExtend(nums, r);
      r + [nums[n - 3] + nums[n - 2] + nums[n - 1]]
  }

  /** The sums of the windows of all but the last reading, then that of the
      last window, are the sums of all windows. */
  lemma WindowsExtend(nums: seq<nat>, r: seq<nat>)
    requires |nums| >= 3 && |r| == |nums| - 3
    requires forall i :: 0 <= i < |r| ==>
               r[i] == nums[..|nums| - 1][i] + nums[..|nums| - 1][i + 1] + nums[..|nums| - 1][i + 2]
    ensures forall i :: 0 <= i < |r| + 1 ==>
              (r + [nums[|nums| - 3] + nums[|nums| - 2] + nums[|nums| - 1]])[i] == nums[i] + nums[i + 1] + nums[i + 2]
  {
  }

  /** Comparing readings three apart counts the same increases as comparing
      consecutive three-reading sums, since neighbouring windows share two readings. */
  lemma {:induction false} ThreeApartIsSlidingSum(nums: seq<nat>)
    ensures IncreasingWindowSum(nums, 3) == IncreasingWindowSum(WindowSums(nums), 1)
    decreases |nums|
  {
    var n := |nums|;
    if n == 3 {
      assert |WindowSums(nums)| == 1;
    } else if n > 3 {
      var prefix := nums[..n - 1];
      ThreeApartIsSlidingSum(prefix);
      var w := WindowSums(nums);
      assert w[..|w| - 1] == WindowSums(prefix);
      assert w[|w| - 2] < w[|w| - 1] <==> nums[n - 4] < nums[n - 1];
    }
  }

  /** `part2`: the number of times the sum of a three-reading window grows. */
  function Part2(nums: seq<nat>): (r: nat)
    ensures r == IncreasingWindowSum(WindowSums(nums), 1)
    ensures r == |Increases(nums, 3)|
  {
    ThreeApartIsSlidingSum(nums);
    WindowSumCounts(nums, 3);
    IncreasingWindowSum(nums, 3)
  }
}
