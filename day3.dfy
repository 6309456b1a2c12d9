/** Day 3 (src/day3.rs): a diagnostic report of binary numbers, majority
    voting per bit position, the gamma and epsilon rates, and the recursive
    filters that single out the oxygen and CO2 ratings. */
module Day3 {
  import opened Text

  /** The parsed report: the numbers and the length of its longest line. */
  datatype BitMatrix = BitMatrix(nums: seq<nat>, width: nat)

  /** `parse_report`: every line read as a binary `u32`, and the width of the
      report as the length of its longest line. */
  method ParseReport(input: string) returns (r: Option<BitMatrix>)
    ensures r.Some? <==> forall k :: 0 <= k < |Lines(input)| ==> ParseRadix(Lines(input)[k], 2).Some?
    ensures r.Some? ==> ReadsAs(input, r.value)
  {
    var lines := Lines(input);
    ghost var parsed := seq(|lines|, i requires 0 <= i < |lines| => ParseRadix(lines[i], 2));
    var width := 0;
    var nums: seq<nat> := [];
    for k := 0 to |lines|
      invariant |nums| == k
      invariant forall i :: 0 <= i < k ==> parsed[i] == Some(nums[i])
      invariant forall i :: 0 <= i < k ==> |lines[i]| <= width
      invariant width == 0 || exists i :: 0 <= i < k && |lines[i]| == width
    {
      var l := lines[k];
      if |l| > width {
        width := |l|;
      }
      var n := ParseRadix(l, 2);
      assert parsed[k] == n;
      if n.None? {
        assert ParseRadix(Lines(input)[k], 2).None?;
        return None;
      }
      nums := nums + [n.value];
    }
    assert forall i :: 0 <= i < |lines| ==> parsed[i] == ParseRadix(lines[i], 2);
    return Some(BitMatrix(nums, width));
  }

  /** `m` is what the lines of `input` say: one number per line, each the
      line read in binary, and the width the length of the longest line (0
      when there are no lines). */
  ghost predicate ReadsAs(input: string, m: BitMatrix)
  {
    && |m.nums| == |Lines(input)|
    && (forall k :: 0 <= k < |Lines(input)| ==> ParseRadix(Lines(input)[k], 2) == Some(m.nums[k]))
    && (forall k :: 0 <= k < |Lines(input)| ==> |Lines(input)[k]| <= m.width)
    && (m.width == 0 || exists k :: 0 <= k < |Lines(input)| && |Lines(input)[k]| == m.width)
  }

  /** A text reads as one report at most, so `ReadsAs` pins down the result
      of `parse_report`. */
  lemma ReadsAsUnique(input: string, m: BitMatrix, m': BitMatrix)
    requires ReadsAs(input, m) && ReadsAs(input, m')
    ensures m == m'
  {
    var ls := Lines(input);
    forall k | 0 <= k < |ls| ensures m.nums[k] == m'.nums[k] {
      assert ParseRadix(ls[k], 2) == Some(m.nums[k]);
    }
    if m.width != 0 {
      var k :| 0 <= k < |ls| && |ls[k]| == m.width;
      assert m.width <= m'.width;
    }
    if m'.width != 0 {
      var k :| 0 <= k < |ls| && |ls[k]| == m'.width;
      assert m'.width <= m.width;
    }
  }

  /** `n` written with exactly `w` binary digits, leading zeros included. */
  function Binary(n: nat, w: nat): (r: string)
    requires n < Pow2(w)
    ensures |r| == w && AllDigits(r, 2) && ValueOf(r, 2) == n
  {
    if w == 0 then []
    else
      var prefix := Binary(n / 2, w - 1);
      AppendDigit(prefix, n, 2);
      prefix + [DigitChar(n % 2)]
  }

  /** The lines of a report of width `w`. */
  function BinaryLines(nums: seq<nat>, w: nat): (r: seq<string>)
    requires forall k :: 0 <= k < |nums| ==> nums[k] < Pow2(w)
    ensures |r| == |nums|
    ensures forall k :: 0 <= k < |nums| ==> r[k] == Binary(nums[k], w)
  {
    if nums == [] then [] else [Binary(nums[0], w)] + BinaryLines(nums[1..], w)
  }

  /** The input text of a report: each number in binary, `w` digits wide, on its own line. */
  function RenderReport(nums: seq<nat>, w: nat): string
    requires forall k :: 0 <= k < |nums| ==> nums[k] < Pow2(w)
  {
    JoinLines(BinaryLines(nums, w))
  }

  /** The text of a report of `u32`s of width `w` reads as that report:
      with the contract of `ParseReport`, parsing it gives the report back. */
  lemma ReportText(nums: seq<nat>, w: nat)
    requires 0 < |nums| && 0 < w
    requires forall k :: 0 <= k < |nums| ==> nums[k] < Pow2(w) && nums[k] < U32_LIMIT
    ensures forall k :: 0 <= k < |Lines(RenderReport(nums, w))| ==> ParseRadix(Lines(RenderReport(nums, w))[k], 2).Some?
    ensures ReadsAs(RenderReport(nums, w), BitMatrix(nums, w))
  {
    var ls := BinaryLines(nums, w);
    forall k | 0 <= k < |ls| ensures PlainLine(ls[k]) && ParseRadix(ls[k], 2) == Some(nums[k]) {
      ParseRadixDigits(ls[k], 2);
      assert ls[k][w - 1] != '\r';
    }
    LinesOfJoin(ls);
    assert |Lines(RenderReport(nums, w))[0]| == w;
  }

  // --------------------------------------------------------------------- bits

  /** `n >> i`. */
  function Shr(n: nat, i: nat): nat
  {
    if i == 0 then n else Shr(n / 2, i - 1)
  }

  /** `(n >> i) & 1`. */
  function Bit(n: nat, i: nat): (b: nat)
    ensures b <= 1
  {
    Shr(n, i) % 2
  }

  /** `a | b`. */
  function BitOr(a: nat, b: nat): nat
  {
    if a == 0 then b
    else if b == 0 then a
    else 2 * BitOr(a / 2, b / 2) + (if a % 2 == 1 || b % 2 == 1 then 1 else 0)
  }

  /** `a & b`. */
  function BitAnd(a: nat, b: nat): nat
  {
    if a == 0 || b == 0 then 0 else 2 * BitAnd(a / 2, b / 2) + (a % 2) * (b % 2)
  }

  /** `!a` on a `u32`. */
  function Not32(a: nat): nat
    requires a < U32_LIMIT
  {
    U32_LIMIT - 1 - a
  }

  lemma {:induction false} Pow2Add(a: nat, b: nat)
    ensures Pow2(a + b) == Pow2(a) * Pow2(b)
    decreases b
  {
    if b > 0 {
      Pow2Add(a, b - 1);
    }
  }

  /** `u32` values are the naturals below 2^32. */
  lemma U32IsPow2()
    ensures Pow2(32) == U32_LIMIT
  {
    assert Pow2(4) == 16;
    Pow2Add(4, 4);
    Pow2Add(8, 8);
    Pow2Add(16, 16);
  }

  lemma {:induction false} Pow2Monotone(a: nat, b: nat)
    requires a <= b
    ensures Pow2(a) <= Pow2(b)
    decreases b
  {
    if a < b {
      Pow2Monotone(a, b - 1);
    }
  }

  /** Below 2^k, every bit from k upwards is clear. */
  lemma {:induction false} HighBitsClear(n: nat, k: nat, i: nat)
    requires n < Pow2(k) && k <= i
    ensures Bit(n, i) == 0
    decreases i
  {
    if i == 0 {
    } else if k == 0 {
      assert n == 0;
      ZeroShr(i);
    } else {
      HighBitsClear(n / 2, k - 1, i - 1);
    }
  }

  lemma {:induction false} ZeroShr(i: nat)
    ensures Shr(0, i) == 0
  {
    if i > 0 {
      ZeroShr(i - 1);
    }
  }

  /** Adding 2^k to a number below 2^k sets bit k and keeps the bits below it. */
  lemma {:induction false} BitsOfAddedPower(x: nat, k: nat, i: nat)
    requires x < Pow2(k) && i <= k
    ensures Bit(x + Pow2(k), i) == if i == k then 1 else Bit(x, i)
    decreases k
  {
    if i == 0 {
      if k == 0 {
        assert x == 0;
      }
    } else {
      assert (x + Pow2(k)) / 2 == x / 2 + Pow2(k - 1);
      BitsOfAddedPower(x / 2, k - 1, i - 1);
    }
  }

  /** Or-ing 2^i into a number below 2^i adds it: `gamma |= 1 << i` is `gamma + 2^i`. */
  lemma {:induction false} OrPower(g: nat, i: nat)
    requires g < Pow2(i)
    ensures BitOr(g, Pow2(i)) == g + Pow2(i)
    decreases i
  {
    if i > 0 && g > 0 {
      OrPower(g / 2, i - 1);
    }
  }

  /** The bits of 2^w - 1 - g below w are the complements of those of g. */
  lemma {:induction false} ComplementBits(g: nat, w: nat, i: nat)
    requires g < Pow2(w) && i < w
    ensures Bit(Pow2(w) - 1 - g, i) == 1 - Bit(g, i)
    decreases w
  {
    if i > 0 {
      assert (Pow2(w) - 1 - g) / 2 == Pow2(w - 1) - 1 - g / 2;
      ComplementBits(g / 2, w - 1, i - 1);
    }
  }

  /** Masking the complement of g to its low w bits gives 2^w - 1 - g. */
  lemma {:induction false} MaskedComplement(g: nat, w: nat, big: nat)
    requires w <= big && g < Pow2(w) && g < Pow2(big)
    ensures BitAnd(Pow2(big) - 1 - g, Pow2(w) - 1) == Pow2(w) - 1 - g
    decreases w
  {
    if w > 0 {
      var a := Pow2(big) - 1 - g;
      var m := Pow2(w) - 1;
      Pow2Monotone(w, big);
      if a > 0 {
        ComplementHalf(g, big);
        ComplementHalf(g, w);
        HalfMask(w);
        MaskedComplement(g / 2, w - 1, big - 1);
        MaskStep(a, m, g, Pow2(big - 1) - 1 - g / 2, Pow2(w - 1) - 1);
      }
    }
  }

  /** The mask of `w` bits is odd, and halving it drops one bit. */
  lemma HalfMask(w: nat)
    requires w > 0
    ensures (Pow2(w) - 1) % 2 == 1 && (Pow2(w) - 1) / 2 == Pow2(w - 1) - 1
  {
    OddHalf(Pow2(w) - 1, Pow2(w - 1));
  }

  lemma OddHalf(x: int, p: int)
    requires p >= 1 && x == 2 * p - 1
    ensures x % 2 == 1 && x / 2 == p - 1
  {
  }

  /** One bit of `MaskedComplement`: if the halves of `a` and `m` meet in
      the complement of `g / 2`, and `a` ends in the opposite bit to `g`,
      then `a` and `m` meet in `m - g`. */
  lemma MaskStep(a: nat, m: nat, g: nat, a2: nat, m2: nat)
    requires a > 0 && m % 2 == 1 && g / 2 <= m2 && a % 2 == 1 - g % 2
    requires a / 2 == a2 && m / 2 == m2 && BitAnd(a2, m2) == m2 - g / 2
    ensures BitAnd(a, m) == m - g
  {
    BitAndOdd(a, m);
    assert m == 2 * (m / 2) + 1;
    assert g == 2 * (g / 2) + g % 2;
  }

  /** A mask ending in a set bit keeps the last bit of `a`. */
  lemma BitAndOdd(a: nat, m: nat)
    requires a > 0 && m % 2 == 1
    ensures BitAnd(a, m) == 2 * BitAnd(a / 2, m / 2) + a % 2
  {
    if a % 2 == 0 {
      assert (a % 2) * (m % 2) == 0;
    } else {
      assert (a % 2) * (m % 2) == 1;
    }
  }

  /** Halving the complement of `g` in `big` bits gives the complement of
      `g / 2` in one bit fewer; its last bit is the opposite of that of `g`. */
  lemma ComplementHalf(g: nat, big: nat)
    requires big > 0 && g < Pow2(big)
    ensures g / 2 < Pow2(big - 1)
    ensures (Pow2(big) - 1 - g) / 2 == Pow2(big - 1) - 1 - g / 2
    ensures (Pow2(big) - 1 - g) % 2 == 1 - g % 2
  {
    var q, r := g / 2, g % 2;
    assert g == 2 * q + r;
    assert Pow2(big) == 2 * Pow2(big - 1);
    assert Pow2(big) - 1 - g == 2 * (Pow2(big - 1) - 1 - q) + (1 - r);
  }

  /** A number below 2^w and its complement within w bits share no set bit. */
  lemma {:induction false} ComplementDisjoint(g: nat, w: nat)
    requires g < Pow2(w)
    ensures BitAnd(g, Pow2(w) - 1 - g) == 0
    decreases w
  {
    if w > 0 && g > 0 && Pow2(w) - 1 - g > 0 {
      assert (Pow2(w) - 1 - g) / 2 == Pow2(w - 1) - 1 - g / 2;
      ComplementDisjoint(g / 2, w - 1);
    }
  }

  // ----------------------------------------------------------------- majority

  datatype Majority = One | Zero | Tie

  /** How many of `nums` have bit `bit` set. */
  function Ones(nums: seq<nat>, bit: nat): (r: nat)
    ensures r <= |nums|
  {
    if nums == [] then 0 else Ones(nums[..|nums| - 1], bit) + Bit(nums[|nums| - 1], bit)
  }

  /** The more common value of bit `bit` among `nums`. */
  function MajorityOf(nums: seq<nat>, bit: nat): Majority
  {
    var ones := Ones(nums, bit);
    if ones > |nums| - ones then One else if ones < |nums| - ones then Zero else Tie
  }

  /** `majority`: a running total, one up for a set bit and one down for a
      clear one, read by its sign. */
  method FindMajority(nums: seq<nat>, bit: nat) returns (m: Majority)
    ensures m == One <==> Ones(nums, bit) > |nums| - Ones(nums, bit)
    ensures m == Zero <==> Ones(nums, bit) < |nums| - Ones(nums, bit)
    ensures m == MajorityOf(nums, bit)
  {
    var total: int := 0;
    for k := 0 to |nums|
      invariant total == 2 * Ones(nums[..k], bit) - k
    {
      assert nums[..k + 1][..k] == nums[..k];
      if Bit(nums[k], bit) != 0 {
        total := total + 1;
      } else {
        total := total - 1;
      }
    }
    assert nums[..|nums|] == nums;
    if total < 0 {
      m := Zero;
    } else if total == 0 {
      m := Tie;
    } else {
      m := One;
    }
  }

  // ------------------------------------------------------------------- part 1

  /** The gamma rate of the first `w` bit positions: bit i is set exactly when
      most numbers have bit i set. */
  function Gamma(nums: seq<nat>, w: nat): (g: nat)
    ensures g < Pow2(w)
  {
    if w == 0 then 0
    else Gamma(nums, w - 1) + (if MajorityOf(nums, w - 1) == One then Pow2(w - 1) else 0)
  }

  /** `!gamma & ((1 << width) - 1)`. */
  function Epsilon(gamma: nat, width: nat): nat
    requires gamma < U32_LIMIT
  {
    BitAnd(Not32(gamma), Pow2(width) - 1)
  }

  /** With at most 32 positions gamma fits in a `u32`. */
  lemma GammaFits(nums: seq<nat>, width: nat)
    requires width <= 32
    ensures Gamma(nums, width) < U32_LIMIT
  {
    Pow2Monotone(width, 32);
    U32IsPow2();
  }

  /** `part1`: gamma built bit by bit, then epsilon, then their product. */
  method Part1(data: BitMatrix) returns (r: nat)
    requires data.width < 32
    ensures Gamma(data.nums, data.width) < U32_LIMIT
    ensures r == Gamma(data.nums, data.width) * Epsilon(Gamma(data.nums, data.width), data.width)
  {
    GammaFits(data.nums, data.width);
    var gamma: nat := 0;
    for i := 0 to data.width
      invariant gamma == Gamma(data.nums, i)
    {
      var m := FindMajority(data.nums, i);
      if m == One {
        OrPower(gamma, i);
        gamma := BitOr(gamma, Pow2(i));
      }
    }
    var epsilon := BitAnd(Not32(gamma), Pow2(data.width) - 1);
    r := gamma * epsilon;
  }

  /** Bit i of gamma is set iff most numbers have bit i set; a tie leaves it clear. */
  lemma {:induction false} GammaBits(nums: seq<nat>, w: nat, i: nat)
    requires i < w
    ensures Bit(Gamma(nums, w), i) == 1 <==> MajorityOf(nums, i) == One
    decreases w
  {
    var g := Gamma(nums, w - 1);
    if MajorityOf(nums, w - 1) == One {
      BitsOfAddedPower(g, w - 1, i);
    }
    if i < w - 1 {
      GammaBits(nums, w - 1, i);
    } else if MajorityOf(nums, w - 1) != One {
      HighBitsClear(g, w - 1, i);
    }
  }

  /** Epsilon is gamma's complement within `width` bits: they share no set
      bit, they add up to 2^width - 1, and bit i of epsilon is set iff most
      numbers do not have bit i set. */
  lemma EpsilonComplementsGamma(nums: seq<nat>, width: nat)
    requires width <= 32
    ensures Gamma(nums, width) < U32_LIMIT
    ensures Epsilon(Gamma(nums, width), width) == Pow2(width) - 1 - Gamma(nums, width)
    ensures BitAnd(Gamma(nums, width), Epsilon(Gamma(nums, width), width)) == 0
    ensures forall i :: 0 <= i < width ==>
              (Bit(Epsilon(Gamma(nums, width), width), i) == 1 <==> MajorityOf(nums, i) != One)
  {
    var g := Gamma(nums, width);
    EpsilonOf(g, width);
    forall i | 0 <= i < width
      ensures Bit(Epsilon(g, width), i) == 1 <==> MajorityOf(nums, i) != One
    {
      ComplementBits(g, width, i);
      GammaBits(nums, width, i);
    }
  }

  /** The masked complement of a number below 2^width, width at most 32, is
      2^width - 1 minus it, and shares no set bit with it. */
  lemma EpsilonOf(g: nat, width: nat)
    requires width <= 32 && g < Pow2(width)
    ensures g < U32_LIMIT
    ensures Epsilon(g, width) == Pow2(width) - 1 - g
    ensures BitAnd(g, Epsilon(g, width)) == 0
  {
    Pow2Monotone(width, 32);
    U32IsPow2();
    MaskedComplement(g, width, 32);
    ComplementDisjoint(g, width);
  }

  // ------------------------------------------------------------------- part 2

  /** The bit value `majority_filter` keeps: 0 only when 0 is the majority
      (so a tie keeps 1), flipped when `invert` is set. */
  function FilterValue(nums: seq<nat>, bit: nat, invert: bool): (v: nat)
    ensures v <= 1
  {
    var v := if MajorityOf(nums, bit) == Zero then 0 else 1;
    if invert then 1 - v else v
  }

  /** The numbers whose bit `bit` is `v`, in their original order. */
  function Keep(nums: seq<nat>, bit: nat, v: nat): (r: seq<nat>)
    requires v <= 1
    ensures |r| == if v == 1 then Ones(nums, bit) else |nums| - Ones(nums, bit)
    ensures forall k :: 0 <= k < |r| ==> Bit(r[k], bit) == v
  {
    if nums == [] then []
    else
      var prefix := nums[..|nums| - 1];
      var last := nums[|nums| - 1];
      Keep(prefix, bit, v) + (if Bit(last, bit) == v then [last] else [])
  }

  /** The kept numbers are drawn from the input, each at most as often. */
  lemma {:induction false} KeepSub(nums: seq<nat>, bit: nat, v: nat)
    requires v <= 1
    ensures multiset(Keep(nums, bit, v)) <= multiset(nums)
  {
    if nums != [] {
      var prefix := nums[..|nums| - 1];
      assert nums == prefix + [nums[|nums| - 1]];
      KeepSub(prefix, bit, v);
    }
  }

  /** Filtering distributes over concatenation: the kept numbers stay in order. */
  lemma {:induction false} KeepAppend(a: seq<nat>, b: seq<nat>, bit: nat, v: nat)
    requires v <= 1
    ensures Keep(a + b, bit, v) == Keep(a, bit, v) + Keep(b, bit, v)
    decreases |b|
  {
    if b == [] {
      assert a + b == a;
    } else {
      var b' := b[..|b| - 1];
      var last := b[|b| - 1];
      var tail := if Bit(last, bit) == v then [last] else [];
      assert (a + b)[..|a + b| - 1] == a + b' && (a + b)[|a + b| - 1] == last;
      assert Keep(a + b, bit, v) == Keep(a + b', bit, v) + tail;
      assert Keep(b, bit, v) == Keep(b', bit, v) + tail;
      KeepAppend(a, b', bit, v);
    }
  }

  /** Without `invert` the kept side is the more common one (at least half
      of the numbers); with `invert` it is the less common one (at most half). */
  lemma KeptShare(nums: seq<nat>, bit: nat, invert: bool)
    ensures var f := Keep(nums, bit, FilterValue(nums, bit, invert));
      if invert then 2 * |f| <= |nums| else 2 * |f| >= |nums|
  {
  }

  /** The filtering of `majority_filter` ends with a single number before it
      would have to look below bit 0. */
  ghost predicate Settles(nums: seq<nat>, bit: nat, invert: bool)
    decreases bit
  {
    var f := Keep(nums, bit, FilterValue(nums, bit, invert));
    |f| == 1 || (bit > 0 && Settles(f, bit - 1, invert))
  }

  /** `majority_filter`: keep the numbers with the chosen value at `bit`; a
      single survivor is the answer, otherwise go on with the next lower bit. */
  function MajorityFilter(nums: seq<nat>, bit: nat, invert: bool): (r: nat)
    requires bit < 32 && Settles(nums, bit, invert)
    decreases bit
    ensures r in nums
    ensures Bit(r, bit) == FilterValue(nums, bit, invert)
  {
    var v := FilterValue(nums, bit, invert);
    var f := Keep(nums, bit, v);
    if |f| == 1 then
      KeepMember(nums, bit, v, f[0]);
      f[0]
    else
      SettlesStep(nums, bit, invert);
      var r := MajorityFilter(f, bit - 1, invert);
      KeepMember(nums, bit, v, r);
      r
  }

  /** A filter that has not settled at `bit` settles on what is left, from
      the next lower bit. */
  lemma SettlesStep(nums: seq<nat>, bit: nat, invert: bool)
    requires Settles(nums, bit, invert)
    requires |Keep(nums, bit, FilterValue(nums, bit, invert))| != 1
    ensures bit > 0 && Settles(Keep(nums, bit, FilterValue(nums, bit, invert)), bit - 1, invert)
  {
  }

  /** What `Keep` keeps comes from `nums` and has value `v` at `bit`. */
  lemma KeepMember(nums: seq<nat>, bit: nat, v: nat, r: nat)
    requires v <= 1 && r in Keep(nums, bit, v)
    ensures r in nums && Bit(r, bit) == v
  {
    KeepSub(nums, bit, v);
    assert r in multiset(Keep(nums, bit, v));
  }

  /** All of `nums` agree on every bit above `bit`. */
  ghost predicate AgreeAbove(nums: seq<nat>, bit: nat)
  {
    forall i, j :: 0 <= i < |nums| && 0 <= j < |nums| ==> Shr(nums[i], bit + 1) == Shr(nums[j], bit + 1)
  }

  predicate Distinct(nums: seq<nat>)
  {
    forall i, j :: 0 <= i < j < |nums| ==> nums[i] != nums[j]
  }

  lemma {:induction false} ShrStep(n: nat, bit: nat)
    ensures Shr(n, bit) == 2 * Shr(n, bit + 1) + Bit(n, bit)
    decreases bit
  {
    if bit > 0 {
      ShrStep(n / 2, bit - 1);
    }
  }

  /** Distinct numbers that agree above `bit` keep distinct, agreeing above
      `bit - 1`, after keeping one value of `bit`. */
  lemma KeepNarrows(nums: seq<nat>, bit: nat, v: nat)
    requires v <= 1 && Distinct(nums) && AgreeAbove(nums, bit)
    ensures Distinct(Keep(nums, bit, v))
    ensures bit > 0 ==> AgreeAbove(Keep(nums, bit, v), bit - 1)
    ensures bit == 0 ==> |Keep(nums, bit, v)| <= 1
  {
    var f := Keep(nums, bit, v);
    KeepDistinct(nums, bit, v);
    KeepAgrees(nums, bit, v);
    if bit == 0 {
      assert |f| >= 2 ==> Shr(f[0], 0) == Shr(f[1], 0);
    }
  }

  /** Keeping some of distinct numbers leaves them distinct. */
  lemma KeepDistinct(nums: seq<nat>, bit: nat, v: nat)
    requires v <= 1 && Distinct(nums)
    ensures Distinct(Keep(nums, bit, v))
  {
    var f := Keep(nums, bit, v);
    KeepSub(nums, bit, v);
    forall n ensures multiset(f)[n] <= 1 {
      DistinctCount(nums, n);
    }
    forall i, j | 0 <= i < j < |f| ensures f[i] != f[j] {
      CountTwo(f, i, j);
    }
  }

  /** Numbers that agree above `bit` and have the same value at `bit` agree
      from `bit` up. */
  lemma KeepAgrees(nums: seq<nat>, bit: nat, v: nat)
    requires v <= 1 && AgreeAbove(nums, bit)
    ensures forall i, j :: 0 <= i < |Keep(nums, bit, v)| && 0 <= j < |Keep(nums, bit, v)| ==>
              Shr(Keep(nums, bit, v)[i], bit) == Shr(Keep(nums, bit, v)[j], bit)
  {
    var f := Keep(nums, bit, v);
    forall i, j | 0 <= i < |f| && 0 <= j < |f|
      ensures Shr(f[i], bit) == Shr(f[j], bit)
    {
      KeepSub(nums, bit, v);
      assert f[i] in multiset(f) && f[j] in multiset(f);
      var a :| 0 <= a < |nums| && nums[a] == f[i];
      var b :| 0 <= b < |nums| && nums[b] == f[j];
      ShrStep(f[i], bit);
      ShrStep(f[j], bit);
    }
  }


  /** A value at index i occurs once more when it also sits at a later index j. */
  lemma CountTwo(f: seq<nat>, i: nat, j: nat)
    requires i < j < |f|
    ensures multiset(f)[f[i]] >= 1 + (if f[j] == f[i] then 1 else 0)
  {
    assert f == f[..j] + [f[j]] + f[j + 1..];
    assert f[..j][i] == f[i];
  }

  lemma {:induction false} DistinctCount(nums: seq<nat>, n: nat)
    requires Distinct(nums)
    ensures multiset(nums)[n] <= 1
    decreases |nums|
  {
    if nums != [] {
      var prefix := nums[..|nums| - 1];
      assert nums == prefix + [nums[|nums| - 1]];
      DistinctCount(prefix, n);
      if nums[|nums| - 1] == n {
        assert n !in prefix;
      }
    }
  }

  /** On a report of distinct numbers that agree above `bit` (for instance
      all below 2^(bit+1)), the oxygen filter (no `invert`) always settles:
      the majority side is never empty, and at bit 0 at most one number is left. */
  lemma {:induction false} OxygenSettles(nums: seq<nat>, bit: nat)
    requires |nums| > 0 && Distinct(nums) && AgreeAbove(nums, bit)
    ensures Settles(nums, bit, false)
    decreases bit
  {
    var v := FilterValue(nums, bit, false);
    var f := Keep(nums, bit, v);
    KeptShare(nums, bit, false);
    KeepNarrows(nums, bit, v);
    if |f| != 1 && bit > 0 {
      OxygenSettles(f, bit - 1);
    }
  }

  /** Below 2^k, shifting right by `k` leaves 0. */
  lemma {:induction false} ShrBelow(n: nat, k: nat)
    requires n < Pow2(k)
    ensures Shr(n, k) == 0
  {
    if k > 0 {
      ShrBelow(n / 2, k - 1);
    }
  }

  /** Numbers below 2^(bit+1) agree above `bit`: every higher bit is clear. */
  lemma FitsAgree(nums: seq<nat>, bit: nat)
    requires forall k :: 0 <= k < |nums| ==> nums[k] < Pow2(bit + 1)
    ensures AgreeAbove(nums, bit)
  {
    forall k | 0 <= k < |nums| ensures Shr(nums[k], bit + 1) == 0 {
      ShrBelow(nums[k], bit + 1);
    }
  }

  /** The numbers of a parsed report fit its width: a line of `w` binary
      digits, after an optional '+', is below 2^w. */
  lemma ReportFits(input: string, m: BitMatrix)
    requires ReadsAs(input, m)
    ensures forall k :: 0 <= k < |m.nums| ==> m.nums[k] < Pow2(m.width)
  {
    var ls := Lines(input);
    forall k | 0 <= k < |m.nums| ensures m.nums[k] < Pow2(m.width) {
      var l := ls[k];
      assert ParseRadix(l, 2) == Some(m.nums[k]);
      var digits := if |l| > 0 && l[0] == '+' then l[1..] else l;
      BinaryBound(digits);
      Pow2Monotone(|digits|, m.width);
    }
  }

  /** On a parsed report of distinct numbers, the oxygen filter started at
      the top bit always ends with one number. */
  lemma ReportOxygenSettles(input: string, m: BitMatrix)
    requires ReadsAs(input, m) && 0 < |m.nums| && 0 < m.width && Distinct(m.nums)
    ensures Settles(m.nums, m.width - 1, false)
  {
    ReportFits(input, m);
    FitsAgree(m.nums, m.width - 1);
    OxygenSettles(m.nums, m.width - 1);
  }

  // ------------------------------------------------------- the rating a filter finds

  /** `m` and `n` have the same bits from `lo` up to `hi`. */
  ghost predicate SameBits(m: nat, n: nat, lo: nat, hi: nat)
  {
    forall c :: lo <= c <= hi ==> Bit(m, c) == Bit(n, c)
  }

  /** The numbers still in play when a filter started at bit `start` has
      kept, at every bit from `start` down to `b`, the value that `n` has
      there: the numbers of `nums` whose bits from `b` up agree with `n`'s. */
  function Pool(nums: seq<nat>, start: nat, b: nat, n: nat): seq<nat>
    requires b <= start + 1
    decreases start + 1 - b
  {
    if b == start + 1 then nums else Keep(Pool(nums, start, b + 1, n), b, Bit(n, b))
  }

  /** What `Keep` keeps includes every number with the kept value. */
  lemma {:induction false} KeepIncludes(nums: seq<nat>, bit: nat, v: nat, m: nat)
    requires v <= 1 && m in nums && Bit(m, bit) == v
    ensures m in Keep(nums, bit, v)
    decreases |nums|
  {
    var prefix := nums[..|nums| - 1];
    assert nums == prefix + [nums[|nums| - 1]];
    if m != nums[|nums| - 1] {
      KeepIncludes(prefix, bit, v, m);
    }
  }

  /** Agreeing from `b` up is agreeing at `b` and from `b + 1` up. */
  lemma {:induction false} SameBitsStep(m: nat, n: nat, b: nat, hi: nat)
    requires b <= hi
    ensures SameBits(m, n, b, hi) <==> Bit(m, b) == Bit(n, b) && SameBits(m, n, b + 1, hi)
  {
  }

  /** The pool holds exactly the numbers that agree with `n` from bit `b` up. */
  lemma {:induction false} PoolHas(nums: seq<nat>, start: nat, b: nat, n: nat, m: nat)
    requires b <= start + 1
    decreases start + 1 - b
    ensures m in Pool(nums, start, b, n) <==> m in nums && SameBits(m, n, b, start)
  {
    if b <= start {
      PoolHas(nums, start, b + 1, n, m);
      SameBitsStep(m, n, b, start);
      var pool := Pool(nums, start, b + 1, n);
      var v := Bit(n, b);
      assert Pool(nums, start, b, n) == Keep(pool, b, v);
      if m in Keep(pool, b, v) {
        KeepMember(pool, b, v, m);
      }
      if m in pool && Bit(m, b) == v {
        KeepIncludes(pool, b, v, m);
      }
    }
  }

  /** A number in the pool agrees with `n` from bit `b` up. */
  lemma {:induction false} PoolAgrees(nums: seq<nat>, start: nat, b: nat, n: nat, m: nat)
    requires b <= start + 1 && m in Pool(nums, start, b, n)
    ensures SameBits(m, n, b, start)
  {
    PoolHas(nums, start, b, n, m);
  }

  /** The pool depends only on the bits of `n` that have been examined. */
  lemma {:induction false} PoolSame(nums: seq<nat>, start: nat, b: nat, n: nat, n': nat)
    requires b <= start + 1 && SameBits(n, n', b, start)
    decreases start + 1 - b
    ensures Pool(nums, start, b, n) == Pool(nums, start, b, n')
  {
    if b <= start {
      PoolSame(nums, start, b + 1, n, n');
    }
  }

  /** At bit `b`, `n` has the value the filter keeps among the numbers still in play. */
  ghost predicate FollowsAt(nums: seq<nat>, start: nat, invert: bool, n: nat, b: nat)
    requires b <= start
  {
    Bit(n, b) == FilterValue(Pool(nums, start, b + 1, n), b, invert)
  }

  /** More than one number is left once bit `b` has been filtered. */
  ghost predicate OpenAt(nums: seq<nat>, start: nat, n: nat, b: nat)
    requires b <= start + 1
  {
    |Pool(nums, start, b, n)| != 1
  }

  /** The filter started at `start` ends on `n`, at bit `stop`: at every bit
      from `start` down to `stop`, `n` has the value the filter keeps among
      the numbers still in play; more than one number is left after every
      bit above `stop`, and only `n` after `stop`. */
  ghost predicate FilterPath(nums: seq<nat>, start: nat, invert: bool, n: nat, stop: nat)
  {
    && stop <= start
    && (forall b :: stop <= b <= start ==> FollowsAt(nums, start, invert, n, b))
    && |Pool(nums, start, stop, n)| == 1
    && (forall b :: stop < b <= start ==> OpenAt(nums, start, n, b))
  }

  /** `n` is the rating that the filter started at bit `start` singles out. */
  ghost predicate Rating(nums: seq<nat>, start: nat, invert: bool, n: nat)
  {
    n in nums && EndsPath(nums, start, invert, n)
  }

  /** Some filter path started at `start` ends on `n`. */
  ghost predicate EndsPath(nums: seq<nat>, start: nat, invert: bool, n: nat)
  {
    exists stop: nat :: FilterPath(nums, start, invert, n, stop)
  }

  /** Two numbers at the ends of filter paths agree on every bit both paths examined. */
  lemma {:induction false} PathsAgree(nums: seq<nat>, start: nat, invert: bool, n: nat, n': nat, s: nat, s': nat, b: nat)
    requires FilterPath(nums, start, invert, n, s) && FilterPath(nums, start, invert, n', s')
    requires s <= b && s' <= b && b <= start + 1
    decreases start + 1 - b
    ensures SameBits(n, n', b, start)
  {
    if b <= start {
      PathsAgree(nums, start, invert, n, n', s, s', b + 1);
      FollowsOnPath(nums, start, invert, n, s, b);
      FollowsOnPath(nums, start, invert, n', s', b);
      AgreeStep(nums, start, invert, n, n', b);
    }
  }

  /** Numbers that agree above `b` and both follow the filter at `b` agree from `b` up. */
  lemma AgreeStep(nums: seq<nat>, start: nat, invert: bool, n: nat, n': nat, b: nat)
    requires b <= start && SameBits(n, n', b + 1, start)
    requires Bit(n, b) == FilterValue(Pool(nums, start, b + 1, n), b, invert)
    requires Bit(n', b) == FilterValue(Pool(nums, start, b + 1, n'), b, invert)
    ensures SameBits(n, n', b, start)
  {
    PoolSame(nums, start, b + 1, n, n');
    SameBitsStep(n, n', b, start);
  }

  /** On a filter path, the end follows the filter at every bit examined. */
  lemma FollowsOnPath(nums: seq<nat>, start: nat, invert: bool, n: nat, s: nat, b: nat)
    requires FilterPath(nums, start, invert, n, s) && s <= b <= start
    ensures Bit(n, b) == FilterValue(Pool(nums, start, b + 1, n), b, invert)
  {
    assert FollowsAt(nums, start, invert, n, b);
  }

  /** Above its stop, a filter path leaves more than one number in play. */
  lemma {:induction false} PathOpen(nums: seq<nat>, start: nat, invert: bool, n: nat, s: nat, b: nat)
    requires FilterPath(nums, start, invert, n, s) && s < b <= start
    ensures |Pool(nums, start, b, n)| != 1
  {
    assert OpenAt(nums, start, n, b);
  }

  /** Of two filter paths whose ends agree from `s'` up, the one stopping at
      `s'` does not stop below `s'` either. */
  lemma {:induction false} StopNotBelow(nums: seq<nat>, start: nat, invert: bool, n: nat, n': nat, s: nat, s': nat)
    requires FilterPath(nums, start, invert, n, s) && FilterPath(nums, start, invert, n', s')
    requires SameBits(n, n', s', start)
    ensures s' <= s
  {
    PoolSame(nums, start, s', n, n');
    if s < s' {
      PathOpen(nums, start, invert, n, s, s');
      assert false;
    }
  }

  /** A filter singles out one rating at most. */
  lemma {:induction false} RatingUnique(nums: seq<nat>, start: nat, invert: bool, n: nat, n': nat)
    requires Rating(nums, start, invert, n) && Rating(nums, start, invert, n')
    ensures n == n'
  {
    var s: nat :| FilterPath(nums, start, invert, n, s);
    var s': nat :| FilterPath(nums, start, invert, n', s');
    if s <= s' {
      PathsAgree(nums, start, invert, n, n', s, s', s');
      StopNotBelow(nums, start, invert, n, n', s, s');
    } else {
      PathsAgree(nums, start, invert, n', n, s', s, s);
      StopNotBelow(nums, start, invert, n', n, s', s);
    }
    PathsAgree(nums, start, invert, n, n', s, s', s);
    PoolHas(nums, start, s, n, n);
    PoolHas(nums, start, s, n, n');
    var pool := Pool(nums, start, s, n);
    assert pool == [pool[0]];
  }

  /** Numbers that agree from bit `c` up take the same step of the filter at `c`. */
  lemma {:induction false} StepTransfers(nums: seq<nat>, start: nat, invert: bool, c: nat, p: nat, r: nat)
    requires c <= start && SameBits(r, p, c, start)
    requires FollowsAt(nums, start, invert, p, c) && OpenAt(nums, start, p, c)
    ensures FollowsAt(nums, start, invert, r, c) && OpenAt(nums, start, r, c)
  {
    PoolSame(nums, start, c, r, p);
    PoolSame(nums, start, c + 1, r, p);
  }

  /** Any number left in the pool of `p` after bit `b + 1` has followed the
      same path as `p` down to there. */
  lemma {:induction false} SamePath(nums: seq<nat>, start: nat, invert: bool, b: nat, p: nat, r: nat)
    requires b <= start && SameBits(r, p, b + 1, start)
    requires forall c :: b < c <= start ==> FollowsAt(nums, start, invert, p, c) && OpenAt(nums, start, p, c)
    ensures forall c :: b < c <= start ==> FollowsAt(nums, start, invert, r, c) && OpenAt(nums, start, r, c)
  {
    forall c | b < c <= start
      ensures FollowsAt(nums, start, invert, r, c) && OpenAt(nums, start, r, c)
    {
      StepTransfers(nums, start, invert, c, p, r);
    }
  }

  /** A number left in the pool of `p` with the value the filter keeps at
      bit `b` follows the filter at `b`, and its next pool is what the filter
      keeps there. */
  lemma {:induction false} NextPool(nums: seq<nat>, start: nat, invert: bool, b: nat, p: nat, r: nat)
    requires b <= start && SameBits(r, p, b + 1, start)
    requires Bit(r, b) == FilterValue(Pool(nums, start, b + 1, p), b, invert)
    ensures FollowsAt(nums, start, invert, r, b)
    ensures Pool(nums, start, b, r) == Keep(Pool(nums, start, b + 1, p), b, Bit(r, b))
  {
    PoolSame(nums, start, b + 1, r, p);
  }

  /** A number that has followed the filter down to bit `b`, where one
      number is left, ends a filter path. */
  lemma {:induction false} PathEnds(nums: seq<nat>, start: nat, invert: bool, b: nat, r: nat)
    requires b <= start && FollowsAt(nums, start, invert, r, b) && |Pool(nums, start, b, r)| == 1
    requires forall c :: b < c <= start ==> FollowsAt(nums, start, invert, r, c) && OpenAt(nums, start, r, c)
    ensures EndsPath(nums, start, invert, r)
  {
    assert FilterPath(nums, start, invert, r, b);
  }

  /** One call of `majority_filter`: the single survivor, or the filter
      continued on what is kept, from the next lower bit. */
  lemma FilterUnfold(pool: seq<nat>, b: nat, invert: bool)
    requires b < 32 && Settles(pool, b, invert)
    ensures var f := Keep(pool, b, FilterValue(pool, b, invert));
      if |f| == 1 then MajorityFilter(pool, b, invert) == f[0]
      else b > 0 && Settles(f, b - 1, invert) && MajorityFilter(pool, b, invert) == MajorityFilter(f, b - 1, invert)
  {
    var f := Keep(pool, b, FilterValue(pool, b, invert));
    if |f| != 1 {
      SettlesStep(pool, b, invert);
    }
  }

  /** A number that follows the filter at bit `b` without settling there,
      and has followed it above `b`, has followed it from `b` up. */
  lemma {:induction false} PathExtends(nums: seq<nat>, start: nat, invert: bool, b: nat, r: nat)
    requires b <= start && FollowsAt(nums, start, invert, r, b) && OpenAt(nums, start, r, b)
    requires forall c :: b < c <= start ==> FollowsAt(nums, start, invert, r, c) && OpenAt(nums, start, r, c)
    ensures forall c :: b <= c <= start ==> FollowsAt(nums, start, invert, r, c) && OpenAt(nums, start, r, c)
  {
  }

  /** `majority_filter` run on the pool of `p` at bit `b`, where `p` has
      followed the filter from `start` down to `b + 1` without settling,
      ends at the end of a filter path. */
  lemma {:induction false} FilterFollowsPath(nums: seq<nat>, start: nat, invert: bool, b: nat, p: nat)
    requires b <= start < 32 && Settles(Pool(nums, start, b + 1, p), b, invert)
    requires forall c :: b < c <= start ==> FollowsAt(nums, start, invert, p, c) && OpenAt(nums, start, p, c)
    decreases b
    ensures EndsPath(nums, start, invert, MajorityFilter(Pool(nums, start, b + 1, p), b, invert))
  {
    var pool := Pool(nums, start, b + 1, p);
    var f := Keep(pool, b, FilterValue(pool, b, invert));
    var r := MajorityFilter(pool, b, invert);
    PoolAgrees(nums, start, b + 1, p, r);
    SamePath(nums, start, invert, b, p, r);
    NextPool(nums, start, invert, b, p, r);
    FilterUnfold(pool, b, invert);
    if |f| == 1 {
      PathEnds(nums, start, invert, b, r);
    } else {
      PathExtends(nums, start, invert, b, r);
      FilterFollowsPath(nums, start, invert, b - 1, r);
    }
  }

  /** `majority_filter` returns the rating its filter singles out. */
  lemma {:induction false} FilterRating(nums: seq<nat>, start: nat, invert: bool)
    requires start < 32 && Settles(nums, start, invert)
    ensures Rating(nums, start, invert, MajorityFilter(nums, start, invert))
  {
    FilterFollowsPath(nums, start, invert, start, 0);
  }

  /** `part2`: the product of the oxygen rating (majority filter) and the CO2
      rating (inverted filter), both started at the top bit of the report. */
  function Part2(data: BitMatrix): (r: int)
    requires 1 <= data.width <= 32
    requires Settles(data.nums, data.width - 1, false) && Settles(data.nums, data.width - 1, true)
    ensures exists o2: nat, co2: nat ::
              Rating(data.nums, data.width - 1, false, o2) && Rating(data.nums, data.width - 1, true, co2) && r == o2 * co2
  {
    var o2 := MajorityFilter(data.nums, data.width - 1, false);
    var co2 := MajorityFilter(data.nums, data.width - 1, true);
    FilterRating(data.nums, data.width - 1, false);
    FilterRating(data.nums, data.width - 1, true);
    o2 * co2
  }

  /** The result of `part2` is the product of the two ratings, whichever way
      they are found. */
  lemma {:induction false} Part2Ratings(data: BitMatrix, o2: nat, co2: nat)
    requires 1 <= data.width <= 32
    requires Settles(data.nums, data.width - 1, false) && Settles(data.nums, data.width - 1, true)
    requires Rating(data.nums, data.width - 1, false, o2) && Rating(data.nums, data.width - 1, true, co2)
    ensures Part2(data) == o2 * co2
  {
    FilterRating(data.nums, data.width - 1, false);
    FilterRating(data.nums, data.width - 1, true);
    RatingUnique(data.nums, data.width - 1, false, o2, MajorityFilter(data.nums, data.width - 1, false));
    RatingUnique(data.nums, data.width - 1, true, co2, MajorityFilter(data.nums, data.width - 1, true));
  }
}
