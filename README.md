# Advent of Code 2021, days 1 to 5, in Dafny

This project models the solutions of days 1 to 5 of Advent of Code 2021 in
the repository `aoc-2021` (files `src/day1.rs` to `src/day5.rs`). Each day
is a parser, the "generator", that turns the puzzle input into data, plus a
`part1` and a `part2` that compute an answer from that data. The model
follows each day's own form:

- **Day 1, depth readings.** Pure functions: counting increases across
  windows of readings.
- **Day 2, submarine commands.** `part1` and `part2` are loops over the
  commands. Each is proved against a fold over the command list.
- **Day 3, binary diagnostic.** `parse_report`, `majority` and `part1` are
  loops. They are proved against bit-counting functions. `majority_filter`
  is a recursive function.
- **Day 4, bingo.**
  - A `Board` class owns a 5 by 5 `array2<bool>` of marks, with the methods
    `Mark` and `Score`.
  - The boards are parsed by loops over the input lines.
  - `part1` and `part2` play the draws on fresh boards.
  - Both parts are proved against a declarative account of when each board
    first has a complete row or column.
- **Day 5, hydrothermal vents.**
  - A `LineIterator` class yields the points of a segment.
  - The two counting parts tally points in a map. They are proved equal to
    the number of points where two segments overlap.
  - The pairwise intersector is modelled both as written and corrected (see
    "Findings").

`text.dfy` models the parts of Rust's `str` API that the parsers use:
`lines`, `split_once`, `split`, `split_whitespace`, `parse::<u32>` and
`u32::from_str_radix`. A parse that fails where the source calls `unwrap`,
and an `unreachable!()` that is reached, both give `None`. Each parser is
paired with a rendering function, and a lemma proves that parsing the
rendered text gives the data back. `parse_report` of day 3 is a loop, so its
round trip is stated through the contract of `ParseReport`: `ReportText`
shows that the rendered text reads as the report, and `ReadsAsUnique` that a
text reads as one report at most.

## Model

| member | source | states |
|---|---|---|
| Text.SplitOnce | src/day2.rs:17 | `Some` exactly when the separator occurs; the text is the part before, the separator and the part after, and the part before holds no earlier occurrence |
| Text.SplitOnceJoin | src/day5.rs:130 | splitting `a + sep + b` at `sep` gives `(a, b)` when `a` does not contain the first character of `sep` |
| Text.SplitOnceNone | src/day5.rs:130 | `split_once` gives `None` exactly when the separator occurs nowhere in the text |
| Text.SplitOnceBefore | src/day5.rs:14 | split at a one-character separator, the part before holds no such character |
| Text.Lines | src/day1.rs:3 | no line of `lines` contains a line feed |
| Text.LinesCRLF | src/day1.rs:3 | a "\r\n" ending ends the line and drops both characters; the rest is split on its own |
| Text.LinesLoneCR | src/day1.rs:3 | a final carriage return not followed by a line feed stays part of the line |
| Text.LinesOfJoin | src/day1.rs:3 | `lines` undoes joining plain lines with line feeds |
| Text.Split | src/day4.rs:45 | `split(',')` yields at least one piece, no piece contains the separator, and the pieces rejoined with it give the text back |
| Text.SplitJoin | src/day4.rs:45 | splitting undoes joining pieces free of the separator |
| Text.SplitStep | src/day4.rs:45 | splitting at the first separator gives the piece before it, then the pieces of the rest |
| Text.WordEndAt | src/day4.rs:55 | a run of non-space characters ends at the first whitespace character or at the end of the text |
| Text.WordsJoin | src/day4.rs:55 | `split_whitespace` undoes joining non-empty, space-free words with single spaces |
| Text.Words | src/day4.rs:55 | (definition, no contract) the maximal runs of non-whitespace characters, in order |
| Text.ParseRadix | src/day3.rs:16 | a parsed `u32` is below 2^32 (the value read is stated by Text.ParseRadixDigits) |
| Text.ParseRadixAccepts | src/day3.rs:16 | a successful parse reads at least one digit of the base after an optional `+`, and nothing else |
| Text.ParseRadixDigits | src/day3.rs:16 | a non-empty string of digits of the base, with or without a leading `+` and with any leading zeros, parses to the number it denotes when that is below 2^32, and fails otherwise |
| Text.Format | src/day1.rs:3 | the digits of a number are non-empty, all digits of the base, and denote that number |
| Text.ParseFormat | src/day1.rs:3 | parsing the digits of any `u32` gives it back |
| Text.BinaryBound | src/day3.rs:16 | a number written with `w` binary digits is below 2^w |
| Text.ParseAll | src/day4.rs:46 | every piece parsed, in order, or `None` exactly when some piece does not parse |
| Text.ParseAllOf | src/day4.rs:46 | pieces that parse one by one to `nums` parse together to `nums` |
| Text.ParseAllSnoc | src/day4.rs:56 | parsing one more piece appends its number |
| Text.ParseAllPrefix | src/day4.rs:56 | the same step on a prefix of the pieces |
| Text.ParseAllFails | src/day4.rs:56 | one piece that does not parse makes the whole `unwrap` chain fail |
| Text.ParseFormatAll | src/day4.rs:46 | parsing the decimal texts of `u32`s gives the numbers back |
| Day1.ParseNums | src/day1.rs:2-4 | one number per input line in order, or `None` exactly when some line does not parse |
| Day1.ParseRender | src/day1.rs:2-4 | parsing the text of a report of `u32`s gives the report back |
| Day1.IncreasingWindowSum | src/day1.rs:6-8 | the count is at most the number of windows of `size + 1` readings |
| Day1.IncreasesOfPrefix | src/day1.rs:6-8 | dropping the last reading loses exactly the increase that ends at it |
| Day1.WindowSumCounts | src/day1.rs:6-8 | the count equals the number of indices `i` with `nums[i] < nums[i + size]` |
| Day1.Part1 | src/day1.rs:11-13 | the number of readings larger than the one before, which is below the number of readings |
| Day1.WindowSums | src/day1.rs:16-18 | one sum per three consecutive readings, each the sum of those three |
| Day1.ThreeApartIsSlidingSum | src/day1.rs:16-18 | comparing readings three apart counts the same increases as comparing consecutive three-reading sums |
| Day1.Part2 | src/day1.rs:16-18 | the number of increases of the sliding three-reading sum, equal to the number of readings larger than the one three before |
| Day2.DirectionOf | src/day2.rs:19-24 | a direction exactly for `forward`, `down` and `up`, and it is the one whose word was read |
| Day2.ParseCommand | src/day2.rs:17-26 | a parsed command is the text of its direction, a space and the decimal text of its distance, which is below 2^32 |
| Day2.ParseEach | src/day2.rs:16-27 | every line parsed in order, or `None` exactly when some line does not parse |
| Day2.ParseCommandOf | src/day2.rs:17-26 | a command word, one space and any text the decimal `u32` parser accepts (leading zeros, a leading '+') parse to that command; when the parser rejects the text the line fails |
| Day2.ParseCommands | src/day2.rs:13-29 | one command per input line in order, or `None` exactly when some line does not parse |
| Day2.ParseShow | src/day2.rs:17-26 | parsing the text of a command gives it back |
| Day2.ParseShowAll | src/day2.rs:13-29 | parsing the text of a list of commands gives the list back |
| Day2.Total | src/day2.rs:35-42 | (definition, no contract) the sum of the distances of the commands in one direction |
| Day2.Part1 | src/day2.rs:32-44 | the forward total times the down total minus the up total |
| Day2.TotalAppend | src/day2.rs:35-42 | the total of a concatenation is the sum of the totals |
| Day2.TotalIsOrderFree | src/day2.rs:35-42 | commands with the same multiset have the same totals |
| Day2.Part1IsOrderFree | src/day2.rs:32-44 | the result of `part1` does not depend on the order of the commands |
| Day2.Steer | src/day2.rs:51-60 | (definition, no contract) the position, depth and aim after the commands under the rules of `part2` |
| Day2.Part2 | src/day2.rs:47-63 | the product of the position and depth reached under the aim rules |
| Day2.SteerMatchesTotals | src/day2.rs:47-63 | under the aim rules the position is the forward total, and the aim is the down total minus the up total (the depth of `part1`) |
| Day2.SteerDepth | src/day2.rs:54-57 | the depth adds, for every forward command, its distance times the aim just before it |
| Day2.LevelCourse | src/day2.rs:53-60 | with only forward commands the aim and the depth stay 0 |
| Day3.ParseReport | src/day3.rs:7-20 | `Some` exactly when every line parses as binary; then the report reads as the text says: the numbers in line order, and the width is the length of the longest line (0 for no lines) |
| Day3.ReadsAsUnique | src/day3.rs:7-20 | a text reads as one report at most, so the contract of `ParseReport` pins its result down |
| Day3.Binary | src/day3.rs:16 | `w` binary digits whose value is `n` |
| Day3.ReportText | src/day3.rs:7-20 | the text of a report of `u32`s, each written with `w` binary digits, parses line by line and reads as that report, so `ParseReport` gives it back |
| Day3.ReportFits | src/day3.rs:8-16 | every number of a parsed report is below 2^width |
| Day3.Bit | src/day3.rs:30 | `(n >> bit) & 1` is 0 or 1 |
| Day3.OrPower | src/day3.rs:69 | or-ing `1 << i` into gamma adds 2^i when gamma is below 2^i |
| Day3.ComplementBits | src/day3.rs:72 | the bits of 2^w - 1 - g below `w` are the complements of those of `g` |
| Day3.MaskedComplement | src/day3.rs:72 | masking a 32-bit complement to the low `w` bits gives 2^w - 1 - g |
| Day3.ComplementDisjoint | src/day3.rs:72 | a number and its complement within `w` bits share no set bit |
| Day3.Ones | src/day3.rs:29-33 | the number of set bits counted is at most the number of numbers |
| Day3.MajorityOf | src/day3.rs:28-39 | (definition, no contract) `One`, `Zero` or `Tie` by comparing the set and clear counts of the bit |
| Day3.FindMajority | src/day3.rs:28-39 | `One` exactly when more numbers have the bit set than clear, `Zero` exactly when fewer, `Tie` otherwise |
| Day3.Gamma | src/day3.rs:66-71 | gamma over `w` positions is below 2^w |
| Day3.GammaFits | src/day3.rs:66-71 | with at most 32 positions gamma fits in a `u32` |
| Day3.Epsilon | src/day3.rs:72 | (definition, no contract) `!gamma & ((1 << width) - 1)` on 32 bits |
| Day3.Part1 | src/day3.rs:65-74 | gamma times epsilon, where gamma fits in a `u32` |
| Day3.GammaBits | src/day3.rs:67-71 | bit `i` of gamma is set exactly when the majority of bit `i` is `One` (a tie leaves it clear) |
| Day3.EpsilonComplementsGamma | src/day3.rs:72 | epsilon is 2^width - 1 - gamma, shares no bit with gamma, and has bit `i` set exactly when the majority of bit `i` is not `One` |
| Day3.FilterValue | src/day3.rs:42-49 | the value kept is a single bit |
| Day3.Keep | src/day3.rs:51-55 | the kept numbers are the ones with that bit value, as many as there are |
| Day3.KeepSub | src/day3.rs:51-55 | the kept numbers are drawn from the input, each at most as often as it occurs there |
| Day3.KeepAppend | src/day3.rs:51-55 | filtering keeps the order of the numbers (it distributes over concatenation) |
| Day3.KeepMember | src/day3.rs:51-55 | a kept number is an input number with the chosen bit value |
| Day3.KeptShare | src/day3.rs:42-55 | the oxygen filter keeps at least half of the numbers, the CO2 filter at most half |
| Day3.Settles | src/day3.rs:57-61 | (definition, no contract) the filter reaches a single number before it would go below bit 0 |
| Day3.MajorityFilter | src/day3.rs:41-62 | the rating is one of the input numbers and has the kept value at the starting bit |
| Day3.FilterUnfold | src/day3.rs:57-61 | one call returns the single survivor, or continues on the kept numbers at the next lower bit, where the filter still settles |
| Day3.SettlesStep | src/day3.rs:57-61 | a filter that has not settled goes on below a bit greater than 0 and settles there |
| Day3.KeepNarrows | src/day3.rs:51-61 | distinct numbers that agree above `bit` stay distinct and agree above `bit - 1` after filtering; at bit 0 at most one is left |
| Day3.KeepDistinct | src/day3.rs:51-55 | filtering distinct numbers leaves them distinct |
| Day3.KeepAgrees | src/day3.rs:51-55 | numbers that agree above `bit` and share bit `bit` agree from `bit` up |
| Day3.OxygenSettles | src/day3.rs:41-62 | on distinct numbers that agree above the starting bit, the oxygen filter always ends with one number |
| Day3.FitsAgree | src/day3.rs:41-62 | numbers below 2^(bit+1) agree on every bit above `bit` |
| Day3.ReportOxygenSettles | src/day3.rs:77-78 | on a parsed report of distinct numbers, the oxygen filter started at the top bit always ends with one number |
| Day3.KeepIncludes | src/day3.rs:51-55 | every input number with the chosen bit value is kept |
| Day3.PoolHas | src/day3.rs:51-60 | after filtering from the top bit down to bit `b` along the values of `n`, exactly the input numbers that agree with `n` from `b` up remain |
| Day3.PathsAgree | src/day3.rs:42-60 | two numbers at the ends of filter runs agree on every bit both runs examined |
| Day3.RatingUnique | src/day3.rs:41-62 | a filter singles out one rating at most: the number that follows the kept value at every bit until it alone remains |
| Day3.FilterFollowsPath | src/day3.rs:41-62 | `majority_filter` continued from any point of a filter run ends at the end of that run |
| Day3.FilterRating | src/day3.rs:41-62 | `majority_filter` returns the rating its filter singles out |
| Day3.Part2 | src/day3.rs:77-81 | the product of the oxygen rating and the CO2 rating, each the unique number singled out by its filter from the top bit |
| Day3.Part2Ratings | src/day3.rs:77-81 | whatever numbers meet the two ratings, `part2` is their product |
| Day4.BoardRows | src/day4.rs:51-61 | a board has five row lines |
| Day4.CollectAll | src/day4.rs:51-61 | the rows are collected exactly when all of them parse, and then in order |
| Day4.BoardOfSnoc | src/day4.rs:51-61 | a board built from one more row is the old board with that row entered |
| Day4.Place | src/day4.rs:57-60 | (definition, no contract) the numbers of row `i` entered at (i, column), a later duplicate overwriting |
| Day4.PlaceCells | src/day4.rs:58-60 | entering a row adds its numbers at their columns in that row and keeps every other number's cell |
| Day4.BoardCells | src/day4.rs:50-61 | every number of the grid is on the board, and each number's cell holds that number in the grid |
| Day4.BoardShape | src/day4.rs:51-61 | a board of at most five rows of at most five numbers fits the mark array, with no two numbers in one cell |
| Day4.BoardPositions | src/day4.rs:58-60 | on a grid without repeated numbers every number maps to its own cell |
| Day4.EnterRow | src/day4.rs:55-60 | `None` exactly when a word of the row does not parse; otherwise the row entered into the board |
| Day4.RowSpoilsBoard | src/day4.rs:54-56 | a row line that does not parse spoils its board |
| Day4.BoardAt | src/day4.rs:50-65 | (definition, no contract) the board of the five lines after line `pos`, or `None` when one fails |
| Day4.BoardsFrom | src/day4.rs:48-66 | (definition, no contract) the boards read while the next line is empty |
| Day4.BingoOf | src/day4.rs:40-68 | (definition, no contract) the draws of the first line, then the boards |
| Day4.ReadBoard | src/day4.rs:50-65 | the board whose five rows follow the empty line |
| Day4.ReadBoards | src/day4.rs:48-66 | a board for every empty line that follows the draws and the boards before it |
| Day4.BoardsFromFails | src/day4.rs:52-56 | a board that does not parse spoils the whole game |
| Day4.BoardsFromEnd | src/day4.rs:49 | the loop ends at the first line that is not empty, or at the end of the input |
| Day4.ReadBoardsStep | src/day4.rs:49-65 | a parsed board is pushed and reading goes on six lines further |
| Day4.ParseBingo | src/day4.rs:40-68 | the draws of the first line, then the boards |
| Day4.RowText | src/day4.rs:55-56 | a row written with single spaces parses back to the row |
| Day4.BoardText | src/day4.rs:50-65 | a written board, after its empty line, parses to its cells |
| Day4.RowsText | src/day4.rs:51-61 | the written rows parse back to the rows of the grid |
| Day4.BoardsText | src/day4.rs:48-66 | written boards parse back to their boards |
| Day4.DrawText | src/day4.rs:42-47 | the draws written with commas parse back to the draws |
| Day4.ParseRender | src/day4.rs:40-68 | parsing the text of a game gives the game back |
| Day4.LineThrough | src/day4.rs:19-21 | on a board without a complete line, marking a cell completes a line exactly when it completes that cell's row or column |
| Day4.MarkWins | src/day4.rs:16-26 | a board that has not won wins on a draw exactly when the drawn number is on it and its row or column is then complete |
| Day4.NothingWonAtStart | src/day4.rs:64 | unmarked boards have no complete line |
| Day4.WonByMonotone | src/day4.rs:16-26 | once a board has won it stays won |
| Day4.SumOfPick | src/day4.rs:28-36 | the sum does not depend on the order in which the numbers are taken |
| Day4.UnmarkedUndrawn | src/day4.rs:28-36 | the unmarked numbers of a board are its numbers that have not been drawn |
| Day4.FullBoardScoresZero | src/day4.rs:28-36 | a board whose numbers have all been drawn scores 0 |
| Day4.ScoreNeverRises | src/day4.rs:28-36 | the unmarked sum never grows as more numbers are drawn |
| Day4.Board.constructor | src/day4.rs:62-65 | a new board has its cells and no marked cell |
| Day4.Board.Mark | src/day4.rs:16-26 | marks the cell of the number (and no other), and returns true exactly when that cell's row or column is complete |
| Day4.Board.Score | src/day4.rs:28-36 | the sum of the numbers whose cells are not marked |
| Day4.NewBoards | src/day4.rs:72 | a fresh, unmarked, separate board for every parsed board |
| Day4.Turn | src/day4.rs:73-78 | a board that has not won takes the next draw, and the result says whether it has now won |
| Day4.FirstWin | src/day4.rs:71-80 | (definition, no contract) board `t` wins on draw `k`, and no board wins earlier in draw-then-board order |
| Day4.FirstWinUnique | src/day4.rs:73-78 | the first win, in draw order and then board order, is unique |
| Day4.Part1 | src/day4.rs:71-81 | `None` exactly when no board ever wins; otherwise the draw times the unmarked sum of the first board to win |
| Day4.WinsOnce | src/day4.rs:87-94 | a board wins on one draw at most |
| Day4.ScoreSkip | src/day4.rs:89-94 | boards that do not win on a draw leave the score unchanged |
| Day4.ScoreStep | src/day4.rs:90-91 | a board that wins on the draw replaces the score with its own |
| Day4.FinalScore | src/day4.rs:84-100 | (definition, no contract) the score after the first `k` draws: that of the last board to win so far, 0 while none has |
| Day4.FinalScoreSkip | src/day4.rs:87-99 | draws on which no board wins leave the score unchanged |
| Day4.NoWinScoresZero | src/day4.rs:86-100 | when no board ever wins, `part2` gives 0 |
| Day4.LastWinScores | src/day4.rs:84-101 | `part2` gives the score of the last board to win |
| Day4.WithoutNone | src/day4.rs:96-98 | removing no index in range keeps the boards as they are |
| Day4.WithoutRemove | src/day4.rs:96-98 | removing an index below all removed ones takes out the element at that same index, which is why removal goes from the highest index down |
| Day4.WithoutFrom | src/day4.rs:96-98 | every remaining board was at an index that was not removed |
| Day4.WithoutHas | src/day4.rs:96-98 | every board at an index that was not removed remains |
| Day4.WithoutBelow | src/day4.rs:96-98 | removal keeps a bound on the game indices of the boards |
| Day4.WithoutAscending | src/day4.rs:96-98 | removal keeps the boards in game order |
| Day4.Live | src/day4.rs:87-89 | the boards still in play are separate and none of them has won |
| Day4.WonBetween | src/day4.rs:89-94 | the boards between two boards still in play have already won, so they do not win on this draw |
| Day4.SkipWon | src/day4.rs:89-94 | the scan of a draw can go straight from one board in play to the next without changing the score |
| Day4.AfterRemoval | src/day4.rs:95-98 | after the winners are removed, the rest are exactly the boards that have not won, still marked and in order |
| Day4.PlayBoard | src/day4.rs:89-93 | a board in play takes the draw; if it wins, its score becomes the score |
| Day4.RemoveAt | src/day4.rs:95-98 | removing increasing indices from the highest down leaves exactly the elements at the other indices, in order |
| Day4.PlayDraw | src/day4.rs:88-94 | every board in play takes the draw; the winners' indices are collected in increasing order, and the score is that of the last winner |
| Day4.PlayNext | src/day4.rs:89-93 | one more board in play takes the draw, and its index is collected when it wins |
| Day4.Round | src/day4.rs:87-99 | after a draw the boards in play are those that have not won, and the score is that of the last board to win on it |
| Day4.Part2 | src/day4.rs:84-101 | the score of the last board to win (0 when none wins) |
| Day4.StartGame | src/day4.rs:85 | before the first draw every board is in play and unmarked |
| Day5.Classify | src/day5.rs:136-142 | vertical exactly when the x coordinates are equal (tested first, so a single point is vertical), horizontal exactly when only the y coordinates are equal, diagonal otherwise |
| Day5.Toward | src/day5.rs:113-117 | the signum step moves a coordinate one unit closer to the end, or keeps it at the end |
| Day5.StepCloser | src/day5.rs:110-118 | every step before the end brings the point one step closer |
| Day5.Trace | src/day5.rs:106-122 | the walk starts at the start point and has one point per step plus one |
| Day5.TraceAt | src/day5.rs:113-117 | the `i`-th point has each coordinate moved `i` units towards the end, or at the end |
| Day5.TraceDist | src/day5.rs:106-122 | the `i`-th point is `i` steps closer to the end |
| Day5.TraceNext | src/day5.rs:113-117 | each point is the signum step from the one before it |
| Day5.TraceEnd | src/day5.rs:110-111 | the walk reaches the end point at its last point and only there |
| Day5.TraceDistinct | src/day5.rs:106-122 | no point is yielded twice |
| Day5.TraceBox | src/day5.rs:106-122 | every point lies in the box spanned by the two ends |
| Day5.StraightCells | src/day5.rs:153-154 | a horizontal or vertical segment yields exactly the points of its box |
| Day5.ClassifyTrace | src/day5.rs:136-142 | vertical exactly when every point keeps x; horizontal exactly when every point keeps y and some changes x; diagonal exactly when both change |
| Day5.ParsePoint | src/day5.rs:13-19 | a parsed point is the text before the first comma and the text after it, each read as a decimal `u32`; a text without a comma fails |
| Day5.ParsePointOf | src/day5.rs:13-19 | a text with a comma is a point exactly when both sides of its first comma parse, and then it is the point of those numbers |
| Day5.ParseLine | src/day5.rs:130-143 | a parsed segment is the point before the first " -> " and the point after it, classified as `parse_lines` does it; a line without " -> " fails |
| Day5.ParseLineOf | src/day5.rs:130-143 | "a -> b" with no space in `a` is a segment exactly when both `a` and `b` are points, and then it is the classified segment between them |
| Day5.ParseEach | src/day5.rs:129-145 | every line parsed in order, or `None` exactly when some line does not parse |
| Day5.ParseLines | src/day5.rs:126-146 | one segment per input line in order, or `None` exactly when some line does not parse |
| Day5.ParseShowPoint | src/day5.rs:13-19 | parsing the text of a point gives it back |
| Day5.ParseShowLine | src/day5.rs:130-143 | parsing the text of a classified segment gives it back |
| Day5.ShowLineSplits | src/day5.rs:130 | the text of a segment splits at the arrow into the texts of its two points |
| Day5.ParseShowAll | src/day5.rs:126-146 | parsing the text of a list of segments gives the list back |
| Day5.LineIterator.constructor | src/day5.rs:89-95 | a new iterator for the segment, which has yielded nothing |
| Day5.LineIterator.Next | src/day5.rs:106-122 | yields the start first, then each next point of the walk, then `None` after the end point, then starts over |
| Day5.TallyCounts | src/day5.rs:155-156 | the tally holds exactly the visited points, each with its number of visits |
| Day5.TwiceBump | src/day5.rs:155-159 | `total` goes up exactly when a count goes from 1 to 2 |
| Day5.PointsCount | src/day5.rs:181-189 | a point is visited once for each segment that covers it |
| Day5.CoveringOnce | src/day5.rs:181-189 | a point is covered exactly when some segment taking part has it |
| Day5.CoveringTwice | src/day5.rs:181-189 | a point is covered twice or more exactly when two different segments have it |
| Day5.Overlaps | src/day5.rs:149-191 | (definition, no contract) the points covered by at least two segments that take part |
| Day5.TallyOverlaps | src/day5.rs:178-191 | the points the tally has seen at least twice are the points where two segments overlap |
| Day5.Visit | src/day5.rs:155-159 | one visit bumps the point's count, and `total` stays the number of points seen at least twice |
| Day5.Walk | src/day5.rs:154-160 | every point of the segment visited once more, with `total` kept |
| Day5.PointsSnoc | src/day5.rs:152-162 | the points of one more segment, when it takes part |
| Day5.Part1Iterate | src/day5.rs:149-164 | the number of points where two horizontal or vertical segments overlap |
| Day5.Part2 | src/day5.rs:178-191 | the number of points where two segments, diagonals included, overlap |
| Day5.Intersection | src/day5.rs:44-49 | a number is in the intersection exactly when it is in both ranges |
| Day5.Crossing | src/day5.rs:53-83 | (definition, no contract) `Line::intersect` as written; its cases are stated by Day5.CrossingCases |
| Day5.CrossingCases | src/day5.rs:53-83 | two horizontal segments on one row add the x values inside both ranges as written, two vertical ones the same on one column; a horizontal and a vertical one add the crossing of their lines, unchecked; a diagonal on either side adds nothing |
| Day5.CrossingAscending | src/day5.rs:53-83 | for segments drawn from smaller to larger coordinates, `intersect` as written adds every shared point, and adds nothing else for two segments of the same direction |
| Day5.CrossingOffSegments | src/day5.rs:69-80 | `intersect` as written adds a point that lies on neither segment |
| Day5.CrossingReversed | src/day5.rs:55-68 | `intersect` as written misses shared points of a segment drawn from right to left |
| Day5.Span | src/day5.rs:55-68 | the range between two coordinates, whichever is larger |
| Day5.CrossingFixed | src/day5.rs:53-83 | (definition, no contract) `intersect` with ordered ranges and a bounds check on the crossing point |
| Day5.CrossingFixedExact | src/day5.rs:53-83 | the corrected `intersect` adds exactly the points two horizontal or vertical segments share, and nothing for a diagonal |
| Day5.CrossingFixedAt | src/day5.rs:55-80 | for two horizontal or vertical segments a point is added exactly when it lies within both |
| Day5.Adds | src/day5.rs:171 | (definition, no contract) the points one call of `intersect` adds, as written or corrected |
| Day5.PairsFrom | src/day5.rs:170-172 | (definition, no contract) the points the inner loop adds for `lines[i]` |
| Day5.PairsBelow | src/day5.rs:169-173 | (definition, no contract) the points the outer loop has added for the first `n` segments |
| Day5.PairsFromHas | src/day5.rs:170-172 | a point is added for `lines[i]` exactly when one call with a later segment adds it |
| Day5.PairsBelowHas | src/day5.rs:169-173 | a point is added for the pairs below `n` exactly when one call for such a pair adds it |
| Day5.PairsBelowMeans | src/day5.rs:169-173 | the set holds exactly the points added by the calls for the pairs `i < j` |
| Day5.IntersectAgrees | src/day5.rs:166-175 | with `intersect` corrected, the pairwise points are the points where two horizontal or vertical segments overlap |
| Day5.IntersectWith | src/day5.rs:170-172 | the points `intersect` (as written, or corrected) adds for `lines[i]` with every later segment are added to the set |
| Day5.CrossingTidy | src/day5.rs:53-83 | for segments drawn from smaller to larger coordinates whose perpendicular crossing lies on both, `intersect` as written adds what the corrected one adds |
| Day5.PairsFromTidy | src/day5.rs:170-172 | on tidy input the inner loop adds the same points as written and corrected |
| Day5.PairsBelowTidy | src/day5.rs:169-173 | on tidy input the outer loop adds the same points as written and corrected |
| Day5.PhantomCrossingCounted | src/day5.rs:167-175 | `part1_intersect` as written counts 1 for a horizontal and a vertical segment that share no point |
| Day5.Part1Intersect | src/day5.rs:167-175 | the number of distinct points `intersect` as written adds over all pairs `i < j`; on tidy input the same count as `part1_iterate` |
| Day5.Part1IntersectFixed | src/day5.rs:167-175 | with `intersect` corrected, the same count as `part1_iterate` on every input |

## Left out

- Input is a string parameter. The `aoc` runner, file reading and printing are not modelled.
- Integers are unbounded. Overflow is modelled only where a parser enforces the `u32` range. Each case below starts with the affected member.
- Day2.Part1: `depth -= d` on a `u32` would panic below 0, and `position * depth` can overflow. The model computes in `int`.
- Day2.Part2: the products and sums on `u32` can overflow. The model computes in `int`.
- Day3.Part1: `gamma * epsilon` can overflow a `u32`. The model multiplies unbounded naturals.
- Day3.Part1 requires a width below 32, because `1 << width` with width 32 overflows the shift.
- Day3.Part2 requires the report to be at least 1 wide, because `width - 1` underflows at 0.
- Day3.Part2 requires both filters to settle, meaning they reach one number before bit 0 is passed. Otherwise the source panics in `bit - 1` or recurses on an empty list. Day3.OxygenSettles proves that the oxygen filter settles on distinct numbers that agree above the starting bit, and Day3.ReportOxygenSettles that this holds for the distinct numbers of any parsed report started at its top bit.
- Day3.Part2 requires a width of at most 32. With a wider report `n >> bit` shifts a `u32` by 32 or more, which panics in a debug build.
- Day4.Part1 requires every board to fit the 5 by 5 mark array. The source panics only when a number at column 5 or beyond is drawn.
- Day4.Part2 has the same requirement as Day4.Part1.
- Day4.Part1 gives `None` where the source reaches `unreachable!()`.
- Day4.Part1 and Day4.Part2 state the draw times the unmarked sum as an `int`. The `u32` product and sum are not wrapped.
- Day4.Board.Score sums the unmarked numbers in an arbitrary order. Addition is proved order-free, so `HashMap` iteration order does not matter.
- Day4.PlayDraw collects the removal indices in increasing order. The source's `sort` is then a no-op, so Day4.RemoveAt takes that order as given.
- The loops of `parse_bingo`, `part1`, `part2`, `part1_iterate` and `part1_intersect` are split into helper methods, one per loop body. These are Day4.EnterRow, Day4.ReadBoard, Day4.ReadBoards, Day4.Turn, Day4.PlayBoard, Day4.PlayDraw, Day4.PlayNext, Day4.Round, Day4.RemoveAt, Day4.StartGame, Day5.Walk, Day5.Visit and Day5.IntersectWith. Each keeps the order and the effects of the loop it stands for. Day5.IntersectWith takes a flag that chooses `intersect` as written (used by Day5.Part1Intersect) or corrected (used by Day5.Part1IntersectFixed).
- Day4.Board and Day5.LineIterator: the clone of the game is modelled as fresh `Board` objects, and aliasing between parsed and played boards is excluded.
- Day5.LineIterator.Next: coordinates are naturals. The source's `as i32` and `as u32` casts wrap for coordinates of 2^31 and above, and that wrap is not modelled.
- Day5.Part1Iterate and Day5.Part2: `HashMap` counts are a `map`, and iteration order is irrelevant. `total` is not wrapped at 2^32.
- Day5.Part1Intersect: the count as written equals that of `part1_iterate` only on tidy input (Day5.Tidy); on other input the two flaws under "Findings" change it.
- Text.Words: whitespace is the Unicode White_Space set of `char::is_whitespace`, written out in `IsSpace`. Text is a sequence of characters; no normalisation or byte encoding is modelled.

## Findings

| source | as written | input that shows it | evidently intended | confidence | as-written member | corrected member |
|---|---|---|---|---|---|---|
| src/day5.rs:69-80 | a horizontal and a vertical segment always add the point where their lines cross, with no check that both segments reach it | horizontal (0,0)->(1,0) and vertical (5,5)->(5,6) add (5,0), so `part1_intersect` gives 1 where `part1_iterate` gives 0 | add the crossing only when it lies within both segments | not executed | Day5.PhantomCrossingCounted | Day5.Part1IntersectFixed |
| src/day5.rs:55-68 | the ranges are taken from start to end as written, so a segment drawn towards smaller coordinates gives an empty range | the segment (2,0)->(0,0) against itself adds nothing, though both have (1,0) | order each range before intersecting | not executed | Day5.CrossingReversed | Day5.IntersectAgrees |
