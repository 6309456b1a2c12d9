/** Day 4 (src/day4.rs): bingo.  A list of drawn numbers and 5 by 5 boards;
    a board wins when a whole row or column of it has been drawn, and its
    score is the sum of its numbers that are still unmarked. */
module Day4 {
  import opened Text

  /** A board as parsed: each number on it and its (row, column). */
  type Cells = map<nat, (nat, nat)>

  /** The rows and columns of a board. */
  const SIZE: nat := 5

  datatype Bingo = Bingo(draws: seq<nat>, boards: seq<Cells>)

  /** Every position on the board lies inside the 5 by 5 mark array. */
  predicate OnGrid(cells: Cells)
  {
    forall n :: n in cells ==> cells[n].0 < SIZE && cells[n].1 < SIZE
  }

  /** No two numbers share a position. */
  predicate Injective(cells: Cells)
  {
    forall m, n :: m in cells && n in cells && cells[m] == cells[n] ==> m == n
  }

  // ------------------------------------------------------------------ parsing

  /** The numbers of one board row, split at whitespace. */
  function ParseRow(line: string): Option<seq<nat>>
  {
    ParseAll(Words(line))
  }

  /** The parsed rows of the board whose empty line is at `pos`. */
  function BoardRows(ls: seq<string>, pos: nat): (r: seq<Option<seq<nat>>>)
    requires pos + SIZE < |ls|
    ensures |r| == SIZE
  {
    seq(SIZE, i requires 0 <= i < SIZE => ParseRow(ls[pos + 1 + i]))
  }

  /** Row `i` of the board is the `i`-th line after the empty one. */
  lemma BoardRowAt(ls: seq<string>, pos: nat, i: nat)
    requires pos + SIZE < |ls| && i < SIZE
    ensures BoardRows(ls, pos)[i] == ParseRow(ls[pos + 1 + i])
  {
  }

  /** All the rows, or `None` when one of them did not parse. */
  function Collect(rs: seq<Option<seq<nat>>>): Option<seq<seq<nat>>>
  {
    if rs == [] then Some([])
    else
      match Collect(rs[..|rs| - 1])
      case None => None
      case Some(grid) =>
        match rs[|rs| - 1]
        case None => None
        case Some(row) => Some(grid + [row])
  }

  /** `Collect` succeeds exactly when every row parsed, and then keeps them in order. */
  lemma {:induction false} CollectAll(rs: seq<Option<seq<nat>>>)
    ensures Collect(rs).Some? <==> forall i :: 0 <= i < |rs| ==> rs[i].Some?
    ensures Collect(rs).Some? ==>
              (|Collect(rs).value| == |rs| && forall i :: 0 <= i < |rs| ==> rs[i] == Some(Collect(rs).value[i]))
  {
    if rs != [] {
      var p := rs[..|rs| - 1];
      CollectAll(p);
      assert forall i :: 0 <= i < |p| ==> p[i] == rs[i];
    }
  }

  /** Row `i` entered into `cells` number by number: each number maps to
      (i, its column), and a number seen again takes its later position. */
  function Place(cells: Cells, row: seq<nat>, i: nat): Cells
  {
    if row == [] then cells
    else
      var last := |row| - 1;
      Place(cells, row[..last], i)[row[last] := (i, last)]
  }

  /** The board of a grid of rows: rows entered in order, row `i` at index `i`. */
  function BoardOf(grid: seq<seq<nat>>): Cells
  {
    if grid == [] then map[]
    else
      var last := |grid| - 1;
      Place(BoardOf(grid[..last]), grid[last], last)
  }

  lemma BoardOfSnoc(grid: seq<seq<nat>>, row: seq<nat>)
    ensures BoardOf(grid + [row]) == Place(BoardOf(grid), row, |grid|)
  {
    assert (grid + [row])[..|grid|] == grid;
  }

  /** After entering a row, the numbers are the old ones and the row's; each
      number of the row sits at a column of row `i` that holds it, and the
      other numbers keep their cells. */
  lemma {:induction false} PlaceCells(cells: Cells, row: seq<nat>, i: nat)
    ensures forall n :: n in Place(cells, row, i) <==> n in cells || n in row
    ensures forall n :: n in row ==> Place(cells, row, i)[n].0 == i && Place(cells, row, i)[n].1 < |row|
                                     && row[Place(cells, row, i)[n].1] == n
    ensures forall n :: n in cells && n !in row ==> Place(cells, row, i)[n] == cells[n]
  {
    if row != [] {
      var last := |row| - 1;
      PlaceCells(cells, row[..last], i);
      assert row == row[..last] + [row[last]];
    }
  }

  /** Every number of the grid is on the board, and the cell of each number
      of the board holds that number in the grid. */
  lemma {:induction false} BoardCells(grid: seq<seq<nat>>)
    ensures forall n :: n in BoardOf(grid) ==>
              (BoardOf(grid)[n].0 < |grid| && BoardOf(grid)[n].1 < |grid[BoardOf(grid)[n].0]|
               && grid[BoardOf(grid)[n].0][BoardOf(grid)[n].1] == n)
    ensures forall i, j :: 0 <= i < |grid| && 0 <= j < |grid[i]| ==> grid[i][j] in BoardOf(grid)
  {
    if grid != [] {
      var last := |grid| - 1;
      BoardCells(grid[..last]);
      PlaceCells(BoardOf(grid[..last]), grid[last], last);
      assert forall i :: 0 <= i < last ==> grid[..last][i] == grid[i];
      assert forall j :: 0 <= j < |grid[last]| ==> grid[last][j] in grid[last];
    }
  }

  /** A parsed board of at most five rows of at most five numbers fits the
      mark array, and no two of its numbers share a cell. */
  lemma BoardShape(grid: seq<seq<nat>>)
    requires |grid| <= SIZE && forall i :: 0 <= i < |grid| ==> |grid[i]| <= SIZE
    ensures OnGrid(BoardOf(grid)) && Injective(BoardOf(grid))
  {
    BoardCells(grid);
  }

  /** On a grid without repeated numbers, every number maps to its own cell. */
  lemma BoardPositions(grid: seq<seq<nat>>)
    requires forall i, j, i', j' ::
               (0 <= i < |grid| && 0 <= j < |grid[i]| && 0 <= i' < |grid| && 0 <= j' < |grid[i']|
                && grid[i][j] == grid[i'][j']) ==> i == i' && j == j'
    ensures forall i, j :: 0 <= i < |grid| && 0 <= j < |grid[i]| ==>
              grid[i][j] in BoardOf(grid) && BoardOf(grid)[grid[i][j]] == (i, j)
  {
    BoardCells(grid);
  }

  /** The board whose five rows follow line `pos`. */
  function BoardAt(ls: seq<string>, pos: nat): Option<Cells>
  {
    if pos + SIZE >= |ls| then None
    else
      match Collect(BoardRows(ls, pos))
      case None => None
      case Some(grid) => Some(BoardOf(grid))
  }

  /** The boards that follow line `pos`: each starts with an empty line and
      takes the five lines after it as its rows. */
  function BoardsFrom(ls: seq<string>, pos: nat): Option<seq<Cells>>
    decreases |ls| - pos
  {
    if pos >= |ls| || ls[pos] != "" then Some([])
    else
      match BoardAt(ls, pos)
      case None => None
      case Some(cells) =>
        match BoardsFrom(ls, pos + 1 + SIZE)
        case None => None
        case Some(rest) => Some([cells] + rest)
  }

  /** The game that the lines describe: the first line holds the draws
      separated by commas, the boards follow. */
  function BingoOf(ls: seq<string>): Option<Bingo>
  {
    if ls == [] then None
    else
      match ParseAll(Split(ls[0], ','))
      case None => None
      case Some(draws) =>
        match BoardsFrom(ls, 1)
        case None => None
        case Some(boards) => Some(Bingo(draws, boards))
  }

  /** `boards` in front of the boards of `rest`, when there are any. */
  function Prepend(boards: seq<Cells>, rest: Option<seq<Cells>>): Option<seq<Cells>>
  {
    match rest
    case None => None
    case Some(r) => Some(boards + r)
  }

  /** Enters the numbers of the words of one row line into `cells` (the
      inner loop of `parse_bingo`); `None` when one of them does not parse. */
  method EnterRow(cells: Cells, words: seq<string>, i: nat) returns (r: Option<Cells>)
    ensures r.None? <==> ParseAll(words).None?
    ensures r.Some? ==> r.value == Place(cells, ParseAll(words).value, i)
  {
    var acc := cells;
    ghost var row: seq<nat> := [];
    for j := 0 to |words|
      invariant |row| == j
      invariant ParseAll(words[..j]) == Some(row)
      invariant acc == Place(cells, row, i)
    {
      var n := ParseRadix(words[j], 10);
      if n.None? {
        ParseAllFails(words, j);
        return None;
      }
      ParseAllPrefix(words, j, row, n.value);
      PlaceSnoc(cells, row, n.value, i);
      acc := acc[n.value := (i, j)];
      row := row + [n.value];
    }
    assert words[..|words|] == words;
    r := Some(acc);
  }

  /** Placing one more number puts it at the next column. */
  lemma PlaceSnoc(cells: Cells, row: seq<nat>, n: nat, i: nat)
    ensures Place(cells, row + [n], i) == Place(cells, row, i)[n := (i, |row|)]
  {
    assert (row + [n])[..|row|] == row;
  }

  lemma CollectStep(rs: seq<Option<seq<nat>>>, i: nat, grid: seq<seq<nat>>, row: seq<nat>)
    requires i < |rs| && Collect(rs[..i]) == Some(grid) && rs[i] == Some(row)
    ensures Collect(rs[..i + 1]) == Some(grid + [row])
  {
    assert rs[..i + 1][..i] == rs[..i];
  }

  /** A row line that does not parse spoils its board. */
  lemma RowSpoilsBoard(ls: seq<string>, pos: nat, i: nat)
    requires i < SIZE && pos + 1 + i < |ls| && ParseRow(ls[pos + 1 + i]).None?
    ensures BoardAt(ls, pos) == None
  {
    if pos + SIZE < |ls| {
      CollectAll(BoardRows(ls, pos));
      BoardRowAt(ls, pos, i);
    }
  }

  /** Reads the five rows that follow line `pos` into a board. */
  method ReadBoard(ls: seq<string>, pos: nat) returns (r: Option<Cells>)
    requires pos < |ls|
    ensures r == BoardAt(ls, pos)
  {
    if pos + SIZE >= |ls| {
      // the source's `unwrap` on a missing row line
      return None;
    }
    ghost var rs := BoardRows(ls, pos);
    ghost var grid: seq<seq<nat>> := [];
    var cells: Cells := map[];
    for i := 0 to SIZE
      invariant |grid| == i && cells == BoardOf(grid)
      invariant Collect(rs[..i]) == Some(grid)
    {
      var line := ls[pos + 1 + i];
      BoardRowAt(ls, pos, i);
      var next := EnterRow(cells, Words(line), i);
      if next.None? {
        RowSpoilsBoard(ls, pos, i);
        return None;
      }
      ghost var row := ParseAll(Words(line)).value;
      CollectStep(rs, i, grid, row);
      BoardOfSnoc(grid, row);
      grid := grid + [row];
      cells := next.value;
    }
    assert rs[..SIZE] == rs;
    r := Some(cells);
  }

  /** The `while let Some("")` loop of `parse_bingo`: a board for every
      empty line that follows the draws and the boards before it. */
  method ReadBoards(ls: seq<string>) returns (r: Option<seq<Cells>>)
    requires |ls| > 0
    ensures r == BoardsFrom(ls, 1)
  {
    var boards: seq<Cells> := [];
    var pos := 1;
    PrependNothing(BoardsFrom(ls, 1));
    while pos < |ls| && ls[pos] == ""
      invariant 1 <= pos <= |ls|
      invariant BoardsFrom(ls, 1) == Prepend(boards, BoardsFrom(ls, pos))
      decreases |ls| - pos
    {
      var cells := ReadBoard(ls, pos);
      if cells.None? {
        BoardsFromFails(ls, pos, boards);
        return None;
      }
      ReadBoardsStep(ls, pos, boards, cells.value);
      boards := boards + [cells.value];
      pos := pos + 1 + SIZE;
    }
    BoardsFromEnd(ls, pos, boards);
    r := Some(boards);
  }

  /** A board that does not parse spoils the boards. */
  lemma BoardsFromFails(ls: seq<string>, pos: nat, boards: seq<Cells>)
    requires pos < |ls| && ls[pos] == "" && BoardAt(ls, pos).None?
    ensures Prepend(boards, BoardsFrom(ls, pos)) == None
  {
  }

  lemma PrependNothing(rest: Option<seq<Cells>>)
    ensures Prepend([], rest) == rest
  {
    if rest.Some? {
      assert [] + rest.value == rest.value;
    }
  }

  /** No boards follow a line that is not empty. */
  lemma BoardsFromEnd(ls: seq<string>, pos: nat, boards: seq<Cells>)
    requires pos >= |ls| || ls[pos] != ""
    ensures BoardsFrom(ls, pos) == Some([])
    ensures Prepend(boards, BoardsFrom(ls, pos)) == Some(boards)
  {
    assert boards + [] == boards;
  }

  lemma ReadBoardsStep(ls: seq<string>, pos: nat, boards: seq<Cells>, cells: Cells)
    requires pos < |ls| && ls[pos] == "" && BoardAt(ls, pos) == Some(cells)
    requires BoardsFrom(ls, 1) == Prepend(boards, BoardsFrom(ls, pos))
    ensures BoardsFrom(ls, 1) == Prepend(boards + [cells], BoardsFrom(ls, pos + 1 + SIZE))
  {
    BoardsFromStep(ls, pos, cells);
    PrependTwice(boards, [cells], BoardsFrom(ls, pos + 1 + SIZE));
  }

  lemma PrependTwice(a: seq<Cells>, b: seq<Cells>, rest: Option<seq<Cells>>)
    ensures Prepend(a, Prepend(b, rest)) == Prepend(a + b, rest)
  {
    if rest.Some? {
      assert a + (b + rest.value) == (a + b) + rest.value;
    }
  }

  /** `parse_bingo`: the draws, then the boards. */
  method ParseBingo(input: string) returns (r: Option<Bingo>)
    ensures r == BingoOf(Lines(input))
  {
    var ls := Lines(input);
    if |ls| == 0 {
      return None;
    }
    var draws := ParseAll(Split(ls[0], ','));
    if draws.None? {
      return None;
    }
    var boards := ReadBoards(ls);
    if boards.None? {
      return None;
    }
    r := Some(Bingo(draws.value, boards.value));
  }

  // ------------------------------------------------------------ the text form

  /** The draws written in decimal and separated by commas. */
  function DrawLine(draws: seq<nat>): string
    requires |draws| > 0
  {
    JoinWith(FormatAll(draws), ',')
  }

  /** A row written in decimal and separated by single spaces. */
  function RowLine(row: seq<nat>): string
  {
    if row == [] then "" else JoinWith(FormatAll(row), ' ')
  }

  function RowLines(grid: seq<seq<nat>>): (r: seq<string>)
    ensures |r| == |grid|
    ensures forall i :: 0 <= i < |grid| ==> r[i] == RowLine(grid[i])
  {
    if grid == [] then [] else [RowLine(grid[0])] + RowLines(grid[1..])
  }

  /** A board that can be written down: five non-empty rows of `u32`s. */
  predicate WritableGrid(grid: seq<seq<nat>>)
  {
    |grid| == SIZE
    && forall i :: 0 <= i < SIZE ==>
         (|grid[i]| > 0 && forall j :: 0 <= j < |grid[i]| ==> grid[i][j] < U32_LIMIT)
  }

  /** A game that can be written down: at least one draw, all numbers `u32`s. */
  predicate Writable(draws: seq<nat>, grids: seq<seq<seq<nat>>>)
  {
    |draws| > 0 && (forall k :: 0 <= k < |draws| ==> draws[k] < U32_LIMIT)
    && forall t :: 0 <= t < |grids| ==> WritableGrid(grids[t])
  }

  /** Each board as an empty line and its rows. */
  function BoardsLines(grids: seq<seq<seq<nat>>>): seq<string>
  {
    if grids == [] then [] else [""] + RowLines(grids[0]) + BoardsLines(grids[1..])
  }

  function BoardsOf(grids: seq<seq<seq<nat>>>): (r: seq<Cells>)
    ensures |r| == |grids|
    ensures forall t :: 0 <= t < |grids| ==> r[t] == BoardOf(grids[t])
  {
    if grids == [] then [] else [BoardOf(grids[0])] + BoardsOf(grids[1..])
  }

  /** The input text of a game. */
  function Render(draws: seq<nat>, grids: seq<seq<seq<nat>>>): string
    requires Writable(draws, grids)
  {
    JoinLines([DrawLine(draws)] + BoardsLines(grids))
  }

  /** The text of a `u32` is a non-empty plain line without separators. */
  lemma NumberText(n: nat)
    ensures |Format(n, 10)| > 0 && PlainLine(Format(n, 10)) && ',' !in Format(n, 10)
    ensures forall j :: 0 <= j < |Format(n, 10)| ==> !IsSpace(Format(n, 10)[j])
  {
    FormatHasNo(n, 10, ',');
  }

  lemma RowText(row: seq<nat>)
    requires |row| > 0 && forall j :: 0 <= j < |row| ==> row[j] < U32_LIMIT
    ensures ParseRow(RowLine(row)) == Some(row)
    ensures PlainLine(RowLine(row))
  {
    var ws := FormatAll(row);
    forall k | 0 <= k < |ws|
      ensures |ws[k]| > 0 && PlainLine(ws[k]) && forall j :: 0 <= j < |ws[k]| ==> !IsSpace(ws[k][j])
    {
      NumberText(row[k]);
    }
    WordsJoin(ws);
    ParseFormatAll(row);
    PlainJoin(ws, ' ');
  }

  /** The lines of a written grid parse row by row to the grid and are plain lines. */
  lemma {:induction false} RowLinesText(g: seq<seq<nat>>)
    requires WritableGrid(g)
    ensures forall i :: 0 <= i < SIZE ==> ParseRow(RowLines(g)[i]) == Some(g[i]) && PlainLine(RowLines(g)[i])
  {
    forall i | 0 <= i < SIZE ensures ParseRow(RowLines(g)[i]) == Some(g[i]) && PlainLine(RowLines(g)[i]) {
      RowText(g[i]);
    }
  }

  /** A written board, after its empty line, parses to its cells. */
  lemma BoardText(ls: seq<string>, pos: nat, g: seq<seq<nat>>)
    requires WritableGrid(g) && pos + SIZE < |ls| && ls[pos] == ""
    requires ls[pos + 1..pos + 1 + SIZE] == RowLines(g)
    ensures BoardAt(ls, pos) == Some(BoardOf(g))
  {
    var rs := BoardRows(ls, pos);
    RowsText(ls, pos, g);
    CollectAll(rs);
    var grid := Collect(rs).value;
    assert grid == g by {
      assert |grid| == |g|;
      forall i | 0 <= i < SIZE ensures grid[i] == g[i] {
        assert rs[i] == Some(grid[i]);
      }
    }
  }

  /** The rows written out read back as the rows of `g`. */
  lemma RowsText(ls: seq<string>, pos: nat, g: seq<seq<nat>>)
    requires WritableGrid(g) && pos + SIZE < |ls|
    requires ls[pos + 1..pos + 1 + SIZE] == RowLines(g)
    ensures forall i :: 0 <= i < SIZE ==> BoardRows(ls, pos)[i] == Some(g[i])
  {
    RowLinesText(g);
    forall i | 0 <= i < SIZE ensures BoardRows(ls, pos)[i] == Some(g[i]) {
      BoardRowAt(ls, pos, i);
      assert ls[pos + 1 + i] == ls[pos + 1..pos + 1 + SIZE][i];
    }
  }

  /** The boards that follow the empty line at `pos`. */
  lemma BoardsFromStep(ls: seq<string>, pos: nat, cells: Cells)
    requires pos < |ls| && ls[pos] == "" && BoardAt(ls, pos) == Some(cells)
    ensures BoardsFrom(ls, pos) == Prepend([cells], BoardsFrom(ls, pos + 1 + SIZE))
  {
  }

  lemma {:induction false} BoardsText(prefix: seq<string>, grids: seq<seq<seq<nat>>>)
    requires forall t :: 0 <= t < |grids| ==> WritableGrid(grids[t])
    ensures BoardsFrom(prefix + BoardsLines(grids), |prefix|) == Some(BoardsOf(grids))
    decreases |grids|
  {
    var ls := prefix + BoardsLines(grids);
    if grids == [] {
      assert ls == prefix;
    } else {
      var g := grids[0];
      var next := prefix + [""] + RowLines(g);
      assert ls == next + BoardsLines(grids[1..]);
      var pos := |prefix|;
      assert ls[pos + 1..pos + 1 + SIZE] == RowLines(g);
      BoardText(ls, pos, g);
      BoardsFromStep(ls, pos, BoardOf(g));
      BoardsText(next, grids[1..]);
      assert BoardsOf(grids) == [BoardOf(g)] + BoardsOf(grids[1..]);
    }
  }

  lemma {:induction false} BoardsPlain(grids: seq<seq<seq<nat>>>)
    requires forall t :: 0 <= t < |grids| ==> WritableGrid(grids[t])
    ensures forall k :: 0 <= k < |BoardsLines(grids)| ==> PlainLine(BoardsLines(grids)[k])
  {
    if grids != [] {
      var lines := [""] + RowLines(grids[0]);
      var rest := BoardsLines(grids[1..]);
      RowLinesText(grids[0]);
      BoardsPlain(grids[1..]);
      assert BoardsLines(grids) == lines + rest;
      assert forall k :: 0 <= k < |lines| ==> PlainLine(lines[k]);
      PlainAppend(lines, rest);
    }
  }

  /** Two lists of plain lines make one. */
  lemma PlainAppend(a: seq<string>, b: seq<string>)
    requires forall k :: 0 <= k < |a| ==> PlainLine(a[k])
    requires forall k :: 0 <= k < |b| ==> PlainLine(b[k])
    ensures forall k :: 0 <= k < |a + b| ==> PlainLine((a + b)[k])
  {
  }

  lemma DrawText(draws: seq<nat>)
    requires |draws| > 0 && forall k :: 0 <= k < |draws| ==> draws[k] < U32_LIMIT
    ensures ParseAll(Split(DrawLine(draws), ',')) == Some(draws)
    ensures PlainLine(DrawLine(draws))
  {
    var ws := FormatAll(draws);
    forall k | 0 <= k < |ws| ensures |ws[k]| > 0 && PlainLine(ws[k]) && ',' !in ws[k] {
      NumberText(draws[k]);
    }
    PlainJoin(ws, ',');
    SplitJoin(ws, ',');
    ParseFormatAll(draws);
  }

  /** Parsing the text of a game gives the game back. */
  lemma ParseRender(draws: seq<nat>, grids: seq<seq<seq<nat>>>)
    requires Writable(draws, grids)
    ensures BingoOf(Lines(Render(draws, grids))) == Some(Bingo(draws, BoardsOf(grids)))
  {
    DrawText(draws);
    BoardsText([DrawLine(draws)], grids);
    BoardsPlain(grids);
    var ls := [DrawLine(draws)] + BoardsLines(grids);
    assert forall k :: 0 < k < |ls| ==> ls[k] == BoardsLines(grids)[k - 1];
    LinesOfJoin(ls);
  }

  // ------------------------------------------------------------------ the game

  /** A (row, column) of the mark array. */
  type Pos = (nat, nat)

  /** The numbers drawn in the first `k` draws. */
  function Drawn(draws: seq<nat>, k: nat): set<nat>
    requires k <= |draws|
  {
    set i | 0 <= i < k :: draws[i]
  }

  /** The cells of the board whose numbers have been drawn. */
  function Marks(cells: Cells, drawn: set<nat>): set<Pos>
  {
    set n | n in cells && n in drawn :: cells[n]
  }

  predicate RowDone(m: set<Pos>, i: nat)
  {
    forall j :: 0 <= j < SIZE ==> (i, j) in m
  }

  predicate ColDone(m: set<Pos>, j: nat)
  {
    forall i :: 0 <= i < SIZE ==> (i, j) in m
  }

  /** Some row or some column is completely marked. */
  predicate HasLine(m: set<Pos>)
  {
    exists k :: 0 <= k < SIZE && (RowDone(m, k) || ColDone(m, k))
  }

  /** The board has a complete line after the first `k` draws. */
  predicate WonBy(cells: Cells, draws: seq<nat>, k: nat)
    requires k <= |draws|
  {
    HasLine(Marks(cells, Drawn(draws, k)))
  }

  /** The board first has a complete line on draw `k`. */
  predicate WinsAt(cells: Cells, draws: seq<nat>, k: nat)
  {
    k < |draws| && WonBy(cells, draws, k + 1) && !WonBy(cells, draws, k)
  }

  /** The sum of a finite set of numbers. */
  ghost function SumOf(s: set<nat>): nat
  {
    if s == {} then 0 else var x :| x in s; x + SumOf(s - {x})
  }

  /** The numbers of the board whose cells are not marked. */
  function Unmarked(cells: Cells, m: set<Pos>): set<nat>
  {
    set n | n in cells && cells[n] !in m
  }

  /** The score of a board that wins on draw `k`: that draw times the sum of
      its unmarked numbers. */
  ghost function WinScore(cells: Cells, draws: seq<nat>, k: nat): int
    requires k < |draws|
  {
    draws[k] * SumOf(Unmarked(cells, Marks(cells, Drawn(draws, k + 1))))
  }

  lemma DrawnStep(draws: seq<nat>, k: nat)
    requires k < |draws|
    ensures Drawn(draws, k + 1) == Drawn(draws, k) + {draws[k]}
  {
  }

  lemma MarksStep(cells: Cells, drawn: set<nat>, n: nat)
    ensures Marks(cells, drawn + {n}) == Marks(cells, drawn) + (if n in cells then {cells[n]} else {})
  {
  }

  /** A board without a complete line gets one by marking `p` exactly when
      the row or the column of `p` becomes complete. */
  lemma LineThrough(m: set<Pos>, p: Pos)
    requires !HasLine(m) && p.0 < SIZE && p.1 < SIZE
    ensures HasLine(m + {p}) <==> RowDone(m + {p}, p.0) || ColDone(m + {p}, p.1)
  {
    var m' := m + {p};
    if HasLine(m') {
      var k :| 0 <= k < SIZE && (RowDone(m', k) || ColDone(m', k));
      if RowDone(m', k) && k != p.0 {
        forall j | 0 <= j < SIZE ensures (k, j) in m {
          assert (k, j) in m';
        }
        assert RowDone(m, k);
      }
      if ColDone(m', k) && k != p.1 {
        forall i | 0 <= i < SIZE ensures (i, k) in m {
          assert (i, k) in m';
        }
        assert ColDone(m, k);
      }
    }
    if RowDone(m', p.0) {
      assert HasLine(m');
    }
    if ColDone(m', p.1) {
      assert HasLine(m');
    }
  }

  /** What one more draw does to a board that has not won: it marks the
      cell of the drawn number, and the board wins exactly when the row or
      column of that cell is then complete. */
  lemma MarkWins(cells: Cells, draws: seq<nat>, k: nat)
    requires OnGrid(cells) && k < |draws| && !WonBy(cells, draws, k)
    ensures var n := draws[k];
            var m := Marks(cells, Drawn(draws, k + 1));
            && m == Marks(cells, Drawn(draws, k)) + (if n in cells then {cells[n]} else {})
            && (WonBy(cells, draws, k + 1) <==> n in cells && (RowDone(m, cells[n].0) || ColDone(m, cells[n].1)))
  {
    var n := draws[k];
    var m0 := Marks(cells, Drawn(draws, k));
    DrawnStep(draws, k);
    MarksStep(cells, Drawn(draws, k), n);
    var m := Marks(cells, Drawn(draws, k + 1));
    if n in cells {
      assert m == m0 + {cells[n]};
      LineThrough(m0, cells[n]);
    } else {
      assert m == m0;
    }
  }

  /** Before the first draw no board has won. */
  lemma NothingWonAtStart(cells: Cells, draws: seq<nat>)
    ensures !WonBy(cells, draws, 0)
  {
    var none: set<Pos> := {};
    assert Marks(cells, Drawn(draws, 0)) == none;
    forall k | 0 <= k < SIZE ensures !RowDone(none, k) && !ColDone(none, k) {
      assert (k, 0) !in none;
      assert (0, k) !in none;
    }
  }

  /** Once a board has won it stays won. */
  lemma WonByMonotone(cells: Cells, draws: seq<nat>, k: nat, k': nat)
    requires k <= k' <= |draws| && WonBy(cells, draws, k)
    ensures WonBy(cells, draws, k')
  {
    var m, m' := Marks(cells, Drawn(draws, k)), Marks(cells, Drawn(draws, k'));
    assert m <= m';
    var l :| 0 <= l < SIZE && (RowDone(m, l) || ColDone(m, l));
    assert RowDone(m', l) || ColDone(m', l);
  }

  /** The sum does not depend on the order the numbers are taken in. */
  lemma {:induction false} SumOfPick(s: set<nat>, y: nat)
    requires y in s
    ensures SumOf(s) == y + SumOf(s - {y})
    decreases |s|
  {
    var x :| x in s && SumOf(s) == x + SumOf(s - {x});
    if x != y {
      SumOfPick(s - {x}, y);
      SumOfPick(s - {y}, x);
      assert s - {x} - {y} == s - {y} - {x};
    }
  }

  /** A smaller set has a smaller sum. */
  lemma {:induction false} SumOfSubset(a: set<nat>, b: set<nat>)
    requires a <= b
    ensures SumOf(a) <= SumOf(b)
    decreases |b|
  {
    if a != {} {
      var x :| x in a;
      SumOfPick(a, x);
      SumOfPick(b, x);
      SumOfSubset(a - {x}, b - {x});
    }
  }

  /** On a board without two numbers in one cell, the unmarked numbers are
      the board's numbers that have not been drawn. */
  lemma UnmarkedUndrawn(cells: Cells, drawn: set<nat>)
    requires Injective(cells)
    ensures Unmarked(cells, Marks(cells, drawn)) == cells.Keys - drawn
  {
    forall n | n in cells && n !in drawn ensures cells[n] !in Marks(cells, drawn) {
      forall n' | n' in cells && n' in drawn ensures cells[n'] != cells[n] {
        assert n' != n;
      }
    }
  }

  /** A board all of whose numbers have been drawn scores 0. */
  lemma FullBoardScoresZero(cells: Cells, drawn: set<nat>)
    requires cells.Keys <= drawn
    ensures SumOf(Unmarked(cells, Marks(cells, drawn))) == 0
  {
    forall n | n in cells ensures cells[n] in Marks(cells, drawn) {
    }
    assert Unmarked(cells, Marks(cells, drawn)) == {};
  }

  /** The unmarked sum never grows as more numbers are drawn. */
  lemma ScoreNeverRises(cells: Cells, drawn: set<nat>, more: set<nat>)
    requires drawn <= more
    ensures SumOf(Unmarked(cells, Marks(cells, more))) <= SumOf(Unmarked(cells, Marks(cells, drawn)))
  {
    SumOfSubset(Unmarked(cells, Marks(cells, more)), Unmarked(cells, Marks(cells, drawn)));
  }

  /** A board being played: its numbers with their cells, and the mark array. */
  class Board {
    const cells: Cells
    const marks: array2<bool>
    /** The index of the board in the parsed game. */
    ghost const id: nat
    /** The marked cells. */
    ghost var Marked: set<Pos>

    ghost predicate Valid()
      reads this, marks
    {
      && marks.Length0 == SIZE && marks.Length1 == SIZE && OnGrid(cells)
      && (forall i, j :: 0 <= i < SIZE && 0 <= j < SIZE ==> (marks[i, j] <==> (i, j) in Marked))
      && (forall p :: p in Marked ==> p.0 < SIZE && p.1 < SIZE)
    }

    /** A board with every cell unmarked. */
    constructor (cells: Cells, ghost id: nat)
      requires OnGrid(cells)
      ensures Valid() && this.cells == cells && this.id == id && Marked == {}
      ensures fresh(marks)
    {
      this.cells := cells;
      this.id := id;
      marks := new bool[SIZE, SIZE]((i, j) => false);
      Marked := {};
    }

    /** `mark`: marks the cell of `num`, if the board has it, and tells
        whether its row or its column is now complete. */
    method Mark(num: nat) returns (won: bool)
      requires Valid()
      modifies this, marks
      ensures Valid()
      ensures Marked == old(Marked) + (if num in cells then {cells[num]} else {})
      ensures forall i, j :: 0 <= i < SIZE && 0 <= j < SIZE ==>
                marks[i, j] == (old(marks[i, j]) || (num in cells && cells[num] == (i, j)))
      ensures won <==> num in cells && (RowDone(Marked, cells[num].0) || ColDone(Marked, cells[num].1))
    {
      if num !in cells {
        return false;
      }
      var (i, j) := cells[num];
      marks[i, j] := true;
      Marked := Marked + {(i, j)};
      won := true;
      for c := 0 to SIZE
        invariant won <==> forall c' :: 0 <= c' < c ==> marks[i, c']
      {
        won := won && marks[i, c];
      }
      if won {
        return;
      }
      won := true;
      for r := 0 to SIZE
        invariant won <==> forall r' :: 0 <= r' < r ==> marks[r', j]
      {
        won := won && marks[r, j];
      }
    }

    /** `score`: the sum of the numbers whose cells are unmarked, whatever
        order the numbers are visited in. */
    method Score() returns (s: nat)
      requires Valid()
      ensures s == SumOf(Unmarked(cells, Marked))
    {
      ghost var u := Unmarked(cells, Marked);
      s := 0;
      var rest := cells.Keys;
      assert u * rest == u;
      while rest != {}
        invariant rest <= cells.Keys
        invariant s + SumOf(u * rest) == SumOf(u)
        decreases |rest|
      {
        var n :| n in rest;
        var (i, j) := cells[n];
        if !marks[i, j] {
          assert n in u * rest;
          SumOfPick(u * rest, n);
          assert u * (rest - {n}) == u * rest - {n};
          s := s + n;
        } else {
          assert u * (rest - {n}) == u * rest;
        }
        rest := rest - {n};
      }
      assert u * rest == {};
    }
  }

  /** Different boards with different mark arrays. */
  ghost predicate Separate(bs: seq<Board>)
  {
    forall u, v :: 0 <= u < |bs| && 0 <= v < |bs| && u != v ==> bs[u] != bs[v] && bs[u].marks != bs[v].marks
  }

  /** A fresh board for each parsed one (the clone of the game). */
  method NewBoards(boards: seq<Cells>) returns (bs: seq<Board>)
    requires forall t :: 0 <= t < |boards| ==> OnGrid(boards[t])
    ensures |bs| == |boards| && Separate(bs)
    ensures forall u :: 0 <= u < |bs| ==>
              && fresh(bs[u]) && fresh(bs[u].marks) && bs[u].Valid()
              && bs[u].cells == boards[u] && bs[u].id == u && bs[u].Marked == {}
  {
    bs := [];
    for t := 0 to |boards|
      invariant |bs| == t && Separate(bs)
      invariant forall u :: 0 <= u < t ==>
                  && fresh(bs[u]) && fresh(bs[u].marks) && bs[u].Valid()
                  && bs[u].cells == boards[u] && bs[u].id == u && bs[u].Marked == {}
    {
      var b := new Board(boards[t], t);
      bs := bs + [b];
    }
  }

  // ------------------------------------------------------------------ part 1

  /** Marks draw `k` on a board that has not won yet: the board then holds
      the first `k + 1` draws and has won exactly when `mark` says so. */
  method Turn(b: Board, draws: seq<nat>, k: nat) returns (won: bool)
    requires b.Valid() && k < |draws|
    requires b.Marked == Marks(b.cells, Drawn(draws, k)) && !WonBy(b.cells, draws, k)
    modifies b, b.marks
    ensures b.Valid() && b.Marked == Marks(b.cells, Drawn(draws, k + 1))
    ensures won <==> WonBy(b.cells, draws, k + 1)
  {
    MarkWins(b.cells, draws, k);
    won := b.Mark(draws[k]);
  }

  /** Board `t` is the first to win: it wins on draw `k`, no board had won
      before that draw, and no board before it wins on that draw. */
  predicate FirstWin(game: Bingo, k: nat, t: nat)
  {
    && k < |game.draws| && t < |game.boards|
    && WonBy(game.boards[t], game.draws, k + 1)
    && (forall u :: 0 <= u < |game.boards| ==> !WonBy(game.boards[u], game.draws, k))
    && (forall u :: 0 <= u < t ==> !WonBy(game.boards[u], game.draws, k + 1))
  }

  /** There is at most one first win. */
  lemma FirstWinUnique(game: Bingo, k: nat, t: nat, k': nat, t': nat)
    requires FirstWin(game, k, t) && FirstWin(game, k', t')
    ensures k == k' && t == t'
  {
    if k < k' {
      WonByMonotone(game.boards[t], game.draws, k + 1, k');
    } else if k' < k {
      WonByMonotone(game.boards[t'], game.draws, k' + 1, k);
    }
  }

  /** `part1`: draws the numbers in order and marks them board by board; the
      first board to win gives the draw times its score.  `None` when no
      board ever wins (the source's `unreachable!()`). */
  method Part1(game: Bingo) returns (r: Option<int>)
    requires forall t :: 0 <= t < |game.boards| ==> OnGrid(game.boards[t])
    ensures r.None? <==> forall t :: 0 <= t < |game.boards| ==> !WonBy(game.boards[t], game.draws, |game.draws|)
    ensures r.Some? ==> exists k: nat, t: nat :: FirstWin(game, k, t) && r.value == WinScore(game.boards[t], game.draws, k)
  {
    var draws := game.draws;
    var bs := NewBoards(game.boards);
    forall t | 0 <= t < |bs| ensures !WonBy(game.boards[t], draws, 0) {
      NothingWonAtStart(game.boards[t], draws);
    }
    for k := 0 to |draws|
      invariant forall u :: 0 <= u < |bs| ==>
                  bs[u].Valid() && bs[u].Marked == Marks(bs[u].cells, Drawn(draws, k))
      invariant forall u :: 0 <= u < |bs| ==> !WonBy(game.boards[u], draws, k)
    {
      var num := draws[k];
      for t := 0 to |bs|
        invariant forall u :: 0 <= u < |bs| ==>
                    bs[u].Valid() && bs[u].Marked == Marks(bs[u].cells, Drawn(draws, if u < t then k + 1 else k))
        invariant forall u :: 0 <= u < t ==> !WonBy(game.boards[u], draws, k + 1)
      {
        var won := Turn(bs[t], draws, k);
        if won {
          var s := bs[t].Score();
          assert FirstWin(game, k, t);
          assert num as int * s as int == WinScore(game.boards[t], draws, k);
          WonByMonotone(game.boards[t], draws, k + 1, |draws|);
          return Some(num as int * s as int);
        }
      }
    }
    return None;
  }

  // ------------------------------------------------------------------ part 2

  /** A board wins on one draw at most. */
  lemma WinsOnce(cells: Cells, draws: seq<nat>, k: nat, k': nat)
    requires WinsAt(cells, draws, k) && WinsAt(cells, draws, k')
    ensures k == k'
  {
    if k < k' {
      WonByMonotone(cells, draws, k + 1, k');
    } else if k' < k {
      WonByMonotone(cells, draws, k' + 1, k);
    }
  }

  /** The score after the boards before `t` have been marked with draw `k`,
      starting from `prev`: the score of the last of them that wins on that
      draw, or `prev` when none does. */
  ghost function ScoreAt(boards: seq<Cells>, draws: seq<nat>, k: nat, t: nat, prev: int): int
    requires k < |draws| && t <= |boards|
  {
    if t == 0 then prev
    else if WinsAt(boards[t - 1], draws, k) then WinScore(boards[t - 1], draws, k)
    else ScoreAt(boards, draws, k, t - 1, prev)
  }

  /** The score after the first `k` draws: the score of the last board to
      win so far, 0 while none has. */
  ghost function FinalScore(boards: seq<Cells>, draws: seq<nat>, k: nat): int
    requires k <= |draws|
  {
    if k == 0 then 0 else ScoreAt(boards, draws, k - 1, |boards|, FinalScore(boards, draws, k - 1))
  }

  /** Board `t` winning on draw `k` is the last win: every other win comes
      on an earlier draw, or on the same draw at an earlier board. */
  predicate LastWin(game: Bingo, k: nat, t: nat)
  {
    && k < |game.draws| && t < |game.boards| && WinsAt(game.boards[t], game.draws, k)
    && forall k': nat, t': nat :: k' < |game.draws| && t' < |game.boards| && WinsAt(game.boards[t'], game.draws, k') ==>
         k' < k || (k' == k && t' <= t)
  }

  /** Boards that do not win on the draw leave the score alone. */
  lemma {:induction false} ScoreSkip(boards: seq<Cells>, draws: seq<nat>, k: nat, a: nat, b: nat, prev: int)
    requires k < |draws| && a <= b <= |boards|
    requires forall t :: a <= t < b ==> !WinsAt(boards[t], draws, k)
    ensures ScoreAt(boards, draws, k, b, prev) == ScoreAt(boards, draws, k, a, prev)
    decreases b
  {
    if b > a {
      ScoreSkip(boards, draws, k, a, b - 1, prev);
    }
  }

  /** One more board marked with draw `k`: its score replaces the score
      when it wins. */
  lemma ScoreStep(boards: seq<Cells>, draws: seq<nat>, k: nat, t: nat, prev: int, won: bool, score: int, before: int)
    requires k < |draws| && t < |boards|
    requires before == ScoreAt(boards, draws, k, t, prev)
    requires won <==> WonBy(boards[t], draws, k + 1)
    requires !WonBy(boards[t], draws, k)
    requires score == if won then WinScore(boards[t], draws, k) else before
    ensures score == ScoreAt(boards, draws, k, t + 1, prev)
  {
  }

  /** Draws on which no board wins leave the score alone. */
  lemma {:induction false} FinalScoreSkip(boards: seq<Cells>, draws: seq<nat>, a: nat, b: nat)
    requires a <= b <= |draws|
    requires forall k, t :: a <= k < b && 0 <= t < |boards| ==> !WinsAt(boards[t], draws, k)
    ensures FinalScore(boards, draws, b) == FinalScore(boards, draws, a)
    decreases b
  {
    if b > a {
      FinalScoreSkip(boards, draws, a, b - 1);
      ScoreSkip(boards, draws, b - 1, 0, |boards|, FinalScore(boards, draws, b - 1));
    }
  }

  /** When no board ever wins, the score of `part2` is 0. */
  lemma NoWinScoresZero(game: Bingo)
    requires forall k, t :: 0 <= k < |game.draws| && 0 <= t < |game.boards| ==> !WinsAt(game.boards[t], game.draws, k)
    ensures FinalScore(game.boards, game.draws, |game.draws|) == 0
  {
    FinalScoreSkip(game.boards, game.draws, 0, |game.draws|);
  }

  /** The score of `part2` is the score of the last board to win. */
  lemma LastWinScores(game: Bingo, k: nat, t: nat)
    requires LastWin(game, k, t)
    ensures FinalScore(game.boards, game.draws, |game.draws|) == WinScore(game.boards[t], game.draws, k)
  {
    var boards, draws := game.boards, game.draws;
    var prev := FinalScore(boards, draws, k);
    ScoreSkip(boards, draws, k, t + 1, |boards|, prev);
    FinalScoreSkip(boards, draws, k + 1, |draws|);
  }

  /** The elements of `xs` whose indices are not in `drop`, in order. */
  function Without<T>(xs: seq<T>, drop: set<nat>): seq<T>
  {
    if xs == [] then []
    else
      var last := |xs| - 1;
      Without(xs[..last], drop) + (if last in drop then [] else [xs[last]])
  }

  lemma {:induction false} WithoutNone<T>(xs: seq<T>, drop: set<nat>)
    requires forall d :: d in drop ==> d >= |xs|
    ensures Without(xs, drop) == xs
  {
    if xs != [] {
      WithoutNone(xs[..|xs| - 1], drop);
    }
  }

  /** Dropping one more index, below every dropped one, removes the element
      at that same index of what is kept: the reason `part2` removes from
      the highest index down. */
  lemma {:induction false} WithoutRemove<T>(xs: seq<T>, drop: set<nat>, i: nat)
    requires i < |xs| && forall d :: d in drop ==> d > i
    ensures i < |Without(xs, drop)|
    ensures Without(xs, drop + {i}) == Without(xs, drop)[..i] + Without(xs, drop)[i + 1..]
  {
    var last := |xs| - 1;
    var pre := xs[..last];
    if last == i {
      WithoutNone(pre, drop);
      WithoutNone(pre, drop + {i});
      assert (pre + [xs[i]])[..i] == pre;
    } else {
      WithoutRemove(pre, drop, i);
      var k := Without(pre, drop);
      var tail := if last in drop then [] else [xs[last]];
      assert (k + tail)[..i] == k[..i];
      assert (k + tail)[i + 1..] == k[i + 1..] + tail;
    }
  }

  /** What `Without` keeps: only elements at indices outside `drop`... */
  lemma {:induction false} WithoutFrom<T>(xs: seq<T>, drop: set<nat>)
    ensures forall w :: 0 <= w < |Without(xs, drop)| ==>
              exists i: nat :: i < |xs| && i !in drop && Without(xs, drop)[w] == xs[i]
  {
    if xs == [] {
      assert Without(xs, drop) == [];
    } else {
      var last := |xs| - 1;
      var pre := xs[..last];
      WithoutFrom(pre, drop);
      assert Without(xs, drop) == Without(pre, drop) + (if last in drop then [] else [xs[last]]);
      forall w | 0 <= w < |Without(xs, drop)|
        ensures exists i: nat :: i < |xs| && i !in drop && Without(xs, drop)[w] == xs[i]
      {
        if w < |Without(pre, drop)| {
          var i: nat :| i < |pre| && i !in drop && Without(pre, drop)[w] == pre[i];
          assert Without(xs, drop)[w] == xs[i];
        } else {
          assert Without(xs, drop)[w] == xs[last];
        }
      }
    }
  }

  /** ... and all of them. */
  lemma {:induction false} WithoutHas<T>(xs: seq<T>, drop: set<nat>)
    ensures forall i :: 0 <= i < |xs| && i !in drop ==> xs[i] in Without(xs, drop)
  {
    if xs != [] {
      var last := |xs| - 1;
      var pre := xs[..last];
      WithoutHas(pre, drop);
      var k := Without(pre, drop);
      assert Without(xs, drop) == k + (if last in drop then [] else [xs[last]]);
      forall i | 0 <= i < |xs| && i !in drop ensures xs[i] in Without(xs, drop) {
        if i < last {
          assert xs[i] == pre[i];
          assert xs[i] in k;
        } else {
          assert Without(xs, drop)[|Without(xs, drop)| - 1] == xs[last];
        }
      }
    }
  }

  /** The boards are in the order of their index in the game. */
  ghost predicate Ascending(bs: seq<Board>)
  {
    forall v, w :: 0 <= v < w < |bs| ==> bs[v].id < bs[w].id
  }

  /** `Without` keeps a bound on the indices of the boards. */
  lemma {:induction false} WithoutBelow(bs: seq<Board>, drop: set<nat>, m: nat)
    requires forall v :: 0 <= v < |bs| ==> bs[v].id < m
    ensures forall w :: 0 <= w < |Without(bs, drop)| ==> Without(bs, drop)[w].id < m
  {
    if bs != [] {
      WithoutBelow(bs[..|bs| - 1], drop, m);
    }
  }

  lemma {:induction false} WithoutAscending(bs: seq<Board>, drop: set<nat>)
    requires Ascending(bs)
    ensures Ascending(Without(bs, drop))
  {
    if bs != [] {
      var last := |bs| - 1;
      var pre := bs[..last];
      WithoutAscending(pre, drop);
      WithoutBelow(pre, drop, bs[last].id);
      var k := Without(pre, drop);
      var r := Without(bs, drop);
      if last !in drop {
        assert r == k + [bs[last]];
        forall v, w | 0 <= v < w < |r| ensures r[v].id < r[w].id {
          assert r[v] == k[v];
          if w < |k| {
            assert r[w] == k[w];
          }
        }
      }
    }
  }

  /** Board `t` of the game is `all[t]`. */
  ghost predicate Indexed(all: seq<Board>, boards: seq<Cells>)
  {
    |all| == |boards| && forall t :: 0 <= t < |all| ==> all[t].id == t && all[t].cells == boards[t]
  }

  /** Every board of `bs` is the board of `all` at its index. */
  ghost predicate Among(all: seq<Board>, bs: seq<Board>)
  {
    forall v :: 0 <= v < |bs| ==> bs[v].id < |all| && all[bs[v].id] == bs[v]
  }

  /** The boards still in play on draw `k` are separate and none has won. */
  lemma Live(all: seq<Board>, bs: seq<Board>, boards: seq<Cells>, draws: seq<nat>, k: nat)
    requires Indexed(all, boards) && Separate(all) && Among(all, bs) && Ascending(bs) && k <= |draws|
    requires forall t :: 0 <= t < |all| ==> (all[t] in bs <==> !WonBy(boards[t], draws, k))
    ensures Separate(bs)
    ensures forall v :: 0 <= v < |bs| ==> !WonBy(bs[v].cells, draws, k)
  {
    forall v | 0 <= v < |bs| ensures !WonBy(bs[v].cells, draws, k) {
      assert all[bs[v].id] in bs;
    }
  }

  /** Where the scan of a draw resumes, in game indices, after the board
      before `u` in `bs`. */
  ghost function Resume(bs: seq<Board>, u: nat): nat
    requires u <= |bs|
  {
    if u == 0 then 0 else bs[u - 1].id + 1
  }

  /** The boards between two boards still in play have won before draw `k`,
      so they do not win on it. */
  lemma WonBetween(all: seq<Board>, bs: seq<Board>, boards: seq<Cells>, draws: seq<nat>, k: nat, u: nat)
    requires Indexed(all, boards) && Among(all, bs) && Ascending(bs) && k < |draws| && u <= |bs|
    requires forall t :: 0 <= t < |all| ==> (all[t] in bs <==> !WonBy(boards[t], draws, k))
    ensures Resume(bs, u) <= (if u < |bs| then bs[u].id else |all|)
    ensures forall t :: Resume(bs, u) <= t < (if u < |bs| then bs[u].id else |all|) ==>
              !WinsAt(boards[t], draws, k)
  {
    var end := if u < |bs| then bs[u].id else |all|;
    forall t | Resume(bs, u) <= t < end ensures !WinsAt(boards[t], draws, k) {
      forall v | 0 <= v < |bs| ensures bs[v].id != t {
        if v < u {
          assert bs[v].id <= bs[u - 1].id;
        } else if v > u {
          assert bs[u].id < bs[v].id;
        }
      }
      assert all[t] !in bs;
    }
  }

  /** So the scan of draw `k` can go straight from one board in play to the next. */
  lemma SkipWon(all: seq<Board>, bs: seq<Board>, boards: seq<Cells>, draws: seq<nat>, k: nat, u: nat, prev: int)
    requires Indexed(all, boards) && Among(all, bs) && Ascending(bs) && k < |draws| && u <= |bs|
    requires forall t :: 0 <= t < |all| ==> (all[t] in bs <==> !WonBy(boards[t], draws, k))
    ensures Resume(bs, u) <= (if u < |bs| then bs[u].id else |boards|)
    ensures ScoreAt(boards, draws, k, if u < |bs| then bs[u].id else |boards|, prev)
         == ScoreAt(boards, draws, k, Resume(bs, u), prev)
  {
    WonBetween(all, bs, boards, draws, k, u);
    ScoreSkip(boards, draws, k, Resume(bs, u), if u < |bs| then bs[u].id else |boards|, prev);
  }

  /** After the boards that won on draw `k` are removed, the rest are the
      boards that have not won after `k + 1` draws. */
  lemma AfterRemoval(all: seq<Board>, before: seq<Board>, drop: set<nat>, boards: seq<Cells>, draws: seq<nat>, k: nat)
    requires Indexed(all, boards) && Among(all, before) && Ascending(before) && k < |draws|
    requires forall v :: 0 <= v < |before| ==>
               before[v].Valid() && before[v].Marked == Marks(before[v].cells, Drawn(draws, k + 1))
    requires forall t :: 0 <= t < |all| ==> (all[t] in before <==> !WonBy(boards[t], draws, k))
    requires forall v :: 0 <= v < |before| ==> (v in drop <==> WonBy(before[v].cells, draws, k + 1))
    ensures Among(all, Without(before, drop)) && Ascending(Without(before, drop))
    ensures forall v :: 0 <= v < |Without(before, drop)| ==>
              Without(before, drop)[v].Valid()
              && Without(before, drop)[v].Marked == Marks(Without(before, drop)[v].cells, Drawn(draws, k + 1))
    ensures forall t :: 0 <= t < |all| ==> (all[t] in Without(before, drop) <==> !WonBy(boards[t], draws, k + 1))
  {
    var after := Without(before, drop);
    WithoutFrom(before, drop);
    WithoutHas(before, drop);
    WithoutAscending(before, drop);
    forall v | 0 <= v < |after|
      ensures after[v].id < |all| && all[after[v].id] == after[v]
      ensures after[v].Valid() && after[v].Marked == Marks(after[v].cells, Drawn(draws, k + 1))
    {
      var i: nat :| i < |before| && i !in drop && after[v] == before[i];
    }
    forall t | 0 <= t < |all| ensures all[t] in after <==> !WonBy(boards[t], draws, k + 1) {
      if all[t] in after {
        var w :| 0 <= w < |after| && after[w] == all[t];
        var i: nat :| i < |before| && i !in drop && after[w] == before[i];
      }
      if !WonBy(boards[t], draws, k + 1) {
        if WonBy(boards[t], draws, k) {
          WonByMonotone(boards[t], draws, k, k + 1);
        }
        var i :| 0 <= i < |before| && before[i] == all[t];
      }
    }
  }

  /** One board marked with draw `k` in `part2`: when it wins, its score
      becomes the score. */
  method PlayBoard(b: Board, ghost boards: seq<Cells>, draws: seq<nat>, k: nat, ghost t: nat, ghost prev: int,
                   score0: int) returns (won: bool, score: int)
    requires b.Valid() && k < |draws| && t < |boards| && boards[t] == b.cells
    requires b.Marked == Marks(b.cells, Drawn(draws, k)) && !WonBy(b.cells, draws, k)
    requires score0 == ScoreAt(boards, draws, k, t, prev)
    modifies b, b.marks
    ensures b.Valid() && b.Marked == Marks(b.cells, Drawn(draws, k + 1))
    ensures won <==> WonBy(b.cells, draws, k + 1)
    ensures score == ScoreAt(boards, draws, k, t + 1, prev)
  {
    won := Turn(b, draws, k);
    score := score0;
    if won {
      var s := b.Score();
      score := draws[k] as int * s as int;
    }
    ScoreStep(boards, draws, k, t, prev, won, score, score0);
  }

  /** The indices are increasing and index into `xs`. */
  predicate Increasing(indices: seq<nat>, n: nat)
  {
    && (forall i :: 0 <= i < |indices| ==> indices[i] < n)
    && (forall i, j :: 0 <= i < j < |indices| ==> indices[i] < indices[j])
  }

  /** The removal loop of `part2`: removes the elements at the given
      indices, highest index first, so that each removal hits the element
      that was at that index. */
  method RemoveAt<T>(xs: seq<T>, indices: seq<nat>) returns (rest: seq<T>)
    requires Increasing(indices, |xs|)
    ensures rest == Without(xs, set i | 0 <= i < |indices| :: indices[i])
  {
    ghost var drop: set<nat> := {};
    rest := xs;
    var q: nat := |indices|;
    WithoutNone(xs, drop);
    while q > 0
      invariant q <= |indices|
      invariant drop == set i | q <= i < |indices| :: indices[i]
      invariant rest == Without(xs, drop)
    {
      q := q - 1;
      WithoutRemove(xs, drop, indices[q]);
      rest := rest[..indices[q]] + rest[indices[q] + 1..];
      drop := drop + {indices[q]};
    }
  }

  /** The boards still in play marked with draw `k`, in order: the scores
      of the winners update the score, and their indices are collected. */
  method PlayDraw(ghost all: seq<Board>, bs: seq<Board>, ghost boards: seq<Cells>, draws: seq<nat>, k: nat,
                  score0: int) returns (score: int, removal: seq<nat>)
    requires k < |draws| && Indexed(all, boards) && Separate(all) && Among(all, bs) && Ascending(bs)
    requires forall v :: 0 <= v < |bs| ==> bs[v].Valid() && bs[v].Marked == Marks(bs[v].cells, Drawn(draws, k))
    requires forall t :: 0 <= t < |all| ==> (all[t] in bs <==> !WonBy(boards[t], draws, k))
    modifies set v | 0 <= v < |bs| :: bs[v], set v | 0 <= v < |bs| :: bs[v].marks
    ensures forall v :: 0 <= v < |bs| ==> bs[v].Valid() && bs[v].Marked == Marks(bs[v].cells, Drawn(draws, k + 1))
    ensures Increasing(removal, |bs|)
    ensures forall v :: 0 <= v < |bs| ==> (v in removal <==> WonBy(bs[v].cells, draws, k + 1))
    ensures score == ScoreAt(boards, draws, k, |boards|, score0)
  {
    Live(all, bs, boards, draws, k);
    score := score0;
    removal := [];
    for u: nat := 0 to |bs|
      invariant forall v :: 0 <= v < |bs| ==>
                  bs[v].Valid() && bs[v].Marked == Marks(bs[v].cells, Drawn(draws, if v < u then k + 1 else k))
      invariant Increasing(removal, u)
      invariant forall v :: 0 <= v < u ==> (v in removal <==> WonBy(bs[v].cells, draws, k + 1))
      invariant score == ScoreAt(boards, draws, k, Resume(bs, u), score0)
    {
      score, removal := PlayNext(all, bs, boards, draws, k, u, score0, score, removal);
    }
    SkipWon(all, bs, boards, draws, k, |bs|, score0);
  }

  /** One pass of the inner loop of `part2`: the board at `u` marked, its
      score taken if it wins, and its index kept for removal. */
  method PlayNext(ghost all: seq<Board>, bs: seq<Board>, ghost boards: seq<Cells>, draws: seq<nat>, k: nat,
                  u: nat, ghost score0: int, score1: int, removal1: seq<nat>) returns (score: int, removal: seq<nat>)
    requires k < |draws| && u < |bs| && Indexed(all, boards) && Among(all, bs) && Ascending(bs) && Separate(bs)
    requires forall v :: 0 <= v < |bs| ==> !WonBy(bs[v].cells, draws, k)
    requires forall t :: 0 <= t < |all| ==> (all[t] in bs <==> !WonBy(boards[t], draws, k))
    requires forall v :: 0 <= v < |bs| ==>
               bs[v].Valid() && bs[v].Marked == Marks(bs[v].cells, Drawn(draws, if v < u then k + 1 else k))
    requires Increasing(removal1, u)
    requires forall v :: 0 <= v < u ==> (v in removal1 <==> WonBy(bs[v].cells, draws, k + 1))
    requires score1 == ScoreAt(boards, draws, k, Resume(bs, u), score0)
    modifies bs[u], bs[u].marks
    ensures forall v :: 0 <= v < |bs| ==>
              bs[v].Valid() && bs[v].Marked == Marks(bs[v].cells, Drawn(draws, if v < u + 1 then k + 1 else k))
    ensures Increasing(removal, u + 1)
    ensures forall v :: 0 <= v < u + 1 ==> (v in removal <==> WonBy(bs[v].cells, draws, k + 1))
    ensures score == ScoreAt(boards, draws, k, Resume(bs, u + 1), score0)
  {
    SkipWon(all, bs, boards, draws, k, u, score0);
    assert boards[bs[u].id] == bs[u].cells;
    var won;
    won, score := PlayBoard(bs[u], boards, draws, k, bs[u].id, score0, score1);
    removal := removal1;
    if won {
      removal := removal + [u];
    }
  }

  /** The boards in play before draw `k`: the boards of the game, in order,
      that have not won yet, each marked with the first `k` draws. */
  ghost predicate InPlay(all: seq<Board>, bs: seq<Board>, boards: seq<Cells>, draws: seq<nat>, k: nat)
    reads set v | 0 <= v < |bs| :: bs[v]
    reads set v | 0 <= v < |bs| :: bs[v].marks
  {
    && k <= |draws| && Indexed(all, boards) && Separate(all) && Among(all, bs) && Ascending(bs)
    && (forall v :: 0 <= v < |bs| ==> bs[v].Valid() && bs[v].Marked == Marks(bs[v].cells, Drawn(draws, k)))
    && (forall t :: 0 <= t < |all| ==> (all[t] in bs <==> !WonBy(boards[t], draws, k)))
  }

  /** One pass of the outer loop of `part2`: draw `k` on the boards in play,
      then the winners removed. */
  method Round(ghost all: seq<Board>, bs: seq<Board>, ghost boards: seq<Cells>, draws: seq<nat>, k: nat,
               score0: int) returns (rest: seq<Board>, score: int)
    requires k < |draws| && InPlay(all, bs, boards, draws, k)
    modifies set v | 0 <= v < |bs| :: bs[v], set v | 0 <= v < |bs| :: bs[v].marks
    ensures InPlay(all, rest, boards, draws, k + 1)
    ensures score == ScoreAt(boards, draws, k, |boards|, score0)
  {
    var removal;
    score, removal := PlayDraw(all, bs, boards, draws, k, score0);
    // `removal_indices.sort()` leaves the indices as they are: they were
    // pushed in increasing order
    rest := RemoveAt(bs, removal);
    AfterRemoval(all, bs, set i | 0 <= i < |removal| :: removal[i], boards, draws, k);
  }

  /** `part2`: plays every draw on the boards still in play, remembers the
      score of each board that wins, and takes the winners out after the
      draw; the result is the score of the last win, 0 if no board wins. */
  method Part2(game: Bingo) returns (r: int)
    requires forall t :: 0 <= t < |game.boards| ==> OnGrid(game.boards[t])
    ensures r == FinalScore(game.boards, game.draws, |game.draws|)
  {
    var draws, boards := game.draws, game.boards;
    var bs := StartGame(boards, draws);
    ghost var all := bs;
    var score := 0;
    for k := 0 to |draws|
      invariant InPlay(all, bs, boards, draws, k)
      invariant forall t :: 0 <= t < |all| ==> fresh(all[t]) && fresh(all[t].marks)
      invariant score == FinalScore(boards, draws, k)
    {
      bs, score := Round(all, bs, boards, draws, k, score);
    }
    r := score;
  }

  /** The boards of `part2` before the first draw: all of them, unmarked. */
  method StartGame(boards: seq<Cells>, draws: seq<nat>) returns (bs: seq<Board>)
    requires forall t :: 0 <= t < |boards| ==> OnGrid(boards[t])
    ensures InPlay(bs, bs, boards, draws, 0)
    ensures forall t :: 0 <= t < |bs| ==> fresh(bs[t]) && fresh(bs[t].marks)
  {
    bs := NewBoards(boards);
    forall t | 0 <= t < |bs| ensures !WonBy(boards[t], draws, 0) && bs[t] in bs {
      NothingWonAtStart(boards[t], draws);
    }
  }
}
