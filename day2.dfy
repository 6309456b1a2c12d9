/** Day 2 (src/day2.rs): submarine commands "forward d", "down d", "up d",
    folded under two different rules into a position and a depth. */
module Day2 {
  import opened Text

  datatype Direction = Forward | Down | Up

  datatype Command = Command(direction: Direction, distance: nat)

  /** The command word of each direction. */
  function Word(d: Direction): string
  {
    match d
    case Forward => "forward"
    case Down => "down"
    case Up => "up"
  }

  /** The direction a command word names; `None` for any other word (the
      source's `unreachable!()`). */
  function DirectionOf(w: string): (r: Option<Direction>)
    ensures r.Some? <==> w in {"forward", "down", "up"}
    ensures r.Some? ==> Word(r.value) == w
  {
    if w == "forward" then Some(Forward)
    else if w == "down" then Some(Down)
    else if w == "up" then Some(Up)
    else None
  }

  /** One line: split at the first space into a command word and a decimal `u32`. */
  function ParseCommand(line: string): (r: Option<Command>)
    ensures r.Some? ==> r.value.distance < U32_LIMIT
    ensures r.Some? ==> exists d :: line == Word(r.value.direction) + " " + d
                                   && ParseRadix(d, 10) == Some(r.value.distance)
  {
    match SplitOnce(line, " ")
    case None => None
    case Some((w, d)) =>
      match DirectionOf(w)
      case None => None
      case Some(dir) =>
        match ParseRadix(d, 10)
        case None => None
        case Some(n) => Some(Command(dir, n))
  }

  /** Any line made of a command word, one space and text `ParseRadix`
      accepts parses, so "forward 007" and "down +7" are commands. */
  lemma ParseCommandOf(dir: Direction, d: string)
    ensures ParseCommand(Word(dir) + " " + d) ==
              (match ParseRadix(d, 10)
               case Some(n) => Some(Command(dir, n))
               case None => None)
  {
    assert ' ' !in Word(dir);
    SplitOnceJoin(Word(dir), " ", d);
  }

  function ParseEach(lines: seq<string>): (r: Option<seq<Command>>)
    ensures r.Some? ==> |r.value| == |lines|
    ensures r.Some? ==> forall k :: 0 <= k < |lines| ==> ParseCommand(lines[k]) == Some(r.value[k])
    ensures r.None? ==> exists k :: 0 <= k < |lines| && ParseCommand(lines[k]).None?
  {
    if lines == [] then Some([])
    else
      match ParseCommand(lines[0])
      case None => None
      case Some(c) =>
        match ParseEach(lines[1..])
        case None => None
        case Some(rest) => Some([c] + rest)
  }

  /** `parse_commands`: one command per input line, in order. */
  function ParseCommands(input: string): (r: Option<seq<Command>>)
    ensures r.Some? ==> |r.value| == |Lines(input)|
    ensures r.Some? ==> forall k :: 0 <= k < |r.value| ==> ParseCommand(Lines(input)[k]) == Some(r.value[k])
    ensures r.None? ==> exists k :: 0 <= k < |Lines(input)| && ParseCommand(Lines(input)[k]).None?
  {
    ParseEach(Lines(input))
  }

  /** The text of one command. */
  function Show(c: Command): string
  {
    Word(c.direction) + " " + Format(c.distance, 10)
  }

  function ShowAll(cs: seq<Command>): (r: seq<string>)
    ensures |r| == |cs|
    ensures forall k :: 0 <= k < |cs| ==> r[k] == Show(cs[k])
  {
    if cs == [] then [] else [Show(cs[0])] + ShowAll(cs[1..])
  }

  /** Parsing the text of a command gives the command back. */
  lemma ParseShow(c: Command)
    requires c.distance < U32_LIMIT
    ensures ParseCommand(Show(c)) == Some(c)
    ensures PlainLine(Show(c))
  {
    var w, d := Word(c.direction), Format(c.distance, 10);
    assert ' ' !in w;
    SplitOnceJoin(w, " ", d);
    assert SplitOnce(Show(c), " ") == Some((w, d));
    assert DirectionOf(w) == Some(c.direction);
    ParseFormat(c.distance, 10);
    ShowPlain(c);
  }

  /** The text of a command is a single line. */
  lemma ShowPlain(c: Command)
    ensures PlainLine(Show(c))
  {
    var w, d := Word(c.direction), Format(c.distance, 10);
    FormatHasNo(c.distance, 10, '\n');
    assert '\n' !in w + " ";
    assert Show(c)[|Show(c)| - 1] == d[|d| - 1];
  }

  /** Parsing the text of a list of commands gives the commands back. */
  lemma ParseShowAll(cs: seq<Command>)
    requires forall k :: 0 <= k < |cs| ==> cs[k].distance < U32_LIMIT
    ensures ParseCommands(JoinLines(ShowAll(cs))) == Some(cs)
  {
    var ls := ShowAll(cs);
    forall k | 0 <= k < |ls| ensures PlainLine(ls[k]) && ParseCommand(ls[k]) == Some(cs[k]) {
      ParseShow(cs[k]);
    }
    LinesOfJoin(ls);
    var r := ParseEach(ls);
    assert r.Some?;
    assert r.value == cs;
  }

  // ------------------------------------------------------------------ part 1

  /** The sum of the distances of the commands going in direction `d`. */
  function Total(cs: seq<Command>, d: Direction): nat
  {
    if cs == [] then 0
    else Total(cs[..|cs| - 1], d) + (if cs[|cs| - 1].direction == d then cs[|cs| - 1].distance else 0)
  }

  /** `part1`: forward moves add to the position, down and up add to and take
      from the depth; the result is position times depth. */
  method Part1(commands: seq<Command>) returns (r: int)
    ensures r == Total(commands, Forward) * (Total(commands, Down) - Total(commands, Up))
  {
    var position: int := 0;
    var depth: int := 0;
    for k := 0 to |commands|
      invariant position == Total(commands[..k], Forward)
      invariant depth == Total(commands[..k], Down) - Total(commands[..k], Up)
    {
      assert commands[..k + 1][..k] == commands[..k];
      var d := commands[k].distance;
      match commands[k].direction
      case Forward => position := position + d;
      case Down => depth := depth + d;
      case Up => depth := depth - d;
    }
    assert commands[..|commands|] == commands;
    r := position * depth;
  }

  lemma {:induction false} TotalAppend(a: seq<Command>, b: seq<Command>, d: Direction)
    ensures Total(a + b, d) == Total(a, d) + Total(b, d)
    decreases |b|
  {
    if b == [] {
      assert a + b == a;
    } else {
      assert (a + b)[..|a + b| - 1] == a + b[..|b| - 1];
      TotalAppend(a, b[..|b| - 1], d);
    }
  }

  /** Taking out the command at `j` takes one copy of it out of the multiset. */
  lemma TakeOut(b: seq<Command>, j: nat)
    requires j < |b|
    ensures multiset(b[..j] + b[j + 1..]) == multiset(b) - multiset{b[j]}
  {
    assert b == b[..j] + [b[j]] + b[j + 1..];
  }

  /** Taking out the command at `j` takes its distance out of the total. */
  lemma TotalTakeOut(b: seq<Command>, j: nat, d: Direction)
    requires j < |b|
    ensures Total(b, d) == Total(b[..j] + b[j + 1..], d) + Total([b[j]], d)
  {
    assert b == b[..j] + [b[j]] + b[j + 1..];
    TotalAppend(b[..j] + [b[j]], b[j + 1..], d);
    TotalAppend(b[..j], [b[j]], d);
    TotalAppend(b[..j], b[j + 1..], d);
  }

  /** The totals, and so the result of `part1`, do not depend on the order of
      the commands. */
  lemma {:induction false} TotalIsOrderFree(a: seq<Command>, b: seq<Command>, d: Direction)
    requires multiset(a) == multiset(b)
    ensures Total(a, d) == Total(b, d)
    decreases |a|
  {
    if a != [] {
      var x := a[|a| - 1];
      var a' := a[..|a| - 1];
      assert a == a' + [x];
      assert x in multiset(b);
      var j :| 0 <= j < |b| && b[j] == x;
      var b' := b[..j] + b[j + 1..];
      TakeOut(b, j);
      assert multiset(a') == multiset(a) - multiset{x};
      TotalIsOrderFree(a', b', d);
      TotalTakeOut(b, j, d);
      TotalAppend(a', [x], d);
    }
  }

  lemma Part1IsOrderFree(a: seq<Command>, b: seq<Command>)
    requires multiset(a) == multiset(b)
    ensures Total(a, Forward) * (Total(a, Down) - Total(a, Up))
         == Total(b, Forward) * (Total(b, Down) - Total(b, Up))
  {
    TotalIsOrderFree(a, b, Forward);
    TotalIsOrderFree(a, b, Down);
    TotalIsOrderFree(a, b, Up);
  }

  // ------------------------------------------------------------------ part 2

  datatype Submarine = Submarine(position: int, depth: int, aim: int)

  /** The state after the commands of `cs` under the rules of `part2`: down
      and up turn the aim, forward moves ahead and dives by aim times distance. */
  function Steer(cs: seq<Command>): Submarine
  {
    if cs == [] then Submarine(0, 0, 0)
    else
      var s := Steer(cs[..|cs| - 1]);
      var c := cs[|cs| - 1];
      match c.direction
      case Forward => Submarine(s.position + c.distance, s.depth + s.aim * c.distance, s.aim)
      case Down => s.(aim := s.aim + c.distance)
      case Up => s.(aim := s.aim - c.distance)
  }

  /** `part2`: the product of the final position and depth of `Steer`. */
  method Part2(commands: seq<Command>) returns (r: int)
    ensures r == Steer(commands).position * Steer(commands).depth
  {
    var position: int := 0;
    var depth: int := 0;
    var aim: int := 0;
    for k := 0 to |commands|
      invariant Steer(commands[..k]) == Submarine(position, depth, aim)
    {
      assert commands[..k + 1][..k] == commands[..k];
      var d := commands[k].distance;
      match commands[k].direction
      case Forward =>
        position := position + d;
        depth := depth + aim * d;
      case Down => aim := aim + d;
      case Up => aim := aim - d;
    }
    assert commands[..|commands|] == commands;
    r := position * depth;
  }

  /** Under both rules the position is the sum of the forward distances, and
      the aim of `part2` is exactly the depth of `part1`. */
  lemma {:induction false} SteerMatchesTotals(cs: seq<Command>)
    ensures Steer(cs).position == Total(cs, Forward)
    ensures Steer(cs).aim == Total(cs, Down) - Total(cs, Up)
  {
    if cs != [] {
      SteerMatchesTotals(cs[..|cs| - 1]);
    }
  }

  /** The depth of `part2` adds, for every forward command, its distance times
      the aim reached just before it. */
  function AimedDepth(cs: seq<Command>): int
  {
    if cs == [] then 0
    else
      var p := cs[..|cs| - 1];
      var c := cs[|cs| - 1];
      AimedDepth(p) + (if c.direction == Forward then (Total(p, Down) - Total(p, Up)) * c.distance else 0)
  }

  lemma {:induction false} SteerDepth(cs: seq<Command>)
    ensures Steer(cs).depth == AimedDepth(cs)
  {
    if cs != [] {
      SteerDepth(cs[..|cs| - 1]);
      SteerMatchesTotals(cs[..|cs| - 1]);
    }
  }

  /** With no down or up command the aim stays 0, so `part2` ends at depth 0. */
  lemma {:induction false} LevelCourse(cs: seq<Command>)
    requires forall k :: 0 <= k < |cs| ==> cs[k].direction == Forward
    ensures Steer(cs).depth == 0 && Steer(cs).aim == 0
  {
    if cs != [] {
      LevelCourse(cs[..|cs| - 1]);
    }
  }
}
