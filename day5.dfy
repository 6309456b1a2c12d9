/** Day 5: vents drawn as line segments on a grid of points; the points where
    two or more segments overlap, counted by walking the segments point by
    point and, for part 1, by intersecting the segments pairwise. */
module Day5 {
  import opened Text

  // ------------------------------------------------------------------ data

  datatype Point = Point(x: nat, y: nat)

  datatype Direction = Horizontal | Vertical | Diagonal

  datatype Line = Line(start: Point, end: Point, direction: Direction)

  function Min(a: int, b: int): int { if a <= b then a else b }

  function Max(a: int, b: int): int { if a <= b then b else a }

  /** How far apart `a` and `b` are. */
  function AbsDiff(a: nat, b: nat): nat { if a <= b then b - a else a - b }

  /** `v` lies between `a` and `b`, whichever of the two is larger. */
  predicate Between(v: nat, a: nat, b: nat)
  {
    Min(a, b) <= v <= Max(a, b)
  }

  /** `p` lies in the box with corners `s` and `e`. */
  predicate InBox(p: Point, s: Point, e: Point)
  {
    Between(p.x, s.x, e.x) && Between(p.y, s.y, e.y)
  }

  /** The direction `parse_lines` gives a segment: the vertical test comes
      first, so a segment of one point is vertical. */
  function Classify(s: Point, e: Point): (d: Direction)
    ensures d == Vertical <==> s.x == e.x
    ensures d == Horizontal <==> s.x != e.x && s.y == e.y
    ensures d == Diagonal <==> s.x != e.x && s.y != e.y
  {
    if s.x == e.x then Vertical
    else if s.y == e.y then Horizontal
    else Diagonal
  }

  /** A segment as `parse_lines` builds it. */
  predicate Classified(l: Line)
  {
    l.direction == Classify(l.start, l.end)
  }

  // ------------------------------------------------------- walking a segment

  /** One coordinate moved one unit towards `b` (the signum step of
      `LineIterator::next`). */
  function Toward(a: nat, b: nat): (r: nat)
    ensures AbsDiff(r, b) == if a == b then 0 else AbsDiff(a, b) - 1
  {
    if a < b then a + 1 else if a > b then a - 1 else a
  }

  /** The point after `p` on the way to `e`. */
  function Step(p: Point, e: Point): Point
  {
    Point(Toward(p.x, e.x), Toward(p.y, e.y))
  }

  /** The number of steps from `s` to `e`: the larger of the two gaps. */
  function Dist(s: Point, e: Point): nat
  {
    Max(AbsDiff(s.x, e.x), AbsDiff(s.y, e.y))
  }

  lemma StepCloser(p: Point, e: Point)
    requires p != e
    ensures Dist(Step(p, e), e) == Dist(p, e) - 1
  {
  }

  /** The points `LineIterator` yields for a segment from `s` to `e`, in order. */
  function Trace(s: Point, e: Point): (r: seq<Point>)
    decreases Dist(s, e)
    ensures |r| == Dist(s, e) + 1 && r[0] == s
  {
    if s == e then [s]
    else
      StepCloser(s, e);
      [s] + Trace(Step(s, e), e)
  }

  /** The `i`-th coordinate from `a` towards `b`, stopping at `b`. */
  function Along(a: nat, b: nat, i: nat): nat
  {
    if a <= b then a + Min(i, b - a) else a - Min(i, a - b)
  }

  lemma AlongStep(a: nat, b: nat, i: nat)
    requires i >= 1
    ensures Along(Toward(a, b), b, i - 1) == Along(a, b, i)
  {
  }

  /** Where the `i`-th point of a segment is: each coordinate has moved `i`
      units towards the end, or has reached it. */
  lemma {:induction false} TraceAt(s: Point, e: Point, i: nat)
    requires i < |Trace(s, e)|
    ensures Trace(s, e)[i] == Point(Along(s.x, e.x, i), Along(s.y, e.y, i))
    decreases i
  {
    if i > 0 {
      TraceAt(Step(s, e), e, i - 1);
      AlongStep(s.x, e.x, i);
      AlongStep(s.y, e.y, i);
    }
  }

  /** The `i`-th point is `i` steps closer to the end. */
  lemma {:induction false} TraceDist(s: Point, e: Point, i: nat)
    requires i < |Trace(s, e)|
    ensures Dist(Trace(s, e)[i], e) == Dist(s, e) - i
    decreases i
  {
    if i > 0 {
      StepCloser(s, e);
      TraceDist(Step(s, e), e, i - 1);
    }
  }

  /** Each point of a segment is the step after the one before it. */
  lemma {:induction false} TraceNext(s: Point, e: Point, i: nat)
    requires i + 1 < |Trace(s, e)|
    ensures Trace(s, e)[i + 1] == Step(Trace(s, e)[i], e)
    decreases i
  {
    if i > 0 {
      TraceNext(Step(s, e), e, i - 1);
    }
  }

  /** The walk ends at `e`, and reaches it only at its last point. */
  lemma TraceEnd(s: Point, e: Point, i: nat)
    requires i < |Trace(s, e)|
    ensures Trace(s, e)[i] == e <==> i == |Trace(s, e)| - 1
  {
    TraceDist(s, e, i);
  }

  /** No point of a segment is yielded twice. */
  lemma TraceDistinct(s: Point, e: Point)
    ensures forall i, j :: 0 <= i < j < |Trace(s, e)| ==> Trace(s, e)[i] != Trace(s, e)[j]
  {
    forall i, j | 0 <= i < j < |Trace(s, e)| ensures Trace(s, e)[i] != Trace(s, e)[j] {
      TraceDist(s, e, i);
      TraceDist(s, e, j);
    }
  }

  /** Every point of a segment lies in the box spanned by its ends. */
  lemma TraceBox(s: Point, e: Point)
    ensures forall p :: p in Trace(s, e) ==> InBox(p, s, e)
  {
    forall i | 0 <= i < |Trace(s, e)| ensures InBox(Trace(s, e)[i], s, e) {
      TraceAt(s, e, i);
    }
  }

  /** A horizontal or vertical segment covers exactly the points of its box. */
  lemma StraightCells(s: Point, e: Point)
    requires s.x == e.x || s.y == e.y
    ensures forall p :: p in Trace(s, e) <==> InBox(p, s, e)
  {
    TraceBox(s, e);
    forall p | InBox(p, s, e) ensures p in Trace(s, e) {
      var i := if s.x == e.x then AbsDiff(s.y, p.y) else AbsDiff(s.x, p.x);
      TraceAt(s, e, i);
    }
  }

  /** What the classification says about the walk: a vertical segment keeps
      its x, a horizontal one keeps its y and not its x, a diagonal one
      keeps neither. */
  lemma ClassifyTrace(l: Line)
    requires Classified(l)
    ensures l.direction == Vertical <==> forall p :: p in Trace(l.start, l.end) ==> p.x == l.start.x
    ensures l.direction == Horizontal <==>
              (forall p :: p in Trace(l.start, l.end) ==> p.y == l.start.y) &&
              (exists p :: p in Trace(l.start, l.end) && p.x != l.start.x)
    ensures l.direction == Diagonal <==>
              (exists p :: p in Trace(l.start, l.end) && p.x != l.start.x) &&
              (exists p :: p in Trace(l.start, l.end) && p.y != l.start.y)
  {
    var t := Trace(l.start, l.end);
    TraceBox(l.start, l.end);
    TraceEnd(l.start, l.end, |t| - 1);
    assert l.end in t;
  }

  // ------------------------------------------------------------- parsing

  /** `Point::from_str`: "x,y", split at the first comma, each side a
      decimal `u32`; anything else is a panic, `None` here. */
  function ParsePoint(s: string): (r: Option<Point>)
    ensures r.Some? ==> r.value.x < U32_LIMIT && r.value.y < U32_LIMIT
    ensures r.Some? ==> exists a, b :: s == a + "," + b && ',' !in a
                                 && ParseRadix(a, 10) == Some(r.value.x) && ParseRadix(b, 10) == Some(r.value.y)
    ensures ',' !in s ==> r.None?
  {
    SplitOnceNone(s, ",");
    match SplitOnce(s, ",")
    case None => None
    case Some((a, b)) =>
      SplitOnceBefore(s, ',');
      match (ParseRadix(a, 10), ParseRadix(b, 10))
      case (Some(x), Some(y)) => Some(Point(x, y))
      case _ => None
  }

  /** A text with a comma is a point exactly when both sides of its first
      comma are decimal `u32`s, and then it is the point of those two numbers. */
  lemma ParsePointOf(a: string, b: string)
    requires ',' !in a
    ensures ParsePoint(a + "," + b).Some? <==> ParseRadix(a, 10).Some? && ParseRadix(b, 10).Some?
    ensures ParsePoint(a + "," + b).Some? ==>
              ParsePoint(a + "," + b).value == Point(ParseRadix(a, 10).value, ParseRadix(b, 10).value)
  {
    SplitOnceJoin(a, ",", b);
  }

  /** One line of `parse_lines`: "start -> end", classified. */
  function ParseLine(l: string): (r: Option<Line>)
    ensures r.Some? ==> Classified(r.value)
    ensures r.Some? ==> exists a, b :: l == a + " -> " + b
                                 && ParsePoint(a) == Some(r.value.start) && ParsePoint(b) == Some(r.value.end)
    ensures (forall i: nat :: !OccursAt(l, " -> ", i)) ==> r.None?
  {
    SplitOnceNone(l, " -> ");
    match SplitOnce(l, " -> ")
    case None => None
    case Some((a, b)) =>
      match (ParsePoint(a), ParsePoint(b))
      case (Some(s), Some(e)) => Some(Line(s, e, Classify(s, e)))
      case _ => None
  }

  /** A text "a -> b" whose first part has no space is a segment exactly
      when both parts are points, and then it is the segment between them. */
  lemma ParseLineOf(a: string, b: string)
    requires ' ' !in a
    ensures ParseLine(a + " -> " + b).Some? <==> ParsePoint(a).Some? && ParsePoint(b).Some?
    ensures ParseLine(a + " -> " + b).Some? ==>
              ParseLine(a + " -> " + b).value == Line(ParsePoint(a).value, ParsePoint(b).value,
                                                      Classify(ParsePoint(a).value, ParsePoint(b).value))
  {
    SplitOnceJoin(a, " -> ", b);
  }

  function ParseEach(ls: seq<string>): (r: Option<seq<Line>>)
    ensures r.Some? ==> |r.value| == |ls|
    ensures r.Some? ==> forall k :: 0 <= k < |ls| ==> ParseLine(ls[k]) == Some(r.value[k])
    ensures r.None? ==> exists k :: 0 <= k < |ls| && ParseLine(ls[k]).None?
  {
    if ls == [] then Some([])
    else
      match ParseLine(ls[0])
      case None => None
      case Some(l) =>
        match ParseEach(ls[1..])
        case None => None
        case Some(rest) => Some([l] + rest)
  }

  /** `parse_lines`: one segment per input line, in order. */
  function ParseLines(input: string): (r: Option<seq<Line>>)
    ensures r.Some? ==> |r.value| == |Lines(input)|
    ensures r.Some? ==> forall k :: 0 <= k < |r.value| ==> ParseLine(Lines(input)[k]) == Some(r.value[k])
    ensures r.None? ==> exists k :: 0 <= k < |Lines(input)| && ParseLine(Lines(input)[k]).None?
  {
    ParseEach(Lines(input))
  }

  function ShowPoint(p: Point): string
  {
    Format(p.x, 10) + "," + Format(p.y, 10)
  }

  function ShowLine(l: Line): string
  {
    ShowPoint(l.start) + " -> " + ShowPoint(l.end)
  }

  function ShowAll(ls: seq<Line>): (r: seq<string>)
    ensures |r| == |ls|
    ensures forall k :: 0 <= k < |ls| ==> r[k] == ShowLine(ls[k])
  {
    if ls == [] then [] else [ShowLine(ls[0])] + ShowAll(ls[1..])
  }

  /** A segment whose coordinates fit in a `u32`. */
  predicate Fits(l: Line)
  {
    l.start.x < U32_LIMIT && l.start.y < U32_LIMIT && l.end.x < U32_LIMIT && l.end.y < U32_LIMIT
  }

  lemma ParseShowPoint(p: Point)
    requires p.x < U32_LIMIT && p.y < U32_LIMIT
    ensures ParsePoint(ShowPoint(p)) == Some(p)
    ensures ' ' !in ShowPoint(p) && '\n' !in ShowPoint(p)
    ensures |ShowPoint(p)| > 0 && ShowPoint(p)[|ShowPoint(p)| - 1] != '\r'
  {
    var a, b := Format(p.x, 10), Format(p.y, 10);
    FormatHasNo(p.x, 10, ',');
    SplitOnceJoin(a, ",", b);
    ParseFormat(p.x, 10);
    ParseFormat(p.y, 10);
    ShowPointPlain(p);
  }

  /** The text of a point has no space or line feed and ends in a digit. */
  lemma ShowPointPlain(p: Point)
    ensures ' ' !in ShowPoint(p) && '\n' !in ShowPoint(p)
    ensures |ShowPoint(p)| > 0 && ShowPoint(p)[|ShowPoint(p)| - 1] != '\r'
  {
    var b := Format(p.y, 10);
    FormatHasNo(p.x, 10, ' ');
    FormatHasNo(p.y, 10, ' ');
    FormatHasNo(p.x, 10, '\n');
    FormatHasNo(p.y, 10, '\n');
    assert ShowPoint(p)[|ShowPoint(p)| - 1] == b[|b| - 1];
  }

  /** Parsing the text of a segment gives the segment back. */
  lemma ParseShowLine(l: Line)
    requires Fits(l) && Classified(l)
    ensures ParseLine(ShowLine(l)) == Some(l)
    ensures PlainLine(ShowLine(l))
  {
    ParseShowPoint(l.start);
    ParseShowPoint(l.end);
    ShowLineSplits(l);
    ShowLinePlain(l);
  }

  lemma ShowLineSplits(l: Line)
    ensures SplitOnce(ShowLine(l), " -> ") == Some((ShowPoint(l.start), ShowPoint(l.end)))
  {
    ShowPointPlain(l.start);
    SplitOnceJoin(ShowPoint(l.start), " -> ", ShowPoint(l.end));
  }

  lemma ShowLinePlain(l: Line)
    ensures PlainLine(ShowLine(l))
  {
    var a, b := ShowPoint(l.start), ShowPoint(l.end);
    ShowPointPlain(l.start);
    ShowPointPlain(l.end);
    assert ShowLine(l) == a + " -> " + b;
    assert ShowLine(l)[|ShowLine(l)| - 1] == b[|b| - 1];
  }

  /** Parsing the text of a list of segments gives the segments back. */
  lemma ParseShowAll(ls: seq<Line>)
    requires forall k :: 0 <= k < |ls| ==> Fits(ls[k]) && Classified(ls[k])
    ensures ParseLines(JoinLines(ShowAll(ls))) == Some(ls)
  {
    var text := ShowAll(ls);
    forall k | 0 <= k < |text| ensures PlainLine(text[k]) && ParseLine(text[k]) == Some(ls[k]) {
      ParseShowLine(ls[k]);
    }
    LinesOfJoin(text);
    var r := ParseEach(text);
    assert r.Some?;
    assert r.value == ls;
  }

  // ------------------------------------------------------ the point iterator

  /** `LineIterator`: yields the points of a segment one by one, `None` once
      past the end. */
  class LineIterator {
    var current: Option<Point>
    const start: Point
    const end: Point
    /** The points yielded since the walk began. */
    ghost var Yielded: seq<Point>
    /** `None` has been returned after the last point. */
    ghost var Finished: bool

    ghost predicate Valid()
      reads this
    {
      && |Yielded| <= |Trace(start, end)|
      && Yielded == Trace(start, end)[..|Yielded|]
      && (Finished ==> |Yielded| == |Trace(start, end)|)
      && current == (if Finished || Yielded == [] then None else Some(Yielded[|Yielded| - 1]))
    }

    /** `into_iter`. */
    constructor (l: Line)
      ensures Valid() && start == l.start && end == l.end
      ensures Yielded == [] && !Finished
    {
      current := None;
      start := l.start;
      end := l.end;
      Yielded := [];
      Finished := false;
    }

    /** `next`: the first call yields `start`, each later call the next
        point of the walk, and the call after `end` yields `None`; the call
        after that starts over. */
    method Next() returns (p: Option<Point>)
      requires Valid()
      modifies this
      ensures Valid() && p == current
      ensures old(Finished) || old(Yielded) == [] ==> p == Some(start) && Yielded == [start] && !Finished
      ensures !old(Finished) && old(Yielded) != [] && |old(Yielded)| < |Trace(start, end)| ==>
                p == Some(Trace(start, end)[|old(Yielded)|]) && Yielded == old(Yielded) + [p.value] && !Finished
      ensures !old(Finished) && |old(Yielded)| == |Trace(start, end)| ==>
                p == None && Yielded == old(Yielded) && Finished
    {
      var t := Trace(start, end);
      match current {
      case None =>
        current := Some(start);
        Yielded := [start];
        Finished := false;
      case Some(prev) =>
        TraceEnd(start, end, |Yielded| - 1);
        if prev == end {
          current := None;
          Finished := true;
        } else {
          TraceNext(start, end, |Yielded| - 1);
          var next := Step(prev, end);
          current := Some(next);
          Yielded := Yielded + [next];
          assert Yielded == t[..|Yielded|];
        }
      }
      p := current;
    }
  }

  // ----------------------------------------------------------- the tally

  /** The tally after one more visit of `p`. */
  function Bump(m: map<Point, nat>, p: Point): map<Point, nat>
  {
    m[p := (if p in m then m[p] else 0) + 1]
  }

  /** The tally of `part1_iterate` and `part2` after visiting `ps` in order. */
  function Tally(ps: seq<Point>): map<Point, nat>
  {
    if ps == [] then map[] else Bump(Tally(ps[..|ps| - 1]), ps[|ps| - 1])
  }

  /** The tally counts how often each point was visited. */
  lemma {:induction false} TallyCounts(ps: seq<Point>)
    ensures forall p :: p in Tally(ps) <==> p in ps
    ensures forall p :: p in Tally(ps) ==> Tally(ps)[p] == multiset(ps)[p]
  {
    if ps != [] {
      var pre := ps[..|ps| - 1];
      TallyCounts(pre);
      assert ps == pre + [ps[|ps| - 1]];
    }
  }

  lemma TallySnoc(ps: seq<Point>, p: Point)
    ensures Tally(ps + [p]) == Bump(Tally(ps), p)
  {
    assert (ps + [p])[..|ps|] == ps;
  }

  /** The points visited at least twice. */
  function Twice(m: map<Point, nat>): set<Point>
  {
    set p | p in m && m[p] >= 2
  }

  /** `total` goes up exactly when a count goes from 1 to 2, and so keeps
      track of the number of points visited at least twice. */
  lemma TwiceBump(m: map<Point, nat>, p: Point)
    ensures |Twice(Bump(m, p))| == |Twice(m)| + (if p in m && m[p] == 1 then 1 else 0)
  {
    if p in m && m[p] == 1 {
      assert Twice(Bump(m, p)) == Twice(m) + {p};
    } else {
      assert Twice(Bump(m, p)) == Twice(m);
    }
  }

  /** Whether a segment takes part: every segment in part 2, only the
      horizontal and vertical ones in part 1. */
  predicate Counted(l: Line, diagonals: bool)
  {
    diagonals || l.direction != Diagonal
  }

  function Cells(l: Line): seq<Point>
  {
    Trace(l.start, l.end)
  }

  /** The points visited, segment after segment. */
  function Points(lines: seq<Line>, diagonals: bool): seq<Point>
  {
    if lines == [] then []
    else
      var l := lines[|lines| - 1];
      Points(lines[..|lines| - 1], diagonals) + (if Counted(l, diagonals) then Cells(l) else [])
  }

  /** The number of segments taking part that cover `p`. */
  function Covering(lines: seq<Line>, p: Point, diagonals: bool): nat
  {
    if lines == [] then 0
    else
      var l := lines[|lines| - 1];
      Covering(lines[..|lines| - 1], p, diagonals) + (if Counted(l, diagonals) && p in Cells(l) then 1 else 0)
  }

  /** The points where at least two segments overlap: the answer. */
  function Overlaps(lines: seq<Line>, diagonals: bool): set<Point>
  {
    set p | p in Points(lines, diagonals) && Covering(lines, p, diagonals) >= 2
  }

  /** Two segments overlap at `p`. */
  predicate OverlapAt(lines: seq<Line>, p: Point, diagonals: bool)
  {
    exists i: nat, j: nat :: i < j < |lines| &&
      Counted(lines[i], diagonals) && Counted(lines[j], diagonals) && p in Cells(lines[i]) && p in Cells(lines[j])
  }

  /** A sequence without repeats holds each of its points once. */
  lemma {:induction false} DistinctOnce(ps: seq<Point>, p: Point)
    requires forall i, j :: 0 <= i < j < |ps| ==> ps[i] != ps[j]
    ensures multiset(ps)[p] == if p in ps then 1 else 0
  {
    if ps != [] {
      DistinctOnce(ps[1..], p);
      assert ps == [ps[0]] + ps[1..];
    }
  }

  /** Each segment covers a point at most once, so the visits of a point
      are the segments covering it. */
  lemma {:induction false} PointsCount(lines: seq<Line>, p: Point, diagonals: bool)
    ensures multiset(Points(lines, diagonals))[p] == Covering(lines, p, diagonals)
    ensures p in Points(lines, diagonals) <==> Covering(lines, p, diagonals) > 0
  {
    if lines != [] {
      var l := lines[|lines| - 1];
      PointsCount(lines[..|lines| - 1], p, diagonals);
      TraceDistinct(l.start, l.end);
      DistinctOnce(Cells(l), p);
    }
  }

  /** A point is covered by at least one segment taking part exactly when
      one of them has it. */
  lemma {:induction false} CoveringOnce(lines: seq<Line>, p: Point, diagonals: bool)
    ensures Covering(lines, p, diagonals) >= 1 <==>
              exists i: nat :: i < |lines| && Counted(lines[i], diagonals) && p in Cells(lines[i])
  {
    if lines != [] {
      var pre := lines[..|lines| - 1];
      CoveringOnce(pre, p, diagonals);
      if exists i: nat :: i < |lines| && Counted(lines[i], diagonals) && p in Cells(lines[i]) {
        var i: nat :| i < |lines| && Counted(lines[i], diagonals) && p in Cells(lines[i]);
        if i < |pre| {
          assert pre[i] == lines[i];
        }
      }
    }
  }

  /** Covered at least twice means two different segments have the point. */
  lemma {:induction false} CoveringTwice(lines: seq<Line>, p: Point, diagonals: bool)
    ensures Covering(lines, p, diagonals) >= 2 <==> OverlapAt(lines, p, diagonals)
  {
    if lines != [] {
      var pre := lines[..|lines| - 1];
      var n := |lines| - 1;
      var l := lines[n];
      CoveringTwice(pre, p, diagonals);
      CoveringOnce(pre, p, diagonals);
      if OverlapAt(lines, p, diagonals) {
        var i: nat, j: nat :| i < j < |lines| &&
          Counted(lines[i], diagonals) && Counted(lines[j], diagonals) && p in Cells(lines[i]) && p in Cells(lines[j]);
        assert pre[i] == lines[i];
        if j < n {
          assert pre[j] == lines[j];
          assert OverlapAt(pre, p, diagonals);
        }
      }
      if OverlapAt(pre, p, diagonals) {
        var i: nat, j: nat :| i < j < |pre| &&
          Counted(pre[i], diagonals) && Counted(pre[j], diagonals) && p in Cells(pre[i]) && p in Cells(pre[j]);
        assert lines[i] == pre[i] && lines[j] == pre[j];
      }
      if Covering(pre, p, diagonals) >= 1 && Counted(l, diagonals) && p in Cells(l) {
        var i: nat :| i < |pre| && Counted(pre[i], diagonals) && p in Cells(pre[i]);
        assert lines[i] == pre[i];
      }
    }
  }

  /** The points the tally has seen twice are the points where two segments
      overlap. */
  lemma TallyOverlaps(lines: seq<Line>, diagonals: bool)
    ensures Twice(Tally(Points(lines, diagonals))) == Overlaps(lines, diagonals)
    ensures forall p :: p in Overlaps(lines, diagonals) <==> OverlapAt(lines, p, diagonals)
  {
    var ps := Points(lines, diagonals);
    TallyCounts(ps);
    forall p ensures p in Overlaps(lines, diagonals) <==> OverlapAt(lines, p, diagonals) {
      PointsCount(lines, p, diagonals);
      CoveringTwice(lines, p, diagonals);
    }
    forall p | p in ps ensures Tally(ps)[p] == Covering(lines, p, diagonals) {
      PointsCount(lines, p, diagonals);
    }
  }

  /** One visit of `point`: its count raised by one, `total` raised when
      the count reaches 2. */
  method Visit(counts0: map<Point, nat>, total0: nat, point: Point, ghost seen: seq<Point>)
    returns (counts: map<Point, nat>, total: nat)
    requires counts0 == Tally(seen) && total0 == |Twice(counts0)|
    ensures counts == Tally(seen + [point]) && total == |Twice(counts)|
  {
    TwiceBump(counts0, point);
    TallySnoc(seen, point);
    var count := (if point in counts0 then counts0[point] else 0) + 1;
    counts := counts0[point := count];
    total := total0;
    if count == 2 {
      total := total + 1;
    }
  }

  /** The inner loop of `part1_iterate` and `part2`: every point of the
      segment visited once more. */
  method Walk(line: Line, counts0: map<Point, nat>, total0: nat, ghost before: seq<Point>)
    returns (counts: map<Point, nat>, total: nat)
    requires counts0 == Tally(before) && total0 == |Twice(counts0)|
    ensures counts == Tally(before + Cells(line)) && total == |Twice(counts)|
  {
    var it := new LineIterator(line);
    counts, total := counts0, total0;
    var p := it.Next();
    ghost var seen := before;
    while p.Some?
      invariant it.Valid() && it.start == line.start && it.end == line.end
      invariant p == it.current && (p.None? <==> it.Finished) && it.Yielded != []
      invariant p.Some? ==> before + it.Yielded == seen + [p.value]
      invariant p.None? ==> seen == before + it.Yielded
      invariant counts == Tally(seen) && total == |Twice(counts)|
      decreases if it.Finished then 0 else |Cells(line)| + 1 - |it.Yielded|
    {
      counts, total := Visit(counts, total, p.value, seen);
      seen := seen + [p.value];
      p := it.Next();
    }
    assert it.Yielded == Cells(line);
  }

  /** The points of one more segment. */
  lemma PointsSnoc(lines: seq<Line>, i: nat, diagonals: bool)
    requires i < |lines|
    ensures Points(lines[..i + 1], diagonals)
         == Points(lines[..i], diagonals) + (if Counted(lines[i], diagonals) then Cells(lines[i]) else [])
  {
    assert lines[..i + 1][..i] == lines[..i];
  }

  /** `part1_iterate`: walks the horizontal and vertical segments and counts
      the points visited at least twice. */
  method Part1Iterate(lines: seq<Line>) returns (total: nat)
    ensures total == |Overlaps(lines, false)|
  {
    var counts: map<Point, nat> := map[];
    total := 0;
    for i := 0 to |lines|
      invariant counts == Tally(Points(lines[..i], false)) && total == |Twice(counts)|
    {
      PointsSnoc(lines, i, false);
      if lines[i].direction == Horizontal || lines[i].direction == Vertical {
        counts, total := Walk(lines[i], counts, total, Points(lines[..i], false));
      } else {
        assert Points(lines[..i], false) + [] == Points(lines[..i], false);
      }
    }
    assert lines[..|lines|] == lines;
    TallyOverlaps(lines, false);
  }

  /** `part2`: the same count over every segment, diagonals included. */
  method Part2(lines: seq<Line>) returns (total: nat)
    ensures total == |Overlaps(lines, true)|
  {
    var counts: map<Point, nat> := map[];
    total := 0;
    for i := 0 to |lines|
      invariant counts == Tally(Points(lines[..i], true)) && total == |Twice(counts)|
    {
      PointsSnoc(lines, i, true);
      counts, total := Walk(lines[i], counts, total, Points(lines[..i], true));
    }
    assert lines[..|lines|] == lines;
    TallyOverlaps(lines, true);
  }

  // ------------------------------------------------ the pairwise intersector

  /** A `RangeInclusive<u32>`: the numbers from `lo` to `hi`, none when `lo > hi`. */
  datatype Range = Range(lo: nat, hi: nat)

  predicate Within(n: nat, r: Range)
  {
    r.lo <= n <= r.hi
  }

  /** `RangeIntersection::intersection`: the later start and the earlier end. */
  function Intersection(a: Range, b: Range): (r: Range)
    ensures forall n :: Within(n, r) <==> Within(n, a) && Within(n, b)
  {
    Range(Max(a.lo, b.lo), Min(a.hi, b.hi))
  }

  /** The points of row `y` whose x is in `r`. */
  function Row(r: Range, y: nat): set<Point>
  {
    set x: nat | r.lo <= x <= r.hi :: Point(x, y)
  }

  /** The points of column `x` whose y is in `r`. */
  function Column(x: nat, r: Range): set<Point>
  {
    set y: nat | r.lo <= y <= r.hi :: Point(x, y)
  }

  /** `Line::intersect` as written: the points it adds to the set for a pair
      of segments. The ranges are taken from start to end as they stand, and
      a horizontal and a vertical segment always add the point where their
      lines cross, whether or not both segments reach it. */
  function Crossing(a: Line, b: Line): set<Point>
  {
    match (a.direction, b.direction)
    case (Horizontal, Horizontal) =>
      if a.start.y == b.start.y
      then Row(Intersection(Range(a.start.x, a.end.x), Range(b.start.x, b.end.x)), a.start.y)
      else {}
    case (Vertical, Vertical) =>
      if a.start.x == b.start.x
      then Column(a.start.x, Intersection(Range(a.start.y, a.end.y), Range(b.start.y, b.end.y)))
      else {}
    case (Horizontal, Vertical) => {Point(b.start.x, a.start.y)}
    case (Vertical, Horizontal) => {Point(a.start.x, b.start.y)}
    case _ => {}
  }

  /** What `intersect` as written adds, case by case: for two horizontal
      segments on one row, the x values in both ranges as they are written;
      for two vertical ones the same on one column; for a horizontal and a
      vertical one the point where their lines cross, unchecked; for a
      diagonal on either side nothing. */
  lemma CrossingCases(a: Line, b: Line)
    ensures a.direction == Horizontal && b.direction == Horizontal ==>
              forall p :: p in Crossing(a, b) <==>
                (p.y == a.start.y == b.start.y && a.start.x <= p.x <= a.end.x && b.start.x <= p.x <= b.end.x)
    ensures a.direction == Vertical && b.direction == Vertical ==>
              forall p :: p in Crossing(a, b) <==>
                (p.x == a.start.x == b.start.x && a.start.y <= p.y <= a.end.y && b.start.y <= p.y <= b.end.y)
    ensures a.direction == Horizontal && b.direction == Vertical ==> Crossing(a, b) == {Point(b.start.x, a.start.y)}
    ensures a.direction == Vertical && b.direction == Horizontal ==> Crossing(a, b) == {Point(a.start.x, b.start.y)}
    ensures a.direction == Diagonal || b.direction == Diagonal ==> Crossing(a, b) == {}
  {
  }

  /** A segment drawn from its smaller coordinates to its larger ones. */
  predicate Ascending(l: Line)
  {
    l.start.x <= l.end.x && l.start.y <= l.end.y
  }

  /** What `intersect` as written gets right: for segments drawn from their
      smaller to their larger coordinates, every shared point is added, and
      for two segments of the same direction nothing else is. */
  lemma CrossingAscending(a: Line, b: Line)
    requires Classified(a) && Classified(b) && Ascending(a) && Ascending(b)
    requires a.direction != Diagonal && b.direction != Diagonal
    ensures forall p :: p in Cells(a) && p in Cells(b) ==> p in Crossing(a, b)
    ensures a.direction == b.direction ==> forall p :: p in Crossing(a, b) ==> p in Cells(a) && p in Cells(b)
  {
    StraightCells(a.start, a.end);
    StraightCells(b.start, b.end);
    forall p | p in Cells(a) && p in Cells(b) ensures p in Crossing(a, b) {
      assert Within(p.x, Range(a.start.x, a.end.x)) && Within(p.x, Range(b.start.x, b.end.x));
      assert Within(p.y, Range(a.start.y, a.end.y)) && Within(p.y, Range(b.start.y, b.end.y));
    }
  }

  /** `intersect` as written adds a point on neither segment: the horizontal
      segment from (0,0) to (1,0) and the vertical one from (5,5) to (5,6)
      give (5,0). */
  lemma CrossingOffSegments()
    ensures Classified(Line(Point(0, 0), Point(1, 0), Horizontal))
    ensures Classified(Line(Point(5, 5), Point(5, 6), Vertical))
    ensures Point(5, 0) in Crossing(Line(Point(0, 0), Point(1, 0), Horizontal), Line(Point(5, 5), Point(5, 6), Vertical))
    ensures Point(5, 0) !in Cells(Line(Point(0, 0), Point(1, 0), Horizontal))
    ensures Point(5, 0) !in Cells(Line(Point(5, 5), Point(5, 6), Vertical))
  {
    TraceBox(Point(0, 0), Point(1, 0));
    TraceBox(Point(5, 5), Point(5, 6));
  }

  /** `intersect` as written misses the points of a segment drawn from right
      to left: the segment from (2,0) to (0,0) against itself adds nothing,
      though the two share (1,0). */
  lemma CrossingReversed()
    ensures Classified(Line(Point(2, 0), Point(0, 0), Horizontal))
    ensures Crossing(Line(Point(2, 0), Point(0, 0), Horizontal), Line(Point(2, 0), Point(0, 0), Horizontal)) == {}
    ensures Point(1, 0) in Cells(Line(Point(2, 0), Point(0, 0), Horizontal))
  {
    StraightCells(Point(2, 0), Point(0, 0));
    assert InBox(Point(1, 0), Point(2, 0), Point(0, 0));
  }

  /** The range between `a` and `b`, whichever is larger. */
  function Span(a: nat, b: nat): (r: Range)
    ensures forall n :: Within(n, r) <==> Between(n, a, b)
  {
    Range(Min(a, b), Max(a, b))
  }

  /** `intersect` corrected: the ranges are put in order before they are
      intersected, and the crossing point of a horizontal and a vertical
      segment is added only when both segments reach it. */
  function CrossingFixed(a: Line, b: Line): set<Point>
  {
    match (a.direction, b.direction)
    case (Horizontal, Horizontal) =>
      if a.start.y == b.start.y
      then Row(Intersection(Span(a.start.x, a.end.x), Span(b.start.x, b.end.x)), a.start.y)
      else {}
    case (Vertical, Vertical) =>
      if a.start.x == b.start.x
      then Column(a.start.x, Intersection(Span(a.start.y, a.end.y), Span(b.start.y, b.end.y)))
      else {}
    case (Horizontal, Vertical) =>
      var p := Point(b.start.x, a.start.y);
      if InBox(p, a.start, a.end) && InBox(p, b.start, b.end) then {p} else {}
    case (Vertical, Horizontal) =>
      var p := Point(a.start.x, b.start.y);
      if InBox(p, a.start, a.end) && InBox(p, b.start, b.end) then {p} else {}
    case _ => {}
  }

  /** The corrected `intersect` adds exactly the points two horizontal or
      vertical segments share, and nothing for a diagonal one. */
  lemma CrossingFixedExact(a: Line, b: Line)
    requires Classified(a) && Classified(b)
    ensures forall p :: p in CrossingFixed(a, b) <==>
              Counted(a, false) && Counted(b, false) && p in Cells(a) && p in Cells(b)
  {
    if a.direction != Diagonal && b.direction != Diagonal {
      StraightCells(a.start, a.end);
      StraightCells(b.start, b.end);
      forall p ensures p in CrossingFixed(a, b) <==> InBox(p, a.start, a.end) && InBox(p, b.start, b.end) {
        CrossingFixedAt(a, b, p);
      }
    }
  }

  /** For two horizontal or vertical segments, the corrected `intersect`
      adds a point exactly when it lies within both segments. */
  lemma CrossingFixedAt(a: Line, b: Line, p: Point)
    requires Classified(a) && Classified(b) && a.direction != Diagonal && b.direction != Diagonal
    ensures p in CrossingFixed(a, b) <==> InBox(p, a.start, a.end) && InBox(p, b.start, b.end)
  {
    var ra, rb := Span(a.start.x, a.end.x), Span(b.start.x, b.end.x);
    var ca, cb := Span(a.start.y, a.end.y), Span(b.start.y, b.end.y);
    match (a.direction, b.direction)
    case (Horizontal, Horizontal) =>
      if a.start.y == b.start.y {
        assert p in Row(Intersection(ra, rb), a.start.y) <==> p.y == a.start.y && Within(p.x, ra) && Within(p.x, rb);
      }
    case (Vertical, Vertical) =>
      if a.start.x == b.start.x {
        assert p in Column(a.start.x, Intersection(ca, cb)) <==> p.x == a.start.x && Within(p.y, ca) && Within(p.y, cb);
      }
    case _ =>
  }

  /** The points one call of `intersect` adds: as written, or with the
      correction when `fixed` holds. */
  function Adds(a: Line, b: Line, fixed: bool): set<Point>
  {
    if fixed then CrossingFixed(a, b) else Crossing(a, b)
  }

  /** The points the inner loop of `part1_intersect` adds for `lines[i]`
      against `lines[i + 1..m]`. */
  function PairsFrom(lines: seq<Line>, i: nat, m: nat, fixed: bool): set<Point>
    requires i < m <= |lines|
    decreases m
  {
    if m == i + 1 then {} else PairsFrom(lines, i, m - 1, fixed) + Adds(lines[i], lines[m - 1], fixed)
  }

  /** The points `part1_intersect` adds for the pairs whose first index is below `n`. */
  function PairsBelow(lines: seq<Line>, n: nat, fixed: bool): set<Point>
    requires n <= |lines|
  {
    if n == 0 then {} else PairsBelow(lines, n - 1, fixed) + PairsFrom(lines, n - 1, |lines|, fixed)
  }

  /** `p` is added for line `i` with one of the lines from `i + 1` up to `m`. */
  ghost predicate CrossesFrom(lines: seq<Line>, i: nat, m: nat, fixed: bool, p: Point)
    requires m <= |lines|
  {
    exists j: nat :: i < j < m && p in Adds(lines[i], lines[j], fixed)
  }

  /** `p` is added for a pair of lines whose first index is below `n`. */
  ghost predicate CrossesBelow(lines: seq<Line>, n: nat, fixed: bool, p: Point)
    requires n <= |lines|
  {
    exists i: nat, j: nat :: i < n && i < j < |lines| && p in Adds(lines[i], lines[j], fixed)
  }

  /** A point is added for line `i` with the lines from `i + 1` to `m`
      exactly when it is added for one of those pairs. */
  lemma {:induction false} PairsFromHas(lines: seq<Line>, i: nat, m: nat, fixed: bool, p: Point)
    requires i < m <= |lines|
    decreases m
    ensures p in PairsFrom(lines, i, m, fixed) <==> CrossesFrom(lines, i, m, fixed, p)
  {
    if m > i + 1 {
      PairsFromHas(lines, i, m - 1, fixed, p);
      if p in Adds(lines[i], lines[m - 1], fixed) {
        assert i < m - 1 < m;
      }
    }
  }

  lemma PairsBelowMeans(lines: seq<Line>, n: nat, fixed: bool)
    requires n <= |lines|
    ensures forall p :: p in PairsBelow(lines, n, fixed) <==>
              exists i: nat, j: nat :: i < n && i < j < |lines| && p in Adds(lines[i], lines[j], fixed)
  {
    forall p {
      PairsBelowHas(lines, n, fixed, p);
    }
  }

  /** `PairsBelowMeans` for one point, by induction on `n`. */
  lemma {:induction false} PairsBelowHas(lines: seq<Line>, n: nat, fixed: bool, p: Point)
    requires n <= |lines|
    ensures p in PairsBelow(lines, n, fixed) <==> CrossesBelow(lines, n, fixed, p)
  {
    if n > 0 {
      PairsBelowHas(lines, n - 1, fixed, p);
      PairsFromHas(lines, n - 1, |lines|, fixed, p);
      if CrossesBelow(lines, n - 1, fixed, p) {
        CrossesBelowGrows(lines, n, fixed, p);
      } else if CrossesFrom(lines, n - 1, |lines|, fixed, p) {
        CrossesFromBelow(lines, n, fixed, p);
      } else {
        NoPairBelow(lines, n, fixed, p);
      }
    }
  }

  lemma CrossesBelowGrows(lines: seq<Line>, n: nat, fixed: bool, p: Point)
    requires 0 < n <= |lines| && CrossesBelow(lines, n - 1, fixed, p)
    ensures CrossesBelow(lines, n, fixed, p)
  {
    var i: nat, j: nat :| i < n - 1 && i < j < |lines| && p in Adds(lines[i], lines[j], fixed);
    assert i < n;
  }

  lemma CrossesFromBelow(lines: seq<Line>, n: nat, fixed: bool, p: Point)
    requires 0 < n <= |lines| && CrossesFrom(lines, n - 1, |lines|, fixed, p)
    ensures CrossesBelow(lines, n, fixed, p)
  {
    var j: nat :| n - 1 < j < |lines| && p in Adds(lines[n - 1], lines[j], fixed);
    assert n - 1 < n;
  }

  /** No pair below `n - 1` and no pair from `n - 1` means no pair below `n`. */
  lemma NoPairBelow(lines: seq<Line>, n: nat, fixed: bool, p: Point)
    requires 0 < n <= |lines|
    requires !CrossesBelow(lines, n - 1, fixed, p) && !CrossesFrom(lines, n - 1, |lines|, fixed, p)
    ensures !CrossesBelow(lines, n, fixed, p)
  {
    forall i: nat, j: nat | i < n && i < j < |lines|
      ensures p !in Adds(lines[i], lines[j], fixed)
    {
      if i == n - 1 {
        assert !(n - 1 < j < |lines| && p in Adds(lines[n - 1], lines[j], fixed));
      } else {
        assert !(i < n - 1 && i < j < |lines| && p in Adds(lines[i], lines[j], fixed));
      }
    }
  }

  /** With `intersect` corrected, the pairwise count and the walking count
      of part 1 find the same points. */
  lemma IntersectAgrees(lines: seq<Line>)
    requires forall k :: 0 <= k < |lines| ==> Classified(lines[k])
    ensures PairsBelow(lines, |lines|, true) == Overlaps(lines, false)
  {
    PairsBelowMeans(lines, |lines|, true);
    TallyOverlaps(lines, false);
    forall i: nat, j: nat | i < j < |lines| ensures
      forall p :: p in Adds(lines[i], lines[j], true) <==>
        Counted(lines[i], false) && Counted(lines[j], false) && p in Cells(lines[i]) && p in Cells(lines[j])
    {
      CrossingFixedExact(lines[i], lines[j]);
    }
  }

  /** Where a horizontal and a vertical segment meet, when both reach it. */
  predicate Reaches(a: Line, b: Line)
  {
    match (a.direction, b.direction)
    case (Horizontal, Vertical) =>
      InBox(Point(b.start.x, a.start.y), a.start, a.end) && InBox(Point(b.start.x, a.start.y), b.start, b.end)
    case (Vertical, Horizontal) =>
      InBox(Point(a.start.x, b.start.y), a.start, a.end) && InBox(Point(a.start.x, b.start.y), b.start, b.end)
    case _ => true
  }

  /** Input on which the two flaws of `intersect` do not show: every
      horizontal or vertical segment is drawn from its smaller to its larger
      coordinates, and every horizontal and vertical pair reaches its crossing. */
  predicate Tidy(lines: seq<Line>)
  {
    && (forall k :: 0 <= k < |lines| && lines[k].direction != Diagonal ==> Ascending(lines[k]))
    && (forall i, j :: 0 <= i < j < |lines| ==> Reaches(lines[i], lines[j]))
  }

  /** On such a pair, `intersect` as written adds what the corrected one adds. */
  lemma CrossingTidy(a: Line, b: Line)
    requires a.direction != Diagonal ==> Ascending(a)
    requires b.direction != Diagonal ==> Ascending(b)
    requires Reaches(a, b)
    ensures Crossing(a, b) == CrossingFixed(a, b)
  {
    match (a.direction, b.direction)
    case (Horizontal, Horizontal) =>
      assert Span(a.start.x, a.end.x) == Range(a.start.x, a.end.x);
      assert Span(b.start.x, b.end.x) == Range(b.start.x, b.end.x);
    case (Vertical, Vertical) =>
      assert Span(a.start.y, a.end.y) == Range(a.start.y, a.end.y);
      assert Span(b.start.y, b.end.y) == Range(b.start.y, b.end.y);
    case _ =>
  }

  /** On tidy input the pairs of line `i` add the same points either way. */
  lemma {:induction false} PairsFromTidy(lines: seq<Line>, i: nat, m: nat)
    requires i < m <= |lines| && Tidy(lines)
    decreases m
    ensures PairsFrom(lines, i, m, false) == PairsFrom(lines, i, m, true)
  {
    if m > i + 1 {
      PairsFromTidy(lines, i, m - 1);
      assert Reaches(lines[i], lines[m - 1]);
      CrossingTidy(lines[i], lines[m - 1]);
    }
  }

  /** On tidy input `part1_intersect` as written adds the corrected points. */
  lemma {:induction false} PairsBelowTidy(lines: seq<Line>, n: nat)
    requires n <= |lines| && Tidy(lines)
    ensures PairsBelow(lines, n, false) == PairsBelow(lines, n, true)
  {
    if n > 0 {
      PairsBelowTidy(lines, n - 1);
      PairsFromTidy(lines, n - 1, |lines|);
    }
  }

  /** The count of `part1_intersect` as written is too high on two segments
      that do not meet: the horizontal one from (0,0) to (1,0) and the
      vertical one from (5,5) to (5,6) give 1, though they share no point. */
  lemma PhantomCrossingCounted()
    ensures var lines := [Line(Point(0, 0), Point(1, 0), Horizontal), Line(Point(5, 5), Point(5, 6), Vertical)];
      |PairsBelow(lines, |lines|, false)| == 1 && Overlaps(lines, false) == {}
  {
    var lines := [Line(Point(0, 0), Point(1, 0), Horizontal), Line(Point(5, 5), Point(5, 6), Vertical)];
    assert PairsBelow(lines, 2, false) == {Point(5, 0)};
    IntersectAgrees(lines);
    assert PairsBelow(lines, 2, true) == CrossingFixed(lines[0], lines[1]);
  }

  /** `part1_intersect` as written: every pair of segments `i < j` passed to
      `intersect`, and the distinct points added counted. On tidy input this
      is the count of `part1_iterate`. */
  method Part1Intersect(lines: seq<Line>) returns (r: nat)
    requires forall k :: 0 <= k < |lines| ==> Classified(lines[k])
    ensures r == |PairsBelow(lines, |lines|, false)|
    ensures Tidy(lines) ==> r == |Overlaps(lines, false)|
  {
    var points: set<Point> := {};
    for i := 0 to |lines|
      invariant points == PairsBelow(lines, i, false)
    {
      points := IntersectWith(lines, i, points, false);
    }
    r := |points|;
    if Tidy(lines) {
      PairsBelowTidy(lines, |lines|);
      IntersectAgrees(lines);
    }
  }

  /** `part1_intersect` with `intersect` corrected: the count of
      `part1_iterate` on every input. */
  method Part1IntersectFixed(lines: seq<Line>) returns (r: nat)
    requires forall k :: 0 <= k < |lines| ==> Classified(lines[k])
    ensures r == |Overlaps(lines, false)|
  {
    var points: set<Point> := {};
    for i := 0 to |lines|
      invariant points == PairsBelow(lines, i, true)
    {
      points := IntersectWith(lines, i, points, true);
    }
    IntersectAgrees(lines);
    r := |points|;
  }

  /** The inner loop of `part1_intersect`: `lines[i]` against every later
      segment, `intersect` as written or corrected. */
  method IntersectWith(lines: seq<Line>, i: nat, points0: set<Point>, fixed: bool) returns (points: set<Point>)
    requires i < |lines|
    ensures points == points0 + PairsFrom(lines, i, |lines|, fixed)
  {
    points := points0;
    for j := i + 1 to |lines|
      invariant points == points0 + PairsFrom(lines, i, j, fixed)
    {
      points := points + Adds(lines[i], lines[j], fixed);
    }
  }
}
