/** Day 17 `LavaGrid` and `Square`: a grid of heat losses, search squares that
    remember how they were reached, and the squares the search may step to next. */
module LavaGrid {
  import opened Wrappers
  import opened Text
  import opened Vectors

  /** Heat loss per block, one row per line; `grid[x][y]` is row `x`, column `y`. */
  type Grid = seq<seq<int>>

  /** What the script needs of its grid: a non-empty first row (`m` is its length)
      and no row shorter than it. */
  predicate IsGrid(g: Grid)
  {
    |g| >= 1 && |g[0]| >= 1 && forall i :: 0 <= i < |g| ==> |g[i]| >= |g[0]|
  }

  predicate InGrid(g: Grid, c: Vec)
    requires IsGrid(g)
  {
    0 <= c.x < |g| && 0 <= c.y < |g[0]|
  }

  /** `final_coordinate`: the bottom-right block. */
  function Goal(g: Grid): (c: Vec)
    requires IsGrid(g)
    ensures InGrid(g, c)
  {
    Vec(|g| - 1, |g[0]| - 1)
  }

  function Cost(g: Grid, c: Vec): int
    requires IsGrid(g) && InGrid(g, c)
  {
    g[c.x][c.y]
  }

  /** `from_lines`: each character of each line is read with `int()`. */
  function RowFromLine(line: string): (r: Result<seq<int>>)
    ensures r.Success? <==> AllDigits(line)
    ensures r.Success? ==> |r.value| == |line| && forall j :: 0 <= j < |line| ==> r.value[j] == DigitValue(line[j])
  {
    MapResult(DigitOf, line)
  }

  function DigitOf(c: char): (r: Result<int>)
    ensures r.Success? <==> IsDigit(c)
    ensures r.Success? ==> r.value == DigitValue(c) && 0 <= r.value <= 9
  {
    if IsDigit(c) then Success(DigitValue(c)) else Failure(NotAnInteger)
  }

  /** `from_lines`: the rows are read first (a non-digit is a ValueError), then the
      constructor takes the width from the first row, so no lines at all is an
      IndexError. */
  function GridFromLines(lines: seq<string>): (r: Result<Grid>)
    ensures r.Success? <==> |lines| > 0 && forall i :: 0 <= i < |lines| ==> AllDigits(lines[i])
    ensures |lines| == 0 ==> r == Failure(IndexOutOfRange)
    ensures |lines| > 0 && r.Failure? ==> r.error == NotAnInteger
    ensures r.Success? ==> |r.value| == |lines|
    ensures r.Success? ==> forall i :: 0 <= i < |lines| ==> RowFromLine(lines[i]) == Success(r.value[i])
  {
    var rows := MapResult(RowFromLine, lines);
    if rows.Failure? then Failure(rows.error)
    else if |rows.value| == 0 then Failure(IndexOutOfRange)
    else rows
  }

  // ----- the heuristic -----

  /** `__distances_to_end_node`: entry `(i, j)` is `m - j + n - i - 2`. */
  function DistancesToEnd(g: Grid): (d: seq<seq<int>>)
    requires IsGrid(g)
    ensures |d| == |g| && forall i :: 0 <= i < |d| ==> |d[i]| == |g[0]|
  {
    var n := |g|;
    var m := |g[0]|;
    seq(n, i => seq(m, j => m - j + n - i - 2))
  }

  function Heuristic(g: Grid, c: Vec): int
    requires IsGrid(g) && InGrid(g, c)
  {
    DistancesToEnd(g)[c.x][c.y]
  }

  /** The heuristic counts the unit steps from a block to the goal: it is never
      negative on the grid and is zero only at the goal. */
  lemma HeuristicCountsStepsToGoal(g: Grid, c: Vec)
    requires IsGrid(g) && InGrid(g, c)
    ensures Heuristic(g, c) == Abs(Goal(g).x - c.x) + Abs(Goal(g).y - c.y)
    ensures Heuristic(g, c) >= 0
    ensures Heuristic(g, c) == 0 <==> c == Goal(g)
  {
    assert DistancesToEnd(g)[c.x][c.y] == |g[0]| - c.y + |g| - c.x - 2;
  }

  // ----- squares -----

  /** A search node: its block, the heuristic there, the heat lost on the way in,
      the last step taken and how many steps before it went the same way. */
  datatype Square = Square(coordinate: Vec, distanceToEnd: int, heatLoss: int,
                           forwardDirection: Vec, forwardsCount: int, parent: Option<Square>)

  /** `Square.__init__`: a square without parent has the zero direction and count 0;
      otherwise the parent's heat loss is added, the direction is the step from the
      parent, and the count goes up by one if the parent stepped the same way and
      restarts at 0 if it did not. */
  function MakeSquare(coordinate: Vec, distanceToEnd: int, heatLoss: int, parent: Option<Square>): (s: Square)
    ensures s.coordinate == coordinate && s.distanceToEnd == distanceToEnd && s.parent == parent
    ensures parent.None? ==> s.heatLoss == heatLoss && s.forwardDirection == Zero && s.forwardsCount == 0
    ensures parent.Some? ==> s.heatLoss == heatLoss + parent.value.heatLoss
                             && Add(parent.value.coordinate, s.forwardDirection) == coordinate
    ensures parent.Some? && parent.value.forwardsCount >= 0 ==>
              (s.forwardsCount > 0 <==> s.forwardDirection == parent.value.forwardDirection)
    ensures parent.Some? && s.forwardsCount > 0 ==> s.forwardsCount == parent.value.forwardsCount + 1
  {
    match parent
    case None => Square(coordinate, distanceToEnd, heatLoss, Zero, 0, None)
    case Some(p) =>
      var direction := Sub(coordinate, p.coordinate);
      var count := if p.forwardDirection == direction then p.forwardsCount + 1 else 0;
      Square(coordinate, distanceToEnd, heatLoss + p.heatLoss, direction, count, parent)
  }

  /** `Square.f`: heat lost so far plus the heuristic. */
  function F(s: Square): int
  {
    s.heatLoss + s.distanceToEnd
  }

  /** `Square.__eq__`: the same block reached with the same count. */
  predicate SameSquare(a: Square, b: Square)
  {
    a.coordinate == b.coordinate && a.forwardsCount == b.forwardsCount
  }

  /** `path_to_root_parent`: the squares from the one without parent down to `s`. */
  function PathToRoot(s: Square): (path: seq<Square>)
    ensures |path| >= 1 && path[|path| - 1] == s && path[0].parent.None?
    decreases s
  {
    match s.parent
    case None => [s]
    case Some(p) => PathToRoot(p) + [s]
  }

  /** Each square on the path is the parent of the next. */
  lemma {:induction false} PathToRootLinks(s: Square)
    ensures var path := PathToRoot(s);
            forall i :: 0 < i < |path| ==> path[i].parent == Some(path[i - 1])
    decreases s
  {
    if s.parent.Some? {
      var p := s.parent.value;
      PathToRootLinks(p);
      var path := PathToRoot(s);
      assert forall i :: 0 <= i < |path| - 1 ==> path[i] == PathToRoot(p)[i];
    }
  }

  function Coordinates(path: seq<Square>): (cs: seq<Vec>)
    ensures |cs| == |path| && forall i :: 0 <= i < |path| ==> cs[i] == path[i].coordinate
  {
    seq(|path|, i requires 0 <= i < |path| => path[i].coordinate)
  }

  /** `is_valid_next`: anything goes from a square without parent; otherwise a step
      is refused only when it continues the current direction a third time. */
  predicate IsValidNext(s: Square, next: Vec)
  {
    s.parent.None? || s.forwardDirection != Sub(next, s.coordinate) || s.forwardsCount != 2
  }

  /** `square_from_grid`. */
  function SquareFromGrid(g: Grid, c: Vec, parent: Option<Square>): (s: Square)
    requires IsGrid(g) && InGrid(g, c)
    ensures s.coordinate == c && s.parent == parent
    ensures s.distanceToEnd == Abs(Goal(g).x - c.x) + Abs(Goal(g).y - c.y)
    ensures s.heatLoss == Cost(g, c) + if parent.Some? then parent.value.heatLoss else 0
  {
    HeuristicCountsStepsToGoal(g, c);
    MakeSquare(c, Heuristic(g, c), Cost(g, c), parent)
  }

  /** The start square at the top-left block, whose own heat loss is set to 0. */
  function Root(g: Grid): Square
    requires IsGrid(g)
  {
    SquareFromGrid(g, Vec(0, 0), None).(heatLoss := 0)
  }

  // ----- potential_squares -----

  /** `__edge_checks`: up, left, right and down stay on the grid. */
  function EdgeChecks(g: Grid, c: Vec): (r: seq<bool>)
    requires IsGrid(g)
    ensures |r| == 4
    ensures InGrid(g, c) ==> forall k :: 0 <= k < 4 ==> (r[k] <==> InGrid(g, Neighbours(c)[k]))
  {
    [c.x > 0, c.y > 0, c.y < |g[0]| - 1, c.x < |g| - 1]
  }

  /** `coordinate_indices_to_check`: up, left, right, down. */
  function Neighbours(c: Vec): seq<Vec>
  {
    [Vec(c.x - 1, c.y), Vec(c.x, c.y - 1), Vec(c.x, c.y + 1), Vec(c.x + 1, c.y)]
  }

  /** Orders the unit steps up, left, right, down (rows grow downwards): -2, -1, 1, 2. */
  function StepRank(d: Vec): int
  {
    2 * d.x + d.y
  }

  /** The rank of the `k`-th neighbour's step. */
  function RankOf(k: nat): int
  {
    if k < 2 then k - 2 else k - 1
  }

  /** `previous_square_coordinate`: the parent's block, or `(-1, -1)`. */
  function PreviousCoordinate(s: Square): Vec
  {
    if s.parent.Some? then s.parent.value.coordinate else Vec(-1, -1)
  }

  /** A block the search may step to from `s`: a grid neighbour that is not the
      parent's block and that `is_valid_next` allows. */
  predicate Admissible(g: Grid, s: Square, c: Vec)
    requires IsGrid(g)
  {
    InGrid(g, c) && IsUnit(Sub(c, s.coordinate)) && c != PreviousCoordinate(s) && IsValidNext(s, c)
  }

  /** The `k`-th neighbour is the step of rank `k`, and its edge check holds exactly
      when it lies on the grid. */
  lemma NeighbourFacts(g: Grid, c: Vec, k: nat)
    requires IsGrid(g) && InGrid(g, c) && k < 4
    ensures IsUnit(Sub(Neighbours(c)[k], c)) && StepRank(Sub(Neighbours(c)[k], c)) == RankOf(k)
    ensures EdgeChecks(g, c)[k] <==> InGrid(g, Neighbours(c)[k])
    ensures forall d :: IsUnit(Sub(d, c)) && StepRank(Sub(d, c)) == RankOf(k) ==> d == Neighbours(c)[k]
    ensures forall d :: IsUnit(Sub(d, c)) && StepRank(Sub(d, c)) > RankOf(k) ==> StepRank(Sub(d, c)) >= RankOf(k + 1)
  {
    forall d | IsUnit(Sub(d, c)) && StepRank(Sub(d, c)) == RankOf(k)
      ensures d == Neighbours(c)[k]
    {
      assert d == Add(c, Sub(d, c));
    }
  }

  /** The loop over the zipped edge checks and neighbours, from the `k`-th on. */
  function Candidates(g: Grid, s: Square, k: nat): seq<Square>
    requires IsGrid(g) && InGrid(g, s.coordinate) && k <= 4
    decreases 4 - k
  {
    if k == 4 then []
    else
      var c := Neighbours(s.coordinate)[k];
      var rest := Candidates(g, s, k + 1);
      if c != PreviousCoordinate(s) && EdgeChecks(g, s.coordinate)[k] && IsValidNext(s, c) then
        NeighbourFacts(g, s.coordinate, k);
        [SquareFromGrid(g, c, Some(s))] + rest
      else
        rest
  }

  /** Every square the loop keeps is an admissible neighbour's square, of rank `k` or
      more. */
  lemma {:induction false} CandidatesSound(g: Grid, s: Square, k: nat)
    requires IsGrid(g) && InGrid(g, s.coordinate) && k <= 4
    ensures forall t :: t in Candidates(g, s, k) ==>
              InGrid(g, t.coordinate) && t == SquareFromGrid(g, t.coordinate, Some(s))
              && Admissible(g, s, t.coordinate) && StepRank(Sub(t.coordinate, s.coordinate)) >= RankOf(k)
    decreases 4 - k
  {
    if k < 4 {
      CandidatesSound(g, s, k + 1);
      NeighbourFacts(g, s.coordinate, k);
    }
  }

  /** The ranks of the steps from `s` to the squares of `r`. */
  function Ranks(s: Square, r: seq<Square>): (ranks: seq<int>)
    ensures |ranks| == |r|
  {
    seq(|r|, i requires 0 <= i < |r| => StepRank(Sub(r[i].coordinate, s.coordinate)))
  }

  lemma RanksCons(s: Square, t: Square, rest: seq<Square>)
    ensures Ranks(s, [t] + rest) == [StepRank(Sub(t.coordinate, s.coordinate))] + Ranks(s, rest)
  {
    assert forall i :: 1 <= i < |rest| + 1 ==> ([t] + rest)[i] == rest[i - 1];
  }

  predicate Ascending(xs: seq<int>)
  {
    forall i, j :: 0 <= i < j < |xs| ==> xs[i] < xs[j]
  }

  lemma {:induction false} CandidatesRanks(g: Grid, s: Square, k: nat)
    requires IsGrid(g) && InGrid(g, s.coordinate) && k <= 4
    ensures forall x :: x in Ranks(s, Candidates(g, s, k)) ==> x >= RankOf(k)
    decreases 4 - k
  {
    if k < 4 {
      CandidatesRanks(g, s, k + 1);
      NeighbourFacts(g, s.coordinate, k);
      var c := Neighbours(s.coordinate)[k];
      var rest := Candidates(g, s, k + 1);
      if c != PreviousCoordinate(s) && EdgeChecks(g, s.coordinate)[k] && IsValidNext(s, c) {
        RanksCons(s, SquareFromGrid(g, c, Some(s)), rest);
      }
    }
  }

  /** The loop keeps the squares in the order of their steps. */
  lemma {:induction false} CandidatesOrdered(g: Grid, s: Square, k: nat)
    requires IsGrid(g) && InGrid(g, s.coordinate) && k <= 4
    ensures Ascending(Ranks(s, Candidates(g, s, k)))
    decreases 4 - k
  {
    if k < 4 {
      var c := Neighbours(s.coordinate)[k];
      var rest := Candidates(g, s, k + 1);
      CandidatesOrdered(g, s, k + 1);
      if c != PreviousCoordinate(s) && EdgeChecks(g, s.coordinate)[k] && IsValidNext(s, c) {
        NeighbourFacts(g, s.coordinate, k);
        CandidatesRanks(g, s, k + 1);
        RanksCons(s, SquareFromGrid(g, c, Some(s)), rest);
        AscendingCons(RankOf(k), Ranks(s, rest));
      }
    }
  }

  lemma AscendingCons(x: int, xs: seq<int>)
    requires Ascending(xs) && forall y :: y in xs ==> y > x
    ensures Ascending([x] + xs)
  {
    forall i, j | 0 <= i < j < |[x] + xs|
      ensures ([x] + xs)[i] < ([x] + xs)[j]
    {
      assert ([x] + xs)[j] == xs[j - 1] && xs[j - 1] in xs;
      if i > 0 {
        assert ([x] + xs)[i] == xs[i - 1];
      }
    }
  }

  /** Every admissible neighbour of rank `k` or more has its square kept. */
  lemma {:induction false} CandidatesComplete(g: Grid, s: Square, k: nat)
    requires IsGrid(g) && InGrid(g, s.coordinate) && k <= 4
    ensures forall c :: Admissible(g, s, c) && StepRank(Sub(c, s.coordinate)) >= RankOf(k) ==>
              exists t :: t in Candidates(g, s, k) && t.coordinate == c
    decreases 4 - k
  {
    if k < 4 {
      CandidatesComplete(g, s, k + 1);
      NeighbourFacts(g, s.coordinate, k);
      var r := Candidates(g, s, k);
      var rest := Candidates(g, s, k + 1);
      forall c | Admissible(g, s, c) && StepRank(Sub(c, s.coordinate)) >= RankOf(k)
        ensures exists t :: t in r && t.coordinate == c
      {
        if StepRank(Sub(c, s.coordinate)) == RankOf(k) {
          assert c == Neighbours(s.coordinate)[k];
          assert r[0].coordinate == c;
        } else {
          var t :| t in rest && t.coordinate == c;
          assert t in r;
        }
      }
    }
  }

  /** `potential_squares`: the squares for the admissible neighbours, each with `s`
      as parent, in the order up, left, right, down. */
  function PotentialSquares(g: Grid, s: Square): (r: seq<Square>)
    requires IsGrid(g) && InGrid(g, s.coordinate)
    ensures forall t :: t in r ==> t.parent == Some(s) && InGrid(g, t.coordinate) && t == SquareFromGrid(g, t.coordinate, Some(s))
    ensures forall c :: (exists t :: t in r && t.coordinate == c) <==> Admissible(g, s, c)
    ensures Ascending(Ranks(s, r))
  {
    CandidatesSound(g, s, 0);
    CandidatesOrdered(g, s, 0);
    CandidatesComplete(g, s, 0);
    Candidates(g, s, 0)
  }

  // ----- squares the search builds -----

  /** A square the search can build: the start square, or a square that
      `potential_squares` returns for a square the search can build. */
  predicate Reachable(g: Grid, s: Square)
    requires IsGrid(g)
    decreases s
  {
    match s.parent
    case None => s == Root(g)
    case Some(p) => Reachable(g, p) && InGrid(g, p.coordinate) && s in PotentialSquares(g, p)
  }

  /** What every square the search builds satisfies: it lies on the grid; its
      direction is its step from the parent, a unit step, or zero at the start; and
      its count never exceeds 2, so no more than three steps go the same way. */
  lemma {:induction false} ReachableFacts(g: Grid, s: Square)
    requires IsGrid(g) && Reachable(g, s)
    ensures InGrid(g, s.coordinate) && 0 <= s.forwardsCount <= 2
    ensures s.parent.None? ==> s.coordinate == Vec(0, 0) && s.heatLoss == 0 && s.forwardDirection == Zero && s.forwardsCount == 0
    ensures s.parent.Some? ==> s.forwardDirection == Sub(s.coordinate, s.parent.value.coordinate) && IsUnit(s.forwardDirection)
    ensures s.parent.Some? ==> s.heatLoss == Cost(g, s.coordinate) + s.parent.value.heatLoss
    ensures s.parent.Some? ==> s.forwardsCount == if s.parent.value.forwardDirection == s.forwardDirection
                                                  then s.parent.value.forwardsCount + 1 else 0
    decreases s
  {
    if s.parent.Some? {
      var p := s.parent.value;
      ReachableFacts(g, p);
      assert Admissible(g, p, s.coordinate);
    }
  }

  /** `f` of a square the search builds is the heat lost along its route plus the
      number of unit steps left to the goal, so it never underestimates what is
      already lost and equals it at the goal. */
  lemma FIsCostPlusSteps(g: Grid, s: Square)
    requires IsGrid(g) && Reachable(g, s)
    ensures IsWalk(g, Coordinates(PathToRoot(s)))
    ensures F(s) == RouteCost(g, Coordinates(PathToRoot(s)))
                    + Abs(Goal(g).x - s.coordinate.x) + Abs(Goal(g).y - s.coordinate.y)
    ensures F(s) >= s.heatLoss && (s.coordinate == Goal(g) ==> F(s) == s.heatLoss)
  {
    HeatLossIsRouteCost(g, s);
    if s.parent.Some? {
      assert s in PotentialSquares(g, s.parent.value);
    }
  }

  /** `s` ends three equal steps `d` in a row. */
  predicate RunOfThree(s: Square, d: Vec)
  {
    && s.parent.Some? && s.parent.value.parent.Some? && s.parent.value.parent.value.parent.Some?
    && var p := s.parent.value; var q := p.parent.value; var r := q.parent.value;
       Sub(s.coordinate, p.coordinate) == d && Sub(p.coordinate, q.coordinate) == d
       && Sub(q.coordinate, r.coordinate) == d
  }

  /** On a square the search builds, `is_valid_next` refuses exactly the step that
      would be the fourth equal step in a row. */
  lemma ValidNextRefusesFourthStep(g: Grid, s: Square, c: Vec)
    requires IsGrid(g) && Reachable(g, s)
    ensures !IsValidNext(s, c) <==> RunOfThree(s, Sub(c, s.coordinate))
  {
    ReachableFacts(g, s);
    if s.parent.Some? {
      var p := s.parent.value;
      ReachableFacts(g, p);
      if p.parent.Some? {
        ReachableFacts(g, p.parent.value);
      }
    }
  }

  // ----- routes -----

  /** Four equal steps in a row ending at the last block of `cs`. */
  predicate EndsFourStraight(cs: seq<Vec>)
  {
    var n := |cs|;
    n >= 5 && Sub(cs[n - 1], cs[n - 2]) == Sub(cs[n - 2], cs[n - 3])
    && Sub(cs[n - 2], cs[n - 3]) == Sub(cs[n - 3], cs[n - 4])
    && Sub(cs[n - 3], cs[n - 4]) == Sub(cs[n - 4], cs[n - 5])
  }

  /** The last step of `cs` is one the crucible may take: one block along one axis,
      not straight back, and not the fourth equal step in a row. */
  predicate LastStepAllowed(cs: seq<Vec>)
  {
    var n := |cs|;
    n >= 2 && IsUnit(Sub(cs[n - 1], cs[n - 2])) && (n >= 3 ==> cs[n - 1] != cs[n - 3]) && !EndsFourStraight(cs)
  }

  /** A route the crucible may follow: it starts at the top-left block, stays on the
      grid, and every step is allowed. */
  predicate IsWalk(g: Grid, cs: seq<Vec>)
    requires IsGrid(g)
  {
    |cs| >= 1 && cs[0] == Vec(0, 0)
    && (forall i :: 0 <= i < |cs| ==> InGrid(g, cs[i]))
    && forall k :: 2 <= k <= |cs| ==> LastStepAllowed(cs[..k])
  }

  /** A route extended by an allowed step on the grid is a route. */
  lemma WalkSnoc(g: Grid, ps: seq<Vec>, c: Vec)
    requires IsGrid(g) && IsWalk(g, ps) && InGrid(g, c) && LastStepAllowed(ps + [c])
    ensures IsWalk(g, ps + [c])
  {
    var cs := ps + [c];
    forall k | 2 <= k <= |cs|
      ensures LastStepAllowed(cs[..k])
    {
      if k < |cs| {
        assert cs[..k] == ps[..k];
      } else {
        assert cs[..k] == cs;
      }
    }
    assert forall i :: 0 <= i < |ps| ==> cs[i] == ps[i];
  }

  /** The heat lost along a route: the cost of every block but the first. */
  function RouteCost(g: Grid, cs: seq<Vec>): int
    requires IsGrid(g) && forall i :: 0 <= i < |cs| ==> InGrid(g, cs[i])
    decreases |cs|
  {
    if |cs| <= 1 then 0
    else
      var n := |cs|;
      assert forall i :: 0 <= i < n - 1 ==> cs[..n - 1][i] == cs[i];
      RouteCost(g, cs[..n - 1]) + Cost(g, cs[n - 1])
  }

  /** The blocks on the path to a square with a parent are those on the parent's
      path followed by the square's own. */
  lemma PathStep(s: Square)
    requires s.parent.Some?
    ensures Coordinates(PathToRoot(s)) == Coordinates(PathToRoot(s.parent.value)) + [s.coordinate]
  {
    var ps := PathToRoot(s.parent.value);
    assert PathToRoot(s) == ps + [s];
    assert forall i :: 0 <= i < |ps| ==> (ps + [s])[i] == ps[i];
  }

  /** A square the search builds never ends four equal steps. */
  lemma NoFourStraight(g: Grid, s: Square)
    requires IsGrid(g) && Reachable(g, s)
    ensures !EndsFourStraight(Coordinates(PathToRoot(s)))
  {
    if !ShortPath(s) {
      NoFourEqualSteps(g, s);
      NoFourFromSquares(s);
    } else {
      ShortPathLength(s);
    }
  }

  /** A path whose last four steps, read off the squares, are not all equal does not
      end four equal steps. */
  lemma NoFourFromSquares(s: Square)
    requires !ShortPath(s)
    requires var p := s.parent.value; var q := p.parent.value; var r := q.parent.value; var w := r.parent.value;
             !(Sub(s.coordinate, p.coordinate) == Sub(p.coordinate, q.coordinate)
               && Sub(p.coordinate, q.coordinate) == Sub(q.coordinate, r.coordinate)
               && Sub(q.coordinate, r.coordinate) == Sub(r.coordinate, w.coordinate))
    ensures !EndsFourStraight(Coordinates(PathToRoot(s)))
  {
    LastFiveBlocks(s);
  }

  /** The square has fewer than four ancestors. */
  predicate ShortPath(s: Square)
  {
    s.parent.None? || s.parent.value.parent.None? || s.parent.value.parent.value.parent.None?
    || s.parent.value.parent.value.parent.value.parent.None?
  }

  /** A path with fewer than four ancestors has fewer than five blocks. */
  lemma ShortPathLength(s: Square)
    requires ShortPath(s)
    ensures |Coordinates(PathToRoot(s))| < 5
  {
    if s.parent.Some? {
      var p := s.parent.value;
      assert |PathToRoot(s)| == |PathToRoot(p)| + 1;
      if p.parent.Some? {
        var q := p.parent.value;
        assert |PathToRoot(p)| == |PathToRoot(q)| + 1;
        if q.parent.Some? {
          var r := q.parent.value;
          assert |PathToRoot(q)| == |PathToRoot(r)| + 1;
          assert |PathToRoot(r)| == 1;
        }
      }
    }
  }

  /** The last five blocks of a path are those of the square and its four nearest
      ancestors. */
  lemma LastFiveBlocks(s: Square)
    requires !ShortPath(s)
    ensures var cs := Coordinates(PathToRoot(s)); var n := |cs|;
            var p := s.parent.value; var q := p.parent.value; var r := q.parent.value; var w := r.parent.value;
            n >= 5 && cs[n - 1] == s.coordinate && cs[n - 2] == p.coordinate && cs[n - 3] == q.coordinate
            && cs[n - 4] == r.coordinate && cs[n - 5] == w.coordinate
  {
    var p := s.parent.value;
    var q := p.parent.value;
    var r := q.parent.value;
    var w := r.parent.value;
    var ss, ps, qs, rs, ws := Coordinates(PathToRoot(s)), Coordinates(PathToRoot(p)), Coordinates(PathToRoot(q)),
                              Coordinates(PathToRoot(r)), Coordinates(PathToRoot(w));
    PathStep(s);
    PathStep(p);
    PathStep(q);
    PathStep(r);
    var n := |ss|;
    assert |ws| >= 1 && ws[|ws| - 1] == w.coordinate;
    assert |rs| == |ws| + 1 && rs[|ws| - 1] == w.coordinate && rs[|ws|] == r.coordinate;
    assert |qs| == n - 2 && qs[n - 5] == w.coordinate && qs[n - 4] == r.coordinate && qs[n - 3] == q.coordinate;
    assert ps[n - 5] == w.coordinate && ps[n - 4] == r.coordinate && ps[n - 3] == q.coordinate && ps[n - 2] == p.coordinate;
  }

  /** Four generations of squares the search builds never step the same way four
      times: the count would reach 3. */
  lemma NoFourEqualSteps(g: Grid, s: Square)
    requires IsGrid(g) && Reachable(g, s)
    requires s.parent.Some? && s.parent.value.parent.Some? && s.parent.value.parent.value.parent.Some?
    requires s.parent.value.parent.value.parent.value.parent.Some?
    ensures var p := s.parent.value; var q := p.parent.value; var r := q.parent.value; var w := r.parent.value;
            !(Sub(s.coordinate, p.coordinate) == Sub(p.coordinate, q.coordinate)
              && Sub(p.coordinate, q.coordinate) == Sub(q.coordinate, r.coordinate)
              && Sub(q.coordinate, r.coordinate) == Sub(r.coordinate, w.coordinate))
  {
    var p := s.parent.value;
    var q := p.parent.value;
    var r := q.parent.value;
    ReachableFacts(g, s);
    ReachableFacts(g, p);
    ReachableFacts(g, q);
    ReachableFacts(g, r);
  }

  /** The last blocks of a path are those of the square, its parent and its
      grandparent. */
  lemma LastThreeBlocks(s: Square)
    ensures var cs := Coordinates(PathToRoot(s)); var n := |cs|;
            && n >= 1 && cs[n - 1] == s.coordinate
            && (s.parent.None? ==> n == 1)
            && (s.parent.Some? ==> n >= 2 && cs[n - 2] == s.parent.value.coordinate)
            && (s.parent.Some? && s.parent.value.parent.Some? ==> n >= 3 && cs[n - 3] == s.parent.value.parent.value.coordinate)
  {
    if s.parent.Some? {
      var p := s.parent.value;
      PathStep(s);
      var ps := Coordinates(PathToRoot(p));
      assert ps[|ps| - 1] == p.coordinate;
      if p.parent.Some? {
        PathStep(p);
      }
    }
  }

  /** The last step into a square the search builds is allowed. */
  lemma LastStepOfReachable(g: Grid, s: Square)
    requires IsGrid(g) && Reachable(g, s) && s.parent.Some?
    ensures LastStepAllowed(Coordinates(PathToRoot(s)))
  {
    NoFourStraight(g, s);
    ReachableFacts(g, s);
    var p := s.parent.value;
    assert Admissible(g, p, s.coordinate);
    LastStepFromSquares(s);
  }

  lemma LastStepFromSquares(s: Square)
    requires s.parent.Some? && IsUnit(Sub(s.coordinate, s.parent.value.coordinate))
    requires s.parent.value.parent.Some? ==> s.coordinate != s.parent.value.parent.value.coordinate
    requires !EndsFourStraight(Coordinates(PathToRoot(s)))
    ensures LastStepAllowed(Coordinates(PathToRoot(s)))
  {
    LastThreeBlocks(s);
  }

  /** The start square's path is the top-left block alone. */
  lemma StartIsWalk(g: Grid, s: Square)
    requires IsGrid(g) && s.parent.None? && s.coordinate == Vec(0, 0)
    ensures IsWalk(g, Coordinates(PathToRoot(s)))
  {
    LastThreeBlocks(s);
  }

  /** The blocks on the path to any square the search builds form a route. */
  lemma {:induction false} ReachableIsWalk(g: Grid, s: Square)
    requires IsGrid(g) && Reachable(g, s)
    ensures IsWalk(g, Coordinates(PathToRoot(s)))
    decreases s
  {
    ReachableFacts(g, s);
    if s.parent.Some? {
      var p := s.parent.value;
      ReachableIsWalk(g, p);
      PathStep(s);
      LastStepOfReachable(g, s);
      WalkSnoc(g, Coordinates(PathToRoot(p)), s.coordinate);
    } else {
      StartIsWalk(g, s);
    }
  }

  /** The heat loss of a square the search builds is the cost of its route. */
  lemma {:induction false} HeatLossIsRouteCost(g: Grid, s: Square)
    requires IsGrid(g) && Reachable(g, s)
    ensures IsWalk(g, Coordinates(PathToRoot(s)))
    ensures s.heatLoss == RouteCost(g, Coordinates(PathToRoot(s)))
    decreases s
  {
    ReachableIsWalk(g, s);
    ReachableFacts(g, s);
    if s.parent.Some? {
      var p := s.parent.value;
      HeatLossIsRouteCost(g, p);
      PathStep(s);
      RouteCostSnoc(g, Coordinates(PathToRoot(p)), s.coordinate);
    } else {
      LastThreeBlocks(s);
    }
  }

  /** One more block adds its cost to the route's. */
  lemma RouteCostSnoc(g: Grid, ps: seq<Vec>, c: Vec)
    requires IsGrid(g) && |ps| >= 1 && InGrid(g, c) && forall i :: 0 <= i < |ps| ==> InGrid(g, ps[i])
    ensures forall i :: 0 <= i < |ps| + 1 ==> InGrid(g, (ps + [c])[i])
    ensures RouteCost(g, ps + [c]) == RouteCost(g, ps) + Cost(g, c)
  {
    assert (ps + [c])[..|ps|] == ps;
  }

  lemma SplitLast(cs: seq<Vec>)
    requires |cs| >= 1
    ensures cs == cs[..|cs| - 1] + [cs[|cs| - 1]]
  {
  }

  /** A route of two or more blocks is a shorter route and one allowed step. */
  lemma WalkLast(g: Grid, cs: seq<Vec>)
    requires IsGrid(g) && IsWalk(g, cs) && |cs| >= 2
    ensures IsWalk(g, cs[..|cs| - 1]) && InGrid(g, cs[|cs| - 1]) && LastStepAllowed(cs)
  {
    WalkPrefix(g, cs, |cs| - 1);
    assert cs[..|cs|] == cs;
  }

  /** Every non-empty prefix of a route is a route. */
  lemma WalkPrefix(g: Grid, cs: seq<Vec>, k: nat)
    requires IsGrid(g) && IsWalk(g, cs) && 1 <= k <= |cs|
    ensures IsWalk(g, cs[..k])
  {
    forall j | 2 <= j <= k
      ensures LastStepAllowed(cs[..k][..j])
    {
      assert cs[..k][..j] == cs[..j];
    }
  }

  /** On a grid of one row a route can only go right, one block per step, and stops
      after three steps: at most four blocks. */
  lemma {:induction false} OneRowWalk(g: Grid, cs: seq<Vec>)
    requires IsGrid(g) && |g| == 1 && IsWalk(g, cs)
    ensures |cs| <= 4 && forall i :: 0 <= i < |cs| ==> cs[i] == Vec(0, i)
    decreases |cs|
  {
    var n := |cs|;
    if n > 1 {
      WalkLast(g, cs);
      var ps := cs[..n - 1];
      SplitLast(cs);
      OneRowWalk(g, ps);
      OneRowLastStep(g, ps, cs[n - 1]);
    }
  }

  /** The step after a rightward run on a one-row grid goes right again, and not a
      fourth time. */
  lemma OneRowLastStep(g: Grid, ps: seq<Vec>, c: Vec)
    requires IsGrid(g) && |g| == 1 && 1 <= |ps| <= 4 && InGrid(g, c) && LastStepAllowed(ps + [c])
    requires forall i :: 0 <= i < |ps| ==> ps[i] == Vec(0, i)
    ensures |ps| <= 3 && c == Vec(0, |ps|)
    ensures forall i :: 0 <= i <= |ps| ==> (ps + [c])[i] == Vec(0, i)
  {
  }

  /** On a grid of one row and at least five columns no route reaches the goal. */
  lemma OneRowNoWalkToGoal(g: Grid, cs: seq<Vec>)
    requires IsGrid(g) && |g| == 1 && |g[0]| >= 5 && IsWalk(g, cs)
    ensures cs[|cs| - 1] != Goal(g)
  {
    OneRowWalk(g, cs);
  }
}
