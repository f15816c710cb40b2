/** Day 17 `minimal_route_heat_loss`: a best-first search over squares. Each round
    removes the first open square of least `f`, stops if it sits on the goal, marks
    its block checked, and appends the squares `potential_squares` offers on blocks
    not yet checked. */
module RouteSearch {
  import opened Wrappers
  import opened Vectors
  import opened LavaGrid

  /** The scan over the open squares: the first one of least `f` (a later square
      replaces the current pick only when its `f` is strictly smaller). */
  method SelectMin(open: seq<Square>) returns (i: nat)
    requires |open| >= 1
    ensures i < |open|
    ensures forall j :: 0 <= j < |open| ==> F(open[i]) <= F(open[j])
    ensures forall j :: 0 <= j < i ==> F(open[i]) < F(open[j])
  {
    i := 0;
    var k := 0;
    while k < |open|
      invariant 0 <= k <= |open| && i < |open| && (k == 0 ==> i == 0) && (k > 0 ==> i < k)
      invariant forall j :: 0 <= j < k ==> F(open[i]) <= F(open[j])
      invariant forall j :: 0 <= j < i ==> F(open[i]) < F(open[j])
    {
      if F(open[k]) < F(open[i]) {
        i := k;
      }
      k := k + 1;
    }
  }

  /** The squares of `next` on blocks not yet checked, in order. The check against
      cheaper open squares on the same block is left out: its `continue` only ends
      one turn of the inner loop, so every such square is appended. */
  function Unchecked(next: seq<Square>, checked: set<Vec>): (r: seq<Square>)
    ensures |r| <= |next|
    ensures forall t :: t in r <==> t in next && t.coordinate !in checked
  {
    if |next| == 0 then []
    else if next[0].coordinate in checked then Unchecked(next[1..], checked)
    else [next[0]] + Unchecked(next[1..], checked)
  }

  /** The filter works square by square: filtering a concatenation concatenates the
      filtered pieces, and a single square is kept exactly when its block is unchecked. */
  lemma {:induction false} UncheckedAppend(a: seq<Square>, b: seq<Square>, checked: set<Vec>)
    ensures Unchecked(a + b, checked) == Unchecked(a, checked) + Unchecked(b, checked)
    ensures |a| == 1 ==> Unchecked(a, checked) == if a[0].coordinate in checked then [] else a
    decreases |a|
  {
    if |a| == 0 {
      assert a + b == b;
    } else {
      assert (a + b)[1..] == a[1..] + b;
      UncheckedAppend(a[1..], b, checked);
      if |a| == 1 {
        assert a[1..] == [];
      }
    }
  }

  /** The blocks of the grid. */
  function Cells(g: Grid): set<Vec>
    requires IsGrid(g)
  {
    set x, y | 0 <= x < |g| && 0 <= y < |g[0]| :: Vec(x, y)
  }

  /** How many open squares sit on checked blocks. */
  function AtChecked(open: seq<Square>, checked: set<Vec>): nat
  {
    if |open| == 0 then 0 else (if open[0].coordinate in checked then 1 else 0) + AtChecked(open[1..], checked)
  }

  lemma {:induction false} AtCheckedAppend(a: seq<Square>, b: seq<Square>, checked: set<Vec>)
    ensures AtChecked(a + b, checked) == AtChecked(a, checked) + AtChecked(b, checked)
    decreases |a|
  {
    if |a| == 0 {
      assert a + b == b;
    } else {
      assert (a + b)[1..] == a[1..] + b;
      AtCheckedAppend(a[1..], b, checked);
    }
  }

  /** Taking the `i`-th square out lowers the count by one exactly when its block is
      checked. */
  lemma AtCheckedRemove(open: seq<Square>, i: nat, checked: set<Vec>)
    requires i < |open|
    ensures AtChecked(open, checked)
            == AtChecked(open[..i] + open[i + 1..], checked) + (if open[i].coordinate in checked then 1 else 0)
  {
    assert open == open[..i] + [open[i]] + open[i + 1..];
    AtCheckedAppend(open[..i] + [open[i]], open[i + 1..], checked);
    AtCheckedAppend(open[..i], [open[i]], checked);
    AtCheckedAppend(open[..i], open[i + 1..], checked);
  }

  /** No square the filter keeps sits on a checked block. */
  lemma {:induction false} AtCheckedUnchecked(next: seq<Square>, checked: set<Vec>)
    ensures AtChecked(Unchecked(next, checked), checked) == 0
    decreases |next|
  {
    if |next| > 0 {
      AtCheckedUnchecked(next[1..], checked);
      if next[0].coordinate !in checked {
        assert ([next[0]] + Unchecked(next[1..], checked))[1..] == Unchecked(next[1..], checked);
      }
    }
  }

  /** Marking a new block of the grid leaves one unchecked block fewer. */
  lemma CheckOneMore(g: Grid, checked: set<Vec>, c: Vec)
    requires IsGrid(g) && InGrid(g, c) && c !in checked
    ensures |Cells(g) - (checked + {c})| < |Cells(g) - checked|
  {
    assert c in Cells(g);
    assert Cells(g) - (checked + {c}) == (Cells(g) - checked) - {c};
  }

  predicate Distinct(cs: seq<Vec>)
  {
    forall i, j :: 0 <= i < j < |cs| ==> cs[i] != cs[j]
  }

  /** The path to `t` visits no block twice and every block before `t`'s own is
      checked. */
  predicate Simple(t: Square, checked: set<Vec>)
  {
    var cs := Coordinates(PathToRoot(t));
    Distinct(cs) && forall i :: 0 <= i < |cs| - 1 ==> cs[i] in checked
  }

  /** A child on an unchecked block of a square whose whole path is checked has a
      simple path. */
  lemma SimpleChild(t: Square, checked: set<Vec>)
    requires t.parent.Some? && t.coordinate !in checked
    requires var ps := Coordinates(PathToRoot(t.parent.value)); forall i :: 0 <= i < |ps| ==> ps[i] in checked
    requires Distinct(Coordinates(PathToRoot(t.parent.value)))
    ensures Simple(t, checked)
  {
    PathStep(t);
    var ps := Coordinates(PathToRoot(t.parent.value));
    var cs := ps + [t.coordinate];
    assert forall i :: 0 <= i < |ps| ==> cs[i] == ps[i];
  }

  /** Every open square can be built by the search and has a simple path. */
  predicate Frontier(g: Grid, open: seq<Square>, checked: set<Vec>)
    requires IsGrid(g)
  {
    forall t :: t in open ==> Reachable(g, t) && Simple(t, checked)
  }

  /** Checking the block of a square with a simple path completes its path's checks. */
  lemma CheckPopped(sq: Square, checked: set<Vec>)
    requires Simple(sq, checked)
    ensures var cs := Coordinates(PathToRoot(sq));
            Distinct(cs) && forall i :: 0 <= i < |cs| ==> cs[i] in checked + {sq.coordinate}
  {
    var cs := Coordinates(PathToRoot(sq));
    assert cs[|cs| - 1] == sq.coordinate;
  }

  /** One round keeps the frontier: the squares left behind and the appended
      children are all buildable, with simple paths. */
  lemma FrontierStep(g: Grid, rest: seq<Square>, sq: Square, checked: set<Vec>)
    requires IsGrid(g) && Frontier(g, rest, checked) && Reachable(g, sq) && Simple(sq, checked)
    ensures InGrid(g, sq.coordinate)
    ensures Frontier(g, rest + Unchecked(PotentialSquares(g, sq), checked + {sq.coordinate}), checked + {sq.coordinate})
  {
    ReachableFacts(g, sq);
    var now := checked + {sq.coordinate};
    var next := PotentialSquares(g, sq);
    CheckPopped(sq, checked);
    forall t | t in rest + Unchecked(next, now)
      ensures Reachable(g, t) && Simple(t, now)
    {
      if t in rest {
        assert Simple(t, checked);
      } else {
        assert t in next && t.coordinate !in now;
        SimpleChild(t, now);
      }
    }
  }

  /** `minimal_route_heat_loss`: the heat loss and the path of the first square on the
      goal that the search removes, or `None` when the open squares run out. A
      result is a route to the goal that visits no block twice and whose cost is the
      reported heat loss; a single block is its own route of cost 0; and a single
      row of five or more blocks has no route. */
  method MinimalRouteHeatLoss(g: Grid) returns (r: Option<(int, seq<Square>)>)
    requires IsGrid(g)
    ensures r.Some? ==> var cs := Coordinates(r.value.1);
                        && IsWalk(g, cs) && cs[|cs| - 1] == Goal(g) && Distinct(cs)
                        && r.value.0 == RouteCost(g, cs)
    ensures |g| == 1 && |g[0]| == 1 ==> r == Some((0, [Root(g)]))
    ensures |g| == 1 && |g[0]| >= 5 ==> r.None?
  {
    var open := [Root(g)];
    var checked: set<Vec> := {};
    RootIsSimple(g);
    SingleBlock(g);
    while |open| > 0
      invariant Frontier(g, open, checked)
      invariant |g| == 1 && |g[0]| == 1 ==> |open| == 1 && forall t :: t in open ==> t == Root(g)
      decreases |Cells(g) - checked|, AtChecked(open, checked)
    {
      var i := SelectMin(open);
      var sq := open[i];
      var rest := open[..i] + open[i + 1..];
      assert sq in open;
      assert |g| == 1 && |g[0]| == 1 ==> sq == Root(g) && sq.coordinate == Goal(g);
      if sq.coordinate == Goal(g) {
        FoundRoute(g, sq, checked);
        return Some((sq.heatLoss, PathToRoot(sq)));
      }
      FrontierPop(g, open, i, checked);
      FrontierStep(g, rest, sq, checked);
      var now := checked + {sq.coordinate};
      var next := Unchecked(PotentialSquares(g, sq), now);
      AtCheckedUnchecked(PotentialSquares(g, sq), now);
      RoundDecreases(g, open, i, checked, next);
      checked := now;
      open := rest + next;
    }
    return None;
  }

  /** Taking a square out keeps the frontier. */
  lemma FrontierPop(g: Grid, open: seq<Square>, i: nat, checked: set<Vec>)
    requires IsGrid(g) && Frontier(g, open, checked) && i < |open|
    ensures Frontier(g, open[..i] + open[i + 1..], checked)
    ensures Reachable(g, open[i]) && Simple(open[i], checked)
  {
    assert forall t :: t in open[..i] + open[i + 1..] ==> t in open;
    assert open[i] in open;
  }

  /** One round either checks a new block or takes out a square on a checked block
      and adds none. */
  lemma RoundDecreases(g: Grid, open: seq<Square>, i: nat, checked: set<Vec>, next: seq<Square>)
    requires IsGrid(g) && i < |open| && InGrid(g, open[i].coordinate)
    requires AtChecked(next, checked + {open[i].coordinate}) == 0
    ensures var now := checked + {open[i].coordinate};
            |Cells(g) - now| < |Cells(g) - checked|
            || (now == checked && AtChecked(open[..i] + open[i + 1..] + next, now) < AtChecked(open, checked))
  {
    var c := open[i].coordinate;
    if c !in checked {
      CheckOneMore(g, checked, c);
    } else {
      assert checked + {c} == checked;
      AtCheckedRemove(open, i, checked);
      AtCheckedAppend(open[..i] + open[i + 1..], next, checked);
    }
  }

  /** The path to a square on the goal that the search builds, with a simple path,
      answers the search. */
  lemma FoundRoute(g: Grid, sq: Square, checked: set<Vec>)
    requires IsGrid(g) && Reachable(g, sq) && Simple(sq, checked) && sq.coordinate == Goal(g)
    ensures var cs := Coordinates(PathToRoot(sq));
            && IsWalk(g, cs) && cs[|cs| - 1] == Goal(g) && Distinct(cs)
            && sq.heatLoss == RouteCost(g, cs)
            && !(|g| == 1 && |g[0]| >= 5)
  {
    HeatLossIsRouteCost(g, sq);
    OneRowNoRouteToGoal(g, Coordinates(PathToRoot(sq)));
  }

  /** The start square alone is a frontier. */
  lemma RootIsSimple(g: Grid)
    requires IsGrid(g)
    ensures Frontier(g, [Root(g)], {})
  {
    assert PathToRoot(Root(g)) == [Root(g)];
  }

  /** On a single block the start square is on the goal, with heat loss 0 and a path
      of its own. */
  lemma SingleBlock(g: Grid)
    requires IsGrid(g)
    ensures |g| == 1 && |g[0]| == 1 ==> Root(g).coordinate == Goal(g) && Root(g).heatLoss == 0 && PathToRoot(Root(g)) == [Root(g)]
  {
  }

  /** On a single row of five or more blocks no route ends at the goal. */
  lemma OneRowNoRouteToGoal(g: Grid, cs: seq<Vec>)
    requires IsGrid(g) && IsWalk(g, cs)
    ensures |g| == 1 && |g[0]| >= 5 ==> cs[|cs| - 1] != Goal(g)
  {
    if |g| == 1 && |g[0]| >= 5 {
      OneRowNoWalkToGoal(g, cs);
    }
  }
}
