/** The passes that reshape a carved maze, stated over grid snapshots: MakeCycles removes
    walls between corridor cells, RemoveDeadEnds puts walls back along dead-end corridors,
    and both keep neighbouring cells agreeing on their shared walls. */
module Reshaping {
  import opened MazeCells
  import opened Carving
  import opened Lists

  /** Neighbouring cells of g agree on the wall between them. */
  ghost predicate GridSymmetric(g: Grid) {
    forall p, d: Side :: p in g && Step(p, d) in g ==> Wall(g[p], d) == Wall(g[Step(p, d)], Opposite(d))
  }

  /** Each cell of g is its init value with some walls removed and nothing else changed. */
  ghost predicate OnlyOpenedGrid(init: Grid, g: Grid) {
    SameCells(init, g) && forall p :: p in g ==> OnlyOpened(init[p], g[p])
  }

  /** Each cell of g is its init value with some walls put back and nothing else changed. */
  ghost predicate OnlyClosedGrid(init: Grid, g: Grid) {
    SameCells(init, g) && forall p :: p in g ==> OnlyClosed(init[p], g[p])
  }

  lemma StepInjective(p: Coord, q: Coord, d: Side)
    requires Step(p, d) == Step(q, d)
    ensures p == q
  {
  }

  lemma StepBack(p: Coord, d: Side)
    ensures Step(Step(p, d), Opposite(d)) == p
  {
  }

  // ---------------------------------------------------------------- MakeCycles

  /** The grid after RemoveWall(a, b). */
  ghost function RemoveWallGrid(g: Grid, a: Coord, b: Coord): (h: Grid)
    ensures forall p :: p in h <==> p in g
  {
    imap p | p in g :: AfterRemoveWall(a, b, p, g[p])
  }

  /** The grid after RemoveWall on each pair of walls, in order. */
  ghost function OpenAll(g: Grid, walls: seq<(Coord, Coord)>): (h: Grid)
    ensures forall p :: p in h <==> p in g
  {
    if walls == [] then g
    else
      var w := walls[|walls| - 1];
      RemoveWallGrid(OpenAll(g, walls[..|walls| - 1]), w.0, w.1)
  }

  lemma OpenAllAppend(g: Grid, walls: seq<(Coord, Coord)>, w: (Coord, Coord))
    ensures OpenAll(g, walls + [w]) == RemoveWallGrid(OpenAll(g, walls), w.0, w.1)
  {
    assert (walls + [w])[..|walls|] == walls;
  }

  /** A wall MakeCycles may remove: between a corridor cell and its corridor neighbour to
      the left or below, present on the cell's own side. */
  ghost predicate CycleWall(g: Grid, w: (Coord, Coord)) {
    && w.0 in g && w.1 in g
    && (w.1 == Step(w.0, Left) || w.1 == Step(w.0, Bottom))
    && !g[w.0].room && !g[w.1].room
    && Wall(g[w.0], Facing(w.0, w.1))
  }

  /** Each wall of the list qualified when its turn came. */
  ghost predicate CycleWalls(g: Grid, walls: seq<(Coord, Coord)>) {
    forall k :: 0 <= k < |walls| ==> CycleWall(OpenAll(g, walls[..k]), walls[k])
  }

  lemma CycleWallsExtend(g: Grid, walls: seq<(Coord, Coord)>, w: (Coord, Coord))
    requires CycleWalls(g, walls) && CycleWall(OpenAll(g, walls), w)
    ensures CycleWalls(g, walls + [w])
  {
    var s := walls + [w];
    forall k | 0 <= k < |s| ensures CycleWall(OpenAll(g, s[..k]), s[k]) {
      if k < |walls| {
        assert s[..k] == walls[..k] && s[k] == walls[k];
      } else {
        assert s[..k] == walls;
      }
    }
  }

  /** The cell p has a wall MakeCycles would remove: to its left or below. */
  ghost predicate HasCycleWall(g: Grid, p: Coord) {
    CycleWall(g, (p, Step(p, Left))) || CycleWall(g, (p, Step(p, Bottom)))
  }

  /** The cells whose walls were removed, in order. */
  function Opened(walls: seq<(Coord, Coord)>): (r: seq<Coord>)
    ensures |r| == |walls| && forall k :: 0 <= k < |walls| ==> r[k] == walls[k].0
  {
    if walls == [] then [] else Opened(walls[..|walls| - 1]) + [walls[|walls| - 1].0]
  }

  /** Removing walls never gives a cell a wall MakeCycles would remove. */
  lemma CycleWallStaysGone(g: Grid, h: Grid, p: Coord)
    requires OnlyOpenedGrid(g, h) && !HasCycleWall(g, p)
    ensures !HasCycleWall(h, p)
  {
    forall d: Side | d == Left || d == Bottom ensures !CycleWall(h, (p, Step(p, d))) {
      var q := Step(p, d);
      if q in h && p in h {
        assert OnlyOpened(g[p], h[p]) && OnlyOpened(g[q], h[q]);
        assert !CycleWall(g, (p, q));
      }
    }
  }

  /** Where MakeCycles stands: the walls removed so far each qualified when their turn came
      and belong to cells already drawn; a drawn cell that lost no wall has none left to
      lose; the cells drawn and the cells left are the corridor
      cells of init, each in one of the two lists once. */
  ghost predicate CycleProgress(init: Grid, removed: seq<(Coord, Coord)>, points: seq<Coord>, examined: seq<Coord>) {
    && CycleWalls(init, removed)
    && (forall k :: 0 <= k < |removed| ==> removed[k].0 in examined)
    && (forall p :: p in examined && p !in Opened(removed) ==> !HasCycleWall(OpenAll(init, removed), p))
    && Distinct(points) && Distinct(examined)
    && (forall p :: p in points <==> p in init && !init[p].room && p !in examined)
    && (forall p :: p in examined ==> p in init && !init[p].room)
  }

  /** One draw of MakeCycles keeps its bookkeeping: the cell leaves the points list for the
      examined list, and the wall it removed, if any, joins the removed walls. */
  lemma CycleProgressStep(init: Grid, removed: seq<(Coord, Coord)>, points: seq<Coord>, examined: seq<Coord>,
                          cell: Coord, wall: Option<(Coord, Coord)>, removed': seq<(Coord, Coord)>)
    requires CycleProgress(init, removed, points, examined) && cell in points
    requires wall.Some? ==> wall.value.0 == cell && CycleWall(OpenAll(init, removed), wall.value)
    requires wall.None? ==> !HasCycleWall(OpenAll(init, removed), cell)
    requires removed' == if wall.Some? then removed + [wall.value] else removed
    ensures CycleProgress(init, removed', RemoveFirst(points, cell), examined + [cell])
  {
    RemoveFirstDistinct(points, cell);
    DistinctAppend(examined, cell);
    if wall.Some? {
      CycleWallsExtend(init, removed, wall.value);
      CycleWallsStayGone(init, removed, wall.value, examined);
    }
    forall k | 0 <= k < |removed'| ensures removed'[k].0 in examined + [cell] {
      if k < |removed| {
        assert removed'[k] == removed[k];
      }
    }
  }

  /** Removing one more wall keeps every drawn cell that lost no wall without one to lose. */
  lemma CycleWallsStayGone(init: Grid, removed: seq<(Coord, Coord)>, w: (Coord, Coord), examined: seq<Coord>)
    requires forall p :: p in examined && p !in Opened(removed) ==> !HasCycleWall(OpenAll(init, removed), p)
    ensures forall p :: p in examined && p !in Opened(removed + [w]) ==> !HasCycleWall(OpenAll(init, removed + [w]), p)
  {
    var g, h := OpenAll(init, removed), OpenAll(init, removed + [w]);
    OpenAllAppend(init, removed, w);
    assert OnlyOpenedGrid(g, h) by {
      forall p | p in h ensures OnlyOpened(g[p], h[p]) {
        RemoveWallOnlyOpens(w.0, w.1, p, g[p]);
      }
    }
    assert Opened(removed + [w]) == Opened(removed) + [w.0] by {
      assert (removed + [w])[..|removed|] == removed;
    }
    forall p | p in examined && p !in Opened(removed + [w]) ensures !HasCycleWall(h, p) {
      CycleWallStaysGone(g, h, p);
    }
  }

  /** Removing walls only ever removes walls. */
  lemma {:induction false} OpenAllOnlyOpens(g: Grid, walls: seq<(Coord, Coord)>)
    ensures OnlyOpenedGrid(g, OpenAll(g, walls))
  {
    if walls != [] {
      var w := walls[|walls| - 1];
      var prev := OpenAll(g, walls[..|walls| - 1]);
      OpenAllOnlyOpens(g, walls[..|walls| - 1]);
      var h := OpenAll(g, walls);
      forall p | p in h ensures OnlyOpened(g[p], h[p]) {
        RemoveWallOnlyOpens(w.0, w.1, p, prev[p]);
      }
    }
  }

  /** RemoveWall on two neighbours keeps neighbouring cells agreeing on their walls. */
  lemma RemoveWallKeepsSymmetry(g: Grid, a: Coord, b: Coord)
    requires GridSymmetric(g) && Adjacent(a, b)
    ensures GridSymmetric(RemoveWallGrid(g, a, b))
  {
    var h := RemoveWallGrid(g, a, b);
    AdjacentIsDistanceOne(a, b);
    FacingNeighbour(a, b);
    FacingNeighbour(b, a);
    forall p, d: Side | p in h && Step(p, d) in h ensures Wall(h[p], d) == Wall(h[Step(p, d)], Opposite(d)) {
      var q := Step(p, d);
      RemoveWallClearsFacingPair(a, b, p, g[p], d);
      RemoveWallClearsFacingPair(a, b, q, g[q], Opposite(d));
      StepBack(p, d);
      if q == b && Opposite(d) == Facing(b, a) {
        StepInjective(p, a, d);
      }
      if q == a && Opposite(d) == Facing(a, b) {
        StepInjective(p, b, d);
      }
    }
  }

  lemma {:induction false} OpenAllKeepsSymmetry(g: Grid, walls: seq<(Coord, Coord)>)
    requires GridSymmetric(g)
    requires forall k :: 0 <= k < |walls| ==> Adjacent(walls[k].0, walls[k].1)
    ensures GridSymmetric(OpenAll(g, walls))
  {
    if walls != [] {
      var w := walls[|walls| - 1];
      OpenAllKeepsSymmetry(g, walls[..|walls| - 1]);
      RemoveWallKeepsSymmetry(OpenAll(g, walls[..|walls| - 1]), w.0, w.1);
    }
  }

  /** MakeCycles keeps neighbouring cells agreeing on their walls. */
  lemma CycleWallsKeepSymmetry(g: Grid, walls: seq<(Coord, Coord)>)
    requires GridSymmetric(g) && CycleWalls(g, walls)
    ensures GridSymmetric(OpenAll(g, walls))
  {
    forall k | 0 <= k < |walls| ensures Adjacent(walls[k].0, walls[k].1) {
      assert CycleWall(OpenAll(g, walls[..k]), walls[k]);
    }
    OpenAllKeepsSymmetry(g, walls);
  }

  /** After the pass every removed wall is open from both sides. */
  lemma {:induction false} OpenAllOpens(g: Grid, walls: seq<(Coord, Coord)>)
    requires forall k :: 0 <= k < |walls| ==> Adjacent(walls[k].0, walls[k].1) && walls[k].0 in g && walls[k].1 in g
    ensures PassagesOpen(OpenAll(g, walls), walls)
  {
    if walls != [] {
      var w := walls[|walls| - 1];
      var init := walls[..|walls| - 1];
      OpenAllOpens(g, init);
      var prev := OpenAll(g, init);
      forall k | 0 <= k < |walls| ensures PassageOpen(OpenAll(g, walls), walls[k]) {
        if k < |init| {
          assert walls[k] == init[k];
        }
        PassageStaysOpen(prev, w.0, w.1, walls[k]);
      }
    }
  }

  /** RemoveWall(a, b) opens the wall between a and b and closes no passage. */
  lemma PassageStaysOpen(g: Grid, a: Coord, b: Coord, e: (Coord, Coord))
    requires Adjacent(a, b) && a in g && b in g
    requires PassageOpen(g, e) || e == (a, b)
    ensures PassageOpen(RemoveWallGrid(g, a, b), e)
  {
    AdjacentIsDistanceOne(a, b);
    FacingNeighbour(a, b);
    if e == (a, b) {
      RemoveWallClearsFacingPair(a, b, a, g[a], Facing(a, b));
      RemoveWallClearsFacingPair(a, b, b, g[b], Facing(b, a));
    } else {
      RemoveWallOnlyOpens(a, b, e.0, g[e.0]);
      RemoveWallOnlyOpens(a, b, e.1, g[e.1]);
    }
  }

  // ---------------------------------------------------------------- RemoveDeadEnds

  /** One can leave p through side d: p's own flag is clear and, when there is a neighbour
      on that side, so is the neighbour's facing flag. */
  ghost predicate OpenTowards(g: Grid, p: Coord, d: Side) {
    p in g && !Wall(g[p], d) && (Step(p, d) !in g || !Wall(g[Step(p, d)], Opposite(d)))
  }

  ghost function OpenSidesIn(g: Grid, p: Coord): set<Side> {
    set d | d in AllSides && OpenTowards(g, p, d)
  }

  /** GetExitCount on a snapshot: the number of sides one can leave p through. */
  ghost function GridExitCount(g: Grid, p: Coord): nat {
    |OpenSidesIn(g, p)|
  }

  /** The side RemoveDeadEndCell walls up: the first of bottom, top, left and right whose
      own flag is clear and that has a neighbour in the grid. */
  ghost function DeadEndSide(g: Grid, p: Coord): (r: Option<Side>)
    requires p in g
    ensures r.Some? ==> !Wall(g[p], r.value) && Step(p, r.value) in g
    ensures r.None? ==> forall d: Side :: Step(p, d) in g ==> Wall(g[p], d)
  {
    if !g[p].hasBottomWall && Step(p, Bottom) in g then Option<Side>.Some(Bottom)
    else if !g[p].hasTopWall && Step(p, Top) in g then Option<Side>.Some(Top)
    else if !g[p].hasLeftWall && Step(p, Left) in g then Option<Side>.Some(Left)
    else if !g[p].hasRightWall && Step(p, Right) in g then Option<Side>.Some(Right)
    else None
  }

  /** A cell RemoveDeadEndCell acts on: a corridor cell other than the start with exactly one
      exit, and a clear flag towards a neighbour. */
  ghost predicate Removable(g: Grid, start: Coord, p: Coord) {
    && p in g && GridExitCount(g, p) == 1 && !g[p].room && p != start
    && DeadEndSide(g, p).Some?
  }

  /** The grid after side d of p is walled up: p's flag and, behind it, the neighbour's
      facing flag are set. */
  ghost function CloseGrid(g: Grid, p: Coord, d: Side): (h: Grid)
    ensures forall q :: q in h <==> q in g
  {
    imap q | q in g :: if q == p then WithWall(g[q], d, true)
      else if q == Step(p, d) then WithWall(g[q], Opposite(d), true) else g[q]
  }

  /** Walling up is two single-cell writes: p's flag first, then the neighbour's. */
  lemma CloseGridUpdates(g: Grid, p: Coord, d: Side)
    requires p in g && Step(p, d) in g
    ensures CloseGrid(g, p, d) ==
      g[p := WithWall(g[p], d, true)][Step(p, d) := WithWall(g[Step(p, d)], Opposite(d), true)]
  {
    var q := Step(p, d);
    assert p != q;
    var h := g[p := WithWall(g[p], d, true)][q := WithWall(g[q], Opposite(d), true)];
    forall r | r in h ensures h[r] == CloseGrid(g, p, d)[r] { }
  }

  /** The grid after each (cell, side) of the trail is walled up, first to last. */
  ghost function CloseAll(g: Grid, trail: seq<(Coord, Side)>): (h: Grid)
    ensures forall q :: q in h <==> q in g
    decreases |trail|
  {
    if trail == [] then g else CloseAll(CloseGrid(g, trail[0].0, trail[0].1), trail[1..])
  }

  /** No cell of g is one RemoveDeadEndCell would wall up. */
  ghost predicate NoDeadEnds(g: Grid, start: Coord) {
    forall r: Coord :: !Removable(g, start, r)
  }

  /** The sides RemoveDeadEndCell(p) walls up, in order: none when p is not removable;
      otherwise the side DeadEndSide picks, followed by the trail of the neighbour behind
      it in the grid where that side is closed. */
  ghost predicate DeadEndTrail(g: Grid, start: Coord, p: Coord, trail: seq<(Coord, Side)>)
    decreases |trail|
  {
    if !Removable(g, start, p) then trail == []
    else
      var d := DeadEndSide(g, p).value;
      |trail| > 0 && trail[0] == (p, d) && DeadEndTrail(CloseGrid(g, p, d), start, Step(p, d), trail[1..])
  }

  /** A removable dead end walled up on its exit side, followed by the trail from the cell
      behind that side, is the trail from the dead end. */
  lemma DeadEndTrailCons(g: Grid, start: Coord, p: Coord, d: Side, rest: seq<(Coord, Side)>)
    requires Removable(g, start, p) && DeadEndSide(g, p) == Some(d)
    requires DeadEndTrail(CloseGrid(g, p, d), start, Step(p, d), rest)
    ensures DeadEndTrail(g, start, p, [(p, d)] + rest)
    ensures CloseAll(g, [(p, d)] + rest) == CloseAll(CloseGrid(g, p, d), rest)
  {
    assert ([(p, d)] + rest)[1..] == rest;
  }

  /** Walling up only ever adds walls. */
  lemma CloseGridOnlyCloses(g: Grid, p: Coord, d: Side)
    ensures OnlyClosedGrid(g, CloseGrid(g, p, d))
  {
    forall q | q in g ensures OnlyClosed(g[q], CloseGrid(g, p, d)[q]) {
      WithWallCloses(g[q], d);
      WithWallCloses(g[q], Opposite(d));
    }
  }

  lemma {:induction false} CloseAllOnlyCloses(g: Grid, trail: seq<(Coord, Side)>)
    ensures OnlyClosedGrid(g, CloseAll(g, trail))
    decreases |trail|
  {
    if trail != [] {
      var h := CloseGrid(g, trail[0].0, trail[0].1);
      CloseGridOnlyCloses(g, trail[0].0, trail[0].1);
      CloseAllOnlyCloses(h, trail[1..]);
      forall q | q in g ensures OnlyClosed(g[q], CloseAll(g, trail)[q]) {
        assert OnlyClosed(g[q], h[q]);
        assert OnlyClosed(h[q], CloseAll(h, trail[1..])[q]);
      }
    }
  }

  lemma CloseAllAppend(g: Grid, trail: seq<(Coord, Side)>, more: seq<(Coord, Side)>)
    ensures CloseAll(g, trail + more) == CloseAll(CloseAll(g, trail), more)
    decreases |trail|
  {
    if trail != [] {
      assert (trail + more)[1..] == trail[1..] + more;
      CloseAllAppend(CloseGrid(g, trail[0].0, trail[0].1), trail[1..], more);
    } else {
      assert trail + more == more;
    }
  }

  /** Walling up a side on both of its cells keeps neighbouring cells agreeing. */
  lemma CloseGridKeepsSymmetry(g: Grid, p: Coord, d: Side)
    requires GridSymmetric(g)
    ensures GridSymmetric(CloseGrid(g, p, d))
  {
    var h := CloseGrid(g, p, d);
    forall r, e: Side | r in h && Step(r, e) in h ensures Wall(h[r], e) == Wall(h[Step(r, e)], Opposite(e)) {
      var q := Step(r, e);
      StepBack(r, e);
      StepBack(p, d);
      if q == p && Opposite(e) == d {
        assert r == Step(p, d);
      }
      if q == Step(p, d) && Opposite(e) == Opposite(d) {
        StepInjective(r, p, d);
      }
    }
  }

  lemma {:induction false} CloseAllKeepsSymmetry(g: Grid, trail: seq<(Coord, Side)>)
    requires GridSymmetric(g)
    ensures GridSymmetric(CloseAll(g, trail))
    decreases |trail|
  {
    if trail != [] {
      CloseGridKeepsSymmetry(g, trail[0].0, trail[0].1);
      CloseAllKeepsSymmetry(CloseGrid(g, trail[0].0, trail[0].1), trail[1..]);
    }
  }

  /** Putting walls back never opens a side. */
  lemma OpenTowardsShrinks(g: Grid, h: Grid, p: Coord, d: Side)
    requires OnlyClosedGrid(g, h)
    ensures OpenTowards(h, p, d) ==> OpenTowards(g, p, d)
  {
    if p in g {
      assert OnlyClosed(g[p], h[p]);
      if Step(p, d) in g {
        assert OnlyClosed(g[Step(p, d)], h[Step(p, d)]);
      }
    }
  }

  /** Walling up side d of p leaves the exits of every other cell but the neighbour behind
      that side as they were. */
  lemma CloseGridElsewhere(g: Grid, p: Coord, d: Side, r: Coord)
    requires r != p && r != Step(p, d)
    ensures r in g ==> CloseGrid(g, p, d)[r] == g[r]
    ensures OpenSidesIn(CloseGrid(g, p, d), r) == OpenSidesIn(g, r)
  {
    var h := CloseGrid(g, p, d);
    forall e: Side | r in g ensures OpenTowards(h, r, e) == OpenTowards(g, r, e) {
      StepBack(r, e);
      StepBack(p, d);
    }
  }

  /** Walling up the one open side of a dead end leaves it with no exit at all. */
  lemma CloseGridSeals(g: Grid, p: Coord, d: Side)
    requires GridSymmetric(g) && p in g && GridExitCount(g, p) == 1
    requires !Wall(g[p], d) && Step(p, d) in g
    ensures GridExitCount(CloseGrid(g, p, d), p) == 0
  {
    var h := CloseGrid(g, p, d);
    var open := OpenSidesIn(g, p);
    assert d in open;
    OnlyMember(open, d);
    CloseGridOnlyCloses(g, p, d);
    assert Wall(h[p], d);
    forall e: Side ensures !OpenTowards(h, p, e) {
      OpenTowardsShrinks(g, h, p, e);
      if e != d {
        assert e !in open;
      }
    }
    assert OpenSidesIn(h, p) == {};
  }

  /** A set of one element holds nothing else. */
  lemma OnlyMember(s: set<Side>, d: Side)
    requires d in s && |s| == 1
    ensures forall e :: e in s ==> e == d
  {
    assert s == (s - {d}) + {d};
    assert s - {d} == {};
  }

  /** After RemoveDeadEndCell(p) every cell it could act on could be acted on before, and p
      is not one of them: the pass creates no new dead end of its own. */
  lemma {:induction false} DeadEndTrailRemoves(g: Grid, start: Coord, p: Coord, trail: seq<(Coord, Side)>)
    requires GridSymmetric(g) && DeadEndTrail(g, start, p, trail)
    ensures forall r :: Removable(CloseAll(g, trail), start, r) ==> Removable(g, start, r) && r != p
    decreases |trail|
  {
    if Removable(g, start, p) {
      var d := DeadEndSide(g, p).value;
      var q := Step(p, d);
      var h := CloseGrid(g, p, d);
      CloseGridKeepsSymmetry(g, p, d);
      DeadEndTrailRemoves(h, start, q, trail[1..]);
      CloseGridSeals(g, p, d);
      assert CloseAll(g, trail) == CloseAll(h, trail[1..]);
      forall r | Removable(CloseAll(g, trail), start, r) ensures Removable(g, start, r) && r != p {
        if r != p && r != q {
          CloseGridElsewhere(g, p, d, r);
        }
      }
    }
  }

  /** Each walled-up side of the trail was the DeadEndSide of a removable cell when its
      turn came. */
  ghost predicate DeadEndSteps(g: Grid, start: Coord, trail: seq<(Coord, Side)>) {
    forall i :: 0 <= i < |trail| ==>
      var before := CloseAll(g, trail[..i]);
      Removable(before, start, trail[i].0) && DeadEndSide(before, trail[i].0) == Some(trail[i].1)
  }

  lemma {:induction false} DeadEndTrailSteps(g: Grid, start: Coord, p: Coord, trail: seq<(Coord, Side)>)
    requires DeadEndTrail(g, start, p, trail)
    ensures DeadEndSteps(g, start, trail)
    decreases |trail|
  {
    if trail != [] {
      var d := trail[0].1;
      var h := CloseGrid(g, p, d);
      DeadEndTrailSteps(h, start, Step(p, d), trail[1..]);
      forall i | 0 <= i < |trail| ensures
        var before := CloseAll(g, trail[..i]);
        Removable(before, start, trail[i].0) && DeadEndSide(before, trail[i].0) == Some(trail[i].1)
      {
        if i > 0 {
          assert trail[..i] == [trail[0]] + trail[1..][..i - 1];
          assert CloseAll(g, trail[..i]) == CloseAll(h, trail[1..][..i - 1]);
          assert trail[i] == trail[1..][i - 1];
        } else {
          assert CloseAll(g, trail[..i]) == g;
        }
      }
    }
  }

  lemma DeadEndStepsAppend(g: Grid, start: Coord, trail: seq<(Coord, Side)>, more: seq<(Coord, Side)>)
    requires DeadEndSteps(g, start, trail) && DeadEndSteps(CloseAll(g, trail), start, more)
    ensures DeadEndSteps(g, start, trail + more)
  {
    var s := trail + more;
    forall i | 0 <= i < |s| ensures
      var before := CloseAll(g, s[..i]);
      Removable(before, start, s[i].0) && DeadEndSide(before, s[i].0) == Some(s[i].1)
    {
      if i < |trail| {
        assert s[..i] == trail[..i];
      } else {
        assert s[..i] == trail + more[..i - |trail|];
        CloseAllAppend(g, trail, more[..i - |trail|]);
      }
    }
  }

  /** Where the RemoveDeadEnds sweep stands before cell (x, y): the grid is init with the
      trail walled up, each step of it at a removable cell, and, when init is symmetric, the
      grid still is and no cell scanned so far is removable any more. */
  ghost predicate Swept(init: Grid, start: Coord, trail: seq<(Coord, Side)>, g: Grid, x: int, y: int) {
    && g == CloseAll(init, trail)
    && DeadEndSteps(init, start, trail)
    && (GridSymmetric(init) ==> GridSymmetric(g))
    && (GridSymmetric(init) ==> forall r: Coord :: (r.x < x || (r.x == x && r.y < y)) ==> !Removable(g, start, r))
  }

  lemma SweepStep(init: Grid, start: Coord, trail: seq<(Coord, Side)>, g: Grid, x: int, y: int, more: seq<(Coord, Side)>)
    requires Swept(init, start, trail, g, x, y) && DeadEndTrail(g, start, Coord(x, y), more)
    ensures Swept(init, start, trail + more, CloseAll(g, more), x, y + 1)
  {
    CloseAllAppend(init, trail, more);
    DeadEndTrailSteps(g, start, Coord(x, y), more);
    DeadEndStepsAppend(init, start, trail, more);
    if GridSymmetric(init) {
      CloseAllKeepsSymmetry(g, more);
      DeadEndTrailRemoves(g, start, Coord(x, y), more);
    }
  }

  /** The clear wall flags of the cells of g inside the w by h rectangle. */
  ghost function ClearFlags(g: Grid, w: int, h: int): set<(Coord, Side)> {
    set x, y, d: Side | 0 <= x < w && 0 <= y < h && d in AllSides && Coord(x, y) in g && !Wall(g[Coord(x, y)], d)
      :: (Coord(x, y), d)
  }

  /** Walling up a clear flag leaves fewer clear flags: RemoveDeadEndCell terminates. */
  lemma ClearFlagsShrink(g: Grid, p: Coord, d: Side, w: int, h: int)
    requires p in g && 0 <= p.x < w && 0 <= p.y < h && !Wall(g[p], d)
    ensures ClearFlags(CloseGrid(g, p, d), w, h) < ClearFlags(g, w, h)
  {
    var c := CloseGrid(g, p, d);
    CloseGridOnlyCloses(g, p, d);
    forall f | f in ClearFlags(c, w, h) ensures f in ClearFlags(g, w, h) {
      assert OnlyClosed(g[f.0], c[f.0]);
    }
    assert (p, d) in ClearFlags(g, w, h) - ClearFlags(c, w, h) by {
      assert p == Coord(p.x, p.y);
    }
  }

  // ---------------------------------------------------------------- singleWalls

  /** Removing walls never takes an exit away. */
  lemma ExitsGrow(g: Grid, h: Grid, p: Coord)
    requires OnlyOpenedGrid(g, h)
    ensures GridExitCount(h, p) >= GridExitCount(g, p)
  {
    var before, after := OpenSidesIn(g, p), OpenSidesIn(h, p);
    forall d | d in before ensures d in after {
      assert OnlyOpened(g[p], h[p]);
      if Step(p, d) in g {
        assert OnlyOpened(g[Step(p, d)], h[Step(p, d)]);
      }
    }
    assert after == before + (after - before);
  }

  /** The grid after the singleWalls step at p: p's top flag is cleared when the cell above
      has an exit, its right flag when the cell to the right has one. */
  ghost function ThinGrid(g: Grid, p: Coord): (h: Grid)
    requires p in g
    ensures forall q :: q in h <==> q in g
  {
    g[p := g[p].(
      hasTopWall := g[p].hasTopWall && GridExitCount(g, Step(p, Top)) == 0,
      hasRightWall := g[p].hasRightWall && GridExitCount(g, Step(p, Right)) == 0)]
  }

  lemma UpdateTwice(g: Grid, p: Coord, a: MazeCell, b: MazeCell)
    ensures g[p := a][p := b] == g[p := b]
  {
  }

  lemma UpdateSame(g: Grid, p: Coord)
    requires p in g
    ensures g[p := g[p]] == g
  {
  }

  /** g is init with some top and right flags cleared and nothing else changed. */
  ghost predicate TopRightCleared(init: Grid, g: Grid) {
    && (forall q :: q in g <==> q in init)
    && (forall q :: q in g ==>
         && g[q] == init[q].(hasTopWall := g[q].hasTopWall, hasRightWall := g[q].hasRightWall)
         && (g[q].hasTopWall ==> init[q].hasTopWall) && (g[q].hasRightWall ==> init[q].hasRightWall))
  }

  lemma TopRightClearedOpens(init: Grid, g: Grid)
    requires TopRightCleared(init, g)
    ensures OnlyOpenedGrid(init, g)
  {
  }

  /** The singleWalls pass has not touched the cells from (x, y) on, column by column, nor the
      last column and row of the w by h grid. */
  ghost predicate Untouched(init: Grid, g: Grid, x: int, y: int, w: int, h: int) {
    forall q :: q in g && q in init && (q.x >= w - 1 || q.y >= h - 1 || q.x > x || (q.x == x && q.y >= y)) ==> g[q] == init[q]
  }

  /** Each handled cell keeps its top flag exactly when it had one in init and the cell above
      had no exit in init; likewise the right flag and the cell to the right. */
  ghost predicate Settled(init: Grid, g: Grid, x: int, y: int, w: int, h: int) {
    forall q :: q in g && q in init && q.x < w - 1 && q.y < h - 1 && (q.x < x || (q.x == x && q.y < y)) ==>
      SettledAt(init, g, q)
  }

  /** The condition Settled places on one handled cell q. */
  ghost predicate SettledAt(init: Grid, g: Grid, q: Coord)
    requires q in g && q in init
  {
    && g[q].hasTopWall == (init[q].hasTopWall && GridExitCount(init, Step(q, Top)) == 0)
    && g[q].hasRightWall == (init[q].hasRightWall && GridExitCount(init, Step(q, Right)) == 0)
  }

  /** Every cell the pass has not handled before (x, y) has an exit in g exactly when it had
      one in init. */
  ghost predicate ExitsAhead(init: Grid, g: Grid, x: int, y: int, w: int, h: int) {
    forall c :: c in g && c in init && (c.x >= w - 1 || c.y >= h - 1 || c.x > x || (c.x == x && c.y >= y)) ==>
      (GridExitCount(g, c) > 0 <==> GridExitCount(init, c) > 0)
  }

  /** Where the singleWalls pass stands before cell (x, y). */
  ghost predicate Thinned(init: Grid, g: Grid, x: int, y: int, w: int, h: int) {
    TopRightCleared(init, g) && Untouched(init, g, x, y, w, h) && Settled(init, g, x, y, w, h) && ExitsAhead(init, g, x, y, w, h)
  }

  lemma ThinStep(init: Grid, g: Grid, x: int, y: int, w: int, h: int)
    requires Thinned(init, g, x, y, w, h) && Coord(x, y) in g && x < w - 1 && y < h - 1
    ensures Thinned(init, ThinGrid(g, Coord(x, y)), x, y + 1, w, h)
  {
    var p := Coord(x, y);
    var t := ThinGrid(g, p);
    ThinStepCleared(init, g, p);
    assert Untouched(init, t, x, y + 1, w, h);
    ThinStepSettled(init, g, x, y, w, h);
    forall c | c in t && c in init && (c.x >= w - 1 || c.y >= h - 1 || c.x > x || (c.x == x && c.y >= y + 1))
      ensures GridExitCount(t, c) > 0 <==> GridExitCount(init, c) > 0
    {
      ThinKeepsExitSign(g, p, c);
    }
  }

  /** Thinning p gives no other cell its first exit: p's top (right) flag is cleared only when
      the cell above (to the right) already has an exit, and it takes none away. */
  lemma ThinKeepsExitSign(g: Grid, p: Coord, c: Coord)
    requires p in g && c != p
    ensures GridExitCount(ThinGrid(g, p), c) > 0 <==> GridExitCount(g, c) > 0
  {
    var t := ThinGrid(g, p);
    ThinStepCleared(g, g, p);
    TopRightClearedOpens(g, t);
    ExitsGrow(g, t, c);
    if GridExitCount(g, c) == 0 {
      forall d | d in AllSides ensures !OpenTowards(t, c, d) {
        if OpenTowards(t, c, d) {
          assert d !in OpenSidesIn(g, c);
          StepBack(c, d);
        }
      }
      assert OpenSidesIn(t, c) == {};
    }
  }

  lemma ThinStepCleared(init: Grid, g: Grid, p: Coord)
    requires TopRightCleared(init, g) && p in g
    ensures TopRightCleared(init, ThinGrid(g, p))
  {
    ClearTopRight(init, g, p, ThinGrid(g, p)[p].hasTopWall, ThinGrid(g, p)[p].hasRightWall);
  }

  /** Clearing the top or right flag of one cell keeps TopRightCleared. */
  lemma ClearTopRight(init: Grid, g: Grid, p: Coord, top: bool, right: bool)
    requires TopRightCleared(init, g) && p in g
    requires (top ==> g[p].hasTopWall) && (right ==> g[p].hasRightWall)
    ensures TopRightCleared(init, g[p := g[p].(hasTopWall := top, hasRightWall := right)])
  {
    var t := g[p := g[p].(hasTopWall := top, hasRightWall := right)];
    forall q | q in t
      ensures t[q] == init[q].(hasTopWall := t[q].hasTopWall, hasRightWall := t[q].hasRightWall)
      ensures (t[q].hasTopWall ==> init[q].hasTopWall) && (t[q].hasRightWall ==> init[q].hasRightWall)
    {
      if q != p {
        assert t[q] == g[q];
      }
    }
  }

  lemma ThinStepSettled(init: Grid, g: Grid, x: int, y: int, w: int, h: int)
    requires Thinned(init, g, x, y, w, h) && Coord(x, y) in g && x < w - 1 && y < h - 1
    ensures Settled(init, ThinGrid(g, Coord(x, y)), x, y + 1, w, h)
  {
    var p := Coord(x, y);
    var t := ThinGrid(g, p);
    ExitsAheadAt(init, g, x, y, w, h, Step(p, Top));
    ExitsAheadAt(init, g, x, y, w, h, Step(p, Right));
    forall q | q in t && q in init && q.x < w - 1 && q.y < h - 1 && (q.x < x || (q.x == x && q.y < y + 1))
      ensures SettledAt(init, t, q)
    {
      ThinSettledAt(init, g, p, q);
    }
  }

  /** A cell not handled yet, in the grid or not, has an exit in g exactly when it had one in
      init. */
  lemma ExitsAheadAt(init: Grid, g: Grid, x: int, y: int, w: int, h: int, c: Coord)
    requires TopRightCleared(init, g) && ExitsAhead(init, g, x, y, w, h)
    requires c.x >= w - 1 || c.y >= h - 1 || c.x > x || (c.x == x && c.y >= y)
    ensures GridExitCount(g, c) > 0 <==> GridExitCount(init, c) > 0
  {
    if c !in g {
      assert OpenSidesIn(g, c) == {} && OpenSidesIn(init, c) == {};
    }
  }

  /** Thinning p settles p, whose cell is still as it was in init and whose upper and right
      neighbours have an exit exactly when they had one in init, and keeps every cell settled
      before settled. */
  lemma ThinSettledAt(init: Grid, g: Grid, p: Coord, q: Coord)
    requires TopRightCleared(init, g) && p in g && q in g
    requires q == p ==> g[q] == init[q]
    requires q == p ==> (GridExitCount(g, Step(p, Top)) > 0 <==> GridExitCount(init, Step(p, Top)) > 0)
    requires q == p ==> (GridExitCount(g, Step(p, Right)) > 0 <==> GridExitCount(init, Step(p, Right)) > 0)
    requires q != p ==> SettledAt(init, g, q)
    ensures SettledAt(init, ThinGrid(g, p), q)
  {
    var t := ThinGrid(g, p);
    if q != p {
      assert t[q] == g[q];
    }
  }

  lemma ThinNextColumn(init: Grid, g: Grid, x: int, y: int, w: int, h: int)
    requires Thinned(init, g, x, y, w, h) && y >= h - 1
    requires forall q :: q in g ==> 0 <= q.y
    ensures Thinned(init, g, x + 1, 0, w, h)
  {
    assert Untouched(init, g, x + 1, 0, w, h);
    assert ExitsAhead(init, g, x + 1, 0, w, h);
    assert Settled(init, g, x + 1, 0, w, h) by {
      forall q | q in g && q in init && q.x < w - 1 && q.y < h - 1 && (q.x < x + 1 || (q.x == x + 1 && q.y < 0))
        ensures q.x < x || (q.x == x && q.y < y)
      {
      }
    }
  }

  // ---------------------------------------------------------------- what every pass keeps

  /** Every side of a cell of g that faces out of g carries the flag v. */
  ghost predicate OuterWalls(g: Grid, v: bool) {
    forall p, d: Side :: p in g && Step(p, d) !in g ==> Wall(g[p], d) == v
  }

  /** h has the cells of g, and the flags on the sides facing out of the grid are those of g. */
  ghost predicate OuterKept(g: Grid, h: Grid) {
    SameCells(g, h) && forall p, d: Side :: p in g && Step(p, d) !in g ==> Wall(h[p], d) == Wall(g[p], d)
  }

  /** h has the cells of g, each with the same room mark, room number and lock. */
  ghost predicate RoomsKept(g: Grid, h: Grid) {
    SameCells(g, h) && forall p :: p in g ==>
      h[p].room == g[p].room && h[p].roomNumber == g[p].roomNumber && h[p].locked == g[p].locked
  }

  /** h has the cells of g, each differing from its value in g at most in its wall flags. */
  ghost predicate NonWallsKept(g: Grid, h: Grid) {
    SameCells(g, h) && forall p :: p in g ==> NonWalls(h[p]) == NonWalls(g[p])
  }

  lemma NonWallsKeepRooms(g: Grid, h: Grid)
    requires NonWallsKept(g, h)
    ensures RoomsKept(g, h)
    ensures forall p :: p in g ==> h[p].visited == g[p].visited
  {
    forall p | p in g ensures h[p].room == g[p].room && h[p].visited == g[p].visited {
      assert NonWalls(h[p]).room == h[p].room && NonWalls(h[p]).visited == h[p].visited;
    }
  }

  /** The backtracker opens walls only between cells of the grid: every passage starts at
      the start cell or at a cell an earlier passage entered, and enters a cell of the grid. */
  lemma CarvedInGrid(init: Grid, start: Coord, carved: seq<(Coord, Coord)>)
    requires CarveShape(init, start, carved) && start in init
    ensures forall k :: 0 <= k < |carved| ==> carved[k].0 in init && carved[k].1 in init
  {
    forall k | 0 <= k < |carved| ensures carved[k].0 in init {
      if carved[k].0 != start {
        assert carved[k].0 in Ends(carved[..k]);
        var j :| 0 <= j < k && carved[..k][j].1 == carved[k].0;
        assert carved[j].1 in init;
      }
    }
  }

  /** The carve leaves the outer boundary and the room marks as they were. */
  lemma CarveKeepsOuter(init: Grid, g: Grid, start: Coord, carved: seq<(Coord, Coord)>)
    requires CarveShape(init, start, carved) && CarveState(init, g, start, carved) && start in init
    ensures OuterKept(init, g) && RoomsKept(init, g)
  {
    CarvedInGrid(init, start, carved);
    forall p, d: Side | p in init && Step(p, d) !in init ensures Wall(g[p], d) == Wall(init[p], d) {
      assert Wall(Unmarked(g[p]), d) ==> Wall(Unmarked(init[p]), d);
      assert (p, Step(p, d)) !in carved && (Step(p, d), p) !in carved;
    }
    forall p | p in init ensures g[p].room == init[p].room {
      assert NonWalls(Unmarked(g[p])).room == g[p].room;
    }
  }

  /** RemoveWall between two cells of the grid leaves the outer boundary alone. */
  lemma RemoveWallKeepsOuter(g: Grid, a: Coord, b: Coord)
    requires a in g && b in g && Adjacent(a, b)
    ensures OuterKept(g, RemoveWallGrid(g, a, b)) && NonWallsKept(g, RemoveWallGrid(g, a, b))
  {
    var h := RemoveWallGrid(g, a, b);
    AdjacentIsDistanceOne(a, b);
    FacingNeighbour(a, b);
    forall p, d: Side | p in g && Step(p, d) !in g ensures Wall(h[p], d) == Wall(g[p], d) {
      RemoveWallClearsFacingPair(a, b, p, g[p], d);
    }
    forall p | p in g ensures NonWalls(h[p]) == NonWalls(g[p]) {
      RemoveWallOnlyOpens(a, b, p, g[p]);
    }
  }

  lemma CycleWallsPrefix(g: Grid, walls: seq<(Coord, Coord)>, n: nat)
    requires CycleWalls(g, walls) && n <= |walls|
    ensures CycleWalls(g, walls[..n])
  {
    forall k | 0 <= k < n ensures CycleWall(OpenAll(g, walls[..n][..k]), walls[..n][k]) {
      assert walls[..n][..k] == walls[..k];
    }
  }

  /** MakeCycles leaves the outer boundary and everything but the walls as they were. */
  lemma {:induction false} OpenAllKeepsOuter(g: Grid, walls: seq<(Coord, Coord)>)
    requires CycleWalls(g, walls)
    ensures OuterKept(g, OpenAll(g, walls)) && NonWallsKept(g, OpenAll(g, walls))
  {
    if walls != [] {
      var n := |walls| - 1;
      var prev := OpenAll(g, walls[..n]);
      CycleWallsPrefix(g, walls, n);
      OpenAllKeepsOuter(g, walls[..n]);
      assert CycleWall(prev, walls[n]);
      RemoveWallKeepsOuter(prev, walls[n].0, walls[n].1);
      KeptCompose(g, prev, OpenAll(g, walls));
    }
  }

  /** Walling up a side that faces a cell of the grid leaves the outer boundary alone. */
  lemma CloseGridKeepsOuter(g: Grid, p: Coord, d: Side)
    requires p in g && Step(p, d) in g
    ensures OuterKept(g, CloseGrid(g, p, d)) && NonWallsKept(g, CloseGrid(g, p, d))
  {
    var h := CloseGrid(g, p, d);
    forall q, e: Side | q in g && Step(q, e) !in g ensures Wall(h[q], e) == Wall(g[q], e) {
      StepBack(p, d);
    }
  }

  lemma KeptCompose(g: Grid, h: Grid, k: Grid)
    requires OuterKept(g, h) && NonWallsKept(g, h) && OuterKept(h, k) && NonWallsKept(h, k)
    ensures OuterKept(g, k) && NonWallsKept(g, k)
  {
  }

  lemma DeadEndStepsPrefix(g: Grid, start: Coord, trail: seq<(Coord, Side)>, n: nat)
    requires DeadEndSteps(g, start, trail) && n <= |trail|
    ensures DeadEndSteps(g, start, trail[..n])
  {
    forall i | 0 <= i < n ensures
      var before := CloseAll(g, trail[..n][..i]);
      Removable(before, start, trail[..n][i].0) && DeadEndSide(before, trail[..n][i].0) == Some(trail[..n][i].1)
    {
      assert trail[..n][..i] == trail[..i];
    }
  }

  lemma CloseAllLast(g: Grid, trail: seq<(Coord, Side)>)
    requires trail != []
    ensures var n := |trail| - 1; CloseAll(g, trail) == CloseGrid(CloseAll(g, trail[..n]), trail[n].0, trail[n].1)
  {
    var n := |trail| - 1;
    CloseAllAppend(g, trail[..n], [trail[n]]);
    assert trail == trail[..n] + [trail[n]];
  }

  /** RemoveDeadEnds leaves the outer boundary and everything but the walls as they were. */
  lemma {:induction false} CloseAllKeepsOuter(g: Grid, start: Coord, trail: seq<(Coord, Side)>)
    requires DeadEndSteps(g, start, trail)
    ensures OuterKept(g, CloseAll(g, trail)) && NonWallsKept(g, CloseAll(g, trail))
  {
    if trail != [] {
      var n := |trail| - 1;
      var prev := CloseAll(g, trail[..n]);
      DeadEndStepsPrefix(g, start, trail, n);
      CloseAllKeepsOuter(g, start, trail[..n]);
      CloseAllLast(g, trail);
      assert DeadEndSide(prev, trail[n].0) == Some(trail[n].1);
      CloseGridKeepsOuter(prev, trail[n].0, trail[n].1);
      KeptCompose(g, prev, CloseAll(g, trail));
    }
  }

  /** The singleWalls pass over a w by h grid leaves the outer boundary and everything but
      the walls as they were: it only clears top and right flags of cells below the last row
      and left of the last column, whose top and right neighbours are in the grid. */
  lemma ThinnedKeepsOuter(init: Grid, g: Grid, w: int, h: int)
    requires Thinned(init, g, w - 1, h - 1, w, h)
    requires forall p :: p in init <==> 0 <= p.x < w && 0 <= p.y < h
    ensures OuterKept(init, g) && NonWallsKept(init, g)
  {
    forall p, d: Side | p in init && Step(p, d) !in init ensures Wall(g[p], d) == Wall(init[p], d) {
      if p.x < w - 1 && p.y < h - 1 {
        assert g[p] == init[p].(hasTopWall := g[p].hasTopWall, hasRightWall := g[p].hasRightWall);
      }
    }
  }

  /** What the carve keeps and what it marks visited survives the passes after it. */
  lemma ReshapeAfterCarve(init: Grid, g: Grid, h: Grid, start: Coord, carved: seq<(Coord, Coord)>)
    requires OuterKept(init, g) && RoomsKept(init, g) && VisitedExactly(init, g, start, carved)
    requires OuterKept(g, h) && NonWallsKept(g, h)
    ensures OuterKept(init, h) && RoomsKept(init, h)
    ensures forall p :: p in init ==> (h[p].visited <==> init[p].visited || p == start || p in Ends(carved))
  {
    NonWallsKeepRooms(g, h);
  }
}
