/** The shape of the passages RemoveWallsWithBacktracker carves, stated over snapshots of
    the grid: a grid is a map from the in-grid coordinates to their cells. */
module Carving {
  import opened MazeCells

  type Grid = imap<Coord, MazeCell>

  /** The cells the carved passages lead into. */
  function Ends(edges: seq<(Coord, Coord)>): set<Coord> {
    set k | 0 <= k < |edges| :: edges[k].1
  }

  lemma EndsAppend(edges: seq<(Coord, Coord)>, e: (Coord, Coord))
    ensures Ends(edges + [e]) == Ends(edges) + {e.1}
  {
    var c := edges + [e];
    assert forall k :: 0 <= k < |edges| ==> c[k] == edges[k];
    assert c[|edges|] == e;
  }

  /** A cell with its visited mark cleared. */
  function Unmarked(c: MazeCell): MazeCell {
    c.(visited := false)
  }

  /** The cell at p after the cell at q is marked visited. */
  function MarkVisited(q: Coord, p: Coord, c: MazeCell): MazeCell {
    if p == q then c.(visited := true) else c
  }

  /** Both flags of the wall between cp and its neighbour cq on side d are absent. */
  predicate WallOpenBetween(cp: MazeCell, cq: MazeCell, d: Side) {
    !Wall(cp, d) && !Wall(cq, Opposite(d))
  }

  /** Both cells of the passage are in the grid and the wall between them is open from both sides. */
  ghost predicate PassageOpen(g: Grid, e: (Coord, Coord)) {
    e.0 in g && e.1 in g && WallOpenBetween(g[e.0], g[e.1], Facing(e.0, e.1))
  }

  /** Each passage leads into a neighbour that was unvisited in init and is not the start. */
  ghost predicate IntoUnvisited(init: Grid, start: Coord, carved: seq<(Coord, Coord)>) {
    forall k :: 0 <= k < |carved| ==>
      Adjacent(carved[k].0, carved[k].1) && carved[k].1 != start && carved[k].1 in init && !init[carved[k].1].visited
  }

  /** Each passage leaves from the start or from a cell an earlier passage entered. */
  ghost predicate Rooted(start: Coord, carved: seq<(Coord, Coord)>) {
    forall k {:trigger Ends(carved[..k])} :: 0 <= k < |carved| ==> carved[k].0 == start || carved[k].0 in Ends(carved[..k])
  }

  /** No cell is entered twice. */
  ghost predicate EnteredOnce(carved: seq<(Coord, Coord)>) {
    forall j, k :: 0 <= j < k < |carved| ==> carved[j].1 != carved[k].1
  }

  /** The passages carved from start over the grid init form a tree rooted at the start
      whose other nodes were unvisited in init. */
  ghost predicate CarveShape(init: Grid, start: Coord, carved: seq<(Coord, Coord)>) {
    IntoUnvisited(init, start, carved) && Rooted(start, carved) && EnteredOnce(carved)
  }

  ghost predicate SameCells(init: Grid, g: Grid) {
    forall p :: p in g <==> p in init
  }

  ghost predicate PassagesOpen(g: Grid, carved: seq<(Coord, Coord)>) {
    forall k :: 0 <= k < |carved| ==> PassageOpen(g, carved[k])
  }

  /** The visited cells of g are those of init, the start, and the cells the passages enter. */
  ghost predicate VisitedExactly(init: Grid, g: Grid, start: Coord, carved: seq<(Coord, Coord)>)
    requires SameCells(init, g)
  {
    forall p :: p in g ==> (g[p].visited <==> init[p].visited || p == start || p in Ends(carved))
  }

  /** Apart from the visited mark, each cell of g is its init value with some walls removed. */
  ghost predicate OnlyOpenedFrom(init: Grid, g: Grid)
    requires SameCells(init, g)
  {
    forall p :: p in g ==> OnlyOpened(Unmarked(init[p]), Unmarked(g[p]))
  }

  /** Every wall flag init has and g lacks belongs to a passage, from either of its cells. */
  ghost predicate OpenedAreCarved(init: Grid, g: Grid, carved: seq<(Coord, Coord)>)
    requires SameCells(init, g)
  {
    forall p, d: Side :: p in g && Wall(init[p], d) && !Wall(g[p], d) ==>
      (p, Step(p, d)) in carved || (Step(p, d), p) in carved
  }

  /** g is init with exactly the carved passages opened and exactly the start and the cells
      the passages enter newly marked visited; nothing else about any cell differs. */
  ghost predicate CarveState(init: Grid, g: Grid, start: Coord, carved: seq<(Coord, Coord)>) {
    && SameCells(init, g)
    && PassagesOpen(g, carved)
    && VisitedExactly(init, g, start, carved)
    && OnlyOpenedFrom(init, g)
    && OpenedAreCarved(init, g, carved)
  }

  /** The grid after one forward move of the backtracker from a into b. */
  ghost function CarveStepGrid(g: Grid, a: Coord, b: Coord): (h: Grid)
    ensures forall p :: p in h <==> p in g
  {
    imap p | p in g :: MarkVisited(b, p, AfterRemoveWall(a, b, p, g[p]))
  }

  /** The grid after the start cell is marked visited. */
  ghost function MarkStart(g: Grid, start: Coord): (h: Grid)
    ensures forall p :: p in h <==> p in g
  {
    imap p | p in g :: MarkVisited(start, p, g[p])
  }

  /** Marking the start is a write to the start cell alone. */
  lemma MarkStartUpdate(g: Grid, start: Coord)
    requires start in g
    ensures MarkStart(g, start) == g[start := g[start].(visited := true)]
  {
    var h := g[start := g[start].(visited := true)];
    forall p | p in h ensures h[p] == MarkStart(g, start)[p] { }
  }

  /** Before the first move: nothing is carved and only the start is newly visited. */
  lemma CarveBegins(init: Grid, start: Coord)
    ensures CarveShape(init, start, [])
    ensures CarveState(init, MarkStart(init, start), start, [])
  {
    var g := MarkStart(init, start);
    forall p | p in g ensures OnlyOpened(Unmarked(init[p]), Unmarked(g[p])) {
      assert Unmarked(g[p]) == Unmarked(init[p]);
    }
  }

  /** A move from the start or a carved-to cell into an unvisited neighbour keeps the
      passages a tree rooted at the start. */
  lemma CarveShapeExtends(init: Grid, g: Grid, start: Coord, carved: seq<(Coord, Coord)>, a: Coord, b: Coord)
    requires CarveShape(init, start, carved) && SameCells(init, g) && VisitedExactly(init, g, start, carved)
    requires a == start || a in Ends(carved)
    requires Adjacent(a, b) && b in g && !g[b].visited
    ensures CarveShape(init, start, carved + [(a, b)])
  {
    RootedExtends(start, carved, a, b);
    EnteredOnceExtends(carved, a, b);
  }

  lemma RootedExtends(start: Coord, carved: seq<(Coord, Coord)>, a: Coord, b: Coord)
    requires Rooted(start, carved)
    requires a == start || a in Ends(carved)
    ensures Rooted(start, carved + [(a, b)])
  {
    var c := carved + [(a, b)];
    forall k | 0 <= k < |c| ensures c[k].0 == start || c[k].0 in Ends(c[..k]) {
      if k < |carved| {
        assert c[..k] == carved[..k];
        assert carved[k].0 == start || carved[k].0 in Ends(carved[..k]);
      } else {
        assert c[..k] == carved;
      }
    }
  }

  lemma EnteredOnceExtends(carved: seq<(Coord, Coord)>, a: Coord, b: Coord)
    requires EnteredOnce(carved) && b !in Ends(carved)
    ensures EnteredOnce(carved + [(a, b)])
  {
    forall j | 0 <= j < |carved| ensures carved[j].1 != b {
      assert carved[j].1 in Ends(carved);
    }
  }

  /** The move changes no cell other than by removing walls and marking b visited. */
  lemma OnlyOpenedExtends(init: Grid, g: Grid, a: Coord, b: Coord)
    requires SameCells(init, g) && OnlyOpenedFrom(init, g)
    ensures SameCells(init, CarveStepGrid(g, a, b)) && OnlyOpenedFrom(init, CarveStepGrid(g, a, b))
  {
    var h := CarveStepGrid(g, a, b);
    forall p | p in h ensures OnlyOpened(Unmarked(init[p]), Unmarked(h[p])) {
      CellOnlyOpenedAfterStep(init[p], g[p], a, b, p);
    }
  }

  lemma CellOnlyOpenedAfterStep(c0: MazeCell, c: MazeCell, a: Coord, b: Coord, p: Coord)
    requires OnlyOpened(Unmarked(c0), Unmarked(c))
    ensures OnlyOpened(Unmarked(c0), Unmarked(MarkVisited(b, p, AfterRemoveWall(a, b, p, c))))
  {
    var c1 := AfterRemoveWall(a, b, p, c);
    RemoveWallOnlyOpens(a, b, p, c);
    assert Unmarked(MarkVisited(b, p, c1)) == Unmarked(c1);
    assert OnlyOpened(Unmarked(c), Unmarked(c1));
  }

  /** A flag cleared by the move is one of the two facing the new passage. */
  lemma WallOpenedByStep(init: Grid, g: Grid, carved: seq<(Coord, Coord)>, a: Coord, b: Coord, p: Coord, d: Side)
    requires Adjacent(a, b) && p in g && p in init
    requires Wall(init[p], d) && !Wall(CarveStepGrid(g, a, b)[p], d)
    requires Wall(g[p], d) || (p, Step(p, d)) in carved || (Step(p, d), p) in carved
    ensures (p, Step(p, d)) in carved + [(a, b)] || (Step(p, d), p) in carved + [(a, b)]
  {
    AdjacentIsDistanceOne(a, b);
    FacingNeighbour(a, b);
    FacingNeighbour(b, a);
    RemoveWallClearsFacingPair(a, b, p, g[p], d);
    if Wall(g[p], d) {
      if p == a {
        assert (p, Step(p, d)) == (a, b);
      } else {
        assert (Step(p, d), p) == (a, b);
      }
    }
  }

  lemma OpenedAreCarvedExtends(init: Grid, g: Grid, carved: seq<(Coord, Coord)>, a: Coord, b: Coord)
    requires SameCells(init, g) && OpenedAreCarved(init, g, carved) && Adjacent(a, b)
    ensures SameCells(init, CarveStepGrid(g, a, b)) && OpenedAreCarved(init, CarveStepGrid(g, a, b), carved + [(a, b)])
  {
    var h := CarveStepGrid(g, a, b);
    forall p, d: Side | p in h && Wall(init[p], d) && !Wall(h[p], d)
      ensures (p, Step(p, d)) in carved + [(a, b)] || (Step(p, d), p) in carved + [(a, b)]
    {
      WallOpenedByStep(init, g, carved, a, b, p, d);
    }
  }

  /** A passage open before the move stays open, and the move opens (a, b). */
  lemma PassageAfterStep(g: Grid, a: Coord, b: Coord, e: (Coord, Coord))
    requires Adjacent(a, b) && a in g && b in g
    requires PassageOpen(g, e) || e == (a, b)
    ensures PassageOpen(CarveStepGrid(g, a, b), e)
  {
    AdjacentIsDistanceOne(a, b);
    FacingNeighbour(a, b);
    var h := CarveStepGrid(g, a, b);
    if e == (a, b) {
      RemoveWallClearsFacingPair(a, b, a, g[a], Facing(a, b));
      RemoveWallClearsFacingPair(a, b, b, g[b], Facing(b, a));
    } else {
      RemoveWallOnlyOpens(a, b, e.0, g[e.0]);
      RemoveWallOnlyOpens(a, b, e.1, g[e.1]);
    }
  }

  lemma PassagesOpenExtends(g: Grid, carved: seq<(Coord, Coord)>, a: Coord, b: Coord)
    requires PassagesOpen(g, carved) && Adjacent(a, b) && a in g && b in g
    ensures PassagesOpen(CarveStepGrid(g, a, b), carved + [(a, b)])
  {
    var c := carved + [(a, b)];
    forall k | 0 <= k < |c| ensures PassageOpen(CarveStepGrid(g, a, b), c[k]) {
      PassageAfterStep(g, a, b, c[k]);
    }
  }

  lemma VisitedExtends(init: Grid, g: Grid, start: Coord, carved: seq<(Coord, Coord)>, a: Coord, b: Coord)
    requires SameCells(init, g) && VisitedExactly(init, g, start, carved)
    ensures SameCells(init, CarveStepGrid(g, a, b)) && VisitedExactly(init, CarveStepGrid(g, a, b), start, carved + [(a, b)])
  {
    var h := CarveStepGrid(g, a, b);
    EndsAppend(carved, (a, b));
    forall p | p in h ensures h[p].visited <==> init[p].visited || p == start || p in Ends(carved + [(a, b)]) {
      RemoveWallOnlyOpens(a, b, p, g[p]);
    }
  }

  /** One forward move of the backtracker, from the start or a carved-to cell into an
      unvisited neighbour, extends the carve by exactly that passage. */
  lemma CarveExtends(init: Grid, g: Grid, start: Coord, carved: seq<(Coord, Coord)>, a: Coord, b: Coord)
    requires CarveShape(init, start, carved) && CarveState(init, g, start, carved)
    requires a == start || a in Ends(carved)
    requires Adjacent(a, b) && a in g && b in g && !g[b].visited
    ensures CarveShape(init, start, carved + [(a, b)])
    ensures CarveState(init, CarveStepGrid(g, a, b), start, carved + [(a, b)])
  {
    CarveShapeExtends(init, g, start, carved, a, b);
    PassagesOpenExtends(g, carved, a, b);
    VisitedExtends(init, g, start, carved, a, b);
    OnlyOpenedExtends(init, g, a, b);
    OpenedAreCarvedExtends(init, g, carved, a, b);
  }

  lemma SmallerWithout<T>(s: set<T>, x: T)
    requires x in s
    ensures |s - {x}| < |s|
  {
  }

  /** Every room cell of g is marked visited. */
  ghost predicate RoomsMarked(g: Grid) {
    forall p :: p in g && g[p].room ==> g[p].visited
  }

  /** A forward move neither unmarks a cell nor changes which cells are room cells. */
  lemma RoomsMarkedAfterStep(g: Grid, a: Coord, b: Coord)
    requires RoomsMarked(g)
    ensures RoomsMarked(CarveStepGrid(g, a, b))
  {
    var h := CarveStepGrid(g, a, b);
    forall p | p in h && h[p].room ensures h[p].visited {
      RemoveWallOnlyOpens(a, b, p, g[p]);
    }
  }

  /** The backtracker's loop state over the grid g: the current cell and every cell on the
      stack are the start or cells a passage entered, unvisited holds exactly the cells still
      to be reached, and the passages so far have their shape and their effect on g. */
  ghost predicate Walk(init: Grid, g: Grid, start: Coord, carved: seq<(Coord, Coord)>,
                       stack: seq<Coord>, current: Coord, unvisited: set<Coord>) {
    && (current == start || current in Ends(carved))
    && (forall i :: 0 <= i < |stack| ==> stack[i] in Ends(carved))
    && Reached(init, g, start, carved, unvisited)
  }

  /** The part of the walk's state that a step back leaves alone: the cells still to be
      reached, and the shape and effect of the passages so far. */
  ghost predicate Reached(init: Grid, g: Grid, start: Coord, carved: seq<(Coord, Coord)>, unvisited: set<Coord>) {
    && (forall p :: p in unvisited <==> p in init && !init[p].visited && p != start && p !in Ends(carved))
    && CarveShape(init, start, carved)
    && CarveState(init, g, start, carved)
  }

  /** unvisited holds exactly the cells of init, other than the start, that are not visited. */
  ghost predicate StillToReach(init: Grid, start: Coord, unvisited: set<Coord>) {
    forall p :: p in unvisited <==> p in init && !init[p].visited && p != start
  }

  /** Before the first move the walk stands on the start with nothing carved. */
  lemma WalkBegins(init: Grid, start: Coord, unvisited: set<Coord>)
    requires StillToReach(init, start, unvisited)
    ensures Walk(init, MarkStart(init, start), start, [], [], start, unvisited)
  {
    CarveBegins(init, start);
  }

  /** A forward move into an unvisited neighbour takes that neighbour off the cells still to
      be reached, pushes it and makes it current. */
  lemma WalkPush(init: Grid, g: Grid, start: Coord, carved: seq<(Coord, Coord)>,
                 stack: seq<Coord>, current: Coord, unvisited: set<Coord>, next: Coord)
    requires Walk(init, g, start, carved, stack, current, unvisited)
    requires Adjacent(current, next) && current in g && next in g && !g[next].visited
    ensures next in unvisited
    ensures Walk(init, CarveStepGrid(g, current, next), start, carved + [(current, next)],
                 stack + [next], next, unvisited - {next})
  {
    var c := carved + [(current, next)];
    CarveExtends(init, g, start, carved, current, next);
    EndsAppend(carved, (current, next));
    var s := stack + [next];
    forall i | 0 <= i < |s| ensures s[i] in Ends(c) {
      if i < |stack| {
        assert s[i] == stack[i];
      }
    }
  }

  /** Every cell a passage enters is a cell of the grid. */
  lemma EndInGrid(init: Grid, g: Grid, start: Coord, carved: seq<(Coord, Coord)>, p: Coord)
    requires IntoUnvisited(init, start, carved) && SameCells(init, g) && p in Ends(carved)
    ensures p in g
  {
    var k :| 0 <= k < |carved| && carved[k].1 == p;
  }

  /** A step back pops the stack and makes its top current. */
  lemma WalkPop(init: Grid, g: Grid, start: Coord, carved: seq<(Coord, Coord)>,
                stack: seq<Coord>, current: Coord, unvisited: set<Coord>)
    requires Walk(init, g, start, carved, stack, current, unvisited) && |stack| > 0
    ensures stack[|stack| - 1] in g
    ensures Walk(init, g, start, carved, stack[..|stack| - 1], stack[|stack| - 1], unvisited)
  {
    EndInGrid(init, g, start, carved, stack[|stack| - 1]);
    var rest := stack[..|stack| - 1];
    forall i | 0 <= i < |rest| ensures rest[i] in Ends(carved) {
      assert rest[i] == stack[i];
    }
  }
}
