/** The coarse maze (Maze.cs): a grid of cell records that the generator edits in place,
    the list of doors, and the list of cells already claimed by keys and enemies. */
module Mazes {
  import opened MazeCells
  import opened Lists
  import opened Rand
  import opened Carving
  import opened Reshaping

  /** How many failed attempts in a row end the random room placement. */
  const TryingPlaceRoomIterations := 5

  /** A random room GenerateMaze placed: where, how big, with which number and lock. */
  datatype RoomRecord = RoomRecord(origin: Coord, size: Coord, number: int, locked: bool)

  /** The door leads out of one of the rooms and carries that room's number and lock. */
  ghost predicate FromPlacedRoom(d: MazeDoor, rooms: seq<RoomRecord>) {
    exists j :: 0 <= j < |rooms| && InRect(d.firstCell, rooms[j].origin, rooms[j].size, 0)
      && d.doorIndex == rooms[j].number && d.locked == rooms[j].locked
  }

  /** The door leads out of a room cell of g and carries that cell's number and lock. */
  ghost predicate FromRoomCell(d: MazeDoor, g: Grid) {
    var f := d.firstCell;
    f in g && g[f].room && d.doorIndex == g[f].roomNumber && d.locked == g[f].locked
  }

  /** a comes before b in the order of the item scans: column by column, bottom to top. */
  predicate Before(a: Coord, b: Coord) {
    a.x < b.x || (a.x == b.x && a.y < b.y)
  }

  /** The points are listed in scan order, so each at most once. */
  predicate ScanOrdered(pts: seq<Coord>) {
    forall i, j :: 0 <= i < j < |pts| ==> Before(pts[i], pts[j])
  }

  lemma ScanOrderedDistinct(pts: seq<Coord>)
    requires ScanOrdered(pts)
    ensures Distinct(pts)
  {
  }

  /** What an item scan looks for in a cell besides an exit and not being claimed yet. */
  datatype Pick =
    | KeyFor(doorIndex: int, inTunnel: bool)  // InitKey: a room numbered above the door, or a corridor when inTunnel
    | Enemy                                   // InitEnemies: any cell not numbered -1
    | Treasure(locked: bool)                  // InitTreasures: the locked or the open cells not numbered -1

  /** The cells InitKeys placed keys in, door by door, skipping the doors that got none. */
  function Placed(keys: seq<Option<Coord>>): (r: seq<Coord>)
    ensures |r| <= |keys|
  {
    if keys == [] then []
    else Placed(keys[..|keys| - 1]) + (if keys[|keys| - 1].Some? then [keys[|keys| - 1].value] else [])
  }

  lemma {:induction false} PlacedHolds(keys: seq<Option<Coord>>, p: Coord)
    ensures p in Placed(keys) <==> exists j :: 0 <= j < |keys| && keys[j] == Some(p)
  {
    if keys != [] {
      var n := |keys| - 1;
      PlacedHolds(keys[..n], p);
      if p in Placed(keys[..n]) {
        var j :| 0 <= j < n && keys[..n][j] == Some(p);
        assert keys[j] == Some(p);
      }
      if exists j :: 0 <= j < |keys| && keys[j] == Some(p) {
        var j :| 0 <= j < |keys| && keys[j] == Some(p);
        if j < n {
          assert keys[..n][j] == Some(p);
        }
      }
    }
  }

  /** On the snapshot g, the cell p holds a key for door index k where InitKey may put one:
      a cell with an exit, in a room numbered above k or in a corridor. */
  ghost predicate KeyOn(g: Grid, p: Coord, k: int) {
    && p in g && GridExitCount(g, p) > 0 && g[p].keyNumber == k
    && (g[p].roomNumber > k || g[p].roomNumber == 0)
  }

  /** What InitKeys has done after the first |keys| doors: starting from the snapshot g0 and
      the claimed list f0, it reached the snapshot g and the claimed list filled. */
  ghost predicate KeysLaid(g: Grid, filled: seq<Coord>, doors: seq<MazeDoor>, keys: seq<Option<Coord>>, g0: Grid, f0: seq<Coord>) {
    && |keys| <= |doors|
    && filled == f0 + Placed(keys)
    && (forall j :: 0 <= j < |keys| ==>
          && (doors[j].doorIndex <= 0 ==> keys[j].None?)
          && (keys[j].Some? ==> KeyOn(g, keys[j].value, doors[j].doorIndex) && keys[j].value !in f0))
    && (forall i, j :: 0 <= i < j < |keys| && keys[i].Some? && keys[j].Some? ==> keys[i].value != keys[j].value)
    && (forall p :: p in g <==> p in g0)
    && (forall p :: p in g ==> g[p] == g0[p].(keyNumber := g[p].keyNumber))
    && (forall p :: p in g && p !in Placed(keys) ==> g[p] == g0[p])
  }

  /** Writing a key number changes no exit count. */
  lemma KeyKeepsExits(g: Grid, p: Coord, k: int, q: Coord)
    requires p in g
    ensures GridExitCount(g[p := g[p].(keyNumber := k)], q) == GridExitCount(g, q)
  {
    var h := g[p := g[p].(keyNumber := k)];
    forall d: Side ensures OpenTowards(h, q, d) == OpenTowards(g, q, d) {
      if q in g {
        assert Wall(h[q], d) == Wall(g[q], d);
        if Step(q, d) in g {
          assert Wall(h[Step(q, d)], Opposite(d)) == Wall(g[Step(q, d)], Opposite(d));
        }
      }
    }
    assert OpenSidesIn(h, q) == OpenSidesIn(g, q);
  }

  /** A door that got no key leaves everything as it was. */
  lemma KeysLaidSkip(g: Grid, filled: seq<Coord>, doors: seq<MazeDoor>, keys: seq<Option<Coord>>, g0: Grid, f0: seq<Coord>)
    requires KeysLaid(g, filled, doors, keys, g0, f0) && |keys| < |doors|
    ensures KeysLaid(g, filled, doors, keys + [None], g0, f0)
  {
    assert Placed(keys + [None]) == Placed(keys);
  }

  /** A door whose key InitKey put in the cell key, eligible on g. */
  lemma KeysLaidStep(g: Grid, filled: seq<Coord>, doors: seq<MazeDoor>, keys: seq<Option<Coord>>, g0: Grid, f0: seq<Coord>, key: Coord)
    requires KeysLaid(g, filled, doors, keys, g0, f0) && |keys| < |doors| && doors[|keys|].doorIndex > 0
    requires key in g && GridExitCount(g, key) > 0 && key !in filled
    requires g[key].roomNumber > doors[|keys|].doorIndex || g[key].roomNumber == 0
    ensures KeysLaid(g[key := g[key].(keyNumber := doors[|keys|].doorIndex)], filled + [key], doors, keys + [Some(key)], g0, f0)
  {
    var k := doors[|keys|].doorIndex;
    var h := g[key := g[key].(keyNumber := k)];
    var next := keys + [Some(key)];
    assert Placed(next) == Placed(keys) + [key];
    forall j | 0 <= j < |next|
      ensures doors[j].doorIndex <= 0 ==> next[j].None?
      ensures next[j].Some? ==> KeyOn(h, next[j].value, doors[j].doorIndex) && next[j].value !in f0
    {
      if j < |keys| && keys[j].Some? {
        KeyKeepsExits(g, key, k, keys[j].value);
        PlacedHolds(keys, keys[j].value);
        assert keys[j].value != key;
      } else if j == |keys| {
        KeyKeepsExits(g, key, k, key);
      }
    }
    forall i, j | 0 <= i < j < |next| && next[i].Some? && next[j].Some?
      ensures next[i].value != next[j].value
    {
      if j == |keys| {
        PlacedHolds(keys, keys[i].value);
      }
    }
  }

  /** Two cells with the same four wall flags. */
  predicate SameWalls(a: MazeCell, b: MazeCell) {
    a.hasLeftWall == b.hasLeftWall && a.hasRightWall == b.hasRightWall
    && a.hasTopWall == b.hasTopWall && a.hasBottomWall == b.hasBottomWall
  }

  /** The rooms the room loop of GenerateMaze placed, in order: numbered consecutively from
      first, the first lockedCount of them locked, each clear of the earlier ones by a margin
      of one cell, and none within one cell of the start. */
  ghost predicate RoomsDrawn(rooms: seq<RoomRecord>, first: int, lockedCount: int, start: Coord) {
    && (forall i :: 0 <= i < |rooms| ==> rooms[i].number == first + i && rooms[i].locked == (i < lockedCount))
    && (forall i, j :: 0 <= i < j < |rooms| ==> Maze.Apart(rooms[j], rooms[i]))
    && (forall i :: 0 <= i < |rooms| ==> !InRect(start, rooms[i].origin, rooms[i].size, 1))
  }

  lemma RoomsDrawnExtend(rooms: seq<RoomRecord>, r: RoomRecord, first: int, lockedCount: int, start: Coord)
    requires RoomsDrawn(rooms, first, lockedCount, start)
    requires r.number == first + |rooms| && r.locked == (|rooms| < lockedCount)
    requires forall i :: 0 <= i < |rooms| ==> Maze.Apart(r, rooms[i])
    requires !InRect(start, r.origin, r.size, 1)
    ensures RoomsDrawn(rooms + [r], first, lockedCount, start)
  {
    var s := rooms + [r];
    assert forall i :: 0 <= i < |rooms| ==> s[i] == rooms[i];
  }

  /** The recorded room as it stands on the grid snapshot g. */
  ghost predicate RoomIn(g: Grid, r: RoomRecord) {
    forall p :: InRect(p, r.origin, r.size, 0) ==>
      p in g && g[p].room && g[p].roomNumber == r.number && g[p].locked == r.locked
  }

  lemma RoomStays(g: Grid, h: Grid, r: RoomRecord)
    requires RoomIn(g, r) && RoomsKept(g, h)
    ensures RoomIn(h, r)
  {
  }

  lemma OuterWallsStay(g: Grid, h: Grid, v: bool)
    requires OuterWalls(g, v) && OuterKept(g, h)
    ensures OuterWalls(h, v)
  {
  }

  /** One block of the neighbour scan of RemoveWallsWithBacktracker: the neighbour n once
      when it is unvisited (open), then straightCoef more times when the last move went
      towards d. */
  function ScanBlock(n: Coord, open: bool, d: Direction, direction: Direction, straightCoef: int): seq<Coord> {
    if open then [n] + (if direction == d then Copies(n, straightCoef) else []) else []
  }

  /** How often one block lists q. */
  function ScanBlockTimes(n: Coord, open: bool, d: Direction, direction: Direction, straightCoef: int, q: Coord): nat {
    if open && q == n then 1 + (if direction == d && straightCoef > 0 then straightCoef else 0) else 0
  }

  lemma ScanBlockCount(n: Coord, open: bool, d: Direction, direction: Direction, straightCoef: int, q: Coord)
    ensures multiset(ScanBlock(n, open, d, direction, straightCoef))[q] == ScanBlockTimes(n, open, d, direction, straightCoef, q)
  {
    CopiesCount(n, straightCoef, q);
  }

  /** The four blocks of the neighbour scan, for the neighbours l, b, r and t on the left,
      bottom, right and top, whose unvisited status is ul, ub, ur and ut. */
  function FourBlocks(l: Coord, b: Coord, r: Coord, t: Coord, ul: bool, ub: bool, ur: bool, ut: bool,
                      direction: Direction, straightCoef: int): seq<Coord> {
    ScanBlock(l, ul, Left, direction, straightCoef) + ScanBlock(b, ub, Bottom, direction, straightCoef)
    + ScanBlock(r, ur, Right, direction, straightCoef) + ScanBlock(t, ut, Top, direction, straightCoef)
  }

  /** How often the four blocks list q, counted block by block. */
  function FourTimes(l: Coord, b: Coord, r: Coord, t: Coord, ul: bool, ub: bool, ur: bool, ut: bool,
                     direction: Direction, straightCoef: int, q: Coord): nat {
    ScanBlockTimes(l, ul, Left, direction, straightCoef, q) + ScanBlockTimes(b, ub, Bottom, direction, straightCoef, q)
    + ScanBlockTimes(r, ur, Right, direction, straightCoef, q) + ScanBlockTimes(t, ut, Top, direction, straightCoef, q)
  }

  lemma FourBlocksTimes(l: Coord, b: Coord, r: Coord, t: Coord, ul: bool, ub: bool, ur: bool, ut: bool,
                        direction: Direction, straightCoef: int, q: Coord)
    ensures multiset(FourBlocks(l, b, r, t, ul, ub, ur, ut, direction, straightCoef))[q]
      == FourTimes(l, b, r, t, ul, ub, ur, ut, direction, straightCoef, q)
  {
    CountInConcat(ScanBlock(l, ul, Left, direction, straightCoef), ScanBlock(b, ub, Bottom, direction, straightCoef),
                  ScanBlock(r, ur, Right, direction, straightCoef), ScanBlock(t, ut, Top, direction, straightCoef), q);
    ScanBlockCount(l, ul, Left, direction, straightCoef, q);
    ScanBlockCount(b, ub, Bottom, direction, straightCoef, q);
    ScanBlockCount(r, ur, Right, direction, straightCoef, q);
    ScanBlockCount(t, ut, Top, direction, straightCoef, q);
  }

  /** How often the neighbours list holds q when q is unvisited (open) or not: once for an
      unvisited neighbour, and straightCoef more times for the one in the direction of the
      last move. */
  function SideTimes(current: Coord, q: Coord, open: bool, direction: Direction, straightCoef: int): nat {
    if Adjacent(current, q) && open then 1 + (if direction == Facing(current, q) && straightCoef > 0 then straightCoef else 0) else 0
  }

  /** Counted block by block, the four blocks of current's neighbours list q as often as
      SideTimes says, given that open is q's unvisited status when q is one of them. */
  lemma SidesAddUp(current: Coord, q: Coord, open: bool, ul: bool, ub: bool, ur: bool, ut: bool,
                   direction: Direction, straightCoef: int)
    requires q == Coord(current.x - 1, current.y) ==> open == ul
    requires q == Coord(current.x, current.y - 1) ==> open == ub
    requires q == Coord(current.x + 1, current.y) ==> open == ur
    requires q == Coord(current.x, current.y + 1) ==> open == ut
    ensures SideTimes(current, q, open, direction, straightCoef) ==
      FourTimes(Coord(current.x - 1, current.y), Coord(current.x, current.y - 1), Coord(current.x + 1, current.y),
                Coord(current.x, current.y + 1), ul, ub, ur, ut, direction, straightCoef, q)
  {
  }

  /** The four blocks of current's neighbours list q as often as SideTimes says. */
  lemma ScanCount(current: Coord, q: Coord, open: bool, ul: bool, ub: bool, ur: bool, ut: bool,
                  direction: Direction, straightCoef: int)
    requires q == Coord(current.x - 1, current.y) ==> open == ul
    requires q == Coord(current.x, current.y - 1) ==> open == ub
    requires q == Coord(current.x + 1, current.y) ==> open == ur
    requires q == Coord(current.x, current.y + 1) ==> open == ut
    ensures multiset(FourBlocks(Coord(current.x - 1, current.y), Coord(current.x, current.y - 1), Coord(current.x + 1, current.y),
                                Coord(current.x, current.y + 1), ul, ub, ur, ut, direction, straightCoef))[q]
      == SideTimes(current, q, open, direction, straightCoef)
  {
    FourBlocksTimes(Coord(current.x - 1, current.y), Coord(current.x, current.y - 1), Coord(current.x + 1, current.y),
                    Coord(current.x, current.y + 1), ul, ub, ur, ut, direction, straightCoef, q);
    SidesAddUp(current, q, open, ul, ub, ur, ut, direction, straightCoef);
  }

  class Maze {
    const width: nat
    const height: nat
    const cells: array2<MazeCell>
    var doors: seq<MazeDoor>
    var firstRoomNumber: int
    var startPoint: Coord
    var filledPoints: seq<Coord>

    ghost predicate Valid() {
      cells.Length0 == width && cells.Length1 == height
    }

    predicate InGrid(x: int, y: int) {
      0 <= x < width && 0 <= y < height
    }

    /** A maze of the given size whose every cell has four walls and nothing else; no doors yet. */
    constructor (width: nat, height: nat)
      ensures Valid() && this.width == width && this.height == height && fresh(cells)
      ensures forall x, y :: InGrid(x, y) ==> cells[x, y] == NewCell
      ensures doors == [] && filledPoints == [] && firstRoomNumber == 1 && startPoint == Coord(0, 0)
    {
      this.width := width;
      this.height := height;
      cells := new MazeCell[width, height]((x, y) => NewCell);
      doors := [];
      firstRoomNumber := 1;
      startPoint := Coord(0, 0);
      filledPoints := [];
    }

    /** Maze.CreateMaze: allocating the cell array with a negative width or height throws
        OverflowException before any maze exists; otherwise the new maze is as the
        constructor makes it. */
    static method CreateMaze(width: int, height: int) returns (status: Status, maze: Maze?)
      ensures status == Completed <==> width >= 0 && height >= 0
      ensures status != Completed ==> status == Threw(Overflow) && maze == null
      ensures status == Completed ==> maze != null && fresh(maze) && fresh(maze.cells) && maze.Valid()
      ensures status == Completed ==> maze.width == width && maze.height == height
      ensures status == Completed ==> forall x, y :: maze.InGrid(x, y) ==> maze.cells[x, y] == NewCell
      ensures status == Completed ==>
        maze.doors == [] && maze.filledPoints == [] && maze.firstRoomNumber == 1 && maze.startPoint == Coord(0, 0)
    {
      if width < 0 || height < 0 {
        return Threw(Overflow), null;
      }
      maze := new Maze(width, height);
      status := Completed;
    }

    /** The bounds-checked indexer this[x, y]: no cell (null) outside the grid. */
    function Cell(x: int, y: int): (r: Option<MazeCell>)
      requires Valid()
      reads cells
      ensures r.Some? <==> InGrid(x, y)
      ensures r.Some? ==> r.value == cells[x, y]
    {
      if x < 0 || y < 0 || x >= width || y >= height then None else Some(cells[x, y])
    }

    function DoorsCount(): (r: int)
      reads this
      ensures r == |doors|
    {
      |doors|
    }

    /** Door(index): no door (null) for an index outside the list. */
    function Door(index: int): (r: Option<MazeDoor>)
      reads this
      ensures r.Some? <==> 0 <= index < |doors|
      ensures r.Some? ==> r.value == doors[index]
    {
      if index < 0 || index >= |doors| then None else Some(doors[index])
    }

    /** GetExitCount(x, y): 4 minus the sides closed by this cell's flag or, when there is a
        neighbour on that side, by the neighbour's facing flag; 0 outside the grid. */
    function ExitCount(x: int, y: int): (r: int)
      requires Valid()
      reads cells
      ensures 0 <= r <= 4
      ensures !InGrid(x, y) ==> r == 0
    {
      if !InGrid(x, y) then 0
      else
        var c := cells[x, y];
        4
        - (if c.hasLeftWall || (x > 0 && cells[x - 1, y].hasRightWall) then 1 else 0)
        - (if c.hasRightWall || (x < width - 1 && cells[x + 1, y].hasLeftWall) then 1 else 0)
        - (if c.hasBottomWall || (y > 0 && cells[x, y - 1].hasTopWall) then 1 else 0)
        - (if c.hasTopWall || (y < height - 1 && cells[x, y + 1].hasBottomWall) then 1 else 0)
    }

    /** A side of (x, y) through which one can leave the cell: its own flag is clear and,
        if the side has a neighbour in the grid, the neighbour's facing flag is clear too. */
    ghost predicate SideOpen(x: int, y: int, d: Side)
      requires Valid() && InGrid(x, y)
      reads cells
    {
      var q := Step(Coord(x, y), d);
      !Wall(cells[x, y], d) && (!InGrid(q.x, q.y) || !Wall(cells[q.x, q.y], Opposite(d)))
    }

    ghost function OpenSides(x: int, y: int): set<Side>
      requires Valid() && InGrid(x, y)
      reads cells
    {
      set d | d in AllSides && SideOpen(x, y, d)
    }

    /** GetExitCount counts exactly the open sides. */
    lemma ExitCountIsOpenSides(x: int, y: int)
      requires Valid() && InGrid(x, y)
      ensures ExitCount(x, y) == |OpenSides(x, y)|
      ensures ExitCount(x, y) > 0 <==> exists d :: d in AllSides && SideOpen(x, y, d)
    {
      var s := OpenSides(x, y);
      SideSetSize(s);
      OpenSidesMembers(x, y);
      ExitCountBySides(x, y);
      if ExitCount(x, y) > 0 {
        var d :| d in s;
      }
    }

    /** Each side is in OpenSides exactly when it is open. */
    lemma OpenSidesMembers(x: int, y: int)
      requires Valid() && InGrid(x, y)
      ensures Left in OpenSides(x, y) <==> SideOpen(x, y, Left)
      ensures Right in OpenSides(x, y) <==> SideOpen(x, y, Right)
      ensures Top in OpenSides(x, y) <==> SideOpen(x, y, Top)
      ensures Bottom in OpenSides(x, y) <==> SideOpen(x, y, Bottom)
    {
    }

    /** Each of the four terms GetExitCount subtracts is 1 exactly when its side is not open. */
    lemma ExitCountBySides(x: int, y: int)
      requires Valid() && InGrid(x, y)
      ensures ExitCount(x, y) == (if SideOpen(x, y, Left) then 1 else 0) + (if SideOpen(x, y, Right) then 1 else 0)
                                 + (if SideOpen(x, y, Top) then 1 else 0) + (if SideOpen(x, y, Bottom) then 1 else 0)
    {
      var c := cells[x, y];
      assert SideOpen(x, y, Left) <==> !(c.hasLeftWall || (x > 0 && cells[x - 1, y].hasRightWall));
      assert SideOpen(x, y, Right) <==> !(c.hasRightWall || (x < width - 1 && cells[x + 1, y].hasLeftWall));
      assert SideOpen(x, y, Bottom) <==> !(c.hasBottomWall || (y > 0 && cells[x, y - 1].hasTopWall));
      assert SideOpen(x, y, Top) <==> !(c.hasTopWall || (y < height - 1 && cells[x, y + 1].hasBottomWall));
    }

    static lemma SideSetSize(s: set<Side>)
      ensures |s| == (if Left in s then 1 else 0) + (if Right in s then 1 else 0)
                   + (if Top in s then 1 else 0) + (if Bottom in s then 1 else 0)
    {
      var s1 := s - {Left};
      var s2 := s1 - {Right};
      var s3 := s2 - {Top};
      var s4 := s3 - {Bottom};
      assert s4 == {} by {
        forall d | d in s4 ensures false {
          match d
          case Left =>
          case Right =>
          case Top =>
          case Bottom =>
        }
      }
      WithoutOne(s, Left);
      WithoutOne(s1, Right);
      WithoutOne(s2, Top);
      WithoutOne(s3, Bottom);
    }

    static lemma WithoutOne(s: set<Side>, d: Side)
      ensures |s| == |s - {d}| + (if d in s then 1 else 0)
    {
      if d in s {
        assert s == (s - {d}) + {d};
      }
    }

    /** Neighbouring cells agree on the wall between them. */
    ghost predicate WallsSymmetric()
      requires Valid()
      reads cells
    {
      && (forall x, y :: 0 <= x < width - 1 && 0 <= y < height ==> cells[x, y].hasRightWall == cells[x + 1, y].hasLeftWall)
      && (forall x, y :: 0 <= x < width && 0 <= y < height - 1 ==> cells[x, y].hasTopWall == cells[x, y + 1].hasBottomWall)
    }

    /** RemoveWall(MazeCell a, MazeCell b). The guard only rejects cells more than one step
        apart, so a == b passes it and clears both the top and the bottom flag of that cell. */
    method RemoveWall(a: Coord, b: Coord)
      requires Valid() && InGrid(a.x, a.y) && InGrid(b.x, b.y)
      modifies this`doors, cells
      ensures forall x, y :: InGrid(x, y) ==> cells[x, y] == AfterRemoveWall(a, b, Coord(x, y), old(cells[x, y]))
      ensures doors == old(doors) +
        if Manhattan(a, b) <= 1 && (old(cells[a.x, a.y]).room || old(cells[b.x, b.y]).room)
        then [MakeDoor(a, old(cells[a.x, a.y]), b, old(cells[b.x, b.y]))] else []
      ensures old(WallsSymmetric()) && a != b ==> WallsSymmetric()
    {
      if Abs(a.x - b.x) + Abs(a.y - b.y) > 1 {
        return;
      }
      var ca, cb := cells[a.x, a.y], cells[b.x, b.y];
      if ca.room || cb.room {
        var index := if cb.roomNumber == 0 then ca.roomNumber else cb.roomNumber;
        doors := doors + [MazeDoor(index, a, b, ca.locked || cb.locked)];
      }
      ClearFacingFlags(a, b);
    }

    /** The wall half of RemoveWall: a's flag facing b and b's opposite flag are cleared. */
    method ClearFacingFlags(a: Coord, b: Coord)
      requires Valid() && InGrid(a.x, a.y) && InGrid(b.x, b.y) && Manhattan(a, b) <= 1
      modifies cells
      ensures forall x, y :: InGrid(x, y) ==> cells[x, y] == AfterRemoveWall(a, b, Coord(x, y), old(cells[x, y]))
      ensures old(WallsSymmetric()) && a != b ==> WallsSymmetric()
    {
      ghost var ca, cb := cells[a.x, a.y], cells[b.x, b.y];
      if a.x == b.x {
        if a.y > b.y {
          ClearVertical(b, a);
        } else {
          ClearVertical(a, b);
        }
      } else {
        if a.x > b.x {
          ClearHorizontal(b, a);
        } else {
          ClearHorizontal(a, b);
        }
      }
      assert cells[a.x, a.y] == AfterRemoveWall(a, b, a, ca);
      assert cells[b.x, b.y] == AfterRemoveWall(a, b, b, cb);
    }

    /** Clears the top flag of lo and the bottom flag of hi, the cell above it (or lo itself). */
    method ClearVertical(lo: Coord, hi: Coord)
      requires Valid() && InGrid(lo.x, lo.y) && InGrid(hi.x, hi.y)
      requires lo.x == hi.x && (hi.y == lo.y + 1 || hi == lo)
      modifies cells
      ensures cells[lo.x, lo.y] == old(cells[lo.x, lo.y]).(hasTopWall := false, hasBottomWall :=
        if lo == hi then false else old(cells[lo.x, lo.y]).hasBottomWall)
      ensures cells[hi.x, hi.y] == old(cells[hi.x, hi.y]).(hasBottomWall := false, hasTopWall :=
        if lo == hi then false else old(cells[hi.x, hi.y]).hasTopWall)
      ensures forall x, y :: InGrid(x, y) && Coord(x, y) != lo && Coord(x, y) != hi ==> cells[x, y] == old(cells[x, y])
      ensures old(WallsSymmetric()) && lo != hi ==> WallsSymmetric()
    {
      cells[hi.x, hi.y] := cells[hi.x, hi.y].(hasBottomWall := false);
      cells[lo.x, lo.y] := cells[lo.x, lo.y].(hasTopWall := false);
    }

    /** Clears the right flag of lo and the left flag of hi, the cell to its right. */
    method ClearHorizontal(lo: Coord, hi: Coord)
      requires Valid() && InGrid(lo.x, lo.y) && InGrid(hi.x, hi.y)
      requires lo.y == hi.y && hi.x == lo.x + 1
      modifies cells
      ensures cells[lo.x, lo.y] == old(cells[lo.x, lo.y]).(hasRightWall := false)
      ensures cells[hi.x, hi.y] == old(cells[hi.x, hi.y]).(hasLeftWall := false)
      ensures forall x, y :: InGrid(x, y) && Coord(x, y) != lo && Coord(x, y) != hi ==> cells[x, y] == old(cells[x, y])
      ensures old(WallsSymmetric()) ==> WallsSymmetric()
    {
      cells[hi.x, hi.y] := cells[hi.x, hi.y].(hasLeftWall := false);
      cells[lo.x, lo.y] := cells[lo.x, lo.y].(hasRightWall := false);
    }

    /** The public RemoveWall(Vector2Int a, Vector2Int b): indexing the grid with a coordinate
        outside it throws before anything changes. */
    method RemoveWallAt(a: Coord, b: Coord) returns (status: Status)
      requires Valid()
      modifies this`doors, cells
      ensures status == Completed <==> InGrid(a.x, a.y) && InGrid(b.x, b.y)
      ensures status != Completed ==> doors == old(doors) && unchanged(cells)
      ensures status == Completed ==>
        forall x, y :: InGrid(x, y) ==> cells[x, y] == AfterRemoveWall(a, b, Coord(x, y), old(cells[x, y]))
      ensures status == Completed ==> (doors == old(doors) +
        if Manhattan(a, b) <= 1 && (old(cells[a.x, a.y]).room || old(cells[b.x, b.y]).room)
        then [MakeDoor(a, old(cells[a.x, a.y]), b, old(cells[b.x, b.y]))] else [])
    {
      if !InGrid(a.x, a.y) || !InGrid(b.x, b.y) {
        return Threw(IndexOutOfRange);
      }
      RemoveWall(a, b);
      status := Completed;
    }

    // ---------------------------------------------------------------- rooms

    /** An in-grid cell that is neither part of a room nor visited. */
    predicate CellFree(x: int, y: int)
      requires Valid()
      reads cells
    {
      InGrid(x, y) && !cells[x, y].room && !cells[x, y].visited
    }

    /** Every cell of the rectangle at origin, widened by margin, is free. */
    ghost predicate Fits(origin: Coord, size: Coord, margin: int)
      requires Valid()
      reads cells
    {
      forall x, y :: InRect(Coord(x, y), origin, size, margin) ==> CellFree(x, y)
    }

    /** CanPlaceRoom: scans the widened rectangle and stops at the first cell that is outside
        the grid, in a room or visited. */
    method CanPlaceRoom(origin: Coord, size: Coord, perimeter: int) returns (ok: bool)
      requires Valid()
      ensures ok == Fits(origin, size, perimeter)
    {
      var x := origin.x - perimeter;
      while x < origin.x + size.x + perimeter
        invariant origin.x - perimeter <= x
        invariant forall x', y' :: x' < x && InRect(Coord(x', y'), origin, size, perimeter) ==> CellFree(x', y')
        decreases origin.x + size.x + perimeter - x
      {
        var y := origin.y - perimeter;
        while y < origin.y + size.y + perimeter
          invariant origin.y - perimeter <= y
          invariant forall y' :: origin.y - perimeter <= y' < y ==> CellFree(x, y')
          decreases origin.y + size.y + perimeter - y
        {
          if x >= width || y >= height || x < 0 || y < 0 || cells[x, y].room || cells[x, y].visited {
            assert InRect(Coord(x, y), origin, size, perimeter) && !CellFree(x, y);
            return false;
          }
          y := y + 1;
        }
        x := x + 1;
      }
      return true;
    }

    /** The origins AddRoom tries: the loop bounds are strict, so with margin m the origin's x
        stays below width - m - size.x (and likewise for y). */
    predicate OriginInRange(o: Coord, size: Coord, m: int) {
      m <= o.x < width - m - size.x && m <= o.y < height - m - size.y
    }

    /** Some origin in range fits with a margin of one cell. */
    ghost predicate HasRoomOrigin(size: Coord)
      requires Valid()
      reads cells
    {
      exists x, y :: OriginInRange(Coord(x, y), size, 1) && Fits(Coord(x, y), size, 1)
    }

    /** The roomStartCoords scan of AddRoom: every origin in range at which the room and its
        margin fit, each once. */
    method RoomOrigins(size: Coord, perimeter: int) returns (origins: seq<Coord>)
      requires Valid()
      ensures forall o :: o in origins <==> OriginInRange(o, size, perimeter) && Fits(o, size, perimeter)
    {
      origins := [];
      var x := perimeter;
      while x < width - perimeter - size.x
        invariant forall o :: o in origins <==> OriginInRange(o, size, perimeter) && Fits(o, size, perimeter) && o.x < x
        decreases width - perimeter - size.x - x
      {
        var y := perimeter;
        while y < height - perimeter - size.y
          invariant perimeter <= x < width - perimeter - size.x
          invariant forall o :: o in origins <==>
            OriginInRange(o, size, perimeter) && Fits(o, size, perimeter) && (o.x < x || (o.x == x && o.y < y))
          decreases height - perimeter - size.y - y
        {
          var fits := CanPlaceRoom(Coord(x, y), size, perimeter);
          if fits {
            origins := origins + [Coord(x, y)];
          }
          y := y + 1;
        }
        x := x + 1;
      }
    }

    /** The value of a cell after the room rectangle has been written. */
    static function PlacedCell(c: MazeCell, p: Coord, origin: Coord, size: Coord, roomNumber: int, locked: bool): MazeCell {
      if InRect(p, origin, size, 0) then RoomCell(c, p, origin, size, roomNumber, locked) else c
    }

    /** The value of a cell after an optional RemoveWall(w.0, w.1). */
    static function AfterOptionalRemoveWall(w: Option<(Coord, Coord)>, p: Coord, c: MazeCell): MazeCell {
      if w.None? then c else AfterRemoveWall(w.value.0, w.value.1, p, c)
    }

    /** The exit offset names a cell on one of the room's edge lines (only one coordinate is
        checked, so the cell may lie outside the room). */
    static predicate HasExit(exitCoords: Coord, size: Coord) {
      exitCoords.x == 0 || exitCoords.y == 0 || exitCoords.x == size.x - 1 || exitCoords.y == size.y - 1
    }

    /** The rectangle pass of PlaceRoom: marks every cell of the room and sets its walls to
        the room's outer boundary; when collectEdges holds it also lists the edge cells in
        scan order, as exit candidates. */
    method FillRoom(origin: Coord, size: Coord, roomNumber: int, locked: bool, collectEdges: bool)
      returns (edges: seq<Coord>)
      requires Valid() && Fits(origin, size, 0)
      modifies cells
      ensures forall x, y :: InGrid(x, y) ==>
        cells[x, y] == PlacedCell(old(cells[x, y]), Coord(x, y), origin, size, roomNumber, locked)
      ensures forall q :: q in edges <==> collectEdges && InRect(q, origin, size, 0) && OnRectEdge(q, origin, size)
      ensures edges != [] <==> collectEdges && 0 < size.x && 0 < size.y
    {
      edges := [];
      var x := origin.x;
      while x < origin.x + size.x
        invariant origin.x <= x
        invariant forall x', y' :: InGrid(x', y') ==>
          cells[x', y'] == if x' < x then PlacedCell(old(cells[x', y']), Coord(x', y'), origin, size, roomNumber, locked)
                           else old(cells[x', y'])
        invariant forall q :: q in edges <==> collectEdges && InRect(q, origin, size, 0) && OnRectEdge(q, origin, size) && q.x < x
        decreases origin.x + size.x - x
      {
        var y := origin.y;
        while y < origin.y + size.y
          invariant origin.y <= y && x < origin.x + size.x
          invariant forall x', y' :: InGrid(x', y') ==>
            cells[x', y'] == if x' < x || (x' == x && y' < y) then PlacedCell(old(cells[x', y']), Coord(x', y'), origin, size, roomNumber, locked)
                             else old(cells[x', y'])
          invariant forall q :: q in edges <==>
            collectEdges && InRect(q, origin, size, 0) && OnRectEdge(q, origin, size) && (q.x < x || (q.x == x && q.y < y))
          decreases origin.y + size.y - y
        {
          assert CellFree(x, y);
          cells[x, y] := cells[x, y].(room := true, visited := true,
            hasBottomWall := y == origin.y,
            hasTopWall := y == origin.y + size.y - 1,
            hasLeftWall := x == origin.x,
            hasRightWall := x == origin.x + size.x - 1,
            roomNumber := roomNumber,
            locked := locked);
          if collectEdges && (x == origin.x || y == origin.y || x == origin.x + size.x - 1 || y == origin.y + size.y - 1) {
            edges := edges + [Coord(x, y)];
          }
          y := y + 1;
        }
        x := x + 1;
      }
      if collectEdges && 0 < size.x && 0 < size.y {
        assert origin in edges;
      }
      if edges != [] {
        assert edges[0] in edges;
      }
    }

    /** The neighbours PlaceRoom may open its exit towards: the in-grid cells beside e that
        are not room cells, in the order left, bottom, right, top. */
    method ExitNeighbours(e: Coord) returns (ns: seq<Coord>)
      requires Valid() && InGrid(e.x, e.y)
      ensures forall q :: q in ns <==> Adjacent(q, e) && InGrid(q.x, q.y) && !cells[q.x, q.y].room
    {
      var x, y := e.x, e.y;
      ns := [];
      if x > 0 && !cells[x - 1, y].room { ns := ns + [Coord(x - 1, y)]; }
      if y > 0 && !cells[x, y - 1].room { ns := ns + [Coord(x, y - 1)]; }
      if x < width - 1 && !cells[x + 1, y].room { ns := ns + [Coord(x + 1, y)]; }
      if y < height - 1 && !cells[x, y + 1].room { ns := ns + [Coord(x, y + 1)]; }
    }

    /** The doors the optional exit removal w records, read off the current cells: RemoveWall
        records one when either cell is a room cell, and since it changes wall flags only,
        the cells still hold the room marks, numbers and locks it saw. */
    ghost function ExitDoors(w: Option<(Coord, Coord)>): seq<MazeDoor>
      requires Valid()
      reads cells
    {
      if w.None? then []
      else
        var (e, n) := w.value;
        if InGrid(e.x, e.y) && InGrid(n.x, n.y) && Manhattan(e, n) <= 1 && (cells[e.x, e.y].room || cells[n.x, n.y].room)
        then [MakeDoor(e, cells[e.x, e.y], n, cells[n.x, n.y])]
        else []
    }

    /** q is a cell of the grid that is not a room cell and lies outside the rectangle at origin. */
    ghost predicate CorridorOutsideAt(q: Coord, origin: Coord, size: Coord)
      requires Valid()
      reads cells
    {
      InGrid(q.x, q.y) && !cells[q.x, q.y].room && !InRect(q, origin, size, 0)
    }

    /** One of e's neighbours (left, bottom, right, top) is in the grid, not a room cell and
        outside the rectangle at origin: an exit drawn at e still opens once that rectangle
        is made a room. */
    ghost predicate CorridorOutside(e: Coord, origin: Coord, size: Coord)
      requires Valid()
      reads cells
    {
      || CorridorOutsideAt(Coord(e.x - 1, e.y), origin, size) || CorridorOutsideAt(Coord(e.x, e.y - 1), origin, size)
      || CorridorOutsideAt(Coord(e.x + 1, e.y), origin, size) || CorridorOutsideAt(Coord(e.x, e.y + 1), origin, size)
    }

    /** One of e's neighbours is in the grid and not a room cell: an exit drawn at e opens. */
    ghost predicate CorridorBeside(e: Coord)
      requires Valid()
      reads cells
    {
      CorridorOutside(e, e, Coord(0, 0))
    }

    /** The exit step of PlaceRoom: one exit candidate is drawn, then one of its non-room
        neighbours, and the wall between them is removed; nothing is removed when the exit
        cell has no such neighbour. */
    method OpenRoomExit(exitList: seq<Coord>, rng: Random) returns (ghost exitWall: Option<(Coord, Coord)>, ghost drawn: Coord)
      requires Valid() && forall q :: q in exitList ==> InGrid(q.x, q.y)
      modifies this`doors, cells, rng
      ensures exitList != [] ==> drawn in exitList
      ensures exitWall.None? <==> exitList == [] || !old(CorridorBeside(drawn))
      ensures exitWall.Some? ==> exitWall.value.0 == drawn
      ensures forall x, y :: InGrid(x, y) ==> cells[x, y] == AfterOptionalRemoveWall(exitWall, Coord(x, y), old(cells[x, y]))
      ensures exitWall.Some? ==>
        var (e, n) := exitWall.value;
        && e in exitList && InGrid(n.x, n.y) && Adjacent(e, n) && !cells[n.x, n.y].room
      ensures doors == old(doors) + ExitDoors(exitWall)
    {
      exitWall, drawn := None, Coord(0, 0);
      if |exitList| > 0 {
        var index := rng.Range(0, |exitList|);
        var e := exitList[index];
        drawn := e;
        var neighbours := ExitNeighbours(e);
        assert |neighbours| > 0 <==> CorridorBeside(e) by {
          if |neighbours| > 0 {
            assert neighbours[0] in neighbours;
          } else {
            assert Coord(e.x - 1, e.y) !in neighbours && Coord(e.x, e.y - 1) !in neighbours;
            assert Coord(e.x + 1, e.y) !in neighbours && Coord(e.x, e.y + 1) !in neighbours;
          }
        }
        if |neighbours| > 0 {
          var k := rng.Range(0, |neighbours|);
          var n := neighbours[k];
          assert n in neighbours;
          AdjacentIsDistanceOne(e, n);
          RemoveWall(e, n);
          exitWall := Some((e, n));
          RemoveWallOnlyOpens(e, n, n, old(cells[n.x, n.y]));
          RemoveWallOnlyOpens(e, n, e, old(cells[e.x, e.y]));
          MakeDoorIgnoresWalls(e, old(cells[e.x, e.y]), cells[e.x, e.y], n, old(cells[n.x, n.y]), cells[n.x, n.y]);
        }
      }
    }

    /** PlaceRoom. Raises the next free room number first, then fails without other effect
        when the rectangle does not fit; an exit offset on an edge line whose cell lies outside
        the grid makes the exit lookup throw. Otherwise the room is written and at most one
        wall, from an exit cell to a non-room neighbour, is removed. */
    method PlaceRoom(origin: Coord, size: Coord, roomNumber: int, locked: bool, exitCoords: Coord, rng: Random)
      returns (placed: bool, status: Status, ghost exitWall: Option<(Coord, Coord)>, ghost drawn: Coord)
      requires Valid()
      modifies this`firstRoomNumber, this`doors, cells, rng
      ensures firstRoomNumber == if old(firstRoomNumber) < roomNumber + 1 then roomNumber + 1 else old(firstRoomNumber)
      ensures status != Completed <==>
        old(Fits(origin, size, 0)) && HasExit(exitCoords, size) && !InGrid(origin.x + exitCoords.x, origin.y + exitCoords.y)
      ensures status != Completed ==> status == Threw(IndexOutOfRange) && !placed
      ensures placed <==> status == Completed && old(Fits(origin, size, 0))
      ensures !placed ==> unchanged(cells) && doors == old(doors)
      ensures placed ==> forall x, y :: InGrid(x, y) ==>
        cells[x, y] == AfterOptionalRemoveWall(exitWall, Coord(x, y),
          PlacedCell(old(cells[x, y]), Coord(x, y), origin, size, roomNumber, locked))
      ensures placed && exitWall.Some? ==>
        var (e, n) := exitWall.value;
        && InGrid(e.x, e.y) && InGrid(n.x, n.y) && Adjacent(e, n) && !cells[n.x, n.y].room
        && (if HasExit(exitCoords, size) then e == Coord(origin.x + exitCoords.x, origin.y + exitCoords.y)
            else InRect(e, origin, size, 0) && OnRectEdge(e, origin, size))
      ensures placed ==> doors == old(doors) + ExitDoors(exitWall)
      ensures placed && HasExit(exitCoords, size) ==> drawn == Coord(origin.x + exitCoords.x, origin.y + exitCoords.y)
      ensures placed && !HasExit(exitCoords, size) && 0 < size.x && 0 < size.y ==>
        InRect(drawn, origin, size, 0) && OnRectEdge(drawn, origin, size)
      ensures placed ==> (exitWall.None? <==>
        (!HasExit(exitCoords, size) && (size.x <= 0 || size.y <= 0)) || !old(CorridorOutside(drawn, origin, size)))
      ensures placed && exitWall.Some? ==> exitWall.value.0 == drawn
      ensures placed && exitWall.Some? && InRect(exitWall.value.0, origin, size, 0) ==>
        var (e, n) := exitWall.value;
        var cn := cells[n.x, n.y];
        ExitDoors(exitWall) == [MazeDoor(if cn.roomNumber == 0 then roomNumber else cn.roomNumber, e, n, locked || cn.locked)]
    {
      firstRoomNumber := if firstRoomNumber < roomNumber + 1 then roomNumber + 1 else firstRoomNumber;
      exitWall, drawn := None, Coord(0, 0);
      var fits := CanPlaceRoom(origin, size, 0);
      if !fits {
        return false, Completed, None, drawn;
      }
      var exitList;
      status, exitList := ExitLookup(origin, size, exitCoords);
      if status != Completed {
        return false, status, None, drawn;
      }
      label building:
      exitWall, drawn := BuildRoom(origin, size, roomNumber, locked, exitList, !HasExit(exitCoords, size), rng);
      assert old@building(CorridorOutside(drawn, origin, size)) == old(CorridorOutside(drawn, origin, size));
      return true, Completed, exitWall, drawn;
    }

    /** The exit lookup of PlaceRoom: an exit offset on one of the room's edge lines names
        the only exit candidate, and its lookup throws when that cell lies outside the grid;
        otherwise there is no candidate yet. */
    method ExitLookup(origin: Coord, size: Coord, exitCoords: Coord) returns (status: Status, exitList: seq<Coord>)
      ensures status != Completed <==> HasExit(exitCoords, size) && !InGrid(origin.x + exitCoords.x, origin.y + exitCoords.y)
      ensures status != Completed ==> status == Threw(IndexOutOfRange)
      ensures status == Completed ==>
        exitList == if HasExit(exitCoords, size) then [Coord(origin.x + exitCoords.x, origin.y + exitCoords.y)] else []
    {
      exitList := [];
      var hasExit := exitCoords.x == 0 || exitCoords.y == 0 || exitCoords.x == size.x - 1 || exitCoords.y == size.y - 1;
      if hasExit {
        var ex := Coord(origin.x + exitCoords.x, origin.y + exitCoords.y);
        if !InGrid(ex.x, ex.y) {
          return Threw(IndexOutOfRange), exitList;
        }
        exitList := [ex];
      }
      status := Completed;
    }

    /** The placing half of PlaceRoom: the room is written, its edge cells are added to
        exitList when collectEdges is set, and one exit is opened from that list. */
    method BuildRoom(origin: Coord, size: Coord, roomNumber: int, locked: bool, exitList: seq<Coord>, collectEdges: bool, rng: Random)
      returns (ghost exitWall: Option<(Coord, Coord)>, ghost drawn: Coord)
      requires Valid() && Fits(origin, size, 0) && forall q :: q in exitList ==> InGrid(q.x, q.y)
      modifies this`doors, cells, rng
      ensures exitList != [] || (collectEdges && 0 < size.x && 0 < size.y) ==>
        drawn in exitList || (collectEdges && InRect(drawn, origin, size, 0) && OnRectEdge(drawn, origin, size))
      ensures exitWall.None? <==>
        (exitList == [] && !(collectEdges && 0 < size.x && 0 < size.y)) || !old(CorridorOutside(drawn, origin, size))
      ensures exitWall.Some? ==> exitWall.value.0 == drawn
      ensures forall x, y :: InGrid(x, y) ==>
        cells[x, y] == AfterOptionalRemoveWall(exitWall, Coord(x, y),
          PlacedCell(old(cells[x, y]), Coord(x, y), origin, size, roomNumber, locked))
      ensures exitWall.Some? ==>
        var (e, n) := exitWall.value;
        && InGrid(e.x, e.y) && InGrid(n.x, n.y) && Adjacent(e, n) && !cells[n.x, n.y].room
        && (e in exitList || (collectEdges && InRect(e, origin, size, 0) && OnRectEdge(e, origin, size)))
      ensures doors == old(doors) + ExitDoors(exitWall)
      ensures exitWall.Some? && InRect(exitWall.value.0, origin, size, 0) ==>
        var (e, n) := exitWall.value;
        var cn := cells[n.x, n.y];
        ExitDoors(exitWall) == [MazeDoor(if cn.roomNumber == 0 then roomNumber else cn.roomNumber, e, n, locked || cn.locked)]
    {
      var edges := FillRoom(origin, size, roomNumber, locked, collectEdges);
      var all := exitList + edges;
      assert forall q :: q in all ==> InGrid(q.x, q.y) by {
        forall q | q in edges ensures InGrid(q.x, q.y) {
          assert old(CellFree(q.x, q.y));
        }
      }
      forall x, y | InGrid(x, y) ensures cells[x, y].room <==> old(cells[x, y].room) || InRect(Coord(x, y), origin, size, 0) {
      }
      RoomMadeBeside((origin, size));
      exitWall, drawn := OpenRoomExit(all, rng);
      if exitWall.Some? && InRect(exitWall.value.0, origin, size, 0) {
        var (e, n) := exitWall.value;
        OptionalRemoveWallOnlyOpens(exitWall, e, PlacedCell(old(cells[e.x, e.y]), e, origin, size, roomNumber, locked));
        RoomExitDoor(e, n, roomNumber, locked);
      }
    }

    /** The door an exit from a room cell to a corridor cell records: the room's number when
        the corridor cell has none, the room's lock or the corridor cell's. */
    lemma RoomExitDoor(e: Coord, n: Coord, roomNumber: int, locked: bool)
      requires Valid() && InGrid(e.x, e.y) && InGrid(n.x, n.y) && Adjacent(e, n) && !cells[n.x, n.y].room
      requires cells[e.x, e.y].room && cells[e.x, e.y].roomNumber == roomNumber && cells[e.x, e.y].locked == locked
      ensures ExitDoors(Some((e, n))) ==
        [MazeDoor(if cells[n.x, n.y].roomNumber == 0 then roomNumber else cells[n.x, n.y].roomNumber, e, n, locked || cells[n.x, n.y].locked)]
    {
      AdjacentIsDistanceOne(e, n);
    }

    /** Once the rectangle at origin is made a room, and nothing else becomes one, a cell has a
        neighbour that is not a room cell exactly when it had one outside the rectangle before. */
    twostate lemma RoomMadeBeside(a: (Coord, Coord))
      requires Valid()
      requires forall x, y :: InGrid(x, y) ==> (cells[x, y].room <==> old(cells[x, y].room) || InRect(Coord(x, y), a.0, a.1, 0))
      ensures forall e :: CorridorBeside(e) <==> old(CorridorOutside(e, a.0, a.1))
    {
    }

    /** An edge cell of a rectangle whose one-cell margin is free has a neighbour in that
        margin, which is in the grid, not a room cell and outside the rectangle. */
    lemma EdgeHasOutsideNeighbour(e: Coord, origin: Coord, size: Coord)
      requires Valid() && Fits(origin, size, 1)
      requires InRect(e, origin, size, 0) && OnRectEdge(e, origin, size)
      ensures CorridorOutside(e, origin, size)
    {
      var q :=
        if e.x == origin.x then Coord(e.x - 1, e.y)
        else if e.y == origin.y then Coord(e.x, e.y - 1)
        else if e.x == origin.x + size.x - 1 then Coord(e.x + 1, e.y)
        else Coord(e.x, e.y + 1);
      assert InRect(Coord(q.x, q.y), origin, size, 1);
      assert CellFree(q.x, q.y);
    }

    /** AddRoom with its default perimeter of one cell, the only one its caller uses: collects
        every origin in range where the room and its margin fit, draws one and places the room
        there with no exit offset. An empty room side makes the exit offset (-1, -1) count as
        on an edge line, and with a negative other side that cell can lie outside the grid. */
    method AddRoom(roomSize: Coord, roomNumber: int, locked: bool, rng: Random)
      returns (ok: bool, status: Status, ghost origin: Coord, ghost exitWall: Option<(Coord, Coord)>)
      requires Valid()
      modifies this`firstRoomNumber, this`doors, cells, rng
      ensures ok == old(HasRoomOrigin(roomSize))
      ensures status != Completed ==> ok && status == Threw(IndexOutOfRange) && (roomSize.x < 0 || roomSize.y < 0)
      ensures !ok ==> unchanged(this) && unchanged(cells) && unchanged(rng)
      ensures ok ==> OriginInRange(origin, roomSize, 1) && old(Fits(origin, roomSize, 1))
      ensures ok ==> firstRoomNumber == if old(firstRoomNumber) < roomNumber + 1 then roomNumber + 1 else old(firstRoomNumber)
      ensures ok && status == Completed ==> forall x, y :: InGrid(x, y) ==>
        cells[x, y] == AfterOptionalRemoveWall(exitWall, Coord(x, y),
          PlacedCell(old(cells[x, y]), Coord(x, y), origin, roomSize, roomNumber, locked))
      ensures ok && status == Completed && exitWall.Some? ==>
        var (e, n) := exitWall.value;
        InGrid(e.x, e.y) && InGrid(n.x, n.y) && Adjacent(e, n) && !cells[n.x, n.y].room
      ensures ok && status == Completed ==> forall x, y :: InRect(Coord(x, y), origin, roomSize, 0) ==>
        InGrid(x, y) && cells[x, y].room && cells[x, y].visited && cells[x, y].roomNumber == roomNumber && cells[x, y].locked == locked
      ensures ok && status == Completed ==> forall x, y :: InGrid(x, y) && !InRect(Coord(x, y), origin, roomSize, 0) ==>
        OnlyOpened(old(cells[x, y]), cells[x, y])
      ensures status != Completed ==> unchanged(cells) && doors == old(doors)
      ensures ok && status == Completed ==> doors == old(doors) + ExitDoors(exitWall)
      ensures ok && status == Completed && 0 < roomSize.x && 0 < roomSize.y ==>
        && exitWall.Some? && InRect(exitWall.value.0, origin, roomSize, 0) && OnRectEdge(exitWall.value.0, origin, roomSize)
        && |doors| == |old(doors)| + 1
      ensures ok && status == Completed && exitWall.Some? && InRect(exitWall.value.0, origin, roomSize, 0) ==>
        var (e, n) := exitWall.value;
        var cn := cells[n.x, n.y];
        ExitDoors(exitWall) == [MazeDoor(if cn.roomNumber == 0 then roomNumber else cn.roomNumber, e, n, locked || cn.locked)]
    {
      var perimeter := 1;
      exitWall := None;
      origin := Coord(0, 0);
      var roomStartCoords := RoomOrigins(roomSize, perimeter);
      if |roomStartCoords| > 0 {
        var k := rng.Range(0, |roomStartCoords|);
        var roomStart := roomStartCoords[k];
        origin := roomStart;
        assert roomStart in roomStartCoords;
        assert Fits(origin, roomSize, 1);
        assert Fits(origin, roomSize, 0) by {
          forall x, y | InRect(Coord(x, y), origin, roomSize, 0) ensures CellFree(x, y) {
            assert InRect(Coord(x, y), origin, roomSize, 1);
          }
        }
        forall e | InRect(e, origin, roomSize, 0) && OnRectEdge(e, origin, roomSize)
          ensures CorridorOutside(e, origin, roomSize)
        {
          EdgeHasOutsideNeighbour(e, origin, roomSize);
        }
        var placed;
        ghost var drawn;
        placed, status, exitWall, drawn := PlaceRoom(roomStart, roomSize, roomNumber, locked, Coord(-1, -1), rng);
        if status == Completed {
          forall x, y | InGrid(x, y)
            ensures OnlyOpened(PlacedCell(old(cells[x, y]), Coord(x, y), origin, roomSize, roomNumber, locked), cells[x, y])
          {
            OptionalRemoveWallOnlyOpens(exitWall, Coord(x, y),
              PlacedCell(old(cells[x, y]), Coord(x, y), origin, roomSize, roomNumber, locked));
          }
          forall x, y | InRect(Coord(x, y), origin, roomSize, 0) ensures InGrid(x, y) {
            assert old(CellFree(x, y));
          }
        }
        return true, status, origin, exitWall;
      }
      return false, Completed, origin, exitWall;
    }

    /** Every cell of the recorded room is a room cell with its number and lock. */
    ghost predicate RoomHolds(r: RoomRecord)
      requires Valid()
      reads cells
    {
      forall x, y :: InRect(Coord(x, y), r.origin, r.size, 0) ==>
        InGrid(x, y) && cells[x, y].room && cells[x, y].roomNumber == r.number && cells[x, y].locked == r.locked
    }

    /** No cell of a's rectangle widened by one cell belongs to b's rectangle. */
    static ghost predicate Apart(a: RoomRecord, b: RoomRecord) {
      forall p :: InRect(p, a.origin, a.size, 1) ==> !InRect(p, b.origin, b.size, 0)
    }

    /** One attempt of the room loop: draws a size between the minimum and the maximum (x
        first, then y) and tries AddRoom with it. A room it places keeps clear, margin
        included, of the rooms placed before and of the start cell, and those rooms stay intact. */
    method TryRandomRoom(number: int, locked: bool, minimumRoomSize: Coord, maximumRoomSize: Coord,
                         ghost rooms: seq<RoomRecord>, ghost start: Coord, rng: Random)
      returns (ok: bool, status: Status, ghost r: RoomRecord, ghost exitWall: Option<(Coord, Coord)>)
      requires Valid() && InGrid(start.x, start.y) && cells[start.x, start.y].visited
      requires minimumRoomSize.x <= maximumRoomSize.x + 1 && minimumRoomSize.y <= maximumRoomSize.y + 1
      requires forall i :: 0 <= i < |rooms| ==> RoomHolds(rooms[i])
      modifies this`firstRoomNumber, this`doors, cells, rng
      ensures !ok ==> unchanged(this) && unchanged(cells) && status == Completed
      ensures status != Completed ==> unchanged(cells)
      ensures ok ==> firstRoomNumber == if old(firstRoomNumber) < number + 1 then number + 1 else old(firstRoomNumber)
      ensures r.number == number && r.locked == locked
      ensures minimumRoomSize.x <= r.size.x && (r.size.x <= maximumRoomSize.x || r.size.x == minimumRoomSize.x)
      ensures minimumRoomSize.y <= r.size.y && (r.size.y <= maximumRoomSize.y || r.size.y == minimumRoomSize.y)
      ensures status == Completed || status == Threw(IndexOutOfRange)
      ensures status != Completed ==> r.size.x < 0 || r.size.y < 0
      ensures ok && status == Completed && 0 < r.size.x && 0 < r.size.y ==>
        exitWall.Some? && InRect(exitWall.value.0, r.origin, r.size, 0) && |ExitDoors(exitWall)| == 1
      ensures ok && status == Completed ==> RoomHolds(r) && !InRect(start, r.origin, r.size, 1)
      ensures ok && status == Completed ==> forall i :: 0 <= i < |rooms| ==> RoomHolds(rooms[i]) && Apart(r, rooms[i])
      ensures ok && status == Completed ==> forall x, y :: InGrid(x, y) && !cells[x, y].room ==> OnlyOpened(old(cells[x, y]), cells[x, y])
      ensures ok && status == Completed ==> forall x, y :: InGrid(x, y) && old(cells[x, y].visited) ==> cells[x, y].visited
      ensures ok && status == Completed ==> forall x, y :: InGrid(x, y) && old(cells[x, y].room) ==> NonWalls(cells[x, y]) == NonWalls(old(cells[x, y]))
      ensures ok && status == Completed ==> forall x, y :: InGrid(x, y) && cells[x, y].room && !old(cells[x, y].room) ==> InRect(Coord(x, y), r.origin, r.size, 0)
      ensures doors == old(doors) + if ok && status == Completed then ExitDoors(exitWall) else []
      ensures ok && status == Completed && exitWall.Some? ==>
        var (e, n) := exitWall.value;
        InGrid(e.x, e.y) && InGrid(n.x, n.y) && Adjacent(e, n) && !cells[n.x, n.y].room
      ensures ok && status == Completed && exitWall.Some? && InRect(exitWall.value.0, r.origin, r.size, 0) ==>
        var (e, n) := exitWall.value;
        var cn := cells[n.x, n.y];
        ExitDoors(exitWall) == [MazeDoor(if cn.roomNumber == 0 then number else cn.roomNumber, e, n, locked || cn.locked)]
    {
      var sx := rng.Range(minimumRoomSize.x, maximumRoomSize.x + 1);
      var sy := rng.Range(minimumRoomSize.y, maximumRoomSize.y + 1);
      ghost var origin;
      ok, status, origin, exitWall := AddRoom(Coord(sx, sy), number, locked, rng);
      r := RoomRecord(origin, Coord(sx, sy), number, locked);
      if ok && status == Completed {
        NewRoomApart((rooms, r, start));
      }
    }

    /** A room r written where it and its one-cell margin were free, by a step that makes every
        cell of r a visited room cell with r's number and lock and only opens walls elsewhere:
        r keeps clear of the rooms placed before and of the visited start cell, those rooms stay
        intact, earlier room cells keep their contents, and new room cells lie in r. */
    twostate lemma NewRoomApart(a: (seq<RoomRecord>, RoomRecord, Coord))
      requires Valid() && InGrid(a.2.x, a.2.y) && old(cells[a.2.x, a.2.y].visited)
      requires old(Fits(a.1.origin, a.1.size, 1))
      requires forall i :: 0 <= i < |a.0| ==> old(RoomHolds(a.0[i]))
      requires forall x, y :: InRect(Coord(x, y), a.1.origin, a.1.size, 0) ==>
        InGrid(x, y) && cells[x, y].room && cells[x, y].visited && cells[x, y].roomNumber == a.1.number && cells[x, y].locked == a.1.locked
      requires forall x, y :: InGrid(x, y) && !InRect(Coord(x, y), a.1.origin, a.1.size, 0) ==> OnlyOpened(old(cells[x, y]), cells[x, y])
      ensures RoomHolds(a.1) && !InRect(a.2, a.1.origin, a.1.size, 1)
      ensures forall i :: 0 <= i < |a.0| ==> RoomHolds(a.0[i]) && Apart(a.1, a.0[i])
      ensures forall x, y :: InGrid(x, y) && !cells[x, y].room ==> OnlyOpened(old(cells[x, y]), cells[x, y])
      ensures forall x, y :: InGrid(x, y) && old(cells[x, y].visited) ==> cells[x, y].visited
      ensures forall x, y :: InGrid(x, y) && old(cells[x, y].room) ==> NonWalls(cells[x, y]) == NonWalls(old(cells[x, y]))
      ensures forall x, y :: InGrid(x, y) && cells[x, y].room && !old(cells[x, y].room) ==> InRect(Coord(x, y), a.1.origin, a.1.size, 0)
    {
      var (rooms, r, start) := a;
      forall i, x, y | 0 <= i < |rooms| && InRect(Coord(x, y), rooms[i].origin, rooms[i].size, 0)
        ensures !InRect(Coord(x, y), r.origin, r.size, 1)
        ensures InGrid(x, y) && cells[x, y].room && cells[x, y].roomNumber == rooms[i].number && cells[x, y].locked == rooms[i].locked
      {
        assert old(RoomHolds(rooms[i]));
        assert !old(CellFree(x, y));
      }
      forall i, p | 0 <= i < |rooms| && InRect(p, r.origin, r.size, 1) ensures !InRect(p, rooms[i].origin, rooms[i].size, 0) {
        assert p == Coord(p.x, p.y);
      }
      assert !old(CellFree(start.x, start.y));
      forall x, y | InGrid(x, y) && old(cells[x, y].room) ensures NonWalls(cells[x, y]) == NonWalls(old(cells[x, y])) {
        assert !old(CellFree(x, y));
      }
    }

    /** Corridor cells carry no room number and no lock, as every cell of a new maze and every
        cell PlaceRoom does not turn into a room cell. */
    ghost predicate CorridorsPlain()
      requires Valid()
      reads cells
    {
      forall x, y :: InGrid(x, y) && !cells[x, y].room ==> cells[x, y].roomNumber == 0 && !cells[x, y].locked
    }

    /** A door joins two neighbouring cells of the grid. */
    ghost predicate DoorSpan(d: MazeDoor) {
      var (f, s) := (d.firstCell, d.secondCell);
      InGrid(f.x, f.y) && InGrid(s.x, s.y) && Adjacent(f, s)
    }

    /** Each door joins neighbouring cells and leads out of one of the rooms, or out of a room
        cell of g0, with its number and lock. */
    ghost predicate DoorsPlaced(ds: seq<MazeDoor>, g0: Grid, rooms: seq<RoomRecord>) {
      forall d :: d in ds ==> DoorSpan(d) && (FromPlacedRoom(d, rooms) || FromRoomCell(d, g0))
    }

    /** Placing one more room keeps the earlier doors placed, and the doors its exit adds. */
    lemma DoorsPlacedExtend(ds: seq<MazeDoor>, extra: seq<MazeDoor>, g0: Grid, rooms: seq<RoomRecord>, r: RoomRecord)
      requires DoorsPlaced(ds, g0, rooms) && DoorsPlaced(extra, g0, rooms + [r])
      ensures DoorsPlaced(ds + extra, g0, rooms + [r])
    {
      forall d | d in ds + extra ensures DoorSpan(d) && (FromPlacedRoom(d, rooms + [r]) || FromRoomCell(d, g0)) {
        if d !in extra && FromPlacedRoom(d, rooms) {
          var j :| 0 <= j < |rooms| && InRect(d.firstCell, rooms[j].origin, rooms[j].size, 0)
            && d.doorIndex == rooms[j].number && d.locked == rooms[j].locked;
          assert (rooms + [r])[j] == rooms[j];
        }
      }
    }

    /** Every room cell was a room cell of g0 or lies in one of the rooms. */
    ghost predicate RoomCellsPlaced(g0: Grid, rooms: seq<RoomRecord>)
      requires Valid()
      reads cells
    {
      forall x, y :: InGrid(x, y) && cells[x, y].room ==>
        (Coord(x, y) in g0 && g0[Coord(x, y)].room) || exists j :: 0 <= j < |rooms| && InRect(Coord(x, y), rooms[j].origin, rooms[j].size, 0)
    }

    /** The room cells of g0 still hold what they held there, walls apart. */
    ghost predicate RoomCellsKept(g0: Grid)
      requires Valid()
      reads cells
    {
      forall x, y :: InGrid(x, y) && Coord(x, y) in g0 && g0[Coord(x, y)].room ==> NonWalls(cells[x, y]) == NonWalls(g0[Coord(x, y)])
    }

    /** What placing rooms keeps of the grid g0 it starts from: a cell that is not a room cell
        only had walls opened, visited marks stay, and room cells are those of g0, whose contents
        stay, and those of the rooms placed. */
    ghost predicate RoomLoopKept(g0: Grid, rooms: seq<RoomRecord>)
      requires Valid()
      reads cells
    {
      && (forall x, y :: InGrid(x, y) && !cells[x, y].room ==> Coord(x, y) in g0 && OnlyOpened(g0[Coord(x, y)], cells[x, y]))
      && (forall x, y :: InGrid(x, y) && Coord(x, y) in g0 && g0[Coord(x, y)].visited ==> cells[x, y].visited)
      && RoomCellsPlaced(g0, rooms) && RoomCellsKept(g0)
    }

    /** One more room placed: a step that keeps the cells of earlier rooms, walls apart, makes
        room cells only inside the new room r, only opens corridor cells and keeps visited marks
        keeps RoomLoopKept for the rooms placed so far, and keeps corridors plain. */
    twostate lemma RoomsStep(a: (Grid, seq<RoomRecord>, RoomRecord))
      requires Valid()
      requires old(RoomLoopKept(a.0, a.1))
      requires forall x, y :: InGrid(x, y) && old(cells[x, y].room) ==> NonWalls(cells[x, y]) == NonWalls(old(cells[x, y]))
      requires forall x, y :: InGrid(x, y) && cells[x, y].room && !old(cells[x, y].room) ==> InRect(Coord(x, y), a.2.origin, a.2.size, 0)
      requires forall x, y :: InGrid(x, y) && !cells[x, y].room ==> OnlyOpened(old(cells[x, y]), cells[x, y])
      requires forall x, y :: InGrid(x, y) && old(cells[x, y].visited) ==> cells[x, y].visited
      ensures RoomLoopKept(a.0, a.1 + [a.2])
      ensures old(CorridorsPlain()) ==> CorridorsPlain()
    {
      var (g0, rooms, r) := a;
      forall x, y | InGrid(x, y) && cells[x, y].room
        ensures (Coord(x, y) in g0 && g0[Coord(x, y)].room) || exists j :: 0 <= j < |rooms + [r]| && InRect(Coord(x, y), (rooms + [r])[j].origin, (rooms + [r])[j].size, 0)
      {
        if !old(cells[x, y].room) {
          assert (rooms + [r])[|rooms|] == r;
        } else if !(Coord(x, y) in g0 && g0[Coord(x, y)].room) {
          var j :| 0 <= j < |rooms| && InRect(Coord(x, y), rooms[j].origin, rooms[j].size, 0);
          assert (rooms + [r])[j] == rooms[j];
        }
      }
      forall x, y | InGrid(x, y) && Coord(x, y) in g0 && g0[Coord(x, y)].room ensures NonWalls(cells[x, y]) == NonWalls(g0[Coord(x, y)]) {
        assert old(cells[x, y].room);
      }
      forall x, y | InGrid(x, y) && !cells[x, y].room ensures Coord(x, y) in g0 && OnlyOpened(g0[Coord(x, y)], cells[x, y]) {
        assert OnlyOpened(old(cells[x, y]), cells[x, y]);
      }
      if old(CorridorsPlain()) {
        forall x, y | InGrid(x, y) && !cells[x, y].room ensures cells[x, y].roomNumber == 0 && !cells[x, y].locked {
          assert OnlyOpened(old(cells[x, y]), cells[x, y]);
        }
      }
    }

    /** The door an exit opens from a room towards a corridor cell, with the corridors plain,
        joins neighbouring cells and comes from one of the rooms, or from a room cell of g0,
        with its number and lock. */
    lemma ExitDoorPlaced(w: Option<(Coord, Coord)>, g0: Grid, rooms: seq<RoomRecord>)
      requires Valid() && CorridorsPlain()
      requires w.Some? ==> InGrid(w.value.1.x, w.value.1.y) && Adjacent(w.value.0, w.value.1) && !cells[w.value.1.x, w.value.1.y].room
      requires forall i :: 0 <= i < |rooms| ==> RoomHolds(rooms[i])
      requires RoomCellsPlaced(g0, rooms) && RoomCellsKept(g0)
      ensures DoorsPlaced(ExitDoors(w), g0, rooms)
    {
      if ExitDoors(w) == [] {
        return;
      }
      var (e, n) := w.value;
      AdjacentIsDistanceOne(e, n);
      var d := ExitDoors(w)[0];
      assert d.firstCell == e && cells[e.x, e.y].room;
      if i :| 0 <= i < |rooms| && InRect(e, rooms[i].origin, rooms[i].size, 0) {
        assert RoomHolds(rooms[i]);
        assert e == Coord(e.x, e.y);
      } else {
        assert e == Coord(e.x, e.y);
        assert NonWalls(cells[e.x, e.y]) == NonWalls(g0[e]);
      }
    }

    /** One pass of the room loop of GenerateMaze: TryRandomRoom, seen from the loop, which
        has recorded the doors added since it started from grid g0 in added, after d0. It keeps
        RoomLoopKept over g0 and adds at most one door, exactly one for a placed room when the
        minimum sizes are positive; with plain corridors that door comes from a placed room or
        a room cell of g0. */
    method PlaceRandomRoom(number: int, locked: bool, minimumRoomSize: Coord, maximumRoomSize: Coord,
                           ghost rooms: seq<RoomRecord>, ghost start: Coord, ghost g0: Grid,
                           ghost d0: seq<MazeDoor>, ghost added: seq<MazeDoor>, ghost plain: bool, rng: Random)
      returns (ok: bool, status: Status, ghost r: RoomRecord, ghost added': seq<MazeDoor>)
      requires Valid() && InGrid(start.x, start.y) && cells[start.x, start.y].visited
      requires minimumRoomSize.x <= maximumRoomSize.x + 1 && minimumRoomSize.y <= maximumRoomSize.y + 1
      requires forall i :: 0 <= i < |rooms| ==> RoomHolds(rooms[i])
      requires RoomLoopKept(g0, rooms)
      requires doors == d0 + added
      requires plain ==> CorridorsPlain() && DoorsPlaced(added, g0, rooms)
      modifies this`firstRoomNumber, this`doors, cells, rng
      ensures !ok ==> unchanged(this) && status == Completed
      ensures !(ok && status == Completed) ==> unchanged(cells) && added' == added
      ensures !(ok && status == Completed) ==> RoomLoopKept(g0, rooms)
      ensures ok ==> firstRoomNumber == if old(firstRoomNumber) < number + 1 then number + 1 else old(firstRoomNumber)
      ensures r.number == number && r.locked == locked
      ensures minimumRoomSize.x <= r.size.x && (r.size.x <= maximumRoomSize.x || r.size.x == minimumRoomSize.x)
      ensures minimumRoomSize.y <= r.size.y && (r.size.y <= maximumRoomSize.y || r.size.y == minimumRoomSize.y)
      ensures status == Completed || status == Threw(IndexOutOfRange)
      ensures ok && status == Completed ==> !InRect(start, r.origin, r.size, 1) && forall i :: 0 <= i < |rooms| ==> Apart(r, rooms[i])
      ensures ok && status == Completed ==> forall i :: 0 <= i < |rooms + [r]| ==> RoomHolds((rooms + [r])[i])
      ensures ok && status == Completed ==> RoomLoopKept(g0, rooms + [r])
      ensures plain ==> CorridorsPlain()
      ensures plain && ok && status == Completed ==> DoorsPlaced(added', g0, rooms + [r])
      ensures doors == d0 + added' && |added| <= |added'| <= |added| + 1 && added'[..|added|] == added
      ensures 0 < minimumRoomSize.x && 0 < minimumRoomSize.y ==> status == Completed && |added'| == |added| + if ok then 1 else 0
    {
      ghost var exitWall;
      ok, status, r, exitWall := TryRandomRoom(number, locked, minimumRoomSize, maximumRoomSize, rooms, start, rng);
      ghost var newDoors := if ok && status == Completed then ExitDoors(exitWall) else [];
      added' := added + newDoors;
      AppendTwice(d0, added, newDoors);
      if ok && status == Completed {
        RoomsStep((g0, rooms, r));
        forall i | 0 <= i < |rooms| + 1 ensures RoomHolds((rooms + [r])[i]) {
          if i < |rooms| {
            assert (rooms + [r])[i] == rooms[i];
          }
        }
        if plain {
          ExitDoorPlaced(exitWall, g0, rooms + [r]);
          DoorsPlacedExtend(added, newDoors, g0, rooms, r);
        }
      }
    }

    /** The room loop of GenerateMaze: room sizes are drawn between the minimum and maximum,
        numbers are handed out consecutively from the next free room number, the first
        lockedCount rooms are locked, and the loop gives up after five failures in a row. */
    method AddRandomRooms(roomCount: int, lockedCount: int, minimumRoomSize: Coord, maximumRoomSize: Coord,
                          start: Coord, rng: Random)
      returns (status: Status, ghost rooms: seq<RoomRecord>, ghost failuresInARow: nat, ghost added: seq<MazeDoor>)
      requires Valid() && InGrid(start.x, start.y) && cells[start.x, start.y].visited
      requires minimumRoomSize.x <= maximumRoomSize.x + 1 && minimumRoomSize.y <= maximumRoomSize.y + 1
      modifies this`firstRoomNumber, this`doors, cells, rng
      ensures status == Completed || status == Threw(IndexOutOfRange)
      ensures status == Completed ==> firstRoomNumber == old(firstRoomNumber) + |rooms|
      ensures RoomsDrawn(rooms, old(firstRoomNumber), lockedCount, start)
      ensures forall i :: 0 <= i < |rooms| ==> RoomHolds(rooms[i])
      ensures status == Completed ==>
        |rooms| == (if roomCount < 0 then 0 else roomCount) || (|rooms| < roomCount && failuresInARow == TryingPlaceRoomIterations)
      ensures roomCount <= 0 ==> rooms == [] && status == Completed
      ensures cells[start.x, start.y].visited
      ensures RoomLoopKept(old(Snapshot()), rooms)
      ensures doors == old(doors) + added && |added| <= |rooms|
      ensures old(CorridorsPlain()) ==> CorridorsPlain()
      ensures old(CorridorsPlain()) ==> DoorsPlaced(added, old(Snapshot()), rooms)
      ensures 0 < minimumRoomSize.x && 0 < minimumRoomSize.y ==> status == Completed && |added| == |rooms|
    {
      var roomsLeft, lockedLeft := roomCount, lockedCount;
      var iter := TryingPlaceRoomIterations;
      var number := firstRoomNumber;
      rooms, failuresInARow, added := [], 0, [];
      ghost var g0, plain := Snapshot(), CorridorsPlain();
      ghost var sized, d0 := 0 < minimumRoomSize.x && 0 < minimumRoomSize.y, doors;
      while roomsLeft > 0 && iter > 0
        invariant 0 <= iter <= TryingPlaceRoomIterations && failuresInARow == TryingPlaceRoomIterations - iter
        invariant roomsLeft == roomCount - |rooms| && lockedLeft == lockedCount - |rooms|
        invariant roomCount <= 0 ==> rooms == []
        invariant roomCount >= 0 ==> roomsLeft >= 0
        invariant number == old(firstRoomNumber) + |rooms| && firstRoomNumber == number
        invariant RoomsDrawn(rooms, old(firstRoomNumber), lockedCount, start)
        invariant forall i :: 0 <= i < |rooms| ==> RoomHolds(rooms[i])
        invariant cells[start.x, start.y].visited
        invariant RoomLoopKept(g0, rooms)
        invariant doors == d0 + added && |added| <= |rooms| && (sized ==> |added| == |rooms|)
        invariant plain ==> CorridorsPlain() && DoorsPlaced(added, g0, rooms)
        decreases roomsLeft, iter
      {
        var ok, st;
        ghost var r;
        ok, st, r, added := PlaceRandomRoom(number, lockedLeft > 0, minimumRoomSize, maximumRoomSize, rooms, start, g0, d0, added, plain, rng);
        if st != Completed {
          return st, rooms, failuresInARow, added;
        }
        if ok {
          RoomsDrawnExtend(rooms, r, old(firstRoomNumber), lockedCount, start);
          lockedLeft := lockedLeft - 1;
          roomsLeft := roomsLeft - 1;
          number := number + 1;
          iter := TryingPlaceRoomIterations;
          rooms, failuresInARow := rooms + [r], 0;
        } else {
          iter := iter - 1;
          failuresInARow := failuresInARow + 1;
        }
      }
      status := Completed;
    }

    // ---------------------------------------------------------------- outer walls

    /** A side of an in-grid cell that faces out of the grid. */
    predicate OnBoundary(p: Coord, d: Side) {
      var q := Step(p, d);
      !InGrid(q.x, q.y)
    }

    /** The outer-wall pass of GenerateMaze: the top flags of the top row and the bottom flags
        of the bottom row are set to createOuterWalls, then the right flags of the right column
        and the left flags of the left column. Every side facing out of the grid ends up with
        that value, no other flag and nothing else changes, and symmetry between
        neighbours is kept. */
    method SetOuterWalls(createOuterWalls: bool)
      requires Valid() && width > 0 && height > 0
      modifies cells
      ensures forall x, y, d: Side :: InGrid(x, y) ==>
        Wall(cells[x, y], d) == if OnBoundary(Coord(x, y), d) then createOuterWalls else old(Wall(cells[x, y], d))
      ensures forall x, y :: InGrid(x, y) ==> NonWalls(cells[x, y]) == old(NonWalls(cells[x, y]))
      ensures old(WallsSymmetric()) ==> WallsSymmetric()
    {
      SetRowWalls(createOuterWalls);
      SetColumnWalls(createOuterWalls);
      forall x, y, d: Side | InGrid(x, y)
        ensures Wall(cells[x, y], d) == if OnBoundary(Coord(x, y), d) then createOuterWalls else old(Wall(cells[x, y], d))
      {
        match d
        case Left =>
        case Right =>
        case Top =>
        case Bottom =>
      }
    }

    /** The first loop of the outer-wall pass: top flags of the top row, bottom flags of the bottom row. */
    method SetRowWalls(outer: bool)
      requires Valid() && width > 0 && height > 0
      modifies cells
      ensures forall x, y :: InGrid(x, y) ==> cells[x, y] == old(cells[x, y]).(
        hasTopWall := if y == height - 1 then outer else old(cells[x, y]).hasTopWall,
        hasBottomWall := if y == 0 then outer else old(cells[x, y]).hasBottomWall)
    {
      for x := 0 to width
        invariant forall x', y' :: InGrid(x', y') ==> cells[x', y'] == old(cells[x', y']).(
          hasTopWall := if y' == height - 1 && x' < x then outer else old(cells[x', y']).hasTopWall,
          hasBottomWall := if y' == 0 && x' < x then outer else old(cells[x', y']).hasBottomWall)
      {
        cells[x, height - 1] := cells[x, height - 1].(hasTopWall := outer);
        cells[x, 0] := cells[x, 0].(hasBottomWall := outer);
      }
    }

    /** The second loop of the outer-wall pass: right flags of the right column, left flags of the left column. */
    method SetColumnWalls(outer: bool)
      requires Valid() && width > 0 && height > 0
      modifies cells
      ensures forall x, y :: InGrid(x, y) ==> cells[x, y] == old(cells[x, y]).(
        hasRightWall := if x == width - 1 then outer else old(cells[x, y]).hasRightWall,
        hasLeftWall := if x == 0 then outer else old(cells[x, y]).hasLeftWall)
    {
      for y := 0 to height
        invariant forall x', y' :: InGrid(x', y') ==> cells[x', y'] == old(cells[x', y']).(
          hasRightWall := if x' == width - 1 && y' < y then outer else old(cells[x', y']).hasRightWall,
          hasLeftWall := if x' == 0 && y' < y then outer else old(cells[x', y']).hasLeftWall)
      {
        cells[width - 1, y] := cells[width - 1, y].(hasRightWall := outer);
        cells[0, y] := cells[0, y].(hasLeftWall := outer);
      }
    }

    // ---------------------------------------------------------------- backtracker

    /** An in-grid cell the backtracker has not reached yet. */
    predicate Unvisited(p: Coord)
      requires Valid()
      reads cells
    {
      InGrid(p.x, p.y) && !cells[p.x, p.y].visited
    }

    /** The backtracker can move on from p: p is not a room cell and has an unvisited neighbour. */
    predicate HasCandidate(p: Coord)
      requires Valid()
      reads cells
    {
      InGrid(p.x, p.y) && !cells[p.x, p.y].room && exists d: Side :: Unvisited(Step(p, d))
    }

    /** Every room cell is visited, as PlaceRoom leaves them; the backtracker never enters one. */
    ghost predicate RoomsVisited()
      requires Valid()
      reads cells
    {
      RoomsMarked(Snapshot())
    }

    /** How often the neighbours list holds q: once for an unvisited neighbour, and
        straightCoef more times for the one in the direction of the last move. */
    ghost function CandidateCount(current: Coord, direction: Direction, straightCoef: int, q: Coord): nat
      requires Valid()
      reads cells
    {
      SideTimes(current, q, Unvisited(q), direction, straightCoef)
    }

    /** What one block of the neighbour scan appends: an unvisited neighbour n on side d once,
        then straightCoef more times when the last move went towards d. */
    function Block(n: Coord, d: Side, direction: Direction, straightCoef: int): seq<Coord>
      requires Valid()
      reads cells
    {
      ScanBlock(n, Unvisited(n), d, direction, straightCoef)
    }

    /** The list the four blocks of the scan, left, bottom, right and top, build together. */
    function ScanBlocks(current: Coord, direction: Direction, straightCoef: int): seq<Coord>
      requires Valid()
      reads cells
    {
      var l, b := Coord(current.x - 1, current.y), Coord(current.x, current.y - 1);
      var r, t := Coord(current.x + 1, current.y), Coord(current.x, current.y + 1);
      FourBlocks(l, b, r, t, Unvisited(l), Unvisited(b), Unvisited(r), Unvisited(t), direction, straightCoef)
    }

    /** One block of the neighbour scan. */
    method AddCandidate(ns: seq<Coord>, n: Coord, d: Side, direction: Direction, straightCoef: int)
      returns (r: seq<Coord>)
      requires Valid()
      ensures r == ns + Block(n, d, direction, straightCoef)
    {
      r := ns;
      if Unvisited(n) {
        r := r + [n];
        if direction == d {
          r := AppendCopies(r, n, straightCoef);
          assert r == ns + ([n] + Copies(n, straightCoef));
        }
      }
    }

    /** The four blocks of the scan together list each neighbour as often as CandidateCount
        says, and nothing else. */
    lemma CandidateCountByBlocks(current: Coord, direction: Direction, straightCoef: int)
      requires Valid()
      ensures forall q :: multiset(ScanBlocks(current, direction, straightCoef))[q] == CandidateCount(current, direction, straightCoef, q)
    {
      forall q ensures multiset(ScanBlocks(current, direction, straightCoef))[q] == CandidateCount(current, direction, straightCoef, q) {
        CandidateCountAt(current, direction, straightCoef, q);
      }
    }

    /** CandidateCountByBlocks for one cell q. */
    lemma CandidateCountAt(current: Coord, direction: Direction, straightCoef: int, q: Coord)
      requires Valid()
      ensures multiset(ScanBlocks(current, direction, straightCoef))[q] == CandidateCount(current, direction, straightCoef, q)
    {
      var l, b := Coord(current.x - 1, current.y), Coord(current.x, current.y - 1);
      var r, t := Coord(current.x + 1, current.y), Coord(current.x, current.y + 1);
      ScanBlocksUnfold(current, direction, straightCoef);
      CandidateCountUnfold(current, direction, straightCoef, q);
      ScanCount(current, q, Unvisited(q), Unvisited(l), Unvisited(b), Unvisited(r), Unvisited(t), direction, straightCoef);
    }

    /** ScanBlocks spelled out with the four neighbours' coordinates. */
    lemma ScanBlocksUnfold(current: Coord, direction: Direction, straightCoef: int)
      requires Valid()
      ensures ScanBlocks(current, direction, straightCoef) ==
        FourBlocks(Coord(current.x - 1, current.y), Coord(current.x, current.y - 1), Coord(current.x + 1, current.y),
          Coord(current.x, current.y + 1), Unvisited(Coord(current.x - 1, current.y)), Unvisited(Coord(current.x, current.y - 1)),
          Unvisited(Coord(current.x + 1, current.y)), Unvisited(Coord(current.x, current.y + 1)), direction, straightCoef)
    {
    }

    /** CandidateCount spelled out as SideTimes of q's unvisited status. */
    lemma CandidateCountUnfold(current: Coord, direction: Direction, straightCoef: int, q: Coord)
      requires Valid()
      ensures CandidateCount(current, direction, straightCoef, q) == SideTimes(current, q, Unvisited(q), direction, straightCoef)
    {
    }

    /** A cell is a candidate at all exactly when it is an unvisited neighbour. */
    lemma CandidateCountPositive(current: Coord, direction: Direction, straightCoef: int, q: Coord)
      requires Valid()
      ensures CandidateCount(current, direction, straightCoef, q) > 0 <==> Adjacent(current, q) && Unvisited(q)
    {
      CandidateCountUnfold(current, direction, straightCoef, q);
    }

    /** The neighbours list of RemoveWallsWithBacktracker: every unvisited grid neighbour of a
        corridor cell (none for a room cell), the one straight ahead in the last direction
        listed straightCoef extra times, so that the uniform draw favours going straight. */
    method CandidateNeighbours(current: Coord, direction: Direction, straightCoef: int) returns (ns: seq<Coord>)
      requires Valid() && InGrid(current.x, current.y)
      ensures forall q :: multiset(ns)[q] == if cells[current.x, current.y].room then 0
        else CandidateCount(current, direction, straightCoef, q)
      ensures forall q :: q in ns <==> !cells[current.x, current.y].room && Adjacent(current, q) && Unvisited(q)
    {
      ns := [];
      if !cells[current.x, current.y].room {
        ns := ScanNeighbours(current, direction, straightCoef);
      }
      forall q ensures q in ns <==> !cells[current.x, current.y].room && Adjacent(current, q) && Unvisited(q) {
        assert q in ns <==> multiset(ns)[q] > 0;
        CandidateCountPositive(current, direction, straightCoef, q);
      }
    }

    /** The four blocks of the neighbour scan, in the order left, bottom, right and top: the
        list holds each cell as often as CandidateCount says. */
    method ScanNeighbours(current: Coord, direction: Direction, straightCoef: int) returns (ns: seq<Coord>)
      requires Valid()
      ensures ns == ScanBlocks(current, direction, straightCoef)
      ensures forall q :: multiset(ns)[q] == CandidateCount(current, direction, straightCoef, q)
    {
      var x, y := current.x, current.y;
      var l, b, r, t := Coord(x - 1, y), Coord(x, y - 1), Coord(x + 1, y), Coord(x, y + 1);
      var ns1 := AddCandidate([], l, Left, direction, straightCoef);
      var ns2 := AddCandidate(ns1, b, Bottom, direction, straightCoef);
      var ns3 := AddCandidate(ns2, r, Right, direction, straightCoef);
      ns := AddCandidate(ns3, t, Top, direction, straightCoef);
      ConcatChain([], ns1, ns2, ns3, ns, Block(l, Left, direction, straightCoef), Block(b, Bottom, direction, straightCoef),
        Block(r, Right, direction, straightCoef), Block(t, Top, direction, straightCoef));
      CandidateCountByBlocks(current, direction, straightCoef);
    }

    /** Marks the cell at q visited and changes nothing else. */
    method SetVisited(q: Coord)
      requires Valid() && InGrid(q.x, q.y)
      modifies cells
      ensures forall x, y :: InGrid(x, y) ==> cells[x, y] == MarkVisited(q, Coord(x, y), old(cells[x, y]))
      ensures old(WallsSymmetric()) ==> WallsSymmetric()
    {
      cells[q.x, q.y] := cells[q.x, q.y].(visited := true);
    }

    /** The wall between a and its neighbour b is removed and b is marked visited, as one
        forward move of the backtracker does. */
    method CarveInto(a: Coord, b: Coord)
      requires Valid() && InGrid(a.x, a.y) && InGrid(b.x, b.y) && Adjacent(a, b)
      modifies this`doors, cells
      ensures Snapshot() == CarveStepGrid(old(Snapshot()), a, b)
      ensures doors == old(doors) + if old(cells[a.x, a.y].room || cells[b.x, b.y].room)
        then [MakeDoor(a, old(cells[a.x, a.y]), b, old(cells[b.x, b.y]))] else []
      ensures old(WallsSymmetric()) ==> WallsSymmetric()
      ensures old(RoomsVisited()) ==> RoomsVisited()
    {
      ghost var g := Snapshot();
      AdjacentIsDistanceOne(a, b);
      RemoveWall(a, b);
      SetVisited(b);
      CarvedOnSnapshot((a, b));
      if RoomsMarked(g) {
        RoomsMarkedAfterStep(g, a, b);
      }
    }

    /** A carve step on the cells, seen on the snapshot. */
    twostate lemma CarvedOnSnapshot(e: (Coord, Coord))
      requires Valid()
      requires forall x, y :: InGrid(x, y) ==>
        cells[x, y] == MarkVisited(e.1, Coord(x, y), AfterRemoveWall(e.0, e.1, Coord(x, y), old(cells[x, y])))
      ensures Snapshot() == CarveStepGrid(old(Snapshot()), e.0, e.1)
    {
      var g, h := old(Snapshot()), Snapshot();
      forall p | p in h ensures h[p] == CarveStepGrid(g, e.0, e.1)[p] {
        assert Coord(p.x, p.y) == p;
      }
    }

    /** One forward move of the backtracker from current: draws a neighbour from the list,
        records the direction of the move, removes the wall between them and marks the
        neighbour visited. When the list is empty nothing happens. */
    method CarveStep(current: Coord, direction: Direction, straightCoef: int, rng: Random)
      returns (moved: bool, next: Coord, nextDirection: Direction)
      requires Valid() && InGrid(current.x, current.y)
      modifies this`doors, cells, rng
      ensures moved == old(HasCandidate(current))
      ensures !moved ==> unchanged(cells) && doors == old(doors) && nextDirection == direction
      ensures !moved ==> Snapshot() == old(Snapshot())
      ensures moved ==> Adjacent(current, next) && old(Unvisited(next)) && nextDirection == Facing(current, next)
      ensures moved ==> Snapshot() == CarveStepGrid(old(Snapshot()), current, next)
      ensures moved ==> doors == old(doors) + if old(cells[next.x, next.y].room)
        then [MakeDoor(current, old(cells[current.x, current.y]), next, old(cells[next.x, next.y]))] else []
      ensures old(WallsSymmetric()) ==> WallsSymmetric()
      ensures old(RoomsVisited()) ==> RoomsVisited() && doors == old(doors)
    {
      var neighbours := CandidateNeighbours(current, direction, straightCoef);
      if |neighbours| == 0 {
        assert !HasCandidate(current) by {
          forall d: Side ensures !cells[current.x, current.y].room ==> !Unvisited(Step(current, d)) {
            AdjacentIsDistanceOne(current, Step(current, d));
            assert Step(current, d) !in neighbours;
          }
        }
        return false, current, direction;
      }
      var k := rng.Range(0, |neighbours|);
      next := neighbours[k];
      assert next in neighbours;
      assert Unvisited(Step(current, Facing(current, next))) by { AdjacentIsDistanceOne(current, next); FacingNeighbour(current, next); }
      nextDirection :=
        if next.x == current.x - 1 then Left
        else if next.x == current.x + 1 then Right
        else if next.y == current.y - 1 then Bottom
        else if next.y == current.y + 1 then Top
        else Unknown;
      AdjacentIsDistanceOne(current, next);
      CarveInto(current, next);
      moved := true;
    }

    /** The grid as a value, for stating what a pass changed. */
    ghost function Snapshot(): (m: imap<Coord, MazeCell>)
      requires Valid()
      reads cells
      ensures forall p :: p in m <==> InGrid(p.x, p.y)
      ensures forall x, y :: InGrid(x, y) ==> m[Coord(x, y)] == cells[x, y]
    {
      imap p: Coord | InGrid(p.x, p.y) :: cells[p.x, p.y]
    }

    /** The start of RemoveWallsWithBacktracker: the start cell is marked visited; unvisited
        holds the other cells still to be reached. */
    method BeginCarve(startPoint: Coord) returns (ghost init: Grid, ghost unvisited: set<Coord>)
      requires Valid() && InGrid(startPoint.x, startPoint.y)
      modifies cells
      ensures init == old(Snapshot())
      ensures Snapshot() == MarkStart(init, startPoint)
      ensures StillToReach(init, startPoint, unvisited)
      ensures HasCandidate(startPoint) == old(HasCandidate(startPoint))
      ensures old(WallsSymmetric()) ==> WallsSymmetric()
      ensures old(RoomsVisited()) ==> RoomsVisited()
    {
      init := Snapshot();
      unvisited := set x, y | 0 <= x < width && 0 <= y < height && !init[Coord(x, y)].visited && Coord(x, y) != startPoint :: Coord(x, y);
      SetVisited(startPoint);
      assert HasCandidate(startPoint) == old(HasCandidate(startPoint)) by {
        assert forall d: Side :: Step(startPoint, d) != startPoint;
      }
      WrittenAt(startPoint);
      MarkStartUpdate(init, startPoint);
    }

    /** The backtracker up to its first move: the start cell is marked visited and the first
        pass of the do-while body runs. Without a candidate nothing moves, and the Pop that
        follows finds the stack empty. */
    method FirstMove(startPoint: Coord, straightCoef: int, rng: Random)
      returns (moved: bool, current: Coord, direction: Direction, stack: seq<Coord>,
               ghost init: Grid, ghost carved: seq<(Coord, Coord)>, ghost unvisited: set<Coord>)
      requires Valid() && InGrid(startPoint.x, startPoint.y)
      modifies this`doors, cells, rng
      ensures init == old(Snapshot())
      ensures moved == old(HasCandidate(startPoint))
      ensures !moved ==> carved == [] && CarveShape(init, startPoint, carved) && CarveState(init, Snapshot(), startPoint, carved)
      ensures moved ==> InGrid(current.x, current.y) && Walk(init, Snapshot(), startPoint, carved, stack, current, unvisited) && |carved| == 1
      ensures old(WallsSymmetric()) ==> WallsSymmetric()
      ensures old(RoomsVisited()) ==> RoomsVisited() && doors == old(doors)
    {
      init, unvisited := BeginCarve(startPoint);
      ghost var g := Snapshot();
      WalkBegins(init, startPoint, unvisited);
      stack, carved := [], [];
      moved, current, direction := CarveStep(startPoint, Unknown, straightCoef, rng);
      if moved {
        WalkPush(init, g, startPoint, carved, stack, startPoint, unvisited, current);
        stack := stack + [current];
        carved := carved + [(startPoint, current)];
        unvisited := unvisited - {current};
      }
    }

    /** RemoveWallsWithBacktracker: a randomized depth-first carve from startPoint. The start
        cell is marked visited but never pushed, so the loop ends as soon as the stack empties,
        and when the start cell has nothing to carve into, the first Pop finds the stack empty
        and throws. carved lists the passages in the order they are cut: they form a tree
        rooted at the start whose other cells were unvisited, exactly their walls are opened,
        and exactly their cells and the start are newly visited. */
    method RemoveWallsWithBacktracker(startPoint: Coord, straightCoef: int, rng: Random)
      returns (status: Status, ghost init: Grid, ghost carved: seq<(Coord, Coord)>)
      requires Valid() && InGrid(startPoint.x, startPoint.y)
      modifies this`doors, cells, rng
      ensures init == old(Snapshot())
      ensures status != Completed <==> !old(HasCandidate(startPoint))
      ensures status != Completed ==> status == Threw(InvalidOperation) && carved == []
      ensures status == Completed ==> |carved| > 0
      ensures CarveShape(init, startPoint, carved) && CarveState(init, Snapshot(), startPoint, carved)
      ensures old(WallsSymmetric()) ==> WallsSymmetric()
      ensures old(RoomsVisited()) ==> RoomsVisited() && doors == old(doors)
    {
      ghost var unvisited;
      var moved, current, direction, stack;
      moved, current, direction, stack, init, carved, unvisited := FirstMove(startPoint, straightCoef, rng);
      if !moved {
        return Threw(InvalidOperation), init, carved;
      }
      ghost var g := Snapshot();
      while |stack| > 0
        invariant InGrid(current.x, current.y)
        invariant g == Snapshot() && Walk(init, g, startPoint, carved, stack, current, unvisited)
        invariant |carved| > 0
        invariant old(WallsSymmetric()) ==> WallsSymmetric()
        invariant old(RoomsVisited()) ==> RoomsVisited() && doors == old(doors)
        decreases |unvisited|, |stack|
      {
        var next, nextDirection;
        moved, next, nextDirection := CarveStep(current, direction, straightCoef, rng);
        if moved {
          WalkPush(init, g, startPoint, carved, stack, current, unvisited, next);
          g := CarveStepGrid(g, current, next);
          direction := nextDirection;
          stack := stack + [next];
          carved := carved + [(current, next)];
          SmallerWithout(unvisited, next);
          unvisited := unvisited - {next};
          current := next;
        } else {
          WalkPop(init, g, startPoint, carved, stack, current, unvisited);
          current := stack[|stack| - 1];
          stack := stack[..|stack| - 1];
        }
      }
      status := Completed;
    }

    // ---------------------------------------------------------------- cycles

    /** Neighbouring cells agree on their shared walls exactly when the snapshot is symmetric. */
    lemma SymmetricSnapshot()
      requires Valid()
      ensures WallsSymmetric() <==> GridSymmetric(Snapshot())
    {
      var g := Snapshot();
      if WallsSymmetric() {
        forall p, d: Side | p in g && Step(p, d) in g ensures Wall(g[p], d) == Wall(g[Step(p, d)], Opposite(d)) {
          assert p == Coord(p.x, p.y);
        }
      }
      if GridSymmetric(g) {
        forall x, y | 0 <= x < width - 1 && 0 <= y < height ensures cells[x, y].hasRightWall == cells[x + 1, y].hasLeftWall {
          assert Step(Coord(x, y), Right) == Coord(x + 1, y);
        }
        forall x, y | 0 <= x < width && 0 <= y < height - 1 ensures cells[x, y].hasTopWall == cells[x, y + 1].hasBottomWall {
          assert Step(Coord(x, y), Top) == Coord(x, y + 1);
        }
      }
    }

    /** The MakeCycles test for side d of cell p: the wall is there and the neighbour behind
        it is a corridor cell inside the grid. */
    predicate CanOpen(p: Coord, d: Side)
      requires Valid()
      reads cells
    {
      var q := Step(p, d);
      InGrid(p.x, p.y) && Wall(cells[p.x, p.y], d) && InGrid(q.x, q.y) && !cells[q.x, q.y].room
    }

    /** For a corridor cell, the MakeCycles test on the grid is CycleWall on the snapshot. */
    lemma CanOpenOnSnapshot(p: Coord, d: Side)
      requires Valid() && InGrid(p.x, p.y) && !cells[p.x, p.y].room && (d == Left || d == Bottom)
      ensures CanOpen(p, d) <==> CycleWall(Snapshot(), (p, Step(p, d)))
    {
      var q := Step(p, d);
      assert Facing(p, q) == d;
      assert Snapshot()[p] == cells[p.x, p.y];
      if InGrid(q.x, q.y) {
        assert Snapshot()[q] == cells[q.x, q.y];
      }
    }

    /** For a corridor cell, MakeCycles finds a wall to remove exactly when the snapshot has one. */
    lemma HasCycleWallOnSnapshot(p: Coord)
      requires Valid() && InGrid(p.x, p.y) && !cells[p.x, p.y].room
      ensures HasCycleWall(Snapshot(), p) <==> CanOpen(p, Left) || CanOpen(p, Bottom)
    {
      CanOpenOnSnapshot(p, Left);
      CanOpenOnSnapshot(p, Bottom);
    }

    /** RemoveWall between two neighbouring corridor cells: no door, and the snapshot changes
        as RemoveWallGrid says. */
    method OpenWall(a: Coord, b: Coord)
      requires Valid() && InGrid(a.x, a.y) && InGrid(b.x, b.y) && Adjacent(a, b)
      requires !cells[a.x, a.y].room && !cells[b.x, b.y].room
      modifies this`doors, cells
      ensures Snapshot() == RemoveWallGrid(old(Snapshot()), a, b)
      ensures doors == old(doors)
    {
      ghost var g := Snapshot();
      AdjacentIsDistanceOne(a, b);
      RemoveWall(a, b);
      ghost var h := Snapshot();
      forall p | p in h ensures h[p] == RemoveWallGrid(g, a, b)[p] {
        assert Coord(p.x, p.y) == p;
      }
      assert h == RemoveWallGrid(g, a, b);
    }

    /** The points list of MakeCycles: every corridor cell, each once. */
    method CyclePoints() returns (points: seq<Coord>)
      requires Valid()
      ensures forall p :: p in points <==> InGrid(p.x, p.y) && !cells[p.x, p.y].room
      ensures Distinct(points)
    {
      points := [];
      var x := 0;
      while x < width
        invariant x <= width
        invariant forall p :: p in points <==> InGrid(p.x, p.y) && !cells[p.x, p.y].room && p.x < x
        invariant Distinct(points)
      {
        var y := 0;
        while y < height
          invariant x < width && y <= height
          invariant forall p :: p in points <==> InGrid(p.x, p.y) && !cells[p.x, p.y].room && (p.x < x || (p.x == x && p.y < y))
          invariant Distinct(points)
        {
          if !cells[x, y].room {
            assert Coord(x, y) !in points;
            points := points + [Coord(x, y)];
          }
          y := y + 1;
        }
        x := x + 1;
      }
    }

    /** One pick of MakeCycles: the left wall qualifies when the left neighbour is a corridor
        cell, the bottom wall likewise; with one candidate that wall is removed, with both a
        draw from Range(0, 2) picks the bottom one on 1 and the left one otherwise. */
    method OpenCycleWall(cell: Coord, rng: Random) returns (wall: Option<(Coord, Coord)>)
      requires Valid() && InGrid(cell.x, cell.y) && !cells[cell.x, cell.y].room
      modifies this`doors, cells, rng
      ensures doors == old(doors)
      ensures wall.None? <==> !old(CanOpen(cell, Left)) && !old(CanOpen(cell, Bottom))
      ensures wall.None? <==> !HasCycleWall(old(Snapshot()), cell)
      ensures wall.Some? ==> wall.value.0 == cell && CycleWall(old(Snapshot()), wall.value)
      ensures wall.Some? && !old(CanOpen(cell, Bottom)) ==> wall.value.1 == Step(cell, Left)
      ensures wall.Some? && !old(CanOpen(cell, Left)) ==> wall.value.1 == Step(cell, Bottom)
      ensures Snapshot() == if wall.None? then old(Snapshot()) else RemoveWallGrid(old(Snapshot()), cell, wall.value.1)
    {
      HasCycleWallOnSnapshot(cell);
      var x, y := cell.x, cell.y;
      var i := 0;
      if cells[x, y].hasLeftWall && x > 0 && !cells[x - 1, y].room {
        i := i + 1;
      }
      if cells[x, y].hasBottomWall && y > 0 && !cells[x, y - 1].room {
        i := i + 2;
      }
      if i == 0 {
        return None;
      }
      var target := Coord(x - 1, y);
      if i == 2 {
        target := Coord(x, y - 1);
      } else if i == 3 {
        var r := rng.Range(0, 2);
        if r == 1 {
          target := Coord(x, y - 1);
        }
      }
      ghost var g := Snapshot();
      assert CycleWall(g, (cell, target)) by {
        assert g[cell] == cells[x, y] && g[target] == cells[target.x, target.y];
      }
      OpenWall(cell, target);
      wall := Some((cell, target));
    }

    /** One round of the MakeCycles loop: a cell drawn from the points list gets a wall
        removed by OpenCycleWall, if it has one to remove. */
    method DrawCycleCell(points: seq<Coord>, rng: Random, ghost init: Grid, ghost removed: seq<(Coord, Coord)>)
      returns (cell: Coord, wall: Option<(Coord, Coord)>)
      requires Valid() && |points| > 0 && Snapshot() == OpenAll(init, removed)
      requires forall p :: p in points ==> p in init && !init[p].room
      modifies this`doors, cells, rng
      ensures cell in points && doors == old(doors)
      ensures wall.Some? ==> wall.value.0 == cell && CycleWall(OpenAll(init, removed), wall.value)
      ensures wall.None? <==> !HasCycleWall(OpenAll(init, removed), cell)
      ensures Snapshot() == if wall.Some? then OpenAll(init, removed + [wall.value]) else OpenAll(init, removed)
    {
      var k := rng.Range(0, |points|);
      cell := points[k];
      OpenAllOnlyOpens(init, removed);
      ghost var g := Snapshot();
      assert g[cell] == cells[cell.x, cell.y];
      wall := OpenCycleWall(cell, rng);
      if wall.Some? {
        OpenAllAppend(init, removed, wall.value);
      }
    }

    /** MakeCycles(count): corridor cells are drawn at random, each at most once, and for each
        a closed wall to a corridor neighbour on its left or below is removed, until count walls
        are gone or no cell is left. removed lists the removed walls in order and examined the
        cells drawn; room cells and doors are untouched. */
    method MakeCycles(count: int, rng: Random)
      returns (ghost removed: seq<(Coord, Coord)>, ghost examined: seq<Coord>)
      requires Valid()
      modifies this`doors, cells, rng
      ensures doors == old(doors)
      ensures Snapshot() == OpenAll(old(Snapshot()), removed)
      ensures |removed| <= if count < 0 then 0 else count
      ensures CycleWalls(old(Snapshot()), removed)
      ensures forall k :: 0 <= k < |removed| ==> removed[k].0 in examined
      ensures Distinct(examined) && forall p: Coord :: p in examined ==> InGrid(p.x, p.y) && !old(cells[p.x, p.y].room)
      ensures 0 < count && |removed| < count ==> forall p: Coord :: InGrid(p.x, p.y) && !old(cells[p.x, p.y].room) ==> p in examined
      ensures forall p :: p in examined && p !in Opened(removed) ==> !HasCycleWall(Snapshot(), p)
      ensures 0 < count && |removed| < count ==>
        forall p: Coord :: InGrid(p.x, p.y) && !old(cells[p.x, p.y].room) && p !in Opened(removed) ==> !HasCycleWall(Snapshot(), p)
      ensures OnlyOpenedGrid(old(Snapshot()), Snapshot())
      ensures old(WallsSymmetric()) ==> WallsSymmetric()
    {
      ghost var init := Snapshot();
      SymmetricSnapshot();
      removed, examined := [], [];
      if count == 0 {
        OpenAllOnlyOpens(init, removed);
        return;
      }
      var points := CyclePoints();
      var left := count;
      while left > 0 && |points| > 0
        invariant Snapshot() == OpenAll(init, removed) && doors == old(doors)
        invariant left == count - |removed| && |removed| <= (if count < 0 then 0 else count)
        invariant CycleProgress(init, removed, points, examined)
        decreases |points|
      {
        var cell, wall := DrawCycleCell(points, rng, init, removed);
        ghost var removed' := removed;
        if wall.Some? {
          removed' := removed + [wall.value];
          left := left - 1;
        }
        CycleProgressStep(init, removed, points, examined, cell, wall, removed');
        removed := removed';
        points := RemoveFirst(points, cell);
        examined := examined + [cell];
      }
      OpenAllOnlyOpens(init, removed);
      if GridSymmetric(init) {
        CycleWallsKeepSymmetry(init, removed);
      }
      SymmetricSnapshot();
    }

    // ---------------------------------------------------------------- dead ends

    /** GetExitCount on the grid is the exit count of its snapshot. */
    lemma ExitCountOnSnapshot(x: int, y: int)
      requires Valid() && InGrid(x, y)
      ensures ExitCount(x, y) == GridExitCount(Snapshot(), Coord(x, y))
    {
      ExitCountIsOpenSides(x, y);
      var g := Snapshot();
      forall d: Side ensures SideOpen(x, y, d) == OpenTowards(g, Coord(x, y), d) {
        var q := Step(Coord(x, y), d);
        assert q in g <==> InGrid(q.x, q.y);
        if InGrid(q.x, q.y) {
          assert g[q] == cells[q.x, q.y];
        }
      }
      assert OpenSides(x, y) == OpenSidesIn(g, Coord(x, y));
    }

    /** Walls up side d of p: p's own flag and the neighbour's facing flag are set. */
    method CloseSide(p: Coord, d: Side)
      requires Valid() && InGrid(p.x, p.y) && InGrid(Step(p, d).x, Step(p, d).y)
      modifies cells
      ensures Snapshot() == CloseGrid(old(Snapshot()), p, d)
    {
      ghost var g := Snapshot();
      var q := Step(p, d);
      CloseGridUpdates(g, p, d);
      cells[p.x, p.y] := WithWall(cells[p.x, p.y], d, true);
      WrittenAt(p);
      label first:
      cells[q.x, q.y] := WithWall(cells[q.x, q.y], Opposite(d), true);
      WrittenAt@first(q);
    }

    /** Which neighbours of an in-grid cell p the snapshot holds: those not beyond an edge. */
    lemma NeighboursInSnapshot(p: Coord)
      requires Valid() && InGrid(p.x, p.y)
      ensures Step(p, Bottom) in Snapshot() <==> p.y > 0
      ensures Step(p, Top) in Snapshot() <==> p.y < height - 1
      ensures Step(p, Left) in Snapshot() <==> p.x > 0
      ensures Step(p, Right) in Snapshot() <==> p.x < width - 1
    {
    }

    /** The side RemoveDeadEndCell walls up at p, tested in the order bottom, top, left, right:
        the own flag is clear and there is a neighbour on that side. */
    function DeadEndExit(p: Coord): (r: Option<Side>)
      requires Valid() && InGrid(p.x, p.y)
      reads cells
      ensures r == DeadEndSide(Snapshot(), p)
    {
      var x, y := p.x, p.y;
      assert Snapshot()[p] == cells[x, y] by { assert p == Coord(x, y); }
      NeighboursInSnapshot(p);
      if !cells[x, y].hasBottomWall && y > 0 then Option<Side>.Some(Bottom)
      else if !cells[x, y].hasTopWall && y < height - 1 then Option<Side>.Some(Top)
      else if !cells[x, y].hasLeftWall && x > 0 then Option<Side>.Some(Left)
      else if !cells[x, y].hasRightWall && x < width - 1 then Option<Side>.Some(Right)
      else None
    }

    /** RemoveDeadEndCell(cell): nothing happens unless the cell has exactly one exit, is no
        room cell and is not the start; otherwise the first side among bottom, top, left and
        right whose own flag is clear and that has a neighbour is walled up on both cells, and
        the pass goes on from that neighbour. trail lists the sides walled up, in order. */
    method RemoveDeadEndCell(p: Coord) returns (ghost trail: seq<(Coord, Side)>)
      requires Valid() && InGrid(p.x, p.y)
      modifies cells
      ensures Snapshot() == CloseAll(old(Snapshot()), trail)
      ensures DeadEndTrail(old(Snapshot()), startPoint, p, trail)
      decreases ClearFlags(Snapshot(), width, height)
    {
      ghost var g := Snapshot();
      ExitCountOnSnapshot(p.x, p.y);
      if ExitCount(p.x, p.y) != 1 || cells[p.x, p.y].room || (p.x == startPoint.x && p.y == startPoint.y) {
        assert !Removable(g, startPoint, p);
        return [];
      }
      var side := DeadEndExit(p);
      if side.None? {
        return [];
      }
      var d := side.value;
      ClearFlagsShrink(g, p, d, width, height);
      CloseSide(p, d);
      var rest := RemoveDeadEndCell(Step(p, d));
      trail := [(p, d)] + rest;
      assert Removable(g, startPoint, p);
      DeadEndTrailCons(g, startPoint, p, d, rest);
    }

    /** RemoveDeadEnds: RemoveDeadEndCell on every cell, x in the outer loop and y in the
        inner one. Only walls are added, each at a removable dead end when its turn comes,
        and when neighbouring cells agreed on their walls they still do and no cell is left
        that RemoveDeadEndCell would change. */
    method RemoveDeadEnds() returns (ghost trail: seq<(Coord, Side)>)
      requires Valid()
      modifies cells
      ensures Snapshot() == CloseAll(old(Snapshot()), trail)
      ensures DeadEndSteps(old(Snapshot()), startPoint, trail)
      ensures OnlyClosedGrid(old(Snapshot()), Snapshot())
      ensures old(WallsSymmetric()) ==> WallsSymmetric()
      ensures old(WallsSymmetric()) ==> NoDeadEnds(Snapshot(), startPoint)
    {
      ghost var init := Snapshot();
      SymmetricSnapshot();
      trail := [];
      var x := 0;
      while x < width
        invariant x <= width
        invariant Swept(init, startPoint, trail, Snapshot(), x, 0)
      {
        var y := 0;
        while y < height
          invariant x < width && y <= height
          invariant Swept(init, startPoint, trail, Snapshot(), x, y)
        {
          ghost var g := Snapshot();
          ghost var more := RemoveDeadEndCell(Coord(x, y));
          SweepStep(init, startPoint, trail, g, x, y, more);
          trail := trail + more;
          y := y + 1;
        }
        x := x + 1;
      }
      CloseAllOnlyCloses(init, trail);
      SymmetricSnapshot();
    }

    // ---------------------------------------------------------------- single walls

    /** A write to the one cell at p changes the snapshot at p only. */
    twostate lemma WrittenAt(p: Coord)
      requires Valid() && InGrid(p.x, p.y)
      requires forall a, b :: InGrid(a, b) && (a != p.x || b != p.y) ==> cells[a, b] == old(cells[a, b])
      ensures Snapshot() == old(Snapshot())[p := cells[p.x, p.y]]
    {
      var g, h := old(Snapshot()), Snapshot();
      forall r | r in h ensures h[r] == g[p := cells[p.x, p.y]][r] {
        assert Coord(r.x, r.y) == r;
      }
    }

    /** One cell of the singleWalls pass: the top flag is cleared when the cell above has an
        exit, then the right flag when the cell to the right has one. Clearing the top flag
        does not change the exits of the cell to the right, so both tests see the counts of
        the grid as it was. */
    method ClearSharedFlags(x: int, y: int)
      requires Valid() && 0 <= x < width - 1 && 0 <= y < height - 1
      modifies cells
      ensures cells[x, y] == old(cells[x, y]).(
        hasTopWall := old(cells[x, y].hasTopWall) && old(ExitCount(x, y + 1)) == 0,
        hasRightWall := old(cells[x, y].hasRightWall) && old(ExitCount(x + 1, y)) == 0)
      ensures forall a, b :: InGrid(a, b) && (a != x || b != y) ==> cells[a, b] == old(cells[a, b])
    {
      ghost var right := ExitCount(x + 1, y);
      if ExitCount(x, y + 1) > 0 {
        cells[x, y] := cells[x, y].(hasTopWall := false);
      }
      assert ExitCount(x + 1, y) == right;
      if ExitCount(x + 1, y) > 0 {
        cells[x, y] := cells[x, y].(hasRightWall := false);
      }
    }

    /** ClearSharedFlags seen on the snapshot: the grid becomes ThinGrid of the grid before. */
    method ThinCell(x: int, y: int)
      requires Valid() && 0 <= x < width - 1 && 0 <= y < height - 1
      modifies cells
      ensures Snapshot() == ThinGrid(old(Snapshot()), Coord(x, y))
    {
      ExitCountOnSnapshot(x, y + 1);
      ExitCountOnSnapshot(x + 1, y);
      ClearSharedFlags(x, y);
      WrittenAt(Coord(x, y));
    }

    /** The singleWalls pass of GenerateMaze, x in the outer loop and y in the inner one, over
        every cell but the last column and row. Each such cell keeps its top flag exactly when it
        had one and the cell above had no exit before the pass (the exit count read when the cell
        is handled agrees with it); likewise the right flag and the cell to the right. No other
        flag changes, and the neighbour keeps its own flag, so each shared wall ends up recorded
        on one side only. */
    method SingleWalls()
      requires Valid()
      modifies cells
      ensures Thinned(old(Snapshot()), Snapshot(), width - 1, height - 1, width, height)
    {
      ghost var init := Snapshot();
      var x := 0;
      while x < width - 1
        invariant 0 <= x <= if width == 0 then 0 else width - 1
        invariant Thinned(init, Snapshot(), x, 0, width, height)
      {
        var y := 0;
        while y < height - 1
          invariant 0 <= y <= if height == 0 then 0 else height - 1
          invariant Thinned(init, Snapshot(), x, y, width, height)
        {
          ghost var g := Snapshot();
          ThinCell(x, y);
          ThinStep(init, g, x, y, width, height);
          y := y + 1;
        }
        ThinNextColumn(init, Snapshot(), x, y, width, height);
        x := x + 1;
      }
    }
  
    // ---------------------------------------------------------------- GenerateMaze

    lemma RoomHoldsOnSnapshot(r: RoomRecord)
      requires Valid()
      ensures RoomHolds(r) <==> RoomIn(Snapshot(), r)
    {
      var g := Snapshot();
      if RoomHolds(r) {
        forall p | InRect(p, r.origin, r.size, 0)
          ensures p in g && g[p].room && g[p].roomNumber == r.number && g[p].locked == r.locked
        {
          assert InRect(Coord(p.x, p.y), r.origin, r.size, 0);
        }
      }
      if RoomIn(g, r) {
        forall x, y | InRect(Coord(x, y), r.origin, r.size, 0)
          ensures InGrid(x, y) && cells[x, y].room && cells[x, y].roomNumber == r.number && cells[x, y].locked == r.locked
        {
          assert Coord(x, y) in g;
        }
      }
    }

    lemma OuterWallsOnSnapshot(v: bool)
      requires Valid()
      requires forall x, y, d: Side :: InGrid(x, y) && OnBoundary(Coord(x, y), d) ==> Wall(cells[x, y], d) == v
      ensures OuterWalls(Snapshot(), v)
    {
      var g := Snapshot();
      forall p, d: Side | p in g && Step(p, d) !in g ensures Wall(g[p], d) == v {
        assert p == Coord(p.x, p.y);
      }
    }

    /** A change that keeps everything but the walls of every cell, seen on the snapshot. */
    twostate lemma NonWallsOnSnapshot()
      requires Valid()
      requires forall x, y :: InGrid(x, y) ==> NonWalls(cells[x, y]) == old(NonWalls(cells[x, y]))
      ensures NonWallsKept(old(Snapshot()), Snapshot())
    {
      var g, h := old(Snapshot()), Snapshot();
      forall p | p in g ensures NonWalls(h[p]) == NonWalls(g[p]) {
        assert p == Coord(p.x, p.y);
      }
    }

    /** The passes that follow the carve in GenerateMaze: MakeCycles(cyclesCount), then
        RemoveDeadEnds when removeDeadEnds is set, then the singleWalls pass when singleWalls
        is set. They only move walls between cells of the grid: the flags facing out of the
        grid, the room marks and the visited marks stay as they were, and without the
        singleWalls pass neighbours that agreed on their walls still do. */
    method Reshape(cyclesCount: int, removeDeadEnds: bool, singleWalls: bool, rng: Random)
      requires Valid()
      modifies this`doors, cells, rng
      ensures doors == old(doors)
      ensures OuterKept(old(Snapshot()), Snapshot()) && NonWallsKept(old(Snapshot()), Snapshot())
      ensures !singleWalls && old(WallsSymmetric()) ==> WallsSymmetric()
      ensures removeDeadEnds && !singleWalls && old(WallsSymmetric()) ==>
        NoDeadEnds(Snapshot(), old(startPoint))
    {
      ghost var g0 := Snapshot();
      ghost var removed, examined := MakeCycles(cyclesCount, rng);
      OpenAllKeepsOuter(g0, removed);
      ghost var g1 := Snapshot();
      DeadEndsIfAsked(removeDeadEnds);
      ghost var g2 := Snapshot();
      KeptCompose(g0, g1, g2);
      SingleWallsIfAsked(singleWalls);
      KeptCompose(g0, g2, Snapshot());
    }

    /** `if (removeDeadEnds) RemoveDeadEnds();` */
    method DeadEndsIfAsked(removeDeadEnds: bool)
      requires Valid()
      modifies cells
      ensures OuterKept(old(Snapshot()), Snapshot()) && NonWallsKept(old(Snapshot()), Snapshot())
      ensures old(WallsSymmetric()) ==> WallsSymmetric()
      ensures removeDeadEnds && old(WallsSymmetric()) ==> NoDeadEnds(Snapshot(), startPoint)
    {
      ghost var g := Snapshot();
      if removeDeadEnds {
        ghost var trail := RemoveDeadEnds();
        CloseAllKeepsOuter(g, startPoint, trail);
      }
    }

    /** `if (singleWalls) { ... }`: the singleWalls pass when it is asked for. */
    method SingleWallsIfAsked(singleWalls: bool)
      requires Valid()
      modifies cells
      ensures OuterKept(old(Snapshot()), Snapshot()) && NonWallsKept(old(Snapshot()), Snapshot())
      ensures !singleWalls ==> unchanged(cells)
    {
      ghost var g := Snapshot();
      if singleWalls {
        SingleWalls();
        ThinnedKeepsOuter(g, Snapshot(), width, height);
      }
    }

    /** The part of GenerateMaze before the carve: the start point is recorded and its cell
        marked visited (an IndexOutOfRange when it lies outside the grid), the random rooms
        are placed, and every side facing out of the grid gets createOuterWalls. */
    method PrepareMaze(roomCount: int, lockedCount: int, minimumRoomSize: Coord, maximumRoomSize: Coord,
                       start: Coord, createOuterWalls: bool, rng: Random)
      returns (status: Status, ghost rooms: seq<RoomRecord>, ghost failuresInARow: nat)
      requires Valid()
      requires minimumRoomSize.x <= maximumRoomSize.x + 1 && minimumRoomSize.y <= maximumRoomSize.y + 1
      modifies this`startPoint, this`firstRoomNumber, this`doors, cells, rng
      ensures startPoint == start
      ensures !InGrid(start.x, start.y) ==> status == Threw(IndexOutOfRange) && unchanged(cells) && rooms == []
      ensures status == Completed || status == Threw(IndexOutOfRange)
      ensures RoomsDrawn(rooms, old(firstRoomNumber), lockedCount, start)
      ensures status == Completed ==>
        |rooms| == (if roomCount < 0 then 0 else roomCount) || (|rooms| < roomCount && failuresInARow == TryingPlaceRoomIterations)
      ensures status == Completed ==> InGrid(start.x, start.y) && cells[start.x, start.y].visited
      ensures status == Completed ==> OuterWalls(Snapshot(), createOuterWalls)
      ensures status == Completed ==> forall i :: 0 <= i < |rooms| ==> RoomIn(Snapshot(), rooms[i])
    {
      startPoint := start;
      rooms, failuresInARow := [], 0;
      if !InGrid(start.x, start.y) {
        return Threw(IndexOutOfRange), rooms, failuresInARow;
      }
      SetVisited(start);
      ghost var added;
      status, rooms, failuresInARow, added := AddRandomRooms(roomCount, lockedCount, minimumRoomSize, maximumRoomSize, start, rng);
      if status != Completed {
        return;
      }
      forall i | 0 <= i < |rooms| ensures RoomIn(Snapshot(), rooms[i]) {
        RoomHoldsOnSnapshot(rooms[i]);
      }
      ghost var g := Snapshot();
      label placed:
      SetOuterWalls(createOuterWalls);
      OuterWallsOnSnapshot(createOuterWalls);
      NonWallsOnSnapshot@placed();
      NonWallsKeepRooms(g, Snapshot());
      forall i | 0 <= i < |rooms| ensures RoomIn(Snapshot(), rooms[i]) {
        RoomStays(g, Snapshot(), rooms[i]);
      }
    }

    /** The backtracker seen from GenerateMaze: what it keeps of the grid it starts from. */
    method CarveFrom(start: Coord, straightCoef: int, rng: Random)
      returns (status: Status, ghost walled: Grid, ghost carved: seq<(Coord, Coord)>)
      requires Valid() && InGrid(start.x, start.y)
      modifies this`doors, cells, rng
      ensures walled == old(Snapshot())
      ensures status == Completed || status == Threw(InvalidOperation)
      ensures status == Threw(InvalidOperation) ==> carved == []
      ensures status == Completed ==> OuterKept(walled, Snapshot()) && RoomsKept(walled, Snapshot())
      ensures status == Completed ==> CarveShape(walled, start, carved) && VisitedExactly(walled, Snapshot(), start, carved)
      ensures GridSymmetric(walled) ==> WallsSymmetric()
    {
      walled := Snapshot();
      SymmetricSnapshot();
      ghost var init;
      status, init, carved := RemoveWallsWithBacktracker(start, straightCoef, rng);
      if status == Completed {
        CarveKeepsOuter(walled, Snapshot(), start, carved);
      }
    }

    /** The part of GenerateMaze from the carve on: the backtracker from start, then the
        passes of Reshape. walled is the grid before and carved the passages cut. */
    method CarveAndReshape(start: Coord, straightCoef: int, cyclesCount: int, removeDeadEnds: bool,
                           singleWalls: bool, rng: Random)
      returns (status: Status, ghost walled: Grid, ghost carved: seq<(Coord, Coord)>)
      requires Valid() && InGrid(start.x, start.y) && startPoint == start
      modifies this`doors, cells, rng
      ensures walled == old(Snapshot())
      ensures status == Completed || status == Threw(InvalidOperation)
      ensures status == Threw(InvalidOperation) ==> carved == []
      ensures status == Completed ==> OuterKept(walled, Snapshot()) && RoomsKept(walled, Snapshot())
      ensures status == Completed ==> CarveShape(walled, start, carved)
      ensures status == Completed ==> forall p :: p in walled ==>
        (Snapshot()[p].visited <==> walled[p].visited || p == start || p in Ends(carved))
      ensures status == Completed && removeDeadEnds && !singleWalls && GridSymmetric(walled) ==>
        NoDeadEnds(Snapshot(), start)
    {
      status, walled, carved := CarveFrom(start, straightCoef, rng);
      if status != Completed {
        return;
      }
      ghost var g := Snapshot();
      Reshape(cyclesCount, removeDeadEnds, singleWalls, rng);
      ReshapeAfterCarve(walled, g, Snapshot(), start, carved);
    }

    /** GenerateMaze: the start point is recorded and marked visited, random rooms are placed,
        the sides facing out of the grid are set to createOuterWalls, the backtracker carves
        from the start, MakeCycles(cyclesCount) runs, then RemoveDeadEnds and the singleWalls
        pass when asked for. An exception of any step ends the generation there. walled is
        the grid the backtracker starts from and carved the passages it cuts. On completion
        the outer boundary is as asked, the rooms stand as placed, exactly the start and the
        cells the carve entered have become visited, and, without the singleWalls pass and
        when neighbours agreed on their walls before the carve, no removable dead end is left
        when RemoveDeadEnds ran. */
    method GenerateMaze(roomCount: int, lockedCount: int, minimumRoomSize: Coord, maximumRoomSize: Coord,
                        start: Coord, createOuterWalls: bool, cyclesCount: int, removeDeadEnds: bool,
                        singleWalls: bool, straightCoef: int, rng: Random)
      returns (status: Status, ghost rooms: seq<RoomRecord>, ghost walled: Grid, ghost carved: seq<(Coord, Coord)>)
      requires Valid()
      requires minimumRoomSize.x <= maximumRoomSize.x + 1 && minimumRoomSize.y <= maximumRoomSize.y + 1
      modifies this`startPoint, this`firstRoomNumber, this`doors, cells, rng
      ensures startPoint == start
      ensures !InGrid(start.x, start.y) ==> status == Threw(IndexOutOfRange) && unchanged(cells)
      ensures status == Completed || status == Threw(IndexOutOfRange) || status == Threw(InvalidOperation)
      ensures RoomsDrawn(rooms, old(firstRoomNumber), lockedCount, start)
      ensures status == Threw(InvalidOperation) ==> carved == []
      ensures status == Completed ==> InGrid(start.x, start.y) && SameCells(walled, Snapshot())
      ensures status == Completed ==> OuterWalls(Snapshot(), createOuterWalls)
      ensures status == Completed ==> forall i :: 0 <= i < |rooms| ==> RoomHolds(rooms[i])
      ensures status == Completed ==> CarveShape(walled, start, carved)
      ensures status == Completed ==> forall p :: p in walled ==>
        (Snapshot()[p].visited <==> walled[p].visited || p == start || p in Ends(carved))
      ensures status == Completed && removeDeadEnds && !singleWalls && GridSymmetric(walled) ==>
        NoDeadEnds(Snapshot(), start)
    {
      ghost var failures;
      carved := [];
      status, rooms, failures := PrepareMaze(roomCount, lockedCount, minimumRoomSize, maximumRoomSize, start, createOuterWalls, rng);
      walled := Snapshot();
      if status != Completed {
        return;
      }
      status, walled, carved := CarveAndReshape(start, straightCoef, cyclesCount, removeDeadEnds, singleWalls, rng);
      if status != Completed {
        return;
      }
      OuterWallsStay(walled, Snapshot(), createOuterWalls);
      forall i | 0 <= i < |rooms| ensures RoomHolds(rooms[i]) {
        RoomStays(walled, Snapshot(), rooms[i]);
        RoomHoldsOnSnapshot(rooms[i]);
      }
    }

    // ---------------------------------------------------------------- items

    /** The test every item scan applies to the cell at p: it lies in the grid, has an exit,
        is not in filledPoints, and suits pick. */
    predicate Eligible(pick: Pick, p: Coord)
      requires Valid()
      reads this, cells
    {
      && InGrid(p.x, p.y) && ExitCount(p.x, p.y) > 0 && p !in filledPoints
      && var c := cells[p.x, p.y];
         match pick
         case KeyFor(k, t) => c.roomNumber > k || (c.roomNumber == 0 && t)
         case Enemy => c.roomNumber != -1
         case Treasure(l) => c.roomNumber != -1 && c.locked == l
    }

    ghost predicate AnyEligible(pick: Pick)
      requires Valid()
      reads this, cells
    {
      exists p: Coord :: Eligible(pick, p)
    }

    /** The candidate list of an item scan: the eligible cells, x in the outer loop and y in
        the inner one. */
    method Scan(pick: Pick) returns (pts: seq<Coord>)
      requires Valid()
      ensures forall p :: p in pts <==> Eligible(pick, p)
      ensures ScanOrdered(pts)
      ensures |pts| > 0 <==> AnyEligible(pick)
    {
      pts := [];
      var x := 0;
      while x < width
        invariant 0 <= x <= width
        invariant ScanOrdered(pts)
        invariant forall p :: p in pts <==> Eligible(pick, p) && p.x < x
      {
        pts := ScanColumn(pick, x, pts);
        x := x + 1;
      }
      if |pts| > 0 {
        assert Eligible(pick, pts[0]);
      }
    }

    /** The inner loop of an item scan: appends the eligible cells of column x, bottom to top. */
    method ScanColumn(pick: Pick, x: int, pts: seq<Coord>) returns (r: seq<Coord>)
      requires Valid() && 0 <= x < width
      requires ScanOrdered(pts) && forall p :: p in pts ==> p.x < x
      ensures ScanOrdered(r)
      ensures forall p :: p in r <==> p in pts || (Eligible(pick, p) && p.x == x)
    {
      r := pts;
      var y := 0;
      while y < height
        invariant 0 <= y <= height
        invariant ScanOrdered(r)
        invariant forall p :: p in r ==> Before(p, Coord(x, y))
        invariant forall p :: p in r <==> p in pts || (Eligible(pick, p) && p.x == x && p.y < y)
      {
        if Eligible(pick, Coord(x, y)) {
          r := r + [Coord(x, y)];
        }
        y := y + 1;
      }
    }

    /** A change that keeps every wall flag keeps every exit count. */
    twostate lemma ExitsStay()
      requires Valid()
      requires forall x, y :: InGrid(x, y) ==> SameWalls(old(cells[x, y]), cells[x, y])
      ensures forall x, y :: ExitCount(x, y) == old(ExitCount(x, y))
    {
      forall x, y | InGrid(x, y) ensures ExitCount(x, y) == old(ExitCount(x, y)) {
        assert SameWalls(old(cells[x, y]), cells[x, y]);
        if x > 0 { assert SameWalls(old(cells[x - 1, y]), cells[x - 1, y]); }
        if x < width - 1 { assert SameWalls(old(cells[x + 1, y]), cells[x + 1, y]); }
        if y > 0 { assert SameWalls(old(cells[x, y - 1]), cells[x, y - 1]); }
        if y < height - 1 { assert SameWalls(old(cells[x, y + 1]), cells[x, y + 1]); }
      }
    }

    /** InitKey(doorIndex, canBePlacedInTunnel): draws a cell among the eligible ones (a room
        numbered above the door, or also a corridor when canBePlacedInTunnel), sets its key
        number to the door's and adds it to filledPoints. When the strict scan finds nothing,
        the scan is repeated with corridors allowed. */
    method InitKey(doorIndex: int, canBePlacedInTunnel: bool, rng: Random) returns (placed: bool, ghost key: Coord)
      requires Valid()
      modifies cells, this`filledPoints, rng
      decreases if canBePlacedInTunnel then 0 else 1
      ensures placed <==> old(AnyEligible(KeyFor(doorIndex, canBePlacedInTunnel)))
                          || (!canBePlacedInTunnel && old(AnyEligible(KeyFor(doorIndex, true))))
      ensures placed ==> old(Eligible(KeyFor(doorIndex, canBePlacedInTunnel), key))
                         || (old(!AnyEligible(KeyFor(doorIndex, canBePlacedInTunnel))) && old(Eligible(KeyFor(doorIndex, true), key)))
      ensures placed ==> filledPoints == old(filledPoints) + [key]
      ensures placed ==> forall x, y :: InGrid(x, y) ==>
        cells[x, y] == if Coord(x, y) == key then old(cells[x, y]).(keyNumber := doorIndex) else old(cells[x, y])
      ensures !placed ==> filledPoints == old(filledPoints) && unchanged(cells)
    {
      var emptyPoints := Scan(KeyFor(doorIndex, canBePlacedInTunnel));
      if |emptyPoints| > 0 {
        var k := rng.Range(0, |emptyPoints|);
        var q := emptyPoints[k];
        assert Eligible(KeyFor(doorIndex, canBePlacedInTunnel), q);
        cells[q.x, q.y] := cells[q.x, q.y].(keyNumber := doorIndex);
        filledPoints := filledPoints + [q];
        placed, key := true, q;
      } else if !canBePlacedInTunnel {
        placed, key := InitKey(doorIndex, true, rng);
      } else {
        placed, key := false, Coord(0, 0);
      }
    }

    /** A cell a key scan for door number k accepts, seen on the snapshot. */
    lemma KeyEligibleOnSnapshot(k: int, p: Coord)
      requires Valid() && (Eligible(KeyFor(k, false), p) || Eligible(KeyFor(k, true), p))
      ensures p in Snapshot() && GridExitCount(Snapshot(), p) > 0 && p !in filledPoints
      ensures Snapshot()[p].roomNumber > k || Snapshot()[p].roomNumber == 0
    {
      ExitCountOnSnapshot(p.x, p.y);
      assert Snapshot()[p] == cells[p.x, p.y] by { assert p == Coord(p.x, p.y); }
    }

    /** One turn of InitKeys: the key for door i. */
    method DoorKey(i: nat, ghost keys: seq<Option<Coord>>, ghost g0: Grid, ghost f0: seq<Coord>, rng: Random) returns (ghost next: Option<Coord>)
      requires Valid() && KeysLaid(Snapshot(), filledPoints, doors, keys, g0, f0) && i == |keys| < |doors|
      modifies cells, this`filledPoints, rng
      ensures KeysLaid(Snapshot(), filledPoints, doors, keys + [next], g0, f0)
    {
      ghost var g, filled := Snapshot(), filledPoints;
      ghost var k := doors[i].doorIndex;
      forall p | Eligible(KeyFor(k, false), p) || Eligible(KeyFor(k, true), p)
        ensures p in g && GridExitCount(g, p) > 0 && p !in filled && (g[p].roomNumber > k || g[p].roomNumber == 0)
      {
        KeyEligibleOnSnapshot(k, p);
      }
      next := None;
      if doors[i].doorIndex > 0 {
        var placed, key := InitKey(doors[i].doorIndex, false, rng);
        if placed {
          next := Some(key);
          WrittenAt(key);
          assert Snapshot() == g[key := g[key].(keyNumber := k)];
          KeysLaidStep(g, filled, doors, keys, g0, f0, key);
          return;
        }
      }
      KeysLaidSkip(g, filled, doors, keys, g0, f0);
    }

    /** InitKeys: InitKey(doorIndex, false) for each door in order whose index is positive.
        keys[i] is the cell door i got its key in, if any. The keys land in distinct cells
        that were not claimed before, each with an exit and in a room numbered above its door
        or in a corridor; they are appended to filledPoints in door order, and only key
        numbers change. */
    method InitKeys(rng: Random) returns (ghost keys: seq<Option<Coord>>)
      requires Valid()
      modifies cells, this`filledPoints, rng
      ensures |keys| == |doors|
      ensures forall i :: 0 <= i < |doors| && doors[i].doorIndex <= 0 ==> keys[i].None?
      ensures filledPoints == old(filledPoints) + Placed(keys)
      ensures forall i :: 0 <= i < |keys| && keys[i].Some? ==>
        KeyOn(Snapshot(), keys[i].value, doors[i].doorIndex) && keys[i].value !in old(filledPoints)
      ensures forall i, j :: 0 <= i < j < |keys| && keys[i].Some? && keys[j].Some? ==> keys[i].value != keys[j].value
      ensures forall x, y :: InGrid(x, y) ==> cells[x, y] == old(cells[x, y]).(keyNumber := cells[x, y].keyNumber)
      ensures forall x, y :: InGrid(x, y) && Coord(x, y) !in Placed(keys) ==> cells[x, y] == old(cells[x, y])
    {
      ghost var g0, f0 := Snapshot(), filledPoints;
      keys := [];
      var i := 0;
      while i < |doors|
        invariant i == |keys| && KeysLaid(Snapshot(), filledPoints, doors, keys, g0, f0)
      {
        ghost var next := DoorKey(i, keys, g0, f0, rng);
        keys := keys + [next];
        i := i + 1;
      }
    }

    /** InitEnemies: up to enemyCount distinct cells, drawn one by one from the cells with an
        exit, not numbered -1 and not claimed yet (candidates, in scan order), get an enemy
        and are appended to filledPoints in the order drawn; the loop ends early when no
        candidate is left. */
    method InitEnemies(enemyCount: int, rng: Random) returns (ghost candidates: seq<Coord>, ghost chosen: seq<Coord>)
      requires Valid()
      modifies cells, this`filledPoints, rng
      ensures forall p :: p in candidates <==> old(Eligible(Enemy, p))
      ensures Distinct(candidates) && Distinct(chosen)
      ensures forall p :: p in chosen ==> p in candidates
      ensures |chosen| == if enemyCount <= 0 then 0 else if enemyCount < |candidates| then enemyCount else |candidates|
      ensures filledPoints == old(filledPoints) + chosen
      ensures forall x, y :: InGrid(x, y) ==>
        cells[x, y] == if Coord(x, y) in chosen then old(cells[x, y]).(spawnEnemy := true) else old(cells[x, y])
    {
      var emptyPoints := Scan(Enemy);
      ScanOrderedDistinct(emptyPoints);
      candidates := emptyPoints;
      chosen := SpawnEnemies(emptyPoints, enemyCount, rng);
    }

    /** The loop of InitEnemies: up to count times, a cell drawn from pool gets an enemy,
        leaves pool and joins filledPoints; the loop stops early once pool is empty. */
    method SpawnEnemies(pool: seq<Coord>, count: int, rng: Random) returns (ghost chosen: seq<Coord>)
      requires Valid() && Distinct(pool) && forall p :: p in pool ==> InGrid(p.x, p.y)
      modifies cells, this`filledPoints, rng
      ensures Distinct(chosen) && forall p :: p in chosen ==> p in pool
      ensures |chosen| == if count <= 0 then 0 else if count < |pool| then count else |pool|
      ensures filledPoints == old(filledPoints) + chosen
      ensures forall x, y :: InGrid(x, y) ==>
        cells[x, y] == if Coord(x, y) in chosen then old(cells[x, y]).(spawnEnemy := true) else old(cells[x, y])
    {
      var emptyPoints := pool;
      chosen := [];
      DrawnStart(pool);
      var i := 0;
      while i < count
        invariant i == |chosen| && (i <= count || i == 0)
        invariant Drawn(pool, emptyPoints, chosen)
        invariant filledPoints == old(filledPoints) + chosen
        invariant forall x, y :: InGrid(x, y) ==>
          cells[x, y] == if Coord(x, y) in chosen then old(cells[x, y]).(spawnEnemy := true) else old(cells[x, y])
      {
        if |emptyPoints| == 0 {
          break;
        }
        var k := rng.Range(0, |emptyPoints|);
        var v := emptyPoints[k];
        cells[v.x, v.y] := cells[v.x, v.y].(spawnEnemy := true);
        DrawnStep(pool, emptyPoints, chosen, v);
        emptyPoints := RemoveFirst(emptyPoints, v);
        filledPoints := filledPoints + [v];
        chosen := chosen + [v];
        i := i + 1;
      }
    }

    /** The first loop of InitTreasures: while coins are left and pool is not empty, a cell
        drawn from pool gets a treasure and leaves pool. rest is what is left of pool. */
    method SpawnTreasures(pool: seq<Coord>, coins: int, rng: Random) returns (rest: seq<Coord>, ghost chosen: seq<Coord>)
      requires Valid() && Distinct(pool) && forall p :: p in pool ==> InGrid(p.x, p.y)
      modifies cells, rng
      ensures Distinct(chosen) && Distinct(rest)
      ensures forall p :: p in chosen ==> p in pool
      ensures forall p :: p in rest <==> p in pool && p !in chosen
      ensures |chosen| == if coins <= 0 then 0 else if coins < |pool| then coins else |pool|
      ensures |rest| == |pool| - |chosen|
      ensures forall x, y :: InGrid(x, y) ==>
        cells[x, y] == if Coord(x, y) in chosen then old(cells[x, y]).(spawnTreasure := true) else old(cells[x, y])
    {
      rest, chosen := pool, [];
      DrawnStart(pool);
      var left := coins;
      while left > 0 && |rest| > 0
        invariant Drawn(pool, rest, chosen)
        invariant left == coins - |chosen| && (left >= 0 || chosen == [])
        invariant forall x, y :: InGrid(x, y) ==>
          cells[x, y] == if Coord(x, y) in chosen then old(cells[x, y]).(spawnTreasure := true) else old(cells[x, y])
      {
        var k := rng.Range(0, |rest|);
        var v := rest[k];
        cells[v.x, v.y] := cells[v.x, v.y].(spawnTreasure := true);
        DrawnStep(pool, rest, chosen, v);
        rest := RemoveFirst(rest, v);
        chosen := chosen + [v];
        left := left - 1;
      }
    }

    /** InitTreasures as written. The open cells with an exit, not numbered -1 and not
        claimed (open, in scan order) get treasures as in SpawnTreasures. The second loop,
        meant for the locked cells (locked), bounds its index by the number of locked
        candidates but reads it from what is left of the open list, and never shrinks the
        locked list: so no locked cell ever gets a treasure, and the index runs past the open
        list (ArgumentOutOfRange) whenever the first loop used it up and a locked coin is due.
        filledPoints is not touched. */
    method InitTreasures(coinsInOpenCount: int, coinsInLockedCount: int, rng: Random)
      returns (status: Status, ghost open: seq<Coord>, ghost locked: seq<Coord>,
               ghost openChosen: seq<Coord>, ghost lockedPicks: seq<Coord>, ghost treasures: seq<Coord>)
      requires Valid()
      modifies cells, rng
      ensures forall p :: p in open <==> old(Eligible(Treasure(false), p))
      ensures forall p :: p in locked <==> old(Eligible(Treasure(true), p))
      ensures status == Completed || status == Threw(ArgumentOutOfRange)
      ensures treasures == openChosen + lockedPicks
      ensures Distinct(openChosen) && forall p :: p in openChosen ==> p in open
      ensures |openChosen| == if coinsInOpenCount <= 0 then 0 else if coinsInOpenCount < |open| then coinsInOpenCount else |open|
      ensures forall p :: p in lockedPicks ==> p in open && p !in openChosen
      ensures forall p :: p in treasures ==> p in open && p !in locked
      ensures forall x, y :: InGrid(x, y) ==>
        cells[x, y] == if Coord(x, y) in treasures then old(cells[x, y]).(spawnTreasure := true) else old(cells[x, y])
      ensures |open| <= coinsInOpenCount && coinsInLockedCount > 0 && |locked| > 0 ==> status == Threw(ArgumentOutOfRange)
    {
      var openPoints := Scan(Treasure(false));
      var lockedPoints := Scan(Treasure(true));
      ScanOrderedDistinct(openPoints);
      open, locked := openPoints, lockedPoints;
      openPoints, openChosen := SpawnTreasures(openPoints, coinsInOpenCount, rng);
      status, lockedPicks := SpawnLockedAsWritten(openPoints, lockedPoints, coinsInLockedCount, rng);
      treasures := openChosen + lockedPicks;
    }

    /** The second loop of InitTreasures as written: the index is drawn below the size of
        lockedPoints but read from openPoints (what the first loop left of the open list), and
        the cell read is then removed from lockedPoints, where it never is. */
    method SpawnLockedAsWritten(openPoints: seq<Coord>, lockedPoints: seq<Coord>, coins: int, rng: Random)
      returns (status: Status, ghost picks: seq<Coord>)
      requires Valid() && forall p :: p in openPoints ==> InGrid(p.x, p.y) && p !in lockedPoints
      modifies cells, rng
      ensures status == Completed || status == Threw(ArgumentOutOfRange)
      ensures forall p :: p in picks ==> p in openPoints
      ensures openPoints == [] && coins > 0 && |lockedPoints| > 0 ==> status == Threw(ArgumentOutOfRange)
      ensures forall x, y :: InGrid(x, y) ==>
        cells[x, y] == if Coord(x, y) in picks then old(cells[x, y]).(spawnTreasure := true) else old(cells[x, y])
    {
      status, picks := Completed, [];
      var locked := lockedPoints;
      var left := coins;
      while left > 0 && |locked| > 0
        invariant locked == lockedPoints
        invariant forall p :: p in picks ==> p in openPoints
        invariant openPoints == [] ==> left == coins
        invariant forall x, y :: InGrid(x, y) ==>
          cells[x, y] == if Coord(x, y) in picks then old(cells[x, y]).(spawnTreasure := true) else old(cells[x, y])
      {
        var k := rng.Range(0, |locked|);
        if k >= |openPoints| {
          status := Threw(ArgumentOutOfRange);
          return;
        }
        var v := openPoints[k];
        cells[v.x, v.y] := cells[v.x, v.y].(spawnTreasure := true);
        locked := RemoveFirst(locked, v);
        left := left - 1;
        picks := picks + [v];
      }
    }

    /** InitTreasures as evidently intended: the second loop draws from the locked cells, so
        up to coinsInOpenCount open and up to coinsInLockedCount locked candidates get a
        treasure, each at most once. */
    method InitTreasuresIntended(coinsInOpenCount: int, coinsInLockedCount: int, rng: Random)
      returns (ghost open: seq<Coord>, ghost locked: seq<Coord>, ghost openChosen: seq<Coord>, ghost lockedChosen: seq<Coord>)
      requires Valid()
      modifies cells, rng
      ensures forall p :: p in open <==> old(Eligible(Treasure(false), p))
      ensures forall p :: p in locked <==> old(Eligible(Treasure(true), p))
      ensures Distinct(openChosen) && forall p :: p in openChosen ==> p in open
      ensures Distinct(lockedChosen) && forall p :: p in lockedChosen ==> p in locked
      ensures |openChosen| == if coinsInOpenCount <= 0 then 0 else if coinsInOpenCount < |open| then coinsInOpenCount else |open|
      ensures |lockedChosen| == if coinsInLockedCount <= 0 then 0 else if coinsInLockedCount < |locked| then coinsInLockedCount else |locked|
      ensures forall x, y :: InGrid(x, y) ==>
        cells[x, y] == if Coord(x, y) in openChosen + lockedChosen then old(cells[x, y]).(spawnTreasure := true) else old(cells[x, y])
    {
      var openPoints := Scan(Treasure(false));
      var lockedPoints := Scan(Treasure(true));
      ScanOrderedDistinct(openPoints);
      ScanOrderedDistinct(lockedPoints);
      open, locked := openPoints, lockedPoints;
      var openRest, lockedRest;
      openRest, openChosen := SpawnTreasures(openPoints, coinsInOpenCount, rng);
      lockedRest, lockedChosen := SpawnTreasures(lockedPoints, coinsInLockedCount, rng);
    }
  }
}
