/** The value types of the coarse maze: coordinates, cell records, doors, and the
    wall arithmetic that RemoveWall, PlaceRoom and GetExitCount share. */
module MazeCells {

  datatype Option<T> = None | Some(value: T)

  /** Vector2Int: a cell coordinate (x grows to the right, y grows upwards). */
  datatype Coord = Coord(x: int, y: int)

  /** The Direction enum; Unknown is only the backtracker's "no move yet". */
  datatype Direction = Unknown | Left | Right | Top | Bottom

  /** A side of a cell: a direction other than Unknown. */
  type Side = d: Direction | d != Unknown witness Left

  const AllSides: set<Side> := {Left, Right, Top, Bottom}

  /** MazeCell. SpawnPortal and PortalDirection are never touched by the generator and are left out. */
  datatype MazeCell = MazeCell(
    hasBottomWall: bool,
    hasLeftWall: bool,
    hasRightWall: bool,
    hasTopWall: bool,
    visited: bool,
    room: bool,
    roomNumber: int,
    locked: bool,
    spawnEnemy: bool,
    spawnTreasure: bool,
    keyNumber: int)

  /** A freshly created cell: four walls, nothing else. */
  const NewCell := MazeCell(true, true, true, true, false, false, 0, false, false, false, 0)

  /** MazeDoor; the two cells are identified by their coordinates. */
  datatype MazeDoor = MazeDoor(doorIndex: int, firstCell: Coord, secondCell: Coord, locked: bool)

  /** The .NET exceptions the generator can raise on some inputs. */
  datatype Exception =
    | IndexOutOfRange      // a 2-D array index outside the grid
    | ArgumentOutOfRange   // a List<T> index outside the list
    | InvalidOperation     // Stack<T>.Pop on an empty stack
    | Overflow             // an array allocated with a negative size

  /** How a void operation ended: normally, or by an exception escaping it. */
  datatype Status = Completed | Threw(exception: Exception)

  function Wall(c: MazeCell, d: Side): bool {
    match d
    case Left => c.hasLeftWall
    case Right => c.hasRightWall
    case Top => c.hasTopWall
    case Bottom => c.hasBottomWall
  }

  /** Everything about a cell except its four wall flags. */
  function NonWalls(c: MazeCell): MazeCell {
    c.(hasBottomWall := true, hasLeftWall := true, hasRightWall := true, hasTopWall := true)
  }

  /** The cell with the flag of side d set to present; nothing else changes. */
  function WithWall(c: MazeCell, d: Side, present: bool): (r: MazeCell)
    ensures Wall(r, d) == present
    ensures forall e: Side :: e != d ==> Wall(r, e) == Wall(c, e)
    ensures NonWalls(r) == NonWalls(c)
  {
    match d
    case Left => c.(hasLeftWall := present)
    case Right => c.(hasRightWall := present)
    case Top => c.(hasTopWall := present)
    case Bottom => c.(hasBottomWall := present)
  }

  function Opposite(d: Side): (r: Side)
    ensures r != d
  {
    match d
    case Left => Right
    case Right => Left
    case Top => Bottom
    case Bottom => Top
  }

  /** The neighbouring coordinate on side d. */
  function Step(p: Coord, d: Side): (q: Coord)
    ensures Manhattan(p, q) == 1
  {
    match d
    case Left => Coord(p.x - 1, p.y)
    case Right => Coord(p.x + 1, p.y)
    case Top => Coord(p.x, p.y + 1)
    case Bottom => Coord(p.x, p.y - 1)
  }

  function Abs(n: int): nat { if n < 0 then -n else n }

  function Manhattan(a: Coord, b: Coord): nat {
    Abs(a.x - b.x) + Abs(a.y - b.y)
  }

  /** a and b are grid neighbours: one step apart horizontally or vertically. */
  predicate Adjacent(a: Coord, b: Coord) {
    || (a.x == b.x && (a.y == b.y + 1 || a.y + 1 == b.y))
    || (a.y == b.y && (a.x == b.x + 1 || a.x + 1 == b.x))
  }

  lemma AdjacentIsDistanceOne(a: Coord, b: Coord)
    ensures Adjacent(a, b) <==> Manhattan(a, b) == 1
  {
  }

  /** The side of a whose flag RemoveWall(a, b) clears; b's flag on the opposite side is
      cleared with it. When a == b this is Top, and RemoveWall clears a's Top and Bottom. */
  function Facing(a: Coord, b: Coord): Side {
    if a.x == b.x then (if a.y > b.y then Bottom else Top)
    else if a.x > b.x then Left
    else Right
  }

  /** For grid neighbours, Facing names the shared wall from both sides. */
  lemma FacingNeighbour(a: Coord, b: Coord)
    requires Manhattan(a, b) == 1
    ensures Step(a, Facing(a, b)) == b
    ensures Facing(b, a) == Opposite(Facing(a, b))
  {
  }

  /** The door RemoveWall(a, b) records when a room is involved: locked if either side is,
      numbered by b's room, or by a's when b's number is 0. */
  function MakeDoor(a: Coord, ca: MazeCell, b: Coord, cb: MazeCell): MazeDoor {
    MazeDoor(if cb.roomNumber == 0 then ca.roomNumber else cb.roomNumber, a, b, ca.locked || cb.locked)
  }

  /** A door between a room and a corridor (room number 0) carries the room's number,
      whichever argument the room cell is; between two rooms the second argument wins. */
  lemma DoorIndexOfRoom(a: Coord, ca: MazeCell, b: Coord, cb: MazeCell)
    ensures ca.roomNumber == 0 ==> MakeDoor(a, ca, b, cb).doorIndex == cb.roomNumber
    ensures cb.roomNumber == 0 ==> MakeDoor(a, ca, b, cb).doorIndex == ca.roomNumber
    ensures cb.roomNumber != 0 ==> MakeDoor(a, ca, b, cb).doorIndex == cb.roomNumber
    ensures MakeDoor(a, ca, b, cb).locked <==> ca.locked || cb.locked
    ensures MakeDoor(a, ca, b, cb).firstCell == a && MakeDoor(a, ca, b, cb).secondCell == b
  {
  }

  /** The door depends only on what RemoveWall leaves alone: the cells' room marks, numbers
      and locks. */
  lemma MakeDoorIgnoresWalls(a: Coord, ca: MazeCell, ca': MazeCell, b: Coord, cb: MazeCell, cb': MazeCell)
    requires NonWalls(ca) == NonWalls(ca') && NonWalls(cb) == NonWalls(cb')
    ensures MakeDoor(a, ca, b, cb) == MakeDoor(a, ca', b, cb')
    ensures ca.room == ca'.room && cb.room == cb'.room
  {
    assert ca.roomNumber == NonWalls(ca).roomNumber && ca'.roomNumber == NonWalls(ca').roomNumber;
    assert cb.roomNumber == NonWalls(cb).roomNumber && cb'.roomNumber == NonWalls(cb').roomNumber;
  }

  /** The value of the cell at p after RemoveWall(a, b) when it was c before. */
  function AfterRemoveWall(a: Coord, b: Coord, p: Coord, c: MazeCell): MazeCell {
    if Manhattan(a, b) > 1 then c
    else
      var c1 := if p == a then WithWall(c, Facing(a, b), false) else c;
      if p == b then WithWall(c1, Opposite(Facing(a, b)), false) else c1
  }

  /** after differs from before only by walls that were removed. */
  predicate OnlyOpened(before: MazeCell, after: MazeCell) {
    && NonWalls(after) == NonWalls(before)
    && (after.hasLeftWall ==> before.hasLeftWall)
    && (after.hasRightWall ==> before.hasRightWall)
    && (after.hasTopWall ==> before.hasTopWall)
    && (after.hasBottomWall ==> before.hasBottomWall)
  }

  /** after differs from before only by walls that were put back. */
  predicate OnlyClosed(before: MazeCell, after: MazeCell) {
    && NonWalls(after) == NonWalls(before)
    && (before.hasLeftWall ==> after.hasLeftWall)
    && (before.hasRightWall ==> after.hasRightWall)
    && (before.hasTopWall ==> after.hasTopWall)
    && (before.hasBottomWall ==> after.hasBottomWall)
  }

  lemma WithWallOpens(c: MazeCell, d: Side)
    ensures OnlyOpened(c, WithWall(c, d, false))
  {
    match d
    case Left =>
    case Right =>
    case Top =>
    case Bottom =>
  }

  lemma WithWallCloses(c: MazeCell, d: Side)
    ensures OnlyClosed(c, WithWall(c, d, true))
  {
    match d
    case Left =>
    case Right =>
    case Top =>
    case Bottom =>
  }

  /** RemoveWall only ever removes walls, and leaves everything else about a cell alone. */
  lemma RemoveWallOnlyOpens(a: Coord, b: Coord, p: Coord, c: MazeCell)
    ensures OnlyOpened(c, AfterRemoveWall(a, b, p, c))
  {
    if Manhattan(a, b) <= 1 {
      var c1 := if p == a then WithWall(c, Facing(a, b), false) else c;
      if p == a { WithWallOpens(c, Facing(a, b)); }
      if p == b { WithWallOpens(c1, Opposite(Facing(a, b))); }
    }
  }

  /** A wall removal that may not happen only ever removes walls as well. */
  lemma OptionalRemoveWallOnlyOpens(w: Option<(Coord, Coord)>, p: Coord, c: MazeCell)
    ensures OnlyOpened(c, if w.None? then c else AfterRemoveWall(w.value.0, w.value.1, p, c))
  {
    if w.Some? {
      RemoveWallOnlyOpens(w.value.0, w.value.1, p, c);
    }
  }

  /** For two distinct grid neighbours RemoveWall clears exactly the two facing flags,
      one in each cell, and no other flag. */
  lemma RemoveWallClearsFacingPair(a: Coord, b: Coord, p: Coord, c: MazeCell, d: Side)
    requires Manhattan(a, b) == 1
    ensures Wall(AfterRemoveWall(a, b, p, c), d) ==
      (Wall(c, d) && !(p == a && d == Facing(a, b)) && !(p == b && d == Facing(b, a)))
  {
    FacingNeighbour(a, b);
    var f := Facing(a, b);
    var c1 := if p == a then WithWall(c, f, false) else c;
    assert Wall(c1, d) == (Wall(c, d) && !(p == a && d == f));
    if p == b {
      assert AfterRemoveWall(a, b, p, c) == WithWall(c1, Opposite(f), false);
    } else {
      assert AfterRemoveWall(a, b, p, c) == c1;
    }
  }

  /** InRect(p, origin, size, m): p lies in the size.x-by-size.y rectangle at origin,
      widened by a margin of m cells on every side. */
  predicate InRect(p: Coord, origin: Coord, size: Coord, m: int) {
    && origin.x - m <= p.x < origin.x + size.x + m
    && origin.y - m <= p.y < origin.y + size.y + m
  }

  /** A cell of the rectangle that lies on its outer edge. */
  predicate OnRectEdge(p: Coord, origin: Coord, size: Coord) {
    p.x == origin.x || p.y == origin.y || p.x == origin.x + size.x - 1 || p.y == origin.y + size.y - 1
  }

  /** The value PlaceRoom writes into cell p of the room at origin. */
  function RoomCell(c: MazeCell, p: Coord, origin: Coord, size: Coord, roomNumber: int, locked: bool): MazeCell {
    c.(room := true, visited := true,
       hasBottomWall := p.y == origin.y,
       hasTopWall := p.y == origin.y + size.y - 1,
       hasLeftWall := p.x == origin.x,
       hasRightWall := p.x == origin.x + size.x - 1,
       roomNumber := roomNumber, locked := locked)
  }

  /** A room cell has a wall on a side exactly when the neighbour on that side is outside
      the room, so the room is walled only along its outer boundary. */
  lemma RoomCellWalls(c: MazeCell, p: Coord, origin: Coord, size: Coord, n: int, l: bool, d: Side)
    requires InRect(p, origin, size, 0)
    ensures Wall(RoomCell(c, p, origin, size, n, l), d) <==> !InRect(Step(p, d), origin, size, 0)
  {
  }

  /** Two neighbouring cells of the same room agree on their shared wall (it is absent). */
  lemma RoomCellsAgree(c: MazeCell, e: MazeCell, p: Coord, origin: Coord, size: Coord, n: int, l: bool, d: Side)
    requires InRect(p, origin, size, 0) && InRect(Step(p, d), origin, size, 0)
    ensures !Wall(RoomCell(c, p, origin, size, n, l), d)
    ensures Wall(RoomCell(c, p, origin, size, n, l), d) == Wall(RoomCell(e, Step(p, d), origin, size, n, l), Opposite(d))
  {
    RoomCellWalls(c, p, origin, size, n, l, d);
    RoomCellWalls(e, Step(p, d), origin, size, n, l, Opposite(d));
  }
}
