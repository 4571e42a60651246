/** The fine walking grid (MazeGrid.cs): every coarse maze cell becomes a scale × scale block
    of grid cells, walkable or not according to the coarse cell's walls. */
module MazeGrids {
  import opened MazeCells
  import opened Mazes

  /** GridCell: the room number of the coarse cell it belongs to, whether one can walk on
      it, and whether it is a camera slot. */
  datatype GridCell = GridCell(roomNumber: int, walkable: bool, cameraSlot: bool)

  /** Whether the fine cell at (ix, iy) inside a block of the given scale lies on the block's
      edge facing side d. */
  predicate OnSide(ix: int, iy: int, scale: int, d: Side) {
    match d
    case Left => ix == 0
    case Right => ix == scale - 1
    case Top => iy == scale - 1
    case Bottom => iy == 0
  }

  /** All four walls present: the coarse cell cannot be entered. */
  predicate Closed(c: MazeCell) {
    c.hasLeftWall && c.hasRightWall && c.hasTopWall && c.hasBottomWall
  }

  /** The per-cell decision of CreateGrid for the fine cell (ix, iy) of the block of the
      coarse cell c. */
  function FineCell(c: MazeCell, ix: int, iy: int, scale: int): GridCell {
    var left, right := ix == 0, ix == scale - 1;
    var top, bottom := iy == scale - 1, iy == 0;
    var walkable :=
      if Closed(c) then false
      else if left || right || top || bottom then
        if (left && !c.hasLeftWall) || (right && !c.hasRightWall) then
          if top then !c.hasTopWall
          else if bottom then !c.hasBottomWall
          else true
        else if (top && !c.hasTopWall) || (bottom && !c.hasBottomWall) then
          if left then !c.hasLeftWall
          else if right then !c.hasRightWall
          else true
        else false
      else true;
    var cameraSlot :=
      if Closed(c) then false
      else if left || right || top || bottom then
        || (left && top && c.hasLeftWall && c.hasTopWall && !c.hasBottomWall && !c.hasRightWall)
        || (left && bottom && c.hasLeftWall && c.hasBottomWall && !c.hasTopWall && !c.hasRightWall)
        || (right && top && c.hasRightWall && c.hasTopWall && !c.hasBottomWall && !c.hasLeftWall)
        || (right && bottom && c.hasRightWall && c.hasBottomWall && !c.hasTopWall && !c.hasLeftWall)
      else false;
    GridCell(c.roomNumber, walkable, cameraSlot)
  }

  lemma {:induction false} MulAtLeast(d: int, s: int)
    requires d >= 1 && s >= 0
    ensures d * s >= s
  {
    if d > 1 {
      MulAtLeast(d - 1, s);
      assert d * s == (d - 1) * s + s;
    }
  }

  /** Euclidean division recovers the block and the offset of a fine index. */
  lemma DivModOfFine(coarse: int, inner: int, scale: int)
    requires 0 <= inner < scale
    ensures (coarse * scale + inner) / scale == coarse && (coarse * scale + inner) % scale == inner
  {
    var r := coarse * scale + inner;
    var q, m := r / scale, r % scale;
    assert 0 <= m < scale;
    assert (coarse - q) * scale == m - inner;
    if coarse > q {
      MulAtLeast(coarse - q, scale);
    } else if coarse < q {
      MulAtLeast(q - coarse, scale);
    }
  }

  lemma ScaleBound(coarse: int, inner: int, scale: int, count: int)
    requires 0 <= coarse < count && 0 <= inner < scale
    ensures 0 <= coarse * scale + inner < count * scale
  {
    if coarse > 0 {
      MulAtLeast(coarse, scale);
    }
    MulAtLeast(count - coarse, scale);
    assert count * scale == coarse * scale + (count - coarse) * scale;
  }

  /** The fine index x * scaleCoef + inner_x that CreateGrid writes for offset inner in the
      block of coarse index coarse: inside the fine grid, and the block and offset can be
      read back from it, so no two (coarse, inner) pairs share a fine index. */
  function FineIndex(coarse: int, inner: int, scale: int, count: int): (r: int)
    requires 0 <= coarse < count && 0 <= inner < scale
    ensures 0 <= r < count * scale
    ensures r / scale == coarse && r % scale == inner
  {
    DivModOfFine(coarse, inner, scale);
    ScaleBound(coarse, inner, scale, count);
    coarse * scale + inner
  }

  /** Every fine index is the fine index of some block and offset. */
  lemma FineIndexCovers(f: int, scale: int, count: int)
    requires scale >= 0 && count >= 0 && 0 <= f < count * scale
    ensures scale > 0 && 0 <= f / scale < count && 0 <= f % scale < scale
    ensures FineIndex(f / scale, f % scale, scale, count) == f
  {
    assert scale != 0;
    var q := f / scale;
    assert q * scale + f % scale == f;
  }

  // ---------------------------------------------------------------- what the rule promises

  /** A fine cell inherits the room number of its coarse cell. */
  lemma InheritsRoomNumber(c: MazeCell, ix: int, iy: int, scale: int)
    ensures FineCell(c, ix, iy, scale).roomNumber == c.roomNumber
  {
  }

  /** No fine cell of a coarse cell with all four walls is walkable or a camera slot. */
  lemma ClosedBlocked(c: MazeCell, ix: int, iy: int, scale: int)
    requires Closed(c)
    ensures !FineCell(c, ix, iy, scale).walkable && !FineCell(c, ix, iy, scale).cameraSlot
  {
  }

  /** Off the block's edges every fine cell of an open coarse cell is walkable and no camera
      slot. */
  lemma InteriorWalkable(c: MazeCell, ix: int, iy: int, scale: int)
    requires !Closed(c) && 0 < ix < scale - 1 && 0 < iy < scale - 1
    ensures FineCell(c, ix, iy, scale).walkable && !FineCell(c, ix, iy, scale).cameraSlot
  {
  }

  /** On exactly one edge of a block at least two cells wide, a fine cell is walkable just
      when the coarse wall on that edge is absent. */
  lemma EdgeWalkable(c: MazeCell, ix: int, iy: int, scale: int, d: Side)
    requires scale >= 2 && 0 <= ix < scale && 0 <= iy < scale
    requires OnSide(ix, iy, scale, d)
    requires forall e: Side :: e != d ==> !OnSide(ix, iy, scale, e)
    ensures FineCell(c, ix, iy, scale).walkable <==> !Wall(c, d)
  {
    assert !OnSide(ix, iy, scale, Opposite(d));
    match d
    case Left => assert !OnSide(ix, iy, scale, Top) && !OnSide(ix, iy, scale, Bottom);
    case Right => assert !OnSide(ix, iy, scale, Top) && !OnSide(ix, iy, scale, Bottom);
    case Top => assert !OnSide(ix, iy, scale, Left) && !OnSide(ix, iy, scale, Right);
    case Bottom => assert !OnSide(ix, iy, scale, Left) && !OnSide(ix, iy, scale, Right);
  }

  /** In the corner of a block at least two cells wide where the sides h and v meet, a fine
      cell is walkable just when both coarse walls h and v are absent. */
  lemma CornerWalkable(c: MazeCell, ix: int, iy: int, scale: int, h: Side, v: Side)
    requires scale >= 2 && 0 <= ix < scale && 0 <= iy < scale
    requires (h == Left || h == Right) && (v == Top || v == Bottom)
    requires OnSide(ix, iy, scale, h) && OnSide(ix, iy, scale, v)
    ensures FineCell(c, ix, iy, scale).walkable <==> !Wall(c, h) && !Wall(c, v)
  {
    assert !OnSide(ix, iy, scale, Opposite(h)) && !OnSide(ix, iy, scale, Opposite(v));
  }

  /** A fine cell is a camera slot just when it sits in a block corner whose two walls are
      present while the two opposite walls are absent. */
  lemma CameraSlotCorner(c: MazeCell, ix: int, iy: int, scale: int)
    ensures FineCell(c, ix, iy, scale).cameraSlot <==>
      exists h: Side, v: Side :: (h == Left || h == Right) && (v == Top || v == Bottom)
        && OnSide(ix, iy, scale, h) && OnSide(ix, iy, scale, v)
        && Wall(c, h) && Wall(c, v) && !Wall(c, Opposite(h)) && !Wall(c, Opposite(v))
  {
    var r := FineCell(c, ix, iy, scale).cameraSlot;
    var found := exists h: Side, v: Side ::
      (h == Left || h == Right) && (v == Top || v == Bottom)
      && OnSide(ix, iy, scale, h) && OnSide(ix, iy, scale, v)
      && Wall(c, h) && Wall(c, v) && !Wall(c, Opposite(h)) && !Wall(c, Opposite(v));
    if r {
      if ix == 0 && iy == scale - 1 && c.hasLeftWall && c.hasTopWall && !c.hasBottomWall && !c.hasRightWall {
        assert OnSide(ix, iy, scale, Left) && OnSide(ix, iy, scale, Top);
      } else if ix == 0 && iy == 0 && c.hasLeftWall && c.hasBottomWall && !c.hasTopWall && !c.hasRightWall {
        assert OnSide(ix, iy, scale, Left) && OnSide(ix, iy, scale, Bottom);
      } else if ix == scale - 1 && iy == scale - 1 && c.hasRightWall && c.hasTopWall && !c.hasBottomWall && !c.hasLeftWall {
        assert OnSide(ix, iy, scale, Right) && OnSide(ix, iy, scale, Top);
      } else {
        assert OnSide(ix, iy, scale, Right) && OnSide(ix, iy, scale, Bottom);
      }
    }
    if found {
      var h: Side, v: Side :| (h == Left || h == Right) && (v == Top || v == Bottom)
        && OnSide(ix, iy, scale, h) && OnSide(ix, iy, scale, v)
        && Wall(c, h) && Wall(c, v) && !Wall(c, Opposite(h)) && !Wall(c, Opposite(v));
      assert !Closed(c);
    }
  }

  // ---------------------------------------------------------------- the grid

  class MazeGrid {
    const width: int
    const height: int
    const cells: array2<GridCell>
    /** _cameraSlots: nothing ever appends to it. */
    var cameraSlots: seq<GridCell>

    ghost predicate Valid()
      reads this
    {
      cells.Length0 == width && cells.Length1 == height && cameraSlots == []
    }

    /** The fine cells of the blocks of coarse columns below x, and of coarse column x below
        row y, hold the decision of FineCell. */
    ghost predicate BlocksDone(maze: Maze, scale: int, x: int, y: int)
      requires maze.Valid() && scale >= 0
      requires cells.Length0 == maze.width * scale && cells.Length1 == maze.height * scale
      reads maze.cells, cells
    {
      forall x', y', ix, iy ::
        0 <= x' < maze.width && 0 <= y' < maze.height && 0 <= ix < scale && 0 <= iy < scale
        && (x' < x || (x' == x && y' < y)) ==>
        cells[FineIndex(x', ix, scale, maze.width), FineIndex(y', iy, scale, maze.height)]
          == FineCell(maze.cells[x', y'], ix, iy, scale)
    }

    /** MazeGrid.CreateGrid, up to the door loop: the grid is scaleCoef times as wide and as
        high as the maze, and the fine cell (x * scaleCoef + inner_x, y * scaleCoef + inner_y)
        holds FineCell of the coarse cell (x, y) at offset (inner_x, inner_y). */
    constructor CreateGrid(maze: Maze, scaleCoef: int)
      requires maze.Valid() && scaleCoef >= 0
      ensures Valid() && fresh(cells)
      ensures width == maze.width * scaleCoef && height == maze.height * scaleCoef
      ensures forall x, y, ix, iy ::
        0 <= x < maze.width && 0 <= y < maze.height && 0 <= ix < scaleCoef && 0 <= iy < scaleCoef ==>
        cells[FineIndex(x, ix, scaleCoef, maze.width), FineIndex(y, iy, scaleCoef, maze.height)]
          == FineCell(maze.cells[x, y], ix, iy, scaleCoef)
    {
      width := maze.width * scaleCoef;
      height := maze.height * scaleCoef;
      cells := new GridCell[maze.width * scaleCoef, maze.height * scaleCoef];
      cameraSlots := [];
      new;
      var x := 0;
      while x < maze.width
        invariant 0 <= x <= maze.width && Valid()
        invariant BlocksDone(maze, scaleCoef, x, 0)
      {
        var y := 0;
        while y < maze.height
          invariant 0 <= y <= maze.height && Valid()
          invariant BlocksDone(maze, scaleCoef, x, y)
        {
          FillBlock(maze, scaleCoef, x, y);
          y := y + 1;
        }
        x := x + 1;
      }
    }

    /** The two inner loops of CreateGrid for the coarse cell (x, y). */
    method FillBlock(maze: Maze, scale: int, x: int, y: int)
      requires maze.Valid() && scale >= 0 && 0 <= x < maze.width && 0 <= y < maze.height
      requires cells.Length0 == maze.width * scale && cells.Length1 == maze.height * scale
      requires BlocksDone(maze, scale, x, y)
      modifies cells
      ensures BlocksDone(maze, scale, x, y + 1)
    {
      var ix := 0;
      while ix < scale
        invariant 0 <= ix <= scale
        invariant BlocksDone(maze, scale, x, y)
        invariant forall i, j :: 0 <= i < ix && 0 <= j < scale ==>
          cells[FineIndex(x, i, scale, maze.width), FineIndex(y, j, scale, maze.height)]
            == FineCell(maze.cells[x, y], i, j, scale)
      {
        var iy := 0;
        while iy < scale
          invariant 0 <= iy <= scale
          invariant BlocksDone(maze, scale, x, y)
          invariant forall i, j :: (0 <= i < ix && 0 <= j < scale) || (i == ix && 0 <= j < iy) ==>
            cells[FineIndex(x, i, scale, maze.width), FineIndex(y, j, scale, maze.height)]
              == FineCell(maze.cells[x, y], i, j, scale)
        {
          var cell := FineCell(maze.cells[x, y], ix, iy, scale);
          cells[FineIndex(x, ix, scale, maze.width), FineIndex(y, iy, scale, maze.height)] := cell;
          iy := iy + 1;
        }
        ix := ix + 1;
      }
    }

    /** The bounds-checked indexer this[x, y]: no cell (null) outside the grid. */
    function Cell(x: int, y: int): (r: Option<GridCell>)
      requires Valid()
      reads this, cells
      ensures r.Some? <==> 0 <= x < width && 0 <= y < height
      ensures r.Some? ==> r.value == cells[x, y]
    {
      if x < 0 || y < 0 || x >= width || y >= height then None else Some(cells[x, y])
    }

    /** CameraSlotsCount: the length of the camera slot list. */
    function CameraSlotsCount(): (r: int)
      reads this
      ensures r == |cameraSlots|
    {
      |cameraSlots|
    }

    /** CameraSlot(index): null for an index outside the camera slot list. */
    function CameraSlot(index: int): (r: Option<GridCell>)
      reads this
      ensures r.Some? ==> 0 <= index < CameraSlotsCount() && r.value in cameraSlots
    {
      if index < 0 || index >= |cameraSlots| then None else Some(cameraSlots[index])
    }
  }

  /** As nothing ever fills the camera slot list, CameraSlotsCount is 0 and CameraSlot is
      null for every index. */
  lemma NoCameraSlots(grid: MazeGrid)
    requires grid.Valid()
    ensures grid.CameraSlotsCount() == 0 && forall i :: grid.CameraSlot(i) == None
  {
  }

  /** What CreateGrid leaves in the fine cell (fx, fy): FineCell of the coarse cell
      (fx / scale, fy / scale) at offset (fx % scale, fy % scale); every fine cell of the grid
      is one of those CreateGrid wrote. */
  lemma CreatedCell(grid: MazeGrid, maze: Maze, scale: int, fx: int, fy: int)
    requires maze.Valid() && scale >= 0 && grid.Valid()
    requires grid.width == maze.width * scale && grid.height == maze.height * scale
    requires forall x, y, ix, iy ::
        0 <= x < maze.width && 0 <= y < maze.height && 0 <= ix < scale && 0 <= iy < scale ==>
        grid.cells[FineIndex(x, ix, scale, maze.width), FineIndex(y, iy, scale, maze.height)]
          == FineCell(maze.cells[x, y], ix, iy, scale)
    requires grid.Cell(fx, fy).Some?
    ensures scale > 0
    ensures grid.Cell(fx, fy) == Some(FineCell(maze.cells[fx / scale, fy / scale], fx % scale, fy % scale, scale))
  {
    FineIndexCovers(fx, scale, maze.width);
    FineIndexCovers(fy, scale, maze.height);
  }
}
