/**
 * The 2D view of the maze (Maze.SetupViewable2D, Maze.EntranceViewable and Maze.ExitViewable).
 *
 * The view is a grid of C# ints with one position per cell interior and one per bound between
 * two cells: cell (i, j) of the viewed layer sits at (2i + 1, 2j + 1), its bound towards the next
 * cell along the grid's X axis at (2i + 2, 2j + 1) and along Y at (2i + 1, 2j + 2). Positions with
 * both indices even are the corners between bounds, and row 0 and column 0 are the outer walls
 * in front of the first cells.
 */
module Viewable {
  import opened Bits
  import opened Classification
  import opened Randomize

  /** `Maze.CELL_SCALE`: grid positions per cell interior. */
  const CellSpan: int := 1
  /** `Maze.BOUND_SCALE`: grid positions per bound. */
  const BoundSpan: int := 1
  /** `Maze.MAX_DIMENSIONS`: a cell's bounds fit in a `ushort`. */
  const MaxDimensions: int := 16

  /**
   * What the view shows: the size of each dimension, the bound bitmask of every cell
   * (`worldBounds`), the dimensions shown along the grid's X and Y axes and as the third viewed
   * dimension Z (`World.DimensionX/Y/Z`), and the cell the player is in (`World.CenterCell`),
   * which fixes the coordinate of every dimension that is not shown.
   */
  datatype Layer = Layer(dInfo: seq<int>, bounds: map<seq<int>, bv16>, dx: int, dy: int, dz: int,
                         center: seq<int>)
  {
    ghost predicate Valid()
    {
      1 <= |dInfo| <= MaxDimensions && |center| == |dInfo| &&
      (forall d :: 0 <= d < |dInfo| ==> dInfo[d] >= 1) &&
      0 <= dx < |dInfo| && 0 <= dy < |dInfo| && 0 <= dz < |dInfo| && dx != dy &&
      (forall d :: 0 <= d < |dInfo| && d != dx && d != dy ==> 0 <= center[d] < dInfo[d]) &&
      (forall c :: InGrid(c, dInfo) ==> c in bounds)
    }

    /** Width of the grid: a wall, then a cell and a bound per cell along X. */
    function ViewX(): int
      requires Valid()
    {
      BoundSpan + dInfo[dx] * (BoundSpan + CellSpan)
    }

    /** Height of the grid. */
    function ViewY(): int
      requires Valid()
    {
      BoundSpan + dInfo[dy] * (BoundSpan + CellSpan)
    }

    /** The cell of the layer shown at column `i` and row `j`. */
    function CellAt(i: int, j: int): (c: seq<int>)
      requires Valid()
      ensures |c| == |dInfo| && c[dx] == i && c[dy] == j
      ensures forall d :: 0 <= d < |dInfo| && d != dx && d != dy ==> c[d] == center[d]
    {
      center[dx := i][dy := j]
    }

    /** The bound of cell `c` towards the next cell in dimension `d` is open (its bit is 0). */
    predicate OpenTowards(c: seq<int>, d: int)
      requires Valid() && InGrid(c, dInfo) && 0 <= d < |dInfo|
    {
      BoundBit(bounds[c], d) == 0
    }

    /** Cell `c` has a path to the next cell in the Z dimension. */
    predicate Ascends(c: seq<int>)
      requires Valid() && InGrid(c, dInfo)
    {
      OpenTowards(c, dz)
    }

    /** Cell `c` has a path to the previous cell in the Z dimension (whose bound is open towards it). */
    predicate Descends(c: seq<int>)
      requires Valid() && InGrid(c, dInfo)
    {
      c[dz] != 0 && OpenTowards(c[dz := c[dz] - 1], dz)
    }

    /**
     * `EntranceViewable` / `ExitViewable`: an opening is in the layer when it agrees with the
     * player's cell in every dimension that is not shown along X or Y.
     */
    predicate Shows(o: seq<int>)
      requires Valid() && |o| == |dInfo|
    {
      forall d :: 0 <= d < |dInfo| && d != dx && d != dy ==> o[d] == center[d]
    }
  }

  /** The `_xID` of a grid index: 0 on a cell interior, 1 on a bound (a floored remainder). */
  function GridId(p: int): int
  {
    (p - BoundSpan) % (BoundSpan + CellSpan)
  }

  /** The cell column (or row) a grid index belongs to, floored: -1 for the outer wall. */
  function CellIndex(p: int): int
  {
    (p - BoundSpan) / (BoundSpan + CellSpan)
  }

  /** Grid position of the interior of the cell with index `i`. */
  function Centre(i: int): int
  {
    BoundSpan + i * (BoundSpan + CellSpan)
  }

  /**
   * The value a position starts with: an interior where both IDs are 0, otherwise a bound,
   * which is closed on the corners and on the first row and column and open elsewhere.
   */
  function Initial(x: int, y: int): Mark
  {
    var v := TypeMark(GridId(x) >= CellSpan || GridId(y) >= CellSpan);
    v.WithBound(!((GridId(x) >= CellSpan && GridId(y) >= CellSpan) || x == 0 || y == 0))
  }

  /**
   * The value of a position once every cell of the layer has been written: a cell interior
   * ascends and descends as its cell does, and the bound after a cell along X (Y) is open when
   * the cell's bound in the X (Y) dimension is.
   */
  function AfterCells(l: Layer, x: int, y: int): Mark
    requires l.Valid() && 0 <= x < l.ViewX() && 0 <= y < l.ViewY()
  {
    var i := CellIndex(x);
    var j := CellIndex(y);
    if x != 0 && y != 0 && (GridId(x) == 0 || GridId(y) == 0) then
      var c := l.CellAt(i, j);
      assert InGrid(c, l.dInfo);
      if GridId(x) == 0 && GridId(y) == 0 then
        Initial(x, y).WithAscending(l.Ascends(c)).WithDescending(l.Descends(c))
      else if GridId(x) == 1 then Initial(x, y).WithBound(l.OpenTowards(c, l.dx))
      else Initial(x, y).WithBound(l.OpenTowards(c, l.dy))
    else Initial(x, y)
  }

  /**
   * The opening `o` opens the walls of its cell that face out of the maze, and lets its cell
   * ascend (descend) when it lies on the last (first) layer of Z. Each write keeps a value that
   * is already open. Nothing changes when `o` is not in the layer.
   */
  function PostOpening(l: Layer, o: seq<int>, v: Mark, x: int, y: int): Mark
    requires l.Valid() && |o| == |l.dInfo|
  {
    var ox := Centre(o[l.dx]);
    var oy := Centre(o[l.dy]);
    if !l.Shows(o) then v
    else if x == 0 && y == oy then v.WithBound(o[l.dx] == 0 || v.IsOpen())
    else if x == l.ViewX() - 1 && y == oy then v.WithBound(o[l.dx] == l.dInfo[l.dx] - 1 || v.IsOpen())
    else if x == ox && y == 0 then v.WithBound(o[l.dy] == 0 || v.IsOpen())
    else if x == ox && y == l.ViewY() - 1 then v.WithBound(o[l.dy] == l.dInfo[l.dy] - 1 || v.IsOpen())
    else if x == ox && y == oy then
      var w := v.WithDescending(o[l.dz] == 0 || v.IsDescending());
      w.WithAscending(o[l.dz] == l.dInfo[l.dz] - 1 || w.IsAscending())
    else v
  }

  /** The value `SetupViewable2D` leaves at a position: the cells, then the entrance, then the exit. */
  function Final(l: Layer, entrance: seq<int>, exit: seq<int>, x: int, y: int): Mark
    requires l.Valid() && InGrid(entrance, l.dInfo) && InGrid(exit, l.dInfo)
    requires 0 <= x < l.ViewX() && 0 <= y < l.ViewY()
  {
    PostOpening(l, exit, PostOpening(l, entrance, AfterCells(l, x, y), x, y), x, y)
  }

  /** `Maze.EntranceViewable` (and `ExitViewable`): a scan of the dimensions. */
  method IsShown(l: Layer, o: seq<int>) returns (shown: bool)
    requires l.Valid() && |o| == |l.dInfo|
    ensures shown == l.Shows(o)
  {
    for d := 0 to |l.dInfo|
      invariant forall e :: 0 <= e < d && e != l.dx && e != l.dy ==> o[e] == l.center[e]
    {
      if d != l.dx && d != l.dy && o[d] != l.center[d] {
        return false;
      }
    }
    return true;
  }

  /**
   * `Maze.SetupViewable2D`: builds the view of the layer. Every position ends as `Final`
   * describes; the lemmas below say what that means for walls, corners and cells.
   */
  method SetupViewable2D(l: Layer, entrance: seq<int>, exit: seq<int>) returns (view: array2<Mark>)
    requires l.Valid() && InGrid(entrance, l.dInfo) && InGrid(exit, l.dInfo)
    ensures fresh(view) && view.Length0 == l.ViewX() && view.Length1 == l.ViewY()
    ensures forall x, y :: 0 <= x < l.ViewX() && 0 <= y < l.ViewY() ==>
      view[x, y] == Final(l, entrance, exit, x, y)
  {
    var viewX := l.ViewX();
    var viewY := l.ViewY();
    view := new Mark[viewX, viewY];
    for x := 0 to viewX
      invariant forall px, py :: 0 <= px < x && 0 <= py < viewY ==> view[px, py] == Initial(px, py)
    {
      for y := 0 to viewY
        invariant forall px, py :: 0 <= px < x && 0 <= py < viewY ==> view[px, py] == Initial(px, py)
        invariant forall py :: 0 <= py < y ==> view[x, py] == Initial(x, py)
      {
        view[x, y] := TypeMark(GridId(x) >= CellSpan || GridId(y) >= CellSpan);
        view[x, y] := view[x, y].WithBound(!((GridId(x) >= CellSpan && GridId(y) >= CellSpan) || x == 0 || y == 0));
      }
    }
    WriteCells(view, l);
    var entranceShown := IsShown(l, entrance);
    if entranceShown {
      OpenOutside(view, l, entrance);
    }
    var exitShown := IsShown(l, exit);
    if exitShown {
      OpenOutside(view, l, exit);
    }
  }

  /** The cell loop of `SetupViewable2D`, walking `_toWrite` over the layer column by column. */
  method WriteCells(view: array2<Mark>, l: Layer)
    requires l.Valid() && view.Length0 == l.ViewX() && view.Length1 == l.ViewY()
    requires forall x, y :: 0 <= x < l.ViewX() && 0 <= y < l.ViewY() ==> view[x, y] == Initial(x, y)
    modifies view
    ensures forall x, y :: 0 <= x < l.ViewX() && 0 <= y < l.ViewY() ==> view[x, y] == AfterCells(l, x, y)
  {
    var viewX := l.ViewX();
    var viewY := l.ViewY();
    var toWrite := seq(|l.dInfo|, d requires 0 <= d < |l.dInfo| => if d == l.dx || d == l.dy then 0 else l.center[d]);
    assert toWrite == l.CellAt(0, 0);
    var x := BoundSpan;
    ghost var i := 0;
    while x < viewX
      invariant 0 <= i <= l.dInfo[l.dx] && x == Centre(i)
      invariant toWrite == l.CellAt(i, 0)
      invariant forall px, py :: 0 <= px < x && 0 <= py < viewY ==> view[px, py] == AfterCells(l, px, py)
      invariant forall px, py :: x <= px < viewX && 0 <= py < viewY ==> view[px, py] == Initial(px, py)
    {
      toWrite := WriteColumn(view, l, x, i, toWrite);
      toWrite := toWrite[l.dy := 0];
      toWrite := toWrite[l.dx := toWrite[l.dx] + 1];
      x := x + BoundSpan + CellSpan;
      i := i + 1;
    }
  }

  /**
   * The inner cell loop: the cells of column `i`, whose interiors are at grid column `x` and
   * whose bounds along X are at `x + 1`. Returns `_toWrite` as the loop leaves it.
   */
  method WriteColumn(view: array2<Mark>, l: Layer, x: int, ghost i: int, column: seq<int>) returns (toWrite: seq<int>)
    requires l.Valid() && view.Length0 == l.ViewX() && view.Length1 == l.ViewY()
    requires 0 <= i < l.dInfo[l.dx] && x == Centre(i) && column == l.CellAt(i, 0)
    requires forall px, py :: x <= px <= x + 1 && 0 <= py < l.ViewY() ==> view[px, py] == Initial(px, py)
    modifies view
    ensures toWrite == l.CellAt(i, l.dInfo[l.dy])
    ensures forall px, py :: x <= px <= x + 1 && 0 <= py < l.ViewY() ==> view[px, py] == AfterCells(l, px, py)
    ensures forall px, py :: 0 <= px < l.ViewX() && 0 <= py < l.ViewY() && !(x <= px <= x + 1) ==>
      view[px, py] == old(view[px, py])
  {
    var viewY := l.ViewY();
    toWrite := column;
    var y := BoundSpan;
    ghost var j := 0;
    while y < viewY
      invariant 0 <= j <= l.dInfo[l.dy] && y == Centre(j)
      invariant toWrite == l.CellAt(i, j)
      invariant forall px, py :: 0 <= px < l.ViewX() && 0 <= py < viewY && !(x <= px <= x + 1) ==>
        view[px, py] == old(view[px, py])
      invariant forall px, py :: x <= px <= x + 1 && 0 <= py < y ==> view[px, py] == AfterCells(l, px, py)
      invariant forall px, py :: x <= px <= x + 1 && y <= py < viewY ==> view[px, py] == Initial(px, py)
    {
      WriteBlock(view, l, x, y, i, j, toWrite);
      toWrite := toWrite[l.dy := toWrite[l.dy] + 1];
      y := y + BoundSpan + CellSpan;
      j := j + 1;
    }
  }

  /**
   * One turn of the inner cell loop: writes the block of cell (i, j), its interior, its two
   * bounds and the corner after it, so that column `x` and `x + 1` hold their final values up to
   * row `y + 1`.
   */
  method WriteBlock(view: array2<Mark>, l: Layer, x: int, y: int, ghost i: int, ghost j: int, toWrite: seq<int>)
    requires l.Valid() && view.Length0 == l.ViewX() && view.Length1 == l.ViewY()
    requires 0 <= i < l.dInfo[l.dx] && 0 <= j < l.dInfo[l.dy] && x == Centre(i) && y == Centre(j)
    requires toWrite == l.CellAt(i, j)
    requires forall px, py :: x <= px <= x + 1 && 0 <= py < y ==> view[px, py] == AfterCells(l, px, py)
    requires forall px, py :: x <= px <= x + 1 && y <= py < l.ViewY() ==> view[px, py] == Initial(px, py)
    modifies view
    ensures forall px, py :: x <= px <= x + 1 && 0 <= py < y + 2 ==> view[px, py] == AfterCells(l, px, py)
    ensures forall px, py :: x <= px <= x + 1 && y + 2 <= py < l.ViewY() ==> view[px, py] == Initial(px, py)
    ensures forall px, py :: 0 <= px < l.ViewX() && 0 <= py < l.ViewY() && !(x <= px <= x + 1) ==>
      view[px, py] == old(view[px, py])
  {
    AfterCellsOfCell(l, i, j);
    assert view[x, y] == Initial(x, y) && view[x + 1, y] == Initial(x + 1, y);
    assert view[x, y + 1] == Initial(x, y + 1) && view[x + 1, y + 1] == Initial(x + 1, y + 1);
    WriteCell(view, l, x, y, i, j, toWrite);
    forall px, py | x <= px <= x + 1 && 0 <= py < y
      ensures view[px, py] == AfterCells(l, px, py)
    {
      assert view[px, py] == old(view[px, py]);
    }
    forall px, py | x <= px <= x + 1 && y <= py < y + 2
      ensures view[px, py] == AfterCells(l, px, py)
    {
      if py == y {
        assert px == x || px == x + 1;
      } else {
        assert py == y + 1 && (px == x || px == x + 1);
      }
    }
    forall px, py | x <= px <= x + 1 && y + 2 <= py < l.ViewY()
      ensures view[px, py] == Initial(px, py)
    {
      assert view[px, py] == old(view[px, py]);
    }
  }

  /** One step of the cell loop: the interior of cell (i, j) at (x, y) and its bounds after it. */
  method WriteCell(view: array2<Mark>, l: Layer, x: int, y: int, ghost i: int, ghost j: int, toWrite: seq<int>)
    requires l.Valid() && view.Length0 == l.ViewX() && view.Length1 == l.ViewY()
    requires 0 <= i < l.dInfo[l.dx] && 0 <= j < l.dInfo[l.dy] && x == Centre(i) && y == Centre(j)
    requires toWrite == l.CellAt(i, j)
    modifies view
    ensures InGrid(toWrite, l.dInfo)
    ensures view[x, y] == old(view[x, y]).WithAscending(l.Ascends(toWrite)).WithDescending(l.Descends(toWrite))
    ensures view[x + 1, y] == old(view[x + 1, y]).WithBound(l.OpenTowards(toWrite, l.dx))
    ensures view[x, y + 1] == old(view[x, y + 1]).WithBound(l.OpenTowards(toWrite, l.dy))
    ensures forall px, py ::
      (0 <= px < l.ViewX() && 0 <= py < l.ViewY() && !(px == x && py == y) &&
       !(px == x + 1 && py == y) && !(px == x && py == y + 1)) ==>
      view[px, py] == old(view[px, py])
  {
    assert InGrid(toWrite, l.dInfo);
    var cell := toWrite;
    view[x, y] := view[x, y].WithAscending(BoundBit(l.bounds[cell], l.dz) == 0);
    if cell[l.dz] != 0 {
      var below := cell[l.dz := cell[l.dz] - 1];
      assert InGrid(below, l.dInfo);
      view[x, y] := view[x, y].WithDescending(BoundBit(l.bounds[below], l.dz) == 0);
    } else {
      view[x, y] := view[x, y].WithDescending(false);
    }
    view[x + 1, y] := view[x + 1, y].WithBound(BoundBit(l.bounds[cell], l.dx) == 0);
    view[x, y + 1] := view[x, y + 1].WithBound(BoundBit(l.bounds[cell], l.dy) == 0);
  }

  /** What the cell loop writes for cell (i, j), position by position. */
  lemma AfterCellsOfCell(l: Layer, i: int, j: int)
    requires l.Valid() && 0 <= i < l.dInfo[l.dx] && 0 <= j < l.dInfo[l.dy]
    ensures InGrid(l.CellAt(i, j), l.dInfo)
    ensures AfterCells(l, Centre(i), Centre(j)) ==
      Initial(Centre(i), Centre(j)).WithAscending(l.Ascends(l.CellAt(i, j))).WithDescending(l.Descends(l.CellAt(i, j)))
    ensures AfterCells(l, Centre(i) + 1, Centre(j)) ==
      Initial(Centre(i) + 1, Centre(j)).WithBound(l.OpenTowards(l.CellAt(i, j), l.dx))
    ensures AfterCells(l, Centre(i), Centre(j) + 1) ==
      Initial(Centre(i), Centre(j) + 1).WithBound(l.OpenTowards(l.CellAt(i, j), l.dy))
    ensures AfterCells(l, Centre(i) + 1, Centre(j) + 1) == Initial(Centre(i) + 1, Centre(j) + 1)
  {
    var x := Centre(i);
    var y := Centre(j);
    assert GridId(x) == 0 && CellIndex(x) == i && GridId(x + 1) == 1 && CellIndex(x + 1) == i;
    assert GridId(y) == 0 && CellIndex(y) == j && GridId(y + 1) == 1 && CellIndex(y + 1) == j;
  }

  /** The post-processing of `SetupViewable2D` for an opening that is in the layer. */
  method OpenOutside(view: array2<Mark>, l: Layer, o: seq<int>)
    requires l.Valid() && InGrid(o, l.dInfo) && l.Shows(o)
    requires view.Length0 == l.ViewX() && view.Length1 == l.ViewY()
    modifies view
    ensures forall x, y :: 0 <= x < l.ViewX() && 0 <= y < l.ViewY() ==>
      view[x, y] == PostOpening(l, o, old(view[x, y]), x, y)
  {
    var viewX := l.ViewX();
    var viewY := l.ViewY();
    var ox := Centre(o[l.dx]);
    var oy := Centre(o[l.dy]);
    view[0, oy] := view[0, oy].WithBound(o[l.dx] == 0 || view[0, oy].IsOpen());
    view[viewX - 1, oy] := view[viewX - 1, oy].WithBound(o[l.dx] == l.dInfo[l.dx] - 1 || view[viewX - 1, oy].IsOpen());
    view[ox, 0] := view[ox, 0].WithBound(o[l.dy] == 0 || view[ox, 0].IsOpen());
    view[ox, viewY - 1] := view[ox, viewY - 1].WithBound(o[l.dy] == l.dInfo[l.dy] - 1 || view[ox, viewY - 1].IsOpen());
    view[ox, oy] := view[ox, oy].WithDescending(o[l.dz] == 0 || view[ox, oy].IsDescending());
    view[ox, oy] := view[ox, oy].WithAscending(o[l.dz] == l.dInfo[l.dz] - 1 || view[ox, oy].IsAscending());
    forall x, y | 0 <= x < viewX && 0 <= y < viewY
      ensures view[x, y] == PostOpening(l, o, old(view[x, y]), x, y)
    {
      if x == 0 && y == oy {
      } else if x == viewX - 1 && y == oy {
      } else if x == ox && y == 0 {
      } else if x == ox && y == viewY - 1 {
      } else if x == ox && y == oy {
      } else {
        assert view[x, y] == old(view[x, y]);
      }
    }
  }

  /** An opening is the shown cell (i, j) exactly when it is in the layer at column `i` and row `j`. */
  lemma OpeningIsCellAt(l: Layer, o: seq<int>, i: int, j: int)
    requires l.Valid() && |o| == |l.dInfo|
    ensures o == l.CellAt(i, j) <==> l.Shows(o) && o[l.dx] == i && o[l.dy] == j
  {
    if l.Shows(o) && o[l.dx] == i && o[l.dy] == j {
      var c := l.CellAt(i, j);
      assert forall d :: 0 <= d < |o| ==> o[d] == c[d];
    }
  }

  /** Only a position with an odd X and an odd Y is a cell interior; every corner is a closed wall. */
  lemma FinalKinds(l: Layer, entrance: seq<int>, exit: seq<int>, x: int, y: int)
    requires l.Valid() && InGrid(entrance, l.dInfo) && InGrid(exit, l.dInfo)
    requires 0 <= x < l.ViewX() && 0 <= y < l.ViewY()
    ensures Final(l, entrance, exit, x, y).Wall? <==> x % 2 == 0 || y % 2 == 0
    ensures x % 2 == 0 && y % 2 == 0 ==> Final(l, entrance, exit, x, y) == Wall(true)
  {
    assert GridId(x) == 1 <==> x % 2 == 0;
    assert GridId(y) == 1 <==> y % 2 == 0;
  }

  /**
   * A bound inside the layer along X shows the cell's bound in the X dimension: it is open
   * exactly when that bound is. The openings never touch it.
   */
  lemma FinalInnerBoundX(l: Layer, entrance: seq<int>, exit: seq<int>, x: int, y: int)
    requires l.Valid() && InGrid(entrance, l.dInfo) && InGrid(exit, l.dInfo)
    requires 0 < x < l.ViewX() - 1 && x % 2 == 0 && 0 <= y < l.ViewY() && y % 2 == 1
    ensures InGrid(l.CellAt(CellIndex(x), CellIndex(y)), l.dInfo)
    ensures Final(l, entrance, exit, x, y).IsOpen() <==> l.OpenTowards(l.CellAt(CellIndex(x), CellIndex(y)), l.dx)
  {
    assert GridId(x) == 1 && GridId(y) == 0;
    assert 0 <= CellIndex(x) < l.dInfo[l.dx] && 0 <= CellIndex(y) < l.dInfo[l.dy];
  }

  /** The same along Y. */
  lemma FinalInnerBoundY(l: Layer, entrance: seq<int>, exit: seq<int>, x: int, y: int)
    requires l.Valid() && InGrid(entrance, l.dInfo) && InGrid(exit, l.dInfo)
    requires 0 <= x < l.ViewX() && x % 2 == 1 && 0 < y < l.ViewY() - 1 && y % 2 == 0
    ensures InGrid(l.CellAt(CellIndex(x), CellIndex(y)), l.dInfo)
    ensures Final(l, entrance, exit, x, y).IsOpen() <==> l.OpenTowards(l.CellAt(CellIndex(x), CellIndex(y)), l.dy)
  {
    assert GridId(x) == 0 && GridId(y) == 1;
    assert 0 <= CellIndex(x) < l.dInfo[l.dx] && 0 <= CellIndex(y) < l.dInfo[l.dy];
  }

  /** An opening opens the wall in front of the first cell of a row only when it is that cell. */
  lemma PostOpeningNearX(l: Layer, o: seq<int>, v: Mark, y: int)
    requires l.Valid() && InGrid(o, l.dInfo) && v.Wall? && 0 <= y < l.ViewY() && y % 2 == 1
    ensures PostOpening(l, o, v, 0, y).Wall?
    ensures PostOpening(l, o, v, 0, y).IsOpen() <==> v.IsOpen() || o == l.CellAt(0, CellIndex(y))
  {
    assert y == Centre(CellIndex(y));
    OpeningIsCellAt(l, o, 0, CellIndex(y));
  }

  /** An opening opens the wall after the last cell of a row only when it is that cell. */
  lemma PostOpeningFarX(l: Layer, o: seq<int>, v: Mark, y: int)
    requires l.Valid() && InGrid(o, l.dInfo) && v.Wall? && 0 <= y < l.ViewY() && y % 2 == 1
    ensures PostOpening(l, o, v, l.ViewX() - 1, y).Wall?
    ensures PostOpening(l, o, v, l.ViewX() - 1, y).IsOpen() <==>
      v.IsOpen() || o == l.CellAt(l.dInfo[l.dx] - 1, CellIndex(y))
  {
    assert y == Centre(CellIndex(y)) && l.ViewX() - 1 != Centre(o[l.dx]);
    OpeningIsCellAt(l, o, l.dInfo[l.dx] - 1, CellIndex(y));
  }

  /** An opening opens the wall in front of the first cell of a column only when it is that cell. */
  lemma PostOpeningNearY(l: Layer, o: seq<int>, v: Mark, x: int)
    requires l.Valid() && InGrid(o, l.dInfo) && v.Wall? && 0 <= x < l.ViewX() && x % 2 == 1
    ensures PostOpening(l, o, v, x, 0).Wall?
    ensures PostOpening(l, o, v, x, 0).IsOpen() <==> v.IsOpen() || o == l.CellAt(CellIndex(x), 0)
  {
    assert x == Centre(CellIndex(x)) && x != l.ViewX() - 1 && Centre(o[l.dy]) != 0;
    OpeningIsCellAt(l, o, CellIndex(x), 0);
  }

  /** An opening opens the wall after the last cell of a column only when it is that cell. */
  lemma PostOpeningFarY(l: Layer, o: seq<int>, v: Mark, x: int)
    requires l.Valid() && InGrid(o, l.dInfo) && v.Wall? && 0 <= x < l.ViewX() && x % 2 == 1
    ensures PostOpening(l, o, v, x, l.ViewY() - 1).Wall?
    ensures PostOpening(l, o, v, x, l.ViewY() - 1).IsOpen() <==>
      v.IsOpen() || o == l.CellAt(CellIndex(x), l.dInfo[l.dy] - 1)
  {
    assert x == Centre(CellIndex(x)) && x != l.ViewX() - 1 && l.ViewY() - 1 != Centre(o[l.dy]);
    OpeningIsCellAt(l, o, CellIndex(x), l.dInfo[l.dy] - 1);
  }

  /** An opening lets its own cell ascend on the last layer of Z and descend on the first. */
  lemma PostOpeningInterior(l: Layer, o: seq<int>, v: Mark, x: int, y: int)
    requires l.Valid() && InGrid(o, l.dInfo) && v.Floor?
    requires 0 <= x < l.ViewX() && x % 2 == 1 && 0 <= y < l.ViewY() && y % 2 == 1
    ensures PostOpening(l, o, v, x, y).Floor?
    ensures var c := l.CellAt(CellIndex(x), CellIndex(y));
      PostOpening(l, o, v, x, y).IsAscending() <==> v.IsAscending() || (o == c && o[l.dz] == l.dInfo[l.dz] - 1)
    ensures var c := l.CellAt(CellIndex(x), CellIndex(y));
      PostOpening(l, o, v, x, y).IsDescending() <==> v.IsDescending() || (o == c && o[l.dz] == 0)
  {
    assert x == Centre(CellIndex(x)) && y == Centre(CellIndex(y)) && x != l.ViewX() - 1 && y != l.ViewY() - 1;
    OpeningIsCellAt(l, o, CellIndex(x), CellIndex(y));
  }

  /**
   * The outer walls along X: the wall in front of the first cell of a row is open only where
   * the entrance or the exit is that cell; the wall after the last cell is open where the last
   * cell's bound in the X dimension is, or where the entrance or the exit is that cell.
   */
  lemma FinalOuterWallsX(l: Layer, entrance: seq<int>, exit: seq<int>, y: int)
    requires l.Valid() && InGrid(entrance, l.dInfo) && InGrid(exit, l.dInfo)
    requires 0 <= y < l.ViewY() && y % 2 == 1
    ensures InGrid(l.CellAt(l.dInfo[l.dx] - 1, CellIndex(y)), l.dInfo)
    ensures Final(l, entrance, exit, 0, y).IsOpen() <==>
      entrance == l.CellAt(0, CellIndex(y)) || exit == l.CellAt(0, CellIndex(y))
    ensures var last := l.CellAt(l.dInfo[l.dx] - 1, CellIndex(y));
      Final(l, entrance, exit, l.ViewX() - 1, y).IsOpen() <==>
      l.OpenTowards(last, l.dx) || entrance == last || exit == last
  {
    var xFar := l.ViewX() - 1;
    assert GridId(y) == 0 && 0 <= CellIndex(y) < l.dInfo[l.dy];
    assert GridId(xFar) == 1 && CellIndex(xFar) == l.dInfo[l.dx] - 1;
    assert AfterCells(l, 0, y) == Wall(true);
    PostOpeningNearX(l, entrance, AfterCells(l, 0, y), y);
    PostOpeningNearX(l, exit, PostOpening(l, entrance, AfterCells(l, 0, y), 0, y), y);
    var last := l.CellAt(l.dInfo[l.dx] - 1, CellIndex(y));
    assert AfterCells(l, xFar, y) == Wall(!l.OpenTowards(last, l.dx));
    PostOpeningFarX(l, entrance, AfterCells(l, xFar, y), y);
    PostOpeningFarX(l, exit, PostOpening(l, entrance, AfterCells(l, xFar, y), xFar, y), y);
  }

  /** The same along Y. */
  lemma FinalOuterWallsY(l: Layer, entrance: seq<int>, exit: seq<int>, x: int)
    requires l.Valid() && InGrid(entrance, l.dInfo) && InGrid(exit, l.dInfo)
    requires 0 <= x < l.ViewX() && x % 2 == 1
    ensures InGrid(l.CellAt(CellIndex(x), l.dInfo[l.dy] - 1), l.dInfo)
    ensures Final(l, entrance, exit, x, 0).IsOpen() <==>
      entrance == l.CellAt(CellIndex(x), 0) || exit == l.CellAt(CellIndex(x), 0)
    ensures var last := l.CellAt(CellIndex(x), l.dInfo[l.dy] - 1);
      Final(l, entrance, exit, x, l.ViewY() - 1).IsOpen() <==>
      l.OpenTowards(last, l.dy) || entrance == last || exit == last
  {
    var yFar := l.ViewY() - 1;
    assert GridId(x) == 0 && 0 <= CellIndex(x) < l.dInfo[l.dx];
    assert GridId(yFar) == 1 && CellIndex(yFar) == l.dInfo[l.dy] - 1;
    assert AfterCells(l, x, 0) == Wall(true);
    PostOpeningNearY(l, entrance, AfterCells(l, x, 0), x);
    PostOpeningNearY(l, exit, PostOpening(l, entrance, AfterCells(l, x, 0), x, 0), x);
    var last := l.CellAt(CellIndex(x), l.dInfo[l.dy] - 1);
    assert AfterCells(l, x, yFar) == Wall(!l.OpenTowards(last, l.dy));
    PostOpeningFarY(l, entrance, AfterCells(l, x, yFar), x);
    PostOpeningFarY(l, exit, PostOpening(l, entrance, AfterCells(l, x, yFar), x, yFar), x);
  }

  /**
   * A cell interior ascends when its cell has a path up in Z, or when the entrance or the exit
   * is that cell on the last layer of Z; it descends when its cell has a path down, or when an
   * opening is that cell on the first layer.
   */
  lemma FinalInterior(l: Layer, entrance: seq<int>, exit: seq<int>, x: int, y: int)
    requires l.Valid() && InGrid(entrance, l.dInfo) && InGrid(exit, l.dInfo)
    requires 0 <= x < l.ViewX() && x % 2 == 1 && 0 <= y < l.ViewY() && y % 2 == 1
    ensures InGrid(l.CellAt(CellIndex(x), CellIndex(y)), l.dInfo)
    ensures var c := l.CellAt(CellIndex(x), CellIndex(y));
      Final(l, entrance, exit, x, y).IsAscending() <==>
      l.Ascends(c) || (entrance == c && c[l.dz] == l.dInfo[l.dz] - 1) || (exit == c && c[l.dz] == l.dInfo[l.dz] - 1)
    ensures var c := l.CellAt(CellIndex(x), CellIndex(y));
      Final(l, entrance, exit, x, y).IsDescending() <==>
      l.Descends(c) || (entrance == c && c[l.dz] == 0) || (exit == c && c[l.dz] == 0)
  {
    assert GridId(x) == 0 && GridId(y) == 0 && 0 <= CellIndex(x) < l.dInfo[l.dx] && 0 <= CellIndex(y) < l.dInfo[l.dy];
    var c := l.CellAt(CellIndex(x), CellIndex(y));
    assert AfterCells(l, x, y) == Floor(l.Ascends(c), l.Descends(c));
    PostOpeningInterior(l, entrance, AfterCells(l, x, y), x, y);
    PostOpeningInterior(l, exit, PostOpening(l, entrance, AfterCells(l, x, y), x, y), x, y);
  }
}
