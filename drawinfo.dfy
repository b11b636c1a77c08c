/**
 * The drawing helpers of the maze (Maze.GetCurrentCell, Maze.FindOpeningCenter, Maze.GetBoundInfo
 * and Maze.GetInteriorInfo). From a position of the view and the value stored there they compute
 * rectangles `[centre X, centre Y, width, depth]` in drawing units. In the drawing every view
 * index takes a slot: a bound `bScale` long, a cell interior `iScale` long. The scales are the
 * ones `World` reports and are parameters here, as are the shown dimensions and the player's
 * cell (a `Viewable.Layer`).
 */
module Drawing {
  import opened CSharp
  import opened Classification
  import opened Randomize
  import opened Viewable

  /** Indices into `World.CurrentDimensions` and into a returned centre. */
  const X: int := 0
  const Y: int := 1
  const Z: int := 2

  /** A drawn rectangle: its centre, its width along X and its depth along Y. */
  datatype Rect = Rect(cx: int, cy: int, w: int, d: int)

  /** The row `GetInteriorInfo` leaves for an opening that is not drawn. */
  const Absent: Rect := Rect(-1, -1, -1, -1)

  /** The array returned by the source holds the rectangles `rs`, one per row. */
  predicate Holds(info: array2<int>, rs: seq<Rect>)
    reads info
  {
    info.Length0 == |rs| && info.Length1 == (if |rs| == 0 then 0 else 4) &&
    forall k :: 0 <= k < |rs| ==>
      info[k, 0] == rs[k].cx && info[k, 1] == rs[k].cy && info[k, 2] == rs[k].w && info[k, 3] == rs[k].d
  }

  /** Where the slot of view index `p` starts in the drawing. */
  function SlotStart(p: int, bScale: int, iScale: int): int
  {
    (p / 2) * (bScale + iScale) + (p % 2) * bScale
  }

  /** The length of the slot of view index `p`: even indices are bounds, odd ones interiors. */
  function SlotSpan(p: int, bScale: int, iScale: int): int
  {
    if p % 2 == 0 then bScale else iScale
  }

  /**
   * `Maze.GetCurrentCell`: the cell a view position belongs to. The view index lies on that
   * cell's interior or on the bound right after it.
   */
  function CurrentCell(l: Layer, vx: int, vy: int): (c: seq<int>)
    requires l.Valid()
    ensures |c| == |l.dInfo| && l.Shows(c)
    ensures Centre(c[l.dx]) <= vx <= Centre(c[l.dx]) + CellSpan
    ensures Centre(c[l.dy]) <= vy <= Centre(c[l.dy]) + CellSpan
  {
    l.center[l.dx := CellIndex(vx)][l.dy := CellIndex(vy)]
  }

  /** `GetCurrentCell` undoes the placement of cell (i, j) on its interior, its bounds and its corner. */
  lemma CurrentCellOfBlock(l: Layer, i: int, j: int, kx: int, ky: int)
    requires l.Valid() && 0 <= kx <= CellSpan && 0 <= ky <= CellSpan
    ensures CurrentCell(l, Centre(i) + kx, Centre(j) + ky) == l.CellAt(i, j)
  {
    assert CellIndex(Centre(i) + kx) == i && CellIndex(Centre(j) + ky) == j;
  }

  /** Sum of the coordinates of `cell` at indices below `k`, among the first `n`. */
  function SumBelow(cell: seq<int>, k: int, n: nat): int
    requires n <= |cell|
  {
    if n == 0 then 0 else SumBelow(cell, k, n - 1) + (if n - 1 < k then cell[n - 1] else 0)
  }

  /** Sum of the coordinates of `cell` at indices above `k`, among the first `n`. */
  function SumAbove(cell: seq<int>, k: int, n: nat): int
    requires n <= |cell|
  {
    if n == 0 then 0 else SumAbove(cell, k, n - 1) + (if n - 1 > k then cell[n - 1] else 0)
  }

  /** Neither sum reads the coordinate at index `k`. */
  lemma {:induction false} SumsSkipSlot(cell: seq<int>, k: int, v: int, n: nat)
    requires 0 <= k < |cell| && n <= |cell|
    ensures SumBelow(cell[k := v], k, n) == SumBelow(cell, k, n)
    ensures SumAbove(cell[k := v], k, n) == SumAbove(cell, k, n)
  {
    if n > 0 {
      SumsSkipSlot(cell, k, v, n - 1);
    }
  }

  /** The layer of the opening: the cell's own for a forwards opening, the one before it otherwise. */
  function Through(cell: seq<int>, k: int, forwards: bool): int
    requires 0 <= k < |cell|
  {
    cell[k] - (if forwards then 0 else 1)
  }

  /** `OpeningCoor` divides by both of these scales, one per axis of the centre. */
  predicate CentresDefined(v: int, iScale: int, oScale: int)
  {
    CentreScale(Section(v, 1), iScale, oScale) != 0 && CentreScale(Section(v, 3), iScale, oScale) != 0
  }

  /**
   * The centre `FindOpeningCenter` computes for the opening of `cell` through dimension `k`:
   * along X from the coordinates below `k`, along Y from those above it.
   */
  function OpeningCenter(k: int, forwards: bool, cell: seq<int>, iScale: int, oScale: int): (c: seq<int>)
    requires 0 <= k < |cell| && CentresDefined(Through(cell, k, forwards), iScale, oScale)
    ensures |c| == 2
  {
    var v := Through(cell, k, forwards);
    [OpeningCoor(SumBelow(cell, k, |cell|), v, 1, iScale, oScale),
     OpeningCoor(SumAbove(cell, k, |cell|), v, 3, iScale, oScale)]
  }

  /** Scales that `World` keeps in range leave every centre defined. */
  lemma CentresDefinedWhenFit(v: int, iScale: int, oScale: int)
    requires 1 <= oScale && 2 * oScale <= iScale
    ensures CentresDefined(v, iScale, oScale)
  {
    OpeningCoorMargin(0, v, 1, iScale, oScale);
    OpeningCoorMargin(0, v, 3, iScale, oScale);
  }

  /** With scales in range an opening lies wholly inside its cell, on both axes. */
  lemma OpeningCenterMargin(k: int, forwards: bool, cell: seq<int>, iScale: int, oScale: int)
    requires 0 <= k < |cell| && 1 <= oScale && 2 * oScale <= iScale
    ensures CentresDefined(Through(cell, k, forwards), iScale, oScale)
    ensures var c := OpeningCenter(k, forwards, cell, iScale, oScale);
      oScale / 2 <= c[X] && c[X] + oScale / 2 <= iScale && oScale / 2 <= c[Y] && c[Y] + oScale / 2 <= iScale
  {
    var v := Through(cell, k, forwards);
    OpeningCoorMargin(SumBelow(cell, k, |cell|), v, 1, iScale, oScale);
    OpeningCoorMargin(SumAbove(cell, k, |cell|), v, 3, iScale, oScale);
  }

  /**
   * The opening up out of a cell and the opening down into the cell above it are drawn at the
   * same centre, so the stairs of two layers line up.
   */
  lemma StairsLineUp(k: int, cell: seq<int>, iScale: int, oScale: int)
    requires 0 <= k < |cell| && CentresDefined(cell[k], iScale, oScale)
    ensures CentresDefined(Through(cell[k := cell[k] + 1], k, false), iScale, oScale)
    ensures OpeningCenter(k, false, cell[k := cell[k] + 1], iScale, oScale) == OpeningCenter(k, true, cell, iScale, oScale)
  {
    SumsSkipSlot(cell, k, cell[k] + 1, |cell|);
  }

  /** `Maze.FindOpeningCenter`: sums the coordinates on either side of the opening's dimension. */
  method FindOpeningCenter(openingD: int, forwards: bool, currD: seq<int>, cell: seq<int>, iScale: int, oScale: int)
    returns (center: seq<int>)
    requires 0 <= openingD < |currD| && 0 <= currD[openingD] < |cell|
    requires CentresDefined(Through(cell, currD[openingD], forwards), iScale, oScale)
    ensures center == OpeningCenter(currD[openingD], forwards, cell, iScale, oScale)
  {
    var k := currD[openingD];
    var below, above := 0, 0;
    for i := 0 to |cell|
      invariant below == SumBelow(cell, k, i) && above == SumAbove(cell, k, i)
    {
      if i < k {
        below := below + cell[i];
      }
      if i > k {
        above := above + cell[i];
      }
    }
    var v := cell[k] - (if forwards then 0 else 1);
    center := [OpeningCoor(below, v, 1, iScale, oScale), OpeningCoor(above, v, 3, iScale, oScale)];
  }

  /** `_cellULCoor`: the drawing coordinate where the cell of view index `p` starts. */
  function CellCorner(p: int, bScale: int, iScale: int): int
  {
    bScale + CellIndex(p) * (bScale + iScale)
  }

  /** The source's test that view index `p` is on a bound. */
  predicate OnBound(p: int)
  {
    Abs(p - BoundSpan) % (BoundSpan + CellSpan) >= CellSpan
  }

  /** The centre of a bound slot across its length. */
  function Across(p: int, bScale: int, iScale: int): int
  {
    iScale + CDiv(bScale, 2) + CellCorner(p, bScale, iScale)
  }

  /** `GetBoundInfo` draws an open bound around the opening of the cell through `DimensionX`. */
  predicate BoundDefined(l: Layer, vx: int, m: Mark, iScale: int, oScale: int)
  {
    m == Wall(false) ==> CentresDefined(CellIndex(vx), iScale, oScale)
  }

  /**
   * What `GetBoundInfo` returns: nothing for an interior, one rectangle over the slot of a
   * closed bound, and for an open bound the two pieces of the wall on either side of the opening.
   */
  function BoundRects(l: Layer, vx: int, vy: int, m: Mark, bScale: int, iScale: int, oScale: int): seq<Rect>
    requires l.Valid() && BoundDefined(l, vx, m, iScale, oScale)
  {
    if !m.Wall? then []
    else if m.closed then [ClosedBoundRect(vx, vy, bScale, iScale)]
    else OpenBoundRects(vx, vy, OpeningCenter(l.dx, true, CurrentCell(l, vx, vy), iScale, oScale), bScale, iScale, oScale)
  }

  /** A closed bound: along each axis, the bound's thickness if the index is on a bound, else a cell side. */
  function ClosedBoundRect(vx: int, vy: int, bScale: int, iScale: int): Rect
  {
    Rect(if OnBound(vx) then Across(vx, bScale, iScale) else CDiv(iScale, 2) + CellCorner(vx, bScale, iScale),
         if OnBound(vy) then Across(vy, bScale, iScale) else CDiv(iScale, 2) + CellCorner(vy, bScale, iScale),
         if OnBound(vx) then bScale else iScale,
         if OnBound(vy) then bScale else iScale)
  }

  /**
   * The two pieces of an open bound: from the start of the cell's side to the opening, and from
   * the opening to the end of the side. `c` is the centre of the opening within the cell.
   */
  function OpenBoundRects(vx: int, vy: int, c: seq<int>, bScale: int, iScale: int, oScale: int): seq<Rect>
    requires |c| == 2
  {
    var ulx := CellCorner(vx, bScale, iScale);
    var uly := CellCorner(vy, bScale, iScale);
    if OnBound(vx) then
      var end0 := c[Y] - CDiv(oScale, 2);
      var start1 := c[Y] + CDiv(oScale, 2);
      [Rect(Across(vx, bScale, iScale), CDiv(0 + end0, 2) + uly, bScale, Abs(0 - end0)),
       Rect(Across(vx, bScale, iScale), CDiv(start1 + iScale, 2) + uly, bScale, Abs(start1 - iScale))]
    else
      var end0 := c[X] - CDiv(oScale, 2);
      var start1 := c[X] + CDiv(oScale, 2);
      [Rect(CDiv(0 + end0, 2) + ulx, Across(vy, bScale, iScale), Abs(0 - end0), bScale),
       Rect(CDiv(start1 + iScale, 2) + ulx, Across(vy, bScale, iScale), Abs(start1 - iScale), bScale)]
  }

  /** `Maze.GetBoundInfo`. */
  method GetBoundInfo(l: Layer, vx: int, vy: int, m: Mark, bScale: int, iScale: int, oScale: int)
    returns (info: array2<int>)
    requires l.Valid() && BoundDefined(l, vx, m, iScale, oScale)
    ensures fresh(info) && Holds(info, BoundRects(l, vx, vy, m, bScale, iScale, oScale))
  {
    if !m.Wall? {
      info := new int[0, 0];
      return;
    }
    if m.closed {
      info := new int[1, 4];
      WriteClosedBound(info, vx, vy, bScale, iScale);
    } else {
      info := new int[2, 4];
      var cell := CurrentCell(l, vx, vy);
      var c := FindOpeningCenter(X, true, [l.dx, l.dy, l.dz], cell, iScale, oScale);
      WriteOpenBound(info, vx, vy, c, bScale, iScale, oScale);
    }
  }

  /** The closed-bound branch of `GetBoundInfo`: one rectangle over the slot. */
  method WriteClosedBound(info: array2<int>, vx: int, vy: int, bScale: int, iScale: int)
    requires info.Length0 == 1 && info.Length1 == 4
    modifies info
    ensures Holds(info, [ClosedBoundRect(vx, vy, bScale, iScale)])
  {
    var ulx := CellCorner(vx, bScale, iScale);
    var uly := CellCorner(vy, bScale, iScale);
    if OnBound(vx) {
      info[0, X] := Across(vx, bScale, iScale);
      info[0, 2] := bScale;
    } else {
      info[0, X] := CDiv(iScale, 2) + ulx;
      info[0, 2] := iScale;
    }
    if OnBound(vy) {
      info[0, Y] := Across(vy, bScale, iScale);
      info[0, 3] := bScale;
    } else {
      info[0, Y] := CDiv(iScale, 2) + uly;
      info[0, 3] := iScale;
    }
  }

  /** The open-bound branch of `GetBoundInfo`: the two pieces around the opening centred at `c`. */
  method WriteOpenBound(info: array2<int>, vx: int, vy: int, c: seq<int>, bScale: int, iScale: int, oScale: int)
    requires info.Length0 == 2 && info.Length1 == 4 && |c| == 2
    modifies info
    ensures Holds(info, OpenBoundRects(vx, vy, c, bScale, iScale, oScale))
  {
    var ulx := CellCorner(vx, bScale, iScale);
    var uly := CellCorner(vy, bScale, iScale);
    var start0, end1 := 0, iScale;
    if OnBound(vx) {
      info[0, X] := Across(vx, bScale, iScale);
      info[0, 2] := bScale;
      info[1, X] := Across(vx, bScale, iScale);
      info[1, 2] := bScale;
      var end0 := c[Y] - CDiv(oScale, 2);
      var start1 := c[Y] + CDiv(oScale, 2);
      info[0, Y] := CDiv(start0 + end0, 2) + uly;
      info[1, Y] := CDiv(start1 + end1, 2) + uly;
      info[0, 3] := Abs(start0 - end0);
      info[1, 3] := Abs(start1 - end1);
    } else {
      info[0, Y] := Across(vy, bScale, iScale);
      info[0, 3] := bScale;
      info[1, Y] := Across(vy, bScale, iScale);
      info[1, 3] := bScale;
      var end0 := c[X] - CDiv(oScale, 2);
      var start1 := c[X] + CDiv(oScale, 2);
      info[0, X] := CDiv(start0 + end0, 2) + ulx;
      info[1, X] := CDiv(start1 + end1, 2) + ulx;
      info[0, 2] := Abs(start0 - end0);
      info[1, 2] := Abs(start1 - end1);
    }
  }

  /** Whether view index `p` is on a bound, and where the source places its pieces, in terms of slots. */
  lemma SlotOf(p: int, bScale: int, iScale: int)
    requires 0 <= p && 0 <= bScale && 0 <= iScale
    ensures OnBound(p) <==> p % 2 == 0
    ensures OnBound(p) ==> Across(p, bScale, iScale) == SlotStart(p, bScale, iScale) + bScale / 2
    ensures !OnBound(p) ==> CellCorner(p, bScale, iScale) == SlotStart(p, bScale, iScale)
  {
    NonNegativeAgree(bScale, 2);
    var i := CellIndex(p);
    if p == 0 {
      assert i == -1;
    } else if p % 2 == 1 {
      assert p == 2 * i + 1 && p / 2 == i;
    } else {
      assert p == 2 * i + 2 && p / 2 == i + 1;
    }
  }

  /** A closed bound is drawn as one rectangle that fills the slot of its view position on both axes. */
  lemma ClosedBoundFillsSlot(l: Layer, vx: int, vy: int, bScale: int, iScale: int, oScale: int)
    requires l.Valid() && 0 <= vx && 0 <= vy && 0 <= bScale && 0 <= iScale
    ensures var rs := BoundRects(l, vx, vy, Wall(true), bScale, iScale, oScale);
      |rs| == 1 &&
      rs[0].w == SlotSpan(vx, bScale, iScale) && rs[0].cx == SlotStart(vx, bScale, iScale) + rs[0].w / 2 &&
      rs[0].d == SlotSpan(vy, bScale, iScale) && rs[0].cy == SlotStart(vy, bScale, iScale) + rs[0].d / 2
  {
    SlotOf(vx, bScale, iScale);
    SlotOf(vy, bScale, iScale);
    NonNegativeAgree(iScale, 2);
  }

  /**
   * A side of length `iScale` starting at `start`, cut by an opening of width `oScale` centred at
   * `gap` within it: the first piece has length `len0` and centre `mid0`, the second `len1` and
   * `mid1`, and the pieces and the opening make up the side.
   */
  predicate SplitsSide(len0: int, mid0: int, len1: int, mid1: int, start: int, gap: int, iScale: int, oScale: int)
  {
    0 <= len0 && 0 <= len1 && len0 + 2 * (oScale / 2) + len1 == iScale &&
    len0 == gap - oScale / 2 && mid0 == start + len0 / 2 && mid1 == start + (iScale - len1) + len1 / 2
  }

  /** The source's halvings and distances for the two pieces of an open bound. */
  lemma PiecesSplitSide(gap: int, corner: int, iScale: int, oScale: int)
    requires 1 <= oScale && oScale / 2 <= gap && gap + oScale / 2 <= iScale
    ensures var end0 := gap - CDiv(oScale, 2);
      var start1 := gap + CDiv(oScale, 2);
      SplitsSide(Abs(0 - end0), CDiv(0 + end0, 2) + corner, Abs(start1 - iScale), CDiv(start1 + iScale, 2) + corner,
                 corner, gap, iScale, oScale)
  {
    NonNegativeAgree(oScale, 2);
    var end0 := gap - oScale / 2;
    var start1 := gap + oScale / 2;
    NonNegativeAgree(end0, 2);
    NonNegativeAgree(start1 + iScale, 2);
    var len1 := iScale - start1;
    assert (start1 + iScale) / 2 == start1 + len1 / 2 by {
      assert start1 + iScale == 2 * start1 + len1;
    }
  }

  /**
   * An open bound along X is drawn as two pieces across the bound's slot, one on each side of
   * the opening through `DimensionX` of the bound's cell, which leave exactly the opening's
   * width free.
   */
  lemma OpenBoundAroundOpeningX(l: Layer, vx: int, vy: int, bScale: int, iScale: int, oScale: int)
    requires l.Valid() && 0 <= vx && vx % 2 == 0 && 0 <= vy && vy % 2 == 1
    requires 0 <= bScale && 1 <= oScale && 2 * oScale <= iScale
    ensures BoundDefined(l, vx, Wall(false), iScale, oScale)
    ensures var rs := BoundRects(l, vx, vy, Wall(false), bScale, iScale, oScale);
      var c := OpeningCenter(l.dx, true, CurrentCell(l, vx, vy), iScale, oScale);
      |rs| == 2 && rs[0].w == bScale && rs[1].w == bScale &&
      rs[0].cx == SlotStart(vx, bScale, iScale) + bScale / 2 && rs[1].cx == rs[0].cx &&
      SplitsSide(rs[0].d, rs[0].cy, rs[1].d, rs[1].cy, SlotStart(vy, bScale, iScale), c[Y], iScale, oScale)
  {
    var cell := CurrentCell(l, vx, vy);
    OpeningCenterMargin(l.dx, true, cell, iScale, oScale);
    var c := OpeningCenter(l.dx, true, cell, iScale, oScale);
    assert BoundRects(l, vx, vy, Wall(false), bScale, iScale, oScale) == OpenBoundRects(vx, vy, c, bScale, iScale, oScale);
    SlotOf(vx, bScale, iScale);
    SlotOf(vy, bScale, iScale);
    PiecesSplitSide(c[Y], CellCorner(vy, bScale, iScale), iScale, oScale);
  }

  /** The same for an open bound along Y, whose pieces lie along X around the same opening. */
  lemma OpenBoundAroundOpeningY(l: Layer, vx: int, vy: int, bScale: int, iScale: int, oScale: int)
    requires l.Valid() && 0 <= vx && vx % 2 == 1 && 0 <= vy && vy % 2 == 0
    requires 0 <= bScale && 1 <= oScale && 2 * oScale <= iScale
    ensures BoundDefined(l, vx, Wall(false), iScale, oScale)
    ensures var rs := BoundRects(l, vx, vy, Wall(false), bScale, iScale, oScale);
      var c := OpeningCenter(l.dx, true, CurrentCell(l, vx, vy), iScale, oScale);
      |rs| == 2 && rs[0].d == bScale && rs[1].d == bScale &&
      rs[0].cy == SlotStart(vy, bScale, iScale) + bScale / 2 && rs[1].cy == rs[0].cy &&
      SplitsSide(rs[0].w, rs[0].cx, rs[1].w, rs[1].cx, SlotStart(vx, bScale, iScale), c[X], iScale, oScale)
  {
    var cell := CurrentCell(l, vx, vy);
    OpeningCenterMargin(l.dx, true, cell, iScale, oScale);
    var c := OpeningCenter(l.dx, true, cell, iScale, oScale);
    assert BoundRects(l, vx, vy, Wall(false), bScale, iScale, oScale) == OpenBoundRects(vx, vy, c, bScale, iScale, oScale);
    SlotOf(vx, bScale, iScale);
    SlotOf(vy, bScale, iScale);
    PiecesSplitSide(c[X], CellCorner(vx, bScale, iScale), iScale, oScale);
  }

  /** `GetInteriorInfo` draws the openings up and down through `DimensionZ` that the value shows. */
  predicate InteriorDefined(l: Layer, vx: int, vy: int, m: Mark, iScale: int, oScale: int)
    requires l.Valid()
  {
    var cell := CurrentCell(l, vx, vy);
    (m.IsAscending() ==> CentresDefined(Through(cell, l.dz, true), iScale, oScale)) &&
    (m.IsDescending() ==> CentresDefined(Through(cell, l.dz, false), iScale, oScale))
  }

  /** A stair: an `oScale` square on the opening through `DimensionZ`, or `Absent` when not shown. */
  function StairRect(l: Layer, vx: int, vy: int, shown: bool, forwards: bool, bScale: int, iScale: int, oScale: int): Rect
    requires l.Valid()
    requires shown ==> CentresDefined(Through(CurrentCell(l, vx, vy), l.dz, forwards), iScale, oScale)
  {
    if !shown then Absent
    else
      var c := OpeningCenter(l.dz, forwards, CurrentCell(l, vx, vy), iScale, oScale);
      Rect(c[X] + CellCorner(vx, bScale, iScale), c[Y] + CellCorner(vy, bScale, iScale), oScale, oScale)
  }

  /** What `GetInteriorInfo` returns: nothing for a bound, else the stair up and the stair down. */
  function InteriorRects(l: Layer, vx: int, vy: int, m: Mark, bScale: int, iScale: int, oScale: int): seq<Rect>
    requires l.Valid() && InteriorDefined(l, vx, vy, m, iScale, oScale)
  {
    if !m.Floor? then []
    else [StairRect(l, vx, vy, m.ascending, true, bScale, iScale, oScale),
          StairRect(l, vx, vy, m.descending, false, bScale, iScale, oScale)]
  }

  /** One test of the debug trap: a drawn centre less than half an opening away from a side of its cell. */
  predicate Misplaced(at: int, corner: int, iScale: int, oScale: int)
  {
    (at - corner < CDiv(oScale, 2) || at - corner > iScale - CDiv(oScale, 2)) && at != -1
  }

  /** The condition under which `GetInteriorInfo` stops to wait for a key. */
  predicate Pauses(rs: seq<Rect>, ulx: int, uly: int, iScale: int, oScale: int)
  {
    |rs| == 2 &&
    (Misplaced(rs[0].cx, ulx, iScale, oScale) || Misplaced(rs[0].cy, uly, iScale, oScale) ||
     Misplaced(rs[1].cx, ulx, iScale, oScale) || Misplaced(rs[1].cy, uly, iScale, oScale))
  }

  /** With the scales `World` keeps in range every stair is defined and the debug trap never fires. */
  lemma InteriorNeverPauses(l: Layer, vx: int, vy: int, m: Mark, bScale: int, iScale: int, oScale: int)
    requires l.Valid() && 1 <= oScale && 2 * oScale <= iScale
    ensures InteriorDefined(l, vx, vy, m, iScale, oScale)
    ensures !Pauses(InteriorRects(l, vx, vy, m, bScale, iScale, oScale),
                    CellCorner(vx, bScale, iScale), CellCorner(vy, bScale, iScale), iScale, oScale)
  {
    var cell := CurrentCell(l, vx, vy);
    OpeningCenterMargin(l.dz, true, cell, iScale, oScale);
    OpeningCenterMargin(l.dz, false, cell, iScale, oScale);
    NonNegativeAgree(oScale, 2);
  }

  /** `Maze.GetInteriorInfo`; `pauses` tells whether it reaches its `Console.ReadLine` trap. */
  method GetInteriorInfo(l: Layer, vx: int, vy: int, m: Mark, bScale: int, iScale: int, oScale: int)
    returns (info: array2<int>, pauses: bool)
    requires l.Valid() && InteriorDefined(l, vx, vy, m, iScale, oScale)
    ensures fresh(info) && Holds(info, InteriorRects(l, vx, vy, m, bScale, iScale, oScale))
    ensures pauses == Pauses(InteriorRects(l, vx, vy, m, bScale, iScale, oScale),
                             CellCorner(vx, bScale, iScale), CellCorner(vy, bScale, iScale), iScale, oScale)
  {
    if !m.Floor? {
      info := new int[0, 0];
      return info, false;
    }
    info := new int[2, 4];
    for i := 0 to info.Length0
      invariant forall a, b :: 0 <= a < i && 0 <= b < 4 ==> info[a, b] == -1
    {
      for j := 0 to info.Length1
        invariant forall a, b :: 0 <= a < i && 0 <= b < 4 ==> info[a, b] == -1
        invariant forall b :: 0 <= b < j ==> info[i, b] == -1
      {
        info[i, j] := -1;
      }
    }
    var ulx := CellCorner(vx, bScale, iScale);
    var uly := CellCorner(vy, bScale, iScale);
    var cell := CurrentCell(l, vx, vy);
    if m.ascending {
      var c := FindOpeningCenter(Z, true, [l.dx, l.dy, l.dz], cell, iScale, oScale);
      WriteStair(info, 0, c, ulx, uly, oScale);
    }
    if m.descending {
      var c := FindOpeningCenter(Z, false, [l.dx, l.dy, l.dz], cell, iScale, oScale);
      WriteStair(info, 1, c, ulx, uly, oScale);
    }
    pauses := Misplaced(info[0, X], ulx, iScale, oScale) || Misplaced(info[0, Y], uly, iScale, oScale) ||
              Misplaced(info[1, X], ulx, iScale, oScale) || Misplaced(info[1, Y], uly, iScale, oScale);
  }

  /** Row `row` of `GetInteriorInfo`'s array: an `oScale` square centred at `c` within the cell. */
  method WriteStair(info: array2<int>, row: int, c: seq<int>, ulx: int, uly: int, oScale: int)
    requires info.Length0 == 2 && info.Length1 == 4 && 0 <= row < 2 && |c| == 2
    modifies info
    ensures info[row, 0] == c[X] + ulx && info[row, 1] == c[Y] + uly && info[row, 2] == oScale && info[row, 3] == oScale
    ensures forall a, b :: 0 <= a < 2 && a != row && 0 <= b < 4 ==> info[a, b] == old(info[a, b])
  {
    info[row, X] := c[X] + ulx;
    info[row, Y] := c[Y] + uly;
    info[row, 2] := oScale;
    info[row, 3] := oScale;
  }
}
