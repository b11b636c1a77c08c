# Multi-dimensional maze generator — a Dafny model

This project models the core of MDMazeGeneration, a console game that builds a maze of up to
16 dimensions and lets the player walk through it three viewed dimensions at a time. The model
covers four parts of that core:

- **The maze builder of `Maze.cs`.** Every cell keeps a 16-bit wall mask (bit `d` set means the
  wall towards the next cell in dimension `d` is closed). Cells are grown one grid step at a time
  from the origin (`GetFirstCell`, `ExpandDimension`, `GetNeighbor`). Each new wall is decided at
  random (`DefineBound`), except where the set structure forces it. Cells joined by an open wall
  share a set. A set is a tree of cells linked by `parent` and `childern`, and the static `sets`
  list holds the roots. `JoinSets` then merges the remaining sets by opening walls
  (`MergeSet`, `RandMerge`, `ForceOpenBound`), and every finished cell is written into the
  `worldBounds` store. Finally `GetOpenings` draws an entrance and an exit on outer faces and
  picks the three dimensions viewed first.
- **The 2D view.** `SetupViewable2D` fills a grid of classified integers (bound or interior,
  open or closed, ascending or descending). The drawing helpers `GetCurrentCell`,
  `FindOpeningCenter`, `GetBoundInfo` and `GetInteriorInfo` turn a view position into
  rectangles in drawing units.
- **`Randomize.cs`.** It provides the `RandInt` overloads, `RandBool`, `RandOpening` and the
  deterministic `OpeningCoor`.
- **`World.cs`.** It holds the scale properties, the currently viewed dimensions and the
  `DimensionX/Y/Z` setters that rotate them.

The modules are:

| module | file | models |
|---|---|---|
| `CSharp` | csharp.dfy | C# truncating `/` and `%`, `Distinct()`, nullable values |
| `Bits` | bits.dfy | `GetBit`, `FlipBit`, `SetBitTo` on `int` (`bv32`) and the `ushort` (`bv16`) wall masks |
| `Classification` | classification.dfy | `SetValType` … `Descending`, and a decoded `Mark` view of a grid value |
| `Randomize` | randomize.dfy | class `Randomizer`: the `Randomize` static class over `System.Random` |
| `WorldState` | world.dfy | class `World`: the static fields of `World` and their properties |
| `Forest` | forest.dfy | class `Cells`: the `Cell` set forest (`parent`, `childern`, `sets`) |
| `Builder` | builder.dfy | class `Maze`: the builder's per-cell `neighbors` and `bounds`, `worldBounds`, `Build` |
| `Openings` | openings.dfy | `GetOpenings` and the `initialD` array |
| `Viewable` | view.dfy | `SetupViewable2D`, `EntranceViewable`/`ExitViewable` |
| `Drawing` | drawinfo.dfy | `GetCurrentCell`, `FindOpeningCenter`, `GetBoundInfo`, `GetInteriorInfo` |

Conventions of the model:

- A cell is named by its index in the arena of class `Cells`; the index -1 stands for `null`.
- A ghost `rank` on every cell certifies that parent links never cycle. Two cells are in one
  set when they reach the same `Root`.
- The random generator is a class with a ghost history `draws`, so contracts can say which
  draw decided what.
- The view grid stores decoded `Mark` values. The `Encode` lemmas show that the source's bit
  operations on the encoded integer do the same thing.

## Model

| member | source | states |
|---|---|---|
| Bits.GetBit | Maze.cs:944-958 | a bit read from an `int` (or a widened `ushort`) is 0 or 1 |
| Bits.FlipBitIsXor | Maze.cs:966-969 | `FlipBit`'s subtract-or-add of `1 << n` equals xor with the bit mask, with 32-bit wrap-around |
| Bits.FlipBitBits | Maze.cs:966-969 | flipping bit `n` inverts bit `n` and leaves every other bit as it was |
| Bits.FlipBitInvolutive | Maze.cs:966-969 | flipping the same bit twice restores the value |
| Bits.SetBitToBits | Maze.cs:978-981 | after `SetBitTo(v, n, b)` bit `n` is 1 exactly when `b > 0`, and every other bit is unchanged |
| Bits.SetBitToTwice | Maze.cs:978-981 | setting one bit twice leaves only the second setting |
| Bits.Widen | Maze.cs:955-958 | widening a `ushort` to `int` keeps it below 2^16 and narrowing back restores it |
| Bits.SetBoundBit | Maze.cs:1682 | the `(ushort)SetBitTo(bounds, d, b)` write is `SetBitTo` on the widened mask, with no bits lost |
| Bits.SetBoundBitReads | Maze.cs:1682 | after writing wall bit `d` of a mask, bit `d` reads back as written and every other wall bit is unchanged |
| Bits.AllClosedHasEveryBit | Maze.cs:1012-1015 | a new cell's mask `ushort.MaxValue` has all 16 walls closed |
| Classification.SetValType | Maze.cs:418-421 | the result is a bound exactly when `isBound`, else an interior; bits 1 and 2 are kept |
| Classification.BoundOrInterior | Maze.cs:428-472 | every value is either a bound or an interior, never both |
| Classification.SetBound | Maze.cs:439-442 | on a bound, the result is open exactly when `open` and closed otherwise, with bit 2 kept; a non-bound is returned unchanged |
| Classification.OpenOrClosed | Maze.cs:449-462 | a value is a bound iff it is open or closed, and never both |
| Classification.SetAscending | Maze.cs:480-483 | on an interior, ascending becomes `isAscending` and descending is kept; other values are unchanged |
| Classification.SetDescending | Maze.cs:491-494 | on an interior, descending becomes `isDescending` and ascending is kept; other values are unchanged |
| Classification.KindsAreDisjoint | Maze.cs:449-514 | an ascending or descending value is never a bound, and an open or closed value is never an interior |
| Classification.EncodeDecodes | Maze.cs:428-514 | the six predicates of the source read back the `Mark` that a value encodes |
| Classification.EncodeInjective | Maze.cs:418-494 | distinct marks have distinct encodings |
| Classification.TypeMark | Maze.cs:327 | `SetValType(0, isBound)` encodes a wall exactly when `isBound` |
| Classification.SetBoundEncodes | Maze.cs:439-442 | `SetBound` on an encoded mark is the encoding of `WithBound` |
| Classification.SetAscendingEncodes | Maze.cs:480-483 | `SetAscending` on an encoded mark is the encoding of `WithAscending` |
| Classification.SetDescendingEncodes | Maze.cs:491-494 | `SetDescending` on an encoded mark is the encoding of `WithDescending` |
| CSharp.CRem | Randomize.cs:234 | C#'s `%` is smaller than the divisor in magnitude and has the sign of the dividend |
| CSharp.DivRem | World.cs:43-55 | C#'s `/` and `%` satisfy `b * (a / b) + a % b == a` |
| CSharp.NonNegativeAgree | World.cs:101 | on non-negative operands C#'s `/` and `%` agree with Euclidean division |
| CSharp.Distinct | World.cs:77-78 | `Distinct()` keeps exactly the elements of its input, without repetition, each before every value that first occurs later in the input |
| CSharp.FirstIndex | World.cs:77-78 | the position of the first occurrence of a value: it holds the value and no earlier position does |
| CSharp.DistinctFromOrder | World.cs:77-78 | the values the duplicate-free pass appends are new, come from the input, and follow the order of their first occurrence |
| CSharp.FreeValueExists | Randomize.cs:29-38 | among `|xs| + 1` consecutive values one is not in `xs`, so an exclusion loop has a value to stop at |
| Randomize.Randomizer.RandInt | Randomize.cs:19-22 | the result is a non-negative `int` below `int.MaxValue`, and one draw is made |
| Randomize.Randomizer.RandIntExcept | Randomize.cs:29-38 | the result is a non-negative `int` not in `not`; the history only grows |
| Randomize.Randomizer.RandIntTo | Randomize.cs:45-48 | `RandInt(ceiling)` lies in `[0, ceiling]`, and is 0 for ceiling -1 |
| Randomize.Randomizer.RandIntBetween | Randomize.cs:88-91 | `RandInt(floor, ceiling)` lies in `[floor, ceiling]`, and is `floor` when the range is empty |
| Randomize.Randomizer.RandIntToExcept | Randomize.cs:57-80 | with a free value in `[0, ceiling]` the result is one that is not excluded; with none it is 0 |
| Randomize.Randomizer.RandIntBetweenExcept | Randomize.cs:101-124 | with a free value in `[floor, ceiling]` the result is one that is not excluded; with none it is 0 |
| Randomize.AllContained | Randomize.cs:63-70 | the precheck is true exactly when every value of the range is excluded |
| Randomize.Randomizer.RandBool | Randomize.cs:140-148 | with modifier 0 the result is true and nothing is drawn; otherwise it is true exactly when the draw was 0 |
| Randomize.Randomizer.RandOpening | Randomize.cs:155-181 | the opening lies in the grid and on at least one outer face |
| Randomize.Randomizer.RandOpeningAvoiding | Randomize.cs:190-217 | the exit lies in the grid and on an outer face, and in every dimension with two faces it avoids the face the entrance lies on |
| Randomize.Randomizer.ExitDraw | Randomize.cs:202 | one coordinate of the exit lies inside its dimension and off the entrance's face |
| Randomize.ExitDrawRangeAsWritten | Randomize.cs:202 | the source's draw range is well formed for every dimension of at least one cell |
| Randomize.ExitDrawAsWrittenLeavesDimension | Randomize.cs:202 | in a one-cell dimension the source draws `Next(1, 1)`, which is 1, outside the dimension |
| Randomize.ExitDrawRangeStaysInside | Randomize.cs:202 | every value of the corrected range is inside the dimension and off the entrance's face |
| Randomize.ExitDrawRangeNonEmpty | Randomize.cs:202 | the corrected range is never empty |
| Randomize.Section | Randomize.cs:234 | the section is 0, 1 or 2, and 0 exactly when `(v - modI) % 4 == 0` |
| Randomize.OpeningCoor | Randomize.cs:228-253 | the coordinate lies in `[addBack, addBack + scale)` |
| Randomize.OpeningCoorMargin | Randomize.cs:228-253 | with `1 <= oScale` and `2 * oScale <= iScale`, the opening of width `oScale` fits in its cell, and in the half its section names |
| WorldState.World.constructor | World.cs:30-31 | every scale and `currDimensions` start unset |
| WorldState.World.PlayerScale | World.cs:35 | the player scale is at least `MIN_PLAYER_SCALE`, and equals it when unset |
| WorldState.World.SetPlayerScale | World.cs:36 | a positive value is stored; any other value keeps the current scale |
| WorldState.World.InteriorScale | World.cs:40 | when unset, the interior scale is `MIN_INTERIOR_SCALE` times the player scale; it is never below that, and divided by the player scale it is odd and at least the minimum |
| WorldState.World.SetInteriorScale | World.cs:41-45 | stores the corrected setter's value; at player scale 1 a value below the minimum or not above twice the opening keeps the current scale, and an opening that fitted in the interior still fits |
| WorldState.World.BoundScale | World.cs:49 | when unset, the bound scale is `MIN_BOUND_SCALE` times the player scale; it is never below that, and divided by the player scale it is at least the minimum |
| WorldState.CDivMul | World.cs:40 | a stored scale multiplied by the player scale divides back to itself |
| WorldState.World.SetBoundScale | World.cs:50 | stores `value / PlayerScale` unless that is below the minimum, in which case the current scale is kept |
| WorldState.World.OpeningScale | World.cs:54 | at player scale 1 (the only scale `World.Initialize` sets), the default opening fits in half the interior |
| WorldState.World.SetOpeningScale | World.cs:55 | rejects an opening wider than half the interior; at player scale 1 (the only scale `World.Initialize` sets) it therefore keeps an opening that fits |
| WorldState.World.CellScale | World.cs:57 | a cell is an interior plus a bound, so it is at least the two minimums times the player scale, and at least the two minimums once divided by it |
| WorldState.SumOfScaled | World.cs:57 | two scales of at least the minimums, each times the player scale, sum to at least the minimums' sum times it, also after division |
| WorldState.World.CurrentDimensions | World.cs:60-65 | there are always three viewed dimensions |
| WorldState.World.GetCurrentDimensions | World.cs:60-65 | the getter creates `currDimensions` from the maze's initial dimensions on first use, then returns it |
| WorldState.World.SetCurrentDimensions | World.cs:66-79 | each new entry is reduced modulo the dimension count; the distinct ones, at most three, replace the front of the current dimensions |
| WorldState.World.SetDimension | World.cs:97-106 | with more than three dimensions, the slot gets the first dimension, counting cyclically from `value % Dimensions`, that is not already viewed; otherwise nothing changes |
| WorldState.WalkBlockedAtMost | World.cs:101-103 | the search steps over at most as many dimensions as are viewed, so it ends |
| WorldState.RotationKeepsViewDistinct | World.cs:97-106 | for a non-negative value (callers pass the current dimension plus one), after a `DimensionX/Y/Z` setter the viewed dimensions are still distinct and in range, and the other slots are kept |
| WorldState.CurrentDimensionsFrontDistinct | World.cs:73-78 | the front written by the setter holds distinct values taken from the new array |
| WorldState.InteriorScaleAsWrittenStoresTooSmall | World.cs:43-44 | the source's setter stores 1 for the value 1 at the default scales, below the minimum of 3, and stores 3 for the value 3 when the opening is 4, leaving no room for the opening |
| WorldState.InteriorScaleStored | World.cs:43-44 | the corrected setter keeps the current scale below the minimum or when the value is not above twice the opening, else stores the value rounded up to odd; an odd scale of at least the minimum, and room for the opening, are kept |
| Forest.RemoveFirst | Maze.cs:1148 | `List.Remove` drops one occurrence, and keeps the list duplicate-free if it was |
| Forest.Root | Maze.cs:1516-1524 | following parent links ends at a cell without a parent |
| Forest.RootMembers | Maze.cs:1303-1320 | the cells below the root of `x` are exactly the set of `x` |
| Forest.SubtreeSize | Maze.cs:1313-1320 | the size of a subtree is one plus the sizes of its children's subtrees |
| Forest.Sign | Maze.cs:1531-1559 | a comparison result is -1, 0 or 1 with the sign of the difference |
| Forest.CompareAntisymmetric | Maze.cs:1531-1559 | `CompareTo` is antisymmetric |
| Forest.CompareZero | Maze.cs:1531-1559 | `CompareTo` is 0 exactly for equal coordinates and equal child counts |
| Forest.CompareTransitive | Maze.cs:1531-1559 | `CompareTo` is transitive, so `Max()` and `Min()` are well defined |
| Forest.SwapKeepsSets | Maze.cs:1403-1461 | swapping a cell with a child moves the root to the child and keeps the grouping of every cell |
| Forest.ReplaceKeepsSets | Maze.cs:1467-1510 | replacing a cell with a leaf of its set makes the cell a singleton and keeps every other cell's grouping |
| Forest.TakenOutUngroups | Maze.cs:1352-1367 | taking a cell out of its set creates no new grouping and leaves the cell ungrouped |
| Forest.SameSetsGrouped | Maze.cs:1373-1397 | a regrouping that keeps the sets keeps the set of grouped cells |
| Forest.Cells.constructor | Maze.cs:143 | the forest starts with no cells and an empty `sets` list |
| Forest.Cells.EmptyValid | Maze.cs:143 | the empty forest satisfies the forest invariant |
| Forest.Cells.NewCell | Maze.cs:999-1007 | a new cell has no parent and no children, is listed in `sets`, and every existing cell keeps its root |
| Forest.Cells.GetFirstInSet | Maze.cs:1516-1524 | returns the root of the cell's set |
| Forest.Cells.SameSet | Maze.cs:1158-1161 | true exactly when both cells have one root |
| Forest.Cells.NullParent | Maze.cs:1338-1347 | the cell loses its parent, leaves its old parent's children and leaves `sets` |
| Forest.Cells.RemoveParent | Maze.cs:1123-1135 | a cell without a parent is left as it is; otherwise it becomes the root of its subtree and is listed, the cells below it now have it as their root, and every other cell keeps its root |
| Forest.Cells.NullSet | Maze.cs:1325-1333 | the cell and its children lose their links, its children list is emptied, and it leaves `sets` |
| Forest.Cells.NullChildren | Maze.cs:1329-1332 | every child of the cell loses its parent, and the cell's child list is emptied |
| Forest.Cells.NullFirstChild | Maze.cs:1329-1332 | the first child loses its parent and leaves the list |
| Forest.Cells.AddChild | Maze.cs:1141-1151 | a detached cell is appended to the children of `t` and leaves `sets`; every cell of its tree takes the root of `t` |
| Forest.Cells.AdoptAll | Maze.cs:1437-1444 | every listed cell gets `t` as its parent, and the root of `t` is kept |
| Forest.Cells.GetSetSizeFrom | Maze.cs:1313-1320 | returns the number of cells in the subtree |
| Forest.Cells.GetSetSize | Maze.cs:1303-1306 | returns the number of cells in the set |
| Forest.Cells.CompareTo | Maze.cs:1531-1559 | returns the coordinate-then-child-count order of two cells |
| Forest.Cells.OrderFacts | Maze.cs:1531-1559 | the order is reflexive, antisymmetric and transitive |
| Forest.Cells.MaxCell | Maze.cs:1426 | `childern.Max()` returns a child that no other child exceeds |
| Forest.Cells.MinCell | Maze.cs:1256 | `childern.Min()` returns a child that exceeds no other child |
| Forest.Cells.NotFull | Maze.cs:1252 | keeps exactly the cells with fewer children than there are dimensions |
| Forest.Cells.WithChildren | Maze.cs:1281 | keeps exactly the cells with children |
| Forest.Cells.Childless | Maze.cs:1282 | keeps exactly the cells without children |
| Forest.Cells.MostChildren | Maze.cs:1261-1262 | picks a cell with the most children |
| Forest.Cells.FewestChildren | Maze.cs:1287-1288 | picks a cell with the fewest children |
| Forest.Cells.GetCellToAddChildTo | Maze.cs:1243-1266 | returns a cell of the same set with room for another child |
| Forest.Cells.GetLastInSet | Maze.cs:1272-1297 | returns a childless cell of the same set |
| Forest.Cells.SwitchWithMaxChild | Maze.cs:1403-1461 | switches exactly when a child is not smaller, with the greatest child, and keeps the sets |
| Forest.Cells.ReplaceWithLast | Maze.cs:1467-1510 | the cell leaves its set and the set stays intact; the returned start is a root of the old set |
| Forest.Cells.SortSet | Maze.cs:1373-1397 | sorting keeps every set, and lists only roots of the sorted set |
| Forest.Cells.RemoveFromSet | Maze.cs:1352-1367 | the cell is taken out of its set and the rest of the set stays together |
| Forest.Cells.AddCellToSet | Maze.cs:1227-1237 | the cell moves into the set of `t` alone; everything else keeps its set |
| Forest.Cells.SmallerFirst | Maze.cs:1197-1207 | picks the root of the smaller set to move from and the other root to move into |
| Forest.Cells.MoveLastInSet | Maze.cs:1214-1216 | one cell of the moving set joins the target set |
| Forest.Cells.AddToSet | Maze.cs:1183-1221 | the two old roots end in one set, `x` and `ns` do too when one of their sets was a single cell, and every cell outside the two sets keeps its set-mates |
| Builder.Truncated | Maze.cs:137-138 | more than `MAX_DIMENSIONS` dimensions are cut to the first 16, and fewer are kept |
| Builder.Step | Maze.cs:1051-1053 | the neighbour's coordinates differ from the cell's by +1 in dimension `d` only |
| Builder.StepsCommute | Maze.cs:1066-1068 | stepping in `n` then `d` reaches the cell that stepping in `d` then `n` reaches |
| Builder.SlackStep | Maze.cs:1046-1083 | each step towards a neighbour lowers the remaining room, so `GetNeighbor`'s recursion ends |
| Builder.Unparented | Maze.cs:229 | `RemoveAll(x => x.parent != null)` keeps exactly the listed cells without a parent |
| Builder.DedupFrom | Maze.cs:233-253 | the duplicate pass keeps exactly the listed cells |
| Builder.DedupKeepsDistinct | Maze.cs:233-253 | on a duplicate-free list the duplicate pass changes nothing |
| Builder.QueueStep | Maze.cs:1567-1589 | one dequeue of `MergeSet`'s queue keeps every queued cell in the set and shrinks the work left |
| Builder.AxesStep | Maze.cs:177-180 | after `ExpandDimension(d)` the grid holds a cell at every coordinate of each axis from `d` up |
| Builder.Maze.constructor | Maze.cs:132-159 | `Initialize` truncates the dimensions and starts with no cells, no sets and an empty store |
| Builder.Maze.EmptyValid | Maze.cs:143-145 | the empty maze satisfies the builder invariant |
| Builder.Maze.SameSetIn | Maze.cs:1169-1177 | `SameSet(_d)` holds exactly when the neighbour exists and is in the cell's set |
| Builder.Maze.CreateNewCell | Maze.cs:1022-1025 | a new cell has no neighbours and all walls closed, and forms a new set; existing sets are kept |
| Builder.Maze.AddNeighborToSet | Maze.cs:1647-1663 | with an existing neighbour, the old roots of its set and the cell's end in one set, and the cell and the neighbour do when one of the sets was a single cell; with no neighbour nothing changes |
| Builder.Maze.ChooseBound | Maze.cs:1673-1679 | the wall bit is 0 when the set must extend, 1 at the end of a dimension or towards a neighbour of the same set, and otherwise the draw |
| Builder.Maze.SetBound | Maze.cs:1681-1688 | only wall bit `d` of cell `x` changes; an opened wall joins the old roots of the two sets as `AddNeighborToSet` does |
| Builder.Maze.DefineBound | Maze.cs:1669-1689 | only the wall in `d` changes, as the three rules and one draw decide; an open wall joins the old roots of the two sets as `AddNeighborToSet` does |
| Builder.Maze.ForceOpenBound | Maze.cs:1695-1703 | the wall in `d` is opened and no wall closes; with an existing neighbour the old roots of the two sets are joined as `AddNeighborToSet` does |
| Builder.Maze.NeighborsNotInSet | Maze.cs:1631-1641 | lists, in increasing order, exactly the dimensions with a neighbour in another set |
| Builder.Maze.RandMerge | Maze.cs:1598-1615 | merges exactly when some neighbour lies in another set, by opening that wall and joining the two sets |
| Builder.Maze.MergeSet | Maze.cs:1564-1592 | merges when some cell of the set has a neighbour outside it; otherwise every cell of the set was isolated and nothing changes |
| Builder.Maze.JoinSets | Maze.cs:225-264 | walls only open, and the result says whether at most one set is left |
| Builder.Maze.TidySets | Maze.cs:229-253 | the start of a round keeps exactly the parentless listed cells |
| Builder.Maze.MergePass | Maze.cs:255-262 | a pass of `MergeSet` calls only opens walls |
| Builder.Maze.WriteToMaze | Maze.cs:1088-1093 | the cell's wall mask is stored at its coordinates, and the cell is taken out of its set |
| Builder.Maze.GetNeighbor | Maze.cs:1046-1083 | returns the cell one step further in `d`, creating it when missing; a new cell closes the square with each higher-dimensional neighbour of `x` (its link in `n` is that neighbour's neighbour in `d`); existing cells and store entries are kept, and only walls in `d` are decided |
| Builder.Maze.StartNeighbor | Maze.cs:1050-1059 | a missing neighbour is created at the next coordinate and the wall towards it is decided; when that wall opens, the cell and the new neighbour share a root |
| Builder.Maze.LinkAcross | Maze.cs:1063-1072 | when `x` has a neighbour in `n`, the new cell's link in `n` becomes that neighbour's neighbour in `d`; the new cell's other links are kept, and without such a neighbour nothing changes |
| Builder.Maze.LinkHigher | Maze.cs:1061-1073 | the loop from the last dimension down to `d + 1` closes the square in every higher dimension where `x` has a neighbour, and decides only walls in `d` of the older cells |
| Builder.SquareKept | Maze.cs:1061-1073 | a square closed in dimension `m` stays closed while the loop works on a lower dimension |
| Builder.Maze.LinkTo | Maze.cs:1068 | one neighbour link is recorded and nothing else changes |
| Builder.Maze.ExpandDimension | Maze.cs:209-220 | the grid holds a cell at every coordinate of the line through the start cell along dimension `d` |
| Builder.Maze.WriteSetToMaze | Maze.cs:1099-1106 | the cell's mask is stored, the cell leaves its set, and the grouped cells shrink |
| Builder.Maze.WriteChild | Maze.cs:1101-1104 | writing the first child strictly shrinks the grouped cells |
| Builder.Maze.GetFirstCell | Maze.cs:196-202 | the first cell is at the origin |
| Builder.Maze.ExpandAxes | Maze.cs:176-180 | the expansions from last dimension to first leave a cell at every coordinate of every axis through the origin |
| Builder.Maze.Build | Maze.cs:164-190 | the axes are built, and the entrance and exit lie on outer faces, the exit off the entrance's faces; `initialD` follows `GetOpenings` |
| Openings.EdgeDimsSpec | Maze.cs:276-284 | the first pass lists, in increasing order, exactly the dimensions where the entrance is on a face |
| Openings.InitialDims | Maze.cs:269-298 | there are three viewed dimensions |
| Openings.InitialDimensions | Maze.cs:274-297 | the array holds the face dimensions, then the lowest dimensions not yet held |
| Openings.EdgePass | Maze.cs:276-284 | the first loop fills at most three slots with face dimensions, in order, and leaves the rest 0 |
| Openings.FillRemaining | Maze.cs:286-297 | the second loop writes the lowest dimensions that are not held yet |
| Openings.InitialDimsLayout | Maze.cs:274-297 | the face dimensions come first; after them come new, increasing dimensions with no lower dimension skipped |
| Openings.InitialDimsDistinct | Maze.cs:274-297 | with at least three dimensions the three viewed dimensions are distinct and in range |
| Openings.GetOpenings | Maze.cs:269-298 | the entrance and exit are on outer faces, the exit avoids the entrance's faces, and `initialD` is the layout above |
| Viewable.Layer.CellAt | Maze.cs:311-315 | the cell at column `i` and row `j` has those coordinates in the viewed dimensions and the player's elsewhere |
| Viewable.IsShown | Maze.cs:85-106 | `EntranceViewable`/`ExitViewable` hold exactly when the opening matches the player's cell off the viewed dimensions |
| Viewable.SetupViewable2D | Maze.cs:303-409 | the grid has the source's size, and each position holds the value the cells, entrance and exit give it |
| Viewable.WriteCells | Maze.cs:333-364 | every position holds its value after all the cells are written |
| Viewable.WriteColumn | Maze.cs:335-362 | one column of cells is written, and the other columns keep their values |
| Viewable.WriteCell | Maze.cs:338-355 | a cell writes its interior and the two walls after it, and nothing else |
| Viewable.AfterCellsOfCell | Maze.cs:338-355 | the interior ascends and descends as its cell does, and the walls after it are open as the cell's walls are |
| Viewable.OpenOutside | Maze.cs:368-408 | an opening in the layer opens its outer walls and its stairs, and keeps what is already open |
| Viewable.OpeningIsCellAt | Maze.cs:85-115 | an opening is the cell at a grid position exactly when it is shown there |
| Viewable.FinalKinds | Maze.cs:319-330 | the positions with an even index are walls, and the corners are always closed |
| Viewable.FinalInnerBoundX | Maze.cs:352 | an inner wall along X is open exactly when its cell's wall in `DimensionX` is |
| Viewable.FinalInnerBoundY | Maze.cs:355 | an inner wall along Y is open exactly when its cell's wall in `DimensionY` is |
| Viewable.FinalOuterWallsX | Maze.cs:319-375 | the near outer wall is open only for an opening; the far one also when the last cell's wall is open |
| Viewable.FinalOuterWallsY | Maze.cs:319-381 | the same along Y |
| Viewable.FinalInterior | Maze.cs:338-386 | an interior ascends (descends) when its cell does, or when it is an opening on the last (first) layer of `DimensionZ` |
| Drawing.CurrentCell | Maze.cs:879-886 | the cell of a view position is shown, and the position lies on its interior or on the walls after it |
| Drawing.CurrentCellOfBlock | Maze.cs:879-886 | `GetCurrentCell` undoes the placement of each cell on the grid |
| Drawing.OpeningCenter | Maze.cs:899-920 | an opening's centre has two coordinates |
| Drawing.OpeningCenterMargin | Maze.cs:899-920 | with scales in range, an opening lies wholly inside its cell on both axes |
| Drawing.StairsLineUp | Maze.cs:915-916 | the stair up out of a cell and the stair down into the next cell have the same centre |
| Drawing.FindOpeningCenter | Maze.cs:899-920 | returns the centre computed from the coordinates on either side of the opening's dimension |
| Drawing.GetBoundInfo | Maze.cs:637-727 | returns nothing for an interior, one rectangle for a closed wall, and the two pieces around the opening for an open wall |
| Drawing.WriteClosedBound | Maze.cs:654-679 | the closed-wall rectangle is written |
| Drawing.WriteOpenBound | Maze.cs:680-723 | the two open-wall pieces are written |
| Drawing.ClosedBoundFillsSlot | Maze.cs:654-679 | a closed wall's rectangle fills the slot of its view position on both axes |
| Drawing.OpenBoundAroundOpeningX | Maze.cs:693-707 | the two pieces of an open X wall leave exactly the opening free |
| Drawing.OpenBoundAroundOpeningY | Maze.cs:708-722 | the two pieces of an open Y wall leave exactly the opening free |
| Drawing.GetInteriorInfo | Maze.cs:818-872 | returns nothing for a wall, else the up and down stairs the value shows; `pauses` is the debug trap's condition |
| Drawing.InteriorNeverPauses | Maze.cs:855-868 | with scales in range, every stair is defined and the `Console.ReadLine` trap never fires |
| Drawing.WriteStair | Maze.cs:838-853 | writes one stair row and leaves the other row unchanged |

## Left out

- Console drawing is not modelled: `World.Initialize`, `Update`, `SetupMap`, `View`, the buffer
  and colour properties, `Player.cs`, `Runner.cs`, `Program.cs` and `Initializer.cs` are I/O and
  input handling.
- Maze.Initialize: the model's constructor does the truncation and the empty storage. `Build`
  and `SetupViewable2D` are separate methods that a caller runs in turn, because the view needs
  the viewed dimensions and the player's cell, which are given as a `Viewable.Layer`.
- `System.Random` internals are not modelled. `Randomizer.Next`, `NextBelow` and `NextBetween`
  promise only the documented ranges, and the seed update is a placeholder.
- `RandBool()` without an argument has no member of its own. It is `Next(2) % 2 == 0`, which is
  what `RandBool(2)` computes, and the maze calls neither overload.
- Randomize.Randomizer.RandIntExcept: the exclusion loops and the `RandOpening` retries draw at
  most `RetryLimit` times. After that a value the source could also have drawn is chosen. Loops
  that never end are therefore not modelled, and a caller excluding every `int` is ruled out by
  `|not| < int.MaxValue`.
- Randomize.Randomizer.RandOpening: a size-0 dimension is allowed: `RandInt(-1)` is `Next(0)`,
  which is 0, and that counts as a face. The requires excludes an empty `dInfo`, where the source
  throws `IndexOutOfRangeException` on `_openingCoor[0]`, and a negative size, where `Next`
  throws `ArgumentOutOfRangeException`.
- Randomize.Randomizer.RandOpeningAvoiding: the requires excludes an empty `dInfo` and a size-0
  dimension. With entrance coordinate 0 the source calls `RandInt(1, -1)`, that is `Next(1, 0)`,
  which throws `ArgumentOutOfRangeException`.
- Randomize.Randomizer.NextBelow: the requires excludes a negative bound, for which
  `Random.Next` throws `ArgumentOutOfRangeException`.
- Randomize.Randomizer.NextBetween: the requires excludes a lower bound above the upper bound,
  for which `Random.Next` throws `ArgumentOutOfRangeException`.
- Randomize.Randomizer.RandIntTo: the requires excludes a ceiling below -1, where `Next` throws.
- Randomize.Randomizer.RandIntBetween: the requires excludes a floor above `ceiling + 1`, where
  `Next` throws.
- Randomize.Randomizer.RandBool: the requires excludes a negative modifier, where `Next` throws.
- Randomize.OpeningCoor: the requires excludes a zero range of centres (`CentreScale`), where the
  source's `%` throws `DivideByZeroException`.
- Builder.Maze.JoinSets: `fuel` bounds the number of rounds. The source loops until one set is
  left, so the contract states only the outcome test and that walls only open. That exactly
  one set is left, and that the maze is connected and cycle-free (a perfect maze), are not
  proved.
- Builder.Maze.TidySets: the duplicate-removal `do … while` runs one round. It is proved to
  change nothing on the list of distinct roots the forest keeps, so the rounds after it are
  not modelled.
- Forest.Cells.SortSet: `fuel` bounds the recursion depth. Only "the sets are kept" is proved;
  the heap order by `CompareTo` that sorting aims at is not.
- Forest.Cells.AddToSet: the contract says only that the two old roots end in one set (and the
  two cells too when one of the sets was a single cell), not that every cell of both sets does.
  The loop (Maze.cs:1212-1217) stops as soon as the smaller set's old root `_first` has moved.
  Which cell `GetLastInSet` moves depends on the heap order `SortSet` leaves, and that order is
  not modelled, so the model cannot show that `_first` moves last. Nor does the contract say that
  the merged tree is sorted.
- Builder.Maze.AddNeighborToSet: promises the join of the two old roots, not that the cell and its
  neighbour end in one set (except when one of the sets was a single cell). The reason is the one
  given for `AddToSet`.
- Builder.Maze.SetBound: an opened wall promises what `AddNeighborToSet` promises, for the same
  reason.
- Builder.Maze.DefineBound: an opened wall promises what `AddNeighborToSet` promises, for the same
  reason.
- Builder.Maze.ForceOpenBound: promises what `AddNeighborToSet` promises, for the same reason.
- Forest.Cells.AddChild: the new child must be detached (no parent) and not an ancestor of
  `t`, which is how every caller in the source uses it. Re-parenting an attached cell is not
  modelled.
- Ties in `List.Sort` and `Max()`/`Min()` (unstable, by child count) are modelled as any
  extremal choice.
- Builder.Maze.WriteSetToMaze: the contract states that the cell is written and leaves its set,
  not that every cell of its subtree reaches the store.
- Builder.Maze.Build: `sets.ElementAt(0)` on an empty list throws in C#. The model skips the
  write when no set is listed. It does not prove that exactly one set remains.
- Builder.Maze.Build: the contract does not state the store contents. It covers the axes, the
  invariant and the openings.
- Builder.Maze.GetNeighbor: requires the next coordinate to lie inside the dimension. The source
  does not check this, and its callers (`ExpandDimension` and the recursion) never step past
  the end.
- Builder.Maze.ExpandDimension: the `_current == null` break is dead, because `GetNeighbor`
  never returns null.
- Builder.Maze.ExpandAxes: proves a cell at every coordinate of every axis through the origin.
  The source's `GetNeighbor` recursion goes on to create every cell of the grid; that the whole
  grid is filled is not proved.
- `Close()` is `RemoveFromSet()`, so `WriteToMaze` calls `RemoveFromSet` directly.
- The view grid holds decoded `Classification.Mark` values instead of `int`s.
  `Classification.EncodeDecodes` and the `…Encodes` lemmas tie every write to the source's bit
  operations.
- The drawing helpers take the scales, the viewed dimensions and the player's cell as
  parameters instead of reading `World`. The full-parameter overloads of `GetBoundInfo` and
  `GetInteriorInfo` (Maze.cs:516-622 and Maze.cs:729-801) and `IsViewable` (Maze.cs:922-936)
  are commented out in the source and not modelled.
- Drawing.GetInteriorInfo: the `Console.ReadLine` pause is returned as a boolean `pauses`.
- Randomize.OpeningCoor: `constant * v + v` is computed on unbounded integers. The 32-bit
  wrap-around of the source is not modelled. The `double` casts around `Math.Floor`,
  `Math.Ceiling` and `Math.Abs` are exact on these integer values and are written as integer
  operations.
- WorldState.World.OpeningScale: the half-interior bound is proved only at player scale 1, the
  only scale `World.Initialize` sets (World.cs:166 and 182). At a larger player scale the default
  `(InteriorScale / 2) * PlayerScale` can exceed half the interior.
- WorldState.World.SetOpeningScale: keeping an opening that fits is proved only at player scale 1,
  for the same reason.
- WorldState.RotationKeepsViewDistinct: requires a non-negative value. A negative one makes C#'s
  `value % Dimensions` (World.cs:100) negative, and the setter would store an out-of-range
  dimension. The callers (Player.cs:341-347) pass the current dimension plus one.
- WorldState.World.GetCurrentDimensions: returns a copy, a sequence. In the source the caller
  gets the array itself, and the `DimensionX/Y/Z` setters write into it. `SetDimension` models
  that write directly, so aliasing of the returned array is not modelled.
- The `DimensionX/Y/Z` getters are `CurrentDimensions()[slot]` and have no member of their own.

## Findings

| source | as written | input that shows it | evidently intended | confidence | as-written member | corrected member |
|---|---|---|---|---|---|---|
| Randomize.cs:202 | When the entrance coordinate is 0, the exit coordinate is `RandInt(1, size - 1)`, that is `Next(1, size)`. | A dimension of size 1, which the input generator allows (minimum size 1). The entrance is 0 there, and `Next(1, 1)` returns 1, a coordinate outside the dimension. | In a one-cell dimension the exit coordinate is 0. | not executed | Randomize.ExitDrawAsWrittenLeavesDimension | Randomize.ExitDrawRangeStaysInside |
| World.cs:43-44 | A value below the minimum is rejected only when `value > OpeningScale * 2`. Otherwise it is stored, rounded up to odd. | `InteriorScale = 1` at player scale 1 with the default scales stores 1, below `MIN_INTERIOR_SCALE` (3). `InteriorScale = 3` with an interior of 9 and an opening of 4 stores 3, smaller than the opening's 8. | A value below the minimum, or not above twice the opening, keeps the current interior scale. | not executed | WorldState.InteriorScaleAsWrittenStoresTooSmall | WorldState.InteriorScaleStored |
