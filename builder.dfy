/**
 * The maze builder of `Maze.cs`: cells are created one grid step at a time by
 * `GetNeighbor`, each new wall is decided by `DefineBound`, open walls merge the
 * sets of the cells on both sides, `JoinSets` merges what is left, and every
 * finished cell is written into the `worldBounds` store.
 *
 * The per-cell fields `neighbors` and `bounds` live here as sequences indexed by
 * the cell numbers of the `Forest.Cells` arena; `worldBounds` is a map from a
 * coordinate tuple to the 16-bit wall mask stored there.
 */
module Builder {
  import opened Forest
  import opened Bits
  import Randomize
  import Openings

  /** A coordinate tuple inside a maze with the sizes `dInfo`. */
  predicate InMaze(c: seq<int>, dInfo: seq<int>)
  {
    |c| == |dInfo| && forall k :: 0 <= k < |c| ==> 0 <= c[k] < dInfo[k]
  }

  /** Every cell of the arena lies inside the maze. */
  predicate Placed(coords: seq<seq<int>>, dInfo: seq<int>)
  {
    forall x :: 0 <= x < |coords| ==> InMaze(coords[x], dInfo)
  }

  /** The coordinates one step further in dimension `d`. */
  function Step(c: seq<int>, d: int): (r: seq<int>)
    requires 0 <= d < |c|
    ensures |r| == |c| && r[d] == c[d] + 1
    ensures forall k :: 0 <= k < |c| && k != d ==> r[k] == c[k]
  {
    c[d := c[d] + 1]
  }

  /** Steps in two dimensions can be taken in either order. */
  lemma StepsCommute(c: seq<int>, d: int, n: int)
    requires 0 <= d < |c| && 0 <= n < |c|
    ensures Step(Step(c, d), n) == Step(Step(c, n), d)
  {
  }

  /**
   * The neighbour links: `neighbors[x][n]` is -1 or a cell one step further
   * than `x` in dimension `n`.
   */
  predicate NeighborsAt(neighbors: seq<seq<int>>, coords: seq<seq<int>>, dims: nat)
  {
    |neighbors| == |coords| &&
    forall x :: 0 <= x < |neighbors| ==>
      |neighbors[x]| == dims && |coords[x]| == dims &&
      forall n :: 0 <= n < dims ==>
        -1 <= neighbors[x][n] < |neighbors| &&
        (neighbors[x][n] != -1 ==> coords[neighbors[x][n]] == Step(coords[x], n))
  }

  /** The cells `x` is linked to in no dimension yet. */
  function Nulls(dims: nat): (r: seq<int>)
    ensures |r| == dims && forall n :: 0 <= n < dims ==> r[n] == -1
  {
    seq(dims, _ => -1)
  }

  /** The steps a cell at `c` can still take towards the far corner of the maze. */
  function Slack(c: seq<int>, dInfo: seq<int>): int
    requires |c| == |dInfo|
    decreases |c|
  {
    if c == [] then 0 else Slack(c[..|c| - 1], dInfo[..|c| - 1]) + (dInfo[|c| - 1] - 1 - c[|c| - 1])
  }

  /** Inside the maze no slack is negative. */
  lemma {:induction false} SlackNonNegative(c: seq<int>, dInfo: seq<int>)
    requires InMaze(c, dInfo)
    ensures Slack(c, dInfo) >= 0
    decreases |c|
  {
    if c != [] {
      SlackNonNegative(c[..|c| - 1], dInfo[..|c| - 1]);
    }
  }

  /** A step in any dimension uses up exactly one unit of slack. */
  lemma {:induction false} SlackStep(c: seq<int>, dInfo: seq<int>, d: int)
    requires |c| == |dInfo| && 0 <= d < |c|
    ensures Slack(Step(c, d), dInfo) == Slack(c, dInfo) - 1
    decreases |c|
  {
    var m := |c| - 1;
    if d < m {
      assert Step(c, d)[..m] == Step(c[..m], d);
      SlackStep(c[..m], dInfo[..m], d);
    } else {
      assert Step(c, d)[..m] == c[..m];
    }
  }

  /** Once no wall that was open has been closed. */
  ghost predicate NoWallClosed(b0: seq<bv16>, b1: seq<bv16>)
  {
    |b0| <= |b1| &&
    forall x, e :: 0 <= x < |b0| && 0 <= e < 16 && BoundBit(b0[x], e) == 0 ==> BoundBit(b1[x], e) == 0
  }

  /** Walls only opening is transitive. */
  lemma NoWallClosedTrans(b0: seq<bv16>, b1: seq<bv16>, b2: seq<bv16>)
    requires NoWallClosed(b0, b1) && NoWallClosed(b1, b2)
    ensures NoWallClosed(b0, b2)
  {
  }

  /**
   * `a` and `b` were joined: the old roots of their sets now share a root,
   * `a` and `b` do too when one of the two old sets was a single cell, and
   * every cell outside those two sets kept its set-mates.
   */
  ghost predicate Joined(p0: seq<int>, r0: seq<nat>, p1: seq<int>, r1: seq<nat>, a: int, b: int)
  {
    PairKept(p0, r0, p1, r1, a, b) &&
    Root(p1, r1, Root(p0, r0, a)) == Root(p1, r1, Root(p0, r0, b)) &&
    (|SetOf(p0, r0, a)| == 1 || |SetOf(p0, r0, b)| == 1 ==> Root(p1, r1, a) == Root(p1, r1, b))
  }

  /** Two cells already in one set are joined by doing nothing. */
  lemma JoinedAlready(p0: seq<int>, r0: seq<nat>, a: int, b: int)
    requires Ranked(p0, r0) && 0 <= a < |p0| && 0 <= b < |p0| && Root(p0, r0, a) == Root(p0, r0, b)
    ensures Joined(p0, r0, p0, r0, a, b)
  {
  }

  /** `sets.RemoveAll(x => x.parent != null)`: keeps the listed cells without a parent. */
  function Unparented(parent: seq<int>, s: seq<int>): (r: seq<int>)
    requires forall i :: 0 <= i < |s| ==> 0 <= s[i] < |parent|
    ensures forall y :: y in r <==> y in s && parent[y] == -1
    ensures |r| <= |s|
  {
    if s == [] then []
    else if parent[s[0]] == -1 then [s[0]] + Unparented(parent, s[1..])
    else Unparented(parent, s[1..])
  }

  /** A list of cells without parents loses nothing to `Unparented`. */
  lemma {:induction false} UnparentedKeepsRoots(parent: seq<int>, s: seq<int>)
    requires forall i :: 0 <= i < |s| ==> 0 <= s[i] < |parent| && parent[s[i]] == -1
    ensures Unparented(parent, s) == s
  {
    if s != [] {
      UnparentedKeepsRoots(parent, s[1..]);
    }
  }

  /** `List.Count`: how often `c` occurs in `s`. */
  function Count(s: seq<int>, c: int): (n: nat)
    ensures n <= |s|
    ensures n == 0 <==> c !in s
  {
    if s == [] then 0 else (if s[0] == c then 1 else 0) + Count(s[1..], c)
  }

  /** `List.RemoveAll(x => x == c)`. */
  function RemoveAll(s: seq<int>, c: int): (r: seq<int>)
    ensures forall y :: y in r <==> y in s && y != c
  {
    if s == [] then [] else if s[0] == c then RemoveAll(s[1..], c) else [s[0]] + RemoveAll(s[1..], c)
  }

  /**
   * One round of the duplicate pass of `JoinSets`, from index `i` on: the
   * first cell listed more than once has every copy removed and is listed
   * once more at the end.
   */
  function DedupFrom(s: seq<int>, i: nat): (r: seq<int>)
    ensures forall y :: y in r <==> y in s
    decreases |s| - i
  {
    if i >= |s| then s
    else if Count(s, s[i]) > 1 then RemoveAll(s, s[i]) + [s[i]]
    else DedupFrom(s, i + 1)
  }

  /** A cell occurs once in a list without duplicates. */
  lemma {:induction false} CountOnce(s: seq<int>, c: int)
    requires NoDup(s) && c in s
    ensures Count(s, c) == 1
  {
    if s[0] == c {
      assert c !in s[1..] by {
        forall j | 0 <= j < |s[1..]|
          ensures s[1..][j] != c
        {
          assert s[1..][j] == s[j + 1];
        }
      }
    } else {
      assert NoDup(s[1..]) by {
        forall i, j | 0 <= i < j < |s[1..]|
          ensures s[1..][i] != s[1..][j]
        {
          assert s[1..][i] == s[i + 1] && s[1..][j] == s[j + 1];
        }
      }
      CountOnce(s[1..], c);
    }
  }

  /** On a list without duplicates a round of the duplicate pass changes nothing. */
  lemma {:induction false} DedupKeepsDistinct(s: seq<int>, i: nat)
    requires NoDup(s)
    ensures DedupFrom(s, i) == s
    decreases |s| - i
  {
    if i < |s| {
      CountOnce(s, s[i]);
      DedupKeepsDistinct(s, i + 1);
    }
  }

  /** The neighbour of `x` in dimension `d` exists and lies in another set. */
  ghost predicate Outside(parent: seq<int>, rank: seq<nat>, neighbors: seq<seq<int>>, x: int, d: int)
    requires Ranked(parent, rank) && 0 <= x < |parent| && x < |neighbors|
  {
    0 <= d < |neighbors[x]| && 0 <= neighbors[x][d] < |parent| &&
    Root(parent, rank, x) != Root(parent, rank, neighbors[x][d])
  }

  /** No neighbour of `x` lies in another set. */
  ghost predicate Isolated(parent: seq<int>, rank: seq<nat>, neighbors: seq<seq<int>>, x: int)
    requires Ranked(parent, rank) && 0 <= x < |parent| && x < |neighbors|
  {
    forall d :: !Outside(parent, rank, neighbors, x, d)
  }

  /** The cells with no neighbour in another set. */
  ghost function IsolatedCells(parent: seq<int>, rank: seq<nat>, neighbors: seq<seq<int>>): set<int>
    requires Ranked(parent, rank)
  {
    set y | 0 <= y < |parent| && y < |neighbors| && Isolated(parent, rank, neighbors, y)
  }

  /**
   * One step of a breadth-first walk over the subtree of `x`: the first cell
   * of the queue is visited and its children are queued. Every cell of the
   * subtree stays queued or visited, and the queued subtrees shrink.
   */
  lemma QueueStep(parent: seq<int>, rank: seq<nat>, children: seq<seq<int>>, x: int,
                  queue: seq<int>, seen: set<int>, next: seq<int>)
    requires Ranked(parent, rank) && Linked(parent, children) && 0 <= x < |parent| && queue != []
    requires forall k :: 0 <= k < |queue| ==> queue[k] in Members(parent, rank, x)
    requires Members(parent, rank, x) <= MembersOfAll(parent, rank, queue) + seen
    requires next == queue[1..] + children[queue[0]]
    ensures forall k :: 0 <= k < |next| ==> next[k] in Members(parent, rank, x)
    ensures Members(parent, rank, x) <= MembersOfAll(parent, rank, next) + (seen + {queue[0]})
    ensures SumSizes(parent, rank, next) < SumSizes(parent, rank, queue)
  {
    assert queue[0] in Members(parent, rank, x);
    QueueStepInside(parent, rank, children, x, queue, next);
    QueueStepCovers(parent, rank, children, x, queue, seen, next);
  }

  /** The children queued by a step of the walk over the subtree of `x` lie in that subtree. */
  lemma QueueStepInside(parent: seq<int>, rank: seq<nat>, children: seq<seq<int>>, x: int,
                        queue: seq<int>, next: seq<int>)
    requires Ranked(parent, rank) && Linked(parent, children) && 0 <= x < |parent| && queue != []
    requires forall k :: 0 <= k < |queue| ==> queue[k] in Members(parent, rank, x)
    requires 0 <= queue[0] < |parent| && next == queue[1..] + children[queue[0]]
    ensures forall k :: 0 <= k < |next| ==> next[k] in Members(parent, rank, x)
  {
    var cur := queue[0];
    assert cur in Members(parent, rank, x);
    forall k | 0 <= k < |next|
      ensures next[k] in Members(parent, rank, x)
    {
      if k >= |queue| - 1 {
        var c := children[cur][k - (|queue| - 1)];
        assert c == next[k];
        assert parent[c] == cur;
      } else {
        assert next[k] == queue[k + 1];
      }
    }
  }

  /**
   * A step of the walk over the subtree of `x` moves the first cell of the
   * queue to the visited cells without losing a cell of the subtree, and the
   * queued subtrees shrink.
   */
  lemma QueueStepCovers(parent: seq<int>, rank: seq<nat>, children: seq<seq<int>>, x: int,
                        queue: seq<int>, seen: set<int>, next: seq<int>)
    requires Ranked(parent, rank) && Linked(parent, children) && 0 <= x < |parent| && queue != []
    requires Members(parent, rank, x) <= MembersOfAll(parent, rank, queue) + seen
    requires 0 <= queue[0] < |parent| && next == queue[1..] + children[queue[0]]
    ensures Members(parent, rank, x) <= MembersOfAll(parent, rank, next) + (seen + {queue[0]})
    ensures SumSizes(parent, rank, next) < SumSizes(parent, rank, queue)
  {
    var cur, rest, kids := queue[0], queue[1..], children[queue[0]];
    MembersOfAllFront(parent, rank, queue);
    SubtreeSplits(parent, rank, children, cur);
    SubtreeSize(parent, rank, children, cur);
    MembersOfAllAppend(parent, rank, rest, kids);
    ghost var mq, mr, mk := MembersOfAll(parent, rank, queue), MembersOfAll(parent, rank, rest), MembersOfAll(parent, rank, kids);
    assert mq == {cur} + mk + mr;
    assert MembersOfAll(parent, rank, next) == mr + mk;
  }

  /**
   * The neighbour links of the cells of `n0` are kept in `n1`, except that an
   * empty link in dimension `d` may have been filled.
   */
  predicate Filled(n0: seq<seq<int>>, n1: seq<seq<int>>, d: int)
  {
    |n0| <= |n1| &&
    forall z :: 0 <= z < |n0| ==>
      |n1[z]| == |n0[z]| &&
      forall k :: 0 <= k < |n0[z]| && (k != d || n0[z][k] != -1) ==> n1[z][k] == n0[z][k]
  }

  /** Filling links is transitive. */
  lemma FilledTrans(n0: seq<seq<int>>, n1: seq<seq<int>>, n2: seq<seq<int>>, d: int)
    requires Filled(n0, n1, d) && Filled(n1, n2, d)
    ensures Filled(n0, n2, d)
  {
  }

  /**
   * The walls of the cells of `b0` are kept in `b1`, except those in
   * dimension `d`.
   */
  ghost predicate OnlyDimension(b0: seq<bv16>, b1: seq<bv16>, d: int)
  {
    |b0| <= |b1| &&
    forall z, e :: 0 <= z < |b0| && 0 <= e < 16 && e != d ==> BoundBit(b1[z], e) == BoundBit(b0[z], e)
  }

  /**
   * The grid closes around `x`, its neighbour `y` in dimension `d` and its
   * neighbour in dimension `n`: when `x` has a neighbour in `n`, `y`'s
   * neighbour in `n` is that cell's neighbour in `d`.
   */
  predicate ClosesSquare(neighbors: seq<seq<int>>, x: int, y: int, d: int, n: int)
  {
    0 <= x < |neighbors| && 0 <= y < |neighbors| && 0 <= n < |neighbors[x]| && 0 <= n < |neighbors[y]| &&
    (neighbors[x][n] != -1 ==>
      0 <= neighbors[x][n] < |neighbors| && 0 <= d < |neighbors[neighbors[x][n]]| &&
      neighbors[y][n] != -1 && neighbors[y][n] == neighbors[neighbors[x][n]][d])
  }

  /**
   * A square that closed stays closed while links are only filled in
   * dimension `d` below `y`, and `y` keeps its links outside dimension `n`.
   */
  lemma SquareKept(n0: seq<seq<int>>, n1: seq<seq<int>>, x: int, y: int, d: int, n: int, m: int)
    requires 0 <= x < y < |n0| && d < n < m && ClosesSquare(n0, x, y, d, m)
    requires n0[x][m] != -1 ==> n0[x][m] < y
    requires Filled(n0[..y], n1, d) && y < |n1| && |n1[y]| == |n0[y]|
    requires forall k :: 0 <= k < |n0[y]| && k != n && n0[y][k] != -1 ==> n1[y][k] == n0[y][k]
    ensures ClosesSquare(n1, x, y, d, m)
  {
    if n0[x][m] != -1 {
      var w := n0[x][m];
      assert n0[..y][x][m] == w && n0[..y][w][d] == n0[w][d];
    }
  }

  /**
   * One pass of the loop of `GetNeighbor` keeps the links of the cells below
   * `y` filled only in dimension `d`, and adds the square closed in `n` to
   * those closed above it.
   */
  lemma LinkStep(o: seq<seq<int>>, n0: seq<seq<int>>, n1: seq<seq<int>>, x: int, y: int, d: int, n: int, top: int)
    requires 0 <= x < y < |o| && y < |n0| && 0 <= d < n < top <= |o[x]|
    requires forall m :: d < m < top && o[x][m] != -1 ==> o[x][m] < y
    requires Filled(o[..y], n0, d) && Filled(n0[..y], n1, d) && y < |n1| && |n1[y]| == |n0[y]|
    requires forall m :: n < m < top ==> ClosesSquare(n0, x, y, d, m)
    requires forall k :: 0 <= k < |n0[y]| && k != n && n0[y][k] != -1 ==> n1[y][k] == n0[y][k]
    ensures Filled(o[..y], n1, d)
    ensures forall m :: n < m < top ==> ClosesSquare(n1, x, y, d, m)
  {
    FilledTrans(o[..y], n0[..y], n1, d);
    forall m | n < m < top
      ensures ClosesSquare(n1, x, y, d, m)
    {
      assert o[..y][x][m] == o[x][m];
      SquareKept(n0, n1, x, y, d, n, m);
    }
  }

  /**
   * The links of `x` outside dimension `d` lead to cells below `y`, the cell
   * one step beyond `x` in `d` and the last in the arena.
   */
  lemma HigherLinksOld(neighbors: seq<seq<int>>, coords: seq<seq<int>>, x: int, y: int, d: int, dims: nat)
    requires NeighborsAt(neighbors, coords, dims) && 0 <= x < y == |neighbors| - 1 && 0 <= d < dims
    requires coords[y] == Step(coords[x], d)
    ensures forall m :: d < m < dims && neighbors[x][m] != -1 ==> neighbors[x][m] < y
  {
    forall m | d < m < dims && neighbors[x][m] != -1
      ensures neighbors[x][m] < y
    {
      assert coords[neighbors[x][m]][d] != coords[y][d];
    }
  }

  /** The coordinates of the first cell: all zero. */
  function Origin(dims: nat): (r: seq<int>)
    ensures |r| == dims && forall k :: 0 <= k < dims ==> r[k] == 0
  {
    seq(dims, _ => 0)
  }

  /** `MAX_DIMENSIONS`: one bit of the 16-bit wall mask per dimension. */
  const MaxDimensions := 16

  /** Some cell sits at `t`. */
  ghost predicate HasCellAt(coords: seq<seq<int>>, t: seq<int>)
  {
    exists c :: 0 <= c < |coords| && coords[c] == t
  }

  /** A cell survives any change that keeps the old cells where they were. */
  lemma HasCellKept(c0: seq<seq<int>>, c1: seq<seq<int>>, t: seq<int>)
    requires HasCellAt(c0, t) && |c0| <= |c1|
    requires forall z :: 0 <= z < |c0| ==> c1[z] == c0[z]
    ensures HasCellAt(c1, t)
  {
    var c :| 0 <= c < |c0| && c0[c] == t;
    assert c1[c] == t;
  }

  /** The point of the line through `c` along dimension `d` with coordinate `i` there. */
  function OnLine(c: seq<int>, d: int, i: int): (r: seq<int>)
    requires 0 <= d < |c|
    ensures |r| == |c| && r[d] == i && forall k :: 0 <= k < |c| && k != d ==> r[k] == c[k]
  {
    c[d := i]
  }

  /** A cell sits at every coordinate of the line through `c` along dimension `d`. */
  ghost predicate LineFilled(coords: seq<seq<int>>, c: seq<int>, dInfo: seq<int>, d: int)
    requires 0 <= d < |c| && |dInfo| == |c|
  {
    forall i :: 0 <= i < dInfo[d] ==> HasCellAt(coords, OnLine(c, d, i))
  }

  /** Every axis above `d` through the origin has a cell at each of its coordinates. */
  ghost predicate AxesAbove(coords: seq<seq<int>>, dInfo: seq<int>, d: int)
  {
    forall e :: 0 <= e < |dInfo| && d < e ==> LineFilled(coords, Origin(|dInfo|), dInfo, e)
  }

  /** Expanding dimension `d` extends `AxesAbove` from `d` down to `d - 1`. */
  lemma AxesStep(c0: seq<seq<int>>, c1: seq<seq<int>>, dInfo: seq<int>, d: int)
    requires 0 <= d < |dInfo| && AxesAbove(c0, dInfo, d) && |c0| <= |c1|
    requires forall z :: 0 <= z < |c0| ==> c1[z] == c0[z]
    requires LineFilled(c1, Origin(|dInfo|), dInfo, d)
    ensures AxesAbove(c1, dInfo, d - 1)
  {
    forall e | d < e < |dInfo|
      ensures LineFilled(c1, Origin(|dInfo|), dInfo, e)
    {
      assert LineFilled(c0, Origin(|dInfo|), dInfo, e);
      forall i | 0 <= i < dInfo[e]
        ensures HasCellAt(c1, OnLine(Origin(|dInfo|), e, i))
      {
        HasCellKept(c0, c1, OnLine(Origin(|dInfo|), e, i));
      }
    }
  }

  /**
   * The cells `Build` lays out before joining: the first at the origin and,
   * for every dimension, one at each coordinate of the axis through the origin.
   */
  ghost predicate Spans(coords: seq<seq<int>>, dInfo: seq<int>)
  {
    |coords| >= 1 && coords[0] == Origin(|dInfo|) && AxesAbove(coords, dInfo, -1)
  }

  /**
   * The sizes `Initialize` keeps: the first `MaxDimensions` of them, or all
   * when there are no more.
   */
  function Truncated(dInfo: seq<int>): (r: seq<int>)
    ensures |dInfo| >= 1 ==> 1 <= |r| <= MaxDimensions
    ensures |r| == if |dInfo| > MaxDimensions then MaxDimensions else |dInfo|
    ensures forall k :: 0 <= k < |r| ==> r[k] == dInfo[k]
  {
    if |dInfo| > MaxDimensions then dInfo[..MaxDimensions] else dInfo
  }

  /** The static state of `Maze` that the builder works on, with the per-cell fields. */
  class Maze {
    /** `dimensionInfo`: the size of the maze in each dimension. */
    const dInfo: seq<int>
    /** The cells, their set forest and the static `sets` list. */
    const cells: Forest.Cells
    /** The shared generator of `Randomize`. */
    const rng: Randomize.Randomizer
    /** Per cell, `neighbors`: the cell one step further in each dimension, or -1. */
    var neighbors: seq<seq<int>>
    /** Per cell, `bounds`: bit `d` is 1 while the wall ahead in dimension `d` is closed. */
    var bounds: seq<bv16>
    /** `worldBounds`: the wall masks written so far, by coordinates. */
    var store: map<seq<int>, bv16>

    ghost predicate Valid()
      reads this, cells
    {
      1 <= |dInfo| <= 16 && cells.dims == |dInfo| && cells.Valid() &&
      |neighbors| == |cells.parent| && |bounds| == |cells.parent| &&
      Placed(cells.coords, dInfo) && NeighborsAt(neighbors, cells.coords, |dInfo|) &&
      forall k :: k in store ==> InMaze(k, dInfo)
    }

    /**
     * `Maze.Initialize` up to `Build`: the sizes cut to at most
     * `MAX_DIMENSIONS` dimensions, no cells, an empty `sets` list and an empty
     * store.
     */
    constructor(dInfo: seq<int>, rng: Randomize.Randomizer)
      requires |dInfo| >= 1
      ensures Empty() && this.rng == rng && this.dInfo == Truncated(dInfo)
      ensures fresh(cells)
    {
      var kept := Truncated(dInfo);
      this.dInfo := kept;
      this.rng := rng;
      this.cells := new Forest.Cells(|kept|);
      neighbors, bounds, store := [], [], map[];
    }

    /** The state `Initialize` leaves before `Build`: no cells, no sets, nothing stored. */
    ghost predicate Empty()
      reads this, cells
    {
      1 <= |dInfo| <= MaxDimensions && cells.dims == |dInfo| &&
      cells.coords == [] && cells.parent == [] && cells.rank == [] && cells.children == [] &&
      cells.sets == [] && neighbors == [] && bounds == [] && store == map[]
    }

    /** The empty state keeps the builder's invariant. */
    lemma EmptyValid()
      requires Empty()
      ensures Valid()
    {
      cells.EmptyValid();
    }

    /** `EndOfDimension(_d)`: the cell is in the last slice of dimension `d`. */
    predicate EndOfDimension(x: int, d: int)
      requires Valid() && 0 <= x < |cells.coords| && 0 <= d < |dInfo|
      reads this, cells
    {
      cells.coords[x][d] == dInfo[d] - 1
    }

    /**
     * `MustExtendSet(_d)`: in the last dimension to be expanded, a first cell
     * of a set that is not at the end of the row has to open its wall.
     */
    predicate MustExtendSet(x: int, d: int)
      requires Valid() && 0 <= x < |cells.coords| && 0 <= d < |dInfo|
      reads this, cells
    {
      d == 0 && cells.parent[x] == -1 && !EndOfDimension(x, d)
    }

    /** `HasNeighbor(_d)`. */
    predicate HasNeighbor(x: int, d: int)
      requires Valid() && 0 <= x < |neighbors| && 0 <= d < |dInfo|
      reads this, cells
    {
      neighbors[x][d] != -1
    }

    /** `Open(_d)`: bit `d` of the cell's mask is 0. */
    predicate Open(x: int, d: int)
      requires Valid() && 0 <= x < |bounds| && 0 <= d < |dInfo|
      reads this, cells
    {
      BoundBit(bounds[x], d) == 0
    }

    /** `SameSet(_d)`: false without a neighbour, otherwise whether both share a root. */
    method SameSetIn(x: int, d: int) returns (same: bool)
      requires Valid() && 0 <= x < |neighbors| && 0 <= d < |dInfo|
      ensures same <==> neighbors[x][d] != -1 && !Outside(cells.parent, cells.rank, neighbors, x, d)
    {
      if neighbors[x][d] == -1 {
        return false;
      }
      same := cells.SameSet(x, neighbors[x][d]);
    }

    /**
     * `CreateNewCell(_coor)`: a cell at `c` with all walls closed, no neighbour
     * links, and a set of its own.
     */
    method CreateNewCell(c: seq<int>) returns (y: int)
      requires Valid() && InMaze(c, dInfo)
      modifies this, cells
      ensures Valid() && y == old(|cells.parent|)
      ensures cells.coords == old(cells.coords) + [c] && cells.parent == old(cells.parent) + [-1]
      ensures cells.children == old(cells.children) + [[]] && cells.sets == old(cells.sets) + [y]
      ensures forall z :: 0 <= z < y ==>
        Root(cells.parent, cells.rank, z) == old(Root(cells.parent, cells.rank, z))
      ensures neighbors == old(neighbors) + [Nulls(|dInfo|)] && bounds == old(bounds) + [AllClosed]
      ensures store == old(store)
    {
      y := cells.NewCell(c);
      neighbors := neighbors + [Nulls(|dInfo|)];
      bounds := bounds + [AllClosed];
    }

    /**
     * `AddNeighborToSet(_d)`: when the neighbour exists and is in another set,
     * the two sets are merged by `AddToSet`.
     */
    method AddNeighborToSet(x: int, d: int)
      requires Valid() && 0 <= x < |neighbors| && 0 <= d < |dInfo|
      modifies cells
      ensures Valid() && cells.coords == old(cells.coords)
      ensures old(neighbors[x][d]) == -1 ==> cells.parent == old(cells.parent) && cells.rank == old(cells.rank)
      ensures neighbors[x][d] != -1 ==>
        Joined(old(cells.parent), old(cells.rank), cells.parent, cells.rank, neighbors[x][d], x)
    {
      if !HasNeighbor(x, d) {
        return;
      }
      var nb := neighbors[x][d];
      var same := cells.SameSet(x, nb);
      if same {
        JoinedAlready(cells.parent, cells.rank, nb, x);
        return;
      }
      cells.AddToSet(nb, x);
    }

    /**
     * The bit `DefineBound(_d)` writes: a fair draw, overridden to closed
     * when the neighbour is already in the set or the cell ends the
     * dimension, and to open when the set must be extended.
     */
    method ChooseBound(x: int, d: int) returns (b: int)
      requires Valid() && 0 <= x < |neighbors| && 0 <= d < |dInfo|
      modifies rng
      ensures b == 0 || b == 1
      ensures |rng.draws| == old(|rng.draws|) + 1
      ensures MustExtendSet(x, d) ==> b == 0
      ensures EndOfDimension(x, d) ==> b == 1
      ensures neighbors[x][d] != -1 && !Outside(cells.parent, cells.rank, neighbors, x, d) && !MustExtendSet(x, d) ==>
        b == 1
      ensures !(neighbors[x][d] != -1 && !Outside(cells.parent, cells.rank, neighbors, x, d)) &&
              !EndOfDimension(x, d) && !MustExtendSet(x, d) ==>
        (b == 0 <==> rng.draws[old(|rng.draws|)] == 0)
    {
      b := rng.RandIntTo(1);
      var same := SameSetIn(x, d);
      if same || EndOfDimension(x, d) {
        b := 1;
      }
      if MustExtendSet(x, d) {
        b := 0;
      }
    }

    /**
     * The write at the end of `DefineBound(_d)`: bit `d` of the mask becomes
     * `b` and, when the wall opens, the neighbour's set is joined to this one.
     */
    method SetBound(x: int, d: int, b: int)
      requires Valid() && 0 <= x < |neighbors| && 0 <= d < |dInfo| && (b == 0 || b == 1)
      modifies this, cells
      ensures Valid() && cells.coords == old(cells.coords)
      ensures neighbors == old(neighbors) && store == old(store)
      ensures |bounds| == old(|bounds|)
      ensures forall z :: 0 <= z < |bounds| && z != x ==> bounds[z] == old(bounds[z])
      ensures forall e :: 0 <= e < 16 && e != d ==> BoundBit(bounds[x], e) == old(BoundBit(bounds[x], e))
      ensures Open(x, d) <==> b == 0
      ensures b == 1 ==> cells.parent == old(cells.parent) && cells.rank == old(cells.rank)
      ensures b == 0 && neighbors[x][d] != -1 ==>
        Joined(old(cells.parent), old(cells.rank), cells.parent, cells.rank, neighbors[x][d], x)
    {
      forall e | 0 <= e < 16
        ensures BoundBit(SetBoundBit(bounds[x], d as bv32, b), e) == if e == d then BitOf(b) else BoundBit(bounds[x], e)
      {
        SetBoundBitReads(bounds[x], d, b, e);
      }
      bounds := bounds[x := SetBoundBit(bounds[x], d as bv32, b)];
      if Open(x, d) {
        AddNeighborToSet(x, d);
      }
    }

    /**
     * `DefineBound(_d)`: bit `d` of the mask of `x` is drawn at random, forced
     * closed when the neighbour is already in the set or `x` is at the end of
     * the dimension, and forced open when `MustExtendSet` holds; an open wall
     * then merges the two sets.
     */
    method DefineBound(x: int, d: int)
      requires Valid() && 0 <= x < |neighbors| && 0 <= d < |dInfo|
      modifies this, cells, rng
      ensures Valid() && cells.coords == old(cells.coords)
      ensures neighbors == old(neighbors) && store == old(store)
      ensures |bounds| == old(|bounds|)
      ensures forall z :: 0 <= z < |bounds| && z != x ==> bounds[z] == old(bounds[z])
      ensures forall e :: 0 <= e < 16 && e != d ==> BoundBit(bounds[x], e) == old(BoundBit(bounds[x], e))
      ensures old(MustExtendSet(x, d)) ==> Open(x, d)
      ensures old(EndOfDimension(x, d)) ==> !Open(x, d)
      ensures old(neighbors[x][d] != -1 && !Outside(cells.parent, cells.rank, neighbors, x, d) &&
                  !MustExtendSet(x, d)) ==>
        !Open(x, d)
      ensures |rng.draws| == old(|rng.draws|) + 1
      ensures old(!(neighbors[x][d] != -1 && !Outside(cells.parent, cells.rank, neighbors, x, d)) &&
                  !EndOfDimension(x, d) && !MustExtendSet(x, d)) ==>
        (Open(x, d) <==> rng.draws[old(|rng.draws|)] == 0)
      ensures !Open(x, d) ==> cells.parent == old(cells.parent) && cells.rank == old(cells.rank)
      ensures Open(x, d) && neighbors[x][d] != -1 ==>
        Joined(old(cells.parent), old(cells.rank), cells.parent, cells.rank, neighbors[x][d], x)
    {
      var b := ChooseBound(x, d);
      SetBound(x, d, b);
    }

    /** `ForceOpenBound(_d)`: clears bit `d` of the mask of `x` and merges the two sets. */
    method ForceOpenBound(x: int, d: int)
      requires Valid() && 0 <= x < |neighbors| && 0 <= d < |dInfo|
      modifies this, cells
      ensures Valid() && cells.coords == old(cells.coords)
      ensures neighbors == old(neighbors) && store == old(store)
      ensures |bounds| == old(|bounds|)
      ensures forall z :: 0 <= z < |bounds| && z != x ==> bounds[z] == old(bounds[z])
      ensures forall e :: 0 <= e < 16 && e != d ==> BoundBit(bounds[x], e) == old(BoundBit(bounds[x], e))
      ensures Open(x, d)
      ensures NoWallClosed(old(bounds), bounds)
      ensures neighbors[x][d] != -1 ==>
        Joined(old(cells.parent), old(cells.rank), cells.parent, cells.rank, neighbors[x][d], x)
      ensures neighbors[x][d] == -1 ==> cells.parent == old(cells.parent) && cells.rank == old(cells.rank)
    {
      forall e | 0 <= e < 16
        ensures BoundBit(SetBoundBit(bounds[x], d as bv32, 0), e) == if e == d then 0 else BoundBit(bounds[x], e)
      {
        SetBoundBitReads(bounds[x], d, 0, e);
      }
      bounds := bounds[x := SetBoundBit(bounds[x], d as bv32, 0)];
      if Open(x, d) {
        AddNeighborToSet(x, d);
      }
    }

    /**
     * `NeighborsNotInSet`: the dimensions, in increasing order, in which `x`
     * has a neighbour in another set.
     */
    method NeighborsNotInSet(x: int) returns (ds: seq<int>)
      requires Valid() && 0 <= x < |neighbors|
      ensures forall d :: d in ds <==> 0 <= d < |dInfo| && Outside(cells.parent, cells.rank, neighbors, x, d)
      ensures forall i, j :: 0 <= i < j < |ds| ==> ds[i] < ds[j]
    {
      ds := [];
      var d := 0;
      while d < |dInfo|
        invariant 0 <= d <= |dInfo|
        invariant forall e :: e in ds <==> 0 <= e < d && Outside(cells.parent, cells.rank, neighbors, x, e)
        invariant forall i :: 0 <= i < |ds| ==> ds[i] < d
        invariant forall i, j :: 0 <= i < j < |ds| ==> ds[i] < ds[j]
      {
        if neighbors[x][d] != -1 {
          var same := SameSetIn(x, d);
          if !same {
            ds := ds + [d];
          }
        }
        d := d + 1;
      }
    }

    /**
     * `RandMerge`: when `x` has neighbours in other sets, opens the wall to one
     * of them, picked at random, and merges the two sets.
     */
    method RandMerge(x: int) returns (merged: bool)
      requires Valid() && 0 <= x < |neighbors|
      modifies this, cells, rng
      ensures Valid() && cells.coords == old(cells.coords) && neighbors == old(neighbors) && store == old(store)
      ensures NoWallClosed(old(bounds), bounds)
      ensures merged <==> old(!Isolated(cells.parent, cells.rank, neighbors, x))
      ensures !merged ==>
        bounds == old(bounds) && rng.draws == old(rng.draws) &&
        cells.parent == old(cells.parent) && cells.rank == old(cells.rank) &&
        cells.children == old(cells.children) && cells.sets == old(cells.sets)
      ensures merged ==>
        exists d :: 0 <= d < |dInfo| && old(Outside(cells.parent, cells.rank, neighbors, x, d)) &&
          Open(x, d) &&
          Joined(old(cells.parent), old(cells.rank), cells.parent, cells.rank, neighbors[x][d], x)
    {
      var ds := NeighborsNotInSet(x);
      if |ds| == 0 {
        assert Isolated(cells.parent, cells.rank, neighbors, x);
        return false;
      }
      var k := rng.RandIntTo(|ds| - 1);
      var d := ds[k];
      assert d in ds;
      ForceOpenBound(x, d);
      merged := true;
    }

    /**
     * `MergeSet`: a breadth-first walk over the subtree of `x` that stops at
     * the first cell where `RandMerge` merges. When it returns without a merge,
     * nothing has changed and no cell of the subtree had a neighbour in
     * another set.
     */
    method MergeSet(x: int) returns (merged: bool)
      requires Valid() && 0 <= x < |neighbors|
      modifies this, cells, rng
      ensures Valid() && cells.coords == old(cells.coords) && neighbors == old(neighbors) && store == old(store)
      ensures NoWallClosed(old(bounds), bounds)
      ensures !merged ==>
        bounds == old(bounds) && rng.draws == old(rng.draws) &&
        cells.parent == old(cells.parent) && cells.rank == old(cells.rank) &&
        cells.children == old(cells.children) && cells.sets == old(cells.sets)
      ensures !merged ==>
        forall y :: y in old(Members(cells.parent, cells.rank, x)) ==>
          old(Isolated(cells.parent, cells.rank, neighbors, y))
      ensures merged ==>
        exists y, d :: y in old(Members(cells.parent, cells.rank, x)) && 0 <= d < |dInfo| &&
          old(Outside(cells.parent, cells.rank, neighbors, y, d)) && Open(y, d) &&
          Joined(old(cells.parent), old(cells.rank), cells.parent, cells.rank, neighbors[y][d], y)
    {
      var queue := [x];
      ghost var seen: set<int> := {};
      ghost var p0, r0, ch0, s0, c0, n0, st0, b0, dr0 :=
        cells.parent, cells.rank, cells.children, cells.sets, cells.coords, neighbors, store, bounds, rng.draws;
      MembersOfAllFront(p0, r0, queue);
      while |queue| != 0
        invariant Valid() && cells.coords == c0 && neighbors == n0 && store == st0
        invariant bounds == b0 && rng.draws == dr0
        invariant cells.parent == p0 && cells.rank == r0 && cells.children == ch0 && cells.sets == s0
        invariant forall k :: 0 <= k < |queue| ==> queue[k] in Members(p0, r0, x)
        invariant Members(p0, r0, x) <= MembersOfAll(p0, r0, queue) + seen
        invariant seen <= IsolatedCells(p0, r0, n0)
        decreases SumSizes(p0, r0, queue)
      {
        var cur := queue[0];
        ghost var iso := Isolated(p0, r0, n0, cur);
        merged := RandMerge(cur);
        if merged {
          return;
        }
        assert cur in IsolatedCells(p0, r0, n0) by { assert iso; }
        QueueStep(p0, r0, ch0, x, queue, seen, queue[1..] + ch0[cur]);
        queue := queue[1..] + cells.children[cur];
        seen := seen + {cur};
      }
      merged := false;
    }

    /**
     * `JoinSets`: drops listed cells that have a parent, runs one round of the
     * duplicate pass, and lets every listed set try a `MergeSet`, until at most
     * one set is listed. `fuel` bounds the number of rounds.
     */
    method JoinSets(fuel: nat) returns (joined: bool)
      requires Valid()
      modifies this, cells, rng
      ensures Valid() && cells.coords == old(cells.coords) && neighbors == old(neighbors) && store == old(store)
      ensures NoWallClosed(old(bounds), bounds)
      ensures joined <==> |cells.sets| <= 1
      ensures old(|cells.sets|) <= 1 ==> joined && bounds == old(bounds) && cells.parent == old(cells.parent)
    {
      var f := fuel;
      while |cells.sets| > 1 && f > 0
        invariant Valid() && cells.coords == old(cells.coords) && neighbors == old(neighbors) && store == old(store)
        invariant NoWallClosed(old(bounds), bounds)
        invariant old(|cells.sets|) <= 1 ==> |cells.sets| <= 1 && bounds == old(bounds) && cells.parent == old(cells.parent)
        decreases f
      {
        TidySets();
        if |cells.sets| > 1 {
          ghost var b0 := bounds;
          MergePass();
          NoWallClosedTrans(old(bounds), b0, bounds);
        }
        f := f - 1;
      }
      joined := |cells.sets| <= 1;
    }

    /**
     * The start of a `JoinSets` round: the listed cells that have a parent
     * are dropped, then the duplicate pass runs once, which on a list of
     * distinct roots changes nothing.
     */
    method TidySets()
      requires Valid()
      modifies cells
      ensures Valid() && cells.coords == old(cells.coords) && cells.parent == old(cells.parent)
      ensures cells.rank == old(cells.rank) && cells.children == old(cells.children)
      ensures cells.sets == DedupFrom(Unparented(cells.parent, old(cells.sets)), 0)
      ensures cells.sets == Unparented(cells.parent, old(cells.sets))
    {
      UnparentedKeepsRoots(cells.parent, cells.sets);
      cells.sets := Unparented(cells.parent, cells.sets);
      DedupKeepsDistinct(cells.sets, 0);
      cells.sets := DedupFrom(cells.sets, 0);
    }

    /**
     * The merge pass of a `JoinSets` round: `MergeSet` on every listed cell
     * in turn, while the list itself changes under the merges. Walls only
     * open.
     */
    method MergePass()
      requires Valid()
      modifies this, cells, rng
      ensures Valid() && cells.coords == old(cells.coords) && neighbors == old(neighbors) && store == old(store)
      ensures NoWallClosed(old(bounds), bounds)
    {
      var i := 0;
      while i < |cells.sets|
        invariant Valid() && cells.coords == old(cells.coords) && neighbors == old(neighbors) && store == old(store)
        invariant NoWallClosed(old(bounds), bounds)
        invariant i <= |cells.parent|
        decreases |cells.parent| - i
      {
        NoDupBounded(cells.sets, |cells.parent|);
        ghost var b0 := bounds;
        var _ := MergeSet(cells.sets[i]);
        NoWallClosedTrans(old(bounds), b0, bounds);
        i := i + 1;
      }
    }

    /**
     * `WriteToMaze`: stores the wall mask of `x` at its coordinates in
     * `worldBounds`, then closes `x`, which takes it out of its set.
     */
    method WriteToMaze(x: int)
      requires Valid() && 0 <= x < |neighbors|
      modifies this, cells
      ensures Valid() && cells.coords == old(cells.coords) && neighbors == old(neighbors) && bounds == old(bounds)
      ensures store == old(store)[cells.coords[x] := bounds[x]]
      ensures TakenOut(old(cells.parent), old(cells.rank), cells.parent, cells.rank, cells.children, x)
      ensures x !in cells.sets
    {
      store := store[cells.coords[x] := bounds[x]];
      cells.RemoveFromSet(x);
    }

    /**
     * `GetNeighbor(_d)`: the cell one step further than `x` in dimension `d`.
     * When it does not exist yet it is created, the wall between them is
     * decided, the new cell is linked to, and its walls decided towards, the
     * cells that `x`'s higher-dimensional neighbours reach in dimension `d`;
     * in dimension 0, `x` is then written to the store.
     */
    method GetNeighbor(x: int, d: int) returns (y: int)
      requires Valid() && 0 <= x < |neighbors| && 0 <= d < |dInfo|
      requires cells.coords[x][d] + 1 < dInfo[d]
      modifies this, cells, rng
      ensures Valid() && |cells.coords| >= old(|cells.coords|)
      ensures forall z :: 0 <= z < old(|cells.coords|) ==> cells.coords[z] == old(cells.coords[z])
      ensures 0 <= y < |neighbors| && neighbors[x][d] == y && cells.coords[y] == Step(cells.coords[x], d)
      ensures Filled(old(neighbors), neighbors, d)
      ensures OnlyDimension(old(bounds), bounds, d)
      ensures forall k :: k in old(store) ==> k in store
      ensures old(neighbors[x][d]) != -1 ==>
        y == old(neighbors[x][d]) && neighbors == old(neighbors) && bounds == old(bounds) &&
        store == old(store) && cells.parent == old(cells.parent) && cells.coords == old(cells.coords)
      ensures old(neighbors[x][d]) == -1 ==> forall n :: d < n < |dInfo| ==> ClosesSquare(neighbors, x, y, d, n)
      decreases Slack(cells.coords[x], dInfo), 2
    {
      if neighbors[x][d] != -1 {
        return neighbors[x][d];
      }
      y := StartNeighbor(x, d);
      LinkHigher(x, y, d);
      if d == 0 {
        WriteToMaze(x);
      }
    }

    /**
     * The loop of `GetNeighbor` over the dimensions above `d`, from the top
     * down: the new cell `y` one step beyond `x` in dimension `d` is linked,
     * in each dimension `n` where `x` has a neighbour, to that neighbour's own
     * neighbour in dimension `d`.
     */
    method LinkHigher(x: int, y: int, d: int)
      requires Valid() && 0 <= x < y && y == |neighbors| - 1 && 0 <= d < |dInfo|
      requires cells.coords[x][d] + 1 < dInfo[d] && cells.coords[y] == Step(cells.coords[x], d)
      requires neighbors[x][d] == y
      modifies this, cells, rng
      ensures Valid() && |cells.coords| >= old(|cells.coords|)
      ensures forall z :: 0 <= z < old(|cells.coords|) ==> cells.coords[z] == old(cells.coords[z])
      ensures neighbors[x][d] == y
      ensures Filled(old(neighbors)[..y], neighbors, d)
      ensures OnlyDimension(old(bounds)[..y], bounds, d)
      ensures forall k :: k in old(store) ==> k in store
      ensures forall n :: d < n < |dInfo| ==> ClosesSquare(neighbors, x, y, d, n)
      decreases Slack(cells.coords[x], dInfo), 1
    {
      ghost var o := neighbors;
      HigherLinksOld(o, cells.coords, x, y, d, |dInfo|);
      var n := |dInfo| - 1;
      assert Filled(o[..y], neighbors, d);
      while n > d
        invariant d <= n < |dInfo|
        invariant Valid() && |cells.coords| >= old(|cells.coords|) && y < |neighbors|
        invariant forall z :: 0 <= z < old(|cells.coords|) ==> cells.coords[z] == old(cells.coords[z])
        invariant neighbors[x][d] == y
        invariant Filled(o[..y], neighbors, d)
        invariant OnlyDimension(old(bounds)[..y], bounds, d)
        invariant forall k :: k in old(store) ==> k in store
        invariant forall m :: n < m < |dInfo| ==> ClosesSquare(neighbors, x, y, d, m)
      {
        ghost var n0 := neighbors;
        LinkAcross(x, y, d, n);
        LinkStep(o, n0, neighbors, x, y, d, n, |dInfo|);
        n := n - 1;
      }
    }

    /**
     * The opening of `GetNeighbor` for a missing neighbour: the new cell is
     * created, linked from `x`, and the wall between them decided.
     */
    method StartNeighbor(x: int, d: int) returns (y: int)
      requires Valid() && 0 <= x < |neighbors| && 0 <= d < |dInfo|
      requires cells.coords[x][d] + 1 < dInfo[d] && neighbors[x][d] == -1
      modifies this, cells, rng
      ensures Valid() && y == old(|cells.coords|) && |cells.coords| == y + 1
      ensures forall z :: 0 <= z < y ==> cells.coords[z] == old(cells.coords[z])
      ensures neighbors[x][d] == y && cells.coords[y] == Step(cells.coords[x], d)
      ensures Filled(old(neighbors), neighbors, d)
      ensures OnlyDimension(old(bounds), bounds, d)
      ensures store == old(store)
      ensures Open(x, d) ==> Root(cells.parent, cells.rank, x) == Root(cells.parent, cells.rank, y)
    {
      y := CreateNewCell(Step(cells.coords[x], d));
      assert SetOf(cells.parent, cells.rank, y) == {y} by {
        forall z | 0 <= z < y
          ensures Root(cells.parent, cells.rank, z) != y
        {
          assert Root(cells.parent, cells.rank, z) == old(Root(cells.parent, cells.rank, z));
        }
      }
      neighbors := neighbors[x := neighbors[x][d := y]];
      DefineBound(x, d);
    }

    /**
     * One pass of the loop of `GetNeighbor`, for the new cell `y` one step
     * beyond `x` in dimension `d`: when `x` has a neighbour in dimension `n`,
     * that neighbour's own neighbour in dimension `d` becomes `y`'s neighbour
     * in dimension `n`, and the wall between them is decided.
     */
    method LinkAcross(x: int, y: int, d: int, n: int)
      requires Valid() && 0 <= x < y < |neighbors| && 0 <= d < n < |dInfo|
      requires cells.coords[x][d] + 1 < dInfo[d] && cells.coords[y] == Step(cells.coords[x], d)
      requires neighbors[x][d] == y
      modifies this, cells, rng
      ensures Valid() && |cells.coords| >= old(|cells.coords|)
      ensures forall z :: 0 <= z < old(|cells.coords|) ==> cells.coords[z] == old(cells.coords[z])
      ensures neighbors[x][d] == y
      ensures Filled(old(neighbors)[..y], neighbors, d)
      ensures OnlyDimension(old(bounds)[..y], bounds, d)
      ensures forall k :: k in old(store) ==> k in store
      ensures ClosesSquare(neighbors, x, y, d, n)
      ensures forall k :: 0 <= k < |dInfo| && k != n && old(neighbors[y][k]) != -1 ==> neighbors[y][k] == old(neighbors[y][k])
      ensures old(neighbors[x][n]) == -1 ==> neighbors == old(neighbors) && bounds == old(bounds)
      decreases Slack(cells.coords[x], dInfo), 0
    {
      if !HasNeighbor(x, n) {
        return;
      }
      var w := neighbors[x][n];
      SlackStep(cells.coords[x], dInfo, n);
      SlackNonNegative(cells.coords[w], dInfo);
      ghost var n0 := neighbors;
      var z := GetNeighbor(w, d);
      assert neighbors[x][n] == w;
      assert forall k :: 0 <= k < |dInfo| && k != d ==> neighbors[y][k] == n0[y][k];
      StepsCommute(cells.coords[x], d, n);
      LinkTo(y, n, z);
    }

    /**
     * The end of a pass of the loop of `GetNeighbor`: `z` becomes the
     * neighbour of `y` in dimension `n`, and the wall between them is decided.
     */
    method LinkTo(y: int, n: int, z: int)
      requires Valid() && 0 <= y < |neighbors| && 0 <= z < |neighbors| && 0 <= n < |dInfo|
      requires cells.coords[z] == Step(cells.coords[y], n)
      modifies this, cells, rng
      ensures Valid() && cells.coords == old(cells.coords) && store == old(store)
      ensures neighbors == old(neighbors)[y := old(neighbors)[y][n := z]]
      ensures |bounds| == old(|bounds|)
      ensures forall v :: 0 <= v < |bounds| && v != y ==> bounds[v] == old(bounds[v])
    {
      neighbors := neighbors[y := neighbors[y][n := z]];
      DefineBound(y, n);
    }

    /**
     * `ExpandDimension(_d, _cell)`: walks from `root` along dimension `d` to
     * the end of the maze, creating the cells on the way with `GetNeighbor`.
     */
    method ExpandDimension(d: int, root: int)
      requires Valid() && 0 <= root < |neighbors| && 0 <= d < |dInfo| && cells.coords[root][d] == 0
      modifies this, cells, rng
      ensures Valid() && |cells.coords| >= old(|cells.coords|)
      ensures forall z :: 0 <= z < old(|cells.coords|) ==> cells.coords[z] == old(cells.coords[z])
      ensures LineFilled(cells.coords, old(cells.coords[root]), dInfo, d)
      ensures forall k :: k in old(store) ==> k in store
    {
      ghost var c := cells.coords[root];
      var current := root;
      var i := 0;
      assert OnLine(c, d, 0) == c;
      while i < dInfo[d] - 1
        invariant Valid() && |cells.coords| >= old(|cells.coords|) && 0 <= i <= dInfo[d] - 1
        invariant forall z :: 0 <= z < old(|cells.coords|) ==> cells.coords[z] == old(cells.coords[z])
        invariant 0 <= current < |cells.coords| && cells.coords[current] == OnLine(c, d, i)
        invariant forall j :: 0 <= j <= i ==> HasCellAt(cells.coords, OnLine(c, d, j))
        invariant forall k :: k in old(store) ==> k in store
      {
        ghost var c0 := cells.coords;
        current := GetNeighbor(current, d);
        forall j | 0 <= j <= i
          ensures HasCellAt(cells.coords, OnLine(c, d, j))
        {
          HasCellKept(c0, cells.coords, OnLine(c, d, j));
        }
        i := i + 1;
        assert cells.coords[current] == OnLine(c, d, i);
      }
    }

    /**
     * `WriteSetToMaze`: writes the cells below `x` child by child, each with
     * its own subtree first, then writes `x`. Every write takes a cell out of
     * its set, so fewer cells share a set afterwards.
     */
    method WriteSetToMaze(x: int)
      requires Valid() && 0 <= x < |neighbors|
      modifies this, cells
      ensures Valid() && cells.coords == old(cells.coords) && neighbors == old(neighbors) && bounds == old(bounds)
      ensures cells.coords[x] in store && store[cells.coords[x]] == bounds[x]
      ensures forall k :: k in old(store) ==> k in store
      ensures cells.parent[x] == -1 && cells.children[x] == [] && x !in cells.sets
      ensures Grouped(cells.parent, cells.rank) <= old(Grouped(cells.parent, cells.rank)) - {x}
      decreases |Grouped(cells.parent, cells.rank)|, |Members(cells.parent, cells.rank, x)|
    {
      ghost var p0, r0 := cells.parent, cells.rank;
      while |cells.children[x]| > 0
        invariant Valid() && cells.coords == old(cells.coords) && neighbors == old(neighbors) && bounds == old(bounds)
        invariant forall k :: k in old(store) ==> k in store
        invariant Grouped(cells.parent, cells.rank) <= Grouped(p0, r0)
        invariant |Grouped(cells.parent, cells.rank)| < |Grouped(p0, r0)| || (cells.parent == p0 && cells.rank == r0)
        decreases |Grouped(cells.parent, cells.rank)|
      {
        var c := cells.children[x][0];
        WriteChild(x, c);
      }
      ghost var p1, r1 := cells.parent, cells.rank;
      WriteToMaze(x);
      TakenOutUngroups(p1, r1, cells.parent, cells.rank, cells.children, x);
    }

    /** One pass of the loop of `WriteSetToMaze`: the child `c` of `x` and its subtree are written. */
    method WriteChild(x: int, c: int)
      requires Valid() && 0 <= x < |neighbors| && 0 <= c < |neighbors| && cells.parent[c] == x
      modifies this, cells
      ensures Valid() && cells.coords == old(cells.coords) && neighbors == old(neighbors) && bounds == old(bounds)
      ensures forall k :: k in old(store) ==> k in store
      ensures Grouped(cells.parent, cells.rank) <= old(Grouped(cells.parent, cells.rank))
      ensures |Grouped(cells.parent, cells.rank)| < old(|Grouped(cells.parent, cells.rank)|)
      decreases |Grouped(cells.parent, cells.rank)|, |Members(cells.parent, cells.rank, x)|, 0
    {
      ghost var g0 := Grouped(cells.parent, cells.rank);
      ChildMembers(cells.parent, cells.rank, x, c);
      RootStep(cells.parent, cells.rank, c);
      assert c in g0;
      WriteSetToMaze(c);
      SmallerSet(Grouped(cells.parent, cells.rank), g0, c);
    }

    /** `GetFirstCell`: the first cell of the maze, at the origin. */
    method GetFirstCell() returns (root: int)
      requires Valid() && cells.coords == [] && forall k :: 0 <= k < |dInfo| ==> dInfo[k] >= 1
      modifies this, cells
      ensures Valid() && root == 0 && cells.coords == [Origin(|dInfo|)]
    {
      root := CreateNewCell(Origin(|dInfo|));
    }

    /**
     * The loop of `ExpandDimension` calls in `Build`, from the last dimension
     * to the first: for every dimension, a cell ends up at the far end of the
     * axis through the first cell.
     */
    method ExpandAxes()
      requires Valid() && |cells.coords| >= 1 && cells.coords[0] == Origin(|dInfo|)
      requires forall k :: 0 <= k < |dInfo| ==> dInfo[k] >= 1
      modifies this, cells, rng
      ensures Valid() && Spans(cells.coords, dInfo)
    {
      var d := |dInfo| - 1;
      while d >= 0
        invariant -1 <= d < |dInfo| && Valid() && |cells.coords| >= 1 && cells.coords[0] == Origin(|dInfo|)
        invariant AxesAbove(cells.coords, dInfo, d)
      {
        ghost var c0 := cells.coords;
        ExpandDimension(d, 0);
        AxesStep(c0, cells.coords, dInfo, d);
        d := d - 1;
      }
    }

    /**
     * `Build`: the first cell and the axes laid out, the sets joined, the set
     * still listed first written, and the entrance and exit drawn.
     */
    method Build(fuel: nat) returns (entrance: seq<int>, exit: seq<int>, initialD: array<int>)
      requires Empty() && forall k :: 0 <= k < |dInfo| ==> dInfo[k] >= 1
      modifies this, cells, rng
      ensures Valid() && Spans(cells.coords, dInfo)
      ensures Randomize.InGrid(entrance, dInfo) && Randomize.TouchesFace(entrance, dInfo)
      ensures Randomize.InGrid(exit, dInfo) && Randomize.TouchesFace(exit, dInfo)
      ensures Randomize.AvoidsFaces(exit, entrance, dInfo)
      ensures fresh(initialD) && initialD[..] == Openings.InitialDims(entrance, dInfo)
    {
      EmptyValid();
      var _ := GetFirstCell();
      ExpandAxes();
      var _ := JoinSets(fuel);
      if |cells.sets| > 0 {
        WriteSetToMaze(cells.sets[0]);
      }
      entrance, exit, initialD := Openings.GetOpenings(rng, dInfo);
    }
  }
}
