/**
 * The set forest of the maze builder (the `Cell` class of Maze.cs, its `parent`
 * link, its `childern` list and the static `sets` list of first cells).
 *
 * Cells live in an arena and are named by their index; the index -1 stands for
 * a null reference. A ghost rank on every cell certifies that following parent
 * links always ends at a root: that is what makes `GetFirstInSet` terminate.
 * Two cells are in one set when they reach the same root.
 */
module Forest {

  /** No value occurs twice in `s`. */
  predicate NoDup(s: seq<int>)
  {
    forall i, j :: 0 <= i < j < |s| ==> s[i] != s[j]
  }

  /** `List.Remove`: drops the first occurrence of `x`, if there is one. */
  function RemoveFirst(s: seq<int>, x: int): (r: seq<int>)
    ensures x in s ==> |r| == |s| - 1
    ensures x !in s ==> r == s
    ensures forall y :: y in r ==> y in s
    ensures forall y :: y != x && y in s ==> y in r
    ensures NoDup(s) ==> NoDup(r) && x !in r
  {
    if s == [] then []
    else if s[0] == x then
      assert forall y :: y in s && y != x ==> y in s[1..];
      s[1..]
    else
      var rest := RemoveFirst(s[1..], x);
      assert forall y :: y in s && y != x && y != s[0] ==> y in s[1..];
      assert NoDup(s) ==> s[0] !in s[1..];
      [s[0]] + rest
  }

  /** A duplicate-free list of values below `n` is no longer than `n`. */
  lemma {:induction false} NoDupBounded(s: seq<int>, n: nat)
    requires NoDup(s) && forall i :: 0 <= i < |s| ==> 0 <= s[i] < n
    ensures |s| <= n
    decreases n
  {
    if n > 0 {
      var rest := RemoveFirst(s, n - 1);
      forall i | 0 <= i < |rest|
        ensures 0 <= rest[i] < n - 1
      {
        assert rest[i] in rest;
        var j :| 0 <= j < |s| && s[j] == rest[i];
      }
      NoDupBounded(rest, n - 1);
    }
  }

  /**
   * Parent links stay in the arena and lead to a cell of strictly smaller rank,
   * so no chain of parent links is a cycle.
   */
  ghost predicate Ranked(parent: seq<int>, rank: seq<nat>)
  {
    |rank| == |parent| &&
    forall x :: 0 <= x < |parent| ==>
      -1 <= parent[x] < |parent| && (parent[x] != -1 ==> rank[parent[x]] < rank[x])
  }

  /** The root reached from `x` by parent links: what `GetFirstInSet` returns. */
  ghost function Root(parent: seq<int>, rank: seq<nat>, x: int): (r: int)
    requires Ranked(parent, rank) && 0 <= x < |parent|
    ensures 0 <= r < |parent| && parent[r] == -1
    decreases rank[x]
  {
    if parent[x] == -1 then x else Root(parent, rank, parent[x])
  }

  /** `x` lies on the path from `y` to its root: `y` is in the subtree of `x`. */
  ghost predicate Below(parent: seq<int>, rank: seq<nat>, y: int, x: int)
    requires Ranked(parent, rank) && 0 <= y < |parent|
    decreases rank[y]
  {
    y == x || (parent[y] != -1 && Below(parent, rank, parent[y], x))
  }

  /** The cells of the subtree of `x`. */
  ghost function Members(parent: seq<int>, rank: seq<nat>, x: int): set<int>
    requires Ranked(parent, rank)
  {
    set y | 0 <= y < |parent| && Below(parent, rank, y, x)
  }

  /** The cells in the set of `x`: those with the same root. */
  ghost function SetOf(parent: seq<int>, rank: seq<nat>, x: int): set<int>
    requires Ranked(parent, rank) && 0 <= x < |parent|
  {
    set y | 0 <= y < |parent| && Root(parent, rank, y) == Root(parent, rank, x)
  }

  /** Every cell on the path above `y` has a rank no larger than `y`'s. */
  lemma {:induction false} BelowRank(parent: seq<int>, rank: seq<nat>, y: int, x: int)
    requires Ranked(parent, rank) && 0 <= y < |parent| && Below(parent, rank, y, x)
    ensures 0 <= x < |parent| && rank[x] <= rank[y]
    decreases rank[y]
  {
    if y != x {
      BelowRank(parent, rank, parent[y], x);
    }
  }

  /** The root of `y` is on its path. */
  lemma {:induction false} BelowRoot(parent: seq<int>, rank: seq<nat>, y: int)
    requires Ranked(parent, rank) && 0 <= y < |parent|
    ensures Below(parent, rank, y, Root(parent, rank, y))
    decreases rank[y]
  {
    if parent[y] != -1 {
      BelowRoot(parent, rank, parent[y]);
    }
  }

  /** A root on the path of `y` is the root of `y`. */
  lemma {:induction false} RootOnPath(parent: seq<int>, rank: seq<nat>, y: int, r: int)
    requires Ranked(parent, rank) && 0 <= y < |parent| && Below(parent, rank, y, r)
    requires 0 <= r < |parent| && parent[r] == -1
    ensures Root(parent, rank, y) == r
    decreases rank[y]
  {
    if y != r {
      RootOnPath(parent, rank, parent[y], r);
    }
  }

  /** The subtree of a root is its set. */
  lemma RootMembers(parent: seq<int>, rank: seq<nat>, x: int)
    requires Ranked(parent, rank) && 0 <= x < |parent|
    ensures Members(parent, rank, Root(parent, rank, x)) == SetOf(parent, rank, x)
  {
    var r := Root(parent, rank, x);
    forall y | 0 <= y < |parent|
      ensures Below(parent, rank, y, r) <==> Root(parent, rank, y) == r
    {
      if Below(parent, rank, y, r) {
        RootOnPath(parent, rank, y, r);
      } else if Root(parent, rank, y) == r {
        BelowRoot(parent, rank, y);
      }
    }
  }

  /** Paths are chains: two cells on the path of `y` lie one on the path of the other. */
  lemma {:induction false} PathIsChain(parent: seq<int>, rank: seq<nat>, y: int, a: int, b: int)
    requires Ranked(parent, rank) && 0 <= y < |parent|
    requires Below(parent, rank, y, a) && Below(parent, rank, y, b)
    ensures 0 <= a < |parent| && 0 <= b < |parent|
    ensures Below(parent, rank, a, b) || Below(parent, rank, b, a)
    decreases rank[y]
  {
    BelowRank(parent, rank, y, a);
    BelowRank(parent, rank, y, b);
    if y != a && y != b {
      PathIsChain(parent, rank, parent[y], a, b);
    }
  }

  /** Being below is transitive. */
  lemma {:induction false} BelowTrans(parent: seq<int>, rank: seq<nat>, y: int, x: int, z: int)
    requires Ranked(parent, rank) && 0 <= y < |parent| && 0 <= x < |parent|
    requires Below(parent, rank, y, x) && Below(parent, rank, x, z)
    ensures Below(parent, rank, y, z)
    decreases rank[y]
  {
    if y != x {
      BelowTrans(parent, rank, parent[y], x, z);
    }
  }

  /**
   * Children lists and parent links agree: every listed child names its parent,
   * every cell with a parent is listed by it, and no list repeats a cell.
   */
  predicate Linked(parent: seq<int>, children: seq<seq<int>>)
  {
    |children| == |parent| &&
    (forall p, k :: 0 <= p < |children| && 0 <= k < |children[p]| ==>
      0 <= children[p][k] < |parent| && parent[children[p][k]] == p) &&
    (forall x {:trigger children[parent[x]]} :: 0 <= x < |parent| && 0 <= parent[x] < |parent| ==> x in children[parent[x]]) &&
    (forall p :: 0 <= p < |children| ==> NoDup(children[p]))
  }

  /** The `sets` list: distinct cells, each without a parent. */
  predicate SetsAreRoots(parent: seq<int>, sets: seq<int>)
  {
    NoDup(sets) && forall i :: 0 <= i < |sets| ==> 0 <= sets[i] < |parent| && parent[sets[i]] == -1
  }

  /** Below a cell other than itself there is a child of it. */
  lemma {:induction false} BelowThroughChild(parent: seq<int>, rank: seq<nat>, y: int, x: int)
    requires Ranked(parent, rank) && 0 <= y < |parent| && Below(parent, rank, y, x) && y != x
    ensures exists z :: 0 <= z < |parent| && parent[z] == x && Below(parent, rank, y, z)
    decreases rank[y]
  {
    if parent[y] != x {
      BelowThroughChild(parent, rank, parent[y], x);
      var z :| 0 <= z < |parent| && parent[z] == x && Below(parent, rank, parent[y], z);
      assert Below(parent, rank, y, z);
    }
  }

  /** A childless cell has only itself in its subtree. */
  lemma ChildlessAlone(parent: seq<int>, rank: seq<nat>, children: seq<seq<int>>, y: int, x: int)
    requires Ranked(parent, rank) && Linked(parent, children)
    requires 0 <= y < |parent| && 0 <= x < |parent| && children[x] == []
    requires Below(parent, rank, y, x)
    ensures y == x
  {
    if y != x {
      BelowThroughChild(parent, rank, y, x);
      assert false;
    }
  }

  /**
   * A root's value does not depend on parent links off its path: if every cell
   * on the path of `y` keeps its link, `y` keeps its root.
   */
  lemma {:induction false} RootAlongKeptPath(p0: seq<int>, r0: seq<nat>, p1: seq<int>, r1: seq<nat>, y: int)
    requires Ranked(p0, r0) && Ranked(p1, r1) && |p1| == |p0| && 0 <= y < |p0|
    requires forall z :: 0 <= z < |p0| && Below(p0, r0, y, z) ==> p1[z] == p0[z]
    ensures Root(p1, r1, y) == Root(p0, r0, y)
    decreases r0[y]
  {
    if p0[y] != -1 {
      forall z | 0 <= z < |p0| && Below(p0, r0, p0[y], z)
        ensures p1[z] == p0[z]
      {
        assert Below(p0, r0, y, z);
      }
      RootAlongKeptPath(p0, r0, p1, r1, p0[y]);
    }
  }

  /**
   * Each cell names the root of its set: a cell without a parent names itself,
   * any other cell names what its parent names.
   */
  ghost predicate Owned(parent: seq<int>, owner: seq<int>)
  {
    |owner| == |parent| &&
    forall x :: 0 <= x < |parent| ==>
      if parent[x] == -1 then owner[x] == x
      else 0 <= parent[x] < |parent| && owner[x] == owner[parent[x]]
  }

  /** The only labelling that is `Owned` is the roots. */
  lemma {:induction false} OwnerIsRoot(parent: seq<int>, rank: seq<nat>, owner: seq<int>, y: int)
    requires Ranked(parent, rank) && Owned(parent, owner) && 0 <= y < |parent|
    ensures owner[y] == Root(parent, rank, y)
    decreases rank[y]
  {
    if parent[y] != -1 {
      OwnerIsRoot(parent, rank, owner, parent[y]);
    }
  }

  /** One more cell of `cs` hung under `t`: the parents follow the longer prefix. */
  lemma AdoptStep(p0: seq<int>, pi: seq<int>, pn: seq<int>, cs: seq<int>, i: int, t: int)
    requires 0 <= i < |cs| && |pi| == |p0|
    requires forall y :: 0 <= y < |pi| ==> pi[y] == if y in cs[..i] && y != t then t else p0[y]
    requires cs[i] != t ==> 0 <= cs[i] < |pi| && pn == pi[cs[i] := t]
    requires cs[i] == t ==> pn == pi
    ensures |pn| == |p0|
    ensures forall y :: 0 <= y < |pn| ==> pn[y] == if y in cs[..i + 1] && y != t then t else p0[y]
  {
    assert cs[..i + 1] == cs[..i] + [cs[i]];
  }

  /** The roots themselves are an `Owned` labelling. */
  ghost function Roots(parent: seq<int>, rank: seq<nat>): (owner: seq<int>)
    requires Ranked(parent, rank)
    ensures |owner| == |parent| && Owned(parent, owner)
    ensures forall y :: 0 <= y < |parent| ==> owner[y] == Root(parent, rank, y)
  {
    seq(|parent|, y requires 0 <= y < |parent| => Root(parent, rank, y))
  }

  /**
   * The ranks after `AddChild(t, c)` hangs the root `c` under `t`: the whole tree
   * of `c` climbs above the rank of `t`.
   */
  ghost function Shifted(parent: seq<int>, rank: seq<nat>, t: int, c: int): (r: seq<nat>)
    requires Ranked(parent, rank) && 0 <= t < |parent|
    ensures |r| == |parent|
  {
    seq(|parent|, y requires 0 <= y < |parent| =>
      if Root(parent, rank, y) == c then rank[y] + rank[t] + 1 else rank[y])
  }

  /** Hanging a root under a cell of another tree keeps the links acyclic. */
  lemma AttachRanked(parent: seq<int>, rank: seq<nat>, t: int, c: int)
    requires Ranked(parent, rank) && 0 <= t < |parent| && 0 <= c < |parent|
    requires parent[c] == -1 && Root(parent, rank, t) != c
    ensures Ranked(parent[c := t], Shifted(parent, rank, t, c))
  {
    var p1, r1 := parent[c := t], Shifted(parent, rank, t, c);
    forall x | 0 <= x < |p1| && p1[x] != -1
      ensures r1[p1[x]] < r1[x]
    {
      if x != c {
        assert Root(parent, rank, x) == Root(parent, rank, parent[x]);
      }
    }
  }

  /** Detaching a cell from its parent keeps the children lists consistent. */
  lemma DetachLinked(parent: seq<int>, children: seq<seq<int>>, x: int)
    requires Linked(parent, children) && 0 <= x < |parent| && 0 <= parent[x] < |parent|
    ensures Linked(parent[x := -1], children[parent[x] := RemoveFirst(children[parent[x]], x)])
  {
    var p := parent[x];
    var p1, c1 := parent[x := -1], children[p := RemoveFirst(children[p], x)];
    forall q, k | 0 <= q < |c1| && 0 <= k < |c1[q]|
      ensures 0 <= c1[q][k] < |p1| && p1[c1[q][k]] == q
    {
      if q == p {
        assert c1[q][k] in children[p];
      }
    }
  }

  /** Appending a cell without a parent to a children list keeps them consistent. */
  lemma AttachLinked(parent: seq<int>, children: seq<seq<int>>, t: int, c: int)
    requires Linked(parent, children) && 0 <= t < |parent| && 0 <= c < |parent|
    requires parent[c] == -1 && t != c
    ensures Linked(parent[c := t], children[t := children[t] + [c]])
  {
    var p1, c1 := parent[c := t], children[t := children[t] + [c]];
    assert c !in children[t];
    forall q, k | 0 <= q < |c1| && 0 <= k < |c1[q]|
      ensures 0 <= c1[q][k] < |p1| && p1[c1[q][k]] == q
    {
      if q == t && k < |children[t]| {
        assert c1[q][k] == children[t][k];
      }
    }
  }

  /** The sign of `v`: -1, 0 or 1. */
  function Sign(v: int): (r: int)
    ensures r == -1 <==> v < 0
    ensures r == 1 <==> v > 0
    ensures r == 0 <==> v == 0
  {
    if v < 0 then -1 else if v > 0 then 1 else 0
  }

  /**
   * `CompareTo` on cells with coordinates `a`, `b` and `na`, `nb` children: the
   * first coordinate that differs decides; equal coordinates fall back to the
   * number of children.
   */
  function Compare(a: seq<int>, b: seq<int>, na: int, nb: int): int
    requires |a| == |b|
    decreases |a|
  {
    if a == [] then Sign(na - nb)
    else if a[0] < b[0] then -1
    else if a[0] > b[0] then 1
    else Compare(a[1..], b[1..], na, nb)
  }

  /** `Compare` is decided at the first index where the coordinates differ. */
  lemma {:induction false} CompareAtFirstDifference(a: seq<int>, b: seq<int>, na: int, nb: int, i: nat)
    requires |a| == |b| && i <= |a| && a[..i] == b[..i] && (i < |a| ==> a[i] != b[i])
    ensures Compare(a, b, na, nb) == if i == |a| then Sign(na - nb) else Sign(a[i] - b[i])
    decreases |a|
  {
    if a != [] && i > 0 {
      assert a[0] == a[..i][0] && b[0] == b[..i][0];
      assert a[1..][..i - 1] == a[..i][1..] && b[1..][..i - 1] == b[..i][1..];
      CompareAtFirstDifference(a[1..], b[1..], na, nb, i - 1);
    }
  }

  /** Swapping the operands negates `Compare`. */
  lemma {:induction false} CompareAntisymmetric(a: seq<int>, b: seq<int>, na: int, nb: int)
    requires |a| == |b|
    ensures Compare(b, a, nb, na) == -Compare(a, b, na, nb)
    decreases |a|
  {
    if a != [] && a[0] == b[0] {
      CompareAntisymmetric(a[1..], b[1..], na, nb);
    }
  }

  /** `Compare` is 0 exactly for equal coordinates and equal child counts. */
  lemma {:induction false} CompareZero(a: seq<int>, b: seq<int>, na: int, nb: int)
    requires |a| == |b|
    ensures Compare(a, b, na, nb) == 0 <==> a == b && na == nb
    decreases |a|
  {
    if a != [] && a[0] == b[0] {
      CompareZero(a[1..], b[1..], na, nb);
      assert a == [a[0]] + a[1..] && b == [b[0]] + b[1..];
    }
  }

  /** `Compare` is transitive: "no greater than" chains. */
  lemma {:induction false} CompareTransitive(a: seq<int>, b: seq<int>, c: seq<int>, na: int, nb: int, nc: int)
    requires |a| == |b| == |c|
    requires Compare(a, b, na, nb) <= 0 && Compare(b, c, nb, nc) <= 0
    ensures Compare(a, c, na, nc) <= 0
    decreases |a|
  {
    if a != [] && a[0] == b[0] == c[0] {
      CompareTransitive(a[1..], b[1..], c[1..], na, nb, nc);
    }
  }

  /** A child's subtree lies strictly inside its parent's. */
  lemma ChildMembers(parent: seq<int>, rank: seq<nat>, x: int, c: int)
    requires Ranked(parent, rank) && 0 <= c < |parent| && parent[c] == x != -1
    ensures Members(parent, rank, c) < Members(parent, rank, x)
    ensures |Members(parent, rank, c)| < |Members(parent, rank, x)|
  {
    assert Below(parent, rank, c, x);
    forall y | y in Members(parent, rank, c)
      ensures y in Members(parent, rank, x)
    {
      BelowTrans(parent, rank, y, c, x);
    }
    assert x in Members(parent, rank, x);
    if Below(parent, rank, x, c) {
      BelowRank(parent, rank, x, c);
    }
    var rest := Members(parent, rank, x) - Members(parent, rank, c);
    assert x in rest;
    assert Members(parent, rank, x) == Members(parent, rank, c) + rest;
  }

  /** The subtrees of distinct siblings do not overlap. */
  lemma SiblingsDisjoint(parent: seq<int>, rank: seq<nat>, a: int, b: int)
    requires Ranked(parent, rank) && 0 <= a < |parent| && 0 <= b < |parent| && a != b
    requires parent[a] == parent[b] != -1
    ensures Members(parent, rank, a) !! Members(parent, rank, b)
  {
    forall y | y in Members(parent, rank, a) && y in Members(parent, rank, b)
      ensures false
    {
      PathIsChain(parent, rank, y, a, b);
      if Below(parent, rank, a, b) {
        BelowRank(parent, rank, parent[a], b);
      } else {
        BelowRank(parent, rank, parent[b], a);
      }
    }
  }

  /** The subtrees of the cells in `cs`, together. */
  ghost function MembersOfAll(parent: seq<int>, rank: seq<nat>, cs: seq<int>): set<int>
    requires Ranked(parent, rank)
    decreases |cs|
  {
    if cs == [] then {}
    else MembersOfAll(parent, rank, cs[..|cs| - 1]) + Members(parent, rank, cs[|cs| - 1])
  }

  /** The sizes of the subtrees of the cells in `cs`, added up. */
  ghost function SumSizes(parent: seq<int>, rank: seq<nat>, cs: seq<int>): nat
    requires Ranked(parent, rank)
    decreases |cs|
  {
    if cs == [] then 0
    else SumSizes(parent, rank, cs[..|cs| - 1]) + |Members(parent, rank, cs[|cs| - 1])|
  }

  /** A cell is in `MembersOfAll(cs)` when it is below one of `cs`. */
  lemma {:induction false} InMembersOfAll(parent: seq<int>, rank: seq<nat>, cs: seq<int>, y: int)
    requires Ranked(parent, rank)
    ensures y in MembersOfAll(parent, rank, cs) <==> exists k :: 0 <= k < |cs| && y in Members(parent, rank, cs[k])
    decreases |cs|
  {
    if cs != [] {
      InMembersOfAll(parent, rank, cs[..|cs| - 1], y);
      if y in MembersOfAll(parent, rank, cs[..|cs| - 1]) {
        var k :| 0 <= k < |cs| - 1 && y in Members(parent, rank, cs[..|cs| - 1][k]);
        assert cs[..|cs| - 1][k] == cs[k];
      }
      if exists k :: 0 <= k < |cs| && y in Members(parent, rank, cs[k]) {
        var k :| 0 <= k < |cs| && y in Members(parent, rank, cs[k]);
        if k < |cs| - 1 {
          assert cs[..|cs| - 1][k] == cs[k];
        }
      }
    }
  }

  /** The subtrees of distinct children of one cell add up without overlap. */
  lemma {:induction false} SiblingSizes(parent: seq<int>, rank: seq<nat>, x: int, cs: seq<int>)
    requires Ranked(parent, rank) && NoDup(cs) && x != -1
    requires forall k :: 0 <= k < |cs| ==> 0 <= cs[k] < |parent| && parent[cs[k]] == x
    ensures |MembersOfAll(parent, rank, cs)| == SumSizes(parent, rank, cs)
    decreases |cs|
  {
    if cs != [] {
      var init, last := cs[..|cs| - 1], cs[|cs| - 1];
      SiblingSizes(parent, rank, x, init);
      forall y | y in MembersOfAll(parent, rank, init) && y in Members(parent, rank, last)
        ensures false
      {
        InMembersOfAll(parent, rank, init, y);
        var k :| 0 <= k < |init| && y in Members(parent, rank, init[k]);
        SiblingsDisjoint(parent, rank, init[k], last);
      }
    }
  }

  /** A subtree is its top cell and the subtrees of its children. */
  lemma SubtreeSplits(parent: seq<int>, rank: seq<nat>, children: seq<seq<int>>, x: int)
    requires Ranked(parent, rank) && Linked(parent, children) && 0 <= x < |parent|
    ensures Members(parent, rank, x) == {x} + MembersOfAll(parent, rank, children[x])
    ensures x !in MembersOfAll(parent, rank, children[x])
  {
    var cs := children[x];
    forall y | y in Members(parent, rank, x) && y != x
      ensures y in MembersOfAll(parent, rank, cs)
    {
      BelowThroughChild(parent, rank, y, x);
      var z :| 0 <= z < |parent| && parent[z] == x && Below(parent, rank, y, z);
      assert z in cs;
      var k :| 0 <= k < |cs| && cs[k] == z;
      InMembersOfAll(parent, rank, cs, y);
    }
    forall y | y in MembersOfAll(parent, rank, cs)
      ensures y in Members(parent, rank, x) && y != x
    {
      InMembersOfAll(parent, rank, cs, y);
      var k :| 0 <= k < |cs| && y in Members(parent, rank, cs[k]);
      ChildMembers(parent, rank, x, cs[k]);
      if y == x {
        BelowRank(parent, rank, x, cs[k]);
      }
    }
  }

  /** The size of a subtree is one more than its children's subtree sizes added up. */
  lemma SubtreeSize(parent: seq<int>, rank: seq<nat>, children: seq<seq<int>>, x: int)
    requires Ranked(parent, rank) && Linked(parent, children) && 0 <= x < |parent|
    ensures |Members(parent, rank, x)| == 1 + SumSizes(parent, rank, children[x])
  {
    SubtreeSplits(parent, rank, children, x);
    SiblingSizes(parent, rank, x, children[x]);
  }

  /** Cutting the link above `x` makes `x` the root of everything below it. */
  lemma {:induction false} RootDetach(parent: seq<int>, rank: seq<nat>, x: int, y: int)
    requires Ranked(parent, rank) && 0 <= x < |parent| && 0 <= y < |parent|
    ensures Ranked(parent[x := -1], rank)
    ensures Root(parent[x := -1], rank, y) == if Below(parent, rank, y, x) then x else Root(parent, rank, y)
    decreases rank[y]
  {
    if y != x && parent[y] != -1 {
      RootDetach(parent, rank, x, parent[y]);
    }
  }

  /** A new cell without parent changes no existing cell's root. */
  lemma {:induction false} RootExtend(parent: seq<int>, rank: seq<nat>, y: int)
    requires Ranked(parent, rank) && 0 <= y < |parent|
    ensures Ranked(parent + [-1], rank + [0])
    ensures Root(parent + [-1], rank + [0], y) == Root(parent, rank, y)
    decreases rank[y]
  {
    if parent[y] != -1 {
      RootExtend(parent, rank, parent[y]);
    }
  }

  /** Dropping `x` from `sets` keeps every listed cell a root, also once `x` is detached. */
  lemma RootsRemoved(parent: seq<int>, sets: seq<int>, x: int)
    requires SetsAreRoots(parent, sets) && 0 <= x < |parent|
    ensures SetsAreRoots(parent, RemoveFirst(sets, x))
    ensures SetsAreRoots(parent[x := -1], RemoveFirst(sets, x))
  {
    var r := RemoveFirst(sets, x);
    forall i | 0 <= i < |r|
      ensures r[i] in sets
    {
      assert r[i] in r;
    }
  }

  /** Hanging root `c` under `t` merges `c`'s set into `t`'s; every other root stays. */
  lemma {:induction false} RootAttach(parent: seq<int>, rank: seq<nat>, t: int, c: int, y: int)
    requires Ranked(parent, rank) && 0 <= t < |parent| && 0 <= c < |parent| && 0 <= y < |parent|
    requires parent[c] == -1 && Root(parent, rank, t) != c
    ensures Ranked(parent[c := t], Shifted(parent, rank, t, c))
    ensures Root(parent[c := t], Shifted(parent, rank, t, c), y) ==
      if Root(parent, rank, y) == c then Root(parent, rank, t) else Root(parent, rank, y)
    decreases Shifted(parent, rank, t, c)[y]
  {
    AttachRanked(parent, rank, t, c);
    if y == c {
      RootAttach(parent, rank, t, c, t);
    } else if parent[y] != -1 {
      RootAttach(parent, rank, t, c, parent[y]);
    }
  }

  /** The whole effect of `AddChild(t, c)` on the structure. */
  lemma Attach(parent: seq<int>, rank: seq<nat>, children: seq<seq<int>>, sets: seq<int>, t: int, c: int)
    requires Ranked(parent, rank) && Linked(parent, children) && SetsAreRoots(parent, sets)
    requires 0 <= t < |parent| && 0 <= c < |parent| && t != c
    requires parent[c] == -1 && Root(parent, rank, t) != c
    ensures Ranked(parent[c := t], Shifted(parent, rank, t, c))
    ensures Linked(parent[c := t], children[t := children[t] + [c]])
    ensures SetsAreRoots(parent[c := t], RemoveFirst(sets, c))
    ensures forall y :: 0 <= y < |parent| ==>
      Root(parent[c := t], Shifted(parent, rank, t, c), y) ==
        if Root(parent, rank, y) == c then Root(parent, rank, t) else Root(parent, rank, y)
  {
    forall y | 0 <= y < |parent|
      ensures Root(parent[c := t], Shifted(parent, rank, t, c), y) ==
        if Root(parent, rank, y) == c then Root(parent, rank, t) else Root(parent, rank, y)
    {
      RootAttach(parent, rank, t, c, y);
    }
    AttachRanked(parent, rank, t, c);
    AttachLinked(parent, children, t, c);
    RootsRemoved(parent, sets, c);
    assert parent[c := t] == parent[c := -1][c := t];
  }

  /**
   * The parent links after cell `s` and its child `m` trade places: `m` takes
   * the parent of `s`, `s` hangs under `m`, the other children of `s` move to
   * `m` and the children of `m` move to `s`.
   */
  ghost function SwappedParent(p0: seq<int>, s: int, m: int, y: int): int
    requires 0 <= s < |p0| && 0 <= y < |p0|
  {
    if y == m then p0[s]
    else if y == s then m
    else if p0[y] == s then m
    else if p0[y] == m then s
    else p0[y]
  }

  /**
   * Trading places between a cell and one of its children keeps every set:
   * roots stay, except that `m` replaces `s` when `s` was a root.
   */
  lemma SwapKeepsSets(p0: seq<int>, r0: seq<nat>, p1: seq<int>, r1: seq<nat>, s: int, m: int)
    requires Ranked(p0, r0) && Ranked(p1, r1) && |p1| == |p0|
    requires 0 <= s < |p0| && 0 <= m < |p0| && p0[m] == s
    requires forall y :: 0 <= y < |p0| ==> p1[y] == SwappedParent(p0, s, m, y)
    ensures forall y :: 0 <= y < |p0| ==>
      Root(p1, r1, y) == if Root(p0, r0, y) == s then m else Root(p0, r0, y)
    ensures SameSets(p0, r0, p1, r1)
  {
    SwapMovesRoot(p0, r0, p1, r1, s, m);
  }

  /** The roots after the swap: `m` stands where `s` stood, every other root stays. */
  lemma SwapMovesRoot(p0: seq<int>, r0: seq<nat>, p1: seq<int>, r1: seq<nat>, s: int, m: int)
    requires Ranked(p0, r0) && Ranked(p1, r1) && |p1| == |p0|
    requires 0 <= s < |p0| && 0 <= m < |p0| && p0[m] == s
    requires forall y :: 0 <= y < |p0| ==> p1[y] == SwappedParent(p0, s, m, y)
    ensures forall y :: 0 <= y < |p0| ==>
      Root(p1, r1, y) == if Root(p0, r0, y) == s then m else Root(p0, r0, y)
  {
    var own0 := Roots(p0, r0);
    var own1 := seq(|p0|, y requires 0 <= y < |p0| => if own0[y] == s then m else own0[y]);
    SwapRelabels(p0, p1, s, m, own0, own1);
    forall y | 0 <= y < |p0|
      ensures Root(p1, r1, y) == if Root(p0, r0, y) == s then m else Root(p0, r0, y)
    {
      OwnerIsRoot(p1, r1, own1, y);
    }
  }

  /** Relabelling `s` as `m` fits the swapped parents. */
  lemma SwapRelabels(p0: seq<int>, p1: seq<int>, s: int, m: int, own0: seq<int>, own1: seq<int>)
    requires |p1| == |p0| && 0 <= s < |p0| && 0 <= m < |p0| && p0[m] == s
    requires forall y :: 0 <= y < |p0| ==> p1[y] == SwappedParent(p0, s, m, y)
    requires Owned(p0, own0) && |own1| == |p0|
    requires forall y :: 0 <= y < |p0| ==> own1[y] == if own0[y] == s then m else own0[y]
    requires forall y :: 0 <= y < |p0| ==> own0[y] != m
    ensures Owned(p1, own1)
  {
    assert own0[m] == own0[s];
    forall x | 0 <= x < |p0| && p0[x] == m
      ensures own0[x] == own0[s]
    {
    }
  }

  /** Once `s` and its child `m` are detached, their old children are detached roots. */
  lemma SwapDetached(p0: seq<int>, c0: seq<seq<int>>, pd: seq<int>, s: int, m: int)
    requires Linked(p0, c0) && 0 <= s < |p0| && 0 <= m < |p0| && p0[m] == s && p0[s] != m && p0[s] != s
    requires |pd| == |p0|
    requires forall y :: 0 <= y < |p0| ==>
      pd[y] == if y == s || y == m || p0[y] == s || p0[y] == m then -1 else p0[y]
    ensures pd[s] == -1 && pd[m] == -1 && s != m
    ensures forall k :: 0 <= k < |c0[m]| ==> 0 <= c0[m][k] < |pd| && pd[c0[m][k]] == -1 && c0[m][k] != s && c0[m][k] != m
    ensures forall k :: 0 <= k < |c0[s]| ==> 0 <= c0[s][k] < |pd| && c0[s][k] != s && c0[s][k] !in c0[m]
    ensures forall k :: 0 <= k < |c0[s]| && c0[s][k] != m ==> pd[c0[s][k]] == -1
  {
  }

  /** After the re-linking, every cell but `m` has its swapped parent. */
  lemma SwapRegrouped(p0: seq<int>, c0: seq<seq<int>>, pd: seq<int>, pr: seq<int>, s: int, m: int)
    requires Linked(p0, c0) && 0 <= s < |p0| && 0 <= m < |p0| && p0[m] == s && p0[s] != m && p0[s] != s
    requires |pd| == |pr| == |p0|
    requires forall y :: 0 <= y < |p0| ==>
      pd[y] == if y == s || y == m || p0[y] == s || p0[y] == m then -1 else p0[y]
    requires forall y :: 0 <= y < |p0| ==>
      pr[y] == if y in c0[m] then s else if (y in c0[s] && y != m) || y == s then m else pd[y]
    ensures forall y :: 0 <= y < |p0| && y != m ==> pr[y] == SwappedParent(p0, s, m, y)
    ensures pr[m] == -1
  {
    forall y | 0 <= y < |p0|
      ensures (y in c0[s] <==> p0[y] == s) && (y in c0[m] <==> p0[y] == m)
    {
    }
  }

  /** The cells above `s` keep their links, so the parent of `s` keeps its root. */
  lemma SwapKeepsUpperRoot(p0: seq<int>, r0: seq<nat>, p1: seq<int>, r1: seq<nat>, s: int, m: int)
    requires Ranked(p0, r0) && Ranked(p1, r1) && |p1| == |p0|
    requires 0 <= s < |p0| && 0 <= m < |p0| && p0[m] == s && p0[s] != -1
    requires forall y :: 0 <= y < |p0| && y != m ==> p1[y] == SwappedParent(p0, s, m, y)
    ensures p0[s] != m && Root(p1, r1, p0[s]) == Root(p0, r0, p0[s]) != m
  {
    var up := p0[s];
    forall z | 0 <= z < |p0| && Below(p0, r0, up, z)
      ensures p1[z] == p0[z]
    {
      BelowRank(p0, r0, up, z);
    }
    RootAlongKeptPath(p0, r0, p1, r1, up);
  }

  /**
   * The parent links after `ReplaceWithLast` puts the childless cell `l` in the
   * place of `s`: `s` is alone, `l` takes its parent and its children.
   */
  ghost function ReplacedParent(p0: seq<int>, s: int, l: int, y: int): int
    requires 0 <= s < |p0| && 0 <= y < |p0|
  {
    if y == s then -1
    else if y == l then p0[s]
    else if p0[y] == s then l
    else p0[y]
  }

  /** A childless cell of the set of `s` other than `s` is not its root. */
  lemma LeafNotRoot(p0: seq<int>, r0: seq<nat>, c0: seq<seq<int>>, s: int, l: int)
    requires Ranked(p0, r0) && Linked(p0, c0) && 0 <= s < |p0| && 0 <= l < |p0| && s != l
    requires c0[l] == [] && Root(p0, r0, l) == Root(p0, r0, s)
    ensures p0[l] != -1 && forall y :: 0 <= y < |p0| ==> Root(p0, r0, y) != l
  {
    if p0[l] == -1 {
      BelowRoot(p0, r0, s);
      ChildlessAlone(p0, r0, c0, s, l);
    }
  }

  /** The roots after `ReplaceWithLast`: `s` alone, `l` in place of `s` as a root. */
  ghost function ReplacedRoots(p0: seq<int>, r0: seq<nat>, s: int, l: int): (own: seq<int>)
    requires Ranked(p0, r0)
    ensures |own| == |p0|
  {
    seq(|p0|, y requires 0 <= y < |p0| =>
      if y == s then s else if Root(p0, r0, y) == s then l else Root(p0, r0, y))
  }

  /** `ReplacedRoots` labels the replaced links consistently. */
  lemma ReplacedOwned(p0: seq<int>, r0: seq<nat>, c0: seq<seq<int>>, p1: seq<int>, s: int, l: int)
    requires Ranked(p0, r0) && Linked(p0, c0) && |p1| == |p0|
    requires 0 <= s < |p0| && 0 <= l < |p0| && s != l && c0[l] == [] && Root(p0, r0, l) == Root(p0, r0, s)
    requires forall y :: 0 <= y < |p0| ==> p1[y] == ReplacedParent(p0, s, l, y)
    ensures Owned(p1, ReplacedRoots(p0, r0, s, l))
  {
    LeafNotRoot(p0, r0, c0, s, l);
    var own0, own1 := Roots(p0, r0), ReplacedRoots(p0, r0, s, l);
    forall x | 0 <= x < |p0|
      ensures if p1[x] == -1 then own1[x] == x else 0 <= p1[x] < |p0| && own1[x] == own1[p1[x]]
    {
      if x != s && x != l && p0[x] != s && p0[x] != -1 {
        assert own0[x] == own0[p0[x]];
      } else if x != s && x != l && p0[x] == s {
        assert own0[x] == own0[s];
      } else if x == l && p0[s] != -1 {
        assert own0[s] == own0[p0[s]];
      }
    }
  }

  /**
   * Replacing `s` by the childless `l` of its set keeps every other cell's set;
   * `s` is left alone, and `l` replaces `s` as the root when `s` was one.
   */
  lemma ReplaceKeepsSets(p0: seq<int>, r0: seq<nat>, c0: seq<seq<int>>, p1: seq<int>, r1: seq<nat>, s: int, l: int)
    requires Ranked(p0, r0) && Linked(p0, c0) && Ranked(p1, r1) && |p1| == |p0|
    requires 0 <= s < |p0| && 0 <= l < |p0| && s != l && c0[l] == [] && Root(p0, r0, l) == Root(p0, r0, s)
    requires forall y :: 0 <= y < |p0| ==> p1[y] == ReplacedParent(p0, s, l, y)
    ensures forall y :: 0 <= y < |p0| ==>
      Root(p1, r1, y) == if y == s then s else if Root(p0, r0, y) == s then l else Root(p0, r0, y)
  {
    ReplacedOwned(p0, r0, c0, p1, s, l);
    forall y | 0 <= y < |p0|
      ensures Root(p1, r1, y) == if y == s then s else if Root(p0, r0, y) == s then l else Root(p0, r0, y)
    {
      OwnerIsRoot(p1, r1, ReplacedRoots(p0, r0, s, l), y);
    }
  }

  /**
   * While the detached childless cell `l` takes the place of `s`, the parent
   * of `s` keeps its root, which is not `l`.
   */
  lemma ReplaceKeepsUpperRoot(p0: seq<int>, r0: seq<nat>, c0: seq<seq<int>>, p1: seq<int>, r1: seq<nat>, s: int, l: int)
    requires Ranked(p0, r0) && Linked(p0, c0) && Ranked(p1, r1) && |p1| == |p0|
    requires 0 <= s < |p0| && 0 <= l < |p0| && s != l && c0[l] == [] && p0[l] == -1 && p0[s] != -1
    requires forall y :: 0 <= y < |p0| && y != s && y != l && p0[y] != s ==> p1[y] == p0[y]
    ensures p0[s] != l && Root(p1, r1, p0[s]) == Root(p0, r0, p0[s]) != l
  {
    var up := p0[s];
    forall z | 0 <= z < |p0| && Below(p0, r0, up, z)
      ensures p1[z] == p0[z]
    {
      BelowRank(p0, r0, up, z);
      if z == l {
        ChildlessAlone(p0, r0, c0, up, l);
      }
    }
    RootAlongKeptPath(p0, r0, p1, r1, up);
    if Root(p0, r0, up) == l {
      BelowRoot(p0, r0, up);
      ChildlessAlone(p0, r0, c0, up, l);
    }
  }

  /** The links after the steps of `ReplaceWithLast` are the replaced ones. */
  lemma ReplaceRegrouped(p0: seq<int>, p2: seq<int>, pr: seq<int>, s: int, l: int, cs: seq<int>)
    requires 0 <= s < |p0| && 0 <= l < |p0| && s != l && p0[s] != s && |p2| == |pr| == |p0|
    requires forall y :: 0 <= y < |p0| ==> (y in cs <==> p0[y] == s && y != l)
    requires forall y :: 0 <= y < |p0| ==> p2[y] == if y == s || y == l || p0[y] == s then -1 else p0[y]
    requires forall y :: 0 <= y < |p0| ==>
      pr[y] == if y in cs && y != l then l else if y == l then p0[s] else p2[y]
    ensures forall y :: 0 <= y < |p0| ==> pr[y] == ReplacedParent(p0, s, l, y)
  {
  }

  /**
   * Detaching a childless cell changes no other cell's root, and leaves that
   * cell alone in its set.
   */
  lemma LeafDetachKeepsSets(p0: seq<int>, r0: seq<nat>, c0: seq<seq<int>>, l: int)
    requires Ranked(p0, r0) && Linked(p0, c0) && 0 <= l < |p0| && c0[l] == []
    ensures Ranked(p0[l := -1], r0)
    ensures forall y :: 0 <= y < |p0| && y != l ==> Root(p0[l := -1], r0, y) == Root(p0, r0, y) != l
  {
    forall y | 0 <= y < |p0| && y != l
      ensures Root(p0[l := -1], r0, y) == Root(p0, r0, y) != l
    {
      RootDetach(p0, r0, l, y);
      if Below(p0, r0, y, l) {
        ChildlessAlone(p0, r0, c0, y, l);
      }
      if Root(p0, r0, y) == l {
        BelowRoot(p0, r0, y);
        ChildlessAlone(p0, r0, c0, y, l);
      }
    }
    RootDetach(p0, r0, l, l);
  }

  /** `NullSet` on a childless cell only cuts its own link. */
  lemma LeafParents(p0: seq<int>, c0: seq<seq<int>>, p1: seq<int>, l: int)
    requires Linked(p0, c0) && 0 <= l < |p0| && c0[l] == [] && |p1| == |p0|
    requires forall y :: 0 <= y < |p0| ==> p1[y] == if y == l || p0[y] == l then -1 else p0[y]
    ensures p1 == p0[l := -1]
  {
    assert forall y :: 0 <= y < |p0| ==> p0[y] != l;
  }

  /** Cutting the link of a childless cell takes it out of its set. */
  lemma LeafOutcome(p0: seq<int>, r0: seq<nat>, c0: seq<seq<int>>, p1: seq<int>, c1: seq<seq<int>>, l: int)
    requires Ranked(p0, r0) && Linked(p0, c0) && 0 <= l < |p0| && c0[l] == []
    requires p1 == p0[l := -1] && |c1| == |p0| && c1[l] == []
    ensures TakenOut(p0, r0, p1, r0, c1, l)
  {
    LeafDetachKeepsSets(p0, r0, c0, l);
    forall y | 0 <= y < |p0| && y != l
      ensures Root(p1, r0, y) == Root(p0, r0, y) != l
    {
    }
    assert Root(p1, r0, l) == l;
  }

  /**
   * `s` has been taken out of its set: it is a root without children, no
   * other cell is in its set, and the other cells are grouped as before.
   */
  ghost predicate TakenOut(p0: seq<int>, r0: seq<nat>, p1: seq<int>, r1: seq<nat>, c1: seq<seq<int>>, s: int)
  {
    Ranked(p0, r0) && Ranked(p1, r1) && |p1| == |p0| == |c1| && 0 <= s < |p0| &&
    p1[s] == -1 && c1[s] == [] &&
    (forall y :: 0 <= y < |p0| && y != s ==> Root(p1, r1, y) != s) &&
    forall y, z :: 0 <= y < |p0| && 0 <= z < |p0| && y != s && z != s ==>
      (Root(p1, r1, y) == Root(p1, r1, z) <==> Root(p0, r0, y) == Root(p0, r0, z))
  }

  /** Every cell newly listed in `sets1` comes from the old set of `s`. */
  ghost predicate ListedFrom(p0: seq<int>, r0: seq<nat>, sets0: seq<int>, sets1: seq<int>, s: int)
  {
    Ranked(p0, r0) && 0 <= s < |p0| &&
    forall y :: y in sets1 && y !in sets0 ==> 0 <= y < |p0| && Root(p0, r0, y) == Root(p0, r0, s)
  }

  /** A cell with a parent has its parent's root. */
  lemma RootStep(parent: seq<int>, rank: seq<nat>, y: int)
    requires Ranked(parent, rank) && 0 <= y < |parent| && parent[y] != -1
    ensures Root(parent, rank, y) == Root(parent, rank, parent[y])
  {
  }

  /** The first listed child of a cell names that cell as its parent. */
  lemma FirstChild(parent: seq<int>, children: seq<seq<int>>, x: int)
    requires Linked(parent, children) && 0 <= x < |children| && children[x] != []
    ensures 0 <= children[x][0] < |parent| && parent[children[x][0]] == x
  {
  }

  /** Nothing changed is the same grouping. */
  lemma SameSetsRefl(p: seq<int>, r: seq<nat>)
    requires Ranked(p, r)
    ensures SameSets(p, r, p, r)
  {
  }

  /** Cells newly listed in two steps come from the set of `x`. */
  lemma ListedTrans(p0: seq<int>, r0: seq<nat>, p1: seq<int>, r1: seq<nat>, s0: seq<int>, s1: seq<int>, s2: seq<int>, x: int, y: int)
    requires SameSets(p0, r0, p1, r1) && ListedFrom(p0, r0, s0, s1, x) && ListedFrom(p1, r1, s1, s2, y)
    requires Root(p1, r1, y) == Root(p1, r1, x)
    ensures ListedFrom(p0, r0, s0, s2, x)
  {
  }

  /** A cell taken out of its set stays out while the grouping is kept. */
  lemma TakenOutKept(p0: seq<int>, r0: seq<nat>, p1: seq<int>, r1: seq<nat>, c1: seq<seq<int>>,
                     p2: seq<int>, r2: seq<nat>, c2: seq<seq<int>>, s: int)
    requires TakenOut(p0, r0, p1, r1, c1, s) && SameSets(p1, r1, p2, r2) && Linked(p2, c2)
    ensures TakenOut(p0, r0, p2, r2, c2, s)
  {
    var r := Root(p2, r2, s);
    assert Root(p2, r2, r) == r;
    assert Root(p1, r1, r) == Root(p1, r1, s) == s;
    assert p2[s] == -1;
    if c2[s] != [] {
      FirstChild(p2, c2, s);
      RootStep(p2, r2, c2[s][0]);
      assert false;
    }
  }

  /**
   * The cells newly listed after a `SortSet` from `start`, the first cell of
   * what was left of the set of `s`, come from the old set of `s`.
   */
  lemma RemovedListed(p0: seq<int>, r0: seq<nat>, pm: seq<int>, rm: seq<nat>, s0: seq<int>, sm: seq<int>, s1: seq<int>, s: int, start: int)
    requires ListedFrom(p0, r0, s0, sm, s) && ListedFrom(pm, rm, sm, s1, start) && s !in sm
    requires Ranked(pm, rm) && |pm| == |p0| && 0 <= start < |p0| && start != s
    requires forall y :: 0 <= y < |p0| && y != s ==> Root(pm, rm, y) != s
    requires forall y, z :: 0 <= y < |p0| && 0 <= z < |p0| && y != s && z != s ==>
      (Root(pm, rm, y) == Root(pm, rm, z) <==> Root(p0, r0, y) == Root(p0, r0, z))
    requires pm[s] == -1 && pm[start] == -1 && Root(p0, r0, start) == Root(p0, r0, s)
    ensures ListedFrom(p0, r0, s0, s1, s) && s !in s1
  {
    assert Root(pm, rm, start) == start && Root(pm, rm, s) == s;
  }

  /**
   * After `s` is replaced by `l`: `s` is alone, the other cells keep their
   * sets, and the first cell of `l`'s set comes from the old set of `s`.
   */
  lemma ReplaceOutcome(p0: seq<int>, r0: seq<nat>, c0: seq<seq<int>>, p1: seq<int>, r1: seq<nat>, c1: seq<seq<int>>, s: int, l: int)
    requires Ranked(p0, r0) && Linked(p0, c0) && Ranked(p1, r1) && |c1| == |p1| == |p0|
    requires 0 <= s < |p0| && 0 <= l < |p0| && s != l && c0[l] == [] && Root(p0, r0, l) == Root(p0, r0, s)
    requires c1[s] == []
    requires forall y :: 0 <= y < |p0| ==> p1[y] == ReplacedParent(p0[l := -1], s, l, y)
    ensures TakenOut(p0, r0, p1, r1, c1, s)
    ensures Root(p1, r1, l) != s && Root(p0, r0, Root(p1, r1, l)) == Root(p0, r0, s)
  {
    assert forall y :: 0 <= y < |p0| ==> p1[y] == ReplacedParent(p0, s, l, y);
    ReplaceKeepsSets(p0, r0, c0, p1, r1, s, l);
    LeafNotRoot(p0, r0, c0, s, l);
  }

  /**
   * Two arenas of the same size group their cells into the same sets: two cells
   * share a root in one exactly when they do in the other.
   */
  ghost predicate SameSets(p0: seq<int>, r0: seq<nat>, p1: seq<int>, r1: seq<nat>)
  {
    Ranked(p0, r0) && Ranked(p1, r1) && |p1| == |p0| &&
    forall y, z :: 0 <= y < |p0| && 0 <= z < |p0| ==>
      (Root(p1, r1, y) == Root(p1, r1, z) <==> Root(p0, r0, y) == Root(p0, r0, z))
  }

  /** Grouping into the same sets is transitive. */
  lemma SameSetsTrans(p0: seq<int>, r0: seq<nat>, p1: seq<int>, r1: seq<nat>, p2: seq<int>, r2: seq<nat>)
    requires SameSets(p0, r0, p1, r1) && SameSets(p1, r1, p2, r2)
    ensures SameSets(p0, r0, p2, r2)
  {
  }

  /** The old root a cell is grouped by once `c` has moved into the set of `t`. */
  ghost function MovedKey(p0: seq<int>, r0: seq<nat>, c: int, t: int, y: int): int
    requires Ranked(p0, r0) && 0 <= c < |p0| && 0 <= t < |p0| && 0 <= y < |p0|
  {
    if y == c then Root(p0, r0, t) else Root(p0, r0, y)
  }

  /**
   * `p1` groups the cells as `p0` does, except that `c` has left its set and
   * joined the set of `t`.
   */
  ghost predicate MovedInto(p0: seq<int>, r0: seq<nat>, p1: seq<int>, r1: seq<nat>, c: int, t: int)
  {
    Ranked(p0, r0) && Ranked(p1, r1) && |p1| == |p0| && 0 <= c < |p0| && 0 <= t < |p0| &&
    forall y, z :: 0 <= y < |p0| && 0 <= z < |p0| ==>
      (Root(p1, r1, y) == Root(p1, r1, z) <==> MovedKey(p0, r0, c, t, y) == MovedKey(p0, r0, c, t, z))
  }

  /** A cell already in the set of `t` moves nowhere. */
  lemma MovedNowhere(p0: seq<int>, r0: seq<nat>, c: int, t: int)
    requires Ranked(p0, r0) && 0 <= c < |p0| && 0 <= t < |p0| && Root(p0, r0, c) == Root(p0, r0, t)
    ensures MovedInto(p0, r0, p0, r0, c, t)
  {
    forall y | 0 <= y < |p0|
      ensures MovedKey(p0, r0, c, t, y) == Root(p0, r0, y)
    {
    }
  }

  /**
   * Taking `c` out of its set and then hanging it below a cell of the set of
   * `t` moves `c` alone into that set.
   */
  lemma {:induction false} MovedAfter(p0: seq<int>, r0: seq<nat>, pm: seq<int>, rm: seq<nat>, cm: seq<seq<int>>,
                                      p1: seq<int>, r1: seq<nat>, c: int, t: int)
    requires TakenOut(p0, r0, pm, rm, cm, c)
    requires 0 <= t < |p0| && Root(p0, r0, t) != Root(p0, r0, c)
    requires Ranked(p1, r1) && |p1| == |p0|
    requires forall y :: 0 <= y < |p0| ==>
      Root(p1, r1, y) == if Root(pm, rm, y) == c then Root(pm, rm, t) else Root(pm, rm, y)
    ensures MovedInto(p0, r0, p1, r1, c, t)
  {
    assert t != c;
    assert Root(pm, rm, c) == c;
    forall y | 0 <= y < |p0|
      ensures Root(p1, r1, y) == if y == c then Root(pm, rm, t) else Root(pm, rm, y)
    {
    }
    forall y, z | 0 <= y < |p0| && 0 <= z < |p0|
      ensures Root(p1, r1, y) == Root(p1, r1, z) <==> MovedKey(p0, r0, c, t, y) == MovedKey(p0, r0, c, t, z)
    {
      var y' := if y == c then t else y;
      var z' := if z == c then t else z;
      assert Root(p1, r1, y) == Root(pm, rm, y') && Root(p1, r1, z) == Root(pm, rm, z');
      assert MovedKey(p0, r0, c, t, y) == Root(p0, r0, y') && MovedKey(p0, r0, c, t, z) == Root(p0, r0, z');
    }
  }

  /** `y` was in the set of `a` or of `b`. */
  ghost predicate InPair(p0: seq<int>, r0: seq<nat>, a: int, b: int, y: int)
    requires Ranked(p0, r0) && 0 <= a < |p0| && 0 <= b < |p0| && 0 <= y < |p0|
  {
    Root(p0, r0, y) == Root(p0, r0, a) || Root(p0, r0, y) == Root(p0, r0, b)
  }

  /**
   * Every cell outside the old sets of `a` and `b` keeps exactly its old
   * set-mates in `p1`.
   */
  ghost predicate PairKept(p0: seq<int>, r0: seq<nat>, p1: seq<int>, r1: seq<nat>, a: int, b: int)
  {
    Ranked(p0, r0) && Ranked(p1, r1) && |p1| == |p0| && 0 <= a < |p0| && 0 <= b < |p0| &&
    forall y, z :: 0 <= y < |p0| && 0 <= z < |p0| && !InPair(p0, r0, a, b, y) ==>
      (Root(p1, r1, y) == Root(p1, r1, z) <==> Root(p0, r0, y) == Root(p0, r0, z))
  }

  /** A cell of the set of `first` was in the pair of sets when `first` was. */
  lemma MateInPair(p0: seq<int>, r0: seq<nat>, pb: seq<int>, rb: seq<nat>, a: int, b: int, first: int, y: int)
    requires PairKept(p0, r0, pb, rb, a, b) && 0 <= first < |p0| && 0 <= y < |p0|
    requires InPair(p0, r0, a, b, first) && Root(pb, rb, y) == Root(pb, rb, first)
    ensures InPair(p0, r0, a, b, y)
  {
  }

  /** One pass of the loop of `AddToSet` keeps the cells outside the pair in place. */
  lemma AddStepKept(p0: seq<int>, r0: seq<nat>, pb: seq<int>, rb: seq<nat>,
                    p2: seq<int>, r2: seq<nat>, a: int, b: int, nw: int, toAdd: int)
    requires PairKept(p0, r0, pb, rb, a, b) && 0 <= nw < |p0| && 0 <= toAdd < |p0|
    requires InPair(p0, r0, a, b, nw) && InPair(p0, r0, a, b, toAdd)
    requires MovedInto(pb, rb, p2, r2, toAdd, nw)
    ensures PairKept(p0, r0, p2, r2, a, b)
  {
    forall y, z | 0 <= y < |p0| && 0 <= z < |p0| && !InPair(p0, r0, a, b, y)
      ensures Root(p2, r2, y) == Root(p2, r2, z) <==> Root(p0, r0, y) == Root(p0, r0, z)
    {
      assert MovedKey(pb, rb, toAdd, nw, y) == Root(pb, rb, y);
      if z == toAdd {
        assert Root(pb, rb, y) != Root(pb, rb, nw);
        assert Root(p0, r0, y) != Root(p0, r0, z);
      }
    }
  }

  /** Once `c` has moved into the set of `t`, `y` shares a root with `z` exactly when their keys agree. */
  lemma MovedPair(p0: seq<int>, r0: seq<nat>, p1: seq<int>, r1: seq<nat>, c: int, t: int, y: int, z: int)
    requires MovedInto(p0, r0, p1, r1, c, t) && 0 <= y < |p0| && 0 <= z < |p0|
    ensures Root(p1, r1, y) == Root(p1, r1, z) <==> MovedKey(p0, r0, c, t, y) == MovedKey(p0, r0, c, t, z)
  {
  }

  /** Regrouping nothing after a move keeps the move. */
  lemma MovedKept(p0: seq<int>, r0: seq<nat>, p1: seq<int>, r1: seq<nat>, p2: seq<int>, r2: seq<nat>, c: int, t: int)
    requires MovedInto(p0, r0, p1, r1, c, t) && SameSets(p1, r1, p2, r2)
    ensures MovedInto(p0, r0, p2, r2, c, t)
  {
  }

  /**
   * One pass of the loop of `AddToSet` ends it exactly when the moved cell was
   * `first`.
   */
  lemma AddStepEnds(pb: seq<int>, rb: seq<nat>, p2: seq<int>, r2: seq<nat>,
                    first: int, nw: int, toAdd: int)
    requires Ranked(pb, rb) && 0 <= first < |pb| && 0 <= nw < |pb| && 0 <= toAdd < |pb|
    requires Root(pb, rb, first) != Root(pb, rb, nw) && Root(pb, rb, toAdd) == Root(pb, rb, first)
    requires MovedInto(pb, rb, p2, r2, toAdd, nw)
    ensures Root(p2, r2, first) == Root(p2, r2, nw) <==> first == toAdd
  {
    MovedPair(pb, rb, p2, r2, toAdd, nw, first, nw);
  }

  /** Leaving out a member makes a set strictly smaller. */
  lemma SmallerSet(a: set<int>, b: set<int>, x: int)
    requires a <= b - {x} && x in b
    ensures |a| < |b|
  {
    var rest := b - {x};
    assert |rest| == |b| - 1;
    assert |a| <= |rest| by {
      assert rest == a + (rest - a);
    }
  }

  /** Every cell of the old set of `a` still shares a root with `a`. */
  ghost predicate StaysWith(p0: seq<int>, r0: seq<nat>, p1: seq<int>, r1: seq<nat>, a: int)
  {
    Ranked(p0, r0) && Ranked(p1, r1) && |p1| == |p0| && 0 <= a < |p0| &&
    forall c :: 0 <= c < |p0| && Root(p0, r0, c) == Root(p0, r0, a) ==> Root(p1, r1, c) == Root(p1, r1, a)
  }

  /** A pass of the loop of `AddToSet` keeps the set of `nw` together. */
  lemma AddStepStays(p0: seq<int>, r0: seq<nat>, pb: seq<int>, rb: seq<nat>,
                     p2: seq<int>, r2: seq<nat>, first: int, nw: int, toAdd: int)
    requires StaysWith(p0, r0, pb, rb, nw) && 0 <= first < |pb| && 0 <= toAdd < |pb|
    requires Root(pb, rb, first) != Root(pb, rb, nw) && Root(pb, rb, toAdd) == Root(pb, rb, first)
    requires MovedInto(pb, rb, p2, r2, toAdd, nw)
    ensures StaysWith(p0, r0, p2, r2, nw)
  {
    forall c | 0 <= c < |p0| && Root(p0, r0, c) == Root(p0, r0, nw)
      ensures Root(p2, r2, c) == Root(p2, r2, nw)
    {
      MovedPair(pb, rb, p2, r2, toAdd, nw, c, nw);
    }
  }

  /** The only cell of a set of one cell is its root. */
  lemma SingletonIsRoot(p: seq<int>, r: seq<nat>, y: int)
    requires Ranked(p, r) && 0 <= y < |p| && |SetOf(p, r, y)| == 1
    ensures Root(p, r, y) == y
  {
    var s := SetOf(p, r, y);
    var t := Root(p, r, y);
    assert Root(p, r, t) == t;
    assert y in s && t in s;
    if t != y {
      SmallerSet({t}, s, y);
    }
  }

  /**
   * The end of `AddToSet(x, ns)`: when the larger set (`nw`'s) stayed together
   * and the two old roots joined, a set of one cell has joined the other.
   */
  lemma SingleJoins(p0: seq<int>, r0: seq<nat>, p1: seq<int>, r1: seq<nat>, x: int, ns: int, nw: int)
    requires StaysWith(p0, r0, p1, r1, nw) && 0 <= x < |p0| && 0 <= ns < |p0|
    requires (nw == Root(p0, r0, x) && |SetOf(p0, r0, x)| >= |SetOf(p0, r0, ns)|) ||
             (nw == Root(p0, r0, ns) && |SetOf(p0, r0, ns)| >= |SetOf(p0, r0, x)|)
    requires Root(p1, r1, Root(p0, r0, x)) == Root(p1, r1, Root(p0, r0, ns))
    ensures |SetOf(p0, r0, x)| == 1 || |SetOf(p0, r0, ns)| == 1 ==> Root(p1, r1, x) == Root(p1, r1, ns)
  {
    assert x in SetOf(p0, r0, x) && ns in SetOf(p0, r0, ns);
    assert Root(p0, r0, nw) == nw;
    if nw == Root(p0, r0, x) && |SetOf(p0, r0, ns)| == 1 {
      SingletonIsRoot(p0, r0, ns);
    } else if nw == Root(p0, r0, ns) && |SetOf(p0, r0, x)| == 1 {
      SingletonIsRoot(p0, r0, x);
    }
  }

  /**
   * A pass of the loop of `AddToSet` that does not end it shrinks the set of
   * `first` by the moved cell.
   */
  lemma AddStepShrinks(pb: seq<int>, rb: seq<nat>, p2: seq<int>, r2: seq<nat>,
                       first: int, nw: int, toAdd: int)
    requires Ranked(pb, rb) && 0 <= first < |pb| && 0 <= nw < |pb| && 0 <= toAdd < |pb| && first != toAdd
    requires Root(pb, rb, first) != Root(pb, rb, nw) && Root(pb, rb, toAdd) == Root(pb, rb, first)
    requires MovedInto(pb, rb, p2, r2, toAdd, nw)
    ensures |SetOf(p2, r2, first)| < |SetOf(pb, rb, first)|
  {
    forall y | y in SetOf(p2, r2, first)
      ensures y in SetOf(pb, rb, first) - {toAdd}
    {
      MovedPair(pb, rb, p2, r2, toAdd, nw, y, first);
    }
    SmallerSet(SetOf(p2, r2, first), SetOf(pb, rb, first), toAdd);
  }

  /** The subtrees of a concatenation of cell lists are those of both parts. */
  lemma {:induction false} MembersOfAllAppend(parent: seq<int>, rank: seq<nat>, a: seq<int>, b: seq<int>)
    requires Ranked(parent, rank)
    ensures MembersOfAll(parent, rank, a + b) == MembersOfAll(parent, rank, a) + MembersOfAll(parent, rank, b)
    ensures SumSizes(parent, rank, a + b) == SumSizes(parent, rank, a) + SumSizes(parent, rank, b)
    decreases |b|
  {
    if b == [] {
      assert a + b == a;
    } else {
      var init := b[..|b| - 1];
      assert (a + b)[..|a + b| - 1] == a + init;
      MembersOfAllAppend(parent, rank, a, init);
    }
  }

  /** The subtrees of a list are those of its first cell and of the rest. */
  lemma MembersOfAllFront(parent: seq<int>, rank: seq<nat>, q: seq<int>)
    requires Ranked(parent, rank) && q != []
    ensures MembersOfAll(parent, rank, q) == Members(parent, rank, q[0]) + MembersOfAll(parent, rank, q[1..])
    ensures SumSizes(parent, rank, q) == |Members(parent, rank, q[0])| + SumSizes(parent, rank, q[1..])
  {
    assert q == [q[0]] + q[1..];
    MembersOfAllAppend(parent, rank, [q[0]], q[1..]);
    assert [q[0]][..0] == [];
  }

  /** The cells that share their set with some other cell. */
  ghost function Grouped(parent: seq<int>, rank: seq<nat>): set<int>
    requires Ranked(parent, rank)
  {
    set y | 0 <= y < |parent| && exists z :: 0 <= z < |parent| && z != y && Root(parent, rank, z) == Root(parent, rank, y)
  }

  /**
   * Taking `s` out of its set leaves no cell newly grouped, and makes `s`
   * itself ungrouped.
   */
  lemma TakenOutUngroups(p0: seq<int>, r0: seq<nat>, p1: seq<int>, r1: seq<nat>, c1: seq<seq<int>>, s: int)
    requires TakenOut(p0, r0, p1, r1, c1, s)
    ensures Grouped(p1, r1) <= Grouped(p0, r0) - {s}
    ensures s in Grouped(p0, r0) ==> |Grouped(p1, r1)| < |Grouped(p0, r0)|
  {
    assert Root(p1, r1, s) == s;
    forall y | y in Grouped(p1, r1)
      ensures y in Grouped(p0, r0) && y != s
    {
      var z :| 0 <= z < |p1| && z != y && Root(p1, r1, z) == Root(p1, r1, y);
      assert y != s && z != s;
      assert Root(p0, r0, z) == Root(p0, r0, y);
    }
    if s in Grouped(p0, r0) {
      SmallerSet(Grouped(p1, r1), Grouped(p0, r0), s);
    }
  }

  /** Regrouping nothing keeps the grouped cells. */
  lemma SameSetsGrouped(p0: seq<int>, r0: seq<nat>, p1: seq<int>, r1: seq<nat>)
    requires SameSets(p0, r0, p1, r1)
    ensures Grouped(p1, r1) == Grouped(p0, r0)
  {
    forall y | 0 <= y < |p0|
      ensures y in Grouped(p1, r1) <==> y in Grouped(p0, r0)
    {
      if y in Grouped(p1, r1) {
        var z :| 0 <= z < |p1| && z != y && Root(p1, r1, z) == Root(p1, r1, y);
        assert Root(p0, r0, z) == Root(p0, r0, y);
      }
      if y in Grouped(p0, r0) {
        var z :| 0 <= z < |p0| && z != y && Root(p0, r0, z) == Root(p0, r0, y);
        assert Root(p1, r1, z) == Root(p1, r1, y);
      }
    }
  }

  /**
   * The cells of the maze under construction: per cell its coordinates, its
   * `parent` link and its `childern` list, and the static `sets` list.
   */
  class Cells {
    /** `dimensions`: the number of coordinates of every cell. */
    const dims: nat
    var coords: seq<seq<int>>
    var parent: seq<int>
    var children: seq<seq<int>>
    var sets: seq<int>
    ghost var rank: seq<nat>

    /** The structure every operation keeps. */
    ghost predicate Valid()
      reads this
    {
      |coords| == |parent| &&
      (forall x :: 0 <= x < |coords| ==> |coords[x]| == dims) &&
      Ranked(parent, rank) && Linked(parent, children) && SetsAreRoots(parent, sets)
    }

    /** `Maze.Initialize` starts with no cells and an empty `sets` list. */
    constructor(dims: nat)
      ensures this.dims == dims
      ensures coords == [] && parent == [] && rank == [] && children == [] && sets == []
    {
      this.dims := dims;
      coords, parent, children, sets, rank := [], [], [], [], [];
    }

    /** An arena without cells is well formed. */
    lemma EmptyValid()
      requires coords == [] && parent == [] && rank == [] && children == [] && sets == []
      ensures Valid()
    {
    }

    /**
     * `new Cell(_coor)`: a cell without parent or children, which `NewSet`
     * lists in `sets` as the first cell of a set of its own.
     */
    method NewCell(c: seq<int>) returns (x: int)
      requires Valid() && |c| == dims
      modifies this
      ensures Valid()
      ensures x == old(|parent|)
      ensures coords == old(coords) + [c] && parent == old(parent) + [-1]
      ensures children == old(children) + [[]] && sets == old(sets) + [x]
      ensures forall y :: 0 <= y < x ==> Root(parent, rank, y) == old(Root(parent, rank, y))
    {
      x := |parent|;
      forall y | 0 <= y < x
        ensures Root(parent + [-1], rank + [0], y) == Root(parent, rank, y)
      {
        RootExtend(parent, rank, y);
      }
      coords, parent, children, rank := coords + [c], parent + [-1], children + [[]], rank + [0];
      if x !in sets {
        sets := sets + [x];
      }
    }

    /** `GetFirstInSet`: climbs parent links to the root. */
    method GetFirstInSet(x: int) returns (f: int)
      requires Valid() && 0 <= x < |parent|
      ensures f == Root(parent, rank, x) && parent[f] == -1
    {
      f := x;
      while parent[f] != -1
        invariant 0 <= f < |parent| && Root(parent, rank, f) == Root(parent, rank, x)
        decreases rank[f]
      {
        f := parent[f];
      }
    }

    /** `SameSet(_c)`: whether two cells reach the same root. */
    method SameSet(x: int, y: int) returns (same: bool)
      requires Valid() && 0 <= x < |parent| && 0 <= y < |parent|
      ensures same <==> Root(parent, rank, x) == Root(parent, rank, y)
    {
      var fx := GetFirstInSet(x);
      var fy := GetFirstInSet(y);
      same := fx == fy;
    }

    /** `NullParent`: drops `x` from `sets` and from its parent, if it has one. */
    method NullParent(x: int)
      requires Valid() && 0 <= x < |parent|
      modifies this
      ensures Valid() && coords == old(coords) && rank == old(rank)
      ensures sets == RemoveFirst(old(sets), x) && parent == old(parent)[x := -1]
      ensures old(parent[x]) == -1 ==> children == old(children)
      ensures old(parent[x]) != -1 ==>
        children == old(children)[old(parent[x]) := RemoveFirst(old(children[parent[x]]), x)]
    {
      RootsRemoved(parent, sets, x);
      sets := RemoveFirst(sets, x);
      if parent[x] == -1 {
        assert parent == parent[x := -1];
        return;
      }
      var p := parent[x];
      DetachLinked(parent, children, x);
      children := children[p := RemoveFirst(children[p], x)];
      parent := parent[x := -1];
    }

    /**
     * `RemoveParent`: a cell without a parent is left as it is; otherwise `x`
     * is detached from its parent and listed in `sets`, the cells below `x`
     * become a set with root `x`, and every other cell keeps its root.
     */
    method RemoveParent(x: int)
      requires Valid() && 0 <= x < |parent|
      modifies this
      ensures Valid() && coords == old(coords) && rank == old(rank)
      ensures parent == old(parent)[x := -1]
      ensures old(parent[x]) == -1 ==> sets == old(sets) && children == old(children)
      ensures old(parent[x]) != -1 ==>
        x in sets && children == old(children)[old(parent[x]) := RemoveFirst(old(children[parent[x]]), x)]
      ensures forall y :: 0 <= y < |parent| ==>
        Root(parent, rank, y) == if old(Below(parent, rank, y, x)) then x else old(Root(parent, rank, y))
    {
      forall y | 0 <= y < |parent|
        ensures Root(parent[x := -1], rank, y) == if Below(parent, rank, y, x) then x else Root(parent, rank, y)
      {
        RootDetach(parent, rank, x, y);
      }
      if parent[x] == -1 {
        assert parent == parent[x := -1];
        return;
      }
      var p := parent[x];
      DetachLinked(parent, children, x);
      children := children[p := RemoveFirst(children[p], x)];
      parent := parent[x := -1];
      if x !in sets {
        sets := sets + [x];
      }
    }
  
    /**
     * `NullSet`: detaches every child of `x` and then `x` itself; the children
     * become roots, and `x` a childless root that `sets` no longer lists.
     */
    method NullSet(x: int)
      requires Valid() && 0 <= x < |parent|
      modifies this
      ensures Valid() && coords == old(coords) && rank == old(rank) && |parent| == old(|parent|)
      ensures forall y :: 0 <= y < |parent| ==>
        parent[y] == if y == x || old(parent[y]) == x then -1 else old(parent[y])
      ensures sets == RemoveFirst(old(sets), x) && children[x] == []
      ensures old(parent[x]) != -1 ==>
        children[old(parent[x])] == RemoveFirst(old(children[parent[x]]), x)
      ensures forall y :: 0 <= y < |parent| && y != x && y != old(parent[x]) ==>
        children[y] == old(children[y])
    {
      NullChildren(x);
      children := children[x := []];
      NullParent(x);
    }

    /** The loop of `NullSet`: every child of `x` loses its parent. */
    method NullChildren(x: int)
      requires Valid() && 0 <= x < |parent|
      modifies this
      ensures Valid() && coords == old(coords) && rank == old(rank) && sets == old(sets)
      ensures forall y :: 0 <= y < |parent| ==> parent[y] == if old(parent[y]) == x then -1 else old(parent[y])
      ensures children == old(children)[x := []]
    {
      var cs := children[x];
      var i := 0;
      while i < |cs|
        invariant 0 <= i <= |cs|
        invariant Valid() && coords == old(coords) && rank == old(rank) && |parent| == old(|parent|)
        invariant children[x] == cs[i..] && sets == old(sets)
        invariant forall y :: 0 <= y < |parent| ==> parent[y] == if y in cs[..i] then -1 else old(parent[y])
        invariant forall y :: 0 <= y < |parent| && y != x ==> children[y] == old(children[y])
      {
        assert cs[..i + 1] == cs[..i] + [cs[i]];
        assert cs[i] !in cs[..i];
        NullFirstChild(x);
        assert cs[i..][1..] == cs[i + 1..];
        i := i + 1;
      }
      assert cs[..i] == cs;
      assert forall y :: 0 <= y < |parent| ==> (y in cs <==> old(parent[y]) == x);
    }

    /** `_child.NullParent()` for the first child of `x`. */
    method NullFirstChild(x: int)
      requires Valid() && 0 <= x < |parent| && children[x] != []
      modifies this
      ensures Valid() && coords == old(coords) && rank == old(rank) && sets == old(sets)
      ensures parent == old(parent)[old(children[x][0]) := -1]
      ensures children == old(children)[x := old(children[x][1..])]
    {
      var c := children[x][0];
      assert c in children[x];
      NullParent(c);
    }

    /**
     * `AddChild`: `c`, the root of another set, becomes the last child of `t`
     * and leaves `sets`, so its whole set joins `t`'s; nothing happens when
     * `t == c`.
     */
    method AddChild(t: int, c: int)
      requires Valid() && 0 <= t < |parent| && 0 <= c < |parent|
      requires t != c ==> parent[c] == -1 && Root(parent, rank, t) != c
      modifies this
      ensures Valid() && coords == old(coords) && |parent| == old(|parent|)
      ensures t == c ==> parent == old(parent) && children == old(children) && sets == old(sets) && rank == old(rank)
      ensures t != c ==> parent == old(parent)[c := t] && sets == RemoveFirst(old(sets), c)
      ensures t != c ==> children == old(children)[t := old(children[t]) + [c]]
      ensures forall y :: 0 <= y < |parent| ==>
        Root(parent, rank, y) ==
          if old(Root(parent, rank, y)) == c then old(Root(parent, rank, t)) else old(Root(parent, rank, y))
    {
      if t == c {
        return;
      }
      Attach(parent, rank, children, sets, t, c);
      sets := RemoveFirst(sets, c);
      children := children[t := children[t] + [c]];
      rank := Shifted(parent, rank, t, c);
      parent := parent[c := t];
    }

    /**
     * The `foreach (Cell _child in ...) AddChild(_child)` loops: every listed
     * root becomes a child of `t`, skipping `t` itself.
     */
    method AdoptAll(t: int, cs: seq<int>)
      requires Valid() && 0 <= t < |parent| && NoDup(cs)
      requires forall k :: 0 <= k < |cs| ==> 0 <= cs[k] < |parent|
      requires forall k :: 0 <= k < |cs| && cs[k] != t ==> parent[cs[k]] == -1 && cs[k] != Root(parent, rank, t)
      modifies this
      ensures Valid() && coords == old(coords) && |parent| == old(|parent|)
      ensures forall y :: 0 <= y < |parent| ==> parent[y] == if y in cs && y != t then t else old(parent[y])
      ensures forall y :: y in sets ==> y in old(sets)
      ensures Root(parent, rank, t) == old(Root(parent, rank, t))
      ensures forall y :: 0 <= y < |parent| && y != t ==> children[y] == old(children[y])
    {
      ghost var p0, s0, ch0, rt := parent, sets, children, Root(parent, rank, t);
      var i := 0;
      while i < |cs|
        invariant 0 <= i <= |cs|
        invariant Valid() && coords == old(coords) && |parent| == |p0|
        invariant forall y :: 0 <= y < |parent| ==> parent[y] == if y in cs[..i] && y != t then t else p0[y]
        invariant forall y :: y in sets ==> y in s0
        invariant Root(parent, rank, t) == rt
        invariant forall y :: 0 <= y < |parent| && y != t ==> children[y] == ch0[y]
      {
        assert cs[i] !in cs[..i];
        ghost var pi := parent;
        AddChild(t, cs[i]);
        AdoptStep(p0, pi, parent, cs, i, t);
        i := i + 1;
      }
      assert cs[..i] == cs;
    }
  
    /** `GetSetSize(_c)`: the number of cells in the subtree of `c`, counted recursively. */
    method GetSetSizeFrom(c: int) returns (size: int)
      requires Valid() && 0 <= c < |parent|
      ensures size == |Members(parent, rank, c)|
      decreases |Members(parent, rank, c)|
    {
      size := 1;
      var cs := children[c];
      var i := 0;
      while i < |cs|
        invariant 0 <= i <= |cs|
        invariant size == 1 + SumSizes(parent, rank, cs[..i])
      {
        assert cs[i] in cs;
        ChildMembers(parent, rank, c, cs[i]);
        var n := GetSetSizeFrom(cs[i]);
        assert cs[..i + 1][..i] == cs[..i];
        size := size + n;
        i := i + 1;
      }
      assert cs[..i] == cs;
      SubtreeSize(parent, rank, children, c);
    }

    /** `GetSetSize()`: the number of cells in the set of `x`. */
    method GetSetSize(x: int) returns (size: int)
      requires Valid() && 0 <= x < |parent|
      ensures size == |SetOf(parent, rank, x)|
    {
      var f := GetFirstInSet(x);
      size := GetSetSizeFrom(f);
      RootMembers(parent, rank, x);
    }

    /** The order `CompareTo` implements, on cells of this arena. */
    ghost function Order(x: int, y: int): int
      reads this
      requires Valid() && 0 <= x < |parent| && 0 <= y < |parent|
    {
      Compare(coords[x], coords[y], |children[x]|, |children[y]|)
    }

    /** `CompareTo`: -1, 0 or 1 as `x` is below, equal to or above `y` in `Order`. */
    method CompareTo(x: int, y: int) returns (r: int)
      requires Valid() && 0 <= x < |parent| && 0 <= y < |parent|
      ensures r == Order(x, y)
    {
      var a, b := coords[x], coords[y];
      var i := 0;
      while i < dims
        invariant 0 <= i <= dims && a[..i] == b[..i]
      {
        if a[i] < b[i] {
          CompareAtFirstDifference(a, b, |children[x]|, |children[y]|, i);
          return -1;
        }
        if a[i] > b[i] {
          CompareAtFirstDifference(a, b, |children[x]|, |children[y]|, i);
          return 1;
        }
        assert a[..i + 1] == a[..i] + [a[i]] && b[..i + 1] == b[..i] + [b[i]];
        i := i + 1;
      }
      CompareAtFirstDifference(a, b, |children[x]|, |children[y]|, i);
      if |children[x]| < |children[y]| {
        return -1;
      }
      if |children[x]| > |children[y]| {
        return 1;
      }
      return 0;
    }

    /** `Order` is a total preorder on the cells of this arena. */
    lemma OrderFacts(x: int, y: int, z: int)
      requires Valid() && 0 <= x < |parent| && 0 <= y < |parent| && 0 <= z < |parent|
      ensures Order(x, x) == 0
      ensures Order(y, x) == -Order(x, y)
      ensures Order(x, y) <= 0 && Order(y, z) <= 0 ==> Order(x, z) <= 0
    {
      CompareZero(coords[x], coords[x], |children[x]|, |children[x]|);
      CompareAntisymmetric(coords[x], coords[y], |children[x]|, |children[y]|);
      if Order(x, y) <= 0 && Order(y, z) <= 0 {
        CompareTransitive(coords[x], coords[y], coords[z], |children[x]|, |children[y]|, |children[z]|);
      }
    }

    /** `Max()` over cells: a cell of `cs` that no cell of `cs` exceeds. */
    method MaxCell(cs: seq<int>) returns (m: int)
      requires Valid() && cs != [] && forall k :: 0 <= k < |cs| ==> 0 <= cs[k] < |parent|
      ensures m in cs && forall k :: 0 <= k < |cs| ==> Order(cs[k], m) <= 0
    {
      m := cs[0];
      OrderFacts(m, m, m);
      var i := 1;
      while i < |cs|
        invariant 1 <= i <= |cs| && m in cs
        invariant forall k :: 0 <= k < i ==> Order(cs[k], m) <= 0
      {
        var c := CompareTo(cs[i], m);
        if c > 0 {
          forall k | 0 <= k <= i
            ensures Order(cs[k], cs[i]) <= 0
          {
            OrderFacts(cs[k], m, cs[i]);
            OrderFacts(cs[i], m, cs[i]);
          }
          m := cs[i];
        }
        i := i + 1;
      }
    }

    /** `Min()` over cells: a cell of `cs` that exceeds no cell of `cs`. */
    method MinCell(cs: seq<int>) returns (m: int)
      requires Valid() && cs != [] && forall k :: 0 <= k < |cs| ==> 0 <= cs[k] < |parent|
      ensures m in cs && forall k :: 0 <= k < |cs| ==> Order(m, cs[k]) <= 0
    {
      m := cs[0];
      OrderFacts(m, m, m);
      var i := 1;
      while i < |cs|
        invariant 1 <= i <= |cs| && m in cs
        invariant forall k :: 0 <= k < i ==> Order(m, cs[k]) <= 0
      {
        var c := CompareTo(cs[i], m);
        if c < 0 {
          forall k | 0 <= k <= i
            ensures Order(cs[i], cs[k]) <= 0
          {
            OrderFacts(cs[i], m, cs[k]);
            OrderFacts(m, cs[i], cs[i]);
          }
          m := cs[i];
        } else {
          OrderFacts(m, cs[i], cs[i]);
        }
        i := i + 1;
      }
    }
  
    /** `FindAll(x => x.childern.Count < dimensions)`: the cells of `cs` with room for a child. */
    function NotFull(cs: seq<int>): (r: seq<int>)
      reads this
      requires forall k :: 0 <= k < |cs| ==> 0 <= cs[k] < |children|
      ensures forall y :: y in r <==> y in cs && 0 <= y < |children| && |children[y]| < dims
    {
      if cs == [] then []
      else (if |children[cs[0]]| < dims then [cs[0]] else []) + NotFull(cs[1..])
    }

    /** `FindAll(x => x.childern.Count != 0)`: the cells of `cs` that have children. */
    function WithChildren(cs: seq<int>): (r: seq<int>)
      reads this
      requires forall k :: 0 <= k < |cs| ==> 0 <= cs[k] < |children|
      ensures forall y :: y in r <==> y in cs && 0 <= y < |children| && children[y] != []
    {
      if cs == [] then []
      else (if children[cs[0]] != [] then [cs[0]] else []) + WithChildren(cs[1..])
    }

    /** `FindAll(x => x.childern.Count == 0)`: the childless cells of `cs`, in order. */
    function Childless(cs: seq<int>): (r: seq<int>)
      reads this
      requires forall k :: 0 <= k < |cs| ==> 0 <= cs[k] < |children|
      ensures forall y :: y in r <==> y in cs && 0 <= y < |children| && children[y] == []
    {
      if cs == [] then []
      else (if children[cs[0]] == [] then [cs[0]] else []) + Childless(cs[1..])
    }

    /** A cell of the non-empty `cs` with the most children. */
    ghost function MostChildren(cs: seq<int>): (m: int)
      reads this
      requires cs != [] && forall k :: 0 <= k < |cs| ==> 0 <= cs[k] < |children|
      ensures m in cs && forall y :: y in cs ==> |children[y]| <= |children[m]|
    {
      if |cs| == 1 then cs[0]
      else
        var m := MostChildren(cs[1..]);
        if |children[cs[0]]| >= |children[m]| then cs[0] else m
    }

    /** A cell of the non-empty `cs` with the fewest children. */
    ghost function FewestChildren(cs: seq<int>): (m: int)
      reads this
      requires cs != [] && forall k :: 0 <= k < |cs| ==> 0 <= cs[k] < |children|
      ensures m in cs && forall y :: y in cs ==> |children[m]| <= |children[y]|
    {
      if |cs| == 1 then cs[0]
      else
        var m := FewestChildren(cs[1..]);
        if |children[cs[0]]| <= |children[m]| then cs[0] else m
    }

    /**
     * `GetCellToAddChildTo`: descending from the first cell of the set, a cell
     * of that set with fewer than `dimensions` children. At a full cell it
     * moves to the child with room for children that has the most of them, or
     * to the smallest child when every child is full.
     */
    method GetCellToAddChildTo(x: int) returns (r: int)
      requires Valid() && 0 <= x < |parent| && dims >= 1
      ensures 0 <= r < |parent| && |children[r]| < dims
      ensures Root(parent, rank, r) == Root(parent, rank, x)
    {
      r := GetFirstInSet(x);
      while |children[r]| >= dims
        invariant 0 <= r < |parent| && Root(parent, rank, r) == Root(parent, rank, x)
        decreases |Members(parent, rank, r)|
      {
        var notFull := NotFull(children[r]);
        var next;
        if |notFull| == 0 {
          next := MinCell(children[r]);
        } else {
          assert forall k :: 0 <= k < |notFull| ==> notFull[k] in notFull;
          ghost var w := MostChildren(notFull);
          next :| next in notFull && forall o :: o in notFull ==> |children[o]| <= |children[next]|;
        }
        ChildMembers(parent, rank, r, next);
        r := next;
      }
    }

    /**
     * `GetLastInSet`: descending from the first cell of the set, a childless
     * cell of that set. It moves to a child with children that has the fewest
     * of them, or to the first childless child when no child has children.
     */
    method GetLastInSet(x: int) returns (l: int)
      requires Valid() && 0 <= x < |parent|
      ensures 0 <= l < |parent| && children[l] == []
      ensures Root(parent, rank, l) == Root(parent, rank, x)
    {
      l := GetFirstInSet(x);
      while children[l] != []
        invariant 0 <= l < |parent| && Root(parent, rank, l) == Root(parent, rank, x)
        decreases |Members(parent, rank, l)|
      {
        var notEmpty := WithChildren(children[l]);
        var empty := Childless(children[l]);
        var next;
        if |notEmpty| != 0 {
          assert forall k :: 0 <= k < |notEmpty| ==> notEmpty[k] in notEmpty;
          ghost var w := FewestChildren(notEmpty);
          next :| next in notEmpty && forall o :: o in notEmpty ==> |children[next]| <= |children[o]|;
        } else {
          assert children[l][0] in empty;
          next := empty[0];
        }
        ChildMembers(parent, rank, l, next);
        l := next;
      }
    }
  
    /** `NullSet()` on `s` and then on its child `m`. */
    method DetachPair(s: int, m: int)
      requires Valid() && 0 <= s < |parent| && 0 <= m < |parent| && parent[m] == s
      modifies this
      ensures Valid() && coords == old(coords) && rank == old(rank) && |parent| == old(|parent|)
      ensures forall y :: 0 <= y < |parent| ==>
        parent[y] == if y == s || y == m || old(parent[y]) == s || old(parent[y]) == m then -1 else old(parent[y])
      ensures forall y :: y in sets ==> y in old(sets)
    {
      NullSet(s);
      NullSet(m);
    }

    /**
     * `if (_parent == null) sets.Add(c); else _parent.AddChild(c);`: the
     * detached cell `c` takes an old place, under `up` or first in a set.
     */
    method PutInPlace(c: int, up: int)
      requires Valid() && 0 <= c < |parent| && parent[c] == -1 && c !in sets
      requires up != -1 ==> 0 <= up < |parent| && up != c && Root(parent, rank, up) != c
      modifies this
      ensures Valid() && coords == old(coords) && parent == old(parent)[c := up]
      ensures forall y :: y in sets ==> y in old(sets) || y == c
      ensures forall y :: 0 <= y < |parent| && y != up ==> children[y] == old(children[y])
      ensures forall y :: 0 <= y < |parent| ==>
        Root(parent, rank, y) ==
          if up != -1 && old(Root(parent, rank, y)) == c then old(Root(parent, rank, up)) else old(Root(parent, rank, y))
    {
      if up == -1 {
        assert parent == parent[c := up];
        sets := sets + [c];
      } else {
        AddChild(up, c);
      }
    }

    /**
     * The re-linking in `SwitchWithMaxChild` once `s` and `m` are detached:
     * `gs` move under `s`, `cs` (but `m`) under `m`, and `s` under `m`.
     */
    method Regroup(s: int, m: int, gs: seq<int>, cs: seq<int>)
      requires Valid() && 0 <= s < |parent| && 0 <= m < |parent| && s != m
      requires parent[s] == -1 && parent[m] == -1 && NoDup(gs) && NoDup(cs)
      requires forall k :: 0 <= k < |gs| ==> 0 <= gs[k] < |parent| && parent[gs[k]] == -1 && gs[k] != s && gs[k] != m
      requires forall k :: 0 <= k < |cs| ==> 0 <= cs[k] < |parent| && cs[k] != s && cs[k] !in gs
      requires forall k :: 0 <= k < |cs| && cs[k] != m ==> parent[cs[k]] == -1
      modifies this
      ensures Valid() && coords == old(coords) && |parent| == old(|parent|)
      ensures forall y :: 0 <= y < |parent| ==>
        parent[y] == if y in gs then s else if (y in cs && y != m) || y == s then m else old(parent[y])
      ensures forall y :: y in sets ==> y in old(sets)
    {
      AdoptAll(s, gs);
      AdoptAll(m, cs);
      AddChild(m, s);
    }

    /**
     * The rearrangement in `SwitchWithMaxChild`: `s` and its child `m` trade
     * places in the tree, `m` entering `sets` when `s` was the first cell.
     */
    method SwapWithChild(s: int, m: int)
      requires Valid() && 0 <= s < |parent| && 0 <= m < |parent| && parent[m] == s
      modifies this
      ensures Valid() && coords == old(coords) && |parent| == old(|parent|)
      ensures forall y :: 0 <= y < |parent| ==> parent[y] == SwappedParent(old(parent), s, m, y)
      ensures forall y :: y in sets ==> y in old(sets) || y == m
    {
      ghost var p0, r0, c0, s0 := parent, rank, children, sets;
      assert m !in s0;
      var up := parent[s];
      var cs := children[s];
      var gs := children[m];
      DetachPair(s, m);
      SwapDetached(p0, c0, parent, s, m);
      ghost var pd := parent;
      Regroup(s, m, gs, cs);
      SwapRegrouped(p0, c0, pd, parent, s, m);
      assert m !in sets && parent[m] == -1;
      if up != -1 {
        SwapKeepsUpperRoot(p0, r0, parent, rank, s, m);
      }
      PutInPlace(m, up);
    }
  
    /**
     * `SwitchWithMaxChild`: when `s` is not above its largest child in `Order`,
     * the two trade places; the sets stay as they were.
     */
    method SwitchWithMaxChild(s: int) returns (switched: bool)
      requires Valid() && 0 <= s < |parent|
      modifies this
      ensures Valid() && coords == old(coords) && SameSets(old(parent), old(rank), parent, rank)
      ensures ListedFrom(old(parent), old(rank), old(sets), sets, s)
      ensures switched <==> exists c :: c in old(children[s]) && old(Order(s, c)) <= 0
      ensures !switched ==> parent == old(parent) && children == old(children) && sets == old(sets) && rank == old(rank)
      ensures switched ==>
        var m := parent[s];
        0 <= m < |parent| && m in old(children[s]) &&
        (forall c :: c in old(children[s]) ==> old(Order(c, m)) <= 0) &&
        forall y :: 0 <= y < |parent| ==> parent[y] == SwappedParent(old(parent), s, m, y)
    {
      if |children[s]| == 0 {
        return false;
      }
      var m := MaxCell(children[s]);
      var cmp := CompareTo(s, m);
      if cmp > 0 {
        forall c | c in children[s]
          ensures Order(s, c) > 0
        {
          OrderFacts(s, c, m);
        }
        return false;
      }
      ghost var p0, r0 := parent, rank;
      assert m in children[s];
      SwapWithChild(s, m);
      SwapKeepsSets(p0, r0, parent, rank, s, m);
      assert Root(p0, r0, m) == Root(p0, r0, s);
      return true;
    }
  
    /**
     * `ReplaceWithLast`: takes `s` out of its set by putting a childless cell
     * `l` of that set in its place; returns the first cell of what is left of
     * the set (or `s` itself when `s` was alone).
     */
    method ReplaceWithLast(s: int) returns (start: int)
      requires Valid() && 0 <= s < |parent|
      modifies this
      ensures Valid() && coords == old(coords) && |parent| == old(|parent|)
      ensures TakenOut(old(parent), old(rank), parent, rank, children, s) && s !in sets
      ensures ListedFrom(old(parent), old(rank), old(sets), sets, s)
      ensures 0 <= start < |parent| && parent[start] == -1 && old(Root(parent, rank, start) == Root(parent, rank, s))
      ensures old(parent[s] != -1 || children[s] != []) ==> start != s
    {
      ghost var p0, r0, c0, s0 := parent, rank, children, sets;
      var l := GetLastInSet(s);
      start := GetFirstInSet(l);
      NullSet(l);
      LeafParents(p0, c0, parent, l);
      if s == l {
        LeafOutcome(p0, r0, c0, parent, children, l);
        return;
      }
      TakePlace(l, s);
      ReplaceOutcome(p0, r0, c0, parent, rank, children, s, l);
      start := GetFirstInSet(l);
    }

    /**
     * The second half of `ReplaceWithLast`: the detached childless cell `l`
     * takes the parent and the children of `s`, and `s` is left alone.
     */
    method TakePlace(l: int, s: int)
      requires Valid() && 0 <= s < |parent| && 0 <= l < |parent| && s != l
      requires parent[l] == -1 && children[l] == [] && l !in sets
      modifies this
      ensures Valid() && coords == old(coords) && |parent| == old(|parent|)
      ensures forall y :: 0 <= y < |parent| ==> parent[y] == ReplacedParent(old(parent), s, l, y)
      ensures forall y :: y in sets ==> y in old(sets) || y == l
      ensures s !in sets && children[s] == []
    {
      ghost var p0, r0, c0 := parent, rank, children;
      var up := parent[s];
      var cs := children[s];
      assert forall y :: 0 <= y < |parent| ==> (y in cs <==> p0[y] == s);
      NullSet(s);
      ghost var p2 := parent;
      if up != -1 {
        ReplaceKeepsUpperRoot(p0, r0, c0, parent, rank, s, l);
      }
      Refill(l, up, cs);
      ReplaceRegrouped(p0, p2, parent, s, l, cs);
    }

    /**
     * The end of `ReplaceWithLast`: the detached cell `l` goes under `up` (or
     * into `sets`) and the detached cells `cs` under `l`.
     */
    method Refill(l: int, up: int, cs: seq<int>)
      requires Valid() && 0 <= l < |parent| && parent[l] == -1 && l !in sets && l !in cs && NoDup(cs)
      requires up != -1 ==> 0 <= up < |parent| && up != l && Root(parent, rank, up) != l
      requires forall k :: 0 <= k < |cs| ==> 0 <= cs[k] < |parent| && parent[cs[k]] == -1 && cs[k] != l
      requires forall k :: 0 <= k < |cs| && up != -1 ==> cs[k] != Root(parent, rank, up)
      modifies this
      ensures Valid() && coords == old(coords) && |parent| == old(|parent|)
      ensures forall y :: 0 <= y < |parent| ==>
        parent[y] == if y in cs then l else if y == l then up else old(parent[y])
      ensures forall y :: y in sets ==> y in old(sets) || y == l
      ensures forall y :: 0 <= y < |parent| && y != up && y != l ==> children[y] == old(children[y])
    {
      PutInPlace(l, up);
      AdoptAll(l, cs);
    }
  
    /**
     * `SortSet`: the heap-ordering pass over the subtree of `x`, made of
     * `SwitchWithMaxChild` steps, so cells only trade places within their set.
     * `fuel` bounds the depth of the recursion.
     */
    method SortSet(x: int, fuel: nat) returns (changed: bool)
      requires Valid() && 0 <= x < |parent|
      modifies this
      ensures Valid() && coords == old(coords) && SameSets(old(parent), old(rank), parent, rank)
      ensures ListedFrom(old(parent), old(rank), old(sets), sets, x)
      decreases fuel
    {
      SameSetsRefl(parent, rank);
      if |children[x]| == 0 || fuel == 0 {
        return false;
      }
      changed := SwitchWithMaxChild(x);
      var childChange := false;
      var i := 0;
      while i < |children[x]|
        invariant Valid() && coords == old(coords) && SameSets(old(parent), old(rank), parent, rank)
        invariant ListedFrom(old(parent), old(rank), old(sets), sets, x)
        decreases |parent| - i
      {
        NoDupBounded(children[x], |parent|);
        var c := children[x][i];
        assert c in children[x];
        ghost var pb, rb, sb := parent, rank, sets;
        var cc := SortSet(c, fuel - 1);
        SameSetsTrans(old(parent), old(rank), pb, rb, parent, rank);
        ListedTrans(old(parent), old(rank), pb, rb, old(sets), sb, sets, x, c);
        childChange := childChange || cc;
        i := i + 1;
      }
      if childChange {
        ghost var pb, rb, sb := parent, rank, sets;
        changed := SwitchWithMaxChild(x);
        SameSetsTrans(old(parent), old(rank), pb, rb, parent, rank);
        ListedTrans(old(parent), old(rank), pb, rb, old(sets), sb, sets, x, x);
      }
    }

    /**
     * `RemoveFromSet`: takes `s` out of its set, by `ReplaceWithLast` and a
     * `SortSet` from the first cell of what is left; the other cells keep
     * their sets.
     */
    method RemoveFromSet(s: int)
      requires Valid() && 0 <= s < |parent|
      modifies this
      ensures Valid() && coords == old(coords)
      ensures TakenOut(old(parent), old(rank), parent, rank, children, s) && s !in sets
      ensures ListedFrom(old(parent), old(rank), old(sets), sets, s)
    {
      ghost var p0, r0, c0, s0 := parent, rank, children, sets;
      if parent[s] == -1 && |children[s]| == 0 {
        if s in sets {
          RootsRemoved(parent, sets, s);
          sets := RemoveFirst(sets, s);
        }
        LeafOutcome(p0, r0, c0, parent, children, s);
        return;
      }
      var start := ReplaceWithLast(s);
      ghost var pm, rm, cm, sm := parent, rank, children, sets;
      var _ := SortSet(start, |parent|);
      TakenOutKept(p0, r0, pm, rm, cm, parent, rank, children, s);
      RemovedListed(p0, r0, pm, rm, s0, sm, sets, s, start);
    }

    /**
     * `AddCellToSet(_c)`: unless `c` is already in the set of `t`, takes `c`
     * out of its set and hangs it below the cell `GetCellToAddChildTo` picks in
     * the set of `t`.
     */
    method AddCellToSet(t: int, c: int)
      requires Valid() && 0 <= t < |parent| && 0 <= c < |parent| && dims >= 1
      modifies this
      ensures Valid() && coords == old(coords)
      ensures MovedInto(old(parent), old(rank), parent, rank, c, t)
      ensures ListedFrom(old(parent), old(rank), old(sets), sets, c)
      ensures old(Root(parent, rank, t) != Root(parent, rank, c)) ==>
        parent[c] != -1 && |children[parent[c]]| <= dims
    {
      var same := SameSet(t, c);
      if same {
        MovedNowhere(parent, rank, c, t);
        return;
      }
      ghost var p0, r0 := parent, rank;
      RemoveFromSet(c);
      ghost var pm, rm, cm := parent, rank, children;
      var r := GetCellToAddChildTo(t);
      assert Root(parent, rank, c) == c;
      AddChild(r, c);
      MovedAfter(p0, r0, pm, rm, cm, parent, rank, c, t);
    }

    /**
     * The opening of `AddToSet`: the first cells of the two sets, the one of
     * the smaller set first; on equal sizes the set of `x` counts as smaller.
     */
    method SmallerFirst(x: int, ns: int) returns (first: int, nw: int)
      requires Valid() && 0 <= x < |parent| && 0 <= ns < |parent|
      ensures if |SetOf(parent, rank, x)| > |SetOf(parent, rank, ns)|
              then first == Root(parent, rank, ns) && nw == Root(parent, rank, x)
              else first == Root(parent, rank, x) && nw == Root(parent, rank, ns)
    {
      var sizeX := GetSetSize(x);
      var sizeN := GetSetSize(ns);
      if sizeX > sizeN {
        first := GetFirstInSet(ns);
        nw := GetFirstInSet(x);
      } else {
        first := GetFirstInSet(x);
        nw := GetFirstInSet(ns);
      }
    }

    /**
     * One pass of the loop of `AddToSet`: a childless cell of the set of
     * `first` moves into the set of `nw`, whose cells are then sorted.
     */
    method MoveLastInSet(first: int, nw: int) returns (toAdd: int)
      requires Valid() && 0 <= first < |parent| && 0 <= nw < |parent| && dims >= 1
      modifies this
      ensures Valid() && coords == old(coords) && 0 <= toAdd < |parent|
      ensures old(Root(parent, rank, toAdd) == Root(parent, rank, first))
      ensures MovedInto(old(parent), old(rank), parent, rank, toAdd, nw)
    {
      toAdd := GetLastInSet(first);
      AddCellToSet(nw, toAdd);
      ghost var p1, r1 := parent, rank;
      var f := GetFirstInSet(nw);
      var _ := SortSet(f, |parent|);
      MovedKept(old(parent), old(rank), p1, r1, parent, rank, toAdd, nw);
    }

    /**
     * `AddToSet(_newSet)`: unless both cells are in one set already, moves the
     * cells of the smaller set one at a time, each a childless cell found by
     * `GetLastInSet`, into the other set, sorting that set after each move,
     * until the first cell of the smaller set has joined.
     */
    method AddToSet(x: int, ns: int)
      requires Valid() && 0 <= x < |parent| && 0 <= ns < |parent| && dims >= 1
      modifies this
      ensures Valid() && coords == old(coords)
      ensures PairKept(old(parent), old(rank), parent, rank, x, ns)
      ensures Root(parent, rank, old(Root(parent, rank, x))) == Root(parent, rank, old(Root(parent, rank, ns)))
      ensures old(|SetOf(parent, rank, x)| == 1 || |SetOf(parent, rank, ns)| == 1) ==>
        Root(parent, rank, x) == Root(parent, rank, ns)
    {
      ghost var p0, r0 := parent, rank;
      var same := SameSet(x, ns);
      if same {
        return;
      }
      var first, nw := SmallerFirst(x, ns);
      var together := SameSet(first, nw);
      while !together
        invariant Valid() && coords == old(coords) && |parent| == |p0|
        invariant 0 <= first < |parent| && 0 <= nw < |parent|
        invariant (first == Root(p0, r0, x) && nw == Root(p0, r0, ns)) || (first == Root(p0, r0, ns) && nw == Root(p0, r0, x))
        invariant PairKept(p0, r0, parent, rank, x, ns)
        invariant (nw == Root(p0, r0, x) && |SetOf(p0, r0, x)| >= |SetOf(p0, r0, ns)|) ||
                  (nw == Root(p0, r0, ns) && |SetOf(p0, r0, ns)| >= |SetOf(p0, r0, x)|)
        invariant StaysWith(p0, r0, parent, rank, nw)
        invariant together <==> Root(parent, rank, first) == Root(parent, rank, nw)
        decreases if together then 0 else |SetOf(parent, rank, first)|
      {
        ghost var pb, rb := parent, rank;
        var toAdd := MoveLastInSet(first, nw);
        MateInPair(p0, r0, pb, rb, x, ns, first, toAdd);
        AddStepKept(p0, r0, pb, rb, parent, rank, x, ns, nw, toAdd);
        AddStepEnds(pb, rb, parent, rank, first, nw, toAdd);
        AddStepStays(p0, r0, pb, rb, parent, rank, first, nw, toAdd);
        if first != toAdd {
          AddStepShrinks(pb, rb, parent, rank, first, nw, toAdd);
        } else {
          assert first in SetOf(pb, rb, first);
        }
        together := SameSet(first, nw);
      }
      SingleJoins(p0, r0, parent, rank, x, ns, nw);
    }
  }
}
