/**
 * Entrance, exit and the initially viewed dimensions (`Maze.GetOpenings`, Maze.cs).
 *
 * The entrance is drawn with `RandOpening(_dInfo)` and the exit with `RandOpening(_dInfo, entrance)`.
 * `initialD` is a zero-initialised array of three slots: first the dimensions in which the entrance
 * lies on an outer face, in increasing order, then the lowest dimensions the array does not hold yet.
 * Because the unfilled slots are 0, dimension 0 always counts as already held in the second pass.
 */
module Openings {
  import opened Randomize

  const ViewSlots: int := 3

  /** The dimensions below `k` in which the entrance lies on an outer face, in increasing order. */
  function EdgeDims(entrance: seq<int>, dInfo: seq<int>, k: nat): (e: seq<int>)
    requires |entrance| == |dInfo| && k <= |dInfo|
    ensures |e| <= k
  {
    if k == 0 then []
    else EdgeDims(entrance, dInfo, k - 1) + (if OnEdge(entrance[k - 1], dInfo[k - 1]) then [k - 1] else [])
  }

  /** `EdgeDims` lists exactly the edge dimensions below `k`, each once, in increasing order. */
  lemma {:induction false} EdgeDimsSpec(entrance: seq<int>, dInfo: seq<int>, k: nat)
    requires |entrance| == |dInfo| && k <= |dInfo|
    ensures var e := EdgeDims(entrance, dInfo, k);
      (forall i :: 0 <= i < |e| ==> 0 <= e[i] < k && OnEdge(entrance[e[i]], dInfo[e[i]])) &&
      (forall i, j :: 0 <= i < j < |e| ==> e[i] < e[j]) &&
      (forall m :: 0 <= m < k && OnEdge(entrance[m], dInfo[m]) ==> m in e)
  {
    if k > 0 {
      EdgeDimsSpec(entrance, dInfo, k - 1);
    }
  }

  /** The edge dimensions found up to `k` are the first ones found up to any later bound. */
  lemma {:induction false} EdgeDimsPrefix(entrance: seq<int>, dInfo: seq<int>, k: nat, m: nat)
    requires |entrance| == |dInfo| && k <= m <= |dInfo|
    ensures EdgeDims(entrance, dInfo, k) <= EdgeDims(entrance, dInfo, m)
    decreases m - k
  {
    if k < m {
      EdgeDimsPrefix(entrance, dInfo, k, m - 1);
    }
  }

  /** Slots from `d` on have not been written: they still hold the array's initial 0. */
  predicate ZeroFrom(slots: seq<int>, d: int)
    requires 0 <= d <= |slots|
  {
    forall s :: d <= s < |slots| ==> slots[s] == 0
  }

  /**
   * The second pass of `GetOpenings` from index `i`, with `d` slots filled: each index the array
   * does not hold goes into the next slot, until the slots or the dimensions run out.
   */
  function FillLowest(slots: seq<int>, d: int, i: int, dims: int): (r: seq<int>)
    requires |slots| == ViewSlots && 0 <= d <= ViewSlots && 0 <= i && ZeroFrom(slots, d)
    ensures |r| == ViewSlots && r[..d] == slots[..d]
    decreases dims - i
  {
    if d >= ViewSlots || i >= dims then slots
    else if i !in slots then FillLowest(slots[d := i], d + 1, i + 1, dims)
    else FillLowest(slots, d, i + 1, dims)
  }

  /** `n` slots still holding 0. */
  function Zeros(n: nat): (z: seq<int>)
    ensures |z| == n && forall s :: 0 <= s < n ==> z[s] == 0
  {
    seq(n, _ => 0)
  }

  /** The three slots `GetOpenings` leaves in `initialD` for an entrance. */
  function InitialDims(entrance: seq<int>, dInfo: seq<int>): (r: seq<int>)
    requires |entrance| == |dInfo|
    ensures |r| == ViewSlots
  {
    var e := EdgeDims(entrance, dInfo, |dInfo|);
    if |e| >= ViewSlots then e[..ViewSlots]
    else FillLowest(e + Zeros(ViewSlots - |e|), |e|, 0, |dInfo|)
  }

  lemma SplitAtZeros(a: seq<int>, d: int)
    requires 0 <= d <= |a| && ZeroFrom(a, d)
    ensures a == a[..d] + Zeros(|a| - d)
  {
  }

  /**
   * `GetOpenings` after the draws: the first pass fills `initialD` with the entrance's edge
   * dimensions, and the second pass runs only when the first one left a slot free.
   */
  method InitialDimensions(entrance: seq<int>, dInfo: seq<int>) returns (initialD: array<int>)
    requires |entrance| == |dInfo|
    ensures fresh(initialD)
    ensures initialD[..] == InitialDims(entrance, dInfo)
  {
    var d;
    initialD, d := EdgePass(entrance, dInfo);
    if d >= ViewSlots {
      return;
    }
    FillRemaining(initialD, d, |dInfo|);
  }

  /**
   * The first pass of `GetOpenings`: the edge dimensions of the entrance go into the slots in
   * increasing order, and the pass returns as soon as the three slots are full.
   */
  method EdgePass(entrance: seq<int>, dInfo: seq<int>) returns (initialD: array<int>, d: int)
    requires |entrance| == |dInfo|
    ensures fresh(initialD) && initialD.Length == ViewSlots
    ensures var e := EdgeDims(entrance, dInfo, |dInfo|);
      if |e| >= ViewSlots then d == ViewSlots && initialD[..] == e[..ViewSlots]
      else d == |e| && initialD[..] == e + Zeros(ViewSlots - |e|)
  {
    initialD := new int[ViewSlots](_ => 0);
    d := 0;
    for i := 0 to |dInfo|
      invariant d == |EdgeDims(entrance, dInfo, i)| < ViewSlots
      invariant initialD[..d] == EdgeDims(entrance, dInfo, i) && ZeroFrom(initialD[..], d)
    {
      ghost var before := initialD[..];
      if entrance[i] == 0 || entrance[i] == dInfo[i] - 1 {
        initialD[d] := i;
        assert initialD[..] == before[d := i];
        assert initialD[..d + 1] == before[..d] + [i];
        d := d + 1;
      } else {
        assert initialD[..] == before;
      }
      assert initialD[..d] == EdgeDims(entrance, dInfo, i + 1);
      if d >= ViewSlots {
        EdgePassFull(entrance, dInfo, i + 1, initialD[..]);
        return;
      }
    }
    SplitAtZeros(initialD[..], d);
  }

  /** Once the first pass has filled all three slots, later edge dimensions no longer matter. */
  lemma EdgePassFull(entrance: seq<int>, dInfo: seq<int>, k: nat, slots: seq<int>)
    requires |entrance| == |dInfo| && k <= |dInfo| && |slots| == ViewSlots
    requires slots[..ViewSlots] == EdgeDims(entrance, dInfo, k)
    ensures var e := EdgeDims(entrance, dInfo, |dInfo|); |e| >= ViewSlots && slots == e[..ViewSlots]
  {
    EdgeDimsPrefix(entrance, dInfo, k, |dInfo|);
    assert slots == slots[..ViewSlots];
  }

  /** The second pass of `GetOpenings`, on the slots of `initialD` from `d` on. */
  method FillRemaining(initialD: array<int>, d0: int, dims: int)
    requires initialD.Length == ViewSlots && 0 <= d0 < ViewSlots && ZeroFrom(initialD[..], d0) && dims >= 0
    modifies initialD
    ensures initialD[..] == FillLowest(old(initialD[..]), d0, 0, dims)
  {
    var d := d0;
    for i := 0 to dims
      invariant 0 <= d < ViewSlots && ZeroFrom(initialD[..], d)
      invariant FillLowest(initialD[..], d, i, dims) == FillLowest(old(initialD[..]), d0, 0, dims)
    {
      ghost var before := initialD[..];
      if i !in initialD[..] {
        initialD[d] := i;
        assert initialD[..] == before[d := i];
        d := d + 1;
      } else {
        assert initialD[..] == before;
      }
      if d >= ViewSlots {
        return;
      }
    }
  }

  /** Every slot from `d` on that was written holds a value of `[lo, dims)` not among `slots[..d]`. */
  predicate WrittenFrom(r: seq<int>, slots: seq<int>, d: int, lo: int, dims: int)
    requires |r| == |slots| == ViewSlots && 0 <= d <= ViewSlots
  {
    forall s :: d <= s < ViewSlots && r[s] != 0 ==> lo <= r[s] < dims && r[s] !in slots[..d]
  }

  /** From slot `d` on, a written slot follows a written slot with a smaller value. */
  predicate IncreasingFrom(r: seq<int>, d: int)
    requires |r| == ViewSlots && 0 <= d
  {
    forall t :: d < t < ViewSlots && r[t] != 0 ==> r[t - 1] != 0 && r[t - 1] < r[t]
  }

  /** A positive dimension of `[lo, dims)` missing from `r` is above every slot from `d` on. */
  predicate NoGapFrom(r: seq<int>, d: int, lo: int, dims: int)
    requires |r| == ViewSlots && 0 <= d
  {
    forall m :: 1 <= m && lo <= m < dims && m !in r ==> forall s :: d <= s < ViewSlots ==> 0 < r[s] < m
  }

  /** The values the second pass writes are new, positive and come from `[i, dims)`. */
  lemma {:induction false} FillLowestNew(slots: seq<int>, d: int, i: int, dims: int)
    requires |slots| == ViewSlots && 0 <= d <= ViewSlots && 0 <= i && ZeroFrom(slots, d)
    requires d < ViewSlots ==> 0 in slots
    ensures WrittenFrom(FillLowest(slots, d, i, dims), slots, d, i, dims)
    decreases dims - i
  {
    if d < ViewSlots && i < dims {
      var r := FillLowest(slots, d, i, dims);
      if i !in slots {
        var next := slots[d := i];
        assert d + 1 < ViewSlots ==> next[ViewSlots - 1] == 0;
        FillLowestNew(next, d + 1, i + 1, dims);
        assert r == FillLowest(next, d + 1, i + 1, dims);
        assert r[d] == i by {
          assert r[..d + 1][d] == next[..d + 1][d];
        }
        assert next[..d + 1] == slots[..d] + [i];
      } else {
        FillLowestNew(slots, d, i + 1, dims);
        assert r == FillLowest(slots, d, i + 1, dims);
      }
    }
  }

  /** The values the second pass writes increase, and once a slot stays 0 the later ones do too. */
  lemma {:induction false} FillLowestIncreasing(slots: seq<int>, d: int, i: int, dims: int)
    requires |slots| == ViewSlots && 0 <= d <= ViewSlots && 0 <= i && ZeroFrom(slots, d)
    requires d < ViewSlots ==> 0 in slots
    ensures IncreasingFrom(FillLowest(slots, d, i, dims), d)
    decreases dims - i
  {
    if d < ViewSlots && i < dims {
      var r := FillLowest(slots, d, i, dims);
      if i !in slots {
        var next := slots[d := i];
        assert d + 1 < ViewSlots ==> next[ViewSlots - 1] == 0;
        FillLowestIncreasing(next, d + 1, i + 1, dims);
        FillLowestNew(next, d + 1, i + 1, dims);
        assert r == FillLowest(next, d + 1, i + 1, dims);
        assert r[d] == i by {
          assert r[..d + 1][d] == next[..d + 1][d];
        }
        assert i != 0;
      } else {
        FillLowestIncreasing(slots, d, i + 1, dims);
        assert r == FillLowest(slots, d, i + 1, dims);
      }
    }
  }

  /** The second pass leaves out no positive dimension below one it writes. */
  lemma {:induction false} FillLowestNoGap(slots: seq<int>, d: int, i: int, dims: int)
    requires |slots| == ViewSlots && 0 <= d <= ViewSlots && 0 <= i && ZeroFrom(slots, d)
    requires d < ViewSlots ==> 0 in slots
    ensures NoGapFrom(FillLowest(slots, d, i, dims), d, i, dims)
    decreases dims - i
  {
    if d < ViewSlots && i < dims {
      var r := FillLowest(slots, d, i, dims);
      if i !in slots {
        var next := slots[d := i];
        assert d + 1 < ViewSlots ==> next[ViewSlots - 1] == 0;
        FillLowestNoGap(next, d + 1, i + 1, dims);
        assert r == FillLowest(next, d + 1, i + 1, dims);
        assert r[d] == i by {
          assert r[..d + 1][d] == next[..d + 1][d];
        }
        assert i != 0;
        forall m | 1 <= m && i <= m < dims && m !in r
          ensures forall s :: d <= s < ViewSlots ==> 0 < r[s] < m
        {
          assert m != i;
        }
      } else {
        FillLowestNoGap(slots, d, i + 1, dims);
        assert r == FillLowest(slots, d, i + 1, dims);
        if i != 0 {
          assert i in r by {
            var p :| 0 <= p < ViewSlots && slots[p] == i;
            assert p < d;
            assert r[..d][p] == slots[..d][p];
          }
        }
      }
    }
  }

  /** The second pass started on edge dimensions `e` followed by zeros. */
  lemma FillAfter(e: seq<int>, dims: int)
    requires |e| < ViewSlots
    ensures var r := FillLowest(e + Zeros(ViewSlots - |e|), |e|, 0, dims);
      r[..|e|] == e &&
      (forall s :: |e| <= s < ViewSlots && r[s] != 0 ==> r[s] !in e && 0 < r[s] < dims) &&
      (forall s, t :: |e| <= s < t < ViewSlots && r[t] != 0 ==> r[s] != 0 && r[s] < r[t]) &&
      (forall m :: 1 <= m < dims && m !in r ==> forall s :: |e| <= s < ViewSlots ==> 0 < r[s] < m)
  {
    var slots := e + Zeros(ViewSlots - |e|);
    assert slots[ViewSlots - 1] == 0;
    assert slots[..|e|] == e;
    FillLowestNew(slots, |e|, 0, dims);
    FillLowestIncreasing(slots, |e|, 0, dims);
    FillLowestNoGap(slots, |e|, 0, dims);
    var r := FillLowest(slots, |e|, 0, dims);
    assert slots[..|e|] == e;
    forall s, t | |e| <= s < t < ViewSlots && r[t] != 0
      ensures r[s] != 0 && r[s] < r[t]
    {
      if s + 1 < t {
        assert r[s + 1] != 0 && r[s] < r[s + 1];
      }
    }
  }

  /**
   * The leading slots of `initialD` are the entrance's edge dimensions in increasing order, at most
   * three of them; every later slot holds 0 or a dimension that is not an edge dimension, larger
   * than the slots before it, and lower than any positive dimension left out.
   */
  lemma InitialDimsLayout(entrance: seq<int>, dInfo: seq<int>)
    requires |entrance| == |dInfo|
    ensures var e := EdgeDims(entrance, dInfo, |dInfo|); var r := InitialDims(entrance, dInfo);
      var n := if |e| < ViewSlots then |e| else ViewSlots;
      r[..n] == e[..n] &&
      (forall s :: n <= s < ViewSlots && r[s] != 0 ==> r[s] !in e && 0 < r[s] < |dInfo|) &&
      (forall s, t :: n <= s < t < ViewSlots && r[t] != 0 ==> r[s] != 0 && r[s] < r[t]) &&
      (forall m :: 1 <= m < |dInfo| && m !in r ==> forall s :: n <= s < ViewSlots ==> 0 < r[s] < m)
  {
    var e := EdgeDims(entrance, dInfo, |dInfo|);
    if |e| < ViewSlots {
      FillAfter(e, |dInfo|);
    }
  }

  /** Edge dimensions followed by the second pass give three different dimensions. */
  lemma FillAfterDistinct(e: seq<int>, dims: int)
    requires |e| < ViewSlots <= dims
    requires forall i :: 0 <= i < |e| ==> 0 <= e[i] < dims
    requires forall i, j :: 0 <= i < j < |e| ==> e[i] < e[j]
    ensures var r := FillLowest(e + Zeros(ViewSlots - |e|), |e|, 0, dims);
      0 <= r[0] < dims && 0 <= r[1] < dims && 0 <= r[2] < dims &&
      r[0] != r[1] && r[0] != r[2] && r[1] != r[2]
  {
    var r := FillLowest(e + Zeros(ViewSlots - |e|), |e|, 0, dims);
    FillAfter(e, dims);
    forall s | 0 <= s < |e|
      ensures r[s] == e[s]
    {
      assert r[..|e|][s] == e[s];
    }
    if r[2] == 0 {
      assert 1 in r && 2 in r;
    }
  }

  /**
   * With at least three dimensions the initially viewed dimensions are three different
   * dimensions of the maze.
   */
  lemma InitialDimsDistinct(entrance: seq<int>, dInfo: seq<int>)
    requires |entrance| == |dInfo| >= ViewSlots
    ensures var r := InitialDims(entrance, dInfo);
      0 <= r[0] < |dInfo| && 0 <= r[1] < |dInfo| && 0 <= r[2] < |dInfo| &&
      r[0] != r[1] && r[0] != r[2] && r[1] != r[2]
  {
    var e := EdgeDims(entrance, dInfo, |dInfo|);
    EdgeDimsSpec(entrance, dInfo, |dInfo|);
    if |e| < ViewSlots {
      FillAfterDistinct(e, |dInfo|);
    } else {
      assert e[0] < e[1] < e[2];
    }
  }

  /**
   * `GetOpenings`: draws the entrance, then an exit that keeps off the entrance's faces, then fills
   * the initially viewed dimensions from the entrance.
   */
  method GetOpenings(rng: Randomizer, dInfo: seq<int>) returns (entrance: seq<int>, exit: seq<int>, initialD: array<int>)
    requires |dInfo| > 0 && forall k :: 0 <= k < |dInfo| ==> dInfo[k] >= 1
    modifies rng
    ensures InGrid(entrance, dInfo) && TouchesFace(entrance, dInfo)
    ensures InGrid(exit, dInfo) && TouchesFace(exit, dInfo) && AvoidsFaces(exit, entrance, dInfo)
    ensures fresh(initialD) && initialD[..] == InitialDims(entrance, dInfo)
  {
    entrance := rng.RandOpening(dInfo);
    exit := rng.RandOpeningAvoiding(dInfo, entrance);
    initialD := InitialDimensions(entrance, dInfo);
  }
}
