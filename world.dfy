/**
 * The active-dimension and scale state of the world (World.cs).
 *
 * `World` is a static class; here it is a class whose fields are the static fields it updates.
 * The maze's dimension count and its initially viewed dimensions are read-only inputs
 * (`dimensions`, `initialDimensions`). A nullable `int?` is an `Option<int>`; the lazily created
 * `currDimensions` array, which always has three slots, is an `Option<seq<int>>`.
 */
module WorldState {
  import opened CSharp

  /** Indices of the three viewed dimensions in `CurrentDimensions`. */
  const X: int := 0
  const Y: int := 1
  const Z: int := 2

  const MinInteriorScale: int := 3
  const MinBoundScale: int := 1
  const MinPlayerScale: int := 1

  /**
   * The rotation walk of the dimension setters: `Walk(s, k, dims)` is `_newD` after `k` steps of
   * `_newD = (_newD + 1) % dims` from `s`, with C#'s remainder.
   */
  function Walk(s: int, k: nat, dims: int): int
    requires dims > 0
  {
    if k == 0 then s else CRem(Walk(s, k - 1, dims) + 1, dims)
  }

  /**
   * Closed form of the walk from a start in `(-dims, dims)` for fewer than `dims` steps: it counts
   * up and wraps to 0 after `dims - 1`.
   */
  lemma {:induction false} WalkClosedForm(s: int, k: nat, dims: int)
    requires -dims < s < dims && k < dims
    ensures Walk(s, k, dims) == if s + k < dims then s + k else s + k - dims
  {
    if k > 0 {
      WalkClosedForm(s, k - 1, dims);
      if s + k < dims {
        CRemSmall(s + k, dims);
      } else if s + k == dims {
        CRemSelf(dims);
      } else {
        CRemSmall(s + k - dims, dims);
      }
    }
  }

  /** Within `dims` steps the walk never returns to a value it has already visited. */
  lemma WalkDistinct(s: int, i: nat, j: nat, dims: int)
    requires -dims < s < dims && i < j < dims
    ensures Walk(s, i, dims) != Walk(s, j, dims)
  {
    WalkClosedForm(s, i, dims);
    WalkClosedForm(s, j, dims);
  }

  /** A list holding `|vals|` distinct values contains at least that many entries. */
  lemma {:induction false} DistinctValuesFit(vals: seq<int>, xs: seq<int>)
    requires forall i, j :: 0 <= i < j < |vals| ==> vals[i] != vals[j]
    requires forall i :: 0 <= i < |vals| ==> vals[i] in xs
    ensures |vals| <= |xs|
  {
    if vals != [] {
      var p :| 0 <= p < |xs| && xs[p] == vals[0];
      var ys := xs[..p] + xs[p + 1..];
      forall i | 1 <= i < |vals|
        ensures vals[i] in ys
      {
        var q :| 0 <= q < |xs| && xs[q] == vals[i];
        if q < p {
          assert ys[q] == vals[i];
        } else {
          assert q != p;
          assert ys[q - 1] == vals[i];
        }
      }
      DistinctValuesFit(vals[1..], ys);
    }
  }

  /** The values the walk visits in its first `k` steps. */
  function Visited(s: int, k: nat, dims: int): (vals: seq<int>)
    requires dims > 0
    ensures |vals| == k && forall j :: 0 <= j < k ==> vals[j] == Walk(s, j, dims)
  {
    seq(k, j requires 0 <= j => Walk(s, j, dims))
  }

  /**
   * While the walk keeps hitting values of `cd`, it cannot run longer than `cd` has entries:
   * the values it visits are distinct. This bounds the dimension setters' loop.
   */
  lemma WalkBlockedAtMost(s: int, k: nat, dims: int, cd: seq<int>)
    requires dims > |cd| && -dims < s < dims
    requires forall j :: 0 <= j < k ==> Walk(s, j, dims) in cd
    ensures k <= |cd|
  {
    if k > |cd| {
      var vals := Visited(s, |cd| + 1, dims);
      forall i, j | 0 <= i < j < |vals|
        ensures vals[i] != vals[j]
      {
        WalkDistinct(s, i, j, dims);
      }
      DistinctValuesFit(vals, cd);
    }
  }

  /** Pairwise distinct entries. */
  predicate AllDistinct(xs: seq<int>)
  {
    forall i, j :: 0 <= i < j < |xs| ==> xs[i] != xs[j]
  }

  /** `r` is where the walk from `s` first leaves `cd`. */
  predicate FirstFree(r: int, s: int, cd: seq<int>, dims: int)
    requires dims > 0
  {
    exists k: nat :: k <= |cd| && r == Walk(s, k, dims) && r !in cd &&
      forall j :: 0 <= j < k ==> Walk(s, j, dims) in cd
  }

  /**
   * `InteriorScale` setter as written (World.cs lines 43-44): the unscaled value `q` is kept
   * when it is below the minimum AND `value > 2 * OpeningScale`; otherwise `q` is stored, an even
   * (by C#'s remainder, not positive-odd) `q` raised by one.
   */
  function InteriorScaleAsWritten(value: int, ps: int, interior: int, opening: int): int
    requires ps > 0
  {
    var q := CDiv(value, ps);
    if q < MinInteriorScale && value > opening * 2 then CDiv(interior, ps)
    else if CRem(q, 2) != 1 then q + 1 else q
  }

  /**
   * Two inputs on which the setter as written breaks the scales it should keep. With the defaults
   * (player scale 1, interior scale 3, opening scale 1) it stores 1, below the minimum interior
   * scale of 3. With interior scale 9 and opening scale 4 it stores 3, so the opening no longer
   * fits in half of the interior.
   */
  lemma InteriorScaleAsWrittenStoresTooSmall()
    ensures InteriorScaleAsWritten(1, 1, 3, 1) == 1 < MinInteriorScale
    ensures InteriorScaleAsWritten(3, 1, 9, 4) == 3 < 2 * 4
  {
    NonNegativeAgree(1, 1);
    NonNegativeAgree(3, 1);
    NonNegativeAgree(3, 2);
  }

  /** A non-zero multiple of a positive `ps` is at least `ps` in magnitude. */
  lemma MultipleMagnitude(k: int, ps: int)
    requires ps > 0
    ensures k >= 1 ==> k * ps >= ps
    ensures k <= -1 ==> k * ps <= -ps
  {
    if k >= 1 {
      assert k * ps == ps + (k - 1) * ps;
    } else if k <= -1 {
      assert k * ps == -ps - (-k - 1) * ps;
    }
  }

  /** Two scales of at least the minimums, both times the player scale, add up to at least the two minimums times it. */
  lemma SumOfScaled(i: int, b: int, ps: int)
    requires i >= MinInteriorScale && b >= MinBoundScale && ps >= 1
    ensures i * ps + b * ps >= (MinInteriorScale + MinBoundScale) * ps
    ensures CDiv(i * ps + b * ps, ps) >= MinInteriorScale + MinBoundScale
  {
    assert i * ps + b * ps == (i + b) * ps;
    MultipleMagnitude(i + b - MinInteriorScale - MinBoundScale + 1, ps);
    CDivMul(i + b, ps);
  }

  /** Dividing a multiple of `ps` by `ps` gives the factor back. */
  lemma CDivMul(a: int, ps: int)
    requires a >= 0 && ps > 0
    ensures CDiv(a * ps, ps) == a
  {
    NonNegativeAgree(a * ps, ps);
    var q, r := (a * ps) / ps, (a * ps) % ps;
    assert (a - q) * ps == r by {
      assert a * ps == q * ps + r;
    }
    MultipleMagnitude(a - q, ps);
  }

  /**
   * The `InteriorScale` setter as evidently intended: an unscaled value below `MinInteriorScale`,
   * or a value that is not more than twice the current opening, keeps the current interior scale;
   * any other is stored, rounded up to odd.
   */
  function InteriorScaleStored(value: int, ps: int, interior: int, opening: int): (r: int)
    requires ps > 0
    ensures ps == 1 ==> (value < MinInteriorScale || value <= 2 * opening ==> r == interior)
    ensures ps == 1 ==> (value >= MinInteriorScale && value > 2 * opening ==> r % 2 == 1 && value <= r <= value + 1)
    ensures var cur := CDiv(interior, ps);
      cur >= MinInteriorScale && cur % 2 == 1 ==> r >= MinInteriorScale && r % 2 == 1
    ensures ps == 1 && interior >= MinInteriorScale && 2 * opening <= interior ==>
      r >= MinInteriorScale && 2 * opening <= r
  {
    CDivByOne(value);
    CDivByOne(interior);
    var q := CDiv(value, ps);
    if q < MinInteriorScale || value <= opening * 2 then CDiv(interior, ps)
    else
      NonNegativeAgree(q, 2);
      if CRem(q, 2) != 1 then q + 1 else q
  }

  class World {
    /** `Maze.Dimensions`. */
    const dimensions: int
    /** `Maze.InitialDimensions`: the three dimensions viewed first. */
    const initialDimensions: seq<int>

    var playerScale: Option<int>
    var interiorScale: Option<int>
    var boundScale: Option<int>
    var openingScale: Option<int>
    var currDimensions: Option<seq<int>>

    /**
     * The state the setters keep: a stored player scale is positive, a stored interior scale is
     * odd and at least `MIN_INTERIOR_SCALE`, a stored bound scale is at least `MIN_BOUND_SCALE`,
     * and there are three slots.
     */
    predicate Valid()
      reads this
    {
      dimensions >= 1 && |initialDimensions| == 3 &&
      (playerScale.Some? ==> playerScale.value > 0) &&
      (interiorScale.Some? ==> interiorScale.value >= MinInteriorScale && interiorScale.value % 2 == 1) &&
      (boundScale.Some? ==> boundScale.value >= MinBoundScale) &&
      (currDimensions.Some? ==> |currDimensions.value| == 3)
    }

    constructor (dimensions: int, initialDimensions: seq<int>)
      requires dimensions >= 1 && |initialDimensions| == 3
      ensures Valid()
      ensures this.dimensions == dimensions && this.initialDimensions == initialDimensions
      ensures playerScale == interiorScale == boundScale == openingScale == None
      ensures currDimensions == None
    {
      this.dimensions := dimensions;
      this.initialDimensions := initialDimensions;
      playerScale, interiorScale, boundScale, openingScale := None, None, None, None;
      currDimensions := None;
    }

    /** `PlayerScale` getter: the stored scale, or `MIN_PLAYER_SCALE`. Always at least 1. */
    function PlayerScale(): (ps: int)
      reads this
      requires Valid()
      ensures ps >= MinPlayerScale
      ensures playerScale.None? ==> ps == MinPlayerScale
    {
      if playerScale.Some? then playerScale.value else MinPlayerScale
    }

    /**
     * `InteriorScale` getter: the stored (or minimum) interior scale times the player scale. It is
     * never below `MIN_INTERIOR_SCALE` player scales, and an odd number of them.
     */
    function InteriorScale(): (s: int)
      reads this
      requires Valid()
      ensures s >= MinInteriorScale * PlayerScale()
      ensures CDiv(s, PlayerScale()) >= MinInteriorScale && CDiv(s, PlayerScale()) % 2 == 1
      ensures interiorScale.None? ==> s == MinInteriorScale * PlayerScale()
    {
      CDivMul(if interiorScale.Some? then interiorScale.value else MinInteriorScale, PlayerScale());
      (if interiorScale.Some? then interiorScale.value else MinInteriorScale) * PlayerScale()
    }

    /**
     * `BoundScale` getter: the stored (or minimum) bound scale times the player scale, never below
     * `MIN_BOUND_SCALE` player scales.
     */
    function BoundScale(): (s: int)
      reads this
      requires Valid()
      ensures s >= MinBoundScale * PlayerScale()
      ensures CDiv(s, PlayerScale()) >= MinBoundScale
      ensures boundScale.None? ==> s == MinBoundScale * PlayerScale()
    {
      CDivMul(if boundScale.Some? then boundScale.value else MinBoundScale, PlayerScale());
      (if boundScale.Some? then boundScale.value else MinBoundScale) * PlayerScale()
    }

    /**
     * `OpeningScale` getter: the stored value as it is (it is not multiplied by the player scale),
     * or else half the interior scale, rounded down, times the player scale.
     */
    function OpeningScale(): (s: int)
      reads this
      requires Valid()
      ensures openingScale.None? && PlayerScale() == 1 ==> 2 * s <= InteriorScale()
    {
      if openingScale.Some? then openingScale.value else (InteriorScale() / 2) * PlayerScale()
    }

    /**
     * `CellScale`: the interior plus one bound. Both are whole multiples of the player
     * scale, so a cell is never smaller than the two minimums together, before or after
     * dividing by the player scale.
     */
    function CellScale(): (s: int)
      reads this
      requires Valid()
      ensures s - BoundScale() == InteriorScale()
      ensures s >= (MinInteriorScale + MinBoundScale) * PlayerScale()
      ensures CDiv(s, PlayerScale()) >= MinInteriorScale + MinBoundScale
    {
      var i := if interiorScale.Some? then interiorScale.value else MinInteriorScale;
      var b := if boundScale.Some? then boundScale.value else MinBoundScale;
      SumOfScaled(i, b, PlayerScale());
      InteriorScale() + BoundScale()
    }

    /** With player scale 1 an opening no wider than half the interior fits `OpeningCoor`'s margin. */
    predicate OpeningFits()
      reads this
      requires Valid()
    {
      PlayerScale() == 1 && 1 <= OpeningScale() && 2 * OpeningScale() <= InteriorScale()
    }

    /** `PlayerScale` setter: a non-positive value keeps the current scale. */
    method SetPlayerScale(value: int)
      requires Valid()
      modifies this`playerScale
      ensures Valid()
      ensures PlayerScale() == if value > 0 then value else old(PlayerScale())
    {
      playerScale := Some(if value > 0 then value else PlayerScale());
    }

    /**
     * `InteriorScale` setter, with the minimum and the room for the opening enforced (see
     * InteriorScaleStored); with player scale 1 an opening that fitted keeps fitting.
     */
    method SetInteriorScale(value: int)
      requires Valid()
      modifies this`interiorScale
      ensures Valid()
      ensures interiorScale == Some(InteriorScaleStored(value, PlayerScale(), old(InteriorScale()), old(OpeningScale())))
      ensures PlayerScale() == 1 && (value < MinInteriorScale || value <= 2 * old(OpeningScale())) ==>
        InteriorScale() == old(InteriorScale())
      ensures old(OpeningFits()) ==> OpeningFits()
    {
      var ps := PlayerScale();
      var r := InteriorScaleStored(value, ps, InteriorScale(), OpeningScale());
      interiorScale := Some(r);
      if ps == 1 {
        assert InteriorScale() == r;
      }
    }

    /** `BoundScale` setter: an unscaled value below `MIN_BOUND_SCALE` keeps the current scale. */
    method SetBoundScale(value: int)
      requires Valid()
      modifies this`boundScale
      ensures Valid()
      ensures var ps := PlayerScale();
        boundScale == Some(if CDiv(value, ps) < MinBoundScale then CDiv(old(BoundScale()), ps) else CDiv(value, ps))
      ensures PlayerScale() == 1 ==>
        BoundScale() == if value < MinBoundScale then old(BoundScale()) else value
    {
      var ps := PlayerScale();
      if ps == 1 {
        CDivByOne(value);
        CDivByOne(old(BoundScale()));
      }
      boundScale := Some(if CDiv(value, ps) < MinBoundScale then CDiv(BoundScale(), ps) else CDiv(value, ps));
    }

    /**
     * `OpeningScale` setter: an unscaled value above half the interior scale keeps the current
     * opening scale; with player scale 1 an opening that fitted keeps fitting.
     */
    method SetOpeningScale(value: int)
      requires Valid()
      modifies this`openingScale
      ensures Valid()
      ensures var ps := PlayerScale();
        openingScale == Some(if CDiv(value, ps) > InteriorScale() / 2 then CDiv(old(OpeningScale()), ps) else CDiv(value, ps))
      ensures PlayerScale() == 1 ==>
        OpeningScale() == if value > InteriorScale() / 2 then old(OpeningScale()) else value
      ensures PlayerScale() == 1 && 2 * old(OpeningScale()) <= InteriorScale() ==>
        2 * OpeningScale() <= InteriorScale()
    {
      var ps := PlayerScale();
      openingScale := Some(if CDiv(value, ps) > InteriorScale() / 2 then CDiv(OpeningScale(), ps) else CDiv(value, ps));
      if ps == 1 {
        CDivByOne(value);
        CDivByOne(old(OpeningScale()));
      }
    }

    /** What the `CurrentDimensions` getter returns: the array, or a copy of the initial dimensions. */
    function CurrentDimensions(): (cd: seq<int>)
      reads this
      requires Valid()
      ensures |cd| == 3
    {
      if currDimensions.Some? then currDimensions.value else initialDimensions
    }

    /** `CurrentDimensions` getter: creates the array from the initial dimensions on first use. */
    method GetCurrentDimensions() returns (cd: seq<int>)
      requires Valid()
      modifies this`currDimensions
      ensures Valid()
      ensures cd == old(CurrentDimensions()) && currDimensions == Some(cd)
    {
      if currDimensions.None? {
        currDimensions := Some(initialDimensions);
      }
      cd := currDimensions.value;
    }

    /**
     * `DimensionX`/`DimensionY`/`DimensionZ` setters (`slot` is X, Y or Z): with more than three
     * dimensions, `value % dims` is advanced cyclically past every dimension already viewed and
     * stored in the slot; with three or fewer nothing happens.
     */
    method SetDimension(slot: int, value: int)
      requires Valid() && 0 <= slot < 3
      modifies this`currDimensions
      ensures Valid()
      ensures dimensions <= 3 ==> currDimensions == old(currDimensions)
      ensures dimensions > 3 ==>
        exists r :: currDimensions == Some(old(CurrentDimensions())[slot := r]) &&
          FirstFree(r, CRem(value, dimensions), old(CurrentDimensions()), dimensions)
    {
      if dimensions > 3 {
        var start := CRem(value, dimensions);
        var newD := start;
        ghost var k: nat := 0;
        var cd := GetCurrentDimensions();
        while newD in cd
          invariant newD == Walk(start, k, dimensions)
          invariant forall j :: 0 <= j < k ==> Walk(start, j, dimensions) in cd
          invariant k <= |cd|
          decreases |cd| - k
        {
          WalkBlockedAtMost(start, k + 1, dimensions, cd);
          newD := CRem(newD + 1, dimensions);
          k := k + 1;
        }
        assert FirstFree(newD, start, cd, dimensions);
        currDimensions := Some(cd[slot := newD]);
      }
    }

    /**
     * `CurrentDimensions` setter. A null array only creates the slots (X, Y, Z = 0, 1, 2) if they do
     * not exist yet. Otherwise each entry of `value` is reduced modulo the dimension count in place
     * (the caller's array changes), and the distinct results, at most three, are copied to the
     * front of the slots; the remaining slots keep their values.
     */
    method SetCurrentDimensions(value: array?<int>)
      requires Valid()
      modifies this`currDimensions, value
      ensures Valid()
      ensures value == null ==> currDimensions == if old(currDimensions).None? then Some([X, Y, Z]) else old(currDimensions)
      ensures value != null ==>
        forall i :: 0 <= i < value.Length ==> value[i] == CRem(old(value[i]), dimensions)
      ensures value != null ==> var before := if old(currDimensions).None? then [X, Y, Z] else old(currDimensions).value;
        var d := Distinct(value[..]);
        var n := if |d| < 3 then |d| else 3;
        currDimensions == Some(d[..n] + before[n..])
    {
      if currDimensions.None? {
        currDimensions := Some([X, Y, Z]);
      }
      if value == null {
        return;
      }
      var before := currDimensions.value;
      for i := 0 to value.Length
        invariant forall j :: 0 <= j < i ==> value[j] == CRem(old(value[j]), dimensions)
        invariant forall j :: i <= j < value.Length ==> value[j] == old(value[j])
      {
        value[i] := CRem(value[i], dimensions);
      }
      var d := Distinct(value[..]);
      var n := if |d| < 3 then |d| else 3;
      currDimensions := Some(d[..n] + before[n..]);
    }
  }

  lemma CDivByOne(a: int)
    ensures CDiv(a, 1) == a
  {
  }

  /**
   * After a rotation of one slot, the three viewed dimensions stay pairwise distinct and inside
   * `[0, dims)` when the other two were, and the value given was not negative.
   */
  lemma RotationKeepsViewDistinct(cd: seq<int>, slot: int, value: int, r: int, dims: int)
    requires |cd| == 3 && 0 <= slot < 3 && dims > 3 && value >= 0
    requires AllDistinct(cd) && forall i :: 0 <= i < 3 ==> 0 <= cd[i] < dims
    requires FirstFree(r, CRem(value, dims), cd, dims)
    ensures AllDistinct(cd[slot := r])
    ensures 0 <= r < dims && r !in cd
    ensures forall i :: 0 <= i < 3 && i != slot ==> cd[slot := r][i] == cd[i]
  {
    var s := CRem(value, dims);
    var k: nat :| k <= |cd| && r == Walk(s, k, dims) && r !in cd && forall j :: 0 <= j < k ==> Walk(s, j, dims) in cd;
    NonNegativeAgree(value, dims);
    WalkClosedForm(s, k, dims);
  }

  /** The front slots written by the `CurrentDimensions` setter hold distinct dimensions. */
  lemma CurrentDimensionsFrontDistinct(reduced: seq<int>, before: seq<int>)
    requires |before| == 3
    ensures var d := Distinct(reduced);
      var n := if |d| < 3 then |d| else 3;
      AllDistinct((d[..n] + before[n..])[..n]) &&
      forall i :: 0 <= i < n ==> (d[..n] + before[n..])[i] in reduced
  {
    var d := Distinct(reduced);
    var n := if |d| < 3 then |d| else 3;
    assert (d[..n] + before[n..])[..n] == d[..n];
    forall i | 0 <= i < n
      ensures (d[..n] + before[n..])[i] in reduced
    {
      assert (d[..n] + before[n..])[i] == d[i];
    }
  }
}
