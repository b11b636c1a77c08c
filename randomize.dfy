/**
 * The random utilities of the generator (Randomize.cs).
 *
 * `Randomize` is a static class around one shared `System.Random`. Here the class `Randomizer`
 * plays both parts: `Next`, `NextBelow` and `NextBetween` stand for the three `System.Random.Next`
 * overloads, and their only contract is the range the .NET documentation gives them. Every value
 * they hand out is recorded in the ghost history `draws`. The other methods are the `Randomize`
 * overloads built on top of them.
 *
 * The source's rejection loops (`do … while (_not.Contains(…))`, the `RandOpening` retries) end
 * only because the generator eventually produces a suitable value. Here they draw at most
 * `RetryLimit` times; after that the model completes the loop with a value the source's next draw
 * could have produced, so every result is one the source can return.
 */
module Randomize {
  import opened CSharp

  /** `int.MaxValue`. */
  const IntMax: int := 0x7FFF_FFFF

  /** The number of draws a retry loop makes before the model completes it. */
  const RetryLimit: nat := 1000

  /** `c` lies on an outer face of a dimension of `size` cells: it is the first or the last cell. */
  predicate OnEdge(c: int, size: int)
  {
    c == 0 || c == size - 1
  }

  /** A coordinate of an opening: one value per dimension, each a cell index of that dimension. */
  predicate InGrid(coor: seq<int>, dInfo: seq<int>)
  {
    |coor| == |dInfo| &&
    forall k :: 0 <= k < |coor| ==> 0 <= coor[k] && (dInfo[k] >= 1 ==> coor[k] <= dInfo[k] - 1)
  }

  /** Some coordinate lies on an outer face. */
  predicate TouchesFace(coor: seq<int>, dInfo: seq<int>)
    requires |coor| == |dInfo|
  {
    exists k :: 0 <= k < |coor| && OnEdge(coor[k], dInfo[k])
  }

  /**
   * The range of `Random.Next(lo, hiExcl)` that the exit draw of `RandOpening(_dInfo, _iOpening)`
   * uses for one dimension, as written: `RandInt(1, size - 1)` when the entrance coordinate is 0,
   * `RandInt(size - 2)` when it is `size - 1`, `RandInt(size - 1)` otherwise.
   */
  function ExitDrawRangeAsWritten(size: int, entrance: int): (range: (int, int))
    ensures range.0 <= range.1 || size < 1
  {
    if entrance == 0 then (1, size)
    else if entrance == size - 1 then (0, size - 1)
    else (0, size)
  }

  /**
   * In a dimension of one cell the entrance coordinate is 0, and the as-written exit draw is
   * `Random.Next(1, 1)`, which returns 1: a coordinate outside the dimension.
   */
  lemma ExitDrawAsWrittenLeavesDimension()
    ensures ExitDrawRangeAsWritten(1, 0) == (1, 1)
    ensures var (lo, hiExcl) := ExitDrawRangeAsWritten(1, 0); lo == hiExcl && !(0 <= lo < 1)
  {
  }

  /**
   * The exit draw range with a one-cell dimension handled: its only cell, 0, is drawn.
   * Every other case is as written.
   */
  function ExitDrawRange(size: int, entrance: int): (range: (int, int))
  {
    if size == 1 then (0, 1) else ExitDrawRangeAsWritten(size, entrance)
  }

  /**
   * Every value of the corrected exit draw is a cell of the dimension, and when the dimension has
   * two faces the exit avoids the face the entrance lies on.
   */
  lemma ExitDrawRangeStaysInside(size: int, entrance: int, v: int)
    requires size >= 1 && 0 <= entrance < size
    requires ExitDrawRange(size, entrance).0 <= v < ExitDrawRange(size, entrance).1
    ensures 0 <= v < size
    ensures size >= 2 && entrance == 0 ==> v != 0
    ensures size >= 2 && entrance == size - 1 ==> v != size - 1
  {
  }

  /** The corrected range is never empty, so `Random.Next` returns a value inside it. */
  lemma ExitDrawRangeNonEmpty(size: int, entrance: int)
    requires size >= 1 && 0 <= entrance < size
    ensures ExitDrawRange(size, entrance).0 < ExitDrawRange(size, entrance).1
  {
  }

  /** The coordinates of the entrance: every cell index in range. */
  predicate ValidEntrance(iOpening: seq<int>, dInfo: seq<int>)
  {
    |iOpening| == |dInfo| && forall k :: 0 <= k < |dInfo| ==> 0 <= iOpening[k] < dInfo[k]
  }

  /** The exit keeps off every face the entrance lies on, in dimensions that have two faces. */
  predicate AvoidsFaces(coor: seq<int>, iOpening: seq<int>, dInfo: seq<int>)
    requires |coor| == |dInfo| == |iOpening|
  {
    AvoidsFacesBelow(coor, iOpening, dInfo, |dInfo|)
  }

  /** AvoidsFaces for the first `n` dimensions. */
  predicate AvoidsFacesBelow(coor: seq<int>, iOpening: seq<int>, dInfo: seq<int>, n: int)
    requires |coor| == |dInfo| == |iOpening| && n <= |dInfo|
  {
    forall k :: 0 <= k < n && dInfo[k] >= 2 ==>
      (iOpening[k] == 0 ==> coor[k] >= 1) && (iOpening[k] == dInfo[k] - 1 ==> coor[k] <= dInfo[k] - 2)
  }

  /** Advancing a cyclic index: `(d + 1) % n` wraps to 0 only after the last index. */
  lemma NextIndex(d: int, n: int)
    requires 0 <= d < n
    ensures (d + 1) % n == if d + 1 == n then 0 else d + 1
  {
  }

  /** Storing a cell index keeps a coordinate inside the grid. */
  lemma InGridStep(coor: seq<int>, dInfo: seq<int>, d: int, c: int)
    requires InGrid(coor, dInfo) && 0 <= d < |dInfo|
    requires 0 <= c && (dInfo[d] >= 1 ==> c <= dInfo[d] - 1)
    ensures InGrid(coor[d := c], dInfo)
  {
  }

  /** Writing an exit coordinate that keeps off the entrance's faces preserves AvoidsFacesBelow. */
  lemma AvoidsFacesStep(coor: seq<int>, iOpening: seq<int>, dInfo: seq<int>, n: int, d: int, c: int)
    requires |coor| == |dInfo| == |iOpening| && 0 <= d < |dInfo| && (n == d || n == |dInfo|)
    requires AvoidsFacesBelow(coor, iOpening, dInfo, n)
    requires dInfo[d] >= 2 && iOpening[d] == 0 ==> c != 0
    requires dInfo[d] >= 2 && iOpening[d] == dInfo[d] - 1 ==> c != dInfo[d] - 1
    requires 0 <= c < dInfo[d]
    ensures AvoidsFacesBelow(coor[d := c], iOpening, dInfo, if n == |dInfo| then n else d + 1)
  {
  }

  /**
   * Section of a cell wall that `OpeningCoor` places a centre in, from `_var - _modI`:
   * 0 (the whole wall) when it is a multiple of 4, otherwise 1 (first half) or 2 (second half).
   */
  function Section(v: int, modI: int): (s: int)
    ensures 0 <= s <= 2
    ensures s == 0 <==> (v - modI) % 4 == 0
  {
    var t := v - modI;
    if CRem(t, 4) == 0 then 0
    else if Abs(CRem(t, 8)) > 4 then ((Abs(t) % 8 + 1) % 2) + 1
    else (Abs(t) % 8) % 2 + 1
  }

  /** Number of possible centres: `_iScale / (section == 0 ? 1 : 2) - _oScale + 1`. */
  function CentreScale(section: int, iScale: int, oScale: int): int
  {
    CDiv(iScale, if section == 0 then 1 else 2) - oScale + 1
  }

  /** Offset of the first possible centre: `(_iScale / 2) * (section == 0 ? 0 : section - 1) + _oScale / 2`. */
  function AddBack(section: int, iScale: int, oScale: int): int
  {
    CDiv(iScale, 2) * (if section == 0 then 0 else section - 1) + CDiv(oScale, 2)
  }

  /**
   * `Randomize.OpeningCoor`: a deterministic pseudo-random centre for an opening of width
   * `oScale` on a wall of length `iScale`. The value `(_constant * _var + _var) % scale`, made
   * non-negative, picks one of the possible centres, counted from `AddBack`.
   */
  function OpeningCoor(constant: int, v: int, modI: int, iScale: int, oScale: int): (r: int)
    requires CentreScale(Section(v, modI), iScale, oScale) != 0
    ensures var scale := CentreScale(Section(v, modI), iScale, oScale);
      0 <= r - AddBack(Section(v, modI), iScale, oScale) < Abs(scale)
  {
    var section := Section(v, modI);
    var scale := CentreScale(section, iScale, oScale);
    Abs(CRem(constant * v + v, scale)) + AddBack(section, iScale, oScale)
  }

  /**
   * With `1 <= oScale <= iScale / 2` every possible centre leaves room for half the opening on
   * both sides inside the wall, and a centre in the first (second) half keeps the whole opening
   * in that half.
   */
  lemma OpeningCoorMargin(constant: int, v: int, modI: int, iScale: int, oScale: int)
    requires 1 <= oScale && 2 * oScale <= iScale
    ensures CentreScale(Section(v, modI), iScale, oScale) >= 1
    ensures var r := OpeningCoor(constant, v, modI, iScale, oScale);
      oScale / 2 <= r && r + oScale / 2 <= iScale &&
      (Section(v, modI) == 1 ==> r + oScale / 2 <= iScale / 2) &&
      (Section(v, modI) == 2 ==> iScale / 2 <= r - oScale / 2)
  {
    var section := Section(v, modI);
    ScaleAndAddBack(section, iScale, oScale);
    var r := OpeningCoor(constant, v, modI, iScale, oScale);
    assert 0 <= r - AddBack(section, iScale, oScale) < CentreScale(section, iScale, oScale);
  }

  /** CentreScale and AddBack for non-negative scales, in Dafny's (here equal) division. */
  lemma ScaleAndAddBack(section: int, iScale: int, oScale: int)
    requires 0 <= section <= 2
    requires 1 <= oScale && 2 * oScale <= iScale
    ensures CentreScale(section, iScale, oScale) ==
      (if section == 0 then iScale else iScale / 2) - oScale + 1
    ensures AddBack(section, iScale, oScale) == (if section == 2 then iScale / 2 else 0) + oScale / 2
    ensures CentreScale(section, iScale, oScale) >= 1
  {
    NonNegativeAgree(iScale, 2);
    NonNegativeAgree(oScale, 2);
    NonNegativeAgree(iScale, 1);
  }

  class Randomizer {
    /** State of the stand-in generator. */
    var seed: int
    /** Every value the generator has handed out, oldest first. */
    ghost var draws: seq<int>

    constructor (seed: int)
      ensures draws == []
    {
      this.seed := seed;
      draws := [];
    }

    /** Linear congruential step of the stand-in generator; not part of the contract. */
    method Advance()
      modifies this`seed
      ensures 0 <= seed < 0x8000_0000
    {
      seed := (seed * 1103515245 + 12345) % 0x8000_0000;
    }

    /** `Random.Next()`: a value in `[0, int.MaxValue)`. */
    method Next() returns (r: int)
      modifies this
      ensures 0 <= r < IntMax
      ensures draws == old(draws) + [r]
    {
      Advance();
      r := seed % IntMax;
      draws := draws + [r];
    }

    /**
     * `Random.Next(maxValue)`: a value in `[0, maxValue)`, and 0 when `maxValue` is 0.
     * A negative `maxValue` throws.
     */
    method NextBelow(maxValue: int) returns (r: int)
      requires maxValue >= 0
      modifies this
      ensures maxValue == 0 ==> r == 0
      ensures maxValue > 0 ==> 0 <= r < maxValue
      ensures draws == old(draws) + [r]
    {
      Advance();
      r := if maxValue == 0 then 0 else seed % maxValue;
      draws := draws + [r];
    }

    /**
     * `Random.Next(minValue, maxValue)`: a value in `[minValue, maxValue)`, and `minValue` when
     * the two are equal. `minValue > maxValue` throws.
     */
    method NextBetween(minValue: int, maxValue: int) returns (r: int)
      requires minValue <= maxValue
      modifies this
      ensures minValue == maxValue ==> r == minValue
      ensures minValue < maxValue ==> minValue <= r < maxValue
      ensures draws == old(draws) + [r]
    {
      Advance();
      r := if minValue == maxValue then minValue else minValue + seed % (maxValue - minValue);
      draws := draws + [r];
    }

    /** `RandInt()`: a non-negative value below `int.MaxValue`. */
    method RandInt() returns (r: int)
      modifies this
      ensures 0 <= r < IntMax
      ensures |draws| == |old(draws)| + 1 && draws[..|old(draws)|] == old(draws)
    {
      r := Next();
    }

    /**
     * `RandInt(_not)`: a non-negative value below `int.MaxValue` that is not in `not`.
     * The list cannot exclude every such value (an array has fewer than `int.MaxValue` entries).
     */
    method RandIntExcept(not: seq<int>) returns (r: int)
      requires |not| < IntMax
      modifies this
      ensures 0 <= r < IntMax && r !in not
      ensures |draws| >= |old(draws)| + 1 && draws[..|old(draws)|] == old(draws)
    {
      r := Next();
      var tries := 1;
      while r in not && tries < RetryLimit
        invariant 0 <= r < IntMax
        invariant |draws| >= |old(draws)| + 1 && draws[..|old(draws)|] == old(draws)
        decreases RetryLimit - tries
      {
        r := Next();
        tries := tries + 1;
      }
      if r in not {
        FreeValueExists(not, 0);
        r :| 0 <= r <= |not| && r !in not;
      }
    }

    /** `RandInt(_ceiling)`: `Random.Next(_ceiling + 1)`, a value in `[0, _ceiling]` (0 for -1). */
    method RandIntTo(ceiling: int) returns (r: int)
      requires ceiling >= -1
      modifies this
      ensures ceiling >= 0 ==> 0 <= r <= ceiling
      ensures ceiling == -1 ==> r == 0
      ensures draws == old(draws) + [r]
    {
      r := NextBelow(ceiling + 1);
    }

    /**
     * `RandInt(_floor, _ceiling)`: `Random.Next(_floor, _ceiling + 1)`, a value in
     * `[_floor, _ceiling]`; when `_floor` is `_ceiling + 1` it is `_floor` itself.
     */
    method RandIntBetween(floor: int, ceiling: int) returns (r: int)
      requires floor <= ceiling + 1
      modifies this
      ensures floor <= ceiling ==> floor <= r <= ceiling
      ensures floor == ceiling + 1 ==> r == floor
      ensures draws == old(draws) + [r]
    {
      r := NextBetween(floor, ceiling + 1);
    }

    /**
     * `RandInt(_ceiling, _not)`: 0 when every value of `[0, _ceiling]` is excluded (also when
     * the range is empty); otherwise a value of `[0, _ceiling]` that is not excluded.
     */
    method RandIntToExcept(ceiling: int, not: seq<int>) returns (r: int)
      modifies this
      ensures (forall i :: 0 <= i <= ceiling ==> i in not) ==> r == 0
      ensures (exists i :: 0 <= i <= ceiling && i !in not) ==> 0 <= r <= ceiling && r !in not
      ensures |draws| >= |old(draws)| && draws[..|old(draws)|] == old(draws)
    {
      var allContained := AllContained(0, ceiling, not);
      if allContained {
        return 0;
      }
      var free :| 0 <= free <= ceiling && free !in not;
      r := NextBelow(ceiling + 1);
      var tries := 1;
      while r in not && tries < RetryLimit
        invariant 0 <= r <= ceiling
        invariant |draws| >= |old(draws)| && draws[..|old(draws)|] == old(draws)
        decreases RetryLimit - tries
      {
        r := NextBelow(ceiling + 1);
        tries := tries + 1;
      }
      if r in not {
        r := free;
      }
    }

    /**
     * `RandInt(_floor, _ceiling, _not)`: 0 when every value of `[_floor, _ceiling]` is excluded,
     * even when 0 lies outside that range; otherwise a value of `[_floor, _ceiling]` that is not
     * excluded.
     */
    method RandIntBetweenExcept(floor: int, ceiling: int, not: seq<int>) returns (r: int)
      modifies this
      ensures (forall i :: floor <= i <= ceiling ==> i in not) ==> r == 0
      ensures (exists i :: floor <= i <= ceiling && i !in not) ==> floor <= r <= ceiling && r !in not
      ensures |draws| >= |old(draws)| && draws[..|old(draws)|] == old(draws)
    {
      var allContained := AllContained(floor, ceiling, not);
      if allContained {
        return 0;
      }
      var free :| floor <= free <= ceiling && free !in not;
      r := NextBetween(floor, ceiling + 1);
      var tries := 1;
      while r in not && tries < RetryLimit
        invariant floor <= r <= ceiling
        invariant |draws| >= |old(draws)| && draws[..|old(draws)|] == old(draws)
        decreases RetryLimit - tries
      {
        r := NextBetween(floor, ceiling + 1);
        tries := tries + 1;
      }
      if r in not {
        r := free;
      }
    }

    /**
     * `RandBool(_chanceMod)`: true without drawing when the modifier is 0; otherwise true exactly
     * when `Random.Next(_chanceMod)` drew 0, a chance of one in `_chanceMod`.
     */
    method RandBool(chanceMod: int) returns (b: bool)
      requires chanceMod >= 0
      modifies this
      ensures chanceMod == 0 ==> b && draws == old(draws)
      ensures chanceMod > 0 ==> |draws| == |old(draws)| + 1 && draws[..|old(draws)|] == old(draws)
      ensures chanceMod > 0 ==> (b <==> draws[|old(draws)|] == 0)
      ensures chanceMod == 1 ==> b
    {
      if chanceMod == 0 {
        return true;
      }
      var d := NextBelow(chanceMod);
      NonNegativeAgree(d, chanceMod);
      b := CRem(d, chanceMod) == 0;
    }

    /**
     * `RandOpening(_dInfo)`: draws the coordinates of an opening one dimension at a time,
     * cyclically, until every coordinate has been drawn and some draw landed on an outer face.
     * `_outsideEdges` counts face draws and is never reset, yet the coordinate that made it
     * positive is still in place when the loop stops.
     */
    method RandOpening(dInfo: seq<int>) returns (coor: seq<int>)
      requires |dInfo| > 0
      requires forall k :: 0 <= k < |dInfo| ==> dInfo[k] >= 0
      modifies this
      ensures InGrid(coor, dInfo)
      ensures TouchesFace(coor, dInfo)
    {
      coor := seq(|dInfo|, _ => 0);
      var outsideEdges := 0;
      var allCoorDefined := false;
      var d := 0;
      var steps := 0;
      ghost var edgeAt := 0;
      while (!allCoorDefined || outsideEdges == 0) && steps < |dInfo| + RetryLimit
        invariant 0 <= d < |dInfo| && 0 <= steps
        invariant InGrid(coor, dInfo)
        invariant !allCoorDefined ==> d == steps
        invariant steps >= |dInfo| ==> allCoorDefined
        invariant outsideEdges >= 0
        invariant outsideEdges > 0 ==>
          0 <= edgeAt < |dInfo| && (allCoorDefined || edgeAt < d) && OnEdge(coor[edgeAt], dInfo[edgeAt])
        decreases |dInfo| + RetryLimit - steps
      {
        var c := RandIntTo(dInfo[d] - 1);
        InGridStep(coor, dInfo, d, c);
        coor := coor[d := c];
        if c == 0 || c == dInfo[d] - 1 {
          outsideEdges := outsideEdges + 1;
          edgeAt := d;
        }
        NextIndex(d, |dInfo|);
        d := (d + 1) % |dInfo|;
        if d == 0 {
          allCoorDefined := true;
        }
        steps := steps + 1;
      }
      if outsideEdges == 0 {
        // The next draw of the source's loop may be 0, which is on a face and ends it.
        coor := coor[d := 0];
        assert OnEdge(coor[d], dInfo[d]);
      }
    }

    /**
     * `RandOpening(_dInfo, _iOpening)`: like `RandOpening(_dInfo)`, but each coordinate is drawn
     * from `ExitDrawRange`, which keeps off the faces the entrance `iOpening` lies on. A dimension
     * of one cell draws its only cell (see ExitDrawRangeAsWritten for the code as written).
     */
    method RandOpeningAvoiding(dInfo: seq<int>, iOpening: seq<int>) returns (coor: seq<int>)
      requires |dInfo| > 0
      requires forall k :: 0 <= k < |dInfo| ==> dInfo[k] >= 1
      requires ValidEntrance(iOpening, dInfo)
      modifies this
      ensures InGrid(coor, dInfo)
      ensures TouchesFace(coor, dInfo)
      ensures AvoidsFaces(coor, iOpening, dInfo)
    {
      coor := seq(|dInfo|, _ => 0);
      var outsideEdges := 0;
      var allCoorDefined := false;
      var d := 0;
      var steps := 0;
      ghost var defined := 0;
      ghost var edgeAt := 0;
      while (!allCoorDefined || outsideEdges == 0) && steps < |dInfo| + RetryLimit
        invariant 0 <= d < |dInfo| && 0 <= steps
        invariant defined == if allCoorDefined then |dInfo| else d
        invariant InGrid(coor, dInfo)
        invariant AvoidsFacesBelow(coor, iOpening, dInfo, defined)
        invariant !allCoorDefined ==> d == steps
        invariant steps >= |dInfo| ==> allCoorDefined
        invariant outsideEdges >= 0
        invariant outsideEdges > 0 ==> 0 <= edgeAt < defined && OnEdge(coor[edgeAt], dInfo[edgeAt])
        decreases |dInfo| + RetryLimit - steps
      {
        var c := ExitDraw(dInfo[d], iOpening[d]);
        AvoidsFacesStep(coor, iOpening, dInfo, defined, d, c);
        InGridStep(coor, dInfo, d, c);
        coor := coor[d := c];
        if c == 0 || c == dInfo[d] - 1 {
          outsideEdges := outsideEdges + 1;
          edgeAt := d;
        }
        NextIndex(d, |dInfo|);
        d := (d + 1) % |dInfo|;
        if d == 0 {
          allCoorDefined := true;
        }
        defined := if allCoorDefined then |dInfo| else d;
        steps := steps + 1;
      }
      if outsideEdges == 0 {
        // The next draw of the source's loop may land on the face opposite the entrance's.
        var c := if iOpening[d] == 0 then dInfo[d] - 1 else 0;
        AvoidsFacesStep(coor, iOpening, dInfo, defined, d, c);
        coor := coor[d := c];
        assert OnEdge(coor[d], dInfo[d]);
      }
    }

    /**
     * One coordinate of the exit (Randomize.cs line 202), with a one-cell dimension drawing its
     * only cell: `RandInt(1, size - 1)` beside a low face, `RandInt(size - 2)` beside a high face,
     * `RandInt(size - 1)` elsewhere.
     */
    method ExitDraw(size: int, entrance: int) returns (c: int)
      requires size >= 1 && 0 <= entrance < size
      modifies this
      ensures ExitDrawRange(size, entrance).0 <= c < ExitDrawRange(size, entrance).1
      ensures 0 <= c < size
      ensures size >= 2 && entrance == 0 ==> c != 0
      ensures size >= 2 && entrance == size - 1 ==> c != size - 1
    {
      if size == 1 {
        c := RandIntTo(0);
      } else if entrance == 0 {
        c := RandIntBetween(1, size - 1);
      } else if entrance == size - 1 {
        c := RandIntTo(size - 2);
      } else {
        c := RandIntTo(size - 1);
      }
      ExitDrawRangeStaysInside(size, entrance, c);
    }
  }

  /**
   * The guard of the `RandInt` overloads with exclusions: scans `[floor, ceiling]` upwards and
   * stops at the first value not in `not`. True exactly when every value of the range is excluded,
   * which includes an empty range.
   */
  method AllContained(floor: int, ceiling: int, not: seq<int>) returns (allContained: bool)
    ensures allContained <==> forall i :: floor <= i <= ceiling ==> i in not
  {
    allContained := true;
    var i := floor;
    while i <= ceiling
      invariant floor <= i || ceiling < floor
      invariant i <= ceiling + 1 || ceiling < floor
      invariant allContained
      invariant forall j :: floor <= j < i ==> j in not
      decreases ceiling - i
    {
      allContained := i in not;
      if !allContained {
        break;
      }
      i := i + 1;
    }
  }
}
