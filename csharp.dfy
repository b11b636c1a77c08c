/**
 * The parts of C# integer semantics and of the .NET collection methods that the maze relies on,
 * stated over Dafny's unbounded integers.
 *
 * C# `/` and `%` on `int` truncate toward zero, while Dafny's are Euclidean; `CDiv` and `CRem`
 * give the C# results. `Option` stands for a nullable C# value (`int?`, a null array).
 */
module CSharp {

  datatype Option<T> = None | Some(value: T)

  function Abs(x: int): nat
  {
    if x < 0 then -x else x
  }

  /** C# integer division: the quotient of the magnitudes, negated when the signs differ. */
  function CDiv(a: int, b: int): int
    requires b != 0
  {
    if (a < 0) == (b < 0) then Abs(a) / Abs(b) else -(Abs(a) / Abs(b))
  }

  /** C# remainder: the remainder of the magnitudes, with the sign of the dividend. */
  function CRem(a: int, b: int): (r: int)
    requires b != 0
    ensures r < Abs(b) && -r < Abs(b)
    ensures a >= 0 ==> r >= 0
    ensures a <= 0 ==> r <= 0
  {
    var m := Abs(a) % Abs(b);
    assert 0 <= m < Abs(b);
    if a < 0 then -m else m
  }

  /** C# division and remainder recombine to the dividend. */
  lemma DivRem(a: int, b: int)
    requires b != 0
    ensures b * CDiv(a, b) + CRem(a, b) == a
  {
    var q := Abs(a) / Abs(b);
    var r := Abs(a) % Abs(b);
    assert Abs(b) * q + r == Abs(a);
    if b < 0 {
      assert b * q == -(Abs(b) * q);
    }
  }

  /** On a non-negative dividend and a positive divisor C# and Dafny agree. */
  lemma NonNegativeAgree(a: int, b: int)
    requires a >= 0 && b > 0
    ensures CDiv(a, b) == a / b && CRem(a, b) == a % b
  {
  }

  /** A dividend smaller in magnitude than the divisor is its own remainder. */
  lemma CRemSmall(a: int, b: int)
    requires -b < a < b
    ensures CRem(a, b) == a
  {
    assert Abs(b) == b && 0 <= Abs(a) < b;
    assert Abs(a) % Abs(b) == Abs(a);
  }

  /** The divisor leaves no remainder. */
  lemma CRemSelf(b: int)
    requires b > 0
    ensures CRem(b, b) == 0
  {
  }

  /**
   * Pigeonhole: a list of `n` integers cannot contain all `n + 1` values `lo .. lo + n`,
   * so some value in that range is absent.
   */
  lemma {:induction false} FreeValueExists(xs: seq<int>, lo: int)
    ensures exists v :: lo <= v <= lo + |xs| && v !in xs
    decreases |xs|
  {
    if lo !in xs {
      assert lo <= lo <= lo + |xs|;
    } else {
      var i :| 0 <= i < |xs| && xs[i] == lo;
      var ys := xs[..i] + xs[i + 1..];
      FreeValueExists(ys, lo + 1);
      var v :| lo + 1 <= v <= lo + 1 + |ys| && v !in ys;
      assert forall x :: x in xs && x != lo ==> x in ys by {
        forall x | x in xs && x != lo
          ensures x in ys
        {
          var k :| 0 <= k < |xs| && xs[k] == x;
          if k < i {
            assert ys[k] == x;
          } else {
            assert k != i;
            assert ys[k - 1] == x;
          }
        }
      }
      assert lo <= v <= lo + |xs| && v !in xs;
    }
  }

  /** The position of the first occurrence of `v` in `xs`. */
  function FirstIndex(xs: seq<int>, v: int): (k: nat)
    requires v in xs
    ensures k < |xs| && xs[k] == v && v !in xs[..k]
  {
    if xs[0] == v then 0
    else
      var k := FirstIndex(xs[1..], v);
      assert xs[..k + 1] == [xs[0]] + xs[1..][..k];
      1 + k
  }

  /**
   * `Enumerable.Distinct`: the values of `xs` in the order of their first occurrence.
   */
  function Distinct(xs: seq<int>): (d: seq<int>)
    ensures forall x :: x in d <==> x in xs
    ensures forall i, j :: 0 <= i < j < |d| ==> d[i] != d[j]
    ensures forall i, j :: 0 <= i < j < |d| ==> FirstIndex(xs, d[i]) < FirstIndex(xs, d[j])
    ensures |d| <= |xs|
  {
    DistinctFromOrder([], xs);
    DistinctFrom([], xs)
  }

  /** The entries of `d` after `seen` come from `rest` and are new to `seen`. */
  predicate AddedFrom(d: seq<int>, seen: seq<int>, rest: seq<int>)
  {
    forall i :: |seen| <= i < |d| ==> d[i] in rest && d[i] !in seen
  }

  /** From position `lo` on, `d` lists values of `xs` in the order of their first occurrence. */
  predicate InFirstOrder(d: seq<int>, lo: int, xs: seq<int>)
  {
    forall i, j :: 0 <= lo <= i < j < |d| && d[i] in xs && d[j] in xs ==> FirstIndex(xs, d[i]) < FirstIndex(xs, d[j])
  }

  /** Past the head of `xs`, a value first occurs one place later in `xs` than in its tail. */
  lemma FirstIndexTail(xs: seq<int>, v: int)
    requires v in xs && v != xs[0]
    ensures v in xs[1..] && FirstIndex(xs, v) == 1 + FirstIndex(xs[1..], v)
  {
    assert xs == [xs[0]] + xs[1..];
  }

  /**
   * The values `DistinctFrom` appends come from `rest`, are new to `seen`, and
   * follow one another in the order of their first occurrence in `rest`.
   */
  lemma {:induction false} DistinctFromOrder(seen: seq<int>, rest: seq<int>)
    requires forall i, j :: 0 <= i < j < |seen| ==> seen[i] != seen[j]
    ensures AddedFrom(DistinctFrom(seen, rest), seen, rest)
    ensures InFirstOrder(DistinctFrom(seen, rest), |seen|, rest)
    decreases |rest|
  {
    if rest != [] {
      var d := DistinctFrom(seen, rest);
      var tail := rest[1..];
      var seen' := if rest[0] in seen then seen else seen + [rest[0]];
      DistinctFromOrder(seen', tail);
      assert d == DistinctFrom(seen', tail);
      forall i | |seen'| <= i < |d|
        ensures d[i] in rest && d[i] !in seen && FirstIndex(rest, d[i]) == 1 + FirstIndex(tail, d[i])
      {
        assert d[i] !in seen' && d[i] in tail;
        FirstIndexTail(rest, d[i]);
      }
      if rest[0] !in seen {
        assert d[|seen|] == rest[0] && FirstIndex(rest, rest[0]) == 0;
      }
    }
  }

  /** Appends to `seen` the values of `rest` that are not yet in it, in order. */
  function DistinctFrom(seen: seq<int>, rest: seq<int>): (d: seq<int>)
    requires forall i, j :: 0 <= i < j < |seen| ==> seen[i] != seen[j]
    ensures |d| >= |seen| && d[..|seen|] == seen
    ensures forall x :: x in d <==> x in seen || x in rest
    ensures forall i, j :: 0 <= i < j < |d| ==> d[i] != d[j]
    ensures |d| <= |seen| + |rest|
    decreases |rest|
  {
    if rest == [] then seen
    else if rest[0] in seen then DistinctFrom(seen, rest[1..])
    else DistinctFrom(seen + [rest[0]], rest[1..])
  }
}
