/**
 * Classification of the values of the 2D viewport grid (Maze.SetValType … Maze.Descending).
 *
 * A grid value is a C# `int` (`bv32`). Bit 0 says what the position is: 1 for a bound,
 * 0 for a cell interior. For a bound, bit 1 is 1 when it is closed and 0 when it is open.
 * For an interior, bit 1 says the cell is ascending (it can be left upwards in the third
 * viewed dimension) and bit 2 that it is descending.
 */
module Classification {
  import opened Bits

  /** Bit 0 becomes 1 for a bound and 0 for an interior; the other bits are kept. */
  function SetValType(v: bv32, isBound: bool): (r: bv32)
    ensures IsBound(r) == isBound && IsInterior(r) == !isBound
    ensures GetBit(r, 1) == GetBit(v, 1) && GetBit(r, 2) == GetBit(v, 2)
  {
    SetBitToBits(v, 0, if isBound then 1 else 0, 1);
    SetBitToBits(v, 0, if isBound then 1 else 0, 2);
    SetBitTo(v, 0, if isBound then 1 else 0)
  }

  predicate IsBound(v: bv32)
  {
    GetBit(v, 0) == 1
  }

  predicate IsInterior(v: bv32)
  {
    GetBit(v, 0) == 0
  }

  /** Every value is exactly one of a bound and an interior. */
  lemma BoundOrInterior(v: bv32)
    ensures IsBound(v) != IsInterior(v)
  {
  }

  /**
   * Opens (bit 1 := 0) or closes (bit 1 := 1) a bound. A value that is not a bound is
   * returned unchanged.
   */
  function SetBound(v: bv32, open: bool): (r: bv32)
    ensures IsBound(v) ==> IsBound(r) && OpenBound(r) == open && ClosedBound(r) == !open
    ensures IsBound(v) ==> GetBit(r, 2) == GetBit(v, 2)
    ensures !IsBound(v) ==> r == v
  {
    if IsBound(v) then
      SetBitToBits(v, 1, if open then 0 else 1, 0);
      SetBitToBits(v, 1, if open then 0 else 1, 2);
      SetBitTo(v, 1, if open then 0 else 1)
    else v
  }

  predicate ClosedBound(v: bv32)
  {
    IsBound(v) && GetBit(v, 1) == 1
  }

  predicate OpenBound(v: bv32)
  {
    IsBound(v) && GetBit(v, 1) == 0
  }

  /** A bound is either open or closed, never both; an interior is neither. */
  lemma OpenOrClosed(v: bv32)
    ensures IsBound(v) <==> (OpenBound(v) || ClosedBound(v))
    ensures !(OpenBound(v) && ClosedBound(v))
  {
  }

  /** Marks an interior as ascending or not (bit 1); a bound is returned unchanged. */
  function SetAscending(v: bv32, isAscending: bool): (r: bv32)
    ensures IsInterior(v) ==> IsInterior(r) && Ascending(r) == isAscending
    ensures IsInterior(v) ==> Descending(r) == Descending(v)
    ensures !IsInterior(v) ==> r == v
  {
    if IsInterior(v) then
      SetBitToBits(v, 1, if isAscending then 1 else 0, 0);
      SetBitToBits(v, 1, if isAscending then 1 else 0, 2);
      SetBitTo(v, 1, if isAscending then 1 else 0)
    else v
  }

  /** Marks an interior as descending or not (bit 2); a bound is returned unchanged. */
  function SetDescending(v: bv32, isDescending: bool): (r: bv32)
    ensures IsInterior(v) ==> IsInterior(r) && Descending(r) == isDescending
    ensures IsInterior(v) ==> Ascending(r) == Ascending(v)
    ensures !IsInterior(v) ==> r == v
  {
    if IsInterior(v) then
      SetBitToBits(v, 2, if isDescending then 1 else 0, 0);
      SetBitToBits(v, 2, if isDescending then 1 else 0, 1);
      SetBitTo(v, 2, if isDescending then 1 else 0)
    else v
  }

  predicate Ascending(v: bv32)
  {
    IsInterior(v) && GetBit(v, 1) == 1
  }

  predicate Descending(v: bv32)
  {
    IsInterior(v) && GetBit(v, 2) == 1
  }

  /** Only interiors ascend or descend, and only bounds are open or closed. */
  lemma KindsAreDisjoint(v: bv32)
    ensures (Ascending(v) || Descending(v)) ==> !IsBound(v)
    ensures (OpenBound(v) || ClosedBound(v)) ==> !IsInterior(v)
  {
  }

  /**
   * What a grid value means, decoded: a bound that is closed or open, or a cell interior that
   * ascends and/or descends. The view is built on marks; `Encode` gives the C# int the maze
   * stores, and the lemmas below show that each bit operation acts on the encoding as the
   * matching mark operation does.
   */
  datatype Mark = Wall(closed: bool) | Floor(ascending: bool, descending: bool)
  {
    /** `SetBound` on a mark: a wall becomes open or closed, an interior stays as it is. */
    function WithBound(open: bool): (m: Mark)
      ensures Wall? ==> m == Wall(!open)
      ensures Floor? ==> m == this
    {
      if Wall? then Wall(!open) else this
    }

    /** `SetAscending` on a mark. */
    function WithAscending(a: bool): (m: Mark)
      ensures Floor? ==> m == Floor(a, descending)
      ensures Wall? ==> m == this
    {
      if Floor? then Floor(a, descending) else this
    }

    /** `SetDescending` on a mark. */
    function WithDescending(d: bool): (m: Mark)
      ensures Floor? ==> m == Floor(ascending, d)
      ensures Wall? ==> m == this
    {
      if Floor? then Floor(ascending, d) else this
    }

    predicate IsOpen()
    {
      Wall? && !closed
    }

    predicate IsAscending()
    {
      Floor? && ascending
    }

    predicate IsDescending()
    {
      Floor? && descending
    }
  }

  /** The int the maze stores for a mark: bit 0 for a bound, then bit 1 and bit 2 as above. */
  function Encode(m: Mark): bv32
  {
    match m
    case Wall(closed) => if closed then 3 else 1
    case Floor(a, d) => (if a then 2 else 0) + (if d then 4 else 0)
  }

  /** Decoding an encoded mark with the predicates of this module gives the mark back. */
  lemma EncodeDecodes(m: Mark)
    ensures IsBound(Encode(m)) <==> m.Wall?
    ensures IsInterior(Encode(m)) <==> m.Floor?
    ensures OpenBound(Encode(m)) <==> m.IsOpen()
    ensures ClosedBound(Encode(m)) <==> (m.Wall? && m.closed)
    ensures Ascending(Encode(m)) <==> m.IsAscending()
    ensures Descending(Encode(m)) <==> m.IsDescending()
  {
  }

  /** Different marks have different encodings. */
  lemma EncodeInjective(m: Mark, n: Mark)
    ensures Encode(m) == Encode(n) ==> m == n
  {
    EncodeDecodes(m);
    EncodeDecodes(n);
  }

  /** The mark of `SetValType(0, isBound)`, the first write to every grid value. */
  function TypeMark(isBound: bool): (m: Mark)
    ensures Encode(m) == SetValType(0, isBound)
    ensures m.Wall? == isBound
  {
    if isBound then Wall(false) else Floor(false, false)
  }

  /** `SetBound` acts on an encoding as `WithBound` acts on the mark. */
  lemma SetBoundEncodes(m: Mark, open: bool)
    ensures SetBound(Encode(m), open) == Encode(m.WithBound(open))
  {
  }

  /** `SetAscending` acts on an encoding as `WithAscending` acts on the mark. */
  lemma SetAscendingEncodes(m: Mark, a: bool)
    ensures SetAscending(Encode(m), a) == Encode(m.WithAscending(a))
  {
  }

  /** `SetDescending` acts on an encoding as `WithDescending` acts on the mark. */
  lemma SetDescendingEncodes(m: Mark, d: bool)
    ensures SetDescending(Encode(m), d) == Encode(m.WithDescending(d))
  {
  }
}
