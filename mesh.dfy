/**
 * The rolling mesh buffer of the solver: a flat array of
 * `timePoints * spacePoints` values in which the cell of time index `t`
 * and space index `s` lives at `(t % timePoints) * spacePoints + s`.
 * Only `timePoints` rows are stored; time indices that agree modulo
 * `timePoints` share a physical row ("slot").
 */
module Meshes {

  /** Within one row width, a later slot always lies at a higher offset. */
  lemma CellIndexOrder(width: nat, k: nat, s: nat, k': nat, s': nat)
    requires s < width
    ensures k < k' ==> k * width + s < k' * width + s'
  {
    if k < k' {
      calc {
      k * width + s;
    <  (k + 1) * width;
    <= { MulMonotone(k + 1, k', width); }
         k' * width;
      <= k' * width + s';
      }
    }
  }

  lemma MulMonotone(a: nat, b: nat, c: nat)
    requires a <= b
    ensures a * c <= b * c
  {
    assert b * c == a * c + (b - a) * c;
  }

  /**
   * The flat offset of space index `s` in slot `k` of a buffer of `height`
   * slots of `width` values: inside the buffer, and decoded back into
   * `(k, s)` by division and remainder.
   */
  function CellIndex(width: nat, height: nat, k: nat, s: nat): (i: nat)
    requires k < height && s < width
    ensures i < height * width
    ensures i / width == k && i % width == s
  {
    CellIndexOrder(width, k, s, height, 0);
    var i := k * width + s;
    CellIndexOrder(width, i / width, i % width, k, s);
    CellIndexOrder(width, k, s, i / width, i % width);
    i
  }

  /** Distinct (slot, space index) pairs occupy distinct cells of the buffer. */
  lemma CellIndexInjective(width: nat, height: nat, k: nat, s: nat, k': nat, s': nat)
    requires k < height && s < width && k' < height && s' < width
    ensures CellIndex(width, height, k, s) == CellIndex(width, height, k', s') ==> k == k' && s == s'
  {
  }

  class Mesh {
    /** The flat buffer (`points` in the C struct). */
    const points: array<real>
    /** Number of values per row. */
    const spacePoints: nat
    /** Number of rows physically stored. */
    const timePoints: nat

    /** Abstract view: `Rows[k]` is the row stored in slot `k`. */
    ghost var Rows: seq<seq<real>>

    ghost predicate Valid()
      reads this, points
    {
      timePoints > 1 && spacePoints > 0 &&
      points.Length == timePoints * spacePoints &&
      |Rows| == timePoints &&
      (forall k :: 0 <= k < timePoints ==> |Rows[k]| == spacePoints) &&
      (forall k, s :: 0 <= k < timePoints && 0 <= s < spacePoints ==> Stores(k, s))
    }

    /** The buffer cell of slot `k`, point `s` holds the value the view gives it. */
    ghost predicate Stores(k: nat, s: nat)
      reads this, points
      requires k < timePoints && s < spacePoints && |Rows| == timePoints && |Rows[k]| == spacePoints
      requires points.Length == timePoints * spacePoints
    {
      points[CellIndex(spacePoints, timePoints, k, s)] == Rows[k][s]
    }

    /**
     * `mesh_Construct`: a buffer of `timePoints * spacePoints` values whose
     * contents are unspecified (the C code does not initialise them).
     */
    constructor (timePoints: nat, spacePoints: nat)
      requires timePoints > 1 && spacePoints > 0
      ensures Valid() && fresh(points)
      ensures this.timePoints == timePoints && this.spacePoints == spacePoints
      ensures points.Length == timePoints * spacePoints
    {
      var buffer := new real[timePoints * spacePoints];
      this.points := buffer;
      this.timePoints := timePoints;
      this.spacePoints := spacePoints;
      new;
      Rows := seq(timePoints, k requires 0 <= k < timePoints reads buffer =>
                    seq(spacePoints, s requires 0 <= s < spacePoints reads buffer =>
                          buffer[CellIndex(spacePoints, timePoints, k, s)]));
    }

    /** `mesh_PointIndex`: where the cell (t, s) lives in the flat buffer. */
    function PointIndex(t: nat, s: nat): (i: nat)
      reads this
      requires timePoints > 0 && s < spacePoints
      ensures i < timePoints * spacePoints
      ensures i / spacePoints == t % timePoints && i % spacePoints == s
    {
      CellIndex(spacePoints, timePoints, t % timePoints, s)
    }

    /** `mesh_Get`: the value at time index `t` (taken modulo the window) and space index `s`. */
    method Get(t: nat, s: nat) returns (v: real)
      requires Valid() && s < spacePoints
      ensures v == Rows[t % timePoints][s]
    {
      assert Stores(t % timePoints, s);
      v := points[PointIndex(t, s)];
    }

    /**
     * `mesh_Set`: overwrites the cell (t, s); every cell in another slot or
     * at another space index keeps its value.
     */
    method Set(t: nat, s: nat, v: real)
      requires Valid() && s < spacePoints
      modifies this, points
      ensures Valid()
      ensures Rows == old(Rows)[t % timePoints := old(Rows)[t % timePoints][s := v]]
    {
      var i := PointIndex(t, s);
      points[i] := v;
      var k := t % timePoints;
      Rows := Rows[k := Rows[k][s := v]];
      forall k', s' | 0 <= k' < timePoints && 0 <= s' < spacePoints
        ensures Stores(k', s')
      {
        CellIndexInjective(spacePoints, timePoints, k', s', k, s);
        assert old(Stores(k', s'));
      }
    }
  }

  /**
   * With a window of two rows, no cell of row `t` shares storage with a
   * cell of row `t - 1`: writing the current row never touches the previous one.
   */
  lemma AdjacentRowsDisjoint(m: Mesh, t: nat, s: nat, s': nat)
    requires m.timePoints == 2 && s < m.spacePoints && s' < m.spacePoints && t >= 1
    ensures m.PointIndex(t, s) != m.PointIndex(t - 1, s')
  {
  }
}
