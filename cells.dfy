/**
 * The cells of the cellular automaton: a colour raster, a discriminator grid
 * and a visited mask, all width x height and indexed [y, x], updated in place
 * by one generation of David Young's activator-inhibitor method.
 */
module Cells {
  import opened Colors
  import opened Neighborhood
  import opened Automaton

  /** The rows of a two-dimensional array, as a value. */
  ghost function RowsOf<T>(a: array2<T>): (v: seq<seq<T>>)
    reads a
    ensures |v| == a.Length0
    ensures forall y :: 0 <= y < a.Length0 ==> |v[y]| == a.Length1
    ensures forall y, x :: 0 <= y < a.Length0 && 0 <= x < a.Length1 ==> v[y][x] == a[y, x]
  {
    seq(a.Length0, y requires 0 <= y < a.Length0 reads a =>
      seq(a.Length1, x requires 0 <= x < a.Length1 reads a => a[y, x]))
  }

  class Cells {
    const width: nat
    const height: nat
    /** The neighbourhood strategy, injected at construction. */
    const nstrategy: Strategy
    /** The colour raster of the underlying image, [y, x]. */
    const img: array2<Color>
    /** The discriminator of every cell, [y, x]. */
    const disc: array2<real>
    /** The visited mask, [y, x]; replaced wholesale by ResetVisited. */
    var visited: array2<bool>

    ghost predicate Valid()
      reads this
    {
      img.Length0 == height && img.Length1 == width &&
      disc.Length0 == height && disc.Length1 == width &&
      visited.Length0 == height && visited.Length1 == width &&
      Confined(nstrategy, width, height)
    }

    ghost function Pixels(): (g: Grid)
      reads this, img
      requires Valid()
      ensures WellSized(g, width, height)
    {
      RowsOf(img)
    }

    ghost function Discs(): (f: Field)
      reads this, disc
      requires Valid()
      ensures WellSized(f, width, height)
    {
      RowsOf(disc)
    }

    ghost function Visits(): (m: seq<seq<bool>>)
      reads this, visited
      requires Valid()
      ensures WellSized(m, width, height)
    {
      RowsOf(visited)
    }

    /**
     * A width x height raster filled with one colour, every discriminator 0
     * and nothing visited.  The strategy defaults to the diamond one.
     */
    constructor (width: nat, height: nat, fill: Color, nstrategy: Strategy := VonNeumann)
      requires Confined(nstrategy, width, height)
      ensures Valid()
      ensures this.width == width && this.height == height && this.nstrategy == nstrategy
      ensures fresh(img) && fresh(disc) && fresh(visited)
      ensures Pixels() == seq(height, y => seq(width, x => fill))
      ensures Discs() == seq(height, y => seq(width, x => 0.0))
      ensures Visits() == seq(height, y => seq(width, x => false))
    {
      this.width := width;
      this.height := height;
      this.nstrategy := nstrategy;
      img := new Color[height, width]((y, x) => fill);
      disc := new real[height, width]((y, x) => 0.0);
      visited := new bool[height, width]((y, x) => false);
      new;
      assert forall y :: 0 <= y < height ==> Pixels()[y] == seq(width, x => fill);
      assert forall y :: 0 <= y < height ==> Discs()[y] == seq(width, x => 0.0);
      assert forall y :: 0 <= y < height ==> Visits()[y] == seq(width, x => false);
    }

    // -------------------------------------------------------------------------
    // Accessors

    /** get_color of the underlying image. */
    method GetColor(x: int, y: int) returns (c: Color)
      requires Valid() && InBounds((x, y), width, height)
      ensures c == Pixels()[y][x]
    {
      c := img[y, x];
    }

    /** set_color of the underlying image: only (x, y) changes. */
    method SetColor(x: int, y: int, c: Color)
      requires Valid() && InBounds((x, y), width, height)
      modifies img
      ensures img[y, x] == c
      ensures forall j, i :: 0 <= j < height && 0 <= i < width && (i, j) != (x, y) ==> img[j, i] == old(img[j, i])
    {
      img[y, x] := c;
    }

    method GetDisc(x: int, y: int) returns (d: real)
      requires Valid() && InBounds((x, y), width, height)
      ensures d == Discs()[y][x]
    {
      d := disc[y, x];
    }

    /** Stores d at (x, y), so that GetDisc(x, y) afterwards returns d; no other entry changes. */
    method SetDisc(x: int, y: int, d: real)
      requires Valid() && InBounds((x, y), width, height)
      modifies disc
      ensures disc[y, x] == d
      ensures forall j, i :: 0 <= j < height && 0 <= i < width && (i, j) != (x, y) ==> disc[j, i] == old(disc[j, i])
    {
      disc[y, x] := d;
    }

    method GetVisited(x: int, y: int) returns (v: bool)
      requires Valid() && InBounds((x, y), width, height)
      ensures v == Visits()[y][x]
    {
      v := visited[y, x];
    }

    /** Marks (x, y) visited and nothing else. */
    method SetVisited(x: int, y: int)
      requires Valid() && InBounds((x, y), width, height)
      modifies visited
      ensures visited[y, x]
      ensures forall j, i :: 0 <= j < height && 0 <= i < width && (i, j) != (x, y) ==> visited[j, i] == old(visited[j, i])
    {
      visited[y, x] := true;
    }

    /** Replaces the mask by a fresh one in which nothing is visited. */
    method ResetVisited()
      requires Valid()
      modifies this
      ensures Valid() && fresh(visited)
      ensures Visits() == seq(height, y => seq(width, x => false))
    {
      visited := new bool[height, width]((y, x) => false);
      assert forall y :: 0 <= y < height ==> Visits()[y] == seq(width, x => false);
    }

    // -------------------------------------------------------------------------
    // The automaton

    /**
     * count_d_cells: the number of entries of the strategy's region around pos
     * whose colour equals COLOR_D channel by channel.
     */
    method CountDCells(pos: Pos, distance: int) returns (cellCount: nat)
      requires Valid()
      ensures cellCount == CountAt(Pixels(), nstrategy, width, height, pos, distance)
      ensures cellCount <= |nstrategy(width, height, pos, distance)|
    {
      ghost var g := Pixels();
      var region := nstrategy(width, height, pos, distance);
      RegionOnGrid(g, nstrategy, width, height, pos, distance);
      cellCount := 0;
      var i := 0;
      while i < |region|
        invariant 0 <= i <= |region|
        invariant AllOnGrid(g, region[..i])
        invariant cellCount == CountDeveloped(g, region[..i])
      {
        var p := region[i];
        assert OnGrid(g, p);
        var cellColor := GetColor(p.0, p.1);
        var isEqual := cellColor.r == COLOR_D.r && cellColor.g == COLOR_D.g
                    && cellColor.b == COLOR_D.b && cellColor.a == COLOR_D.a;
        assert region[..i + 1][..i] == region[..i];
        if isEqual {
          cellCount := cellCount + 1;
        }
        i := i + 1;
      }
      assert region[..i] == region;
    }

    /** The body of update_discs for one cell: AD - w * ID at pos. */
    method CellDisc(pos: Pos, ra: int, ri: int, w: real, ghost g: Grid) returns (d: real)
      requires Valid() && g == Pixels()
      ensures d == Discriminator(g, nstrategy, width, height, pos, ra, ri, w)
    {
      var ad := CountDCells(pos, ra);  // radius/circle
      var id: int := CountDCells(pos, ri);
      id := id - ad;  // ring
      d := ad as real - w * id as real;
    }

    /**
     * Pass 1 (update_discs): every discriminator AD - w * ID computed from the
     * colours as they are; the raster is not written, so all of them come
     * from the same snapshot.
     */
    method UpdateDiscs(ra: int, ri: int, w: real)
      requires Valid()
      modifies disc
      ensures Discs() == DiscField(Pixels(), nstrategy, width, height, ra, ri, w)
    {
      ghost var g := Pixels();
      var y := 0;
      while y < height
        invariant 0 <= y <= height
        invariant forall j, i :: 0 <= j < y && 0 <= i < width ==>
          disc[j, i] == Discriminator(g, nstrategy, width, height, (i, j), ra, ri, w)
      {
        UpdateDiscRow(y, ra, ri, w, g);
        y := y + 1;
      }
      assert forall j :: 0 <= j < height ==> Discs()[j] == DiscField(g, nstrategy, width, height, ra, ri, w)[j];
    }

    /** The inner loop of update_discs: the discriminators of row y. */
    method UpdateDiscRow(y: nat, ra: int, ri: int, w: real, ghost g: Grid)
      requires Valid() && y < height && g == Pixels()
      modifies disc
      ensures forall i :: 0 <= i < width ==> disc[y, i] == Discriminator(g, nstrategy, width, height, (i, y), ra, ri, w)
      ensures forall j, i :: 0 <= j < height && j != y && 0 <= i < width ==> disc[j, i] == old(disc[j, i])
    {
      var x := 0;
      while x < width
        invariant 0 <= x <= width
        invariant forall i :: 0 <= i < x ==> disc[y, i] == Discriminator(g, nstrategy, width, height, (i, y), ra, ri, w)
        invariant forall j, i :: 0 <= j < height && j != y && 0 <= i < width ==> disc[j, i] == old(disc[j, i])
      {
        var d := CellDisc((x, y), ra, ri, w, g);
        SetDisc(x, y, d);
        x := x + 1;
      }
    }

    /**
     * One generation (develop).  RA >= RI is refused before anything is
     * touched.  Otherwise pass 1 fills the discriminator grid from the
     * pre-step raster, and pass 2 then sets each cell to COLOR_D where its
     * discriminator is positive, to COLOR_U where it is negative, and leaves
     * it where it is zero; the discriminators are left as pass 1 made them.
     */
    method Develop(ra: int, ri: int, w: real) returns (outcome: Outcome)
      requires Valid()
      modifies img, disc
      ensures outcome == if ra >= ri then InvalidRadius(ra, ri) else Developed
      ensures ra >= ri ==> unchanged(img) && unchanged(disc)
      ensures ra < ri ==> Discs() == DiscField(old(Pixels()), nstrategy, width, height, ra, ri, w)
      ensures ra < ri ==> Pixels() == NextGrid(old(Pixels()), Discs())
    {
      if ra >= ri {
        return InvalidRadius(ra, ri);
      }
      ghost var snapshot := Pixels();
      UpdateDiscs(ra, ri, w);
      var y := 0;
      while y < height
        modifies img
        invariant 0 <= y <= height
        invariant forall j, i :: 0 <= j < y && 0 <= i < width ==> img[j, i] == Threshold(snapshot[j][i], disc[j, i])
        invariant forall j, i :: y <= j < height && 0 <= i < width ==> img[j, i] == snapshot[j][i]
      {
        ApplyDiscRow(y);
        y := y + 1;
      }
      assert forall j :: 0 <= j < height ==> Pixels()[j] == NextGrid(snapshot, Discs())[j];
      outcome := Developed;
    }

    /** The inner loop of develop's second pass: the new colours of row y. */
    method ApplyDiscRow(y: nat)
      requires Valid() && y < height
      modifies img
      ensures forall i :: 0 <= i < width ==> img[y, i] == Threshold(old(img[y, i]), disc[y, i])
      ensures forall j, i :: 0 <= j < height && j != y && 0 <= i < width ==> img[j, i] == old(img[j, i])
    {
      var x := 0;
      while x < width
        invariant 0 <= x <= width
        invariant forall i :: 0 <= i < x ==> img[y, i] == Threshold(old(img[y, i]), disc[y, i])
        invariant forall i :: x <= i < width ==> img[y, i] == old(img[y, i])
        invariant forall j, i :: 0 <= j < height && j != y && 0 <= i < width ==> img[j, i] == old(img[j, i])
      {
        var d := GetDisc(x, y);
        if d > 0.0 {
          SetColor(x, y, COLOR_D);
        } else if d < 0.0 {
          SetColor(x, y, COLOR_U);
        }
        x := x + 1;
      }
    }
  }
}
