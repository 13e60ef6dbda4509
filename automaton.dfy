/**
 * The activator-inhibitor automaton (after David Young) as functions on
 * grid values.  These are the specifications the `Cells` class is proved
 * against: a grid is a sequence of rows, indexed [y][x] like the class's
 * arrays, and a position is (x, y).
 */
module Automaton {
  import opened Colors
  import opened Neighborhood

  /** A colour raster, row by row. */
  type Grid = seq<seq<Color>>

  /** A discriminator field, row by row. */
  type Field = seq<seq<real>>

  predicate WellSized<T>(g: seq<seq<T>>, width: nat, height: nat) {
    |g| == height && forall y :: 0 <= y < height ==> |g[y]| == width
  }

  predicate SameShape<T, U>(g: seq<seq<T>>, f: seq<seq<U>>) {
    |g| == |f| && forall y :: 0 <= y < |g| ==> |g[y]| == |f[y]|
  }

  predicate OnGrid<T>(g: seq<seq<T>>, p: Pos) {
    0 <= p.1 < |g| && 0 <= p.0 < |g[p.1]|
  }

  predicate AllOnGrid<T>(g: seq<seq<T>>, region: seq<Pos>) {
    forall i :: 0 <= i < |region| ==> OnGrid(g, region[i])
  }

  function ColorAt(g: Grid, p: Pos): Color
    requires OnGrid(g, p)
  {
    g[p.1][p.0]
  }

  /** A confined strategy only names positions of a grid of its size. */
  lemma RegionOnGrid<T>(g: seq<seq<T>>, s: Strategy, width: nat, height: nat, c: Pos, r: int)
    requires WellSized(g, width, height) && Confined(s, width, height)
    ensures AllOnGrid(g, s(width, height, c, r))
  {
    var region := s(width, height, c, r);
    forall i | 0 <= i < |region|
      ensures OnGrid(g, region[i])
    {
      assert region[i] in region;
      assert InBounds(region[i], width, height);
      assert |g[region[i].1]| == width;
    }
  }

  /**
   * The number of entries of region whose colour is COLOR_D (an entry listed
   * twice counts twice).  Bounded by the length of the region.
   */
  function CountDeveloped(g: Grid, region: seq<Pos>): (n: nat)
    requires AllOnGrid(g, region)
    ensures n <= |region|
    decreases |region|
  {
    if region == [] then 0
    else
      var last := region[|region| - 1];
      CountDeveloped(g, region[..|region| - 1]) + (if IsDeveloped(ColorAt(g, last)) then 1 else 0)
  }

  /** count_d_cells: the COLOR_D entries of the strategy's region around c of radius r. */
  function CountAt(g: Grid, s: Strategy, width: nat, height: nat, c: Pos, r: int): (n: nat)
    requires WellSized(g, width, height) && Confined(s, width, height)
    ensures n <= |s(width, height, c, r)|
  {
    RegionOnGrid(g, s, width, height, c, r);
    CountDeveloped(g, s(width, height, c, r))
  }

  /**
   * Activator disc AD minus w times the inhibitor ring ID, for the cell at p.
   * With an empty ring, or with weight 0, it is just the activator count.
   */
  function Discriminator(g: Grid, s: Strategy, width: nat, height: nat, p: Pos, ra: int, ri: int, w: real): (d: real)
    requires WellSized(g, width, height) && Confined(s, width, height)
    ensures CountAt(g, s, width, height, p, ri) == CountAt(g, s, width, height, p, ra)
            ==> d == CountAt(g, s, width, height, p, ra) as real
    ensures w == 0.0 ==> d == CountAt(g, s, width, height, p, ra) as real
  {
    var ad := CountAt(g, s, width, height, p, ra);
    var id := CountAt(g, s, width, height, p, ri) - ad;
    ad as real - w * id as real
  }

  /** Pass 1: the discriminator of every cell, all taken from the same grid g. */
  function DiscField(g: Grid, s: Strategy, width: nat, height: nat, ra: int, ri: int, w: real): (f: Field)
    requires WellSized(g, width, height) && Confined(s, width, height)
    ensures WellSized(f, width, height)
  {
    seq(height, y => seq(width, x => Discriminator(g, s, width, height, (x, y), ra, ri, w)))
  }

  /** The new colour of one cell, from its old colour and its discriminator. */
  function Threshold(c: Color, d: real): (n: Color)
    ensures d > 0.0 ==> n == COLOR_D
    ensures d < 0.0 ==> n == COLOR_U
    ensures d == 0.0 ==> n == c
  {
    if d > 0.0 then COLOR_D
    else if d < 0.0 then COLOR_U
    else c
  }

  /** Pass 2: every cell thresholded by its own discriminator. */
  function NextGrid(g: Grid, f: Field): (n: Grid)
    requires SameShape(g, f)
    ensures SameShape(n, g)
  {
    seq(|g|, y requires 0 <= y < |g| =>
      seq(|g[y]|, x requires 0 <= x < |g[y]| => Threshold(g[y][x], f[y][x])))
  }

  /**
   * The threshold rule of pass 2: a cell ends up COLOR_D exactly when its
   * discriminator is positive or it is zero and the cell was COLOR_D
   * already; likewise for COLOR_U and a negative discriminator; a zero
   * discriminator keeps the old colour.
   */
  lemma ThresholdRule(g: Grid, f: Field, y: int, x: int)
    requires SameShape(g, f) && 0 <= y < |g| && 0 <= x < |g[y]|
    ensures NextGrid(g, f)[y][x] == COLOR_D <==> f[y][x] > 0.0 || (f[y][x] == 0.0 && g[y][x] == COLOR_D)
    ensures NextGrid(g, f)[y][x] == COLOR_U <==> f[y][x] < 0.0 || (f[y][x] == 0.0 && g[y][x] == COLOR_U)
    ensures f[y][x] == 0.0 ==> NextGrid(g, f)[y][x] == g[y][x]
  {
  }

  /** The error develop reports. */
  datatype Outcome = Developed | InvalidRadius(ra: int, ri: int)

  // ---------------------------------------------------------------------------
  // Properties of the count

  /** The count is zero exactly when no entry of the region is COLOR_D. */
  lemma {:induction false} CountZeroIff(g: Grid, region: seq<Pos>)
    requires AllOnGrid(g, region)
    ensures CountDeveloped(g, region) == 0
        <==> forall i :: 0 <= i < |region| ==> ColorAt(g, region[i]) != COLOR_D
    decreases |region|
  {
    if region != [] {
      var front := region[..|region| - 1];
      CountZeroIff(g, front);
      assert forall i :: 0 <= i < |front| ==> front[i] == region[i];
    }
  }

  /** The count equals the region's length exactly when every entry is COLOR_D. */
  lemma {:induction false} CountFullIff(g: Grid, region: seq<Pos>)
    requires AllOnGrid(g, region)
    ensures CountDeveloped(g, region) == |region|
        <==> forall i :: 0 <= i < |region| ==> ColorAt(g, region[i]) == COLOR_D
    decreases |region|
  {
    if region != [] {
      var front := region[..|region| - 1];
      CountFullIff(g, front);
      assert forall i :: 0 <= i < |front| ==> front[i] == region[i];
    }
  }

  /** The count only looks at the colours of the region's own positions. */
  lemma {:induction false} CountLocal(g1: Grid, g2: Grid, region: seq<Pos>)
    requires AllOnGrid(g1, region) && AllOnGrid(g2, region)
    requires forall i :: 0 <= i < |region| ==> ColorAt(g1, region[i]) == ColorAt(g2, region[i])
    ensures CountDeveloped(g1, region) == CountDeveloped(g2, region)
    decreases |region|
  {
    if region != [] {
      var front := region[..|region| - 1];
      assert forall i :: 0 <= i < |front| ==> front[i] == region[i];
      CountLocal(g1, g2, front);
    }
  }

  /** The set of COLOR_D positions a region names. */
  ghost function DevelopedIn(g: Grid, region: seq<Pos>): set<Pos> {
    set p | p in region && OnGrid(g, p) && ColorAt(g, p) == COLOR_D
  }

  /** Over a region without repeated positions, the count is the size of that set. */
  lemma {:induction false} CountDistinct(g: Grid, region: seq<Pos>)
    requires AllOnGrid(g, region) && NoDuplicates(region)
    ensures CountDeveloped(g, region) == |DevelopedIn(g, region)|
    decreases |region|
  {
    if region == [] {
      assert DevelopedIn(g, region) == {};
    } else {
      var front := region[..|region| - 1];
      var last := region[|region| - 1];
      assert region == front + [last];
      assert forall i :: 0 <= i < |front| ==> front[i] == region[i];
      CountDistinct(g, front);
      assert OnGrid(g, region[|region| - 1]);
      DevelopedInSnoc(g, front, last);
    }
  }

  /** Appending a position not yet listed adds it to the set exactly when it is COLOR_D. */
  lemma DevelopedInSnoc(g: Grid, front: seq<Pos>, last: Pos)
    requires OnGrid(g, last) && NoDuplicates(front + [last])
    ensures last !in front
    ensures DevelopedIn(g, front + [last])
         == DevelopedIn(g, front) + (if ColorAt(g, last) == COLOR_D then {last} else {})
  {
    var region := front + [last];
    assert region[|front|] == last;
    forall i | 0 <= i < |front| ensures front[i] != last {
      assert front[i] == region[i];
    }
  }

  lemma SubsetSize(a: set<Pos>, b: set<Pos>)
    requires a <= b
    ensures |a| <= |b|
  {
    assert b == a + (b - a);
  }

  /**
   * When one duplicate-free region lies inside another, it holds no more
   * COLOR_D cells.  This is the hypothesis under which the inhibitor ring
   * count ID is never negative.
   */
  lemma CountMonotone(g: Grid, inner: seq<Pos>, outer: seq<Pos>)
    requires AllOnGrid(g, inner) && AllOnGrid(g, outer)
    requires NoDuplicates(inner) && NoDuplicates(outer)
    requires forall p :: p in inner ==> p in outer
    ensures CountDeveloped(g, inner) <= CountDeveloped(g, outer)
  {
    CountDistinct(g, inner);
    CountDistinct(g, outer);
    SubsetSize(DevelopedIn(g, inner), DevelopedIn(g, outer));
  }

  /** With the diamond strategy the ring count ID = count(RI) - AD is never negative. */
  lemma VonNeumannRingNonNegative(g: Grid, width: nat, height: nat, p: Pos, ra: int, ri: int)
    requires WellSized(g, width, height) && ra <= ri
    requires Confined(VonNeumann, width, height)
    ensures CountAt(g, VonNeumann, width, height, p, ra) <= CountAt(g, VonNeumann, width, height, p, ri)
  {
    RegionOnGrid(g, VonNeumann, width, height, p, ra);
    RegionOnGrid(g, VonNeumann, width, height, p, ri);
    VonNeumannNoDuplicates(width, height, p, ra);
    VonNeumannNoDuplicates(width, height, p, ri);
    forall q | q in VonNeumann(width, height, p, ra)
      ensures q in VonNeumann(width, height, p, ri)
    {
      VonNeumannMonotone(width, height, p, ra, ri, q);
    }
    CountMonotone(g, VonNeumann(width, height, p, ra), VonNeumann(width, height, p, ri));
  }

  // ---------------------------------------------------------------------------
  // Properties of one generation

  /**
   * Synchronous update: a cell's discriminator depends only on the colours of
   * the snapshot at the positions of its two neighbourhoods, so no change
   * elsewhere in the grid can alter it.
   */
  lemma DiscriminatorLocal(g1: Grid, g2: Grid, s: Strategy, width: nat, height: nat, p: Pos, ra: int, ri: int, w: real)
    requires WellSized(g1, width, height) && WellSized(g2, width, height) && Confined(s, width, height)
    requires forall y, x :: 0 <= y < height && 0 <= x < width && (x, y) in s(width, height, p, ra) ==> g1[y][x] == g2[y][x]
    requires forall y, x :: 0 <= y < height && 0 <= x < width && (x, y) in s(width, height, p, ri) ==> g1[y][x] == g2[y][x]
    ensures Discriminator(g1, s, width, height, p, ra, ri, w) == Discriminator(g2, s, width, height, p, ra, ri, w)
  {
    AgreeOnRegion(g1, g2, s, width, height, p, ra);
    AgreeOnRegion(g1, g2, s, width, height, p, ri);
  }

  lemma AgreeOnRegion(g1: Grid, g2: Grid, s: Strategy, width: nat, height: nat, p: Pos, r: int)
    requires WellSized(g1, width, height) && WellSized(g2, width, height) && Confined(s, width, height)
    requires forall y, x :: 0 <= y < height && 0 <= x < width && (x, y) in s(width, height, p, r) ==> g1[y][x] == g2[y][x]
    ensures CountAt(g1, s, width, height, p, r) == CountAt(g2, s, width, height, p, r)
  {
    var region := s(width, height, p, r);
    RegionOnGrid(g1, s, width, height, p, r);
    RegionOnGrid(g2, s, width, height, p, r);
    forall i | 0 <= i < |region|
      ensures ColorAt(g1, region[i]) == ColorAt(g2, region[i])
    {
      var q := region[i];
      assert q in region;
      assert (q.0, q.1) == q;
    }
    CountLocal(g1, g2, region);
  }

  predicate NoneDeveloped(g: Grid) {
    forall y, x :: 0 <= y < |g| && 0 <= x < |g[y]| ==> g[y][x] != COLOR_D
  }

  /**
   * On a grid without a single COLOR_D cell every discriminator is 0, so a
   * generation changes nothing.
   */
  lemma NoneDevelopedIsFixpoint(g: Grid, s: Strategy, width: nat, height: nat, ra: int, ri: int, w: real)
    requires WellSized(g, width, height) && Confined(s, width, height) && NoneDeveloped(g)
    ensures DiscField(g, s, width, height, ra, ri, w) == seq(height, y => seq(width, x => 0.0))
    ensures NextGrid(g, DiscField(g, s, width, height, ra, ri, w)) == g
  {
    var f := DiscField(g, s, width, height, ra, ri, w);
    forall p: Pos, r: int
      ensures CountAt(g, s, width, height, p, r) == 0
    {
      var region := s(width, height, p, r);
      RegionOnGrid(g, s, width, height, p, r);
      forall i | 0 <= i < |region|
        ensures ColorAt(g, region[i]) != COLOR_D
      {
        assert OnGrid(g, region[i]);
      }
      CountZeroIff(g, region);
    }
    var zero := seq(height, y => seq(width, x => 0.0));
    forall y | 0 <= y < height
      ensures f[y] == zero[y]
    {
      assert forall x :: 0 <= x < width ==> f[y][x] == 0.0;
    }
    var n := NextGrid(g, f);
    assert forall y :: 0 <= y < height ==> n[y] == g[y];
  }

  // ---------------------------------------------------------------------------
  // A single developed cell under the diamond strategy

  /** g holds COLOR_D at seed and COLOR_U everywhere else. */
  ghost predicate OnlySeed(g: Grid, seed: Pos) {
    OnGrid(g, seed) &&
    forall p: Pos :: OnGrid(g, p) ==> ColorAt(g, p) == if p == seed then COLOR_D else COLOR_U
  }

  /** With one COLOR_D cell, a diamond of radius r around p counts it iff it is within r. */
  lemma VonNeumannCountSeed(g: Grid, width: nat, height: nat, seed: Pos, p: Pos, r: int)
    requires WellSized(g, width, height) && OnlySeed(g, seed)
    requires Confined(VonNeumann, width, height)
    ensures CountAt(g, VonNeumann, width, height, p, r) == if Distance(p, seed) <= r then 1 else 0
  {
    var region := VonNeumann(width, height, p, r);
    RegionOnGrid(g, VonNeumann, width, height, p, r);
    VonNeumannNoDuplicates(width, height, p, r);
    CountDistinct(g, region);
    VonNeumannMembers(width, height, p, r, seed);
    forall q | q in DevelopedIn(g, region)
      ensures q == seed
    {
      assert ColorAt(g, q) == COLOR_D;
    }
    if Distance(p, seed) <= r {
      assert seed in DevelopedIn(g, region);
      assert DevelopedIn(g, region) == {seed};
    } else {
      assert seed !in DevelopedIn(g, region);
      assert DevelopedIn(g, region) == {};
    }
  }

  /**
   * One developed cell, diamond strategy: cells within RA of the seed get
   * discriminator 1, cells in the ring RA < d <= RI get -w, the rest 0.
   */
  lemma VonNeumannSeedDiscriminator(g: Grid, width: nat, height: nat, seed: Pos, p: Pos, ra: int, ri: int, w: real)
    requires WellSized(g, width, height) && OnlySeed(g, seed) && ra < ri
    requires Confined(VonNeumann, width, height)
    ensures Discriminator(g, VonNeumann, width, height, p, ra, ri, w)
         == if Distance(p, seed) <= ra then 1.0 else if Distance(p, seed) <= ri then -w else 0.0
  {
    VonNeumannCountSeed(g, width, height, seed, p, ra);
    VonNeumannCountSeed(g, width, height, seed, p, ri);
  }

  /** The new colour of the cell (x, y) in the single-seed generation. */
  lemma SeedCell(g: Grid, width: nat, height: nat, seed: Pos, ra: int, ri: int, w: real, x: int, y: int)
    requires WellSized(g, width, height) && OnlySeed(g, seed) && 0 <= ra < ri && w >= 0.0
    requires Confined(VonNeumann, width, height)
    requires 0 <= y < height && 0 <= x < width
    ensures NextGrid(g, DiscField(g, VonNeumann, width, height, ra, ri, w))[y][x]
         == if Distance((x, y), seed) <= ra then COLOR_D else COLOR_U
  {
    VonNeumannSeedDiscriminator(g, width, height, seed, (x, y), ra, ri, w);
    if (x, y) == seed {
      assert Distance((x, y), seed) == 0;
    } else {
      assert ColorAt(g, (x, y)) == COLOR_U;
    }
  }

  /**
   * One generation from a single COLOR_D seed on a COLOR_U grid, diamond
   * strategy, 0 <= RA < RI and w >= 0: exactly the cells within distance RA
   * of the seed are COLOR_D afterwards, all others COLOR_U.
   */
  lemma SeedGeneration(g: Grid, width: nat, height: nat, seed: Pos, ra: int, ri: int, w: real)
    requires WellSized(g, width, height) && OnlySeed(g, seed) && 0 <= ra < ri && w >= 0.0
    requires Confined(VonNeumann, width, height)
    ensures forall y, x :: 0 <= y < height && 0 <= x < width ==>
      NextGrid(g, DiscField(g, VonNeumann, width, height, ra, ri, w))[y][x]
      == if Distance((x, y), seed) <= ra then COLOR_D else COLOR_U
  {
    forall y, x | 0 <= y < height && 0 <= x < width
      ensures NextGrid(g, DiscField(g, VonNeumann, width, height, ra, ri, w))[y][x]
           == if Distance((x, y), seed) <= ra then COLOR_D else COLOR_U
    {
      SeedCell(g, width, height, seed, ra, ri, w, x, y);
    }
  }

  /** The 5 x 5 grid with only its centre (2, 2) developed. */
  function CentreSeed(): (g: Grid)
    ensures WellSized(g, 5, 5) && OnlySeed(g, (2, 2))
  {
    seq(5, y => seq(5, x => if (x, y) == (2, 2) then COLOR_D else COLOR_U))
  }

  /**
   * develop(RA = 1, RI = 2, w = 0.5) on CentreSeed with the diamond strategy:
   * the centre and its four direct neighbours end up COLOR_D, the other
   * twenty cells COLOR_U.
   */
  lemma CentreSeedScenario(g: Grid, y: int, x: int)
    requires g == CentreSeed() && Confined(VonNeumann, 5, 5)
    requires 0 <= y < 5 && 0 <= x < 5
    ensures NextGrid(g, DiscField(g, VonNeumann, 5, 5, 1, 2, 0.5))[y][x]
         == if (x, y) in {(2, 2), (1, 2), (3, 2), (2, 1), (2, 3)} then COLOR_D else COLOR_U
  {
    SeedCell(g, 5, 5, (2, 2), 1, 2, 0.5, x, y);
    CentreDiamond(y, x);
  }

  /** The cells of a 5 x 5 grid within diamond distance 1 of its centre. */
  lemma CentreDiamond(y: int, x: int)
    requires 0 <= y < 5 && 0 <= x < 5
    ensures Distance((x, y), (2, 2)) <= 1 <==> (x, y) in {(2, 2), (1, 2), (3, 2), (2, 1), (2, 3)}
  {
  }
}
