/**
 * Neighbourhood strategies: given the grid's width and height, a centre and a
 * radius, a strategy enumerates grid positions around the centre.
 *
 * The engine only relies on `Confined`: every position a strategy returns lies
 * on the grid.  `VonNeumann` is a concrete strategy for the diamond metric
 * (|dx| + |dy| <= r, clipped to the grid); the lemmas about it are facts of
 * this instance, not of the engine.
 */
module Neighborhood {

  /** A grid position (x, y): x is the column, y the row. */
  type Pos = (int, int)

  /** A neighbourhood strategy: (width, height, centre, radius) to positions. */
  type Strategy = (nat, nat, Pos, int) -> seq<Pos>

  predicate InBounds(p: Pos, width: int, height: int) {
    0 <= p.0 < width && 0 <= p.1 < height
  }

  /** The contract every strategy handed to the engine keeps on a width x height grid. */
  ghost predicate Confined(s: Strategy, width: nat, height: nat) {
    forall c: Pos, r: int, p: Pos :: p in s(width, height, c, r) ==> InBounds(p, width, height)
  }

  predicate NoDuplicates(s: seq<Pos>) {
    forall i, j :: 0 <= i < j < |s| ==> s[i] != s[j]
  }

  function Abs(n: int): nat {
    if n < 0 then -n else n
  }

  /** Diamond (Von Neumann, taxicab) distance. */
  function Distance(p: Pos, q: Pos): nat {
    Abs(p.0 - q.0) + Abs(p.1 - q.1)
  }

  /** The diamond neighbourhood, enumerated row by row, column by column. */
  function VonNeumann(width: nat, height: nat, center: Pos, r: int): (n: seq<Pos>)
    ensures center in n <==> InBounds(center, width, height) && r >= 0
  {
    RowsFromMembers(width, height, center, r, 0, center);
    RowsFrom(width, height, center, r, 0)
  }

  /** The positions of rows y, y+1, ..., height-1 within distance r of center. */
  function RowsFrom(width: nat, height: nat, center: Pos, r: int, y: nat): seq<Pos>
    decreases height - y
  {
    if y >= height then []
    else RowFrom(width, center, r, y, 0) + RowsFrom(width, height, center, r, y + 1)
  }

  /** The positions (x, y), (x+1, y), ..., (width-1, y) within distance r of center. */
  function RowFrom(width: nat, center: Pos, r: int, y: nat, x: nat): seq<Pos>
    decreases width - x
  {
    if x >= width then []
    else (if Distance(center, (x, y)) <= r then [(x, y)] else []) + RowFrom(width, center, r, y, x + 1)
  }

  lemma {:induction false} RowFromMembers(width: nat, center: Pos, r: int, y: nat, x: nat, p: Pos)
    ensures p in RowFrom(width, center, r, y, x) <==> p.1 == y && x <= p.0 < width && Distance(center, p) <= r
    decreases width - x
  {
    if x < width {
      RowFromMembers(width, center, r, y, x + 1, p);
    }
  }

  lemma {:induction false} RowsFromMembers(width: nat, height: nat, center: Pos, r: int, y: nat, p: Pos)
    ensures p in RowsFrom(width, height, center, r, y)
        <==> y <= p.1 < height && 0 <= p.0 < width && Distance(center, p) <= r
    decreases height - y
  {
    if y < height {
      RowFromMembers(width, center, r, y, 0, p);
      RowsFromMembers(width, height, center, r, y + 1, p);
    }
  }

  /** Exactly the in-bounds positions within distance r belong to the neighbourhood. */
  lemma VonNeumannMembers(width: nat, height: nat, center: Pos, r: int, p: Pos)
    ensures p in VonNeumann(width, height, center, r) <==> InBounds(p, width, height) && Distance(center, p) <= r
  {
    RowsFromMembers(width, height, center, r, 0, p);
  }

  /** The diamond strategy keeps the strategy contract on every grid. */
  lemma VonNeumannConfined(width: nat, height: nat)
    ensures Confined(VonNeumann, width, height)
  {
    forall c: Pos, r: int, p: Pos | p in VonNeumann(width, height, c, r)
      ensures InBounds(p, width, height)
    {
      VonNeumannMembers(width, height, c, r, p);
    }
  }

  /** Concatenating two duplicate-free sequences with no common element gives a duplicate-free sequence. */
  lemma DisjointConcat(a: seq<Pos>, b: seq<Pos>)
    requires NoDuplicates(a) && NoDuplicates(b)
    requires forall p :: p in a ==> p !in b
    ensures NoDuplicates(a + b)
  {
    forall i, j | 0 <= i < j < |a + b|
      ensures (a + b)[i] != (a + b)[j]
    {
      if i < |a| && |a| <= j {
        assert (a + b)[i] in a;
        assert (a + b)[j] == b[j - |a|];
      }
    }
  }

  lemma {:induction false} RowFromNoDuplicates(width: nat, center: Pos, r: int, y: nat, x: nat)
    ensures NoDuplicates(RowFrom(width, center, r, y, x))
    decreases width - x
  {
    if x < width {
      RowFromNoDuplicates(width, center, r, y, x + 1);
      var head := if Distance(center, (x, y)) <= r then [(x, y)] else [];
      forall p | p in head
        ensures p !in RowFrom(width, center, r, y, x + 1)
      {
        RowFromMembers(width, center, r, y, x + 1, p);
      }
      DisjointConcat(head, RowFrom(width, center, r, y, x + 1));
    }
  }

  lemma {:induction false} RowsFromNoDuplicates(width: nat, height: nat, center: Pos, r: int, y: nat)
    ensures NoDuplicates(RowsFrom(width, height, center, r, y))
    decreases height - y
  {
    if y < height {
      RowFromNoDuplicates(width, center, r, y, 0);
      RowsFromNoDuplicates(width, height, center, r, y + 1);
      forall p | p in RowFrom(width, center, r, y, 0)
        ensures p !in RowsFrom(width, height, center, r, y + 1)
      {
        RowFromMembers(width, center, r, y, 0, p);
        RowsFromMembers(width, height, center, r, y + 1, p);
      }
      DisjointConcat(RowFrom(width, center, r, y, 0), RowsFrom(width, height, center, r, y + 1));
    }
  }

  /** The diamond neighbourhood lists every position at most once. */
  lemma VonNeumannNoDuplicates(width: nat, height: nat, center: Pos, r: int)
    ensures NoDuplicates(VonNeumann(width, height, center, r))
  {
    RowsFromNoDuplicates(width, height, center, r, 0);
  }

  lemma {:induction false} RowFromRadiusZero(width: nat, center: Pos, y: nat, x: nat)
    ensures RowFrom(width, center, 0, y, x) == if y == center.1 && x <= center.0 < width then [center] else []
    decreases width - x
  {
    if x < width {
      RowFromRadiusZero(width, center, y, x + 1);
    }
  }

  lemma {:induction false} RowsFromRadiusZero(width: nat, height: nat, center: Pos, y: nat)
    ensures RowsFrom(width, height, center, 0, y)
         == if y <= center.1 < height && 0 <= center.0 < width then [center] else []
    decreases height - y
  {
    if y < height {
      RowFromRadiusZero(width, center, y, 0);
      RowsFromRadiusZero(width, height, center, y + 1);
    }
  }

  /** Radius 0 yields exactly the centre when it is on the grid, and nothing otherwise. */
  lemma VonNeumannRadiusZero(width: nat, height: nat, center: Pos)
    ensures VonNeumann(width, height, center, 0) == if InBounds(center, width, height) then [center] else []
  {
    RowsFromRadiusZero(width, height, center, 0);
  }

  /** A smaller radius gives a sub-neighbourhood. */
  lemma VonNeumannMonotone(width: nat, height: nat, center: Pos, r1: int, r2: int, p: Pos)
    requires r1 <= r2
    requires p in VonNeumann(width, height, center, r1)
    ensures p in VonNeumann(width, height, center, r2)
  {
    VonNeumannMembers(width, height, center, r1, p);
    VonNeumannMembers(width, height, center, r2, p);
  }
}
