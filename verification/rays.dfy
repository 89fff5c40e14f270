/**
 * The eight compass directions and what choosing one does to the board: every star casts a ray
 * along the direction's unit vector, and every empty cell strictly beyond a star on such a ray
 * becomes a circle. Rays pass through stars and circles. The result is stated cell by cell, with
 * no reference to the order in which stars are visited.
 */
module Rays {
  import opened Board
  import opened Lists

  /** The direction codes in the order a new game offers them. */
  const AllDirections: seq<string> := ["N", "S", "E", "W", "NE", "NW", "SE", "SW"]

  /** `DIRECTION_VECTORS`: the (row, column) step of each direction code. */
  const DirectionVectors: map<string, (int, int)> :=
    map["N" := (-1, 0), "S" := (1, 0), "E" := (0, 1), "W" := (0, -1),
        "NE" := (-1, 1), "NW" := (-1, -1), "SE" := (1, 1), "SW" := (1, -1)]

  /** A step of at most one row and one column that moves somewhere. */
  predicate IsUnit(dr: int, dc: int) {
    -1 <= dr <= 1 && -1 <= dc <= 1 && (dr != 0 || dc != 0)
  }

  /** The code whose vector is (dr, dc): the table read backwards. */
  function CodeOf(dr: int, dc: int): string {
    if dr == -1 then (if dc == -1 then "NW" else if dc == 0 then "N" else "NE")
    else if dr == 0 then (if dc == -1 then "W" else "E")
    else (if dc == -1 then "SW" else if dc == 0 then "S" else "SE")
  }

  /** Reading the table backwards gives back the code, so no two codes share a vector. */
  lemma CodeOfInvertsTable(d: string)
    requires d in DirectionVectors
    ensures CodeOf(DirectionVectors[d].0, DirectionVectors[d].1) == d
    ensures IsUnit(DirectionVectors[d].0, DirectionVectors[d].1)
  {
  }

  /** The table holds exactly the eight codes, each a distinct unit step. */
  lemma DirectionTable()
    ensures |AllDirections| == 8 && NoDuplicates(AllDirections)
    ensures forall d :: d in DirectionVectors <==> d in AllDirections
    ensures forall d :: d in DirectionVectors ==> IsUnit(DirectionVectors[d].0, DirectionVectors[d].1)
    ensures forall d, e :: d in DirectionVectors && e in DirectionVectors && d != e ==> DirectionVectors[d] != DirectionVectors[e]
  {
    forall d | d in DirectionVectors ensures IsUnit(DirectionVectors[d].0, DirectionVectors[d].1) {
      CodeOfInvertsTable(d);
    }
    forall d, e | d in DirectionVectors && e in DirectionVectors && d != e
      ensures DirectionVectors[d] != DirectionVectors[e]
    {
      CodeOfInvertsTable(d);
      CodeOfInvertsTable(e);
    }
  }

  function Abs(x: int): nat {
    if x < 0 then -x else x
  }

  /** Stepping by `delta` from `from` reaches `to` after at least one step (or stays level when `delta` is 0). */
  predicate Ahead(from: int, delta: int, to: int) {
    if delta == 0 then to == from else if delta > 0 then from < to else to < from
  }

  /** Cell (r, c) lies strictly beyond (sr, sc) along the unit step (dr, dc). */
  predicate Beyond(sr: int, sc: int, dr: int, dc: int, r: int, c: int) {
    Ahead(sr, dr, r) && Ahead(sc, dc, c) && (dr == 0 || dc == 0 || Abs(r - sr) == Abs(c - sc))
  }

  /** The coordinate reached from `from` after `k` steps of `delta`. */
  function Advance(from: int, delta: int, k: nat): int {
    from + k * delta
  }

  /** "Strictly beyond" is exactly "reached after one or more steps of the ray walk". */
  lemma BeyondIsWalk(sr: int, sc: int, dr: int, dc: int, r: int, c: int)
    requires IsUnit(dr, dc)
    ensures Beyond(sr, sc, dr, dc, r, c) <==> exists k: nat :: k >= 1 && r == Advance(sr, dr, k) && c == Advance(sc, dc, k)
  {
    if Beyond(sr, sc, dr, dc, r, c) {
      var k: nat := if dr != 0 then Abs(r - sr) else Abs(c - sc);
      StepAt(sr, dr, k);
      StepAt(sc, dc, k);
      assert r == Advance(sr, dr, k) && c == Advance(sc, dc, k);
    }
    if exists k: nat :: k >= 1 && r == Advance(sr, dr, k) && c == Advance(sc, dc, k) {
      var k: nat :| k >= 1 && r == Advance(sr, dr, k) && c == Advance(sc, dc, k);
      StepAt(sr, dr, k);
      StepAt(sc, dc, k);
    }
  }

  /** `k` steps of a unit delta move by exactly `k`, `-k` or nothing. */
  lemma StepAt(from: int, delta: int, k: nat)
    requires -1 <= delta <= 1
    ensures Advance(from, delta, k) == if delta == 1 then from + k else if delta == -1 then from - k else from
  {
    if delta == -1 {
      assert k * delta == -(k as int);
    }
  }

  /** Some star of `g` casts its ray over cell (r, c). */
  ghost predicate Lit(g: seq<seq<Cell>>, dr: int, dc: int, r: int, c: int)
    requires IsBoard(g)
  {
    exists sr, sc :: InBoard(sr, sc) && g[sr][sc] == Star && Beyond(sr, sc, dr, dc, r, c)
  }

  /** The board after every star casts a ray along (dr, dc). */
  ghost function CastRays(g: seq<seq<Cell>>, dr: int, dc: int): (h: seq<seq<Cell>>)
    requires IsBoard(g) && IsUnit(dr, dc)
    ensures IsBoard(h)
    ensures forall r, c :: InBoard(r, c) ==> (h[r][c] == Star <==> g[r][c] == Star)
    ensures forall r, c :: InBoard(r, c) ==>
      (h[r][c] == Circle <==> g[r][c] == Circle || (g[r][c] == Empty && Lit(g, dr, dc, r, c)))
    ensures forall r, c :: InBoard(r, c) ==> (h[r][c] == Empty <==> g[r][c] == Empty && !Lit(g, dr, dc, r, c))
  {
    seq(6, r requires 0 <= r < 6 =>
      seq(6, c requires 0 <= c < 6 =>
        if g[r][c] == Empty && Lit(g, dr, dc, r, c) then Circle else g[r][c]))
  }

  /** Boards with the same stars light the same cells. */
  lemma LitBySameStars(g: seq<seq<Cell>>, h: seq<seq<Cell>>, dr: int, dc: int, r: int, c: int)
    requires IsBoard(g) && IsBoard(h)
    requires forall i, j :: InBoard(i, j) ==> (g[i][j] == Star <==> h[i][j] == Star)
    ensures Lit(g, dr, dc, r, c) <==> Lit(h, dr, dc, r, c)
  {
    if Lit(g, dr, dc, r, c) {
      var sr, sc :| InBoard(sr, sc) && g[sr][sc] == Star && Beyond(sr, sc, dr, dc, r, c);
      assert h[sr][sc] == Star;
    }
    if Lit(h, dr, dc, r, c) {
      var sr, sc :| InBoard(sr, sc) && h[sr][sc] == Star && Beyond(sr, sc, dr, dc, r, c);
      assert g[sr][sc] == Star;
    }
  }

  /** Casting the same rays a second time changes nothing. */
  lemma CastRaysIdempotent(g: seq<seq<Cell>>, dr: int, dc: int)
    requires IsBoard(g) && IsUnit(dr, dc)
    ensures CastRays(CastRays(g, dr, dc), dr, dc) == CastRays(g, dr, dc)
  {
    var h := CastRays(g, dr, dc);
    forall r, c | InBoard(r, c) ensures CastRays(h, dr, dc)[r][c] == h[r][c] {
      LitBySameStars(g, h, dr, dc, r, c);
    }
    BoardsEqual(CastRays(h, dr, dc), h);
  }

  /** Casting rays keeps the number of stars and never adds an empty cell. */
  lemma CastRaysCounts(g: seq<seq<Cell>>, dr: int, dc: int)
    requires IsBoard(g) && IsUnit(dr, dc)
    ensures Count(CastRays(g, dr, dc), Star) == Count(g, Star)
    ensures Count(CastRays(g, dr, dc), Empty) <= Count(g, Empty)
  {
    var h := CastRays(g, dr, dc);
    CountMonotone(g, h, Star);
    CountMonotone(h, g, Star);
    CountMonotone(g, h, Empty);
  }

  /** A lone star in the top-left corner, cast south, claims the rest of column 0 and nothing else. */
  lemma SouthFromCorner()
    ensures var g := SetCell(EmptyBoard(), 0, 0, Star);
      forall r, c :: InBoard(r, c) ==>
        CastRays(g, 1, 0)[r][c] == if c == 0 && r > 0 then Circle else g[r][c]
  {
    var g := SetCell(EmptyBoard(), 0, 0, Star);
    forall r, c | InBoard(r, c)
      ensures CastRays(g, 1, 0)[r][c] == if c == 0 && r > 0 then Circle else g[r][c]
    {
      if c == 0 && r > 0 {
        assert g[0][0] == Star && Beyond(0, 0, 1, 0, r, c);
      } else {
        assert forall sr, sc :: InBoard(sr, sc) && g[sr][sc] == Star ==> sr == 0 && sc == 0;
      }
    }
  }
}
