/** The playfield grid and the collision oracle (`betris_collisionCheck`). */
module Playfield {
  import opened Geometry

  /** The grid, indexed `pf[h][w]`: row `h` from the floor, column `w`. */
  type Grid = seq<seq<Colour>>

  /** The grid has one row per playfield row, visible and buffer, each
      `width` cells wide. */
  predicate GridShape(g: Rules, pf: Grid) {
    |pf| == g.Rows() && forall r :: 0 <= r < |pf| ==> |pf[r]| == g.width
  }

  /** Reference definition of an admissible placement: each of the four
      cells is inside the grid and empty. */
  predicate Admissible(g: Rules, pf: Grid, t: Cells)
    requires GridShape(g, pf)
  {
    forall i :: 0 <= i < 4 ==> g.InField(t[i]) && pf[t[i].h][t[i].w] == Blank
  }

  /** Every cell of the grid is empty. */
  predicate EmptyGrid(g: Rules, pf: Grid)
    requires GridShape(g, pf)
  {
    forall h, w :: 0 <= h < |pf| && 0 <= w < g.width ==> pf[h][w] == Blank
  }

  /** The oracle's first loop, from cell `i` on: a cell whose row or column
      lies outside the grid rejects the placement. */
  function InBoundsFrom(g: Rules, t: Cells, i: nat): (ok: bool)
    requires i <= 4
    ensures ok <==> forall j :: i <= j < 4 ==> g.InField(t[j])
    decreases 4 - i
  {
    if i == 4 then true
    else if t[i].h < 0 || t[i].h >= g.height + g.buffer then false
    else if t[i].w < 0 || t[i].w >= g.width then false
    else InBoundsFrom(g, t, i + 1)
  }

  /** The oracle's second loop, from cell `i` on: an occupied cell rejects
      the placement. It indexes the grid only once every cell is known to be
      inside it. */
  function BlankFrom(g: Rules, pf: Grid, t: Cells, i: nat): (ok: bool)
    requires GridShape(g, pf) && i <= 4
    requires AllInField(g, t)
    ensures ok <==> forall j :: i <= j < 4 ==> pf[t[j].h][t[j].w] == Blank
    decreases 4 - i
  {
    if i == 4 then true
    else if pf[t[i].h][t[i].w] != Blank then false
    else BlankFrom(g, pf, t, i + 1)
  }

  /** `betris_collisionCheck`: true (the C `1`) exactly when the placement is
      admissible. The bounds loop runs to completion before the grid is read. */
  function CollisionCheck(g: Rules, pf: Grid, t: Cells): (ok: bool)
    requires GridShape(g, pf)
    ensures ok <==> Admissible(g, pf, t)
  {
    if !InBoundsFrom(g, t, 0) then false
    else BlankFrom(g, pf, t, 0)
  }

  /** Whatever the grid holds, a cell outside it makes the placement
      inadmissible: with width 10, column 10 is always rejected. */
  lemma OutOfFieldRejected(g: Rules, pf: Grid, t: Cells, i: int)
    requires GridShape(g, pf)
    requires 0 <= i < 4 && !g.InField(t[i])
    ensures !CollisionCheck(g, pf, t)
  {
  }
}
