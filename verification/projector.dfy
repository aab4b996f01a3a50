/** The drop projector, `betris_calcGhostCoords`: where the falling piece
    comes to rest if it is dropped straight down. */
module Projector {
  import opened Geometry
  import opened Playfield
  import opened Board

  /** The status the projector reports and the contents of its output
      buffer afterwards. */
  datatype Projection = Projection(status: Status, cells: Cells)

  /** `c` is where `t` comes to rest: `t` moved straight down by some
      k >= 0 rows, columns unchanged, every placement on the way down from
      one row below `t` to `c` admissible, and the one below `c` not. */
  predicate RestsAt(g: Rules, pf: Grid, t: Cells, c: Cells)
    requires GridShape(g, pf)
  {
    var k := t[0].h - c[0].h;
    && k >= 0
    && c == Lower(t, k)
    && (forall j :: 0 < j <= k ==> Admissible(g, pf, Lower(t, j)))
    && !Admissible(g, pf, Lower(c, 1))
  }

  /** The do-while loop: step down one row, ask the oracle, and repeat while
      it accepts. The result is the first placement it rejected. Each pass
      lowers the piece, and an accepted piece never sits below row 0, so the
      loop ends. */
  function DropLoop(g: Rules, pf: Grid, t: Cells): (r: Cells)
    requires GridShape(g, pf)
    ensures t[0].h - r[0].h >= 1
    ensures r == Lower(t, t[0].h - r[0].h)
    ensures !Admissible(g, pf, r)
    ensures forall j :: 0 < j < t[0].h - r[0].h ==> Admissible(g, pf, Lower(t, j))
    decreases t[0].h
  {
    var d := Lower(t, 1);
    if CollisionCheck(g, pf, d) then
      assert g.InField(d[0]);
      var r := DropLoop(g, pf, d);
      LowerCompose(t, 1, d[0].h - r[0].h);
      forall j | 1 < j < t[0].h - r[0].h
        ensures Admissible(g, pf, Lower(t, j))
      {
        LowerCompose(t, 1, j - 1);
      }
      r
    else
      d
  }

  /** `betris_calcGhostCoords`, writing into `buf`: the guards leave the
      buffer alone; otherwise it runs the loop from the piece's cells and
      then makes the corrective jump one row back up. */
  function CalcGhostCoords(g: Rules, ref: BoardRef, buf: Cells): (r: Projection)
    requires RefWellFormed(g, ref)
    ensures ref.Null? ==> r == Projection(NullBoard, buf)
    ensures ref.Ref? && ref.board.fcol == Blank ==> r == Projection(InactiveTetromino, buf)
    ensures Active(ref) ==> r.status == Success && RestsAt(g, ref.board.pf, ref.board.fpos, r.cells)
  {
    match ref
    case Null => Projection(NullBoard, buf)
    case Ref(b) =>
      if b.fcol == Blank then Projection(InactiveTetromino, buf)
      else
        var d := DropLoop(g, b.pf, b.fpos);
        var c := Lower(d, -1);
        LowerCompose(b.fpos, b.fpos[0].h - d[0].h, -1);
        LowerCompose(c, 0, 1);
        LowerZero(c);
        LowerCompose(d, -1, 1);
        LowerZero(d);
        Projection(Success, c)
  }

  /** The resting place is unique: any two placements that both satisfy
      `RestsAt` for the same start are equal. Together with
      `CalcGhostCoords`, the projector computes the one resting place. */
  lemma RestsAtUnique(g: Rules, pf: Grid, t: Cells, c1: Cells, c2: Cells)
    requires GridShape(g, pf)
    requires RestsAt(g, pf, t, c1) && RestsAt(g, pf, t, c2)
    ensures c1 == c2
  {
    var k1 := t[0].h - c1[0].h;
    var k2 := t[0].h - c2[0].h;
    LowerCompose(t, k1, 1);
    LowerCompose(t, k2, 1);
  }

  /** A placement `k` rows down from `t` with every step on the way
      admissible and the next one not is exactly what the projector
      returns. */
  lemma GhostIsLowestReachable(g: Rules, b: Board, k: nat)
    requires WellFormed(g, b) && b.fcol != Blank
    requires forall j :: 0 < j <= k ==> Admissible(g, b.pf, Lower(b.fpos, j))
    requires !Admissible(g, b.pf, Lower(b.fpos, k + 1))
    ensures CalcGhostCoords(g, Ref(b), b.fpos).cells == Lower(b.fpos, k)
  {
    var c := Lower(b.fpos, k);
    assert c[0].h == b.fpos[0].h - k;
    LowerCompose(b.fpos, k, 1);
    assert RestsAt(g, b.pf, b.fpos, c);
    RestsAtUnique(g, b.pf, b.fpos, c, CalcGhostCoords(g, Ref(b), b.fpos).cells);
  }

  /** From an admissible start, the resting place is admissible too. */
  lemma RestingPlaceAdmissible(g: Rules, pf: Grid, t: Cells, c: Cells)
    requires GridShape(g, pf)
    requires Admissible(g, pf, t) && RestsAt(g, pf, t, c)
    ensures Admissible(g, pf, c)
  {
    var k := t[0].h - c[0].h;
    if k == 0 {
      LowerZero(t);
    } else {
      assert Admissible(g, pf, Lower(t, k));
    }
  }

  /** A piece that cannot move down at all rests where it is: one step down
      and the corrective jump back cancel out. */
  lemma StuckPieceStays(g: Rules, pf: Grid, t: Cells, c: Cells)
    requires GridShape(g, pf)
    requires !Admissible(g, pf, Lower(t, 1)) && RestsAt(g, pf, t, c)
    ensures c == t
  {
    LowerZero(t);
  }

  /** Projecting again from the resting place goes nowhere. */
  lemma ProjectionIdempotent(g: Rules, b: Board)
    requires WellFormed(g, b) && b.fcol != Blank
    ensures var c := CalcGhostCoords(g, Ref(b), b.fpos).cells;
      CalcGhostCoords(g, Ref(b.(fpos := c)), c).cells == c
  {
    var c := CalcGhostCoords(g, Ref(b), b.fpos).cells;
    var b' := b.(fpos := c);
    StuckPieceStays(g, b.pf, c, CalcGhostCoords(g, Ref(b'), c).cells);
  }

  /** On an empty grid, an admissible piece falls until one of its cells
      reaches the floor, row 0. */
  lemma EmptyGridGhostReachesFloor(g: Rules, b: Board)
    requires WellFormed(g, b) && b.fcol != Blank
    requires EmptyGrid(g, b.pf) && Admissible(g, b.pf, b.fpos)
    ensures var c := CalcGhostCoords(g, Ref(b), b.fpos).cells;
      && (forall i :: 0 <= i < 4 ==> c[i].h >= 0)
      && (exists i :: 0 <= i < 4 && c[i].h == 0)
  {
    var c := CalcGhostCoords(g, Ref(b), b.fpos).cells;
    RestingPlaceAdmissible(g, b.pf, b.fpos, c);
    var d := Lower(c, 1);
    assert !Admissible(g, b.pf, d);
    var i :| 0 <= i < 4 && !(g.InField(d[i]) && b.pf[d[i].h][d[i].w] == Blank);
    assert d[i] == Coord(c[i].h - 1, c[i].w);
    assert g.InField(c[i]);
    assert c[i].h == 0;
  }
}
