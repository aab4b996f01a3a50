/** The lock controller, `betris_lockTetromino`, and the locking hard drop,
    `betris_hdrop`. */
module Lock {
  import opened Geometry
  import opened Playfield
  import opened Board
  import opened Projector

  /** One grid write, `pf[c.h][c.w] = col`. */
  function Paint(pf: Grid, c: Coord, col: Colour): Grid
    requires 0 <= c.h < |pf| && 0 <= c.w < |pf[c.h]|
  {
    pf[c.h := pf[c.h][c.w := col]]
  }

  /** The lock loop's grid writes for cells `i..3`, in order. A cell gets
      `col` exactly when it is one of those cells; every other cell keeps
      its content. */
  function PaintFrom(g: Rules, pf: Grid, t: Cells, col: Colour, i: nat): (r: Grid)
    requires GridShape(g, pf) && i <= 4 && AllInField(g, t)
    ensures GridShape(g, r)
    ensures forall h, w :: 0 <= h < |r| && 0 <= w < |r[h]| ==>
      r[h][w] == if Coord(h, w) in t[i..] then col else pf[h][w]
    decreases 4 - i
  {
    if i == 4 then pf
    else
      var r := PaintFrom(g, Paint(pf, t[i], col), t, col, i + 1);
      assert t[i..] == [t[i]] + t[i + 1..];
      r
  }

  /** `r` is `b` with its piece locked: the piece's colour written into
      exactly its four cells and nowhere else, each cell's row recorded in
      the same slot (duplicates kept), the row record marked pending, and
      the piece made inactive while its cells and rotation state stay. */
  predicate LocksPiece(g: Rules, b: Board, r: Board) {
    && GridShape(g, b.pf) && GridShape(g, r.pf)
    && r.fpos == b.fpos && r.frot == b.frot
    && r.fcol == Blank && r.lrowUpdated
    && |r.lrowList| == 4 && (forall i :: 0 <= i < 4 ==> r.lrowList[i] == b.fpos[i].h)
    && (forall h, w :: 0 <= h < |r.pf| && 0 <= w < g.width ==>
         r.pf[h][w] == if Coord(h, w) in b.fpos then b.fcol else b.pf[h][w])
  }

  /** `betris_lockTetromino`. While the previous lock's rows are still
      pending it changes nothing. The grid is written only when the lock
      goes ahead, so only then must the piece lie inside it. */
  function LockTetromino(g: Rules, b: Board): (r: Board)
    requires WellFormed(g, b)
    requires !b.lrowUpdated ==> AllInField(g, b.fpos)
    ensures WellFormed(g, r)
    ensures b.lrowUpdated ==> r == b
    ensures !b.lrowUpdated ==> LocksPiece(g, b, r)
  {
    if b.lrowUpdated then b
    else
      b.(pf := PaintFrom(g, b.pf, b.fpos, b.fcol, 0),
         lrowList := [b.fpos[0].h, b.fpos[1].h, b.fpos[2].h, b.fpos[3].h],
         fcol := Blank,
         lrowUpdated := true)
  }

  /** A second lock before the row record is consumed changes nothing: the
      grid is as after the first lock. */
  lemma LockTwice(g: Rules, b: Board)
    requires WellFormed(g, b)
    requires !b.lrowUpdated ==> AllInField(g, b.fpos)
    ensures LockTetromino(g, LockTetromino(g, b)) == LockTetromino(g, b)
  {
  }

  /** The placement the hard drop writes into `fpos` before locking: the
      projector's output buffer is `fpos` itself. */
  function DropTarget(g: Rules, b: Board): Cells
    requires WellFormed(g, b)
  {
    CalcGhostCoords(g, Ref(b), b.fpos).cells
  }

  /** `betris_hdrop` dereferences its board without checking it, and locking
      writes the grid at the dropped cells unless rows are pending: those
      cells must then lie inside the grid. */
  predicate HardDropDefined(g: Rules, b: Board)
    requires WellFormed(g, b)
  {
    !b.lrowUpdated ==> AllInField(g, DropTarget(g, b))
  }

  /** A board whose falling piece is live always satisfies what the hard
      drop needs. */
  lemma LiveHardDropDefined(g: Rules, b: Board)
    requires WellFormed(g, b) && Live(g, b) && b.fcol != Blank
    ensures HardDropDefined(g, b)
  {
    RestingPlaceAdmissible(g, b.pf, b.fpos, DropTarget(g, b));
  }

  /** `betris_hdrop`: project into `fpos`, then lock; it always reports
      success. With a falling piece the piece lands on its resting place and
      is locked there. While rows are pending the lock refuses, so the piece
      is only moved. Without a falling piece the projector leaves `fpos`
      alone and the lock still runs, writing `Blank` over the stale cells. */
  function HardDrop(g: Rules, b: Board): (r: Outcome)
    requires WellFormed(g, b) && HardDropDefined(g, b)
    ensures r.status == Success && r.after.Ref? && WellFormed(g, r.after.board)
    ensures b.fcol != Blank ==> RestsAt(g, b.pf, b.fpos, r.after.board.fpos)
    ensures b.fcol == Blank ==> r.after.board.fpos == b.fpos
    ensures b.lrowUpdated ==> r.after.board == b.(fpos := r.after.board.fpos)
    ensures !b.lrowUpdated ==> LocksPiece(g, b.(fpos := r.after.board.fpos), r.after.board)
    ensures Live(g, b) ==> Live(g, r.after.board)
  {
    var dropped := b.(fpos := DropTarget(g, b));
    var r := Outcome(Success, Ref(LockTetromino(g, dropped)));
    assert Live(g, b) && b.fcol != Blank ==> Admissible(g, b.pf, dropped.fpos) by {
      if Live(g, b) && b.fcol != Blank {
        RestingPlaceAdmissible(g, b.pf, b.fpos, dropped.fpos);
      }
    }
    r
  }
}
