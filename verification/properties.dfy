/** Properties that relate several engine operations: rotations and shifts
    undo each other, and the wall, floor and stack scenarios behave as a
    player expects. */
module Properties {
  import opened Geometry
  import opened Playfield
  import opened Board
  import opened Control
  import opened Projector
  import opened Lock

  /** A board with a live falling piece. */
  predicate Playing(g: Rules, b: Board) {
    WellFormed(g, b) && Active(Ref(b)) && Live(g, b)
  }

  /** A clockwise rotation that succeeded is undone by a counter-clockwise
      one, which is then certain to succeed: cells and rotation state are
      back where they started. */
  lemma RotCwThenCcw(g: Rules, b: Board)
    requires Playing(g, b)
    requires RotCw(g, Ref(b)).status == Success
    ensures var b1 := RotCw(g, Ref(b)).after;
      RefWellFormed(g, b1) && RotCcw(g, b1) == Outcome(Success, Ref(b))
  {
    var b1 := RotCw(g, Ref(b)).after.board;
    assert b1 == b.(fpos := AddDeltas(g, b.fpos, b.fcol, b.frot), frot := Mod4(b.frot + 1));
    Mod4StepInverse(b.frot);
    DeltasCancel(g, b.fpos, b.fcol, b.frot);
    assert b1.(fpos := b.fpos, frot := b.frot) == b;
  }

  /** A counter-clockwise rotation that succeeded is undone by a clockwise
      one, which is then certain to succeed. */
  lemma RotCcwThenCw(g: Rules, b: Board)
    requires Playing(g, b)
    requires RotCcw(g, Ref(b)).status == Success
    ensures var b1 := RotCcw(g, Ref(b)).after;
      RefWellFormed(g, b1) && RotCw(g, b1) == Outcome(Success, Ref(b))
  {
    var prev := Mod4(b.frot - 1);
    var b1 := RotCcw(g, Ref(b)).after.board;
    assert b1 == b.(fpos := SubDeltas(g, b.fpos, b.fcol, prev), frot := prev);
    Mod4StepInverse(b.frot);
    DeltasCancel(g, b.fpos, b.fcol, prev);
    assert b1.(fpos := b.fpos, frot := b.frot) == b;
  }

  /** A left shift that succeeded is undone by a right shift, and the other
      way round. */
  lemma ShiftsUndoEachOther(g: Rules, b: Board)
    requires Playing(g, b)
    ensures LeftShift(g, Ref(b)).status == Success ==>
      RightShift(g, LeftShift(g, Ref(b)).after) == Outcome(Success, Ref(b))
    ensures RightShift(g, Ref(b)).status == Success ==>
      LeftShift(g, RightShift(g, Ref(b)).after) == Outcome(Success, Ref(b))
  {
    TranslateCompose(b.fpos, 0, -1, 0, 1);
    TranslateCompose(b.fpos, 0, 1, 0, -1);
    assert Translate(b.fpos, 0, 0) == Lower(b.fpos, 0);
    LowerZero(b.fpos);
  }

  /** On an empty grid, shifting left from an admissible placement collides
      exactly when the piece already touches the left wall. */
  lemma EmptyGridLeftWall(g: Rules, b: Board)
    requires Playing(g, b) && EmptyGrid(g, b.pf)
    ensures LeftShift(g, Ref(b)).status == Collision <==> exists i :: 0 <= i < 4 && b.fpos[i].w == 0
  {
    var cand := Translate(b.fpos, 0, -1);
    if exists i :: 0 <= i < 4 && b.fpos[i].w == 0 {
      var i :| 0 <= i < 4 && b.fpos[i].w == 0;
      assert !g.InField(cand[i]);
    } else {
      forall i | 0 <= i < 4
        ensures g.InField(cand[i]) && b.pf[cand[i].h][cand[i].w] == Blank
      {
        assert g.InField(b.fpos[i]);
      }
    }
  }

  /** A piece resting directly on settled cells cannot soft drop: the drop
      reports a collision and the board is unchanged. */
  lemma SoftDropOntoStack(g: Rules, b: Board, i: int)
    requires WellFormed(g, b) && b.fcol != Blank
    requires 0 <= i < 4 && b.fpos[i].h >= 1 && g.InField(b.fpos[i])
    requires b.pf[b.fpos[i].h - 1][b.fpos[i].w] != Blank
    ensures SoftDrop(g, Ref(b)) == Outcome(Collision, Ref(b))
  {
    assert Lower(b.fpos, 1)[i] == Coord(b.fpos[i].h - 1, b.fpos[i].w);
  }

  /** A hard drop onto an empty grid with no rows pending locks the piece
      with one of its cells on the floor, and records that row. */
  lemma HardDropOntoEmptyGrid(g: Rules, b: Board)
    requires Playing(g, b) && EmptyGrid(g, b.pf) && !b.lrowUpdated
    ensures HardDropDefined(g, b)
    ensures var a := HardDrop(g, b).after.board;
      && a.fcol == Blank && a.lrowUpdated
      && (exists i :: 0 <= i < 4 && a.fpos[i].h == 0 && a.lrowList[i] == 0 && a.pf[0][a.fpos[i].w] == b.fcol)
  {
    LiveHardDropDefined(g, b);
    EmptyGridGhostReachesFloor(g, b);
    var a := HardDrop(g, b).after.board;
    assert a.fpos == DropTarget(g, b);
    var i :| 0 <= i < 4 && a.fpos[i].h == 0;
    assert g.InField(a.fpos[i]) by {
      RestingPlaceAdmissible(g, b.pf, b.fpos, a.fpos);
    }
    assert Coord(0, a.fpos[i].w) in a.fpos;
  }
}
