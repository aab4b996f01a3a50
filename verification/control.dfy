/** The movement and rotation engine: `betris_rotcw`, `betris_rotcntrcw`,
    `betris_leftshift`, `betris_rightshift` and `betris_sdrop`. Each builds
    candidate cells from the falling piece, asks the collision oracle, and
    commits them or reports a collision. */
module Control {
  import opened Geometry
  import opened Playfield
  import opened Board

  /** `betris_rotcw`: add the clockwise deltas of the current rotation state;
      on success the state advances by one, modulo 4. */
  function RotCw(g: Rules, ref: BoardRef): (r: Outcome)
    requires RefWellFormed(g, ref)
    ensures Guarded(ref, r)
    ensures Active(ref) ==>
      var b := ref.board;
      CommitsOrRejects(g, b, AddDeltas(g, b.fpos, b.fcol, b.frot), Mod4(b.frot + 1), r)
    ensures RefWellFormed(g, r.after) && (RefLive(g, ref) ==> RefLive(g, r.after))
  {
    match ref
    case Null => Outcome(NullBoard, Null)
    case Ref(b) =>
      if b.fcol == Blank then Outcome(InactiveTetromino, ref)
      else Attempt(g, b, AddDeltas(g, b.fpos, b.fcol, b.frot), Mod4(b.frot + 1))
  }

  /** `betris_rotcntrcw`: take away the clockwise deltas of the previous
      rotation state; on success the state steps back by one, modulo 4. */
  function RotCcw(g: Rules, ref: BoardRef): (r: Outcome)
    requires RefWellFormed(g, ref)
    ensures Guarded(ref, r)
    ensures Active(ref) ==>
      var b := ref.board;
      CommitsOrRejects(g, b, SubDeltas(g, b.fpos, b.fcol, Mod4(b.frot - 1)), Mod4(b.frot - 1), r)
    ensures RefWellFormed(g, r.after) && (RefLive(g, ref) ==> RefLive(g, r.after))
  {
    match ref
    case Null => Outcome(NullBoard, Null)
    case Ref(b) =>
      if b.fcol == Blank then Outcome(InactiveTetromino, ref)
      else Attempt(g, b, SubDeltas(g, b.fpos, b.fcol, Mod4(b.frot - 1)), Mod4(b.frot - 1))
  }

  /** `betris_leftshift`: every cell one column to the left. */
  function LeftShift(g: Rules, ref: BoardRef): (r: Outcome)
    requires RefWellFormed(g, ref)
    ensures Guarded(ref, r)
    ensures Active(ref) ==>
      var b := ref.board;
      CommitsOrRejects(g, b, Translate(b.fpos, 0, -1), b.frot, r)
    ensures RefWellFormed(g, r.after) && (RefLive(g, ref) ==> RefLive(g, r.after))
  {
    match ref
    case Null => Outcome(NullBoard, Null)
    case Ref(b) =>
      if b.fcol == Blank then Outcome(InactiveTetromino, ref)
      else Attempt(g, b, Translate(b.fpos, 0, -1), b.frot)
  }

  /** `betris_rightshift`: every cell one column to the right. */
  function RightShift(g: Rules, ref: BoardRef): (r: Outcome)
    requires RefWellFormed(g, ref)
    ensures Guarded(ref, r)
    ensures Active(ref) ==>
      var b := ref.board;
      CommitsOrRejects(g, b, Translate(b.fpos, 0, 1), b.frot, r)
    ensures RefWellFormed(g, r.after) && (RefLive(g, ref) ==> RefLive(g, r.after))
  {
    match ref
    case Null => Outcome(NullBoard, Null)
    case Ref(b) =>
      if b.fcol == Blank then Outcome(InactiveTetromino, ref)
      else Attempt(g, b, Translate(b.fpos, 0, 1), b.frot)
  }

  /** `betris_sdrop`: every cell one row down. It only reports a collision;
      locking the piece is left to the caller. */
  function SoftDrop(g: Rules, ref: BoardRef): (r: Outcome)
    requires RefWellFormed(g, ref)
    ensures Guarded(ref, r)
    ensures Active(ref) ==>
      var b := ref.board;
      CommitsOrRejects(g, b, Lower(b.fpos, 1), b.frot, r)
    ensures RefWellFormed(g, r.after) && (RefLive(g, ref) ==> RefLive(g, r.after))
  {
    match ref
    case Null => Outcome(NullBoard, Null)
    case Ref(b) =>
      if b.fcol == Blank then Outcome(InactiveTetromino, ref)
      else Attempt(g, b, Lower(b.fpos, 1), b.frot)
  }

  /** A successful shift or soft drop never merges two cells: the four
      cells stay pairwise distinct when they were before. */
  lemma TranslatingMovesKeepDistinct(g: Rules, b: Board)
    requires WellFormed(g, b) && Distinct(b.fpos)
    ensures LeftShift(g, Ref(b)).status == Success ==> Distinct(LeftShift(g, Ref(b)).after.board.fpos)
    ensures RightShift(g, Ref(b)).status == Success ==> Distinct(RightShift(g, Ref(b)).after.board.fpos)
    ensures SoftDrop(g, Ref(b)).status == Success ==> Distinct(SoftDrop(g, Ref(b)).after.board.fpos)
  {
    TranslateKeepsDistinct(b.fpos, 0, -1);
    TranslateKeepsDistinct(b.fpos, 0, 1);
    TranslateKeepsDistinct(b.fpos, -1, 0);
  }

  /** The player's inputs that reach the engine without locking. */
  datatype Move = RotateCw | RotateCcw | ShiftLeft | ShiftRight | Drop

  function Apply(g: Rules, ref: BoardRef, m: Move): Outcome
    requires RefWellFormed(g, ref)
  {
    match m
    case RotateCw => RotCw(g, ref)
    case RotateCcw => RotCcw(g, ref)
    case ShiftLeft => LeftShift(g, ref)
    case ShiftRight => RightShift(g, ref)
    case Drop => SoftDrop(g, ref)
  }

  /** The board after a sequence of inputs, whatever each one returned. */
  function Run(g: Rules, ref: BoardRef, ms: seq<Move>): BoardRef
    requires RefWellFormed(g, ref)
    decreases |ms|
  {
    if ms == [] then ref
    else
      var next := Apply(g, ref, ms[0]).after;
      assert RefWellFormed(g, next) by { ApplyKeeps(g, ref, ms[0]); }
      Run(g, next, ms[1..])
  }

  /** One input keeps the board well formed and the falling piece live,
      and touches neither the grid, the piece's colour nor the row record. */
  lemma ApplyKeeps(g: Rules, ref: BoardRef, m: Move)
    requires RefWellFormed(g, ref)
    ensures var r := Apply(g, ref, m).after;
      && RefWellFormed(g, r)
      && (RefLive(g, ref) ==> RefLive(g, r))
      && (ref.Null? <==> r.Null?)
      && (ref.Ref? ==> SameSettled(ref.board, r.board))
  {
  }

  /** Everything but the piece's cells and rotation state agrees. */
  predicate SameSettled(a: Board, b: Board) {
    a.pf == b.pf && a.fcol == b.fcol && a.lrowList == b.lrowList && a.lrowUpdated == b.lrowUpdated
  }

  /** Over any sequence of inputs the falling piece stays admissible, the
      grid and row record are untouched, and the piece stays falling: only a
      lock ends it. */
  lemma {:induction false} RunKeepsLive(g: Rules, ref: BoardRef, ms: seq<Move>)
    requires RefWellFormed(g, ref) && RefLive(g, ref)
    ensures var r := Run(g, ref, ms);
      && RefWellFormed(g, r)
      && RefLive(g, r)
      && (ref.Null? <==> r.Null?)
      && (ref.Ref? ==> SameSettled(ref.board, r.board))
    decreases |ms|
  {
    if ms != [] {
      var next := Apply(g, ref, ms[0]).after;
      ApplyKeeps(g, ref, ms[0]);
      RunKeepsLive(g, next, ms[1..]);
    }
  }
}
