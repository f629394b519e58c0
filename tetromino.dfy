/** Tetromino geometry: the constant rotation table, the piece value the operations are
    specified on, and the in-place `Tetromino` object whose methods are proved against it. */
module Tetrominoes {
  import opened Constants

  /** A board coordinate or an offset (glm::ivec2); y grows downward. */
  datatype Point = Point(x: int, y: int) {
    function Plus(d: Point): Point {
      Point(x + d.x, y + d.y)
    }
  }

  /** The six shapes of this snapshot, in the order of their enumerator values 0..5. */
  datatype TetrominoType = Line | L | ReverseL | Stair | ReverseStair | Block

  /** Lifecycle of a piece. The field is not declared in Tetromino.h; Game.cpp reads it
      through get_state(), so it is modelled as an assumption. */
  datatype TetrominoState = Moving | Landed

  function TypeIndex(t: TetrominoType): int {
    match t
    case Line => 0
    case L => 1
    case ReverseL => 2
    case Stair => 3
    case ReverseStair => 4
    case Block => 5
  }

  /** The enumerator a `static_cast<TetrominoType>(n)` yields for an index in 0..5. */
  function TypeFromIndex(n: int): (t: TetrominoType)
    requires 0 <= n <= 5
    ensures TypeIndex(t) == n
  {
    if n == 0 then Line
    else if n == 1 then L
    else if n == 2 then ReverseL
    else if n == 3 then Stair
    else if n == 4 then ReverseStair
    else Block
  }

  /** The precomputed rotation table: four layouts per type, each the four cells of the
      piece relative to the top-left corner of its 4x4 box. */
  function Rotations(t: TetrominoType): seq<seq<Point>> {
    match t
    case Line => [
      [Point(0, 1), Point(1, 1), Point(2, 1), Point(3, 1)],
      [Point(2, 0), Point(2, 1), Point(2, 2), Point(2, 3)],
      [Point(0, 1), Point(1, 1), Point(2, 1), Point(3, 1)],
      [Point(2, 0), Point(2, 1), Point(2, 2), Point(2, 3)]]
    case L => [
      [Point(0, 1), Point(1, 1), Point(2, 1), Point(0, 2)],
      [Point(0, 0), Point(1, 0), Point(1, 1), Point(1, 2)],
      [Point(2, 0), Point(0, 1), Point(1, 1), Point(2, 1)],
      [Point(1, 0), Point(1, 1), Point(1, 2), Point(2, 2)]]
    case ReverseL => [
      [Point(0, 0), Point(0, 1), Point(1, 1), Point(2, 1)],
      [Point(1, 0), Point(2, 0), Point(1, 1), Point(1, 2)],
      [Point(0, 1), Point(1, 1), Point(2, 1), Point(2, 2)],
      [Point(1, 0), Point(1, 1), Point(1, 2), Point(0, 2)]]
    case Stair => [
      [Point(0, 1), Point(1, 1), Point(1, 2), Point(2, 2)],
      [Point(2, 0), Point(2, 1), Point(1, 1), Point(1, 2)],
      [Point(0, 1), Point(1, 1), Point(1, 2), Point(2, 2)],
      [Point(2, 0), Point(2, 1), Point(1, 1), Point(1, 2)]]
    case ReverseStair => [
      [Point(0, 2), Point(1, 1), Point(1, 2), Point(2, 1)],
      [Point(1, 0), Point(1, 1), Point(2, 1), Point(2, 2)],
      [Point(0, 2), Point(1, 1), Point(1, 2), Point(2, 1)],
      [Point(1, 0), Point(1, 1), Point(2, 1), Point(2, 2)]]
    case Block => [
      [Point(1, 1), Point(2, 1), Point(1, 2), Point(2, 2)],
      [Point(1, 1), Point(2, 1), Point(1, 2), Point(2, 2)],
      [Point(1, 1), Point(2, 1), Point(1, 2), Point(2, 2)],
      [Point(1, 1), Point(2, 1), Point(1, 2), Point(2, 2)]]
  }

  /** The layout of type `t` in rotation state `r`. */
  function Layout(t: TetrominoType, r: int): seq<Point>
    requires 0 <= r < 4
  {
    Rotations(t)[r]
  }

  predicate InBox(c: Point) {
    0 <= c.x <= 3 && 0 <= c.y <= 3
  }

  predicate Distinct(cells: seq<Point>) {
    forall i, j :: 0 <= i < j < |cells| ==> cells[i] != cells[j]
  }

  /** Every cell lies on the GAME_WIDTH x GAME_HEIGHT board. */
  predicate OnBoard(cells: seq<Point>) {
    forall i :: 0 <= i < |cells| ==> 0 <= cells[i].x < GameWidth && 0 <= cells[i].y < GameHeight
  }

  /** Every layout is four cells inside the 4x4 box, reaches column 2 or further left (used to
      bound the anchor when a piece is pushed against the left wall), and has a cell in the top
      two rows of its box. */
  lemma LayoutInBox(t: TetrominoType, r: int)
    requires 0 <= r < 4
    ensures |Layout(t, r)| == BlocksInTetromino
    ensures forall i :: 0 <= i < |Layout(t, r)| ==> InBox(Layout(t, r)[i])
    ensures Layout(t, r)[0].x <= 2
    ensures exists i :: 0 <= i < |Layout(t, r)| && Layout(t, r)[i].y <= 1
  {
    assert Layout(t, r)[1].y <= 1;
  }

  /** The four cells of every layout are pairwise distinct. */
  lemma LayoutDistinct(t: TetrominoType, r: int)
    requires 0 <= r < 4
    ensures Distinct(Layout(t, r))
  {
    var cells := Layout(t, r);
    assert cells[0] != cells[1] && cells[0] != cells[2] && cells[0] != cells[3];
    assert cells[1] != cells[2] && cells[1] != cells[3] && cells[2] != cells[3];
  }

  /** LINE, STAIR and REVERSE_STAIR repeat two layouts; BLOCK has a single layout four times. */
  lemma LayoutPeriods(t: TetrominoType)
    ensures t in {Line, Stair, ReverseStair} ==> Layout(t, 2) == Layout(t, 0) && Layout(t, 3) == Layout(t, 1)
    ensures t == Block ==> forall r :: 0 <= r < 4 ==> Layout(t, r) == Layout(t, 0)
  {
  }

  /** `cells`, each shifted by `d`. */
  function Shifted(cells: seq<Point>, d: Point): (r: seq<Point>)
    ensures |r| == |cells|
    ensures forall i :: 0 <= i < |cells| ==> r[i] == cells[i].Plus(d)
  {
    seq(|cells|, i requires 0 <= i < |cells| => cells[i].Plus(d))
  }

  lemma ShiftedTwice(cells: seq<Point>, d: Point, e: Point)
    ensures Shifted(Shifted(cells, d), e) == Shifted(cells, d.Plus(e))
  {
    assert forall i :: 0 <= i < |cells| ==> Shifted(Shifted(cells, d), e)[i] == Shifted(cells, d.Plus(e))[i];
  }

  /** The state of one tetromino: its type, rotation state, the top-left corner of its 4x4 box,
      its four cells on the board, and whether it has landed. */
  datatype Piece = Piece(kind: TetrominoType, rotation: int, topLeft: Point, blocks: seq<Point>, state: TetrominoState)

  /** The piece with its anchor and every cell moved by `d`. */
  function Moved(p: Piece, d: Point): Piece {
    p.(topLeft := p.topLeft.Plus(d), blocks := Shifted(p.blocks, d))
  }

  lemma MovedByZero(p: Piece)
    ensures Moved(p, Point(0, 0)) == p
  {
    assert Shifted(p.blocks, Point(0, 0)) == p.blocks;
  }

  lemma MovedTwice(p: Piece, d: Point, e: Point)
    ensures Moved(Moved(p, d), e) == Moved(p, d.Plus(e))
  {
    ShiftedTwice(p.blocks, d, e);
  }

  /** The object invariant: a valid rotation state, the cells equal to the layout of that state
      placed at the anchor, and the anchor inside the range that the moves can reach. */
  predicate WellFormed(p: Piece) {
    0 <= p.rotation < 4 &&
    p.blocks == Shifted(Layout(p.kind, p.rotation), p.topLeft) &&
    -2 <= p.topLeft.x <= GameWidth - 1 &&
    0 <= p.topLeft.y <= GameHeight - 1
  }

  /** The cells of a well-formed piece lie in its 4x4 box; in particular every coordinate
      fits in a 32-bit `int`. */
  lemma CellsNearAnchor(p: Piece)
    requires WellFormed(p)
    ensures |p.blocks| == BlocksInTetromino
    ensures forall i :: 0 <= i < |p.blocks| ==>
      p.topLeft.x <= p.blocks[i].x <= p.topLeft.x + 3 && p.topLeft.y <= p.blocks[i].y <= p.topLeft.y + 3
    ensures p.blocks[0].x <= p.topLeft.x + 2
    ensures exists i :: 0 <= i < |p.blocks| && p.blocks[i].y <= p.topLeft.y + 1
  {
    LayoutInBox(p.kind, p.rotation);
    var layout := Layout(p.kind, p.rotation);
    var i :| 0 <= i < |layout| && layout[i].y <= 1;
    assert p.blocks[i].y <= p.topLeft.y + 1;
  }

  /** A freshly constructed piece: rotation state 0, anchor (GAME_WIDTH / 2, 0). */
  function Spawn(t: TetrominoType): (p: Piece)
    ensures WellFormed(p) && p.kind == t && p.state == Moving
    ensures p.rotation == 0 && p.topLeft == Point(5, 0)
    ensures OnBoard(p.blocks)
  {
    var anchor := Point(GameWidth / 2, 0);
    var p := Piece(t, 0, anchor, Shifted(Layout(t, 0), anchor), Moving);
    CellsNearAnchor(p);
    p
  }

  /** The wall checks of the three translations. The right and down checks compare a signed
      coordinate against an `unsigned int` constant, so a negative coordinate reads as huge. */
  predicate BlockedLeft(cells: seq<Point>) {
    exists i :: 0 <= i < |cells| && cells[i].x < 1
  }

  predicate BlockedRight(cells: seq<Point>) {
    exists i :: 0 <= i < |cells| && AsUnsigned(cells[i].x) > GameWidth - 2
  }

  predicate BlockedDown(cells: seq<Point>) {
    exists i :: 0 <= i < |cells| && AsUnsigned(cells[i].y) > GameHeight - 2
  }

  /** translate_left: all cells and the anchor move one column left, or nothing changes. */
  function TranslatedLeft(p: Piece): (r: Piece)
    ensures r.kind == p.kind && r.rotation == p.rotation && r.state == p.state
    ensures BlockedLeft(p.blocks) ==> r == p
    ensures !BlockedLeft(p.blocks) ==>
      r.topLeft == Point(p.topLeft.x - 1, p.topLeft.y) && |r.blocks| == |p.blocks| &&
      forall i :: 0 <= i < |p.blocks| ==>
        r.blocks[i] == Point(p.blocks[i].x - 1, p.blocks[i].y) && r.blocks[i].x >= 0
  {
    if BlockedLeft(p.blocks) then p else Moved(p, Point(-1, 0))
  }

  /** translate_right: all cells and the anchor move one column right, or nothing changes. */
  function TranslatedRight(p: Piece): (r: Piece)
    ensures r.kind == p.kind && r.rotation == p.rotation && r.state == p.state
    ensures BlockedRight(p.blocks) ==> r == p
    ensures !BlockedRight(p.blocks) ==>
      r.topLeft == Point(p.topLeft.x + 1, p.topLeft.y) && |r.blocks| == |p.blocks| &&
      forall i :: 0 <= i < |p.blocks| ==> r.blocks[i] == Point(p.blocks[i].x + 1, p.blocks[i].y)
  {
    if BlockedRight(p.blocks) then p else Moved(p, Point(1, 0))
  }

  /** translate_down: all cells and the anchor move one row down; when the floor check refuses,
      the piece is marked LANDED instead (an assumption: translate_down as written never sets
      LANDED). */
  function TranslatedDown(p: Piece): (r: Piece)
    ensures r.kind == p.kind && r.rotation == p.rotation
    ensures BlockedDown(p.blocks) ==> r == p.(state := Landed)
    ensures !BlockedDown(p.blocks) ==>
      r.state == p.state && r.topLeft == Point(p.topLeft.x, p.topLeft.y + 1) && |r.blocks| == |p.blocks| &&
      forall i :: 0 <= i < |p.blocks| ==> r.blocks[i] == Point(p.blocks[i].x, p.blocks[i].y + 1)
  {
    if BlockedDown(p.blocks) then p.(state := Landed) else Moved(p, Point(0, 1))
  }

  /** Every translation keeps the object invariant. */
  lemma TranslationsPreserveWellFormed(p: Piece)
    requires WellFormed(p)
    ensures WellFormed(TranslatedLeft(p))
    ensures WellFormed(TranslatedRight(p))
    ensures WellFormed(TranslatedDown(p))
  {
    CellsNearAnchor(p);
    var layout := Layout(p.kind, p.rotation);
    if !BlockedLeft(p.blocks) {
      ShiftedTwice(layout, p.topLeft, Point(-1, 0));
    }
    if !BlockedRight(p.blocks) {
      ShiftedTwice(layout, p.topLeft, Point(1, 0));
      assert AsUnsigned(p.blocks[0].x) <= GameWidth - 2;
    }
    if !BlockedDown(p.blocks) {
      ShiftedTwice(layout, p.topLeft, Point(0, 1));
      assert AsUnsigned(p.blocks[0].y) <= GameHeight - 2;
    }
  }

  /** translate_right moves a well-formed piece exactly when every cell is in columns
      0..GAME_WIDTH-2: besides the wall, any cell left of the board blocks it, because the
      comparison against the unsigned constant reads a negative column as huge. */
  lemma TranslatedRightMovesIff(p: Piece)
    requires WellFormed(p)
    ensures TranslatedRight(p) != p <==>
      forall i :: 0 <= i < |p.blocks| ==> 0 <= p.blocks[i].x <= GameWidth - 2
  {
    CellsNearAnchor(p);
    if TranslatedRight(p) != p {
      forall i | 0 <= i < |p.blocks| ensures 0 <= p.blocks[i].x <= GameWidth - 2 {
        assert AsUnsigned(p.blocks[i].x) <= GameWidth - 2;
      }
    } else {
      assert BlockedRight(p.blocks);
    }
  }

  /** translate_down moves a well-formed piece exactly when every cell is in rows
      0..GAME_HEIGHT-2; otherwise it lands where it is. */
  lemma TranslatedDownMovesIff(p: Piece)
    requires WellFormed(p)
    ensures TranslatedDown(p).blocks != p.blocks <==>
      forall i :: 0 <= i < |p.blocks| ==> p.blocks[i].y <= GameHeight - 2
    ensures p.state == Moving ==> (TranslatedDown(p).blocks == p.blocks <==> TranslatedDown(p).state == Landed)
  {
    CellsNearAnchor(p);
    if BlockedDown(p.blocks) {
      var i :| 0 <= i < |p.blocks| && AsUnsigned(p.blocks[i].y) > GameHeight - 2;
      assert p.blocks[i].y > GameHeight - 2;
    } else {
      assert TranslatedDown(p).blocks[0] != p.blocks[0];
      forall i | 0 <= i < |p.blocks| ensures p.blocks[i].y <= GameHeight - 2 {
        assert AsUnsigned(p.blocks[i].y) <= GameHeight - 2;
      }
    }
  }

  /** The rotation state after rotate_right (+1 mod 4) and after rotate_left (-1 mod 4). */
  function NextRotation(r: int): int {
    if r < 3 then r + 1 else 0
  }

  function PreviousRotation(r: int): int {
    if r > 0 then r - 1 else 3
  }

  /** The two rotation-state updates stay in 0..3, undo each other, and four right
      rotations return to the start. */
  lemma RotationStatesCycle(r: int)
    requires 0 <= r < 4
    ensures 0 <= NextRotation(r) < 4 && 0 <= PreviousRotation(r) < 4
    ensures PreviousRotation(NextRotation(r)) == r && NextRotation(PreviousRotation(r)) == r
    ensures NextRotation(NextRotation(NextRotation(NextRotation(r)))) == r
  {
  }

  /** The piece with rotation state `r` and its cells re-derived from the table and the anchor,
      before any wall kick. */
  function Rederived(p: Piece, r: int): Piece
    requires 0 <= r < 4
  {
    p.(rotation := r, blocks := Shifted(Layout(p.kind, r), p.topLeft))
  }

  /** The wall kick: for each cell of the un-kicked layout `probe`, in order, one translate_right
      if it is left of the board, else one translate_left if it is right of the board (that
      second comparison is again against an unsigned constant). */
  function Kicked(p: Piece, probe: seq<Point>): (r: Piece)
    ensures r.kind == p.kind && r.rotation == p.rotation && r.state == p.state
    ensures |r.blocks| == |p.blocks|
    decreases |probe|
  {
    if probe == [] then p else Kicked(KickedOnce(p, probe[0]), probe[1..])
  }

  /** One step of the kick: a probe cell left of the board moves the piece right, one right of
      it (as an unsigned comparison) moves it left. */
  function KickedOnce(p: Piece, cell: Point): Piece
  {
    if cell.x < 0 then TranslatedRight(p)
    else if AsUnsigned(cell.x) > GameWidth - 1 then TranslatedLeft(p)
    else p
  }

  /** Rotating to state `r`: re-derive the cells, then kick against the un-kicked cells. */
  function RotatedTo(p: Piece, r: int): Piece
    requires 0 <= r < 4
  {
    var q := Rederived(p, r);
    Kicked(q, q.blocks)
  }

  /** rotate_right and rotate_left. Neither checks the floor nor collisions. */
  function RotatedRight(p: Piece): (r: Piece)
    requires 0 <= p.rotation < 4
    ensures r.kind == p.kind && r.state == p.state && r.rotation == NextRotation(p.rotation)
  {
    RotatedTo(p, NextRotation(p.rotation))
  }

  function RotatedLeft(p: Piece): (r: Piece)
    requires 0 <= p.rotation < 4
    ensures r.kind == p.kind && r.state == p.state && r.rotation == PreviousRotation(p.rotation)
  {
    RotatedTo(p, PreviousRotation(p.rotation))
  }

  lemma {:induction false} KickedPreservesWellFormed(p: Piece, probe: seq<Point>)
    requires WellFormed(p)
    ensures WellFormed(Kicked(p, probe))
    decreases |probe|
  {
    if probe != [] {
      TranslationsPreserveWellFormed(p);
      KickedPreservesWellFormed(KickedOnce(p, probe[0]), probe[1..]);
    }
  }

  /** Both rotations keep the object invariant: the kick only translates, and translations
      keep the cells equal to the new layout placed at the moved anchor. */
  lemma RotationsPreserveWellFormed(p: Piece)
    requires WellFormed(p)
    ensures WellFormed(RotatedRight(p)) && WellFormed(RotatedLeft(p))
  {
    KickedPreservesWellFormed(Rederived(p, NextRotation(p.rotation)), Rederived(p, NextRotation(p.rotation)).blocks);
    KickedPreservesWellFormed(Rederived(p, PreviousRotation(p.rotation)), Rederived(p, PreviousRotation(p.rotation)).blocks);
  }

  /** A kick whose probe cells are all on the board in x does nothing. */
  lemma {:induction false} KickIdleWithinWalls(q: Piece, probe: seq<Point>)
    requires forall i :: 0 <= i < |probe| ==> 0 <= probe[i].x < GameWidth
    ensures Kicked(q, probe) == q
    decreases |probe|
  {
    if probe != [] {
      KickIdleWithinWalls(q, probe[1..]);
    }
  }

  /** Number of probe cells right of the board. */
  function CountRightOverhang(probe: seq<Point>): (n: nat)
    ensures n <= |probe|
  {
    if probe == [] then 0
    else (if probe[0].x > GameWidth - 1 then 1 else 0) + CountRightOverhang(probe[1..])
  }

  /** On the right wall the kick shifts the piece one column left per overhanging CELL, not per
      overhanging column, so it can shift further than needed. */
  lemma {:induction false} KickShiftsLeftPerOverhangingCell(q: Piece, probe: seq<Point>)
    requires forall i :: 0 <= i < |probe| ==> 0 <= probe[i].x < TwoTo32
    requires forall i :: 0 <= i < |q.blocks| ==> q.blocks[i].x >= CountRightOverhang(probe)
    ensures Kicked(q, probe) == Moved(q, Point(-(CountRightOverhang(probe) as int), 0))
    decreases |probe|
  {
    if probe == [] {
      assert Shifted(q.blocks, Point(0, 0)) == q.blocks;
    } else {
      var rest := probe[1..];
      if probe[0].x > GameWidth - 1 {
        var next := TranslatedLeft(q);
        assert !BlockedLeft(q.blocks);
        assert next == Moved(q, Point(-1, 0));
        KickShiftsLeftPerOverhangingCell(next, rest);
        MovedTwice(q, Point(-1, 0), Point(-(CountRightOverhang(rest) as int), 0));
      } else {
        KickShiftsLeftPerOverhangingCell(q, rest);
      }
    }
  }

  /** No probe cell right of the board: nothing to count. */
  lemma {:induction false} CountRightOverhangZero(probe: seq<Point>)
    requires forall i :: 0 <= i < |probe| ==> probe[i].x <= GameWidth - 1
    ensures CountRightOverhang(probe) == 0
  {
    if probe != [] {
      CountRightOverhangZero(probe[1..]);
    }
  }

  /** On the left wall the kick never moves the piece: each translate_right it issues is
      refused while some cell is left of the board (negative column read as unsigned). */
  lemma {:induction false} KickRefusedWhileLeftOverhang(q: Piece, probe: seq<Point>, j: int)
    requires 0 <= j < |q.blocks| && -0x8000_0000 <= q.blocks[j].x < 0
    ensures Kicked(q, probe) == q
    decreases |probe|
  {
    if probe != [] {
      assert BlockedRight(q.blocks) by {
        assert AsUnsigned(q.blocks[j].x) > GameWidth - 2;
      }
      assert BlockedLeft(q.blocks);
      KickRefusedWhileLeftOverhang(q, probe[1..], j);
    }
  }

  /** For a well-formed piece with no cell left of the board, every cell is at least as far
      right as the number of cells right of the board: with a cell past the right wall the
      anchor is in column 7 or further right, and otherwise there is nothing to count. */
  lemma CellsClearOfOverhang(q: Piece)
    requires WellFormed(q)
    requires forall i :: 0 <= i < |q.blocks| ==> q.blocks[i].x >= 0
    ensures forall i :: 0 <= i < |q.blocks| ==> q.blocks[i].x >= CountRightOverhang(q.blocks)
  {
    CellsNearAnchor(q);
    if exists i :: 0 <= i < |q.blocks| && q.blocks[i].x > GameWidth - 1 {
      var j :| 0 <= j < |q.blocks| && q.blocks[j].x > GameWidth - 1;
      assert q.topLeft.x >= GameWidth - 3;
    } else {
      CountRightOverhangZero(q.blocks);
    }
  }

  /** A well-formed piece with a cell left of the board is not moved by a kick against its own
      cells. */
  lemma KickedInPlaceWhenLeftOverhang(q: Piece, j: int)
    requires WellFormed(q) && 0 <= j < |q.blocks| && q.blocks[j].x < 0
    ensures Kicked(q, q.blocks) == q
  {
    CellsNearAnchor(q);
    KickRefusedWhileLeftOverhang(q, q.blocks, j);
  }

  /** A well-formed piece with no cell left of the board is moved, by a kick against its own
      cells, one column left per cell right of the board. */
  lemma KickedLeftPerRightOverhang(q: Piece)
    requires WellFormed(q)
    requires forall i :: 0 <= i < |q.blocks| ==> q.blocks[i].x >= 0
    ensures Kicked(q, q.blocks) == Moved(q, Point(-(CountRightOverhang(q.blocks) as int), 0))
  {
    CellsNearAnchor(q);
    CellsClearOfOverhang(q);
    KickShiftsLeftPerOverhangingCell(q, q.blocks);
  }

  /** Where rotating a well-formed piece to state `r` leaves it. When a re-derived cell is left
      of the board, every translate_right of the kick is refused and the re-derived cells stay.
      Otherwise the piece moves one column left per re-derived CELL right of the board. */
  lemma RotatedToPlacement(p: Piece, r: int)
    requires WellFormed(p) && 0 <= r < 4
    ensures var q := Rederived(p, r);
      (exists i :: 0 <= i < |q.blocks| && q.blocks[i].x < 0) ==> RotatedTo(p, r) == q
    ensures var q := Rederived(p, r);
      (forall i :: 0 <= i < |q.blocks| ==> q.blocks[i].x >= 0) ==>
        RotatedTo(p, r) == Moved(q, Point(-(CountRightOverhang(q.blocks) as int), 0))
  {
    var q := Rederived(p, r);
    assert RotatedTo(p, r) == Kicked(q, q.blocks);
    assert WellFormed(q);
    if exists i :: 0 <= i < |q.blocks| && q.blocks[i].x < 0 {
      var j :| 0 <= j < |q.blocks| && q.blocks[j].x < 0;
      KickedInPlaceWhenLeftOverhang(q, j);
    } else {
      KickedLeftPerRightOverhang(q);
    }
  }

  /** rotate_right of any well-formed piece: refused kick on the left, per-cell shift otherwise. */
  lemma RotatedRightPlacement(p: Piece)
    requires WellFormed(p)
    ensures var q := Rederived(p, NextRotation(p.rotation));
      (exists i :: 0 <= i < |q.blocks| && q.blocks[i].x < 0) ==> RotatedRight(p) == q
    ensures var q := Rederived(p, NextRotation(p.rotation));
      (forall i :: 0 <= i < |q.blocks| ==> q.blocks[i].x >= 0) ==>
        RotatedRight(p) == Moved(q, Point(-(CountRightOverhang(q.blocks) as int), 0))
  {
    RotatedToPlacement(p, NextRotation(p.rotation));
  }

  /** rotate_left of any well-formed piece: refused kick on the left, per-cell shift otherwise. */
  lemma RotatedLeftPlacement(p: Piece)
    requires WellFormed(p)
    ensures var q := Rederived(p, PreviousRotation(p.rotation));
      (exists i :: 0 <= i < |q.blocks| && q.blocks[i].x < 0) ==> RotatedLeft(p) == q
    ensures var q := Rederived(p, PreviousRotation(p.rotation));
      (forall i :: 0 <= i < |q.blocks| ==> q.blocks[i].x >= 0) ==>
        RotatedLeft(p) == Moved(q, Point(-(CountRightOverhang(q.blocks) as int), 0))
  {
    RotatedToPlacement(p, PreviousRotation(p.rotation));
  }

  /** When neither the start position nor the rotated layout overhangs a side wall, rotate_left
      undoes rotate_right and rotate_right undoes rotate_left. */
  lemma RotateRoundTrip(p: Piece)
    requires WellFormed(p)
    requires forall i :: 0 <= i < |p.blocks| ==> 0 <= p.blocks[i].x < GameWidth
    ensures (forall i :: 0 <= i < |Rederived(p, NextRotation(p.rotation)).blocks| ==>
               0 <= Rederived(p, NextRotation(p.rotation)).blocks[i].x < GameWidth)
            ==> RotatedLeft(RotatedRight(p)) == p
    ensures (forall i :: 0 <= i < |Rederived(p, PreviousRotation(p.rotation)).blocks| ==>
               0 <= Rederived(p, PreviousRotation(p.rotation)).blocks[i].x < GameWidth)
            ==> RotatedRight(RotatedLeft(p)) == p
  {
    var r := p.rotation;
    var back := Rederived(p, r);
    assert back == p;
    var right := Rederived(p, NextRotation(r));
    if forall i :: 0 <= i < |right.blocks| ==> 0 <= right.blocks[i].x < GameWidth {
      KickIdleWithinWalls(right, right.blocks);
      assert Rederived(right, PreviousRotation(NextRotation(r))) == back;
      KickIdleWithinWalls(back, back.blocks);
    }
    var left := Rederived(p, PreviousRotation(r));
    if forall i :: 0 <= i < |left.blocks| ==> 0 <= left.blocks[i].x < GameWidth {
      KickIdleWithinWalls(left, left.blocks);
      assert Rederived(left, NextRotation(PreviousRotation(r))) == back;
      KickIdleWithinWalls(back, back.blocks);
    }
  }

  /** Rotating a BLOCK never changes its cells (only its rotation state), wherever it stands
      left of the right wall. */
  lemma BlockRotationKeepsCells(p: Piece)
    requires WellFormed(p) && p.kind == Block
    requires forall i :: 0 <= i < |p.blocks| ==> p.blocks[i].x < GameWidth
    ensures RotatedRight(p).blocks == p.blocks
    ensures RotatedLeft(p).blocks == p.blocks
  {
    LayoutPeriods(Block);
    CellsNearAnchor(p);
    var q := Rederived(p, NextRotation(p.rotation));
    var q' := Rederived(p, PreviousRotation(p.rotation));
    assert q.blocks == p.blocks && q'.blocks == p.blocks;
    if forall i :: 0 <= i < |p.blocks| ==> 0 <= p.blocks[i].x {
      KickIdleWithinWalls(q, q.blocks);
      KickIdleWithinWalls(q', q'.blocks);
    } else {
      var j :| 0 <= j < |p.blocks| && p.blocks[j].x < 0;
      KickRefusedWhileLeftOverhang(q, q.blocks, j);
      KickRefusedWhileLeftOverhang(q', q'.blocks, j);
    }
  }

  /** `n` successive translate_left calls. */
  function TranslatedLeftTimes(p: Piece, n: nat): Piece
    decreases n
  {
    if n == 0 then p else TranslatedLeftTimes(TranslatedLeft(p), n - 1)
  }

  /** While every cell stays on or right of column 0, `n` translate_left calls shift the
      piece exactly `n` columns. */
  lemma {:induction false} TranslatedLeftTimesShifts(p: Piece, n: nat)
    requires forall i :: 0 <= i < |p.blocks| ==> p.blocks[i].x >= n
    ensures TranslatedLeftTimes(p, n) == Moved(p, Point(-(n as int), 0))
    decreases n
  {
    if n == 0 {
      assert Shifted(p.blocks, Point(0, 0)) == p.blocks;
    } else {
      assert !BlockedLeft(p.blocks);
      TranslatedLeftTimesShifts(Moved(p, Point(-1, 0)), n - 1);
      MovedTwice(p, Point(-1, 0), Point(-(n - 1), 0));
    }
  }

  /** A vertical LINE flush against the left wall, two columns of its box left of the board. */
  function LineAtLeftWall(): Piece {
    Piece(Line, 1, Point(-2, 0), Shifted(Layout(Line, 1), Point(-2, 0)), Moving)
  }

  /** The spawned LINE reaches the left wall by one rotate_right and seven translate_left. */
  lemma LineReachesLeftWall()
    ensures TranslatedLeftTimes(RotatedRight(Spawn(Line)), 7) == LineAtLeftWall()
  {
    var p := Spawn(Line);
    assert Layout(Line, 1) == [Point(2, 0), Point(2, 1), Point(2, 2), Point(2, 3)];
    var q := Rederived(p, 1);
    assert q.blocks == [Point(7, 0), Point(7, 1), Point(7, 2), Point(7, 3)];
    KickIdleWithinWalls(q, q.blocks);
    assert RotatedRight(p) == q;
    TranslatedLeftTimesShifts(q, 7);
    ShiftedTwice(Layout(Line, 1), Point(5, 0), Point(-7, 0));
    assert Moved(q, Point(-7, 0)) == LineAtLeftWall();
  }

  lemma LineAtLeftWallCells()
    ensures LineAtLeftWall().blocks == [Point(0, 0), Point(0, 1), Point(0, 2), Point(0, 3)]
    ensures Rederived(LineAtLeftWall(), 2).blocks == [Point(-2, 1), Point(-1, 1), Point(0, 1), Point(1, 1)]
    ensures WellFormed(LineAtLeftWall()) && OnBoard(LineAtLeftWall().blocks)
  {
    assert Layout(Line, 1) == [Point(2, 0), Point(2, 1), Point(2, 2), Point(2, 3)];
    assert Layout(Line, 2) == [Point(0, 1), Point(1, 1), Point(2, 1), Point(3, 1)];
  }

  /** At the left wall, rotate_right leaves two cells of the LINE left of the board: both
      translate_right calls of the kick are refused. */
  lemma LeftWallKickRefused()
    ensures RotatedRight(LineAtLeftWall()).blocks == [Point(-2, 1), Point(-1, 1), Point(0, 1), Point(1, 1)]
    ensures !OnBoard(RotatedRight(LineAtLeftWall()).blocks)
    ensures WellFormed(LineAtLeftWall()) && OnBoard(LineAtLeftWall().blocks)
  {
    LineAtLeftWallCells();
    var r := Rederived(LineAtLeftWall(), 2);
    KickRefusedWhileLeftOverhang(r, r.blocks, 0);
    assert RotatedRight(LineAtLeftWall()) == r;
    assert r.blocks[0].x < 0;
  }

  /** An L in rotation state 1 flush against the right wall. */
  function LAtRightWall(): Piece {
    Piece(L, 1, Point(8, 4), Shifted(Layout(L, 1), Point(8, 4)), Moving)
  }

  lemma LAtRightWallCells()
    ensures LAtRightWall().blocks == [Point(8, 4), Point(9, 4), Point(9, 5), Point(9, 6)]
    ensures Rederived(LAtRightWall(), 2).blocks == [Point(10, 4), Point(8, 5), Point(9, 5), Point(10, 5)]
    ensures WellFormed(LAtRightWall()) && OnBoard(LAtRightWall().blocks)
  {
    assert Layout(L, 1) == [Point(0, 0), Point(1, 0), Point(1, 1), Point(1, 2)];
    assert Layout(L, 2) == [Point(2, 0), Point(0, 1), Point(1, 1), Point(2, 1)];
  }

  /** The kick of rotate_right on that L: two cells overhang, so two translate_left calls. */
  lemma LAtRightWallKick()
    ensures RotatedRight(LAtRightWall()).blocks == [Point(8, 4), Point(6, 5), Point(7, 5), Point(8, 5)]
  {
    LAtRightWallCells();
    var q := Rederived(LAtRightWall(), 2);
    TwoCellOverhangKick(q);
    assert RotatedRight(LAtRightWall()) == Kicked(q, q.blocks);
  }

  lemma TwoCellOverhangKick(q: Piece)
    requires q.blocks == [Point(10, 4), Point(8, 5), Point(9, 5), Point(10, 5)]
    ensures Kicked(q, q.blocks).blocks == [Point(8, 4), Point(6, 5), Point(7, 5), Point(8, 5)]
  {
    var b := q.blocks;
    assert CountRightOverhang(b) == 2 by {
      assert b[3..][1..] == [];
      assert CountRightOverhang(b[3..]) == 1;
      assert b[2..][1..] == b[3..];
      assert CountRightOverhang(b[2..]) == 1;
      assert b[1..][1..] == b[2..];
      assert CountRightOverhang(b[1..]) == 1;
      assert b[0..][1..] == b[1..];
    }
    KickShiftsLeftPerOverhangingCell(q, b);
    assert Shifted(q.blocks, Point(-2, 0)) == [Point(8, 4), Point(6, 5), Point(7, 5), Point(8, 5)];
  }

  /** One translate_left would have been enough to bring that rotated L back on the board. */
  lemma LAtRightWallFitsOneLeft()
    ensures OnBoard(Shifted(Rederived(LAtRightWall(), 2).blocks, Point(-1, 0)))
  {
    LAtRightWallCells();
    var once := Shifted(Rederived(LAtRightWall(), 2).blocks, Point(-1, 0));
    assert once == [Point(9, 4), Point(7, 5), Point(8, 5), Point(9, 5)];
  }

  /** At the right wall, rotate_right of that L overhangs by one column but with two cells, so
      the kick shifts it two columns and leaves it one column short of the wall although a
      one-column shift would fit. */
  lemma RightWallKickOverShifts()
    ensures WellFormed(LAtRightWall()) && OnBoard(LAtRightWall().blocks)
    ensures RotatedRight(LAtRightWall()).blocks == [Point(8, 4), Point(6, 5), Point(7, 5), Point(8, 5)]
    ensures OnBoard(Shifted(Rederived(LAtRightWall(), 2).blocks, Point(-1, 0)))
  {
    LAtRightWallCells();
    LAtRightWallKick();
    LAtRightWallFitsOneLeft();
  }

  /** Rotation checks no vertical bound: a horizontal LINE on the floor turned upright hangs
      two cells below the board. */
  lemma RotationIgnoresFloor()
    ensures var p := Piece(Line, 0, Point(3, 16), Shifted(Layout(Line, 0), Point(3, 16)), Moving);
      WellFormed(p) && OnBoard(p.blocks) &&
      RotatedRight(p).blocks == [Point(5, 16), Point(5, 17), Point(5, 18), Point(5, 19)] &&
      !OnBoard(RotatedRight(p).blocks)
  {
    var p := Piece(Line, 0, Point(3, 16), Shifted(Layout(Line, 0), Point(3, 16)), Moving);
    var q := Rederived(p, 1);
    assert q.blocks == [Point(5, 16), Point(5, 17), Point(5, 18), Point(5, 19)];
    KickIdleWithinWalls(q, q.blocks);
  }

  /** A tetromino object. `blocks` is the fixed array of four cells that the translations and
      rotations overwrite in place; `Value()` is the piece it currently holds. */
  class Tetromino {
    const kind: TetrominoType
    var rotationState: int
    var topLeftPoint: Point
    const blocks: array<Point>
    var state: TetrominoState

    ghost predicate Valid()
      reads this, blocks
    {
      blocks.Length == BlocksInTetromino && WellFormed(Value())
    }

    function Value(): Piece
      reads this, blocks
    {
      Piece(kind, rotationState, topLeftPoint, blocks[..], state)
    }

    /** Spawns a piece of type `t` at the top centre of the board. */
    constructor (t: TetrominoType)
      ensures Valid() && fresh(blocks)
      ensures Value() == Spawn(t)
    {
      var relativeCoords := Layout(t, 0);
      LayoutInBox(t, 0);
      var halfGameWidth := GameWidth / 2;
      // Translate into game space
      for i := 0 to BlocksInTetromino
        invariant |relativeCoords| == BlocksInTetromino
        invariant forall k :: 0 <= k < i ==> relativeCoords[k] == Layout(t, 0)[k].Plus(Point(halfGameWidth, 0))
        invariant forall k :: i <= k < BlocksInTetromino ==> relativeCoords[k] == Layout(t, 0)[k]
      {
        relativeCoords := relativeCoords[i := relativeCoords[i].Plus(Point(halfGameWidth, 0))];
      }
      kind := t;
      rotationState := 0;
      topLeftPoint := Point(halfGameWidth, 0);
      blocks := new Point[BlocksInTetromino](k requires 0 <= k < BlocksInTetromino => relativeCoords[k]);
      state := Moving;
      new;
      assert blocks[..] == Shifted(Layout(t, 0), topLeftPoint);
    }

    method TranslateLeft()
      requires Valid()
      modifies this, blocks
      ensures Valid()
      ensures Value() == TranslatedLeft(old(Value()))
    {
      var reached := LeftWallReached();
      if reached {
        return;
      }
      Shift(Point(-1, 0));
      TranslationsPreserveWellFormed(old(Value()));
    }

    method TranslateRight()
      requires Valid()
      modifies this, blocks
      ensures Valid()
      ensures Value() == TranslatedRight(old(Value()))
    {
      var reached := RightWallReached();
      if reached {
        return;
      }
      Shift(Point(1, 0));
      TranslationsPreserveWellFormed(old(Value()));
    }

    /** Also marks the piece LANDED when the floor check refuses (assumption). */
    method TranslateDown()
      requires Valid()
      modifies this, blocks
      ensures Valid()
      ensures Value() == TranslatedDown(old(Value()))
    {
      var reached := FloorReached();
      if reached {
        state := Landed;
        return;
      }
      Shift(Point(0, 1));
      TranslationsPreserveWellFormed(old(Value()));
    }

    /** The bounds check of translate_left: is some cell in column 0 or left of it? */
    method LeftWallReached() returns (reached: bool)
      requires blocks.Length == BlocksInTetromino
      ensures reached == BlockedLeft(blocks[..])
    {
      for i := 0 to BlocksInTetromino
        invariant forall k :: 0 <= k < i ==> blocks[k].x >= 1
      {
        if blocks[i].x < 1 {
          assert blocks[..][i].x < 1;
          return true;
        }
      }
      return false;
    }

    /** The bounds check of translate_right, where the column is compared with the unsigned
        GAME_WIDTH - 2. */
    method RightWallReached() returns (reached: bool)
      requires blocks.Length == BlocksInTetromino
      ensures reached == BlockedRight(blocks[..])
    {
      for i := 0 to BlocksInTetromino
        invariant forall k :: 0 <= k < i ==> AsUnsigned(blocks[k].x) <= GameWidth - 2
      {
        if AsUnsigned(blocks[i].x) > GameWidth - 2 {
          assert AsUnsigned(blocks[..][i].x) > GameWidth - 2;
          return true;
        }
      }
      return false;
    }

    /** The bounds check of translate_down, where the row is compared with the unsigned
        GAME_HEIGHT - 2. */
    method FloorReached() returns (reached: bool)
      requires blocks.Length == BlocksInTetromino
      ensures reached == BlockedDown(blocks[..])
    {
      for i := 0 to BlocksInTetromino
        invariant forall k :: 0 <= k < i ==> AsUnsigned(blocks[k].y) <= GameHeight - 2
      {
        if AsUnsigned(blocks[i].y) > GameHeight - 2 {
          assert AsUnsigned(blocks[..][i].y) > GameHeight - 2;
          return true;
        }
      }
      return false;
    }

    /** The moving half of the three translations: every cell and the anchor move by `d`. */
    method Shift(d: Point)
      requires blocks.Length == BlocksInTetromino
      modifies this`topLeftPoint, blocks
      ensures Value() == Moved(old(Value()), d)
    {
      for i := 0 to BlocksInTetromino
        invariant forall k :: 0 <= k < i ==> blocks[k] == old(blocks[k]).Plus(d)
        invariant forall k :: i <= k < BlocksInTetromino ==> blocks[k] == old(blocks[k])
        modifies blocks
      {
        blocks[i] := blocks[i].Plus(d);
      }
      topLeftPoint := topLeftPoint.Plus(d);
      assert blocks[..] == Shifted(old(blocks[..]), d);
    }

    method RotateLeft()
      requires Valid()
      modifies this, blocks
      ensures Valid()
      ensures Value() == RotatedLeft(old(Value()))
    {
      rotationState := if rotationState > 0 then rotationState - 1 else 3;
      RederiveAndKick();
    }

    method RotateRight()
      requires Valid()
      modifies this, blocks
      ensures Valid()
      ensures Value() == RotatedRight(old(Value()))
    {
      rotationState := if rotationState < 3 then rotationState + 1 else 0;
      RederiveAndKick();
    }

    /** The common tail of both rotations: the cells of the new rotation state are looked up and
        placed at the anchor, then the wall kick runs over those un-kicked cells. */
    method RederiveAndKick()
      requires blocks.Length == BlocksInTetromino && 0 <= rotationState < 4
      requires -2 <= topLeftPoint.x <= GameWidth - 1 && 0 <= topLeftPoint.y <= GameHeight - 1
      modifies this, blocks
      ensures Valid()
      ensures Value() == RotatedTo(old(Value()), old(rotationState))
    {
      var relativePosition := Rederive();
      Kick(relativePosition);
    }

    /** Places the layout of the current rotation state at the anchor and returns those cells. */
    method Rederive() returns (relativePosition: seq<Point>)
      requires blocks.Length == BlocksInTetromino && 0 <= rotationState < 4
      requires -2 <= topLeftPoint.x <= GameWidth - 1 && 0 <= topLeftPoint.y <= GameHeight - 1
      modifies blocks
      ensures Valid()
      ensures relativePosition == blocks[..]
      ensures Value() == Rederived(old(Value()), rotationState)
    {
      relativePosition := Layout(kind, rotationState);
      LayoutInBox(kind, rotationState);
      // Transform relative positions into game space
      for i := 0 to BlocksInTetromino
        invariant |relativePosition| == BlocksInTetromino
        invariant forall k :: 0 <= k < i ==> relativePosition[k] == Layout(kind, rotationState)[k].Plus(topLeftPoint)
        invariant forall k :: i <= k < BlocksInTetromino ==> relativePosition[k] == Layout(kind, rotationState)[k]
      {
        relativePosition := relativePosition[i := relativePosition[i].Plus(topLeftPoint)];
      }
      for i := 0 to BlocksInTetromino
        invariant forall k :: 0 <= k < i ==> blocks[k] == relativePosition[k]
        modifies blocks
      {
        blocks[i] := relativePosition[i];
      }
      assert blocks[..] == relativePosition == Shifted(Layout(kind, rotationState), topLeftPoint);
    }

    /** The wall kick: one translation per probe cell past a side wall. */
    method Kick(probe: seq<Point>)
      requires Valid()
      modifies this, blocks
      ensures Valid()
      ensures Value() == Kicked(old(Value()), probe)
    {
      for i := 0 to |probe|
        invariant Valid()
        invariant Kicked(Value(), probe[i..]) == Kicked(old(Value()), probe)
      {
        assert probe[i..][1..] == probe[i + 1..];
        ghost var before := Value();
        if probe[i].x < 0 {
          TranslateRight();
        } else if AsUnsigned(probe[i].x) > GameWidth - 1 {
          TranslateLeft();
        }
        assert Value() == KickedOnce(before, probe[i]);
      }
      assert probe[|probe|..] == [];
    }
  }
}
