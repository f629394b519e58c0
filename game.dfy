/** The game: one falling piece, the pieces that have landed, the input queue and the
    game-over flag, advanced one tick at a time. */
module Games {
  import opened Constants
  import opened Tetrominoes
  import opened Input

  /** GLFW key codes dispatched by the tick. */
  const KeySpace: int := 32
  const KeyEscape: int := 256
  const KeyRight: int := 262
  const KeyLeft: int := 263
  const KeyDown: int := 264
  const KeyUp: int := 265

  /** Two pieces overlap when they share a cell (assumption: `tetromino_overlaps` is not
      defined in the Tetromino sources). */
  predicate Overlaps(a: Piece, b: Piece) {
    exists i, j :: 0 <= i < |a.blocks| && 0 <= j < |b.blocks| && a.blocks[i] == b.blocks[j]
  }

  /** The search of check_collision over the landed pieces, front to back. */
  function Collides(landed: seq<Piece>, candidate: Piece): (b: bool)
    ensures b <==> exists k :: 0 <= k < |landed| && Overlaps(landed[k], candidate)
    decreases |landed|
  {
    if landed == [] then false
    else if Overlaps(landed[0], candidate) then true
    else
      var found := Collides(landed[1..], candidate);
      assert forall k :: 1 <= k < |landed| ==> landed[k] == landed[1..][k - 1];
      found
  }

  /** The smallest and the largest row among `cells`. */
  function MinY(cells: seq<Point>): (y: int)
    requires |cells| > 0
    ensures exists i :: 0 <= i < |cells| && cells[i].y == y
    ensures forall i :: 0 <= i < |cells| ==> y <= cells[i].y
    decreases |cells|
  {
    if |cells| == 1 then cells[0].y
    else
      var rest := MinY(cells[1..]);
      assert forall i :: 1 <= i < |cells| ==> cells[i] == cells[1..][i - 1];
      if cells[0].y <= rest then cells[0].y else rest
  }

  function MaxY(cells: seq<Point>): (y: int)
    requires |cells| > 0
    ensures exists i :: 0 <= i < |cells| && cells[i].y == y
    ensures forall i :: 0 <= i < |cells| ==> cells[i].y <= y
    decreases |cells|
  {
    if |cells| == 1 then cells[0].y
    else
      var rest := MaxY(cells[1..]);
      assert forall i :: 1 <= i < |cells| ==> cells[i] == cells[1..][i - 1];
      if cells[0].y >= rest then cells[0].y else rest
  }

  /** highest_block: the topmost row of the piece, y growing downward (assumption: not
      defined in the Tetromino sources). */
  function HighestBlock(p: Piece): int
    requires |p.blocks| > 0
  {
    MinY(p.blocks)
  }

  /** Every piece the game-over test of add_landed fires on (topmost cell in row 0 or 1)
      also fires the test of the tick (anchor in row 0 or 1), but not conversely: a piece
      whose anchor is in row 1 can have its topmost cell in row 2. */
  lemma GameOverTestsCompared(p: Piece)
    requires WellFormed(p)
    ensures HighestBlock(p) <= 1 ==> p.topLeft.y <= 1
    ensures p.topLeft.y <= 1 ==> HighestBlock(p) <= p.topLeft.y + 1
  {
    CellsNearAnchor(p);
    var i :| 0 <= i < |p.blocks| && p.blocks[i].y == MinY(p.blocks);
    assert p.blocks[i].y >= p.topLeft.y;
    var j :| 0 <= j < |p.blocks| && p.blocks[j].y <= p.topLeft.y + 1;
    assert MinY(p.blocks) <= p.blocks[j].y;
  }

  /** Some landed piece has its anchor in row 0 or 1: the game-over scan of the tick. */
  predicate TopReached(landed: seq<Piece>) {
    exists k :: 0 <= k < |landed| && landed[k].topLeft.y <= 1
  }

  /** Shifting cells by `d` shifts their lowest row by `d.y`. */
  lemma {:induction false} MaxYShifted(cells: seq<Point>, d: Point)
    requires |cells| > 0
    ensures MaxY(Shifted(cells, d)) == MaxY(cells) + d.y
    decreases |cells|
  {
    if |cells| > 1 {
      assert Shifted(cells, d)[1..] == Shifted(cells[1..], d);
      MaxYShifted(cells[1..], d);
    }
  }

  /** For a well-formed piece the floor check of translate_down refuses exactly when the lowest
      cell is in the bottom row or below: no cell is above row 0, so the unsigned comparison
      reads every row as it is. */
  lemma BlockedDownIffLowest(p: Piece)
    requires WellFormed(p)
    ensures BlockedDown(p.blocks) <==> MaxY(p.blocks) > GameHeight - 2
  {
    CellsNearAnchor(p);
    var lowest := MaxY(p.blocks);
    if BlockedDown(p.blocks) {
      var i :| 0 <= i < |p.blocks| && AsUnsigned(p.blocks[i].y) > GameHeight - 2;
      assert p.blocks[i].y <= lowest;
    } else {
      var i :| 0 <= i < |p.blocks| && p.blocks[i].y == lowest;
      assert AsUnsigned(p.blocks[i].y) <= GameHeight - 2;
    }
  }

  /** How many more rows a well-formed piece can fall before its floor check refuses:
      GAME_HEIGHT - 1 minus its lowest row. */
  function FallRoom(p: Piece): (n: nat)
    requires WellFormed(p)
    ensures n == 0 <==> BlockedDown(p.blocks)
  {
    BlockedDownIffLowest(p);
    if BlockedDown(p.blocks) then 0 else GameHeight - 1 - MaxY(p.blocks)
  }

  /** The termination measure of the hard drop: one more for a piece that has not landed. */
  function DropMeasure(p: Piece): nat
    requires WellFormed(p)
  {
    FallRoom(p) + (if p.state == Moving then 1 else 0)
  }

  /** Each translate_down of a falling piece lowers the measure: it either moves the piece one
      row, leaving one row less to fall, or lands it. */
  lemma DropMeasureDecreases(p: Piece)
    requires WellFormed(p) && p.state == Moving
    ensures WellFormed(TranslatedDown(p))
    ensures DropMeasure(TranslatedDown(p)) < DropMeasure(p)
    ensures !BlockedDown(p.blocks) ==> FallRoom(TranslatedDown(p)) == FallRoom(p) - 1
  {
    TranslationsPreserveWellFormed(p);
    var q := TranslatedDown(p);
    CellsNearAnchor(p);
    if BlockedDown(p.blocks) {
      assert q.blocks == p.blocks && q.state == Landed;
      assert FallRoom(q) == 0 && DropMeasure(q) == 0;
    } else {
      assert q == Moved(p, Point(0, 1));
      MaxYShifted(p.blocks, Point(0, 1));
      BlockedDownIffLowest(p);
      BlockedDownIffLowest(q);
      assert FallRoom(q) == FallRoom(p) - 1 && q.state == Moving;
    }
  }

  /** The hard drop: translate_down until the piece has landed. A falling piece ends exactly
      FallRoom rows lower, LANDED, with nothing else changed. */
  function HardDropped(p: Piece): (r: Piece)
    requires WellFormed(p)
    ensures WellFormed(r) && r.state == Landed
    ensures p.state == Landed ==> r == p
    ensures p.state == Moving ==> r == Moved(p, Point(0, FallRoom(p))).(state := Landed)
    decreases DropMeasure(p)
  {
    if p.state == Landed then p
    else
      DropMeasureDecreases(p);
      var q := TranslatedDown(p);
      var r := HardDropped(q);
      if BlockedDown(p.blocks) then
        assert q == p.(state := Landed) && r == q;
        assert FallRoom(p) == 0;
        MovedByZero(p);
        r
      else
        assert q == Moved(p, Point(0, 1)) && q.state == Moving;
        assert r == Moved(q, Point(0, FallRoom(q))).(state := Landed);
        MovedTwice(p, Point(0, 1), Point(0, FallRoom(q)));
        assert Point(0, 1).Plus(Point(0, FallRoom(q))) == Point(0, FallRoom(p));
        r
  }

  /** A hard-dropped piece that was within the board's rows comes to rest with its lowest cell
      on the bottom row, in the same columns. */
  lemma HardDropReachesFloor(p: Piece)
    requires WellFormed(p) && p.state == Moving
    requires MaxY(p.blocks) <= GameHeight - 1
    ensures MaxY(HardDropped(p).blocks) == GameHeight - 1
    ensures forall i :: 0 <= i < |p.blocks| ==> HardDropped(p).blocks[i].x == p.blocks[i].x
  {
    var r := HardDropped(p);
    var n := FallRoom(p);
    assert r.blocks == Shifted(p.blocks, Point(0, n));
    assert MaxY(r.blocks) == GameHeight - 1 by {
      CellsNearAnchor(p);
      MaxYShifted(p.blocks, Point(0, n));
      BlockedDownIffLowest(p);
    }
  }

  /** The reaction of the tick to one key: LEFT and RIGHT translate, UP rotates right, DOWN
      rotates left; any other key leaves the piece alone. */
  function Dispatched(p: Piece, key: int): (r: Piece)
    requires WellFormed(p)
    ensures WellFormed(r) && r.kind == p.kind && r.state == p.state
  {
    TranslationsPreserveWellFormed(p);
    RotationsPreserveWellFormed(p);
    if key == KeyLeft then TranslatedLeft(p)
    else if key == KeyRight then TranslatedRight(p)
    else if key == KeyUp then RotatedRight(p)
    else if key == KeyDown then RotatedLeft(p)
    else p
  }

  /** The state a tick reads and writes. */
  datatype World = World(current: Piece, queue: seq<int>, landed: seq<Piece>, gameOver: bool)

  /** One tick: replace a landed piece by a new one of type `roll`, fetch at most one key;
      SPACE hard-drops and ends the tick, ESCAPE sets game over and ends the tick; otherwise
      the key is dispatched, the game-over scan runs over the landed pieces, and the piece
      takes one translate_down step. */
  function Ticked(w: World, roll: int): World
    requires WellFormed(w.current) && 0 <= roll <= 5
  {
    var piece := if w.current.state == Landed then Spawn(TypeFromIndex(roll)) else w.current;
    var (key, rest) := Fetched(w.queue);
    var (next, over) := Reacted(piece, key, w.landed, w.gameOver);
    w.(current := next, queue := rest, gameOver := over)
  }

  /** The piece and the game-over flag after the tick has fetched `key`. */
  function Reacted(p: Piece, key: int, landed: seq<Piece>, gameOver: bool): (Piece, bool)
    requires WellFormed(p)
  {
    if key == KeySpace then (HardDropped(p), gameOver)
    else if key == KeyEscape then (p, true)
    else (TranslatedDown(Dispatched(p, key)), gameOver || TopReached(landed))
  }

  /** What a tick does to the queue, the landed pieces and the game-over flag: exactly the
      fetched key is consumed, the landed pieces are untouched, and game over is never
      cleared and is set only by ESCAPE or by the scan. */
  lemma TickedEffects(w: World, roll: int)
    requires WellFormed(w.current) && 0 <= roll <= 5
    ensures var r := Ticked(w, roll);
      r.queue + (if w.queue == [] then [] else [w.queue[|w.queue| - 1]]) == w.queue &&
      r.landed == w.landed &&
      (w.gameOver ==> r.gameOver) &&
      (r.gameOver ==> w.gameOver || TopReached(w.landed) || (w.queue != [] && w.queue[|w.queue| - 1] == KeyEscape))
  {
  }

  /** The piece a tick leaves is well formed; when the piece in play had landed, the new one
      is a spawned piece of type `roll`; a key other than the six the tick knows, or no key,
      only takes one translate_down step (which lands a piece on the floor without moving it). */
  lemma TickedPiece(w: World, roll: int)
    requires WellFormed(w.current) && 0 <= roll <= 5
    ensures WellFormed(Ticked(w, roll).current)
    ensures w.current.state == Landed ==> Ticked(w, roll).current.kind == TypeFromIndex(roll)
    ensures w.current.state == Moving ==> Ticked(w, roll).current.kind == w.current.kind
    ensures var key := Fetched(w.queue).0;
      key !in {KeyLeft, KeyRight, KeyUp, KeyDown, KeySpace, KeyEscape} ==>
        Ticked(w, roll).current ==
          TranslatedDown(if w.current.state == Landed then Spawn(TypeFromIndex(roll)) else w.current)
  {
    var piece := if w.current.state == Landed then Spawn(TypeFromIndex(roll)) else w.current;
    var key := Fetched(w.queue).0;
    var moved := Dispatched(piece, key);
    TranslationsPreserveWellFormed(moved);
    if key == KeySpace {
      assert Ticked(w, roll).current == HardDropped(piece);
    } else if key == KeyEscape {
      assert Ticked(w, roll).current == piece;
    } else {
      assert Ticked(w, roll).current == TranslatedDown(moved);
    }
  }

  /** The game object. `landed` holds copies of the pieces that have landed. */
  class Game {
    const input: InputQueue
    var current: Tetromino
    var landed: seq<Piece>
    var gameOver: bool

    ghost predicate Valid()
      reads this, input, current, current.blocks
    {
      input.Valid() && current.Valid() &&
      forall k :: 0 <= k < |landed| ==> WellFormed(landed[k])
    }

    function Model(): World
      reads this, input, current, current.blocks
    {
      World(current.Value(), input.queue, landed, gameOver)
    }

    /** The view and window set-up are not modelled. Of the two pieces the original constructor
        builds from two rolls only the second is kept, so one `roll` suffices: a game starts with
        an empty queue, no landed pieces and a fresh piece of type `roll`. */
    constructor (roll: int)
      requires 0 <= roll <= 5
      ensures Valid() && fresh(input) && fresh(current) && fresh(current.blocks)
      ensures Model() == World(Spawn(TypeFromIndex(roll)), [], [], false)
    {
      input := new InputQueue();
      current := new Tetromino(TypeFromIndex(roll));
      landed := [];
      gameOver := false;
    }

    /** tick: a landed piece is replaced by a new one of type `roll` (the random roll is a
        parameter), then at most one key is fetched and handled. */
    method Tick(roll: int)
      requires Valid() && 0 <= roll <= 5
      modifies this, input, current, current.blocks
      ensures Valid()
      ensures Model() == Ticked(old(Model()), roll)
    {
      ghost var w := Model();
      Respawn(roll);
      ghost var piece := current.Value();
      var inputKey := input.Fetch();
      ghost var rest := input.queue;
      assert (inputKey, rest) == Fetched(w.queue);
      React(inputKey);
    }

    /** The rest of the tick once the key is fetched: the key switch, then, unless the key
        ended the tick, the game-over scan and the final translate_down. */
    method React(inputKey: int)
      requires current.Valid()
      modifies this`gameOver, current, current.blocks
      ensures current.Valid()
      ensures (current.Value(), gameOver) == Reacted(old(current.Value()), inputKey, landed, old(gameOver))
    {
      ghost var piece := current.Value();
      var finished := HandleInput(inputKey);
      if finished {
        return;
      }
      ScanLanded();
      assert current.Value() == Dispatched(piece, inputKey);
      current.TranslateDown();
    }

    /** The start of the tick: a landed piece is replaced by a new one of type `roll`. */
    method Respawn(roll: int)
      requires current.Valid() && 0 <= roll <= 5
      modifies this`current
      ensures current.Valid()
      ensures current.Value() ==
        if old(current.state) == Landed then Spawn(TypeFromIndex(roll)) else old(current.Value())
      ensures current == old(current) || (fresh(current) && fresh(current.blocks))
    {
      if current.state == Landed {
        current := new Tetromino(TypeFromIndex(roll));
      }
    }

    /** The key switch of the tick. SPACE and ESCAPE end the tick (`finished`); the other keys
        fall through to the game-over scan and the final translate_down. */
    method HandleInput(inputKey: int) returns (finished: bool)
      requires current.Valid()
      modifies this`gameOver, current, current.blocks
      ensures current.Valid()
      ensures finished <==> inputKey == KeySpace || inputKey == KeyEscape
      ensures inputKey == KeySpace ==> current.Value() == HardDropped(old(current.Value()))
      ensures inputKey == KeyEscape ==> current.Value() == old(current.Value())
      ensures !finished ==> current.Value() == Dispatched(old(current.Value()), inputKey)
      ensures gameOver == (old(gameOver) || inputKey == KeyEscape)
    {
      finished := false;
      if inputKey == KeyLeft {
        current.TranslateLeft();
      } else if inputKey == KeyRight {
        current.TranslateRight();
      } else if inputKey == KeyUp {
        current.RotateRight();
      } else if inputKey == KeyDown {
        current.RotateLeft();
      } else if inputKey == KeySpace {
        HardDrop();
        finished := true;
      } else if inputKey == KeyEscape {
        gameOver := true;
        finished := true;
      }
    }

    /** The SPACE case of the tick: translate_down until the piece has landed. */
    method HardDrop()
      requires current.Valid()
      modifies current, current.blocks
      ensures current.Valid()
      ensures current.Value() == HardDropped(old(current.Value()))
    {
      ghost var piece := current.Value();
      while current.state != Landed
        invariant current.Valid()
        invariant HardDropped(current.Value()) == HardDropped(piece)
        decreases DropMeasure(current.Value())
      {
        DropMeasureDecreases(current.Value());
        current.TranslateDown();
      }
    }

    /** The game-over scan of the tick over the landed pieces. */
    method ScanLanded()
      modifies this`gameOver
      ensures gameOver == (old(gameOver) || TopReached(landed))
    {
      for k := 0 to |landed|
        invariant gameOver == (old(gameOver) || exists j :: 0 <= j < k && landed[j].topLeft.y <= 1)
      {
        if landed[k].topLeft.y <= 1 {
          gameOver := true;
        }
        assert (exists j :: 0 <= j < k + 1 && landed[j].topLeft.y <= 1) <==>
          (exists j :: 0 <= j < k && landed[j].topLeft.y <= 1) || landed[k].topLeft.y <= 1;
      }
    }

    /** add_landed: a copy of `t` is appended; game over is set when its topmost cell is in
        row 0 or 1, and never cleared. */
    method AddLanded(t: Tetromino)
      requires Valid() && t.Valid()
      modifies this`landed, this`gameOver
      ensures Valid()
      ensures landed == old(landed) + [t.Value()]
      ensures gameOver == (old(gameOver) || HighestBlock(t.Value()) <= 1)
    {
      CellsNearAnchor(t.Value());
      landed := landed + [t.Value()];
      if HighestBlock(t.Value()) <= 1 {
        gameOver := true;
      }
    }

    function CheckCollision(newPos: Tetromino): (b: bool)
      reads this, newPos, newPos.blocks
      ensures b <==> exists k :: 0 <= k < |landed| && Overlaps(landed[k], newPos.Value())
    {
      Collides(landed, newPos.Value())
    }
  }
}
