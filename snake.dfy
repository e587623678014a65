/*
 * The snake: its body, its heading and its one-shot growth flag, with the
 * step it takes each tick, the rule that refuses a 180-degree turn, and the
 * three collision tests the game loop asks it.
 *
 * Positions are pixel coordinates; a well-formed position is a multiple of
 * the cell size on both axes.
 */
module SnakeModel {

  /** Side of one grid cell, in pixels. */
  const BlockSize: int := 20

  datatype Direction = Up | Down | Left | Right

  /** A pixel position (x, y); y grows downwards. */
  type Pos = (int, int)

  /** A key as the snake's direction change receives it. */
  datatype Key = ArrowKey(dir: Direction) | EscapeKey | OtherKey(code: int)

  /** The body a new snake starts with, head first, heading right. */
  const InitialBody: seq<Pos> := [(100, 100), (80, 100), (60, 100)]

  function Opposite(d: Direction): (r: Direction)
    ensures r != d
  {
    match d
    case Up => Down
    case Down => Up
    case Left => Right
    case Right => Left
  }

  predicate Aligned(p: Pos) {
    p.0 % BlockSize == 0 && p.1 % BlockSize == 0
  }

  predicate AllAligned(body: seq<Pos>) {
    forall k :: 0 <= k < |body| ==> Aligned(body[k])
  }

  /** Inside the half-open board [0, width) x [0, height). */
  predicate InBoard(p: Pos, width: int, height: int) {
    0 <= p.0 < width && 0 <= p.1 < height
  }

  /**
   * Where the head goes in one step: exactly one cell along exactly one
   * axis, and the direction is the one that sign of displacement names.
   */
  function Moved(p: Pos, d: Direction): (q: Pos)
    ensures (q.0 == p.0 && (q.1 == p.1 + BlockSize || q.1 == p.1 - BlockSize))
         || (q.1 == p.1 && (q.0 == p.0 + BlockSize || q.0 == p.0 - BlockSize))
    ensures d == Down <==> q.1 > p.1
    ensures d == Up <==> q.1 < p.1
    ensures d == Left <==> q.0 < p.0
    ensures d == Right <==> q.0 > p.0
    ensures Aligned(p) ==> Aligned(q)
  {
    var (x, y) := p;
    match d
    case Down => (x, y + BlockSize)
    case Up => (x, y - BlockSize)
    case Left => (x - BlockSize, y)
    case Right => (x + BlockSize, y)
  }

  /**
   * The body after one step: the moved head, then the old body without its
   * last segment; when growth is pending, the (new) last segment is doubled.
   * The segment that was dropped is not the one that comes back.
   */
  function Walked(body: seq<Pos>, d: Direction, grow: bool): (r: seq<Pos>)
    requires |body| >= 1
    ensures |r| == if grow then |body| + 1 else |body|
    ensures r[0] == Moved(body[0], d)
    ensures r[1..|body|] == body[..|body| - 1]
    ensures grow ==> r[|body|] == r[|body| - 1]
  {
    var stepped := [Moved(body[0], d)] + body[..|body| - 1];
    if grow then stepped + [stepped[|stepped| - 1]] else stepped
  }

  /**
   * The heading after the key `key` is pressed while heading `current`: an
   * arrow is taken unless it points straight back; any other key is ignored.
   */
  function NewDirection(current: Direction, key: Key): (r: Direction)
    ensures r != Opposite(current)
    ensures r == current || key == ArrowKey(r)
  {
    if (key == ArrowKey(Left) && current != Right)
      || (key == ArrowKey(Right) && current != Left)
      || (key == ArrowKey(Up) && current != Down)
      || (key == ArrowKey(Down) && current != Up)
    then key.dir
    else current
  }

  /** The head is on `apple`. */
  predicate ReachedApple(body: seq<Pos>, apple: Pos)
    requires |body| >= 1
  {
    body[0] == apple
  }

  /** The head lies on some other segment of the body. */
  function SelfCollision(body: seq<Pos>): (r: bool)
    requires |body| >= 1
    ensures r <==> exists k :: 1 <= k < |body| && body[k] == body[0]
  {
    body[0] in body[1..]
  }

  /** The head has left the board. */
  function BoundaryCollision(body: seq<Pos>, width: int, height: int): (r: bool)
    requires |body| >= 1
    ensures r <==> !InBoard(body[0], width, height)
  {
    var (x, y) := body[0];
    x < 0 || x >= width || y < 0 || y >= height
  }

  /** `n` steps in direction `d` with no growth pending. */
  function WalkedTimes(body: seq<Pos>, d: Direction, n: nat): (r: seq<Pos>)
    requires |body| >= 1
    ensures |r| == |body|
    decreases n
  {
    if n == 0 then body else WalkedTimes(Walked(body, d, false), d, n - 1)
  }

  /** A three-segment snake lying straight with its head at (x, y), facing right. */
  function StraightBody(x: int, y: int): seq<Pos> {
    [(x, y), (x - BlockSize, y), (x - 2 * BlockSize, y)]
  }

  lemma MovedUndoneByOpposite(p: Pos, d: Direction)
    ensures Moved(Moved(p, d), Opposite(d)) == p
  {
  }

  /** Stepping keeps every segment on the grid. */
  lemma WalkedKeepsAlignment(body: seq<Pos>, d: Direction, grow: bool)
    requires |body| >= 1 && AllAligned(body)
    ensures AllAligned(Walked(body, d, grow))
  {
  }

  /** From the initial body heading right, one step gives the shifted body. */
  lemma FirstStepFromStart()
    ensures Walked(InitialBody, Right, false) == [(120, 100), (100, 100), (80, 100)]
  {
  }

  lemma InitialBodyHasNoSelfCollision()
    ensures !SelfCollision(InitialBody)
  {
  }

  lemma OverlappingBodySelfCollides()
    ensures SelfCollision([(100, 100), (100, 100)])
  {
  }

  /** A head on column 0 that steps left is off the board, whatever the board. */
  lemma LeavingLeftEdge(body: seq<Pos>, grow: bool, width: int, height: int)
    requires |body| >= 1 && body[0].0 == 0
    ensures BoundaryCollision(Walked(body, Left, grow), width, height)
  {
  }

  /** The direction check is taken arrow by arrow: an arrow is accepted exactly when it does not point back. */
  lemma NewDirectionAccepts(current: Direction, d: Direction)
    ensures NewDirection(current, ArrowKey(d)) == d <==> d != Opposite(current)
  {
  }

  /** Any key that is not an arrow leaves the heading unchanged. */
  lemma NewDirectionIgnoresNonArrows(current: Direction, key: Key)
    requires !key.ArrowKey?
    ensures NewDirection(current, key) == current
  {
  }

  /**
   * A snake whose last step went opposite to `d` (so the head is one step
   * from the neck that way) hits itself when it steps in direction `d`.
   */
  lemma ReversingIntoNeck(body: seq<Pos>, d: Direction, grow: bool)
    requires |body| >= 3 && body[0] == Moved(body[1], Opposite(d))
    ensures SelfCollision(Walked(body, d, grow))
  {
    MovedUndoneByOpposite(body[1], Opposite(d));
    assert Opposite(Opposite(d)) == d;
  }

  /** A straight snake moving right stays straight and never hits itself. */
  lemma {:induction false} StraightRun(x: int, y: int, n: nat)
    ensures WalkedTimes(StraightBody(x, y), Right, n) == StraightBody(x + n * BlockSize, y)
    ensures !SelfCollision(WalkedTimes(StraightBody(x, y), Right, n))
    decreases n
  {
    if n > 0 {
      assert Walked(StraightBody(x, y), Right, false) == StraightBody(x + BlockSize, y);
      StraightRun(x + BlockSize, y, n - 1);
    }
  }

  /** The initial snake walking right has no self-collision after any number of steps. */
  lemma StraightRunFromStart(n: nat)
    ensures WalkedTimes(InitialBody, Right, n)
         == [(100 + n * BlockSize, 100), (80 + n * BlockSize, 100), (60 + n * BlockSize, 100)]
    ensures !SelfCollision(WalkedTimes(InitialBody, Right, n))
  {
    assert InitialBody == StraightBody(100, 100);
    StraightRun(100, 100, n);
  }

  class Snake {
    var body: seq<Pos>
    var direction: Direction
    var grow: bool

    constructor ()
      ensures body == InitialBody && direction == Right && !grow
    {
      body := InitialBody;
      direction := Right;
      grow := false;
    }

    /** One step: the head advances one cell and pending growth is used up. */
    method Walk()
      requires |body| >= 1
      modifies this
      ensures body == Walked(old(body), old(direction), old(grow))
      ensures direction == old(direction) && !grow
    {
      var headX, headY := body[0].0, body[0].1;
      if direction == Down {
        headY := headY + BlockSize;
      } else if direction == Up {
        headY := headY - BlockSize;
      } else if direction == Left {
        headX := headX - BlockSize;
      } else if direction == Right {
        headX := headX + BlockSize;
      }
      var newHead := (headX, headY);
      assert newHead == Moved(body[0], direction);
      body := [newHead] + body[..|body| - 1];
      if grow {
        body := body + [body[|body| - 1]];
        grow := false;
      }
    }

    /** Turn as `key` asks, unless that is straight back or not an arrow. */
    method ChangeDirection(key: Key)
      modifies this`direction
      ensures direction == NewDirection(old(direction), key)
      ensures direction != Opposite(old(direction))
    {
      if (key == ArrowKey(Left) && direction != Right)
        || (key == ArrowKey(Right) && direction != Left)
        || (key == ArrowKey(Up) && direction != Down)
        || (key == ArrowKey(Down) && direction != Up)
      {
        direction := key.dir;
      }
    }
  }
}
