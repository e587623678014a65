/*
 * The game session: the snake, the apple, the score and the running flag,
 * the handling of one input event, and one iteration of the main loop
 * (events, step, apple, collisions). Drawing and pacing are not modelled.
 *
 * The random draws of the apple placement are inputs: `i` and `j` stand for
 * the two integers the source draws, and their range is a precondition.
 */
module GameModel {
  import opened SnakeModel

  /** Size of the fixed window, in pixels. */
  const Width: int := 1000
  const Height: int := 500

  /** The apple occupies one cell. */
  const AppleSize: int := BlockSize

  /** An input event as the loop receives it. */
  datatype Event = KeyDown(key: Key) | QuitEvent | OtherEvent

  /** Everything one loop iteration consumes: its events and the two draws for a new apple. */
  datatype TickInput = TickInput(events: seq<Event>, i: int, j: int)

  /** The draws `i`, `j` lie in the ranges the placement draws from on a `width` x `height` window. */
  predicate ValidDraws(width: int, height: int, i: int, j: int) {
    0 <= i <= (width - AppleSize) / AppleSize && 0 <= j <= (height - AppleSize) / AppleSize
  }

  /** A cell the apple may occupy: on the grid, fully inside the window. */
  predicate ApplePlacement(p: Pos, width: int, height: int) {
    Aligned(p) && 0 <= p.0 <= width - AppleSize && 0 <= p.1 <= height - AppleSize
  }

  /** The apple position chosen from the draws `i` and `j`. */
  function RandomApplePos(width: int, height: int, i: int, j: int): (p: Pos)
    requires ValidDraws(width, height, i, j)
    ensures ApplePlacement(p, width, height)
  {
    (i * AppleSize, j * AppleSize)
  }

  /** Every admissible cell is chosen by some pair of draws: the placement can reach the whole window. */
  lemma RandomApplePosCovers(width: int, height: int, p: Pos)
    requires ApplePlacement(p, width, height)
    ensures ValidDraws(width, height, p.0 / AppleSize, p.1 / AppleSize)
    ensures RandomApplePos(width, height, p.0 / AppleSize, p.1 / AppleSize) == p
  {
  }

  /** The placement does not avoid the snake: the draws (5, 5) put the apple on the initial head. */
  lemma AppleMayLandOnSnake()
    ensures ValidDraws(Width, Height, 5, 5)
    ensures RandomApplePos(Width, Height, 5, 5) == InitialBody[0]
  {
  }

  /** An apple cell is on the board, so a head on the apple is never out of bounds. */
  lemma EatingNeverLeavesBoard(body: seq<Pos>, apple: Pos)
    requires |body| >= 1 && ApplePlacement(apple, Width, Height) && ReachedApple(body, apple)
    ensures !BoundaryCollision(body, Width, Height)
  {
  }

  predicate IsExit(e: Event) {
    e == QuitEvent || e == KeyDown(EscapeKey)
  }

  predicate IsArrow(e: Event) {
    e.KeyDown? && e.key.ArrowKey?
  }

  /** The running flag after one event: it stays set unless the event asks to exit. */
  function RunningAfterEvent(running: bool, e: Event): (r: bool)
    ensures r <==> running && !IsExit(e)
  {
    match e
    case KeyDown(key) => if key == EscapeKey then false else running
    case QuitEvent => false
    case OtherEvent => running
  }

  /** The heading after one event: never the reverse, and either unchanged or the arrow pressed. */
  function DirectionAfterEvent(d: Direction, e: Event): (r: Direction)
    ensures r != Opposite(d)
    ensures r == d || e == KeyDown(ArrowKey(r))
    ensures !IsArrow(e) ==> r == d
  {
    if IsArrow(e) then NewDirection(d, e.key) else d
  }

  /** The running flag after a batch of events, handled in order; it is never set again once cleared. */
  function RunningAfterEvents(running: bool, events: seq<Event>): (r: bool)
    ensures r ==> running
    decreases |events|
  {
    if events == [] then running
    else RunningAfterEvent(RunningAfterEvents(running, events[..|events| - 1]), events[|events| - 1])
  }

  /** The heading after a batch of events, handled in order. */
  function DirectionAfterEvents(d: Direction, events: seq<Event>): Direction
    decreases |events|
  {
    if events == [] then d
    else DirectionAfterEvent(DirectionAfterEvents(d, events[..|events| - 1]), events[|events| - 1])
  }

  /** The game keeps running through a batch of events exactly when it was running and none of them asks to exit. */
  lemma {:induction false} RunningAfterEventsIff(running: bool, events: seq<Event>)
    ensures RunningAfterEvents(running, events)
        <==> running && forall k :: 0 <= k < |events| ==> !IsExit(events[k])
    decreases |events|
  {
    if events != [] {
      var n := |events| - 1;
      RunningAfterEventsIff(running, events[..n]);
      assert forall k :: 0 <= k < n ==> events[..n][k] == events[k];
    }
  }

  /** After a batch of events the heading is the old one or that of one of its arrows. */
  lemma {:induction false} DirectionAfterEventsChoice(d: Direction, events: seq<Event>)
    ensures var r := DirectionAfterEvents(d, events);
      r == d || exists k :: 0 <= k < |events| && events[k] == KeyDown(ArrowKey(r))
    decreases |events|
  {
    if events != [] {
      var n := |events| - 1;
      DirectionAfterEventsChoice(d, events[..n]);
      var r0 := DirectionAfterEvents(d, events[..n]);
      if r0 != d {
        var k :| 0 <= k < n && events[..n][k] == KeyDown(ArrowKey(r0));
        assert events[k] == KeyDown(ArrowKey(r0));
      }
    }
  }

  /** Events without arrow keys leave the heading alone. */
  lemma {:induction false} DirectionAfterEventsWithoutArrows(d: Direction, events: seq<Event>)
    requires forall k :: 0 <= k < |events| ==> !IsArrow(events[k])
    ensures DirectionAfterEvents(d, events) == d
    decreases |events|
  {
    if events != [] {
      var n := |events| - 1;
      assert forall k :: 0 <= k < n ==> events[..n][k] == events[k];
      DirectionAfterEventsWithoutArrows(d, events[..n]);
    }
  }

  /** A single event never turns the snake straight back. */
  lemma OneEventNeverReverses(d: Direction, e: Event)
    ensures DirectionAfterEvents(d, [e]) != Opposite(d)
  {
  }

  /** The check is per key press, so two arrows within one iteration can reverse the snake. */
  lemma TwoArrowsReverse()
    ensures DirectionAfterEvents(Right, [KeyDown(ArrowKey(Up)), KeyDown(ArrowKey(Left))]) == Opposite(Right)
  {
  }

  /** From the start, pressing Up then Left within the first iteration ends the game by self-collision. */
  lemma QuickTurnAtStartCollides()
    ensures SelfCollision(Walked(InitialBody,
      DirectionAfterEvents(Right, [KeyDown(ArrowKey(Up)), KeyDown(ArrowKey(Left))]), false))
  {
    TwoArrowsReverse();
    assert InitialBody[0] == Moved(InitialBody[1], Opposite(Left));
    ReversingIntoNeck(InitialBody, Left, false);
  }

  /** Everything one loop iteration reads and writes, as a value. */
  datatype Session = Session(
    body: seq<Pos>, direction: Direction, grow: bool,
    apple: Pos, score: int, running: bool)

  /**
   * The session invariant: the body is non-empty and on the grid, the apple
   * is on an admissible cell, and every point scored is a segment already
   * grown or, for the latest apple, one still pending.
   */
  predicate SessionValid(s: Session) {
    |s.body| >= 1
    && AllAligned(s.body)
    && ApplePlacement(s.apple, Width, Height)
    && s.score >= 0
    && |s.body| + (if s.grow then 1 else 0) == |InitialBody| + s.score
  }

  predicate AllDrawsValid(ticks: seq<TickInput>) {
    forall t :: 0 <= t < |ticks| ==> ValidDraws(Width, Height, ticks[t].i, ticks[t].j)
  }

  /**
   * One iteration of the main loop on a session value: the events, the
   * step, the apple, the collision test, in that order. An exit event does
   * not cut the iteration short.
   */
  function TickStep(s: Session, input: TickInput): (r: Session)
    requires |s.body| >= 1 && ValidDraws(Width, Height, input.i, input.j)
    ensures |r.body| == |s.body| + (if s.grow then 1 else 0)
    ensures s.score <= r.score <= s.score + 1
    ensures r.score == s.score + 1 <==> r.grow
    ensures r.running ==> s.running
  {
    var direction := DirectionAfterEvents(s.direction, input.events);
    var running := RunningAfterEvents(s.running, input.events);
    var body := Walked(s.body, direction, s.grow);
    var ate := ReachedApple(body, s.apple);
    var apple := if ate then RandomApplePos(Width, Height, input.i, input.j) else s.apple;
    var score := if ate then s.score + 1 else s.score;
    var collided := SelfCollision(body) || BoundaryCollision(body, Width, Height);
    RunningAfterEventsIff(s.running, input.events);
    Session(body, direction, ate, apple, score, running && !collided)
  }

  /** The main loop fed `ticks` one per iteration, stopping once the game no longer runs. */
  function RunTicks(s: Session, ticks: seq<TickInput>): (r: Session)
    requires |s.body| >= 1 && AllDrawsValid(ticks)
    ensures |r.body| >= |s.body|
    decreases |ticks|
  {
    if !s.running || ticks == [] then s
    else RunTicks(TickStep(s, ticks[0]), ticks[1..])
  }

  /** How many iterations `RunTicks` plays. */
  function TicksPlayed(s: Session, ticks: seq<TickInput>): (n: nat)
    requires |s.body| >= 1 && AllDrawsValid(ticks)
    ensures n <= |ticks|
    decreases |ticks|
  {
    if !s.running || ticks == [] then 0
    else 1 + TicksPlayed(TickStep(s, ticks[0]), ticks[1..])
  }

  lemma DrawsValidSuffix(ticks: seq<TickInput>, k: nat)
    requires AllDrawsValid(ticks) && k <= |ticks|
    ensures AllDrawsValid(ticks[k..])
  {
    forall t | 0 <= t < |ticks[k..]|
      ensures ValidDraws(Width, Height, ticks[k..][t].i, ticks[k..][t].j)
    {
      assert ticks[k..][t] == ticks[k + t];
    }
  }

  lemma RunTicksUnfold(s: Session, ticks: seq<TickInput>)
    requires |s.body| >= 1 && AllDrawsValid(ticks) && s.running && ticks != []
    ensures AllDrawsValid(ticks[1..])
    ensures RunTicks(s, ticks) == RunTicks(TickStep(s, ticks[0]), ticks[1..])
    ensures TicksPlayed(s, ticks) == 1 + TicksPlayed(TickStep(s, ticks[0]), ticks[1..])
  {
    DrawsValidSuffix(ticks, 1);
  }

  /** One iteration keeps the session invariant. */
  lemma TickStepKeepsValid(s: Session, input: TickInput)
    requires SessionValid(s) && ValidDraws(Width, Height, input.i, input.j)
    ensures SessionValid(TickStep(s, input))
  {
    WalkedKeepsAlignment(s.body, DirectionAfterEvents(s.direction, input.events), s.grow);
  }

  /**
   * A bounded run keeps the session invariant; the score never falls and
   * rises at most one per iteration played; a run stops early only once
   * the game no longer runs; a finished game is left as it is, and a
   * running one plays at least one iteration when there is one to play.
   */
  lemma {:induction false} RunTicksProperties(s: Session, ticks: seq<TickInput>)
    requires SessionValid(s) && AllDrawsValid(ticks)
    ensures SessionValid(RunTicks(s, ticks))
    ensures s.score <= RunTicks(s, ticks).score <= s.score + TicksPlayed(s, ticks)
    ensures TicksPlayed(s, ticks) < |ticks| ==> !RunTicks(s, ticks).running
    ensures !s.running ==> RunTicks(s, ticks) == s && TicksPlayed(s, ticks) == 0
    ensures s.running && ticks != [] ==> TicksPlayed(s, ticks) >= 1
    decreases |ticks|
  {
    if s.running && ticks != [] {
      TickStepKeepsValid(s, ticks[0]);
      DrawsValidSuffix(ticks, 1);
      RunTicksProperties(TickStep(s, ticks[0]), ticks[1..]);
    }
  }

  /** The apple's on-screen block; only its position is modelled. */
  class Block {
    var x: int
    var y: int

    constructor (x: int, y: int)
      ensures this.x == x && this.y == y
    {
      this.x := x;
      this.y := y;
    }

    method SetPosition(x: int, y: int)
      modifies this
      ensures this.x == x && this.y == y
    {
      this.x := x;
      this.y := y;
    }
  }

  class Game {
    const snake: Snake
    const apple: Block
    var score: int
    var running: bool

    /** The session as a value. */
    ghost function State(): Session
      reads this, snake, apple
    {
      Session(snake.body, snake.direction, snake.grow, (apple.x, apple.y), score, running)
    }

    ghost predicate Valid()
      reads this, snake, apple
    {
      SessionValid(State())
    }

    constructor (i: int, j: int)
      requires ValidDraws(Width, Height, i, j)
      ensures Valid()
      ensures snake.body == InitialBody && snake.direction == Right && !snake.grow
      ensures State().apple == RandomApplePos(Width, Height, i, j)
      ensures score == 0 && running
      ensures fresh(snake) && fresh(apple)
    {
      snake := new Snake();
      var (ax, ay) := RandomApplePos(Width, Height, i, j);
      apple := new Block(ax, ay);
      score := 0;
      running := true;
    }

    /** Escape or a quit request stops the game; an arrow key may turn the snake; anything else is ignored. */
    method HandleEvent(e: Event)
      modifies this`running, snake`direction
      ensures running == RunningAfterEvent(old(running), e)
      ensures snake.direction == DirectionAfterEvent(old(snake.direction), e)
    {
      match e
      case KeyDown(key) =>
        if key == EscapeKey {
          running := false;
        } else if key.ArrowKey? {
          snake.ChangeDirection(key);
        }
      case QuitEvent =>
        running := false;
      case OtherEvent =>
    }

    /**
     * One iteration of the main loop: handle the events, step the snake,
     * eat the apple if the head is on it (score, growth, new apple), and
     * stop on a self- or boundary collision.
     */
    method Tick(events: seq<Event>, i: int, j: int)
      requires Valid() && running
      requires ValidDraws(Width, Height, i, j)
      modifies this, snake, apple
      ensures Valid()
      ensures snake.direction == DirectionAfterEvents(old(snake.direction), events)
      ensures snake.body == Walked(old(snake.body), snake.direction, old(snake.grow))
      ensures var ate := snake.body[0] == old(State().apple);
        && score == old(score) + (if ate then 1 else 0)
        && snake.grow == ate
        && State().apple == (if ate then RandomApplePos(Width, Height, i, j) else old(State().apple))
      ensures running <==> (RunningAfterEvents(true, events)
                            && !SelfCollision(snake.body)
                            && !BoundaryCollision(snake.body, Width, Height))
      ensures State() == TickStep(old(State()), TickInput(events, i, j))
    {
      var k := 0;
      while k < |events|
        invariant 0 <= k <= |events|
        invariant running == RunningAfterEvents(true, events[..k])
        invariant snake.direction == DirectionAfterEvents(old(snake.direction), events[..k])
        invariant snake.body == old(snake.body) && snake.grow == old(snake.grow)
        invariant score == old(score) && State().apple == old(State().apple)
      {
        assert events[..k + 1][..k] == events[..k];
        HandleEvent(events[k]);
        k := k + 1;
      }
      assert events[..k] == events;
      TickStepKeepsValid(old(State()), TickInput(events, i, j));

      snake.Walk();

      if ReachedApple(snake.body, (apple.x, apple.y)) {
        score := score + 1;
        snake.grow := true;
        var (ax, ay) := RandomApplePos(Width, Height, i, j);
        apple.SetPosition(ax, ay);
      }

      if SelfCollision(snake.body) || BoundaryCollision(snake.body, Width, Height) {
        running := false;
      }
    }

    /**
     * The main loop run for at most `|ticks|` iterations: each iteration is
     * one `Tick`, and the loop stops as soon as the game no longer runs.
     */
    method Run(ticks: seq<TickInput>) returns (played: nat)
      requires Valid()
      requires AllDrawsValid(ticks)
      modifies this, snake, apple
      ensures State() == RunTicks(old(State()), ticks)
      ensures played == TicksPlayed(old(State()), ticks)
      ensures Valid()
      ensures played <= |ticks|
      ensures played < |ticks| ==> !running
      ensures old(score) <= score <= old(score) + played
      ensures old(running) && |ticks| > 0 ==> played >= 1
      ensures !old(running) ==> played == 0 && unchanged(this, snake, apple)
    {
      RunTicksProperties(State(), ticks);
      played := RunLoop(ticks);
    }

    /** The loop of `Run`: ticks while the game runs and inputs remain. */
    method RunLoop(ticks: seq<TickInput>) returns (played: nat)
      requires Valid()
      requires AllDrawsValid(ticks)
      modifies this, snake, apple
      ensures State() == RunTicks(old(State()), ticks)
      ensures played == TicksPlayed(old(State()), ticks)
      ensures !old(running) ==> unchanged(this, snake, apple)
    {
      played := 0;
      if !running {
        return;
      }
      ghost var start := State();
      ghost var now := start;
      while running && played < |ticks|
        invariant now == State() && SessionValid(now)
        invariant played <= |ticks|
        invariant AllDrawsValid(ticks[played..])
        invariant RunTicks(now, ticks[played..]) == RunTicks(start, ticks)
        invariant played + TicksPlayed(now, ticks[played..]) == TicksPlayed(start, ticks)
        decreases |ticks| - played
      {
        var rest := ticks[played..];
        RunTicksUnfold(now, rest);
        assert rest[1..] == ticks[played + 1..];
        Tick(rest[0].events, rest[0].i, rest[0].j);
        now := TickStep(now, rest[0]);
        played := played + 1;
      }
    }
  }

  /** The session a new game starts in. */
  function InitialSession(i: int, j: int): Session
    requires ValidDraws(Width, Height, i, j)
  {
    Session(InitialBody, Right, false, RandomApplePos(Width, Height, i, j), 0, true)
  }

  /** The program's entry point: build a game and run its main loop, here for at most `|ticks|` iterations. */
  method Play(i: int, j: int, ticks: seq<TickInput>) returns (game: Game, played: nat)
    requires ValidDraws(Width, Height, i, j) && AllDrawsValid(ticks)
    ensures fresh(game) && fresh(game.snake) && fresh(game.apple)
    ensures game.Valid()
    ensures game.State() == RunTicks(InitialSession(i, j), ticks)
    ensures played == TicksPlayed(InitialSession(i, j), ticks)
    ensures 0 <= game.score <= played <= |ticks|
    ensures played < |ticks| ==> !game.running
  {
    game := new Game(i, j);
    played := game.Run(ticks);
  }
}
