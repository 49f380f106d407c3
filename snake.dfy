/**
 * The game state as a value and one tick of the game (`updateSnake`) as a
 * function of it. The class in module Game is proved to implement these.
 */
module Snake {
  import opened Board
  import opened Keys

  /** Snake body (head first), velocity, apple and game-over flag. */
  datatype State = State(body: seq<Point>, velX: int, velY: int, apple: Point, gameOver: bool)

  /** The body never gets empty and never outgrows its array. */
  predicate WellFormed(s: State) {
    1 <= |s.body| <= MaxLength
  }

  /**
   * The state `init` sets up: one segment at (4,8) heading right; `apple` is
   * where placement put it. It starts a game that is not over and that meets
   * the invariant every later state keeps.
   */
  function Initial(apple: Point): (s: State)
    ensures Good(s) && !s.gameOver && InBounds(s.body[0])
  {
    State([Point(4, 8)], 1, 0, apple, false)
  }

  /** The body after the shift loop and the head move of one tick. */
  function Advance(body: seq<Point>, dx: int, dy: int): (moved: seq<Point>)
    requires |body| >= 1
    ensures |moved| == |body|
    ensures moved[0] == Point(body[0].x + dx, body[0].y + dy)
    ensures forall i :: 1 <= i < |body| ==> moved[i] == body[i - 1]
  {
    [Move(body[0], dx, dy)] + body[..|body| - 1]
  }

  /** The head lies on some other segment. */
  function HitsItself(body: seq<Point>): (hit: bool)
    requires |body| >= 1
    ensures hit <==> body[0] in body[1..]
  {
    exists i :: 1 <= i < |body| && body[i] == body[0]
  }

  /** The head is on the apple and the body still has room for one more segment. */
  predicate Eats(body: seq<Point>, apple: Point)
    requires |body| >= 1
  {
    body[0] == apple && |body| < MaxLength
  }

  /** A new tail segment on the position of the current last one. */
  function Grow(body: seq<Point>): (grown: seq<Point>)
    requires |body| >= 1
    ensures |grown| == |body| + 1 && grown[..|body|] == body
    ensures grown[|body|] == body[|body| - 1]
    ensures Cells(grown) == Cells(body)
  {
    body + [body[|body| - 1]]
  }

  /**
   * One tick. `next` is the cell apple placement picks when the snake eats;
   * it is not used otherwise.
   */
  function Tick(s: State, next: Point): (r: State)
    requires |s.body| >= 1
    ensures r.velX == s.velX && r.velY == s.velY
    ensures |s.body| <= |r.body| <= |s.body| + 1
    ensures |r.body| > |s.body| ==> r.apple == next
    ensures |r.body| == |s.body| ==> r.apple == s.apple
    ensures s.gameOver ==> r.gameOver
  {
    var moved := Advance(s.body, s.velX, s.velY);
    var over := s.gameOver || !InBounds(moved[0]) || HitsItself(moved);
    if Eats(moved, s.apple) then s.(body := Grow(moved), apple := next, gameOver := over)
    else s.(body := moved, gameOver := over)
  }

  /** Every segment but the head takes its predecessor's place; the head moves by the velocity. */
  lemma TickMovesBody(s: State, next: Point)
    requires |s.body| >= 1
    ensures var r := Tick(s, next);
      && |r.body| >= |s.body|
      && r.body[0] == Point(s.body[0].x + s.velX, s.body[0].y + s.velY)
      && (forall i :: 1 <= i < |s.body| ==> r.body[i] == s.body[i - 1])
      && r.velX == s.velX && r.velY == s.velY
  {
  }

  /**
   * The flag is set when the new head leaves the board or lands on another
   * segment of the shifted body, and is otherwise left as it was.
   */
  lemma TickGameOver(s: State, next: Point)
    requires |s.body| >= 1
    ensures var r := Tick(s, next);
      var head := r.body[0];
      r.gameOver <==> s.gameOver || head.x < 1 || head.x > BoardSize || head.y < 1 || head.y > BoardSize
                      || exists i :: 1 <= i < |s.body| && r.body[i] == head
  {
    var moved := Advance(s.body, s.velX, s.velY);
    var r := Tick(s, next);
    assert forall i :: 0 <= i < |moved| ==> r.body[i] == moved[i];
  }

  /**
   * Growth depends on the apple and the length only, never on the game-over
   * flag: the snake grows by exactly one segment, doubling its (shifted) last
   * segment, and the apple moves to `next`; otherwise length and apple stay.
   */
  lemma TickGrowth(s: State, next: Point)
    requires |s.body| >= 1
    ensures var r := Tick(s, next);
      var n := |s.body|;
      if r.body[0] == s.apple && n < MaxLength then
        |r.body| == n + 1 && r.body[n] == r.body[n - 1] && r.apple == next
      else
        |r.body| == n && r.apple == s.apple
  {
  }

  /**
   * When the snake grows, its last two segments share a cell, so it covers at
   * most MaxLength - 1 = 255 of the board's 256 cells: apple placement always
   * has a free cell to find, even at full length.
   */
  lemma {:induction false} FreeCellAfterGrowth(moved: seq<Point>)
    requires 1 <= |moved| < MaxLength
    ensures exists p :: InBounds(p) && p !in Grow(moved)
  {
    CellsCard(moved);
    FreeCellExists(Grow(moved));
  }

  /** A tick keeps the body non-empty and within capacity, and never shortens it. */
  lemma TickKeepsWellFormed(s: State, next: Point)
    requires WellFormed(s)
    ensures WellFormed(Tick(s, next))
    ensures |s.body| <= |Tick(s, next).body| <= |s.body| + 1
    ensures s.gameOver ==> Tick(s, next).gameOver
  {
  }

  /** Two consecutive segments are on the same cell or on neighbouring cells. */
  predicate Touching(p: Point, q: Point) {
    p == q || IsDirection(Point(q.x - p.x, q.y - p.y))
  }

  /** The body is one unbroken chain of cells. */
  predicate Connected(body: seq<Point>) {
    forall i :: 1 <= i < |body| ==> Touching(body[i - 1], body[i])
  }

  /** Moving along an axis keeps the body an unbroken chain. */
  lemma {:induction false} TickKeepsConnected(s: State, next: Point)
    requires |s.body| >= 1
    requires IsDirection(Point(s.velX, s.velY)) && Connected(s.body)
    ensures Connected(Tick(s, next).body)
  {
    var moved := Advance(s.body, s.velX, s.velY);
    var r := Tick(s, next).body;
    assert Connected(moved) by {
      forall i | 1 <= i < |moved| ensures Touching(moved[i - 1], moved[i]) {
        if i == 1 {
          assert moved[1] == s.body[0];
          assert Point(moved[1].x - moved[0].x, moved[1].y - moved[0].y) == Opposite(Point(s.velX, s.velY));
        } else {
          assert moved[i - 1] == s.body[i - 2] && moved[i] == s.body[i - 1];
        }
      }
    }
    if Eats(moved, s.apple) {
      assert r == Grow(moved);
      forall i | 1 <= i < |r| ensures Touching(r[i - 1], r[i]) {
        if i < |moved| {
          assert r[i - 1] == moved[i - 1] && r[i] == moved[i];
        }
      }
    }
  }

  /**
   * The head lands on the cell the second segment held before the tick
   * exactly when the velocity points from the head back to that segment.
   */
  lemma TickSparesNeck(s: State, next: Point)
    requires |s.body| >= 2
    ensures Tick(s, next).body[0] == s.body[1] <==>
      Point(s.velX, s.velY) == Point(s.body[1].x - s.body[0].x, s.body[1].y - s.body[0].y)
  {
  }

  /**
   * The key guard protects the neck for one press: if the snake last moved
   * along an axis with its head one step ahead of its second segment, then
   * after any single key press the next tick does not put the head back on
   * that segment's cell.
   */
  lemma OnePressSparesNeck(s: State, ch: char, next: Point)
    requires |s.body| >= 2 && IsDirection(Point(s.velX, s.velY))
    requires s.body[0] == Move(s.body[1], s.velX, s.velY)
    ensures Tick(Apply(s, Key(ch)), next).body[0] != s.body[1]
  {
    var t := Apply(s, Key(ch));
    var c := PressKey(Control(s.velX, s.velY, s.gameOver), ch);
    assert t.body == s.body && Velocity(c) == Point(t.velX, t.velY);
    assert Velocity(c) != Opposite(Point(s.velX, s.velY));
    TickMovesBody(t, next);
  }

  /**
   * Two presses between ticks defeat the guard: a right-moving snake of three
   * or more segments whose head is one step ahead of its second segment turns,
   * after `w` and `a`, back onto the cell that segment held (now the third
   * segment's), and the game ends.
   */
  lemma TwoPressesThenTickHitsNeck(s: State, next: Point)
    requires |s.body| >= 3 && s.velX == 1 && s.velY == 0
    requires s.body[0] == Move(s.body[1], 1, 0)
    ensures var r := Tick(Apply(Apply(s, Key('w')), Key('a')), next);
      r.body[0] == s.body[1] && r.gameOver
  {
    var up := Apply(s, Key('w'));
    assert PressKey(Control(1, 0, s.gameOver), 'w') == Control(0, -1, s.gameOver);
    assert up == s.(velX := 0, velY := -1);
    var turned := Apply(up, Key('a'));
    assert PressKey(Control(0, -1, s.gameOver), 'a') == Control(-1, 0, s.gameOver);
    assert turned == s.(velX := -1, velY := 0);
    var moved := Advance(s.body, -1, 0);
    assert moved[0] == s.body[1] == moved[2];
    assert HitsItself(moved);
  }

  /**
   * With two segments the same presses put the head on the old neck cell too,
   * but the neck has moved on to the old head's cell, so the game goes on.
   */
  lemma TwoPressesShortSnakeSurvives(next: Point)
    ensures var s := State([Point(5, 5), Point(4, 5)], 1, 0, Point(10, 10), false);
      var r := Tick(Apply(Apply(s, Key('w')), Key('a')), next);
      r.body == [Point(4, 5), Point(5, 5)] && !r.gameOver
  {
    var s := State([Point(5, 5), Point(4, 5)], 1, 0, Point(10, 10), false);
    var up := Apply(s, Key('w'));
    assert PressKey(Control(1, 0, false), 'w') == Control(0, -1, false);
    var turned := Apply(up, Key('a'));
    assert PressKey(Control(0, -1, false), 'a') == Control(-1, 0, false);
    assert turned == s.(velX := -1, velY := 0);
    assert Advance(s.body, -1, 0) == [Point(4, 5), Point(5, 5)];
  }

  /**
   * An apple that is off the snake stays off it across a tick that does not
   * reach full length, given that a newly placed apple is on a free cell.
   */
  lemma TickKeepsAppleFree(s: State, next: Point)
    requires 1 <= |s.body| < MaxLength
    requires s.apple !in s.body
    requires Eats(Advance(s.body, s.velX, s.velY), s.apple) ==> next !in Grow(Advance(s.body, s.velX, s.velY))
    ensures Tick(s, next).apple !in Tick(s, next).body
  {
    var moved := Advance(s.body, s.velX, s.velY);
    if !Eats(moved, s.apple) {
      forall i | 1 <= i < |moved| ensures moved[i] != s.apple {
        assert moved[i] == s.body[i - 1];
      }
    }
  }

  /** What can happen to the game between two observations: a key press or a tick. */
  datatype Event = Key(ch: char) | Step(next: Point)

  /**
   * The effect of one event. A key press never moves the snake or the apple;
   * neither event shrinks the snake, grows it by more than one segment, or
   * clears the flag.
   */
  function Apply(s: State, e: Event): (r: State)
    requires |s.body| >= 1
    ensures e.Key? ==> r.body == s.body && r.apple == s.apple
    ensures |s.body| <= |r.body| <= |s.body| + 1
    ensures s.gameOver ==> r.gameOver
  {
    match e
    case Key(ch) =>
      var c := PressKey(Control(s.velX, s.velY, s.gameOver), ch);
      s.(velX := c.velX, velY := c.velY, gameOver := c.gameOver)
    case Step(next) => Tick(s, next)
  }

  /** The invariant of every state the game can reach. */
  predicate Good(s: State) {
    WellFormed(s) && IsDirection(Point(s.velX, s.velY)) && Connected(s.body)
  }

  /** The state after a sequence of events, in order; each event adds no segment or one. */
  function Run(s: State, events: seq<Event>): (r: State)
    requires Good(s)
    ensures |s.body| <= |r.body| <= |s.body| + |events|
    decreases |events|
  {
    if events == [] then s
    else
      RunStep(s, events[0]);
      Run(Apply(s, events[0]), events[1..])
  }

  lemma RunStep(s: State, e: Event)
    requires Good(s)
    ensures Good(Apply(s, e))
    ensures |s.body| <= |Apply(s, e).body|
    ensures s.gameOver ==> Apply(s, e).gameOver
  {
    match e
    case Key(ch) =>
    case Step(next) =>
      TickKeepsWellFormed(s, next);
      TickKeepsConnected(s, next);
  }

  /**
   * From the initial state, under any interleaving of key presses and ticks,
   * the snake keeps between 1 and MaxLength segments in one unbroken chain,
   * keeps moving along an axis, never shrinks, and a finished game stays
   * finished.
   */
  lemma {:induction false} RunFromInitial(apple: Point, events: seq<Event>)
    ensures Good(Initial(apple))
    ensures var r := Run(Initial(apple), events);
      1 <= |r.body| <= MaxLength && IsDirection(Point(r.velX, r.velY)) && Connected(r.body)
  {
    RunKeepsGood(Initial(apple), events);
  }

  lemma {:induction false} RunKeepsGood(s: State, events: seq<Event>)
    requires Good(s)
    ensures Good(Run(s, events))
    ensures |s.body| <= |Run(s, events).body|
    ensures s.gameOver ==> Run(s, events).gameOver
    decreases |events|
  {
    if events != [] {
      RunStep(s, events[0]);
      RunKeepsGood(Apply(s, events[0]), events[1..]);
    }
  }

  /** Below full length the apple is off the snake (at full length the snake may pass over it). */
  predicate AppleFree(s: State) {
    |s.body| < MaxLength ==> s.apple !in s.body
  }

  /** An event that places an apple puts it on a cell off the grown body, as `placeApple` does. */
  predicate FairStep(s: State, e: Event)
    requires |s.body| >= 1
  {
    var moved := Advance(s.body, s.velX, s.velY);
    e.Step? && Eats(moved, s.apple) ==> e.next !in Grow(moved)
  }

  /** Every event of the run is fair in the state it is applied to. */
  predicate FairRun(s: State, events: seq<Event>)
    requires Good(s)
    decreases |events|
  {
    if events == [] then true
    else if !FairStep(s, events[0]) then false
    else
      RunStep(s, events[0]);
      FairRun(Apply(s, events[0]), events[1..])
  }

  /** A fair event keeps the apple off the snake below full length. */
  lemma StepKeepsAppleFree(s: State, e: Event)
    requires WellFormed(s) && AppleFree(s) && FairStep(s, e)
    ensures AppleFree(Apply(s, e))
  {
    match e
    case Key(ch) =>
    case Step(next) =>
      if |s.body| < MaxLength {
        TickKeepsAppleFree(s, next);
      }
  }

  /** Over a fair run, the apple stays off the snake whenever the snake is below full length. */
  lemma {:induction false} RunKeepsAppleFree(s: State, events: seq<Event>)
    requires Good(s) && AppleFree(s) && FairRun(s, events)
    ensures AppleFree(Run(s, events))
    decreases |events|
  {
    if events != [] {
      StepKeepsAppleFree(s, events[0]);
      RunStep(s, events[0]);
      RunKeepsAppleFree(Apply(s, events[0]), events[1..]);
    }
  }

  /**
   * With the apple off the snake, no tick both eats and hits the body: the
   * shifted segments behind the head are old segments, none on the apple.
   */
  lemma EatingNeverCollides(s: State)
    requires WellFormed(s) && AppleFree(s)
    ensures var moved := Advance(s.body, s.velX, s.velY);
      !(HitsItself(moved) && Eats(moved, s.apple))
  {
    var moved := Advance(s.body, s.velX, s.velY);
    if Eats(moved, s.apple) {
      forall i | 1 <= i < |moved| ensures moved[i] != moved[0] {
        assert moved[i] == s.body[i - 1];
      }
    }
  }

  /**
   * In a game started by `init` (apple off the single segment) whose apple
   * placements are fair, the next tick never both eats and hits the body.
   */
  lemma {:induction false} FairRunNeverEatsIntoItself(apple: Point, events: seq<Event>)
    requires apple != Point(4, 8) && FairRun(Initial(apple), events)
    ensures var r := Run(Initial(apple), events);
      var moved := Advance(r.body, r.velX, r.velY);
      !(HitsItself(moved) && Eats(moved, r.apple))
  {
    RunKeepsGood(Initial(apple), events);
    RunKeepsAppleFree(Initial(apple), events);
    EatingNeverCollides(Run(Initial(apple), events));
  }

  /** The first tick after `init` with no key pressed moves the head to (5,8). */
  lemma FirstTick(apple: Point, next: Point)
    requires apple != Point(5, 8)
    ensures Tick(Initial(apple), next) == Initial(apple).(body := [Point(5, 8)])
  {
  }

  /** Eating at (6,5): the new fourth segment repeats the shifted third, (4,5), not the old tail (3,5). */
  lemma GrowthRepeatsShiftedTail(next: Point)
    ensures var s := State([Point(5, 5), Point(4, 5), Point(3, 5)], 1, 0, Point(6, 5), false);
      Tick(s, next).body == [Point(6, 5), Point(5, 5), Point(4, 5), Point(4, 5)]
  {
  }

  /**
   * A self-collision ends the game but does not stop the snake eating an
   * apple on that cell; this needs the apple on the snake, which a fair run
   * from `init` never produces.
   */
  lemma CollisionStillGrows(next: Point)
    ensures var s := State([Point(2, 2), Point(3, 2), Point(3, 3), Point(2, 3), Point(1, 3)], 0, 1, Point(2, 3), false);
      var r := Tick(s, next);
      r.gameOver && |r.body| == 6 && r.apple == next
  {
  }

  /**
   * `q` read between the main loop's test and the tick: the tick still moves
   * the snake onto the apple and grows it although the game is already over.
   */
  lemma QuitThenTickStillGrows(next: Point)
    ensures var s := State([Point(5, 5)], 1, 0, Point(6, 5), false);
      var r := Tick(Apply(s, Key('q')), next);
      r.gameOver && r.body == [Point(6, 5), Point(6, 5)] && r.apple == next
  {
  }
}
