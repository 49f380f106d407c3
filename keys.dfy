/** Keyboard handling: one key press applied to the snake's velocity and the game-over flag. */
module Keys {
  import opened Board

  /** The state a key press reads and writes: the velocity and the game-over flag. */
  datatype Control = Control(velX: int, velY: int, gameOver: bool)

  function Velocity(c: Control): Point {
    Point(c.velX, c.velY)
  }

  /** A unit step along one axis: up, down, left or right. */
  predicate IsDirection(v: Point) {
    v == Point(0, -1) || v == Point(0, 1) || v == Point(-1, 0) || v == Point(1, 0)
  }

  function Opposite(v: Point): Point {
    Point(-v.x, -v.y)
  }

  predicate IsMoveKey(ch: char) {
    ch == 'w' || ch == 's' || ch == 'a' || ch == 'd'
  }

  /** The direction a movement key asks for; `w` is up, i.e. towards smaller y. */
  function KeyDirection(ch: char): (v: Point)
    requires IsMoveKey(ch)
    ensures IsDirection(v)
  {
    match ch
    case 'w' => Point(0, -1)
    case 's' => Point(0, 1)
    case 'a' => Point(-1, 0)
    case 'd' => Point(1, 0)
  }

  /**
   * One pass through the key switch: `q` ends the game, a movement key
   * turns the snake unless that would reverse it, anything else is ignored.
   */
  function PressKey(c: Control, ch: char): (r: Control)
    ensures ch == 'q' ==> r == c.(gameOver := true)
    ensures ch != 'q' && !IsMoveKey(ch) ==> r == c
    ensures IsMoveKey(ch) ==> r.gameOver == c.gameOver
    ensures IsMoveKey(ch) ==> Velocity(r) != Opposite(Velocity(c))
    ensures IsDirection(Velocity(c)) ==> IsDirection(Velocity(r))
    ensures IsMoveKey(ch) && IsDirection(Velocity(c)) ==>
      Velocity(r) == if KeyDirection(ch) == Opposite(Velocity(c)) then Velocity(c) else KeyDirection(ch)
  {
    match ch
    case 'q' => c.(gameOver := true)
    case 'w' => if c.velY != 1 then c.(velX := 0, velY := -1) else c
    case 's' => if c.velY != -1 then c.(velX := 0, velY := 1) else c
    case 'a' => if c.velX != 1 then c.(velX := -1, velY := 0) else c
    case 'd' => if c.velX != -1 then c.(velX := 1, velY := 0) else c
    case _ => c
  }

  /** Pressing the same key twice has the effect of pressing it once. */
  lemma PressKeyIdempotent(c: Control, ch: char)
    ensures PressKey(PressKey(c, ch), ch) == PressKey(c, ch)
  {
  }

  /**
   * The effect of a run of key presses, in order. A run without movement keys
   * leaves the velocity alone and ends the game exactly when `q` is in it.
   */
  function PressAll(c: Control, keys: seq<char>): (r: Control)
    ensures (forall i :: 0 <= i < |keys| ==> !IsMoveKey(keys[i])) ==>
      r == c.(gameOver := c.gameOver || 'q' in keys)
    decreases |keys|
  {
    if keys == [] then c
    else
      assert keys == [keys[0]] + keys[1..];
      PressAll(PressKey(c, keys[0]), keys[1..])
  }

  /**
   * The reversal guard compares with the current velocity only, so two
   * presses between ticks can still turn a right-moving snake to the left.
   */
  lemma TwoPressesCanReverse()
    ensures Velocity(PressAll(Control(1, 0, false), "wa")) == Opposite(Point(1, 0))
  {
  }

  /**
   * Whatever keys are pressed, a snake that moves along an axis keeps moving
   * along an axis, and the game is over afterwards exactly when it already
   * was or `q` was among the keys.
   */
  lemma {:induction false} PressAllKeepsDirection(c: Control, keys: seq<char>)
    requires IsDirection(Velocity(c))
    ensures IsDirection(Velocity(PressAll(c, keys)))
    ensures PressAll(c, keys).gameOver <==> c.gameOver || 'q' in keys
    decreases |keys|
  {
    if keys != [] {
      PressAllKeepsDirection(PressKey(c, keys[0]), keys[1..]);
      assert keys == [keys[0]] + keys[1..];
    }
  }
}
