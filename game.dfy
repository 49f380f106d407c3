/**
 * The game's shared state and the operations on it: the snake (a fixed-size
 * array of segments, its length and velocity), the apple and the game-over
 * flag, updated in place. `UpdateSnake` and `CheckKey` are each one locked
 * section of the game; the other state-changing methods are their parts.
 * `Draw` is taken as one atomic step.
 */
module Game {
  import opened Board
  import opened Keys
  import opened Snake
  import Render

  class Game {
    const body: array<Point>
    var length: int
    var velX: int
    var velY: int
    var apple: Point
    var gameOver: bool

    ghost predicate Valid()
      reads this
    {
      body.Length == MaxLength && 1 <= length <= MaxLength
    }

    /** The segments in use, head first. */
    function Body(): seq<Point>
      reads this, body
      requires Valid()
    {
      body[..length]
    }

    /** The whole game as a value. */
    function Snapshot(): State
      reads this, body
      requires Valid()
    {
      State(Body(), velX, velY, apple, gameOver)
    }

    /**
     * `init`: a one-segment snake at (4,8) heading right, and an apple on a
     * free cell. The game-over flag starts cleared.
     */
    constructor Init()
      ensures Valid() && fresh(body)
      ensures Snapshot() == Initial(apple)
      ensures InBounds(apple) && apple !in Body()
    {
      var segments := new Point[MaxLength];
      segments[0] := Point(4, 8);
      body := segments;
      length := 1;
      velX, velY := 1, 0;
      apple := Point(0, 0);
      gameOver := false;
      new;
      assert InBounds(Point(1, 1)) && Point(1, 1) !in Body();
      PlaceApple();
    }

    /**
     * `placeApple`: moves the apple to some in-bounds cell that no segment
     * occupies; which one is left open. Nothing else changes.
     */
    method PlaceApple()
      requires Valid()
      requires exists p :: InBounds(p) && p !in Body()
      modifies this`apple
      ensures InBounds(apple) && apple !in Body()
    {
      var p :| InBounds(p) && p !in body[..length];
      apple := p;
    }

    /** The `switch` of `checkKeys` for one character read from the keyboard. */
    method CheckKey(ch: char)
      modifies this`velX, this`velY, this`gameOver
      ensures Control(velX, velY, gameOver) == PressKey(Control(old(velX), old(velY), old(gameOver)), ch)
    {
      match ch
      case 'q' => gameOver := true;
      case 'w' => if velY != 1 { velX, velY := 0, -1; }
      case 's' => if velY != -1 { velX, velY := 0, 1; }
      case 'a' => if velX != 1 { velX, velY := -1, 0; }
      case 'd' => if velX != -1 { velX, velY := 1, 0; }
      case _ =>
    }

    /**
     * `updateSnake`: shift the body, move the head, raise the game-over flag
     * on a wall or self collision, and grow and re-place the apple when the
     * head reaches it. The result is the pure `Tick` of the old state, with
     * the apple placement's choice as its second argument.
     */
    method UpdateSnake()
      requires Valid()
      modifies this`length, this`apple, this`gameOver, body
      ensures Valid()
      ensures Snapshot() == Tick(old(Snapshot()), apple)
      ensures Body()[0] == old(apple) && old(length) < MaxLength ==> InBounds(apple) && apple !in Body()
    {
      MoveSnake();
      ghost var moved := Body();
      CheckCollisions();

      if ComparePoints(body[0], apple) && length < MaxLength {
        AddTail();
        FreeCellAfterGrowth(moved);
        PlaceApple();
      }
    }

    /** The collision checks of `updateSnake`: a head off the board or on another segment ends the game. */
    method CheckCollisions()
      requires Valid()
      modifies this`gameOver
      ensures gameOver == (old(gameOver) || !InBounds(Body()[0]) || HitsItself(Body()))
    {
      if body[0].x < 1 || body[0].x > BoardSize || body[0].y < 1 || body[0].y > BoardSize {
        gameOver := true;
      }
      var hit := SelfCollision();
      if hit {
        gameOver := true;
      }
    }

    /** The growth step of `updateSnake`: a new last segment on the cell of the current last one. */
    method AddTail()
      requires Valid() && length < MaxLength
      modifies this`length, body
      ensures Valid()
      ensures Body() == Grow(old(Body()))
    {
      ghost var segments := Body();
      body[length] := body[length - 1];
      assert body[..length] == segments;
      length := length + 1;
      assert body[..length] == segments + [segments[|segments| - 1]];
    }

    /** The first two steps of `updateSnake`: each segment takes the place of the one in front of it, tail first, then the head moves by the velocity. */
    method MoveSnake()
      requires Valid()
      modifies body
      ensures Body() == Advance(old(Body()), velX, velY)
    {
      ghost var old_body := Body();
      var i := length - 1;
      while i > 0
        invariant 0 <= i <= length - 1
        invariant forall j :: 0 <= j <= i ==> body[j] == old_body[j]
        invariant forall j :: i < j < length ==> body[j] == old_body[j - 1]
      {
        body[i] := body[i - 1];
        i := i - 1;
      }
      body[0] := Point(body[0].x + velX, body[0].y + velY);
    }

    /** The self-collision scan of `updateSnake`: does the head share its cell with any later segment? */
    method SelfCollision() returns (hit: bool)
      requires Valid()
      ensures hit == HitsItself(Body())
    {
      ghost var segments := Body();
      hit := false;
      var k := 1;
      while k < length
        invariant 1 <= k <= length
        invariant hit <==> exists j :: 1 <= j < k && segments[j] == segments[0]
      {
        assert segments[k] == body[k] && segments[0] == body[0];
        if ComparePoints(body[0], body[k]) {
          hit := true;
        }
        k := k + 1;
      }
    }

    /** The glyph `draw` prints for cell (x, y): a first-match scan of the body, then the apple. */
    method CellGlyph(x: int, y: int) returns (glyph: char)
      requires Valid()
      ensures glyph == Render.Glyph(Body(), apple, x, y)
    {
      var pt := Point(x, y);
      var printed := false;
      glyph := '.';
      var i := 0;
      while i < length
        invariant 0 <= i <= length
        invariant forall j :: 0 <= j < i ==> body[j] != pt
      {
        if ComparePoints(pt, body[i]) {
          glyph := if i == 0 then 'O' else 'o';
          printed := true;
          break;
        }
        i := i + 1;
      }
      if !printed && ComparePoints(pt, apple) {
        glyph := '@';
        printed := true;
      }
    }

    /** One line of `draw`: the glyphs of row y, left to right, then a newline. */
    method DrawRow(y: int) returns (line: seq<char>)
      requires Valid()
      ensures line == Render.Row(Body(), apple, y)
    {
      ghost var want := Render.Row(Body(), apple, y);
      line := [];
      var x := 1;
      while x <= BoardSize
        invariant 1 <= x <= BoardSize + 1
        invariant line == want[..x - 1]
      {
        var glyph := CellGlyph(x, y);
        line := line + [glyph];
        x := x + 1;
      }
      line := line + ['\n'];
    }

    /** `draw`: the board line by line, top to bottom. */
    method Draw() returns (lines: seq<seq<char>>)
      requires Valid()
      ensures lines == Render.Screen(Body(), apple)
    {
      ghost var want := Render.Screen(Body(), apple);
      lines := [];
      var y := 1;
      while y <= BoardSize
        invariant 1 <= y <= BoardSize + 1
        invariant lines == want[..y - 1]
      {
        var line := DrawRow(y);
        lines := lines + [line];
        y := y + 1;
      }
    }
  }
}
