/** What `draw` puts on the screen, as a function of the snake and the apple. */
module Render {
  import opened Board

  /** Characters per printed line: one glyph per column and a newline. */
  const LineWidth: int := BoardSize + 1

  /**
   * The glyph of cell (x, y): the head wins over the body, the body over the
   * apple, and an empty cell is a dot.
   */
  function Glyph(body: seq<Point>, apple: Point, x: int, y: int): (glyph: char)
    ensures glyph == 'O' <==> |body| > 0 && body[0] == Point(x, y)
    ensures glyph == 'o' <==> Point(x, y) in body && body[0] != Point(x, y)
    ensures glyph == '@' <==> Point(x, y) !in body && Point(x, y) == apple
    ensures glyph == '.' <==> Point(x, y) !in body && Point(x, y) != apple
  {
    var p := Point(x, y);
    if |body| > 0 && body[0] == p then 'O'
    else if p in body then 'o'
    else if p == apple then '@'
    else '.'
  }

  /** Line `y` of the board: the glyphs of columns 1 to BoardSize, then a newline. */
  function Row(body: seq<Point>, apple: Point, y: int): (line: seq<char>)
    ensures |line| == LineWidth
  {
    seq(BoardSize, i => Glyph(body, apple, i + 1, y)) + ['\n']
  }

  /** The lines one `draw` prints for the board, top (y = 1) to bottom (y = BoardSize). */
  function Screen(body: seq<Point>, apple: Point): (lines: seq<seq<char>>)
    ensures |lines| == BoardSize
  {
    seq(BoardSize, j => Row(body, apple, j + 1))
  }

  /**
   * Line y of the screen shows, in column x, the glyph of cell (x, y), and
   * ends in a newline after BoardSize glyphs.
   */
  lemma ScreenAt(body: seq<Point>, apple: Point, x: int, y: int)
    requires 1 <= x <= BoardSize && 1 <= y <= BoardSize
    ensures |Screen(body, apple)[y - 1]| == BoardSize + 1
    ensures Screen(body, apple)[y - 1][x - 1] == Glyph(body, apple, x, y)
    ensures Screen(body, apple)[y - 1][BoardSize] == '\n'
  {
  }

  /**
   * On a board whose head is in bounds and whose apple is in bounds and off
   * the snake, the head shows as `O` and the apple as `@` on their cells, and
   * no other cell shows `O`.
   */
  lemma ScreenShowsHeadAndApple(body: seq<Point>, apple: Point)
    requires |body| >= 1 && InBounds(body[0])
    requires InBounds(apple) && apple !in body
    ensures Screen(body, apple)[body[0].y - 1][body[0].x - 1] == 'O'
    ensures Screen(body, apple)[apple.y - 1][apple.x - 1] == '@'
    ensures forall x, y :: 1 <= x <= BoardSize && 1 <= y <= BoardSize && Screen(body, apple)[y - 1][x - 1] == 'O' ==>
      Point(x, y) == body[0]
  {
  }
}
