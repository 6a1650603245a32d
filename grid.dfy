/**
 * The playfield geometry of the snake game: screen and cell sizes, the four
 * directions, and the wrap-around step that moves a head one cell.
 * Positions are PIXEL coordinates, as in the game: the top-left corner of a
 * cell, a multiple of GridSize on each axis.
 */
module Grid {

  const ScreenWidth: int := 640
  const ScreenHeight: int := 480
  const GridSize: int := 20
  const GridWidth: int := ScreenWidth / GridSize
  const GridHeight: int := ScreenHeight / GridSize

  /** A pixel position `(x, y)`. */
  type Pos = (int, int)

  /** The centre of the screen, where a fresh snake starts. */
  const Center: Pos := (ScreenWidth / 2, ScreenHeight / 2)

  /** The four headings; the game stores each as its unit vector. */
  datatype Direction = Up | Down | Left | Right

  /** The unit vector `(dx, dy)` of a heading (y grows downwards). */
  function Delta(d: Direction): (int, int)
  {
    match d
    case Up => (0, -1)
    case Down => (0, 1)
    case Left => (-1, 0)
    case Right => (1, 0)
  }

  /** The exact reverse of a heading: its vector negated. */
  function Reverse(d: Direction): (r: Direction)
    ensures Delta(r).0 == -Delta(d).0 && Delta(r).1 == -Delta(d).1
    ensures r != d
  {
    match d
    case Up => Down
    case Down => Up
    case Left => Right
    case Right => Left
  }

  /** A cell origin on the screen: inside the screen and grid-aligned. */
  predicate OnGrid(p: Pos)
  {
    0 <= p.0 < ScreenWidth && 0 <= p.1 < ScreenHeight &&
    p.0 % GridSize == 0 && p.1 % GridSize == 0
  }

  /** Every position of a body is a cell origin. */
  predicate AllOnGrid(body: seq<Pos>)
  {
    forall i :: 0 <= i < |body| ==> OnGrid(body[i])
  }

  /**
   * The head one cell further in direction `d`, wrapping around the screen
   * edges. Python's `%` with a positive divisor is never negative, like
   * Dafny's, so the wrapped coordinate always lies on the screen.
   */
  function NextHead(head: Pos, d: Direction): (r: Pos)
    ensures 0 <= r.0 < ScreenWidth && 0 <= r.1 < ScreenHeight
  {
    var (dx, dy) := Delta(d);
    ((head.0 + dx * GridSize) % ScreenWidth, (head.1 + dy * GridSize) % ScreenHeight)
  }

  /** Reducing a grid-aligned coordinate modulo a screen extent keeps it grid-aligned. */
  lemma {:induction false} WrapKeepsAligned(a: int, extent: int)
    requires extent == ScreenWidth || extent == ScreenHeight
    requires a % GridSize == 0
    ensures (a % extent) % GridSize == 0
  {
    var t := a / GridSize;
    assert a == GridSize * t;
    var q := a / extent;
    assert a % extent == a - extent * q;
    if extent == ScreenWidth {
      assert a % extent == GridSize * (t - 32 * q);
    } else {
      assert a % extent == GridSize * (t - 24 * q);
    }
  }

  /** A step from a grid-aligned head stays grid-aligned, and on the screen. */
  lemma NextHeadOnGrid(head: Pos, d: Direction)
    requires head.0 % GridSize == 0 && head.1 % GridSize == 0
    ensures OnGrid(NextHead(head, d))
  {
    var (dx, dy) := Delta(d);
    WrapKeepsAligned(head.0 + dx * GridSize, ScreenWidth);
    WrapKeepsAligned(head.1 + dy * GridSize, ScreenHeight);
  }

  /** Stepping back in the reverse heading undoes a step. */
  lemma NextHeadReverse(p: Pos, d: Direction)
    requires 0 <= p.0 < ScreenWidth && 0 <= p.1 < ScreenHeight
    ensures NextHead(NextHead(p, d), Reverse(d)) == p
  {
  }

  /** From a position on the screen, different headings lead to different cells, none of them the start. */
  lemma NextHeadInjective(p: Pos, d1: Direction, d2: Direction)
    requires 0 <= p.0 < ScreenWidth && 0 <= p.1 < ScreenHeight
    ensures NextHead(p, d1) != p
    ensures NextHead(p, d1) == NextHead(p, d2) ==> d1 == d2
  {
  }
}
