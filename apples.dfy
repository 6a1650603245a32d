/**
 * The apple and its placement by rejection sampling: draw a random cell,
 * retry while it is occupied. The random number generator is replaced by
 * the sequence of draws it would produce; `randint(0, GRID_WIDTH - 1)` and
 * `randint(0, GRID_HEIGHT - 1)` give the column and row ranges below.
 */
module Apples {
  import opened Grid

  type Column = c: int | 0 <= c < GridWidth
  type Row = r: int | 0 <= r < GridHeight

  /** One pair of random draws: a column and a row index. */
  datatype Draw = Draw(col: Column, row: Row)

  /** The pixel position a draw stands for. */
  function DrawPos(d: Draw): (r: Pos)
    ensures OnGrid(r)
    ensures r.0 / GridSize == d.col && r.1 / GridSize == d.row
  {
    (d.col * GridSize, d.row * GridSize)
  }

  /** Every cell origin is the position of exactly one draw. */
  lemma DrawForCell(p: Pos)
    requires OnGrid(p)
    ensures DrawPos(Draw(p.0 / GridSize, p.1 / GridSize)) == p
  {
  }

  /** Some draw lands on a cell that is not occupied. */
  predicate SomeFree(draws: seq<Draw>, occupied: seq<Pos>)
  {
    exists k :: 0 <= k < |draws| && DrawPos(draws[k]) !in occupied
  }

  /** Not every cell of the grid is occupied. */
  ghost predicate FreeCellExists(occupied: seq<Pos>)
  {
    exists p :: OnGrid(p) && p !in occupied
  }

  /**
   * Some sequence of draws ends the rejection loop exactly when the occupied
   * list does not cover the whole grid.
   */
  lemma DrawsEndLoopIffGridNotFull(occupied: seq<Pos>)
    ensures FreeCellExists(occupied) <==> exists draws :: SomeFree(draws, occupied)
  {
    if FreeCellExists(occupied) {
      var p :| OnGrid(p) && p !in occupied;
      DrawForCell(p);
      var draws := [Draw(p.0 / GridSize, p.1 / GridSize)];
      assert DrawPos(draws[0]) !in occupied;
      assert SomeFree(draws, occupied);
    }
    if exists draws :: SomeFree(draws, occupied) {
      var draws :| SomeFree(draws, occupied);
      var k :| 0 <= k < |draws| && DrawPos(draws[k]) !in occupied;
      assert OnGrid(DrawPos(draws[k]));
    }
  }

  /** The position the rejection loop settles on: the first draw that is not occupied. */
  function FirstFree(draws: seq<Draw>, occupied: seq<Pos>): (r: Pos)
    requires SomeFree(draws, occupied)
    ensures OnGrid(r) && r !in occupied
    decreases |draws|
  {
    if DrawPos(draws[0]) !in occupied then DrawPos(draws[0])
    else
      ghost var k :| 0 <= k < |draws| && DrawPos(draws[k]) !in occupied;
      assert DrawPos(draws[1..][k - 1]) !in occupied;
      FirstFree(draws[1..], occupied)
  }

  /** The loop settles on some draw, and every draw before it was occupied. */
  lemma {:induction false} FirstFreeIsFirst(draws: seq<Draw>, occupied: seq<Pos>)
    requires SomeFree(draws, occupied)
    ensures exists k ::
              && 0 <= k < |draws| && FirstFree(draws, occupied) == DrawPos(draws[k])
              && forall j :: 0 <= j < k ==> DrawPos(draws[j]) in occupied
    decreases |draws|
  {
    if DrawPos(draws[0]) in occupied {
      ghost var k :| 0 <= k < |draws| && DrawPos(draws[k]) !in occupied;
      assert DrawPos(draws[1..][k - 1]) !in occupied;
      FirstFreeIsFirst(draws[1..], occupied);
      var k' :| && 0 <= k' < |draws| - 1 && FirstFree(draws[1..], occupied) == DrawPos(draws[1..][k'])
                && forall j :: 0 <= j < k' ==> DrawPos(draws[1..][j]) in occupied;
      assert FirstFree(draws, occupied) == DrawPos(draws[k' + 1]);
      forall j | 0 <= j < k' + 1
        ensures DrawPos(draws[j]) in occupied
      {
        if j > 0 { assert draws[j] == draws[1..][j - 1]; }
      }
    } else {
      assert FirstFree(draws, occupied) == DrawPos(draws[0]);
    }
  }

  class Apple {
    var position: Pos
    var occupiedPositions: seq<Pos>

    /**
     * A new apple: nothing is occupied yet, so the first draw is taken
     * (the snake's starting cell is not excluded).
     */
    constructor (draws: seq<Draw>)
      requires draws != []
      ensures occupiedPositions == [] && position == DrawPos(draws[0])
    {
      occupiedPositions := [];
      new;
      assert DrawPos(draws[0]) !in occupiedPositions;
      position := RandomizePosition(draws);
    }

    /**
     * Draws cells until one is not in `occupiedPositions` and returns it;
     * the draws must include a free cell for the loop to end.
     */
    method RandomizePosition(draws: seq<Draw>) returns (r: Pos)
      requires SomeFree(draws, occupiedPositions)
      ensures OnGrid(r) && r !in occupiedPositions
      ensures r == FirstFree(draws, occupiedPositions)
    {
      var i := 0;
      while true
        invariant 0 <= i < |draws| && SomeFree(draws[i..], occupiedPositions)
        invariant FirstFree(draws[i..], occupiedPositions) == FirstFree(draws, occupiedPositions)
        decreases |draws| - i
      {
        var candidate := DrawPos(draws[i]);
        if candidate !in occupiedPositions {
          r := candidate;
          break;
        }
        ghost var k :| 0 <= k < |draws[i..]| && DrawPos(draws[i..][k]) !in occupiedPositions;
        assert k > 0;
        assert draws[i..][1..] == draws[i + 1..];
        assert DrawPos(draws[i + 1..][k - 1]) !in occupiedPositions;
        i := i + 1;
      }
      assert draws[i..][0] == draws[i];
    }
  }
}
