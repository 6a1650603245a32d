/**
 * The snake: its body, head first, in pixel positions, its heading, an
 * optional pending heading, a length counter and the `reseted` flag that
 * tells the game loop a self-collision restarted it.
 */
module Snakes {
  import opened Wrappers
  import opened Grid
  import opened Controls

  /** The headings `reset` draws from, in the order the game lists them. */
  const ResetChoices: seq<Direction> := [Up, Right, Left, Down]

  /**
   * Whether the new head bites the body: only the segments from index 2 up
   * to, but not including, the last one are targets. The head (index 0),
   * the neck (index 1) and the tail, which is about to move on, never are.
   */
  predicate Collides(body: seq<Pos>, newHead: Pos)
  {
    |body| > 2 && newHead in body[2..|body| - 1]
  }

  /** A self-hit is a body segment at an index in [2, |body| - 1) equal to the new head. */
  lemma CollisionTargets(body: seq<Pos>, newHead: Pos)
    ensures Collides(body, newHead) <==> exists i :: 2 <= i < |body| - 1 && body[i] == newHead
  {
    if exists i :: 2 <= i < |body| - 1 && body[i] == newHead {
      var i :| 2 <= i < |body| - 1 && body[i] == newHead;
      assert body[2..|body| - 1][i - 2] == newHead;
    }
  }

  /**
   * The body after a move without collision: the new head in front, every
   * other segment taking the place of the one ahead of it, the old tail
   * dropped.
   */
  function AdvanceBody(body: seq<Pos>, d: Direction): (r: seq<Pos>)
    requires |body| >= 1
    ensures |r| == |body|
    ensures r[0] == NextHead(body[0], d)
  {
    [NextHead(body[0], d)] + body[..|body| - 1]
  }

  /** After a move every segment but the head takes the place of the one ahead of it. */
  lemma AdvanceShifts(body: seq<Pos>, d: Direction)
    requires |body| >= 1
    ensures forall i :: 1 <= i < |body| ==> AdvanceBody(body, d)[i] == body[i - 1]
  {
  }

  /**
   * The body after eating: Python's `insert(-1, positions[-1])` puts a copy
   * of the tail just before the last element.
   */
  function Grown(body: seq<Pos>): (r: seq<Pos>)
    requires |body| >= 1
    ensures |r| == |body| + 1
  {
    var n := |body|;
    body[..n - 1] + [body[n - 1]] + body[n - 1..]
  }

  /** Growing keeps every segment in place and appends a second copy of the tail. */
  lemma GrownAppendsTail(body: seq<Pos>)
    requires |body| >= 1
    ensures Grown(body) == body + [body[|body| - 1]]
  {
    var n := |body|;
    assert body == body[..n - 1] + body[n - 1..];
  }

  /** Growing adds nothing new to the set of cells covered. */
  lemma GrownSameCells(body: seq<Pos>, p: Pos)
    requires |body| >= 1
    ensures p in Grown(body) <==> p in body
  {
    GrownAppendsTail(body);
  }

  /** A move keeps every segment on the grid. */
  lemma AdvanceOnGrid(body: seq<Pos>, d: Direction)
    requires |body| >= 1 && AllOnGrid(body)
    ensures AllOnGrid(AdvanceBody(body, d))
  {
    NextHeadOnGrid(body[0], d);
    AdvanceShifts(body, d);
  }

  /**
   * The neck is where the head was one move ago: either the same cell (right
   * after growing from length one) or one step behind the head in heading `d`.
   */
  predicate NeckFollowsHead(body: seq<Pos>, d: Direction)
  {
    |body| >= 2 ==> (body[1] == body[0] || body[0] == NextHead(body[1], d))
  }

  /**
   * While the neck follows the head, a new heading that is not the exact
   * reverse of the old one never leads onto the neck. This is why leaving
   * the neck out of the collision targets loses nothing.
   */
  lemma NeckNeverHit(body: seq<Pos>, d: Direction, d2: Direction)
    requires |body| >= 2 && 0 <= body[1].0 < ScreenWidth && 0 <= body[1].1 < ScreenHeight
    requires NeckFollowsHead(body, d) && d2 != Reverse(d)
    ensures NextHead(body[0], d2) != body[1]
  {
    var head, neck := body[0], body[1];
    if neck == head {
      NextHeadInjective(head, d2, d2);
    } else {
      NextHeadReverse(neck, d);
      assert NextHead(head, Reverse(d)) == neck;
      NextHeadInjective(head, d2, Reverse(d));
    }
  }

  /** Under the same conditions the collision rule agrees with one that also counts the neck. */
  lemma NeckExclusionHarmless(body: seq<Pos>, d: Direction, d2: Direction)
    requires |body| >= 2 && 0 <= body[1].0 < ScreenWidth && 0 <= body[1].1 < ScreenHeight
    requires NeckFollowsHead(body, d) && d2 != Reverse(d)
    ensures var nh := NextHead(body[0], d2);
      Collides(body, nh) <==> |body| > 2 && nh in body[1..|body| - 1]
  {
    var nh := NextHead(body[0], d2);
    NeckNeverHit(body, d, d2);
    if |body| > 2 {
      assert body[1..|body| - 1] == [body[1]] + body[2..|body| - 1];
    }
  }

  /** The 5-segment example: the second segment and the tail are not targets, the third one is. */
  lemma CollisionExample()
    ensures var body := [(100, 100), (80, 100), (60, 100), (60, 80), (80, 80)];
      !Collides(body, (80, 100)) && !Collides(body, (80, 80)) && Collides(body, (60, 100))
  {
    var body := [(100, 100), (80, 100), (60, 100), (60, 80), (80, 80)];
    assert body[2..4] == [(60, 100), (60, 80)];
  }

  class Snake {
    var direction: Direction
    var nextDirection: Option<Direction>
    var length: int
    var position: Pos
    var positions: seq<Pos>
    var reseted: bool
    var last: Option<Pos>

    /** A new snake: one segment at the centre, heading right. */
    constructor ()
      ensures direction == Right && nextDirection == None && length == 1
      ensures position == Center && positions == [Center] && !reseted && last == None
    {
      direction := Right;
      nextDirection := None;
      length := 1;
      position := Center;
      positions := [Center];
      reseted := false;
      last := None;
    }

    /** The head segment, `positions[0]`. */
    function HeadPosition(): Pos
      reads this
      requires |positions| >= 1
    {
      positions[0]
    }

    /**
     * Feeds the arrow-key presses of one poll through the key filter, in
     * order, overwriting `nextDirection` with each accepted key.
     */
    method HandleKeys(keys: seq<Direction>)
      modifies this`nextDirection
      ensures nextDirection == FilterKeys(direction, old(nextDirection), keys)
    {
      for i := 0 to |keys|
        invariant nextDirection == FilterKeys(direction, old(nextDirection), keys[..i])
      {
        var (heading, reverse) := KeyEntry(keys[i]);
        if direction != reverse {
          nextDirection := Some(heading);
        }
        assert keys[..i + 1][..i] == keys[..i];
      }
      assert keys[..|keys|] == keys;
    }

    /** Adopts the pending heading, if there is one, and clears it. */
    method UpdateDirection()
      modifies this`direction, this`nextDirection
      ensures nextDirection == None
      ensures direction == match old(nextDirection) case Some(d) => d case None => old(direction)
    {
      if nextDirection.Some? {
        direction := nextDirection.value;
        nextDirection := None;
      }
    }

    /** Remembers the tail cell, so that it can be cleared on screen. */
    method UpdateLastPosition()
      requires |positions| >= 1
      modifies this`last
      ensures last == Some(positions[|positions| - 1])
    {
      last := Some(positions[|positions| - 1]);
    }

    /**
     * Restarts the snake after a self-collision, whatever its length: one
     * segment at the centre, a heading drawn from ResetChoices, nothing
     * pending, and `reseted` raised for the game loop.
     */
    method Reset()
      modifies this`direction, this`nextDirection, this`length, this`position, this`positions, this`reseted
      ensures positions == [Center] && length == 1 && position == Center
      ensures nextDirection == None && reseted && direction in ResetChoices
    {
      var d :| d in ResetChoices;
      direction := d;
      nextDirection := None;
      length := 1;
      position := Center;
      positions := [Center];
      reseted := true;
    }

    /**
     * One step in the current heading: on a self-hit the snake resets,
     * otherwise the new head goes in front and the tail is dropped.
     */
    method Move()
      requires |positions| >= 1
      modifies this`direction, this`nextDirection, this`length, this`position, this`positions, this`reseted
      ensures var newHead := NextHead(old(positions[0]), old(direction));
        if Collides(old(positions), newHead) then
          positions == [Center] && length == 1 && position == Center &&
          nextDirection == None && reseted && direction in ResetChoices
        else
          positions == AdvanceBody(old(positions), old(direction)) &&
          direction == old(direction) && nextDirection == old(nextDirection) &&
          length == old(length) && position == old(position) && reseted == old(reseted)
    {
      var (headX, headY) := HeadPosition();
      var (dirX, dirY) := Delta(direction);
      var newHead := ((headX + dirX * GridSize) % ScreenWidth, (headY + dirY * GridSize) % ScreenHeight);
      if |positions| > 2 && newHead in positions[2..|positions| - 1] {
        Reset();
      } else {
        positions := [newHead] + positions;
        positions := positions[..|positions| - 1];
      }
    }
  }
}
