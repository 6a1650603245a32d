/**
 * One pass of the game loop in `main`: read the arrow keys, adopt the
 * pending heading, remember the tail, move, re-place the apple after a
 * reset, then check whether the head is on the apple (grow, update the
 * best length, re-place the apple). Drawing, pacing and the endless loop
 * itself are not part of this model.
 */
module Game {
  import opened Wrappers
  import opened Grid
  import opened Controls
  import opened Apples
  import opened Snakes

  /**
   * The heading the snake moves in during a tick, given the arrow keys
   * pressed since the last one: the last accepted key, else the old heading.
   * It is never the exact reverse of the old heading.
   */
  function TickDirection(current: Direction, keys: seq<Direction>): (r: Direction)
    ensures r != Reverse(current)
    ensures r == current || r in keys
  {
    FilterNeverReverse(current, None, keys);
    FilterIsLastAccepted(current, None, keys);
    match FilterKeys(current, None, keys)
    case Some(d) => d
    case None => current
  }

  /**
   * The draws end every rejection loop the tick runs: after a reset the
   * apple is placed against the one-cell body, after eating against the
   * grown body; otherwise nothing is drawn.
   */
  predicate DrawsSuffice(body: seq<Pos>, d: Direction, food: Pos, draws: seq<Draw>)
    requires |body| >= 1
  {
    var newHead := NextHead(body[0], d);
    if Collides(body, newHead) then SomeFree(draws, [Center])
    else newHead == food ==> SomeFree(draws, Grown(AdvanceBody(body, d)))
  }

  /** The best length after a tick: raised to the current length when that is larger. */
  function Best(best: int, length: int): (r: int)
    ensures r >= best && r >= length
    ensures r == best || r == length
  {
    if length > best then length else best
  }

  /** The body and the apple position a tick leaves behind. */
  datatype Outcome = Outcome(body: seq<Pos>, food: Pos)

  /**
   * The effect of one tick on the body and the apple, the snake moving in
   * heading `d`: a self-hit restarts the snake and re-places the apple off
   * the centre cell, so that it cannot be eaten in the same tick; reaching
   * the apple grows the body by one and re-places the apple off the grown
   * body; otherwise the body just moves, keeping its length.
   */
  function TickOutcome(body: seq<Pos>, d: Direction, food: Pos, draws: seq<Draw>): (o: Outcome)
    requires |body| >= 1 && DrawsSuffice(body, d, food, draws)
    ensures |o.body| == (if Collides(body, NextHead(body[0], d)) then 1
                         else if NextHead(body[0], d) == food then |body| + 1
                         else |body|)
    ensures Collides(body, NextHead(body[0], d)) ==> o.body == [Center] && o.food != Center
  {
    var newHead := NextHead(body[0], d);
    if Collides(body, newHead) then Outcome([Center], FirstFree(draws, [Center]))
    else if newHead == food then
      var grown := Grown(AdvanceBody(body, d));
      Outcome(grown, FirstFree(draws, grown))
    else Outcome(AdvanceBody(body, d), food)
  }

  /**
   * What holds between ticks: the length counter matches the body, every
   * segment and the apple are on the grid, the neck follows the head,
   * nothing is pending, the best length covers the current one, and the
   * apple is off the body except perhaps the tail (the first apple is
   * placed before the snake exists, possibly on its starting cell).
   */
  ghost predicate Invariant(body: seq<Pos>, length: int, dir: Direction, pending: Option<Direction>,
                            reseted: bool, best: int, food: Pos)
  {
    && |body| == length >= 1
    && AllOnGrid(body)
    && NeckFollowsHead(body, dir)
    && pending == None && !reseted
    && best >= length
    && OnGrid(food)
    && food !in body[..|body| - 1]
  }

  /**
   * A tick keeps the invariant, whatever heading a reset draws, and leaves
   * the apple off the whole body.
   */
  lemma TickKeepsInvariant(body: seq<Pos>, dir: Direction, best: int, food: Pos,
                           keys: seq<Direction>, draws: seq<Draw>, newDir: Direction)
    requires Invariant(body, |body|, dir, None, false, best, food)
    requires DrawsSuffice(body, TickDirection(dir, keys), food, draws)
    requires !Collides(body, NextHead(body[0], TickDirection(dir, keys))) ==> newDir == TickDirection(dir, keys)
    ensures var o := TickOutcome(body, TickDirection(dir, keys), food, draws);
      && Invariant(o.body, |o.body|, newDir, None, false, Best(best, |o.body|), o.food)
      && o.food !in o.body
  {
    var d := TickDirection(dir, keys);
    var newHead := NextHead(body[0], d);
    var o := TickOutcome(body, d, food, draws);
    AdvanceOnGrid(body, d);
    var moved := AdvanceBody(body, d);
    if Collides(body, newHead) {
      assert o.body == [Center];
    } else if newHead != food {
      assert moved == [newHead] + body[..|body| - 1];
      assert o.body == moved;
    } else {
      var grown := Grown(moved);
      GrownAppendsTail(moved);
      assert forall i :: 0 <= i < |grown| ==> grown[i] in moved;
      assert grown[0] == moved[0];
      assert |moved| >= 2 ==> grown[1] == moved[1];
      assert o.body == grown;
    }
  }

  /**
   * Between ticks, the collision rule that skips the neck agrees with one
   * that counts it: the key filter and the neck invariant keep the new
   * head off the neck.
   */
  lemma TickCollisionIgnoresNeck(body: seq<Pos>, dir: Direction, best: int, food: Pos, keys: seq<Direction>)
    requires Invariant(body, |body|, dir, None, false, best, food)
    ensures var newHead := NextHead(body[0], TickDirection(dir, keys));
      Collides(body, newHead) <==> |body| > 2 && newHead in body[1..|body| - 1]
  {
    if |body| >= 2 {
      assert OnGrid(body[1]);
      NeckExclusionHarmless(body, dir, TickDirection(dir, keys));
    }
  }

  class GameState {
    var snake: Snake
    var apple: Apple
    var maxLen: int

    /** The invariant of the game between ticks; `position` only ever holds the centre. */
    ghost predicate Valid()
      reads this, snake, apple
    {
      && Invariant(snake.positions, snake.length, snake.direction, snake.nextDirection,
                   snake.reseted, maxLen, apple.position)
      && snake.position == Center
    }

    /** The state before the first tick: a fresh apple, a fresh snake, best length 1. */
    constructor (draws: seq<Draw>)
      requires draws != []
      ensures Valid() && fresh(snake) && fresh(apple)
      ensures snake.positions == [Center] && snake.direction == Right && maxLen == 1
      ensures apple.position == DrawPos(draws[0])
    {
      apple := new Apple(draws);
      snake := new Snake();
      maxLen := 1;
    }

    /**
     * The first part of a tick: read the arrow keys, adopt the pending
     * heading, remember the tail, move, and hand the body to the apple as
     * its occupied list.
     */
    method Advance(keys: seq<Direction>)
      requires Valid()
      modifies snake, apple`occupiedPositions
      ensures var d := TickDirection(old(snake.direction), keys);
        var body := old(snake.positions);
        var newHead := NextHead(body[0], d);
        && snake.reseted == Collides(body, newHead)
        && snake.nextDirection == None
        && snake.last == Some(body[|body| - 1])
        && snake.position == Center
        && if Collides(body, newHead) then
             snake.positions == [Center] && snake.length == 1 && snake.direction in ResetChoices
           else
             snake.positions == AdvanceBody(body, d) && snake.length == |body| && snake.direction == d
      ensures apple.occupiedPositions == snake.positions
    {
      ghost var d := TickDirection(snake.direction, keys);
      snake.HandleKeys(keys);
      snake.UpdateDirection();
      assert snake.direction == d;
      snake.UpdateLastPosition();
      snake.Move();
      apple.occupiedPositions := snake.positions;
    }

    /** After a reset, re-places the apple against the fresh body and lowers the flag. */
    method PlaceAfterReset(draws: seq<Draw>)
      requires snake.reseted ==> SomeFree(draws, apple.occupiedPositions)
      modifies snake`reseted, apple`position
      ensures !snake.reseted
      ensures apple.position == if old(snake.reseted) then FirstFree(draws, apple.occupiedPositions)
                                else old(apple.position)
    {
      if snake.reseted {
        apple.position := apple.RandomizePosition(draws);
        snake.reseted := false;
      }
    }

    /**
     * If the head is on the apple: one more segment (a copy of the tail
     * before the last element), a new best length if it is one, and the
     * apple re-placed against the grown body.
     */
    method EatCheck(draws: seq<Draw>)
      requires |snake.positions| >= 1
      requires apple.position == snake.positions[0] ==> SomeFree(draws, Grown(snake.positions))
      modifies this`maxLen, snake`length, snake`positions, apple
      ensures if old(apple.position) == old(snake.positions[0]) then
          && snake.length == old(snake.length) + 1
          && maxLen == Best(old(maxLen), snake.length)
          && snake.positions == Grown(old(snake.positions))
          && apple.occupiedPositions == snake.positions
          && apple.position == FirstFree(draws, snake.positions)
        else
          && snake.length == old(snake.length) && maxLen == old(maxLen)
          && snake.positions == old(snake.positions)
          && apple.occupiedPositions == old(apple.occupiedPositions)
          && apple.position == old(apple.position)
    {
      if apple.position == snake.HeadPosition() {
        snake.length := snake.length + 1;
        maxLen := if snake.length > maxLen then snake.length else maxLen;
        var n := |snake.positions|;
        snake.positions := snake.positions[..n - 1] + [snake.positions[n - 1]] + snake.positions[n - 1..];
        apple.occupiedPositions := snake.positions;
        apple.position := apple.RandomizePosition(draws);
      }
    }

    /**
     * One tick of the game loop: the body and the apple become the tick's
     * outcome, the heading is the filtered one unless a reset drew a new
     * one, the best length follows the length, and the invariant holds
     * again with the apple off the whole body.
     */
    method Tick(keys: seq<Direction>, draws: seq<Draw>)
      requires Valid()
      requires DrawsSuffice(snake.positions, TickDirection(snake.direction, keys), apple.position, draws)
      modifies this, snake, apple
      ensures Valid() && snake == old(snake) && apple == old(apple)
      ensures apple.position !in snake.positions
      ensures var d := TickDirection(old(snake.direction), keys);
        var o := TickOutcome(old(snake.positions), d, old(apple.position), draws);
        && snake.positions == o.body && apple.position == o.food
        && apple.occupiedPositions == o.body
        && (if Collides(old(snake.positions), NextHead(old(snake.positions)[0], d))
            then snake.direction in ResetChoices else snake.direction == d)
        && maxLen == Best(old(maxLen), snake.length)
        && snake.last == Some(old(snake.positions)[|old(snake.positions)| - 1])
    {
      ghost var d := TickDirection(snake.direction, keys);
      ghost var body, dir, best, food := snake.positions, snake.direction, maxLen, apple.position;
      ghost var newHead := NextHead(body[0], d);
      ghost var collided := Collides(body, newHead);
      ghost var o := TickOutcome(body, d, food, draws);

      Advance(keys);
      PlaceAfterReset(draws);
      assert !collided ==> apple.position == food;
      assert collided ==> apple.position == o.food;
      EatCheck(draws);
      assert snake.positions == o.body && apple.position == o.food;
      assert snake.length == |o.body|;
      TickKeepsInvariant(body, dir, best, food, keys, draws, snake.direction);
    }
  }

  /**
   * A fresh game heading right, the Down key, then three ticks without keys
   * and away from the apple: the head is three cells below the centre, the
   * length and the best length are still 1.
   */
  method TurnDownScenario() returns (game: GameState)
    ensures game.snake.positions == [(ScreenWidth / 2, ScreenHeight / 2 + 3 * GridSize)]
    ensures game.snake.length == 1 && game.maxLen == 1 && game.snake.direction == Down
  {
    var draws := [Draw(0, 0)];
    game := new GameState(draws);
    assert game.apple.position == (0, 0);
    assert FilterKeys(Right, None, [Down]) == Some(Down);
    assert TickDirection(Right, [Down]) == Down;
    assert NextHead(Center, Down) == (320, 260);
    game.Tick([Down], draws);
    assert game.snake.positions == [(320, 260)] && game.snake.direction == Down;
    assert TickDirection(Down, []) == Down;
    assert NextHead((320, 260), Down) == (320, 280);
    game.Tick([], draws);
    assert game.snake.positions == [(320, 280)] && game.snake.direction == Down;
    assert NextHead((320, 280), Down) == (320, 300);
    game.Tick([], draws);
  }
}
