# Snake game state, modelled in Dafny

This project models the game-state logic of the single-screen Snake game in
`the_snake.py`: the snake's movement on a 640×480 screen of 20-pixel cells
with wrap-around edges, its self-collision rule and reset, growth on eating,
the arrow-key filter that refuses a reversal, the apple's placement by
rejection sampling, and one pass of the game loop in `main`. Drawing, event
polling, frame pacing and the endless loop are not modelled.

Positions are kept in pixels, as in the game: a cell origin is a pair of
multiples of 20 (`Grid.OnGrid`).

Modules, one per component:

- `Wrappers`: `Option`, for Python's `Optional[...]`.
- `Grid`: the screen constants, the four directions with their unit vectors, and
  the wrapping step `NextHead`.
- `Controls`: the arrow-key table and filter of `handle_keys`. It is a pure
  function over the headings of the arrow keys pressed.
- `Snakes`: the body functions (collision targets, advance, growth) and the class
  `Snake` with the same fields as the game's class. Its methods change those
  fields in place.
- `Apples`: the class `Apple` and `randomize_position`'s retry loop. The loop
  reads its random draws from a supplied sequence.
- `Game`: the class `GameState`, which holds the snake, the apple and `max_len`,
  and its `Tick`, which is one pass of the loop body. `TickOutcome` is the pure
  specification of a tick, and `Invariant` is what holds between ticks.

What is proved, in short:

- The new head is always on the screen, and it stays grid-aligned.
- A move without collision keeps the length. The new body is the new head
  followed by the old body without its tail.
- A move resets exactly when the new head is among `positions[2:-1]`.
- `reset` gives a one-cell body at the centre, length 1, nothing pending, the
  flag raised and a heading from the four choices, whatever the old length was.
- The key filter keeps the last accepted key and never stores the reverse of the
  current heading. So the heading a tick moves in is never the reverse of the
  previous one.
- The apple is placed at the first free draw. It is on the grid and off the
  occupied list. Draws that end the loop exist exactly when the grid is not full.
- A tick keeps the invariant: `len(positions) == length`, every segment on the
  grid, `max_len >= length` and never decreasing. Eating adds exactly one copy of
  the tail. After a reset the apple is off the centre, so it is not eaten in the
  same tick. After every tick the apple is off the whole body.
- Leaving the neck (index 1) out of the collision targets loses nothing: between
  ticks the neck is one step behind the head, or on the head itself right after
  a one-cell snake grows, and the key filter forbids a reversal, so the new head
  can never land on the neck.

Details of the game's code that the model keeps:

- The collision targets exclude index 1 (the neck) as well as the head and the
  tail, because the test looks at `positions[2:-1]` (line 160).
- Growth is immediate: the tail is duplicated in the same tick (line 237). There
  is no deferred "growth pending" state.
- `reset` draws a random heading with `choice` (line 171).
- `handle_keys` is called once per tick, before `update_direction` (lines 224-225).

## Model

| member | source | states |
|---|---|---|
| Grid.Reverse | the_snake.py:198-203 | the blocking heading of each key table entry is its vector negated and differs from the key's own heading |
| Grid.NextHead | the_snake.py:154-159 | the wrapped new head always lies in [0, 640) × [0, 480) |
| Grid.WrapKeepsAligned | the_snake.py:157-158 | reducing a multiple of 20 modulo 640 or 480 leaves a multiple of 20 |
| Grid.NextHeadOnGrid | the_snake.py:154-159 | a step from a grid-aligned head gives a grid-aligned head on the screen |
| Grid.NextHeadReverse | the_snake.py:154-159 | a step followed by a step in the reverse heading returns to the start |
| Grid.NextHeadInjective | the_snake.py:154-159 | from any position on the screen, a step never stays put, and different headings reach different cells |
| Controls.Accepted | the_snake.py:208-210 | the accepted keys are exactly the pressed keys that are not the reverse of the current heading |
| Controls.FilterIsLastAccepted | the_snake.py:204-210 | after a poll the pending heading is the last accepted key, or the previous pending heading if no key was accepted |
| Controls.FilterNeverReverse | the_snake.py:208-210 | the filter never stores the reverse of the current heading |
| Controls.ReverseKeyDropped | the_snake.py:209-210 | pressing the reverse of the current heading leaves the pending heading unchanged |
| Snakes.CollisionTargets | the_snake.py:160 | a self-hit is exactly a segment at index 2 up to but excluding the last one equal to the new head |
| Snakes.AdvanceBody | the_snake.py:163-164 | a move keeps the body length and puts the new head in front |
| Snakes.AdvanceShifts | the_snake.py:163-164 | after a move each segment but the head holds the old position of the segment ahead of it |
| Snakes.Grown | the_snake.py:237 | growing adds exactly one segment |
| Snakes.GrownAppendsTail | the_snake.py:237 | inserting the tail before the last element equals appending a second copy of the tail; no segment moves |
| Snakes.GrownSameCells | the_snake.py:237 | growing covers the same cells as before |
| Snakes.AdvanceOnGrid | the_snake.py:154-164 | a move keeps every segment grid-aligned and on the screen |
| Snakes.NeckNeverHit | the_snake.py:160-164 | while the neck follows the head, a heading that is not the reverse never leads onto the neck |
| Snakes.NeckExclusionHarmless | the_snake.py:160 | under the same conditions, skipping the neck in the collision targets gives the same answer as counting it |
| Snakes.CollisionExample | the_snake.py:160 | in a five-segment body the second segment and the tail are not collision targets and the third segment is |
| Snakes.Snake.constructor | the_snake.py:112-121 | a new snake is one segment at the centre heading right, length 1, nothing pending, flag down, no last cell |
| Snakes.Snake.HandleKeys | the_snake.py:204-210 | the pending heading becomes the key filter's result over the keys pressed, in order; nothing else changes |
| Snakes.Snake.UpdateDirection | the_snake.py:130-132 | a pending heading becomes the heading and is cleared; with none pending nothing changes |
| Snakes.Snake.UpdateLastPosition | the_snake.py:146 | the last cell is the tail; nothing else changes |
| Snakes.Snake.Reset | the_snake.py:166-176 | positions is [centre], length 1, nothing pending, flag raised, heading one of the four, from any prior state |
| Snakes.Snake.Move | the_snake.py:148-164 | it resets exactly on a self-hit; otherwise the body is advanced in the current heading and the other fields are unchanged |
| Apples.DrawPos | the_snake.py:96-99 | a draw of a column and a row gives a cell origin on the grid |
| Apples.DrawForCell | the_snake.py:96-99 | every cell origin on the grid is the position of some draw |
| Apples.DrawsEndLoopIffGridNotFull | the_snake.py:95-102 | draws that end the retry loop exist exactly when the occupied list does not cover the grid |
| Apples.FirstFree | the_snake.py:95-102 | the chosen position is on the grid and not occupied |
| Apples.FirstFreeIsFirst | the_snake.py:95-102 | the chosen position is some draw, and every earlier draw was occupied |
| Apples.Apple.constructor | the_snake.py:81-85 | a new apple has an empty occupied list and takes the first draw |
| Apples.Apple.RandomizePosition | the_snake.py:88-102 | the retry loop returns the first free draw, which is on the grid and not in the occupied list |
| Game.TickDirection | the_snake.py:204-210 | the heading a tick moves in is never the exact reverse of the previous heading, and is either the previous heading or one of the keys pressed |
| Game.Best | the_snake.py:236 | the best length is at least the previous best and at least the current length, and it is one of the two |
| Game.TickOutcome | the_snake.py:225-239 | a tick leaves a body of length 1 after a reset, the old length plus 1 after eating, and the old length otherwise; after a reset the apple is off the centre, so it is not eaten that tick |
| Game.TickKeepsInvariant | the_snake.py:225-239 | a tick keeps length == len(positions), the body on the grid, the neck behind the head and max_len >= length, and leaves the apple off the body |
| Game.TickCollisionIgnoresNeck | the_snake.py:160 | between ticks, the collision rule that skips the neck agrees with one that counts it |
| Game.GameState.constructor | the_snake.py:218-221 | the start state: a fresh apple, a fresh snake, max_len 1, and the invariant holds |
| Game.GameState.Advance | the_snake.py:224-228 | after the keys, the heading update, the tail memory and the move, the flag says whether there was a self-hit, the body is the reset or advanced body, the apple's occupied list is the body, and `position` stays the centre |
| Game.GameState.PlaceAfterReset | the_snake.py:229-233 | after a reset the apple moves to the first free draw and the flag is lowered; otherwise nothing changes |
| Game.GameState.EatCheck | the_snake.py:234-239 | when the head is on the apple: length + 1, max_len updated, tail duplicated, apple re-placed off the grown body; otherwise nothing changes |
| Game.GameState.Tick | the_snake.py:224-239 | the body and apple become the tick's outcome, the heading is the filtered one unless a reset drew one, max_len follows the length, the invariant (which also keeps `position` at the centre) holds again and the apple is off the body |
| Game.TurnDownScenario | the_snake.py:216-239 | from a fresh game, Down and then three ticks away from the apple leave the head three cells below the centre, the heading Down, and length and max_len at 1 |

Some members model source code but need no contract of their own; the members
in the table state their properties:

- `Snakes.Snake.HeadPosition` (`get_head_position`, line 139) is the body's
  first element.
- `Controls.FilterKeys` is the filter of `handle_keys` (lines 204-210), folded
  over the arrow keys of one poll. `Snakes.Snake.HandleKeys` is proved equal to
  it, and `Controls.FilterIsLastAccepted` and `Controls.FilterNeverReverse` state
  what it computes.
- `Controls.KeyEntry` is the key table (lines 198-203) and `Controls.Accepts` the
  test `self.direction != reverse_dir` (line 209).
- `Snakes.Collides` is the self-hit test (line 160); `Snakes.CollisionTargets`
  states it by index.
- `Grid.Delta` gives the unit vectors of `UP`, `DOWN`, `LEFT` and `RIGHT`
  (lines 22-25); `Grid.Reverse` states their negation.
- `Game.GameState.Valid` is the between-ticks invariant of the game state: the
  value-level `Game.Invariant` over the fields, and `position` at the centre
  (every assignment to it, at lines 55, 118 and 174, gives the centre).

## Left out

- The pygame rendering is not modelled: `draw_cell`, `Apple.draw`, `Snake.draw`,
  `screen.fill`, `pg.display.update` and `set_caption`. It is graphics output.
- Event polling (`pg.event.get`) and quitting on QUIT or Escape through
  `SystemExit` are not modelled. They are input and a non-local exit. The arrow
  keys of one poll come in as a sequence of headings, and other events are
  simply absent from it.
- `clock.tick(SPEED)` and the unbounded `while running` loop are not modelled.
  They are timing and non-termination. `Tick` is one pass of the loop body.
- The `GameObject` base class, the colours and `body_color` are not modelled.
  They are presentation only. The snake's `position` field is kept, because
  `reset` assigns it.
- The random number generator is not modelled. `randint` becomes a supplied
  sequence of draws, each a column in [0, 32) and a row in [0, 24). `choice`
  becomes a nondeterministic pick from `[UP, RIGHT, LEFT, DOWN]`. Uniformity is
  not modelled.
- Apples.Apple.RandomizePosition: requires that some supplied draw is free. The
  game's `while True` loop would otherwise go on forever, and it ends only with
  probability 1. `DrawsEndLoopIffGridNotFull` shows that such draws exist
  exactly when the occupied list does not cover the grid.
- Game.GameState.Tick: requires the draws to include a free cell for whichever
  placement the tick makes (`DrawsSuffice`). This is for the same reason. It
  excludes the tick in which the grown snake fills the whole grid.
- Aliasing: the game makes `apple.occupied_positions` the same list as
  `snake.positions`. The model keeps lists as values and assigns the snake's
  body to the apple again after it changes (lines 228 and 237).
- The first apple is placed before the snake exists, with nothing occupied, so it
  may land on the snake's starting cell. The invariant therefore keeps the apple
  off the body except perhaps its tail. After every tick the apple is off the
  whole body.
- `if self.next_direction:` tests a non-empty tuple, which is always true. So it
  is modelled as "a heading is pending".
