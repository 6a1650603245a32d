/**
 * The arrow-key filter of `handle_keys`: each arrow key maps to a pair
 * (its heading, the reverse heading), and a key only becomes the pending
 * heading when the current heading is not that reverse. Event polling,
 * quitting and Escape are not part of this model; an arrow key press is
 * represented by the heading it stands for.
 */
module Controls {
  import opened Wrappers
  import opened Grid

  /** The key table: an arrow key's heading and the heading that blocks it. */
  function KeyEntry(key: Direction): (Direction, Direction)
  {
    (key, Reverse(key))
  }

  /** Whether a key press is taken while the snake heads `current`. */
  predicate Accepts(current: Direction, key: Direction)
  {
    current != KeyEntry(key).1
  }

  /**
   * The pending heading after the key presses `keys`, in order, starting
   * from `pending`, while the snake heads `current`: each accepted key
   * overwrites the pending heading, a rejected one leaves it alone.
   */
  function FilterKeys(current: Direction, pending: Option<Direction>, keys: seq<Direction>): Option<Direction>
    decreases |keys|
  {
    if keys == [] then pending
    else
      var earlier := FilterKeys(current, pending, keys[..|keys| - 1]);
      var key := keys[|keys| - 1];
      if Accepts(current, key) then Some(KeyEntry(key).0) else earlier
  }

  /**
   * The accepted key presses in order: exactly those keys that are not the
   * reverse of `current`.
   */
  function Accepted(current: Direction, keys: seq<Direction>): (r: seq<Direction>)
    ensures |r| <= |keys|
    ensures forall i :: 0 <= i < |r| ==> r[i] in keys && r[i] != Reverse(current)
    ensures forall k :: k in keys && k != Reverse(current) ==> k in r
    decreases |keys|
  {
    if keys == [] then []
    else
      var key := keys[|keys| - 1];
      assert keys == keys[..|keys| - 1] + [key];
      Accepted(current, keys[..|keys| - 1]) + (if Accepts(current, key) then [key] else [])
  }

  /** The last accepted key wins; with no accepted key the pending heading is kept. */
  lemma {:induction false} FilterIsLastAccepted(current: Direction, pending: Option<Direction>, keys: seq<Direction>)
    ensures var acc := Accepted(current, keys);
      FilterKeys(current, pending, keys) == if acc == [] then pending else Some(acc[|acc| - 1])
    decreases |keys|
  {
    if keys != [] {
      FilterIsLastAccepted(current, pending, keys[..|keys| - 1]);
    }
  }

  /**
   * The filter never stores the reverse of the current heading: if the
   * pending heading was not the reverse, neither is the result.
   */
  lemma {:induction false} FilterNeverReverse(current: Direction, pending: Option<Direction>, keys: seq<Direction>)
    requires pending != Some(Reverse(current))
    ensures FilterKeys(current, pending, keys) != Some(Reverse(current))
    decreases |keys|
  {
    if keys != [] {
      FilterNeverReverse(current, pending, keys[..|keys| - 1]);
    }
  }

  /** Pressing the reverse of the current heading right after another key leaves that key pending. */
  lemma ReverseKeyDropped(current: Direction, pending: Option<Direction>, keys: seq<Direction>)
    ensures FilterKeys(current, pending, keys + [Reverse(current)]) == FilterKeys(current, pending, keys)
  {
    assert (keys + [Reverse(current)])[..|keys|] == keys;
  }
}
