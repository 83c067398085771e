/** The frame-index arithmetic of an animation, on plain integers:
    one step of playback, repeated steps, and the "finished" test. */
module FrameSequencing {

  function Min(a: int, b: int): (m: int)
  {
    if a <= b then a else b
  }

  /** The index shown after one step from `frame` in an animation of `count`
      frames: the next index, or, once that runs past the last frame, the
      first frame for a looping animation and the last frame otherwise.
      An index already past the end (the frame list was replaced by a shorter
      one) is brought back the same way. */
  function NextFrame(frame: int, count: int, loop: bool): (next: int)
    requires 0 <= frame && 0 < count
    ensures 0 <= next < count
    ensures frame < count ==> next == if loop then (frame + 1) % count else Min(frame + 1, count - 1)
    ensures count <= frame ==> next == if loop then 0 else count - 1
  {
    var next := frame + 1;
    if next >= count then (if loop then 0 else count - 1) else next
  }

  /** The index after `steps` steps of playback from `frame`. */
  function Advance(frame: int, count: int, loop: bool, steps: nat): (index: int)
    requires 0 <= frame && 0 < count
    decreases steps
  {
    if steps == 0 then frame else NextFrame(Advance(frame, count, loop, steps - 1), count, loop)
  }

  /** A non-looping animation has finished once it shows its last frame. */
  predicate Finished(frame: int, count: int, loop: bool)
  {
    !loop && frame >= count - 1
  }

  /** A positive multiple of `count` is at least `count`. */
  lemma {:induction false} PositiveMultiple(d: int, count: int)
    requires 0 < count && 0 < d
    ensures d * count >= count
  {
    if d > 1 {
      PositiveMultiple(d - 1, count);
      assert d * count == (d - 1) * count + count;
    }
  }

  /** The remainder is the unique `r` in `[0, count)` with `x == q * count + r`. */
  lemma ModUnique(x: int, count: int, q: int, r: int)
    requires 0 < count && 0 <= r < count && x == q * count + r
    ensures x % count == r
  {
    var q', r' := x / count, x % count;
    var d := q - q';
    assert d * count == r' - r by {
      assert x == q' * count + r';
      assert d * count == q * count - q' * count;
    }
    if d > 0 {
      PositiveMultiple(d, count);
    } else if d < 0 {
      PositiveMultiple(-d, count);
    }
  }

  /** Remainders of consecutive numbers are consecutive, wrapping at `count`. */
  lemma ModSucc(x: nat, count: int)
    requires 0 < count
    ensures (x % count + 1) % count == (x + 1) % count
  {
    var q, r := x / count, x % count;
    if r + 1 < count {
      ModUnique(x + 1, count, q, r + 1);
      ModUnique(r + 1, count, 0, r + 1);
    } else {
      ModUnique(x + 1, count, q + 1, 0);
      ModUnique(r + 1, count, 1, 0);
    }
  }

  /** A looping animation cycles: after `steps` steps it shows frame
      `(frame + steps) mod count`. */
  lemma {:induction false} LoopingAdvance(frame: int, count: int, steps: nat)
    requires 0 <= frame < count
    ensures Advance(frame, count, true, steps) == (frame + steps) % count
  {
    if steps > 0 {
      LoopingAdvance(frame, count, steps - 1);
      ModSucc(frame + steps - 1, count);
    }
  }

  /** One full cycle of a looping animation brings it back to the frame it started on. */
  lemma LoopingPeriod(frame: int, count: int)
    requires 0 <= frame < count
    ensures Advance(frame, count, true, count) == frame
  {
    LoopingAdvance(frame, count, count);
    ModUnique(frame + count, count, 1, frame);
  }

  /** A non-looping animation moves forward one frame per step and then
      stays on its last frame. */
  lemma {:induction false} ClampedAdvance(frame: int, count: int, steps: nat)
    requires 0 <= frame < count
    ensures Advance(frame, count, false, steps) == Min(frame + steps, count - 1)
  {
    if steps > 0 {
      ClampedAdvance(frame, count, steps - 1);
    }
  }

  /** Played from its first frame, a non-looping animation of `count` frames is
      finished after exactly `count - 1` steps, and stays finished. */
  lemma FinishedAfter(count: int, steps: nat)
    requires 0 < count
    ensures Finished(Advance(0, count, false, steps), count, false) <==> steps >= count - 1
  {
    ClampedAdvance(0, count, steps);
  }
}
