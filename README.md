# Sprite-sheet animation handler

A model of the `Animation` class of `src/animation.py`: the handler that cuts
frames out of a sprite sheet, keeps a registry of named animations, and runs a
small frame-sequencing state machine that decides which frame to draw.

- `SheetFrames` (`sheet_frames.dfy`): frames as the sheet rectangle they are
  copied from plus a horizontal-flip flag; `RowFrames` is the row of cells
  that `extract_frames` cuts, with lemmas on its length, on each cell's
  rectangle, on adjacency and on the cells being pixel-disjoint.
- `FrameSequencing` (`frame_sequencing.dfy`): the index arithmetic on plain
  integers. `NextFrame` is one playback step (wrap for a looping animation,
  stop on the last frame otherwise), `Advance` is `k` steps, `Finished` is the
  completion test. One step always lands on an existing frame; the lemmas show
  that a looping animation shows
  frame `(start + k) mod n` after `k` steps and returns to its start after `n`,
  a non-looping one shows `min(start + k, n - 1)`, and it is finished after
  exactly `n - 1` steps from the first frame.
- `SpriteAnimation` (`animation.dfy`): the class `Animation` with the
  source's fields (`animations`, `currentAnimation`, `currentFrame`,
  `lastUpdate`, `loop`) and its methods, each with `modifies` on exactly the
  fields the source assigns. `Valid()` (index non-negative, current animation
  registered) is preserved by every method; `OnValidFrame()` (the index names
  a frame of the current animation) holds after every successful
  `GetCurrentFrame` and after a switch to a non-empty animation.

Time is an explicit `now` argument in milliseconds instead of a clock read, and
an animation's speed is a whole number of milliseconds (the default 0.1 s is
`animationSpeed == 100`). `GetCurrentFrame` advances when
`now - lastUpdate > speed`, the same strict comparison as the source.

Two hazards of the source are kept as they are:

- an empty frame list makes `get_current_frame` index out of range; the model
  states this as a precondition of `GetCurrentFrame`, together with the other
  way the source can index out of range (an index past the end of the list
  when no step is due);
- `add_animation` on the name being played replaces its frame list but not the
  `loop` flag in force, and can leave `currentFrame` past the end of a shorter
  list. `AddAnimation` promises `OnValidFrame()` only when another name is
  registered, and the method `ReRegisteringCurrentAnimation` walks through a
  re-registration that leaves a stale loop flag and an index out of range,
  recovered only by the next frame step. `FinishedPastTheEnd` shows that a
  non-looping animation counts as finished on such a stale index and, at
  once, on an empty frame list.

The source's default arguments are kept: `ExtractFrames` does not flip unless
asked, and `AddAnimation` uses the default speed and a looping animation when
the caller gives neither.

## Model

| member | source | states |
|---|---|---|
| `SheetFrames.RowFramesAt` | src/animation.py:35-51 | a row cut of `n` frames holds `n` frames and frame `col` is the cell `(col*w, row*h, w, h)` |
| `SheetFrames.RowFramesLength` | src/animation.py:35-36 | the number of frames cut is the requested count, none for a non-positive count (`range` of it is empty) |
| `SheetFrames.RowFramesAdjacent` | src/animation.py:38-40 | consecutive frames share their top edge and the next starts where the previous ends |
| `SheetFrames.RowFramesDisjoint` | src/animation.py:38-40 | any two different frames of a row come from pixel-disjoint rectangles, for every cell size |
| `SpriteAnimation.Animation.ExtractFrames` | src/animation.py:25-51 | the loop that appends one frame per column returns exactly the row cut: `max(numFrames, 0)` frames in column order, frame `col` from rectangle `(col*frameWidth, row*frameHeight, frameWidth, frameHeight)`, flipped as asked (not flipped by default) |
| `FrameSequencing.NextFrame` | src/animation.py:86-94 | one step lands on an existing frame; from an in-range index it is `(i+1) mod n` when looping and `min(i+1, n-1)` otherwise; an index already past the end goes to frame 0 or to the last frame |
| `FrameSequencing.LoopingAdvance` | src/animation.py:89-92 | a looping animation shows frame `(start + k) mod n` after `k` steps |
| `FrameSequencing.LoopingPeriod` | src/animation.py:89-92 | `n` steps of a looping animation of `n` frames return to the starting frame |
| `FrameSequencing.ClampedAdvance` | src/animation.py:93-95 | a non-looping animation moves one frame per step and then stays on its last frame: index `min(start + k, n - 1)` |
| `FrameSequencing.FinishedAfter` | src/animation.py:99-105 | played from frame 0, a non-looping animation is finished if and only if at least `n - 1` steps were taken |
| `SpriteAnimation.Animation.constructor` | src/animation.py:15-23 | empty registry, no current animation, index 0, last update 0, loop on, default speed 100 ms |
| `SpriteAnimation.Animation.AddAnimation` | src/animation.py:53-66 | the registry maps `name` to the given frames, speed (the default when none is given) and loop flag (looping unless told otherwise), all other names unchanged; the loop flag in force and the index are untouched; the registry invariant is kept, and the index stays valid unless the current animation itself was replaced |
| `SpriteAnimation.Animation.SetAnimation` | src/animation.py:68-74 | switching to a different registered name sets it current, index 0, last update `now` and copies its loop flag; the same name or an unregistered one changes nothing |
| `SpriteAnimation.Animation.GetCurrentFrame` | src/animation.py:76-97 | without a registered current animation returns nothing and changes nothing; otherwise, when more than `speed` ms passed, the index takes one `NextFrame` step and last update becomes `now`, else both stay; the result is the frame at the new index, which is in range |
| `SpriteAnimation.Animation.IsAnimationFinished` | src/animation.py:99-105 | false with no current animation or with the loop flag on; for a current non-looping animation true exactly when the index is at or past the last frame (`currentFrame >= n - 1`, so also on a stale index or an empty list); on a valid index that means exactly the last frame |

## Left out

- Loading the sprite sheet, surfaces, blitting, and mirroring pixels: a frame is only the rectangle it is cut from and a flip flag.
- Scaling (`scale` and the `int(...)` truncation of the scaled size): floating point on pixel data, not part of the frame sequencing.
- `SpriteAnimation.Animation.GetCurrentFrame`: speeds are whole milliseconds; the source multiplies a speed in fractional seconds by 1000 and compares floats.
- `SpriteAnimation.Animation.GetCurrentFrame`: the index errors of the source (empty frame list, index past the end with no step due) are preconditions rather than a modelled exception.
- The clock (`pygame.time.get_ticks()`): replaced by the `now` argument.
- `SpriteAnimation.Animation.AddAnimation`: the source stores the caller's list object itself, so a later change to that list by the caller (emptying it, say) is seen by playback; the model stores the frame sequence by value, so no such aliasing is captured.
- Names are strings and speeds are given or absent; the source's dynamic typing (any hashable name, `None` as a name) is not modelled.
- The game that uses the handler (detection meter, cooldowns, guards, events, mission states in `src/Stealth Game.py`) is not part of this model.
