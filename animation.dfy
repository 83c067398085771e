/** The sprite-sheet animation handler: a registry of named animations and a
    small state machine that picks the frame to draw.
    The clock is an explicit `now` argument in milliseconds, and every speed is
    a whole number of milliseconds between frames. */
module SpriteAnimation {
  import opened SheetFrames
  import opened FrameSequencing

  datatype Option<T> = None | Some(value: T)

  /** A registered animation: its frames, the milliseconds between two frames,
      and whether it starts over after its last frame. */
  datatype Entry = Entry(frames: seq<Frame>, speed: int, loop: bool)

  class Animation {
    const frameWidth: int
    const frameHeight: int
    /** Milliseconds between frames for animations registered without a speed. */
    const animationSpeed: int

    var animations: map<string, Entry>
    var currentAnimation: Option<string>
    var currentFrame: int
    var lastUpdate: int
    /** The loop flag of the animation last switched to; re-registering that
        animation does not refresh it. */
    var loop: bool

    /** The frame index is never negative, and the current animation, when
        there is one, is registered (entries are never removed). */
    ghost predicate Valid()
      reads this
    {
      0 <= currentFrame &&
      (currentAnimation.Some? ==> currentAnimation.value in animations)
    }

    /** The current animation is registered and its index names one of its frames. */
    ghost predicate OnValidFrame()
      reads this
    {
      currentAnimation.Some? && currentAnimation.value in animations &&
      0 <= currentFrame < |animations[currentAnimation.value].frames|
    }

    constructor (frameWidth: int, frameHeight: int)
      ensures Valid()
      ensures this.frameWidth == frameWidth && this.frameHeight == frameHeight
      ensures animationSpeed == 100
      ensures animations == map[] && currentAnimation == None
      ensures currentFrame == 0 && lastUpdate == 0 && loop
    {
      this.frameWidth := frameWidth;
      this.frameHeight := frameHeight;
      animationSpeed := 100;
      animations := map[];
      currentAnimation := None;
      currentFrame := 0;
      lastUpdate := 0;
      loop := true;
    }

    /** Cuts the first `numFrames` cells of row `row` of the sheet, left to right. */
    method ExtractFrames(row: int, numFrames: int, flipX: bool := false) returns (frames: seq<Frame>)
      ensures frames == RowFrames(row, numFrames, frameWidth, frameHeight, flipX)
      ensures |frames| == if numFrames < 0 then 0 else numFrames
      ensures forall col :: 0 <= col < |frames| ==>
                frames[col].source == Rect(col * frameWidth, row * frameHeight, frameWidth, frameHeight) &&
                frames[col].flipped == flipX
    {
      frames := [];
      var col := 0;
      while col < numFrames
        invariant 0 <= col
        invariant col <= numFrames || col == 0
        invariant frames == RowFrames(row, col, frameWidth, frameHeight, flipX)
      {
        var frame := Frame(Rect(col * frameWidth, row * frameHeight, frameWidth, frameHeight), flipX);
        frames := frames + [frame];
        col := col + 1;
      }
      RowFramesLength(row, numFrames, frameWidth, frameHeight, flipX);
      forall col | 0 <= col < |frames|
        ensures frames[col] == Cut(row, col, frameWidth, frameHeight, flipX)
      {
        RowFramesAt(row, numFrames, frameWidth, frameHeight, flipX, col);
      }
    }

    /** Registers `frames` under `name`, replacing any earlier entry of that
        name; without a speed the handler's default is used. The loop flag
        in force is left alone, even when `name` is the current animation. */
    method AddAnimation(name: string, frames: seq<Frame>, speed: Option<int> := None, loops: bool := true)
      modifies this`animations
      ensures animations == old(animations)[name := Entry(frames, if speed.Some? then speed.value else animationSpeed, loops)]
      ensures loop == old(loop) && currentFrame == old(currentFrame)
      ensures old(Valid()) ==> Valid()
      ensures currentAnimation != Some(name) && old(OnValidFrame()) ==> OnValidFrame()
    {
      var entrySpeed := if speed.Some? then speed.value else animationSpeed;
      animations := animations[name := Entry(frames, entrySpeed, loops)];
    }

    /** Switches to animation `name` if it is registered and not already
        current; the switch restarts it at its first frame at time `now` and
        adopts its loop flag. Otherwise nothing changes. */
    method SetAnimation(name: string, now: int)
      modifies this`currentAnimation, this`currentFrame, this`lastUpdate, this`loop
      ensures old(Valid()) ==> Valid()
      ensures Some(name) != old(currentAnimation) && name in animations ==>
                currentAnimation == Some(name) && currentFrame == 0 && lastUpdate == now &&
                loop == animations[name].loop &&
                (|animations[name].frames| > 0 ==> OnValidFrame())
      ensures Some(name) == old(currentAnimation) || name !in animations ==>
                currentAnimation == old(currentAnimation) && currentFrame == old(currentFrame) &&
                lastUpdate == old(lastUpdate) && loop == old(loop)
    {
      if Some(name) != currentAnimation && name in animations {
        currentAnimation := Some(name);
        currentFrame := 0;
        lastUpdate := now;
        loop := animations[name].loop;
      }
    }

    /** The frame of the current animation to draw at time `now`. Once more
        than the animation's speed has passed since the last step, the index
        moves one frame on (wrapping or stopping at the end, as `loop` says)
        and the step time becomes `now`. Without a registered current
        animation there is nothing to draw and nothing changes.
        The caller must not reach an index into an empty or too short frame
        list, which the handler does not guard against. */
    method GetCurrentFrame(now: int) returns (r: Option<Frame>)
      requires 0 <= currentFrame
      requires currentAnimation.Some? && currentAnimation.value in animations ==>
                 var e := animations[currentAnimation.value];
                 |e.frames| > 0 && (currentFrame < |e.frames| || now - lastUpdate > e.speed)
      modifies this`currentFrame, this`lastUpdate
      ensures currentAnimation.None? || currentAnimation.value !in animations ==>
                r == None && currentFrame == old(currentFrame) && lastUpdate == old(lastUpdate)
      ensures currentAnimation.Some? && currentAnimation.value in animations ==>
                var e := animations[currentAnimation.value];
                OnValidFrame() && r == Some(e.frames[currentFrame]) &&
                if now - old(lastUpdate) > e.speed then
                  currentFrame == NextFrame(old(currentFrame), |e.frames|, loop) && lastUpdate == now
                else
                  currentFrame == old(currentFrame) && lastUpdate == old(lastUpdate)
    {
      if currentAnimation.None? || currentAnimation.value !in animations {
        return None;
      }
      var animation := animations[currentAnimation.value];
      if now - lastUpdate > animation.speed {
        currentFrame := currentFrame + 1;
        lastUpdate := now;
        if currentFrame >= |animation.frames| {
          if loop {
            currentFrame := 0;
          } else {
            currentFrame := |animation.frames| - 1;
            return Some(animation.frames[currentFrame]);
          }
        }
      }
      return Some(animation.frames[currentFrame]);
    }

    /** A non-looping current animation has finished once its index reaches
        its last frame (or lies past it, after the list was replaced by a
        shorter one, or on an empty list); with no current animation, or a
        looping one, it never has. */
    function IsAnimationFinished(): (finished: bool)
      reads this
      requires Valid()
      ensures finished ==> currentAnimation.Some? && !loop
      ensures currentAnimation.Some? && !loop ==>
                (finished <==> currentFrame >= |animations[currentAnimation.value].frames| - 1)
      ensures OnValidFrame() ==>
                (finished <==> !loop && currentFrame == |animations[currentAnimation.value].frames| - 1)
    {
      if currentAnimation.None? || loop then false
      else Finished(currentFrame, |animations[currentAnimation.value].frames|, loop)
    }
  }

  /** Re-registering the animation being played with fewer frames leaves its
      index past the new end and keeps the loop flag it was switched to with;
      only a frame step (or a new switch) brings the index back. */
  method ReRegisteringCurrentAnimation(a: Frame, b: Frame, c: Frame)
  {
    var anim := new Animation(32, 32);
    anim.AddAnimation("walk", [a, b, c], Some(100), true);
    anim.SetAnimation("walk", 0);
    var shown := anim.GetCurrentFrame(101);
    shown := anim.GetCurrentFrame(202);
    assert anim.currentFrame == 2 && shown == Some(c);
    anim.AddAnimation("walk", [a], None, false);
    assert anim.loop && !anim.OnValidFrame();
    // before 100 ms have passed the index 2 would be used on a one-frame list
    shown := anim.GetCurrentFrame(303);
    assert anim.currentFrame == 0 && shown == Some(a);
  }

  /** A non-looping animation counts as finished whenever its index is at or
      past its last frame: after playing to the end, after its list is
      replaced by a shorter one, and at once on an empty list. Registering
      without a loop argument gives a looping animation. */
  method FinishedPastTheEnd(a: Frame, b: Frame, c: Frame)
  {
    var anim := new Animation(32, 32);
    anim.AddAnimation("die", [a, b, c], loops := false);
    anim.AddAnimation("idle", [a]);
    assert anim.animations["idle"].loop && anim.animations["idle"].speed == 100;
    anim.SetAnimation("die", 0);
    assert !anim.IsAnimationFinished();
    var shown := anim.GetCurrentFrame(101);
    shown := anim.GetCurrentFrame(202);
    assert shown == Some(c) && anim.IsAnimationFinished();
    anim.AddAnimation("die", [a], loops := false);
    assert !anim.OnValidFrame() && anim.IsAnimationFinished();
    anim.AddAnimation("empty", [], loops := false);
    anim.SetAnimation("empty", 303);
    assert anim.IsAnimationFinished();
  }
}
