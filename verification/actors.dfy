/**
 * The example game's actors: the flixel-style touch flags, the per-tick
 * motion update with its velocity cap, axis-aligned rectangles, and the
 * sprite animation state machine. Float fields are modelled as reals; the
 * elapsed time of a tick is a parameter.
 */
module Actors {
  import opened Wrappers

  // ------------------------------------------------------------ touch flags

  const TouchNone: bv32 := 0
  const TouchUp: bv32 := 1
  const TouchDown: bv32 := 2
  const TouchLeft: bv32 := 4
  const TouchRight: bv32 := 8
  const TouchAny: bv32 := TouchUp | TouchDown | TouchLeft | TouchRight
  const TouchCeiling: bv32 := TouchUp
  const TouchFloor: bv32 := TouchDown

  /** The four directions are distinct single bits; ANY is all four, FLOOR is DOWN and CEILING is UP. */
  lemma TouchFlagValues()
    ensures TouchAny == 0xF && TouchFloor == TouchDown && TouchCeiling == TouchUp
    ensures TouchUp & TouchDown == 0 && TouchUp & TouchLeft == 0 && TouchUp & TouchRight == 0
    ensures TouchDown & TouchLeft == 0 && TouchDown & TouchRight == 0 && TouchLeft & TouchRight == 0
  {
  }

  datatype Vec = Vec(x: real, y: real)

  datatype Actor = Actor(
    last: Vec, position: Vec, velocity: Vec, acceleration: Vec, scale: Vec,
    rotation: real, bounce: real, width: real, height: real,
    touching: bv32, touchingPrev: bv32)

  /** `isTouching`: some bit of `value` is among the current contacts. */
  predicate IsTouching(a: Actor, value: bv32) { a.touching & value > 0 }

  /** `wasTouching`: the same question about the previous tick's contacts. */
  predicate WasTouching(a: Actor, value: bv32) { a.touchingPrev & value > 0 }

  /** Touching ANY means touching in at least one of the four directions. */
  lemma TouchingAnyIsSomeDirection(a: Actor)
    ensures IsTouching(a, TouchAny) <==>
      IsTouching(a, TouchUp) || IsTouching(a, TouchDown) || IsTouching(a, TouchLeft) || IsTouching(a, TouchRight)
  {
  }

  /** `setPosition`: moves the actor and its previous position together, so the move carries no displacement. */
  function SetPosition(a: Actor, x: real, y: real): (r: Actor)
    ensures r.position == Vec(x, y) && r.last == r.position
    ensures r.(position := a.position, last := a.last) == a
  {
    a.(position := Vec(x, y), last := Vec(x, y))
  }

  /** `NcActor::init`: at rest at (x, y) with unit scale; every contact is assumed until the first tick. */
  function InitActor(a: Actor, x: real, y: real, width: real, height: real): (r: Actor)
    ensures r.position == Vec(x, y) && r.last == r.position
    ensures r.velocity == Vec(0.0, 0.0) && r.acceleration == Vec(0.0, 0.0) && r.scale == Vec(1.0, 1.0)
    ensures r.rotation == 0.0 && r.bounce == 0.0 && r.width == width && r.height == height
    ensures IsTouching(r, TouchUp) && IsTouching(r, TouchDown) && IsTouching(r, TouchLeft) && IsTouching(r, TouchRight)
    ensures r.touchingPrev == a.touchingPrev
  {
    Actor(Vec(x, y), Vec(x, y), Vec(0.0, 0.0), Vec(0.0, 0.0), Vec(1.0, 1.0), 0.0, 0.0, width, height, TouchAny, a.touchingPrev)
  }

  const MaxVelocity: real := 1000.0

  /** The velocity cap of `update`, one component at a time. */
  function CapVelocity(v: real): (r: real)
    ensures -MaxVelocity <= r <= MaxVelocity
    ensures -MaxVelocity <= v <= MaxVelocity ==> r == v
    ensures v > MaxVelocity ==> r == MaxVelocity
    ensures v < -MaxVelocity ==> r == -MaxVelocity
  {
    if v > MaxVelocity then MaxVelocity else if v < -MaxVelocity then -MaxVelocity else v
  }

  /**
   * `NcActor::update`: remember the position, accelerate with the capped
   * velocity, move by it, and shift this tick's contacts into the previous
   * ones. The elapsed time is read but not used.
   */
  function UpdateActor(a: Actor): (r: Actor)
    ensures r.last == a.position
    ensures r.velocity == Vec(CapVelocity(a.velocity.x + a.acceleration.x), CapVelocity(a.velocity.y + a.acceleration.y))
    ensures r.position.x - r.last.x == r.velocity.x && r.position.y - r.last.y == r.velocity.y
    ensures r.touchingPrev == a.touching && r.touching == TouchNone
    ensures r.acceleration == a.acceleration && r.width == a.width && r.height == a.height
  {
    var v := Vec(CapVelocity(a.velocity.x + a.acceleration.x), CapVelocity(a.velocity.y + a.acceleration.y));
    a.(last := a.position, velocity := v,
       position := Vec(a.position.x + v.x, a.position.y + v.y),
       touchingPrev := a.touching, touching := TouchNone)
  }

  /** One tick never moves an actor more than the cap along either axis, and no contact survives it. */
  lemma UpdateStepBounded(a: Actor)
    ensures var r := UpdateActor(a);
      -MaxVelocity <= r.position.x - a.position.x <= MaxVelocity
      && -MaxVelocity <= r.position.y - a.position.y <= MaxVelocity
      && !IsTouching(r, TouchAny) && (WasTouching(r, TouchAny) <==> IsTouching(a, TouchAny))
  {
  }

  // -------------------------------------------------------------- rects

  datatype Rect = Rect(x: real, y: real, width: real, height: real)

  /** `NcRect::pointOn`: strictly inside. */
  predicate PointOn(p: Vec, r: Rect)
  {
    p.x > r.x && p.x < r.x + r.width && p.y > r.y && p.y < r.y + r.height
  }

  /** `NcRect::overlap`: strict overlap on both axes, so rects that only share an edge do not overlap. */
  predicate Overlap(a: Rect, b: Rect)
  {
    a.y + a.height > b.y && a.y < b.y + b.height && a.x + a.width > b.x && a.x < b.x + b.width
  }

  lemma OverlapSymmetric(a: Rect, b: Rect)
    ensures Overlap(a, b) <==> Overlap(b, a)
  {
  }

  function MaxR(a: real, b: real): real { if a > b then a else b }
  function MinR(a: real, b: real): real { if a < b then a else b }

  /** `NcRect::intersection`: the common part of overlapping rects, the zero rect otherwise. */
  function Intersection(a: Rect, b: Rect): (r: Rect)
    ensures !Overlap(a, b) ==> r == Rect(0.0, 0.0, 0.0, 0.0)
    ensures Overlap(a, b) && Proper(a) && Proper(b) ==> Proper(r) && Inside(r, a) && Inside(r, b)
  {
    if Overlap(a, b) then
      var x0 := MaxR(a.x, b.x);
      var x1 := MinR(a.x + a.width, b.x + b.width);
      var y0 := MaxR(a.y, b.y);
      var y1 := MinR(a.y + a.height, b.y + b.height);
      Rect(x0, y0, x1 - x0, y1 - y0)
    else Rect(0.0, 0.0, 0.0, 0.0)
  }

  /** A rect with positive extent on both axes. */
  predicate Proper(r: Rect) { r.width > 0.0 && r.height > 0.0 }

  predicate Inside(inner: Rect, outer: Rect)
  {
    outer.x <= inner.x && inner.x + inner.width <= outer.x + outer.width
    && outer.y <= inner.y && inner.y + inner.height <= outer.y + outer.height
  }

  /** A point strictly inside both rects lies inside their intersection, and the rects overlap. */
  lemma IntersectionHoldsCommonPoints(a: Rect, b: Rect, p: Vec)
    requires PointOn(p, a) && PointOn(p, b)
    ensures Overlap(a, b) && PointOn(p, Intersection(a, b))
  {
  }

  /** For proper rects the intersection has positive area exactly when the rects overlap. */
  lemma IntersectionAreaPositive(a: Rect, b: Rect)
    requires Proper(a) && Proper(b)
    ensures Overlap(a, b) <==> Intersection(a, b).width * Intersection(a, b).height > 0.0
  {
    var r := Intersection(a, b);
    if Overlap(a, b) {
      assert r.width * r.height > 0.0 by { PositiveProduct(r.width, r.height); }
    }
  }

  lemma PositiveProduct(w: real, h: real)
    requires w > 0.0 && h > 0.0
    ensures w * h > 0.0
  {
  }

  // ---------------------------------------------------------- animation

  datatype Frame = Frame(x: real, y: real, width: real, height: real)

  /** The stored frame period: `1 / frameRate` seconds, infinite for a zero rate. */
  datatype Period = Every(seconds: real) | Never

  function InverseRate(frameRate: real): (p: Period)
    ensures frameRate == 0.0 <==> p.Never?
    ensures frameRate != 0.0 ==> p.seconds * frameRate == 1.0
  {
    if frameRate == 0.0 then Never else Every(1.0 / frameRate)
  }

  /** `animTime >= frameRate`: an infinite period never expires. */
  predicate Expired(time: real, p: Period)
  {
    p.Every? && time >= p.seconds
  }

  /** An animation: indices into the sprite's frame list, and the frame period. */
  datatype Animation = Animation(frames: seq<nat>, period: Period)

  /**
   * The animated part of NcSprite. `current` names the entry of
   * `animations` that `currentAnimation` points to.
   */
  datatype Sprite = Sprite(
    actor: Actor,
    animations: map<string, Animation>,
    frames: seq<Frame>,
    current: Option<string>,
    currentFrame: Frame,
    currentAnimationName: string,
    currentFrameIndex: nat,
    animTime: real,
    looped: bool,
    playing: bool)
  {
    /** Every animation's indices name frames, and the current animation exists with the index inside it. */
    predicate Valid() {
      (forall name :: name in animations ==> IndicesIn(animations[name].frames, |frames|))
      && (current.Some? ==>
            current.value in animations && currentFrameIndex < |animations[current.value].frames|)
    }
  }

  predicate IndicesIn(ids: seq<nat>, n: nat)
  {
    forall i :: 0 <= i < |ids| ==> ids[i] < n
  }

  /** `NcSprite::init`: no animations, no frames, nothing playing. */
  function InitSprite(s: Sprite, x: real, y: real, width: real, height: real): (r: Sprite)
    ensures r.Valid() && r.animations == map[] && r.frames == [] && r.current == None
    ensures !r.playing && !r.looped && r.currentFrameIndex == 0 && r.animTime == 0.0
    ensures r.actor == InitActor(s.actor, x, y, width, height)
  {
    Sprite(InitActor(s.actor, x, y, width, height), map[], [], None, Frame(0.0, 0.0, 0.0, 0.0),
           s.currentAnimationName, 0, 0.0, false, false)
  }

  /** `addAnimation`: an existing name is never replaced; a new one stores the period of the given rate. */
  function AddAnimation(s: Sprite, name: string, frames: seq<nat>, frameRate: real): (r: Sprite)
    requires s.Valid() && IndicesIn(frames, |s.frames|)
    ensures r.Valid()
    ensures name in s.animations ==> r == s
    ensures name !in s.animations ==> r == s.(animations := s.animations[name := Animation(frames, InverseRate(frameRate))])
  {
    if name in s.animations then s
    else s.(animations := s.animations[name := Animation(frames, InverseRate(frameRate))])
  }

  /** Adding under a taken name keeps the first animation. */
  lemma AddAnimationKeepsFirst(s: Sprite, name: string, f1: seq<nat>, r1: real, f2: seq<nat>, r2: real)
    requires s.Valid() && IndicesIn(f1, |s.frames|) && IndicesIn(f2, |s.frames|)
    ensures var t := AddAnimation(AddAnimation(s, name, f1, r1), name, f2, r2);
      name in t.animations && (name !in s.animations ==> t.animations[name] == Animation(f1, InverseRate(r1)))
      && (name in s.animations ==> t.animations[name] == s.animations[name])
  {
  }

  /** `setAnimationFrameRate`: changes the period of a known animation. */
  function SetAnimationFrameRate(s: Sprite, name: string, frameRate: real): (r: Sprite)
    requires s.Valid()
    ensures r.Valid() && r.animations.Keys == s.animations.Keys
    ensures name in s.animations ==> r.animations[name] == s.animations[name].(period := InverseRate(frameRate))
    ensures forall other :: other in s.animations && other != name ==> r.animations[other] == s.animations[other]
    ensures r.(animations := s.animations) == s
  {
    if name in s.animations then
      s.(animations := s.animations[name := s.animations[name].(period := InverseRate(frameRate))])
    else s
  }

  /**
   * `playAnimation`: an unknown name or the animation already current does
   * nothing; otherwise the animation restarts at its first frame. The source
   * reads that frame unchecked, so the animation must have one.
   */
  function PlayAnimation(s: Sprite, name: string, loop: bool): (r: Sprite)
    requires s.Valid()
    requires name in s.animations && s.current != Some(name) ==> |s.animations[name].frames| > 0
    ensures r.Valid() && r.animations == s.animations && r.frames == s.frames && r.actor == s.actor
    ensures name !in s.animations || s.current == Some(name) ==> r == s
    ensures name in s.animations && s.current != Some(name) ==>
      r.current == Some(name) && r.currentFrameIndex == 0 && r.looped == loop && r.playing
      && r.animTime == 0.0 && r.currentAnimationName == name
      && r.currentFrame == s.frames[s.animations[name].frames[0]]
  {
    if name in s.animations && s.current != Some(name) then
      var anim := s.animations[name];
      s.(current := Some(name), currentFrameIndex := 0, looped := loop, playing := true, animTime := 0.0,
         currentFrame := s.frames[anim.frames[0]], currentAnimationName := name)
    else s
  }

  /** `stopAnimation`. */
  function StopAnimation(s: Sprite): (r: Sprite)
    ensures !r.playing && r.(playing := s.playing) == s
  {
    s.(playing := false)
  }

  /** `isPlaying(name)`: an animation is running and the last one started had this name. */
  predicate IsPlaying(s: Sprite, name: string)
  {
    s.playing && s.currentAnimationName == name
  }

  /** `animationFinished` returns the playing flag itself: it is true while the animation still runs. */
  predicate AnimationFinished(s: Sprite) { s.playing }

  /** Starting a new animation makes it the playing one, and `animationFinished` then already answers true. */
  lemma PlayThenIsPlaying(s: Sprite, name: string, loop: bool)
    requires s.Valid() && name in s.animations && s.current != Some(name) && |s.animations[name].frames| > 0
    ensures IsPlaying(PlayAnimation(s, name, loop), name) && AnimationFinished(PlayAnimation(s, name, loop))
    ensures forall other :: other != name ==> !IsPlaying(PlayAnimation(s, name, loop), other)
  {
  }

  /** The next frame index when the frame time has run out: wrap for a loop, else advance or stop. */
  function NextIndex(index: nat, count: nat, looped: bool): (r: (nat, bool))
    requires index < count
    ensures r.0 < count
    ensures looped ==> r == ((index + 1) % count, true)
    ensures !looped && index + 1 < count ==> r == (index + 1, true)
    ensures !looped && index + 1 == count ==> r == (index, false)
  {
    if looped then ((index + 1) % count, true)
    else if index + 1 < count then (index + 1, true)
    else (index, false)
  }

  /**
   * `NcSprite::update`: the actor moves, then a running animation adds the
   * elapsed time and, once its period has passed, moves to the next frame
   * (or stops) and restarts its timer.
   */
  function UpdateSprite(s: Sprite, elapsed: real): (r: Sprite)
    requires s.Valid()
    ensures r.Valid() && r.actor == UpdateActor(s.actor)
    ensures r.animations == s.animations && r.frames == s.frames && r.current == s.current && r.looped == s.looped
    ensures r.playing ==> s.playing
    ensures !(s.playing && s.current.Some?) ==> r == s.(actor := UpdateActor(s.actor))
    ensures r.current.Some? && r.currentFrameIndex != s.currentFrameIndex ==>
      r.currentFrame == r.frames[r.animations[r.current.value].frames[r.currentFrameIndex]]
    ensures s.playing && s.current.Some? ==>
      var anim := s.animations[s.current.value];
      var t := s.animTime + elapsed;
      (Expired(t, anim.period) ==>
         (r.currentFrameIndex, r.playing) == NextIndex(s.currentFrameIndex, |anim.frames|, s.looped) && r.animTime == 0.0)
      && (!Expired(t, anim.period) ==>
         r.currentFrameIndex == s.currentFrameIndex && r.currentFrame == s.currentFrame && r.playing && r.animTime == t)
  {
    var actor := UpdateActor(s.actor);
    if s.playing && s.current.Some? then
      var anim := s.animations[s.current.value];
      var time := s.animTime + elapsed;
      if Expired(time, anim.period) then
        var next := NextIndex(s.currentFrameIndex, |anim.frames|, s.looped);
        var frame := if next.1 then s.frames[anim.frames[next.0]] else s.currentFrame;
        s.(actor := actor, currentFrameIndex := next.0, currentFrame := frame, playing := next.1, animTime := 0.0)
      else s.(actor := actor, animTime := time)
    else s.(actor := actor)
  }

  /** k frame expiries of a looping animation land on (i + k) mod n, so n of them return to the start. */
  lemma {:induction false} LoopIndexAfter(i: nat, n: nat, k: nat)
    requires i < n
    ensures LoopSteps(i, n, k) == (i + k) % n
    decreases k
  {
    if k > 0 {
      LoopIndexAfter(i, n, k - 1);
      ModAddOne(i + k - 1, n);
    }
  }

  function LoopSteps(i: nat, n: nat, k: nat): (r: nat)
    requires i < n
    ensures r < n
    decreases k
  {
    if k == 0 then i else NextIndex(LoopSteps(i, n, k - 1), n, true).0
  }

  lemma ModAddOne(m: nat, n: nat)
    requires n > 0
    ensures (m % n + 1) % n == (m + 1) % n
  {
    var q, r := m / n, m % n;
    assert m == q * n + r;
    if r + 1 < n {
      ModUnique(m + 1, n, q, r + 1);
      ModUnique(r + 1, n, 0, r + 1);
    } else {
      assert m + 1 == (q + 1) * n;
      ModUnique(m + 1, n, q + 1, 0);
      ModUnique(r + 1, n, 1, 0);
    }
  }

  /** Quotient and remainder are unique: x == q * n + r with r < n fixes both. */
  lemma ModUnique(x: nat, n: nat, q: nat, r: nat)
    requires 0 <= r < n && x == q * n + r
    ensures x % n == r && x / n == q
  {
    var q', r' := x / n, x % n;
    assert q' * n + r' == q * n + r;
    if q' < q {
      MulGap(q', q, n);
    } else if q' > q {
      MulGap(q, q', n);
    }
  }

  /** Multiples of n that differ in the factor are at least n apart. */
  lemma MulGap(a: nat, b: nat, n: nat)
    requires a < b
    ensures b * n >= a * n + n
  {
    assert b * n == a * n + (b - a) * n;
    assert (b - a) * n == (b - a - 1) * n + n;
  }

  /** A non-looping animation stops on its last frame: from any index, n expiries reach it with playing off. */
  lemma {:induction false} OnceStopsAtLast(i: nat, n: nat, k: nat)
    requires i < n && k >= n - i
    ensures OnceSteps(i, n, k) == (n - 1, false)
    decreases k
  {
    if i + 1 < n {
      OnceStopsAtLast(i + 1, n, k - 1);
    }
  }

  /** k expiries of a non-looping animation; after it stops nothing changes. */
  function OnceSteps(i: nat, n: nat, k: nat): (r: (nat, bool))
    requires i < n
    ensures r.0 < n
    decreases k
  {
    if k == 0 then (i, true)
    else
      var next := NextIndex(i, n, false);
      if next.1 then OnceSteps(next.0, n, k - 1) else next
  }

  /** k sprite updates in a row, each with the same elapsed time. */
  function UpdateSpriteTimes(s: Sprite, elapsed: real, k: nat): (r: Sprite)
    requires s.Valid()
    ensures r.Valid() && r.animations == s.animations && r.frames == s.frames
    ensures r.current == s.current && r.looped == s.looped
    decreases k
  {
    if k == 0 then s else UpdateSprite(UpdateSpriteTimes(s, elapsed, k - 1), elapsed)
  }

  /**
   * A running animation with a finite period, a non-negative timer and an
   * elapsed time of at least one period: every update is a frame expiry.
   */
  predicate EveryUpdateExpires(s: Sprite, elapsed: real)
    requires s.Valid()
  {
    s.playing && s.current.Some? && s.animTime >= 0.0
    && s.animations[s.current.value].period.Every? && elapsed >= s.animations[s.current.value].period.seconds
  }

  /**
   * k updates of a looping sprite whose every update expires step the index
   * exactly as LoopSteps does, keep playing and show the frame of that index.
   */
  lemma {:induction false} LoopingSpriteAdvances(s: Sprite, elapsed: real, k: nat)
    requires s.Valid() && EveryUpdateExpires(s, elapsed) && s.looped
    ensures var r := UpdateSpriteTimes(s, elapsed, k); var anim := s.animations[s.current.value];
      r.playing && r.currentFrameIndex == LoopSteps(s.currentFrameIndex, |anim.frames|, k)
      && r.animTime == (if k == 0 then s.animTime else 0.0)
      && (k > 0 ==> r.currentFrame == s.frames[anim.frames[r.currentFrameIndex]])
    decreases k
  {
    if k > 0 {
      LoopingSpriteAdvances(s, elapsed, k - 1);
    }
  }

  /** So a looping sprite lands on index (i + k) mod n after k expiring updates. */
  lemma LoopingSpriteIndex(s: Sprite, elapsed: real, k: nat)
    requires s.Valid() && EveryUpdateExpires(s, elapsed) && s.looped
    ensures UpdateSpriteTimes(s, elapsed, k).currentFrameIndex == (s.currentFrameIndex + k) % |s.animations[s.current.value].frames|
  {
    LoopingSpriteAdvances(s, elapsed, k);
    LoopIndexAfter(s.currentFrameIndex, |s.animations[s.current.value].frames|, k);
  }

  /**
   * k updates of a non-looping sprite whose every update expires follow
   * OnceSteps: the index climbs to the last frame and playing stops on the
   * n - i-th update, after which nothing moves.
   */
  lemma {:induction false} OnceSpriteStops(s: Sprite, elapsed: real, k: nat)
    requires s.Valid() && EveryUpdateExpires(s, elapsed) && !s.looped
    ensures var r := UpdateSpriteTimes(s, elapsed, k); var n := |s.animations[s.current.value].frames|;
      var i := s.currentFrameIndex;
      (r.currentFrameIndex, r.playing) == OnceSteps(i, n, k)
      && r.currentFrameIndex == (if i + k < n then i + k else n - 1)
      && (r.playing <==> i + k < n)
      && (r.playing ==> r.animTime == (if k == 0 then s.animTime else 0.0))
    decreases k
  {
    var n := |s.animations[s.current.value].frames|;
    if k > 0 {
      OnceSpriteStops(s, elapsed, k - 1);
    }
    OnceStepsClosed(s.currentFrameIndex, n, k);
  }

  /** OnceSteps in closed form: the index climbs by one per expiry up to n - 1, and playing stops on reaching it. */
  lemma {:induction false} OnceStepsClosed(i: nat, n: nat, k: nat)
    requires i < n
    ensures OnceSteps(i, n, k) == (if i + k < n then i + k else n - 1, i + k < n)
    decreases k
  {
    if k > 0 && i + 1 < n {
      OnceStepsClosed(i + 1, n, k - 1);
    }
  }

  // ----------------------------------------------------- loadAnimations

  /** One animation of a sprite sheet: its name and its frame rectangles. */
  datatype SheetAnimation = SheetAnimation(name: string, frames: seq<Frame>)

  function AllFrames(anims: seq<SheetAnimation>): seq<Frame>
    decreases |anims|
  {
    if anims == [] then [] else AllFrames(anims[..|anims| - 1]) + anims[|anims| - 1].frames
  }

  function Range(offset: nat, count: nat): (r: seq<nat>)
    ensures |r| == count && forall i :: 0 <= i < count ==> r[i] == offset + i
  {
    seq(count, i requires 0 <= i < count => offset + i)
  }

  predicate FirstWithName(anims: seq<SheetAnimation>, k: nat)
    requires k < |anims|
  {
    forall j :: 0 <= j < k ==> anims[j].name != anims[k].name
  }

  /** The animation table `loadAnimations` builds: the first animation of each name, with a zero period. */
  function LoadedAnimations(anims: seq<SheetAnimation>): (m: map<string, Animation>)
    ensures forall name :: name in m ==> IndicesIn(m[name].frames, |AllFrames(anims)|)
    decreases |anims|
  {
    if anims == [] then map[]
    else
      var front := anims[..|anims| - 1];
      var last := anims[|anims| - 1];
      var m := LoadedAnimations(front);
      var offset := |AllFrames(front)|;
      if last.name in m then m
      else m[last.name := Animation(Range(offset, |last.frames|), Every(0.0))]
  }

  /**
   * `loadAnimations`: clears frames and animations, then appends each sheet
   * animation's frames and registers the index range they got. The period
   * is stored as 0 directly (not through `1 / rate`), so such an animation
   * moves on at every tick until `setAnimationFrameRate` is called. The
   * current animation is not reset by the source; the model requires that
   * there is none.
   */
  function LoadAnimations(s: Sprite, anims: seq<SheetAnimation>): (r: Sprite)
    requires s.Valid() && s.current.None?
    ensures r.Valid() && r.frames == AllFrames(anims) && r.current == s.current && r.actor == s.actor
    ensures r.animations.Keys == set k | 0 <= k < |anims| :: anims[k].name
  {
    LoadedKeys(anims);
    s.(frames := AllFrames(anims), animations := LoadedAnimations(anims))
  }

  lemma {:induction false} LoadedKeys(anims: seq<SheetAnimation>)
    ensures LoadedAnimations(anims).Keys == set k | 0 <= k < |anims| :: anims[k].name
    decreases |anims|
  {
    if anims != [] {
      var front := anims[..|anims| - 1];
      LoadedKeys(front);
      assert (set k | 0 <= k < |anims| :: anims[k].name)
        == (set k | 0 <= k < |front| :: front[k].name) + {anims[|anims| - 1].name};
    }
  }

  /** Each name maps to the index range of its first sheet animation. */
  lemma {:induction false} LoadedFirstWins(anims: seq<SheetAnimation>, k: nat)
    requires k < |anims| && FirstWithName(anims, k)
    ensures anims[k].name in LoadedAnimations(anims)
    ensures LoadedAnimations(anims)[anims[k].name]
      == Animation(Range(|AllFrames(anims[..k])|, |anims[k].frames|), Every(0.0))
    decreases |anims|
  {
    var front := anims[..|anims| - 1];
    LoadedKeys(front);
    if k == |anims| - 1 {
      assert front == anims[..k];
      assert anims[k].name !in LoadedAnimations(front);
    } else {
      assert front[..k] == anims[..k];
      LoadedFirstWins(front, k);
    }
  }

  /** The index range registered for the k-th sheet animation holds exactly its frames. */
  lemma LoadedFramesAt(anims: seq<SheetAnimation>, k: nat)
    requires k < |anims|
    ensures forall i :: 0 <= i < |anims[k].frames| ==>
      |AllFrames(anims[..k])| + i < |AllFrames(anims)|
      && AllFrames(anims)[|AllFrames(anims[..k])| + i] == anims[k].frames[i]
  {
    AllFramesStep(anims, k);
    AllFramesPrefix(anims, k + 1);
    PartOfPrefix(AllFrames(anims), AllFrames(anims[..k + 1]), AllFrames(anims[..k]), anims[k].frames);
  }

  /** If `before + part` is a prefix of `all`, then `part` sits in `all` right after `before`. */
  lemma PartOfPrefix<T>(all: seq<T>, upTo: seq<T>, before: seq<T>, part: seq<T>)
    requires upTo == before + part && |upTo| <= |all| && all[..|upTo|] == upTo
    ensures forall i :: 0 <= i < |part| ==> |before| + i < |all| && all[|before| + i] == part[i]
  {
    forall i | 0 <= i < |part| ensures all[|before| + i] == part[i] {
      assert all[..|upTo|][|before| + i] == upTo[|before| + i];
    }
  }

  lemma AllFramesStep(anims: seq<SheetAnimation>, k: nat)
    requires k < |anims|
    ensures AllFrames(anims[..k + 1]) == AllFrames(anims[..k]) + anims[k].frames
  {
    assert anims[..k + 1][..k] == anims[..k];
  }

  lemma {:induction false} AllFramesPrefix(anims: seq<SheetAnimation>, j: nat)
    requires j <= |anims|
    ensures |AllFrames(anims[..j])| <= |AllFrames(anims)|
    ensures AllFrames(anims)[..|AllFrames(anims[..j])|] == AllFrames(anims[..j])
    decreases |anims|
  {
    if j == |anims| {
      assert anims[..j] == anims;
    } else {
      var front := anims[..|anims| - 1];
      assert front[..j] == anims[..j];
      AllFramesPrefix(front, j);
    }
  }
}
