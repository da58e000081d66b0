/**
 * AnimationManager: maps each State an actor can be in to the clip played
 * in that state, and tracks the current state, clip and facing direction.
 */
module Managers {
  import opened Enums
  import opened Geometry
  import opened Animations

  /**
   * The key std::map::begin() yields: the smallest State in the map, since a
   * std::map<State, _> is ordered by the enumerators' values.
   */
  function FirstKey(keys: set<State>): (k: State)
    requires keys != {}
    ensures k in keys
    ensures forall s :: s in keys ==> Rank(k) <= Rank(s)
  {
    if Idle in keys then Idle
    else if Walking in keys then Walking
    else if Running in keys then Running
    else if Shooting in keys then Shooting
    else
      assert forall s :: s in keys ==> s == Dead;
      Dead
  }

  /** The girl's map, {IDLE, RUNNING, SHOOTING, DEAD}, starts her in IDLE. */
  lemma GirlFactoryFirstKey()
    ensures FirstKey({Idle, Running, Shooting, Dead}) == Idle
  {
  }

  /** The zombie's map, {IDLE, WALKING}, starts it in IDLE. */
  lemma ZombieFactoryFirstKey()
    ensures FirstKey({Idle, Walking}) == Idle
  {
  }

  class AnimationManager {
    const animationMap: map<State, Animation>
    var currentAnimation: Animation
    var state: State
    var direction: Direction

    /**
     * The current state is a key of the map and the current clip is the one
     * mapped to it; every clip has two frames or more and satisfies its own
     * playback invariant.
     */
    ghost predicate Valid()
      reads this, animationMap.Values
    {
      && state in animationMap
      && currentAnimation == animationMap[state]
      && forall a :: a in animationMap.Values ==> |a.images| >= 2 && a.Valid()
    }

    /** AnimationManager(animationMap): starts in the map's first state, facing right. */
    constructor (animationMap: map<State, Animation>)
      requires animationMap != map[]
      ensures this.animationMap == animationMap
      ensures state == FirstKey(animationMap.Keys) && direction == Right
      ensures currentAnimation == animationMap[state]
      ensures (forall a :: a in animationMap.Values ==> |a.images| >= 2 && a.Valid()) ==> Valid()
    {
      this.animationMap := animationMap;
      var first := FirstKey(animationMap.Keys);
      state := first;
      direction := Right;
      currentAnimation := animationMap[first];
    }

    /**
     * The collision rectangle of the frame the current clip is on, as
     * Animation::get_collision_rect reads it (before scaling): a frame of
     * the current state's clip, the one its index names.
     */
    function Frame(): (r: Rect)
      reads this, animationMap.Values
      requires Valid()
      ensures var clip := animationMap[state];
        clip.imageIndex < |clip.images| && r == clip.images[clip.imageIndex].collisionRect
    {
      assert currentAnimation in animationMap.Values;
      currentAnimation.images[currentAnimation.imageIndex].collisionRect
    }

    /**
     * The frame current after set_state(s): the first frame of s's clip when
     * set_state switches to it, and the current frame otherwise.
     */
    function FrameAfter(s: State): Rect
      reads this, animationMap.Values
      requires Valid()
    {
      if s in animationMap && s != state then animationMap[s].images[0].collisionRect else Frame()
    }

    /** The playback fields of every clip in the map, by clip. */
    function Playbacks(): map<Animation, Playback>
      reads animationMap.Values
    {
      map a | a in animationMap.Values :: a.Status()
    }

    /**
     * set_state(s): ignored when s is the current state or has no clip;
     * otherwise switches to s and its clip and restarts that clip at `now`.
     */

    method SetState(s: State, now: U32)
      modifies this, if s in animationMap then {animationMap[s]} else {}
      ensures direction == old(direction)
      ensures s == old(state) || s !in animationMap ==>
        && state == old(state) && currentAnimation == old(currentAnimation)
        && (s in animationMap ==> unchanged(animationMap[s]))
      ensures s != old(state) && s in animationMap ==>
        && state == s && currentAnimation == animationMap[s]
        && currentAnimation.Status() == Restarted(now)
      ensures old(Valid()) ==> Valid() && Frame() == old(FrameAfter(s))
      // only a switch touches a clip: the new state's, which restarts at now
      ensures Playbacks() ==
        if s != old(state) && s in animationMap then old(Playbacks())[animationMap[s] := Restarted(now)]
        else old(Playbacks())
    {
      if s != state {
        if s in animationMap {
          state := s;
          currentAnimation := animationMap[s];
          currentAnimation.Reset(now);
        }
      }
    }

    /** set_direction */
    method SetDirection(d: Direction)
      modifies this
      ensures direction == d
      ensures state == old(state) && currentAnimation == old(currentAnimation)
      ensures old(Valid()) ==> Valid()
    {
      direction := d;
    }

    /** draw_current_animation: the current clip's draw_next at `now`. */
    method DrawCurrentAnimation(now: U32) returns (shown: int)
      modifies currentAnimation
      ensures currentAnimation.Status() ==
        Next(old(currentAnimation.Status()), |currentAnimation.images|, currentAnimation.loop,
             currentAnimation.updateInterval, now)
      ensures old(Valid()) ==> Valid() && 0 <= shown < |currentAnimation.images|
    {
      shown := currentAnimation.DrawNext(now);
    }

    /** current_animation_is_finished */
    function CurrentAnimationIsFinished(): (r: bool)
      reads this, currentAnimation, animationMap.Values
      ensures Valid() ==> (r <==> animationMap[state].imageIndex == |animationMap[state].images| - 1)
    {
      currentAnimation.IsFinished()
    }

    /** reset_current_animation */
    method ResetCurrentAnimation(now: U32)
      modifies currentAnimation
      ensures currentAnimation.Status() == Restarted(now)
      ensures old(Valid()) ==> Valid()
    {
      currentAnimation.Reset(now);
    }
  }
}
