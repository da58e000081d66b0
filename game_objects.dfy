/**
 * GameObject and its two subclasses, Zombie and AdventureGirl: an actor with
 * a bounding rectangle, a velocity, a state and a facing direction, which
 * steers itself from the keyboard (when it has an event receiver), moves,
 * and responds to the actors it collides with.
 */
module GameObjects {
  import opened Geometry
  import opened Enums
  import opened Animations
  import opened Managers

  /** The dynamic class of an actor: virtual handle_collision dispatches on it. */
  datatype Kind = Base | Zombie | AdventureGirl

  /** Whether D, A and SPACE are held, as the event receiver reports them this tick. */
  datatype Keys = Keys(d: bool, a: bool, space: bool)

  /** The fields determine_state decides. */
  datatype Control = Control(state: State, direction: Direction, velocity: Vec)

  /** The speed the player runs at, in pixels per tick. */
  const RunSpeed := 5.0

  /**
   * determine_state consults the keyboard: the actor is not dead, is not in
   * the middle of an unfinished SHOOTING clip, and has an event receiver.
   */
  predicate Steers(state: State, animationFinished: bool, hasReceiver: bool)
  {
    state != Dead && !(state == Shooting && !animationFinished) && hasReceiver
  }

  /** The velocity matches the state and, when running, the direction. */
  predicate Coherent(c: Control)
  {
    match c.state
    case Running => c.velocity == Vec(if c.direction == Right then RunSpeed else -RunSpeed, 0.0)
    case Walking => true
    case Idle | Shooting | Dead => c.velocity == Zero
  }

  /**
   * determine_state's decision.  D has priority over A, and A over SPACE;
   * dead is terminal and SHOOTING cannot be interrupted until its clip has
   * finished.
   */
  function Decide(c: Control, animationFinished: bool, hasReceiver: bool, keys: Keys): (r: Control)
    ensures !Steers(c.state, animationFinished, hasReceiver) ==> r == c
    ensures Steers(c.state, animationFinished, hasReceiver) ==>
      && Coherent(r)
      && (r.state == Running <==> keys.d || keys.a)
      && (r.state == Shooting <==> !keys.d && !keys.a && keys.space)
      && (r.state == Idle <==> !keys.d && !keys.a && !keys.space)
      && (keys.d ==> r.direction == Right)
      && (!keys.d && keys.a ==> r.direction == Left)
      && (!keys.d && !keys.a ==> r.direction == c.direction)
    // no key ever kills an actor or brings a dead one back
    ensures r.state == Dead <==> c.state == Dead
  {
    if !Steers(c.state, animationFinished, hasReceiver) then c
    else if keys.d then Control(Running, Right, Vec(RunSpeed, 0.0))
    else if keys.a then Control(Running, Left, Vec(-RunSpeed, 0.0))
    else if keys.space then Control(Shooting, c.direction, Zero)
    else Control(Idle, c.direction, Zero)
  }

  /** Deciding twice on the same input changes nothing more. */
  lemma DecideIdempotent(c: Control, animationFinished: bool, hasReceiver: bool, keys: Keys)
    ensures var r := Decide(c, animationFinished, hasReceiver, keys);
      Decide(r, animationFinished, hasReceiver, keys) == r
  {
  }

  /** How an actor responds to a collision. */
  datatype Response =
    | Revert  // undo this tick's move
    | Die     // become DEAD and stop, where it stands
    | Ignore  // nothing

  /**
   * The virtual handle_collision: GameObject's and Zombie's undo the move;
   * AdventureGirl's dies when the other actor is a Zombie and otherwise does
   * nothing.
   */
  function Respond(self: Kind, other: Kind): (r: Response)
    ensures r == Revert <==> self != AdventureGirl
    ensures r == Die <==> self == AdventureGirl && other == Zombie
  {
    if self == AdventureGirl then
      if other == Zombie then Die else Ignore
    else
      Revert
  }

  /**
   * get_collision_rect: a frame's collision rectangle placed at the rounded
   * centre of the bounding rectangle.
   */
  function RectAt(frame: Rect, bounds: RectF): Rect
  {
    Offset(frame, Round(Center(bounds).x), Round(Center(bounds).y))
  }

  datatype Option<T> = None | Some(value: T)

  /**
   * What update's loop reads of one entry of its list: whether it is the
   * updating actor itself, its class and its collision rectangle.
   */
  datatype Target = Target(isSelf: bool, kind: Kind, rect: Rect)

  /**
   * What the collision checks read of the updating actor: its bounding
   * rectangle, the collision rectangle of its current frame, and its
   * manager's state (which decides whether dying switches the clip).
   */
  datatype Probe = Probe(bounds: RectF, frame: Rect, clipState: State)

  /** update's test for one entry: another actor, whose collision rectangle overlaps the updating actor's. */
  predicate Hit(p: Probe, t: Target)
  {
    !t.isSelf && Collided(RectAt(p.frame, p.bounds), t.rect)
  }

  /**
   * The updating actor after one pass of update's loop: on a hit, a revert
   * moves it back by v, and a death is set_state(DEAD), which switches to
   * the first frame of the DEAD clip (`deadClip`, when the manager has one)
   * unless the manager is in DEAD already; otherwise it is unchanged.
   */
  function Handled(self: Kind, p: Probe, v: Vec, deadClip: Option<Rect>, t: Target): Probe
  {
    if !Hit(p, t) then p
    else match Respond(self, t.kind)
      case Revert => p.(bounds := TranslatedBack(p.bounds, v))
      case Die => if deadClip.Some? && p.clipState != Dead then Probe(p.bounds, deadClip.value, Dead) else p
      case Ignore => p
  }

  /** The updating actor after update's loop has gone through ts. */
  function After(self: Kind, p: Probe, v: Vec, deadClip: Option<Rect>, ts: seq<Target>): Probe
    decreases |ts|
  {
    if ts == [] then p
    else Handled(self, After(self, p, v, deadClip, ts[..|ts| - 1]), v, deadClip, ts[|ts| - 1])
  }

  /**
   * Which entries of ts update's loop responds to, in order: each is tested
   * against the actor as the earlier responses have left it.
   */
  function Hits(self: Kind, p: Probe, v: Vec, deadClip: Option<Rect>, ts: seq<Target>): (hits: seq<bool>)
    ensures |hits| == |ts|
    // the actor never responds to itself
    ensures forall i :: 0 <= i < |ts| && hits[i] ==> !ts[i].isSelf
    decreases |ts|
  {
    if ts == [] then []
    else
      var init := ts[..|ts| - 1];
      Hits(self, p, v, deadClip, init) + [Hit(After(self, p, v, deadClip, init), ts[|ts| - 1])]
  }

  /** One more pass of update's loop: the entry k is tested against the actor as the first k left it. */
  lemma HitsStep(self: Kind, p: Probe, v: Vec, deadClip: Option<Rect>, ts: seq<Target>, k: nat)
    requires k < |ts|
    ensures Hits(self, p, v, deadClip, ts[..k + 1]) ==
      Hits(self, p, v, deadClip, ts[..k]) + [Hit(After(self, p, v, deadClip, ts[..k]), ts[k])]
    ensures After(self, p, v, deadClip, ts[..k + 1]) ==
      Handled(self, After(self, p, v, deadClip, ts[..k]), v, deadClip, ts[k])
  {
    assert ts[..k + 1][..k] == ts[..k];
  }

  /**
   * One pass of update's loop over the entry k, given the actor `before` as
   * the first k passes left it: it records whether that entry was hit, counts
   * it, and leaves the actor as the first k + 1 passes leave it.  The girl's
   * responses do not depend on the velocity, so hers may have changed (w).
   */
  lemma SweepStep(self: Kind, p: Probe, v: Vec, deadClip: Option<Rect>, ts: seq<Target>, k: nat,
                  hits: seq<bool>, collisions: nat, w: Vec)
    requires k < |ts| && self != AdventureGirl ==> w == v
    requires k < |ts| && hits == Hits(self, p, v, deadClip, ts[..k]) && collisions == multiset(hits)[true]
    ensures var before := After(self, p, v, deadClip, ts[..k]);
      var hit := Hit(before, ts[k]);
      && hits + [hit] == Hits(self, p, v, deadClip, ts[..k + 1])
      && collisions + (if hit then 1 else 0) == multiset(hits + [hit])[true]
      && Handled(self, before, w, deadClip, ts[k]) == After(self, p, v, deadClip, ts[..k + 1])
  {
    HitsStep(self, p, v, deadClip, ts, k);
    var before := After(self, p, v, deadClip, ts[..k]);
    if self == AdventureGirl {
      GirlIgnoresVelocity(before, w, v, deadClip, ts[k]);
    }
  }

  /** While the loop has responded to nothing, the actor is as it started. */
  lemma {:induction false} NoHitsKeepActor(self: Kind, p: Probe, v: Vec, deadClip: Option<Rect>, ts: seq<Target>)
    requires true !in Hits(self, p, v, deadClip, ts)
    ensures After(self, p, v, deadClip, ts) == p
    decreases |ts|
  {
    if ts != [] {
      var init := ts[..|ts| - 1];
      assert Hits(self, p, v, deadClip, ts) == Hits(self, p, v, deadClip, init) + [Hit(After(self, p, v, deadClip, init), ts[|ts| - 1])];
      NoHitsKeepActor(self, p, v, deadClip, init);
    }
  }

  /** When no other actor overlaps the actor where it starts, the loop responds to none. */
  lemma {:induction false} NoOverlapNoHits(self: Kind, p: Probe, v: Vec, deadClip: Option<Rect>, ts: seq<Target>)
    requires forall i :: 0 <= i < |ts| ==> !Hit(p, ts[i])
    ensures true !in Hits(self, p, v, deadClip, ts)
    decreases |ts|
  {
    if ts != [] {
      var init := ts[..|ts| - 1];
      assert forall i :: 0 <= i < |init| ==> init[i] == ts[i];
      NoOverlapNoHits(self, p, v, deadClip, init);
      NoHitsKeepActor(self, p, v, deadClip, init);
    }
  }

  /** When another actor overlaps the actor where it starts, the loop responds to at least one. */
  lemma {:induction false} OverlapHits(self: Kind, p: Probe, v: Vec, deadClip: Option<Rect>, ts: seq<Target>, i: nat)
    requires i < |ts| && Hit(p, ts[i])
    ensures true in Hits(self, p, v, deadClip, ts)
    decreases |ts|
  {
    var init := ts[..|ts| - 1];
    assert Hits(self, p, v, deadClip, ts) == Hits(self, p, v, deadClip, init) + [Hit(After(self, p, v, deadClip, init), ts[|ts| - 1])];
    if i < |init| {
      assert init[i] == ts[i];
      OverlapHits(self, p, v, deadClip, init, i);
    } else if true !in Hits(self, p, v, deadClip, init) {
      NoHitsKeepActor(self, p, v, deadClip, init);
    }
  }

  /**
   * How many responses the loop makes, against the actor where it starts:
   * none when it overlaps no other actor, at least one when it overlaps one.
   */
  lemma HitsCount(self: Kind, p: Probe, v: Vec, deadClip: Option<Rect>, ts: seq<Target>, collisions: nat)
    requires collisions == multiset(Hits(self, p, v, deadClip, ts))[true]
    ensures (forall i :: 0 <= i < |ts| ==> !Hit(p, ts[i])) ==> collisions == 0
    ensures (exists i :: 0 <= i < |ts| && Hit(p, ts[i])) ==> collisions >= 1
  {
    NoHitsKeepsCount(Hits(self, p, v, deadClip, ts));
    if forall i :: 0 <= i < |ts| ==> !Hit(p, ts[i]) {
      NoOverlapNoHits(self, p, v, deadClip, ts);
    }
    if i :| 0 <= i < |ts| && Hit(p, ts[i]) {
      OverlapHits(self, p, v, deadClip, ts, i);
    }
  }

  /** The girl's response never moves her, so the velocity it is given does not matter. */
  lemma GirlIgnoresVelocity(p: Probe, v: Vec, w: Vec, deadClip: Option<Rect>, t: Target)
    ensures Handled(AdventureGirl, p, v, deadClip, t) == Handled(AdventureGirl, p, w, deadClip, t)
  {
  }

  /** Whether one of the responses recorded in hits was to a Zombie. */
  predicate HitZombie(hits: seq<bool>, gameObjects: seq<GameObject>)
  {
    exists i :: 0 <= i < |hits| && i < |gameObjects| && hits[i] && gameObjects[i].kind == Zombie
  }

  /** Recording one more response adds a Zombie hit iff that response was to a Zombie. */
  lemma HitZombieAppend(hits: seq<bool>, hit: bool, gameObjects: seq<GameObject>)
    requires |hits| < |gameObjects|
    ensures HitZombie(hits + [hit], gameObjects) <==>
      HitZombie(hits, gameObjects) || (hit && gameObjects[|hits|].kind == Zombie)
  {
    var longer := hits + [hit];
    if HitZombie(longer, gameObjects) {
      var i :| 0 <= i < |longer| && i < |gameObjects| && longer[i] && gameObjects[i].kind == Zombie;
      if i < |hits| {
        assert hits[i];
      }
    }
    if HitZombie(hits, gameObjects) {
      var i :| 0 <= i < |hits| && i < |gameObjects| && hits[i] && gameObjects[i].kind == Zombie;
      assert longer[i];
    }
    if hit && gameObjects[|hits|].kind == Zombie {
      assert longer[|hits|];
    }
  }

  /** update counts no collision exactly when it responded to no entry. */
  lemma NoHitsKeepsCount(hits: seq<bool>)
    ensures multiset(hits)[true] == 0 <==> true !in hits
  {
  }

  class GameObject {
    var boundingRect: RectF
    var velocity: Vec
    const animationManager: AnimationManager
    /** Whether the actor was given an event receiver (the player) or not (an enemy). */
    const hasReceiver: bool
    const kind: Kind
    var state: State
    var direction: Direction

    /** The objects this actor owns: itself, its manager and the manager's clips. */
    ghost const Repr: set<object>

    /**
     * The manager keeps its invariant, and a dead actor does not move and
     * shows its DEAD clip when it has one.
     */
    ghost predicate Valid()
      reads Repr
    {
      && this in Repr && animationManager in Repr && animationManager.animationMap.Values <= Repr
      && animationManager.Valid()
      && (state == Dead ==> velocity == Zero)
      && (state == Dead && Dead in animationManager.animationMap ==> animationManager.state == Dead)
    }

    function Controls(): Control
      reads this
    {
      Control(state, direction, velocity)
    }

    /** get_position: the centre of the bounding rectangle. */
    function Position(): (p: Vec)
      reads this
      ensures boundingRect.left + Width(boundingRect) / 2.0 == p.x
      ensures boundingRect.top + Height(boundingRect) / 2.0 == p.y
    {
      Center(boundingRect)
    }

    /**
     * get_collision_rect: the current frame's collision rectangle, placed at
     * the actor's rounded centre.
     */
    function CollisionRect(): (r: Rect)
      reads Repr
      requires Valid()
      ensures var f := animationManager.Frame();
        && r.right - r.left == f.right - f.left && r.bottom - r.top == f.bottom - f.top
        && Position().x - 0.5 < (r.left - f.left) as real <= Position().x + 0.5
        && Position().y - 0.5 < (r.top - f.top) as real <= Position().y + 0.5
    {
      RectAt(animationManager.Frame(), boundingRect)
    }

    /** has_collided: each of two actors sees a collision with the other. */
    function HasCollided(other: GameObject): (b: bool)
      reads Repr, other.Repr
      requires Valid() && other.Valid()
      ensures b <==> Collided(other.CollisionRect(), CollisionRect())
    {
      CollidedSymmetric(CollisionRect(), other.CollisionRect());
      Collided(CollisionRect(), other.CollisionRect())
    }

    /** What the collision checks read of this actor. */
    function Probed(): Probe
      reads Repr
      requires Valid()
    {
      Probe(boundingRect, animationManager.Frame(), animationManager.state)
    }

    /** The collision rectangle of the DEAD clip's first frame, when the manager has a DEAD clip with frames. */
    function DeadClip(): Option<Rect>
    {
      var clips := animationManager.animationMap;
      if Dead in clips && |clips[Dead].images| > 0 then Some(clips[Dead].images[0].collisionRect) else None
    }

    /** determine_state's decision for this actor and the keys. */
    function Decided(keys: Keys): Control
      reads Repr
      requires Valid()
    {
      Decide(Controls(), animationManager.CurrentAnimationIsFinished(), hasReceiver, keys)
    }

    /**
     * This actor as determine_state leaves it: when it consults the keyboard,
     * the manager takes the decided state if it has a clip for it, and shows
     * that clip's first frame on a switch; otherwise nothing changes.
     */
    ghost function DecidedProbe(keys: Keys): Probe
      reads Repr
      requires Valid()
    {
      var s := Decided(keys).state;
      if Steers(state, animationManager.CurrentAnimationIsFinished(), hasReceiver) then
        Probe(boundingRect, animationManager.FrameAfter(s),
              if s in animationManager.animationMap then s else animationManager.state)
      else Probed()
    }

    /** This actor as update's collision checks first see it: decided, then moved by the decided velocity. */
    ghost function MovedProbe(keys: Keys): Probe
      reads Repr
      requires Valid()
    {
      var p := DecidedProbe(keys);
      p.(bounds := Translated(p.bounds, Decided(keys).velocity))
    }

    /** What this actor's update reads of the actor o. */
    function TargetOf(o: GameObject): Target
      reads if o == this then {} else o.Repr
      requires o != this ==> o.Valid()
    {
      if o == this then Target(true, kind, Rect(0, 0, 0, 0)) else Target(false, o.kind, o.CollisionRect())
    }

    /** What this actor's update reads of each entry of gameObjects. */
    ghost function Targets(gameObjects: seq<GameObject>): (ts: seq<Target>)
      reads set o, x | o in gameObjects && o != this && x in o.Repr :: x
      requires forall o :: o in gameObjects && o != this ==> o.Valid()
      ensures |ts| == |gameObjects|
      decreases |gameObjects|
    {
      if gameObjects == [] then []
      else Targets(gameObjects[..|gameObjects| - 1]) + [TargetOf(gameObjects[|gameObjects| - 1])]
    }

    /** Entry i of Targets is what update reads of gameObjects[i]. */
    lemma {:induction false} TargetsAt(gameObjects: seq<GameObject>, i: nat)
      requires forall o :: o in gameObjects && o != this ==> o.Valid()
      requires i < |gameObjects|
      ensures Targets(gameObjects)[i] == TargetOf(gameObjects[i])
      decreases |gameObjects|
    {
      if i < |gameObjects| - 1 {
        var init := gameObjects[..|gameObjects| - 1];
        assert init[i] == gameObjects[i];
        TargetsAt(init, i);
      }
    }

    /**
     * GameObject(position, width, height, animationManager, velocity,
     * eventReceiver), also the Zombie and AdventureGirl constructors.
     */
    constructor (position: Vec, width: real, height: real, animationManager: AnimationManager,
                 velocity: Vec, hasReceiver: bool, kind: Kind)
      ensures boundingRect == CenteredRect(position, width, height)
      ensures Position() == position && Width(boundingRect) == width && Height(boundingRect) == height
      ensures this.animationManager == animationManager && this.velocity == velocity
      ensures this.hasReceiver == hasReceiver && this.kind == kind
      ensures state == Idle && direction == Right
      ensures Repr == {this, animationManager} + animationManager.animationMap.Values
      ensures animationManager.Valid() ==> Valid()
    {
      var delta := Vec(width / 2.0, height / 2.0);
      var topLeft := Vec(position.x - delta.x, position.y - delta.y);
      var bottomRight := Vec(position.x + delta.x, position.y + delta.y);
      boundingRect := RectF(topLeft.x, topLeft.y, bottomRight.x, bottomRight.y);
      this.animationManager := animationManager;
      this.velocity := velocity;
      this.hasReceiver := hasReceiver;
      this.kind := kind;
      state := Idle;
      direction := Right;
      Repr := {this, animationManager} + animationManager.animationMap.Values;
    }

    /** set_position: the rectangle moves so that its centre is p. */
    method SetPosition(p: Vec)
      modifies this
      ensures boundingRect == MovedTo(old(boundingRect), p)
      ensures Position() == p
      ensures Width(boundingRect) == old(Width(boundingRect)) && Height(boundingRect) == old(Height(boundingRect))
      ensures Controls() == old(Controls())
      ensures old(Valid()) ==> Valid()
    {
      var c := Center(boundingRect);
      var difference := Vec(p.x - c.x, p.y - c.y);
      boundingRect := Translated(boundingRect, difference);
    }

    /**
     * determine_state: decide from the keys, then tell the manager the state
     * and direction.
     */
    method DetermineState(keys: Keys, now: U32)
      requires Valid()
      modifies Repr
      ensures Valid()
      ensures Controls() == Decide(old(Controls()), old(animationManager.CurrentAnimationIsFinished()), hasReceiver, keys)
      ensures boundingRect == old(boundingRect)
      ensures !Steers(old(state), old(animationManager.CurrentAnimationIsFinished()), hasReceiver) ==>
        unchanged(animationManager) && unchanged(animationManager.animationMap.Values)
      ensures Steers(old(state), old(animationManager.CurrentAnimationIsFinished()), hasReceiver) ==>
        && animationManager.direction == direction
        && animationManager.state ==
             (if state in animationManager.animationMap then state else old(animationManager.state))
        && var switched := state in animationManager.animationMap && state != old(animationManager.state);
        // only a switch restarts a clip, and only the new state's
        && (switched ==>
              && animationManager.currentAnimation.Status() == Restarted(now)
              && forall a :: a in animationManager.animationMap.Values && a != animationManager.currentAnimation ==> unchanged(a))
        && (!switched ==>
              animationManager.currentAnimation == old(animationManager.currentAnimation)
              && unchanged(animationManager.animationMap.Values))
      ensures Probed() == old(DecidedProbe(keys))
    {
      if state == Dead {
        return;
      }
      if state == Shooting && !animationManager.CurrentAnimationIsFinished() {
        return;
      }
      if hasReceiver {
        if keys.d {
          state, direction, velocity := Running, Right, Vec(RunSpeed, 0.0);
        } else if keys.a {
          state, direction, velocity := Running, Left, Vec(-RunSpeed, 0.0);
        } else if keys.space {
          state, velocity := Shooting, Zero;
        } else {
          state, velocity := Idle, Zero;
        }
        SyncManager(now);
      }
    }

    /** The end of determine_state: the manager takes on the actor's state and direction. */
    method SyncManager(now: U32)
      requires Valid()
      modifies animationManager, animationManager.animationMap.Values
      ensures Valid()
      ensures animationManager.direction == direction
      ensures animationManager.state ==
        (if state in animationManager.animationMap then state else old(animationManager.state))
      ensures var switched := state in animationManager.animationMap && state != old(animationManager.state);
        && (switched ==>
              && animationManager.currentAnimation.Status() == Restarted(now)
              && forall a :: a in animationManager.animationMap.Values && a != animationManager.currentAnimation ==> unchanged(a))
        && (!switched ==>
              animationManager.currentAnimation == old(animationManager.currentAnimation)
              && unchanged(animationManager.animationMap.Values))
      ensures animationManager.Frame() == old(animationManager.FrameAfter(state))
    {
      animationManager.SetState(state, now);
      animationManager.SetDirection(direction);
    }

    /**
     * handle_collision, dispatched on the actor's class: GameObject's (which
     * Zombie's calls through to) undoes the move; AdventureGirl's goes DEAD
     * and stops when the other actor is a Zombie.
     */
    method HandleCollision(other: GameObject, now: U32)
      requires Valid()
      modifies Repr
      ensures Valid()
      // the girl hit by a zombie goes DEAD and stops; every other response keeps the decision
      ensures Controls() ==
        if Respond(kind, other.kind) == Die then Control(Dead, old(direction), Zero) else old(Controls())
      // only GameObject's own response moves the actor, back by its velocity
      ensures boundingRect ==
        if Respond(kind, other.kind) == Revert then TranslatedBack(old(boundingRect), velocity) else old(boundingRect)
      ensures Respond(kind, other.kind) != Die ==>
        unchanged(animationManager) && unchanged(animationManager.animationMap.Values)
      // dying is set_state(DEAD): the direction is kept and only a switch restarts the DEAD clip
      ensures Respond(kind, other.kind) == Die ==>
        && animationManager.direction == old(animationManager.direction)
        && animationManager.state == (if Dead in animationManager.animationMap then Dead else old(animationManager.state))
        && var switched := Dead in animationManager.animationMap && old(animationManager.state) != Dead;
        && (switched ==>
              && animationManager.currentAnimation.Status() == Restarted(now)
              && forall a :: a in animationManager.animationMap.Values && a != animationManager.currentAnimation ==> unchanged(a))
        && (!switched ==>
              animationManager.currentAnimation == old(animationManager.currentAnimation)
              && unchanged(animationManager.animationMap.Values))
      ensures animationManager.Frame() ==
        if Respond(kind, other.kind) == Die then old(animationManager.FrameAfter(Dead)) else old(animationManager.Frame())
      ensures animationManager.Playbacks() ==
        if Respond(kind, other.kind) == Die && Dead in animationManager.animationMap && old(animationManager.state) != Dead
        then old(animationManager.Playbacks())[animationManager.animationMap[Dead] := Restarted(now)]
        else old(animationManager.Playbacks())
    {
      if kind == AdventureGirl {
        if other.kind == Zombie {
          state := Dead;
          animationManager.SetState(state, now);
          velocity := Zero;
        }
      } else {
        boundingRect := TranslatedBack(boundingRect, velocity);
      }
    }

    /**
     * One pass of update's loop: respond to `other` when it is another actor
     * whose collision rectangle overlaps this one's.
     */
    method CollideWith(other: GameObject, now: U32) returns (hit: bool)
      requires Valid() && other.Valid()
      requires other != this ==> other.Repr !! Repr
      modifies Repr
      ensures Valid()
      ensures hit == (other != this && old(HasCollided(other)))
      ensures hit == Hit(old(Probed()), old(TargetOf(other)))
      ensures Probed() == Handled(kind, old(Probed()), old(velocity), DeadClip(), old(TargetOf(other)))
      ensures Controls() ==
        if hit && Respond(kind, other.kind) == Die then Control(Dead, old(direction), Zero) else old(Controls())
      ensures boundingRect ==
        if hit && Respond(kind, other.kind) == Revert then TranslatedBack(old(boundingRect), velocity)
        else old(boundingRect)
      // a miss changes nothing: later checks read the same frame
      ensures !hit ==> unchanged(Repr)
      ensures hit && Respond(kind, other.kind) != Die ==>
        unchanged(animationManager) && unchanged(animationManager.animationMap.Values)
      // dying is set_state(DEAD): the direction is kept and only a switch restarts the DEAD clip
      ensures hit && Respond(kind, other.kind) == Die ==>
        && animationManager.direction == old(animationManager.direction)
        && animationManager.state == (if Dead in animationManager.animationMap then Dead else old(animationManager.state))
        && var switched := Dead in animationManager.animationMap && old(animationManager.state) != Dead;
        && (switched ==>
              && animationManager.currentAnimation.Status() == Restarted(now)
              && forall a :: a in animationManager.animationMap.Values && a != animationManager.currentAnimation ==> unchanged(a))
        && (!switched ==>
              animationManager.currentAnimation == old(animationManager.currentAnimation)
              && unchanged(animationManager.animationMap.Values))
      ensures animationManager.Playbacks() ==
        if hit && Respond(kind, other.kind) == Die && Dead in animationManager.animationMap && old(animationManager.state) != Dead
        then old(animationManager.Playbacks())[animationManager.animationMap[Dead] := Restarted(now)]
        else old(animationManager.Playbacks())
    {
      hit := this != other && HasCollided(other);
      if hit {
        HandleCollision(other, now);
      }
    }

    /**
     * What update's loop has done after its first |hits| passes over the
     * entries `targets`, started with this actor at `start`, with velocity v,
     * with the DEAD clip's first frame `deadClip` and with the controls c0: the passes
     * responded to the entries hits records, `collisions` counts them, and
     * the actor is where those responses left it.
     */
    ghost predicate Swept(gameObjects: seq<GameObject>, start: Probe, v: Vec, deadClip: Option<Rect>, targets: seq<Target>,
                          c0: Control, hits: seq<bool>, collisions: nat)
      reads Repr
      requires Valid()
    {
      && |hits| <= |targets|
      && hits == Hits(kind, start, v, deadClip, targets[..|hits|])
      && Probed() == After(kind, start, v, deadClip, targets[..|hits|])
      && DeadClip() == deadClip
      && collisions == multiset(hits)[true]
      && (kind != AdventureGirl ==>
            Controls() == c0 && boundingRect == Reverted(start.bounds, velocity, collisions))
      && (kind == AdventureGirl ==>
            && boundingRect == start.bounds
            && Controls() == if HitZombie(hits, gameObjects) then Control(Dead, c0.direction, Zero) else c0)
    }

    /**
     * The girl's animation manager after the passes `hits` records, started
     * in the manager state s0 with the clips' playbacks clips0 and facing
     * dir0: the first Zombie hit switches to DEAD and restarts the DEAD clip
     * at now, when DEAD is a key and the manager is not in it already;
     * nothing else touches the manager or its clips.
     */
    ghost predicate GirlClips(gameObjects: seq<GameObject>, s0: State, dir0: Direction, clips0: map<Animation, Playback>,
                              now: U32, hits: seq<bool>)
      reads Repr
      requires Valid()
    {
      && animationManager.direction == dir0
      && var switched := Dead in animationManager.animationMap && s0 != Dead && HitZombie(hits, gameObjects);
         && animationManager.state == (if switched then Dead else s0)
         && animationManager.Playbacks() ==
              if switched then clips0[animationManager.animationMap[Dead] := Restarted(now)] else clips0
    }

    /** One pass of update's loop for the girl, on the entry after those `hits` records: her responses never move her. */
    method CollideNextGirl(gameObjects: seq<GameObject>, index: nat, now: U32, ghost start: Probe, ghost v: Vec, ghost deadClip: Option<Rect>,
                       ghost targets: seq<Target>, ghost c0: Control, ghost dir0: Direction, ghost clips0: map<Animation, Playback>,
                       ghost hits: seq<bool>, collisions: nat)
      returns (hit: bool, collisions': nat)
      requires Valid() && Swept(gameObjects, start, v, deadClip, targets, c0, hits, collisions)
      requires GirlClips(gameObjects, start.clipState, dir0, clips0, now, hits)
      requires index == |hits| < |gameObjects| == |targets|
      requires kind == AdventureGirl
      requires gameObjects[index].Valid() && (gameObjects[index] != this ==> gameObjects[index].Repr !! Repr)
      requires TargetOf(gameObjects[index]) == targets[index]
      modifies Repr
      ensures collisions' == collisions + if hit then 1 else 0
      ensures Valid() && Swept(gameObjects, start, v, deadClip, targets, c0, hits + [hit], collisions + if hit then 1 else 0)
      ensures GirlClips(gameObjects, start.clipState, dir0, clips0, now, hits + [hit])
    {
      ghost var before, w := Probed(), velocity;
      hit := CollideWith(gameObjects[index], now);
      collisions' := collisions + if hit then 1 else 0;
      ghost var hits' := hits + [hit];
      assert |hits'| == index + 1;
      assert && hits' == Hits(kind, start, v, deadClip, targets[..index + 1])
             && collisions' == multiset(hits')[true]
             && Probed() == After(kind, start, v, deadClip, targets[..index + 1]) by {
        SweepStep(kind, start, v, deadClip, targets, index, hits, collisions, w);
      }
      assert && Controls() == (if HitZombie(hits', gameObjects) then Control(Dead, c0.direction, Zero) else c0)
             && GirlClips(gameObjects, start.clipState, dir0, clips0, now, hits') by {
        HitZombieAppend(hits, hit, gameObjects);
      }
    }

    /** One pass of update's loop for every other actor, on the entry after those `hits` records: each response undoes one move. */
    method CollideNextOther(gameObjects: seq<GameObject>, index: nat, now: U32, ghost start: Probe, ghost v: Vec, ghost deadClip: Option<Rect>,
                       ghost targets: seq<Target>, ghost c0: Control, ghost hits: seq<bool>, collisions: nat)
      returns (hit: bool, collisions': nat)
      requires Valid() && Swept(gameObjects, start, v, deadClip, targets, c0, hits, collisions)
      requires index == |hits| < |gameObjects| == |targets|
      requires kind != AdventureGirl && v == velocity
      requires gameObjects[index].Valid() && (gameObjects[index] != this ==> gameObjects[index].Repr !! Repr)
      requires TargetOf(gameObjects[index]) == targets[index]
      modifies Repr
      ensures collisions' == collisions + if hit then 1 else 0
      ensures Valid() && Swept(gameObjects, start, v, deadClip, targets, c0, hits + [hit], collisions + if hit then 1 else 0)
      ensures unchanged(animationManager) && unchanged(animationManager.animationMap.Values)
    {
      ghost var before, b0 := Probed(), boundingRect;
      hit := CollideWith(gameObjects[index], now);
      collisions' := collisions + if hit then 1 else 0;
      ghost var hits' := hits + [hit];
      assert |hits'| == index + 1;
      assert && hits' == Hits(kind, start, v, deadClip, targets[..index + 1])
             && collisions' == multiset(hits')[true]
             && Probed() == After(kind, start, v, deadClip, targets[..index + 1]) by {
        SweepStep(kind, start, v, deadClip, targets, index, hits, collisions, v);
      }
      assert boundingRect == Reverted(start.bounds, v, collisions') by {
        if hit {
          assert boundingRect == TranslatedBack(b0, v);
          assert Reverted(start.bounds, v, collisions + 1) == TranslatedBack(Reverted(start.bounds, v, collisions), v);
        }
      }
    }

    /**
     * update's loop: respond to each other actor in `gameObjects` whose
     * collision rectangle overlaps this one's, in order.  `hits` records
     * which entries were responded to and `collisions` counts them.
     */
    method RespondToCollisions(gameObjects: seq<GameObject>, now: U32) returns (collisions: nat, ghost hits: seq<bool>)
      requires Valid()
      requires forall o :: o in gameObjects && o != this ==> o.Valid() && o.Repr !! Repr
      modifies Repr
      ensures Valid()
      ensures hits == Hits(kind, old(Probed()), old(velocity), DeadClip(), old(Targets(gameObjects)))
      ensures Probed() == After(kind, old(Probed()), old(velocity), DeadClip(), old(Targets(gameObjects)))
      ensures collisions == multiset(hits)[true]
      ensures |hits| == |gameObjects| && forall i :: 0 <= i < |hits| && hits[i] ==> gameObjects[i] != this
      ensures direction == old(direction)
      ensures old(state) == Dead ==> Controls() == old(Controls()) && boundingRect == old(boundingRect)
      // every response but the girl's undoes one move, and leaves the clips alone
      ensures kind != AdventureGirl ==>
        && Controls() == old(Controls()) && boundingRect == Reverted(old(boundingRect), velocity, collisions)
        && unchanged(animationManager) && unchanged(animationManager.animationMap.Values)
      // the girl stays where she is, and dies iff she hit a zombie
      ensures kind == AdventureGirl ==>
        && boundingRect == old(boundingRect)
        && Controls() ==
             if HitZombie(hits, gameObjects)
             then Control(Dead, old(direction), Zero) else old(Controls())
      // and her first Zombie hit switches her clips to DEAD, restarting that clip alone; once dead, nothing switches
      ensures kind == AdventureGirl ==>
        && GirlClips(gameObjects, old(animationManager.state), old(animationManager.direction), old(animationManager.Playbacks()), now, hits)
        && (old(state) == Dead ==>
              animationManager.state == old(animationManager.state) && animationManager.Playbacks() == old(animationManager.Playbacks()))
    {
      ghost var targets := Targets(gameObjects);
      forall i | 0 <= i < |gameObjects|
        ensures targets[i] == TargetOf(gameObjects[i])
      {
        TargetsAt(gameObjects, i);
      }
      if kind == AdventureGirl {
        collisions, hits := SweepGirl(gameObjects, now, targets);
      } else {
        collisions, hits := SweepOther(gameObjects, now, targets);
      }
      assert targets[..|hits|] == targets;
    }

    /** update's loop proper for the girl: one pass per entry of gameObjects, whose targets are `targets`. */
    method SweepGirl(gameObjects: seq<GameObject>, now: U32, ghost targets: seq<Target>) returns (collisions: nat, ghost hits: seq<bool>)
      requires Valid() && kind == AdventureGirl
      requires forall o :: o in gameObjects && o != this ==> o.Valid() && o.Repr !! Repr
      requires |targets| == |gameObjects| && forall i :: 0 <= i < |gameObjects| ==> targets[i] == TargetOf(gameObjects[i])
      modifies Repr
      ensures Valid() && |hits| == |targets|
      ensures Swept(gameObjects, old(Probed()), old(velocity), DeadClip(), targets, old(Controls()), hits, collisions)
      ensures GirlClips(gameObjects, old(animationManager.state), old(animationManager.direction), old(animationManager.Playbacks()), now, hits)
      ensures old(state) == Dead ==>
        animationManager.state == old(animationManager.state) && animationManager.Playbacks() == old(animationManager.Playbacks())
    {
      ghost var start, v, deadClip, c0 := Probed(), velocity, DeadClip(), Controls();
      ghost var dir0, clips0 := animationManager.direction, animationManager.Playbacks();
      collisions, hits := 0, [];
      var index := 0;
      while index < |gameObjects|
        invariant index == |hits| <= |gameObjects|
        invariant Valid()
        invariant forall o :: o in gameObjects && o != this ==> o.Valid() && o.Repr !! Repr
        invariant Swept(gameObjects, start, v, deadClip, targets, c0, hits, collisions)
        invariant GirlClips(gameObjects, start.clipState, dir0, clips0, now, hits)
      {
        var hit;
        hit, collisions := CollideNextGirl(gameObjects, index, now, start, v, deadClip, targets, c0, dir0, clips0, hits, collisions);
        hits := hits + [hit];
        index := index + 1;
      }
    }

    /** update's loop proper for every other actor: one pass per entry of gameObjects, whose targets are `targets`. */
    method SweepOther(gameObjects: seq<GameObject>, now: U32, ghost targets: seq<Target>) returns (collisions: nat, ghost hits: seq<bool>)
      requires Valid() && kind != AdventureGirl
      requires forall o :: o in gameObjects && o != this ==> o.Valid() && o.Repr !! Repr
      requires |targets| == |gameObjects| && forall i :: 0 <= i < |gameObjects| ==> targets[i] == TargetOf(gameObjects[i])
      modifies Repr
      ensures Valid() && |hits| == |targets|
      ensures Swept(gameObjects, old(Probed()), old(velocity), DeadClip(), targets, old(Controls()), hits, collisions)
      ensures unchanged(animationManager) && unchanged(animationManager.animationMap.Values)
      ensures old(state) == Dead ==> boundingRect == old(boundingRect)
    {
      ghost var start, v, deadClip, c0 := Probed(), velocity, DeadClip(), Controls();
      collisions, hits := 0, [];
      var index := 0;
      while index < |gameObjects|
        invariant index == |hits| <= |gameObjects|
        invariant Valid()
        invariant forall o :: o in gameObjects && o != this ==> o.Valid() && o.Repr !! Repr
        invariant velocity == v
        invariant unchanged(animationManager) && unchanged(animationManager.animationMap.Values)
        invariant Swept(gameObjects, start, v, deadClip, targets, c0, hits, collisions)
      {
        var hit;
        hit, collisions := CollideNextOther(gameObjects, index, now, start, v, deadClip, targets, c0, hits, collisions);
        hits := hits + [hit];
        index := index + 1;
      }
      if c0.state == Dead {
        RevertedStill(start.bounds, collisions);
      }
    }

    /** The first half of update: determine the state, then move by the velocity. */
    method Move(keys: Keys, now: U32, ghost gameObjects: seq<GameObject>)
      requires Valid()
      requires forall o :: o in gameObjects && o != this ==> o.Valid() && o.Repr !! Repr
      modifies Repr
      ensures Valid()
      // the other actors are left alone
      ensures Targets(gameObjects) == old(Targets(gameObjects))
      // determine_state's effect on the manager and its clips
      ensures !Steers(old(state), old(animationManager.CurrentAnimationIsFinished()), hasReceiver) ==>
        unchanged(animationManager) && unchanged(animationManager.animationMap.Values)
      ensures Steers(old(state), old(animationManager.CurrentAnimationIsFinished()), hasReceiver) ==>
        && animationManager.direction == direction
        && animationManager.state ==
             (if state in animationManager.animationMap then state else old(animationManager.state))
        && var switched := state in animationManager.animationMap && state != old(animationManager.state);
        // only a switch restarts a clip, and only the new state's
        && (switched ==>
              && animationManager.currentAnimation.Status() == Restarted(now)
              && forall a :: a in animationManager.animationMap.Values && a != animationManager.currentAnimation ==> unchanged(a))
        && (!switched ==>
              animationManager.currentAnimation == old(animationManager.currentAnimation)
              && unchanged(animationManager.animationMap.Values))
      ensures Controls() == old(Decided(keys))
      ensures Probed() == old(MovedProbe(keys))
      ensures boundingRect == Translated(old(boundingRect), velocity)
    {
      DetermineState(keys, now);
      boundingRect := Translated(boundingRect, velocity);
    }

    /**
     * update: determine the state, move by the velocity, respond to every
     * other actor whose collision rectangle overlaps this one's, then draw
     * (advance) the current clip.  `collisions` counts the responses and
     * `hits` records which entries of gameObjects they were to.
     */
    method Update(gameObjects: seq<GameObject>, keys: Keys, now: U32) returns (collisions: nat, ghost hits: seq<bool>)
      requires Valid()
      requires forall o :: o in gameObjects && o != this ==> o.Valid() && o.Repr !! Repr
      modifies Repr
      ensures Valid()
      ensures |hits| == |gameObjects| && collisions == multiset(hits)[true]
      // only other actors are responded to
      ensures forall i :: 0 <= i < |hits| && hits[i] ==> gameObjects[i] != this
      // only the position changes, never the size
      ensures Width(boundingRect) == old(Width(boundingRect)) && Height(boundingRect) == old(Height(boundingRect))
      // a dead actor stays where it is, dead and still
      ensures old(state) == Dead ==> state == Dead && velocity == old(velocity) && boundingRect == old(boundingRect)
      ensures var moved := old(Decided(keys));
        // the collision checks see this actor as determine_state left it, moved by the decided velocity
        && hits == Hits(kind, old(MovedProbe(keys)), moved.velocity, DeadClip(), old(Targets(gameObjects)))
        && direction == moved.direction
        // no other actor overlaps there: no response, and the actor ends where it moved
        && ((forall i :: 0 <= i < |gameObjects| ==> !Hit(old(MovedProbe(keys)), old(Targets(gameObjects))[i])) ==>
              collisions == 0)
        // another actor overlaps there: at least one response
        && ((exists i :: 0 <= i < |gameObjects| && Hit(old(MovedProbe(keys)), old(Targets(gameObjects))[i])) ==>
              collisions >= 1)
        && (collisions == 0 ==> Controls() == moved && boundingRect == Translated(old(boundingRect), moved.velocity))
        // each collision undoes one move: with exactly one, the actor stays put
        && (kind != AdventureGirl ==>
              Controls() == moved && boundingRect == Translated(old(boundingRect), Scaled(moved.velocity, 1 - collisions)))
        // the girl is never pushed back; she dies iff she hit a zombie
        && (kind == AdventureGirl ==>
              && boundingRect == Translated(old(boundingRect), moved.velocity)
              && Controls() ==
                   if HitZombie(hits, gameObjects)
                   then Control(Dead, moved.direction, Zero) else moved)
    {
      ghost var targets, probe, start := Targets(gameObjects), MovedProbe(keys), boundingRect;
      Move(keys, now, gameObjects);
      ghost var moved := Controls();
      collisions, hits := RespondToCollisions(gameObjects, now);
      HitsCount(kind, probe, moved.velocity, DeadClip(), targets, collisions);
      assert animationManager.currentAnimation in animationManager.animationMap.Values;
      var _ := animationManager.DrawCurrentAnimation(now);
      RevertedMove(start, moved.velocity, collisions);
    }
  }
}
