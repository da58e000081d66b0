# ZombieTower game logic in Dafny

ZombieTower is a small 2D side-scroller built on the Irrlicht engine. The
player, the "adventure girl", runs and shoots, and a zombie walks towards her.
Both are drawn from sprite-sheet animations and collide through
per-frame collision rectangles. This project models the game logic in
`main.cpp` and proves properties of it:

- **SmartImage** (`sprites.dfy`). `calculate_collision_rect` scans a frame's
  alpha channel and keeps the smallest and largest column and row of the
  pixels that are not fully transparent. The image is an `array2` of alpha
  values, and the scan keeps its nested loops.
- **Animation** (`animations.dfy`). A clip of frames with an update interval,
  played looping or one-shot. The class `Animation` keeps the fields
  `imageIndex`, `previousTime` and `finished` and updates them in place.
  `draw_next`, `reset` and `is_finished` are methods and functions on it.
  The pure function `Next` specifies one `draw_next`, `Run` specifies a
  sequence of them, and the lemmas are about these two. The device timer is a
  `now` parameter of type `U32`, and the elapsed-time test is u32 subtraction
  modulo 2^32.
- **AnimationManager** (`managers.dfy`). It maps each `State` to its clip and
  holds the current state, clip and direction. The class keeps the
  invariant that the state is a key and the current clip is the one mapped
  to it. The constructor starts in the smallest key, which is what
  `std::map::begin()` gives.
- **GameObject, Zombie and AdventureGirl** (`game_objects.dfy`). One class
  has a `Kind` tag that stands for the dynamic type. `determine_state` is
  specified by the pure function `Decide`, and the three `handle_collision`
  overrides by `Respond`. `update` is a method that determines the state,
  moves the bounding rectangle by the velocity, responds to each colliding
  actor, and advances the current clip.
- **update's collision loop**. The loop is specified on values. A `Target` is
  what the loop reads of one entry of the actor list: whether it is the
  updating actor, its class and its collision rectangle. A `Probe` is what the
  tests read of the updating actor: its bounding rectangle, its current
  frame's collision rectangle and its manager's state. `Hits` says which
  entries the loop responds to, each tested against the actor as the earlier
  responses left it, and `After` says where those responses leave the actor.
  The methods are proved against these functions, and the lemmas about them
  give the overlap facts: no other actor overlapping means no response, and
  one overlapping means at least one. `Swept` is the loop's invariant: after
  the first k passes, the recorded responses are `Hits` of the first k
  entries and the actor is as `After` them says. The loop is proved once per
  kind of actor (`SweepGirl`, `SweepOther`). For the girl, `GirlClips` adds
  what happens to her animation manager: her first Zombie hit switches it to
  DEAD and restarts the DEAD clip, and nothing else touches it.
- **Geometry** (`geometry.dfy`) and **Enums** (`enums.dfy`). These hold the
  rectangles and vectors the game uses, `round`, and Irrlicht's rectangle
  collision test.

The f32 positions, sizes and velocities are exact reals in this model.
Every value the game puts in them is a whole number (velocities of 5, -5, 1
and 0, sprites of 128 by 128, start positions such as (256, 320)).

Two behaviours of the code are stated as proved facts, not hidden:

- **Reading past the end of short clips.** The playback invariant `InBounds`
  says the index names a frame and that `finished` holds exactly on the last
  frame. Every `draw_next` keeps `InBounds`, whatever the clip's length
  (`NextInBounds`). `reset` establishes it only when the clip has at least
  two frames (`RestartedInBounds`). In a one-frame clip, the first
  `draw_next` after the interval moves the index to 1, so `draw_current`
  reads `images[1]` (`SingleFrameOverrun`). In an empty clip, index 0 is
  already out of range. `AnimationManager`'s invariant therefore requires
  every clip to have at least two frames.
- **Transparent sprites still collide.** A fully transparent frame gets the
  rectangle (Width, Height, 0, 0). That rectangle is inverted whenever the
  image is not 0 by 0. Irrlicht's collision test does not check rectangles
  for validity, so an inverted rectangle still collides with every rectangle
  that reaches past it on all four sides (`InvertedRectCanCollide`).

Two more behaviours of the code worth stating:

- The manager's initial state is the smallest `State` key, because a
  `std::map` is ordered by key and `begin()` yields its smallest key
  (`FirstKey`). For both factories this is `IDLE` (`GirlFactoryFirstKey`,
  `ZombieFactoryFirstKey`). The girl's factory then asks for `IDLE` again,
  which changes nothing; the zombie's asks for `WALKING`, which switches the
  clip and resets it.
- A looping clip that reaches its last frame keeps `finished` set until its
  next `draw_next`. That call restarts it on frame 0 and does not advance
  it on the same call, because the elapsed time is then 0.

## Model

| member | source | states |
|---|---|---|
| `Sprites.CalculateCollisionRect` | main.cpp:49-89 | every opaque pixel lies within [minX, maxX] x [minY, maxY]; with an opaque pixel, 0 <= minX <= maxX < Width and 0 <= minY <= maxY < Height, and each of the four edges passes through an opaque pixel; with none, the result is exactly (Width, Height, 0, 0) |
| `Animations.Elapsed` | main.cpp:142-143 | `time - previousTime` in u32 arithmetic: the plain difference when the timer has not wrapped, the difference plus 2^32 when it has |
| `Animations.Next` | main.cpp:125-156 | one draw_next: a finished one-shot clip is frozen; a finished looping clip restarts at frame 0 with the timer at now; an unfinished clip advances by exactly one frame and records now iff more than the interval has elapsed, and otherwise keeps index and timestamp; afterwards (unless frozen) finished iff imageIndex + 1 >= number of frames; only the looping restart clears finished |
| `Animations.NextInBounds` | main.cpp:125-156 | draw_next preserves the playback invariant (index names a frame, finished iff it is the last) for clips of any length |
| `Animations.RestartedInBounds` | main.cpp:192-197 | the state reset() leaves satisfies the playback invariant iff the clip has at least two frames |
| `Animations.RunInBounds` | main.cpp:125-156 | any sequence of draw_next calls preserves the playback invariant |
| `Animations.RunFromResetInBounds` | main.cpp:125-159 | after reset() of a clip of two or more frames, the index that draw_current reads stays in range over any sequence of draw_next calls |
| `Animations.FinishedOneShotFrozen` | main.cpp:128-139 | once a one-shot clip is finished, no sequence of draw_next calls changes its index, timestamp or flag |
| `Animations.AdvanceOneShot` | main.cpp:142-155 | an unfinished frame whose interval has passed moves on by one, records now, and is finished iff the new frame is the last |
| `Animations.PreviousTimeOfSchedule` | main.cpp:142-147 | with ticks more than an interval apart, a one-shot clip is on frame k after k ticks, stamped with the k-th tick, until it reaches its last frame |
| `Animations.OneShotSchedule` | main.cpp:142-155 | a one-shot clip of n >= 2 frames driven by ticks more than an interval apart shows frame min(k, n - 1) after k ticks and reports finished exactly from tick n - 1 on: the last frame is reached and never passed |
| `Animations.SingleFrameOverrun` | main.cpp:143-159 | in a one-frame clip, the first draw_next more than an interval after reset() moves the index to 1, past the only frame, which draw_current then reads |
| `Animations.Animation.constructor` | main.cpp:118-124 | stores frames, loop flag and interval, then resets; the result is valid iff the clip has at least two frames |
| `Animations.Animation.Reset` | main.cpp:192-197 | index 0, timestamp now, not finished; valid iff the clip has at least two frames |
| `Animations.Animation.DrawNext` | main.cpp:125-156 | the fields change exactly as `Next` says; the index handed to draw_current is the new imageIndex, and it is in range whenever the clip was valid before |
| `Animations.Animation.IsFinished` | main.cpp:188-191 | for a valid clip, finished iff the current frame is the last |
| `Managers.FirstKey` | main.cpp:221-222 | the key `begin()` yields is in the map and is no greater, in enumerator order, than any other key |
| `Managers.GirlFactoryFirstKey` | main.cpp:528-535 | the girl's map {IDLE, RUNNING, SHOOTING, DEAD} starts in IDLE before her factory's own set_state |
| `Managers.ZombieFactoryFirstKey` | main.cpp:584-589 | the zombie's map {IDLE, WALKING} starts in IDLE before its factory's set_state(WALKING) |
| `Managers.AnimationManager.constructor` | main.cpp:218-225 | the initial state is the map's smallest key, facing right, and the current clip is the one mapped to it; valid when every clip is |
| `Managers.AnimationManager.Frame` | main.cpp:251-254 | get_collision_rect forwards to the current clip, which reads its current frame's rectangle (main.cpp:179): the result is the collision rectangle of the frame the current state's clip is on, and that frame's index is in range |
| `Managers.AnimationManager.SetState` | main.cpp:230-242 | the current state or an absent key changes nothing; any other key becomes the state, its clip becomes current and is reset at now, and no other clip changes (`Playbacks`); the direction never changes; the invariant (state is a key, current clip is map[state]) is preserved |
| `Managers.AnimationManager.SetDirection` | main.cpp:247-250 | stores the direction and leaves state and clip alone |
| `Managers.AnimationManager.DrawCurrentAnimation` | main.cpp:255-258 | the current clip advances as `Next` says; the frame drawn is in range |
| `Managers.AnimationManager.CurrentAnimationIsFinished` | main.cpp:259-262 | for a valid manager, true iff the clip of the current state is on its last frame |
| `Managers.AnimationManager.ResetCurrentAnimation` | main.cpp:263-266 | the current clip is back at frame 0 with the timer at now, and the invariant is preserved |
| `Geometry.Round` | main.cpp:274-277 | floor(x + 0.5) is the integer within half a unit of x, with halves rounded up |
| `Geometry.RoundWhole` | main.cpp:335-340 | rounding a whole-number coordinate gives it back |
| `Geometry.Translated` | main.cpp:362 | `rect += v` keeps width and height and moves the centre by v |
| `Geometry.TranslatedBack` | main.cpp:413-417 | `rect -= v` keeps width and height and is undone by `rect += v` |
| `Geometry.TranslateRoundTrip` | main.cpp:358-417 | undoing a move by v restores the rectangle |
| `Geometry.Reverted` | main.cpp:364-372 | any number of undo moves keeps width and height |
| `Geometry.RevertedStill` | main.cpp:413-417 | any number of undo moves of a still actor leave it where it is |
| `Geometry.RevertedMove` | main.cpp:358-372 | a move by v followed by k undo moves is a move by (1 - k) v: one collision cancels the move, each further one pushes the actor back past its start |
| `Geometry.CenteredRect` | main.cpp:318-322 | the constructor's rectangle is centred on the position with the given width and height |
| `Geometry.MovedTo` | main.cpp:330-346 | after set_position(p), get_position() returns p, and width and height are unchanged |
| `Geometry.CollidedSymmetric` | main.cpp:404-411 | the collision test is symmetric |
| `Geometry.InvertedRectCanCollide` | main.cpp:404-411 | the inverted rectangle (w, h, 0, 0) of a fully transparent w x h frame collides with a rectangle iff that rectangle reaches past it on all four sides |
| `GameObjects.Decide` | main.cpp:421-458 | DEAD, an unfinished SHOOTING clip or no event receiver: nothing changes; otherwise the velocity agrees with the state (running at +5/-5 by direction, else 0), RUNNING iff D or A, SHOOTING iff only SPACE, IDLE iff none, D wins over A, and the direction is kept unless D or A is held; no input enters or leaves DEAD |
| `GameObjects.DecideIdempotent` | main.cpp:421-458 | deciding again on the same keys, clip status and receiver changes nothing more |
| `GameObjects.Respond` | main.cpp:413-506 | GameObject's and Zombie's handle_collision undo the move; AdventureGirl's dies iff the other is a Zombie and otherwise ignores it |
| `GameObjects.Hits` | main.cpp:364-371 | one result per entry of the list, and never a response to the actor itself |
| `GameObjects.SweepStep` | main.cpp:364-371 | one more pass records whether that entry overlaps the actor as the earlier passes left it, counts it, and leaves the actor as `After` the longer prefix says; the girl's response does not depend on her velocity |
| `GameObjects.NoHitsKeepActor` | main.cpp:364-371 | while the loop has responded to no entry, the actor is as it started |
| `GameObjects.NoOverlapNoHits` | main.cpp:364-371 | when no other actor overlaps the actor where it starts, the loop responds to no entry |
| `GameObjects.OverlapHits` | main.cpp:364-371 | when another actor overlaps the actor where it starts, the loop responds to at least one entry (that one, or an earlier one) |
| `GameObjects.HitsCount` | main.cpp:364-371 | the number of responses is 0 when no other actor overlaps the starting actor and at least 1 when one does |
| `GameObjects.GirlIgnoresVelocity` | main.cpp:497-506 | AdventureGirl's handle_collision never moves her, so its effect does not depend on her velocity |
| `GameObjects.HitZombieAppend` | main.cpp:497-506 | one more recorded response adds a hit on a Zombie iff that response was to a Zombie |
| `GameObjects.GameObject.constructor` | main.cpp:312-328 | the bounding rectangle is centred on the position with the given size; IDLE, facing right |
| `GameObjects.GameObject.Position` | main.cpp:330-333 | get_position is the centre of the bounding rectangle: left + width / 2, top + height / 2 |
| `GameObjects.GameObject.CollisionRect` | main.cpp:388-392 | the current frame's collision rectangle, same width and height, shifted by the rounded position, so that its offset is within half a unit of the centre |
| `GameObjects.GameObject.HasCollided` | main.cpp:404-411 | true iff this actor's and the other's collision rectangles overlap, in either order |
| `GameObjects.GameObject.Targets` | main.cpp:364-367 | one target per entry of the actor list |
| `GameObjects.GameObject.TargetsAt` | main.cpp:364-367 | target i is what the loop reads of gameObjects[i]: the actor itself, or another actor's class and collision rectangle |
| `GameObjects.GameObject.SetPosition` | main.cpp:342-346 | get_position() afterwards returns the new position; size, state, direction and velocity unchanged |
| `GameObjects.GameObject.DetermineState` | main.cpp:421-458 | state, direction and velocity become `Decide` of the old ones; the rectangle is untouched; when the keyboard is consulted the manager takes the new direction and, if it has a clip for it, the new state; a change of state restarts that state's clip and leaves every other clip unchanged, and no change leaves the current clip and all clips unchanged; when the keyboard is not consulted the manager and clips are unchanged; the actor the collision checks then see is `DecidedProbe` (the new clip's first frame on a switch, else the current frame) |
| `GameObjects.GameObject.SyncManager` | main.cpp:455-456 | the manager takes the actor's direction and, when it has a clip for it, its state; a change of state restarts only that state's clip, and no change leaves the current clip and all clips unchanged; the frame then shown is `FrameAfter(state)` |
| `GameObjects.GameObject.HandleCollision` | main.cpp:413-506 | as `Respond` says: GameObject and Zombie undo the move by the velocity and leave manager and clips unchanged; the girl hit by a Zombie goes DEAD with zero velocity in place, and her manager keeps its direction and switches to DEAD when it has that clip; the clips' playbacks are the old ones with the DEAD clip restarted at now when the manager was not in DEAD already, and the old ones otherwise; otherwise nothing changes |
| `GameObjects.GameObject.CollideWith` | main.cpp:366-371 | responds iff the other actor is not this one and their collision rectangles overlap (`Hit` on what each reads); the actor ends as `Handled` says; a miss changes nothing at all; a revert leaves manager and clips unchanged; the girl's death keeps the manager's direction, switches it to DEAD when DEAD is a key, restarts the DEAD clip at now on a switch with every other clip unchanged, and with no switch leaves the current clip and all clips unchanged |
| `GameObjects.GameObject.CollideNextGirl` | main.cpp:364-372 | one pass for the girl keeps `Swept`: the recorded responses are `Hits` of the entries passed, she is as `After` says, the count is the number of responses, she never moves, and she becomes DEAD, still and facing the same way when a recorded response was to a Zombie, and otherwise keeps her controls (a girl already DEAD stays DEAD); `GirlClips` is kept too: her manager keeps its direction, is in DEAD with the DEAD clip restarted at now iff DEAD is a key, she was not in DEAD at the start and a recorded response was to a Zombie, and otherwise keeps its starting state and clip playbacks |
| `GameObjects.GameObject.CollideNextOther` | main.cpp:364-372 | one pass for any other actor keeps `Swept`: the recorded responses are `Hits` of the entries passed, the actor is as `After` says, the count is the number of responses, the actor is moved back once per response with its controls kept, and manager and clips are unchanged |
| `GameObjects.GameObject.SweepGirl` | main.cpp:364-372 | the loop for the girl: after it every entry has been passed, `Swept` holds of the whole list and `GirlClips` of the manager at the start; a girl dead at the start keeps her manager's state and clip playbacks |
| `GameObjects.GameObject.SweepOther` | main.cpp:364-372 | the loop for any other actor: after it every entry has been passed, `Swept` holds of the whole list, the manager and clips are unchanged, and a dead actor, whose velocity is zero, ends where it started |
| `GameObjects.GameObject.RespondToCollisions` | main.cpp:364-372 | the responses are exactly `Hits` of the actor against the entries in order, and the actor ends as `After` says; `collisions` counts them; never a response to itself; a non-girl actor is moved back once per response with its controls, manager and clips unchanged; the girl never moves, becomes DEAD, still and facing the same way when she hit a Zombie, and otherwise keeps her controls (a girl already DEAD stays DEAD); her manager keeps its direction, and its state and clip playbacks are the old ones, except that DEAD becomes the state and its clip restarts at now when DEAD is a key, she was not in DEAD and she hit a Zombie (`GirlClips`); a dead actor keeps its controls and rectangle, and a dead girl also keeps her manager's state and clip playbacks |
| `GameObjects.GameObject.Move` | main.cpp:359-362 | determine_state then `boundingRect += velocity`: the controls are `Decided`, the actor the collision checks see is `MovedProbe` (decided, then moved by the decided velocity), and the other actors' targets are unchanged; the manager and clips change exactly as in `DetermineState`: untouched when the keyboard is not consulted, else the new direction, the new state when it is a key, and on a switch that state's clip restarted at now with every other clip unchanged |
| `GameObjects.GameObject.Update` | main.cpp:358-386 | the responses are `Hits` of the decided, moved actor against the other actors' collision rectangles as they were; with no other actor overlapping it there, no collision, and the actor ends as decided at its moved position; with one overlapping, at least one collision; a non-girl actor ends at old + (1 - collisions) velocity, so exactly one collision leaves it in place; the girl keeps her move, becomes DEAD, still and facing the decided direction when she hit a Zombie, and otherwise ends as decided (a girl already DEAD stays DEAD); width and height never change; a dead actor keeps state, velocity and position |

## Left out

- Rendering is not modelled: `draw_current` and its mirrored source rectangle, `draw2DImage`, the rounded rectangle `update` draws with, textures, `beginScene`/`endScene`, and `main` with its driver prompt and frame loop. The Irrlicht device and driver are not part of this model.
- `load_sprites`, the path-taking `Animation` constructor and `SmartImage`'s constructor are not modelled. They probe and read files through Irrlicht. A frame is its collision rectangle, and `CalculateCollisionRect` takes the alpha grid as input.
- `EventReceiver` is not modelled. It is written from Irrlicht's event callback. `determine_state` reads a `Keys` snapshot of D, A and SPACE, and `hasReceiver` says whether an event receiver was given.
- The device timer is not modelled. Each call takes a `now` parameter, and the `reset()` inside `draw_next` uses the same `now` as the elapsed test (Irrlicht's timer advances once per frame).
- Managers.AnimationManager.Frame: returns the frame's rectangle unscaled. `Animation::get_collision_rect` scales it by `determine_scale_factor` (bounding size over image size, f32 work on the texture size), which is left out as for `CollisionRect` below.
- GameObjects.GameObject.CollisionRect: does not scale the frame's rectangle by bounding size over image size (`determine_scale_factor`, `Animation::get_collision_rect`). That is f32 work on the texture size; the frame's own rectangle, placed at the rounded centre, is used.
- Float rounding error is not modelled: f32 values are exact reals, which matches the whole-number values the game uses.
- `isRectCollided` is Irrlicht's, and Irrlicht's rect.h is not part of this model. `Collided` takes its strict-overlap definition.
- The factories are not modelled beyond their maps' first keys. This includes their static sprite caches and the zombie's `new Animation(images, 100)`, which passes 100 as a true `loop`.
- `get_state`, `get_direction`, `get_velocity` and `set_velocity` are plain field accesses, and the model reads the fields directly. `print_rect` and all `std::cout` output are not modelled.
- Raw-pointer ownership and leaks are not modelled. `update` requires the other actors to own objects disjoint from this actor's (`Repr`), which the factories guarantee by building a fresh manager and fresh clips for each actor.
- Managers.AnimationManager.constructor: is proved valid only when every clip has at least two frames; with shorter clips the code reads past the end (see `SingleFrameOverrun`), so no invariant holds for them.
- GameObjects.GameObject.Update: does not restate the manager's and the clips' new state. `Move`, `RespondToCollisions` and `DrawCurrentAnimation` state them, step by step.
- Default arguments are explicit parameters: `Animation`'s `loop = true` and `updateInterval = 100` (main.cpp:118), and the actor constructors' `velocity = (0, 0)` and `eventReceiver = 0` (main.cpp:312-315), which the model's `hasReceiver` flag stands for.
- `imageIndex` is a C++ `int`, and its overflow is not modelled. The index never leaves the clip's range under the invariant.
