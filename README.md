# LeapMotionDrawTest core, modelled in Dafny

The demo reads a hand-tracking sensor once per frame, follows one fingertip as
"the pointer", casts a ray from it onto a virtual painting plane and paints the
pixel it hits red in an in-memory texture. This project models the three pieces
of sequential logic in `main.cpp` and proves their properties:

- **Pointer tracker** (`handle_leap`): a state machine over `pointer_id`,
  `pointer_pos`, `pointer_dir`, `last_frame` and the function-static
  `last_connected`, written as the class `Tracker.PointerTracker`. Its method
  `HandleLeap` is proved against the function `Tracker.Track`. It keeps a bound
  finger while the frame still has it. Otherwise, in the same call, it binds
  the index finger of the last hand that has a valid one. It refreshes position
  and direction from the bound finger's distal bone. It does nothing to the
  pointer while the sensor is disconnected. The loop over hands is the method
  `Tracker.SelectIndexFinger`, proved against `Tracker.LastIndexFinger`, whose
  "last hand wins" meaning is proved in `LastIndexFingerIsLast`.
- **Paint buffer** (`texture_data`, `clear_texture`): a flat `array` of
  640 x 360 colours addressed as `y * TextureW + x`. The nested clear loops set
  every cell to the background colour.
- **Projector** (`update`): the guard structure around the single write (a
  pointer, `t > 0`, truncated coordinates in bounds) and the ray-plane
  arithmetic over `real`.

A sensor frame is abstract (module `Leap`): its hands in the SDK's iteration
order, each with the id of its index finger when that finger is valid, and a
lookup from finger id to distal bone. `Frame.Valid()` states the SDK's own
consistency: a hand's valid index finger is also found by the lookup.
`HandleLeap` requires it for connected calls, because `main.cpp:108` reads the
bone of the chosen finger through that lookup. The connection flag and the
frame are parameters of `HandleLeap` rather than calls into the controller.

C++ `(int)` truncates toward zero; `Projector.Trunc` models exactly that, not
floor. As a consequence a hit point less than one cell left of, or below, the
plane is painted in column 0 or row 0 (`TruncationPaintsLeftOfPlane`). That is
the code's behaviour and the model keeps it.

## Model

| member | source | states |
|---|---|---|
| Texture.Index | main.cpp:118-121 | the address `y*TextureW+x` of an in-bounds cell lies in `[0, TextureW*TextureH)`, and `%`/`/` by the width give back x and y |
| Texture.IndexCovers | main.cpp:118-121 | every array index is the address of the in-bounds cell `(i % W, i / W)`, so the two loops reach every cell |
| Texture.IndexInjective | main.cpp:121 | two in-bounds cells share an address exactly when they are the same cell |
| Texture.Cleared | main.cpp:116-123 | after a clear the buffer has its old length and every cell holds the background colour `vec3(.1)` |
| Texture.ClearIdempotent | main.cpp:116-123 | clearing twice gives the same buffer as clearing once |
| Texture.PaintedChangesOneCell | main.cpp:156-158 | a guarded write sets an in-bounds cell to the colour, changes no other cell, and leaves the buffer unchanged when out of bounds |
| Texture.Painted | main.cpp:156-158 | the buffer after the guarded write: cell `y*TextureW+x` set to the colour when `(x, y)` is in bounds, otherwise the same buffer |
| Texture.ClearTexture | main.cpp:116-123 | the nested row/column loops leave the array equal to the cleared buffer |
| Tracker.LastIndexFingerIsLast | main.cpp:95-105 | reselection finds an id exactly when some hand has a valid index finger, and the id is that of the last such hand in iteration order |
| Tracker.LastIndexFingerIsValid | main.cpp:100-108 | in a frame satisfying `Frame.Valid()`, the reselected id belongs to a finger the frame's lookup finds |
| Tracker.LastIndexFinger | main.cpp:97-104 | the id the hands loop leaves behind when entered unbound: the index finger of the last hand whose index finger is valid, or none |
| Leap.Frame.Finger | main.cpp:92-93 | `frame.finger(id)`: the distal bone of the frame's valid finger with that id, present exactly when the frame has that finger |
| Tracker.Kept | main.cpp:90-94 | a bound id survives the check exactly when the frame still has that finger, and then unchanged |
| Tracker.Selected | main.cpp:90-105 | the id after the liveness check and the reselection: the kept id if its finger is still there, otherwise the reselected one |
| Tracker.Track | main.cpp:71-114 | the pointer state after one call of `handle_leap`: unchanged when disconnected; otherwise the selected id, with position and direction from its distal bone when bound |
| Tracker.DisconnectedKeepsPointer | main.cpp:74-85 | a disconnected call leaves id, position and direction unchanged |
| Tracker.KeepsLiveFinger | main.cpp:90-94 | a bound id whose finger is still in the frame is kept |
| Tracker.ReselectsWhenLost | main.cpp:90-105 | with the id lost or unbound, the tracker ends unbound exactly when no hand has a valid index finger; otherwise it binds the last such hand's index finger |
| Tracker.IdChangesOnlyWhenLost | main.cpp:90-105 | the id changes only in a connected call whose frame lacks the old id's finger |
| Tracker.RefreshedFromDistalBone | main.cpp:106-111 | when bound after a connected call, the finger is in the frame, position is its distal `prevJoint / 100` and direction its negated distal direction; when unbound, both are stale |
| Tracker.TwoHandsLastWins | main.cpp:97-104 | with two hands whose index fingers 7 and 9 are valid, the later hand (9) wins |
| Tracker.LostAndReacquiredInOneCall | main.cpp:90-105 | a lost finger 5 is replaced by the visible finger 7 in the same call |
| Tracker.DisconnectedRunKeepsPointer | main.cpp:85 | any run of disconnected calls leaves the pointer state as it was |
| Tracker.TrackAll | main.cpp:252-261 | the pointer state after a run of frame-loop iterations, each one call of `handle_leap` |
| Tracker.StaysBoundWhileValid | main.cpp:90-94 | over any run in which every connected frame still has the bound finger, the id never changes |
| Tracker.SelectIndexFinger | main.cpp:97-104 | the loop over hands, entered unbound, returns the last hand's valid index finger |
| Tracker.PointerTracker.constructor | main.cpp:8-14 | the tracker starts unbound, with zero vectors, an empty frame and `last_connected` false (the static initialiser at main.cpp:74) |
| Tracker.PointerTracker.HandleLeap | main.cpp:71-114 | the new pointer state is `Track` of the old; `last_connected` becomes the flag; `last_frame` becomes the frame exactly when connected |
| Projector.RayParam | main.cpp:150 | `t` exists exactly when `dir.z != 0`, and then `pos + dir*t` lies on the plane `z = -10` |
| Projector.TexCoordMapsPlaneOntoBuffer | main.cpp:154 | a hit point lies in the plane rectangle `[-8, 8) x [0, 9)` exactly when its buffer coordinates lie in `[0, 640) x [0, 360)` |
| Projector.TexCoord | main.cpp:154 | a hit point's fractional buffer coordinates: shifted by half the plane width in x and scaled by 640/16 and 360/9 |
| Projector.Trunc | main.cpp:155 | `(int)r` truncates toward zero: non-negative for r >= 0, non-positive for r < 0, and less than 1 from r toward 0 |
| Projector.NoPointerNoWrite | main.cpp:148 | with no pointer the buffer is unchanged |
| Projector.BehindNoWrite | main.cpp:150-151 | when `t <= 0` the buffer is unchanged |
| Projector.UpdateWritesOnlyAimedCell | main.cpp:148-159 | any cell that changes required a pointer, `t > 0`, in-bounds truncated coordinates; it is exactly their cell, now red; all other cells are unchanged; an aimed in-bounds cell is painted red |
| Projector.Aim | main.cpp:148-155 | the truncated cell `update` aims at: none without a pointer, without a finite `t` or with `t <= 0` |
| Projector.Updated | main.cpp:146-162 | the buffer after `update`: the aimed cell painted red when it is in bounds, otherwise the same buffer |
| Projector.HitOnPlanePaints | main.cpp:150-158 | a ray hitting the plane rectangle ahead of the pointer yields an in-bounds cell |
| Projector.TruncationPaintsLeftOfPlane | main.cpp:154-156 | a hit 0.01 units left of the plane's left edge still lands in column 0, because of truncation toward zero |
| Projector.AimStraightAhead | main.cpp:150-155 | pointer at the origin looking down -z aims at cell (320, 0) |
| Projector.Update | main.cpp:146-162 | the array after `update` equals `Updated` of the old buffer and the tracker's pointer state |

## Left out

- Event polling and key dispatch (`handle_events`), window resize (`reshape`) and the main loop: input and event plumbing. The key that calls `clear_texture` is modelled only as `ClearTexture` itself.
- The startup `clear_texture()` in `init` is the same operation as `ClearTexture`; the rest of `init` is left out with the other OpenGL calls.
- All OpenGL calls (`init`'s texture upload, `draw`, `glTexSubImage2D`): rendering through a foreign library, read-only on the buffer.
- Leap SDK internals (`frame.finger`, `hand.fingers()`, `isValid`, bone queries): a frame is the abstract `Leap.Frame`; `Frame.Valid()` is an assumption about the SDK, not something the code checks.
- The connect/disconnect `printf` logging: a side effect with no effect on state.
- IEEE float behaviour: vectors are real-valued, `.1f` is taken as 0.1, and rounding is not modelled.
- Projector.RayParam: with `dir.z == 0` the float division yields an infinity or NaN. With +inf, `t > 0` holds and `(int)` of a non-finite value is undefined behaviour in C++. The model gives no `t` then, so `Update` writes nothing. This is a modelling choice for undefined behaviour, not a property of the code.
- Projector.Trunc: a C++ `(int)` cast of a value outside the `int` range is undefined behaviour; the model's result is the unbounded truncation.
- The sentinel `POINTER_ID_INVALID == INT32_MAX`: the pointer id is an `Option`, so a finger whose id is `INT32_MAX` is not mistaken for "no pointer" as it would be in the code.
