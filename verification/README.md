# Tearable cloth: a Dafny model of the simulation core

TearableCloth is a small Win32 program. It simulates a sheet of cloth as a
grid of point masses joined by sticks, which are distance constraints.
Each frame runs two phases:

- **Relaxation** (`updateSticks`): several passes over the stick buffer.
  Each pass moves the free endpoints of every intact stick back toward its
  rest length. A stick breaks when the cut button's cursor is near its
  midpoint, or when it is stretched past the tear distance.
- **Integration** (`updatePoints`): every point takes one Verlet step. A
  point's velocity is implied by its previous position. The pointer can drag
  or explode nearby points, gravity pulls down, and the canvas walls bounce
  points back with damping. Pinned points are put back on their anchors.

The mesh comes from `generateCloth`. It lays out a `w x h` grid centred on
an 800 x 600 canvas and pins the top row. Every point is linked to its left
and upper neighbours.

This model uses the following representations:

- Positions are exact reals.
- The square root the engine takes is a parameter `sqrt: real -> real`. A
  property that needs a true square root assumes `IsSqrt(sqrt)`.
- A stick's two point pointers become indices into the point sequence.
- The program's global buffers become sequences, which each operation
  returns.
- The pointer state of a frame (cursor, previous cursor, three buttons) is a
  `Pointer` value.
- The tuning globals form a `Params` value.

Modules:

| file | module | contents |
|---|---|---|
| cloth_types.dfy | `ClothTypes` | `Point`, `Stick`, `Pointer`, `Params`, the canvas and default constants, squared distance, square-root facts |
| generator.dfy | `Generator` | `generateCloth`: point layout, stick slots, index arithmetic |
| integrator.dfy | `Integrator` | `updatePoints`: pointer overrides, Verlet step, wall bounce |
| relaxer.dfy | `Relaxer` | `updateSticks`: cut, tear, position correction, passes |
| simulation.dfy | `Simulation` | the frame order of `doFrameProcess`, and runs of frames |

## Model

| member | source | states |
|---|---|---|
| Generator.GenerateCloth | Cloth.cpp:94-140 | The points form the centred grid, with the top row pinned. The stick buffer holds exactly 2wh-w-h sticks. Each slot holds the left or up link of its cell, in row-major order. Every stick is intact, links a lower index to a higher one inside the grid, and has rest length sqrt(d*d), which is d itself under an exact square root. |
| Generator.GeneratePoints | Cloth.cpp:97-114 | Cell (x, y) lands at index y*w+x, at the origin plus (x*d, y*d). It is at rest (previous position equal to its position), is pinned exactly when y == 0, and is anchored where it stands. |
| Generator.GenerateSticks | Cloth.cpp:116-139 | Cell (x, y) writes its left link at slot CellStart and its up link right after it. Every slot of the buffer is filled with a fresh stick, nothing is written beyond it, and the running stick counter ends at exactly 2wh-w-h. |
| Generator.EmitCell | Cloth.cpp:119-137 | One cell writes only the slots [count, count + links it emits). The left link goes from (x-1, y) to (x, y) and the up link from (x, y-1) to (x, y). Each rest length is the distance between its generated endpoints. |
| Generator.EmitRow | Cloth.cpp:117-138 | One row advances the slot counter from the row's first slot to the next row's first slot, and all earlier sticks stay in place. |
| Generator.CellEndWithinBuffer | Cloth.cpp:60 | The stick count global, 2wh-w-h, is large enough: every cell's last write stays inside the buffer. |
| Generator.SlotOwner | Cloth.cpp:116-139 | Every slot below 2wh-w-h is the left or up slot of exactly the cell it returns, so the generator leaves no slot unfilled. |
| Generator.GridPointsUnique | Cloth.cpp:103-114 | Regenerating the points gives the same buffer whatever the buffer held before. |
| Generator.GridSticksUnique | Cloth.cpp:116-139 | Regenerating the sticks gives the same buffer whatever the buffer held before. |
| Integrator.PointerOld | Cloth.cpp:153-165 | Drag gives a point within the mouse influence an implied velocity of half the cursor's last displacement. Explode gives a point within the explode range twice its offset from the cursor, and wins over drag. Otherwise the previous position is kept. |
| Integrator.ClampAxis | Cloth.cpp:176-191 | A coordinate ends in [0, bound]. Past a wall it is put on that wall, and the velocity it leaves with is the old one reversed and scaled by the bounce factor. Inside, it is untouched. |
| Integrator.VerletStep | Cloth.cpp:167-191 | Each axis moves by its damped implied velocity, plus gravity on y, and the pre-step position becomes the previous one. Otherwise the axis is clamped with a bounce. The point ends on the canvas, and nothing but position and previous position changes. |
| Integrator.IntegratePoint | Cloth.cpp:145-191 | A pinned point goes to its anchor and nothing else changes. A free point takes the Verlet step from the position the pointer left it in, and ends on the canvas. Pin flags and anchors never change. |
| Integrator.FreeFall | Cloth.cpp:167-174 | With no button down and no wall reached, the new position is the closed form x + (x - oldx)*drag, y + (y - oldy)*drag + gravity, and the old position becomes the previous one. |
| Integrator.FloorBounce | Cloth.cpp:184-187 | A point falling through the floor lands on it and leaves upward, with its downward velocity scaled by the bounce factor. |
| Integrator.UpdatePoints | Cloth.cpp:142-193 | The loop computes exactly `IntegrateAll`: every point is integrated once, on its own input. Pinned points sit on their anchors, free points are on the canvas, and pin flags and anchors are kept. |
| Relaxer.Correct | Cloth.cpp:219-233 | With two free ends, the midpoint is kept and the separation is rescaled by rest/current. With one pinned end, only the free end moves, by half the length error. Pinned points never move, and only positions change. |
| Relaxer.CorrectionRestoresRestLength | Cloth.cpp:219-233 | Under an exact square root, correcting a stick with two free ends makes its squared length rest*rest. |
| Relaxer.RelaxStick | Cloth.cpp:199-233 | A broken stick is skipped. An intact one becomes broken exactly when cut at its midpoint or torn past the tear distance. In the same visit it still applies its correction. A stick between two pinned points moves nothing, even at zero length. The link never changes and the flag never clears. The only undefined case is an intact stick of zero current length with a free end. |
| Relaxer.BreakCause | Cloth.cpp:201-219 | In a pass, a broken stick stays broken. An intact stick at slot j ends the pass broken exactly when, on the points `Reached` gives after the visits of slots 0 .. j-1, the cursor cut its midpoint or its length exceeded the tear distance. |
| Relaxer.PassSplits | Cloth.cpp:198-234 | A pass is its first j visits (`Reached`) followed by the rest of the pass from slot j, so the points `Reached` gives are the ones the visit of slot j works on. |
| Relaxer.RelaxPass | Cloth.cpp:198-234 | The pass is exactly `Pass`: `RelaxStick` on slot 0, 1, ... in order, each visit on the points the earlier ones left, stopping at the first intact zero-length stick with a free end. Links are kept, and broken sticks stay broken and unchanged. It never moves a pinned point, or a point whose every stick was broken when the pass began. |
| Relaxer.UpdateSticks | Cloth.cpp:195-236 | The result is exactly `Passes` with prm.iterations passes, each on what the previous one left, and none when the count is not positive. Links are kept, the broken flag is monotone, and pinned points and points cut off from the mesh stay where they are. |
| Simulation.Step | Cloth.cpp:297-298 | The frame is exactly `Frame`: the relaxation `Passes`, then `IntegratePoint` on each relaxed point, keeping the relaxed sticks. A frame that meets an intact zero-length stick with a free end stalls. After a frame, pinned points are on their anchors and free points are on the canvas. Pins, links and broken flags are kept, and the sticks still refer to existing points. |
| Simulation.Run | Cloth.cpp:482-493 | The run is exactly `Frames`: one `Frame` per pointer snapshot, each on the mesh the previous one left, stopping at the first stalled frame. Over any number of frames with no R-key reset between them, pins and links are kept and broken sticks stay broken. After at least one frame, every pinned point is on its anchor and every free point is on the canvas. |
| Integrator.InReachSquared | Cloth.cpp:156-161 | Under an exact square root, the drag and explode reach test sqrt(dx*dx + dy*dy) < range is 0 < range and dx*dx + dy*dy < range*range. |
| Relaxer.CutHitSquared | Cloth.cpp:203-212 | Under an exact square root, a stick is cut exactly when the cut button is down, the cut range is positive, and the squared midpoint-to-cursor distance is below the squared cut range. |
| Relaxer.TornSquared | Cloth.cpp:214-219 | Under an exact square root, a stick tears exactly when its squared length exceeds the squared tear distance, or the tear distance is negative. |
| Generator.DefaultCloth | Cloth.cpp:51-60 | With the default 60 x 40 grid and spacing 8, there are 2400 points and 4700 sticks, all of rest length 8 under an exact square root, and the top-left point is pinned at (160, 140). |
| Integrator.DefaultRestingFall | Cloth.cpp:51-52 | With the default tuning, a free point at rest away from the walls falls by exactly the gravity value 0.07 in one step. |
| ClothTypes.SqrtOfSquare | Cloth.cpp:86-91 | Under an exact square root, the distance between grid neighbours d apart is d. |

## Left out

- Rendering (`renderSticks`, `renderText`, `clearScreen`), Direct2D/DirectWrite setup and teardown, and the window procedure are not modelled. The pointer state they maintain becomes the `Pointer` parameter of a frame.
- Frame timing, `Sleep` and the FPS counter of `doFrameProcess` are not modelled; they do not affect the mesh.
- `malloc`/`free` of the buffers are not modelled. The buffers are sequences whose sizes are preconditions of `GenerateCloth`: w*h points and 2wh-w-h sticks.
- `round2Int` is not modelled: it is defined but never called.
- Single-precision floating point is not modelled. Positions are exact reals, and `sqrtf` is the parameter `sqrt`, so rounding and NaN propagation are out of scope.
- Relaxer.UpdateSticks: the engine divides by the stick's current length without a guard. At zero length with a free end, that end receives a non-numeric offset (NaN or infinity), and the rest of the simulation is not defined in exact reals. The model stops the pass and reports `ZeroLength(pass, index)` there, and `Simulation.Run` reports the frame as `Stalled`. A zero-length stick between two pinned points is not a stall: the offset is never applied, and the model visits it normally.
- Simulation.Run: the program loops until the quit message, dispatching window messages between frames. The model runs a finite sequence of pointer snapshots, one frame each. The pointer and button messages become the snapshots. Two keys are not modelled: the R key calls `generateCloth` between two frames, which lays the points out again and clears every broken flag; Esc quits. `Run` covers the frames between two such resets, and its promise that broken sticks stay broken holds only there.
- Relaxer.RelaxStick: the engine does not skip the rest of a visit after the cut sets the broken flag. The model follows it: the visit that breaks a stick still corrects it.
- The canvas size is the constant 800 x 600, as in the source. `is_pinned` is an `int` there, used only as a flag, and is a `bool` here. Pointer coordinates stay integers, as in the source.
