# Chaos Game — a Dafny model of the vertex/seed/generate state machine

The Chaos Game program opens a window. The player left-clicks three times to
place the corners of a triangle, then clicks a fourth time to seed the game.
From then on, every frame plots one new point. Each new point lies halfway
between the last point and a randomly chosen corner, and the points trace out
a Sierpinski triangle.

This project pulls that logic out of the program's single `main()` loop and
models it as pure transitions over a state of two lists, `vertices` and
`points`:

- `geometry.dfy` (module `Geometry`): points with exact `real` coordinates, the
  componentwise midpoint, and axis-aligned boxes.
- `chaos_game.dfy` (module `ChaosGame`): the state and its invariant, the
  left-click transition `Click`, mouse events, the per-frame update `Step`, and
  one whole `Frame` (handle the queued events, then update).
- `game_loop.dfy` (module `GameLoop`): `Run`, the state after a sequence of
  frames. It also holds the lemmas about every state reachable from the empty
  start, and `PlayFrames`, the loop written the way the program writes it.

The safety fact at the heart of the model is the bounds check on the vertex
lookup `vertices[rand() % 3]`. That lookup is in bounds only because points
exist only once all three vertices exist. `Step` demands this invariant
(`Inv`). `Click`, `HandleEvents`, `Frame` and `Run` each prove that they
preserve it. `Init` satisfies it. So the verifier discharges the index bound for
every reachable state.

The program draws from `rand()`, which is never negative. The model takes that
draw as an explicit parameter `roll: nat` for each frame and picks
`vertices[roll % 3]`. Dafny's `%` agrees with C++'s on non-negative operands.

The program always uses exactly 3 vertices and a factor of 1/2, and may pick
the same vertex twice in a row. `FirstFrameExample` works through the triangle
(0,0), (100,0), (50,100), seeded at (50,50) with (100,0) picked, and gets
(75,25).

## Model

| member | source | states |
|---|---|---|
| Geometry.Midpoint | code/ChaosGame.cpp:104-107 | the new point is equally far from the last point and from the chosen vertex on each axis, lies between them on each axis, and is half as far from the vertex as the last point was |
| ChaosGame.InitInv | code/ChaosGame.cpp:33-34 | the game starts with no vertices and no points, a state that satisfies the invariant |
| ChaosGame.Click | code/ChaosGame.cpp:63-78 | with fewer than 3 vertices, a click appends exactly its position as a vertex and leaves the points alone. With 3 vertices and no points, it makes the points exactly `[p]` and leaves the vertices alone. Once points exist, the state is unchanged. A click never takes the vertex count past 3, and it preserves the invariant |
| ChaosGame.HandleEventsAppend | code/ChaosGame.cpp:47-81 | events are handled one at a time in queue order: handling the queue `a + b` gives the same state as handling `a` and then handling `b` from where that left off |
| ChaosGame.HandleEvents | code/ChaosGame.cpp:47-81 | handling a frame's events preserves the invariant and never shrinks either list. Once the game is seeded, no event changes the state |
| ChaosGame.HandleEventsSeedsOne | code/ChaosGame.cpp:63-78 | before the game is seeded, one frame's events create at most one point: later clicks in the same queue are ignored |
| ChaosGame.Step | code/ChaosGame.cpp:93-110 | on a state that satisfies the invariant, the lookup of vertex `roll % 3` is in bounds. With no points the update is the identity. Otherwise it appends exactly one point and keeps the vertices and all earlier points. The new point is equidistant on each axis from the last point and the chosen vertex. The invariant still holds afterwards |
| ChaosGame.Frame | code/ChaosGame.cpp:39-110 | one pass of the loop preserves the invariant. Once seeded, it keeps the vertices and adds exactly one point |
| GameLoop.Run | code/ChaosGame.cpp:39-110 | every state reached by any sequence of frames satisfies the invariant, so every vertex lookup on the way is in bounds |
| GameLoop.RunAppend | code/ChaosGame.cpp:39-110 | frames run one after another: running `a + b` gives the same state as running `a` and then running `b` from where that left off |
| GameLoop.HandleEventsAgrees | code/ChaosGame.cpp:55-78 | if a state matches a sequence of left clicks, then after a frame's events it matches that sequence extended by the frame's left clicks |
| GameLoop.RunAgrees | code/ChaosGame.cpp:39-110 | from any start that matches a sequence of left clicks, any run of frames ends in a state that matches that sequence followed by every left click of the frames |
| GameLoop.RunFromInit | code/ChaosGame.cpp:63-78 | from the empty start, after any frames, the vertices are exactly the first three left clicks. Points exist if and only if there was a fourth left click, and that click is the first point, so the list is seeded exactly once |
| GameLoop.RunAfterSeed | code/ChaosGame.cpp:93-109 | once seeded, the vertices never change, each frame adds exactly one point, the old point list is a prefix of the new one, and the point added by frame `j` is the midpoint of the point before it and `vertices[roll_j % 3]` |
| GameLoop.GeneratedStep | code/ChaosGame.cpp:100-109 | one update on a seeded state extends the run of generated points by exactly the midpoint of the last point and the vertex its draw picks, and keeps every earlier generated point as it was |
| GameLoop.RunStaysInBox | code/ChaosGame.cpp:63-109 | if all vertices, points and clicks lie in a box (for example, the window), every point ever generated lies in that box |
| GameLoop.FrameAgrees | code/ChaosGame.cpp:39-110 | if a state matches a sequence of left clicks, then after one frame it matches that sequence extended by the frame's left clicks |
| GameLoop.PlayFrames | code/ChaosGame.cpp:39-110 | the frame-by-frame loop ends in exactly the state `Run` describes, from any start, seeded or not, and keeps the invariant. Started from a state that matches the clicks so far, it ends in a state that matches those clicks followed by every left click of the frames. Once seeded, the vertices stay fixed, it adds exactly one point per frame, the old point list is a prefix of the new one, and the point added by frame `j` is the midpoint of the point before it and `vertices[roll_j % 3]` |
| GameLoop.SeedingFrame | code/ChaosGame.cpp:63-109 | from the empty start, the frame that brings the fourth left click ends with the vertices equal to the first three clicks and the points exactly `[c4, midpoint(c4, vertex roll % 3)]`: the seeding frame's own update already adds a point |
| GameLoop.SeededRun | code/ChaosGame.cpp:39-110 | the whole run from the empty start, across the seeding frame `f` and any later frames `b`: the vertices are the first three clicks, the fourth click is the first point, there are two more points than frames in `b`, and each point after the first is the midpoint of the point before it and the vertex its frame's draw picks |
| GameLoop.FirstFrameExample | code/ChaosGame.cpp:63-109 | clicking (0,0), (100,0), (50,100), then (50,50) in one frame whose draw picks vertex 1 yields the points (50,50) and (75,25) |

## Left out

- Window creation, font loading and its error exit, the instruction texts, and the drawing and display calls (code/ChaosGame.cpp:14-31, 117-146): these are graphics-library calls with no effect on the two lists.
- Window close, the Escape key, and the console logging of mouse coordinates (code/ChaosGame.cpp:49-53, 59-61, 83-86): these only end the loop or print. The model folds window close and other non-click events into `OtherEvent`, which leaves the state unchanged. A run is a finite sequence of frames, so the loop ending is modelled by the sequence ending.
- `rand()`: each frame's draw is a parameter (`roll`). The model makes no claim about its distribution.
- `float` rounding in `Vector2f`: coordinates are exact `real`s, so the midpoint is exact. Integer mouse positions are converted exactly.
- Geometry.Midpoint: states exact halving over reals rather than the single-precision result, because IEEE rounding is not modelled.
