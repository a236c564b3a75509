/** The game loop as a whole: the state after a sequence of frames, and what
    holds of every state the game can reach from its empty start. */
module GameLoop {
  import opened Geometry
  import opened ChaosGame

  /** The state after running `frames` in order from `s`. Every state it
      produces satisfies the invariant, so the vertex lookup in each frame's
      update is in bounds. */
  function Run(s: State, frames: seq<FrameInput>): (r: State)
    requires Inv(s)
    ensures Inv(r)
  {
    if frames == [] then s
    else Frame(Run(s, frames[..|frames| - 1]), frames[|frames| - 1])
  }

  /** Frames run one after another: running `a + b` is running `a` and then,
      from where that leaves the game, `b`. */
  lemma {:induction false} RunAppend(s: State, a: seq<FrameInput>, b: seq<FrameInput>)
    requires Inv(s)
    ensures Run(s, a + b) == Run(Run(s, a), b)
    decreases |b|
  {
    if b == [] {
      assert a + b == a;
    } else {
      var b' := b[..|b| - 1];
      assert (a + b)[..|a + b| - 1] == a + b';
      assert (a + b)[|a + b| - 1] == b[|b| - 1];
      RunAppend(s, a, b');
    }
  }

  /** The left-click positions of all frames, in order. */
  function AllClicks(frames: seq<FrameInput>): seq<Point> {
    if frames == [] then []
    else AllClicks(frames[..|frames| - 1]) + LeftClicks(frames[|frames| - 1].events)
  }

  /** The vertices placed by the clicks `cs`: the first three of them. */
  function Placed(cs: seq<Point>): seq<Point> {
    if |cs| <= VertexCount then cs else cs[..VertexCount]
  }

  /** `s` is the state that the left clicks `cs` should have produced: its
      vertices are the first three clicks, and points exist exactly when
      there was a fourth click, which is the first point. */
  predicate Agrees(s: State, cs: seq<Point>) {
    && s.vertices == Placed(cs)
    && (|s.points| > 0 <==> |cs| > VertexCount)
    && (|cs| > VertexCount ==> |s.points| > 0 && s.points[0] == cs[VertexCount])
  }

  lemma ClickAgrees(s: State, cs: seq<Point>, p: Point)
    requires Agrees(s, cs)
    ensures Agrees(Click(s, p), cs + [p])
  {
  }

  lemma {:induction false} HandleEventsAgrees(s: State, cs: seq<Point>, evs: seq<Event>)
    requires Agrees(s, cs)
    ensures Agrees(HandleEvents(s, evs), cs + LeftClicks(evs))
  {
    if evs != [] {
      var init, e := evs[..|evs| - 1], evs[|evs| - 1];
      HandleEventsAgrees(s, cs, init);
      var mid := HandleEvents(s, init);
      assert cs + LeftClicks(evs) == (cs + LeftClicks(init)) + ClickOf(e);
      match e
      case MouseButtonPressed(Left, x, y) =>
        ClickAgrees(mid, cs + LeftClicks(init), FromPixel(x, y));
      case _ =>
        assert cs + LeftClicks(evs) == cs + LeftClicks(init);
    }
  }

  lemma StepAgrees(s: State, cs: seq<Point>, roll: nat)
    requires Agrees(s, cs)
    ensures Agrees(Step(s, roll), cs)
  {
  }

  /** The whole play from the empty start is determined by the sequence of
      left clicks alone: the vertices are the first three clicks, the point
      list is non-empty exactly when a fourth click happened, and that fourth
      click is its first point. So the list is seeded once and only once. */
  lemma RunFromInit(frames: seq<FrameInput>)
    ensures Agrees(Run(Init, frames), AllClicks(frames))
  {
    InitInv();
    RunAgrees(Init, [], frames);
    assert [] + AllClicks(frames) == AllClicks(frames);
  }

  /** The points `ps[n]`, ..., `ps[n + |frames| - 1]` were generated by
      `frames` over the triangle `vs`: each is the midpoint of the point before
      it and the vertex its frame's draw picks. */
  ghost predicate Generated(ps: seq<Point>, n: nat, vs: seq<Point>, frames: seq<FrameInput>) {
    && |vs| == VertexCount
    && 0 < n
    && n + |frames| <= |ps|
    && forall j | 0 <= j < |frames| ::
         ps[n + j] == Midpoint(ps[n + j - 1], vs[frames[j].roll % VertexCount])
  }

  /** One more update keeps every earlier point and extends the generated run
      by the point for `frames[i]`. */
  lemma GeneratedStep(prev: State, n: nat, frames: seq<FrameInput>, i: nat)
    requires Inv(prev) && i < |frames| && |prev.points| == n + i
    requires Generated(prev.points, n, prev.vertices, frames[..i])
    ensures Step(prev, frames[i].roll).points[..|prev.points|] == prev.points
    ensures Generated(Step(prev, frames[i].roll).points, n, prev.vertices, frames[..i + 1])
  {
  }

  /** Once the point list is seeded, the vertices never change, every frame
      appends exactly one point, the earlier points stay as they were, and
      each new point is the midpoint of the one before it and the vertex its
      frame's draw picks. */
  lemma {:induction false} RunAfterSeed(s: State, frames: seq<FrameInput>)
    requires Inv(s) && |s.points| > 0
    ensures Run(s, frames).vertices == s.vertices
    ensures |Run(s, frames).points| == |s.points| + |frames|
    ensures Run(s, frames).points[..|s.points|] == s.points
    ensures Generated(Run(s, frames).points, |s.points|, s.vertices, frames)
  {
    if frames != [] {
      var init, f := frames[..|frames| - 1], frames[|frames| - 1];
      RunAfterSeed(s, init);
      var mid := Run(s, init);
      assert HandleEvents(mid, f.events) == mid;
      var r := Step(mid, f.roll);
      assert r.points[..|s.points|] == r.points[..|mid.points|][..|s.points|];
      assert frames[..|frames| - 1] == init;
      GeneratedStep(mid, |s.points|, frames, |frames| - 1);
      assert frames[..|frames|] == frames;
    }
  }

  /** If every vertex, every point and every click lies in a box (the game
      window, say), then so does every point the game ever generates. */
  lemma {:induction false} RunStaysInBox(s: State, frames: seq<FrameInput>, lo: Point, hi: Point)
    requires Inv(s)
    requires AllInBox(s.vertices, lo, hi) && AllInBox(s.points, lo, hi)
    requires AllInBox(AllClicks(frames), lo, hi)
    ensures AllInBox(Run(s, frames).vertices, lo, hi)
    ensures AllInBox(Run(s, frames).points, lo, hi)
  {
    if frames != [] {
      var init, f := frames[..|frames| - 1], frames[|frames| - 1];
      assert AllClicks(frames) == AllClicks(init) + LeftClicks(f.events);
      assert AllInBox(AllClicks(init), lo, hi) by {
        forall i | 0 <= i < |AllClicks(init)| ensures InBox(AllClicks(init)[i], lo, hi) {
          assert AllClicks(init)[i] == AllClicks(frames)[i];
        }
      }
      assert AllInBox(LeftClicks(f.events), lo, hi) by {
        forall i | 0 <= i < |LeftClicks(f.events)| ensures InBox(LeftClicks(f.events)[i], lo, hi) {
          assert LeftClicks(f.events)[i] == AllClicks(frames)[|AllClicks(init)| + i];
        }
      }
      RunStaysInBox(s, init, lo, hi);
      var mid := Run(s, init);
      HandleEventsInBox(mid, f.events, lo, hi);
      StepInBox(HandleEvents(mid, f.events), f.roll, lo, hi);
    }
  }

  lemma ClickInBox(s: State, p: Point, lo: Point, hi: Point)
    requires AllInBox(s.vertices, lo, hi) && AllInBox(s.points, lo, hi) && InBox(p, lo, hi)
    ensures AllInBox(Click(s, p).vertices, lo, hi) && AllInBox(Click(s, p).points, lo, hi)
  {
  }

  lemma {:induction false} HandleEventsInBox(s: State, evs: seq<Event>, lo: Point, hi: Point)
    requires AllInBox(s.vertices, lo, hi) && AllInBox(s.points, lo, hi)
    requires AllInBox(LeftClicks(evs), lo, hi)
    ensures AllInBox(HandleEvents(s, evs).vertices, lo, hi)
    ensures AllInBox(HandleEvents(s, evs).points, lo, hi)
  {
    if evs != [] {
      var init, e := evs[..|evs| - 1], evs[|evs| - 1];
      assert AllInBox(LeftClicks(init), lo, hi) by {
        forall i | 0 <= i < |LeftClicks(init)| ensures InBox(LeftClicks(init)[i], lo, hi) {
          assert LeftClicks(init)[i] == LeftClicks(evs)[i];
        }
      }
      HandleEventsInBox(s, init, lo, hi);
      match e
      case MouseButtonPressed(Left, x, y) =>
        assert LeftClicks(evs)[|LeftClicks(init)|] == FromPixel(x, y);
        ClickInBox(HandleEvents(s, init), FromPixel(x, y), lo, hi);
      case _ =>
    }
  }

  lemma StepInBox(s: State, roll: nat, lo: Point, hi: Point)
    requires Inv(s)
    requires AllInBox(s.vertices, lo, hi) && AllInBox(s.points, lo, hi)
    ensures AllInBox(Step(s, roll).points, lo, hi)
  {
  }

  lemma FrameAgrees(s: State, cs: seq<Point>, f: FrameInput)
    requires Inv(s)
    ensures Agrees(s, cs) ==> Agrees(Frame(s, f), cs + LeftClicks(f.events))
  {
    if Agrees(s, cs) {
      HandleEventsAgrees(s, cs, f.events);
      StepAgrees(HandleEvents(s, f.events), cs + LeftClicks(f.events), f.roll);
    }
  }

  /** From any start that matches the clicks `cs`, running `frames` ends in a
      state that matches `cs` followed by every left click of `frames`. */
  lemma {:induction false} RunAgrees(s: State, cs: seq<Point>, frames: seq<FrameInput>)
    requires Inv(s) && Agrees(s, cs)
    ensures Agrees(Run(s, frames), cs + AllClicks(frames))
  {
    if frames != [] {
      var init, f := frames[..|frames| - 1], frames[|frames| - 1];
      RunAgrees(s, cs, init);
      var before := cs + AllClicks(init);
      assert AllClicks(frames) == AllClicks(init) + LeftClicks(f.events);
      assert cs + AllClicks(frames) == before + LeftClicks(f.events);
      FrameAgrees(Run(s, init), before, f);
      assert Run(s, frames) == Frame(Run(s, init), f);
    }
  }

  /** The game loop written as the program writes it, one frame per iteration.
      If the starting state matches the clicks `cs` made so far, the final state
      matches those clicks followed by every left click of `frames`. Once
      seeded, the vertices stay fixed, each frame adds exactly one point, the
      earlier points are kept, and each new point is the midpoint of the one
      before it and the vertex its frame's draw picks. In every case it ends
      in the state `Run` describes, so `SeededRun` gives its result from the
      empty start. */
  method PlayFrames(s: State, ghost cs: seq<Point>, frames: seq<FrameInput>) returns (r: State)
    requires Inv(s)
    ensures Inv(r)
    ensures Agrees(s, cs) ==> Agrees(r, cs + AllClicks(frames))
    ensures |s.points| > 0 ==> r.vertices == s.vertices && |r.points| == |s.points| + |frames|
    ensures |s.points| > 0 ==> r.points[..|s.points|] == s.points
    ensures |s.points| > 0 ==> Generated(r.points, |s.points|, s.vertices, frames)
    ensures r == Run(s, frames)
  {
    r := s;
    var i := 0;
    while i < |frames|
      invariant 0 <= i <= |frames|
      invariant r == Run(s, frames[..i])
    {
      assert frames[..i + 1][..i] == frames[..i];
      r := Frame(r, frames[i]);
      i := i + 1;
    }
    assert frames[..i] == frames;
    if Agrees(s, cs) {
      RunAgrees(s, cs, frames);
    }
    if |s.points| > 0 {
      RunAfterSeed(s, frames);
    }
  }

  /** The frame `f` that brings the fourth left click seeds the list and, in
      its own update, already adds the midpoint of the seed and the vertex its
      draw picks: the points are then exactly those two. */
  lemma SeedingFrame(a: seq<FrameInput>, f: FrameInput)
    requires |AllClicks(a)| <= VertexCount < |AllClicks(a + [f])|
    ensures
      var cs := AllClicks(a + [f]);
      Run(Init, a + [f]).vertices == cs[..VertexCount]
      && Run(Init, a + [f]).points == [cs[VertexCount], Midpoint(cs[VertexCount], cs[f.roll % VertexCount])]
  {
    var cs := AllClicks(a + [f]);
    assert (a + [f])[..|a + [f]| - 1] == a;
    RunFromInit(a);
    var mid := Run(Init, a);
    assert mid.points == [];
    HandleEventsAgrees(mid, AllClicks(a), f.events);
    HandleEventsSeedsOne(mid, f.events);
    var h := HandleEvents(mid, f.events);
    assert h.points == [cs[VertexCount]];
    assert Run(Init, a + [f]) == Step(h, f.roll);
  }

  /** The whole run from the empty start, across the frame that seeds it. If
      frame `f` brings the fourth left click, then after `a + [f] + b` the
      vertices are the first three clicks, the fourth click is the first
      point, and every later point (one for `f` and one for each frame of
      `b`) is the midpoint of the point before it and the vertex its frame's
      draw picks. */
  lemma SeededRun(a: seq<FrameInput>, f: FrameInput, b: seq<FrameInput>)
    requires |AllClicks(a)| <= VertexCount < |AllClicks(a + [f])|
    ensures
      var cs, r := AllClicks(a + [f]), Run(Init, a + [f] + b);
      && r.vertices == cs[..VertexCount]
      && |r.points| == 2 + |b|
      && r.points[0] == cs[VertexCount]
      && Generated(r.points, 1, cs[..VertexCount], [f] + b)
  {
    var cs := AllClicks(a + [f]);
    var vs := cs[..VertexCount];
    SeedingFrame(a, f);
    var m := Run(Init, a + [f]);
    RunAppend(Init, a + [f], b);
    RunAfterSeed(m, b);
    var r := Run(Init, a + [f] + b);
    assert r.points[..2] == m.points;
    assert r.points[0] == m.points[0] && r.points[1] == m.points[1];
    assert vs[f.roll % VertexCount] == cs[f.roll % VertexCount];
    var fb := [f] + b;
    forall j | 0 <= j < |fb|
      ensures r.points[1 + j] == Midpoint(r.points[1 + j - 1], vs[fb[j].roll % VertexCount])
    {
      if j > 0 {
        assert fb[j] == b[j - 1];
      }
    }
  }

  /** The triangle (0,0), (100,0), (50,100) seeded at (50,50) in one frame:
      the update of that same frame picks the vertex (100,0) and appends (75,25). */
  lemma FirstFrameExample()
    ensures
      var evs := [MouseButtonPressed(Left, 0, 0), MouseButtonPressed(Left, 100, 0),
                  MouseButtonPressed(Left, 50, 100), MouseButtonPressed(Left, 50, 50)];
      Run(Init, [FrameInput(evs, 1)]).points == [Point(50.0, 50.0), Point(75.0, 25.0)]
  {
    var evs := [MouseButtonPressed(Left, 0, 0), MouseButtonPressed(Left, 100, 0),
                MouseButtonPressed(Left, 50, 100), MouseButtonPressed(Left, 50, 50)];
    var a, b, c := Point(0.0, 0.0), Point(100.0, 0.0), Point(50.0, 100.0);
    assert evs[..0] == [] && evs[..1][..0] == [];
    assert evs[..2][..1] == evs[..1] && evs[..3][..2] == evs[..2] && evs[..4][..3] == evs[..3];
    assert HandleEvents(Init, evs[..1]) == State([a], []);
    assert HandleEvents(Init, evs[..2]) == State([a, b], []);
    assert HandleEvents(Init, evs[..3]) == State([a, b, c], []);
    assert evs[..4] == evs;
    assert HandleEvents(Init, evs) == State([a, b, c], [Point(50.0, 50.0)]);
    var frames := [FrameInput(evs, 1)];
    assert frames[..0] == [];
    assert Run(Init, frames) == Step(HandleEvents(Init, evs), 1);
    assert Midpoint(Point(50.0, 50.0), b) == Point(75.0, 25.0);
  }
}
