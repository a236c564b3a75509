/** The vertex/seed/generate state machine of the chaos game.

    The game keeps two growing lists: the triangle `vertices` the player
    places with the first three left clicks, and the generated `points`,
    seeded by the fourth left click. Every frame first handles the pending
    input events and then, once the point list is non-empty, appends the
    midpoint of the last point and a randomly chosen vertex.
 */
module ChaosGame {
  import opened Geometry

  /** The number of triangle vertices placed before the game starts. */
  const VertexCount: nat := 3

  datatype State = State(vertices: seq<Point>, points: seq<Point>)

  /** Both lists start empty. */
  const Init: State := State([], [])

  /** The invariant of every reachable state: at most three vertices, and
      points only once all three are placed. It is what keeps the vertex
      lookup of `Step` in bounds. */
  predicate Inv(s: State) {
    && |s.vertices| <= VertexCount
    && (|s.points| > 0 ==> |s.vertices| == VertexCount)
  }

  lemma InitInv()
    ensures Inv(Init) && |Init.vertices| == 0 && |Init.points| == 0
  {
  }

  /** A left click at position `p`: one of the first three places a vertex,
      the next one seeds the point list, and any later one is ignored. */
  function Click(s: State, p: Point): (r: State)
    ensures |s.vertices| < VertexCount ==> r.vertices == s.vertices + [p] && r.points == s.points
    ensures |s.vertices| >= VertexCount ==> r.vertices == s.vertices
    ensures |s.vertices| >= VertexCount && |s.points| == 0 ==> r.points == [p]
    ensures |s.vertices| >= VertexCount && |s.points| > 0 ==> r == s
    ensures |s.vertices| <= VertexCount ==> |r.vertices| <= VertexCount
    ensures Inv(s) ==> Inv(r)
  {
    if |s.vertices| < VertexCount then
      s.(vertices := s.vertices + [p])
    else if |s.points| == 0 then
      s.(points := s.points + [p])
    else
      s
  }

  /** SFML's mouse buttons. */
  datatype Button = Left | Right | Middle | XButton1 | XButton2

  /** An input event as the game sees it: a mouse button press at integer
      window coordinates, or anything else (window close, key presses, mouse
      moves), none of which touches the two lists. */
  datatype Event =
    | MouseButtonPressed(button: Button, x: int, y: int)
    | OtherEvent

  /** The click position an event contributes: one for a left press, none otherwise. */
  function ClickOf(e: Event): seq<Point> {
    match e
    case MouseButtonPressed(Left, x, y) => [FromPixel(x, y)]
    case _ => []
  }

  /** Dispatch of one event (code/ChaosGame.cpp:55-57): a left-button press is
      a `Click` at its position; every other event leaves the state alone. */
  function HandleEvent(s: State, e: Event): State {
    match e
    case MouseButtonPressed(Left, x, y) => Click(s, FromPixel(x, y))
    case _ => s
  }

  /** The left-click positions of `evs`, in order. */
  function LeftClicks(evs: seq<Event>): seq<Point> {
    if evs == [] then []
    else LeftClicks(evs[..|evs| - 1]) + ClickOf(evs[|evs| - 1])
  }

  /** Handles one frame's queued events in order. */
  function HandleEvents(s: State, evs: seq<Event>): (r: State)
    ensures Inv(s) ==> Inv(r)
    ensures Inv(s) && |s.points| > 0 ==> r == s
    ensures |r.vertices| >= |s.vertices| && |r.points| >= |s.points|
  {
    if evs == [] then s
    else HandleEvent(HandleEvents(s, evs[..|evs| - 1]), evs[|evs| - 1])
  }

  /** Events are handled one at a time, in queue order: handling the queue
      `a + b` is handling `a` and then, from where that leaves the state, `b`. */
  lemma {:induction false} HandleEventsAppend(s: State, a: seq<Event>, b: seq<Event>)
    ensures HandleEvents(s, a + b) == HandleEvents(HandleEvents(s, a), b)
    decreases |b|
  {
    if b == [] {
      assert a + b == a;
    } else {
      var b' := b[..|b| - 1];
      assert (a + b)[..|a + b| - 1] == a + b';
      assert (a + b)[|a + b| - 1] == b[|b| - 1];
      HandleEventsAppend(s, a, b');
    }
  }

  /** Before the game is seeded, one frame's events create at most one point:
      the first click after the third vertex seeds the list and later clicks
      in the same queue are ignored. */
  lemma {:induction false} HandleEventsSeedsOne(s: State, evs: seq<Event>)
    requires Inv(s) && |s.points| == 0
    ensures |HandleEvents(s, evs).points| <= 1
  {
    if evs != [] {
      HandleEventsSeedsOne(s, evs[..|evs| - 1]);
    }
  }

  /** The per-frame update. `roll` is the value drawn from `rand()`, which is
      never negative; the chosen vertex is `vertices[roll % 3]`. Once points
      exist, exactly one new point is appended: the one halfway between the
      last point and the chosen vertex on each axis. Before that, nothing
      changes. */
  function Step(s: State, roll: nat): (r: State)
    requires Inv(s)
    ensures |s.points| == 0 ==> r == s
    ensures r.vertices == s.vertices
    ensures |s.points| > 0 ==>
      && |r.points| == |s.points| + 1
      && r.points[..|s.points|] == s.points
      && var last, v, q := s.points[|s.points| - 1], s.vertices[roll % VertexCount], r.points[|s.points|];
         && q.x - last.x == v.x - q.x
         && q.y - last.y == v.y - q.y
    ensures Inv(r)
  {
    if |s.points| > 0 then
      var last := s.points[|s.points| - 1];
      var v := s.vertices[roll % VertexCount];
      s.(points := s.points + [Midpoint(last, v)])
    else
      s
  }

  /** What one frame consumes: its queued events and its `rand()` draw. */
  datatype FrameInput = FrameInput(events: seq<Event>, roll: nat)

  /** One pass of the game loop: handle the events, then update. */
  function Frame(s: State, f: FrameInput): (r: State)
    requires Inv(s)
    ensures Inv(r)
    ensures |s.points| > 0 ==> r.vertices == s.vertices && |r.points| == |s.points| + 1
  {
    Step(HandleEvents(s, f.events), f.roll)
  }
}
