/** The stubbywm main loop: events record the regions they change, a frame redraws and copies
    those regions only, and the screen still shows what a repaint of everything would. */
module Compositor {
  import opened Common
  import opened Scenes
  import opened WindowLists

  const MAX_UPDATES := 128

  function FullUpdate(width: nat, height: nat): Update {
    Update(Point(0, 0), Point(width, height))
  }

  // The update list after one more; a list about to fill up becomes one update of the whole screen.
  ghost function Added(us: seq<Update>, u: Update, width: nat, height: nat): seq<Update> {
    if |us| + 1 < MAX_UPDATES then us + [u] else [FullUpdate(width, height)]
  }

  predicate Bounded(u: Update, width: nat, height: nat) {
    Placed(width, height, u.lower) && Placed(width, height, u.upper)
  }

  lemma AddedCovers(us: seq<Update>, u: Update, width: nat, height: nat)
    ensures forall x, y | 0 <= x < width && 0 <= y < height ::
              Damaged(us, x, y) || Covers(u, x, y) ==> Damaged(Added(us, u, width, height), x, y)
  {
    var r := Added(us, u, width, height);
    forall x, y | 0 <= x < width && 0 <= y < height && (Damaged(us, x, y) || Covers(u, x, y))
      ensures Damaged(r, x, y)
    {
      if |us| + 1 < MAX_UPDATES {
        if Damaged(us, x, y) {
          var k :| 0 <= k < |us| && Covers(us[k], x, y);
          assert r[k] == us[k];
        } else {
          assert r[|us|] == u;
        }
      } else {
        assert Covers(r[0], x, y);
      }
    }
  }

  lemma IndexInRange(width: nat, height: nat, dx: nat, dy: nat)
    requires dx < width && dy < height
    ensures 0 <= dy * width + dx < width * height
  {
    assert (dy + 1) * width <= height * width;
  }

  // Which points of a rectangle a row by row sweep has passed when it is at column x of row y.
  predicate Swept(r: Rect, x: nat, y: nat, i: int, j: int) {
    Inside(r, i, j) && (j - r.coord.y < y || (j - r.coord.y == y && i - r.coord.x < x))
  }

  // What a screen held at some moment.
  type Picture = imap<Point, Pixel>

  ghost function At(base: Picture, x: int, y: int): Pixel {
    if Point(x, y) in base then base[Point(x, y)] else 0
  }

  lemma PaintedNext(v: Pixel, done: seq<Layer>, l: Layer, n: nat, x: int, y: int)
    ensures Painted(v, done + [l], n, x, y) == Paint(Painted(v, done, n, x, y), l, n, x, y)
  {
    assert (done + [l])[..|done|] == done;
  }

  ghost function Over(v: Pixel, l: Layer, x: int, y: int): Pixel {
    match LayerPixel(l, x, y) case Some(c) => Draw(v, c) case None => v
  }

  lemma PaintOnce(v: Pixel, l: Layer, n: nat, x: int, y: int)
    requires l.Content? ==> n == 1
    ensures Paint(v, l, n, x, y) == Over(v, l, x, y)
  {
    hide Draw, LayerPixel;
    match LayerPixel(l, x, y)
    case Some(c) => assert DrawTimes(v, c, 1) == Draw(DrawTimes(v, c, 0), c);
    case None =>
  }

  lemma PaintMore(v: Pixel, l: Layer, n: nat, x: int, y: int)
    requires l.Content?
    ensures Paint(v, l, 0, x, y) == v
    ensures Paint(v, l, n + 1, x, y) == Over(Paint(v, l, n, x, y), l, x, y)
  {
    hide Draw, LayerPixel;
  }

  ghost predicate AllBounded(us: seq<Update>, width: nat, height: nat) {
    forall k | 0 <= k < |us| :: Bounded(us[k], width, height)
  }

  // One more update: the list stays within the screen and everything damaged stays damaged.
  lemma UpdateAdded(us: seq<Update>, a: Point, b: Point, width: nat, height: nat)
    requires AllBounded(us, width, height)
    ensures AllBounded(Added(us, Region(width, height, a, b), width, height), width, height)
    ensures Spreads(us, Added(us, Region(width, height, a, b), width, height), width, height)
    ensures CoversAll(Region(width, height, a, b), Added(us, Region(width, height, a, b), width, height), width, height)
  {
    AddedCovers(us, Region(width, height, a, b), width, height);
  }

  ghost predicate Spreads(us: seq<Update>, vs: seq<Update>, width: nat, height: nat) {
    forall x, y | 0 <= x < width && 0 <= y < height :: Damaged(us, x, y) ==> Damaged(vs, x, y)
  }

  ghost predicate CoversAll(u: Update, vs: seq<Update>, width: nat, height: nat) {
    forall x, y | 0 <= x < width && 0 <= y < height :: Covers(u, x, y) ==> Damaged(vs, x, y)
  }

  // ----- What the events do to the scene -----

  datatype Event =
    | Mouse(left: bool, right: bool, dx: int, dy: int)
    | Keyboard
    | ClientUpdate(id: Pixel, contents: nat -> Pixel)
    | NewWindow(width: nat, height: nat, id: Pixel, contents: nat -> Pixel)

  function Pixels(n: nat, contents: nat -> Pixel): (ps: seq<Pixel>)
    ensures |ps| == n && forall i | 0 <= i < n :: ps[i] == contents(i)
  {
    seq(n, i requires 0 <= i < n => contents(i))
  }

  predicate Hit(width: nat, height: nat, w: Window, p: Point) {
    var a, b := w.rect.coord, MaxCoord(width, height, w.rect);
    a.x <= p.x < b.x && a.y <= p.y < b.y
  }

  // The topmost of the first k windows that is under the point, if any.
  ghost function Topmost(s: Scene, k: nat): Option<nat>
    requires k <= |s.windows|
  {
    if k == 0 then None
    else if Hit(s.width, s.height, s.windows[k - 1], s.mouse) then Some(k - 1)
    else Topmost(s, k - 1)
  }

  // The first window with the id, at or after k.
  ghost function Client(ws: seq<Window>, id: Pixel, k: nat): Option<nat>
    requires k <= |ws|
    decreases |ws| - k
  {
    if k == |ws| then None else if ws[k].color == id then Some(k) else Client(ws, id, k + 1)
  }

  function Dragged(width: nat, height: nat, w: Window, dx: int, dy: int): Window {
    var p := Normalized(width, height, Point(w.rect.coord.x + dx, w.rect.coord.y - dy));
    w.(rect := w.rect.(coord := p))
  }

  ghost function AfterBatches(s: Scene, batches: seq<seq<Event>>): Scene {
    if batches == [] then s else AfterAll(AfterBatches(s, batches[..|batches| - 1]), batches[|batches| - 1])
  }

  // Left raises the window under the cursor, otherwise right drags it along.
  ghost function AfterButtons(s: Scene, left: bool, right: bool, dx: int, dy: int): seq<Window> {
    var ws, top := s.windows, Topmost(s, |s.windows|);
    if top.None? || top.value >= |ws| then ws
    else if left then Removed(ws, top.value) + [ws[top.value]]
    else if right then ws[top.value := Dragged(s.width, s.height, ws[top.value], dx, dy)]
    else ws
  }

  function Created(width: nat, height: nat, id: Pixel, contents: nat -> Pixel): Window {
    Window(Rect(Point(0, 0), height, width), Pixels(width * height, contents), id, true)
  }

  ghost function After(s: Scene, e: Event): Scene {
    match e
    case Mouse(left, right, dx, dy) =>
      s.(windows := AfterButtons(s, left, right, dx, dy),
      mouse := Normalized(s.width, s.height, Point(s.mouse.x + dx, s.mouse.y - dy)))
    case Keyboard => s
    case ClientUpdate(id, contents) =>
      var k := Client(s.windows, id, 0);
      if k.Some? && k.value < |s.windows| then
        var w := s.windows[k.value];
        s.(windows := s.windows[k.value := w.(pixels := Pixels(w.rect.width * w.rect.height, contents))])
      else s
    case NewWindow(width, height, id, contents) =>
      s.(windows := s.windows + [Created(width, height, id, contents)])
  }

  ghost function AfterAll(s: Scene, es: seq<Event>): Scene {
    if es == [] then s else After(AfterAll(s, es[..|es| - 1]), es[|es| - 1])
  }

  // What the window manager keeps of its scene.
  ghost predicate Sensible(s: Scene) {
    && CursorWellFormed(s.cursor) && Placed(s.width, s.height, s.mouse)
    && forall i | 0 <= i < |s.windows| :: WellFormed(s.windows[i]) && Placed(s.width, s.height, s.windows[i].rect.coord)
  }

  // Outside what is damaged now, nothing was damaged before and the windows look the same.
  ghost predicate Unseen(was: seq<Update>, ws: seq<Window>, now: seq<Update>, vs: seq<Window>, width: nat, height: nat) {
    forall x: nat, y: nat | x < width && y < height && !Damaged(now, x, y) ::
      !Damaged(was, x, y) && WindowsShown(vs, Backdrop(x, y), x, y) == WindowsShown(ws, Backdrop(x, y), x, y)
  }

  lemma NothingUnseen(d: seq<Update>, s: Scene)
    ensures Unseen(d, s.windows, d, s.windows, s.width, s.height)
  {
  }

  lemma {:induction false} RaiseDamages(d0: seq<Update>, d1: seq<Update>, d2: seq<Update>, s: Scene, i: nat)
    requires i < |s.windows| && Sensible(s)
    requires Spreads(d0, d1, s.width, s.height) && Spreads(d1, d2, s.width, s.height)
    requires CoversAll(WindowRegion(s.width, s.height, s.windows[i]), d2, s.width, s.height)
    ensures Unseen(d0, s.windows, d2, Removed(s.windows, i) + [s.windows[i]], s.width, s.height)
  {
    hide WindowsShown, Backdrop, WindowRegion, Damaged;
    forall x: nat, y: nat | x < s.width && y < s.height && !Damaged(d2, x, y)
      ensures !Damaged(d0, x, y)
      ensures WindowsShown(Removed(s.windows, i) + [s.windows[i]], Backdrop(x, y), x, y) == WindowsShown(s.windows, Backdrop(x, y), x, y)
    {
      WindowInRegion(s.width, s.height, s.windows[i], x, y);
      RaiseUnseen(s.windows, i, Backdrop(x, y), x, y);
    }
  }

  lemma {:induction false} ChangeDamages(d0: seq<Update>, d1: seq<Update>, d2: seq<Update>, s: Scene, i: nat, w: Window)
    requires i < |s.windows| && Sensible(s) && Placed(s.width, s.height, w.rect.coord)
    requires Spreads(d0, d1, s.width, s.height) && Spreads(d1, d2, s.width, s.height)
    requires CoversAll(WindowRegion(s.width, s.height, s.windows[i]), d1, s.width, s.height)
    requires CoversAll(WindowRegion(s.width, s.height, w), d2, s.width, s.height)
    ensures Unseen(d0, s.windows, d2, s.windows[i := w], s.width, s.height)
  {
    hide WindowsShown, Backdrop, WindowRegion, Damaged;
    forall x: nat, y: nat | x < s.width && y < s.height && !Damaged(d2, x, y)
      ensures !Damaged(d0, x, y)
      ensures WindowsShown(s.windows[i := w], Backdrop(x, y), x, y) == WindowsShown(s.windows, Backdrop(x, y), x, y)
    {
      WindowInRegion(s.width, s.height, s.windows[i], x, y);
      WindowInRegion(s.width, s.height, w, x, y);
      ChangeUnseen(s.windows, i, w, Backdrop(x, y), x, y);
    }
  }

  // Outside what is damaged now, nothing was damaged before and the picture is the same.
  ghost predicate Tracked(d0: seq<Update>, s0: Scene, d1: seq<Update>, s1: Scene) {
    forall x: nat, y: nat | x < s0.width && y < s0.height && !Damaged(d1, x, y) ::
      !Damaged(d0, x, y) && Shown(s1, x, y) == Shown(s0, x, y)
  }

  lemma SameTracked(d: seq<Update>, s: Scene)
    ensures Tracked(d, s, d, s)
  {
  }

  lemma TrackedOn(d0: seq<Update>, s0: Scene, d1: seq<Update>, s1: Scene, d2: seq<Update>, s2: Scene)
    requires Tracked(d0, s0, d1, s1) && Tracked(d1, s1, d2, s2) && s1.width == s0.width && s1.height == s0.height
    ensures Tracked(d0, s0, d2, s2)
  {
    hide Shown, Damaged;
  }

  lemma WindowsTracked(d0: seq<Update>, s: Scene, d1: seq<Update>, ws: seq<Window>)
    requires Unseen(d0, s.windows, d1, ws, s.width, s.height)
    ensures Tracked(d0, s, d1, s.(windows := ws))
  {
    hide Shown, Damaged, WindowsShown, Backdrop;
    forall x: nat, y: nat | x < s.width && y < s.height && !Damaged(d1, x, y)
      ensures Shown(s.(windows := ws), x, y) == Shown(s, x, y)
    {
      SameWindowsShown(s, s.(windows := ws), x, y);
    }
  }

  lemma {:induction false} MouseTracked(d0: seq<Update>, d1: seq<Update>, d2: seq<Update>, d3: seq<Update>, s: Scene, t: Scene)
    requires t == s.(windows := t.windows, mouse := t.mouse)
    requires Placed(s.width, s.height, s.mouse) && Placed(s.width, s.height, t.mouse)
    requires Spreads(d0, d1, s.width, s.height) && Spreads(d2, d3, s.width, s.height)
    requires Unseen(d1, s.windows, d2, t.windows, s.width, s.height)
    requires CoversAll(MouseRegion(s.width, s.height, s.mouse, s.cursor), d1, s.width, s.height)
    requires CoversAll(MouseRegion(s.width, s.height, t.mouse, s.cursor), d3, s.width, s.height)
    ensures Tracked(d0, s, d3, t)
  {
    hide Shown, Damaged, WindowsShown, Backdrop, MouseRegion, LayerPixel;
    forall x: nat, y: nat | x < s.width && y < s.height && !Damaged(d3, x, y)
      ensures !Damaged(d0, x, y) && Shown(t, x, y) == Shown(s, x, y)
    {
      CursorInRegion(s.width, s.height, s.mouse, s.cursor, x, y);
      CursorInRegion(s.width, s.height, t.mouse, s.cursor, x, y);
      SameWindowsShown(s, t, x, y);
    }
  }

  lemma {:induction false} NewDamages(d0: seq<Update>, d1: seq<Update>, s: Scene, w: Window)
    requires Placed(s.width, s.height, w.rect.coord) && Spreads(d0, d1, s.width, s.height)
    requires CoversAll(WindowRegion(s.width, s.height, w), d1, s.width, s.height)
    ensures Unseen(d0, s.windows, d1, s.windows + [w], s.width, s.height)
  {
    hide WindowsShown, Backdrop, WindowRegion, Damaged;
    forall x: nat, y: nat | x < s.width && y < s.height && !Damaged(d1, x, y)
      ensures !Damaged(d0, x, y)
      ensures WindowsShown(s.windows + [w], Backdrop(x, y), x, y) == WindowsShown(s.windows, Backdrop(x, y), x, y)
    {
      WindowInRegion(s.width, s.height, w, x, y);
      NewUnseen(s.windows, w, Backdrop(x, y), x, y);
    }
  }

  // New contents in place: one region covers both.
  lemma ContentsDamage(d0: seq<Update>, d1: seq<Update>, s: Scene, i: nat, w: Window)
    requires i < |s.windows| && Sensible(s) && w.rect == s.windows[i].rect && Spreads(d0, d1, s.width, s.height)
    requires CoversAll(WindowRegion(s.width, s.height, w), d1, s.width, s.height)
    ensures Unseen(d0, s.windows, d1, s.windows[i := w], s.width, s.height)
  {
    assert WindowRegion(s.width, s.height, w) == WindowRegion(s.width, s.height, s.windows[i]);
    hide WindowRegion, Damaged;
    ChangeDamages(d0, d1, d1, s, i, w);
  }

  // ----- Opaque contents stay opaque -----

  ghost predicate OpaqueEvent(e: Event) {
    match e
    case ClientUpdate(_, contents) => forall i :: 0 <= contents(i) < OPAQUE
    case NewWindow(_, _, _, contents) => forall i :: 0 <= contents(i) < OPAQUE
    case _ => true
  }

  ghost predicate OpaqueEvents(batches: seq<seq<Event>>) {
    forall b, k | 0 <= b < |batches| && 0 <= k < |batches[b]| :: OpaqueEvent(batches[b][k])
  }

  // A point that a frame leaves as a full repaint would: covered once at most, or opaque in front.
  ghost predicate SettledAt(us: seq<Update>, s: Scene, x: int, y: int) {
    Covering(us, x, y) <= 1 || FrontOpaque(Layers(s), x, y)
  }

  // In the first b frames the frontmost layer at the point is opaque.
  ghost predicate OpaqueSoFar(s: Scene, batches: seq<seq<Event>>, b: nat, x: int, y: int)
    requires b <= |batches| + 1
  {
    forall j | 0 <= j < b :: FrontOpaque(Layers(AfterBatches(s, batches[..j])), x, y)
  }

  lemma OpaqueLast(s: Scene, batches: seq<seq<Event>>, x: int, y: int)
    requires OpaqueSoFar(s, batches, |batches| + 1, x, y)
    ensures FrontOpaque(Layers(AfterBatches(s, batches)), x, y)
  {
    assert batches[..|batches|] == batches;
  }

  lemma {:induction false} AfterAllOpaque(s: Scene, es: seq<Event>)
    requires OpaqueScene(s) && forall k | 0 <= k < |es| :: OpaqueEvent(es[k])
    ensures OpaqueScene(AfterAll(s, es))
  {
    hide OpaqueScene, OpaqueEvent, After;
    if es != [] {
      AfterAllOpaque(s, es[..|es| - 1]);
      AfterOpaque(AfterAll(s, es[..|es| - 1]), es[|es| - 1]);
    }
  }

  lemma {:induction false} AfterBatchesOpaque(s: Scene, batches: seq<seq<Event>>)
    requires OpaqueScene(s) && OpaqueEvents(batches)
    ensures OpaqueScene(AfterBatches(s, batches))
  {
    hide OpaqueScene, OpaqueEvent;
    if batches != [] {
      AfterBatchesOpaque(s, batches[..|batches| - 1]);
      AfterAllOpaque(AfterBatches(s, batches[..|batches| - 1]), batches[|batches| - 1]);
    }
  }

  lemma {:induction false} OpaqueAlways(s: Scene, batches: seq<seq<Event>>, x: int, y: int)
    requires OpaqueScene(s) && OpaqueEvents(batches)
    ensures OpaqueSoFar(s, batches, |batches| + 1, x, y)
  {
    hide OpaqueScene, OpaqueEvent, AfterBatches, FrontOpaque, Layers;
    forall j | 0 <= j <= |batches|
      ensures FrontOpaque(Layers(AfterBatches(s, batches[..j])), x, y)
    {
      AfterBatchesOpaque(s, batches[..j]);
      OpaqueEverywhere(AfterBatches(s, batches[..j]), x, y);
    }
  }

  lemma AfterOpaque(s: Scene, e: Event)
    requires OpaqueScene(s) && OpaqueEvent(e)
    ensures OpaqueScene(After(s, e))
  {
    TopmostInRange(s, |s.windows|);
    hide CursorWellFormed, Topmost;
  }

  lemma SensibleAt(s: Scene, i: nat)
    requires Sensible(s) && i < |s.windows|
    ensures WellFormed(s.windows[i]) && Placed(s.width, s.height, s.windows[i].rect.coord)
  {
  }

  lemma SensibleRaise(s: Scene, i: nat)
    requires Sensible(s) && i < |s.windows|
    ensures Sensible(s.(windows := Removed(s.windows, i) + [s.windows[i]]))
  {
  }

  lemma SensibleNew(s: Scene, w: Window)
    requires Sensible(s) && WellFormed(w) && Placed(s.width, s.height, w.rect.coord)
    ensures Sensible(s.(windows := s.windows + [w]))
  {
  }

  lemma KeyboardNothing(s: Scene)
    ensures After(s, Keyboard) == s
  {
  }

  lemma SensibleChange(s: Scene, i: nat, w: Window)
    requires Sensible(s) && i < |s.windows| && WellFormed(w) && Placed(s.width, s.height, w.rect.coord)
    ensures Sensible(s.(windows := s.windows[i := w]))
  {
  }

  lemma DraggedSensible(s: Scene, i: nat, dx: int, dy: int)
    requires Sensible(s) && i < |s.windows|
    ensures WellFormed(s.windows[i])
    ensures var w := Dragged(s.width, s.height, s.windows[i], dx, dy);
            Placed(s.width, s.height, w.rect.coord) && Sensible(s.(windows := s.windows[i := w]))
  {
    SensibleAt(s, i);
    SensibleChange(s, i, Dragged(s.width, s.height, s.windows[i], dx, dy));
  }

  // ----- Where an event can change the picture -----

  lemma {:induction false} TopmostInRange(s: Scene, k: nat)
    requires k <= |s.windows|
    ensures Topmost(s, k).Some? ==> Topmost(s, k).value < k
  {
    if k > 0 { TopmostInRange(s, k - 1); }
  }

  // ----- What a mouse event means to the user -----

  // A coordinate moved by d, as far as the edges let it.
  predicate Moved(from: int, d: int, limit: nat, to: int) {
    && (0 <= from + d <= limit ==> to == from + d)
    && (from + d < 0 ==> to == 0) && (from + d > limit ==> to == limit)
  }

  // The pointer is on a window, where that is on the screen.
  predicate On(s: Scene, k: nat)
    requires k < |s.windows|
  {
    var c, p, r := s.windows[k].rect.coord, s.mouse, s.windows[k].rect;
    && c.x <= p.x < c.x + r.width && c.y <= p.y < c.y + r.height && p.x < s.width && p.y < s.height
  }

  // It is on window k and on none in front of that one.
  ghost predicate Pointed(s: Scene, k: nat) {
    k < |s.windows| && On(s, k) && forall j | k < j < |s.windows| :: !On(s, j)
  }

  // Only window k is another one, and that only in its position.
  ghost predicate OnlyMoved(ws: seq<Window>, k: nat, vs: seq<Window>) {
    && k < |ws| == |vs| && (forall j | 0 <= j < |ws| && j != k :: vs[j] == ws[j])
    && vs[k] == ws[k].(rect := ws[k].rect.(coord := vs[k].rect.coord))
  }

  // The pointer moves right by dx and up by dy. With the left button the window pointed at comes
  // to the front and no window moves; with the right one alone it moves as the pointer does and
  // keeps its place in the order; else nothing happens to the windows.
  ghost predicate MouseMoves(s: Scene, left: bool, right: bool, dx: int, dy: int, t: Scene) {
    && t == s.(windows := t.windows, mouse := t.mouse)
    && Moved(s.mouse.x, dx, s.width, t.mouse.x) && Moved(s.mouse.y, -dy, s.height, t.mouse.y)
    && ((!left && !right) || (forall k: nat :: !Pointed(s, k)) ==> t.windows == s.windows)
    && (forall k: nat | Pointed(s, k) && left :: t.windows == s.windows[..k] + s.windows[k + 1..] + [s.windows[k]])
    && (forall k: nat | Pointed(s, k) && !left && right ::
          && OnlyMoved(s.windows, k, t.windows)
          && Moved(s.windows[k].rect.coord.x, dx, s.width, t.windows[k].rect.coord.x)
          && Moved(s.windows[k].rect.coord.y, -dy, s.height, t.windows[k].rect.coord.y))
  }

  lemma NormalizedMoves(width: nat, height: nat, p: Point, dx: int, dy: int)
    ensures var q := Normalized(width, height, Point(p.x + dx, p.y - dy));
            Moved(p.x, dx, width, q.x) && Moved(p.y, -dy, height, q.y)
  {
  }

  lemma HitOn(s: Scene, k: nat)
    requires k < |s.windows| && Placed(s.width, s.height, s.mouse)
    ensures Hit(s.width, s.height, s.windows[k], s.mouse) <==> On(s, k)
  {
  }

  lemma {:induction false} TopmostPointed(s: Scene, n: nat)
    requires n <= |s.windows| && Placed(s.width, s.height, s.mouse)
    ensures match Topmost(s, n)
            case None => forall j | 0 <= j < n :: !On(s, j)
            case Some(k) => k < n && On(s, k) && forall j | k < j < n :: !On(s, j)
  {
    hide Hit, On;
    if n > 0 {
      HitOn(s, n - 1);
      TopmostPointed(s, n - 1);
    }
  }

  lemma TopmostIs(s: Scene, k: nat)
    requires Placed(s.width, s.height, s.mouse) && Pointed(s, k)
    ensures Topmost(s, |s.windows|) == Some(k)
  {
    hide On;
    TopmostPointed(s, |s.windows|);
  }

  lemma MousePointed(s: Scene, k: nat, left: bool, right: bool, dx: int, dy: int)
    requires Placed(s.width, s.height, s.mouse) && Pointed(s, k)
    ensures var vs, ws := AfterButtons(s, left, right, dx, dy), s.windows;
            && (!left && !right ==> vs == ws)
            && (left ==> vs == ws[..k] + ws[k + 1..] + [ws[k]])
            && (!left && right ==>
                  && OnlyMoved(ws, k, vs)
                  && Moved(ws[k].rect.coord.x, dx, s.width, vs[k].rect.coord.x)
                  && Moved(ws[k].rect.coord.y, -dy, s.height, vs[k].rect.coord.y))
  {
    hide On, Topmost, Normalized, Moved;
    TopmostIs(s, k);
    NormalizedMoves(s.width, s.height, s.windows[k].rect.coord, dx, dy);
  }

  lemma {:induction false} MouseMeans(s: Scene, left: bool, right: bool, dx: int, dy: int)
    requires Placed(s.width, s.height, s.mouse)
    ensures MouseMoves(s, left, right, dx, dy, After(s, Mouse(left, right, dx, dy)))
  {
    hide On, Topmost, Normalized, Moved;
    TopmostPointed(s, |s.windows|);
    NormalizedMoves(s.width, s.height, s.mouse, dx, dy);
    var top := Topmost(s, |s.windows|);
    assert top.None? || (!left && !right) ==> AfterButtons(s, left, right, dx, dy) == s.windows;
    assert top.Some? ==> Pointed(s, top.value);
    hide AfterButtons;
    forall k: nat | Pointed(s, k)
      ensures top == Some(k)
    {
      TopmostIs(s, k);
    }
    if top.Some? && Pointed(s, top.value) {
      MousePointed(s, top.value, left, right, dx, dy);
    }
  }

  // A drag that no edge of the screen cuts short takes the window along under the pointer.
  lemma DragFollows(s: Scene, k: nat, dx: int, dy: int)
    requires Placed(s.width, s.height, s.mouse) && Pointed(s, k)
    requires Placed(s.width, s.height, Point(s.mouse.x + dx, s.mouse.y - dy))
    requires var c := s.windows[k].rect.coord; Placed(s.width, s.height, Point(c.x + dx, c.y - dy))
    ensures var t := After(s, Mouse(false, true, dx, dy));
            && t.mouse == Point(s.mouse.x + dx, s.mouse.y - dy) && OnlyMoved(s.windows, k, t.windows)
            && t.windows[k].rect.coord.x - t.mouse.x == s.windows[k].rect.coord.x - s.mouse.x
            && t.windows[k].rect.coord.y - t.mouse.y == s.windows[k].rect.coord.y - s.mouse.y
  {
    hide After, On;
    MouseMeans(s, false, true, dx, dy);
  }

  lemma {:induction false} ClientInRange(ws: seq<Window>, id: Pixel, k: nat)
    requires k <= |ws|
    ensures Client(ws, id, k).Some? ==> k <= Client(ws, id, k).value < |ws|
    decreases |ws| - k
  {
    if k < |ws| { ClientInRange(ws, id, k + 1); }
  }

  lemma {:induction false} RaiseUnseen(ws: seq<Window>, i: nat, behind: Pixel, x: int, y: int)
    requires i < |ws| && Clear(WindowLayers(ws[i]), x, y)
    ensures WindowsShown(Removed(ws, i) + [ws[i]], behind, x, y) == WindowsShown(ws, behind, x, y)
  {
    var a, w, b := ws[..i], ws[i], ws[i + 1..];
    hide WindowsShown, WindowLayers;
    WithoutWindow(a, w, b, behind, x, y);
    WithoutWindow(a + b, w, [], behind, x, y);
    assert a + [w] + b == ws && a + b == Removed(ws, i);
    assert Removed(ws, i) + [w] + [] == Removed(ws, i) + [w] && Removed(ws, i) + [] == Removed(ws, i);
  }

  lemma {:induction false} ChangeUnseen(ws: seq<Window>, i: nat, w: Window, behind: Pixel, x: int, y: int)
    requires i < |ws| && Clear(WindowLayers(ws[i]), x, y) && Clear(WindowLayers(w), x, y)
    ensures WindowsShown(ws[i := w], behind, x, y) == WindowsShown(ws, behind, x, y)
  {
    var a, b := ws[..i], ws[i + 1..];
    hide WindowsShown, WindowLayers;
    WithoutWindow(a, ws[i], b, behind, x, y);
    WithoutWindow(a, w, b, behind, x, y);
    assert a + [ws[i]] + b == ws && a + [w] + b == ws[i := w];
  }

  lemma {:induction false} NewUnseen(ws: seq<Window>, w: Window, behind: Pixel, x: int, y: int)
    requires Clear(WindowLayers(w), x, y)
    ensures WindowsShown(ws + [w], behind, x, y) == WindowsShown(ws, behind, x, y)
  {
    hide WindowsShown, WindowLayers;
    WithoutWindow(ws, w, [], behind, x, y);
    assert ws + [w] + [] == ws + [w] && ws + [] == ws;
  }

  lemma ContentHere(w: Window, x: int, y: int)
    requires WellFormed(w) && Inside(w.rect, x, y)
    ensures var i := (y - w.rect.coord.y) * w.rect.width + (x - w.rect.coord.x);
            && (w.hasBuffer ==> 0 <= i < |w.pixels| && ContentPixel(w, x, y) == w.pixels[i])
            && (!w.hasBuffer ==> ContentPixel(w, x, y) == w.color)
  {
    IndexInRange(w.rect.width, w.rect.height, x - w.rect.coord.x, y - w.rect.coord.y);
  }

  lemma AllWindowLayersStart(ws: seq<Window>)
    ensures AllWindowLayers(ws[..0]) == []
  {
  }

  lemma AllWindowLayersNext(ws: seq<Window>, i: nat)
    requires i < |ws|
    ensures AllWindowLayers(ws[..i + 1]) == AllWindowLayers(ws[..i]) + [Content(ws[i])] + Decorations(ws[i])
  {
    hide Decorations;
    assert ws[..i + 1][..i] == ws[..i];
    assert AllWindowLayers(ws[..i + 1]) == AllWindowLayers(ws[..i]) + WindowLayers(ws[i]);
  }

  // What a frame leaves on the screen where the buffer held v and the screen was.
  ghost function FramePixel(us: seq<Update>, s: Scene, v: Pixel, was: Pixel, x: nat, y: nat): Pixel {
    var n := Covering(us, x, y);
    if n == 0 then was else Rendered(v, s, n, x, y)
  }

  lemma FramePixelShown(us: seq<Update>, s: Scene, v: Pixel, was: Pixel, x: nat, y: nat)
    requires Damaged(us, x, y) || was == Shown(s, x, y)
    requires SettledAt(us, s, x, y)
    ensures FramePixel(us, s, v, was, x, y) == Shown(s, x, y)
  {
    hide Rendered, Shown, FrontOpaque, Layers, Covering;
    CoveringDamaged(us, x, y);
    if Damaged(us, x, y) {
      RenderedShown(v, s, Covering(us, x, y), x, y);
    }
  }

  class Wm {
    const width: nat
    const height: nat
    const cursor: Cursor
    const winlist: WindowList
    const updates: array<Update>
    const buffer: array2<Pixel>
    const framebuffer: array2<Pixel>
    var numUpdates: nat
    var mouse: Point

    ghost predicate Shape()
      reads this
    {
      && updates.Length == MAX_UPDATES && numUpdates < MAX_UPDATES
      && buffer.Length0 == framebuffer.Length0 == height
      && buffer.Length1 == framebuffer.Length1 == width
      && buffer != framebuffer
    }

    ghost function Damage(): seq<Update>
      requires numUpdates <= updates.Length
      reads this, updates
    {
      updates[..numUpdates]
    }

    ghost predicate OnScreen(x: int, y: int) {
      0 <= x < width && 0 <= y < height
    }

    // The set-up in main
    constructor (width: nat, height: nat, cursor: Cursor)
      ensures Shape() && numUpdates == 0
      ensures this.width == width && this.height == height && this.cursor == cursor
      ensures mouse == Point(0, 0) && fresh(winlist) && winlist.Valid() && winlist.nodes == []
      ensures fresh(updates) && fresh(buffer) && fresh(framebuffer)
      ensures CursorWellFormed(cursor) ==> Ok() && OpaqueScene(Now())
    {
      this.width, this.height, this.cursor := width, height, cursor;
      winlist := new WindowList();
      updates := new Update[MAX_UPDATES](_ => Update(Point(0, 0), Point(0, 0)));
      buffer := new Pixel[height, width]((_, _) => 0);
      framebuffer := new Pixel[height, width]((_, _) => 0x80808080);
      numUpdates, mouse := 0, Point(0, 0);
    }

    // ----- The update list -----

    method ResetUpdates()
      modifies this`numUpdates
      ensures numUpdates == 0
    {
      numUpdates := 0;
    }

    // alloc_update
    method AllocUpdate() returns (slot: nat)
      requires Shape()
      modifies this`numUpdates, updates
      ensures Shape() && slot < MAX_UPDATES
      ensures old(numUpdates) + 1 < MAX_UPDATES ==>
                slot == old(numUpdates) && numUpdates == slot + 1 && forall k | 0 <= k < MAX_UPDATES :: updates[k] == old(updates[k])
      ensures old(numUpdates) + 1 == MAX_UPDATES ==> numUpdates == 1 && slot == MAX_UPDATES - 1 && updates[0] == FullUpdate(width, height)
      decreases numUpdates + 1 == MAX_UPDATES, 0
    {
      slot := numUpdates;
      numUpdates := numUpdates + 1;
      if numUpdates >= MAX_UPDATES {
        ResetUpdates();
        SetFullUpdate();
      }
      numUpdates := numUpdates % MAX_UPDATES;
    }

    // set_full_update
    method SetFullUpdate()
      requires Shape()
      modifies this`numUpdates, updates
      ensures Shape() && Damage() == Added(old(Damage()), FullUpdate(width, height), width, height)
      decreases numUpdates + 1 == MAX_UPDATES, 1
    {
      var slot := AllocUpdate();
      updates[slot] := FullUpdate(width, height);
    }

    // update_region
    method UpdateRegion(a: Point, b: Point)
      requires Shape()
      modifies this`numUpdates, updates
      ensures Shape() && Damage() == Added(old(Damage()), Region(width, height, a, b), width, height)
    {
      var slot := AllocUpdate();
      updates[slot] := Region(width, height, a, b);
    }

    // The region was added: it and everything damaged before are damaged, within the screen.
    ghost predicate Marked(was: seq<Update>, u: Update)
      requires Shape()
      reads this, updates
    {
      && AllBounded(Damage(), width, height)
      && Damage() == Added(was, u, width, height)
      && Spreads(was, Damage(), width, height) && CoversAll(u, Damage(), width, height)
    }

    lemma MarkAdded(a: Point, b: Point)
      requires Shape() && AllBounded(Damage(), width, height)
      ensures var r := Region(width, height, a, b);
              var vs := Added(Damage(), r, width, height);
              AllBounded(vs, width, height) && Spreads(Damage(), vs, width, height) && CoversAll(r, vs, width, height)
    {
      UpdateAdded(Damage(), a, b, width, height);
    }

    // update_mouse_region
    method UpdateMouseRegion()
      requires Shape() && AllBounded(Damage(), width, height)
      modifies this`numUpdates, updates
      ensures Shape() && Marked(old(Damage()), MouseRegion(width, height, mouse, cursor))
    {
      var offset := Point(mouse.x + cursor.width, mouse.y + cursor.height);
      MarkAdded(mouse, offset);
      UpdateRegion(mouse, offset);
    }

    // update_window_region
    method UpdateWindowRegion(w: Window)
      requires Shape() && AllBounded(Damage(), width, height)
      modifies this`numUpdates, updates
      ensures Shape() && Marked(old(Damage()), WindowRegion(width, height, w))
    {
      var a, b := w.rect.coord, MaxCoord(width, height, w.rect);
      a := Normalized(width, height, Point(a.x - BORDER_SIZE, a.y - TITLEBAR_SIZE));
      b := Normalized(width, height, Point(b.x + BORDER_SIZE, b.y + BORDER_SIZE));
      MarkAdded(a, b);
      UpdateRegion(a, b);
    }

    // ----- Drawing into the back buffer -----

    // The buffer shows what it held before the frame, the backdrop, and the layers done so far,
    // contents painted once for each update.
    ghost predicate Holds(base: Picture, done: seq<Layer>)
      requires Shape()
      reads this, updates, buffer
    {
      forall x, y | OnScreen(x, y) :: buffer[y, x] == Painted(At(base, x, y), done, Covering(Damage(), x, y), x, y)
    }

    // draw_pixel
    method DrawPixel(x: int, y: int, pixel: Pixel)
      requires Shape()
      modifies buffer
      ensures forall i, j | OnScreen(i, j) :: buffer[j, i] == if i == x && j == y then Draw(old(buffer[j, i]), pixel) else old(buffer[j, i])
    {
      if x < 0 || y < 0 || x >= width || y >= height {
        return;
      }
      buffer[y, x] := Draw(buffer[y, x], pixel);
    }

    // draw_rect
    method DrawRect(rect: Rect, color: Pixel, ghost base: Picture, ghost done: seq<Layer>)
      requires Shape() && Holds(base, done)
      modifies buffer
      ensures Holds(base, done + [Fill(rect, color)])
    {
      hide Draw, Painted, Paint, Covering;
      for y := 0 to rect.height
        invariant forall i, j | OnScreen(i, j) ::
            buffer[j, i] == if Swept(rect, 0, y, i, j) then Draw(old(buffer[j, i]), color) else old(buffer[j, i])
      {
        for x := 0 to rect.width
          invariant forall i, j | OnScreen(i, j) ::
              buffer[j, i] == if Swept(rect, x, y, i, j) then Draw(old(buffer[j, i]), color) else old(buffer[j, i])
        {
          DrawPixel(x + rect.coord.x, y + rect.coord.y, color);
        }
      }
      forall x, y | OnScreen(x, y)
        ensures buffer[y, x] == Painted(At(base, x, y), done + [Fill(rect, color)], Covering(Damage(), x, y), x, y)
      {
        PaintedNext(At(base, x, y), done, Fill(rect, color), Covering(Damage(), x, y), x, y);
        PaintOnce(old(buffer[y, x]), Fill(rect, color), Covering(Damage(), x, y), x, y);
      }
    }

    // draw_mouse, ppm_draw
    method DrawMouse(ghost base: Picture, ghost done: seq<Layer>)
      requires Shape() && CursorWellFormed(cursor) && Holds(base, done)
      modifies buffer
      ensures Holds(base, done + [Pointer(cursor, mouse)])
    {
      hide Draw, Painted, Paint, Covering;
      ghost var rect, layer := Rect(mouse, cursor.height, cursor.width), Pointer(cursor, mouse);
      for y := 0 to cursor.height
        invariant forall i, j | OnScreen(i, j) ::
            buffer[j, i] == if Swept(rect, 0, y, i, j) then Over(old(buffer[j, i]), layer, i, j) else old(buffer[j, i])
      {
        for x := 0 to cursor.width
          invariant forall i, j | OnScreen(i, j) ::
              buffer[j, i] == if Swept(rect, x, y, i, j) then Over(old(buffer[j, i]), layer, i, j) else old(buffer[j, i])
        {
          IndexInRange(cursor.width, cursor.height, x, y);
          var pixel := cursor.pixels[y * cursor.width + x];
          if pixel != TRANSPARENT_GREEN {
            DrawPixel(x + mouse.x, y + mouse.y, pixel);
          }
        }
      }
      forall x, y | OnScreen(x, y)
        ensures buffer[y, x] == Painted(At(base, x, y), done + [layer], Covering(Damage(), x, y), x, y)
      {
        PaintedNext(At(base, x, y), done, layer, Covering(Damage(), x, y), x, y);
        PaintOnce(old(buffer[y, x]), layer, Covering(Damage(), x, y), x, y);
      }
    }

    // draw_background
    method DrawBackground()
      requires Shape() && AllBounded(Damage(), width, height)
      modifies buffer
      ensures forall x, y | OnScreen(x, y) ::
                buffer[y, x] == if Covering(Damage(), x, y) > 0 then Backdrop(x, y) else old(buffer[y, x])
    {
      hide Draw, Backdrop;
      for k := 0 to numUpdates
        invariant forall i, j | OnScreen(i, j) ::
            buffer[j, i] == if Covering(updates[..k], i, j) > 0 then Backdrop(i, j) else old(buffer[j, i])
      {
        var up := updates[k];
        assert Bounded(Damage()[k], width, height);
        assert updates[..k + 1][..k] == updates[..k];
        DrawBackgroundIn(up);
      }
    }

    method DrawBackgroundIn(up: Update)
      requires Shape() && Bounded(up, width, height)
      modifies buffer
      ensures forall i, j | OnScreen(i, j) :: buffer[j, i] == if Covers(up, i, j) then Backdrop(i, j) else old(buffer[j, i])
    {
      hide Draw, Backdrop;
      var y := up.lower.y;
      while y < up.upper.y
        invariant up.lower.y <= y
        invariant forall i, j | OnScreen(i, j) ::
                    buffer[j, i] == if Covers(up, i, j) && j < y then Backdrop(i, j) else old(buffer[j, i])
      {
        var x := up.lower.x;
        while x < up.upper.x
          invariant up.lower.x <= x
          invariant forall i, j | OnScreen(i, j) ::
                      buffer[j, i] == if Covers(up, i, j) && (j < y || (j == y && i < x)) then Backdrop(i, j) else old(buffer[j, i])
        {
          var pixel := Backdrop(x, y);
          DrawOpaque(buffer[y, x], pixel, 1);
          DrawPixel(x, y, pixel);
          x := x + 1;
        }
        y := y + 1;
      }
    }

    // draw_window
    method DrawWindow(w: Window, ghost base: Picture, ghost done: seq<Layer>)
      requires Shape() && WellFormed(w) && Placed(width, height, w.rect.coord) && Holds(base, done)
      modifies buffer
      ensures Holds(base, done + [Content(w)])
    {
      hide Draw, Painted, Paint, LayerPixel;
      ghost var layer := Content(w);
      forall i, j
        ensures Paint(if OnScreen(i, j) then buffer[j, i] else 0, layer, 0, i, j) == if OnScreen(i, j) then buffer[j, i] else 0
      {
        PaintMore(if OnScreen(i, j) then buffer[j, i] else 0, layer, 0, i, j);
      }
      for k := 0 to numUpdates
        invariant forall i, j | OnScreen(i, j) :: buffer[j, i] == Paint(old(buffer[j, i]), layer, Covering(updates[..k], i, j), i, j)
      {
        assert updates[..k + 1][..k] == updates[..k];
        DrawWindowIn(w, updates[k]);
        forall i, j | OnScreen(i, j)
          ensures buffer[j, i] == Paint(old(buffer[j, i]), layer, Covering(updates[..k + 1], i, j), i, j)
        {
          PaintMore(old(buffer[j, i]), layer, Covering(updates[..k], i, j), i, j);
        }
      }
      forall x, y | OnScreen(x, y)
        ensures buffer[y, x] == Painted(At(base, x, y), done + [layer], Covering(Damage(), x, y), x, y)
      {
        PaintedNext(At(base, x, y), done, layer, Covering(Damage(), x, y), x, y);
      }
    }

    method DrawWindowIn(w: Window, up: Update)
      requires Shape() && WellFormed(w) && Placed(width, height, w.rect.coord)
      modifies buffer
      ensures forall i, j | OnScreen(i, j) ::
                buffer[j, i] == if Covers(up, i, j) then Over(old(buffer[j, i]), Content(w), i, j) else old(buffer[j, i])
    {
      hide Draw, ContentPixel;
      var a, b := w.rect.coord, MaxCoord(width, height, w.rect);
      if a.y >= up.upper.y || b.y < up.lower.y || a.x >= up.upper.x || b.x < up.lower.x {
        return;
      }
      var yStart := if a.y > up.lower.y then a.y else up.lower.y;
      var xStart := if a.x > up.lower.x then a.x else up.lower.x;
      var y := yStart;
      while y < b.y && y < up.upper.y
        invariant yStart <= y
        invariant forall i, j | OnScreen(i, j) ::
                    buffer[j, i] == if Covers(up, i, j) && j < y then Over(old(buffer[j, i]), Content(w), i, j) else old(buffer[j, i])
      {
        var x := xStart;
        while x < b.x && x < up.upper.x
          invariant xStart <= x
          invariant forall i, j | OnScreen(i, j) ::
                      buffer[j, i] == if Covers(up, i, j) && (j < y || (j == y && i < x))
                      then Over(old(buffer[j, i]), Content(w), i, j) else old(buffer[j, i])
        {
          ContentHere(w, x, y);
          if w.hasBuffer {
            DrawPixel(x, y, w.pixels[(y - a.y) * w.rect.width + (x - a.x)]);
          } else {
            DrawPixel(x, y, w.color);
          }
          x := x + 1;
        }
        y := y + 1;
      }
    }

    // draw_window_decoration
    method DrawWindowDecoration(w: Window, ghost base: Picture, ghost done: seq<Layer>)
      requires Shape() && Holds(base, done)
      modifies buffer
      ensures Holds(base, done + Decorations(w))
    {
      hide Holds;
      var c, height, width := w.rect.coord, w.rect.height, w.rect.width;
      var titlebar := Rect(Point(c.x - BORDER_SIZE, c.y - TITLEBAR_SIZE), TITLEBAR_SIZE, width + BORDER_SIZE * 2);
      var textPlaceholder := Rect(Point(c.x + 5 - BORDER_SIZE, c.y - 20), 15, width / 4);
      var leftBorder := Rect(Point(c.x - BORDER_SIZE, c.y), height + BORDER_SIZE, BORDER_SIZE);
      var rightBorder := Rect(Point(c.x + width, c.y), height + BORDER_SIZE, BORDER_SIZE);
      var bottomBorder := Rect(Point(c.x, c.y + height), BORDER_SIZE, width);
      ghost var ds := Decorations(w);
      DrawRect(titlebar, WINDOW_COLOR, base, done);
      assert done + [ds[0]] == done + ds[..1];
      DrawRect(textPlaceholder, 0xc0c0c0, base, done + ds[..1]);
      assert done + ds[..1] + [ds[1]] == done + ds[..2];
      DrawRect(leftBorder, WINDOW_COLOR, base, done + ds[..2]);
      assert done + ds[..2] + [ds[2]] == done + ds[..3];
      DrawRect(rightBorder, WINDOW_COLOR, base, done + ds[..3]);
      assert done + ds[..3] + [ds[3]] == done + ds[..4];
      DrawRect(bottomBorder, WINDOW_COLOR, base, done + ds[..4]);
      assert done + ds[..4] + [ds[4]] == done + ds;
    }

    // draw_status_bar
    method DrawStatusBar(ghost base: Picture, ghost done: seq<Layer>)
      requires Shape() && Holds(base, done)
      modifies buffer
      ensures Holds(base, done + StatusBar(width, height))
    {
      hide Holds;
      ghost var bs := StatusBar(width, height);
      DrawRect(Rect(Point(0, height - 25), 25, width), 0xc0c0c0, base, done);
      assert done + [bs[0]] == done + bs[..1];
      DrawRect(Rect(Point(5, height - 20), 15, 15), 0x202020, base, done + bs[..1]);
      assert done + bs[..1] + [bs[1]] == done + bs[..2];
      DrawRect(Rect(Point(25, height - 20), 15, 60), 0x808080, base, done + bs[..2]);
      assert done + bs[..2] + [bs[2]] == done + bs[..3];
      DrawRect(Rect(Point(width - 65, height - 20), 15, 60), 0x808080, base, done + bs[..3]);
      assert done + bs[..3] + [bs[3]] == done + bs;
    }

    // draw_windows
    method DrawWindows(ghost base: Picture)
      requires Shape() && winlist.Valid() && Holds(base, [])
      requires Sensible(Now())
      modifies buffer
      ensures Holds(base, AllWindowLayers(winlist.Windows()))
    {
      hide Holds, WellFormed, Sensible, WindowList.Valid, Decorations, AllWindowLayers;
      var node := winlist.start;
      ghost var i, ws := 0, winlist.Windows();
      winlist.Ends(0);
      AllWindowLayersStart(ws);
      while node != null
        invariant i <= |winlist.nodes| && node == (if i < |winlist.nodes| then winlist.nodes[i] else null)
        invariant Holds(base, AllWindowLayers(ws[..i]))
        decreases |winlist.nodes| - i
      {
        ghost var done := AllWindowLayers(ws[..i]);
        SensibleAt(Now(), i);
        AllWindowLayersNext(ws, i);
        DrawWindow(node.window, base, done);
        DrawWindowDecoration(node.window, base, done + [Content(node.window)]);
        winlist.Ends(i);
        node, i := node.next, i + 1;
      }
      assert ws[..i] == ws;
    }

    // draw_framebuffer
    method DrawFramebuffer()
      requires Shape() && AllBounded(Damage(), width, height)
      modifies framebuffer
      ensures forall x, y | OnScreen(x, y) ::
                framebuffer[y, x] == if Covering(Damage(), x, y) == 0 then old(framebuffer[y, x]) else buffer[y, x]
    {
      for k := 0 to numUpdates
        invariant forall i, j | OnScreen(i, j) ::
            framebuffer[j, i] == if Covering(updates[..k], i, j) > 0 then buffer[j, i] else old(framebuffer[j, i])
      {
        var up := updates[k];
        assert Bounded(Damage()[k], width, height);
        assert updates[..k + 1][..k] == updates[..k];
        CopyIn(up);
      }
    }

    method CopyIn(up: Update)
      requires Shape() && Bounded(up, width, height)
      modifies framebuffer
      ensures forall i, j | OnScreen(i, j) :: framebuffer[j, i] == if Covers(up, i, j) then buffer[j, i] else old(framebuffer[j, i])
    {
      var y := up.lower.y;
      while y < up.upper.y
        invariant up.lower.y <= y
        invariant forall i, j | OnScreen(i, j) ::
                    framebuffer[j, i] == if Covers(up, i, j) && j < y then buffer[j, i] else old(framebuffer[j, i])
      {
        var x := up.lower.x;
        while x < up.upper.x
          invariant up.lower.x <= x
          invariant forall i, j | OnScreen(i, j) ::
                      framebuffer[j, i] == if Covers(up, i, j) && (j < y || (j == y && i < x)) then buffer[j, i] else old(framebuffer[j, i])
        {
          framebuffer[y, x] := buffer[y, x];
          x := x + 1;
        }
        y := y + 1;
      }
    }

    // ----- A frame -----

    ghost function Now(): Scene
      reads this, winlist, winlist.nodes
    {
      Scene(width, height, winlist.Windows(), mouse, cursor)
    }

    ghost predicate Ok()
      reads this, updates, winlist, winlist.nodes
    {
      && Shape() && winlist.Valid() && Sensible(Now())
      && AllBounded(Damage(), width, height)
    }

    // A point not recorded as damaged shows the scene as it is now.
    ghost predicate CurrentAt(x: int, y: int)
      requires Shape()
      reads this, updates, framebuffer, winlist, winlist.nodes
    {
      OnScreen(x, y) ==> Damaged(Damage(), x, y) || framebuffer[y, x] == Shown(Now(), x, y)
    }

    // The four drawing passes: what the buffer holds then does not depend on what it held where
    // there is an update.
    method DrawScene()
      requires Ok()
      modifies buffer
      ensures Ok()
      ensures forall x, y | OnScreen(x, y) :: buffer[y, x] == Rendered(old(buffer[y, x]), Now(), Covering(Damage(), x, y), x, y)
    {
      hide Draw, Backdrop, LayerPixel, Sensible, Painted, Covering, Layers;
      DrawBackground();
      ghost var base := imap p: Point | OnScreen(p.x, p.y) :: buffer[p.y, p.x];
      StartHolds(base);
      DrawPasses(base);
    }

    method DrawPasses(ghost base: Picture)
      requires Ok() && Holds(base, [])
      modifies buffer
      ensures Ok() && Holds(base, Layers(Now()))
    {
      hide Holds;
      ghost var ls := AllWindowLayers(winlist.Windows());
      DrawWindows(base);
      DrawStatusBar(base, ls);
      DrawMouse(base, ls + StatusBar(width, height));
    }

    lemma StartHolds(base: Picture)
      requires Shape() && base == imap p: Point | OnScreen(p.x, p.y) :: buffer[p.y, p.x]
      ensures Holds(base, [])
    {
    }

    // One turn of the loop in event_loop up to reset_updates.
    method Frame()
      requires Ok()
      modifies this`numUpdates, buffer, framebuffer
      ensures Ok() && numUpdates == 0
      ensures forall x, y | OnScreen(x, y) ::
                framebuffer[y, x] == FramePixel(old(Damage()), Now(), old(buffer[y, x]), old(framebuffer[y, x]), x, y)
      ensures forall x, y | OnScreen(x, y) && old(CurrentAt(x, y)) && SettledAt(old(Damage()), Now(), x, y) ::
                framebuffer[y, x] == Shown(Now(), x, y)
    {
      hide Rendered, Shown, Sensible, Covering, Damaged, SettledAt, WindowList.Valid, WindowList.Windows;
      DrawScene();
      DrawFramebuffer();
      forall x, y | OnScreen(x, y) && old(CurrentAt(x, y)) && SettledAt(Damage(), Now(), x, y)
        ensures FramePixel(Damage(), Now(), old(buffer[y, x]), old(framebuffer[y, x]), x, y) == Shown(Now(), x, y)
      {
        FramePixelShown(Damage(), Now(), old(buffer[y, x]), old(framebuffer[y, x]), x, y);
      }
      ResetUpdates();
    }

    // ----- Events -----

    // Out of the list and in again at the top
    method Restack(node: WindowNode, win: Window, ghost i: nat)
      requires winlist.Valid() && i < |winlist.nodes| && winlist.nodes[i] == node
      modifies winlist, winlist.nodes
      ensures winlist.Valid() && winlist.Windows() == Removed(old(winlist.Windows()), i) + [win]
      ensures winlist.Renewed()
    {
      hide WindowList.Valid, WindowList.Windows, Removed;
      winlist.Remove(node, i);
      var added := winlist.Insert(win);
    }

    // The raising in handle_mouse
    method Raise(node: WindowNode, ghost i: nat)
      requires Ok() && i < |winlist.nodes| && winlist.nodes[i] == node
      modifies this`numUpdates, updates, winlist, winlist.nodes
      ensures Ok() && winlist.Windows() == Removed(old(winlist.Windows()), i) + [old(node.window)]
      ensures Unseen(old(Damage()), old(winlist.Windows()), Damage(), winlist.Windows(), width, height)
      ensures winlist.Renewed()
    {
      hide WindowRegion, Spreads, CoversAll, AllBounded, Sensible, Unseen, Added, WindowList.Valid, WindowList.Windows, Removed;
      ghost var s, d0 := Now(), Damage();
      var win := node.window;
      assert s.windows[i] == win;
      SensibleRaise(s, i);
      UpdateWindowRegion(win);
      ghost var d1 := Damage();
      Restack(node, win, i);
      assert Now() == s.(windows := Removed(s.windows, i) + [s.windows[i]]);
      UpdateWindowRegion(win);
      RaiseDamages(d0, d1, Damage(), s, i);
    }

    // The dragging in handle_mouse
    method Drag(node: WindowNode, dx: int, dy: int, ghost i: nat)
      requires Ok() && i < |winlist.nodes| && winlist.nodes[i] == node
      modifies this`numUpdates, updates, node
      ensures Ok() && winlist.Windows() == old(winlist.Windows())[i := Dragged(width, height, old(node.window), dx, dy)]
      ensures Unseen(old(Damage()), old(winlist.Windows()), Damage(), winlist.Windows(), width, height)
    {
      hide WindowRegion, Spreads, CoversAll, AllBounded, Unseen, Added, WindowList.Valid, WindowList.Windows, Sensible;
      hide Normalized;
      ghost var s, d0 := Now(), Damage();
      assert s.windows[i] == node.window;
      DraggedSensible(s, i, dx, dy);
      UpdateWindowRegion(node.window);
      ghost var d1 := Damage();
      var pt := node.window.rect.coord;
      pt := Normalized(width, height, Point(pt.x + dx, pt.y - dy));
      ghost var moved := Dragged(width, height, node.window, dx, dy);
      winlist.Set(node, node.window.(rect := node.window.rect.(coord := pt)), i);
      UpdateWindowRegion(node.window);
      ChangeDamages(d0, d1, Damage(), s, i, moved);
    }

    // The search in handle_mouse's loop: from the topmost window down.
    method TopmostHit() returns (node: WindowNode?, ghost i: nat)
      requires winlist.Valid()
      ensures match Topmost(Now(), |Now().windows|)
              case None => node == null
              case Some(k) => i == k < |winlist.nodes| && node == winlist.nodes[i]
    {
      hide WindowList.Valid, WindowList.Windows;
      ghost var s := Now();
      node, i := winlist.end, |winlist.nodes|;
      winlist.Ends(i);
      while node != null
        invariant i <= |winlist.nodes| && node == (if i > 0 then winlist.nodes[i - 1] else null)
        invariant Topmost(s, |s.windows|) == Topmost(s, i)
        decreases i
      {
        assert s.windows[i - 1] == node.window;
        var a, b := node.window.rect.coord, MaxCoord(width, height, node.window.rect);
        if mouse.x >= a.x && mouse.y >= a.y && mouse.x < b.x && mouse.y < b.y {
          i := i - 1;
          return;
        }
        winlist.Ends(i);
        node, i := node.prev, i - 1;
      }
    }

    // The loop in handle_mouse, which ends with the first window under the pointer when a button
    // is down.
    method HandleButtons(left: bool, right: bool, dx: int, dy: int)
      requires Ok()
      modifies this`numUpdates, updates, winlist, winlist.nodes
      ensures Ok() && winlist.Windows() == AfterButtons(old(Now()), left, right, dx, dy)
      ensures Unseen(old(Damage()), old(winlist.Windows()), Damage(), winlist.Windows(), width, height)
      ensures winlist.Renewed()
    {
      hide Sensible, Unseen, AllBounded, Added, WindowList.Valid, WindowList.Windows, Topmost;
      ghost var s := Now();
      NothingUnseen(Damage(), s);
      TopmostInRange(s, |s.windows|);
      ghost var i;
      var node;
      node, i := TopmostHit();
      if node != null && left {
        Raise(node, i);
      } else if node != null && right {
        Drag(node, dx, dy, i);
      }
    }

    // handle_mouse
    method HandleMouse(left: bool, right: bool, dx: int, dy: int)
      requires Ok()
      modifies this`numUpdates, this`mouse, updates, winlist, winlist.nodes
      ensures Ok() && Now() == After(old(Now()), Mouse(left, right, dx, dy))
      ensures MouseMoves(old(Now()), left, right, dx, dy, Now())
      ensures Tracked(old(Damage()), old(Now()), Damage(), Now())
      ensures winlist.Renewed()
    {
      hide Spreads, CoversAll, AllBounded, Unseen, Tracked, Added, WindowList.Valid, WindowList.Windows, MouseRegion, AfterButtons;
      hide MouseMoves;
      ghost var s, d0 := Now(), Damage();
      UpdateMouseRegion();
      ghost var d1 := Damage();
      HandleButtons(left, right, dx, dy);
      ghost var d2 := Damage();
      mouse := Normalized(width, height, Point(mouse.x + dx, mouse.y - dy));
      UpdateMouseRegion();
      MouseTracked(d0, d1, d2, Damage(), s, Now());
      MouseMeans(s, left, right, dx, dy);
    }

    // handle_keyboard sends the event on to the topmost window's client; nothing on screen changes.
    method HandleKeyboard()
    {
    }

    // find_client
    method FindClient(id: Pixel) returns (node: WindowNode?, ghost i: nat)
      requires winlist.Valid()
      ensures match Client(winlist.Windows(), id, 0)
              case None => node == null
              case Some(k) => i == k < |winlist.nodes| && node == winlist.nodes[i]
    {
      node, i := winlist.start, 0;
      while node != null
        invariant i <= |winlist.nodes| && node == (if i < |winlist.nodes| then winlist.nodes[i] else null)
        invariant Client(winlist.Windows(), id, 0) == Client(winlist.Windows(), id, i)
        decreases |winlist.nodes| - i
      {
        if id == node.window.color {
          return;
        }
        assert winlist.LinkedAt(i);
        node, i := node.next, i + 1;
      }
    }

    // handle_client_update. The client has filled its buffer with the contents before it sends the event.
    method HandleClientUpdate(id: Pixel, contents: nat -> Pixel)
      requires Ok()
      modifies this`numUpdates, updates, winlist.nodes
      ensures Ok() && Now() == After(old(Now()), ClientUpdate(id, contents)) && winlist.nodes == old(winlist.nodes)
      ensures Tracked(old(Damage()), old(Now()), Damage(), Now())
    {
      hide Spreads, CoversAll, AllBounded, Unseen, Tracked, Added, WindowList.Valid, WindowList.Windows, WindowRegion, Sensible;
      ghost var s, d0 := Now(), Damage();
      SameTracked(d0, s);
      var node;
      ghost var i;
      node, i := FindClient(id);
      if node == null {
        return;
      }
      assert s.windows[i] == node.window;
      SensibleAt(s, i);
      var w := node.window.(pixels := Pixels(node.window.rect.width * node.window.rect.height, contents));
      SensibleChange(s, i, w);
      winlist.Set(node, w, i);
      UpdateWindowRegion(node.window);
      ContentsDamage(d0, Damage(), s, i, w);
      WindowsTracked(d0, s, Damage(), s.windows[i := w]);
    }

    // The part of server_handle_new_window that changes what is shown
    method HandleNewWindow(w: nat, h: nat, id: Pixel, contents: nat -> Pixel)
      requires Ok()
      modifies this`numUpdates, updates, winlist, winlist.nodes
      ensures Ok() && Now() == After(old(Now()), NewWindow(w, h, id, contents))
      ensures Tracked(old(Damage()), old(Now()), Damage(), Now())
      ensures winlist.Renewed()
    {
      hide Spreads, CoversAll, AllBounded, Unseen, Tracked, Added, WindowList.Valid, WindowList.Windows, WindowRegion, Sensible;
      ghost var s, d0 := Now(), Damage();
      var newwin := Created(w, h, id, contents);
      SensibleNew(s, newwin);
      var added := winlist.Insert(newwin);
      UpdateWindowRegion(newwin);
      NewDamages(d0, Damage(), s, newwin);
      WindowsTracked(d0, s, Damage(), s.windows + [newwin]);
    }

    // The switch in event_loop, and the server's new windows
    method Handle(e: Event)
      requires Ok()
      modifies this`numUpdates, this`mouse, updates, winlist, winlist.nodes
      ensures Ok() && Now() == After(old(Now()), e)
      ensures Tracked(old(Damage()), old(Now()), Damage(), Now())
      ensures winlist.Renewed()
    {
      hide After, Tracked, Sensible;
      match e
      case Mouse(left, right, dx, dy) => HandleMouse(left, right, dx, dy);
      case Keyboard => HandleKeyboard();
      SameTracked(Damage(), Now());
      KeyboardNothing(Now());
      case ClientUpdate(id, contents) => HandleClientUpdate(id, contents);
      case NewWindow(w, h, id, contents) => HandleNewWindow(w, h, id, contents);
    }

    // The do loop in event_loop
    method HandleBatch(batch: seq<Event>)
      requires Ok()
      modifies this`numUpdates, this`mouse, updates, winlist, winlist.nodes
      ensures Ok() && Now() == AfterAll(old(Now()), batch) && winlist.Renewed()
      ensures Tracked(old(Damage()), old(Now()), Damage(), Now())
    {
      hide After, Tracked, Sensible, WindowList.Valid, WindowList.Windows;
      ghost var d0, s0 := Damage(), Now();
      SameTracked(d0, s0);
      for k := 0 to |batch|
        invariant Ok() && Now() == AfterAll(s0, batch[..k]) && winlist.Renewed()
        invariant Tracked(d0, s0, Damage(), Now())
      {
        ghost var d, s := Damage(), Now();
        Handle(batch[k]);
        TrackedOn(d0, s0, d, s, Damage(), Now());
        assert batch[..k + 1][..k] == batch[..k];
      }
      assert batch[..|batch|] == batch;
    }

    twostate lemma StaysCurrent()
      requires old(Shape()) && Shape() && unchanged(framebuffer)
      requires Tracked(old(Damage()), old(Now()), Damage(), Now())
      ensures forall x, y | old(CurrentAt(x, y)) :: CurrentAt(x, y)
    {
      hide Shown, Damaged;
    }

    // event_loop: each batch of events is handled between two frames. Whatever the batches, the
    // screen then shows the scene that the events lead to, at each point whose frontmost layer was
    // opaque in every frame; in an opaque scene that is every point.
    method EventLoop(batches: seq<seq<Event>>)
      requires Ok()
      modifies this`numUpdates, this`mouse, updates, buffer, framebuffer, winlist, winlist.nodes
      ensures Ok() && Now() == AfterBatches(old(Now()), batches)
      ensures forall x, y | OnScreen(x, y) && OpaqueSoFar(old(Now()), batches, |batches| + 1, x, y) ::
                framebuffer[y, x] == Shown(Now(), x, y) == Visible(Layers(Now()), Backdrop(x, y), x, y)
      ensures OpaqueScene(old(Now())) && OpaqueEvents(batches) ==> forall x, y | OnScreen(x, y) ::
                  framebuffer[y, x] == Shown(Now(), x, y) == Visible(Layers(Now()), Backdrop(x, y), x, y)
    {
      hide Shown, After, OpaqueScene, OpaqueEvents, Tracked, Sensible, WindowList.Valid, WindowList.Windows;
      hide Rendered, FrontOpaque, OpaqueSoFar, Layers, Visible;
      ghost var s0 := Now();
      ResetUpdates();
      SetFullUpdate();
      AllDamaged();
      for b := 0 to |batches|
        invariant Ok() && Now() == AfterBatches(s0, batches[..b]) && winlist.Renewed()
        invariant forall x, y | OnScreen(x, y) && OpaqueSoFar(s0, batches, b, x, y) :: CurrentAt(x, y)
      {
        Turn(s0, batches, b);
        label before:
        HandleBatch(batches[b]);
        StaysCurrent@before();
        assert batches[..b + 1][..b] == batches[..b];
      }
      assert batches[..|batches|] == batches;
      Turn(s0, batches, |batches|);
      ShowsFront(s0, batches);
    }

    // One frame in the loop: the points that were opaque in front so far, and are now, are current.
    method Turn(ghost s0: Scene, ghost batches: seq<seq<Event>>, ghost b: nat)
      requires Ok() && b <= |batches| && Now() == AfterBatches(s0, batches[..b])
      requires forall x, y | OnScreen(x, y) && OpaqueSoFar(s0, batches, b, x, y) :: CurrentAt(x, y)
      modifies this`numUpdates, buffer, framebuffer
      ensures Ok() && Now() == old(Now()) && numUpdates == 0
      ensures forall x, y | OnScreen(x, y) && OpaqueSoFar(s0, batches, b + 1, x, y) ::
                CurrentAt(x, y) && framebuffer[y, x] == Shown(Now(), x, y)
    {
      hide Shown, Tracked, Sensible, WindowList.Valid, WindowList.Windows, Rendered, FrontOpaque, Layers, Covering, AfterBatches;
      Frame();
    }

    lemma ShowsFront(s0: Scene, batches: seq<seq<Event>>)
      requires Shape() && Now() == AfterBatches(s0, batches)
      requires forall x, y | OnScreen(x, y) && OpaqueSoFar(s0, batches, |batches| + 1, x, y) :: framebuffer[y, x] == Shown(Now(), x, y)
      ensures forall x, y | OnScreen(x, y) && OpaqueSoFar(s0, batches, |batches| + 1, x, y) ::
                framebuffer[y, x] == Shown(Now(), x, y) == Visible(Layers(Now()), Backdrop(x, y), x, y)
      ensures OpaqueScene(s0) && OpaqueEvents(batches) ==> forall x, y | OnScreen(x, y) ::
                  framebuffer[y, x] == Shown(Now(), x, y) == Visible(Layers(Now()), Backdrop(x, y), x, y)
    {
      hide Shown, Visible, Layers, FrontOpaque, OpaqueScene, OpaqueEvents, AfterBatches, WindowList.Windows, OpaqueSoFar, Backdrop;
      forall x, y | OnScreen(x, y)
        ensures OpaqueSoFar(s0, batches, |batches| + 1, x, y) ==> Shown(Now(), x, y) == Visible(Layers(Now()), Backdrop(x, y), x, y)
        ensures OpaqueScene(s0) && OpaqueEvents(batches) ==> OpaqueSoFar(s0, batches, |batches| + 1, x, y)
      {
        if OpaqueSoFar(s0, batches, |batches| + 1, x, y) {
          OpaqueLast(s0, batches, x, y);
          ShownVisible(Now(), x, y);
        }
        if OpaqueScene(s0) && OpaqueEvents(batches) {
          OpaqueAlways(s0, batches, x, y);
        }
      }
    }

    lemma AllDamaged()
      requires Shape() && Damage() == Added([], FullUpdate(width, height), width, height)
      ensures AllBounded(Damage(), width, height) && forall x, y :: CurrentAt(x, y)
    {
      hide Shown;
      forall x, y | OnScreen(x, y)
        ensures Damaged(Damage(), x, y)
      {
        assert Covers(Damage()[0], x, y);
      }
    }
  }
}
