/** What the stubbywm window manager shows: layers of rectangles, window contents and the cursor,
    painted back to front, and the part of the screen that each kind of change can affect. */
module Scenes {
  import opened Common

  datatype Point = Point(x: int, y: int)

  datatype Rect = Rect(coord: Point, height: nat, width: nat)

  // Covers from lower up to but not including upper.
  datatype Update = Update(lower: Point, upper: Point)

  // 32 bits: alpha, red, green, blue; alpha 0 is opaque.
  type Pixel = int

  datatype Window = Window(rect: Rect, pixels: seq<Pixel>, color: Pixel, hasBuffer: bool)

  datatype Cursor = Cursor(width: nat, height: nat, pixels: seq<Pixel>)

  datatype Scene = Scene(width: nat, height: nat, windows: seq<Window>, mouse: Point, cursor: Cursor)

  const BORDER_SIZE := 3
  const TITLEBAR_SIZE := 25
  const WINDOW_COLOR := 0x202020
  const OPAQUE := 0x100_0000
  const TRANSPARENT_GREEN := 0x00ff00

  // ----- Pixels -----

  function MixChannel(a: nat, b: nat, alpha: nat): int
    requires alpha <= 255
  {
    (a * (255 - alpha) + b * alpha) / 255
  }

  // What drawing a pixel over another leaves.
  function Draw(under: Pixel, pixel: Pixel): Pixel {
    var alpha := pixel / OPAQUE % 0x100;
    if alpha == 0 then pixel
    else
      MixChannel(under / 0x1_0000 % 0x100, pixel / 0x1_0000 % 0x100, alpha) * 0x1_0000
      + MixChannel(under / 0x100 % 0x100, pixel / 0x100 % 0x100, alpha) * 0x100
      + MixChannel(under % 0x100, pixel % 0x100, alpha)
  }

  function DrawTimes(under: Pixel, pixel: Pixel, n: nat): Pixel {
    if n == 0 then under else Draw(DrawTimes(under, pixel, n - 1), pixel)
  }

  function Xor(a: nat, b: nat): nat {
    if a == 0 && b == 0 then 0 else (a + b) % 2 + 2 * Xor(a / 2, b / 2)
  }

  function Or(a: nat, b: nat): (r: nat)
    ensures r <= a + b
  {
    if a == 0 && b == 0 then 0 else (if a % 2 == 1 || b % 2 == 1 then 1 else 0) + 2 * Or(a / 2, b / 2)
  }

  function Backdrop(x: nat, y: nat): (pixel: Pixel)
    ensures 0 <= pixel < OPAQUE
  {
    var thing := (Xor(x, y) / 4 + 0xa0) % 0x100;
    Or(Or(thing / 2 * 0x1_0000, thing * 0x200), thing)
  }

  // ----- Layers -----

  datatype Layer = Fill(rect: Rect, color: Pixel) | Content(window: Window) | Pointer(cursor: Cursor, at: Point)

  predicate Inside(r: Rect, x: int, y: int) {
    r.coord.x <= x < r.coord.x + r.width && r.coord.y <= y < r.coord.y + r.height
  }

  predicate WellFormed(w: Window) {
    w.hasBuffer ==> |w.pixels| == w.rect.width * w.rect.height
  }

  predicate CursorWellFormed(c: Cursor) {
    |c.pixels| == c.width * c.height && forall i | 0 <= i < |c.pixels| :: 0 <= c.pixels[i] < OPAQUE
  }

  // What the window has at a point inside it.
  function ContentPixel(w: Window, x: int, y: int): Pixel {
    if w.hasBuffer then
      var i := (y - w.rect.coord.y) * w.rect.width + (x - w.rect.coord.x);
      if 0 <= i < |w.pixels| then w.pixels[i] else 0
    else w.color
  }

  function CursorPixel(c: Cursor, dx: int, dy: int): Pixel {
    var i := dy * c.width + dx;
    if 0 <= i < |c.pixels| then c.pixels[i] else 0
  }

  // What a layer has at a point, if it covers it.
  function LayerPixel(l: Layer, x: int, y: int): Option<Pixel> {
    match l
    case Fill(rect, color) => if Inside(rect, x, y) then Some(color) else None
    case Content(w) => if Inside(w.rect, x, y) then Some(ContentPixel(w, x, y)) else None
    case Pointer(c, at) =>
      if Inside(Rect(at, c.height, c.width), x, y) && CursorPixel(c, x - at.x, y - at.y) != TRANSPARENT_GREEN
      then Some(CursorPixel(c, x - at.x, y - at.y)) else None
  }

  function Decorations(w: Window): seq<Layer> {
    var c, h, wd := w.rect.coord, w.rect.height, w.rect.width;
    [ Fill(Rect(Point(c.x - BORDER_SIZE, c.y - TITLEBAR_SIZE), TITLEBAR_SIZE, wd + BORDER_SIZE * 2), WINDOW_COLOR),
      Fill(Rect(Point(c.x + 5 - BORDER_SIZE, c.y - 20), 15, wd / 4), 0xc0c0c0),
      Fill(Rect(Point(c.x - BORDER_SIZE, c.y), h + BORDER_SIZE, BORDER_SIZE), WINDOW_COLOR),
      Fill(Rect(Point(c.x + wd, c.y), h + BORDER_SIZE, BORDER_SIZE), WINDOW_COLOR),
      Fill(Rect(Point(c.x, c.y + h), BORDER_SIZE, wd), WINDOW_COLOR) ]
  }

  function WindowLayers(w: Window): seq<Layer> {
    [Content(w)] + Decorations(w)
  }

  function AllWindowLayers(ws: seq<Window>): seq<Layer> {
    if ws == [] then [] else AllWindowLayers(ws[..|ws| - 1]) + WindowLayers(ws[|ws| - 1])
  }

  function StatusBar(width: nat, height: nat): seq<Layer> {
    [ Fill(Rect(Point(0, height - 25), 25, width), 0xc0c0c0),
      Fill(Rect(Point(5, height - 20), 15, 15), 0x202020),
      Fill(Rect(Point(25, height - 20), 15, 60), 0x808080),
      Fill(Rect(Point(width - 65, height - 20), 15, 60), 0x808080) ]
  }

  // Back to front.
  function Layers(s: Scene): seq<Layer> {
    AllWindowLayers(s.windows) + StatusBar(s.width, s.height) + [Pointer(s.cursor, s.mouse)]
  }

  // ----- Painting back to front, the window contents n times over -----

  function Paint(v: Pixel, l: Layer, n: nat, x: int, y: int): Pixel {
    match LayerPixel(l, x, y)
    case None => v
    case Some(c) => DrawTimes(v, c, if l.Content? then n else 1)
  }

  function Painted(v: Pixel, ls: seq<Layer>, n: nat, x: int, y: int): Pixel {
    if ls == [] then v else Paint(Painted(v, ls[..|ls| - 1], n, x, y), ls[|ls| - 1], n, x, y)
  }

  // What a frame leaves at a point that n updates cover.
  function Rendered(v: Pixel, s: Scene, n: nat, x: nat, y: nat): Pixel {
    Painted(if n == 0 then v else Backdrop(x, y), Layers(s), n, x, y)
  }

  // ----- Looking front to back: the reference -----

  function Visible(ls: seq<Layer>, behind: Pixel, x: int, y: int): Pixel {
    if ls == [] then behind
    else match LayerPixel(ls[|ls| - 1], x, y)
         case Some(c) => c
         case None => Visible(ls[..|ls| - 1], behind, x, y)
  }

  // The pixel that a repaint of the whole scene, by one update of the whole screen, shows.
  function Shown(s: Scene, x: nat, y: nat): Pixel {
    Rendered(0, s, 1, x, y)
  }

  // ----- Updates -----

  predicate Covers(u: Update, x: int, y: int) {
    u.lower.x <= x < u.upper.x && u.lower.y <= y < u.upper.y
  }

  function Covering(us: seq<Update>, x: int, y: int): nat {
    if us == [] then 0
    else Covering(us[..|us| - 1], x, y) + if Covers(us[|us| - 1], x, y) then 1 else 0
  }

  predicate Damaged(us: seq<Update>, x: int, y: int) {
    exists k :: 0 <= k < |us| && Covers(us[k], x, y)
  }

  // normalize_point
  function Normalized(width: nat, height: nat, p: Point): Point {
    var x := if p.x < 0 then 0 else p.x;
    var y := if p.y < 0 then 0 else p.y;
    Point(if x > width then width else x, if y > height then height else y)
  }

  // update_region
  function Region(width: nat, height: nat, a: Point, b: Point): Update {
    var ordered := a.y < b.y || (a.y == b.y && a.x < b.x);
    Update(Normalized(width, height, if ordered then a else b), Normalized(width, height, if ordered then b else a))
  }

  function MaxCoord(width: nat, height: nat, r: Rect): Point {
    Normalized(width, height, Point(r.coord.x + r.width, r.coord.y + r.height))
  }

  // update_window_region
  function WindowRegion(width: nat, height: nat, w: Window): Update {
    var a, b := w.rect.coord, MaxCoord(width, height, w.rect);
    Region(width, height, Normalized(width, height, Point(a.x - BORDER_SIZE, a.y - TITLEBAR_SIZE)),
           Normalized(width, height, Point(b.x + BORDER_SIZE, b.y + BORDER_SIZE)))
  }

  // update_mouse_region
  function MouseRegion(width: nat, height: nat, mouse: Point, c: Cursor): Update {
    Region(width, height, mouse, Point(mouse.x + c.width, mouse.y + c.height))
  }

  lemma {:induction false} CoveringDamaged(us: seq<Update>, x: int, y: int)
    ensures Covering(us, x, y) > 0 <==> Damaged(us, x, y)
  {
    if us != [] {
      var init, k := us[..|us| - 1], |us| - 1;
      CoveringDamaged(init, x, y);
      if Damaged(init, x, y) {
        var j :| 0 <= j < |init| && Covers(init[j], x, y);
        assert Covers(us[j], x, y);
      }
      if Damaged(us, x, y) && !Covers(us[k], x, y) {
        var j :| 0 <= j < |us| && Covers(us[j], x, y);
        assert Covers(init[j], x, y);
      }
    }
  }

  // ----- Back to front and front to back agree -----

  predicate OpaqueWindow(w: Window) {
    if w.hasBuffer then forall i | 0 <= i < |w.pixels| :: 0 <= w.pixels[i] < OPAQUE else 0 <= w.color < OPAQUE
  }

  predicate OpaqueLayer(l: Layer) {
    match l
    case Fill(_, color) => 0 <= color < OPAQUE
    case Content(w) => OpaqueWindow(w)
    case Pointer(c, _) => CursorWellFormed(c)
  }

  lemma DrawOpaque(under: Pixel, pixel: Pixel, n: nat)
    requires 0 <= pixel < OPAQUE && n > 0
    ensures DrawTimes(under, pixel, n) == pixel && Draw(under, pixel) == pixel
  {
    assert pixel / OPAQUE == 0;
  }

  lemma LayerPixelOpaque(l: Layer, x: int, y: int)
    requires OpaqueLayer(l)
    ensures LayerPixel(l, x, y).Some? ==> 0 <= LayerPixel(l, x, y).value < OPAQUE
  {
  }

  // The frontmost layer that covers the point, if any does, is opaque there.
  ghost predicate FrontOpaque(ls: seq<Layer>, x: int, y: int) {
    if ls == [] then true
    else match LayerPixel(ls[|ls| - 1], x, y)
         case Some(c) => 0 <= c < OPAQUE
         case None => FrontOpaque(ls[..|ls| - 1], x, y)
  }

  // Where the frontmost layer is opaque the painter's order shows it, however often contents are
  // painted.
  lemma {:induction false} PaintedVisible(v: Pixel, ls: seq<Layer>, n: nat, x: int, y: int)
    requires n > 0 && FrontOpaque(ls, x, y)
    ensures Painted(v, ls, n, x, y) == Visible(ls, v, x, y)
  {
    hide LayerPixel, Draw, DrawTimes;
    if ls != [] {
      var l := ls[|ls| - 1];
      match LayerPixel(l, x, y)
      case Some(c) => DrawOpaque(Painted(v, ls[..|ls| - 1], n, x, y), c, if l.Content? then n else 1);
      case None => PaintedVisible(v, ls[..|ls| - 1], n, x, y);
    }
  }

  ghost predicate OpaqueScene(s: Scene) {
    CursorWellFormed(s.cursor) && forall k | 0 <= k < |s.windows| :: OpaqueWindow(s.windows[k])
  }

  lemma {:induction false} AllWindowLayersOpaque(ws: seq<Window>)
    requires forall k | 0 <= k < |ws| :: OpaqueWindow(ws[k])
    ensures forall k | 0 <= k < |AllWindowLayers(ws)| :: OpaqueLayer(AllWindowLayers(ws)[k])
  {
    if ws != [] {
      AllWindowLayersOpaque(ws[..|ws| - 1]);
      hide OpaqueWindow;
    }
  }

  lemma LayersOpaque(s: Scene)
    requires OpaqueScene(s)
    ensures forall k | 0 <= k < |Layers(s)| :: OpaqueLayer(Layers(s)[k])
  {
    AllWindowLayersOpaque(s.windows);
    hide OpaqueWindow, CursorWellFormed;
  }

  lemma {:induction false} OpaqueFront(ls: seq<Layer>, x: int, y: int)
    requires forall k | 0 <= k < |ls| :: OpaqueLayer(ls[k])
    ensures FrontOpaque(ls, x, y)
  {
    hide LayerPixel, OpaqueLayer;
    if ls != [] {
      LayerPixelOpaque(ls[|ls| - 1], x, y);
      OpaqueFront(ls[..|ls| - 1], x, y);
    }
  }

  // In an opaque scene that is so everywhere.
  lemma OpaqueEverywhere(s: Scene, x: int, y: int)
    requires OpaqueScene(s)
    ensures FrontOpaque(Layers(s), x, y)
  {
    hide Layers, OpaqueScene;
    LayersOpaque(s);
    OpaqueFront(Layers(s), x, y);
  }

  // A full repaint shows at each point the frontmost layer that covers it, if that is opaque there.
  lemma ShownVisible(s: Scene, x: nat, y: nat)
    requires FrontOpaque(Layers(s), x, y)
    ensures Shown(s, x, y) == Visible(Layers(s), Backdrop(x, y), x, y)
  {
    hide Layers, Backdrop;
    PaintedVisible(Backdrop(x, y), Layers(s), 1, x, y);
  }

  // Whatever the buffer held, a point that is painted again shows the scene: always if one update
  // covers it, and where the frontmost layer is opaque however many do ...
  lemma RenderedShown(v: Pixel, s: Scene, n: nat, x: nat, y: nat)
    requires n == 1 || (n > 0 && FrontOpaque(Layers(s), x, y))
    ensures Rendered(v, s, n, x, y) == Shown(s, x, y)
  {
    hide Layers, Backdrop, FrontOpaque;
    if FrontOpaque(Layers(s), x, y) {
      PaintedVisible(Backdrop(x, y), Layers(s), n, x, y);
      PaintedVisible(Backdrop(x, y), Layers(s), 1, x, y);
    }
  }

  // ... and where a transparent content lies in front of an opaque rest, it does so for every
  // number of updates if and only if drawing the content's pixel a second time changes nothing.
  lemma {:induction false} VeilExact(v: Pixel, s: Scene, a: seq<Layer>, w: Window, b: seq<Layer>, x: nat, y: nat)
    requires Layers(s) == a + [Content(w)] + b && Clear(b, x, y) && Inside(w.rect, x, y) && FrontOpaque(a, x, y)
    ensures var u, p := Visible(a, Backdrop(x, y), x, y), ContentPixel(w, x, y);
            (forall n: nat | n > 0 :: Rendered(v, s, n, x, y) == Shown(s, x, y)) <==> Draw(Draw(u, p), p) == Draw(u, p)
  {
    var u, p := Visible(a, Backdrop(x, y), x, y), ContentPixel(w, x, y);
    hide Layers, Backdrop, Draw, ContentPixel, Visible;
    forall n: nat | n > 0
      ensures Rendered(v, s, n, x, y) == DrawTimes(u, p, n)
    {
      VeiledTimes(Backdrop(x, y), a, w, b, n, x, y);
    }
    assert DrawTimes(u, p, 1) == Draw(DrawTimes(u, p, 0), p) == Draw(u, p);
    assert Rendered(0, s, 1, x, y) == Rendered(v, s, 1, x, y);
    hide Rendered, DrawTimes;
    if Draw(Draw(u, p), p) == Draw(u, p) {
      forall n: nat | n > 0
        ensures DrawTimes(u, p, n) == Draw(u, p)
      {
        DrawSettles(u, p, n);
      }
    } else {
      VeilDiffers(v, s, a, w, b, x, y);
    }
  }

  lemma {:induction false} VeiledTimes(v: Pixel, a: seq<Layer>, w: Window, b: seq<Layer>, n: nat, x: int, y: int)
    requires n > 0 && Clear(b, x, y) && Inside(w.rect, x, y) && FrontOpaque(a, x, y)
    ensures Painted(v, a + [Content(w)] + b, n, x, y) == DrawTimes(Visible(a, v, x, y), ContentPixel(w, x, y), n)
  {
    PaintedAppend(a + [Content(w)], b, v, n, x, y);
    PaintedClear(b, Painted(v, a + [Content(w)], n, x, y), n, x, y);
    assert (a + [Content(w)])[..|a|] == a;
    PaintedVisible(v, a, n, x, y);
    hide Draw, ContentPixel, Visible, Clear;
  }

  lemma {:induction false} DrawSettles(u: Pixel, p: Pixel, n: nat)
    requires n > 0 && Draw(Draw(u, p), p) == Draw(u, p)
    ensures DrawTimes(u, p, n) == Draw(u, p)
  {
    hide Draw;
    if n == 1 {
      assert DrawTimes(u, p, 0) == u;
    } else {
      DrawSettles(u, p, n - 1);
    }
  }

  // A scene where it changes something: one window of one half transparent blue pixel.
  const VEIL: Pixel := 0x80_0000ff

  function VeilWindow(): Window {
    Window(Rect(Point(10, 10), 1, 1), [VEIL], 0, true)
  }

  function VeilScene(): Scene {
    Scene(100, 100, [VeilWindow()], Point(0, 0), Cursor(0, 0, []))
  }

  lemma VeilLayers()
    ensures Layers(VeilScene()) ==
            [] + [Content(VeilWindow())] + (Decorations(VeilWindow()) + StatusBar(100, 100) + [Pointer(Cursor(0, 0, []), Point(0, 0))])
    ensures Clear(Decorations(VeilWindow()) + StatusBar(100, 100) + [Pointer(Cursor(0, 0, []), Point(0, 0))], 10, 10)
  {
    var ws := [VeilWindow()];
    assert ws[..0] == [] && AllWindowLayers(ws[..0]) == [];
    assert AllWindowLayers(ws) == [] + WindowLayers(VeilWindow());
  }

  lemma LowByte(red: int, green: int, blue: int)
    ensures (red * 0x1_0000 + green * 0x100 + blue) % 0x100 == blue % 0x100
  {
  }

  lemma VeilChannels()
    ensures VEIL / OPAQUE % 0x100 == 0x80 && VEIL / 0x1_0000 % 0x100 == 0 && VEIL / 0x100 % 0x100 == 0 && VEIL % 0x100 == 0xff
  {
  }

  // The blue channel of a drawn pixel
  lemma BlueOf(u: Pixel)
    ensures Draw(u, VEIL) % 0x100 == MixChannel(u % 0x100, 0xff, 0x80) % 0x100
  {
    hide MixChannel;
    VeilChannels();
    LowByte(MixChannel(u / 0x1_0000 % 0x100, 0, 0x80), MixChannel(u / 0x100 % 0x100, 0, 0x80), MixChannel(u % 0x100, 0xff, 0x80));
  }

  lemma BlueValues()
    ensures MixChannel(160, 0xff, 0x80) == 207 && MixChannel(207, 0xff, 0x80) == 231
  {
  }

  lemma OrDouble(a: nat, b: nat)
    ensures Or(2 * a, b) == b % 2 + 2 * Or(a, b / 2)
  {
    if a == 0 && b == 0 {
      assert Or(0, 0) == 0;
    }
  }

  // Or leaves the low bits of one side alone where the other has none.
  lemma OrAbove(a: nat, b: nat)
    ensures Or(4 * a, b) == b % 4 + 4 * Or(a, b / 4)
    ensures Or(0x10 * a, b) == b % 0x10 + 0x10 * Or(a, b / 0x10)
    ensures Or(0x100 * a, b) == b % 0x100 + 0x100 * Or(a, b / 0x100)
  {
    hide Or;
    OrFour(a, b);
    OrSixteen(a, b);
    OrSixteen(0x10 * a, b);
    OrSixteen(a, b / 0x10);
  }

  lemma OrFour(a: nat, b: nat)
    ensures Or(4 * a, b) == b % 4 + 4 * Or(a, b / 4)
  {
    OrDouble(2 * a, b);
    OrDouble(a, b / 2);
    hide Or;
    assert 2 * (2 * a) == 4 * a;
  }

  lemma OrSixteen(a: nat, b: nat)
    ensures Or(0x10 * a, b) == b % 0x10 + 0x10 * Or(a, b / 0x10)
  {
    OrFour(4 * a, b);
    OrFour(a, b / 4);
    hide Or;
    assert 4 * (4 * a) == 0x10 * a;
  }

  lemma {:induction false} XorSelf(n: nat)
    ensures Xor(n, n) == 0
  {
    if n > 0 {
      XorSelf(n / 2);
    }
  }

  lemma OrBytes()
    ensures Or(Or(0x50_0000, 0x1_4000), 0xa0) % 0x100 == 0xa0
  {
    hide Or;
    OrAbove(0x5000, 0x1_4000);
    OrAbove(Or(0x5000, 0x140), 0xa0);
  }

  lemma VeilBackdrop()
    ensures Backdrop(10, 10) % 0x100 == 160
  {
    hide Xor, Or;
    XorSelf(10);
    OrBytes();
  }

  lemma VeilContent()
    ensures Inside(VeilWindow().rect, 10, 10) && ContentPixel(VeilWindow(), 10, 10) == VEIL
  {
  }

  lemma CoveringTwice(up: Update, x: int, y: int)
    ensures Covers(up, x, y) ==> Covering([up, up], x, y) == 2
  {
    assert [up, up][..1] == [up] && [up][..0] == [];
    assert Covering([up], x, y) == if Covers(up, x, y) then 1 else 0;
  }

  // Two updates of the whole screen leave something else than one.
  lemma OverlapBlendsTwice(v: Pixel)
    ensures var up := Update(Point(0, 0), Point(100, 100)); Covering([up, up], 10, 10) == 2
    ensures Rendered(v, VeilScene(), 2, 10, 10) != Shown(VeilScene(), 10, 10)
  {
    CoveringTwice(Update(Point(0, 0), Point(100, 100)), 10, 10);
    hide Draw, MixChannel, Backdrop, Layers, Decorations, StatusBar, Covering, Clear, Rendered, ContentPixel, VeilScene;
    VeilLayers();
    VeilContent();
    VeilBlends();
    VeilDiffers(v, VeilScene(), [], VeilWindow(), Decorations(VeilWindow()) + StatusBar(100, 100) + [Pointer(Cursor(0, 0, []), Point(0, 0))], 10, 10);
  }

  lemma VeilBlends()
    ensures Draw(Draw(Backdrop(10, 10), VEIL), VEIL) != Draw(Backdrop(10, 10), VEIL)
  {
    hide Draw, MixChannel, Backdrop;
    var u := Backdrop(10, 10);
    BlueOf(u);
    BlueOf(Draw(u, VEIL));
    BlueValues();
    VeilBackdrop();
  }

  lemma VeilDiffers(v: Pixel, s: Scene, a: seq<Layer>, w: Window, b: seq<Layer>, x: nat, y: nat)
    requires Layers(s) == a + [Content(w)] + b && Clear(b, x, y) && Inside(w.rect, x, y) && FrontOpaque(a, x, y)
    requires var u, p := Visible(a, Backdrop(x, y), x, y), ContentPixel(w, x, y); Draw(Draw(u, p), p) != Draw(u, p)
    ensures Rendered(v, s, 2, x, y) != Shown(s, x, y)
  {
    var u, p := Visible(a, Backdrop(x, y), x, y), ContentPixel(w, x, y);
    hide Layers, Backdrop, Draw, ContentPixel, Visible;
    VeiledTimes(Backdrop(x, y), a, w, b, 1, x, y);
    VeiledTimes(Backdrop(x, y), a, w, b, 2, x, y);
    assert DrawTimes(u, p, 1) == Draw(DrawTimes(u, p, 0), p) == Draw(u, p);
    assert DrawTimes(u, p, 2) == Draw(DrawTimes(u, p, 1), p);
  }

  // ----- What lies outside a region -----

  ghost predicate Clear(ls: seq<Layer>, x: int, y: int) {
    forall k | 0 <= k < |ls| :: LayerPixel(ls[k], x, y) == None
  }

  lemma {:induction false} PaintedClear(ls: seq<Layer>, behind: Pixel, n: nat, x: int, y: int)
    requires Clear(ls, x, y)
    ensures Painted(behind, ls, n, x, y) == behind
  {
    if ls != [] {
      PaintedClear(ls[..|ls| - 1], behind, n, x, y);
    }
  }

  lemma {:induction false} PaintedAppend(a: seq<Layer>, b: seq<Layer>, behind: Pixel, n: nat, x: int, y: int)
    ensures Painted(behind, a + b, n, x, y) == Painted(Painted(behind, a, n, x, y), b, n, x, y)
    decreases |b|
  {
    if b == [] {
      assert a + b == a;
    } else {
      assert (a + b)[..|a + b| - 1] == a + b[..|b| - 1];
      PaintedAppend(a, b[..|b| - 1], behind, n, x, y);
    }
  }

  lemma {:induction false} AllWindowLayersAppend(a: seq<Window>, b: seq<Window>)
    ensures AllWindowLayers(a + b) == AllWindowLayers(a) + AllWindowLayers(b)
    decreases |b|
  {
    if b == [] {
      assert a + b == a;
    } else {
      assert (a + b)[..|a + b| - 1] == a + b[..|b| - 1];
      AllWindowLayersAppend(a, b[..|b| - 1]);
    }
  }

  // What a window manager keeps of its windows: a move cannot take one off the screen's far edges.
  predicate Placed(width: nat, height: nat, p: Point) {
    0 <= p.x <= width && 0 <= p.y <= height
  }

  // On screen, a window and its decorations lie in its region.
  lemma {:induction false} WindowInRegion(width: nat, height: nat, w: Window, x: nat, y: nat)
    requires Placed(width, height, w.rect.coord) && x < width && y < height
    requires !Covers(WindowRegion(width, height, w), x, y)
    ensures Clear(WindowLayers(w), x, y)
  {
  }

  lemma CursorInRegion(width: nat, height: nat, mouse: Point, c: Cursor, x: nat, y: nat)
    requires Placed(width, height, mouse) && x < width && y < height
    requires !Covers(MouseRegion(width, height, mouse, c), x, y)
    ensures LayerPixel(Pointer(c, mouse), x, y) == None
  {
  }

  // ----- The pixel the windows leave -----

  function WindowsShown(ws: seq<Window>, behind: Pixel, x: int, y: int): Pixel {
    Painted(behind, AllWindowLayers(ws), 1, x, y)
  }

  // Outside the region of one window, that window can be anywhere in the order or absent.
  lemma {:induction false} WithoutWindow(a: seq<Window>, w: Window, b: seq<Window>, behind: Pixel, x: int, y: int)
    requires Clear(WindowLayers(w), x, y)
    ensures WindowsShown(a + [w] + b, behind, x, y) == WindowsShown(a + b, behind, x, y)
  {
    AllWindowLayersAppend(a, b);
    AllWindowLayersAppend(a, [w]);
    AllWindowLayersAppend(a + [w], b);
    var la, lw, lb := AllWindowLayers(a), AllWindowLayers([w]), AllWindowLayers(b);
    assert lw == WindowLayers(w) by { assert [w][..0] == []; }
    hide WindowLayers, LayerPixel;
    PaintedAppend(la + lw, lb, behind, 1, x, y);
    PaintedAppend(la, lw, behind, 1, x, y);
    PaintedAppend(la, lb, behind, 1, x, y);
    PaintedClear(lw, Painted(behind, la, 1, x, y), 1, x, y);
  }

  // A scene shows the windows, then the status bar and the cursor over them.
  lemma ShownOver(s: Scene, x: nat, y: nat)
    ensures Shown(s, x, y)
         == Paint(Painted(WindowsShown(s.windows, Backdrop(x, y), x, y), StatusBar(s.width, s.height), 1, x, y),
                  Pointer(s.cursor, s.mouse), 1, x, y)
  {
    var a, b, c := AllWindowLayers(s.windows), StatusBar(s.width, s.height), [Pointer(s.cursor, s.mouse)];
    PaintedAppend(a + b, c, Backdrop(x, y), 1, x, y);
    PaintedAppend(a, b, Backdrop(x, y), 1, x, y);
    assert c[..0] == [];
    hide Paint, StatusBar, Backdrop, AllWindowLayers;
  }

  lemma SameWindowsShown(s: Scene, t: Scene, x: nat, y: nat)
    requires s.width == t.width && s.height == t.height && s.cursor == t.cursor
    requires WindowsShown(s.windows, Backdrop(x, y), x, y) == WindowsShown(t.windows, Backdrop(x, y), x, y)
    requires s.mouse == t.mouse
             || (LayerPixel(Pointer(s.cursor, s.mouse), x, y) == LayerPixel(Pointer(t.cursor, t.mouse), x, y) == None)
    ensures Shown(s, x, y) == Shown(t, x, y)
  {
    ShownOver(s, x, y);
    ShownOver(t, x, y);
    hide Backdrop, StatusBar, LayerPixel;
  }
}
