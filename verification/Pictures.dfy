/** What the layers of a scene come to in numbers: the channels of a blended pixel, the pattern of
    the background, the frame round a window, the status bar, and what a client sees of its buffer. */
module Pictures {
  import opened Common
  import opened Scenes
  import opened Compositor

  // ----- Blending -----

  const BLUE := 1
  const GREEN := 0x100
  const RED := 0x1_0000

  function Channel(pixel: Pixel, place: nat): nat
    requires place > 0
  {
    pixel / place % 0x100
  }

  // A mixed channel lies between the two, alpha 255ths of the way, rounded down.
  ghost predicate Mixed(a: nat, b: nat, alpha: nat, c: int) {
    && 255 * c <= a * (255 - alpha) + b * alpha < 255 * c + 255
    && (a <= c <= b || b <= c <= a)
  }

  lemma MixesBetween(a: nat, b: nat, alpha: nat)
    requires a < 0x100 && b < 0x100 && alpha <= 255
    ensures Mixed(a, b, alpha, MixChannel(a, b, alpha)) && 0 <= MixChannel(a, b, alpha) < 0x100
    ensures alpha == 255 ==> MixChannel(a, b, alpha) == b
  {
    hide Mixed, MixChannel;
    MixIs(a, b, alpha);
    MixBounds(a, b, alpha, a * alpha, b * alpha, MixChannel(a, b, alpha));
  }

  lemma MixBounds(a: nat, b: nat, alpha: nat, x: nat, y: nat, c: int)
    requires alpha <= 255 && x == a * alpha && y == b * alpha && c == (255 * a - x + y) / 255
    ensures Mixed(a, b, alpha, c) && (alpha == 255 ==> c == b)
    ensures a <= c <= b || b <= c <= a
  {
    Products(a, b, alpha);
    Products(b, a, alpha);
    Ratio(a, b, x, y);
  }

  lemma MixIs(a: nat, b: nat, alpha: nat)
    requires alpha <= 255
    ensures MixChannel(a, b, alpha) == (255 * a - a * alpha + b * alpha) / 255
  {
    Products(a, a, alpha);
  }

  lemma Products(a: nat, b: nat, alpha: nat)
    requires alpha <= 255
    ensures a * (255 - alpha) == 255 * a - a * alpha
    ensures a <= b ==> 0 <= b * alpha - a * alpha <= 255 * (b - a)
    ensures alpha == 255 ==> b * alpha == 255 * b
  {
    if a <= b {
      MulMono(a, b, alpha);
      assert (b - a) * alpha == b * alpha - a * alpha;
      assert (b - a) * (255 - alpha) >= 0;
      assert (b - a) * (255 - alpha) == 255 * (b - a) - (b - a) * alpha;
    }
  }

  lemma Ratio(a: nat, b: nat, x: nat, y: nat)
    requires a <= b ==> 0 <= y - x <= 255 * (b - a)
    requires b <= a ==> 0 <= x - y <= 255 * (a - b)
    ensures var c := (255 * a - x + y) / 255;
            && 255 * c <= 255 * a - x + y < 255 * c + 255
            && (a <= c <= b || b <= c <= a)
  {
  }

  lemma ThreeChannels(red: nat, green: nat, blue: nat)
    requires red < 0x100 && green < 0x100 && blue < 0x100
    ensures var p := red * 0x1_0000 + green * 0x100 + blue;
            && Channel(p, RED) == red && Channel(p, GREEN) == green && Channel(p, BLUE) == blue
            && 0 <= p < OPAQUE
  {
  }

  lemma PixelChannels(p: Pixel)
    requires 0 <= p
    ensures p % OPAQUE == Channel(p, RED) * 0x1_0000 + Channel(p, GREEN) * 0x100 + Channel(p, BLUE)
  {
    var a, b, c := p / 0x100, p / 0x1_0000, p / OPAQUE;
    assert b == a / 0x100;
    assert c == b / 0x100;
    assert p == 0x100 * a + p % 0x100;
    assert a == 0x100 * b + a % 0x100;
    assert b == 0x100 * c + b % 0x100;
    assert p == OPAQUE * c + p % OPAQUE;
  }

  // Drawing a pixel: alpha 0 leaves the pixel itself, alpha 0xff its 24 bits of colour, and any
  // other alpha a colour whose three channels are mixed each on its own.
  lemma {:induction false} Blends(under: Pixel, pixel: Pixel)
    requires 0 <= pixel < 0x1_0000_0000
    ensures var alpha, d := pixel / OPAQUE, Draw(under, pixel);
            && (alpha == 0 ==> d == pixel)
            && (alpha == 0xff ==> d == pixel - 0xff * OPAQUE)
            && (alpha > 0 ==> 0 <= d < OPAQUE
                              && Mixed(Channel(under, RED), Channel(pixel, RED), alpha, Channel(d, RED))
                              && Mixed(Channel(under, GREEN), Channel(pixel, GREEN), alpha, Channel(d, GREEN))
                              && Mixed(Channel(under, BLUE), Channel(pixel, BLUE), alpha, Channel(d, BLUE)))
  {
    var alpha := pixel / OPAQUE;
    assert alpha % 0x100 == alpha;
    if alpha > 0 {
      hide Mixed, MixChannel;
      MixesBetween(Channel(under, RED), Channel(pixel, RED), alpha);
      MixesBetween(Channel(under, GREEN), Channel(pixel, GREEN), alpha);
      MixesBetween(Channel(under, BLUE), Channel(pixel, BLUE), alpha);
      var red, green := MixChannel(Channel(under, RED), Channel(pixel, RED), alpha),
                        MixChannel(Channel(under, GREEN), Channel(pixel, GREEN), alpha);
      var blue := MixChannel(Channel(under, BLUE), Channel(pixel, BLUE), alpha);
      DrawParts(under, pixel);
      hide Draw, Channel;
      ThreeChannels(red, green, blue);
      PixelChannels(pixel);
    }
  }

  lemma DrawParts(under: Pixel, pixel: Pixel)
    requires 0 < pixel / OPAQUE < 0x100
    ensures var alpha := pixel / OPAQUE;
            Draw(under, pixel) == MixChannel(Channel(under, RED), Channel(pixel, RED), alpha) * 0x1_0000
            + MixChannel(Channel(under, GREEN), Channel(pixel, GREEN), alpha) * 0x100
            + MixChannel(Channel(under, BLUE), Channel(pixel, BLUE), alpha)
  {
    hide MixChannel;
    assert pixel / OPAQUE % 0x100 == pixel / OPAQUE;
    assert under / BLUE == under && pixel / BLUE == pixel;
  }

  // ----- The background -----

  function BitOf(a: nat, k: nat): bool {
    if k == 0 then a % 2 == 1 else BitOf(a / 2, k - 1)
  }

  lemma {:induction false} OrBit(a: nat, b: nat, k: nat)
    ensures BitOf(Or(a, b), k) == (BitOf(a, k) || BitOf(b, k))
    decreases k
  {
    OrHalf(a, b);
    hide Or;
    if k > 0 {
      OrBit(a / 2, b / 2, k - 1);
    }
  }

  lemma Halves(bit: nat, v: nat)
    requires bit < 2
    ensures (bit + 2 * v) % 2 == bit && (bit + 2 * v) / 2 == v
  {
  }

  lemma OddSum(a: nat, b: nat)
    ensures (a + b) % 2 == 1 <==> a % 2 != b % 2
  {
  }

  lemma OrHalf(a: nat, b: nat)
    ensures (Or(a, b) % 2 == 1 <==> a % 2 == 1 || b % 2 == 1) && Or(a, b) / 2 == Or(a / 2, b / 2)
  {
    if a == 0 && b == 0 {
      assert Or(0, 0) == 0;
    } else {
      Halves(if a % 2 == 1 || b % 2 == 1 then 1 else 0, Or(a / 2, b / 2));
    }
  }

  lemma XorStep(a: nat, b: nat)
    ensures Xor(a, b) == (a + b) % 2 + 2 * Xor(a / 2, b / 2)
  {
    if a == 0 && b == 0 {
      assert Xor(0, 0) == 0;
    }
  }

  lemma XorHalf(a: nat, b: nat)
    ensures (Xor(a, b) % 2 == 1 <==> a % 2 != b % 2) && Xor(a, b) / 2 == Xor(a / 2, b / 2)
  {
    XorStep(a, b);
    hide Xor;
    OddSum(a, b);
    Halves((a + b) % 2, Xor(a / 2, b / 2));
  }

  lemma {:induction false} XorBit(a: nat, b: nat, k: nat)
    ensures BitOf(Xor(a, b), k) == (BitOf(a, k) != BitOf(b, k))
    decreases k
  {
    XorHalf(a, b);
    hide Xor;
    if k > 0 {
      XorBit(a / 2, b / 2, k - 1);
    }
  }

  lemma {:induction false} ShiftedBit(a: nat, m: nat, k: nat)
    ensures BitOf(a * Pow2(m), k) == (k >= m && BitOf(a, k - m))
  {
    if m > 0 {
      assert a * Pow2(m) == 2 * (a * Pow2(m - 1));
      if k > 0 {
        ShiftedBit(a, m - 1, k - 1);
      }
    } else {
      assert a * Pow2(m) == a;
    }
  }

  // The pattern: an 8-bit number in the low bits, and again from bit 9 on, and without its lowest
  // bit from bit 16 on.
  lemma {:induction false} BackdropBits(x: nat, y: nat, k: nat)
    ensures var thing := (Xor(x, y) / 4 + 0xa0) % 0x100;
            BitOf(Backdrop(x, y), k) == (BitOf(thing, k) || (k >= 9 && BitOf(thing, k - 9)) || (k >= 16 && BitOf(thing, k - 15)))
  {
    hide Or, Xor, Pow2;
    var thing := (Xor(x, y) / 4 + 0xa0) % 0x100;
    Powers();
    ShiftedBit(thing / 2, 16, k);
    ShiftedBit(thing, 9, k);
    OrBit(thing / 2 * 0x1_0000, thing * 0x200, k);
    OrBit(Or(thing / 2 * 0x1_0000, thing * 0x200), thing, k);
  }

  lemma Powers()
    ensures Pow2(9) == 0x200 && Pow2(16) == 0x1_0000
  {
    assert Pow2(4) == 16 && Pow2(8) == 256 && Pow2(12) == 4096;
  }

  // ----- Frames and the status bar -----

  lemma VisibleOver(ls: seq<Layer>, l: Layer, behind: Pixel, x: int, y: int)
    ensures Visible(ls + [l], behind, x, y)
         == if LayerPixel(l, x, y).Some? then LayerPixel(l, x, y).value else Visible(ls, behind, x, y)
  {
    assert (ls + [l])[..|ls|] == ls;
  }

  // A window is its contents in a frame without gaps: 3 points to the sides and below, 25 above,
  // with a bright bar in the title.
  lemma {:induction false} FrameShows(w: Window, behind: Pixel, x: int, y: int)
    ensures var c, wd, h, shown := w.rect.coord, w.rect.width, w.rect.height, Visible(WindowLayers(w), behind, x, y);
            if c.x <= x < c.x + wd && c.y <= y < c.y + h then shown == ContentPixel(w, x, y)
            else if c.x + 2 <= x < c.x + 2 + wd / 4 && c.y - 20 <= y < c.y - 5 then shown == 0xc0c0c0
            else if c.x - 3 <= x < c.x + wd + 3 && c.y - 25 <= y < c.y + h + 3 then shown == 0x202020
            else shown == behind
  {
    var d := Decorations(w);
    var l0 := [Content(w)];
    VisibleOver([], Content(w), behind, x, y);
    VisibleOver(l0, d[0], behind, x, y);
    VisibleOver(l0 + [d[0]], d[1], behind, x, y);
    VisibleOver(l0 + [d[0]] + [d[1]], d[2], behind, x, y);
    VisibleOver(l0 + [d[0]] + [d[1]] + [d[2]], d[3], behind, x, y);
    VisibleOver(l0 + [d[0]] + [d[1]] + [d[2]] + [d[3]], d[4], behind, x, y);
    assert [] + [Content(w)] == l0;
    assert l0 + [d[0]] + [d[1]] + [d[2]] + [d[3]] + [d[4]] == WindowLayers(w);
    hide ContentPixel;
  }

  // The bar at the foot of the screen, 25 points high, with three boxes in it.
  lemma {:induction false} StatusShows(width: nat, height: nat, behind: Pixel, x: nat, y: int)
    requires x < width
    ensures var shown, boxes := Visible(StatusBar(width, height), behind, x, y), height - 20 <= y < height - 5;
            if boxes && (width - 65 <= x < width - 5 || 25 <= x < 85) then shown == 0x808080
            else if boxes && 5 <= x < 20 then shown == 0x202020
            else if height - 25 <= y < height then shown == 0xc0c0c0
            else shown == behind
  {
    var d := StatusBar(width, height);
    VisibleOver([], d[0], behind, x, y);
    VisibleOver([d[0]], d[1], behind, x, y);
    VisibleOver([d[0]] + [d[1]], d[2], behind, x, y);
    VisibleOver([d[0]] + [d[1]] + [d[2]], d[3], behind, x, y);
    assert [] + [d[0]] == [d[0]];
    assert [d[0]] + [d[1]] + [d[2]] + [d[3]] == d;
  }

  // ----- What is recorded as changed is just that -----

  lemma {:induction false} RegionIsFrame(width: nat, height: nat, w: Window, x: nat, y: nat)
    requires Placed(width, height, w.rect.coord) && x < width && y < height
    ensures var c := w.rect.coord;
            Covers(WindowRegion(width, height, w), x, y) <==>
            c.x - 3 <= x < c.x + w.rect.width + 3 && c.y - 25 <= y < c.y + w.rect.height + 3
  {
  }

  // The two corners may be given in either order; the one higher up, or further left in the same
  // row, is the lower one.
  lemma RegionEitherWay(width: nat, height: nat, a: Point, b: Point)
    ensures Region(width, height, a, b) == Region(width, height, b, a)
    ensures a.y < b.y || (a.y == b.y && a.x <= b.x) ==> Region(width, height, a, b).lower == Normalized(width, height, a)
  {
  }

  lemma {:induction false} RegionIsCursor(width: nat, height: nat, mouse: Point, c: Cursor, x: nat, y: nat)
    requires Placed(width, height, mouse) && x < width && y < height
    ensures Covers(MouseRegion(width, height, mouse, c), x, y) <==>
            mouse.x <= x < mouse.x + c.width && mouse.y <= y < mouse.y + c.height
  {
  }

  // ----- What a client sees of its buffer -----

  // Neither the window nor its frame is at the point.
  predicate Outside(w: Window, x: int, y: int) {
    var c := w.rect.coord;
    x < c.x - 3 || x >= c.x + w.rect.width + 3 || y < c.y - 25 || y >= c.y + w.rect.height + 3
  }

  lemma OutsideClear(w: Window, x: int, y: int)
    requires Outside(w, x, y)
    ensures Clear(WindowLayers(w), x, y)
  {
  }

  lemma ClearAppend(a: seq<Layer>, b: seq<Layer>, x: int, y: int)
    requires Clear(a, x, y) && Clear(b, x, y)
    ensures Clear(a + b, x, y)
  {
    hide LayerPixel;
  }

  lemma {:induction false} OutsideAll(ws: seq<Window>, x: int, y: int)
    requires forall j | 0 <= j < |ws| :: Outside(ws[j], x, y)
    ensures Clear(AllWindowLayers(ws), x, y)
  {
    hide Outside, WindowLayers, Clear;
    if ws == [] {
      assert Clear([], x, y) by { ClearNone(x, y); }
    } else {
      OutsideAll(ws[..|ws| - 1], x, y);
      OutsideClear(ws[|ws| - 1], x, y);
      ClearAppend(AllWindowLayers(ws[..|ws| - 1]), WindowLayers(ws[|ws| - 1]), x, y);
    }
  }

  lemma ClearNone(x: int, y: int)
    ensures Clear([], x, y)
  {
  }

  // A layer with nothing in front of it is what is seen.
  lemma {:induction false} VisibleInFront(a: seq<Layer>, l: Layer, b: seq<Layer>, behind: Pixel, x: int, y: int)
    requires LayerPixel(l, x, y).Some? && 0 <= LayerPixel(l, x, y).value < OPAQUE && Clear(b, x, y)
    ensures Visible(a + [l] + b, behind, x, y) == LayerPixel(l, x, y).value && FrontOpaque(a + [l] + b, x, y)
    decreases |b|
  {
    hide LayerPixel;
    if b == [] {
      assert a + [l] + b == a + [l];
    } else {
      assert (a + [l] + b)[..|a + [l] + b| - 1] == a + [l] + b[..|b| - 1];
      VisibleInFront(a, l, b[..|b| - 1], behind, x, y);
    }
  }

  // Everything in front of window k's contents
  ghost function InFront(s: Scene, k: nat): seq<Layer>
    requires k < |s.windows|
  {
    Decorations(s.windows[k]) + AllWindowLayers(s.windows[k + 1..]) + StatusBar(s.width, s.height) + [Pointer(s.cursor, s.mouse)]
  }

  lemma {:induction false} LayersAround(s: Scene, k: nat)
    requires k < |s.windows|
    ensures Layers(s) == AllWindowLayers(s.windows[..k]) + [Content(s.windows[k])] + InFront(s, k)
  {
    var a, w, b := s.windows[..k], s.windows[k], s.windows[k + 1..];
    assert s.windows == a + [w] + b;
    assert [w][..0] == [];
    AllWindowLayersAppend(a + [w], b);
    AllWindowLayersAppend(a, [w]);
    hide Decorations, StatusBar;
  }

  // Nothing covers window k's contents at the point: no window in front, nor its frame, nor the
  // status bar, nor the cursor.
  ghost predicate Bare(s: Scene, k: nat, x: int, y: int)
    requires k < |s.windows|
  {
    && Inside(s.windows[k].rect, x, y) && (forall j | k < j < |s.windows| :: Outside(s.windows[j], x, y))
    && y < s.height - 25 && !Inside(Rect(s.mouse, s.cursor.height, s.cursor.width), x, y)
  }

  lemma {:induction false} BareClear(s: Scene, k: nat, x: int, y: int)
    requires k < |s.windows| && Bare(s, k, x, y)
    ensures Clear(InFront(s, k), x, y)
  {
    var d, r := Decorations(s.windows[k]), AllWindowLayers(s.windows[k + 1..]);
    var b, p := StatusBar(s.width, s.height), [Pointer(s.cursor, s.mouse)];
    assert Clear(d, x, y) && Clear(b, x, y) && Clear(p, x, y);
    hide Clear, Outside, Decorations, StatusBar;
    OutsideAll(s.windows[k + 1..], x, y);
    ClearAppend(d, r, x, y);
    ClearAppend(d + r, b, x, y);
    ClearAppend(d + r + b, p, x, y);
  }

  // After a client's update, the point dx to the right and dy down in its window shows its number
  // dy * width + dx, where nothing is in front.
  lemma {:induction false} ClientShows(s: Scene, id: Pixel, contents: nat -> Pixel, k: nat, dx: nat, dy: nat, x: nat, y: nat)
    requires k < |s.windows| && s.windows[k].color == id && s.windows[k].hasBuffer
    requires forall j | 0 <= j < k :: s.windows[j].color != id
    requires Point(x, y) == Point(s.windows[k].rect.coord.x + dx, s.windows[k].rect.coord.y + dy)
    requires Bare(s, k, x, y) && 0 <= contents(dy * s.windows[k].rect.width + dx) < OPAQUE
    ensures Shown(After(s, ClientUpdate(id, contents)), x, y) == contents(dy * s.windows[k].rect.width + dx)
  {
    var t, r := After(s, ClientUpdate(id, contents)), s.windows[k].rect;
    FirstClient(s.windows, id, k, 0);
    var w := t.windows[k];
    assert w == s.windows[k].(pixels := Pixels(r.width * r.height, contents));
    RowMajor(dx, dy, r.width, r.height);
    assert ContentPixel(w, x, y) == contents(dy * r.width + dx);
    assert Bare(t, k, x, y);
    hide After, Bare, Pixels, ContentPixel, Layers, InFront, AllWindowLayers, Shown, Backdrop, Clear, FrontOpaque;
    BareClear(t, k, x, y);
    LayersAround(t, k);
    VisibleInFront(AllWindowLayers(t.windows[..k]), Content(w), InFront(t, k), Backdrop(x, y), x, y);
    ShownVisible(t, x, y);
  }

  // A window asked for is at the upper left corner of the screen, in front of all others.
  lemma {:induction false} NewShows(s: Scene, id: Pixel, contents: nat -> Pixel, width: nat, height: nat, x: nat, y: nat)
    requires x < width && y < height && y < s.height - 25 && 0 <= contents(y * width + x) < OPAQUE
    requires !Inside(Rect(s.mouse, s.cursor.height, s.cursor.width), x, y)
    ensures Shown(After(s, NewWindow(width, height, id, contents)), x, y) == contents(y * width + x)
  {
    var t, k := After(s, NewWindow(width, height, id, contents)), |s.windows|;
    var w := t.windows[k];
    RowMajor(x, y, width, height);
    assert ContentPixel(w, x, y) == contents(y * width + x);
    assert Bare(t, k, x, y);
    hide After, Bare, Pixels, ContentPixel, Layers, InFront, AllWindowLayers, Shown, Backdrop, Clear, FrontOpaque;
    BareClear(t, k, x, y);
    LayersAround(t, k);
    VisibleInFront(AllWindowLayers(t.windows[..k]), Content(w), InFront(t, k), Backdrop(x, y), x, y);
    ShownVisible(t, x, y);
  }

  // The cursor is in front of everything, and its pure green points are not there at all.
  lemma {:induction false} CursorShows(s: Scene, dx: nat, dy: nat, x: nat, y: nat)
    requires CursorWellFormed(s.cursor) && dx < s.cursor.width && dy < s.cursor.height
    requires Point(x, y) == Point(s.mouse.x + dx, s.mouse.y + dy)
    ensures dy * s.cursor.width + dx < |s.cursor.pixels|
    ensures var p := s.cursor.pixels[dy * s.cursor.width + dx];
            Shown(s, x, y) == if p == 0x00ff00 then Shown(s.(cursor := Cursor(0, 0, [])), x, y) else p
  {
    RowMajor(dx, dy, s.cursor.width, s.cursor.height);
    var i := dy * s.cursor.width + dx;
    var p := s.cursor.pixels[i];
    assert CursorPixel(s.cursor, dx, dy) == p;
    ShownOver(s, x, y);
    ShownOver(s.(cursor := Cursor(0, 0, [])), x, y);
    var under := Painted(WindowsShown(s.windows, Backdrop(x, y), x, y), StatusBar(s.width, s.height), 1, x, y);
    hide Shown, Backdrop, StatusBar, WindowsShown, Painted, Draw;
    DrawOpaque(under, p, 1);
  }

  lemma RowMajor(dx: nat, dy: nat, width: nat, height: nat)
    requires dx < width && dy < height
    ensures dy * width + dx < width * height
  {
    MulMono(dy + 1, height, width);
    assert (dy + 1) * width == dy * width + width;
  }

  lemma {:induction false} FirstClient(ws: seq<Window>, id: Pixel, k: nat, from: nat)
    requires from <= k < |ws| && ws[k].color == id && forall j | 0 <= j < k :: ws[j].color != id
    ensures Client(ws, id, from) == Some(k)
    decreases k - from
  {
    if from < k {
      FirstClient(ws, id, k, from + 1);
    }
  }
}
