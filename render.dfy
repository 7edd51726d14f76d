/** The incremental render loop.  Each frame tick first drains the pending
    window events and stops on a window close or an Escape key press;
    otherwise, while rows remain, it draws exactly one row of the image
    (mapping, evaluating and colouring every pixel of it) and moves the
    row cursor down by one; then it presents the canvas.

    The canvas is modelled by the sequence of `draw_point` calls made on it,
    each with the colour set just before it.  Window creation, the clock and
    the pacing sleep are not part of the model. */
module Render {
  import opened Escape
  import opened Viewport
  import opened Palette

  datatype Option<T> = None | Some(value: T)

  datatype Keycode = EscapeKey | OtherKey(code: int)

  /** The window events the loop can see: a window close, a key press
      (whose key code may be unknown), and anything else. */
  datatype Event = Quit | KeyDown(keycode: Option<Keycode>) | OtherEvent

  /** The two events that end the loop; every other event is ignored. */
  predicate IsQuit(e: Event) {
    e.Quit? || (e.KeyDown? && e.keycode == Some(EscapeKey))
  }

  predicate HasQuit(events: seq<Event>) {
    exists k :: 0 <= k < |events| && IsQuit(events[k])
  }

  /** The settings of a render session: the plane region shown, the window
      size in pixels and the iteration budget of the evaluator. */
  datatype Config = Config(region: PlaneRegion, width: nat, height: nat, maxIters: I32)

  /** The window is `u32` by `u32`, and every pixel coordinate must also
      convert to `i32` for `draw_point`. */
  predicate ValidConfig(cfg: Config) {
    cfg.width <= 0x7fff_ffff && cfg.height <= 0x7fff_ffff
  }

  /** The session the program runs: [-2, 1] x [-1, 1] in an 800 x 600
      window with a budget of 1000 iterations. */
  const ProgramConfig: Config := Config(PlaneRegion(-2.0, 1.0, -1.0, 1.0), 800, 600, 1000)

  /** One `draw_point` call: the pixel and the colour it is drawn in. */
  datatype Draw = Draw(x: nat, y: nat, color: Color)

  /** The colour of pixel `(x, y)`: map it to the plane, evaluate the escape
      time there and look the value up in the colour table. */
  function PixelColor(cfg: Config, x: nat, y: nat): (c: Color)
    requires x < cfg.width && y < cfg.height
    ensures exists v :: IsEscapeTime(MapPixel(cfg.region, cfg.width, cfg.height, x, y), cfg.maxIters, v) && c == ColorOf(v)
  {
    EscapeTimeCorrect(MapPixel(cfg.region, cfg.width, cfg.height, x, y), cfg.maxIters);
    ColorOf(EscapeTime(MapPixel(cfg.region, cfg.width, cfg.height, x, y), cfg.maxIters))
  }

  /** The draws of row `y`, left to right. */
  function Row(cfg: Config, y: nat): (row: seq<Draw>)
    requires y < cfg.height
  {
    seq(cfg.width, x requires 0 <= x < cfg.width => Draw(x, y, PixelColor(cfg, x, y)))
  }

  /** The draws of the first `n` rows, top to bottom. */
  function Image(cfg: Config, n: nat): (draws: seq<Draw>)
    requires n <= cfg.height
  {
    if n == 0 then [] else Image(cfg, n - 1) + Row(cfg, n - 1)
  }

  lemma {:induction false} ImageLength(cfg: Config, n: nat)
    requires n <= cfg.height
    ensures |Image(cfg, n)| == n * cfg.width
  {
    if n > 0 {
      ImageLength(cfg, n - 1);
      assert n * cfg.width == (n - 1) * cfg.width + cfg.width;
    }
  }

  /** Every draw among the first `n` rows is of a pixel of those rows, in
      that pixel's colour, and sits at the position `y * width + x`; so no
      pixel is drawn twice. */
  lemma {:induction false} ImageEntry(cfg: Config, n: nat, k: nat)
    requires n <= cfg.height && k < |Image(cfg, n)|
    ensures Image(cfg, n)[k].x < cfg.width && Image(cfg, n)[k].y < n
    ensures k == Image(cfg, n)[k].y * cfg.width + Image(cfg, n)[k].x
    ensures Image(cfg, n)[k].color == PixelColor(cfg, Image(cfg, n)[k].x, Image(cfg, n)[k].y)
  {
    ImageLength(cfg, n - 1);
    var prefix := Image(cfg, n - 1);
    if k < |prefix| {
      ImageEntry(cfg, n - 1, k);
    } else {
      assert Image(cfg, n)[k] == Row(cfg, n - 1)[k - |prefix|];
    }
  }

  lemma MulMonotone(a: nat, b: nat, w: nat)
    requires a <= b
    ensures a * w <= b * w
  {
  }

  /** Pixel `(x, y)` of the first `n` rows is drawn, in its colour, at
      position `y * width + x`. */
  lemma {:induction false} ImageAt(cfg: Config, n: nat, x: nat, y: nat)
    requires n <= cfg.height && x < cfg.width && y < n
    ensures |Image(cfg, n)| == n * cfg.width
    ensures y * cfg.width + x < |Image(cfg, n)|
    ensures Image(cfg, n)[y * cfg.width + x] == Draw(x, y, PixelColor(cfg, x, y))
  {
    ImageLength(cfg, n);
    ImageLength(cfg, n - 1);
    MulMonotone(y, n - 1, cfg.width);
    assert n * cfg.width == (n - 1) * cfg.width + cfg.width;
    if y < n - 1 {
      ImageAt(cfg, n - 1, x, y);
    } else {
      assert Image(cfg, n)[y * cfg.width + x] == Row(cfg, n - 1)[x];
    }
  }

  /** Some draw of `log` is of pixel `(x, y)`. */
  predicate DrawsPixel(log: seq<Draw>, x: nat, y: nat) {
    exists k :: 0 <= k < |log| && log[k].x == x && log[k].y == y
  }

  /** No pixel is drawn twice in `log`. */
  predicate NoPixelTwice(log: seq<Draw>) {
    forall k, k' ::
      0 <= k < |log| && 0 <= k' < |log| && log[k].x == log[k'].x && log[k].y == log[k'].y
      ==> k == k'
  }

  lemma ImageNoPixelTwice(cfg: Config, n: nat)
    requires n <= cfg.height
    ensures NoPixelTwice(Image(cfg, n))
  {
    var img := Image(cfg, n);
    forall k, k' | 0 <= k < |img| && 0 <= k' < |img| && img[k].x == img[k'].x && img[k].y == img[k'].y
      ensures k == k'
    {
      ImageEntry(cfg, n, k);
      ImageEntry(cfg, n, k');
    }
  }

  /** The draws of the first `n` rows hit every pixel of those rows exactly
      once, each in its colour, and nothing else. */
  lemma ImageDrawsEachPixelOnce(cfg: Config, n: nat)
    requires n <= cfg.height
    ensures |Image(cfg, n)| == n * cfg.width
    ensures forall k :: 0 <= k < |Image(cfg, n)| ==>
              Image(cfg, n)[k].x < cfg.width && Image(cfg, n)[k].y < n &&
              Image(cfg, n)[k].color == PixelColor(cfg, Image(cfg, n)[k].x, Image(cfg, n)[k].y)
    ensures forall x: nat, y: nat :: x < cfg.width && y < n ==> DrawsPixel(Image(cfg, n), x, y)
    ensures NoPixelTwice(Image(cfg, n))
  {
    var img := Image(cfg, n);
    ImageLength(cfg, n);
    forall k | 0 <= k < |img|
      ensures img[k].x < cfg.width && img[k].y < n && img[k].color == PixelColor(cfg, img[k].x, img[k].y)
    {
      ImageEntry(cfg, n, k);
    }
    forall x: nat, y: nat | x < cfg.width && y < n ensures DrawsPixel(img, x, y) {
      ImageAt(cfg, n, x, y);
      var k := y * cfg.width + x;
      assert img[k].x == x && img[k].y == y;
    }
    ImageNoPixelTwice(cfg, n);
  }

  /** With a budget of at least one no pixel is ever black: the evaluator
      never returns 0, the only value the table colours black. */
  lemma PixelNeverBlack(cfg: Config, x: nat, y: nat)
    requires x < cfg.width && y < cfg.height && cfg.maxIters >= 1
    ensures PixelColor(cfg, x, y) != Black
  {
    EscapeTimeNeverZero(MapPixel(cfg.region, cfg.width, cfg.height, x, y), cfg.maxIters);
  }

  /** In the program's session the first pixel of the middle row is drawn
      at c = -2, a point of the set, and points of the set come out white
      because the budget 1000 falls to the wildcard of the table. */
  lemma ProgramLeftTipIsWhite()
    ensures ValidConfig(ProgramConfig)
    ensures MapPixel(ProgramConfig.region, 800, 600, 0, 300) == MinusTwo
    ensures PixelColor(ProgramConfig, 0, 300) == White
  {
    assert Fraction(0, 800) == 0.0 && Fraction(300, 600) == 0.5;
    MinusTwoIsBounded(1000);
  }

  /** The quit check over one tick's batch of events.  The loop stops at
      the first quitting event; all other events are ignored. */
  method PollQuit(events: seq<Event>) returns (quit: bool)
    ensures quit == HasQuit(events)
  {
    for k := 0 to |events|
      invariant forall j :: 0 <= j < k ==> !IsQuit(events[j])
    {
      if IsQuit(events[k]) {
        return true;
      }
    }
    return false;
  }

  /** The number of leading ticks whose event batches hold no quit. */
  function QuietTicks(batches: seq<seq<Event>>): (n: nat)
    ensures n <= |batches|
    ensures forall j :: 0 <= j < n ==> !HasQuit(batches[j])
    ensures n < |batches| ==> HasQuit(batches[n])
  {
    if batches == [] || HasQuit(batches[0]) then 0
    else 1 + QuietTicks(batches[1..])
  }

  function Min(a: int, b: int): int {
    if a <= b then a else b
  }

  class Renderer {
    const cfg: Config
    /** The next row to draw (`cur_y`). */
    var curY: nat
    /** Every `draw_point` call made on the canvas so far, in order. */
    var log: seq<Draw>
    /** The number of `present` calls made on the canvas so far. */
    var presented: nat
    /** False once a quit event has ended the loop. */
    var running: bool

    /** The cursor never passes the last row, and the canvas has received
        exactly the rows above the cursor. */
    ghost predicate Valid()
      reads this
    {
      ValidConfig(cfg) && curY <= cfg.height && log == Image(cfg, curY)
    }

    /** The canvas is cleared to black and presented once before the loop
        starts; the cursor starts at row 0. */
    constructor (cfg: Config)
      requires ValidConfig(cfg)
      ensures Valid() && this.cfg == cfg
      ensures curY == 0 && log == [] && presented == 1 && running
    {
      this.cfg := cfg;
      curY := 0;
      log := [];
      presented := 1;
      running := true;
    }

    /** Draws row `curY` left to right. */
    method DrawRow()
      requires Valid() && curY < cfg.height
      modifies this`log
      ensures log == old(log) + Row(cfg, curY)
    {
      var y := curY;
      var x := 0;
      while x < cfg.width
        invariant x <= cfg.width
        invariant log == old(log) + Row(cfg, y)[..x]
      {
        var c := MapPixel(cfg.region, cfg.width, cfg.height, x, y);
        var value := MandelbrotValueAtPoint(c.re, c.im, cfg.maxIters);
        EscapeTimeUnique(c, cfg.maxIters, value);
        log := log + [Draw(x, y, ColorOf(value))];
        x := x + 1;
      }
      assert Row(cfg, y)[..x] == Row(cfg, y);
    }

    /** One frame of the loop. */
    method Tick(events: seq<Event>) returns (quit: bool)
      requires Valid() && running
      modifies this
      ensures Valid()
      ensures quit == HasQuit(events) && running == !quit
      ensures quit ==> curY == old(curY) && log == old(log) && presented == old(presented)
      ensures !quit && old(curY) < cfg.height ==>
                curY == old(curY) + 1 && log == old(log) + Row(cfg, old(curY))
      ensures !quit && old(curY) == cfg.height ==> curY == old(curY) && log == old(log)
      ensures !quit ==> presented == old(presented) + 1
    {
      quit := PollQuit(events);
      if quit {
        running := false;
        return;
      }
      if curY < cfg.height {
        DrawRow();
        curY := curY + 1;
      }
      presented := presented + 1;
    }

    /** The loop fed one batch of events per tick until a batch holds a
        quit or the batches run out.  Each quiet tick draws one more row
        until the image is complete. */
    method Run(batches: seq<seq<Event>>) returns (ticks: nat)
      requires Valid() && running
      modifies this
      ensures Valid()
      ensures ticks == QuietTicks(batches)
      ensures curY == Min(old(curY) + ticks, cfg.height)
      ensures running == (ticks == |batches|)
      ensures presented == old(presented) + ticks
    {
      ticks := 0;
      while ticks < |batches|
        invariant Valid() && running
        invariant ticks <= |batches|
        invariant forall j :: 0 <= j < ticks ==> !HasQuit(batches[j])
        invariant curY == Min(old(curY) + ticks, cfg.height)
        invariant presented == old(presented) + ticks
      {
        var quit := Tick(batches[ticks]);
        if quit {
          assert ticks == QuietTicks(batches) by {
            QuietTicksAt(batches, ticks);
          }
          return;
        }
        ticks := ticks + 1;
      }
      QuietTicksAt(batches, ticks);
    }
  }

  /** A prefix of quiet batches followed by a quitting one, or by nothing,
      determines the number of quiet ticks. */
  lemma {:induction false} QuietTicksAt(batches: seq<seq<Event>>, n: nat)
    requires n <= |batches|
    requires forall j :: 0 <= j < n ==> !HasQuit(batches[j])
    requires n < |batches| ==> HasQuit(batches[n])
    ensures QuietTicks(batches) == n
  {
    if n > 0 {
      assert !HasQuit(batches[0]);
      var rest := batches[1..];
      forall j | 0 <= j < n - 1 ensures !HasQuit(rest[j]) {
        assert rest[j] == batches[j + 1];
      }
      QuietTicksAt(rest, n - 1);
    }
  }

  /** A 4 x 2 window with a budget of 10: after two quiet ticks the image is
      complete, each of its 8 pixels drawn exactly once; a third quiet tick
      draws nothing more. */
  method SmallImageScenario() returns (log: seq<Draw>, rows: nat, log3: seq<Draw>, rows3: nat)
    ensures rows == 2 && |log| == 8
    ensures log == Image(Config(ProgramConfig.region, 4, 2, 10), 2)
    ensures forall x: nat, y: nat :: x < 4 && y < 2 ==> DrawsPixel(log, x, y)
    ensures NoPixelTwice(log)
    ensures log3 == log && rows3 == rows
  {
    var cfg := Config(ProgramConfig.region, 4, 2, 10);
    var r := new Renderer(cfg);
    var quit := r.Tick([]);
    quit := r.Tick([OtherEvent, KeyDown(Some(OtherKey(32)))]);
    assert !HasQuit([OtherEvent, KeyDown(Some(OtherKey(32)))]);
    log, rows := r.log, r.curY;
    quit := r.Tick([]);
    log3, rows3 := r.log, r.curY;
    ImageDrawsEachPixelOnce(cfg, 2);
  }

  /** A quit in the very first batch ends the loop before any pixel is
      drawn, whatever else the batch holds. */
  method QuitFirstScenario(events: seq<Event>) returns (log: seq<Draw>, quit: bool)
    requires HasQuit(events)
    ensures quit && log == []
  {
    var r := new Renderer(ProgramConfig);
    quit := r.Tick(events);
    log := r.log;
  }
}
