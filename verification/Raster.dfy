/** The VGA controller: two counters that walk the raster, two registered sync
    signals and the display window. */
module Raster {

  /** 800 pixels a line and 525 lines a frame, visible pixels included. */
  const PIXELS: nat := 800
  const LINES: nat := 525
  const FRAME: nat := 420_000

  const HPIXELS: nat := 799
  const VLINES: nat := 524

  /** The 10-bit counters and the sync registers (active low). */
  datatype Regs = Regs(hc: nat, vc: nat, hs: bool, vs: bool)

  const RESET := Regs(0, 0, false, false)

  /** A 10-bit counter wraps. */
  function Increment(x: nat): nat {
    if x == 1023 then 0 else x + 1
  }

  /** The next state: every register is computed from the old values. */
  function Next(r: Regs): Regs {
    Regs(
      if r.hc == HPIXELS then 0 else Increment(r.hc),
      if r.hc == HPIXELS then (if r.vc == VLINES then 0 else Increment(r.vc)) else r.vc,
      !(656 <= r.hc + 1 < 752),
      !(r.vc + 1 == 490 || r.vc + 1 == 491))
  }

  /** Whether a pixel may be shown. */
  predicate Display(r: Regs) {
    !(r.hc >= 640 || r.vc >= 480)
  }

  /** The state `n` pixel clocks after reset. */
  function After(n: nat): Regs {
    if n == 0 then RESET else Next(After(n - 1))
  }

  class VgaController {
    var clkdiv: bool
    var hc: nat
    var vc: nat
    var hs: bool
    var vs: bool
    /** Clock edges since reset. */
    ghost var edges: nat

    /** The pixel clock rises at every other edge, the first one included. */
    ghost predicate Valid()
      reads this
    {
      && clkdiv == (edges % 2 == 1)
      && Regs(hc, vc, hs, vs) == After((edges + 1) / 2)
    }

    constructor ()
      ensures Valid() && edges == 0
    {
      clkdiv, hc, vc, hs, vs, edges := false, 0, 0, false, false, 0;
    }

    method Reset()
      modifies this
      ensures Valid() && edges == 0
    {
      clkdiv, hc, vc, hs, vs, edges := false, 0, 0, false, false, 0;
    }

    /** A rising edge of the pixel clock. */
    method PixelClock()
      modifies this`hc, this`vc, this`hs, this`vs
      ensures Regs(hc, vc, hs, vs) == Next(old(Regs(hc, vc, hs, vs)))
    {
      hs := !(hc + 1 >= 656 && hc + 1 < 752);
      vs := !(vc + 1 == 490 || vc + 1 == 491);
      if hc == HPIXELS {
        hc := 0;
        vc := if vc == VLINES then 0 else Increment(vc);
      } else {
        hc := Increment(hc);
      }
    }

    /** A rising edge of the main clock, which toggles the pixel clock. */
    method Clock()
      requires Valid()
      modifies this
      ensures Valid() && edges == old(edges) + 1
    {
      clkdiv := !clkdiv;
      edges := edges + 1;
      if clkdiv {
        PixelClock();
      }
    }

    method Outputs() returns (display: bool, drawX: nat, drawY: nat)
      requires Valid()
      ensures drawX == (edges + 1) / 2 % PIXELS && drawY == (edges + 1) / 2 / PIXELS % LINES
      ensures display <==> drawX < 640 && drawY < 480
    {
      Position((edges + 1) / 2);
      display := !(hc >= 640 || vc >= 480);
      drawX, drawY := hc, vc;
    }
  }

  // ----- where the beam is ----------------------------------------------------

  lemma {:induction false} Position(n: nat)
    ensures After(n).hc == n % PIXELS && After(n).vc == n / PIXELS % LINES
  {
    if n > 0 {
      Position(n - 1);
      NextPixel(n - 1);
    }
  }

  /** The counters stay inside the frame. */
  lemma {:induction false} InRange(n: nat)
    ensures After(n).hc < PIXELS && After(n).vc < LINES
  {
    if n > 0 {
      InRange(n - 1);
    }
  }

  lemma NextPixel(n: nat)
    ensures if n % PIXELS == PIXELS - 1 then
              && (n + 1) % PIXELS == 0 && (n + 1) / PIXELS == n / PIXELS + 1
              && (n / PIXELS + 1) % LINES == (if n / PIXELS % LINES == LINES - 1 then 0 else n / PIXELS % LINES + 1)
            else (n + 1) % PIXELS == n % PIXELS + 1 && (n + 1) / PIXELS == n / PIXELS
  {
  }

  /** From the first pixel clock on the horizontal sync is low exactly at pixels 656
      to 751 of each line. */
  lemma HorizontalSync(n: nat)
    requires n > 0
    ensures !After(n).hs <==> 656 <= After(n).hc < 752
  {
    InRange(n - 1);
  }

  /** The vertical sync lags the line counter by one pixel clock and is low for the
      lines 489 and 490. */
  lemma VerticalSync(n: nat)
    requires n > 0
    ensures !After(n).vs <==> (n - 1) / PIXELS % LINES == 489 || (n - 1) / PIXELS % LINES == 490
  {
    Position(n - 1);
  }

  /** The comment promises a pulse during the lines 490 and 491.  The signal agrees
      with that at the first pixel of a line, and elsewhere on all lines but 489 and
      491. */
  lemma SyncAsCommented(n: nat)
    requires n > 0
    ensures (!After(n).vs <==> After(n).vc == 490 || After(n).vc == 491)
       <==> !((After(n).vc == 489 || After(n).vc == 491) && After(n).hc > 0)
  {
    InRange(n - 1);
  }

  /** The failing case: at the second pixel of line 489 the pulse is on. */
  lemma SyncTooEarly()
    ensures var n := 489 * PIXELS + 1; !After(n).vs && After(n).vc == 489
  {
    var n := 489 * PIXELS + 1;
    Position(n);
    Position(n - 1);
    VerticalSync(n);
  }

  // ----- counting over a frame ----------------------------------------------

  /** What is counted: shown pixels, clocks with the vertical sync low, or the clocks
      at which the beam is on one of the lines `first` to `last`, at a pixel below
      `width`. */
  datatype Event = Displayed | VsLow | InBox(first: nat, last: nat, width: nat)

  predicate Happens(e: Event, k: nat) {
    match e
    case Displayed => Display(After(k))
    case VsLow => !After(k).vs
    case InBox(first, last, width) => After(k).hc < width && first <= After(k).vc <= last
  }

  /** How many of the clocks from `lo` up to `hi` see the event. */
  function Count(e: Event, lo: nat, hi: nat): nat
    decreases hi - lo
  {
    if lo >= hi then 0 else (if Happens(e, hi - 1) then 1 else 0) + Count(e, lo, hi - 1)
  }

  lemma {:induction false} CountSplit(e: Event, lo: nat, mid: nat, hi: nat)
    requires lo <= mid <= hi
    ensures Count(e, lo, hi) == Count(e, lo, mid) + Count(e, mid, hi)
    decreases hi
  {
    if mid < hi {
      CountSplit(e, lo, mid, hi - 1);
    }
  }

  lemma {:induction false} CountConstant(e: Event, lo: nat, hi: nat, b: bool)
    requires lo <= hi && forall k :: lo <= k < hi ==> Happens(e, k) == b
    ensures Count(e, lo, hi) == if b then hi - lo else 0
    decreases hi
  {
    if lo < hi {
      CountConstant(e, lo, hi - 1, b);
    }
  }

  lemma NextFrame(k: nat)
    ensures (k + FRAME) % PIXELS == k % PIXELS && (k + FRAME) / PIXELS % LINES == k / PIXELS % LINES
  {
    assert (k + FRAME) / PIXELS == k / PIXELS + LINES;
  }

  /** The beam is at the same place one frame later. */
  lemma SameFrame(k: nat)
    ensures After(k + FRAME).hc == After(k).hc && After(k + FRAME).vc == After(k).vc
  {
    Position(k);
    Position(k + FRAME);
    NextFrame(k);
  }

  lemma {:induction false} CountShift(box: Event, lo: nat, hi: nat)
    requires lo <= hi && box.InBox?
    ensures Count(box, lo + FRAME, hi + FRAME) == Count(box, lo, hi)
    decreases hi
  {
    if lo < hi {
      CountShift(box, lo, hi - 1);
      SameFrame(hi - 1);
    }
  }

  /** A window of one frame counts the same wherever it starts. */
  lemma CountWindow(box: Event, a: nat)
    requires box.InBox?
    ensures Count(box, a, a + FRAME) == Count(box, 0, FRAME)
  {
    CountSplit(box, 0, a, a + FRAME);
    CountSplit(box, 0, FRAME, a + FRAME);
    CountShift(box, 0, a);
  }

  lemma PlaceOnLine(k: nat, j: nat)
    requires j * PIXELS <= k < (j + 1) * PIXELS && j < LINES
    ensures After(k).vc == j && After(k).hc == k - j * PIXELS
  {
    Position(k);
    assert k / PIXELS == j;
  }

  /** One line of the box. */
  lemma CountLine(box: Event, j: nat)
    requires box.InBox? && box.width <= PIXELS && j < LINES
    ensures Count(box, j * PIXELS, (j + 1) * PIXELS) == if box.first <= j <= box.last then box.width else 0
  {
    var lo := j * PIXELS;
    forall k | lo <= k < lo + PIXELS
      ensures Happens(box, k) == (k - lo < box.width && box.first <= j <= box.last)
    {
      PlaceOnLine(k, j);
    }
    CountSplit(box, lo, lo + box.width, lo + PIXELS);
    CountConstant(box, lo, lo + box.width, box.first <= j <= box.last);
    CountConstant(box, lo + box.width, lo + PIXELS, false);
  }

  /** How many of the first `j` lines belong to the box. */
  function Height(first: nat, last: nat, j: nat): nat
    requires first <= last
  {
    if j <= first then 0 else if j <= last then j - first else last + 1 - first
  }

  lemma OneMore(width: nat, h: nat)
    ensures width * (h + 1) == width * h + width
  {
  }

  lemma {:induction false} CountLines(box: Event, j: nat)
    requires box.InBox? && box.width <= PIXELS && j <= LINES && box.first <= box.last
    ensures Count(box, 0, j * PIXELS) == box.width * Height(box.first, box.last, j)
  {
    if j > 0 {
      CountLines(box, j - 1);
      CountLine(box, j - 1);
      CountSplit(box, 0, (j - 1) * PIXELS, j * PIXELS);
      OneMore(box.width, Height(box.first, box.last, j - 1));
    }
  }

  /** Every frame-long window holds the whole box once. */
  lemma CountBox(box: Event, a: nat)
    requires box.InBox? && box.width <= PIXELS && box.first <= box.last < LINES
    ensures Count(box, a, a + FRAME) == box.width * (box.last + 1 - box.first)
  {
    CountWindow(box, a);
    CountLines(box, LINES);
  }

  /** The display window is a box. */
  lemma {:induction false} DisplayedIsBox(lo: nat, hi: nat)
    requires lo <= hi
    ensures Count(Displayed, lo, hi) == Count(InBox(0, 479, 640), lo, hi)
    decreases hi
  {
    if lo < hi {
      DisplayedIsBox(lo, hi - 1);
    }
  }

  lemma VsLowAt(k: nat)
    ensures Happens(VsLow, k + 1) == Happens(InBox(489, 490, PIXELS), k)
  {
    InRange(k);
  }

  /** The vertical sync pulse is a box, one clock late. */
  lemma {:induction false} VsLowIsBox(lo: nat, hi: nat)
    requires lo <= hi
    ensures Count(VsLow, lo + 1, hi + 1) == Count(InBox(489, 490, PIXELS), lo, hi)
    decreases hi
  {
    if lo < hi {
      VsLowIsBox(lo, hi - 1);
      VsLowAt(hi - 1);
    }
  }

  /** Every window of 420000 pixel clocks shows exactly 640 by 480 pixels. */
  lemma FrameDisplays(a: nat)
    ensures Count(Displayed, a, a + FRAME) == 640 * 480
  {
    DisplayedIsBox(a, a + FRAME);
    CountBox(InBox(0, 479, 640), a);
  }

  /** Past the first clock every such window holds exactly 1600 clocks, two lines,
      with the vertical sync low. */
  lemma FrameSyncs(a: nat)
    requires a > 0
    ensures Count(VsLow, a, a + FRAME) == 1600
  {
    VsLowIsBox(a - 1, a - 1 + FRAME);
    CountBox(InBox(489, 490, PIXELS), a - 1);
  }
}
