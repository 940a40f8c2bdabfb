/** The timing generator of VGA_controller.sv: a divided clock, two counters and two registered sync pulses. */
module VgaController {

  const HPIXELS := 799   // 10'b1100011111
  const VLINES := 524    // 10'b1000001100
  const LINE := 800
  const FRAME := 420000  // pixel clocks in a frame

  datatype Pixel = Pixel(hc: nat, vc: nat, hs: bool, vs: bool)
  datatype Regs = Regs(clkdiv: bool, p: Pixel)

  // An edge of the 50 MHz clock while Reset is high, or low.
  datatype Edge = Reset | Clk

  const RESET_REGS := Regs(false, Pixel(0, 0, false, false))

  // One rising edge of the divided clock; the counters are 10 bits wide, and the tests on hc + 1 and vc + 1 wider.
  function PixelClock(p: Pixel): Pixel {
    Pixel(
      if p.hc == HPIXELS then 0 else (p.hc + 1) % 1024,
      if p.hc == HPIXELS then if p.vc == VLINES then 0 else (p.vc + 1) % 1024 else p.vc,
      !(656 <= p.hc + 1 && p.hc + 1 < 752),
      !(p.vc + 1 == 490 || p.vc + 1 == 491))
  }

  function Next(r: Regs, e: Edge): Regs {
    match e
    case Reset => RESET_REGS
    case Clk => Regs(!r.clkdiv, if !r.clkdiv then PixelClock(r.p) else r.p)
  }

  function Run(edges: seq<Edge>): Regs {
    if edges == [] then RESET_REGS else Next(Run(edges[..|edges| - 1]), edges[|edges| - 1])
  }

  // The combinational display signal.
  predicate Display(p: Pixel) { !(p.hc >= 640 || p.vc >= 480) }

  class Controller {
    var clkdiv: bool
    var hc: nat
    var vc: nat
    var hs: bool
    var vs: bool

    function Now(): Regs
      reads this
    {
      Regs(clkdiv, Pixel(hc, vc, hs, vs))
    }

    constructor ()
      ensures Now() == RESET_REGS
    {
      clkdiv, hc, vc, hs, vs := false, 0, 0, false, false;
    }

    method Clock(reset: bool)
      modifies this
      ensures Now() == Next(old(Now()), if reset then Reset else Clk)
    {
      if reset {
        clkdiv := false;
        hc, vc, hs, vs := 0, 0, false, false;
      } else {
        clkdiv := !clkdiv;
        if clkdiv {
          var hc', vc' := hc, vc;
          if hc == HPIXELS {
            hc' := 0;
            if vc == VLINES {
              vc' := 0;
            } else {
              vc' := (vc + 1) % 1024;
            }
          } else {
            hc' := (hc + 1) % 1024;
          }
          if hc + 1 >= 656 && hc + 1 < 752 {
            hs := false;
          } else {
            hs := true;
          }
          if vc + 1 == 490 || vc + 1 == 491 {
            vs := false;
          } else {
            vs := true;
          }
          hc, vc := hc', vc';
        }
      }
    }
  }

  // ---------------------------------------------------------------- the closed form

  // The edges of the 50 MHz clock since the last reset.
  function Since(edges: seq<Edge>): nat {
    if edges == [] || edges[|edges| - 1] == Reset then 0 else 1 + Since(edges[..|edges| - 1])
  }

  function DrawX(n: nat): nat { n % LINE }
  function DrawY(n: nat): nat { n / LINE % 525 }

  // After n pixel clocks: where the beam is, and the two pulses.
  function After(n: nat): Pixel {
    if n == 0 then Pixel(0, 0, false, false)
    else Pixel(DrawX(n), DrawY(n), !(656 <= DrawX(n) <= 751), !(489 <= DrawY(n - 1) <= 490))
  }

  lemma DrawStep(n: nat)
    ensures DrawX(n + 1) == if DrawX(n) == HPIXELS then 0 else DrawX(n) + 1
    ensures DrawY(n + 1) == if DrawX(n) != HPIXELS then DrawY(n) else if DrawY(n) == VLINES then 0 else DrawY(n) + 1
    ensures DrawX(n) < LINE && DrawY(n) < 525
  {
    var q := n / LINE;
    assert (n + 1) / LINE == if DrawX(n) == HPIXELS then q + 1 else q;
  }

  lemma AfterStep(n: nat)
    ensures PixelClock(After(n)) == After(n + 1)
  {
    DrawStep(n);
    assert DrawX(0) == 0 && DrawY(0) == 0;
    hide DrawX, DrawY;
  }

  /** At every moment after a reset: the counters are the pixel clocks so far, modulo the line and the frame; hs is low at
      pixels 656 to 751; vs is low for the pixel clocks that follow one on line 489 or 490. */
  lemma {:induction false} ClosedForm(edges: seq<Edge>)
    ensures Run(edges) == Regs(Since(edges) % 2 == 1, After((Since(edges) + 1) / 2))
  {
    assert After(0) == Pixel(0, 0, false, false);
    hide PixelClock, After;
    if edges != [] {
      var front := edges[..|edges| - 1];
      ClosedForm(front);
      AfterStep((Since(front) + 1) / 2);
      Halves(Since(front));
    }
  }

  lemma Halves(s: nat)
    ensures s % 2 == 0 ==> (s + 1) % 2 == 1 && (s + 2) / 2 == (s + 1) / 2 + 1
    ensures s % 2 == 1 ==> (s + 1) % 2 == 0 && (s + 2) / 2 == (s + 1) / 2
  {
  }

  /** Of any 420000 successive pixel clocks, exactly one draws the pixel (x, y). */
  lemma PixelOncePerFrame(start: nat, x: nat, y: nat)
    requires x < LINE && y < 525
    ensures exists n :: start <= n < start + FRAME && At(n, x, y)
    ensures forall n, m :: start <= n < m < start + FRAME ==> !(At(n, x, y) && At(m, x, y))
  {
    var p := y * LINE + x;
    var n := start + Ahead(start, p);
    AtIff(n, x, y);
    hide At, Ahead;
    forall n: nat, m: nat | start <= n < m < start + FRAME ensures !(At(n, x, y) && At(m, x, y)) {
      AtIff(n, x, y);
      AtIff(m, x, y);
      Apart(n, m);
    }
  }

  // How far position p of a frame is ahead.
  function Ahead(start: nat, p: nat): (d: nat)
    requires p < FRAME
    ensures d < FRAME && (start + d) % FRAME == p
  {
    var f, r := start / FRAME, start % FRAME;
    assert start == f * FRAME + r;
    if r <= p then Remainder(start + (p - r), f, p); p - r
    else Remainder(start + (p - r + FRAME), f + 1, p); p - r + FRAME
  }

  lemma Remainder(n: nat, f: nat, r: nat)
    requires n == f * FRAME + r && r < FRAME
    ensures n % FRAME == r
  {
  }

  lemma Apart(n: nat, m: nat)
    requires n < m < n + FRAME
    ensures n % FRAME != m % FRAME
  {
  }

  predicate At(n: int, x: nat, y: nat) { n >= 0 && DrawX(n) == x && DrawY(n) == y }

  // The position in the frame, by column and line.
  lemma Position(n: nat)
    ensures n % FRAME == DrawY(n) * LINE + DrawX(n) && DrawX(n) < LINE && DrawY(n) < 525
  {
    var q := n / LINE;
    assert n == q * LINE + DrawX(n);
    assert q == q / 525 * 525 + DrawY(n);
    Remainder(n, q / 525, DrawY(n) * LINE + DrawX(n));
  }

  lemma AtIff(n: nat, x: nat, y: nat)
    requires x < LINE && y < 525
    ensures At(n, x, y) <==> n % FRAME == y * LINE + x
  {
    Position(n);
    hide DrawX, DrawY;
  }

  /** In every line hs is low for one run of 96 pixel clocks, 16 after the last pixel displayed; before the first clock both
      pulses are low. */
  lemma HsyncPulse(edges: seq<Edge>)
    ensures var n := (Since(edges) + 1) / 2;
      && (n == 0 ==> !Run(edges).p.hs && !Run(edges).p.vs)
      && (n > 0 ==> (!Run(edges).p.hs <==> 640 + 16 <= n % 800 < 640 + 16 + 96))
  {
    ClosedForm(edges);
  }

  /** In every frame vs is low for one run of 1600 pixel clocks. */
  lemma VsyncPulse(n: nat)
    requires 1 <= n
    ensures !After(n).vs <==> 489 * LINE + 1 <= (n - 1) % FRAME + 1 <= 491 * LINE
  {
    AtIff(n - 1, DrawX(n - 1), DrawY(n - 1));
  }

  /** In every frame the beam is displayed at the positions of the 640 by 480 pixels, once each, and never while a sync pulse
      is low. */
  lemma DisplayIff(n: nat)
    requires 1 <= n
    ensures Display(After(n)) <==> exists x, y :: 0 <= x < 640 && 0 <= y < 480 && n % FRAME == Place(x, y)
    ensures Display(After(n)) ==> After(n).hs && After(n).vs
  {
    Position(n);
    assert n % FRAME == Place(DrawX(n), DrawY(n));
    if x, y :| 0 <= x < 640 && 0 <= y < 480 && n % FRAME == Place(x, y) { AtIff(n, x, y); }
    AfterStep(n - 1);
  }

  function Place(x: int, y: int): int { y * LINE + x }
}
