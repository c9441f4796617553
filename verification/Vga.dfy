/** The VGA controller's timing: two counters and the registered sync and blanking outputs. */
module Vga {
  import opened Arithmetic

  const H_TOTAL: nat := 800
  const V_TOTAL: nat := 525
  const FRAME: nat := 420_000   // clocks in a frame

  /** The registers: the counters, and the three outputs (the syncs are active low, and the blanking
      output is high while blanking is inhibited). */
  datatype Registers = Registers(h: nat, v: nat, hs: bool, vs: bool, blankN: bool)

  const RESET_STATE := Registers(0, 0, false, false, false)

  /** The combinational block, on 10-bit counters: the outputs are computed from the next values. */
  function Next(r: Registers): Registers {
    var h1, v1 := (r.h + 1) % 1024, (r.v + 1) % 1024;
    var wrap := h1 == H_TOTAL;
    var h := if wrap then 0 else h1;
    var v := if !wrap then r.v else if v1 == V_TOTAL then 0 else v1;
    Registers(h, v, !(656 <= h < 752), !(490 <= v < 492), h < 640 && v < 480)
  }

  /** The registers n clocks after reset. */
  function After(n: nat): Registers {
    if n == 0 then RESET_STATE else Next(After(n - 1))
  }

  /** Is clock m of an endless sequence of frames a visible pixel? */
  predicate Visible(m: nat) {
    m % H_TOTAL < 640 && m / H_TOTAL % V_TOTAL < 480
  }

  /** On counters in range the 10-bit sums do not wrap. */
  lemma NextCounters(r: Registers)
    requires r.h < H_TOTAL && r.v < V_TOTAL
    ensures Next(r).h == if r.h == H_TOTAL - 1 then 0 else r.h + 1
    ensures Next(r).v == if r.h < H_TOTAL - 1 then r.v else if r.v == V_TOTAL - 1 then 0 else r.v + 1
  {
  }

  lemma {:induction false} CountersAfter(n: nat)
    ensures After(n).h == n % H_TOTAL && After(n).v == n / H_TOTAL % V_TOTAL
  {
    if n > 0 {
      CountersAfter(n - 1);
      NextCounters(After(n - 1));
      var q, r := (n - 1) / H_TOTAL, (n - 1) % H_TOTAL;
      if r < H_TOTAL - 1 {
        DivModUnique(n, H_TOTAL, q, r + 1);
      } else {
        DivModUnique(n, H_TOTAL, q + 1, 0);
        var frame, line := q / V_TOTAL, q % V_TOTAL;
        if line < V_TOTAL - 1 {
          DivModUnique(q + 1, V_TOTAL, frame, line + 1);
        } else {
          DivModUnique(q + 1, V_TOTAL, frame + 1, 0);
        }
      }
    }
  }

  /** The timing in closed form: n clocks after reset the counters show n modulo a line and the line
      number modulo a frame; from the first clock on the outputs follow the counters. */
  lemma TimingAfter(n: nat)
    ensures After(n).h == n % H_TOTAL && After(n).v == n / H_TOTAL % V_TOTAL
    ensures n > 0 ==>
              && (!After(n).hs <==> 656 <= n % H_TOTAL < 752)
              && (!After(n).vs <==> 490 <= n / H_TOTAL % V_TOTAL < 492)
              && (After(n).blankN <==> Visible(n))
  {
    CountersAfter(n);
  }

  /** The controller.  `clocks` counts its clocks since the last reset, from the first reset on. */
  class Controller {
    var regs: Registers
    ghost var wasReset: bool
    ghost var clocks: nat

    /** Once reset, the registers are those that the timing theorems are about. */
    ghost predicate Valid()
      reads this
    {
      wasReset ==> regs == After(clocks)
    }

    /** At power-up the registers hold anything. */
    constructor (powerUp: Registers)
      ensures Valid() && !wasReset && regs == powerUp
    {
      regs, wasReset, clocks := powerUp, false, 0;
    }

    /** A rising edge of the pixel clock.  From the first reset on the counters and outputs depend only on
        the number of clocks since the last one. */
    method Clock(reset: bool)
      requires Valid()
      modifies this
      ensures Valid() && wasReset == (old(wasReset) || reset)
      ensures clocks == if reset then 0 else old(clocks) + 1
      ensures !wasReset ==> regs == Next(old(regs))
      ensures wasReset ==> regs.h == clocks % H_TOTAL && regs.v == clocks / H_TOTAL % V_TOTAL
      ensures wasReset && !reset ==>
                && (!regs.hs <==> 656 <= clocks % H_TOTAL < 752)
                && (!regs.vs <==> 490 <= clocks / H_TOTAL % V_TOTAL < 492)
                && (regs.blankN <==> Visible(clocks))
      ensures reset ==> !regs.hs && !regs.vs && !regs.blankN
    {
      if reset {
        regs := RESET_STATE;
        wasReset, clocks := true, 0;
      } else {
        regs := Next(regs);
        clocks := clocks + 1;
      }
      TimingAfter(clocks);
    }
  }

  /** The number of clocks from `first` on, among `len`, that a predicate on clocks marks. */
  function Shown(first: nat, len: nat): nat {
    if len == 0 then 0 else Shown(first, len - 1) + (if After(first + len - 1).blankN then 1 else 0)
  }

  function VisibleCount(first: nat, len: nat): nat {
    if len == 0 then 0 else VisibleCount(first, len - 1) + (if Visible(first + len - 1) then 1 else 0)
  }

  lemma {:induction false} ShownIsVisible(first: nat, len: nat)
    requires first > 0
    ensures Shown(first, len) == VisibleCount(first, len)
  {
    if len > 0 {
      ShownIsVisible(first, len - 1);
      TimingAfter(first + len - 1);
    }
  }

  lemma {:induction false} DropFirst(first: nat, len: nat)
    requires len > 0
    ensures VisibleCount(first, len) == (if Visible(first) then 1 else 0) + VisibleCount(first + 1, len - 1)
  {
    if len > 1 {
      DropFirst(first, len - 1);
    }
  }

  lemma Periodic(m: nat)
    ensures Visible(m + FRAME) == Visible(m)
  {
    var line := m / H_TOTAL;
    DivModUnique(m + FRAME, H_TOTAL, line + V_TOTAL, m % H_TOTAL);
    DivModUnique(line + V_TOTAL, V_TOTAL, line / V_TOTAL + 1, line % V_TOTAL);
  }

  /** Shifting a window of one frame by a clock loses one clock and gains its counterpart. */
  lemma {:induction false} AnyWindow(first: nat)
    ensures VisibleCount(first, FRAME) == VisibleCount(0, FRAME)
  {
    if first > 0 {
      AnyWindow(first - 1);
      DropFirst(first - 1, FRAME);
      Periodic(first - 1);
      assert first + FRAME - 1 == (first - 1) + FRAME;
    }
  }

  /** Part of a line: its first 640 clocks are visible if the line is. */
  lemma {:induction false} PartLine(line: nat, len: nat)
    requires line < V_TOTAL && len <= H_TOTAL
    ensures VisibleCount(0, H_TOTAL * line + len)
            == VisibleCount(0, H_TOTAL * line) + (if line >= 480 then 0 else if len < 640 then len else 640)
  {
    if len > 0 {
      PartLine(line, len - 1);
      var m := H_TOTAL * line + len - 1;
      DivModUnique(m, H_TOTAL, line, len - 1);
    }
  }

  lemma {:induction false} WholeLines(lines: nat)
    requires lines <= V_TOTAL
    ensures VisibleCount(0, H_TOTAL * lines) == 640 * (if lines < 480 then lines else 480)
  {
    if lines > 0 {
      WholeLines(lines - 1);
      PartLine(lines - 1, H_TOTAL);
      assert H_TOTAL * (lines - 1) + H_TOTAL == H_TOTAL * lines;
    }
  }

  /** Any frame's worth of consecutive clocks after reset shows exactly 640 by 480 pixels. */
  lemma PixelsPerFrame(first: nat)
    requires first > 0
    ensures Shown(first, FRAME) == 640 * 480
  {
    ShownIsVisible(first, FRAME);
    AnyWindow(first);
    WholeLines(V_TOTAL);
  }
}
