/** `watchdog`: one tick of the watchdog timer, called from a periodic
    signal. It counts ticks while the program does not execute WDR (the
    executor records each WDR in `avr_last_wdr`); after a full period it
    raises the watchdog interrupt or, with the interrupt disabled, resets
    the MCU. */
module AvrWatchdog {
  import opened HostWords
  import opened AvrRegs
  import opened AvrState

  /** The watchdog's statics. */
  datatype Wd = Wd(lastWdr: u64, count: nat)

  /** What a tick leaves: the statics, WDTCSR, whether `avr_INT` is raised
      and whether a watchdog reset is requested (`INT_reason = WDRESET`,
      `avr_SREG = 0x80`). */
  datatype WdOut = WdOut(wd: Wd, wdtcsr: bv8, raise: bool, reset: bool)

  /** One tick, for WDTCSR `wdtcsr` and the executor's WDR marker `cur`. */
  function WatchdogStep(wd: Wd, wdtcsr: bv8, cur: u64): WdOut {
    if cur == wd.lastWdr && wdtcsr & (WDIE | WDE) != 0 then
      if wd.count + 1 > Threshold(wdtcsr) then
        if wdtcsr & WDIE != 0 then
          var flagged := wdtcsr | WDIF;
          WdOut(Wd(wd.lastWdr, 0), if flagged & WDE != 0 then flagged & !WDIE else flagged, true, false)
        else
          WdOut(Wd(0, 0), wdtcsr, true, true)
      else
        WdOut(Wd(wd.lastWdr, wd.count + 1), wdtcsr, false, false)
    else if cur != wd.lastWdr then
      WdOut(Wd(cur, 0), wdtcsr, false, false)
    else
      WdOut(wd, wdtcsr, false, false)
  }

  /** The counter stays within the longest period, so it never wraps. */
  lemma CountBounded(wd: Wd, wdtcsr: bv8, cur: u64)
    requires wd.count <= 1024
    ensures WatchdogStep(wd, wdtcsr, cur).wd.count <= 1024
  {
    ThresholdPowerOfTwo(wdtcsr);
  }

  /** With the marker unchanged and the watchdog on, a tick short of the
      period only counts. */
  lemma Waits(wdtcsr: bv8, cur: u64, j: nat)
    requires wdtcsr & (WDIE | WDE) != 0 && j < Threshold(wdtcsr)
    ensures WatchdogStep(Wd(cur, j), wdtcsr, cur) == WdOut(Wd(cur, j + 1), wdtcsr, false, false)
  {
  }

  /** `k` ticks with WDTCSR and the marker held, the register outputs
      dropped. */
  function Ticks(wd: Wd, wdtcsr: bv8, cur: u64, k: nat): Wd {
    if k == 0 then wd else WatchdogStep(Ticks(wd, wdtcsr, cur, k - 1), wdtcsr, cur).wd
  }

  /** Counting from a fresh WDR, the first `Threshold` ticks raise nothing
      and leave the count at the number of ticks. */
  lemma {:induction false} CountsUp(wdtcsr: bv8, cur: u64, k: nat)
    requires wdtcsr & (WDIE | WDE) != 0 && k <= Threshold(wdtcsr)
    ensures Ticks(Wd(cur, 0), wdtcsr, cur, k) == Wd(cur, k)
    ensures k > 0 ==> !WatchdogStep(Wd(cur, k - 1), wdtcsr, cur).raise
  {
    if k > 0 {
      CountsUp(wdtcsr, cur, k - 1);
      Waits(wdtcsr, cur, k - 1);
    }
  }

  /** The tick after those, the (Threshold+1)-th since the WDR, fires: with
      WDIE set it sets WDIF, clears WDIE exactly when WDE is also set (the
      next period then resets), raises the interrupt and restarts the
      count; with WDIE clear and WDE set it requests a reset and clears the
      counter and the marker. */
  lemma {:induction false} FiresAfterPeriod(wdtcsr: bv8, cur: u64)
    requires wdtcsr & (WDIE | WDE) != 0
    ensures var o := WatchdogStep(Ticks(Wd(cur, 0), wdtcsr, cur, Threshold(wdtcsr)), wdtcsr, cur);
      && o.raise
      && (wdtcsr & WDIE != 0 ==>
            && o == WdOut(Wd(cur, 0), o.wdtcsr, true, false)
            && o.wdtcsr & WDIF != 0
            && (o.wdtcsr & WDIE == 0 <==> wdtcsr & WDE != 0)
            && o.wdtcsr & !(WDIF | WDIE) == wdtcsr & !(WDIF | WDIE))
      && (wdtcsr & WDIE == 0 ==> o == WdOut(Wd(0, 0), wdtcsr, true, true))
  {
    CountsUp(wdtcsr, cur, Threshold(wdtcsr));
  }

  /** A changed marker (the program executed WDR) only restarts the count
      and records the marker. */
  lemma MarkerRestarts(wd: Wd, wdtcsr: bv8, cur: u64)
    requires cur != wd.lastWdr
    ensures WatchdogStep(wd, wdtcsr, cur) == WdOut(Wd(cur, 0), wdtcsr, false, false)
  {
  }

  /** With WDIE and WDE both clear and the marker unchanged, a tick changes
      nothing. */
  lemma DisabledIdle(wd: Wd, wdtcsr: bv8, cur: u64)
    requires wdtcsr & (WDIE | WDE) == 0 && cur == wd.lastWdr
    ensures WatchdogStep(wd, wdtcsr, cur) == WdOut(wd, wdtcsr, false, false)
  {
  }

  /** Only a firing tick touches WDTCSR, and then only WDIF and WDIE. */
  lemma TouchesOnlyFlags(wd: Wd, wdtcsr: bv8, cur: u64)
    ensures WatchdogStep(wd, wdtcsr, cur).wdtcsr & !(WDIF | WDIE) == wdtcsr & !(WDIF | WDIE)
    ensures !WatchdogStep(wd, wdtcsr, cur).raise ==> WatchdogStep(wd, wdtcsr, cur).wdtcsr == wdtcsr
  {
  }

  /** `watchdog(alarm)` on the model's state. */
  method Watchdog(avr: Avr, t: Tester)
    requires avr.Valid() && t.Valid()
    modifies t.wd, t`reason, avr.io, avr`intr, avr`sreg
    ensures t.Valid()
    ensures var o := WatchdogStep(Wd(old(t.wd.lastWdr), old(t.wd.count)), old(avr.io[WDTCSR]), avr.lastWdr);
      && Wd(t.wd.lastWdr, t.wd.count) == o.wd
      && avr.io[..] == old(avr.io[..])[WDTCSR := o.wdtcsr]
      && avr.intr == (old(avr.intr) || o.raise)
      && t.reason == (if o.reset then WdReset else old(t.reason))
      && avr.sreg == (if o.reset then 0x80 else old(avr.sreg))
  {
    var wd := t.wd;
    var wdtcr := avr.io[WDTCSR];
    var cur := avr.lastWdr;
    CountBounded(Wd(wd.lastWdr, wd.count), wdtcr, cur);
    var threshold := Threshold(wdtcr);
    if cur == wd.lastWdr && wdtcr & (WDIE | WDE) != 0 {
      // the source's `++count > threshold`, compared before the store
      if wd.count + 1 > threshold {
        Expire(avr, t);
      } else {
        wd.count := wd.count + 1;
      }
    } else if cur != wd.lastWdr {
      wd.count := 0;
      wd.lastWdr := cur;
    }
  }

  /** The tick that ends a period, with the marker unchanged and the
      watchdog on: what `WatchdogStep` gives for any count past the
      threshold. */
  method Expire(avr: Avr, t: Tester)
    requires avr.Valid() && t.Valid() && avr.io[WDTCSR] & (WDIE | WDE) != 0
    modifies t.wd, t`reason, avr.io, avr`intr, avr`sreg
    ensures t.Valid()
    ensures var w := old(avr.io[WDTCSR]);
      var o := WatchdogStep(Wd(old(t.wd.lastWdr), Threshold(w)), w, old(t.wd.lastWdr));
      && Wd(t.wd.lastWdr, t.wd.count) == o.wd
      && avr.io[..] == old(avr.io[..])[WDTCSR := o.wdtcsr]
      && avr.intr == (old(avr.intr) || o.raise)
      && t.reason == (if o.reset then WdReset else old(t.reason))
      && avr.sreg == (if o.reset then 0x80 else old(avr.sreg))
  {
    var wd := t.wd;
    var wdtcr := avr.io[WDTCSR];
    wd.count := 0;
    if wdtcr & WDIE != 0 {
      wdtcr := wdtcr | WDIF;
      if wdtcr & WDE != 0 {
        wdtcr := wdtcr & !WDIE;
      }
      avr.io[WDTCSR] := wdtcr;
      wd.count := 0;
      avr.intr := true;
    } else if wdtcr & WDE != 0 {
      wd.count, wd.lastWdr := 0, 0;
      t.reason := WdReset;
      avr.intr := true;
      avr.sreg := 0x80;
    }
  }
}
