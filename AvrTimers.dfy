/** The timers of tester.c: the `instantiate_prescaler` macro body
    (`PRESCALER01` for timers 0 and 1, `PRESCALER2` for timer 2), which
    scales a free-running clock and raises the overflow flag and interrupt
    when a counter is polled, and `fetch_timer`/`set_timer`, which derive
    each counter from its prescaler through an offset. The clocks
    (`oscillator(...)`, a wall clock) are parameters. */
module AvrTimers {
  import opened HostWords
  import opened AvrRegs
  import opened AvrState

  // ---- The prescaler as values ----------------------------------------

  /** A prescaler's statics `last_reset`, `prev_cycle` and `counted_cycle`. */
  datatype Pre = Pre(lastReset: u64, prevCycle: u64, counted: u64)

  function PreOf(p: Prescaler): Pre
    reads p`lastReset, p`prevCycle, p`counted
  {
    Pre(p.lastReset, p.prevCycle, p.counted)
  }

  /** The enabled prescaler's update for clock reading `clock`: the cycles
      elapsed since the last call are counted, except while the reset bit
      is held and the count has already been reset, when they are dropped;
      a reset records the count it happened at. */
  function Advance(p: Pre, clock: u64, reset: bool): Pre {
    if reset then
      if p.lastReset != p.counted then
        var c := Wrap64(p.counted + (clock - p.prevCycle));
        Pre(c, clock, c)
      else
        Pre(p.lastReset, clock, p.counted)
    else
      Pre(p.lastReset, clock, Wrap64(p.counted + (clock - p.prevCycle)))
  }

  /** The prescaled count: the counted cycles since the last reset, less
      the reset's offset within a tick of the tap (`last_reset & (1<<w)-1`),
      divided by the tap's `2^w` (`>> w`). */
  function Base(p: Pre, w: nat): u64
    requires w <= 20
  {
    var d := Pow2(w);
    DivBounded(Wrap64(p.counted - 1 - p.lastReset % d), d);
    Wrap64(p.counted - 1 - p.lastReset % d) / d
  }

  lemma DivBounded(x: u64, d: nat)
    requires d >= 1
    ensures 0 <= x / d <= x
  {
  }

  /** `scaled_count`: the prescaled count plus the timer's offset, which
      the `unsigned long long` addition sign-extends. */
  function Scaled(p: Pre, w: nat, offset: i32): u64
    requires w <= 20
  {
    Wrap64(Base(p, w) + offset)
  }

  /** The number of values of an 8- or 16-bit counter; its mask is one
      less. */
  function Span(bits: nat): nat
    requires bits == 8 || bits == 16
  {
    if bits == 8 then 0x100 else 0x1_0000
  }

  /** A counter of `bits` bits overflowed when the bits above it changed
      (`*prev >> bits != scaled_count >> bits`). */
  predicate Overflowed(prev: u64, scaled: u64, bits: nat)
    requires bits == 8 || bits == 16
  {
    prev / Span(bits) != scaled / Span(bits)
  }

  /** The overflows to catch up on, truncated to the 32-bit `unsigned`. */
  function Backlog(prev: u64, scaled: u64, bits: nat): u32
    requires bits == 8 || bits == 16
  {
    Wrap32(scaled / Span(bits) - prev / Span(bits))
  }

  // ---- Properties of the prescaler ------------------------------------

  /** Without a reset, the count takes in every elapsed cycle however
      often it is polled: two updates count what one would have. */
  lemma AdvanceAdds(p: Pre, c1: u64, c2: u64)
    ensures Advance(Advance(p, c1, false), c2, false) == Advance(p, c2, false)
  {
    WrapAdd(p.counted + (c1 - p.prevCycle), c2 - c1);
  }

  /** While the reset bit is held, the first update resets and every later
      one leaves the count frozen, so a held reset does not reset twice. */
  lemma ResetHolds(p: Pre, c1: u64, c2: u64)
    ensures Advance(p, c1, true).lastReset == Advance(p, c1, true).counted
    ensures Advance(Advance(p, c1, true), c2, true) == Advance(p, c1, true).(prevCycle := c2)
  {
  }

  /** An update at the clock of the last one, with the reset bit clear or
      the count already reset, changes nothing. */
  lemma AdvanceIdle(p: Pre, reset: bool)
    requires !reset || p.lastReset == p.counted
    ensures Advance(p, p.prevCycle, reset) == p
  {
  }

  // ---- set_timer as values ----------------------------------------------

  /** `set_timer` computes `timer_ofs[n] = val - (timer[n] & mask)` on the
      raw count (the fetched counter less the old offset); the difference,
      taken modulo 2^64, is stored into the `int`. With `val` within the
      counter's range the offset is that difference exactly, the counter
      then reads `val` in its own bits and the bits above keep the raw
      count's, so no overflow is lost or invented. */
  lemma SetTimerBits(raw: u64, val: nat, bits: nat)
    requires (bits == 8 || bits == 16) && val < Span(bits)
    ensures ToInt32(Wrap64(val - raw % Span(bits))) == val - raw % Span(bits)
    ensures Wrap64(raw + (val - raw % Span(bits))) == raw - raw % Span(bits) + val
    ensures (raw - raw % Span(bits) + val) % Span(bits) == val
    ensures (raw - raw % Span(bits) + val) / Span(bits) == raw / Span(bits)
  {
    if bits == 8 {
      assert raw / 0x100 <= 0xFF_FFFF_FFFF_FFFF;
    } else {
      assert raw / 0x1_0000 <= 0xFFFF_FFFF_FFFF;
    }
  }

  /** A fetch right after `set_timer`, at the same clock reading, reads back
      the value set and signals no overflow. `p` is the prescaler after the
      fetch `set_timer` made and `ofs` the offset that fetch added. */
  lemma SetThenFetch(p: Pre, w: nat, ofs: i32, val: nat, bits: nat, reset: bool)
    requires w <= 20 && (bits == 8 || bits == 16) && val < Span(bits)
    requires !reset || p.lastReset == p.counted
    ensures var raw := Wrap64(Scaled(p, w, ofs) - ofs);
      var ofs' := ToInt32(Wrap64(val - raw % Span(bits)));
      var stored := Wrap64(raw + ofs');
      var again := Scaled(Advance(p, p.prevCycle, reset), w, ofs');
      && stored % Span(bits) == val
      && again == stored
      && !Overflowed(stored, again, bits)
  {
    var b := Base(p, w);
    Unscaled(p, w, ofs);
    SetTimerBits(b, val, bits);
    var ofs' := ToInt32(Wrap64(val - b % Span(bits)));
    AdvanceIdle(p, reset);
    assert Scaled(p, w, ofs') == Wrap64(b + ofs');
  }

  /** Taking the offset back off a scaled count gives the prescaled count. */
  lemma Unscaled(p: Pre, w: nat, ofs: i32)
    requires w <= 20
    ensures Wrap64(Scaled(p, w, ofs) - ofs) == Base(p, w)
  {
    WrapAdd(Base(p, w) + ofs, -(ofs as int));
  }

  // ---- The prescaler on the model's state -------------------------------

  /** The counter a call updates: `&timer[n]` with `TIFRn`, `TIMSKn`, its
      width and `&timer_overflows[n]`; `None` for the calls with a NULL
      counter, which only update the prescaler. */
  datatype Counter = Counter(n: nat, tifr: nat, timsk: nat, bits: nat)

  datatype Option<T> = None | Some(value: T)

  predicate CounterOk(c: Counter) {
    c.n < 3 && c.tifr < IoSize && c.timsk < IoSize && c.tifr != c.timsk && (c.bits == 8 || c.bits == 16)
  }

  /** What polling counter `c` from `prev` to `scaled` does besides storing
      the new count: on an overflow TOV is set in TIFRn, and when TIMSKn
      enables it the backlog is replaced by the overflows crossed and the
      interrupt is raised; nothing else changes. */
  ghost predicate Polled(io: seq<bv8>, io': seq<bv8>, intr: bool, intr': bool,
                         ov: seq<u32>, ov': seq<u32>, c: Counter, prev: u64, scaled: u64)
    requires CounterOk(c) && |io| == IoSize && |ov| == 3
  {
    var over := Overflowed(prev, scaled, c.bits);
    var raise := over && io[c.timsk] & TOV != 0;
    && io' == (if over then io[c.tifr := io[c.tifr] | TOV] else io)
    && ov' == (if raise then ov[c.n := Backlog(prev, scaled, c.bits)] else ov)
    && intr' == (intr || raise)
  }

  /** The prescaler's part of the macro body. The clock `clock` has been
      read; `busy` guards against re-entry from a signal handler. */
  method Advancing(avr: Avr, p: Prescaler, clock: u64, tccr: nat) returns (sel: nat)
    requires avr.Valid() && p.Valid() && tccr < IoSize
    modifies p`lastReset, p`prevCycle, p`counted
    ensures sel == (avr.io[tccr] & 7) as nat && sel < 8
    ensures sel == 0 || p.busy ==> PreOf(p) == old(PreOf(p))
    ensures sel != 0 && !p.busy ==>
      PreOf(p) == Advance(old(PreOf(p)), clock, avr.io[GTCCR] & p.resetBit != 0)
  {
    sel := (avr.io[tccr] & 7) as nat;
    if sel == 0 || p.busy {
      return;
    }
    if avr.io[GTCCR] & p.resetBit != 0 {
      if p.lastReset != p.counted {
        p.counted := Wrap64(p.counted + (clock - p.prevCycle));
        p.lastReset := p.counted;
      }
    } else {
      p.counted := Wrap64(p.counted + (clock - p.prevCycle));
    }
    p.prevCycle := clock;
  }

  /** The counter's part: the scaled count, then the overflow check, then
      the counter itself. */
  method Counting(avr: Avr, t: Tester, p: Prescaler, sel: nat, c: Counter)
    requires avr.Valid() && t.Valid() && p.Valid() && CounterOk(c) && 1 <= sel <= 7
    modifies avr.io, avr`intr, t.timer, t.overflows
    ensures var s := Scaled(PreOf(p), p.taps[sel - 1], t.timerOfs[c.n]);
      && t.timer[..] == old(t.timer[..])[c.n := s]
      && Polled(old(avr.io[..]), avr.io[..], old(avr.intr), avr.intr,
                old(t.overflows[..]), t.overflows[..], c, old(t.timer[c.n]), s)
  {
    var w := p.taps[sel - 1];
    var scaled := Base(PreOf(p), w);
    scaled := Wrap64(scaled + t.timerOfs[c.n]);
    Overflow(avr, t, c, scaled);
    t.timer[c.n] := scaled;
  }

  /** The overflow check against the counter's previous value. */
  method Overflow(avr: Avr, t: Tester, c: Counter, scaled: u64)
    requires avr.Valid() && t.Valid() && CounterOk(c)
    modifies avr.io, avr`intr, t.overflows
    ensures Polled(old(avr.io[..]), avr.io[..], old(avr.intr), avr.intr,
                   old(t.overflows[..]), t.overflows[..], c, t.timer[c.n], scaled)
  {
    if Overflowed(t.timer[c.n], scaled, c.bits) {
      avr.io[c.tifr] := avr.io[c.tifr] | TOV;
      if avr.io[c.timsk] & TOV != 0 {
        t.overflows[c.n] := Backlog(t.timer[c.n], scaled, c.bits);
        avr.intr := true;
      }
    }
  }

  /** The body of `instantiate_prescaler`: `PRESCALER01` or `PRESCALER2`
      called with `clock` read from its clock source, `tccr` the register
      whose clock select bits enable it, and the counter to poll, if any. */
  method Prescale(avr: Avr, t: Tester, p: Prescaler, clock: u64, tccr: nat, counter: Option<Counter>)
    requires avr.Valid() && t.Valid() && (p == t.p01 || p == t.p2) && tccr < IoSize
    requires counter.Some? ==> CounterOk(counter.value)
    modifies p`lastReset, p`prevCycle, p`counted, p`busy, avr.io, avr`intr, t.timer, t.overflows
    ensures t.Valid() && p.busy == old(p.busy)
    ensures var sel := (old(avr.io[tccr]) & 7) as nat;
      var on := sel != 0 && !p.busy;
      && (!on ==> PreOf(p) == old(PreOf(p)))
      && (on ==> PreOf(p) == Advance(old(PreOf(p)), clock, old(avr.io[GTCCR]) & p.resetBit != 0))
      && (!on || counter.None? ==>
            && avr.io[..] == old(avr.io[..]) && avr.intr == old(avr.intr)
            && t.timer[..] == old(t.timer[..]) && t.overflows[..] == old(t.overflows[..]))
      && (on && counter.Some? ==>
            var c := counter.value;
            var s := Scaled(PreOf(p), p.taps[sel - 1], t.timerOfs[c.n]);
            && t.timer[..] == old(t.timer[..])[c.n := s]
            && Polled(old(avr.io[..]), avr.io[..], old(avr.intr), avr.intr,
                      old(t.overflows[..]), t.overflows[..], c, old(t.timer[c.n]), s))
  {
    var sel := Advancing(avr, p, clock, tccr);
    if sel == 0 || p.busy {
      return;
    }
    p.busy := true;
    if counter.Some? {
      Counting(avr, t, p, sel, counter.value);
    }
    p.busy := false;
  }

  // ---- fetch_timer and set_timer ----------------------------------------

  /** `fetch_timer(n)`'s counter arguments: TIFRn, TIMSKn and the width. */
  function TimerCounter(n: nat): (c: Counter)
    requires n < 3
    ensures CounterOk(c) && c.n == n
  {
    if n == 0 then Counter(0, TIFR0, TIMSK0, 8)
    else if n == 1 then Counter(1, TIFR1, TIMSK1, 16)
    else Counter(2, TIFR2, TIMSK2, 8)
  }

  /** TCCRnB, whose clock select bits enable timer `n`. */
  function TimerControl(n: nat): (r: nat)
    requires n < 3
    ensures r < IoSize
  {
    if n == 0 then TCCR0B else if n == 1 then TCCR1B else TCCR2B
  }

  /** The prescaler of timer `n`. */
  function PrescalerOf(t: Tester, n: nat): Prescaler
    reads t
    requires n < 3
  {
    if n == 2 then t.p2 else t.p01
  }

  /** The clock timer `n`'s prescaler reads: the 16 MHz oscillator for
      timers 0 and 1; for timer 2 the 32768 Hz oscillator when ASSR.AS2
      selects it, the CPU cycle counter otherwise. `osc` is the reading of
      the oscillator at the frequency that applies. */
  function ClockOf(avr: Avr, n: nat, osc: u64): u64
    reads avr, avr.io
    requires avr.Valid()
  {
    if n == 2 && avr.io[ASSR] & AS2 == 0 then avr.cycle else osc
  }

  /** The clock select bits of TCCRnB; zero stops timer `n`. */
  function Select(avr: Avr, n: nat): (sel: nat)
    reads avr, avr.io
    requires avr.Valid() && n < 3
    ensures sel < 8
  {
    (avr.io[TimerControl(n)] & 7) as nat
  }

  /** The tap width timer `n` counts with at clock select `sel`. */
  function TapOf(t: Tester, n: nat, sel: nat): (w: nat)
    reads t, t.wd, t.p01, t.p2
    requires t.Valid() && n < 3 && 1 <= sel <= 7
    ensures w <= 20
  {
    PrescalerOf(t, n).taps[sel - 1]
  }

  /** `fetch_timer(n)`: poll timer `n` through its prescaler. */
  method FetchTimer(avr: Avr, t: Tester, n: nat, osc: u64)
    requires avr.Valid() && t.Valid() && n < 3
    modifies PrescalerOf(t, n)`lastReset, PrescalerOf(t, n)`prevCycle, PrescalerOf(t, n)`counted, PrescalerOf(t, n)`busy
    modifies avr.io, avr`intr, t.timer, t.overflows
    ensures t.Valid()
    ensures var p := PrescalerOf(t, n);
      var c := TimerCounter(n);
      var sel := old(Select(avr, n));
      var on := sel != 0 && !p.busy;
      && p.busy == old(p.busy)
      && (!on ==>
            && PreOf(p) == old(PreOf(p)) && avr.io[..] == old(avr.io[..]) && avr.intr == old(avr.intr)
            && t.timer[..] == old(t.timer[..]) && t.overflows[..] == old(t.overflows[..]))
      && (on ==>
            var s := Scaled(PreOf(p), TapOf(t, n, sel), t.timerOfs[n]);
            && PreOf(p) == Advance(old(PreOf(p)), old(ClockOf(avr, n, osc)), old(avr.io[GTCCR]) & p.resetBit != 0)
            && t.timer[..] == old(t.timer[..])[n := s]
            && Polled(old(avr.io[..]), avr.io[..], old(avr.intr), avr.intr,
                      old(t.overflows[..]), t.overflows[..], c, old(t.timer[n]), s))
  {
    var clock := ClockOf(avr, n, osc);
    Prescale(avr, t, PrescalerOf(t, n), clock, TimerControl(n), Some(TimerCounter(n)));
  }

  /** `set_timer(n, val)`: fetch timer `n`, then choose the offset that
      makes its own bits read `val`. */
  method SetTimer(avr: Avr, t: Tester, n: nat, val: nat, osc: u64)
    requires avr.Valid() && t.Valid() && n < 3
    requires val < Span(TimerCounter(n).bits)
    modifies PrescalerOf(t, n)`lastReset, PrescalerOf(t, n)`prevCycle, PrescalerOf(t, n)`counted, PrescalerOf(t, n)`busy
    modifies avr.io, avr`intr, t.timer, t.overflows, t.timerOfs
    ensures t.Valid()
    ensures var p := PrescalerOf(t, n);
      var c := TimerCounter(n);
      var sel := old(Select(avr, n));
      var on := sel != 0 && !p.busy;
      var fetched := if on then Scaled(PreOf(p), TapOf(t, n, sel), old(t.timerOfs[n])) else old(t.timer[n]);
      var raw := Wrap64(fetched - old(t.timerOfs[n]));
      && p.busy == old(p.busy)
      && (!on ==>
            && PreOf(p) == old(PreOf(p)) && avr.io[..] == old(avr.io[..]) && avr.intr == old(avr.intr)
            && t.overflows[..] == old(t.overflows[..]))
      && (on ==>
            && PreOf(p) == Advance(old(PreOf(p)), old(ClockOf(avr, n, osc)), old(avr.io[GTCCR]) & p.resetBit != 0)
            && Polled(old(avr.io[..]), avr.io[..], old(avr.intr), avr.intr,
                      old(t.overflows[..]), t.overflows[..], c, old(t.timer[n]), fetched))
      && t.timerOfs[..] == old(t.timerOfs[..])[n := val - raw % Span(c.bits)]
      && t.timer[..] == old(t.timer[..])[n := raw - raw % Span(c.bits) + val]
      && t.timer[n] % Span(c.bits) == val && t.timer[n] / Span(c.bits) == raw / Span(c.bits)
  {
    FetchTimer(avr, t, n, osc);
    Rebase(t, n, val);
  }

  /** The offset arithmetic of `set_timer`, after the fetch. */
  method Rebase(t: Tester, n: nat, val: nat)
    requires t.Valid() && n < 3 && val < Span(TimerCounter(n).bits)
    modifies t.timer, t.timerOfs
    ensures var bits := TimerCounter(n).bits;
      var raw := Wrap64(old(t.timer[n]) - old(t.timerOfs[n]));
      && t.timerOfs[..] == old(t.timerOfs[..])[n := val - raw % Span(bits)]
      && t.timer[..] == old(t.timer[..])[n := raw - raw % Span(bits) + val]
      && t.timer[n] % Span(bits) == val && t.timer[n] / Span(bits) == raw / Span(bits)
  {
    var bits := TimerCounter(n).bits;
    t.timer[n] := Wrap64(t.timer[n] - t.timerOfs[n]);
    ghost var raw := t.timer[n];
    SetTimerBits(raw, val, bits);
    t.timerOfs[n] := ToInt32(Wrap64(val - t.timer[n] % Span(bits)));
    t.timer[n] := Wrap64(t.timer[n] + t.timerOfs[n]);
  }
}
