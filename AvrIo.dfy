/** The I/O hooks of tester.c: `avr_io_out(port, prev)`, called after the
    program has written `avr_IO[port]` (whose earlier value is `prev`), and
    `avr_io_in(port)`, called before the program reads it. Host stdio is
    replaced by parameters: the byte `getchar` returns and whether a
    further byte is waiting. */
module AvrIo {
  import opened HostWords
  import opened AvrRegs
  import opened AvrState
  import opened AvrTimers

  // ---- The EEPROM controller ------------------------------------------

  /** What a write to EECR leaves: the cycle counter, EECR, EEDR, the
      addressed EEPROM byte, `last_eempe` and whether `avr_INT` is raised. */
  datatype EeOut = EeOut(cycle: u64, eecr: bv8, eedr: bv8, cell: bv8, lastEempe: u64, raise: bool)

  /** The bits a committed write or a read clears. */
  const EeStrobes: bv8 := EEMPE | EEPE | EERE

  /** A write of EEPE commits only within 4 cycles of the write of EEMPE
      (the difference is taken on the unsigned 64-bit counter). */
  predicate EeWindow(cycle: u64, lastEempe: u64) {
    Wrap64(cycle - lastEempe) <= 4
  }

  /** The EECR hook for the written value `eecr`, with EEDR `eedr` and the
      addressed EEPROM byte `cell`: a committed write takes 2 extra cycles
      and programs the byte; otherwise EERE reads the byte into EEDR in 4
      extra cycles. EEMPE still set opens the 4-cycle window; EERIE
      raises the interrupt. */
  function EecrStep(cycle: u64, lastEempe: u64, eecr: bv8, eedr: bv8, cell: bv8): EeOut {
    var o :=
      if EeWindow(cycle, lastEempe) && eecr & EEPE != 0 then
        EeOut(Wrap64(cycle + 2), eecr & !EeStrobes, eedr, EepromProgram(cell, eedr, eecr), lastEempe, false)
      else if eecr & EERE != 0 then
        EeOut(Wrap64(cycle + 4), eecr & !EeStrobes, cell, cell, lastEempe, false)
      else
        EeOut(cycle, eecr, eedr, cell, lastEempe, false);
    o.(lastEempe := if o.eecr & EEMPE != 0 then o.cycle else lastEempe, raise := o.eecr & EERIE != 0)
  }

  /** The byte is programmed exactly when EEPE is written within the
      window, in the mode EEPM1:0 selects; then 2 cycles are added, EEDR is
      kept and the strobes are cleared. */
  lemma EepromCommits(cycle: u64, lastEempe: u64, eecr: bv8, eedr: bv8, cell: bv8)
    requires EeWindow(cycle, lastEempe) && eecr & EEPE != 0
    ensures var o := EecrStep(cycle, lastEempe, eecr, eedr, cell);
      && o.cell == EepromProgram(cell, eedr, eecr)
      && o.cycle == Wrap64(cycle + 2) && o.eedr == eedr
      && o.eecr == eecr & !EeStrobes && o.lastEempe == lastEempe
      && o.raise == (eecr & EERIE != 0)
  {
  }

  /** Otherwise EERE reads the byte into EEDR in 4 extra cycles and leaves
      it unchanged. */
  lemma EepromReads(cycle: u64, lastEempe: u64, eecr: bv8, eedr: bv8, cell: bv8)
    requires !(EeWindow(cycle, lastEempe) && eecr & EEPE != 0) && eecr & EERE != 0
    ensures var o := EecrStep(cycle, lastEempe, eecr, eedr, cell);
      && o.cell == cell && o.eedr == cell
      && o.cycle == Wrap64(cycle + 4)
      && o.eecr == eecr & !EeStrobes && o.lastEempe == lastEempe
  {
  }

  /** With neither, only the window and the interrupt can change: writing
      EEMPE opens the window at the current cycle. */
  lemma EepromIdle(cycle: u64, lastEempe: u64, eecr: bv8, eedr: bv8, cell: bv8)
    requires !(EeWindow(cycle, lastEempe) && eecr & EEPE != 0) && eecr & EERE == 0
    ensures var o := EecrStep(cycle, lastEempe, eecr, eedr, cell);
      && o.cell == cell && o.eedr == eedr && o.cycle == cycle && o.eecr == eecr
      && o.lastEempe == (if eecr & EEMPE != 0 then cycle else lastEempe)
  {
  }

  /** The timed sequence: writing EEMPE alone, then EEPE within 4 cycles,
      programs the addressed byte. Writing EEPE later does not. */
  lemma {:induction false} TimedWrite(c0: u64, last: u64, eecr0: bv8, k: nat, eecr1: bv8, eedr: bv8, cell: bv8)
    requires eecr0 & (EEMPE | EEPE | EERE) == EEMPE && eecr1 & EEPE != 0
    requires !EeWindow(c0, last) && c0 + k < 0x1_0000_0000_0000_0000
    ensures var o0 := EecrStep(c0, last, eecr0, eedr, cell);
      var o1 := EecrStep(Wrap64(c0 + k), o0.lastEempe, eecr1, eedr, o0.cell);
      && o0.cell == cell && o0.lastEempe == c0
      && (k <= 4 ==> o1.cell == EepromProgram(cell, eedr, eecr1))
      && (k > 4 && eecr1 & EERE == 0 ==> o1.cell == cell)
  {
    EepromIdle(c0, last, eecr0, eedr, cell);
    var o0 := EecrStep(c0, last, eecr0, eedr, cell);
    assert Wrap64(Wrap64(c0 + k) - c0) == k;
    if k <= 4 {
      EepromCommits(Wrap64(c0 + k), c0, eecr1, eedr, cell);
    } else if eecr1 & EERE == 0 {
      EepromIdle(Wrap64(c0 + k), c0, eecr1, eedr, cell);
    }
  }

  /** The EECR case of `avr_io_out`. */
  method EecrWritten(avr: Avr, t: Tester)
    requires avr.Valid() && t.eeprom.Length == 0x1_0000
    modifies avr`cycle, avr.io, avr`intr, t.eeprom, t`lastEempe
    ensures var a := EepromAddress(old(avr.io[EEARH]), old(avr.io[EEARL]));
      var o := EecrStep(old(avr.cycle), old(t.lastEempe), old(avr.io[EECR]), old(avr.io[EEDR]), old(t.eeprom[a]));
      && avr.cycle == o.cycle
      && avr.io[..] == old(avr.io[..])[EECR := o.eecr][EEDR := o.eedr]
      && t.eeprom[..] == old(t.eeprom[..])[a := o.cell]
      && t.lastEempe == o.lastEempe
      && avr.intr == (old(avr.intr) || o.raise)
  {
    var a := EepromAddress(avr.io[EEARH], avr.io[EEARL]);
    var eecr := EeAccess(avr, t, a);
    avr.io[EECR] := eecr;
    if eecr & EEMPE != 0 {
      t.lastEempe := avr.cycle;
    }
    if eecr & EERIE != 0 {
      avr.intr := true;
    }
  }

  /** The write or the read an EECR write starts, with the new EECR
      value, which the caller stores. */
  method EeAccess(avr: Avr, t: Tester, a: nat) returns (eecr: bv8)
    requires avr.Valid() && t.eeprom.Length == 0x1_0000 && a < 0x1_0000
    modifies avr`cycle, avr.io, t.eeprom
    ensures var o := EecrStep(old(avr.cycle), t.lastEempe, old(avr.io[EECR]), old(avr.io[EEDR]), old(t.eeprom[a]));
      && avr.cycle == o.cycle && eecr == o.eecr
      && avr.io[..] == old(avr.io[..])[EEDR := o.eedr]
      && t.eeprom[..] == old(t.eeprom[..])[a := o.cell]
  {
    eecr := avr.io[EECR];
    if EeWindow(avr.cycle, t.lastEempe) && eecr & EEPE != 0 {
      EepromCommits(avr.cycle, t.lastEempe, eecr, avr.io[EEDR], t.eeprom[a]);
      avr.cycle := Wrap64(avr.cycle + 2);
      Program(avr, t, a);
      eecr := eecr & !(EEMPE | EEPE | EERE);
    } else if eecr & EERE != 0 {
      EepromReads(avr.cycle, t.lastEempe, eecr, avr.io[EEDR], t.eeprom[a]);
      avr.cycle := Wrap64(avr.cycle + 4);
      avr.io[EEDR] := t.eeprom[a];
      eecr := eecr & !(EEMPE | EEPE | EERE);
    } else {
      EepromIdle(avr.cycle, t.lastEempe, eecr, avr.io[EEDR], t.eeprom[a]);
    }
  }

  /** The erase and the programming of a committed write. */
  method Program(avr: Avr, t: Tester, a: nat)
    requires avr.Valid() && t.eeprom.Length == 0x1_0000 && a < 0x1_0000
    modifies t.eeprom
    ensures t.eeprom[..] == old(t.eeprom[..])[a := EepromProgram(old(t.eeprom[a]), avr.io[EEDR], avr.io[EECR])]
  {
    if avr.io[EECR] & EEPM1 == 0 {
      t.eeprom[a] := 0xFF;
    }
    if avr.io[EECR] & EEPM0 == 0 {
      t.eeprom[a] := t.eeprom[a] & avr.io[EEDR];
    }
  }

  // ---- Write masks ------------------------------------------------------

  /** The UCSR0A case of `avr_io_out`: only the writable bits take the
      written value (UcsrWrite). */
  method UcsrWritten(avr: Avr, prev: bv8)
    requires avr.Valid()
    modifies avr.io
    ensures avr.io[..] == old(avr.io[..])[UCSR0A := UcsrWrite(prev, old(avr.io[UCSR0A]))]
  {
    avr.io[UCSR0A] := (prev & !0x43) | (((avr.io[UCSR0A] & 0x43) | (!prev & TXC)) ^ TXC);
  }

  /** What a write to WDTCSR leaves: the register and `last_wdce`. */
  datatype WdtOut = WdtOut(wdtcsr: bv8, lastWdce: u64)

  /** WDTCSR is locked unless WDCE or WDE was written within the last 4
      cycles, and always while MCUSR.WDRF is set. */
  predicate WdLocked(cycle: u64, lastWdce: u64, mcusr: bv8) {
    Wrap64(cycle - lastWdce) > 4 || mcusr & WDRF != 0
  }

  /** The WDTCSR hook at cycle `cycle` for the written value `written`:
      the register is locked unless WDCE or WDE was written within the
      last 4 cycles and MCUSR.WDRF is clear; a masked value with WDCE or
      WDE set (re)opens the window. */
  function WdtcsrStep(cycle: u64, lastWdce: u64, mcusr: bv8, prev: bv8, written: bv8): WdtOut {
    var locked := WdLocked(cycle, lastWdce, mcusr);
    var v := WdtcsrMasked(prev, written, locked);
    WdtOut(WdtcsrWrite(prev, written, locked), if v & (WDCE | WDE) != 0 then cycle else lastWdce)
  }

  /** The timed sequence: a write of WDCE|WDE, then within 4 cycles (with
      WDRF clear) any value, which the register then takes in full, less
      WDCE and WDIF. Without the first write, outside the window, the
      period bits keep their old value and WDE stays set. */
  lemma {:induction false} WatchdogTimedChange(c0: u64, last: u64, mcusr: bv8, prev: bv8, w0: bv8, k: nat, w1: bv8)
    requires w0 & (WDCE | WDE) == WDCE | WDE && mcusr & WDRF == 0
    requires Wrap64(c0 - last) > 4 && c0 + k < 0x1_0000_0000_0000_0000
    ensures var o0 := WdtcsrStep(c0, last, mcusr, prev, w0);
      var o1 := WdtcsrStep(c0 + k, o0.lastWdce, mcusr, o0.wdtcsr, w1);
      && o0.lastWdce == c0
      && o0.wdtcsr & WDP == prev & WDP && o0.wdtcsr & WDE != 0
      && (k <= 4 ==> o1.wdtcsr == w1 & !(WDCE | WDIF))
      && (k > 4 ==> o1.wdtcsr & WDP == prev & WDP && o1.wdtcsr & WDE != 0)
  {
    WdtcsrWriteBits(prev, w0, true);
    var o0 := WdtcsrStep(c0, last, mcusr, prev, w0);
    assert Wrap64(c0 + k - c0) == k;
    WdtcsrWriteBits(o0.wdtcsr, w1, k > 4);
  }

  /** The WDTCSR case of `avr_io_out`. */
  method WdtcsrWritten(avr: Avr, t: Tester, prev: bv8)
    requires avr.Valid() && t.Valid()
    modifies avr.io, t`lastWdce
    ensures var o := WdtcsrStep(avr.cycle, old(t.lastWdce), avr.io[MCUSR], prev, old(avr.io[WDTCSR]));
      && avr.io[..] == old(avr.io[..])[WDTCSR := o.wdtcsr]
      && t.lastWdce == o.lastWdce
  {
    var locked := WdLocked(avr.cycle, t.lastWdce, avr.io[MCUSR]);
    var v, opens := WdtcsrMasking(prev, avr.io[WDTCSR], locked);
    if opens {
      t.lastWdce := avr.cycle;
    }
    avr.io[WDTCSR] := v;
  }

  /** The register arithmetic of the WDTCSR hook: the masked value, whether
      it opens the window, and the value stored. */
  method WdtcsrMasking(prev: bv8, written: bv8, locked: bool) returns (v: bv8, opens: bool)
    ensures v == WdtcsrWrite(prev, written, locked)
    ensures opens == (WdtcsrMasked(prev, written, locked) & (WDCE | WDE) != 0)
  {
    v := written;
    if locked {
      v := (prev & 0x2F) | (v & !0x27);
    }
    opens := v & (WDCE | WDE) != 0;
    v := v & !(WDCE | (v & WDIF));
  }

  /** The TIFR0/TIFR1/TIFR2 case of `avr_io_out`: any write clears the
      register. */
  method FlagsWritten(avr: Avr, port: nat)
    requires avr.Valid() && port in {TIFR0, TIFR1, TIFR2}
    modifies avr.io
    ensures avr.io[..] == old(avr.io[..])[port := 0]
  {
    avr.io[port] := 0;
  }

  /** The PINA..PIND case of `avr_io_out`: the written bits toggle PORTx
      and PINx reads 0 again. */
  method PinWritten(avr: Avr, port: nat)
    requires avr.Valid() && port in {PINA, PINB, PINC, PIND}
    modifies avr.io
    ensures avr.io[..] == old(avr.io[..])[port + 2 := old(avr.io[port + 2]) ^ old(avr.io[port])][port := 0]
  {
    avr.io[port + 2] := avr.io[port + 2] ^ avr.io[port];
    avr.io[port] := 0;
  }

  /** Toggling through PINx twice with the same mask restores PORTx, and a
      toggle changes exactly the bits of the mask. */
  lemma PinToggles(portx: bv8, mask: bv8)
    ensures (portx ^ mask) ^ mask == portx
    ensures (portx ^ mask) & mask == !portx & mask
    ensures (portx ^ mask) & !mask == portx & !mask
  {
  }

  // ---- The serial port ----------------------------------------------------

  /** The UDR0 case of `avr_io_out`: the byte goes to the host at once, so
      the transmitter reports complete and empty, interrupting when
      UCSR0B enables either. */
  method UdrWritten(avr: Avr)
    requires avr.Valid()
    modifies avr.io, avr`intr
    ensures avr.io[..] == old(avr.io[..])[UCSR0A := old(avr.io[UCSR0A]) | TXC | UDRE]
    ensures avr.intr == (old(avr.intr) || avr.io[UCSR0B] & (TXC | UDRE) != 0)
  {
    avr.io[UCSR0A] := avr.io[UCSR0A] | (TXC | UDRE);
    if avr.io[UCSR0B] & (TXC | UDRE) != 0 {
      avr.intr := true;
    }
  }

  /** UCSR0A as `avr_io_in(UCSR0A)` leaves it: RXC is set when it was clear
      and a byte is waiting (`more`), and UDRE is always set. */
  function UcsrPolledValue(ucsr: bv8, more: bool): bv8 {
    if ucsr & RXC == 0 && more then ucsr | RXC | UDRE else ucsr | UDRE
  }

  /** The UCSR0A case of `avr_io_in` (and the UCSR0B case of `avr_io_out`,
      which calls it): the flags, then the interrupt when UCSR0B enables
      one that is set. */
  method UcsrPolled(avr: Avr, more: bool)
    requires avr.Valid()
    modifies avr.io, avr`intr
    ensures avr.io[..] == old(avr.io[..])[UCSR0A := UcsrPolledValue(old(avr.io[UCSR0A]), more)]
    ensures avr.intr == (old(avr.intr) || avr.io[UCSR0A] & avr.io[UCSR0B] & (RXC | UDRE) != 0)
  {
    if avr.io[UCSR0A] & RXC == 0 && more {
      avr.io[UCSR0A] := avr.io[UCSR0A] | (RXC | UDRE);
    } else {
      avr.io[UCSR0A] := avr.io[UCSR0A] | UDRE;
    }
    if avr.io[UCSR0A] & avr.io[UCSR0B] & (RXC | UDRE) != 0 {
      avr.intr := true;
    }
  }

  /** A poll sets UDRE, keeps every other flag that was set, and sets RXC
      exactly when it was set or a byte is waiting. */
  lemma PollFlags(ucsr: bv8, more: bool)
    ensures UcsrPolledValue(ucsr, more) & UDRE != 0
    ensures UcsrPolledValue(ucsr, more) & ucsr == ucsr
    ensures UcsrPolledValue(ucsr, more) & RXC != 0 <==> ucsr & RXC != 0 || more
    ensures UcsrPolledValue(ucsr, more) & !(RXC | UDRE) == ucsr & !(RXC | UDRE)
  {
  }

  /** The UDR0 case of `avr_io_in`: the byte `getchar` returned (`c`, -1
      at end of input, stored as the `unsigned char` 0xFF), RXC cleared,
      then the UCSR0A case for the byte after it. */
  method UdrRead(avr: Avr, c: int, more: bool)
    requires avr.Valid() && -1 <= c < 256
    modifies avr.io, avr`intr
    ensures var ucsr := old(avr.io[UCSR0A]) & !RXC;
      && avr.io[..] == old(avr.io[..])[UDR0 := NatByte(c % 256)][UCSR0A := UcsrPolledValue(ucsr, more)]
      && avr.intr == (old(avr.intr) || avr.io[UCSR0A] & avr.io[UCSR0B] & (RXC | UDRE) != 0)
  {
    avr.io[UDR0] := NatByte(c % 256);
    avr.io[UCSR0A] := avr.io[UCSR0A] & !RXC;
    UcsrPolled(avr, more);
  }

  // ---- The counters -------------------------------------------------------

  /** The low 8 bits of a count, which a counter register reads. */
  function LowPart(x: u64): nat {
    x % 0x100
  }

  /** Bits 8 to 15 of a count, which TEMP latches when TCNT1L is read. */
  function HighPart(x: u64): nat {
    x / 0x100 % 0x100
  }

  function LowByte(x: u64): bv8 {
    NatByte(LowPart(x))
  }

  function HighByte(x: u64): bv8 {
    NatByte(HighPart(x))
  }

  /** The high and the low part together are the counter's low 16 bits. */
  lemma PartsJoin(x: u64)
    ensures HighPart(x) * 0x100 + LowPart(x) == x % 0x1_0000
  {
    var q := x / 0x100;
    assert x == q * 0x100 + x % 0x100;
    assert x / 0x1_0000 == q / 0x100;
  }

  /** The TCNT0 case of `avr_io_in`: poll timer 0, then the register reads
      its low byte. */
  method Tcnt0Read(avr: Avr, t: Tester, osc: u64)
    requires avr.Valid() && t.Valid()
    modifies t.p01`lastReset, t.p01`prevCycle, t.p01`counted, t.p01`busy
    modifies avr.io, avr`intr, t.timer, t.overflows
    ensures t.Valid() && avr.io[TCNT0] == LowByte(t.timer[0])
  {
    FetchTimer(avr, t, 0, osc);
    avr.io[TCNT0] := LowByte(t.timer[0]);
  }

  /** The TCNT1L case of `avr_io_in`: poll timer 1; the register reads its
      low byte and TEMP latches the high byte. */
  method Tcnt1LRead(avr: Avr, t: Tester, osc: u64)
    requires avr.Valid() && t.Valid()
    modifies t.p01`lastReset, t.p01`prevCycle, t.p01`counted, t.p01`busy
    modifies avr.io, avr`intr, t.timer, t.overflows, t`temp
    ensures t.Valid() && avr.io[TCNT1L] == LowByte(t.timer[1]) && t.temp == HighByte(t.timer[1])
  {
    FetchTimer(avr, t, 1, osc);
    avr.io[TCNT1L] := LowByte(t.timer[1]);
    t.temp := HighByte(t.timer[1]);
  }

  /** The TCNT1H case of `avr_io_in`: the register reads TEMP. */
  method Tcnt1HRead(avr: Avr, t: Tester)
    requires avr.Valid()
    modifies avr.io
    ensures avr.io[..] == old(avr.io[..])[TCNT1H := t.temp]
  {
    avr.io[TCNT1H] := t.temp;
  }

  /** A 16-bit read as the program performs it, low byte first: the two
      bytes are the low and the high byte of the count at the time of the
      first read (PartsJoin), however the counter moves in between. */
  method Read16(avr: Avr, t: Tester, osc: u64) returns (hi: bv8, lo: bv8)
    requires avr.Valid() && t.Valid()
    modifies t.p01`lastReset, t.p01`prevCycle, t.p01`counted, t.p01`busy
    modifies avr.io, avr`intr, t.timer, t.overflows, t`temp
    ensures t.Valid() && hi == HighByte(t.timer[1]) && lo == LowByte(t.timer[1])
  {
    Tcnt1LRead(avr, t, osc);
    lo := avr.io[TCNT1L];
    Tcnt1HRead(avr, t);
    hi := avr.io[TCNT1H];
  }

  /** Stepping the cycle counter one ahead and back restores it. */
  lemma CycleBack(c: u64)
    ensures Wrap64(Wrap64(c + 1) - 1) == c
  {
  }

  /** The TCNT0 and TCNT2 cases of `avr_io_out`: `set_timer` with the
      written byte, one cycle ahead (the write's own cycle). */
  method Tcnt8Written(avr: Avr, t: Tester, n: nat, osc: u64)
    requires avr.Valid() && t.Valid() && (n == 0 || n == 2)
    modifies PrescalerOf(t, n)`lastReset, PrescalerOf(t, n)`prevCycle, PrescalerOf(t, n)`counted, PrescalerOf(t, n)`busy
    modifies avr`cycle, avr.io, avr`intr, t.timer, t.overflows, t.timerOfs
    ensures t.Valid() && avr.cycle == old(avr.cycle)
    ensures t.timer[n] % 0x100 == old(avr.io[if n == 0 then TCNT0 else TCNT2]) as nat
  {
    var val := avr.io[if n == 0 then TCNT0 else TCNT2] as nat;
    assert Span(TimerCounter(n).bits) == 0x100;
    ghost var c0 := avr.cycle;
    CycleBack(c0);
    avr.cycle := Wrap64(avr.cycle + 1);
    SetTimer(avr, t, n, val, osc);
    avr.cycle := Wrap64(avr.cycle - 1);
  }

  /** The TCNT1H case of `avr_io_out`: the byte waits in TEMP. */
  method Tcnt1HWritten(avr: Avr, t: Tester)
    requires avr.Valid()
    modifies t`temp
    ensures t.temp == avr.io[TCNT1H]
  {
    t.temp := avr.io[TCNT1H];
  }

  /** The TCNT1L case of `avr_io_out`: `set_timer` with TEMP as the high
      byte, one cycle ahead. */
  method Tcnt1LWritten(avr: Avr, t: Tester, osc: u64)
    requires avr.Valid() && t.Valid()
    modifies t.p01`lastReset, t.p01`prevCycle, t.p01`counted, t.p01`busy
    modifies avr`cycle, avr.io, avr`intr, t.timer, t.overflows, t.timerOfs
    ensures t.Valid() && avr.cycle == old(avr.cycle)
    ensures t.timer[1] % 0x1_0000 == old(avr.io[TCNT1L]) as nat + old(t.temp) as nat * 0x100
  {
    ghost var c0 := avr.cycle;
    CycleBack(c0);
    avr.cycle := Wrap64(avr.cycle + 1);
    SetTimer(avr, t, 1, avr.io[TCNT1L] as nat + t.temp as nat * 0x100, osc);
    avr.cycle := Wrap64(avr.cycle - 1);
  }

  /** A 16-bit write as the program performs it, high byte first: the
      counter's low 16 bits then read `hi:lo`. */
  method Write16(avr: Avr, t: Tester, hi: bv8, lo: bv8, osc: u64)
    requires avr.Valid() && t.Valid()
    modifies t.p01`lastReset, t.p01`prevCycle, t.p01`counted, t.p01`busy
    modifies avr`cycle, avr.io, avr`intr, t.timer, t.overflows, t.timerOfs, t`temp
    ensures t.Valid() && t.timer[1] % 0x1_0000 == hi as nat * 0x100 + lo as nat
  {
    avr.io[TCNT1H] := hi;
    Tcnt1HWritten(avr, t);
    avr.io[TCNT1L] := lo;
    Tcnt1LWritten(avr, t, osc);
  }

  /** The TCCR0B, TCCR1B and TCCR2B cases of `avr_io_out`: a new clock
      select takes effect from the count the registers show, re-set
      through `set_timer`. */
  method TccrWritten(avr: Avr, t: Tester, n: nat, osc: u64)
    requires avr.Valid() && t.Valid() && n < 3
    modifies PrescalerOf(t, n)`lastReset, PrescalerOf(t, n)`prevCycle, PrescalerOf(t, n)`counted, PrescalerOf(t, n)`busy
    modifies avr.io, avr`intr, t.timer, t.overflows, t.timerOfs
    ensures t.Valid()
    ensures n == 0 ==> t.timer[0] % 0x100 == old(avr.io[TCNT0]) as nat
    ensures n == 2 ==> t.timer[2] % 0x100 == old(avr.io[TCNT2]) as nat
    ensures n == 1 ==> t.timer[1] % 0x1_0000 == old(avr.io[TCNT1L]) as nat + old(avr.io[TCNT1H]) as nat * 0x100
  {
    if n == 0 {
      SetTimer(avr, t, 0, avr.io[TCNT0] as nat, osc);
    } else if n == 2 {
      SetTimer(avr, t, 2, avr.io[TCNT2] as nat, osc);
    } else {
      SetTimer(avr, t, 1, avr.io[TCNT1L] as nat + avr.io[TCNT1H] as nat * 0x100, osc);
    }
  }
}

module AvrGtccr {
  import opened HostWords
  import opened AvrRegs
  import opened AvrState
  import opened AvrTimers

  /** One run of a prescaler with GTCCR standing in for its control
      register: it runs only when one of GTCCR's low three bits is set,
      and resets when its own reset bit is. */
  function GtccrPass(p: Pre, busy: bool, reg: bv8, bit: bv8, clock: u64): Pre {
    if reg & 7 == 0 || busy then p else Advance(p, clock, reg & bit != 0)
  }

  /** The two runs the GTCCR hook makes: first with the reset bits that
      changed since the previous value, then with the written value. */
  function GtccrPasses(p: Pre, busy: bool, prev: bv8, written: bv8, bit: bv8, clock: u64): Pre {
    GtccrPass(GtccrPass(p, busy, Flip(written, prev), bit, clock), busy, written, bit, clock)
  }

  /** The hook's toggle: the reset bits that were set before flip. */
  function Flip(reg: bv8, prev: bv8): bv8 {
    reg ^ (prev & (PSRASY | PSRSYNC))
  }

  /** Toggling twice restores the written value. */
  lemma FlipBack(reg: bv8, prev: bv8)
    ensures Flip(Flip(reg, prev), prev) == reg
  {
  }

  /** GTCCR after the hook: kept while TSM holds the prescalers, else 0. */
  function GtccrOut(written: bv8): (r: bv8)
    ensures r & TSM == written & TSM
    ensures r == 0 || r == written
  {
    if written & TSM == 0 then 0 else written
  }

  /** A reset bit that is written, or that is released after TSM held it,
      leaves the prescaler in reset at the current clock. */
  lemma {:induction false} GtccrResets(p: Pre, busy: bool, prev: bv8, written: bv8, bit: bv8, clock: u64)
    requires !busy && (bit == PSRSYNC || bit == PSRASY) && (written | prev) & bit != 0
    ensures var q := GtccrPasses(p, busy, prev, written, bit, clock);
      q.lastReset == q.counted && q.prevCycle == clock
  {
    var first := Flip(written, prev);
    var q1 := GtccrPass(p, busy, first, bit, clock);
    if written & bit != 0 {
      assert written & 7 != 0;
      ResetHolds(q1, clock, clock);
    } else {
      assert first & bit != 0 && first & 7 != 0;
      assert q1 == Advance(p, clock, true);
      ResetHolds(p, clock, clock);
      AdvanceIdle(q1, written & bit != 0);
    }
  }

  /** A reset bit written while none was pending resets the prescaler
      exactly as the prescaler's own reset does. */
  lemma {:induction false} GtccrFreshReset(p: Pre, prev: bv8, written: bv8, bit: bv8, clock: u64)
    requires (bit == PSRSYNC || bit == PSRASY) && written & bit != 0 && prev & bit == 0
    ensures GtccrPasses(p, false, prev, written, bit, clock) == Advance(p, clock, true)
  {
    var first := Flip(written, prev);
    assert first & bit != 0 && first & 7 != 0 && written & 7 != 0;
    ResetHolds(p, clock, clock);
    AdvanceIdle(Advance(p, clock, true), true);
  }

  /** Without its reset bit, old or new, a prescaler is at most brought up
      to the current clock. */
  lemma {:induction false} GtccrNoReset(p: Pre, busy: bool, prev: bv8, written: bv8, bit: bv8, clock: u64)
    requires (bit == PSRSYNC || bit == PSRASY) && (written | prev) & bit == 0
    ensures var q := GtccrPasses(p, busy, prev, written, bit, clock);
      q == p || q == Advance(p, clock, false)
  {
    var first := Flip(written, prev);
    assert first & bit == 0;
    var q1 := GtccrPass(p, busy, first, bit, clock);
    if q1 != p {
      AdvanceIdle(q1, false);
    }
  }

  /** GTCCR set to `reg`, then prescaler 0/1 and prescaler 2 run with it.
      `osc01` is the 16 MHz oscillator reading that drives prescaler 0/1,
      `osc2` the 32768 Hz reading that drives prescaler 2 when ASSR.AS2
      selects it (otherwise prescaler 2 follows the cycle counter). */
  method PrescaleBoth(avr: Avr, t: Tester, reg: bv8, osc01: u64, osc2: u64)
    requires avr.Valid() && t.Valid()
    modifies t.p01`lastReset, t.p01`prevCycle, t.p01`counted, t.p01`busy
    modifies t.p2`lastReset, t.p2`prevCycle, t.p2`counted, t.p2`busy
    modifies avr.io, avr`intr, t.timer, t.overflows
    ensures t.Valid() && t.p01.busy == old(t.p01.busy) && t.p2.busy == old(t.p2.busy)
    ensures PreOf(t.p01) == GtccrPass(old(PreOf(t.p01)), t.p01.busy, reg, PSRSYNC, osc01)
    ensures PreOf(t.p2) == GtccrPass(old(PreOf(t.p2)), t.p2.busy, reg, PSRASY, old(ClockOf(avr, 2, osc2)))
    ensures avr.io[..] == old(avr.io[..])[GTCCR := reg] && avr.intr == old(avr.intr)
    ensures t.timer[..] == old(t.timer[..]) && t.overflows[..] == old(t.overflows[..])
  {
    avr.io[GTCCR] := reg;
    Prescale(avr, t, t.p01, osc01, GTCCR, None);
    Prescale(avr, t, t.p2, ClockOf(avr, 2, osc2), GTCCR, None);
  }

  /** The GTCCR case of `avr_io_out`; `prev` is the value before the
      write, `osc01` the 16 MHz oscillator reading that drives prescaler
      0/1 and `osc2` the 32768 Hz reading that drives prescaler 2 when
      AS2 is set. */
  method GtccrWritten(avr: Avr, t: Tester, prev: bv8, osc01: u64, osc2: u64)
    requires avr.Valid() && t.Valid()
    modifies t.p01`lastReset, t.p01`prevCycle, t.p01`counted, t.p01`busy
    modifies t.p2`lastReset, t.p2`prevCycle, t.p2`counted, t.p2`busy
    modifies avr.io, avr`intr, t.timer, t.overflows
    ensures t.Valid() && t.p01.busy == old(t.p01.busy) && t.p2.busy == old(t.p2.busy)
    ensures var w := old(avr.io[GTCCR]);
      && PreOf(t.p01) == GtccrPasses(old(PreOf(t.p01)), t.p01.busy, prev, w, PSRSYNC, osc01)
      && PreOf(t.p2) == GtccrPasses(old(PreOf(t.p2)), t.p2.busy, prev, w, PSRASY, old(ClockOf(avr, 2, osc2)))
      && avr.io[..] == old(avr.io[..])[GTCCR := GtccrOut(w)]
      && avr.intr == old(avr.intr) && t.timer[..] == old(t.timer[..]) && t.overflows[..] == old(t.overflows[..])
  {
    var first := Flip(avr.io[GTCCR], prev);
    FlipBack(avr.io[GTCCR], prev);
    PrescaleBoth(avr, t, first, osc01, osc2);
    PrescaleBoth(avr, t, Flip(first, prev), osc01, osc2);
    Settle(avr);
  }

  /** The hook's last step: GTCCR clears unless TSM holds it. */
  method Settle(avr: Avr)
    requires avr.Valid()
    modifies avr.io
    ensures avr.io[..] == old(avr.io[..])[GTCCR := GtccrOut(old(avr.io[GTCCR]))]
  {
    if avr.io[GTCCR] & TSM == 0 {
      avr.io[GTCCR] := 0;
    }
  }
}
