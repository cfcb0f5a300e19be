/** What `main` does each time the executor returns 0: the reset causes,
    then the interrupt sources in a fixed priority order, and the IRET
    when no source is left. */
module AvrDispatch {
  import opened HostWords
  import opened AvrRegs
  import opened AvrState
  import opened AvrTimers
  import opened AvrIo

  /** The conditions the dispatcher tests, in the order it tests them. */
  datatype Source =
    | PowerDown
    | ExternalReset
    | WatchdogReset
    | WatchdogIrq
    | TimerOverflow(n: nat)
    | EepromReady
    | Serial

  /** What the dispatcher does with the executor next. */
  datatype Outcome =
    | Stop              // powered down: leave the loop
    | Restart           // reset: run again from the reset state
    | Vector(addr: nat) // run the interrupt handler at `addr`
    | Return            // no source is left: return from the interrupt

  /** Whether source `s` asks to be served. The serial branch is the
      fallback and is always taken when reached. */
  predicate Pending(s: Source, reason: Reason, wdtcsr: bv8, ov: seq<u32>, eecr: bv8)
    requires |ov| == 3
  {
    match s
    case PowerDown => reason == PowerOff
    case ExternalReset => reason == XReset
    case WatchdogReset => reason == WdReset
    case WatchdogIrq => wdtcsr & WDIF != 0
    case TimerOverflow(n) => n < 3 && ov[n] != 0
    case EepromReady => eecr & EERIE != 0
    case Serial => true
  }

  /** The position of a source in the dispatcher's chain of tests. */
  function Rank(s: Source): nat {
    match s
    case PowerDown => 0
    case ExternalReset => 1
    case WatchdogReset => 2
    case WatchdogIrq => 3
    case TimerOverflow(n) => 4 + n
    case EepromReady => 7
    case Serial => 8
  }

  /** The source the `if`/`else if` chain serves. */
  function Priority(reason: Reason, wdtcsr: bv8, ov: seq<u32>, eecr: bv8): Source
    requires |ov| == 3
  {
    if reason == PowerOff then PowerDown
    else if reason == XReset then ExternalReset
    else if reason == WdReset then WatchdogReset
    else if wdtcsr & WDIF != 0 then WatchdogIrq
    else Interrupt(ov, eecr)
  }

  /** The tail of the chain, after the resets and the watchdog. */
  function Interrupt(ov: seq<u32>, eecr: bv8): Source
    requires |ov| == 3
  {
    if ov[0] != 0 then TimerOverflow(0)
    else if ov[1] != 0 then TimerOverflow(1)
    else if ov[2] != 0 then TimerOverflow(2)
    else if eecr & EERIE != 0 then EepromReady
    else Serial
  }

  /** The chain serves a pending source, and no pending source comes
      before it. */
  lemma PriorityIsFirst(reason: Reason, wdtcsr: bv8, ov: seq<u32>, eecr: bv8)
    requires |ov| == 3
    ensures var s := Priority(reason, wdtcsr, ov, eecr);
      && Pending(s, reason, wdtcsr, ov, eecr)
      && forall s' :: Pending(s', reason, wdtcsr, ov, eecr) ==> Rank(s) <= Rank(s')
  {
    var s := Priority(reason, wdtcsr, ov, eecr);
    forall s' | Pending(s', reason, wdtcsr, ov, eecr)
      ensures Rank(s) <= Rank(s')
    {
      if s'.TimerOverflow? {
        assert s'.n == 0 || s'.n == 1 || s'.n == 2;
      }
    }
  }

  /** Different sources hold different places, so the first pending
      source is unique. */
  lemma RankInjective(s: Source, s': Source)
    requires Rank(s) == Rank(s') && (s.TimerOverflow? ==> s.n < 3) && (s'.TimerOverflow? ==> s'.n < 3)
    ensures s == s'
  {
  }

  /** The handler for timer `n`'s overflow. */
  function OverflowVector(n: nat): nat
    requires n < 3
  {
    if n == 0 then VecTov0 else if n == 1 then VecTov1 else VecTov2
  }

  /** The serial branch: UCSR0B's enables against the polled UCSR0A. An
      enabled UDRE wins whether TXC is set or not, TXC alone comes next,
      then RXC; with none of them the dispatcher returns. */
  function SerialVector(ucsrb: bv8, ucsra: bv8): Option<nat> {
    var f := ucsrb & ucsra & (TXC | UDRE);
    if f == UDRE || f == TXC | UDRE then Some(VecUdre)
    else if f == TXC then Some(VecTxc)
    else if ucsrb & ucsra & RXC != 0 then Some(VecRxc)
    else None
  }

  /** Polling always sets UDRE, so which serial vector is taken depends on
      the enables, on TXC as it was and on whether a byte is there. */
  lemma {:induction false} PolledSerial(ucsrb: bv8, ucsra: bv8, more: bool)
    ensures var v := SerialVector(ucsrb, UcsrPolledValue(ucsra, more));
      && (v == Some(VecUdre) <==> ucsrb & UDRE != 0)
      && (v == Some(VecTxc) <==> ucsrb & UDRE == 0 && ucsrb & ucsra & TXC != 0)
      && (v == Some(VecRxc) <==>
            ucsrb & UDRE == 0 && ucsrb & ucsra & TXC == 0 && ucsrb & RXC != 0 && (ucsra & RXC != 0 || more))
      && (v == None <==>
            ucsrb & UDRE == 0 && ucsrb & ucsra & TXC == 0 && (ucsrb & RXC == 0 || (ucsra & RXC == 0 && !more)))
  {
    var a := UcsrPolledValue(ucsra, more);
    PollFlags(ucsra, more);
    assert a & TXC == ucsra & TXC by {
      assert a & !(RXC | UDRE) == ucsra & !(RXC | UDRE);
    }
  }

  // ---- the return address on the stack ----------------------------------

  /** The byte at `sp + k` of the data space, the 16-bit stack pointer
      wrapping as `avr_SP` does. */
  function StackByte(mem: seq<bv8>, sp: u16, k: nat): bv8
    requires |mem| == 0x1_0000
  {
    mem[(sp + k) % 0x1_0000]
  }

  /** The three-byte return address above `sp`, most significant first. */
  function PoppedPc(mem: seq<bv8>, sp: u16): (pc: nat)
    requires |mem| == 0x1_0000
    ensures pc < 0x100_0000
  {
    StackByte(mem, sp, 1) as nat * 0x1_0000 + StackByte(mem, sp, 2) as nat * 0x100 + StackByte(mem, sp, 3) as nat
  }

  /** The byte of `pc` that `scale` (1, 0x100 or 0x1_0000) selects. */
  function PcByte(pc: nat, scale: nat): (b: bv8)
    requires scale == 1 || scale == 0x100 || scale == 0x1_0000
    ensures b as nat == pc / scale % 0x100
  {
    NatByte(pc / scale % 0x100)
  }

  /** A three-byte call as the executor makes it: the low byte is stored
      at `sp`, then the middle and the high byte below it, and the stack
      pointer ends three bytes lower. */
  function Pushed(mem: seq<bv8>, sp: u16, pc: nat): (m: seq<bv8>)
    requires |mem| == 0x1_0000
    ensures |m| == 0x1_0000
  {
    mem[sp := PcByte(pc, 1)][(sp - 1) % 0x1_0000 := PcByte(pc, 0x100)][(sp - 2) % 0x1_0000 := PcByte(pc, 0x1_0000)]
  }

  /** The dispatcher's IRET pops exactly the address a call pushed, and
      leaves the stack pointer where it was before the call. */
  lemma {:induction false} PopAfterPush(mem: seq<bv8>, sp: u16, pc: nat)
    requires |mem| == 0x1_0000 && pc < 0x100_0000
    ensures PoppedPc(Pushed(mem, sp, pc), (sp - 3) % 0x1_0000) == pc
    ensures ((sp - 3) % 0x1_0000 + 3) % 0x1_0000 == sp
  {
    var m := Pushed(mem, sp, pc);
    var low := (sp - 3) % 0x1_0000;
    assert (low + 1) % 0x1_0000 == (sp - 2) % 0x1_0000;
    assert (low + 2) % 0x1_0000 == (sp - 1) % 0x1_0000;
    assert (low + 3) % 0x1_0000 == sp;
    assert StackByte(m, low, 1) as nat == pc / 0x1_0000 % 0x100;
    assert StackByte(m, low, 2) as nat == pc / 0x100 % 0x100;
    assert StackByte(m, low, 3) as nat == pc / 1 % 0x100;
    ThreeBytes(pc);
  }

  /** A 24-bit address is the sum of its three bytes. */
  lemma ThreeBytes(pc: nat)
    requires pc < 0x100_0000
    ensures pc == pc / 0x1_0000 % 0x100 * 0x1_0000 + pc / 0x100 % 0x100 * 0x100 + pc / 1 % 0x100
  {
    var q := pc / 0x100;
    assert pc == q * 0x100 + pc % 0x100;
    assert q / 0x100 == pc / 0x1_0000;
    assert q == q / 0x100 * 0x100 + q % 0x100;
  }
}

module AvrDispatchRun {
  import opened HostWords
  import opened AvrRegs
  import opened AvrState
  import opened AvrTimers
  import opened AvrIo
  import opened AvrDispatch

  /** Before each run of the executor, WDRF is copied into WDTCSR, where
      it is the WDE bit (WdrfForcesWde). */
  method PreRun(avr: Avr)
    requires avr.Valid()
    modifies avr.io
    ensures avr.io[..] == old(avr.io[..])[WDTCSR := old(avr.io[WDTCSR]) | (old(avr.io[MCUSR]) & WDRF)]
    ensures avr.io[WDTCSR] & WDE == (old(avr.io[WDTCSR]) | old(avr.io[MCUSR])) & WDE
  {
    var wdtcsr, mcusr := avr.io[WDTCSR], avr.io[MCUSR];
    WdrfForcesWde(wdtcsr, mcusr);
    avr.io[WDTCSR] := wdtcsr | (mcusr & WDRF);
  }

  /** Where the executor resumes: at the vector, at the popped return
      address with SREG.I set and five cycles taken back, or, after a reset
      or power-down, where it was. */
  ghost predicate Resumed(o: Outcome, mem: seq<bv8>, pc0: nat, pc: nat, sreg0: bv8, sreg: bv8,
                          sp0: u16, sp: u16, cycle0: u64, cycle: u64)
    requires |mem| == 0x1_0000
  {
    match o
    case Vector(a) => pc == a && sreg == sreg0 && sp == sp0 && cycle == cycle0
    case Return =>
      && sreg == sreg0 | 0x80 && pc == PoppedPc(mem, sp0)
      && sp == (sp0 + 3) % 0x1_0000 && cycle == Wrap64(cycle0 - 5)
    case _ => pc == pc0 && sreg == sreg0 && sp == sp0 && cycle == cycle0
  }

  /** The return from the interrupt: SREG's I bit set, the three-byte
      address popped, and the five cycles of the return taken back. */
  method Iret(avr: Avr)
    requires avr.Valid()
    modifies avr`sreg, avr`pc, avr`sp, avr`cycle
    ensures Resumed(Return, avr.mem[..], old(avr.pc), avr.pc, old(avr.sreg), avr.sreg,
                    old(avr.sp), avr.sp, old(avr.cycle), avr.cycle)
  {
    avr.sreg := avr.sreg | 0x80;
    // the three bytes do not overlap, so the source's `|` is a sum here
    ghost var sp0 := avr.sp;
    var sp := (avr.sp + 1) % 0x1_0000;
    var pc := avr.mem[sp] as nat * 0x1_0000;
    assert avr.mem[sp] == StackByte(avr.mem[..], sp0, 1);
    StepUp(sp0 as int + 1);
    sp := (sp + 1) % 0x1_0000;
    assert avr.mem[sp] == StackByte(avr.mem[..], sp0, 2);
    pc := pc + avr.mem[sp] as nat * 0x100;
    StepUp(sp0 as int + 2);
    sp := (sp + 1) % 0x1_0000;
    assert avr.mem[sp] == StackByte(avr.mem[..], sp0, 3);
    pc := pc + avr.mem[sp] as nat;
    avr.pc, avr.sp := pc, sp;
    avr.cycle := Wrap64(avr.cycle - 5);
  }

  /** One more step of the 16-bit stack pointer. */
  lemma StepUp(x: int)
    ensures (x % 0x1_0000 + 1) % 0x1_0000 == (x + 1) % 0x1_0000
  {
  }

  /** `avr_IO[r] &= ~mask`. */
  method ClearFlag(avr: Avr, r: nat, mask: bv8)
    requires avr.Valid() && r < IoSize
    modifies avr.io
    ensures avr.io[..] == old(avr.io[..])[r := old(avr.io[r]) & !mask]
  {
    avr.io[r] := avr.io[r] & !mask;
  }

  /** What serving timer `n`'s overflow does: TOV cleared, one overflow of
      the backlog served, and the interrupt line raised again while more
      are left. */
  ghost predicate OverflowServed(n: nat, io0: seq<bv8>, io: seq<bv8>, ov0: seq<u32>, ov: seq<u32>,
                                 intr0: bool, intr: bool, o: Outcome)
    requires n < 3 && |io0| == IoSize && |ov0| == 3
  {
    var tifr := TimerCounter(n).tifr;
    && ov0[n] > 0
    && o == Vector(OverflowVector(n))
    && io == io0[tifr := io0[tifr] & !TOV]
    && ov == ov0[n := ov0[n] - 1]
    && intr == (intr0 || ov[n] != 0)
  }

  method ServeOverflow(avr: Avr, t: Tester, n: nat) returns (o: Outcome)
    requires avr.Valid() && t.overflows.Length == 3 && n < 3 && t.overflows[n] != 0
    modifies avr.io, avr`intr, avr`pc, t.overflows
    ensures OverflowServed(n, old(avr.io[..]), avr.io[..], old(t.overflows[..]), t.overflows[..],
                           old(avr.intr), avr.intr, o)
    ensures avr.pc == OverflowVector(n)
  {
    ClearFlag(avr, TimerCounter(n).tifr, TOV);
    avr.pc := OverflowVector(n);
    var left := t.overflows[n] - 1;
    t.overflows[n] := left;
    if left != 0 {
      avr.intr := true;
    }
    o := Vector(OverflowVector(n));
  }

  /** What the serial branch does to the registers, to the interrupt line
      and to the outcome: UCSR0A polled, TXC cleared when its vector is
      taken, and the line raised for any vector. */
  ghost predicate SerialServed(io0: seq<bv8>, io: seq<bv8>, intr0: bool, intr: bool, more: bool, o: Outcome)
    requires |io0| == IoSize
  {
    var a := UcsrPolledValue(io0[UCSR0A], more);
    match SerialVector(io0[UCSR0B], a)
    case Some(v) =>
      && o == Vector(v) && intr
      && io == io0[UCSR0A := if v == VecTxc then a & !TXC else a]
    case None =>
      o == Return && intr == intr0 && io == io0[UCSR0A := a]
  }

  /** The serial branch: `avr_io_in(UCSR0A)`, then the vector UCSR0B
      enables, or the return from the interrupt. */
  method ServeSerial(avr: Avr, more: bool) returns (o: Outcome)
    requires avr.Valid()
    modifies avr.io, avr`intr, avr`pc, avr`sreg, avr`sp, avr`cycle
    ensures SerialServed(old(avr.io[..]), avr.io[..], old(avr.intr), avr.intr, more, o)
    ensures Resumed(o, avr.mem[..], old(avr.pc), avr.pc, old(avr.sreg), avr.sreg,
                    old(avr.sp), avr.sp, old(avr.cycle), avr.cycle)
  {
    ghost var io0 := avr.io[..];
    UcsrPolled(avr, more);
    var a, b := avr.io[UCSR0A], avr.io[UCSR0B];
    assert a == UcsrPolledValue(io0[UCSR0A], more) && b == io0[UCSR0B];
    assert avr.io[..] == io0[UCSR0A := a];
    var v := SerialVector(b, a);
    if v.Some? {
      avr.intr := true;
      avr.pc := v.value;
      if v.value == VecTxc {
        avr.io[UCSR0A] := a & !TXC;
      }
      o := Vector(v.value);
    } else {
      assert a & b & (RXC | UDRE) == 0;
      Iret(avr);
      o := Return;
    }
  }

  /** The last two sources: the EEPROM's ready interrupt, which raises the
      line again so that the handler runs until it clears EERIE, else the
      serial branch. */
  ghost predicate DeviceServed(io0: seq<bv8>, io: seq<bv8>, intr0: bool, intr: bool, more: bool, o: Outcome)
    requires |io0| == IoSize
  {
    if io0[EECR] & EERIE != 0 then o == Vector(VecEeri) && io == io0 && intr
    else SerialServed(io0, io, intr0, intr, more, o)
  }

  method ServeDevice(avr: Avr, more: bool) returns (o: Outcome)
    requires avr.Valid()
    modifies avr.io, avr`intr, avr`pc, avr`sreg, avr`sp, avr`cycle
    ensures DeviceServed(old(avr.io[..]), avr.io[..], old(avr.intr), avr.intr, more, o)
    ensures Resumed(o, avr.mem[..], old(avr.pc), avr.pc, old(avr.sreg), avr.sreg,
                    old(avr.sp), avr.sp, old(avr.cycle), avr.cycle)
  {
    var eecr := avr.io[EECR];
    if eecr & EERIE != 0 {
      avr.intr := true;
      avr.pc := VecEeri;
      o := Vector(VecEeri);
    } else {
      o := ServeSerial(avr, more);
    }
  }

  /** The source the dispatcher serves in the current state. */
  ghost function PriorityOf(avr: Avr, t: Tester): Source
    reads avr, avr.io, t, t.overflows
    requires avr.Valid() && t.overflows.Length == 3
  {
    Priority(t.reason, avr.io[WDTCSR], t.overflows[..], avr.io[EECR])
  }

  /** The resets: MCUSR reports the cause and `INT_reason` returns to
      INTR. */
  method Restarted(avr: Avr, t: Tester, cause: bv8) returns (o: Outcome)
    requires avr.Valid()
    modifies avr.io, t`reason
    ensures o == Restart && t.reason == Intr && avr.io[..] == old(avr.io[..])[MCUSR := cause]
  {
    avr.io[MCUSR] := cause;
    t.reason := Intr;
    o := Restart;
  }

  /** The part of the chain after the resets. */
  method ServeInterrupt(avr: Avr, t: Tester, more: bool) returns (o: Outcome)
    requires avr.Valid() && t.overflows.Length == 3
    modifies avr.io, avr`intr, avr`pc, avr`sreg, avr`sp, avr`cycle, t.overflows
    ensures var s := Priority(Intr, old(avr.io[WDTCSR]), old(t.overflows[..]), old(avr.io[EECR]));
      && (s == WatchdogIrq ==>
            o == Vector(VecWdif) && avr.io[..] == old(avr.io[..])[WDTCSR := old(avr.io[WDTCSR]) & !WDIF]
            && avr.intr == old(avr.intr))
      && (s.TimerOverflow? ==>
            OverflowServed(s.n, old(avr.io[..]), avr.io[..], old(t.overflows[..]), t.overflows[..],
                           old(avr.intr), avr.intr, o))
      && (Rank(s) >= 7 ==> DeviceServed(old(avr.io[..]), avr.io[..], old(avr.intr), avr.intr, more, o))
      && (!s.TimerOverflow? ==> t.overflows[..] == old(t.overflows[..]))
    ensures Resumed(o, avr.mem[..], old(avr.pc), avr.pc, old(avr.sreg), avr.sreg,
                    old(avr.sp), avr.sp, old(avr.cycle), avr.cycle)
  {
    var wdtcsr := avr.io[WDTCSR];
    if wdtcsr & WDIF != 0 {
      avr.pc := VecWdif;
      ClearFlag(avr, WDTCSR, WDIF);
      o := Vector(VecWdif);
    } else if t.overflows[0] != 0 {
      o := ServeOverflow(avr, t, 0);
    } else if t.overflows[1] != 0 {
      o := ServeOverflow(avr, t, 1);
    } else if t.overflows[2] != 0 {
      o := ServeOverflow(avr, t, 2);
    } else {
      o := ServeDevice(avr, more);
    }
  }

  /** One pass of the dispatch chain after the executor returned 0: the
      first pending source (PriorityIsFirst) is served, and only that.
      `more` says whether standard input holds a byte when UCSR0A is
      polled. */
  method Dispatch(avr: Avr, t: Tester, more: bool) returns (o: Outcome)
    requires avr.Valid() && t.overflows.Length == 3
    modifies avr.io, avr`intr, avr`pc, avr`sreg, avr`sp, avr`cycle, t`reason, t.overflows
    ensures old(PriorityOf(avr, t)) == PowerDown ==>
      o == Stop && avr.io[..] == old(avr.io[..])[MCUSR := BORF] && avr.intr == old(avr.intr)
    ensures old(PriorityOf(avr, t)) == ExternalReset ==>
      o == Restart && avr.io[..] == old(avr.io[..])[MCUSR := EXTRF] && avr.intr == old(avr.intr)
    ensures old(PriorityOf(avr, t)) == WatchdogReset ==>
      o == Restart && avr.io[..] == old(avr.io[..])[MCUSR := WDRF] && avr.intr == old(avr.intr)
    ensures old(PriorityOf(avr, t)) == WatchdogIrq ==>
      o == Vector(VecWdif) && avr.io[..] == old(avr.io[..])[WDTCSR := old(avr.io[WDTCSR]) & !WDIF]
      && avr.intr == old(avr.intr)
    ensures old(PriorityOf(avr, t)).TimerOverflow? ==>
      OverflowServed(old(PriorityOf(avr, t)).n, old(avr.io[..]), avr.io[..], old(t.overflows[..]), t.overflows[..],
                     old(avr.intr), avr.intr, o)
    ensures Rank(old(PriorityOf(avr, t))) >= 7 ==>
      DeviceServed(old(avr.io[..]), avr.io[..], old(avr.intr), avr.intr, more, o)
    ensures !old(PriorityOf(avr, t)).TimerOverflow? ==> t.overflows[..] == old(t.overflows[..])
    ensures Resumed(o, avr.mem[..], old(avr.pc), avr.pc, old(avr.sreg), avr.sreg,
                    old(avr.sp), avr.sp, old(avr.cycle), avr.cycle)
    ensures t.reason == if o == Restart then Intr else old(t.reason)
  {
    if t.reason == PowerOff {
      avr.io[MCUSR] := BORF;
      o := Stop;
    } else if t.reason == XReset {
      o := Restarted(avr, t, EXTRF);
    } else if t.reason == WdReset {
      o := Restarted(avr, t, WDRF);
    } else {
      assert t.reason == Intr;
      assert PriorityOf(avr, t) == Priority(Intr, avr.io[WDTCSR], t.overflows[..], avr.io[EECR]);
      o := ServeInterrupt(avr, t, more);
    }
  }
}
