/** The state tester.c works on: the executor's registers and counters,
    which tester.c reaches through `extern` globals, and tester.c's own
    statics, including the function-static variables of the watchdog and
    of each prescaler instance. */
module AvrState {
  import opened HostWords
  import opened AvrRegs

  /** `INT_reason`: why the executor was stopped. */
  datatype Reason = Intr | WdReset | XReset | PowerOff

  /** The executor's globals: `avr_IO`, `avr_ADDR`, `avr_cycle`,
      `avr_last_wdr`, `avr_INT`, `avr_SREG`, `avr_PC` and `avr_SP`. */
  class Avr {
    const io: array<bv8>
    const mem: array<bv8>
    var cycle: u64
    var lastWdr: u64
    var intr: bool
    var sreg: bv8
    var pc: nat
    var sp: u16

    ghost predicate Valid()
      reads this
    {
      io.Length == IoSize && mem.Length == 0x10000 && io != mem
    }

    constructor ()
      ensures Valid() && fresh(io) && fresh(mem)
      ensures cycle == 0 && lastWdr == 0 && !intr && sreg == 0 && pc == 0 && sp == 0
    {
      io := new bv8[IoSize](_ => 0);
      mem := new bv8[0x10000](_ => 0);
      cycle, lastWdr, intr, sreg, pc, sp := 0, 0, false, 0, 0, 0;
    }
  }

  /** The statics of `watchdog`: the last `avr_last_wdr` seen and the tick
      counter. The counter never passes 1024, the longest period, so its
      64-bit `unsigned long` never wraps. */
  class Watchdog {
    var lastWdr: u64
    var count: nat

    ghost predicate Valid()
      reads this
    {
      count <= 1024
    }

    constructor ()
      ensures Valid() && lastWdr == 0 && count == 0
    {
      lastWdr, count := 0, 0;
    }
  }

  /** One instance of the `instantiate_prescaler` macro: its statics, its
      tap table and the GTCCR bit that resets it. */
  class Prescaler {
    var lastReset: u64
    var prevCycle: u64
    var counted: u64
    var busy: bool
    const taps: seq<nat>
    const resetBit: bv8

    ghost predicate Valid()
      reads this
    {
      |taps| == 7 && forall k :: 0 <= k < 7 ==> taps[k] <= 20
    }

    constructor (taps: seq<nat>, resetBit: bv8)
      requires |taps| == 7 && forall k :: 0 <= k < 7 ==> taps[k] <= 20
      ensures Valid() && this.taps == taps && this.resetBit == resetBit
      ensures lastReset == 0 && prevCycle == 0 && counted == 0 && !busy
    {
      this.taps, this.resetBit := taps, resetBit;
      lastReset, prevCycle, counted, busy := 0, 0, 0, false;
    }
  }

  /** `PRESCALER01` (timers 0 and 1, reset by PSRSYNC) and `PRESCALER2`
      (timer 2, reset by PSRASY). */
  const Taps01: seq<nat> := [0, 3, 6, 8, 10, 16, 20]
  const Taps2: seq<nat> := [0, 3, 5, 6, 7, 8, 10]

  /** tester.c's statics: the EEPROM, `INT_reason`, `TEMP`, the three
      timers with their offsets and overflow backlogs, the last timed
      writes of WDCE and EEMPE, the watchdog and the two prescalers. The
      `int` offsets are held as the 64-bit values they convert to when
      added to a counter. */
  class Tester {
    const eeprom: array<bv8>
    var reason: Reason
    var temp: bv8
    const timer: array<u64>
    const timerOfs: array<i32>
    const overflows: array<u32>
    var lastWdce: u64
    var lastEempe: u64
    const wd: Watchdog
    const p01: Prescaler
    const p2: Prescaler

    ghost predicate Valid()
      reads this, wd, p01, p2
    {
      && eeprom.Length == 0x10000
      && timer.Length == 3 && timerOfs.Length == 3 && overflows.Length == 3
      && p01 != p2 && wd.Valid() && p01.Valid() && p2.Valid()
      && p01.taps == Taps01 && p01.resetBit == PSRSYNC
      && p2.taps == Taps2 && p2.resetBit == PSRASY
    }

    /** The statics as the program starts: `last_wdce` and `last_eempe`
      are -4, so no timed sequence is open, and `main` fills the EEPROM
      with 0xFF. */
    constructor ()
      ensures Valid() && fresh(eeprom) && fresh(timer) && fresh(timerOfs) && fresh(overflows)
      ensures fresh(wd) && fresh(p01) && fresh(p2)
      ensures forall a :: 0 <= a < eeprom.Length ==> eeprom[a] == 0xFF
      ensures reason == Intr && lastWdce == 0xFFFF_FFFF_FFFF_FFFC && lastEempe == 0xFFFF_FFFF_FFFF_FFFC
    {
      eeprom := new bv8[0x10000](_ => 0xFF);
      reason, temp := Intr, 0;
      timer := new u64[3](_ => 0);
      timerOfs := new i32[3](_ => 0);
      overflows := new u32[3](_ => 0);
      lastWdce, lastEempe := 0xFFFF_FFFF_FFFF_FFFC, 0xFFFF_FFFF_FFFF_FFFC;
      wd := new Watchdog();
      p01 := new Prescaler(Taps01, PSRSYNC);
      p2 := new Prescaler(Taps2, PSRASY);
    }
  }
}
