/** The register map and the pure bit logic of the ATmega640/1280/2560
    peripherals that tester.c emulates around the executor. `avr_IO[k]` is
    the register at data address `0x20 + k`. */
module AvrRegs {
  import opened HostWords

  // ---- Host integers ------------------------------------------------

  /** Unsigned 64-bit arithmetic wraps round modulo 2^64. */
  function Wrap64(x: int): u64 {
    x % 0x1_0000_0000_0000_0000
  }

  /** Conversion to `unsigned`: the low 32 bits. */
  function Wrap32(x: int): u32 {
    x % 0x1_0000_0000
  }

  /** Conversion to `int`: the low 32 bits, read as two's complement. */
  function ToInt32(x: int): i32 {
    var lo := x % 0x1_0000_0000;
    if lo < 0x8000_0000 then lo else lo - 0x1_0000_0000
  }

  /** Wrapping an intermediate result changes nothing about the final one. */
  lemma WrapAdd(x: int, y: int)
    ensures Wrap64(Wrap64(x) + y) == Wrap64(x + y)
  {
  }

  // ---- Register indices into avr_IO ----------------------------------

  const PINA: nat := 0x00
  const PORTA: nat := 0x02
  const PINB: nat := 0x03
  const PORTB: nat := 0x05
  const PINC: nat := 0x06
  const PORTC: nat := 0x08
  const PIND: nat := 0x09
  const PORTD: nat := 0x0B
  const TIFR0: nat := 0x15
  const TIFR1: nat := 0x16
  const TIFR2: nat := 0x17
  const EECR: nat := 0x1F
  const EEDR: nat := 0x20
  const EEARL: nat := 0x21
  const EEARH: nat := 0x22
  const GTCCR: nat := 0x23
  const TCCR0B: nat := 0x25
  const TCNT0: nat := 0x26
  const MCUSR: nat := 0x34
  const WDTCSR: nat := 0x40
  const TIMSK0: nat := 0x4E
  const TIMSK1: nat := 0x4F
  const TIMSK2: nat := 0x50
  const TCCR1B: nat := 0x61
  const TCNT1L: nat := 0x64
  const TCNT1H: nat := 0x65
  const TCCR2B: nat := 0x91
  const TCNT2: nat := 0x92
  const ASSR: nat := 0x96
  const UCSR0A: nat := 0xA0
  const UCSR0B: nat := 0xA1
  const UDR0: nat := 0xA6

  /** Registers up to the end of the extended I/O space (data address
      0xFF); every register named above lies below. */
  const IoSize: nat := 0xE0

  // ---- Bits ----------------------------------------------------------

  /** WDTCSR */
  const WDIF: bv8 := 0x80
  const WDIE: bv8 := 0x40
  const WDCE: bv8 := 0x10
  const WDE: bv8 := 0x08
  /** WDTCSR's prescaler bits WDP3 and WDP2..0. */
  const WDP: bv8 := 0x27

  /** MCUSR */
  const WDRF: bv8 := 0x08
  const BORF: bv8 := 0x04
  const EXTRF: bv8 := 0x02
  const PORF: bv8 := 0x01

  /** GTCCR, TIMSKn/TIFRn and ASSR */
  const TSM: bv8 := 0x80
  const PSRASY: bv8 := 0x02
  const PSRSYNC: bv8 := 0x01
  const TOV: bv8 := 0x01
  const AS2: bv8 := 0x20

  /** UCSR0A/UCSR0B */
  const RXC: bv8 := 0x80
  const TXC: bv8 := 0x40
  const UDRE: bv8 := 0x20

  /** EECR */
  const EEPM1: bv8 := 0x20
  const EEPM0: bv8 := 0x10
  const EERIE: bv8 := 0x08
  const EEMPE: bv8 := 0x04
  const EEPE: bv8 := 0x02
  const EERE: bv8 := 0x01

  // ---- Interrupt vectors (word addresses) ------------------------------

  const VecWdif: nat := 0x18
  const VecTov0: nat := 0x2E
  const VecTov1: nat := 0x28
  const VecTov2: nat := 0x1E
  const VecEeri: nat := 0x3C
  const VecUdre: nat := 0x34
  const VecTxc: nat := 0x36
  const VecRxc: nat := 0x32

  // ---- Watchdog period -----------------------------------------------

  /** The byte holding `y`. */
  function NatByte(y: nat): (b: bv8)
    requires y < 0x100
    ensures b as nat == y
  {
    if y == 0 then 0 else NatByte(y - 1) + 1
  }

  /** The WDP3..0 field as the index of the period: WDP3 (bit 5) counts 8. */
  function WdpIndex(wdtcsr: bv8): (k: nat)
    ensures k < 16
  {
    (wdtcsr & 0x20) as nat / 4 + (wdtcsr & 0x07) as nat
  }

  /** `2ul << (WDP % 10)`: the number of watchdog ticks a period lasts.
      The reserved settings 10 to 15 wrap round to 2 to 64 ticks. */
  function Threshold(wdtcsr: bv8): nat {
    2 * Pow2(WdpIndex(wdtcsr) % 10)
  }

  /** The period is a power of two from 2 to 1024 ticks, doubling with each
      step of WDP3..0 up to 9. */
  lemma ThresholdPowerOfTwo(wdtcsr: bv8)
    ensures 2 <= Threshold(wdtcsr) <= 1024
    ensures Threshold(wdtcsr) == Pow2(WdpIndex(wdtcsr) % 10 + 1)
    ensures WdpIndex(wdtcsr) < 10 ==> Threshold(wdtcsr) == Pow2(WdpIndex(wdtcsr) + 1)
  {
    Pow2Le(WdpIndex(wdtcsr) % 10, 9);
    assert Pow2(9) == 512;
  }

  // ---- Write masks ---------------------------------------------------

  /** UCSR0A after the program writes `written` over `prev`: only the
      writable bits change, and TXC is cleared by writing a one to it. */
  function UcsrWrite(prev: bv8, written: bv8): bv8 {
    (prev & !0x43) | (((written & 0x43) | (!prev & TXC)) ^ TXC)
  }

  /** Writing 1 to TXC clears it and writing 0 keeps it; U2X0 and MPCM0
      take the written value; every other bit keeps its previous value. */
  lemma UcsrWriteBits(prev: bv8, written: bv8)
    ensures UcsrWrite(prev, written) & TXC == if written & TXC != 0 then 0 else prev & TXC
    ensures UcsrWrite(prev, written) & 0x03 == written & 0x03
    ensures UcsrWrite(prev, written) & !0x43 == prev & !0x43
  {
  }

  /** WDTCSR after the program writes `written` over `prev`, before WDCE
      and WDIF are cleared. When `locked` (no timed sequence within 4
      cycles, or WDRF set) the period bits keep their old value and WDE
      can only be set. */
  function WdtcsrMasked(prev: bv8, written: bv8, locked: bool): bv8 {
    if locked then (prev & 0x2F) | (written & !0x27) else written
  }

  /** WDTCSR after the write: the masked value with WDCE and WDIF cleared. */
  function WdtcsrWrite(prev: bv8, written: bv8, locked: bool): bv8 {
    var v := WdtcsrMasked(prev, written, locked);
    v & !(WDCE | (v & WDIF))
  }

  /** The write mask of WDTCSR, bit by bit. */
  lemma WdtcsrWriteBits(prev: bv8, written: bv8, locked: bool)
    ensures WdtcsrWrite(prev, written, locked) & (WDCE | WDIF) == 0
    ensures locked ==> WdtcsrWrite(prev, written, locked) & WDP == prev & WDP
    ensures locked ==> WdtcsrWrite(prev, written, locked) & WDE == (prev | written) & WDE
    ensures !locked ==> WdtcsrWrite(prev, written, locked) == written & !(WDCE | WDIF)
    ensures WdtcsrWrite(prev, written, locked) & WDIE == written & WDIE
  {
  }

  /** Before each run WDRF is copied into WDTCSR, where it is the WDE bit:
      a watchdog reset flag forces the watchdog on. */
  lemma WdrfForcesWde(wdtcsr: bv8, mcusr: bv8)
    ensures (wdtcsr | (mcusr & WDRF)) & WDE == (wdtcsr | mcusr) & WDE
    ensures (wdtcsr | (mcusr & WDRF)) & !WDE == wdtcsr & !WDE
  {
  }

  // ---- EEPROM programming --------------------------------------------

  /** The EEPROM byte after a committed write of `eedr` in the mode EEPM1:0
      of `eecr`: EEPM1 clear first erases the byte to 0xFF, EEPM0 clear
      then programs it with `eedr` (programming can only clear bits). */
  function EepromProgram(cur: bv8, eedr: bv8, eecr: bv8): bv8 {
    var erased := if eecr & EEPM1 == 0 then 0xFF else cur;
    if eecr & EEPM0 == 0 then erased & eedr else erased
  }

  /** The four programming modes of the EEPROM Control Register. */
  lemma EepromModes(cur: bv8, eedr: bv8, eecr: bv8)
    ensures eecr & (EEPM1 | EEPM0) == 0 ==> EepromProgram(cur, eedr, eecr) == eedr
    ensures eecr & (EEPM1 | EEPM0) == EEPM0 ==> EepromProgram(cur, eedr, eecr) == 0xFF
    ensures eecr & (EEPM1 | EEPM0) == EEPM1 ==> EepromProgram(cur, eedr, eecr) == cur & eedr
    ensures eecr & (EEPM1 | EEPM0) == (EEPM1 | EEPM0) ==> EepromProgram(cur, eedr, eecr) == cur
  {
  }

  /** The EEPROM address EEARH:EEARL. */
  function EepromAddress(eearh: bv8, eearl: bv8): (a: nat)
    ensures a < 0x10000
  {
    (eearh as nat) * 256 + eearl as nat
  }
}
