# AVR tester peripherals, Intel HEX reader and writer, and DES in Dafny

This project models three sequential cores of a small AVR emulator
and proves properties of each.

- **AVR peripheral registers** (`tester.c`). The state is:
  - the I/O register file, the 64-bit cycle counter and the interrupt line with its reason;
  - the EEPROM;
  - the three timers with their offsets and pending overflow counts;
  - the prescalers' static state, one object per prescaler (timers 0 and 1 share one).

  The model covers:
  - the watchdog step;
  - the prescaler and `fetch_timer`/`set_timer`;
  - the write hooks of `avr_io_out`: the timed EEPROM controller, the UCSR0A and WDTCSR write masks, TIFR clearing, PINx toggling, GTCCR and the 16-bit TEMP latch;
  - the TCNT read hooks of `avr_io_in`;
  - the interrupt dispatch chain of `main`.

  Each of these is a method over classes that hold that state. The clock, the byte standard input supplies, and the executor's outcome are parameters.
- **Intel HEX** (`ihexread.c`, `readihex.c`, `ihexwrite.c`). These are record types 00 (Data), 01 (End of File) and 02 (Extended Segment Address) of the Intel Hexadecimal Object File Format Specification, Rev. A. A file is a sequence of lines.
  - Both readers are functions on lines, and methods that write the image array in place agree with them. The methods keep the running `hex_byte` checksum: ihexread.c resets it on every call, and readihex.c keeps it in a static field of a class.
  - The writer is a loop that produces the lines of the file.
  - The round trip is proved up to 64 KiB, and shown to fail above it.
- **DES** (`des.c`). The bit reversals, slow and table-driven bit selection, `rot`, `ks`, `f` and the round are modelled on unbounded naturals, with 64-bit truncation written out. `des_init` fills the lookup tables in arrays in place.
  - The proofs show that the tables `des_init` builds make the fast selection equal to the slow one.
  - They show that the key schedule's rotation amounts are the FIPS PUB 46-3 shifts.
  - They show that decryption undoes encryption and encryption undoes decryption.
  - They show that `des_fast_encrypt` and `des_fast_encrypt_sched` compute `des_encrypt`.

Where the code and its evident intent disagree, the table under "## Findings"
names two members: one models the code as written and one the intended
behaviour. The rest of the model takes the intended behaviour for the
ihexread.c segment value and the ihexwrite.c record length. It takes the
code as written for readihex.c's static checksum, and offers a fresh-checksum
call beside it.

## Model

| member | source | states |
|---|---|---|
| AvrRegs.ThresholdPowerOfTwo | tester.c:107 | the watchdog period `2ul << (WDP % 10)` is a power of two from 2 to 1024 ticks, and doubles with each WDP step up to 9 |
| AvrRegs.UcsrWriteBits | tester.c:436-439 | a write to UCSR0A clears TXC when a 1 is written to it and keeps it otherwise; U2X0 and MPCM0 take the written value; every other bit keeps its previous value |
| AvrRegs.WdtcsrWriteBits | tester.c:504-511 | after a WDTCSR write, WDCE and WDIF read 0 and WDIE is as written; while locked, WDP3..0 keep their old value and WDE can only be set; unlocked, the register takes the written value less WDCE and WDIF |
| AvrRegs.WdrfForcesWde | tester.c:684 | ORing MCUSR.WDRF into WDTCSR sets WDE exactly when WDRF or WDE is set, and leaves every other WDTCSR bit alone |
| AvrRegs.EepromModes | tester.c:446-449 | the committed byte is EEDR for EEPM=00, 0xFF for EEPM0 alone, old & EEDR for EEPM1 alone, and unchanged with both set |
| AvrRegs.EepromAddress | tester.c:447 | the EEPROM address EEARH:EEARL lies below 0x10000 |
| AvrWatchdog.CountBounded | tester.c:103-126 | a tick keeps the tick counter within the longest period (1024), so the `unsigned long` never wraps |
| AvrWatchdog.Waits | tester.c:108-127 | with the marker unchanged and WDIE or WDE set, a tick short of the period only counts |
| AvrWatchdog.CountsUp | tester.c:108-127 | from a fresh WDR, the first `Threshold` ticks raise nothing and leave the count at the number of ticks |
| AvrWatchdog.FiresAfterPeriod | tester.c:108-121 | the (threshold+1)-th tick since the WDR raises the interrupt; with WDIE it sets WDIF, clears WDIE exactly when WDE is set, touches no other bit and restarts the count; with only WDE it requests a reset and clears counter and marker |
| AvrWatchdog.MarkerRestarts | tester.c:123-126 | a changed WDR marker only restarts the count and records the marker |
| AvrWatchdog.DisabledIdle | tester.c:108-126 | with WDIE and WDE clear and the marker unchanged a tick changes nothing |
| AvrWatchdog.TouchesOnlyFlags | tester.c:110-115 | a tick changes no WDTCSR bit but WDIF and WDIE, and only a firing tick changes WDTCSR at all |
| AvrWatchdog.Watchdog | tester.c:100-127 | `watchdog`: the counter, the marker, WDTCSR, `avr_INT`, `INT_reason` and SREG become what `WatchdogStep` gives, and no other register changes |
| AvrWatchdog.Expire | tester.c:109-121 | the tick that ends a period leaves the state `WatchdogStep` gives for a count past the threshold |
| AvrTimers.AdvanceAdds | tester.c:161-164 | without a reset, two prescaler updates count what one update to the later clock counts |
| AvrTimers.ResetHolds | tester.c:158-164 | while the reset bit is held, the first update resets (`last_reset == counted_cycle`) and later ones leave the count frozen: a held reset does not reset twice |
| AvrTimers.AdvanceIdle | tester.c:158-164 | an update at the clock of the previous one, without a pending reset, changes nothing |
| AvrTimers.SetTimerBits | tester.c:256-259 | for `val` within the counter's range the `int` offset holds the difference exactly, the counter's own bits then read `val` and the bits above keep the raw count's |
| AvrTimers.SetThenFetch | tester.c:253-259 | a fetch right after `set_timer`, at the same clock, reads back the value set and signals no overflow |
| AvrTimers.Unscaled | tester.c:170-171 | taking the offset back off a scaled count gives the prescaled count |
| AvrTimers.Advancing | tester.c:152-164 | with clock select 0 or `busy` set the prescaler state is unchanged; otherwise it becomes `Advance` of the old state at the clock read, with the reset bit of GTCCR |
| AvrTimers.Counting | tester.c:166-179 | the counter becomes the scaled count for the selected tap and offset, and the registers, the line and the backlog change as `Polled` says (TOV on overflow; backlog and `avr_INT` only with TOIE) |
| AvrTimers.Overflow | tester.c:172-178 | TOV is set exactly when the bits above the counter's width change; with TOIE the backlog becomes the overflows crossed (truncated to `unsigned`) and the line is raised; nothing else changes |
| AvrTimers.Prescale | tester.c:144-182 | the whole macro body: disabled or busy, nothing changes; enabled, the prescaler advances, and when a counter is polled it takes the scaled count and the overflow effects; `busy` is restored |
| AvrTimers.TimerCounter | tester.c:253-254 | `fetch_timer(n)` polls counter `n` with a well-formed width (16 bits for timer 1, 8 otherwise) |
| AvrTimers.TapOf | tester.c:240-241 | the tap width is one of the 7 entries of the instantiation's tap table, at most 20 |
| AvrTimers.FetchTimer | tester.c:253-254 | `fetch_timer(n)`: the prescaler of timer `n` (shared by timers 0 and 1) advances at its own clock, and the counter is polled as `Prescale` states |
| AvrTimers.SetTimer | tester.c:256-259 | `set_timer(n, val)`: after the fetch, the offset and the counter are rebased so the counter's own bits read `val` and the bits above are the raw count's |
| AvrTimers.Rebase | tester.c:258-259 | the offset arithmetic: new offset and counter as `SetTimerBits` computes, with only entry `n` changed |
| AvrIo.EepromCommits | tester.c:444-450 | an EEPE write within 4 cycles of EEMPE programs the byte in the mode EEPM selects, adds 2 cycles, keeps EEDR, clears the strobes, and raises the line when EERIE is set |
| AvrIo.EepromReads | tester.c:451-454 | otherwise EERE reads the byte into EEDR in 4 cycles, leaves the byte alone and clears the strobes |
| AvrIo.EepromIdle | tester.c:456-457 | with neither, the byte, EEDR, EECR and the cycle count are unchanged, and writing EEMPE opens the window at the current cycle |
| AvrIo.TimedWrite | tester.c:444-457 | the timed sequence: EEMPE alone, then EEPE within 4 cycles programs the byte; EEPE later (without EERE) does not |
| AvrIo.EecrWritten | tester.c:443-460 | the EECR case: cycle count, EECR, EEDR, the addressed EEPROM byte, the window and the line become what `EecrStep` gives; no other EEPROM byte or register changes |
| AvrIo.EeAccess | tester.c:444-454 | the write or read started by an EECR write, as `EecrStep` gives it |
| AvrIo.Program | tester.c:446-449 | only the addressed EEPROM byte changes, to `EepromProgram` of its old value |
| AvrIo.UcsrWritten | tester.c:436-439 | the UCSR0A case stores `UcsrWrite(prev, written)` and nothing else |
| AvrIo.WatchdogTimedChange | tester.c:504-511 | writing WDCE and WDE together, then any value within 4 cycles (WDRF clear), stores that value less WDCE and WDIF; outside the window the period bits keep their value and WDE stays set |
| AvrIo.WdtcsrWritten | tester.c:504-511 | the WDTCSR case: the register and `last_wdce` become what `WdtcsrStep` gives |
| AvrIo.WdtcsrMasking | tester.c:505-510 | the masked value and whether it reopens the window |
| AvrIo.FlagsWritten | tester.c:462-466 | a write to TIFR0/1/2 clears that register and nothing else |
| AvrIo.PinWritten | tester.c:521-527 | a write to PINx toggles the written bits of PORTx and zeroes PINx |
| AvrIo.PinToggles | tester.c:526 | a PINx toggle changes exactly the bits of the mask, and toggling twice restores PORTx |
| AvrIo.UdrWritten | tester.c:428-434 | the UDR0 case sets TXC and UDRE and raises the line when UCSR0B enables either |
| AvrIo.UcsrPolled | tester.c:380-388 | the UCSR0A read hook sets the flags as `UcsrPolledValue` says and raises the line when an enabled RXC/UDRE flag is set |
| AvrIo.PollFlags | tester.c:380-385 | a poll sets UDRE, never clears a flag, and sets RXC exactly when it was set or a byte is waiting |
| AvrIo.UdrRead | tester.c:377-388 | UDR0 takes the byte read (0xFF at end of input), RXC is cleared, then UCSR0A is polled as above |
| AvrIo.PartsJoin | tester.c:394-401 | the high byte TEMP latches and the low byte the register reads make up the counter's low 16 bits |
| AvrIo.Tcnt0Read | tester.c:390-393 | after polling timer 0, TCNT0 reads the counter's low byte |
| AvrIo.Tcnt1LRead | tester.c:394-398 | after polling timer 1, TCNT1L reads the low byte and TEMP latches the high byte |
| AvrIo.Tcnt1HRead | tester.c:399-401 | TCNT1H reads TEMP |
| AvrIo.Read16 | tester.c:394-401 | a low-then-high 16-bit read returns the two bytes of the count at the first read |
| AvrIo.CycleBack | tester.c:468-470 | stepping the 64-bit cycle counter ahead and back restores it |
| AvrIo.Tcnt8Written | tester.c:467-476 | writing TCNT0/TCNT2 makes the counter's low 8 bits read the written byte and restores the cycle count |
| AvrIo.Tcnt1HWritten | tester.c:482-484 | writing TCNT1H stores the byte in TEMP |
| AvrIo.Tcnt1LWritten | tester.c:477-481 | writing TCNT1L makes the counter's low 16 bits read TEMP·256 + the written byte, cycle count restored |
| AvrIo.Write16 | tester.c:477-484 | a high-then-low 16-bit write makes the counter's low 16 bits read `hi:lo` |
| AvrIo.TccrWritten | tester.c:485-493 | a TCCRnB write re-sets timer `n` so its own bits read the TCNTn register(s) |
| AvrGtccr.FlipBack | tester.c:495-498 | the hook's second toggle restores the written value |
| AvrGtccr.GtccrOut | tester.c:501-502 | GTCCR after the hook keeps its value while TSM is set and is 0 otherwise |
| AvrGtccr.GtccrResets | tester.c:494-500 | a reset bit written, or released after TSM held it, leaves that prescaler in reset at the current clock |
| AvrGtccr.GtccrFreshReset | tester.c:494-500 | a reset bit written while none was pending resets the prescaler exactly as its own reset does |
| AvrGtccr.GtccrNoReset | tester.c:494-500 | without its reset bit, old or new, a prescaler is at most brought up to the current clock |
| AvrGtccr.PrescaleBoth | tester.c:496-497 | with GTCCR set to `reg`, prescaler 0/1 runs one `GtccrPass` at the 16 MHz reading and prescaler 2 at the 32768 Hz reading when ASSR.AS2 is set, at the cycle count otherwise; no counter, flag or line changes |
| AvrGtccr.GtccrWritten | tester.c:494-503 | the GTCCR case: prescaler 0/1 ends as `GtccrPasses` gives at the 16 MHz reading, prescaler 2 at its own clock (the 32768 Hz reading under AS2, the cycle count otherwise), GTCCR as `GtccrOut`, and nothing else changes |
| AvrGtccr.Settle | tester.c:501-502 | GTCCR clears unless TSM is set |
| AvrDispatch.PriorityIsFirst | tester.c:687-746 | the chain serves a pending source, and no pending source ranks before it |
| AvrDispatch.RankInjective | tester.c:687-746 | different sources hold different places in the chain, so the first pending one is unique |
| AvrDispatch.PolledSerial | tester.c:726-746 | after the poll, UDRE's vector is taken exactly when enabled, TXC's exactly when enabled alone and set, RXC's exactly when enabled and a byte is there, and none otherwise |
| AvrDispatch.PoppedPc | tester.c:749-751 | the popped return address is below 2^24 |
| AvrDispatch.PopAfterPush | tester.c:749-751 | the IRET pops exactly the 3-byte address a call pushed, big-endian, and restores the stack pointer |
| AvrDispatchRun.PreRun | tester.c:684 | before each run WDRF is ORed into WDTCSR, which sets WDE; nothing else changes |
| AvrDispatchRun.Iret | tester.c:747-753 | the IRET sets SREG.I, pops the 3-byte PC (SP += 3) and takes 5 cycles back |
| AvrDispatchRun.ClearFlag | tester.c:705 | clears the masked bits of one register and nothing else |
| AvrDispatchRun.ServeOverflow | tester.c:707-721 | TOV cleared, the vector 0x2E/0x28/0x1E taken, the backlog decremented and the line raised again exactly when overflows remain |
| AvrDispatchRun.ServeSerial | tester.c:726-753 | the serial branch polls UCSR0A, takes the UDRE, TXC (clearing TXC) or RXC vector, raising the line, or returns from the interrupt |
| AvrDispatchRun.ServeDevice | tester.c:722-753 | EERIE takes vector 0x3C and re-raises the line; otherwise the serial branch |
| AvrDispatchRun.Restarted | tester.c:687-701 | a reset writes the cause to MCUSR and returns `INT_reason` to INTR |
| AvrDispatchRun.ServeInterrupt | tester.c:702-753 | the chain after the resets serves the source `Priority` picks, as the predicates above state, and only that |
| AvrDispatchRun.Dispatch | tester.c:686-753 | `case 0:` of the run loop: POWEROFF stops with MCUSR=BORF, XRESET and WDRESET restart with EXTRF/WDRF, and each interrupt source in chain order is served as stated; the executor resumes as `Resumed` says |
| HexDigits.Nibble | ihexread.c:24-37 | the value is in -1..15, and it is non-negative exactly for the upper-case digits '0'-'9', 'A'-'F' |
| HexDigits.NibbleAgreesWithTable | ihexread.c:27-36 | the model agrees with `nibble`'s range test and table lookup on every character, including ':'-'@' and lower case, which give -1 |
| HexDigits.HexByte | ihexread.c:40-45 | `hex_byte`'s value lies in -16..255 |
| HexDigits.HexByteMeaning | ihexread.c:40-45 | a field is a byte exactly when both characters are digits, and then it is 16*hi + lo; it is below -1 exactly when only the second one is a digit other than 'F'; otherwise it is -1 |
| HexDigits.CksumSub | ihexread.c:39-43 | the running checksum is an unsigned char: subtracting a field leaves a value below 256, congruent to the difference |
| HexDigits.DigitReads | ihexwrite.c:43 | every digit `%X` prints is a digit that `nibble` reads back as its value |
| HexDigits.Hex2 | ihexwrite.c:47 | `%02X` prints exactly two characters |
| HexDigits.Hex2Reads | ihexwrite.c:47 | `hex_byte` reads the two digits of `%02X` back as the printed value |
| HexDigits.Hex4 | ihexwrite.c:43 | `%04X` prints exactly four characters |
| HexDigits.Hex4Bytes | ihexwrite.c:43 | `%04X` prints the value's high byte and then its low byte |
| HexDigits.HexBytes | ihexwrite.c:44-48 | a run of bytes prints as two characters per byte |
| HexDigits.HexBytesAt | ihexwrite.c:44-48 | every byte of a printed run reads back from its own two digits |
| HexDigits.HexBytesAppend | ihexwrite.c:44-48 | the text of a run is the text of its parts, one after the other |
| IhexRead.Addr | ihexread.c:76 | the address is non-negative exactly when both address fields are bytes, and then it is 256*hi + lo, below 0x10000 |
| IhexRead.FirstBad | ihexread.c:91-96 | the data loop stops at the first field below -1, or runs to `len` when there is none |
| IhexRead.FirstBadIs | ihexread.c:91-96 | a refused field with no refused field before it is where the loop stops |
| IhexRead.FirstBadNone | ihexread.c:91-96 | with no field below -1 the loop reads all `len` fields |
| IhexRead.WriteData | ihexread.c:97-98 | storing fields never changes the image's length |
| IhexRead.WriteDataAt | ihexread.c:97-98 | field i lands at `base + i` as an unsigned char (-1 becomes 0xFF), and every other byte of the image is left as it was |
| IhexRead.SegmentValue | ihexread.c:103 | the type-02 value is non-negative exactly when both its fields are bytes, and then it is 256*hi + lo, below 0x10000 |
| IhexRead.ReadRecord | ihexread.c:66-113 | one line: the image keeps its length, a line the loop goes on from leaves a size within the capacity, and a stop returns -1 or a size within the capacity |
| IhexRead.ReadLines | ihexread.c:63-118 | the loop returns -1 or a size between the size already read and the capacity, and the image keeps its length |
| IhexRead.ReadBounds | ihexread.c:47-119 | `ihex_read` returns -1 or a size within the capacity, and the image keeps its length |
| IhexRead.SuccessNeedsEof | ihexread.c:114-118 | every success ends at a type-01 record: running out of lines returns -1 |
| IhexRead.AcceptedRecord | ihexread.c:83-113 | a line the loop goes on from has a good header and a checksum that sums to 0 mod 256; it is a Data record or a type-02 record of length 2; the size becomes max(size, segment+addr+len) within the capacity; a Data record stores its fields (each at least -1) at `segment+addr+i` and changes no other byte; a type-02 record sets the segment to 16 times its value and leaves the image alone |
| IhexRead.EndOfFileRecord | ihexread.c:99-101 | the loop stops with a size exactly at a well-formed type-01 record whose end fits the capacity, and it returns the largest record end seen |
| IhexRead.EofChecksumIgnored | ihexread.c:100 | an End of File record whose checksum is wrong still ends the read with its size |
| IhexRead.UnsupportedRecord | ihexread.c:104-106 | any type other than 00, 01, or 02 with length 2 returns -1 and leaves the image alone |
| IhexRead.IhexRead | ihexread.c:47-119 | the method's result and the image it leaves are those of the line-by-line reading function |
| IhexRead.ReadOneRecord | ihexread.c:63-114 | one turn of the loop, in place, agrees with the per-line function, both when it stops and when it goes on |
| IhexRead.ReadTyped | ihexread.c:91-113 | the record-type dispatch, in place, agrees with the function by type |
| IhexRead.ReadDataRecord | ihexread.c:91-98 | a Data record, in place, agrees with the function and keeps the segment |
| IhexRead.ReadSegmentRecord | ihexread.c:102-113 | a type-02 record agrees with the function that sets the segment and checks the checksum |
| IhexRead.ReadSegmentValue | ihexread.c:103 | the value read is the record's segment value, and the running checksum has both its fields taken off |
| IhexRead.ParseHeader | ihexread.c:75-77 | the three header values are the line's count, address and type, and the running checksum has all four header fields taken off |
| IhexRead.CheckTail | ihexread.c:109-113 | the test after the checksum field passes exactly when the record sums to 0 mod 256 |
| IhexRead.StoreData | ihexread.c:91-98 | the loop succeeds exactly when no field is below -1; the image holds the fields up to the first refused one; on success the checksum has every field taken off |
| IhexRead.DataField | ihexread.c:92 | field i is parsed and the running checksum goes from the first i fields to the first i + 1 |
| IhexRead.StoreField | ihexread.c:98 | after `image[base+i] = byte` the image holds the first i + 1 fields |
| IhexRead.HexByteField | ihexread.c:40-45 | `hex_byte` returns the field and takes it off the running checksum |
| IhexRead.SegmentAsWritten | ihexread.c:103 | the segment is stored in an unsigned long, so it is below 2^64 |
| IhexRead.WrappedSegmentWritesOutside | ihexread.c:83-103 | as written, the type-02 record ":02000002ZZZZFE" passes the checksum and wraps the segment to 2^64 - 16; a Data record of 16 bytes after it then ends at 0 under the wrap, passes the size check, and starts past the image; the model refuses the type-02 record |
| IhexWrite.ChunkAsWritten | ihexwrite.c:36-41 | as written, a record never holds more than 16 bytes |
| IhexWrite.Chunk | ihexwrite.c:36-41 | a record holds at most 16 bytes and no more than remain, and at least one byte while any remain |
| IhexWrite.ChunkTruncation | ihexwrite.c:36-41 | below 4 GiB remaining, the 32-bit count is the intended one; at exactly 4 GiB it is 0, so the loop never advances |
| IhexWrite.SegmentOf | ihexwrite.c:38 | the type-02 value is below 0x10000 |
| IhexWrite.SegmentChecksum | ihexwrite.c:39 | the type-02 checksum is a byte |
| IhexWrite.DataChecksum | ihexwrite.c:42-49 | the Data record checksum is a byte |
| IhexWrite.Chunks | ihexwrite.c:35-50 | every record starts at or after `addr`, holds 1 to 16 bytes and ends within `bytes` |
| IhexWrite.Write | ihexwrite.c:24-53 | the file is never empty and always ends with `:00000001FF` |
| IhexWrite.EmptyImage | ihexwrite.c:35-51 | an empty image gives the End of File record alone |
| IhexWrite.ChunksShape | ihexwrite.c:35-50 | the records start at addr, addr + 16, addr + 32, and so on; each holds min(16, remaining) bytes, and there are ceil((bytes - addr)/16) of them |
| IhexWrite.ChunksCover | ihexwrite.c:35-50 | the records' data, in order, is exactly `image[addr..bytes]`: every byte once, in increasing address order |
| IhexWrite.SegmentBoundaries | ihexwrite.c:37-40 | every non-zero multiple of 0x10000 below `bytes` starts a record, and a type-02 record is written before it |
| IhexWrite.WriteStep | ihexwrite.c:35-50 | one turn of the loop writes the first record's lines, then the lines of the rest |
| IhexWrite.IhexWrite | ihexwrite.c:24-53 | the loop's lines are the file of the first `bytes` bytes; the image is not modified |
| IhexWrite.EmitRecord | ihexwrite.c:37-49 | one turn of the loop emits a type-02 record at a non-zero multiple of 0x10000, then the Data record |
| IhexWrite.EmitData | ihexwrite.c:41-49 | the header, the `n` data bytes and the checksum printed make up the Data record of `image[addr..addr+n]` |
| IhexWrite.DataLineOf | ihexwrite.c:42-49 | the pieces printed, with the running `sum`, make up the Data record |
| IhexWrite.HeaderText | ihexwrite.c:43 | `":%02X%04X00"` is a colon and the count, the address bytes and type 0 in hexadecimal |
| IhexWrite.AddressBytes | ihexwrite.c:42-43 | the bytes of `addr & 0xFFFF` are the low two bytes of `addr` |
| IhexWrite.SegmentText | ihexwrite.c:39 | the type-02 line is a colon and the record's bytes in hexadecimal |
| IhexWrite.DataChecksumOf | ihexwrite.c:42-49 | `(-sum) & 0xFF` over the running sum is the record's checksum |
| IhexRoundTrip.DataLineFields | ihexwrite.c:43-49 | the reader parses the writer's Data record back as its count, address, type 0, data bytes and checksum |
| IhexRoundTrip.DataLineChecksum | ihexwrite.c:42-49 | every Data record the writer emits sums to 0 mod 256, so it passes the reader's checksum |
| IhexRoundTrip.DataLineRead | ihexread.c:83-113 | the reader stores the writer's Data record at `segment + addr`, byte for byte, and the size grows to its end |
| IhexRoundTrip.AcceptedData | ihexread.c:83-113 | a well-formed Data record whose fields are the bytes `bs` is accepted, and `bs` is stored at `segment + addr` |
| IhexRoundTrip.StoredBytes | ihexread.c:91-98 | a data loop over fields that are the bytes `bs` copies `bs` into the image at `base` and changes nothing else |
| IhexRoundTrip.EofLineRead | ihexwrite.c:51 | the writer's End of File record has a correct checksum, and the reader stops there with the size read so far |
| IhexRoundTrip.ReadWritten | ihexwrite.c:35-50 | below 64 KiB, reading the writer's records from `addr` on copies the source up to the 64 KiB boundary or `bytes`, whichever comes first |
| IhexRoundTrip.RoundTrip | ihexwrite.c:24-53 | up to 64 KiB, reading the writer's file returns `bytes`, leaves the source's first `bytes` bytes in the image and keeps the rest of the image |
| IhexRoundTrip.SegmentLineFields | ihexwrite.c:37-40 | the reader parses the writer's type-02 record as length 2, address 0, type 2, the two value bytes and the checksum |
| IhexRoundTrip.SegmentLineChecked | ihexwrite.c:37-40 | the writer's type-02 record has a correct checksum and carries the value it was written with |
| IhexRoundTrip.SegmentLineRead | ihexread.c:102-113 | the reader accepts the writer's type-02 record and sets the segment to 16 times `addr >> 16` |
| IhexRoundTrip.SegmentMisplaced | ihexread.c:103 | wherever the writer emits a type-02 record, the segment the reader takes from it is below the record's address |
| IhexRoundTrip.RoundTripBreaks | ihexwrite.c:38 | at 0x10001 bytes the round trip fails: the reader returns 0x10000, stores the last byte at offset 16 and never writes offset 0x10000 |
| IhexRoundTrip.DataLineWraps | ihexwrite.c:43 | a Data record's text depends on its address only modulo 0x10000 |
| ReadIhex.FieldsRead | readihex.c:74-79 | the data loop parses at most `len` fields |
| ReadIhex.Record | readihex.c:47-94 | one line leaves the image's length alone, a stop returns 0 or -1, and the checksum stays an unsigned char |
| ReadIhex.ReadAll | readihex.c:47-97 | the loop returns 0 or -1 and the image keeps its length |
| ReadIhex.TailChecksum | readihex.c:84-85 | the test after the checksum field compares the record sum, taken off the incoming checksum, with 0 |
| ReadIhex.HeaderRefused | readihex.c:50-72 | a line that is too long, has no colon, has a non-hexadecimal header or reaches the capacity returns -1 and leaves the image alone |
| ReadIhex.PastHeader | readihex.c:59-72 | a line that passes the header goes on to the data fields with the header fields taken off the checksum |
| ReadIhex.DataStageOutcome | readihex.c:74-94 | once every field is read, the loop goes on exactly for a Data record whose checksum holds, returns 0 exactly for an End of File record whose checksum holds, and otherwise returns -1 |
| ReadIhex.RecordAccepted | readihex.c:47-95 | the loop goes on from a line exactly when it is a well-formed Data record below the capacity with no refused field and a checksum that holds; it stores the record at its address and leaves the checksum at 0 |
| ReadIhex.CapacityExclusive | readihex.c:67-72 | a record that ends at or past the capacity is refused, even one ending exactly at it |
| ReadIhex.ChecksumBeforeType | readihex.c:84-94 | a record whose checksum fails is refused whatever its type, End of File included |
| ReadIhex.EndOfFileStops | readihex.c:90-91 | a line returns 0 exactly when it is a well-formed End of File record (of any length) within the capacity whose checksum holds, and the image is then left alone |
| ReadIhex.OnlyDataWrites | readihex.c:74-82 | only Data records write into the image, at `addr + i` up to the first refused field; other types' fields are parsed for the checksum only |
| ReadIhex.HigherTypesRefused | readihex.c:90-94 | type 2 or higher never lets the loop go on or succeed |
| ReadIhex.NoEndOfFileNeeded | readihex.c:95-97 | a file of accepted Data records without an End of File record returns 0 |
| ReadIhex.StaleChecksumRefuses | readihex.c:26-30 | a record whose checksum holds from 0 is refused when the call starts with a non-zero stale checksum |
| ReadIhex.AbortLeavesChecksum | readihex.c:59-65 | a call that stops at a non-hexadecimal header leaves the static checksum at 4 |
| ReadIhex.StaleChecksumRefusesEof | readihex.c:26-30 | as written, after such a call, a file that is only the End of File record is refused |
| ReadIhex.FreshReadAcceptsEof | readihex.c:84-91 | from a clean checksum the same file returns 0 and leaves the image alone |
| ReadIhex.EofRecordFresh | readihex.c:84-91 | from a clean checksum, a well-formed End of File record with no data ends the file with 0 |
| ReadIhex.Reader.Field | readihex.c:27-32 | `hex_byte` returns the field and takes it off the static checksum |
| ReadIhex.Reader.Header | readihex.c:59-61 | the header values are the line's count, address and type, and all four header fields are taken off the checksum |
| ReadIhex.Reader.DataField | readihex.c:75-81 | field i is taken off the checksum and, in a Data record and unless refused, stored at `base + i` |
| ReadIhex.Reader.Fields | readihex.c:74-82 | the loop reads every field exactly when none is refused; a Data record stores them up to the first refused one, and other types leave the image alone |
| ReadIhex.Reader.ReadRecord | readihex.c:50-94 | one turn of the loop, in place, agrees with the per-line function |
| ReadIhex.Reader.RecordBody | readihex.c:74-94 | the data fields, the checksum field and the type, in place, agree with the function |
| ReadIhex.Reader.Tail | readihex.c:84-94 | the checksum field and the type agree with the function |
| ReadIhex.Reader.Read | readihex.c:34-102 | `ihex_read`, starting from whatever checksum the previous call left, agrees with the loop function |
| ReadIhex.Reader.ReadFresh | readihex.c:34-102 | with the checksum reset at the start of the call, the result depends on the file and the image only |
| DesBits.Bit | des.c:271 | a bit is 0 or 1 |
| DesBits.Low | des.c:135 | `x & mask(n)` is below 2^n |
| DesBits.Xor | des.c:330 | XOR on an n-bit word stays below 2^n |
| DesBits.Or | des.c:281 | OR on an n-bit word stays below 2^n |
| DesBits.Split | des.c:135 | a word is its low n bits plus the rest moved up n bits |
| DesBits.Place | des.c:281 | the low part and the high part of a lookup index (`i<<w` ORed with `j`) come back through a mask and a shift |
| DesBits.BitsEqual | des.c:267-273 | two words of n bits with the same bits are equal |
| DesBits.XorBit | des.c:330 | bit i of an XOR is the sum mod 2 of the operands' bits below n, and 0 above |
| DesBits.OrBit | des.c:281 | bit i of an OR is set exactly when one operand's bit i is set below n |
| DesBits.XorTwice | des.c:330 | XOR-ing the same word twice gives back the first |
| DesRev.RevBit | des.c:32-38 | the loop returns `revbit(x, bits)` |
| DesRev.RevByte | des.c:24-30 | the loop returns `revbyte(x, bytes)` |
| DesRev.RevBitsMeaning | des.c:32-38 | `revbit(x, bits)` is below 2^bits, and its bit i is bit bits-1-i of x |
| DesRev.RevBitsInvolution | des.c:32-38 | reversing the bits twice gives back any value of `bits` bits |
| DesRev.RevBytesMeaning | des.c:24-30 | `revbyte(x, bytes)` holds the low `bytes` bytes of x in reverse order, each byte's bits kept in place |
| DesRev.RevBytesInvolution | des.c:24-30 | reversing the bytes twice gives back any value of `bytes` bytes |
| DesRev.WordInvolutions | des.c:24-38 | `revbit(revbit(x, 64), 64) == x` and `revbyte(revbyte(x, 8), 8) == x` for every 64-bit x |
| DesTables.STable | des.c:150-206 | the S array has 8 boxes of 64 entries |
| DesTables.FlipReverses | des.c:136 | `flip` reverses the four bits of an S-box entry |
| DesTables.IpIipInverse | des.c:60-80 | IP and IIP are inverse permutations of the 64 bit positions |
| DesSelect.BitSelectSlow | des.c:267-273 | the loop returns the selection of the input through the table |
| DesSelect.SelectMeaning | des.c:267-273 | output bit j of `bit_select_slow` is input bit perm[j] - 1, and the output has no bit at or above the table's length |
| DesSelect.BitSelectFast | des.c:275-283 | the loop ORs together the entries the chunks select, as the chunked selection function does |
| DesSelect.EntryBit | des.c:390-392 | the entry that chunk i selects from a built table has bit q exactly when the input bit perm names for q lies in chunk i and is set |
| DesSelect.FastFromBit | des.c:275-283 | bit q of the fast loop's result is set exactly when it was set before or a remaining chunk holds the input bit perm names for q |
| DesSelect.FastIsSlow | des.c:252-253 | with a table `lut_loop` built from perm and chunks of w bits that cover every bit perm names, `bit_select_fast` equals `bit_select_slow` |
| DesInit.DesLuts.Init | des.c:394-407 | after `des_init`, SP and the four lookup tables hold what the slow selections through P, PC1, PC2, IP and IIP give |
| DesInit.FillSp | des.c:400-401 | every entry of SP is S-box i's entry j moved to bits 4i..4i+3 and selected through P |
| DesInit.SpRow | des.c:400-401 | one more row of SP filled, the rows before it kept |
| DesInit.SpPrefixEntries | des.c:400-401 | entry k of the filled part of SP is the SP entry k |
| DesInit.SpSelect | des.c:401 | `bit_select_slow(S[i][j] << 4*i, P, sizeof P)` is the SP entry |
| DesInit.NibbleFits | des.c:401 | a nibble moved to bits 4i..4i+3 stays within 32 bits (unsigned) |
| DesInit.LutLoop | des.c:390-392 | `lut_loop` builds the table: entry j of row i is the slow selection of j moved to chunk i |
| DesInit.LutRow | des.c:391-392 | one more row of the table filled, the rows before it kept |
| DesInit.LutSelect | des.c:392 | `bit_select_slow((unsigned long long)j << w*i, perm)` is the table entry |
| DesInit.ShiftFits | des.c:392 | `j << w*i` stays within 64 bits when chunk i lies below bit 64 |
| DesCipher.Sel64 | des.c:287 | a 64-bit selection through a lookup table is a 64-bit word |
| DesCipher.Sel56 | des.c:287 | a 56-bit selection through a lookup table is a 64-bit word |
| DesCipher.Rot | des.c:297-300 | `rot` returns a 64-bit word |
| DesCipher.ShiftSchedule | des.c:305 | the rotation of round n is the total of the FIPS PUB 46-3 left shifts of rounds 1 to n + 1 (1, 2, 4, 6, 8, 10, 12, 14, 15, 17, 19, 21, 23, 25, 27, 28), between 1 and 28 |
| DesCipher.ShiftValue | des.c:305 | the C expression for the rotation is 1 in round 0, 28 in round 15 and 2n - n/8 otherwise |
| DesCipher.Ks | des.c:302-309 | a subkey is a 64-bit word |
| DesCipher.SpIndex | des.c:318 | `SP[i][(x ^ subkey) & 0x3F]` lies in row i of the table |
| DesCipher.Mix | des.c:330 | `block ^= f(block>>32, subkey)` keeps a 64-bit block |
| DesCipher.Step | des.c:330-331 | the step and the optional swap keep a 64-bit block |
| DesCipher.Round | des.c:326-333 | `des_round` returns a 64-bit block |
| DesCipher.Schedule | des.c:367-373 | `des_sched` stores 16 subkeys |
| DesCipher.FastToStep | des.c:358-361 | one more pass of `des_fast_encrypt`'s loop uses subkeys 2i and 2i + 1 |
| DesCipher.SchedToStep | des.c:381-384 | one more pass of `des_fast_encrypt_sched`'s loop uses sched[2i] and sched[2i + 1] |
| DesLaws.RotValue | des.c:297-300 | `rot(x, n, bits)` of a bits-bit word moves its low n bits above the other bits - n, so the OR never meets two set bits and the result stays below 2^bits |
| DesLaws.RotInverse | des.c:297-300 | rotating a bits-bit word by n and then by bits - n gives it back |
| DesLaws.RotSwap | des.c:331 | `rot(v, k, 2k)` swaps the two halves of a 2k-bit word |
| DesLaws.HighKept | des.c:330 | XOR with a value below 2^k leaves the bits from k upwards alone |
| DesLaws.JoinValue | des.c:362 | `l << 32` ORed with `r` of two 32-bit halves is r plus l moved up 32 bits |
| DesLaws.SpBuiltFits | des.c:259 | every SP entry is a selection through the 32 entries of P, so it fits in the 32-bit `unsigned long` that holds it |
| DesLaws.FBound | des.c:311-324 | `f` fits in the bits its SP entries fit in |
| DesLaws.SelectInverse | des.c:267-273 | selecting through p and then through q gives the word back when q undoes p |
| DesLaws.IpIipWords | des.c:328-332 | IIP undoes IP on every 64-bit block, and IP undoes IIP |
| DesLaws.FastIpIip | des.c:404-405 | the selections through the IP and IIP lookup tables are the slow selections through IP and IIP |
| DesFeistel.ReadySound | des.c:394-407 | the tables `des_init` builds have their declared sizes, SP entries within 32 bits, and IIP undoing IP |
| DesFeistel.ScheduleSubkeys | des.c:367-373 | `des_sched` stores the subkeys `ks` computes from the PC1-selected key |
| DesFeistel.EncryptSteps | des.c:335-341 | `des_encrypt`'s first n rounds are IP once, n steps and IIP once, because each round's IP undoes the previous round's IIP |
| DesFeistel.DecryptSteps | des.c:343-349 | `des_decrypt`'s rounds are IP once, the steps from the last round down and IIP once |
| DesFeistel.RoundStep | des.c:326-333 | a round is IP, one step and IIP, and the next round's IP undoes that IIP |
| DesFeistel.MixTwice | des.c:330 | the step's XOR reads only the high half and changes only the low half, so doing it twice gives the block back |
| DesFeistel.SwapTwice | des.c:331 | swapping the halves twice gives the block back |
| DesFeistel.DecStepsEncSteps | des.c:335-349 | the sixteen steps of decryption undo the sixteen steps of encryption |
| DesFeistel.EncStepsDecSteps | des.c:335-349 | the sixteen steps of encryption undo the sixteen steps of decryption |
| DesFeistel.DecryptEncryptWith | des.c:335-349 | for any sound tables, decryption undoes encryption |
| DesFeistel.DecryptEncrypt | des.c:335-349 | after `des_init`, `des_decrypt(des_encrypt(block, key), key) == block` for every 64-bit block and key |
| DesFeistel.EncryptDecrypt | des.c:335-349 | after `des_init`, `des_encrypt(des_decrypt(block, key), key) == block` for every 64-bit block and key |
| DesRun.BitSelect64 | des.c:287 | `bit_select` of 64 bits returns the selection through the lookup table |
| DesRun.BitSelect56 | des.c:287 | `bit_select` of 56 bits returns the selection through the PC2 lookup table |
| DesRun.DesKs | des.c:302-309 | `ks(n, key)` returns the subkey of round n |
| DesRun.DesF | des.c:311-324 | the loop of `f` returns the OR of the eight SP lookups |
| DesRun.LowHalf | des.c:357 | `block & mask(32)` is below 2^32 and is the block's remainder modulo 2^32 |
| DesRun.HighHalf | des.c:357 | `block >> 32` is below 2^32 and is the block's quotient by 2^32 |
| DesRun.Join | des.c:362 | for 32-bit `l` and `r`, `l << 32` ORed with `r` is r + l times 2^32, and its low and high halves are `r` and `l` again |
| DesRun.DesRound | des.c:326-333 | `des_round` returns the round of the model |
| DesRun.DesEncrypt | des.c:335-341 | the loop of `des_encrypt` returns the encryption function's block |
| DesRun.DesDecrypt | des.c:343-349 | the loop of `des_decrypt` returns the decryption function's block |
| DesRun.DesPass | des.c:359-360 | `l ^= f(r, k0); r ^= f(l, k1);` is one pass on the halves |
| DesRun.FastPasses | des.c:358-361 | the loop of `des_fast_encrypt` makes the eight passes with the subkeys from `ks` |
| DesRun.FastStep | des.c:359-360 | pass i uses subkeys 2i and 2i + 1 |
| DesRun.DesFastEncrypt | des.c:351-365 | `des_fast_encrypt` returns the fast encryption function's block |
| DesRun.DesSched | des.c:367-373 | after `des_sched` the array holds the 16 subkeys of the key |
| DesRun.SchedEntry | des.c:372 | `sched[i] = ks(i, key)`, the entries before i kept |
| DesRun.SchedPasses | des.c:381-384 | the loop of `des_fast_encrypt_sched` makes the eight passes with the subkeys read from `sched` |
| DesRun.SchedStep | des.c:382-383 | pass i uses sched[2i] and sched[2i + 1] |
| DesRun.DesFastEncryptSched | des.c:375-388 | `des_fast_encrypt_sched` returns the scheduled fast encryption function's block |
| DesFast.WordHalves | des.c:357 | `l = block&mask(32), r = block>>32` splits a block into halves that make it up again |
| DesFast.MixWord | des.c:359 | the step's XOR on a block made of halves is the fast loop's `l ^= f(r, k)` |
| DesFast.SwapWord | des.c:331 | `rot(block, 32, 64)` swaps the halves |
| DesFast.PassWord | des.c:358-361 | two swapped steps of `des_encrypt` are one pass of the fast loop |
| DesFast.LastPassWord | des.c:361-362 | the last two steps, the second without the swap, are the last pass followed by `l << 32` ORed with `r` |
| DesFast.SchedSteps | des.c:381-384 | the first 2j steps of `des_encrypt` are the first j passes of the fast loop with the same subkeys |
| DesFast.SchedAllSteps | des.c:381-385 | all sixteen steps are the eight passes followed by `l << 32` ORed with `r` |
| DesFast.SchedIsEncryptWith | des.c:375-388 | for sound tables, `des_fast_encrypt_sched` with the key's subkeys returns `des_encrypt`'s block |
| DesFast.FastIsEncrypt | des.c:351-365 | after `des_init`, `des_fast_encrypt(block, key) == des_encrypt(block, key)` |
| DesFast.SchedIsFast | des.c:381-384 | the loop reading the subkeys from a schedule makes the same passes as the loop computing them with `ks` |
| DesFast.SchedIsFastEncrypt | des.c:367-388 | `des_fast_encrypt_sched` with the schedule `des_sched` stores returns `des_fast_encrypt`'s block |
| DesFast.SchedIsEncrypt | des.c:367-388 | after `des_init`, `des_fast_encrypt_sched` with `des_sched`'s schedule encrypts like `des_encrypt`, and `des_decrypt` undoes it |

## Left out

- Host plumbing of `tester.c`:
  - `main`'s command line, termios and pty setup;
  - the signal handlers and the `kill_with_fire` busy-wait;
  - the `ualarm` timers.

  These are about processes, signals and concurrency.
- `oscillator` reads the wall clock. The clock is a parameter of the methods that poll a prescaler: one reading at the frequency of the prescaler polled, and for the GTCCR hook one reading per prescaler (16 MHz for prescaler 0/1, 32768 Hz for prescaler 2).
- GtccrWritten: both passes of one prescaler use the same clock reading; the source reads the clock again on the second pass, a few instructions later.
- `eeprom_commit`, `avr_debug` and the printing of port writes. These are file I/O and output only. The PINx toggle is modelled without its printing.
- The `THREAD_IO` buffered UART threads and their ring buffer. They are compiled out, and they are concurrent.
- The host side of UDR0 and UCSR0A, which uses `getchar`, `putchar` and `ungetc`. The byte read and whether input is waiting are parameters; only the flag and interrupt effects are modelled.
- The external executor (`avr_run`, `avr_step`, `avr_reset`):
  - Its outcome is an input to the dispatch chain.
  - The reset it performs is not modelled.
- `avr_des_round` is not modelled, because it links against a `des_round` with another signature.
- `avr_self_program` (a flash write with a debug print) is not modelled.
- Tcnt0Read: states only what TCNT0 reads afterwards. The timer, overflow and interrupt effects of the poll are stated by AvrTimers.Prescale and AvrTimers.FetchTimer, not repeated here.
- Tcnt1LRead: states only what TCNT1L and TEMP hold afterwards. The poll's own effects are stated by AvrTimers.Prescale and AvrTimers.FetchTimer.
- Tcnt8Written: states the counter's low 8 bits and the restored cycle count, not the new offset and overflow state. AvrTimers.SetTimer states those.
- Tcnt1LWritten: states the counter's low 16 bits and the restored cycle count, not the new offset and overflow state. AvrTimers.SetTimer states those.
- TccrWritten: states only the re-set counter's low bits. AvrTimers.SetTimer states the rest.
- des.c's `main` and `dump`. They call OpenSSL's `DES_set_key_unchecked` and `DES_ecb_encrypt`, and they print.
- The alternative bit layouts (`IPmsb`, `IPbyte`, `PC1msb`, `PC1byte`) are never used, so they are not modelled.
- The `#else` branches that select without lookup tables are compiled out, because both speed-up constants are non-zero. Only the table-driven code is modelled.
- `unsigned long` is taken to be 64 bits wide, as on the LP64 hosts the tester runs on. `SP`'s entries, `f`'s result and the fast loops' halves are therefore exact.
- `S[i][j] << 4*i` in `des_init` is an `int` shift. For box 7 and entries of 8 or more it exceeds `INT_MAX`. The model takes the unsigned 32-bit value; DesInit.NibbleFits shows that value fits.
- RevBit: requires `bits <= 64`. A negative count, which the source accepts and loops on for a very long time, is not modelled.
- RevByte: requires `bytes <= 8`, for the same reason.
- Ks: requires a round below 16, the only rounds des.c calls it with.
- File handling in the Intel HEX code:
  - `fopen`, `fgets`, `fprintf` and `fclose` are replaced by a sequence of lines, without their newlines.
  - The paths where a file cannot be opened (result -1) are not modelled.
  - The error messages and line counters are not modelled.
  - Characters read past the end of a short line are non-hexadecimal.
- readihex.c's `ihex_read` returns a `size_t`, so its -1 is the largest `size_t`; the model keeps it as -1.
- The debugging `printf` in readihex.c's capacity check is not modelled.
- `ihexread.h` holds only declarations; the bodies are modelled.
- `ihex_write`'s result is that of `fclose`, which is not modelled. Its lines are the result.
- The round trip above 64 KiB is not proved, because it does not hold: IhexRoundTrip.RoundTripBreaks exhibits the failure.
- IhexRead.ReadRecord, IhexRead.Read and IhexRead.IhexRead refuse a type-02 record whose value is not hexadecimal. ihexread.c:103 stores `value*16` unchecked; IhexRead.SegmentAsWritten models that, as the first Findings row says.
- IhexWrite.Chunk, IhexWrite.Write and IhexWrite.IhexWrite take min(16, remaining) bytes per record. They omit the `unsigned int` truncation of ihexwrite.c:36; IhexWrite.ChunkAsWritten models that, as the second Findings row says.

## Findings

| source | as written | input that shows it | evidently intended | confidence | as-written member | corrected member |
|---|---|---|---|---|---|---|
| ihexread.c:103 | a type-02 value whose digits are not hexadecimal is -1; times 16, stored in an `unsigned long`, it becomes 2^64 - 16, and the next Data record's `base + len` wraps past the size check while `image[base+i]` lies before the image | the line ":02000002ZZZZFE" followed by ":10000000" with 32 zero digits and "F0" | a type-02 record whose value is not hexadecimal is refused like any other non-hexadecimal field | not executed | IhexRead.WrappedSegmentWritesOutside | IhexRead.AcceptedRecord |
| ihexwrite.c:36-41 | `unsigned int i = bytes - addr` truncates the remaining count to 32 bits before the comparison with 16 | an image with exactly 2^32 bytes left to write: the record length is 0 and `addr` never advances | each record holds min(16, remaining) bytes | not executed | IhexWrite.ChunkTruncation | IhexWrite.ChunksCover |
| readihex.c:26-30 | the static `hex_byte_cksum` is never reset, so a call starts from whatever the previous call left | a call on ":G" leaves it at 4; a following call on ":00000001FF" is then refused | every call starts from a checksum of 0, as ihexread.c:56 does | not executed | ReadIhex.StaleChecksumRefusesEof | ReadIhex.FreshReadAcceptsEof |
