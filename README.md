# Open bootloader flash driver, modelled in Dafny

This project models the flash driver of the open bootloader
(`open_bootloader/src/flash_interface.c`). That driver is the operation
table `FLASH_Descriptor` plus the routines behind it. The model covers:

- reading a byte;
- writing a buffer as 8-byte `FLASH_TYPEPROGRAM_DOUBLEWORD` units, with the
  trailing partial unit padded with `0xFF`;
- mass erase, selected by a 16-bit option word;
- staging the read-out protection level;
- enabling or disabling write protection;
- the busy-state flag;
- the lock, unlock and option-byte unlock primitives;
- the double-word program primitive and the `ExtendedErase` stub;
- the call order of the jump to the application.

The driver is imperative, so the model is a class, `FlashInterface.FlashDriver`.
Its fields are what the C code changes:

- `locked`: the control register lock;
- `optionLocked`: the option-byte register lock;
- `stagedRdp`: the staged RDP level;
- `postCallback`: the post-processing callback slot filled by
  `Common_SetPostProcessingCallback`;
- `busy`: `Flash_BusyState`;
- `trace`: the driver's requests to the flash controller and the steps of
  the handoff, in order. Its erase events record calls to the erase
  routines, not erasures (see "The erase log records calls, not erasures"
  below).

The flash-controller requests are unlock, lock, option unlock, double-word
program and option-byte program. An erase event records a call to
`EraseFlash` or `OPENBL_FLASH_ExtendedErase`. The handoff steps are
de-initialisation, IRQ enable, the MSP set and the call through the reset
vector; none of them is a controller request. The program
log and the erase log are the program and erase events filtered out of
`trace` (`Controller.ProgramsOf`, `Controller.ErasesOf`). `FlashDriver.Valid()`
says the lock fields are what replaying `trace` from reset gives
(`Controller.Replay`). Every method names, field by field, what it may
change.

Each operation is also specified by a function on values: `WriteUnits` and
`WriteTrace`, `MassEraseSelection` and `MassEraseTrace`,
`ReadOutProtectionTrace`, and `HandoffTrace`. The methods are proved to
append exactly those traces, and the lemmas state what the traces
guarantee.

The modules, in dependency order:

| file | module | contents |
|---|---|---|
| flash_types.dfy | FlashTypes | `u32`, ERASED, status enums, ENABLE/DISABLE, platform constants |
| controller.dfy | Controller | events, lock-state replay, program and erase logs |
| flash_memory.dfy | FlashMemory | memory as `u32 -> bv8`, `Read`, effect of programs on cells |
| aligned_write.dfy | AlignedWrite | the double-word split of a write and its trace |
| mass_erase.dfy | MassEraseOptions | option word decoding and the mass-erase trace |
| flash_interface.dfy | FlashInterface | the descriptor, the handoff and `FlashDriver` |

The constants come from headers that are not part of this model:
`FLASH_START_ADDRESS`, `FLASH_END_ADDRESS`, `FLASH_BL_SIZE`, `FLASH_AREA`,
`FLASH_MASS_ERASE`, `FLASH_BANK1_ERASE`, `FLASH_BANK2_ERASE` and
`OB_RDP_LEVEL2`. They are fields of a `Platform` value held by the driver.
The bank codes are assumed distinct only where a lemma says so. `ENABLE`
and `DISABLE` are CMSIS's 1 and 0.

Behaviour of the code that its own comments do not suggest, and which the
model states as the code has it:

- **Write and the lock.** The comments at lines 142 and 157 present the
  write as one unlock, erase and program sequence closed by a lock. But
  `EraseFlash` locks the controller again at line 642, before the program
  loop. So every double-word program of a write is issued while the
  controller is locked (`WriteProgramsWhileLocked`).
- **The erase log records calls, not erasures.** `EraseFlash` fills in a
  single hard-coded sector, `FLASH_SECTOR_5`, and its HAL erase call is
  commented out (line 639). `OPENBL_FLASH_ExtendedErase` is compiled as
  `return HAL_OK;` (line 537). An `EraseRequested` event, and so each entry
  of the erase log, records that one of these routines was called with its
  arguments. Nothing is erased by either.
- **Program failures.** `OPENBL_FLASH_Write` returns `void` and ignores what
  the program primitive reports.
- **Read-out protection.** `SetReadOutProtectionLevel` unlocks both
  registers for a level other than 2 and does not lock them again. The model
  states that they stay unlocked.

## Model

| member | source | states |
|---|---|---|
| FlashInterface.FlashDriver.Write | Bootloader_Example/Bootloader/open_bootloader/src/flash_interface.c:115-159 | The trace grows by unlock, EraseFlash's requests, the write's units in order, then lock. The program log grows by exactly `WriteUnits`, the erase log by one `RegionErase(Address, DataLength)`, and the controller ends locked. |
| FlashInterface.FlashDriver.ProgramUnits | Bootloader_Example/Bootloader/open_bootloader/src/flash_interface.c:147-155 | The program loop plus the remainder program append exactly the program events of `WriteUnits`, in order, and change no lock. |
| AlignedWrite.PadRemainder | Bootloader_Example/Bootloader/open_bootloader/src/flash_interface.c:120-139 | The scratch unit has 8 bytes. Bytes `0..r-1` are the buffer bytes from offset `length`, and bytes `r..7` are 0xFF. |
| AlignedWrite.FullLength | Bootloader_Example/Bootloader/open_bootloader/src/flash_interface.c:123-127 | `DataLength & ~7` is a multiple of 8, at most `DataLength`, and less than 8 below it. |
| AlignedWrite.Padded | Bootloader_Example/Bootloader/open_bootloader/src/flash_interface.c:135-139 | A padded unit has 8 bytes: the tail first, then erased bytes. |
| AlignedWrite.WriteUnits | Bootloader_Example/Bootloader/open_bootloader/src/flash_interface.c:123-155 | The reference definition of a write's programs: the whole double-words of the buffer at `Address + 8*i`, then the padded remainder at `Address + (n & ~7)` when `n mod 8 != 0`. `WriteUnitsLayout`, `WriteUnitsBytes`, `PaddedRemainderUnit` and `ReadBackAfterWrite` state its properties. |
| AlignedWrite.WriteUnitsLayout | Bootloader_Example/Bootloader/open_bootloader/src/flash_interface.c:123-155 | A write issues `ceil(n/8)` programs, and exactly `n/8` when `n` is a multiple of 8 (no padded unit). Unit `i` targets `Address + 8*i` and holds 8 bytes. |
| AlignedWrite.WriteUnitsAscending | Bootloader_Example/Bootloader/open_bootloader/src/flash_interface.c:147-150 | Program targets are strictly ascending and do not overlap. |
| AlignedWrite.WriteUnitsBytes | Bootloader_Example/Bootloader/open_bootloader/src/flash_interface.c:147-155 | Byte `k` of the programmed units is `Data[k]` for `k < n`, and 0xFF in the padding. |
| AlignedWrite.PaddedRemainderUnit | Bootloader_Example/Bootloader/open_bootloader/src/flash_interface.c:152-155 | When `n mod 8 != 0`, the last program targets `Address + (n & ~7)`. It carries the last `n mod 8` bytes, then 0xFF. |
| AlignedWrite.ReadBackAfterWrite | Bootloader_Example/Bootloader/open_bootloader/src/flash_interface.c:147-155 | The units of a write, applied under the cell model to memory whose `n` target bytes are already erased, store exactly the buffer: `Read` (line 105) returns it in the range and the old byte elsewhere, padding included, since programming 0xFF clears no bit. It says what the units would store, not what this write leaves on the device (see "Left out"). |
| AlignedWrite.WriteTraceLogs | Bootloader_Example/Bootloader/open_bootloader/src/flash_interface.c:143-158 | A write's program log is exactly its units, and its erase log is one request for the whole range. |
| AlignedWrite.WriteLogsGrow | Bootloader_Example/Bootloader/open_bootloader/src/flash_interface.c:143-158 | After any earlier history, a write appends exactly its units to the program log and one erase request to the erase log. |
| AlignedWrite.WriteEraseBeforePrograms | Bootloader_Example/Bootloader/open_bootloader/src/flash_interface.c:145-150 | The erase request of a write precedes every one of its programs. |
| AlignedWrite.WriteProgramsWhileLocked | Bootloader_Example/Bootloader/open_bootloader/src/flash_interface.c:143-158 | Every program of a write is issued with the control register locked, because EraseFlash relocks it at line 642. The write ends locked. |
| AlignedWrite.TenByteWrite | Bootloader_Example/Bootloader/open_bootloader/src/flash_interface.c:123-155 | Ten 0xAA bytes at 0x1000 become one full unit at 0x1000, then a unit at 0x1008 of two 0xAA bytes and six 0xFF. |
| AlignedWrite.ProgramEventsLog | Bootloader_Example/Bootloader/open_bootloader/src/flash_interface.c:147-155 | The program log of the loop's program calls gives back exactly the units they were issued with, in issue order. |
| FlashMemory.Read | Bootloader_Example/Bootloader/open_bootloader/src/flash_interface.c:103-106 | The byte stored at `Address`, with no check of the address against the flash range. `ReadBackAfterWrite` states what it returns after a write. |
| FlashMemory.ProgramAllImage | Bootloader_Example/Bootloader/open_bootloader/src/flash_interface.c:476-479 | After back-to-back double-word programs, each byte in the covered range is the old byte ANDed with the byte programmed over it. Every other byte is unchanged. |
| FlashInterface.FlashDriver.ProgramDoubleWord | Bootloader_Example/Bootloader/open_bootloader/src/flash_interface.c:476-479 | Exactly one double-word program request is appended, and nothing else changes. |
| FlashInterface.FlashDriver.EraseFlash | Bootloader_Example/Bootloader/open_bootloader/src/flash_interface.c:617-652 | The trace grows by unlock, a region erase request for the write's range, then lock. The controller ends locked. |
| FlashInterface.FlashDriver.Unlock | Bootloader_Example/Bootloader/open_bootloader/src/flash_interface.c:73-76 | One unlock request is appended, and the control register is unlocked. |
| FlashInterface.FlashDriver.Lock | Bootloader_Example/Bootloader/open_bootloader/src/flash_interface.c:82-85 | One lock request is appended, and the control register is locked. |
| FlashInterface.FlashDriver.OptionBytesUnlock | Bootloader_Example/Bootloader/open_bootloader/src/flash_interface.c:91-96 | The flash unlock request comes first, then the option-byte unlock. Both registers end unlocked. |
| FlashInterface.FlashDriver.MassErase | Bootloader_Example/Bootloader/open_bootloader/src/flash_interface.c:274-328 | SUCCESS exactly when `DataLength >= 2` and the option word names the device or a bank. The trace is then unlock, that one bank erase, lock. Otherwise it is unlock, lock. The controller is locked on every path. |
| FlashInterface.FlashDriver.ExtendedErase | Bootloader_Example/Bootloader/open_bootloader/src/flash_interface.c:530-537 | It always returns HAL_OK and appends one mass-erase request for the selected banks. |
| MassEraseOptions.MassEraseOutcome | Bootloader_Example/Bootloader/open_bootloader/src/flash_interface.c:282-327 | The erase log holds one request exactly when banks are selected, and none when `DataLength < 2`. Nothing is programmed, and the controller ends locked from any starting state. |
| MassEraseOptions.BankSelection | Bootloader_Example/Bootloader/open_bootloader/src/flash_interface.c:290-305 | A bank is selected only by that bank's code, and any other option word is rejected. |
| MassEraseOptions.BankSelectionRoundTrip | Bootloader_Example/Bootloader/open_bootloader/src/flash_interface.c:290-301 | With distinct codes, each bank's code selects that bank. |
| MassEraseOptions.PayloadSelectsByCode | Bootloader_Example/Bootloader/open_bootloader/src/flash_interface.c:286-301 | A two-byte payload carrying a bank's code, little-endian, selects that bank. |
| MassEraseOptions.OptionWord | Bootloader_Example/Bootloader/open_bootloader/src/flash_interface.c:288 | `*(uint16_t *)(p_Data)` on a little-endian core: the low byte of the word is `p_Data[0]`, the high byte `p_Data[1]`. |
| MassEraseOptions.OptionWordRoundTrip | Bootloader_Example/Bootloader/open_bootloader/src/flash_interface.c:288 | The little-endian load of a word's two bytes gives the word back. |
| MassEraseOptions.OptionBytesRoundTrip | Bootloader_Example/Bootloader/open_bootloader/src/flash_interface.c:288 | Splitting the loaded option word gives the two payload bytes back. |
| FlashInterface.FlashDriver.SetReadOutProtectionLevel | Bootloader_Example/Bootloader/open_bootloader/src/flash_interface.c:209-227 | For level 2 nothing is requested or staged and the locks are unchanged. For any other level, the trace grows by unlock, option unlock, then the program of exactly that level, and both registers end unlocked. The option-byte launch is registered on both paths. |
| FlashInterface.ReadOutProtectionStaging | Bootloader_Example/Bootloader/open_bootloader/src/flash_interface.c:213-223 | Level 2 issues nothing. Any other level is programmed once, as requested, after both registers are unlocked, and they stay unlocked. |
| FlashInterface.FlashDriver.OptionBytesProgram | Bootloader_Example/Bootloader/open_bootloader/src/flash_interface.c:215-222 | The requested RDP level is staged, and one option-byte program request is appended. |
| FlashInterface.FlashDriver.SetWriteProtection | Bootloader_Example/Bootloader/open_bootloader/src/flash_interface.c:240-264 | SUCCESS exactly for ENABLE or DISABLE, and then the option-byte launch is registered. Any other state gives ERROR and leaves the registration unchanged. No controller request is issued. |
| FlashInterface.FlashDriver.SetPostProcessingCallback | Bootloader_Example/Bootloader/open_bootloader/src/flash_interface.c:226 | The single callback slot holds the registered routine, so registering twice leaves one registration. |
| FlashInterface.FlashDriver.EnableBusyStateFlag | Bootloader_Example/Bootloader/open_bootloader/src/flash_interface.c:452-456 | The busy flag becomes ENABLED, and no other driver field changes. |
| FlashInterface.FlashDriver.DisableBusyStateFlag | Bootloader_Example/Bootloader/open_bootloader/src/flash_interface.c:462-466 | The busy flag becomes DISABLED, and no other driver field changes. |
| FlashInterface.FlashDriver.constructor | Bootloader_Example/Bootloader/open_bootloader/src/flash_interface.c:33-34 | The driver starts with both registers locked, an empty trace, nothing staged or registered, and the busy flag DISABLED. |
| FlashInterface.FlashDescriptorWiring | Bootloader_Example/Bootloader/open_bootloader/src/flash_interface.c:52-65 | The table has seven slots, and slot 5 is NULL. Each of the six operations is provided by exactly one slot. A request inside the inclusive flash range does not wrap past 2^32. |
| FlashInterface.FlashDriver.JumpToAddress | Bootloader_Example/Bootloader/open_bootloader/src/flash_interface.c:166-182 | The trace grows by de-init, IRQ enable, MSP set from `*Address`, then the call through `*(Address + 4)`. |
| FlashInterface.HandoffOrder | Bootloader_Example/Bootloader/open_bootloader/src/flash_interface.c:171-181 | The jump is the last step and targets the vector at `Address + 4`. It comes after de-initialisation and after the MSP is set from `*Address`. |

## Left out

- `OPENBL_FLASH_Erase` (lines 338-445) is not modelled. It tests a `status` that is never assigned, because the HAL erase call at line 358 is commented out, so its result is undefined. Its target is also hard-coded to `FLASH_SECTOR_5`.
- FlashInterface.FlashDriver.EraseFlash: returns no status. Its result (lines 645-651) reads the uninitialised `status`, because line 639 is commented out, and `OPENBL_FLASH_Write` ignores it at line 145. The erase request records the write's range, not the hard-coded sector.
- `OPENBL_FLASH_GetReadOutProtectionLevel` (lines 191-199) only reads the option bytes through the HAL, so it is not modelled.
- `OPENBL_FLASH_EnableWriteProtection` and `OPENBL_FLASH_DisableWriteProtection` (lines 489-505) are stubs returning SUCCESS whose results are ignored. `SetWriteProtection` models their callers' behaviour and not the calls themselves.
- Commented-out code is not modelled: the `ExtendedErase` body (lines 538-613), `WaitForLastOperation` (lines 512-519) and the page-erase loop (lines 386-444).
- HAL internals are foreign calls and are represented only by the request events: flag clears, voltage range, register bits, and the HAL's own status and timeout handling.
- Busy-byte signalling over I2C and timeouts are hardware I/O and are not modelled.
- `Interfaces/Patterns/interfaces_conf.h` holds only pin, clock and IRQ macros, and is not modelled.
- `OPENBL_DeInit`, `Common_EnableIrq`, `Common_SetMsp` and `OPENBL_OB_Launch` are code not part of this model. They appear only as events or as a callback tag.
- The values of the platform constants come from headers not part of this model, so they are parameters.
- FlashInterface.FlashDriver.Write: requires `Address + DataLength <= 2^32` and `DataLength <= |Data|`. The C code would wrap the 32-bit address and read past the buffer. The descriptor range check (`FlashDescriptorWiring`) implies the first condition for any in-range request.
- FlashInterface.FlashDriver.ProgramDoubleWord: records the 8 bytes the source pointer designates. Lines 149 and 154 pass the pointer itself cast to `uint32_t`, and how the HAL interprets that value is not modelled.
- AlignedWrite.ReadBackAfterWrite: the cell model applies a program whatever the lock state. The lemma also assumes the target bytes were erased beforehand, which this code never does (see the erase log above). So it describes what the units store when programmed onto erased cells while the controller accepts programs. It does not describe what a call to `OPENBL_FLASH_Write` leaves on the device, where every program is issued locked (`WriteProgramsWhileLocked`).
- FlashMemory.ProgramAllImage: models a program as clearing bits (old byte AND new byte), which is the usual behaviour of this class of flash. The HAL's error reporting for programming over non-erased cells is not modelled.
- FlashInterface.FlashDriver.JumpToAddress: records the handoff up to the call. The call never returns and the processor state it sets up is not modelled.
- FlashInterface.FlashDriver.SetReadOutProtectionLevel: stages the level. The option-byte launch that commits it at reset is only registered, not modelled.
