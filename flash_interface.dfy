/**
 * The flash driver of the open bootloader: the operation table
 * `FLASH_Descriptor` and the driver state those operations update (the
 * controller's request trace and lock state, the staged read-out
 * protection level, the registered post-processing callback and the busy
 * flag).
 */
module FlashInterface {
  import opened FlashTypes
  import opened Controller
  import opened FlashMemory
  import opened AlignedWrite
  import opened MassEraseOptions

  /** The entries of an `OPENBL_MemoryTypeDef` operation table. */
  datatype MemoryOperation =
    | ReadOp | WriteOp | SetReadoutProtectOp | SetWriteProtectOp | JumpToAddressOp | EraseOp

  /** A memory descriptor: its address range, size, area tag and operation table in slot order. */
  datatype MemoryDescriptor = MemoryDescriptor(
    startAddress: u32,
    endAddress: u32,
    size: u32,
    area: u32,
    operations: seq<Option<MemoryOperation>>)

  predicate Provides(d: MemoryDescriptor, op: MemoryOperation)
  {
    Some(op) in d.operations
  }

  /** `FLASH_Descriptor`: the flash range and its operations; the tenth entry is NULL. */
  function FlashDescriptor(p: Platform): MemoryDescriptor
  {
    MemoryDescriptor(
      p.flashStartAddress, p.flashEndAddress, p.flashBlSize, p.flashArea,
      [Some(ReadOp), Some(WriteOp), Some(SetReadoutProtectOp), Some(SetWriteProtectOp),
       Some(JumpToAddressOp), None, Some(EraseOp)])
  }

  /** `n > 0` bytes from `address` lie inside the descriptor's inclusive range. */
  predicate InRange(d: MemoryDescriptor, address: u32, n: nat)
  {
    0 < n && d.startAddress <= address && address + n - 1 <= d.endAddress
  }

  /**
   * Each of the six operations is wired to exactly one table slot, the NULL
   * slot provides nothing, and a request the dispatcher has checked against
   * the flash range meets the write's no-wrap requirement.
   */
  lemma FlashDescriptorWiring(p: Platform, address: u32, n: nat)
    ensures var d := FlashDescriptor(p);
      |d.operations| == 7
      && d.operations[5] == None
      && (forall op: MemoryOperation :: Provides(d, op))
      && (forall i, j :: 0 <= i < j < |d.operations| && d.operations[i].Some? ==>
            d.operations[i] != d.operations[j])
      && (InRange(d, address, n) ==> address + n <= ADDRESS_SPACE)
  {
    var d := FlashDescriptor(p);
    forall op: MemoryOperation ensures Provides(d, op) {
      match op
      case ReadOp => assert d.operations[0] == Some(op);
      case WriteOp => assert d.operations[1] == Some(op);
      case SetReadoutProtectOp => assert d.operations[2] == Some(op);
      case SetWriteProtectOp => assert d.operations[3] == Some(op);
      case JumpToAddressOp => assert d.operations[4] == Some(op);
      case EraseOp => assert d.operations[6] == Some(op);
    }
  }

  /** The option-byte requests of OPENBL_FLASH_SetReadOutProtectionLevel: none for level 2. */
  function ReadOutProtectionTrace(p: Platform, level: u32): seq<Event>
  {
    if level != p.rdpLevel2 then [Unlocked, OptionsUnlocked, OptionsProgrammed(level)] else []
  }

  /**
   * Level 2 is never programmed; any other level is programmed exactly once,
   * as requested, after both registers have been unlocked, and the controller
   * is left unlocked.
   */
  lemma ReadOutProtectionStaging(s: LockState, p: Platform, level: u32)
    ensures var t := ReadOutProtectionTrace(p, level);
      (level == p.rdpLevel2 ==> t == [])
      && (forall j :: 0 <= j < |t| && t[j].OptionsProgrammed? ==>
            t[j].rdpLevel == level && level != p.rdpLevel2
            && !Replay(s, t[..j]).flash && !Replay(s, t[..j]).options)
      && (level != p.rdpLevel2 ==> exists j :: 0 <= j < |t| && t[j] == OptionsProgrammed(level))
      && (level != p.rdpLevel2 ==> !Replay(s, t).flash && !Replay(s, t).options)
  {
    var t := ReadOutProtectionTrace(p, level);
    if level != p.rdpLevel2 {
      assert t[..2] == [Unlocked] + [OptionsUnlocked];
      ReplaySnoc(s, [Unlocked], OptionsUnlocked);
      ReplaySnoc(s, [], Unlocked);
      assert [] + [Unlocked] == [Unlocked];
      assert t == t[..2] + [OptionsProgrammed(level)];
      ReplaySnoc(s, t[..2], OptionsProgrammed(level));
      assert t[2] == OptionsProgrammed(level);
    }
  }

  /** OPENBL_FLASH_JumpToAddress: de-initialise, enable IRQs, set MSP from `*Address`, call `*(Address + 4)`. */
  function HandoffTrace(mem: Memory, address: u32): seq<Event>
  {
    [DeInitialized, IrqEnabled,
     StackPointerSet(ReadWord(mem, address)),
     Jumped(ReadWord(mem, Wrap(address + 4)))]
  }

  /**
   * The jump is the last step, targets the vector at `Address + 4`, and comes
   * after de-initialisation and after the stack pointer is set from `*Address`.
   */
  lemma HandoffOrder(mem: Memory, address: u32)
    ensures var t := HandoffTrace(mem, address);
      t[|t| - 1] == Jumped(ReadWord(mem, Wrap(address + 4)))
      && (forall i :: 0 <= i < |t| && t[i].StackPointerSet? ==> t[i].value == ReadWord(mem, address))
      && (forall i, j :: 0 <= i < |t| && 0 <= j < |t| && t[i].DeInitialized? && t[j].Jumped? ==> i < j)
      && (forall i, j :: 0 <= i < |t| && 0 <= j < |t| && t[i].StackPointerSet? && t[j].Jumped? ==> i < j)
  {
  }

  class FlashDriver {
    const platform: Platform
    var locked: bool
    var optionLocked: bool
    /** Every request issued to the controller, in order (program and erase logs included). */
    var trace: seq<Event>
    /** The RDP level staged in the option bytes, committed by the option-byte launch at reset. */
    var stagedRdp: Option<u32>
    /** The routine registered with Common_SetPostProcessingCallback. */
    var postCallback: Option<Callback>
    var busy: BusyState

    /** The lock fields are what the trace leaves the registers in, starting from reset. */
    ghost predicate Valid()
      reads this`locked, this`optionLocked, this`trace
    {
      LockState(locked, optionLocked) == Replay(RESET_LOCKS, trace)
    }

    constructor (platform: Platform)
      ensures Valid() && this.platform == platform
      ensures trace == [] && locked && optionLocked
      ensures stagedRdp == None && postCallback == None && busy == BusyDisabled
    {
      this.platform := platform;
      locked, optionLocked := true, true;
      trace := [];
      stagedRdp, postCallback := None, None;
      busy := BusyDisabled;
    }

    /** Records a request that does not change the lock state. */
    method Issue(e: Event)
      requires Valid() && LockNeutral(e)
      modifies this`trace
      ensures Valid() && trace == old(trace) + [e]
    {
      ReplaySnoc(RESET_LOCKS, trace, e);
      trace := trace + [e];
    }

    /** OPENBL_FLASH_Unlock (HAL_FLASH_Unlock). */
    method Unlock()
      requires Valid()
      modifies this`locked, this`trace
      ensures Valid() && !locked && trace == old(trace) + [Unlocked]
    {
      ReplaySnoc(RESET_LOCKS, trace, Unlocked);
      trace := trace + [Unlocked];
      locked := false;
    }

    /** OPENBL_FLASH_Lock (HAL_FLASH_Lock). */
    method Lock()
      requires Valid()
      modifies this`locked, this`trace
      ensures Valid() && locked && trace == old(trace) + [Locked]
    {
      ReplaySnoc(RESET_LOCKS, trace, Locked);
      trace := trace + [Locked];
      locked := true;
    }

    /** OPENBL_FLASH_OB_Unlock: HAL_FLASH_Unlock, then HAL_FLASH_OB_Unlock. */
    method OptionBytesUnlock()
      requires Valid()
      modifies this`locked, this`optionLocked, this`trace
      ensures Valid() && !locked && !optionLocked
      ensures trace == old(trace) + [Unlocked, OptionsUnlocked]
    {
      Unlock();
      ReplaySnoc(RESET_LOCKS, trace, OptionsUnlocked);
      trace := trace + [OptionsUnlocked];
      optionLocked := false;
    }

    /**
     * OPENBL_FLASH_ProgramDoubleWord. The source passes the address of the 8
     * bytes cast to `uint32_t` (`Data + index` at line 149, `remainder_data`
     * at line 154); the request records the 8 bytes that pointer designates.
     */
    method ProgramDoubleWord(word: DoubleWord)
      requires Valid()
      modifies this`trace
      ensures Valid() && trace == old(trace) + [Programmed(word)]
    {
      Issue(Programmed(word));
    }

    /** EraseFlash: unlock, request the erase of the write's range, lock again. */
    method EraseFlash(address: u32, dataLength: u32)
      requires Valid()
      modifies this`locked, this`trace
      ensures Valid() && locked
      ensures trace == old(trace) + EraseFlashTrace(address, dataLength)
    {
      Unlock();
      Issue(EraseRequested(RegionErase(address, dataLength)));
      Lock();
    }

    /** OPENBL_FLASH_ExtendedErase: a mass-erase request that always reports HAL_OK. */
    method ExtendedErase(banks: Banks) returns (status: HalStatus)
      requires Valid()
      modifies this`trace
      ensures Valid() && status == HalOk
      ensures trace == old(trace) + [EraseRequested(BankErase(banks))]
    {
      Issue(EraseRequested(BankErase(banks)));
      status := HalOk;
    }

    /** HAL_FLASHEx_OBProgram with OptionType = OPTIONBYTE_RDP: stages `level`. */
    method OptionBytesProgram(level: u32)
      requires Valid()
      modifies this`trace, this`stagedRdp
      ensures Valid() && stagedRdp == Some(level)
      ensures trace == old(trace) + [OptionsProgrammed(level)]
    {
      Issue(OptionsProgrammed(level));
      stagedRdp := Some(level);
    }

    /** Common_SetPostProcessingCallback: one registration slot, overwritten by each call. */
    method SetPostProcessingCallback(callback: Callback)
      modifies this`postCallback
      ensures postCallback == Some(callback)
    {
      postCallback := Some(callback);
    }

    /**
     * OPENBL_FLASH_Write: unlock, EraseFlash over the range, program the
     * whole double-words in ascending order, then the padded remainder, and
     * lock. The program log grows by exactly the write's units and the erase
     * log by one request.
     */
    method Write(address: u32, data: seq<bv8>, dataLength: u32)
      requires Valid()
      requires WriteFits(address, data, dataLength)
      modifies this`locked, this`trace
      ensures Valid() && locked
      ensures trace == old(trace) + WriteTrace(address, data, dataLength)
      ensures ProgramsOf(trace) == ProgramsOf(old(trace)) + WriteUnits(address, data, dataLength)
      ensures ErasesOf(trace) == ErasesOf(old(trace)) + [RegionErase(address, dataLength)]
    {
      var length := dataLength;
      var remainder := dataLength % 8;
      var remainderData: seq<bv8> := [0, 0, 0, 0, 0, 0, 0, 0];
      if remainder != 0 {
        length := dataLength - remainder;
        remainderData := PadRemainder(data, length, remainder);
        PadRemainderIsPadded(data, length, remainder, remainderData);
      }

      Unlock();
      EraseFlash(address, dataLength);
      ProgramUnits(address, data, dataLength, length, remainder, remainderData);
      Lock();
      WriteTraceExtends(old(trace), address, data, dataLength);
      WriteLogsGrow(old(trace), address, data, dataLength);
    }

    /**
     * The programming part of OPENBL_FLASH_Write: every whole double-word in
     * ascending order, then the padded remainder unit when there is one.
     */
    method ProgramUnits(address: u32, data: seq<bv8>, dataLength: u32, length: nat, remainder: nat, remainderData: seq<bv8>)
      requires Valid()
      requires WriteFits(address, data, dataLength)
      requires remainder == dataLength % 8 && length == dataLength - remainder
      requires remainder != 0 ==> remainderData == Padded(data[length .. dataLength])
      modifies this`trace
      ensures Valid()
      ensures trace == old(trace) + ProgramEvents(WriteUnits(address, data, dataLength))
    {
      ghost var ops := WriteUnits(address, data, dataLength);
      ghost var k := 0;
      var index := 0;
      while index < length
        invariant 0 <= index <= length && index == 8 * k
        invariant Valid()
        invariant trace == old(trace) + ProgramEvents(ops[..k])
      {
        FullUnitAt(address, data, dataLength, index);
        ProgramDoubleWord(DoubleWord(address + index, data[index .. index + 8]));
        ProgramEventsSnoc(ops, k);
        index := index + 8;
        k := k + 1;
      }

      WriteUnitsSplit(address, data, dataLength, k);
      if remainder != 0 {
        ProgramEventsSnoc(ops, k);
        ProgramDoubleWord(DoubleWord(address + length, remainderData));
      }
    }

    /**
     * OPENBL_FLASH_MassErase: SUCCESS exactly when the payload holds at least
     * two bytes whose option word names the whole device or a bank; one
     * erase request then, none otherwise; locked on every path.
     */
    method MassErase(payload: seq<bv8>, dataLength: u32) returns (status: ErrorStatus)
      requires Valid()
      requires dataLength <= |payload|
      modifies this`locked, this`trace
      ensures Valid() && locked
      ensures var selection := MassEraseSelection(platform, payload, dataLength);
        (status == Success <==> selection.Some?)
        && trace == old(trace) + MassEraseTrace(selection)
    {
      status := Success;
      Unlock();

      if dataLength >= 2 {
        var bankOption := OptionWord(payload[0], payload[1]);
        var banks := AllBanks;
        if bankOption == platform.massEraseCode {
          banks := AllBanks;
        } else if bankOption == platform.bank1EraseCode {
          banks := Bank1;
        } else if bankOption == platform.bank2EraseCode {
          banks := Bank2;
        } else {
          status := Error;
        }

        if status == Success {
          var halStatus := ExtendedErase(banks);
          if halStatus != HalOk {
            status := Error;
          } else {
            status := Success;
          }
        }
      } else {
        status := Error;
      }

      Lock();
    }

    /**
     * OPENBL_FLASH_SetReadOutProtectionLevel: any level but 2 is staged in the
     * option bytes after unlocking both registers, which stay unlocked; level
     * 2 touches nothing. The option-byte launch is registered either way.
     */
    method SetReadOutProtectionLevel(level: u32)
      requires Valid()
      modifies this`locked, this`optionLocked, this`trace, this`stagedRdp, this`postCallback
      ensures Valid()
      ensures trace == old(trace) + ReadOutProtectionTrace(platform, level)
      ensures stagedRdp == if level != platform.rdpLevel2 then Some(level) else old(stagedRdp)
      ensures level != platform.rdpLevel2 ==> !locked && !optionLocked
      ensures level == platform.rdpLevel2 ==> locked == old(locked) && optionLocked == old(optionLocked)
      ensures postCallback == Some(OptionBytesLaunch)
    {
      if level != platform.rdpLevel2 {
        OptionBytesUnlock();
        OptionBytesProgram(level);
      }
      SetPostProcessingCallback(OptionBytesLaunch);
    }

    /**
     * OPENBL_FLASH_SetWriteProtection: ENABLE and DISABLE succeed and register
     * the option-byte launch; any other state is an ERROR that registers
     * nothing. No controller request is issued.
     */
    method SetWriteProtection(state: u32, listOfPages: seq<bv8>, length: u32) returns (status: ErrorStatus)
      modifies this`postCallback
      ensures status == Success <==> (state == ENABLE || state == DISABLE)
      ensures postCallback == if status == Success then Some(OptionBytesLaunch) else old(postCallback)
    {
      status := Success;
      if state == ENABLE {
        SetPostProcessingCallback(OptionBytesLaunch);
      } else if state == DISABLE {
        SetPostProcessingCallback(OptionBytesLaunch);
      } else {
        status := Error;
      }
    }

    /** OPENBL_Enable_BusyState_Flag. */
    method EnableBusyStateFlag()
      modifies this`busy
      ensures busy == BusyEnabled
    {
      busy := BusyEnabled;
    }

    /** OPENBL_Disable_BusyState_Flag. */
    method DisableBusyStateFlag()
      modifies this`busy
      ensures busy == BusyDisabled
    {
      busy := BusyDisabled;
    }

    /** OPENBL_FLASH_JumpToAddress, up to the call that does not return. */
    method JumpToAddress(mem: Memory, address: u32)
      requires Valid()
      modifies this`trace
      ensures Valid() && trace == old(trace) + HandoffTrace(mem, address)
    {
      Issue(DeInitialized);
      Issue(IrqEnabled);
      var entry := ReadWord(mem, Wrap(address + 4));
      Issue(StackPointerSet(ReadWord(mem, address)));
      Issue(Jumped(entry));
    }
  }
}
