/**
 * The flash controller as the driver sees it: every HAL request the driver
 * issues is an event of an ordered trace, and the lock state of the
 * controller (control register and option-byte register) is what replaying
 * that trace from reset gives.
 */
module Controller {
  import opened FlashTypes

  /** `erase_init_struct.Banks` of a mass erase: 0, FLASH_BANK_1 or FLASH_BANK_2. */
  datatype Banks = AllBanks | Bank1 | Bank2

  /** What an erase routine was asked to erase. */
  datatype EraseRequest =
    | RegionErase(address: u32, length: u32)  // EraseFlash(Address, DataLength)
    | BankErase(banks: Banks)                 // OPENBL_FLASH_ExtendedErase, TypeErase = mass erase

  /** One FLASH_TYPEPROGRAM_DOUBLEWORD program: a target address and its 8 bytes. */
  datatype DoubleWord = DoubleWord(address: u32, unit: seq<bv8>)

  datatype Event =
    | Unlocked                            // HAL_FLASH_Unlock
    | Locked                              // HAL_FLASH_Lock
    | OptionsUnlocked                     // HAL_FLASH_OB_Unlock
    | EraseRequested(request: EraseRequest)
    | Programmed(word: DoubleWord)        // HAL_FLASH_Program
    | OptionsProgrammed(rdpLevel: u32)    // HAL_FLASHEx_OBProgram with OPTIONBYTE_RDP
    | DeInitialized                       // OPENBL_DeInit
    | IrqEnabled                          // Common_EnableIrq
    | StackPointerSet(value: bv32)        // Common_SetMsp
    | Jumped(entry: bv32)                 // call through the application's reset vector

  /** Whether the control register and the option-byte register are locked. */
  datatype LockState = LockState(flash: bool, options: bool)

  /** Both registers are locked out of reset. */
  const RESET_LOCKS: LockState := LockState(true, true)

  function Step(s: LockState, e: Event): LockState
  {
    match e
    case Unlocked => s.(flash := false)
    case Locked => s.(flash := true)
    case OptionsUnlocked => s.(options := false)
    case _ => s
  }

  /** The lock state after the events of `t`, starting from `s`. */
  function Replay(s: LockState, t: seq<Event>): LockState
    decreases |t|
  {
    if t == [] then s else Replay(Step(s, t[0]), t[1..])
  }

  lemma {:induction false} ReplayAppend(s: LockState, t: seq<Event>, u: seq<Event>)
    ensures Replay(s, t + u) == Replay(Replay(s, t), u)
    decreases |t|
  {
    if t == [] {
      assert t + u == u;
    } else {
      assert (t + u)[1..] == t[1..] + u;
      ReplayAppend(Step(s, t[0]), t[1..], u);
    }
  }

  lemma ReplaySnoc(s: LockState, t: seq<Event>, e: Event)
    ensures Replay(s, t + [e]) == Step(Replay(s, t), e)
  {
    ReplayAppend(s, t, [e]);
    assert [e][1..] == [];
  }

  /** An event that neither locks nor unlocks anything. */
  predicate LockNeutral(e: Event)
  {
    !(e.Unlocked? || e.Locked? || e.OptionsUnlocked?)
  }

  lemma {:induction false} ReplayNeutral(s: LockState, t: seq<Event>)
    requires forall i :: 0 <= i < |t| ==> LockNeutral(t[i])
    ensures Replay(s, t) == s
    decreases |t|
  {
    if t != [] {
      assert LockNeutral(t[0]);
      ReplayNeutral(Step(s, t[0]), t[1..]);
    }
  }

  /** The double-word programs of a trace, in order. */
  function ProgramsOf(t: seq<Event>): seq<DoubleWord>
    decreases |t|
  {
    if t == [] then []
    else (if t[0].Programmed? then [t[0].word] else []) + ProgramsOf(t[1..])
  }

  /** The erase requests of a trace, in order. */
  function ErasesOf(t: seq<Event>): seq<EraseRequest>
    decreases |t|
  {
    if t == [] then []
    else (if t[0].EraseRequested? then [t[0].request] else []) + ErasesOf(t[1..])
  }

  lemma {:induction false} ProgramsOfAppend(t: seq<Event>, u: seq<Event>)
    ensures ProgramsOf(t + u) == ProgramsOf(t) + ProgramsOf(u)
    decreases |t|
  {
    if t == [] {
      assert t + u == u;
    } else {
      var first := if t[0].Programmed? then [t[0].word] else [];
      assert (t + u)[0] == t[0];
      assert (t + u)[1..] == t[1..] + u;
      ProgramsOfAppend(t[1..], u);
      calc {
        ProgramsOf(t + u);
        first + ProgramsOf(t[1..] + u);
        first + (ProgramsOf(t[1..]) + ProgramsOf(u));
        (first + ProgramsOf(t[1..])) + ProgramsOf(u);
      }
    }
  }

  lemma {:induction false} ErasesOfAppend(t: seq<Event>, u: seq<Event>)
    ensures ErasesOf(t + u) == ErasesOf(t) + ErasesOf(u)
    decreases |t|
  {
    if t == [] {
      assert t + u == u;
    } else {
      var first := if t[0].EraseRequested? then [t[0].request] else [];
      assert (t + u)[0] == t[0];
      assert (t + u)[1..] == t[1..] + u;
      ErasesOfAppend(t[1..], u);
      calc {
        ErasesOf(t + u);
        first + ErasesOf(t[1..] + u);
        first + (ErasesOf(t[1..]) + ErasesOf(u));
        (first + ErasesOf(t[1..])) + ErasesOf(u);
      }
    }
  }

  lemma {:induction false} ProgramsOfNone(t: seq<Event>)
    requires forall i :: 0 <= i < |t| ==> !t[i].Programmed?
    ensures ProgramsOf(t) == []
    decreases |t|
  {
    if t != [] {
      ProgramsOfNone(t[1..]);
    }
  }

  lemma {:induction false} ErasesOfNone(t: seq<Event>)
    requires forall i :: 0 <= i < |t| ==> !t[i].EraseRequested?
    ensures ErasesOf(t) == []
    decreases |t|
  {
    if t != [] {
      ErasesOfNone(t[1..]);
    }
  }
}
