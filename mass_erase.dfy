/**
 * OPENBL_FLASH_MassErase's option payload: a 16-bit word read
 * little-endian from the first two bytes, selecting the whole device,
 * bank 1 or bank 2.
 */
module MassEraseOptions {
  import opened FlashTypes
  import opened Controller

  /** `*(uint16_t *)(p_Data)` on a little-endian core. */
  function OptionWord(b0: bv8, b1: bv8): (w: bv16)
    ensures w & 0xFF == b0 as bv16 && w >> 8 == b1 as bv16
  {
    (b1 as bv16 << 8) | (b0 as bv16)
  }

  /** The two payload bytes that carry option word `w`. */
  function OptionBytes(w: bv16): (b: seq<bv8>)
    ensures |b| == 2
  {
    [(w & 0xFF) as bv8, (w >> 8) as bv8]
  }

  lemma OptionWordRoundTrip(w: bv16)
    ensures OptionWord(OptionBytes(w)[0], OptionBytes(w)[1]) == w
  {
  }

  lemma OptionBytesRoundTrip(b0: bv8, b1: bv8)
    ensures OptionBytes(OptionWord(b0, b1)) == [b0, b1]
  {
  }

  /**
   * The bank choice of an option word, checked in the source's order: a bank
   * is only ever chosen by its own code, and every other word is rejected.
   */
  function BankSelection(p: Platform, w: bv16): (r: Option<Banks>)
    ensures r.Some? ==> w == BankCode(p, r.value)
    ensures r == None <==> w != p.massEraseCode && w != p.bank1EraseCode && w != p.bank2EraseCode
  {
    if w == p.massEraseCode then Some(AllBanks)
    else if w == p.bank1EraseCode then Some(Bank1)
    else if w == p.bank2EraseCode then Some(Bank2)
    else None
  }

  /** The option word that requests `b`. */
  function BankCode(p: Platform, b: Banks): bv16
  {
    match b
    case AllBanks => p.massEraseCode
    case Bank1 => p.bank1EraseCode
    case Bank2 => p.bank2EraseCode
  }

  predicate DistinctCodes(p: Platform)
  {
    p.massEraseCode != p.bank1EraseCode
    && p.massEraseCode != p.bank2EraseCode
    && p.bank1EraseCode != p.bank2EraseCode
  }

  /** With distinct codes, each bank's code selects that bank. */
  lemma BankSelectionRoundTrip(p: Platform, b: Banks)
    requires DistinctCodes(p)
    ensures BankSelection(p, BankCode(p, b)) == Some(b)
  {
  }

  /** The erase a payload of `n` bytes selects: none when shorter than 2 bytes or not a known code. */
  function MassEraseSelection(p: Platform, payload: seq<bv8>, n: nat): Option<Banks>
    requires n <= |payload|
  {
    if n >= 2 then BankSelection(p, OptionWord(payload[0], payload[1])) else None
  }

  /** The controller requests of one OPENBL_FLASH_MassErase call. */
  function MassEraseTrace(selection: Option<Banks>): seq<Event>
  {
    [Unlocked]
    + (match selection case Some(b) => [EraseRequested(BankErase(b))] case None => [])
    + [Locked]
  }

  /**
   * A mass erase requests at most one erase, exactly when the payload selects
   * banks (never for a payload shorter than 2 bytes), programs nothing and
   * leaves the controller locked on every path.
   */
  lemma MassEraseOutcome(s: LockState, p: Platform, payload: seq<bv8>, n: nat)
    requires n <= |payload|
    ensures var selection := MassEraseSelection(p, payload, n);
      var t := MassEraseTrace(selection);
      ErasesOf(t) == (match selection case Some(b) => [BankErase(b)] case None => [])
      && (n < 2 ==> ErasesOf(t) == [])
      && ProgramsOf(t) == []
      && Replay(s, t).flash
  {
    var selection := MassEraseSelection(p, payload, n);
    var middle := match selection case Some(b) => [EraseRequested(BankErase(b))] case None => [];
    var t := MassEraseTrace(selection);
    assert t == [Unlocked] + middle + [Locked];
    ErasesOfAppend([Unlocked] + middle, [Locked]);
    ErasesOfAppend([Unlocked], middle);
    ProgramsOfAppend([Unlocked] + middle, [Locked]);
    ProgramsOfAppend([Unlocked], middle);
    ErasesOfNone([Unlocked]);
    ErasesOfNone([Locked]);
    ProgramsOfNone([Unlocked]);
    ProgramsOfNone([Locked]);
    ProgramsOfNone(middle);
    ReplaySnoc(s, [Unlocked] + middle, Locked);
  }

  /** The two-byte payload carrying a bank's code selects that bank. */
  lemma PayloadSelectsByCode(p: Platform, b: Banks)
    requires DistinctCodes(p)
    ensures MassEraseSelection(p, OptionBytes(BankCode(p, b)), 2) == Some(b)
  {
    OptionWordRoundTrip(BankCode(p, b));
    BankSelectionRoundTrip(p, b);
  }
}
