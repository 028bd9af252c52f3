/**
 * Machine types, status codes and platform constants shared by the
 * flash driver model.
 */
module FlashTypes {

  /** Size of the 32-bit address space of the Cortex-M core. */
  const ADDRESS_SPACE: int := 0x1_0000_0000

  /** A `uint32_t`: addresses, lengths, option levels. */
  type u32 = x: int | 0 <= x < ADDRESS_SPACE

  /** Reduces an address computation modulo 2^32, as `uint32_t` arithmetic does. */
  function Wrap(x: nat): (r: u32)
    ensures x < ADDRESS_SPACE ==> r == x
  {
    x % ADDRESS_SPACE
  }

  /** Value of an erased flash byte: every bit set. */
  const ERASED: bv8 := 0xFF

  datatype Option<T> = None | Some(value: T)

  /** CMSIS `ErrorStatus`. */
  datatype ErrorStatus = Error | Success

  /** HAL `HAL_StatusTypeDef`. */
  datatype HalStatus = HalOk | HalError | HalBusy | HalTimeout

  /** CMSIS `FunctionalState`: DISABLE = 0, ENABLE = !DISABLE = 1. */
  const DISABLE: u32 := 0
  const ENABLE: u32 := 1

  /** `Flash_BusyState`: FLASH_BUSY_STATE_DISABLED or FLASH_BUSY_STATE_ENABLED. */
  datatype BusyState = BusyDisabled | BusyEnabled

  /** The post-processing routines the driver registers; only `OPENBL_OB_Launch` is used. */
  datatype Callback = OptionBytesLaunch

  /**
   * Constants that come from the platform headers rather than from the
   * driver: the descriptor's address range, size and area tag, the three
   * mass-erase option codes, and the option-byte value of RDP level 2.
   */
  datatype Platform = Platform(
    flashStartAddress: u32,
    flashEndAddress: u32,
    flashBlSize: u32,
    flashArea: u32,
    massEraseCode: bv16,
    bank1EraseCode: bv16,
    bank2EraseCode: bv16,
    rdpLevel2: u32)
}
