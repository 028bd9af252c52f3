/**
 * The contents of the 32-bit address space as the driver reads them, and
 * what double-word programs do to flash cells: a program can only clear
 * bits, so the stored byte becomes the old byte AND the programmed byte.
 */
module FlashMemory {
  import opened FlashTypes
  import opened Controller

  type Memory = u32 -> bv8

  /** OPENBL_FLASH_Read: the byte stored at `address`. */
  function Read(mem: Memory, address: u32): bv8
  {
    mem(address)
  }

  /** A little-endian `uint32_t` load, as `*(__IO uint32_t *)Address` on Cortex-M. */
  function ReadWord(mem: Memory, address: u32): bv32
  {
    (mem(address) as bv32)
    | (mem(Wrap(address + 1)) as bv32 << 8)
    | (mem(Wrap(address + 2)) as bv32 << 16)
    | (mem(Wrap(address + 3)) as bv32 << 24)
  }

  /** The memory after one double-word program. */
  function ProgramWord(mem: Memory, w: DoubleWord): Memory
  {
    (x: u32) =>
      if w.address <= x < w.address + |w.unit| then mem(x) & w.unit[x - w.address] else mem(x)
  }

  /** The memory after the programs `ops`, issued in order. */
  function ProgramAll(mem: Memory, ops: seq<DoubleWord>): Memory
    decreases |ops|
  {
    if ops == [] then mem else ProgramWord(ProgramAll(mem, ops[..|ops| - 1]), ops[|ops| - 1])
  }

  /** Programs `ops` are 8-byte units laid back to back from `address`. */
  predicate Consecutive(address: u32, ops: seq<DoubleWord>)
  {
    forall i :: 0 <= i < |ops| ==> ops[i].address == address + 8 * i && |ops[i].unit| == 8
  }

  /**
   * After back-to-back programs, each byte of the covered range is the old
   * byte cleared by the byte programmed over it; every other byte is untouched.
   */
  lemma {:induction false} ProgramAllImage(mem: Memory, address: u32, ops: seq<DoubleWord>, x: u32)
    requires Consecutive(address, ops)
    ensures ProgramAll(mem, ops)(x) ==
      if address <= x < address + 8 * |ops|
      then mem(x) & ops[(x - address) / 8].unit[(x - address) % 8]
      else mem(x)
    decreases |ops|
  {
    if ops != [] {
      var m := |ops| - 1;
      var prev := ops[..m];
      assert Consecutive(address, prev) by {
        forall i | 0 <= i < |prev| ensures prev[i].address == address + 8 * i && |prev[i].unit| == 8 {
          assert prev[i] == ops[i];
        }
      }
      ProgramAllImage(mem, address, prev, x);
      ImageStep(mem, address, ops, x);
    }
  }

  /** One induction step of ProgramAllImage: the last program only touches its own unit. */
  lemma ImageStep(mem: Memory, address: u32, ops: seq<DoubleWord>, x: u32)
    requires Consecutive(address, ops) && ops != []
    requires var prev := ops[..|ops| - 1];
      ProgramAll(mem, prev)(x) ==
        if address <= x < address + 8 * |prev|
        then mem(x) & prev[(x - address) / 8].unit[(x - address) % 8]
        else mem(x)
    ensures ProgramAll(mem, ops)(x) ==
      if address <= x < address + 8 * |ops|
      then mem(x) & ops[(x - address) / 8].unit[(x - address) % 8]
      else mem(x)
  {
    var m := |ops| - 1;
    var prev := ops[..m];
    var last := ops[m];
    var before := ProgramAll(mem, prev);
    assert ProgramAll(mem, ops) == ProgramWord(before, last);
    assert last.address == address + 8 * m && |last.unit| == 8;
    if address <= x < address + 8 * m {
      var k := x - address;
      DivBelow(k, m);
      assert prev[k / 8] == ops[k / 8];
    } else if address + 8 * m <= x < address + 8 * m + 8 {
      DivIn(x - address, m);
    }
  }

  lemma DivIn(k: nat, m: nat)
    requires 8 * m <= k < 8 * m + 8
    ensures k / 8 == m && k % 8 == k - 8 * m
  {
  }

  lemma DivBelow(k: nat, m: nat)
    requires k < 8 * m
    ensures k / 8 < m
  {
  }
}
