/**
 * OPENBL_FLASH_Write split into FLASH_TYPEPROGRAM_DOUBLEWORD units: the
 * whole 8-byte units of the buffer, then the trailing partial unit copied
 * into a scratch buffer and completed with erased (0xFF) bytes.
 */
module AlignedWrite {
  import opened FlashTypes
  import opened Controller
  import opened FlashMemory

  /** `DataLength & 0xFFFFFFF8U`: the bytes covered by whole double-words. */
  function FullLength(n: nat): (r: nat)
    ensures r <= n && r % 8 == 0 && n - r < 8
  {
    n - n % 8
  }

  /** A trailing partial unit completed with erased bytes up to 8 bytes. */
  function Padded(tail: seq<bv8>): (u: seq<bv8>)
    requires |tail| < 8
    ensures |u| == 8
    ensures forall i :: 0 <= i < |tail| ==> u[i] == tail[i]
    ensures forall i :: |tail| <= i < 8 ==> u[i] == ERASED
  {
    tail + seq(8 - |tail|, _ => ERASED)
  }

  /** The buffer holds `n` bytes and the written range does not wrap past 2^32. */
  predicate WriteFits(address: u32, data: seq<bv8>, n: nat)
  {
    n <= |data| && address + n <= ADDRESS_SPACE
  }

  /** The double-word programs a write of `n` bytes of `data` at `address` issues, in order. */
  function WriteUnits(address: u32, data: seq<bv8>, n: nat): seq<DoubleWord>
    requires WriteFits(address, data, n)
  {
    var full := FullLength(n);
    seq(full / 8, i requires 0 <= i < full / 8 =>
      DoubleWord(address + 8 * i, data[8 * i .. 8 * i + 8]))
    + (if full == n then [] else [DoubleWord(address + full, Padded(data[full..n]))])
  }

  /** The events of a sequence of double-word programs. */
  function ProgramEvents(ops: seq<DoubleWord>): seq<Event>
  {
    seq(|ops|, i requires 0 <= i < |ops| => Programmed(ops[i]))
  }

  /** EraseFlash: unlock, the (hard-coded) region erase request, lock. */
  function EraseFlashTrace(address: u32, n: u32): seq<Event>
  {
    [Unlocked, EraseRequested(RegionErase(address, n)), Locked]
  }

  /** The controller requests of one OPENBL_FLASH_Write call, in order. */
  function WriteTrace(address: u32, data: seq<bv8>, n: u32): seq<Event>
    requires WriteFits(address, data, n)
  {
    [Unlocked] + EraseFlashTrace(address, n) + ProgramEvents(WriteUnits(address, data, n)) + [Locked]
  }

  /**
   * A write issues ceil(n / 8) programs; unit i targets `address + 8 * i` and
   * holds 8 bytes; when n is a multiple of 8 there is no padded unit.
   */
  lemma WriteUnitsLayout(address: u32, data: seq<bv8>, n: nat)
    requires WriteFits(address, data, n)
    ensures var ops := WriteUnits(address, data, n);
      |ops| == (n + 7) / 8
      && (n % 8 == 0 ==> |ops| == n / 8)
      && Consecutive(address, ops)
  {
    var ops := WriteUnits(address, data, n);
    var full := FullLength(n);
    assert full / 8 * 8 == full;
    if full == n {
      assert |ops| == full / 8;
    } else {
      assert |ops| == full / 8 + 1;
      assert ops[full / 8].address == address + 8 * (full / 8);
    }
  }

  /** Programs target strictly ascending addresses. */
  lemma WriteUnitsAscending(address: u32, data: seq<bv8>, n: nat)
    requires WriteFits(address, data, n)
    ensures var ops := WriteUnits(address, data, n);
      forall i, j :: 0 <= i < j < |ops| ==> ops[i].address + 8 <= ops[j].address
  {
    WriteUnitsLayout(address, data, n);
  }

  /**
   * Byte `k` of the programmed units is byte `k` of the buffer while `k < n`,
   * and an erased byte in the padding after it.
   */
  lemma WriteUnitsBytes(address: u32, data: seq<bv8>, n: nat, k: nat)
    requires WriteFits(address, data, n)
    requires k < 8 * ((n + 7) / 8)
    ensures var ops := WriteUnits(address, data, n);
      k / 8 < |ops| && |ops[k / 8].unit| == 8
      && ops[k / 8].unit[k % 8] == if k < n then data[k] else ERASED
  {
    var ops := WriteUnits(address, data, n);
    WriteUnitsLayout(address, data, n);
    var full := FullLength(n);
    var q, r := k / 8, k % 8;
    assert k == 8 * q + r;
    assert q < |ops| by {
      DivBelow(k, |ops|);
    }
    if q < full / 8 {
      assert ops[q] == DoubleWord(address + 8 * q, data[8 * q .. 8 * q + 8]);
      assert 8 * q + 8 <= full;
    } else {
      assert full != n && q == full / 8;
      assert 8 * q == full;
      assert ops[q] == DoubleWord(address + full, Padded(data[full..n]));
    }
  }

  /**
   * The padded remainder unit is the last program: it targets
   * `address + (n & ~7)`, carries the last `n mod 8` bytes and then 0xFF.
   */
  lemma PaddedRemainderUnit(address: u32, data: seq<bv8>, n: nat)
    requires WriteFits(address, data, n)
    requires n % 8 != 0
    ensures var ops := WriteUnits(address, data, n);
      var last := ops[|ops| - 1];
      |ops| == n / 8 + 1
      && last.address == address + FullLength(n)
      && |last.unit| == 8
      && (forall i :: 0 <= i < n % 8 ==> last.unit[i] == data[FullLength(n) + i])
      && (forall i :: n % 8 <= i < 8 ==> last.unit[i] == ERASED)
  {
    var full := FullLength(n);
    assert full / 8 == n / 8;
  }

  /**
   * Reading back after the programs of a write onto a range whose `n`
   * bytes were erased gives the buffer; every other byte, the padding
   * included, keeps its value, since programming 0xFF clears no bit.
   */
  lemma ReadBackAfterWrite(mem: Memory, address: u32, data: seq<bv8>, n: nat, x: u32)
    requires WriteFits(address, data, n)
    requires forall y: u32 :: address <= y < address + n ==> Read(mem, y) == ERASED
    ensures Read(ProgramAll(mem, WriteUnits(address, data, n)), x) ==
      if address <= x < address + n then data[x - address] else Read(mem, x)
  {
    var ops := WriteUnits(address, data, n);
    var image := ProgramAll(mem, ops);
    WriteUnitsLayout(address, data, n);
    ProgramAllImage(mem, address, ops, x);
    assert n <= 8 * |ops|;
    if address <= x < address + 8 * |ops| {
      var k := x - address;
      WriteUnitsBytes(address, data, n, k);
      var b := ops[k / 8].unit[k % 8];
      assert image(x) == mem(x) & b;
      if k < n {
        assert Read(mem, x) == ERASED;
        assert b == data[k];
        assert ERASED & b == b;
        assert image(x) == data[k];
      } else {
        assert b == ERASED;
        assert mem(x) & ERASED == mem(x);
        assert image(x) == mem(x);
      }
    } else {
      assert image(x) == mem(x);
    }
  }

  /** The program log of a write is exactly its units, and its erase log one request for the whole range. */
  lemma WriteTraceLogs(address: u32, data: seq<bv8>, n: u32)
    requires WriteFits(address, data, n)
    ensures ProgramsOf(WriteTrace(address, data, n)) == WriteUnits(address, data, n)
    ensures ErasesOf(WriteTrace(address, data, n)) == [RegionErase(address, n)]
  {
    var ops := WriteUnits(address, data, n);
    var head := [Unlocked] + EraseFlashTrace(address, n);
    var body := ProgramEvents(ops);
    assert WriteTrace(address, data, n) == head + body + [Locked];
    ProgramsOfAppend(head + body, [Locked]);
    ProgramsOfAppend(head, body);
    ErasesOfAppend(head + body, [Locked]);
    ErasesOfAppend(head, body);
    ProgramsOfNone(head);
    ProgramsOfNone([Locked]);
    ErasesOfNone(body);
    ErasesOfNone([Locked]);
    ProgramEventsLog(ops);
    assert head == [Unlocked, Unlocked] + [EraseRequested(RegionErase(address, n)), Locked];
    ErasesOfAppend([Unlocked, Unlocked], [EraseRequested(RegionErase(address, n)), Locked]);
    ErasesOfNone([Unlocked, Unlocked]);
    assert [EraseRequested(RegionErase(address, n)), Locked][1..] == [Locked];
  }

  /** A write appends its units to the program log and one request to the erase log. */
  lemma WriteLogsGrow(before: seq<Event>, address: u32, data: seq<bv8>, n: u32)
    requires WriteFits(address, data, n)
    ensures ProgramsOf(before + WriteTrace(address, data, n)) == ProgramsOf(before) + WriteUnits(address, data, n)
    ensures ErasesOf(before + WriteTrace(address, data, n)) == ErasesOf(before) + [RegionErase(address, n)]
  {
    WriteTraceLogs(address, data, n);
    ProgramsOfAppend(before, WriteTrace(address, data, n));
    ErasesOfAppend(before, WriteTrace(address, data, n));
  }

  lemma {:induction false} ProgramEventsLog(ops: seq<DoubleWord>)
    ensures ProgramsOf(ProgramEvents(ops)) == ops
    decreases |ops|
  {
    if ops != [] {
      assert ProgramEvents(ops)[1..] == ProgramEvents(ops[1..]);
      ProgramEventsLog(ops[1..]);
    }
  }

  /** The single erase request of a write comes before every one of its programs. */
  lemma WriteEraseBeforePrograms(address: u32, data: seq<bv8>, n: u32)
    requires WriteFits(address, data, n)
    ensures var t := WriteTrace(address, data, n);
      forall i, j :: 0 <= i < |t| && 0 <= j < |t| && t[i].EraseRequested? && t[j].Programmed? ==> i < j
  {
    var t := WriteTrace(address, data, n);
    var body := ProgramEvents(WriteUnits(address, data, n));
    assert |t| == |body| + 5;
    forall i, j | 0 <= i < |t| && 0 <= j < |t| && t[i].EraseRequested? && t[j].Programmed?
      ensures i < j
    {
      assert i == 2;
    }
  }

  /**
   * Every program of a write is issued while the control register is
   * locked: EraseFlash locks the controller again before the program loop.
   * The write leaves the controller locked.
   */
  lemma WriteProgramsWhileLocked(s: LockState, address: u32, data: seq<bv8>, n: u32)
    requires WriteFits(address, data, n)
    ensures var t := WriteTrace(address, data, n);
      (forall j :: 0 <= j < |t| && t[j].Programmed? ==> Replay(s, t[..j]).flash)
      && Replay(s, t).flash
  {
    var t := WriteTrace(address, data, n);
    var head := [Unlocked] + EraseFlashTrace(address, n);
    var body := ProgramEvents(WriteUnits(address, data, n));
    assert t == head + body + [Locked];
    assert head == head[..3] + [Locked];
    ReplaySnoc(s, head[..3], Locked);
    var afterHead := Replay(s, head);
    assert afterHead.flash;
    forall j | 0 <= j < |t| && t[j].Programmed?
      ensures Replay(s, t[..j]).flash
    {
      assert 4 <= j < |t| - 1;
      var done := body[..j - 4];
      assert t[..j] == head + done;
      ReplayAppend(s, head, done);
      ReplayNeutral(afterHead, done);
    }
    ReplaySnoc(s, head + body, Locked);
  }

  /** Unit `index / 8` of a write is the whole double-word of the buffer at offset `index`. */
  lemma FullUnitAt(address: u32, data: seq<bv8>, n: nat, index: nat)
    requires WriteFits(address, data, n)
    requires index % 8 == 0 && index + 8 <= FullLength(n)
    ensures index / 8 < |WriteUnits(address, data, n)|
    ensures WriteUnits(address, data, n)[index / 8] == DoubleWord(address + index, data[index .. index + 8])
  {
    var full := FullLength(n);
    assert index / 8 < full / 8;
    assert 8 * (index / 8) == index;
  }

  /** After the whole double-words, a write issues only the padded remainder, if any. */
  lemma WriteUnitsSplit(address: u32, data: seq<bv8>, n: nat, k: nat)
    requires WriteFits(address, data, n)
    requires 8 * k == FullLength(n)
    ensures var ops := WriteUnits(address, data, n);
      k <= |ops|
      && (n % 8 == 0 ==> ops == ops[..k])
      && (n % 8 != 0 ==> |ops| == k + 1 && ops[k] == DoubleWord(address + 8 * k, Padded(data[8 * k .. n])))
  {
    var full := FullLength(n);
    assert full / 8 == k;
  }

  lemma ProgramEventsSnoc(ops: seq<DoubleWord>, k: nat)
    requires k < |ops|
    ensures ProgramEvents(ops[..k + 1]) == ProgramEvents(ops[..k]) + [Programmed(ops[k])]
  {
  }

  /** Appending the pieces of a write one after another gives the write's trace. */
  lemma WriteTraceExtends(before: seq<Event>, address: u32, data: seq<bv8>, n: u32)
    requires WriteFits(address, data, n)
    ensures before + [Unlocked] + EraseFlashTrace(address, n) + ProgramEvents(WriteUnits(address, data, n)) + [Locked]
      == before + WriteTrace(address, data, n)
  {
  }

  /** The write of ten 0xAA bytes at 0x1000: one full unit, then two bytes padded with six 0xFF. */
  lemma TenByteWrite()
    ensures WriteUnits(0x1000, seq(10, _ => 0xAA), 10) ==
      [DoubleWord(0x1000, [0xAA, 0xAA, 0xAA, 0xAA, 0xAA, 0xAA, 0xAA, 0xAA]),
       DoubleWord(0x1008, [0xAA, 0xAA, 0xFF, 0xFF, 0xFF, 0xFF, 0xFF, 0xFF])]
  {
    var data: seq<bv8> := seq(10, _ => 0xAA);
    assert FullLength(10) == 8;
    assert data[0..8] == [0xAA, 0xAA, 0xAA, 0xAA, 0xAA, 0xAA, 0xAA, 0xAA];
    assert Padded(data[8..10]) == [0xAA, 0xAA, 0xFF, 0xFF, 0xFF, 0xFF, 0xFF, 0xFF];
  }

  /**
   * Lines 120 and 130-139 of the write: the trailing `remainder` bytes from
   * offset `length` are copied into the 8-byte scratch buffer, and the bytes
   * above them are filled with 0xFF.
   */
  method PadRemainder(data: seq<bv8>, length: nat, remainder: nat) returns (unit: seq<bv8>)
    requires remainder < 8 && length + remainder <= |data|
    ensures |unit| == 8
    ensures forall i :: 0 <= i < remainder ==> unit[i] == data[length + i]
    ensures forall i :: remainder <= i < 8 ==> unit[i] == ERASED
  {
    var remainderData := new bv8[8](_ => 0);
    var index := 0;
    while index < remainder
      invariant 0 <= index <= remainder
      invariant forall i :: 0 <= i < index ==> remainderData[i] == data[length + i]
    {
      remainderData[index] := data[length + index];
      index := index + 1;
    }
    index := remainder;
    while index < 8
      invariant remainder <= index <= 8
      invariant forall i :: 0 <= i < remainder ==> remainderData[i] == data[length + i]
      invariant forall i :: remainder <= i < index ==> remainderData[i] == ERASED
    {
      remainderData[index] := ERASED;
      index := index + 1;
    }
    unit := remainderData[..];
  }

  /** The scratch buffer of PadRemainder is the padded unit of WriteUnits. */
  lemma PadRemainderIsPadded(data: seq<bv8>, length: nat, remainder: nat, unit: seq<bv8>)
    requires remainder < 8 && length + remainder <= |data|
    requires |unit| == 8
    requires forall i :: 0 <= i < remainder ==> unit[i] == data[length + i]
    requires forall i :: remainder <= i < 8 ==> unit[i] == ERASED
    ensures unit == Padded(data[length .. length + remainder])
  {
  }
}
