/** The aligned DMA window inside an over-allocated buffer, and the two address words programmed into the device. */
module DmaWindow {
  import opened Ring
  import opened Descriptors

  /** Bytes allocated for one DMA channel. */
  const ALLOCATED: nat := 2 * CCAT_ALIGNMENT - 1

  /** PTR_ALIGN to CCAT_ALIGNMENT, a power of two. */
  function Align(phys: nat): nat {
    (phys + CCAT_ALIGNMENT - 1) / CCAT_ALIGNMENT * CCAT_ALIGNMENT
  }

  function HighWord(addr: nat): nat {
    addr / TWO_32
  }

  /** The low word of an aligned address, bit 0 set to select 64-bit mode. */
  function LowWord(addr: nat): nat {
    addr % TWO_32 + if HighWord(addr) > 0 then 1 else 0
  }

  /** What the device recovers: bit 0 is the mode, the rest the address. */
  function Recover(low: nat, high: nat): nat {
    high * TWO_32 + if low % 2 == 1 then low - 1 else low
  }

  /** CPU-viewed address of slot `slot`. */
  function CpuSlot(cpuBase: int, phys: nat, slot: nat): int {
    cpuBase + (Align(phys) - phys) + SLOT_SIZE * slot
  }

  /** For every bus address, all 64 slots lie in the allocation and have the same offset for CPU and device. */
  lemma WindowInsideAllocation(phys: nat, cpuBase: int, slot: nat)
    requires slot < MAX_SLOTS
    ensures Align(phys) % CCAT_ALIGNMENT == 0 && phys <= Align(phys)
    ensures Align(phys) + CCAT_ALIGNMENT <= phys + ALLOCATED
    ensures CpuSlot(cpuBase, phys, slot) - cpuBase == Align(phys) + SLOT_SIZE * slot - phys
    ensures cpuBase <= CpuSlot(cpuBase, phys, slot)
    ensures CpuSlot(cpuBase, phys, slot) + SLOT_SIZE <= cpuBase + ALLOCATED
  {
    var x := phys + CCAT_ALIGNMENT - 1;
    assert x == CCAT_ALIGNMENT * (x / CCAT_ALIGNMENT) + x % CCAT_ALIGNMENT;
  }

  /** An aligned address as `h` times 4 GiB plus `r` times 128 KiB. */
  lemma WordsOfAligned(h: nat, r: nat)
    requires r < 0x8000
    ensures var window := TWO_32 * h + CCAT_ALIGNMENT * r;
            HighWord(window) == h && window % TWO_32 == CCAT_ALIGNMENT * r < TWO_32 - 1
  {
  }

  lemma Parity(m: nat)
    ensures (2 * m) % 2 == 0 && (2 * m + 1) % 2 == 1
  {
  }

  lemma WordsRecoverAligned(h: nat, r: nat)
    requires r < 0x8000
    ensures var window := TWO_32 * h + CCAT_ALIGNMENT * r;
            && LowWord(window) < TWO_32
            && HighWord(window) * TWO_32 + (LowWord(window) - LowWord(window) % 2) == window
            && Recover(LowWord(window), HighWord(window)) == window
            && (LowWord(window) % 2 == 1 <==> h > 0)
  {
    WordsOfAligned(h, r);
    Parity(0x10000 * r);
    var window := TWO_32 * h + CCAT_ALIGNMENT * r;
    if h > 0 {
      assert LowWord(window) == 2 * (0x10000 * r) + 1;
    } else {
      assert LowWord(window) == 2 * (0x10000 * r);
    }
  }

  /**
   * The device gets the window address back: the high word counts 4 GiB, the low word without bit 0 is the rest, and
   * bit 0 says whether the address needs more than 32 bits.
   */
  lemma ProgrammedWordsRecover(phys: nat)
    ensures var window := Align(phys);
            && LowWord(window) < TWO_32
            && HighWord(window) * TWO_32 + (LowWord(window) - LowWord(window) % 2) == window
            && Recover(LowWord(window), HighWord(window)) == window
            && (LowWord(window) % 2 == 1 <==> window >= TWO_32)
  {
    var k := (phys + CCAT_ALIGNMENT - 1) / CCAT_ALIGNMENT;
    var h, r := k / 0x8000, k % 0x8000;
    assert k == 0x8000 * h + r;
    assert Align(phys) == TWO_32 * h + CCAT_ALIGNMENT * r;
    WordsRecoverAligned(h, r);
  }
}
