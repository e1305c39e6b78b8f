/** Sizes, address constants and address arithmetic of the address-space plan. */
module Layout {

  const PAGE_SIZE := 4096
  const ENTRIES := 1024
  const MAX_FRAMES := 0x10_0000

  /** A 32-bit machine word, which is also an address. */
  type Word = x: int | 0 <= x < 0x1_0000_0000
  type Byte = x: int | 0 <= x < 256
  /** The number of a 4 kB physical frame. */
  type Frame = f: int | 0 <= f < 0x10_0000
  /** The number of a 4 kB virtual page. */
  type Page = p: int | 0 <= p < 0x10_0000

  const LOW_WINDOW_END := 0x0040_0000
  const DEMAND_BASE := 0x0080_0000
  const DEMAND_END := 0x0090_0000
  const KERNEL_SPACE := 0xC000_0000
  const KERNEL_WINDOW_END := 0xC040_0000
  const KHEAP_BASE := 0xD000_0000
  const KHEAP_LIMIT := 0xD200_0000
  const VMALLOC_BASE := 0xE000_0000
  const VMALLOC_LIMIT := 0xF000_0000
  const TABLE_WINDOW := 0xFFC0_0000
  const BIOS_END := 0x0010_0000

  /** The first page of the window through which page tables are edited. */
  const WINDOW_PAGE := 0xF_FC00

  datatype Space = LowSpace | UserSpace | KernelSpace

  function SpaceOf(addr: Word): Space {
    if addr < LOW_WINDOW_END then LowSpace
    else if addr < KERNEL_SPACE then UserSpace
    else KernelSpace
  }

  predicate IsKernel(addr: Word): (r: bool)
    ensures r <==> !(0x0040_0000 <= addr < 0xC000_0000)
  {
    SpaceOf(addr) != UserSpace
  }

  predicate IsDemand(addr: Word): (r: bool)
    ensures r <==> 0x0080_0000 <= addr < 0x0090_0000
  {
    DEMAND_BASE <= addr < DEMAND_END
  }

  function PageOf(addr: Word): Word {
    addr - addr % PAGE_SIZE
  }

  /** A directory slot that lies in user space. */
  predicate UserSlot(d: int) {
    1 <= d < 768
  }

  /** Every 4 MB directory slot is wholly user or wholly kernel. */
  lemma SlotIsUniform(addr: Word)
    ensures IsKernel(addr) <==> !UserSlot(addr / 0x40_0000)
    ensures addr / 0x40_0000 == addr / PAGE_SIZE / ENTRIES
  {
  }

  /** Unsigned 32-bit addition, which wraps in a release build. */
  function Add32(a: Word, b: Word): Word {
    (a + b) % 0x1_0000_0000
  }
}
