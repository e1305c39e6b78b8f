/** The page tables from power-on: what the boot code builds and what `paging::init` replaces. */
module Boot {
  import opened Options
  import opened Layout
  import opened Mmu
  import opened PageTables

  /** The bounds of the kernel image, as higher-half addresses. */
  datatype Image = Image(start: Word, readonlyEnd: Word, end: Word)

  /** The identity entry of page `i` of the first 4 MB, present and writable. */
  function Identity(i: int): Word
    requires 0 <= i < 1024
  {
    i * 4096 + 3
  }

  /** Word `i` of frame `f`. */
  function WordOf(mem: Memory, f: Frame, i: int): Word
    requires 0 <= i < 1024
  {
    mem[f * 1024 + i]
  }

  /** Entries 0 and 768 share one identity table, entry 1023 names the directory, and the rest are absent. */
  ghost predicate BootTables(mem: Memory, dir: Frame, low: Frame) {
    && Pde(mem, dir, 0) == Pde(mem, dir, 768) == low * 4096 + 3
    && Pde(mem, dir, 1023) == dir * 4096 + 3
    && (forall d :: 0 <= d < 1023 && !FixedSlot(d) ==> Pde(mem, dir, d) == 0)
    && (forall i :: 0 <= i < 1024 ==> WordOf(mem, low, i) == Identity(i))
  }

  /** The boot code fills the low table and three directory entries, with paging still off. */
  method BuildTables(mem: Memory, dir: Frame, low: Frame) returns (r: Memory)
    requires dir != low
    requires forall d :: 0 <= d < 1024 ==> WordOf(mem, dir, d) == 0
    ensures BootTables(r, dir, low)
    ensures forall i :: 0 <= i < 0x4000_0000 && i / 1024 != dir && i / 1024 != low ==> r[i] == mem[i]
  {
    r := mem;
    var entry := 3;
    for i := 0 to 1024
      invariant entry == i * 4096 + 3
      invariant forall k :: 0 <= k < 0x4000_0000 ==>
        r[k] == if low * 1024 <= k < low * 1024 + i then Identity(k - low * 1024) else mem[k]
    {
      r := r[low * 1024 + i := entry];
      entry := entry + 4096;
    }
    forall d | 0 <= d < 1024
      ensures Pde(r, dir, d) == 0
    {
      assert WordOf(mem, dir, d) == 0;
    }
    ghost var filled := r;
    r := r[dir * 1024 := low * 4096 + 3];
    r := r[dir * 1024 + 768 := low * 4096 + 3];
    r := r[dir * 1024 + 1023 := dir * 4096 + 3];
    assert forall d :: 0 <= d < 1023 && !FixedSlot(d) ==> Pde(r, dir, d) == Pde(filled, dir, d);
  }

  /** Code and read-only data of the image. */
  predicate IsReadOnly(image: Image, i: int)
    requires 0 <= i < 1024
  {
    image.start <= KERNEL_SPACE + i * 4096 < image.readonlyEnd
  }

  /** The entry of page `i` of the kernel window: read only inside the image's read-only part. */
  function WindowEntry(image: Image, i: int): Word
    requires 0 <= i < 1024
  {
    i * 4096 + (if IsReadOnly(image, i) then 1 else 3)
  }

  /** The kernel table in frame `kt` holds its first `n` entries; nothing else changed. */
  ghost predicate Filled(was: Memory, mem: Memory, kt: Frame, image: Image, n: int)
    requires 0 <= n <= 1024
  {
    forall k :: 0 <= k < 0x4000_0000 ==>
      mem[k] == if kt * 1024 <= k < kt * 1024 + n then WindowEntry(image, k - kt * 1024) else was[k]
  }

  /** Both windows onto the first 4 MB: all of it writable below, the image's read-only part protected above. */
  ghost predicate FixedOk(mem: Memory, dir: Frame, image: Image) {
    && (forall i: Page :: i < 1024 ==> Pte(mem, dir, i) == Identity(i))
    && (forall i: Page :: 0xC_0000 <= i < 0xC_0400 ==> Pte(mem, dir, i) == WindowEntry(image, i - 0xC_0000))
  }

  /** While the boot tables are live, the kernel window shows frame `kt` at its higher-half address. */
  lemma BootWindow(was: Memory, mem: Memory, dir: Frame, low: Frame, kt: Frame, image: Image, n: int)
    requires BootTables(was, dir, low) && kt < 1024 && kt != dir && kt != low && 0 <= n < 1024
    requires Filled(was, mem, kt, image, n)
    ensures Walk(mem, dir, 0xC_0000 + kt) == Some(Translation(kt, true, false))
    ensures var a := KERNEL_SPACE + kt * 4096 + n * 4;
      a % 4 == 0 && a / 4096 == 0xC_0000 + kt && Slot(mem, dir, a) == kt * 1024 + n
  {
    WindowAddress(kt, n);
    BootEntries(was, mem, dir, low, kt, image, n);
    EntryParts(low, 3);
    EntryParts(kt, 3);
    hide Filled, BootTables;
  }

  /** The address of entry `n` of the table in frame `kt`, by page, slot and word. */
  lemma WindowAddress(kt: int, n: int)
    requires 0 <= kt < 1024 && 0 <= n < 1024
    ensures var a := KERNEL_SPACE + kt * 4096 + n * 4;
      a % 4 == 0 && a / 4096 == 0xC_0000 + kt && a % 4096 / 4 == n
    ensures (0xC_0000 + kt) / 1024 == 768 && (0xC_0000 + kt) % 1024 == kt
  {
    var a := KERNEL_SPACE + kt * 4096 + n * 4;
    assert a / 4096 == 0xC_0000 + kt && a % 4096 == n * 4;
  }

  lemma BootEntries(was: Memory, mem: Memory, dir: Frame, low: Frame, kt: Frame, image: Image, n: int)
    requires BootTables(was, dir, low) && kt < 1024 && kt != dir && kt != low && 0 <= n < 1024
    requires Filled(was, mem, kt, image, n)
    ensures Pde(mem, dir, 768) == low * 4096 + 3 && mem[low * 1024 + kt] == kt * 4096 + 3
  {
    assert WordOf(was, low, kt) == Identity(kt);
    assert mem[dir * 1024 + 768] == was[dir * 1024 + 768];
  }

  lemma BootDirectoryWindow(was: Memory, mem: Memory, dir: Frame, low: Frame, kt: Frame, image: Image)
    requires BootTables(was, dir, low) && kt != dir && Filled(was, mem, kt, image, 1024)
    ensures WindowWord(mem, dir, 1023, 768, dir)
  {
    EntryAddressParts(1023, 768);
    RecursiveEntry(dir);
    assert Pde(mem, dir, 1023) == dir * 4096 + 3;
    WindowReaches(mem, dir, 1023, 768);
  }

  /**
   * Fill the kernel table through the window the boot tables give, switch
   * directory entry 768 to it, drop the whole cache, and turn CR0.WP on.
   */
  method InitPaging(mmu: Mmu, ghost low: Frame, kt: Frame, image: Image)
    requires BootTables(mmu.mem, mmu.dir, low) && kt < 1024 && kt != mmu.dir && kt != low
    requires mmu.tlb == map[] && !mmu.wp
    modifies mmu
    ensures mmu.wp && mmu.tlb == map[]
    ensures exists filled: Memory ::
      && Filled(old(mmu.mem), filled, kt, image, 1024)
      && mmu.mem == filled[mmu.dir * 1024 + 768 := kt * 4096 + 3]
    ensures forall i :: 0 <= i < 1024 ==>
      WordOf(mmu.mem, kt, i) == i * 4096 + (if image.start <= 0xC000_0000 + i * 4096 < image.readonlyEnd then 1 else 3)
  {
    hide Filled, BootTables, Walk, Slot;
    ghost var was, dir := mmu.mem, mmu.dir;
    FilledNone(was, kt, image);
    for i := 0 to 1024
      invariant !mmu.wp && Filled(was, mmu.mem, kt, image, i)
      invariant forall p: Page :: p in mmu.tlb ==> p == 0xC_0000 + kt && mmu.tlb[p] == Translation(kt, true, false)
    {
      BootWindow(was, mmu.mem, dir, low, kt, image, i);
      FilledStep(was, mmu.mem, kt, image, i);
      mmu.Store(KERNEL_SPACE + kt * 4096 + i * 4, WindowEntry(image, i));
    }
    ghost var filled := mmu.mem;
    BootDirectoryWindow(was, filled, dir, low, kt, image);
    mmu.Store(EntryAddress(1023, 768), kt * 4096 + 3);
    FilledEntries(was, filled, kt, image);
    assert forall i :: 0 <= i < 1024 ==> WordOf(mmu.mem, kt, i) == WordOf(filled, kt, i);
    mmu.Flush();
    mmu.wp := true;
  }

  lemma FilledNone(was: Memory, kt: Frame, image: Image)
    ensures Filled(was, was, kt, image, 0)
  {
  }

  lemma FilledStep(was: Memory, mem: Memory, kt: Frame, image: Image, n: int)
    requires 0 <= n < 1024 && Filled(was, mem, kt, image, n)
    ensures Filled(was, mem[kt * 1024 + n := WindowEntry(image, n)], kt, image, n + 1)
  {
  }

  lemma FilledEntries(was: Memory, filled: Memory, kt: Frame, image: Image)
    requires Filled(was, filled, kt, image, 1024)
    ensures forall i :: 0 <= i < 1024 ==>
      WordOf(filled, kt, i) == i * 4096 + (if image.start <= 0xC000_0000 + i * 4096 < image.readonlyEnd then 1 else 3)
  {
  }

  // ----- What the switch establishes -----

  /** After the switch the two fixed slots have tables of their own and nothing else is mapped. */
  lemma BootedTables(was: Memory, filled: Memory, mem: Memory, dir: Frame, low: Frame, kt: Frame, image: Image)
    requires BootTables(was, dir, low) && dir != low && kt != dir && kt != low
    requires Filled(was, filled, kt, image, 1024) && mem == filled[dir * 1024 + 768 := kt * 4096 + 3]
    ensures Pde(mem, dir, 0) == low * 4096 + 3 && Pde(mem, dir, 768) == kt * 4096 + 3
    ensures Pde(mem, dir, 1023) == dir * 4096 + 3
    ensures forall d :: 0 <= d < 1023 && !FixedSlot(d) ==> Pde(mem, dir, d) == 0
    ensures forall i :: 0 <= i < 1024 ==> WordOf(mem, low, i) == Identity(i)
    ensures forall i :: 0 <= i < 1024 ==> WordOf(mem, kt, i) == WindowEntry(image, i)
  {
    forall d | 0 <= d < 1024 && d != 768
      ensures Pde(mem, dir, d) == Pde(was, dir, d)
    {
    }
    forall i | 0 <= i < 1024
      ensures WordOf(mem, low, i) == Identity(i)
    {
      assert WordOf(mem, low, i) == WordOf(was, low, i);
    }
  }

  lemma BootedFixed(mem: Memory, dir: Frame, low: Frame, kt: Frame, image: Image)
    requires Pde(mem, dir, 0) == low * 4096 + 3 && Pde(mem, dir, 768) == kt * 4096 + 3
    requires forall i :: 0 <= i < 1024 ==> WordOf(mem, low, i) == Identity(i)
    requires forall i :: 0 <= i < 1024 ==> WordOf(mem, kt, i) == WindowEntry(image, i)
    ensures FixedOk(mem, dir, image)
  {
    EntryParts(low, 3);
    EntryParts(kt, 3);
    forall i: Page | i < 1024
      ensures Pte(mem, dir, i) == Identity(i)
    {
      assert Pte(mem, dir, i) == WordOf(mem, low, i);
    }
    forall i: Page | 0xC_0000 <= i < 0xC_0400
      ensures Pte(mem, dir, i) == WindowEntry(image, i - 0xC_0000)
    {
      assert i / 1024 == 768 && i % 1024 == i - 0xC_0000;
      assert Pte(mem, dir, i) == WordOf(mem, kt, i - 0xC_0000);
    }
  }

  /** No page outside the fixed windows is mapped yet. */
  lemma BootedEmpty(mem: Memory, dir: Frame)
    requires forall d :: 0 <= d < 1023 && !FixedSlot(d) ==> Pde(mem, dir, d) == 0
    ensures forall p: Page :: DataPage(p) ==> !IsMapped(mem, dir, p)
  {
    forall p: Page | DataPage(p)
      ensures !IsMapped(mem, dir, p)
    {
      assert Pde(mem, dir, p / 1024) == 0;
    }
  }

  lemma BootedInv(mem: Memory, dir: Frame, low: Frame, kt: Frame, owner: Owners)
    requires Pde(mem, dir, 0) == low * 4096 + 3 && Pde(mem, dir, 768) == kt * 4096 + 3
    requires Pde(mem, dir, 1023) == dir * 4096 + 3
    requires forall d :: 0 <= d < 1023 && !FixedSlot(d) ==> Pde(mem, dir, d) == 0
    requires low != dir && kt != dir && low != kt
    requires Reserved(owner[dir]) && Reserved(owner[low]) && Reserved(owner[kt])
    requires forall f: Frame :: !owner[f].Table? && !owner[f].Mapped?
    ensures Inv(mem, dir, owner)
  {
    EntryParts(low, 3);
    EntryParts(kt, 3);
    BootedEmpty(mem, dir);
  }

  /**
   * The two windows onto the first 4 MB, by address. Page `a` of the upper one
   * shows the memory 3 GB below it, writable unless it holds code or read-only
   * data; the lower one shows the same memory, all of it writable. User code
   * reaches neither.
   */
  lemma FixedWindows(mem: Memory, dir: Frame, owner: Owners, image: Image, a: Word)
    requires Inv(mem, dir, owner) && FixedOk(mem, dir, image)
    requires 0xC000_0000 <= a < 0xC040_0000 && a % 4096 == 0
    ensures var f := (a - 0xC000_0000) / 4096;
      && Walk(mem, dir, a / 4096) == Some(Translation(f, !(image.start <= a < image.readonlyEnd), false))
      && Walk(mem, dir, f) == Some(Translation(f, true, false))
  {
    var i := (a - 0xC000_0000) / 4096;
    EntryParts(i, 1);
    EntryParts(i, 3);
    assert a / 4096 == 0xC_0000 + i && a == KERNEL_SPACE + i * 4096;
    assert Pte(mem, dir, i) == Identity(i);
    assert (0xC_0000 + i) / 1024 == 768;
    assert Pte(mem, dir, 0xC_0000 + i) == WindowEntry(image, i);
  }

  /** Image pages the kernel may not write at their own address are writable through the low window. */
  lemma ReadOnlyHasWritableAlias(mem: Memory, dir: Frame, owner: Owners, image: Image, a: Word)
    requires Inv(mem, dir, owner) && FixedOk(mem, dir, image)
    requires 0xC000_0000 <= a < 0xC040_0000 && a % 4096 == 0 && image.start <= a < image.readonlyEnd
    ensures Walk(mem, dir, a / 4096).Some? && !Walk(mem, dir, a / 4096).value.writable
    ensures Walk(mem, dir, a / 4096 - 0xC_0000) == Some(Walk(mem, dir, a / 4096).value.(writable := true))
  {
    FixedWindows(mem, dir, owner, image, a);
  }
}
