/** `mem::init`: the order of steps that makes every layer's assumptions true. */
module KernelInit {
  import opened Options
  import opened Layout
  import opened Mmu
  import opened PageTables
  import opened Paging
  import opened Blocks
  import opened HeapState
  import opened Boot
  import opened KernelState
  import opened Trace
  import opened Kernel
  import H = Heap
  import Pmm

  /** The ledger at the end of boot: free frames, the carved block lo..hi, reserved memory, and holes. */
  ghost function FirstOwners(free: set<Frame>, all: set<Frame>, lo: int, hi: int): Owners
    requires hi - lo <= 0x2000
  {
    seq(0x10_0000, f requires 0 <= f < 0x10_0000 =>
      if f in free then Free
      else if lo <= f < hi then Carved(KHEAP_BASE / 4096 + (f - lo))
      else if f in all then BootTime
      else Hole)
  }

  /** Which frames are free once `start..end` is taken out of the pool. */
  ghost function Without(free: set<Frame>, lo: int, hi: int): set<Frame> {
    set f | f in free && !(lo <= f < hi)
  }

  lemma FirstLedger(all: set<Frame>, image: Image, lo: int, hi: int)
    requires 0 <= lo <= hi <= 0x10_0000 && hi - lo <= 0x2000
    requires KERNEL_SPACE + 0x10_0000 <= image.end <= KERNEL_WINDOW_END
    requires forall f: Frame :: lo <= f < hi ==> f in all && !BootFrame(image, f)
    ensures var free := set f | f in all && !BootFrame(image, f) && !(lo <= f < hi);
            var owner := FirstOwners(free, all, lo, hi);
      && LedgerOk(free, all, owner)
      && OwnersOk(owner, image)
      && (forall f: Frame :: !owner[f].Table? && !owner[f].Mapped?)
      && (forall f: Frame :: lo <= f < hi ==> owner[f] == Carved(KHEAP_BASE / 4096 + (f - lo)))
      && (forall f: Frame :: owner[f].Carved? ==> lo <= f < hi)
  {
  }

  /** Reserving the first megabyte and the image leaves exactly the frames outside both. */
  lemma ReservedFrames(all: set<Frame>, image: Image)
    requires KERNEL_SPACE + 0x10_0000 <= image.end <= KERNEL_WINDOW_END
    ensures Without(Without(all, 0, Add32(BIOS_END, 4095) / 4096),
                    0x10_0000 / 4096, Add32(image.end - KERNEL_SPACE, 4095) / 4096)
         == set f | f in all && !BootFrame(image, f)
  {
    var x := image.end - KERNEL_SPACE;
    assert Add32(x, 4095) == x + 4095 && Add32(BIOS_END, 4095) / 4096 == 256;
    forall f: Frame
      ensures f < (x + 4095) / 4096 <==> f * 4096 < x
    {
    }
  }

  /** A heap with no page yet. */
  lemma EmptyHeap(mem: Memory, dir: Frame, base: Word, limit: Word)
    requires RangeOk(base, limit) && forall p: Page :: DataPage(p) ==> !IsMapped(mem, dir, p)
    ensures BlocksOk(mem, dir, base, base, limit, []) && UnmappedFrom(mem, dir, base, limit)
  {
    hide Pte;
    forall p: Page | base / 4096 <= p < limit / 4096
      ensures !IsMapped(mem, dir, p)
    {
      assert DataPage(p);
    }
  }

  /** The frames left once low memory and the image are reserved. */
  ghost function Pool(image: Image, regions: seq<Pmm.Region>): set<Frame> {
    set f | f in Pmm.FramesOf(regions) && !BootFrame(image, f)
  }

  /** The pool without the block lo..hi. */
  ghost function LeftOver(image: Image, regions: seq<Pmm.Region>, lo: Word, hi: Word): set<Frame> {
    set f | f in Pool(image, regions) && !(lo / 4096 <= f < hi / 4096)
  }

  lemma CarveFits(free: set<Frame>, all: set<Frame>, image: Image, regions: seq<Pmm.Region>, lo: int, hi: int)
    requires free == Pool(image, regions) && all == Pmm.FramesOf(regions)
    requires Pmm.RunAt(free, lo, hi - lo) && lo <= hi
    ensures forall f: Frame :: lo <= f < hi ==> f in all && !BootFrame(image, f)
    ensures (set f | f in free && !(lo <= f < hi)) == set f | f in all && !BootFrame(image, f) && !(lo <= f < hi)
  {
    forall f: Frame | lo <= f < hi
      ensures f in all && !BootFrame(image, f)
    {
      assert f in free;
    }
  }

  /** The most whole pages that fit a quarter of usable memory and 32 MB, in bytes. */
  predicate IsWant(usable: nat, w: int) {
    && w >= 0 && w % 4096 == 0 && 4 * w <= usable && w <= 0x200_0000
    && (4 * (w + 4096) > usable || w + 4096 > 0x200_0000)
  }

  /** How large a block to ask for. */
  function Want(usable: nat): (w: Word)
    ensures IsWant(usable, w)
  {
    PageOf(if usable / 4 < KHEAP_LIMIT - KHEAP_BASE then usable / 4 else KHEAP_LIMIT - KHEAP_BASE)
  }

  lemma OneWant(usable: nat, w: int, x: int)
    requires IsWant(usable, w) && IsWant(usable, x)
    ensures w == x
  {
    if w < x {
      H.NextPage(w, x);
    } else if x < w {
      H.NextPage(x, w);
    }
  }

  /**
   * The block lo..hi is the lowest free run of its size. It has all the bytes
   * wanted when the pool has them in one piece, and else at least 16 pages and
   * half of the longest run.
   */
  ghost predicate BlockIs(pool: set<Frame>, w: int, lo: int, hi: int) {
    && lo % 4096 == 0 && hi % 4096 == 0 && 16 * 4096 <= hi - lo <= w
    && var n := (hi - lo) / 4096;
    && Pmm.RunAt(pool, lo / 4096, n) && (forall b :: 0 <= b < lo / 4096 ==> !Pmm.RunAt(pool, b, n))
    && (if Pmm.HasRun(pool, w / 4096) then hi - lo == w else forall k :: k > 2 * n ==> !Pmm.HasRun(pool, k))
  }

  /** Not even the last and smallest block asked for is free in one piece. */
  ghost predicate NoBlock(image: Image, regions: seq<Pmm.Region>, usable: nat) {
    var last := Pmm.LastTried(Want(usable) / 4096);
    last < 16 || !Pmm.HasRun(Pool(image, regions), last)
  }

  /**
   * The block that is carved ends before the last page of the 32-bit space, or
   * fills the kmalloc range: some run of the size granted lies that low, and
   * the lowest one is taken.
   */
  ghost predicate SafeBlock(image: Image, regions: seq<Pmm.Region>, usable: nat) {
    var pool := Pool(image, regions);
    var n := Pmm.Granted(pool, Want(usable) / 4096);
    n * 4096 == KHEAP_LIMIT - KHEAP_BASE || exists b :: Pmm.RunAt(pool, b, n) && b + n <= 0xF_FFFE
  }

  /** A memory map that ends two pages short of 4 GB is safe. */
  lemma LowMapIsSafe(image: Image, regions: seq<Pmm.Region>, usable: nat)
    requires forall i :: 0 <= i < |regions| ==> regions[i].end <= 0xFFFF_E000
    ensures NoBlock(image, regions, usable) || SafeBlock(image, regions, usable)
  {
    var pool, pages := Pool(image, regions), Want(usable) / 4096;
    Pmm.GrantedMeans(pool, pages);
    var n := Pmm.Granted(pool, pages);
    if n > 0 {
      var b :| Pmm.RunAt(pool, b, n);
      var top: Frame := b + n - 1;
      assert top in pool;
      assert top < 0xF_FFFE;
    }
  }

  /** A map that is not: 32 pages are refused, and the only 16 in one piece end at 0xFFFFF000. */
  lemma UnsafeMap(image: Image)
    requires KERNEL_SPACE + 0x10_0000 <= image.end <= KERNEL_WINDOW_END
    ensures var regions := [Pmm.Region(0, 0x7_0000), Pmm.Region(0xFFFE_F000, 0xFFFF_F000)];
      !NoBlock(image, regions, 0x8_0000) && !SafeBlock(image, regions, 0x8_0000)
  {
    var regions := [Pmm.Region(0, 0x7_0000), Pmm.Region(0xFFFE_F000, 0xFFFF_F000)];
    var pool := Pool(image, regions);
    assert Want(0x8_0000) / 4096 == 32;
    forall f: Frame
      ensures f in pool <==> 0xF_FFEF <= f < 0xF_FFFF
    {
      assert Pmm.InRegion(f, regions[1]) <==> 0xF_FFEF <= f < 0xF_FFFF;
      assert Pmm.InRegion(f, regions[0]) ==> f < 256;
      assert Pmm.InSome(f, regions) <==> Pmm.InRegion(f, regions[0]) || Pmm.InRegion(f, regions[1]);
    }
    OnlyRun(pool);
    Pmm.GrantedMeans(pool, 32);
    assert Pmm.Granted(pool, 16) == 16;
    assert Pmm.Granted(pool, 32) == 16;
  }

  lemma OnlyRun(pool: set<Frame>)
    requires forall f: Frame :: f in pool <==> 0xF_FFEF <= f < 0xF_FFFF
    ensures Pmm.RunAt(pool, 0xF_FFEF, 16) && !Pmm.HasRun(pool, 32)
    ensures forall b :: Pmm.RunAt(pool, b, 16) ==> b == 0xF_FFEF
  {
    forall b, n | n >= 16 && Pmm.RunAt(pool, b, n)
      ensures b == 0xF_FFEF && n == 16
    {
      var first: Frame, last: Frame := b, b + n - 1;
      assert first in pool && last in pool;
    }
  }

  lemma GrantedBlock(pool: set<Frame>, w: Word, lo: int, n: int)
    requires w % 4096 == 0 && lo % 4096 == 0 && n == Pmm.Granted(pool, w / 4096) > 0
    requires Pmm.RunAt(pool, lo / 4096, n) && forall b :: 0 <= b < lo / 4096 ==> !Pmm.RunAt(pool, b, n)
    ensures BlockIs(pool, w, lo, lo + n * 4096)
  {
    Pmm.GrantedMeans(pool, w / 4096);
    hide Pmm.RunAt;
  }

  /** The block carved from the pool, as addresses. */
  lemma CarvedWindow(image: Image, regions: seq<Pmm.Region>, usable: nat, lo: Word, hi: Word)
    requires var pool := Pool(image, regions); var n := Pmm.Granted(pool, Want(usable) / 4096);
      && n > 0 && lo % 4096 == 0 && hi == Add32(lo, n * 4096)
      && Pmm.RunAt(pool, lo / 4096, n) && forall b :: 0 <= b < lo / 4096 ==> !Pmm.RunAt(pool, b, n)
    ensures var n := Pmm.Granted(Pool(image, regions), Want(usable) / 4096);
      && hi == lo + n * 4096 <= 0xFFFF_F000 && hi % 4096 == 0 && hi / 4096 == lo / 4096 + n && hi - lo <= 0x200_0000
    ensures forall w :: IsWant(usable, w) ==> BlockIs(Pool(image, regions), w, lo, hi)
    ensures H.NoWrap(KHEAP_BASE, KHEAP_LIMIT, lo, hi) <==> SafeBlock(image, regions, usable)
  {
    var pool := Pool(image, regions);
    var n := Pmm.Granted(pool, Want(usable) / 4096);
    Pmm.LastFrameNeverFree(regions);
    Pmm.RunStaysBelow(pool, lo / 4096, n);
    GrantedBlock(pool, Want(usable), lo, n);
    forall w | IsWant(usable, w)
      ensures BlockIs(pool, w, lo, hi)
    {
      OneWant(usable, w, Want(usable));
    }
    if b :| Pmm.RunAt(pool, b, n) && b + n <= 0xF_FFFE {
      assert lo / 4096 <= b;
    }
  }

  /** The pool once low memory and the image are reserved. */
  method StartPool(image: Image, regions: seq<Pmm.Region>) returns (pmm: Pmm.Pmm)
    requires KERNEL_SPACE + 0x10_0000 <= image.end <= KERNEL_WINDOW_END
    ensures fresh(pmm) && fresh(pmm.words) && pmm.Valid()
    ensures pmm.all == Pmm.FramesOf(regions) && pmm.free == Pool(image, regions)
  {
    pmm := new Pmm.Pmm();
    pmm.Init(regions);
    ReservedFrames(pmm.all, image);
    pmm.Reserve(0, BIOS_END);
    assert pmm.free == Without(pmm.all, 0, Add32(BIOS_END, 4095) / 4096);
    pmm.Reserve(0x10_0000, image.end - KERNEL_SPACE);
    assert pmm.free == Pool(image, regions);
  }

  /**
   * The boot sequence. It gives up exactly when the image is past its window or
   * no block can be carved. The kernel that comes up is valid exactly when the
   * block is safe; otherwise the block ends where the sum of `ContiguousFrame`
   * wraps, and `FramesAfterBlock` says what it hands out.
   */
  method Init(mem: Memory, dir: Frame, ghost low: Frame, kt: Frame, image: Image,
              regions: seq<Pmm.Region>, usable: nat)
      returns (r: Option<Kernel>)
    requires BootTables(mem, dir, low)
    requires KERNEL_SPACE + 0x10_0000 <= image.end
    requires ImageFrame(image, dir) && ImageFrame(image, low) && ImageFrame(image, kt)
    requires dir != low && kt != dir && kt != low
    ensures r.None? <==> image.end > KERNEL_WINDOW_END || NoBlock(image, regions, usable)
    ensures r.Some? ==> fresh(r.value) && fresh(r.value.kheap) && fresh(r.value.vheap) && fresh(r.value.vm)
    ensures r.Some? ==> fresh(r.value.vm.mmu) && fresh(r.value.vm.pmm) && fresh(r.value.vm.pmm.words)
    ensures r.Some? ==> r.value.view == NOTHING && r.value.recovered == 0
    ensures r.Some? ==> r.value.vm.pmm.all == Pmm.FramesOf(regions)
    ensures r.Some? ==> forall w :: IsWant(usable, w) ==>
      BlockIs(Pool(image, regions), w, r.value.kheap.physBase, r.value.kheap.physEnd)
    ensures r.Some? ==> r.value.kheap.brk == 0xD000_0000 && r.value.kheap.blocks == []
    ensures r.Some? ==> r.value.vheap.brk == 0xE000_0000 && r.value.vheap.blocks == []
    ensures r.Some? ==>
      r.value.vm.pmm.free == LeftOver(image, regions, r.value.kheap.physBase, r.value.kheap.physEnd)
    ensures r.Some? ==> (r.value.Valid() <==> SafeBlock(image, regions, usable))
    ensures r.Some? ==> (Bounded(r.value) <==> SafeBlock(image, regions, usable))
    ensures r.Some? && !SafeBlock(image, regions, usable) ==> r.value.kheap.physEnd == 0xFFFF_F000
  {
    hide Filled, BootTables, Kernel.Valid, BootFrame, NoBlock, SafeBlock, Pool, Without, Pmm.Granted, BlockIs, IsWant;
    if image.end > KERNEL_WINDOW_END {
      return None;
    }
    var pmm := StartPool(image, regions);
    var mmu := new Mmu(mem, dir);
    InitPaging(mmu, low, kt, image);
    ghost var pool := pmm.free;
    var window := pmm.Carve(Want(usable));
    NoBlockMeans(image, regions, usable);
    if window.None? {
      return None;
    }
    ghost var lo, hi := window.value.0 / 4096, window.value.1 / 4096;
    CarvedWindow(image, regions, usable, window.value.0, window.value.1);
    CarveFits(pool, pmm.all, image, regions, lo, hi);
    ghost var filled: Memory :|
      && Filled(mem, filled, kt, image, 1024)
      && mmu.mem == filled[dir * 1024 + 768 := kt * 4096 + 3];
    var k := Attach(mmu, pmm, window.value, image, mem, filled, low, kt);
    return Some(k);
  }

  /** Both heaps over one paging layer, the carved block attached to the first. */
  method Attach(mmu: Mmu, pmm: Pmm.Pmm, window: (Word, Word), image: Image,
                ghost was: Memory, ghost filled: Memory, ghost low: Frame, ghost kt: Frame)
      returns (k: Kernel)
    requires mmu.wp && mmu.tlb == map[] && pmm.Valid()
    requires BootTables(was, mmu.dir, low) && mmu.dir != low && kt != mmu.dir && kt != low
    requires Filled(was, filled, kt, image, 1024) && mmu.mem == filled[mmu.dir * 1024 + 768 := kt * 4096 + 3]
    requires ImageFrame(image, mmu.dir) && ImageFrame(image, low) && ImageFrame(image, kt)
    requires KERNEL_SPACE + 0x10_0000 <= image.end <= KERNEL_WINDOW_END
    requires window.0 % 4096 == 0 && window.1 % 4096 == 0 && window.0 <= window.1 <= window.0 + 0x200_0000
    requires forall f: Frame :: window.0 / 4096 <= f < window.1 / 4096 ==> f in pmm.all && !BootFrame(image, f)
    requires pmm.free == set f | f in pmm.all && !BootFrame(image, f) && !(window.0 / 4096 <= f < window.1 / 4096)
    ensures fresh(k) && fresh(k.kheap) && fresh(k.vheap) && fresh(k.vm) && k.vm.mmu == mmu && k.vm.pmm == pmm
    ensures k.view == NOTHING && k.recovered == 0
    ensures k.kheap.brk == KHEAP_BASE && k.kheap.blocks == [] && k.vheap.brk == VMALLOC_BASE && k.vheap.blocks == []
    ensures k.kheap.physBase == window.0 && k.kheap.physEnd == window.1
    ensures k.Valid() <==> Bounded(k)
  {
    hide Filled, BootTables, FirstOwners, LedgerOk, OwnersOk, Inv, FixedOk, ViewOk, DemandPages, Used, H.HeapAt,
         Kernel.Valid, BootFrame, IsMapped;
    ghost var lo, hi := window.0 / 4096, window.1 / 4096;
    ghost var owner := FirstOwners(pmm.free, pmm.all, lo, hi);
    var vm := new Vm(mmu, pmm, owner);
    var kheap := new H.Heap(vm, KHEAP_BASE, KHEAP_LIMIT, H.Contiguous);
    kheap.physBase, kheap.physEnd := window.0, window.1;
    var vheap := new H.Heap(vm, VMALLOC_BASE, VMALLOC_LIMIT, H.Scattered);
    k := new Kernel(vm, kheap, vheap, image);
    ValidIsBounded(k);
    if Bounded(k) {
      FirstLedger(pmm.all, image, lo, hi);
      FirstTables(was, filled, mmu.mem, mmu.dir, low, kt, image, owner);
      FirstHeaps(mmu.mem, mmu.dir, owner, window.0, window.1);
      FirstRecord(mmu.mem, mmu.dir);
      StartsValid(k);
    }
  }

  /** The carved block does not wrap. */
  predicate Bounded(k: Kernel)
    reads k.kheap
  {
    H.NoWrap(KHEAP_BASE, KHEAP_LIMIT, k.kheap.physBase, k.kheap.physEnd)
  }

  lemma ValidIsBounded(k: Kernel)
    ensures k.Valid() ==> Bounded(k)
  {
    hide Vm.Valid, OwnersOk, FixedOk, ViewOk, DemandPages, BlocksOk, UnmappedFrom, H.BackingOk;
  }

  lemma NoBlockMeans(image: Image, regions: seq<Pmm.Region>, usable: nat)
    ensures NoBlock(image, regions, usable) <==> Pmm.Granted(Pool(image, regions), Want(usable) / 4096) == 0
  {
    Pmm.GrantedMeans(Pool(image, regions), Want(usable) / 4096);
  }

  /**
   * From the first instruction through any run of calls. When the block is
   * safe, the kernel that comes up stays valid and its trace tells the truth:
   * every answer was honest and was the one owed, every pointer not freed has
   * the block it was granted, and memory holds every byte stored behind one.
   * The first state has both heaps empty over the frames boot left.
   */
  method BootAndRun(mem: Memory, dir: Frame, low: Frame, kt: Frame, image: Image,
                    regions: seq<Pmm.Region>, usable: nat, calls: seq<Call>)
      returns (r: Option<Kernel>, answers: seq<Word>, ghost grants: seq<Block>, ghost shots: seq<Shot>)
    requires forall d :: 0 <= d < 1024 ==> WordOf(mem, dir, d) == 0
    requires KERNEL_SPACE + 0x10_0000 <= image.end
    requires ImageFrame(image, dir) && ImageFrame(image, low) && ImageFrame(image, kt)
    requires dir != low && kt != dir && kt != low
    ensures r.None? <==> image.end > KERNEL_WINDOW_END || NoBlock(image, regions, usable)
    ensures r.Some? && SafeBlock(image, regions, usable) ==>
      && r.value.Valid() && |answers| == |calls| == |grants|
      && Truthful(NOTHING, calls, answers, grants, shots)
      && shots[0].kernel.blocks == [] && shots[0].kernel.brk == 0xD000_0000
      && shots[0].virt.blocks == [] && shots[0].virt.brk == 0xE000_0000
      && shots[0].free == LeftOver(image, regions, shots[0].kernel.physBase, shots[0].kernel.physEnd)
      && (forall w :: IsWant(usable, w) ==>
            BlockIs(Pool(image, regions), w, shots[0].kernel.physBase, shots[0].kernel.physEnd))
      && shots[|calls|] == r.value.Snap()
      && ViewOk(r.value.vm.mmu.mem, r.value.vm.mmu.dir, r.value.Handed(), Reread(NOTHING, calls, answers, grants))
      && Faults(calls, answers) == r.value.recovered <= 256
  {
    hide Kernel.Valid, NoBlock, SafeBlock, BootTables, ViewOk, Truthful, Reread, H.NoWrap, BlockIs, IsWant, Pool, LeftOver;
    var boot := BuildTables(mem, dir, low);
    r := Init(boot, dir, low, kt, image, regions, usable);
    answers, grants, shots := [], [], [];
    if r.Some? && Bounded(r.value) {
      answers, grants, shots := r.value.Run(calls);
    }
  }

  lemma FirstTables(was: Memory, filled: Memory, mem: Memory, dir: Frame, low: Frame, kt: Frame, image: Image, owner: Owners)
    requires BootTables(was, dir, low) && dir != low && kt != dir && kt != low
    requires Filled(was, filled, kt, image, 1024) && mem == filled[dir * 1024 + 768 := kt * 4096 + 3]
    requires ImageFrame(image, dir) && ImageFrame(image, low) && ImageFrame(image, kt) && OwnersOk(owner, image)
    requires forall f: Frame :: !owner[f].Table? && !owner[f].Mapped?
    ensures Inv(mem, dir, owner) && FixedOk(mem, dir, image)
    ensures forall p: Page :: DataPage(p) ==> !IsMapped(mem, dir, p)
  {
    hide Filled, BootTables;
    BootedTables(was, filled, mem, dir, low, kt, image);
    BootedFixed(mem, dir, low, kt, image);
    BootedInv(mem, dir, low, kt, owner);
    BootedEmpty(mem, dir);
  }

  lemma FirstHeaps(mem: Memory, dir: Frame, owner: Owners, physBase: Word, physEnd: Word)
    requires forall p: Page :: DataPage(p) ==> !IsMapped(mem, dir, p)
    requires physBase % 4096 == 0 && physEnd % 4096 == 0 && physBase <= physEnd <= physBase + 0x200_0000
    requires H.NoWrap(KHEAP_BASE, KHEAP_LIMIT, physBase, physEnd)
    requires forall f: Frame :: physBase / 4096 <= f < physEnd / 4096 ==>
      owner[f] == Carved(KHEAP_BASE / 4096 + (f - physBase / 4096))
    requires forall f: Frame :: owner[f].Carved? ==> physBase / 4096 <= f < physEnd / 4096
    ensures H.HeapAt(mem, dir, owner, H.Contiguous, KHEAP_BASE, KHEAP_BASE, KHEAP_LIMIT, physBase, physEnd, [])
    ensures H.HeapAt(mem, dir, owner, H.Scattered, VMALLOC_BASE, VMALLOC_BASE, VMALLOC_LIMIT, 0, 0, [])
  {
    hide Pte, BlocksOk, UnmappedFrom;
    EmptyHeap(mem, dir, KHEAP_BASE, KHEAP_LIMIT);
    EmptyHeap(mem, dir, VMALLOC_BASE, VMALLOC_LIMIT);
  }

  lemma FirstRecord(mem: Memory, dir: Frame)
    requires forall p: Page :: DataPage(p) ==> !IsMapped(mem, dir, p)
    ensures DemandPages(mem, dir) == {}
    ensures ViewOk(mem, dir, Held(Used([]), Used([])), NOTHING)
  {
    hide Pte;
    assert Used([]) == {};
    NothingOk(mem, dir);
    forall p: Page | Demand(p)
      ensures !IsMapped(mem, dir, p)
    {
      assert DataPage(p);
    }
  }

  lemma StartsValid(k: Kernel)
    requires k.Wired() && k.vm.mmu.wp && k.vm.mmu.tlb == map[] && k.vm.pmm.Valid()
    requires LedgerOk(k.vm.pmm.free, k.vm.pmm.all, k.vm.owner) && OwnersOk(k.vm.owner, k.image)
    requires Inv(k.vm.mmu.mem, k.vm.mmu.dir, k.vm.owner) && FixedOk(k.vm.mmu.mem, k.vm.mmu.dir, k.image)
    requires k.kheap.brk == KHEAP_BASE && k.kheap.blocks == [] && k.vheap.brk == VMALLOC_BASE && k.vheap.blocks == []
    requires k.vheap.physBase == 0 && k.vheap.physEnd == 0
    requires H.HeapAt(k.vm.mmu.mem, k.vm.mmu.dir, k.vm.owner, H.Contiguous, KHEAP_BASE, KHEAP_BASE, KHEAP_LIMIT,
                    k.kheap.physBase, k.kheap.physEnd, [])
    requires H.HeapAt(k.vm.mmu.mem, k.vm.mmu.dir, k.vm.owner, H.Scattered, VMALLOC_BASE, VMALLOC_BASE, VMALLOC_LIMIT, 0, 0, [])
    requires k.view == NOTHING && k.recovered == 0
    requires DemandPages(k.vm.mmu.mem, k.vm.mmu.dir) == {}
    requires ViewOk(k.vm.mmu.mem, k.vm.mmu.dir, Held(Used([]), Used([])), NOTHING)
    ensures k.Valid()
  {
    hide Inv, LedgerOk, OwnersOk, FixedOk, ViewOk, DemandPages, Used, BlocksOk, UnmappedFrom, H.BackingOk;
  }

  /** A frame of the loaded kernel image. */
  predicate ImageFrame(image: Image, f: Frame) {
    256 <= f && f * 4096 < image.end - KERNEL_SPACE
  }
}
