/** What holds between operations for the kernel's memory as a whole. */
module KernelState {
  import opened Options
  import opened Layout
  import opened Mmu
  import opened PageTables
  import opened Paging
  import opened Blocks
  import opened HeapState
  import opened Boot
  import H = Heap

  /** A frame is behind one of the pages lo..hi. */
  predicate BehindRange(o: Owner, lo: int, hi: int) { o.Mapped? && lo <= o.page < hi }

  /** Frames changed hands only between the bitmap, new page tables and the pages lo..hi. */
  ghost predicate Traded(owner: Owners, owner': Owners, lo: int, hi: int) {
    forall f: Frame ::
      || owner'[f] == owner[f]
      || ((owner[f].Free? || BehindRange(owner[f], lo, hi))
          && (owner'[f].Free? || owner'[f].Table? || BehindRange(owner'[f], lo, hi)))
  }

  lemma TradedTrans(o0: Owners, o1: Owners, o2: Owners, lo: int, hi: int)
    requires Traded(o0, o1, lo, hi) && Traded(o1, o2, lo, hi)
    ensures Traded(o0, o2, lo, hi)
  {
  }

  lemma DrawnTrades(owner: Owners, owner': Owners, lo: int, hi: int, lo': int, hi': int)
    requires lo' <= lo && hi <= hi'
    ensures Drawn(owner, owner', lo, hi) ==> Traded(owner, owner', lo', hi')
    ensures Returned(owner, owner', lo, hi) ==> Traded(owner, owner', lo', hi')
  {
  }

  lemma TradedSame(owner: Owners, lo: int, hi: int)
    ensures Traded(owner, owner, lo, hi)
  {
  }

  lemma TradedSettles(owner: Owners, owner': Owners, lo: int, hi: int)
    requires Traded(owner, owner', lo, hi)
    ensures Settled(owner, owner')
  {
  }

  // ----- The ledger between operations -----

  /** Memory below 1 MB and the kernel image, as frame numbers. */
  predicate BootFrame(image: Image, f: Frame) {
    f < 256 || f * 4096 < image.end - KERNEL_SPACE
  }

  /** The page of the shell's `user` demonstration. */
  const DEMO_PAGE := 0xC00

  predicate Demand(p: Page) { DEMAND_BASE / 4096 <= p < DEMAND_END / 4096 }

  /** The pages that may hold frames from the pool: vmalloc, the demand zone and the demonstration page. */
  predicate PoolPage(p: Page) {
    VMALLOC_BASE / 4096 <= p < VMALLOC_LIMIT / 4096 || Demand(p) || p == DEMO_PAGE
  }

  /** The vmalloc range and user space. */
  predicate PoolRange(p: Page) {
    VMALLOC_BASE / 4096 <= p < VMALLOC_LIMIT / 4096 || 0x400 <= p < 0xC_0000
  }

  lemma HeldPage(mem: Memory, dir: Frame, owner: Owners, f: Frame)
    requires Inv(mem, dir, owner) && owner[f].Mapped?
    ensures IsMapped(mem, dir, owner[f].page) && FrameAt(mem, dir, owner[f].page) == f
  {
    hide Pte;
  }

  /**
   * Between operations no frame is in a caller's hands, reserved memory is
   * nobody's, and mapped frames are behind vmalloc or user pages.
   */
  ghost predicate OwnersOk(owner: Owners, image: Image) {
    && (forall f: Frame :: !owner[f].Taken?)
    && (forall f: Frame :: BootFrame(image, f) ==> Reserved(owner[f]))
    && (forall f: Frame :: owner[f].BootTime? ==> BootFrame(image, f))
    && (forall f: Frame :: owner[f].Mapped? ==> PoolPage(owner[f].page))
  }

  lemma TradedOwners(owner: Owners, owner': Owners, image: Image, lo: int, hi: int)
    requires OwnersOk(owner, image) && Traded(owner, owner', lo, hi)
    requires forall p: Page :: lo <= p < hi ==> PoolPage(p)
    ensures OwnersOk(owner', image)
  {
  }

  /** Where no page of lo..hi holds a pool frame before or after, frames only became tables. */
  lemma TradedNothing(owner: Owners, owner': Owners, lo: int, hi: int)
    requires Traded(owner, owner', lo, hi) && H.NoneHeld(owner, lo, hi) && H.NoneHeld(owner', lo, hi)
    ensures Traded(owner, owner', 0, 0)
  {
  }

  // ----- Live payloads -----

  ghost predicate InLive(us: set<Block>, a: int) {
    exists b :: b in us && b.at + 8 <= a < Next(b)
  }

  /** Every word of a live block lies on a mapped data page. */
  ghost predicate LiveMapped(mem: Memory, dir: Frame, us: set<Block>) {
    forall x: Word :: InLive(us, x) ==> DataPage(x / 4096) && IsMapped(mem, dir, x / 4096)
  }

  lemma BlocksMapped(mem: Memory, dir: Frame, base: int, brk: int, limit: int, bs: seq<Block>)
    requires BlocksOk(mem, dir, base, brk, limit, bs)
    ensures LiveMapped(mem, dir, Used(bs)) && BreakOk(base, brk, limit)
    ensures forall x :: InLive(Used(bs), x) ==> base <= x < brk
  {
    hide Tiled, Headers, Pte;
    TiledBounds(bs, base, brk);
    forall x: Word | InLive(Used(bs), x)
      ensures DataPage(x / 4096) && IsMapped(mem, dir, x / 4096)
    {
      var b :| b in Used(bs) && b.at + 8 <= x < Next(b);
      InHeap(mem, dir, base, brk, limit, x);
    }
  }

  lemma LiveMappedAt(mem: Memory, dir: Frame, us: set<Block>, a: Word)
    requires LiveMapped(mem, dir, us) && InLive(us, a)
    ensures DataPage(a / 4096) && IsMapped(mem, dir, a / 4096)
  {
  }

  lemma LiveMappedUnion(mem: Memory, dir: Frame, us: set<Block>, vs: set<Block>)
    requires LiveMapped(mem, dir, us) && LiveMapped(mem, dir, vs)
    ensures LiveMapped(mem, dir, us + vs)
    ensures forall x :: InLive(us, x) || InLive(vs, x) <==> InLive(us + vs, x)
  {
    hide Pte;
    forall x
      ensures InLive(us, x) || InLive(vs, x) <==> InLive(us + vs, x)
    {
      if InLive(us, x) {
        var b :| b in us && b.at + 8 <= x < Next(b);
        assert b in us + vs;
      }
      if InLive(vs, x) {
        var b :| b in vs && b.at + 8 <= x < Next(b);
        assert b in us + vs;
      }
    }
  }

  // ----- The demand zone -----

  ghost function DemandPages(mem: Memory, dir: Frame): set<Page> {
    set p: Page | Demand(p) && IsMapped(mem, dir, p)
  }

  /** At most 256 pages can be mapped in the zone, so at most 256 faults are ever recovered. */
  lemma DemandBounded(mem: Memory, dir: Frame)
    ensures |DemandPages(mem, dir)| <= 256
  {
    RangeCount(DEMAND_BASE / 4096, DEMAND_END / 4096);
    SubsetCount(DemandPages(mem, dir), PageRange(DEMAND_BASE / 4096, DEMAND_END / 4096));
  }

  predicate Within(p: Page, lo: int, hi: int) { lo <= p < hi }

  ghost function PageRange(lo: int, hi: int): set<Page> {
    set p: Page | Within(p, lo, hi)
  }

  lemma {:induction false} RangeCount(lo: Page, hi: Page)
    requires lo <= hi
    ensures |PageRange(lo, hi)| == hi - lo
    decreases hi - lo
  {
    if lo == hi {
      assert PageRange(lo, hi) == {};
    } else {
      RangeCount(lo, hi - 1);
      assert PageRange(lo, hi) == PageRange(lo, hi - 1) + {hi - 1};
    }
  }

  /** The frames spent on recovered faults: the pages of the zone and the one table they share. */
  ghost function FaultFrames(owner: Owners): set<Frame> {
    set f: Frame | owner[f] == Table(2) || (owner[f].Mapped? && Demand(owner[f].page))
  }

  lemma FaultFramesBounded(mem: Memory, dir: Frame, owner: Owners)
    requires Inv(mem, dir, owner)
    ensures |FaultFrames(owner)| <= |DemandPages(mem, dir)| + 1 <= 257
  {
    hide Pte;
    var frames := set p | p in DemandPages(mem, dir) :: FrameAt(mem, dir, p);
    var table := {TableOf(mem, dir, 2)};
    forall f: Frame | f in FaultFrames(owner)
      ensures f in frames + table
    {
      if owner[f].Mapped? {
        assert owner[f].page in DemandPages(mem, dir);
      }
    }
    ImageCount(DemandPages(mem, dir), p => FrameAt(mem, dir, p), frames);
    SubsetCount(FaultFrames(owner), frames + table);
    DemandBounded(mem, dir);
  }

  lemma {:induction false} ImageCount(s: set<Page>, g: Page -> Frame, t: set<Frame>)
    requires t == set p | p in s :: g(p)
    ensures |t| <= |s|
    decreases |s|
  {
    if s == {} {
      assert t == {};
    } else {
      var x :| x in s;
      var rest := set p | p in s - {x} :: g(p);
      ImageCount(s - {x}, g, rest);
      assert t == rest + {g(x)};
    }
  }

  lemma {:induction false} SubsetCount<T>(a: set<T>, b: set<T>)
    requires a <= b
    ensures |a| <= |b|
  {
    assert b == a + (b - a);
  }

  lemma DemandKept(mem: Memory, mem': Memory, dir: Frame, lo: int, hi: int)
    requires Keeps(mem, mem', dir, lo, hi)
    requires forall p: Page :: lo <= p < hi ==> !Demand(p)
    ensures DemandPages(mem', dir) == DemandPages(mem, dir)
  {
    hide Pte, Peek;
    forall p: Page | Demand(p)
      ensures IsMapped(mem', dir, p) == IsMapped(mem, dir, p)
    {
      assert p < WINDOW_PAGE;
    }
  }

  lemma DemoWritten(mem: Memory, mem': Memory, dir: Frame)
    requires IsMapped(mem, dir, DEMO_PAGE) && Written(mem, mem', dir, 0x00C0_0000, 0x4242_4242)
    requires SameTables(mem, mem', dir)
    ensures Peek(mem', dir, 0x00C0_0000) == 0x4242_4242 && IsMapped(mem', dir, DEMO_PAGE)
  {
    hide Peek, Pte;
  }

  /** The entry of the demonstration page once it is protected: the same frame, for user code to read only. */
  lemma DemoEntry(mem: Memory, mem': Memory, dir: Frame, frame: Word)
    requires Pte(mem, dir, DEMO_PAGE) == Entry(frame, USER_PAGE) && SameTables(mem, mem', dir)
    ensures var e := Entry(FrameAt(mem', dir, DEMO_PAGE) * 4096, 5);
      Present(e) && !Writable(e) && UserBit(e) && e / 4096 == frame / 4096
  {
    hide Pte;
    EntryMeans(frame, USER_PAGE);
    EntryMeans(FrameAt(mem', dir, DEMO_PAGE) * 4096, 5);
  }

  /** The faulting access can be retried: user code may read and write the page, and it is all zero. */
  ghost predicate FreshUserPage(mem: Memory, dir: Frame, p: Page) {
    && Walk(mem, dir, p) == Some(Translation(FrameAt(mem, dir, p), true, true))
    && ZeroUpTo(mem, dir, p, 1024)
  }

  lemma DemandAdded(mem: Memory, mem': Memory, dir: Frame, p: Page)
    requires Keeps(mem, mem', dir, p, p + 1) && Demand(p) && !IsMapped(mem, dir, p) && IsMapped(mem', dir, p)
    ensures DemandPages(mem', dir) == DemandPages(mem, dir) + {p} && p !in DemandPages(mem, dir)
  {
    hide Pte, Peek;
    forall q: Page | Demand(q) && q != p
      ensures IsMapped(mem', dir, q) == IsMapped(mem, dir, q)
    {
      assert q < WINDOW_PAGE;
    }
  }

  // ----- The fixed windows -----

  lemma FixedKept(mem: Memory, mem': Memory, dir: Frame, image: Image, lo: int, hi: int)
    requires FixedOk(mem, dir, image) && Keeps(mem, mem', dir, lo, hi)
    requires lo >= hi || (0x400 <= lo && (hi <= 0xC_0000 || 0xC_0400 <= lo))
    ensures FixedOk(mem', dir, image)
  {
    hide Pte, Peek, WindowEntry;
  }

  // ----- The other heap -----

  /** An operation on pages clear of a heap leaves the heap valid and its payloads alone. */
  lemma HeapKept(mem: Memory, mem': Memory, dir: Frame, owner: Owners, owner': Owners, backing: H.Backing,
                 base: Word, brk: Word, limit: Word, physBase: Word, physEnd: Word, bs: seq<Block>, lo: int, hi: int)
    requires H.HeapAt(mem, dir, owner, backing, base, brk, limit, physBase, physEnd, bs)
    requires Keeps(mem, mem', dir, lo, hi) && Settled(owner, owner')
    requires limit / 4096 <= lo || hi <= base / 4096
    ensures H.HeapAt(mem', dir, owner', backing, base, brk, limit, physBase, physEnd, bs)
    ensures PayloadsKept(mem, mem', dir, Used(bs))
  {
    hide Pte, Peek, Headers, MappedBelow, PayloadsKept, Tiled, H.CarvedOk, Settled;
    assert brk / 4096 <= limit / 4096 <= WINDOW_PAGE && base / 4096 <= brk / 4096;
    KeepsBlocks(mem, mem', dir, base, brk, limit, bs, lo, hi);
    forall p: Page | base / 4096 <= p < limit / 4096
      ensures Pte(mem', dir, p) == Pte(mem, dir, p)
    {
      assert p < WINDOW_PAGE && !(lo <= p < hi);
    }
    forall p: Page | brk / 4096 <= p < limit / 4096
      ensures !IsMapped(mem', dir, p)
    {
      assert !IsMapped(mem, dir, p);
    }
    if backing.Contiguous? {
      H.CarvedSettles(owner, owner', base, physBase, physEnd);
      forall p: Page | base / 4096 <= p < brk / 4096
        ensures FrameAt(mem', dir, p) == physBase / 4096 + (p - base / 4096)
      {
        assert FrameAt(mem, dir, p) == physBase / 4096 + (p - base / 4096);
      }
    }
  }

  // ----- One operation of a heap -----

  lemma PayloadsUnion(mem: Memory, mem': Memory, dir: Frame, us: set<Block>, vs: set<Block>)
    requires PayloadsKept(mem, mem', dir, us) && PayloadsKept(mem, mem', dir, vs)
    ensures PayloadsKept(mem, mem', dir, us + vs) && PayloadsKept(mem, mem', dir, vs + us)
  {
    hide Peek;
  }

  /** After an operation of one heap (pages lo..hi), everything else is as it was, the other heap included. */
  lemma HeapOp(m0: Memory, m1: Memory, dir: Frame, o0: Owners, o1: Owners, image: Image,
               lo: int, hi: int, us: set<Block>,
               backing: H.Backing, base: Word, brk: Word, limit: Word, physBase: Word, physEnd: Word, bs: seq<Block>)
    requires OwnersOk(o0, image) && FixedOk(m0, dir, image)
    requires H.HeapAt(m0, dir, o0, backing, base, brk, limit, physBase, physEnd, bs)
    requires Keeps(m0, m1, dir, lo, hi) && PayloadsKept(m0, m1, dir, us)
    requires KHEAP_BASE / 4096 <= lo <= hi <= VMALLOC_LIMIT / 4096
    requires limit / 4096 <= lo || hi <= base / 4096
    requires Traded(o0, o1, 0, 0) || (VMALLOC_BASE / 4096 <= lo && Traded(o0, o1, lo, hi))
    ensures H.HeapAt(m1, dir, o1, backing, base, brk, limit, physBase, physEnd, bs)
    ensures OwnersOk(o1, image) && FixedOk(m1, dir, image)
    ensures PayloadsKept(m0, m1, dir, us + Used(bs)) && PayloadsKept(m0, m1, dir, Used(bs) + us)
    ensures DemandPages(m1, dir) == DemandPages(m0, dir)
  {
    hide Keeps, PayloadsKept, DemandPages, OwnersOk, FixedOk, Traded, H.HeapAt, Used, Settled;
    if Traded(o0, o1, 0, 0) {
      TradedSettles(o0, o1, 0, 0);
      TradedOwners(o0, o1, image, 0, 0);
    } else {
      TradedSettles(o0, o1, lo, hi);
      TradedOwners(o0, o1, image, lo, hi);
    }
    HeapKept(m0, m1, dir, o0, o1, backing, base, brk, limit, physBase, physEnd, bs, lo, hi);
    PayloadsUnion(m0, m1, dir, us, Used(bs));
    FixedKept(m0, m1, dir, image, lo, hi);
    DemandKept(m0, m1, dir, lo, hi);
  }

  /** After a store in a live block of one heap, with the other heap as it was. */
  lemma StoreOp(m0: Memory, m1: Memory, dir: Frame, owner: Owners, image: Image,
                a: Word, w: Word, base': Word, brk': Word, limit': Word, bs': seq<Block>,
                backing: H.Backing, base: Word, brk: Word, limit: Word, physBase: Word, physEnd: Word, bs: seq<Block>)
    requires FixedOk(m0, dir, image)
    requires BlocksOk(m0, dir, base', brk', limit', bs') && KHEAP_BASE <= base' && limit' <= VMALLOC_LIMIT
    requires H.HeapAt(m0, dir, owner, backing, base, brk, limit, physBase, physEnd, bs)
    requires limit <= base' || limit' <= base
    requires SameTables(m0, m1, dir) && Written(m0, m1, dir, a, w) && a % 4 == 0 && InLive(Used(bs'), a)
    ensures H.HeapAt(m1, dir, owner, backing, base, brk, limit, physBase, physEnd, bs)
    ensures FixedOk(m1, dir, image)
    ensures DemandPages(m1, dir) == DemandPages(m0, dir)
  {
    hide Keeps, DemandPages, FixedOk, Used, Settled, LiveMapped, Written, SameTables, BlocksOk, InLive,
         UnmappedFrom, H.BackingOk;
    BlocksMapped(m0, dir, base', brk', limit', bs');
    BlocksMapped(m0, dir, base, brk, limit, bs);
    WrittenKeeps(m0, m1, dir, a, w);
    SettledSame(owner);
    HeapKept(m0, m1, dir, owner, owner, backing, base, brk, limit, physBase, physEnd, bs, a / 4096, a / 4096 + 1);
    FixedKept(m0, m1, dir, image, a / 4096, a / 4096 + 1);
    DemandKept(m0, m1, dir, a / 4096, a / 4096 + 1);
  }

  /** After an operation on one user page of the pool, both heaps and the rest are as they were. */
  lemma UserPageOp(m0: Memory, m1: Memory, dir: Frame, o0: Owners, o1: Owners, image: Image,
                   p: Page, ks: seq<Block>, vs: seq<Block>)
    requires OwnersOk(o0, image) && FixedOk(m0, dir, image)
    requires Keeps(m0, m1, dir, p, p + 1) && Traded(o0, o1, p, p + 1) && PoolPage(p) && 0x400 <= p < 0xC_0000
    requires PayloadsKept(m0, m1, dir, Used(ks)) && PayloadsKept(m0, m1, dir, Used(vs))
    ensures OwnersOk(o1, image) && FixedOk(m1, dir, image)
    ensures PayloadsKept(m0, m1, dir, Used(ks) + Used(vs))
  {
    hide Keeps, PayloadsKept, OwnersOk, FixedOk, Traded, Used;
    TradedOwners(o0, o1, image, p, p + 1);
    FixedKept(m0, m1, dir, image, p, p + 1);
    PayloadsUnion(m0, m1, dir, Used(ks), Used(vs));
  }
}
