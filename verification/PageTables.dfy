/**
 * What the page tables in memory mean, who owns each frame, and how the three
 * kinds of store the kernel makes change that: installing a table, writing one
 * table entry, and writing data.
 */
module PageTables {
  import opened Options
  import opened Layout
  import opened Bytes
  import opened Mmu
  import opened Pmm

  /** The one holder of a frame. */
  datatype Owner =
    | Hole                  // no usable memory
    | Free                  // in the frame bitmap
    | BootTime              // below 1 MB or in the kernel image
    | Taken                 // handed out and not yet mapped
    | Carved(page: Page)    // in the block kept for kmalloc, for that page of its range
    | Table(slot: int)      // the page table of a directory slot
    | Mapped(page: Page)    // behind a vmalloc or user page

  type Owners = o: seq<Owner> | |o| == 0x10_0000 ghost witness seq(0x10_0000, _ => Hole)

  predicate Reserved(o: Owner) { o.BootTime? || o.Hole? }

  /** A frame that holds data rather than tables. */
  predicate Data(o: Owner) { o.Taken? || o.Carved? || o.Mapped? }

  /** The two slots that map the first 4 MB of memory for the kernel. */
  predicate FixedSlot(d: int) { d == 0 || d == 768 }

  /** A page outside the fixed windows and the table window. */
  predicate DataPage(p: Page) { p < WINDOW_PAGE && !FixedSlot(p / 1024) }

  predicate HasTable(mem: Memory, dir: Frame, d: int)
    requires 0 <= d < 1024
  {
    Present(Pde(mem, dir, d))
  }

  function TableOf(mem: Memory, dir: Frame, d: int): Frame
    requires 0 <= d < 1024
  {
    FrameOf(Pde(mem, dir, d))
  }

  predicate IsMapped(mem: Memory, dir: Frame, p: Page) { Present(Pte(mem, dir, p)) }

  function FrameAt(mem: Memory, dir: Frame, p: Page): Frame { FrameOf(Pte(mem, dir, p)) }

  // ----- Invariants of the tables -----

  /** The recursive entry is in place, and rights in the directory follow the address-space plan. */
  ghost predicate DirectoryOk(mem: Memory, dir: Frame) {
    && Pde(mem, dir, 1023) == dir * 4096 + 3
    && forall d :: 0 <= d < 1023 && HasTable(mem, dir, d) ==>
         Writable(Pde(mem, dir, d)) && (UserBit(Pde(mem, dir, d)) <==> UserSlot(d))
  }

  /** Directory and fixed tables lie in reserved memory; every other table owns its frame, and none is lost. */
  ghost predicate TablesOwned(mem: Memory, dir: Frame, owner: Owners) {
    && Reserved(owner[dir])
    && HasTable(mem, dir, 0) && HasTable(mem, dir, 768)
    && TableOf(mem, dir, 0) != TableOf(mem, dir, 768)
    && (forall d :: 0 <= d < 1023 && HasTable(mem, dir, d) ==>
          if FixedSlot(d) then Reserved(owner[TableOf(mem, dir, d)]) && TableOf(mem, dir, d) != dir
          else owner[TableOf(mem, dir, d)] == Table(d))
    && (forall f: Frame :: owner[f].Table? ==>
          var d := owner[f].slot;
          0 <= d < 1023 && !FixedSlot(d) && HasTable(mem, dir, d) && TableOf(mem, dir, d) == f)
  }

  /** Every data page owns its frame, and no mapped frame is lost. */
  ghost predicate PagesOwned(mem: Memory, dir: Frame, owner: Owners) {
    && (forall p: Page :: DataPage(p) && IsMapped(mem, dir, p) ==>
          owner[FrameAt(mem, dir, p)] == Mapped(p) || owner[FrameAt(mem, dir, p)] == Carved(p))
    && (forall f: Frame :: owner[f].Mapped? ==>
          var p := owner[f].page;
          DataPage(p) && IsMapped(mem, dir, p) && FrameAt(mem, dir, p) == f)
  }

  ghost predicate Inv(mem: Memory, dir: Frame, owner: Owners) {
    DirectoryOk(mem, dir) && TablesOwned(mem, dir, owner) && PagesOwned(mem, dir, owner)
  }

  /** The bitmap and the ledger name the same free frames and the same usable frames. */
  ghost predicate LedgerOk(free: set<Frame>, all: set<Frame>, owner: Owners) {
    && (forall f: Frame :: f in free <==> owner[f] == Free)
    && (forall f: Frame :: f in all <==> owner[f] != Hole)
    && (forall f: Frame :: owner[f].Carved? ==> KHEAP_BASE / 4096 <= owner[f].page < KHEAP_LIMIT / 4096)
  }

  /** Frames kept for kmalloc stay kept, and the frames in a caller's hands are the same ones. */
  ghost predicate Settled(owner: Owners, owner': Owners) {
    && (forall f: Frame :: owner[f].Carved? || owner'[f].Carved? ==> owner'[f] == owner[f])
    && (forall f: Frame :: owner[f].Taken? <==> owner'[f].Taken?)
  }

  /** Free frames became tables or the frames of pages lo..hi; nothing else changed hands. */
  ghost predicate Drawn(owner: Owners, owner': Owners, lo: int, hi: int) {
    forall f: Frame :: owner'[f] == owner[f]
      || (owner[f].Free? && (owner'[f].Table? || (owner'[f].Mapped? && lo <= owner'[f].page < hi)))
  }

  /** Frames of pages lo..hi became free; nothing else changed hands. */
  ghost predicate Returned(owner: Owners, owner': Owners, lo: int, hi: int) {
    forall f: Frame :: owner'[f] == owner[f]
      || (owner[f].Mapped? && lo <= owner[f].page < hi && owner'[f].Free?)
  }

  lemma DrawnSettles(owner: Owners, owner': Owners, lo: int, hi: int)
    ensures Drawn(owner, owner', lo, hi) ==> Settled(owner, owner')
    ensures Returned(owner, owner', lo, hi) ==> Settled(owner, owner')
  {
  }

  lemma DrawnTrans(o0: Owners, o1: Owners, o2: Owners, lo: int, mid: int, hi: int)
    requires Drawn(o0, o1, lo, mid) && Drawn(o1, o2, mid, hi) && lo <= mid <= hi
    ensures Drawn(o0, o2, lo, hi)
  {
  }

  lemma ReturnedTrans(o0: Owners, o1: Owners, o2: Owners, lo: int, mid: int, hi: int)
    requires Returned(o0, o1, lo, mid) && Returned(o1, o2, mid, hi) && lo <= mid <= hi
    ensures Returned(o0, o2, lo, hi)
  {
  }

  lemma SettledSame(owner: Owners)
    ensures Settled(owner, owner)
    ensures forall lo, hi :: Drawn(owner, owner, lo, hi) && Returned(owner, owner, lo, hi)
  {
  }

  /** The free frames together with the holder of every frame. */
  datatype Ledger = Ledger(free: set<Frame>, owner: Owners)

  /** The lowest free frame goes to `o`. */
  ghost function Issue(l: Ledger, o: Owner): Ledger
    requires l.free != {}
  {
    Ledger(l.free - {Lowest(l.free)}, l.owner[Lowest(l.free) := o])
  }

  /** Slot `d` gets a table from the lowest free frame, unless it `has` one. */
  ghost function Tabled(l: Ledger, has: bool, d: int): Ledger
    requires has || l.free != {}
  {
    if has then l else Issue(l, Table(d))
  }

  /** Page `p` takes frame `f` from the caller; a carved frame is already its own. */
  ghost function Claim(l: Ledger, f: Frame, p: Page): Ledger {
    if l.owner[f] == Taken then l.(owner := l.owner[f := Mapped(p)]) else l
  }

  /** Page `p` gives frame `f` back to the caller, unless it is carved. */
  ghost function Release(l: Ledger, f: Frame, p: Page): Ledger {
    if l.owner[f] == Mapped(p) then l.(owner := l.owner[f := Taken]) else l
  }

  lemma IssueParts(l: Ledger, o: Owner)
    requires l.free != {}
    ensures Issue(l, o).free == l.free - {Lowest(l.free)}
    ensures Issue(l, o).owner[Lowest(l.free)] == o
  {
  }

  lemma IssueOk(l: Ledger, all: set<Frame>, o: Owner)
    requires LedgerOk(l.free, all, l.owner) && l.free != {} && (o.Taken? || o.Table?)
    ensures l.owner[Lowest(l.free)] == Free
    ensures LedgerOk(Issue(l, o).free, all, Issue(l, o).owner)
  {
  }

  /** Making a table for a slot only uses a free frame. */
  lemma TabledDraws(l: Ledger, all: set<Frame>, has: bool, d: int)
    requires LedgerOk(l.free, all, l.owner) && (has || l.free != {})
    ensures forall lo, hi :: Drawn(l.owner, Tabled(l, has, d).owner, lo, hi)
  {
  }

  lemma GiveOk(l: Ledger, all: set<Frame>, f: Frame)
    requires LedgerOk(l.free, all, l.owner) && l.owner[f] == Taken
    ensures LedgerOk(l.free + {f}, all, l.owner[f := Free])
  {
  }

  /** A frame in use stays in use when it changes hands. */
  lemma ClaimOk(l: Ledger, all: set<Frame>, f: Frame, p: Page)
    requires LedgerOk(l.free, all, l.owner)
    ensures LedgerOk(Claim(l, f, p).free, all, Claim(l, f, p).owner)
    ensures LedgerOk(Release(l, f, p).free, all, Release(l, f, p).owner)
  {
  }

  /** Taking the lowest free frame and giving it back changes nothing. */
  lemma IssueThenGive(l: Ledger, all: set<Frame>)
    requires LedgerOk(l.free, all, l.owner) && l.free != {}
    ensures var f := Lowest(l.free); var m := Issue(l, Taken);
      Ledger(m.free + {f}, m.owner[f := Free]) == l
  {
    assert l.owner[Lowest(l.free)] == Free;
  }

  /** Two pages outside the fixed windows never share a frame. */
  lemma FramesDistinct(mem: Memory, dir: Frame, owner: Owners, p: Page, q: Page)
    requires PagesOwned(mem, dir, owner)
    requires DataPage(p) && DataPage(q) && IsMapped(mem, dir, p) && IsMapped(mem, dir, q)
    ensures FrameAt(mem, dir, p) == FrameAt(mem, dir, q) ==> p == q
  {
  }

  /** Present directory entries name distinct tables, none of them the directory. */
  lemma TablesDistinct(mem: Memory, dir: Frame, owner: Owners, d: int, e: int)
    requires TablesOwned(mem, dir, owner)
    requires 0 <= d < 1023 && 0 <= e < 1023 && HasTable(mem, dir, d) && HasTable(mem, dir, e)
    ensures TableOf(mem, dir, d) != dir
    ensures TableOf(mem, dir, d) == TableOf(mem, dir, e) ==> d == e
  {
  }

  // ----- The recursive window -----

  /**
   * Through the recursive entry, table entry `t` of slot `d` is the word at
   * 0xFFC00000 + d * 4096 + t * 4, and directory entry `d` is the word at
   * 0xFFFFF000 + d * 4. The window is writable and out of user reach.
   */
  lemma WindowReaches(mem: Memory, dir: Frame, d: int, t: int)
    requires Pde(mem, dir, 1023) == dir * 4096 + 3
    requires 0 <= d < 1024 && 0 <= t < 1024 && HasTable(mem, dir, d)
    ensures Walk(mem, dir, WINDOW_PAGE + d)
         == Some(Translation(TableOf(mem, dir, d), Writable(Pde(mem, dir, d)), false))
    ensures Slot(mem, dir, EntryAddress(d, t)) == TableOf(mem, dir, d) * 1024 + t
  {
    EntryAddressParts(d, t);
    RecursiveEntry(dir);
    assert Pte(mem, dir, WINDOW_PAGE + d) == Pde(mem, dir, d);
  }

  /** The slot of the window always has its table: the directory. */
  lemma WindowSlot(mem: Memory, dir: Frame, owner: Owners)
    requires Inv(mem, dir, owner)
    ensures HasTable(mem, dir, 1023)
  {
    RecursiveEntry(dir);
  }

  lemma RecursiveEntry(dir: Frame)
    ensures var e := dir * 4096 + 3; Present(e) && Writable(e) && !UserBit(e) && FrameOf(e) == dir
  {
    EntryParts(dir, 3);
  }

  lemma EntryAddressParts(d: int, t: int)
    requires 0 <= d < 1024 && 0 <= t < 1024
    ensures EntryAddress(d, t) / 4096 == WINDOW_PAGE + d
    ensures EntryAddress(d, t) % 4096 / 4 == t
    ensures EntryAddress(d, t) % 4 == 0
    ensures (WINDOW_PAGE + d) / 1024 == 1023 && (WINDOW_PAGE + d) % 1024 == d
  {
  }

  /** The window onto a table: present, writable, and the word is the entry. */
  lemma TableWindow(mem: Memory, dir: Frame, d: int, t: int)
    requires DirectoryOk(mem, dir) && 0 <= d < 1023 && 0 <= t < 1024 && HasTable(mem, dir, d)
    ensures WindowWord(mem, dir, d, t, TableOf(mem, dir, d))
  {
    EntryAddressParts(d, t);
    WindowReaches(mem, dir, d, t);
  }

  /** The window onto the directory. */
  lemma DirectoryWindow(mem: Memory, dir: Frame, d: int)
    requires DirectoryOk(mem, dir) && 0 <= d < 1024
    ensures WindowWord(mem, dir, 1023, d, dir)
  {
    EntryAddressParts(1023, d);
    RecursiveEntry(dir);
    WindowReaches(mem, dir, 1023, d);
  }

  lemma AnyWindow(mem: Memory, dir: Frame, d: int, t: int)
    requires DirectoryOk(mem, dir) && 0 <= d < 1024 && 0 <= t < 1024 && HasTable(mem, dir, d)
    ensures WindowWord(mem, dir, d, t, TableOf(mem, dir, d))
  {
    if d == 1023 {
      RecursiveEntry(dir);
      DirectoryWindow(mem, dir, t);
    } else {
      TableWindow(mem, dir, d, t);
    }
  }

  /** The word at `EntryAddress(d, t)` is word `t` of frame `f`, and the kernel may write it. */
  ghost predicate WindowWord(mem: Memory, dir: Frame, d: int, t: int, f: Frame)
    requires 0 <= d < 1024 && 0 <= t < 1024
  {
    && EntryAddress(d, t) % 4 == 0
    && EntryAddress(d, t) / 4096 == WINDOW_PAGE + d
    && Walk(mem, dir, WINDOW_PAGE + d) == Some(Translation(f, true, false))
    && Slot(mem, dir, EntryAddress(d, t)) == f * 1024 + t
  }

  function EntryAddress(d: int, t: int): Word
    requires 0 <= d < 1024 && 0 <= t < 1024
  {
    TABLE_WINDOW + d * 4096 + t * 4
  }

  // ----- The three kinds of store -----

  /** Zeroing a whole frame. */
  ghost function ZeroFrame(mem: Memory, f: Frame): (r: Memory)
    ensures forall i :: 0 <= i < 0x4000_0000 ==> r[i] == if i / 1024 == f then 0 else mem[i]
  {
    seq(0x4000_0000, i requires 0 <= i < 0x4000_0000 => if i / 1024 == f then 0 else mem[i])
  }

  /** Frame `f` becomes the empty table of slot `d`. */
  ghost function WithTable(mem: Memory, dir: Frame, d: int, f: Frame): Memory
    requires 0 <= d < 1023
  {
    ZeroFrame(mem[dir * 1024 + d := f * 4096 + TableFlags(d)], f)
  }

  function TableFlags(d: int): Word {
    if UserSlot(d) then 7 else 3
  }

  /** The governing entry of page `p` becomes `e`. */
  ghost function WithEntry(mem: Memory, dir: Frame, p: Page, e: Word): Memory
    requires p < WINDOW_PAGE && HasTable(mem, dir, p / 1024)
  {
    mem[TableOf(mem, dir, p / 1024) * 1024 + p % 1024 := e]
  }

  /** All that changes when slot `d` gets an empty table in frame `f`. */
  ghost predicate TableInstalled(mem: Memory, mem': Memory, dir: Frame, d: int, f: Frame)
    requires 0 <= d < 1023
  {
    && (forall e :: 0 <= e < 1024 && e != d ==> Pde(mem', dir, e) == Pde(mem, dir, e))
    && Pde(mem', dir, d) == f * 4096 + TableFlags(d)
    && (forall q: Page :: q != WINDOW_PAGE + d ==> Pte(mem', dir, q) == Pte(mem, dir, q))
  }

  /** All that changes when page `p` gets entry `e`. */
  ghost predicate EntryWritten(mem: Memory, mem': Memory, dir: Frame, p: Page, e: Word) {
    && (forall d :: 0 <= d < 1024 ==> Pde(mem', dir, d) == Pde(mem, dir, d))
    && Pte(mem', dir, p) == e
    && (forall q: Page :: q != p ==> Pte(mem', dir, q) == Pte(mem, dir, q))
  }

  /** No directory or table entry changes. */
  ghost predicate SameTables(mem: Memory, mem': Memory, dir: Frame) {
    && (forall d :: 0 <= d < 1024 ==> Pde(mem', dir, d) == Pde(mem, dir, d))
    && (forall q: Page :: Pte(mem', dir, q) == Pte(mem, dir, q))
  }

  /** The directory names frame `f` for slot `d`; only words of `f` may have changed besides. */
  ghost predicate Installing(was: Memory, mem: Memory, dir: Frame, d: int, f: Frame)
    requires 0 <= d < 1023
  {
    forall i :: 0 <= i < 0x4000_0000 && i / 1024 != f ==>
      mem[i] == if i == dir * 1024 + d then f * 4096 + TableFlags(d) else was[i]
  }

  /** While the new table is filled, every page outside its slot keeps its entries. */
  lemma InstallingEntries(was: Memory, mem: Memory, dir: Frame, owner: Owners, d: int, f: Frame, q: Page)
    requires DirectoryOk(was, dir) && TablesOwned(was, dir, owner)
    requires 0 <= d < 1023 && owner[f] == Free && Installing(was, mem, dir, d, f)
    requires q / 1024 != d && q != WINDOW_PAGE + d
    ensures Pde(mem, dir, q / 1024) == Pde(was, dir, q / 1024)
    ensures Pte(mem, dir, q) == Pte(was, dir, q)
  {
    var e := q / 1024;
    InFrame(dir, e);
    assert Pde(mem, dir, e) == Pde(was, dir, e);
    if HasTable(was, dir, e) {
      InFrame(TableOf(was, dir, e), q % 1024);
      RecursiveEntry(dir);
      if e < 1023 {
        TablesDistinct(was, dir, owner, e, e);
      }
    }
  }

  lemma InFrame(f: Frame, t: int)
    requires 0 <= t < 1024
    ensures (f * 1024 + t) / 1024 == f && (f * 1024 + t) % 1024 == t
  {
  }

  lemma WithTableEffect(mem: Memory, dir: Frame, owner: Owners, d: int, f: Frame)
    requires TablesOwned(mem, dir, owner) && DirectoryOk(mem, dir)
    requires 0 <= d < 1023 && !HasTable(mem, dir, d) && owner[f] == Free
    ensures TableInstalled(mem, WithTable(mem, dir, d, f), dir, d, f)
  {
    var mem' := WithTable(mem, dir, d, f);
    forall e | 0 <= e < 1024
      ensures Pde(mem', dir, e) == if e == d then f * 4096 + TableFlags(d) else Pde(mem, dir, e)
    {
      InFrame(dir, e);
    }
    forall q: Page | q != WINDOW_PAGE + d
      ensures Pte(mem', dir, q) == Pte(mem, dir, q)
    {
      if q / 1024 == d {
        TableEntry(d, f);
        InFrame(f, q % 1024);
      } else {
        InstallingEntries(mem, mem', dir, owner, d, f, q);
      }
    }
  }

  lemma InstallInv(mem: Memory, mem': Memory, dir: Frame, owner: Owners, d: int, f: Frame)
    requires Inv(mem, dir, owner)
    requires 0 <= d < 1023 && !HasTable(mem, dir, d) && owner[f] == Free
    requires TableInstalled(mem, mem', dir, d, f)
    ensures Inv(mem', dir, owner[f := Table(d)])
  {
    InstallDirectoryOk(mem, mem', dir, d, f);
    InstallTablesOwned(mem, mem', dir, owner, d, f);
    InstallPagesOwned(mem, mem', dir, owner, d, f);
  }

  /** A frame number and flags read back out of the entry they were packed into. */
  lemma EntryParts(f: Frame, flags: int)
    requires 0 <= flags < 4096
    ensures var e := f * 4096 + flags;
      && FrameOf(e) == f
      && Present(e) == Present(flags) && Writable(e) == Writable(flags) && UserBit(e) == UserBit(flags)
  {
    var e := f * 4096 + flags;
    Halve(f * 2048, flags);
    Halve(f * 1024, flags / 2);
    Halve(f * 512, flags / 4);
    assert e / 4 == e / 2 / 2 && flags / 4 == flags / 2 / 2;
  }

  lemma Halve(k: int, x: int)
    ensures (2 * k + x) / 2 == k + x / 2 && (2 * k + x) % 2 == x % 2
  {
  }

  lemma TableEntry(d: int, f: Frame)
    ensures var e := f * 4096 + TableFlags(d);
      Present(e) && Writable(e) && (UserBit(e) <==> UserSlot(d)) && FrameOf(e) == f
  {
    EntryParts(f, TableFlags(d));
  }

  lemma InstallDirectoryOk(mem: Memory, mem': Memory, dir: Frame, d: int, f: Frame)
    requires DirectoryOk(mem, dir)
    requires 0 <= d < 1023 && TableInstalled(mem, mem', dir, d, f)
    ensures DirectoryOk(mem', dir)
  {
    TableEntry(d, f);
  }

  lemma InstallTablesOwned(mem: Memory, mem': Memory, dir: Frame, owner: Owners, d: int, f: Frame)
    requires TablesOwned(mem, dir, owner)
    requires 0 <= d < 1023 && !HasTable(mem, dir, d) && owner[f] == Free
    requires TableInstalled(mem, mem', dir, d, f)
    ensures TablesOwned(mem', dir, owner[f := Table(d)])
  {
    TableEntry(d, f);
    assert !FixedSlot(d);
  }

  lemma InstallPagesOwned(mem: Memory, mem': Memory, dir: Frame, owner: Owners, d: int, f: Frame)
    requires PagesOwned(mem, dir, owner)
    requires 0 <= d < 1023 && owner[f] == Free
    requires TableInstalled(mem, mem', dir, d, f)
    ensures PagesOwned(mem', dir, owner[f := Table(d)])
  {
  }

  lemma WithEntryEffect(mem: Memory, dir: Frame, owner: Owners, p: Page, e: Word)
    requires TablesOwned(mem, dir, owner) && DirectoryOk(mem, dir)
    requires p < WINDOW_PAGE && HasTable(mem, dir, p / 1024)
    ensures EntryWritten(mem, WithEntry(mem, dir, p, e), dir, p, e)
  {
    var mem' := WithEntry(mem, dir, p, e);
    TablesDistinct(mem, dir, owner, p / 1024, p / 1024);
    forall q: Page | q != p
      ensures Pte(mem', dir, q) == Pte(mem, dir, q)
    {
      if q < WINDOW_PAGE && HasTable(mem, dir, q / 1024) {
        TablesDistinct(mem, dir, owner, p / 1024, q / 1024);
      }
    }
  }

  /** Directory and tables do not notice which data page holds a frame. */
  lemma TablesKept(mem: Memory, mem': Memory, dir: Frame, owner: Owners, owner': Owners)
    requires DirectoryOk(mem, dir) && TablesOwned(mem, dir, owner)
    requires forall d :: 0 <= d < 1024 ==> Pde(mem', dir, d) == Pde(mem, dir, d)
    requires forall f: Frame :: owner'[f] == owner[f] || (Data(owner[f]) && Data(owner'[f]))
    ensures DirectoryOk(mem', dir) && TablesOwned(mem', dir, owner')
  {
  }

  lemma MapPagesOwned(mem: Memory, mem': Memory, dir: Frame, owner: Owners, p: Page, e: Word)
    requires PagesOwned(mem, dir, owner) && EntryWritten(mem, mem', dir, p, e)
    requires DataPage(p) && !IsMapped(mem, dir, p) && Present(e)
    requires owner[FrameOf(e)] == Taken || owner[FrameOf(e)] == Carved(p)
    ensures PagesOwned(mem', dir, Claim(Ledger({}, owner), FrameOf(e), p).owner)
  {
  }

  /** Mapping an absent page with a frame held for it. */
  lemma MapInv(mem: Memory, mem': Memory, dir: Frame, owner: Owners, p: Page, e: Word)
    requires Inv(mem, dir, owner) && EntryWritten(mem, mem', dir, p, e)
    requires DataPage(p) && !IsMapped(mem, dir, p) && Present(e)
    requires owner[FrameOf(e)] == Taken || owner[FrameOf(e)] == Carved(p)
    ensures Inv(mem', dir, Claim(Ledger({}, owner), FrameOf(e), p).owner)
  {
    TablesKept(mem, mem', dir, owner, Claim(Ledger({}, owner), FrameOf(e), p).owner);
    MapPagesOwned(mem, mem', dir, owner, p, e);
  }

  lemma UnmapPagesOwned(mem: Memory, mem': Memory, dir: Frame, owner: Owners, p: Page)
    requires PagesOwned(mem, dir, owner) && EntryWritten(mem, mem', dir, p, 0)
    requires p < WINDOW_PAGE && IsMapped(mem, dir, p)
    ensures PagesOwned(mem', dir, Release(Ledger({}, owner), FrameAt(mem, dir, p), p).owner)
  {
  }

  /** Clearing the entry of a mapped page gives its frame back to the caller. */
  lemma UnmapInv(mem: Memory, mem': Memory, dir: Frame, owner: Owners, p: Page)
    requires Inv(mem, dir, owner) && EntryWritten(mem, mem', dir, p, 0)
    requires p < WINDOW_PAGE && IsMapped(mem, dir, p)
    ensures Inv(mem', dir, Release(Ledger({}, owner), FrameAt(mem, dir, p), p).owner)
  {
    TablesKept(mem, mem', dir, owner, Release(Ledger({}, owner), FrameAt(mem, dir, p), p).owner);
    UnmapPagesOwned(mem, mem', dir, owner, p);
  }

  /** A frame that holds neither table nor page changes hands between the bitmap and a caller. */
  lemma MoveInv(mem: Memory, dir: Frame, owner: Owners, f: Frame, o: Owner)
    requires Inv(mem, dir, owner)
    requires owner[f].Free? || owner[f].Taken?
    requires o.Free? || o.Taken?
    ensures Inv(mem, dir, owner[f := o])
  {
  }

  /** Changing the rights of a mapped page. */
  lemma ProtectInv(mem: Memory, mem': Memory, dir: Frame, owner: Owners, p: Page, e: Word)
    requires Inv(mem, dir, owner) && EntryWritten(mem, mem', dir, p, e)
    requires p < WINDOW_PAGE && IsMapped(mem, dir, p)
    requires Present(e) && FrameOf(e) == FrameAt(mem, dir, p)
    ensures Inv(mem', dir, owner)
  {
  }

  /** A store into a data frame changes no translation. */
  lemma DataStoreEffect(mem: Memory, dir: Frame, owner: Owners, i: int, w: Word)
    requires TablesOwned(mem, dir, owner) && DirectoryOk(mem, dir)
    requires 0 <= i < 0x4000_0000 && Data(owner[i / 1024])
    ensures SameTables(mem, mem[i := w], dir)
  {
    var mem' := mem[i := w];
    forall q: Page
      ensures Pte(mem', dir, q) == Pte(mem, dir, q)
    {
      if HasTable(mem, dir, q / 1024) {
        assert (TableOf(mem, dir, q / 1024) * 1024 + q % 1024) / 1024 == TableOf(mem, dir, q / 1024);
      }
    }
  }

  lemma SameTablesInv(mem: Memory, mem': Memory, dir: Frame, owner: Owners)
    requires Inv(mem, dir, owner) && SameTables(mem, mem', dir)
    ensures Inv(mem', dir, owner)
  {
  }

  // ----- While a table is being installed -----

  /** The table is installed and its first `n` entries are cleared. */
  ghost predicate Filling(was: Memory, mem: Memory, dir: Frame, d: int, f: Frame, n: int)
    requires 0 <= d < 1023
  {
    forall i :: 0 <= i < 0x4000_0000 ==>
      mem[i] == if f * 1024 <= i < f * 1024 + n then 0
                else if i == dir * 1024 + d then f * 4096 + TableFlags(d)
                else was[i]
  }

  lemma FillStart(was: Memory, dir: Frame, d: int, f: Frame)
    requires 0 <= d < 1023
    ensures Filling(was, was[dir * 1024 + d := f * 4096 + TableFlags(d)], dir, d, f, 0)
  {
  }

  lemma FillStep(was: Memory, mem: Memory, dir: Frame, d: int, f: Frame, n: int)
    requires 0 <= d < 1023 && 0 <= n < 1024 && Filling(was, mem, dir, d, f, n)
    ensures Filling(was, mem[f * 1024 + n := 0], dir, d, f, n + 1)
  {
  }

  lemma FillingIsInstalling(was: Memory, mem: Memory, dir: Frame, d: int, f: Frame, n: int)
    requires 0 <= d < 1023 && n <= 1024 && Filling(was, mem, dir, d, f, n)
    ensures Installing(was, mem, dir, d, f)
  {
  }

  lemma FilledIsWithTable(was: Memory, mem: Memory, dir: Frame, d: int, f: Frame)
    requires 0 <= d < 1023 && Filling(was, mem, dir, d, f, 1024)
    ensures mem == WithTable(was, dir, d, f)
  {
  }

  /** While the new table is filled, the window reaches it. */
  lemma InstallingWindow(was: Memory, mem: Memory, dir: Frame, owner: Owners, d: int, f: Frame, t: int)
    requires DirectoryOk(was, dir) && TablesOwned(was, dir, owner)
    requires 0 <= d < 1023 && 0 <= t < 1024 && owner[f] == Free && Installing(was, mem, dir, d, f)
    ensures WindowWord(mem, dir, d, t, f)
  {
    assert (dir * 1024 + d) / 1024 == dir && (dir * 1024 + 1023) / 1024 == dir;
    TableEntry(d, f);
    EntryAddressParts(d, t);
    WindowReaches(mem, dir, d, t);
  }

  /** The cache while a table is installed: nothing of the slot, and the window only as it is now. */
  ghost predicate InstallingCache(tlb: map<Page, Translation>, was: Memory, dir: Frame, d: int, f: Frame) {
    forall q: Page :: q in tlb ==>
      if q == WINDOW_PAGE + d then tlb[q] == Translation(f, true, false)
      else q / 1024 != d && Walk(was, dir, q) == Some(tlb[q])
  }

  /** Before the table exists the cache holds nothing of its slot, nor its window page. */
  lemma CacheBeforeInstall(tlb: map<Page, Translation>, was: Memory, dir: Frame, d: int, f: Frame)
    requires DirectoryOk(was, dir) && Coherent(tlb, was, dir)
    requires 0 <= d < 1023 && !HasTable(was, dir, d)
    ensures InstallingCache(tlb, was, dir, d, f)
  {
    forall q: Page | q in tlb
      ensures q / 1024 != d && q != WINDOW_PAGE + d
    {
      EntryAddressParts(d, 0);
      RecursiveEntry(dir);
      assert Walk(was, dir, q).Some?;
    }
  }

  lemma CacheWindow(tlb: map<Page, Translation>, was: Memory, dir: Frame, d: int, f: Frame)
    requires 0 <= d < 1023 && InstallingCache(tlb, was, dir, d, f)
    ensures InstallingCache(tlb[WINDOW_PAGE + d := Translation(f, true, false)], was, dir, d, f)
    ensures InstallingCache(tlb - {WINDOW_PAGE + d}, was, dir, d, f)
    ensures WINDOW_PAGE + d in tlb ==> tlb[WINDOW_PAGE + d] == Translation(f, true, false)
  {
  }

  lemma CacheAfterDirectoryStore(tlb: map<Page, Translation>, was: Memory, dir: Frame, d: int, f: Frame)
    requires DirectoryOk(was, dir) && Coherent(tlb, was, dir)
    requires 0 <= d < 1023 && !HasTable(was, dir, d)
    ensures InstallingCache(tlb[WINDOW_PAGE + 1023 := Translation(dir, true, false)] - {WINDOW_PAGE + d}, was, dir, d, f)
  {
    DirectoryWindow(was, dir, d);
    var filled := tlb[WINDOW_PAGE + 1023 := Translation(dir, true, false)];
    assert Coherent(filled, was, dir);
    CacheBeforeInstall(filled, was, dir, d, f);
    CacheWindow(filled, was, dir, d, f);
  }

  lemma InstallingCoherent(tlb: map<Page, Translation>, was: Memory, mem: Memory, dir: Frame,
                           owner: Owners, d: int, f: Frame)
    requires DirectoryOk(was, dir) && TablesOwned(was, dir, owner)
    requires 0 <= d < 1023 && owner[f] == Free && Installing(was, mem, dir, d, f)
    requires InstallingCache(tlb, was, dir, d, f)
    ensures Coherent(tlb, mem, dir)
  {
    forall q: Page | q in tlb
      ensures Walk(mem, dir, q) == Some(tlb[q])
    {
      if q == WINDOW_PAGE + d {
        InstallingWindow(was, mem, dir, owner, d, f, 0);
      } else {
        InstallingEntries(was, mem, dir, owner, d, f, q);
      }
    }
  }

  // ----- What an operation leaves alone -----

  /** Outside the pages lo..hi no entry changes, and no word of a mapped data page changes. */
  ghost predicate Keeps(mem: Memory, mem': Memory, dir: Frame, lo: int, hi: int) {
    && (forall q: Page :: q < WINDOW_PAGE && !(lo <= q < hi) ==> Pte(mem', dir, q) == Pte(mem, dir, q))
    && (forall a: Word :: a % 4 == 0 && DataPage(a / 4096) && !(lo <= a / 4096 < hi) && IsMapped(mem, dir, a / 4096) ==>
          Peek(mem', dir, a) == Peek(mem, dir, a))
  }

  lemma KeepsSame(mem: Memory, dir: Frame, lo: int, hi: int)
    ensures Keeps(mem, mem, dir, lo, hi)
  {
  }

  lemma KeepsTrans(m0: Memory, m1: Memory, m2: Memory, dir: Frame, lo: int, hi: int)
    requires Keeps(m0, m1, dir, lo, hi) && Keeps(m1, m2, dir, lo, hi)
    ensures Keeps(m0, m2, dir, lo, hi)
  {
  }

  lemma KeepsWider(mem: Memory, mem': Memory, dir: Frame, lo: int, hi: int, lo': int, hi': int)
    requires Keeps(mem, mem', dir, lo, hi) && (lo >= hi || (lo' <= lo && hi <= hi'))
    ensures Keeps(mem, mem', dir, lo', hi')
  {
  }

  lemma SlotInFrame(mem: Memory, dir: Frame, a: Word)
    ensures Slot(mem, dir, a) / 1024 == FrameAt(mem, dir, a / 4096)
    ensures Slot(mem, dir, a) % 1024 == a % 4096 / 4
  {
  }

  lemma InstallKeeps(mem: Memory, dir: Frame, owner: Owners, d: int, f: Frame)
    requires Inv(mem, dir, owner)
    requires 0 <= d < 1023 && !HasTable(mem, dir, d) && owner[f] == Free
    ensures Keeps(mem, WithTable(mem, dir, d, f), dir, 0, 0)
  {
    hide DirectoryOk, TablesOwned, PagesOwned, Slot, WithTable;
    var mem' := WithTable(mem, dir, d, f);
    WithTableEffect(mem, dir, owner, d, f);
    WithTableInstalls(mem, dir, d, f);
    forall a: Word | a % 4 == 0 && DataPage(a / 4096) && IsMapped(mem, dir, a / 4096)
      ensures Peek(mem', dir, a) == Peek(mem, dir, a)
    {
      SameSlot(mem, mem', dir, a);
      SlotInFrame(mem, dir, a);
      InFrame(dir, d);
      DataFrame(mem, dir, owner, a / 4096);
    }
  }

  lemma WithTableInstalls(mem: Memory, dir: Frame, d: int, f: Frame)
    requires 0 <= d < 1023
    ensures Installing(mem, WithTable(mem, dir, d, f), dir, d, f)
  {
  }

  /** A data page lies in a data frame, which is neither the directory nor a table. */
  lemma DataFrame(mem: Memory, dir: Frame, owner: Owners, p: Page)
    requires Inv(mem, dir, owner) && DataPage(p) && IsMapped(mem, dir, p)
    ensures Data(owner[FrameAt(mem, dir, p)])
    ensures FrameAt(mem, dir, p) != dir
    ensures forall d :: 0 <= d < 1023 && HasTable(mem, dir, d) ==> TableOf(mem, dir, d) != FrameAt(mem, dir, p)
  {
  }

  lemma EntryKeeps(mem: Memory, dir: Frame, owner: Owners, p: Page, e: Word)
    requires Inv(mem, dir, owner)
    requires p < WINDOW_PAGE && HasTable(mem, dir, p / 1024)
    ensures Keeps(mem, WithEntry(mem, dir, p, e), dir, p, p + 1)
  {
    hide DirectoryOk, TablesOwned, PagesOwned, Slot;
    var mem' := WithEntry(mem, dir, p, e);
    WithEntryEffect(mem, dir, owner, p, e);
    forall a: Word | a % 4 == 0 && DataPage(a / 4096) && a / 4096 != p && IsMapped(mem, dir, a / 4096)
      ensures Peek(mem', dir, a) == Peek(mem, dir, a)
    {
      SameSlot(mem, mem', dir, a);
      SlotInFrame(mem, dir, a);
      InFrame(TableOf(mem, dir, p / 1024), p % 1024);
      DataFrame(mem, dir, owner, a / 4096);
    }
  }

  lemma MappedHasTable(mem: Memory, dir: Frame, p: Page)
    ensures IsMapped(mem, dir, p) ==> HasTable(mem, dir, p / 1024)
  {
  }

  /** The words of page `p` read the same. */
  ghost predicate SameWords(mem: Memory, mem': Memory, dir: Frame, p: Page) {
    forall a: Word :: a % 4 == 0 && a / 4096 == p ==> Peek(mem', dir, a) == Peek(mem, dir, a)
  }

  /** New flags for a mapped page leave its words alone. */
  lemma FlagsKeepWords(mem: Memory, dir: Frame, owner: Owners, p: Page, e: Word)
    requires Inv(mem, dir, owner)
    requires DataPage(p) && IsMapped(mem, dir, p) && FrameOf(e) == FrameAt(mem, dir, p)
    ensures SameWords(mem, WithEntry(mem, dir, p, e), dir, p)
  {
    var mem' := WithEntry(mem, dir, p, e);
    WithEntryEffect(mem, dir, owner, p, e);
    forall a: Word | a % 4 == 0 && a / 4096 == p
      ensures Peek(mem', dir, a) == Peek(mem, dir, a)
    {
      SlotInFrame(mem, dir, a);
    }
  }

  /** The first `n` words of page `p` are zero. */
  ghost predicate ZeroUpTo(mem: Memory, dir: Frame, p: Page, n: int) {
    forall a: Word :: a % 4 == 0 && a / 4096 == p && a % 4096 < 4 * n ==> Peek(mem, dir, a) == 0
  }

  lemma ZeroNone(mem: Memory, dir: Frame, p: Page)
    ensures ZeroUpTo(mem, dir, p, 0)
  {
  }

  lemma ZeroStep(mem: Memory, mem': Memory, dir: Frame, p: Page, n: int)
    requires 0 <= n < 1024 && DataPage(p) && IsMapped(mem, dir, p)
    requires ZeroUpTo(mem, dir, p, n) && Written(mem, mem', dir, p * 4096 + 4 * n, 0)
    ensures ZeroUpTo(mem', dir, p, n + 1)
  {
    hide Peek, Pte;
    forall a: Word | a % 4 == 0 && a / 4096 == p && a % 4096 < 4 * (n + 1)
      ensures Peek(mem', dir, a) == 0
    {
      assert a % 4096 < 4 * n || a == p * 4096 + 4 * n;
    }
  }

  lemma WrittenKeeps(mem: Memory, mem': Memory, dir: Frame, a: Word, w: Word)
    requires SameTables(mem, mem', dir) && Written(mem, mem', dir, a, w)
    ensures Keeps(mem, mem', dir, a / 4096, a / 4096 + 1)
  {
  }

  lemma SlotsDistinct(mem: Memory, dir: Frame, owner: Owners, a: Word, b: Word)
    requires Inv(mem, dir, owner)
    requires a % 4 == 0 && DataPage(a / 4096) && IsMapped(mem, dir, a / 4096)
    requires b % 4 == 0 && DataPage(b / 4096) && IsMapped(mem, dir, b / 4096)
    ensures Slot(mem, dir, a) == Slot(mem, dir, b) ==> a == b
  {
    hide DirectoryOk, TablesOwned, PagesOwned, Slot, Pte;
    SlotInFrame(mem, dir, a);
    SlotInFrame(mem, dir, b);
    assert a == a / 4096 * 4096 + a % 4096 / 4 * 4;
    assert b == b / 4096 * 4096 + b % 4096 / 4 * 4;
    FramesDistinct(mem, dir, owner, a / 4096, b / 4096);
  }

  lemma SameSlot(mem: Memory, mem': Memory, dir: Frame, a: Word)
    requires Pte(mem', dir, a / 4096) == Pte(mem, dir, a / 4096)
    ensures Slot(mem', dir, a) == Slot(mem, dir, a)
  {
  }

  /** A data store changes no table. */
  lemma DataStoreInv(mem: Memory, dir: Frame, owner: Owners, a: Word, w: Word)
    requires Inv(mem, dir, owner)
    requires DataPage(a / 4096) && IsMapped(mem, dir, a / 4096)
    ensures Inv(mem[Slot(mem, dir, a) := w], dir, owner)
    ensures SameTables(mem, mem[Slot(mem, dir, a) := w], dir)
  {
    SlotInFrame(mem, dir, a);
    DataStoreEffect(mem, dir, owner, Slot(mem, dir, a), w);
    SameTablesInv(mem, mem[Slot(mem, dir, a) := w], dir, owner);
  }

  /** A store through a data page changes that word and no other word of any data page. */
  lemma DataStoreReads(mem: Memory, dir: Frame, owner: Owners, a: Word, w: Word)
    requires Inv(mem, dir, owner)
    requires a % 4 == 0 && DataPage(a / 4096) && IsMapped(mem, dir, a / 4096)
    ensures Written(mem, mem[Slot(mem, dir, a) := w], dir, a, w)
  {
    hide Slot, Inv, Pte, Pde;
    var mem' := mem[Slot(mem, dir, a) := w];
    DataStoreInv(mem, dir, owner, a, w);
    forall b: Word | b % 4 == 0 && DataPage(b / 4096) && IsMapped(mem, dir, b / 4096)
      ensures Peek(mem', dir, b) == if b == a then w else Peek(mem, dir, b)
    {
      SameSlot(mem, mem', dir, b);
      SlotsDistinct(mem, dir, owner, a, b);
    }
  }

  /** All that changes in the data pages when the word at `a` becomes `w`. */
  ghost predicate Written(mem: Memory, mem': Memory, dir: Frame, a: Word, w: Word) {
    forall b: Word :: b % 4 == 0 && DataPage(b / 4096) && IsMapped(mem, dir, b / 4096) ==>
      Peek(mem', dir, b) == if b == a then w else Peek(mem, dir, b)
  }

  /** All that changes in the data pages when the byte at `a` becomes `b`. */
  ghost predicate ByteWritten(mem: Memory, mem': Memory, dir: Frame, a: Word, b: Byte) {
    Written(mem, mem', dir, Aligned(a), WithByte(Peek(mem, dir, a), a % 4, b))
  }

  /** Read byte by byte, a byte store changes its own byte and no other. */
  lemma ByteWrittenReads(mem: Memory, mem': Memory, dir: Frame, a: Word, b: Byte, c: Word)
    requires ByteWritten(mem, mem', dir, a, b) && DataPage(c / 4096) && IsMapped(mem, dir, c / 4096)
    ensures PeekByte(mem', dir, c) == if c == a then b else PeekByte(mem, dir, c)
  {
    hide Peek, Slot, ByteOf, PutByte;
    AlignedWord(mem, dir, a);
    AlignedWord(mem, dir, c);
    AlignedWord(mem', dir, c);
    ByteAfterPut(Peek(mem, dir, a), a % 4, b, c % 4);
  }

  // ----- Getting a table -----

  /** The table of slot `d`, installed in frame `f` if it was missing. */
  lemma Install(mem: Memory, dir: Frame, owner: Owners, d: int, f: Frame)
    requires Inv(mem, dir, owner)
    requires 0 <= d < 1023 && !HasTable(mem, dir, d) && owner[f] == Free
    ensures var mem' := WithTable(mem, dir, d, f);
      && Inv(mem', dir, owner[f := Table(d)])
      && HasTable(mem', dir, d)
      && TableInstalled(mem, mem', dir, d, f)
      && Keeps(mem, mem', dir, 0, 0)
  {
    WithTableEffect(mem, dir, owner, d, f);
    InstallInv(mem, WithTable(mem, dir, d, f), dir, owner, d, f);
    InstallKeeps(mem, dir, owner, d, f);
    TableEntry(d, f);
  }

  // ----- The plain page map -----

  /** The page tables as a plain map from page to entry, the table window aside. */
  ghost function PageMap(mem: Memory, dir: Frame): map<Page, Word> {
    map p: Page | p < WINDOW_PAGE && IsMapped(mem, dir, p) :: Pte(mem, dir, p)
  }

  /** An operation that keeps everything but page `p` updates the plain map at `p` alone. */
  lemma PageMapUpdate(mem: Memory, mem': Memory, dir: Frame, p: Page)
    requires p < WINDOW_PAGE && Keeps(mem, mem', dir, p, p + 1)
    ensures PageMap(mem', dir) == if IsMapped(mem', dir, p)
                                  then PageMap(mem, dir)[p := Pte(mem', dir, p)]
                                  else PageMap(mem, dir) - {p}
  {
    hide Pte, Peek;
  }

  /**
   * User isolation: whatever flags the table entries carry, an address that
   * user code can reach lies in user space.
   */
  lemma UserIsolation(mem: Memory, dir: Frame, owner: Owners, a: Word)
    requires Inv(mem, dir, owner)
    requires Walk(mem, dir, a / 4096).Some? && Walk(mem, dir, a / 4096).value.user
    ensures 0x0040_0000 <= a < 0xC000_0000
  {
    SlotIsUniform(a);
    RecursiveEntry(dir);
  }
}
