/**
 * The paging operations. Every access to a table is a virtual load or store
 * through the recursive window, so each goes through the tables it edits and
 * through the translation cache.
 */
module Paging {
  import opened Options
  import opened Layout
  import opened Bytes
  import opened Mmu
  import opened PageTables
  import Pmm

  const KERNEL_PAGE: Word := 3
  const USER_PAGE: Word := 7

  /** `flags | PRESENT`. */
  function OrPresent(flags: Word): Word
    requires flags < 4096
  {
    if Present(flags) then flags else flags + 1
  }

  /** `flags | WRITABLE`. */
  function OrWritable(flags: Word): Word
    requires flags < 4096
  {
    if Writable(flags) then flags else flags + 2
  }

  /** `(frame & FRAME) | flags | PRESENT`. */
  function Entry(frame: Word, flags: Word): Word
    requires flags < 4096
  {
    frame / 4096 * 4096 + OrPresent(flags)
  }

  lemma EntryMeans(frame: Word, flags: Word)
    requires flags < 4096
    ensures FrameOf(Entry(frame, flags)) == frame / 4096
    ensures Present(Entry(frame, flags))
    ensures Writable(Entry(frame, flags)) == Writable(flags)
    ensures UserBit(Entry(frame, flags)) == UserBit(flags)
    ensures Entry(frame, flags) % 4096 / 2 == flags / 2
  {
    OrPresentMeans(flags);
    EntryParts(frame / 4096, OrPresent(flags));
  }

  lemma OrPresentMeans(flags: Word)
    requires flags < 4096
    ensures OrPresent(flags) < 4096 && Present(OrPresent(flags))
    ensures Writable(OrPresent(flags)) == Writable(flags) && UserBit(OrPresent(flags)) == UserBit(flags)
  {
  }

  lemma OrWritableMeans(flags: Word)
    requires flags < 4096
    ensures OrWritable(flags) < 4096 && Writable(OrWritable(flags))
    ensures UserBit(OrWritable(flags)) == UserBit(flags)
    ensures OrWritable(flags) / 4 == flags / 4 && OrWritable(flags) % 2 == flags % 2
    ensures Writable(flags) ==> OrWritable(flags) == flags
  {
  }

  /** A user page in kernel space, which `map_page` refuses. */
  predicate UserInKernel(addr: Word, flags: Word): (r: bool)
    ensures r <==> UserBit(flags) && !(0x0040_0000 <= addr < 0xC000_0000)
  {
    UserBit(flags) && IsKernel(addr)
  }

  /** No frame for page `p`, or none left for the table it needs. */
  ghost predicate FewFrames(mem: Memory, dir: Frame, free: set<Frame>, p: Page) {
    free == {} || (!HasTable(mem, dir, p / 1024) && free - {Pmm.Lowest(free)} == {})
  }

  /** After one entry is written and its page forgotten, the cache agrees with the tables again. */
  lemma EntryCoherent(tlb: map<Page, Translation>, mem: Memory, mem': Memory, dir: Frame, p: Page, e: Word)
    requires Coherent(tlb, mem, dir) && EntryWritten(mem, mem', dir, p, e)
    ensures Coherent(tlb - {p}, mem', dir)
  {
    forall q: Page | q in tlb - {p}
      ensures Walk(mem', dir, q) == Some((tlb - {p})[q])
    {
      assert Pde(mem', dir, q / 1024) == Pde(mem, dir, q / 1024);
      assert Pte(mem', dir, q) == Pte(mem, dir, q);
    }
  }

  lemma SameTablesCoherent(tlb: map<Page, Translation>, mem: Memory, mem': Memory, dir: Frame)
    requires Coherent(tlb, mem, dir) && SameTables(mem, mem', dir)
    ensures Coherent(tlb, mem', dir)
  {
    forall q: Page | q in tlb
      ensures Walk(mem', dir, q) == Some(tlb[q])
    {
      assert Pde(mem', dir, q / 1024) == Pde(mem, dir, q / 1024);
      assert Pte(mem', dir, q) == Pte(mem, dir, q);
    }
  }

  class Vm {
    const mmu: Mmu
    const pmm: Pmm.Pmm
    /** Who holds each frame. */
    ghost var owner: Owners

    ghost predicate Valid()
      reads this, mmu, pmm, pmm.words
    {
      && mmu.wp
      && pmm.Valid()
      && LedgerOk(pmm.free, pmm.all, owner)
      && Inv(mmu.mem, mmu.dir, owner)
      && Coherent(mmu.tlb, mmu.mem, mmu.dir)
    }

    constructor (mmu: Mmu, pmm: Pmm.Pmm, ghost owner: Owners)
      ensures this.mmu == mmu && this.pmm == pmm && this.owner == owner
    {
      this.mmu, this.pmm, this.owner := mmu, pmm, owner;
    }

    ghost function Books(): Ledger
      reads this, pmm
    {
      Ledger(pmm.free, owner)
    }

    /** The abstract state: a plain map from page to entry. */
    ghost function Pages(): map<Page, Word>
      reads mmu
    {
      PageMap(mmu.mem, mmu.dir)
    }

    /** `pmm::alloc_frame`, with the frame entered in the ledger as handed out. */
    method TakeFrame() returns (r: Option<Word>)
      requires Valid()
      modifies this`owner, pmm`free, pmm`available, pmm.words
      ensures Valid()
      ensures r.None? <==> old(pmm.free) == {}
      ensures r.None? ==> Books() == old(Books())
      ensures r.Some? ==>
        r.value == Pmm.Lowest(old(pmm.free)) * 4096 && Books() == Issue(old(Books()), Taken)
    {
      hide Inv, Coherent, LedgerOk, Pmm.Lowest;
      r := pmm.AllocFrame();
      if r.Some? {
        ghost var f := Pmm.Lowest(old(pmm.free));
        IssueOk(old(Books()), pmm.all, Taken);
        MoveInv(mmu.mem, mmu.dir, owner, f, Taken);
        owner := owner[f := Taken];
      }
    }

    /** `pmm::free_frame` of a frame that is handed out and not mapped. */
    method GiveFrame(phys: Word)
      requires Valid()
      requires owner[phys / 4096] == Taken
      modifies this`owner, pmm`free, pmm`available, pmm.words
      ensures Valid()
      ensures pmm.free == old(pmm.free) + {phys / 4096}
      ensures owner == old(owner)[phys / 4096 := Free]
    {
      hide Inv, Coherent, LedgerOk, Pmm.Lowest;
      ghost var f := phys / 4096;
      MoveInv(mmu.mem, mmu.dir, owner, f, Free);
      GiveOk(Books(), pmm.all, f);
      pmm.FreeFrame(phys);
      owner := owner[f := Free];
    }

    method DirectoryEntry(d: int) returns (e: Word)
      requires Valid()
      requires 0 <= d < 1024
      modifies mmu`tlb
      ensures Valid()
      ensures e == Pde(mmu.mem, mmu.dir, d)
    {
      hide DirectoryOk, TablesOwned, PagesOwned, LedgerOk;
      DirectoryWindow(mmu.mem, mmu.dir, d);
      e := mmu.Load(EntryAddress(1023, d));
    }

    method ReadEntry(d: int, t: int) returns (e: Word)
      requires Valid()
      requires 0 <= d < 1024 && 0 <= t < 1024 && HasTable(mmu.mem, mmu.dir, d)
      modifies mmu`tlb
      ensures Valid()
      ensures e == mmu.mem[TableOf(mmu.mem, mmu.dir, d) * 1024 + t]
    {
      hide DirectoryOk, TablesOwned, PagesOwned, LedgerOk;
      AnyWindow(mmu.mem, mmu.dir, d, t);
      e := mmu.Load(EntryAddress(d, t));
    }

    /** Install frame `f` in slot `d`, forget the window page, and zero the table through the window. */
    method InstallTable(d: int, f: Frame, flags: Word)
      requires mmu.wp && Inv(mmu.mem, mmu.dir, owner) && Coherent(mmu.tlb, mmu.mem, mmu.dir)
      requires 0 <= d < 1023 && !HasTable(mmu.mem, mmu.dir, d) && owner[f] == Free && flags == TableFlags(d)
      modifies mmu`mem, mmu`tlb
      ensures mmu.mem == WithTable(old(mmu.mem), mmu.dir, d, f)
      ensures Coherent(mmu.tlb, mmu.mem, mmu.dir)
    {
      hide DirectoryOk, TablesOwned, PagesOwned, LedgerOk, Filling, Installing, InstallingCache, WithTable;
      ghost var was, dir := mmu.mem, mmu.dir;
      DirectoryWindow(was, dir, d);
      FillStart(was, dir, d, f);
      mmu.Store(EntryAddress(1023, d), f * 4096 + flags);
      EntryAddressParts(d, 0);
      mmu.Invalidate(EntryAddress(d, 0));
      CacheAfterDirectoryStore(old(mmu.tlb), was, dir, d, f);
      for i := 0 to 1024
        invariant Filling(was, mmu.mem, dir, d, f, i)
        invariant InstallingCache(mmu.tlb, was, dir, d, f)
      {
        FillingIsInstalling(was, mmu.mem, dir, d, f, i);
        InstallingWindow(was, mmu.mem, dir, owner, d, f, i);
        CacheWindow(mmu.tlb, was, dir, d, f);
        FillStep(was, mmu.mem, dir, d, f, i);
        mmu.Store(EntryAddress(d, i), 0);
      }
      FilledIsWithTable(was, mmu.mem, dir, d, f);
      FillingIsInstalling(was, mmu.mem, dir, d, f, 1024);
      InstallingCoherent(mmu.tlb, was, mmu.mem, dir, owner, d, f);
    }

    /** Give slot `d` an empty table, from the lowest free frame. */
    method CreateTable(d: int, flags: Word) returns (ok: bool)
      requires Valid() && 0 <= d < 1023
      requires !HasTable(mmu.mem, mmu.dir, d) && flags == TableFlags(d)
      modifies this`owner, mmu`mem, mmu`tlb, pmm`free, pmm`available, pmm.words
      ensures Valid()
      ensures ok <==> old(pmm.free) != {}
      ensures !ok ==> mmu.mem == old(mmu.mem) && Books() == old(Books())
      ensures ok ==> Books() == Issue(old(Books()), Table(d))
      ensures ok ==> mmu.mem == WithTable(old(mmu.mem), mmu.dir, d, Pmm.Lowest(old(pmm.free)))
    {
      hide Inv, Coherent, WithTable, LedgerOk, Pde, Pte, TableInstalled, Keeps, Pmm.Lowest;
      var frame := pmm.AllocFrame();
      if frame.None? {
        return false;
      }
      ghost var f := Pmm.Lowest(old(pmm.free));
      assert frame.value / 4096 == f;
      IssueOk(old(Books()), pmm.all, Table(d));
      Install(mmu.mem, mmu.dir, owner, d, f);
      InstallTable(d, frame.value / 4096, flags);
      owner := owner[f := Table(d)];
      return true;
    }

    /** The address of the entry that governs `addr`, creating its table on demand. */
    method GetPage(addr: Word, create: bool) returns (r: Option<Word>)
      requires Valid()
      modifies this`owner, mmu`mem, mmu`tlb, pmm`free, pmm`available, pmm.words
      ensures Valid()
      ensures r.None? <==> !old(HasTable(mmu.mem, mmu.dir, addr / 4096 / 1024)) && (!create || old(pmm.free) == {})
      ensures r.None? || !create ==> mmu.mem == old(mmu.mem) && Books() == old(Books())
      ensures r.Some? ==>
        && r.value == EntryAddress(addr / 4096 / 1024, addr / 4096 % 1024)
        && HasTable(mmu.mem, mmu.dir, addr / 4096 / 1024)
        && Books() == Tabled(old(Books()), old(HasTable(mmu.mem, mmu.dir, addr / 4096 / 1024)), addr / 4096 / 1024)
      ensures Pte(mmu.mem, mmu.dir, addr / 4096) == old(Pte(mmu.mem, mmu.dir, addr / 4096))
      ensures old(HasTable(mmu.mem, mmu.dir, addr / 4096 / 1024)) ==> mmu.mem == old(mmu.mem)
      ensures Keeps(old(mmu.mem), mmu.mem, mmu.dir, 0, 0)
    {
      hide Inv, Coherent, WithTable, Keeps, LedgerOk, Pmm.Lowest;
      SlotIsUniform(addr);
      KeepsSame(mmu.mem, mmu.dir, 0, 0);
      var d := addr / 0x40_0000;
      var pde := DirectoryEntry(d);
      if !Present(pde) {
        if !create {
          return None;
        }
        WindowSlot(mmu.mem, mmu.dir, owner);
        var flags := if IsKernel(addr) then KERNEL_PAGE else USER_PAGE;
        if pmm.free != {} {
          IssueOk(Books(), pmm.all, Table(d));
          Install(mmu.mem, mmu.dir, owner, d, Pmm.Lowest(pmm.free));
        }
        var ok := CreateTable(d, flags);
        if !ok {
          return None;
        }
      }
      return Some(EntryAddress(d, addr / 4096 % 1024));
    }

    /** The store to an entry through the window, and the `invlpg` that follows it. */
    method WriteEntry(entry: Word, addr: Word, e: Word)
      requires mmu.wp && Inv(mmu.mem, mmu.dir, owner) && Coherent(mmu.tlb, mmu.mem, mmu.dir)
      requires addr / 4096 < WINDOW_PAGE && HasTable(mmu.mem, mmu.dir, addr / 4096 / 1024)
      requires entry == EntryAddress(addr / 4096 / 1024, addr / 4096 % 1024)
      modifies mmu`mem, mmu`tlb
      ensures EntryWritten(old(mmu.mem), mmu.mem, mmu.dir, addr / 4096, e)
      ensures Keeps(old(mmu.mem), mmu.mem, mmu.dir, addr / 4096, addr / 4096 + 1)
      ensures DataPage(addr / 4096) && old(IsMapped(mmu.mem, mmu.dir, addr / 4096)) ==>
        FrameOf(e) == old(FrameAt(mmu.mem, mmu.dir, addr / 4096)) ==>
        SameWords(old(mmu.mem), mmu.mem, mmu.dir, addr / 4096)
      ensures Coherent(mmu.tlb, mmu.mem, mmu.dir)
    {
      hide DirectoryOk, TablesOwned, PagesOwned, EntryWritten, Keeps, SameWords, Pte, Pde, Walk, Slot;
      ghost var mem, dir, p := mmu.mem, mmu.dir, addr / 4096;
      ghost var filled := mmu.tlb[WINDOW_PAGE + p / 1024 := Translation(TableOf(mem, dir, p / 1024), true, false)];
      TableWindow(mem, dir, p / 1024, p % 1024);
      assert Coherent(filled, mem, dir);
      WithEntryEffect(mem, dir, owner, p, e);
      EntryKeeps(mem, dir, owner, p, e);
      if DataPage(p) && IsMapped(mem, dir, p) && FrameOf(e) == FrameAt(mem, dir, p) {
        FlagsKeepWords(mem, dir, owner, p, e);
      }
      EntryCoherent(filled, mem, WithEntry(mem, dir, p, e), dir, p, e);
      mmu.Store(entry, e);
      mmu.Invalidate(addr);
    }

    /** The entry that governs a page whose table exists. */
    method LoadEntry(entry: Word, addr: Word) returns (e: Word)
      requires Valid() && HasTable(mmu.mem, mmu.dir, addr / 4096 / 1024)
      requires entry == EntryAddress(addr / 4096 / 1024, addr / 4096 % 1024)
      modifies mmu`tlb
      ensures Valid()
      ensures e == Pte(mmu.mem, mmu.dir, addr / 4096)
    {
      hide DirectoryOk, TablesOwned, PagesOwned, LedgerOk;
      AnyWindow(mmu.mem, mmu.dir, addr / 4096 / 1024, addr / 4096 % 1024);
      e := mmu.Load(entry);
    }

    /** The present entry of `addr`, or nothing where no page is mapped. */
    method EntryOf(addr: Word) returns (r: Option<Word>)
      requires Valid()
      modifies this`owner, mmu`mem, mmu`tlb, pmm`free, pmm`available, pmm.words
      ensures Valid()
      ensures mmu.mem == old(mmu.mem) && Books() == old(Books())
      ensures r == if IsMapped(mmu.mem, mmu.dir, addr / 4096) then Some(Pte(mmu.mem, mmu.dir, addr / 4096)) else None
    {
      hide Inv, Coherent, LedgerOk, Keeps;
      var entry := GetPage(addr, false);
      if entry.None? {
        return None;
      }
      var value := LoadEntry(entry.value, addr);
      if !Present(value) {
        return None;
      }
      return Some(value);
    }

    /** The physical address behind `addr`, exactly when the hardware walk finds one. */
    method Translate(addr: Word) returns (r: Option<Word>)
      requires Valid()
      modifies this`owner, mmu`mem, mmu`tlb, pmm`free, pmm`available, pmm.words
      ensures Valid()
      ensures mmu.mem == old(mmu.mem) && Books() == old(Books())
      ensures r.Some? <==> Walk(mmu.mem, mmu.dir, addr / 4096).Some?
      ensures r.Some? ==> r.value == Walk(mmu.mem, mmu.dir, addr / 4096).value.frame * 4096 + addr % 4096
    {
      hide Inv, Coherent, LedgerOk, Pmm.Lowest;
      var entry := EntryOf(addr);
      if entry.None? {
        return None;
      }
      return Some(entry.value - entry.value % 4096 + addr % 4096);
    }

    /** Write the entry of an absent page with a frame held for it; `was` is the memory before its table. */
    method MakeMapping(entry: Word, addr: Word, e: Word, ghost was: Memory)
      requires Valid() && DataPage(addr / 4096) && HasTable(mmu.mem, mmu.dir, addr / 4096 / 1024)
      requires entry == EntryAddress(addr / 4096 / 1024, addr / 4096 % 1024)
      requires !IsMapped(mmu.mem, mmu.dir, addr / 4096) && Present(e)
      requires owner[FrameOf(e)] == Taken || owner[FrameOf(e)] == Carved(addr / 4096)
      requires Keeps(was, mmu.mem, mmu.dir, 0, 0)
      modifies this`owner, mmu`mem, mmu`tlb
      ensures Valid()
      ensures Books() == Claim(old(Books()), FrameOf(e), addr / 4096)
      ensures Pte(mmu.mem, mmu.dir, addr / 4096) == e && HasTable(mmu.mem, mmu.dir, addr / 4096 / 1024)
      ensures Keeps(was, mmu.mem, mmu.dir, addr / 4096, addr / 4096 + 1)
      ensures Pages() == PageMap(was, mmu.dir)[addr / 4096 := e]
    {
      hide Inv, Coherent, Keeps, LedgerOk, PageMap;
      WriteEntry(entry, addr, e);
      MapInv(old(mmu.mem), mmu.mem, mmu.dir, owner, addr / 4096, e);
      ClaimOk(Books(), pmm.all, FrameOf(e), addr / 4096);
      owner := Claim(Books(), FrameOf(e), addr / 4096).owner;
      KeepsWider(was, old(mmu.mem), mmu.dir, 0, 0, addr / 4096, addr / 4096 + 1);
      KeepsTrans(was, old(mmu.mem), mmu.mem, mmu.dir, addr / 4096, addr / 4096 + 1);
      PageMapUpdate(was, mmu.mem, mmu.dir, addr / 4096);
    }

    /** The caller holds `frame` for page `p`, or the page is refused before that matters. */
    ghost predicate MayMap(addr: Word, frame: Word, flags: Word)
      reads this, mmu
    {
      || UserInKernel(addr, flags)
      || IsMapped(mmu.mem, mmu.dir, addr / 4096)
      || (DataPage(addr / 4096)
          && (owner[frame / 4096] == Taken || owner[frame / 4096] == Carved(addr / 4096)))
    }

    /**
     * Map `addr` to `frame`. Refuses a user page in kernel space, a page that is
     * mapped already, and a page whose table cannot be made; a refusal changes
     * nothing.
     */
    method MapPage(addr: Word, frame: Word, flags: Word) returns (ok: bool)
      requires Valid() && addr / 4096 < WINDOW_PAGE && flags < 4096
      requires MayMap(addr, frame, flags)
      modifies this`owner, mmu`mem, mmu`tlb, pmm`free, pmm`available, pmm.words
      ensures Valid()
      ensures ok <==>
        && !UserInKernel(addr, flags)
        && !old(IsMapped(mmu.mem, mmu.dir, addr / 4096))
        && (old(HasTable(mmu.mem, mmu.dir, addr / 4096 / 1024)) || old(pmm.free) != {})
      ensures !ok ==> mmu.mem == old(mmu.mem) && Books() == old(Books())
      ensures ok ==>
        && Pages() == old(Pages())[addr / 4096 := Entry(frame, flags)]
        && Pte(mmu.mem, mmu.dir, addr / 4096) == Entry(frame, flags)
        && Keeps(old(mmu.mem), mmu.mem, mmu.dir, addr / 4096, addr / 4096 + 1)
        && HasTable(mmu.mem, mmu.dir, addr / 4096 / 1024)
        && Books() == Claim(
             Tabled(old(Books()), old(HasTable(mmu.mem, mmu.dir, addr / 4096 / 1024)), addr / 4096 / 1024),
             frame / 4096, addr / 4096)
    {
      hide Inv, Coherent, Keeps, LedgerOk, Pte, Pde, Entry, UserInKernel, EntryAddress, Pmm.Lowest, PageMap;
      if UserInKernel(addr, flags) {
        return false;
      }
      if pmm.free != {} {
        IssueOk(Books(), pmm.all, Table(0));
      }
      var entry := GetPage(addr, true);
      if entry.None? {
        return false;
      }
      var value := LoadEntry(entry.value, addr);
      if Present(value) {
        MappedHasTable(old(mmu.mem), mmu.dir, addr / 4096);
        return false;
      }
      EntryMeans(frame, flags);
      MakeMapping(entry.value, addr, Entry(frame, flags), old(mmu.mem));
      return true;
    }

    /** Clear the entry of a mapped page and hand its frame to the caller. */
    method UnmapPage(addr: Word) returns (r: Option<Word>)
      requires Valid() && addr / 4096 < WINDOW_PAGE
      modifies this`owner, mmu`mem, mmu`tlb, pmm`free, pmm`available, pmm.words
      ensures Valid()
      ensures r.Some? <==> old(IsMapped(mmu.mem, mmu.dir, addr / 4096))
      ensures r.None? ==> mmu.mem == old(mmu.mem) && Books() == old(Books())
      ensures r.Some? ==>
        && r.value == old(FrameAt(mmu.mem, mmu.dir, addr / 4096)) * 4096
        && Books() == Release(old(Books()), r.value / 4096, addr / 4096)
        && Pages() == old(Pages()) - {addr / 4096}
        && !IsMapped(mmu.mem, mmu.dir, addr / 4096)
        && Keeps(old(mmu.mem), mmu.mem, mmu.dir, addr / 4096, addr / 4096 + 1)
    {
      hide Inv, Coherent, Keeps, LedgerOk, Pmm.Lowest, PageMap;
      var entry := GetPage(addr, false);
      if entry.None? {
        return None;
      }
      var value := LoadEntry(entry.value, addr);
      if !Present(value) {
        return None;
      }
      WriteEntry(entry.value, addr, 0);
      PageMapUpdate(old(mmu.mem), mmu.mem, mmu.dir, addr / 4096);
      UnmapInv(old(mmu.mem), mmu.mem, mmu.dir, owner, addr / 4096);
      ClaimOk(Books(), pmm.all, FrameOf(value), addr / 4096);
      owner := Release(Books(), FrameOf(value), addr / 4096).owner;
      assert value - value % 4096 == FrameOf(value) * 4096;
      return Some(value - value % 4096);
    }

    /** Replace the flags of a mapped page; its frame stays. */
    method Protect(addr: Word, flags: Word) returns (ok: bool)
      requires Valid() && addr / 4096 < WINDOW_PAGE && flags < 4096
      modifies this`owner, mmu`mem, mmu`tlb, pmm`free, pmm`available, pmm.words
      ensures Valid() && Books() == old(Books())
      ensures ok <==> old(IsMapped(mmu.mem, mmu.dir, addr / 4096))
      ensures !ok ==> mmu.mem == old(mmu.mem)
      ensures ok ==>
        && Pte(mmu.mem, mmu.dir, addr / 4096) == Entry(old(FrameAt(mmu.mem, mmu.dir, addr / 4096)) * 4096, flags)
        && Pages() == old(Pages())[addr / 4096 := Pte(mmu.mem, mmu.dir, addr / 4096)]
        && Keeps(old(mmu.mem), mmu.mem, mmu.dir, addr / 4096, addr / 4096 + 1)
        && (DataPage(addr / 4096) ==> SameWords(old(mmu.mem), mmu.mem, mmu.dir, addr / 4096))
    {
      hide Inv, Coherent, Keeps, LedgerOk, SameWords, PageMap;
      var entry := GetPage(addr, false);
      if entry.None? {
        return false;
      }
      var value := LoadEntry(entry.value, addr);
      if !Present(value) {
        return false;
      }
      var e := Entry(FrameOf(value) * 4096, flags);
      EntryMeans(FrameOf(value) * 4096, flags);
      WriteEntry(entry.value, addr, e);
      PageMapUpdate(old(mmu.mem), mmu.mem, mmu.dir, addr / 4096);
      ProtectInv(old(mmu.mem), mmu.mem, mmu.dir, owner, addr / 4096, e);
      return true;
    }

    /** A kernel read of a mapped data page. */
    method Read(a: Word) returns (w: Word)
      requires Valid() && a % 4 == 0 && DataPage(a / 4096) && IsMapped(mmu.mem, mmu.dir, a / 4096)
      modifies mmu`tlb
      ensures Valid()
      ensures w == Peek(mmu.mem, mmu.dir, a)
    {
      hide Inv, LedgerOk;
      w := mmu.Load(a);
    }

    /** A kernel write to a mapped, writable data page: one word changes, and no translation. */
    method Write(a: Word, w: Word)
      requires Valid() && a % 4 == 0 && DataPage(a / 4096) && IsMapped(mmu.mem, mmu.dir, a / 4096)
      requires Writable(Pte(mmu.mem, mmu.dir, a / 4096))
      modifies mmu`mem, mmu`tlb
      ensures Valid()
      ensures SameTables(old(mmu.mem), mmu.mem, mmu.dir)
      ensures Written(old(mmu.mem), mmu.mem, mmu.dir, a, w)
    {
      hide LedgerOk, TablesOwned, PagesOwned, SameTables, Written;
      ghost var mem, dir := mmu.mem, mmu.dir;
      ghost var mem' := mem[Slot(mem, dir, a) := w];
      DataStoreInv(mem, dir, owner, a, w);
      DataStoreReads(mem, dir, owner, a, w);
      assert HasTable(mem, dir, a / 4096 / 1024);
      mmu.Store(a, w);
      assert Coherent(mmu.tlb, mem, dir);
      SameTablesCoherent(mmu.tlb, mem, mem', dir);
    }

    method ReadByte(a: Word) returns (b: Byte)
      requires Valid() && DataPage(a / 4096) && IsMapped(mmu.mem, mmu.dir, a / 4096)
      modifies mmu`tlb
      ensures Valid()
      ensures b == PeekByte(mmu.mem, mmu.dir, a)
    {
      hide Inv, LedgerOk;
      b := mmu.LoadByte(a);
    }

    /** A kernel write of one byte: its word changes in that byte alone, and no other word does. */
    method WriteByte(a: Word, b: Byte)
      requires Valid() && DataPage(a / 4096) && IsMapped(mmu.mem, mmu.dir, a / 4096)
      requires Writable(Pte(mmu.mem, mmu.dir, a / 4096))
      modifies mmu`mem, mmu`tlb
      ensures Valid()
      ensures SameTables(old(mmu.mem), mmu.mem, mmu.dir)
      ensures ByteWritten(old(mmu.mem), mmu.mem, mmu.dir, a, b)
    {
      hide LedgerOk, TablesOwned, PagesOwned, SameTables, Written, WithByte;
      ghost var mem, dir := mmu.mem, mmu.dir;
      ghost var w := WithByte(Peek(mem, dir, a), a % 4, b);
      ghost var mem' := mem[Slot(mem, dir, a) := w];
      AlignedWord(mem, dir, a);
      DataStoreInv(mem, dir, owner, a, w);
      DataStoreReads(mem, dir, owner, Aligned(a), w);
      assert HasTable(mem, dir, a / 4096 / 1024);
      mmu.StoreByte(a, b);
      assert Coherent(mmu.tlb, mem, dir);
      SameTablesCoherent(mmu.tlb, mem, mem', dir);
    }

    /** Zero every word of a mapped, writable data page. */
    method ZeroPage(page: Word)
      requires Valid() && page % 4096 == 0 && DataPage(page / 4096) && IsMapped(mmu.mem, mmu.dir, page / 4096)
      requires Writable(Pte(mmu.mem, mmu.dir, page / 4096))
      modifies mmu`mem, mmu`tlb
      ensures Valid()
      ensures Pte(mmu.mem, mmu.dir, page / 4096) == old(Pte(mmu.mem, mmu.dir, page / 4096))
      ensures Keeps(old(mmu.mem), mmu.mem, mmu.dir, page / 4096, page / 4096 + 1)
      ensures ZeroUpTo(mmu.mem, mmu.dir, page / 4096, 1024)
    {
      hide Inv, LedgerOk, Coherent, Keeps, Written, ZeroUpTo;
      ghost var p: Page := page / 4096;
      KeepsSame(mmu.mem, mmu.dir, p, p + 1);
      ZeroNone(mmu.mem, mmu.dir, p);
      for i := 0 to 1024
        invariant Valid()
        invariant Pte(mmu.mem, mmu.dir, p) == old(Pte(mmu.mem, mmu.dir, page / 4096))
        invariant Keeps(old(mmu.mem), mmu.mem, mmu.dir, p, p + 1)
        invariant ZeroUpTo(mmu.mem, mmu.dir, p, i)
      {
        ghost var mem := mmu.mem;
        WordOfPage(page, i);
        Write(page + 4 * i, 0);
        ZeroStep(mem, mmu.mem, mmu.dir, p, i);
        WrittenKeeps(mem, mmu.mem, mmu.dir, page + 4 * i, 0);
        KeepsTrans(old(mmu.mem), mem, mmu.mem, mmu.dir, p, p + 1);
      }
    }

    ghost predicate TooFewFrames(p: Page)
      reads mmu, pmm
    {
      FewFrames(mmu.mem, mmu.dir, pmm.free, p)
    }

    /** Take the lowest free frame and map it; give it back if it cannot be mapped. */
    method MapFresh(addr: Word, flags: Word) returns (r: Option<Word>)
      requires Valid() && addr / 4096 < WINDOW_PAGE && flags < 4096
      requires UserInKernel(addr, flags) || IsMapped(mmu.mem, mmu.dir, addr / 4096) || DataPage(addr / 4096)
      modifies this`owner, mmu`mem, mmu`tlb, pmm`free, pmm`available, pmm.words
      ensures Valid()
      ensures r.None? <==> UserInKernel(addr, flags) || old(IsMapped(mmu.mem, mmu.dir, addr / 4096))
                           || old(TooFewFrames(addr / 4096))
      ensures r.None? ==> mmu.mem == old(mmu.mem) && Books() == old(Books())
      ensures r.Some? ==>
        && r.value == Pmm.Lowest(old(pmm.free)) * 4096
        && Pte(mmu.mem, mmu.dir, addr / 4096) == Entry(r.value, flags)
        && Keeps(old(mmu.mem), mmu.mem, mmu.dir, addr / 4096, addr / 4096 + 1)
        && HasTable(mmu.mem, mmu.dir, addr / 4096 / 1024)
        && Books() == FreshBooks(old(Books()), old(HasTable(mmu.mem, mmu.dir, addr / 4096 / 1024)), addr / 4096)
        && Drawn(old(owner), owner, addr / 4096, addr / 4096 + 1)
    {
      hide Inv, LedgerOk, Coherent, Keeps, Pmm.Lowest, Drawn, Issue, Claim, Tabled, Entry, PageMap, Pte, Pde,
           UserInKernel, FreshBooks;
      if !TooFewFrames(addr / 4096) {
        FreshDraws(Books(), pmm.all, HasTable(mmu.mem, mmu.dir, addr / 4096 / 1024), addr / 4096);
      }
      var frame := TakeFrame();
      if frame.None? {
        return None;
      }
      assert frame.value / 4096 == Pmm.Lowest(old(pmm.free));
      IssueParts(old(Books()), Taken);
      IssueThenGive(old(Books()), pmm.all);
      var ok := MapPage(addr, frame.value, flags);
      if !ok {
        GiveFrame(frame.value);
        return None;
      }
      FreshBooksMeans(old(Books()), old(HasTable(mmu.mem, mmu.dir, addr / 4096 / 1024)), addr / 4096);
      return frame;
    }

    /**
     * Map a fresh frame at `addr` and zero it, mapping it writable for as long
     * as that takes. A refusal costs nothing.
     */
    method MapNew(addr: Word, flags: Word) returns (r: Option<Word>)
      requires Valid() && addr / 4096 < WINDOW_PAGE && flags < 4096
      requires UserInKernel(addr, flags) || IsMapped(mmu.mem, mmu.dir, addr / 4096) || DataPage(addr / 4096)
      modifies this`owner, mmu`mem, mmu`tlb, pmm`free, pmm`available, pmm.words
      ensures Valid()
      ensures r.None? <==> UserInKernel(addr, flags) || old(IsMapped(mmu.mem, mmu.dir, addr / 4096))
                           || old(TooFewFrames(addr / 4096))
      ensures r.None? ==> mmu.mem == old(mmu.mem) && Books() == old(Books())
      ensures r.Some? ==>
        && r.value == Pmm.Lowest(old(pmm.free)) * 4096
        && Pages() == old(Pages())[addr / 4096 := Entry(r.value, flags)]
        && Pte(mmu.mem, mmu.dir, addr / 4096) == Entry(r.value, flags)
        && ZeroUpTo(mmu.mem, mmu.dir, addr / 4096, 1024)
        && Keeps(old(mmu.mem), mmu.mem, mmu.dir, addr / 4096, addr / 4096 + 1)
        && Books() == FreshBooks(old(Books()), old(HasTable(mmu.mem, mmu.dir, addr / 4096 / 1024)), addr / 4096)
        && Drawn(old(owner), owner, addr / 4096, addr / 4096 + 1)
    {
      hide Inv, LedgerOk, Coherent, Keeps, ZeroUpTo, SameWords, Entry, UserInKernel, Pmm.Lowest, FreshBooks, PageMap, Drawn;
      OrWritableMeans(flags);
      UserInKernelMeans(addr, flags, OrWritable(flags));
      r := MapFresh(addr, OrWritable(flags));
      if r.None? {
        return;
      }
      ghost var p, mapped := addr / 4096, mmu.mem;
      EntryMeans(r.value, OrWritable(flags));
      assert PageOf(addr) / 4096 == p && PageOf(addr) % 4096 == 0;
      ZeroPage(PageOf(addr));
      KeepsTrans(old(mmu.mem), mapped, mmu.mem, mmu.dir, p, p + 1);
      if !Writable(flags) {
        ghost var zeroed := mmu.mem;
        var _ := Protect(addr, flags);
        KeepsTrans(old(mmu.mem), zeroed, mmu.mem, mmu.dir, p, p + 1);
        ZeroSame(zeroed, mmu.mem, mmu.dir, p);
      }
      EntryMeans(r.value, flags);
      PageMapUpdate(old(mmu.mem), mmu.mem, mmu.dir, p);
    }

    /** Unmap a page whose frame came from the pool, and give the frame back, as callers do. */
    method FreePage(addr: Word)
      requires Valid() && DataPage(addr / 4096)
      requires !(KHEAP_BASE / 4096 <= addr / 4096 < KHEAP_LIMIT / 4096)
      modifies this`owner, mmu`mem, mmu`tlb, pmm`free, pmm`available, pmm.words
      ensures Valid()
      ensures !IsMapped(mmu.mem, mmu.dir, addr / 4096)
      ensures Keeps(old(mmu.mem), mmu.mem, mmu.dir, addr / 4096, addr / 4096 + 1)
      ensures Returned(old(owner), owner, addr / 4096, addr / 4096 + 1)
    {
      hide Inv, LedgerOk, Coherent, Keeps, PageMap, Pte, Pmm.Lowest;
      KeepsSame(mmu.mem, mmu.dir, addr / 4096, addr / 4096 + 1);
      PoolHolder(mmu.mem, mmu.dir, owner, pmm.free, pmm.all, addr / 4096);
      var frame := UnmapPage(addr);
      if frame.Some? {
        GiveFrame(frame.value);
      }
    }

    /**
     * A fault on an absent page of the demand zone gets a zeroed user page;
     * every other fault is left to the caller and changes nothing.
     */
    method HandleFault(addr: Word, error: Word) returns (handled: bool)
      requires Valid()
      modifies this`owner, mmu`mem, mmu`tlb, pmm`free, pmm`available, pmm.words
      ensures Valid()
      ensures handled <==>
        && !Present(error) && 0x0080_0000 <= addr < 0x0090_0000
        && !old(IsMapped(mmu.mem, mmu.dir, addr / 4096)) && !old(TooFewFrames(addr / 4096))
      ensures !handled ==> mmu.mem == old(mmu.mem) && Books() == old(Books())
      ensures handled ==>
        && Pages() == old(Pages())[addr / 4096 := Pte(mmu.mem, mmu.dir, addr / 4096)]
        && Pte(mmu.mem, mmu.dir, addr / 4096) == Entry(Pmm.Lowest(old(pmm.free)) * 4096, USER_PAGE)
        && Walk(mmu.mem, mmu.dir, addr / 4096) == Some(Translation(Pmm.Lowest(old(pmm.free)), true, true))
        && ZeroUpTo(mmu.mem, mmu.dir, addr / 4096, 1024)
        && Keeps(old(mmu.mem), mmu.mem, mmu.dir, addr / 4096, addr / 4096 + 1)
        && Books() == FreshBooks(old(Books()), old(HasTable(mmu.mem, mmu.dir, addr / 4096 / 1024)), addr / 4096)
        && Drawn(old(owner), owner, addr / 4096, addr / 4096 + 1)
    {
      hide Inv, LedgerOk, Coherent, Keeps, ZeroUpTo, Entry, Pmm.Lowest, FreshBooks, PageMap, Drawn, Walk;
      if Present(error) || !IsDemand(addr) {
        return false;
      }
      var page := PageOf(addr);
      DemandPage(addr);
      var r := MapNew(page, USER_PAGE);
      if r.Some? {
        UserEntryWalk(mmu.mem, mmu.dir, owner, addr / 4096, r.value);
      }
      return r.Some?;
    }
  }

  lemma FreshBooksMeans(l: Ledger, has: bool, p: Page)
    requires l.free != {} && (has || l.free - {Pmm.Lowest(l.free)} != {})
    ensures has || Issue(l, Taken).free != {}
    ensures FreshBooks(l, has, p) == Claim(Tabled(Issue(l, Taken), has, p / 1024), Pmm.Lowest(l.free), p)
  {
  }

  /** Backing a page with a fresh frame only uses free frames. */
  lemma FreshDraws(l: Ledger, all: set<Frame>, has: bool, p: Page)
    requires LedgerOk(l.free, all, l.owner)
    requires l.free != {} && (has || l.free - {Pmm.Lowest(l.free)} != {})
    ensures Drawn(l.owner, FreshBooks(l, has, p).owner, p, p + 1)
  {
    hide Pmm.Lowest;
    var f := Pmm.Lowest(l.free);
    var m := Tabled(Issue(l, Taken), has, p / 1024);
    if !has {
      assert Pmm.Lowest(l.free - {f}) in l.free && Pmm.Lowest(l.free - {f}) != f;
    }
    assert m.owner[f] == Taken;
    assert FreshBooks(l, has, p).owner == m.owner[f := Mapped(p)];
  }

  /** A user page in user space can be read and written from user code. */
  lemma UserEntryWalk(mem: Memory, dir: Frame, owner: Owners, p: Page, frame: Word)
    requires Inv(mem, dir, owner) && UserSlot(p / 1024) && Pte(mem, dir, p) == Entry(frame, USER_PAGE)
    ensures Walk(mem, dir, p) == Some(Translation(frame / 4096, true, true))
  {
    hide TablesOwned, PagesOwned, Entry;
    EntryMeans(frame, USER_PAGE);
    MappedHasTable(mem, dir, p);
  }

  /** Outside the kmalloc range a mapped page holds a frame of its own from the pool. */
  lemma PoolHolder(mem: Memory, dir: Frame, owner: Owners, free: set<Frame>, all: set<Frame>, p: Page)
    requires Inv(mem, dir, owner) && LedgerOk(free, all, owner)
    requires DataPage(p) && !(KHEAP_BASE / 4096 <= p < KHEAP_LIMIT / 4096)
    ensures IsMapped(mem, dir, p) ==> owner[FrameAt(mem, dir, p)] == Mapped(p)
  {
    hide Pte, DirectoryOk, TablesOwned;
  }

  lemma WordOfPage(page: int, i: int)
    requires page % 4096 == 0 && 0 <= i < 1024
    ensures (page + 4 * i) / 4096 == page / 4096 && (page + 4 * i) % 4 == 0 && page == page / 4096 * 4096
  {
  }

  lemma UserInKernelMeans(addr: Word, flags: Word, flags': Word)
    requires UserBit(flags') == UserBit(flags)
    ensures UserInKernel(addr, flags') == UserInKernel(addr, flags)
  {
  }

  lemma ZeroSame(mem: Memory, mem': Memory, dir: Frame, p: Page)
    requires ZeroUpTo(mem, dir, p, 1024) && SameWords(mem, mem', dir, p)
    ensures ZeroUpTo(mem', dir, p, 1024)
  {
  }

  /** A demand page is a user page: the plan lets it carry U/S. */
  lemma DemandPage(addr: Word)
    requires IsDemand(addr)
    ensures PageOf(addr) / 4096 == addr / 4096 && IsDemand(PageOf(addr))
    ensures DataPage(addr / 4096) && !IsKernel(PageOf(addr)) && addr / 4096 / 1024 == 2
  {
  }

  /** The lowest free frame backs page `p`, after the next lowest became its table if it had none. */
  ghost function FreshBooks(l: Ledger, has: bool, p: Page): Ledger
    requires l.free != {} && (has || l.free - {Pmm.Lowest(l.free)} != {})
  {
    Claim(Tabled(Issue(l, Taken), has, p / 1024), Pmm.Lowest(l.free), p)
  }
}
