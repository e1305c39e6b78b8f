/** What a heap is in memory: mapped pages, headers in place, payloads in between. */
module HeapState {
  import opened Layout
  import opened Mmu
  import opened PageTables
  import opened Blocks

  /** A page-aligned stretch of kernel space clear of the fixed windows and the table window. */
  predicate RangeOk(base: int, limit: int) {
    KERNEL_WINDOW_END <= base < limit <= TABLE_WINDOW && base % 4096 == 0 && limit % 4096 == 0
  }

  predicate BreakOk(base: int, brk: int, limit: int) {
    RangeOk(base, limit) && base <= brk <= limit && brk % 4096 == 0
  }

  /** Pages below the break are mapped and writable. */
  ghost predicate MappedBelow(mem: Memory, dir: Frame, base: int, brk: int) {
    forall p: Page :: base / 4096 <= p < brk / 4096 ==> IsMapped(mem, dir, p) && Writable(Pte(mem, dir, p))
  }

  /** Pages from the break to the limit are not mapped. */
  ghost predicate UnmappedFrom(mem: Memory, dir: Frame, brk: int, limit: int) {
    forall p: Page :: brk / 4096 <= p < limit / 4096 ==> !IsMapped(mem, dir, p)
  }

  function Flag(used: bool): Word { if used then 1 else 0 }

  /** The two header words of a block say what the block is. */
  ghost predicate HeaderIs(mem: Memory, dir: Frame, b: Block) {
    && 0 <= b.at && b.at + 4 < 0x1_0000_0000
    && Peek(mem, dir, b.at) == b.size
    && Peek(mem, dir, b.at + 4) == Flag(b.used)
  }

  ghost predicate Headers(mem: Memory, dir: Frame, bs: seq<Block>) {
    forall b :: b in bs ==> HeaderIs(mem, dir, b)
  }

  /** The blocks tile the region up to the break, and memory says so. */
  ghost predicate BlocksOk(mem: Memory, dir: Frame, base: int, brk: int, limit: int, bs: seq<Block>) {
    && BreakOk(base, brk, limit)
    && MappedBelow(mem, dir, base, brk)
    && Tiled(bs, base, brk)
    && Headers(mem, dir, bs)
  }

  /** An address of the heap is an address of a mapped, writable data page. */
  lemma InHeap(mem: Memory, dir: Frame, base: int, brk: int, limit: int, a: int)
    requires BreakOk(base, brk, limit) && MappedBelow(mem, dir, base, brk)
    requires base <= a < brk
    ensures 0 <= a < 0x1_0000_0000 && DataPage(a / 4096) && base / 4096 <= a / 4096 < brk / 4096
    ensures IsMapped(mem, dir, a / 4096) && Writable(Pte(mem, dir, a / 4096))
  {
    PageInRange(base, brk, limit, a);
  }

  lemma PageInRange(base: int, brk: int, limit: int, a: int)
    requires BreakOk(base, brk, limit) && base <= a < brk
    ensures 0 <= a < 0x1_0000_0000 && DataPage(a / 4096) && base / 4096 <= a / 4096 < brk / 4096
  {
  }

  // ----- Writing a header -----

  /** All that changes in the data pages when a header is written at `at`. */
  ghost predicate HeaderWritten(mem: Memory, mem': Memory, dir: Frame, at: Word, size: Word, flag: Word)
    requires at + 4 < 0x1_0000_0000
  {
    && SameTables(mem, mem', dir)
    && Peek(mem', dir, at) == size && Peek(mem', dir, at + 4) == flag
    && forall a: Word :: a % 4 == 0 && DataPage(a / 4096) && IsMapped(mem, dir, a / 4096) && a != at && a != at + 4 ==>
         Peek(mem', dir, a) == Peek(mem, dir, a)
  }

  lemma TwoWrites(m0: Memory, m1: Memory, m2: Memory, dir: Frame, at: Word, size: Word, flag: Word)
    requires at % 8 == 0 && at + 4 < 0x1_0000_0000
    requires DataPage(at / 4096) && IsMapped(m0, dir, at / 4096)
    requires DataPage((at + 4) / 4096) && IsMapped(m0, dir, (at + 4) / 4096)
    requires SameTables(m0, m1, dir) && Written(m0, m1, dir, at, size)
    requires SameTables(m1, m2, dir) && Written(m1, m2, dir, at + 4, flag)
    ensures HeaderWritten(m0, m2, dir, at, size, flag)
  {
    hide Peek, Pte, Pde;
    WordAligned(at);
    assert forall p: Page :: IsMapped(m1, dir, p) == IsMapped(m0, dir, p);
  }

  /** The words of the blocks `us` read the same. */
  ghost predicate PayloadsKept(mem: Memory, mem': Memory, dir: Frame, us: set<Block>) {
    forall b, a: Word :: b in us && a % 4 == 0 && b.at + 8 <= a < Next(b) ==>
      Peek(mem', dir, a) == Peek(mem, dir, a)
  }

  /** No translation changes, nothing outside the heap changes, and no word of the blocks `us` changes. */
  ghost predicate Quiet(mem: Memory, mem': Memory, dir: Frame, base: int, limit: int, us: set<Block>) {
    && SameTables(mem, mem', dir)
    && Keeps(mem, mem', dir, base / 4096, limit / 4096)
    && PayloadsKept(mem, mem', dir, us)
  }

  lemma PayloadsSame(mem: Memory, dir: Frame, us: set<Block>)
    ensures PayloadsKept(mem, mem, dir, us)
  {
  }

  lemma PayloadsTrans(m0: Memory, m1: Memory, m2: Memory, dir: Frame, us: set<Block>)
    requires PayloadsKept(m0, m1, dir, us) && PayloadsKept(m1, m2, dir, us)
    ensures PayloadsKept(m0, m2, dir, us)
  {
    hide Peek;
  }

  lemma QuietSame(mem: Memory, dir: Frame, base: int, limit: int, us: set<Block>)
    ensures Quiet(mem, mem, dir, base, limit, us)
  {
  }

  lemma QuietTrans(m0: Memory, m1: Memory, m2: Memory, dir: Frame, base: int, limit: int, us: set<Block>)
    requires Quiet(m0, m1, dir, base, limit, us) && Quiet(m1, m2, dir, base, limit, us)
    ensures Quiet(m0, m2, dir, base, limit, us)
  {
    hide Peek, Pte, Pde, Keeps;
    KeepsTrans(m0, m1, m2, dir, base / 4096, limit / 4096);
  }

  /** No translation changes, and no word of a data page outside lo..hi changes. */
  ghost predicate EditedWithin(mem: Memory, mem': Memory, dir: Frame, lo: int, hi: int) {
    && SameTables(mem, mem', dir)
    && forall a: Word :: a % 4 == 0 && DataPage(a / 4096) && IsMapped(mem, dir, a / 4096) && !(lo <= a < hi) ==>
         Peek(mem', dir, a) == Peek(mem, dir, a)
  }

  lemma HeaderEdits(mem: Memory, mem': Memory, dir: Frame, at: Word, size: Word, flag: Word, lo: int, hi: int)
    requires at + 4 < 0x1_0000_0000 && HeaderWritten(mem, mem', dir, at, size, flag)
    requires lo <= at && at + 8 <= hi
    ensures EditedWithin(mem, mem', dir, lo, hi)
  {
    hide Peek, Pte, SameTables;
  }

  lemma EditedTrans(m0: Memory, m1: Memory, m2: Memory, dir: Frame, lo: int, hi: int)
    requires EditedWithin(m0, m1, dir, lo, hi) && EditedWithin(m1, m2, dir, lo, hi)
    ensures EditedWithin(m0, m2, dir, lo, hi)
  {
    hide Peek, Pte, Pde;
    assert forall p: Page :: IsMapped(m1, dir, p) == IsMapped(m0, dir, p);
  }

  lemma EditedKeeps(mem: Memory, mem': Memory, dir: Frame, base: int, brk: int, limit: int, lo: int, hi: int)
    requires BreakOk(base, brk, limit) && base <= lo && hi <= brk
    requires EditedWithin(mem, mem', dir, lo, hi)
    ensures Keeps(mem, mem', dir, base / 4096, limit / 4096)
  {
    hide Peek, Pte, Pde;
    forall a: Word | lo <= a < hi
      ensures base / 4096 <= a / 4096 < limit / 4096
    {
      PageInRange(base, brk, limit, a);
    }
  }

  lemma EditedMapped(mem: Memory, mem': Memory, dir: Frame, base: int, brk: int, limit: int, lo: int, hi: int)
    requires EditedWithin(mem, mem', dir, lo, hi)
    ensures SameTables(mem, mem', dir)
    ensures MappedBelow(mem, dir, base, brk) ==> MappedBelow(mem', dir, base, brk)
    ensures UnmappedFrom(mem, dir, brk, limit) ==> UnmappedFrom(mem', dir, brk, limit)
  {
    SameTablesMapped(mem, mem', dir, base, brk, limit);
  }

  /** An edit clear of a block leaves its header and payload alone. */
  lemma BlockClear(mem: Memory, mem': Memory, dir: Frame, base: int, brk: int, limit: int, b: Block, lo: int, hi: int)
    requires BreakOk(base, brk, limit) && MappedBelow(mem, dir, base, brk)
    requires EditedWithin(mem, mem', dir, lo, hi)
    requires HeaderIs(mem, dir, b)
    requires base <= b.at && Next(b) <= brk && b.size >= 8 && b.at % 8 == 0
    requires Next(b) <= lo || hi <= b.at
    ensures HeaderIs(mem', dir, b) && PayloadsKept(mem, mem', dir, {b})
  {
    hide Peek, EditedWithin, MappedBelow, BreakOk;
    WordsClear(mem, mem', dir, base, brk, limit, b.at, Next(b), lo, hi);
    WordAligned(b.at);
  }

  lemma WordsClear(mem: Memory, mem': Memory, dir: Frame, base: int, brk: int, limit: int,
                   from: int, to: int, lo: int, hi: int)
    requires BreakOk(base, brk, limit) && MappedBelow(mem, dir, base, brk)
    requires EditedWithin(mem, mem', dir, lo, hi)
    requires base <= from && to <= brk && (to <= lo || hi <= from)
    ensures forall a: Word :: a % 4 == 0 && from <= a < to ==> Peek(mem', dir, a) == Peek(mem, dir, a)
  {
    hide Peek, Pte, SameTables, MappedBelow, BreakOk;
    forall a: Word | a % 4 == 0 && from <= a < to
      ensures Peek(mem', dir, a) == Peek(mem, dir, a)
    {
      InHeap(mem, dir, base, brk, limit, a);
    }
  }

  /** An edit clear of the blocks `bs` leaves their headers and payloads alone. */
  lemma BlocksClear(mem: Memory, mem': Memory, dir: Frame, base: int, brk: int, limit: int,
                    bs: seq<Block>, lo: int, hi: int)
    requires BreakOk(base, brk, limit) && MappedBelow(mem, dir, base, brk)
    requires EditedWithin(mem, mem', dir, lo, hi)
    requires Headers(mem, dir, bs)
    requires forall b :: b in bs ==> base <= b.at && Next(b) <= brk && b.size >= 8 && b.at % 8 == 0
    requires forall b :: b in bs ==> Next(b) <= lo || hi <= b.at
    ensures Headers(mem', dir, bs) && PayloadsKept(mem, mem', dir, Used(bs))
  {
    hide Peek, EditedWithin, MappedBelow, BreakOk, HeaderIs;
    forall b | b in bs
      ensures HeaderIs(mem', dir, b) && PayloadsKept(mem, mem', dir, {b})
    {
      BlockClear(mem, mem', dir, base, brk, limit, b, lo, hi);
    }
    forall b, a: Word | b in Used(bs) && a % 4 == 0 && b.at + 8 <= a < Next(b)
      ensures Peek(mem', dir, a) == Peek(mem, dir, a)
    {
      assert b in {b};
    }
  }

  /** An edit between `m0` and `m1` leaves the blocks on both sides alone. */
  lemma EdgesClear(mem: Memory, mem': Memory, dir: Frame, base: int, brk: int, limit: int,
                   pre: seq<Block>, m0: int, m1: int, post: seq<Block>)
    requires BreakOk(base, brk, limit) && MappedBelow(mem, dir, base, brk)
    requires EditedWithin(mem, mem', dir, m0, m1)
    requires Headers(mem, dir, pre) && Headers(mem, dir, post)
    requires Tiled(pre, base, m0) && Tiled(post, m1, brk) && m0 <= m1 && m1 % 8 == 0
    ensures Headers(mem', dir, pre) && Headers(mem', dir, post)
    ensures PayloadsKept(mem, mem', dir, Used(pre)) && PayloadsKept(mem, mem', dir, Used(post))
  {
    hide Headers, PayloadsKept, EditedWithin, MappedBelow, Tiled;
    TiledBounds(pre, base, m0);
    TiledBounds(post, m1, brk);
    PageAligned(base);
    TiledAligned(pre, base, m0);
    TiledAligned(post, m1, brk);
    BlocksClear(mem, mem', dir, base, brk, limit, pre, m0, m1);
    BlocksClear(mem, mem', dir, base, brk, limit, post, m0, m1);
  }

  lemma WordAligned(a: int)
    requires a % 8 == 0
    ensures a % 4 == 0 && (a + 4) % 4 == 0
  {
  }

  lemma PageAligned(a: int)
    requires a % 4096 == 0
    ensures a % 8 == 0 && a % 4 == 0
  {
  }

  lemma HeadersConcat(mem: Memory, dir: Frame, xs: seq<Block>, ys: seq<Block>)
    ensures Headers(mem, dir, xs + ys) <==> Headers(mem, dir, xs) && Headers(mem, dir, ys)
  {
    hide HeaderIs;
    assert forall b :: b in xs ==> b in xs + ys;
    assert forall b :: b in ys ==> b in xs + ys;
  }

  lemma PayloadsConcat(mem: Memory, mem': Memory, dir: Frame, xs: seq<Block>, ys: seq<Block>)
    requires PayloadsKept(mem, mem', dir, Used(xs)) && PayloadsKept(mem, mem', dir, Used(ys))
    ensures PayloadsKept(mem, mem', dir, Used(xs + ys))
  {
    hide Peek;
    UsedConcat(xs, ys);
  }

  lemma SameTablesMapped(mem: Memory, mem': Memory, dir: Frame, base: int, brk: int, limit: int)
    requires SameTables(mem, mem', dir)
    ensures MappedBelow(mem, dir, base, brk) ==> MappedBelow(mem', dir, base, brk)
    ensures UnmappedFrom(mem, dir, brk, limit) ==> UnmappedFrom(mem', dir, brk, limit)
  {
    hide Pte;
    assert forall p: Page :: IsMapped(mem', dir, p) == IsMapped(mem, dir, p);
  }

  /**
   * The blocks `gone` between two neighbours give way to `mid`, whose headers
   * are in place after an edit of that stretch.
   */
  lemma Replace(mem: Memory, mem': Memory, dir: Frame, base: int, brk: int, limit: int,
                pre: seq<Block>, gone: seq<Block>, mid: seq<Block>, post: seq<Block>, m0: int, m1: int)
    requires BlocksOk(mem, dir, base, brk, limit, pre + gone + post)
    requires Tiled(pre, base, m0) && Tiled(gone, m0, m1) && Tiled(mid, m0, m1)
    requires EditedWithin(mem, mem', dir, m0, m1) && Headers(mem', dir, mid)
    requires PayloadsKept(mem, mem', dir, Used(gone))
    ensures BlocksOk(mem', dir, base, brk, limit, pre + mid + post)
    ensures Quiet(mem, mem', dir, base, limit, Used(pre + gone + post))
  {
    hide Headers, PayloadsKept, EditedWithin, MappedBelow, Tiled, SameTables, Keeps, Used;
    HeadersConcat(mem, dir, pre + gone, post);
    HeadersConcat(mem, dir, pre, gone);
    TiledConcat(pre, gone, base, m0, m1);
    TiledConcat(pre + gone, post, base, m1, brk);
    PageAligned(base);
    TiledAligned(pre + gone, base, m1);
    TiledBounds(gone, m0, m1);
    EdgesClear(mem, mem', dir, base, brk, limit, pre, m0, m1, post);
    PayloadsConcat(mem, mem', dir, pre, gone);
    PayloadsConcat(mem, mem', dir, pre + gone, post);
    TiledConcat(pre, mid, base, m0, m1);
    TiledConcat(pre + mid, post, base, m1, brk);
    HeadersConcat(mem', dir, pre, mid);
    HeadersConcat(mem', dir, pre + mid, post);
    EditedMapped(mem, mem', dir, base, brk, limit, m0, m1);
    TiledBounds(pre, base, m0);
    TiledBounds(post, m1, brk);
    EditedKeeps(mem, mem', dir, base, brk, limit, m0, m1);
  }

  /** After the header of a merged block is written, the merged list is in memory. */
  lemma MergeReplaces(mem: Memory, mem': Memory, dir: Frame, base: int, brk: int, limit: int,
                      pre: seq<Block>, post: seq<Block>, at: Word)
    requires BlocksOk(mem, dir, base, brk, limit, pre + post)
    requires Tiled(pre, base, at) && Tiled(post, at, brk)
    requires |post| >= 2 && !post[0].used && !post[1].used
    requires at + 4 < 0x1_0000_0000 && 0 <= Merge(post[0], post[1]).size < 0x1_0000_0000
    requires HeaderWritten(mem, mem', dir, at, Merge(post[0], post[1]).size, 0)
    ensures BlocksOk(mem', dir, base, brk, limit, pre + ([Merge(post[0], post[1])] + post[2..]))
    ensures Quiet(mem, mem', dir, base, limit, Used(pre + post))
  {
    hide Headers, HeaderWritten, MappedBelow, Tiled, Quiet, Peek;
    var a, b, tail := post[0], post[1], post[2..];
    var gone, mid := [a, b], [Merge(a, b)];
    assert post == gone + tail && pre + post == pre + gone + tail;
    assert pre + (mid + tail) == pre + mid + tail;
    PairTiles(post, at, brk);
    OneHeader(mem, mem', dir, Merge(a, b));
    HeaderEdits(mem, mem', dir, at, Merge(a, b).size, 0, at, Next(b));
    assert Used(gone) == {};
    Replace(mem, mem', dir, base, brk, limit, pre, gone, mid, tail, at, Next(b));
  }

  /** The header just written is the header of that block. */
  lemma OneHeader(mem: Memory, mem': Memory, dir: Frame, b: Block)
    requires 0 <= b.at && b.at + 4 < 0x1_0000_0000 && 0 <= b.size < 0x1_0000_0000
    requires HeaderWritten(mem, mem', dir, b.at, b.size, Flag(b.used))
    ensures Headers(mem', dir, [b])
  {
    hide Peek, SameTables;
  }

  /** Two adjacent blocks and their merger fill the same stretch. */
  lemma PairTiles(bs: seq<Block>, at: int, end: int)
    requires |bs| >= 2 && Tiled(bs, at, end)
    ensures Tiled([bs[0], bs[1]], at, Next(bs[1])) && Tiled([Merge(bs[0], bs[1])], at, Next(bs[1]))
    ensures Tiled(bs[2..], Next(bs[1]), end)
    ensures bs[0].at == at && at + 32 <= Next(bs[1])
  {
    var pair := [bs[0], bs[1]];
    assert pair[1..] == [bs[1]] && pair[1..][1..] == [];
    assert bs[1..][1..] == bs[2..];
    SumAligned(bs[0].size, bs[1].size);
    OneTiles(Merge(bs[0], bs[1]));
  }

  /** Rewriting the header of one block in place, with the same size. */
  lemma FlagReplaces(mem: Memory, mem': Memory, dir: Frame, base: int, brk: int, limit: int,
                     pre: seq<Block>, b: Block, used: bool, post: seq<Block>)
    requires BlocksOk(mem, dir, base, brk, limit, pre + [b] + post)
    requires Tiled(pre, base, b.at) && Tiled(post, Next(b), brk) && b.size >= 8 && b.size % 8 == 0
    requires 0 <= b.at && Next(b) <= brk && b.size < 0x1_0000_0000
    requires HeaderWritten(mem, mem', dir, b.at, b.size, Flag(used))
    ensures BlocksOk(mem', dir, base, brk, limit, pre + [b.(used := used)] + post)
    ensures Quiet(mem, mem', dir, base, limit, Used(pre + [b] + post))
  {
    hide Headers, HeaderWritten, MappedBelow, Tiled, Quiet, Peek;
    OneTiles(b);
    OneTiles(b.(used := used));
    OneHeader(mem, mem', dir, b.(used := used));
    HeaderEdits(mem, mem', dir, b.at, b.size, Flag(used), b.at, b.at + 8);
    HeaderEdits(mem, mem', dir, b.at, b.size, Flag(used), b.at, Next(b));
    TiledBounds(pre, base, b.at);
    WordsClear(mem, mem', dir, base, brk, limit, b.at + 8, Next(b), b.at, b.at + 8);
    assert PayloadsKept(mem, mem', dir, Used([b]));
    Replace(mem, mem', dir, base, brk, limit, pre, [b], [b.(used := used)], post, b.at, Next(b));
  }

  /** Splitting a free block in two with two header writes. */
  lemma SplitReplaces(m0: Memory, m1: Memory, m2: Memory, dir: Frame, base: int, brk: int, limit: int,
                      pre: seq<Block>, b: Block, need: int, post: seq<Block>)
    requires BlocksOk(m0, dir, base, brk, limit, pre + [b] + post)
    requires Tiled(pre, base, b.at) && Tiled(post, Next(b), brk) && b.size % 8 == 0 && !b.used
    requires need >= 8 && need % 8 == 0 && b.size >= need + 16
    requires 0 <= b.at && Next(b) <= brk && b.size < 0x1_0000_0000
    requires b.at % 8 == 0 && brk < 0x1_0000_0000
    requires HeaderWritten(m0, m1, dir, b.at, need, 1)
    requires HeaderWritten(m1, m2, dir, b.at + 8 + need, b.size - need - 8, 0)
    ensures BlocksOk(m2, dir, base, brk, limit, pre + Split(b, need) + post)
    ensures Quiet(m0, m2, dir, base, limit, Used(pre + [b] + post))
  {
    hide Headers, HeaderWritten, MappedBelow, Tiled, Quiet, Peek;
    var x, y := Split(b, need)[0], Split(b, need)[1];
    OneTiles(b);
    SplitTiled(b, need);
    OneHeader(m0, m1, dir, x);
    OneHeader(m1, m2, dir, y);
    HeaderEdits(m0, m1, dir, x.at, need, 1, b.at, Next(b));
    HeaderEdits(m1, m2, dir, y.at, y.size, 0, b.at, Next(b));
    HeaderEdits(m1, m2, dir, y.at, y.size, 0, y.at, Next(b));
    EditedTrans(m0, m1, m2, dir, b.at, Next(b));
    TiledBounds(pre, base, b.at);
    EditedMapped(m0, m1, dir, base, brk, limit, b.at, Next(b));
    OneBlockClear(m1, m2, dir, base, brk, limit, x, y.at, Next(b));
    HeadersConcat(m2, dir, [x], [y]);
    assert Split(b, need) == [x] + [y];
    assert Used([b]) == {};
    Replace(m0, m2, dir, base, brk, limit, pre, [b], Split(b, need), post, b.at, Next(b));
  }

  lemma OneBlockClear(mem: Memory, mem': Memory, dir: Frame, base: int, brk: int, limit: int, b: Block, lo: int, hi: int)
    requires BreakOk(base, brk, limit) && MappedBelow(mem, dir, base, brk)
    requires EditedWithin(mem, mem', dir, lo, hi) && Headers(mem, dir, [b])
    requires base <= b.at && Next(b) <= brk && b.size >= 8 && b.at % 8 == 0
    requires Next(b) <= lo || hi <= b.at
    ensures Headers(mem', dir, [b])
  {
    assert b in [b];
    BlockClear(mem, mem', dir, base, brk, limit, b, lo, hi);
  }

  /** A header written for a new top block `b`, up to the break. */
  lemma TopReplaces(mem: Memory, mem': Memory, dir: Frame, base: int, brk: int, limit: int, pre: seq<Block>, b: Block)
    requires BreakOk(base, brk, limit) && MappedBelow(mem, dir, base, brk)
    requires Headers(mem, dir, pre) && Tiled(pre, base, b.at) && Sized(b) && Next(b) == brk
    requires 0 <= b.at && b.size < 0x1_0000_0000
    requires HeaderWritten(mem, mem', dir, b.at, b.size, Flag(b.used))
    ensures BlocksOk(mem', dir, base, brk, limit, pre + [b])
    ensures Quiet(mem, mem', dir, base, limit, Used(pre))
  {
    hide Headers, PayloadsKept, HeaderWritten, MappedBelow, Tiled, SameTables, Keeps, Used, Peek, EditedWithin;
    HeaderEdits(mem, mem', dir, b.at, b.size, Flag(b.used), b.at, brk);
    TiledNone(brk);
    PageAligned(brk);
    HeadersNone(mem, dir);
    EdgesClear(mem, mem', dir, base, brk, limit, pre, b.at, brk, []);
    OneHeader(mem, mem', dir, b);
    OneTiles(b);
    HeadersConcat(mem', dir, pre, [b]);
    TiledConcat(pre, [b], base, b.at, brk);
    EditedMapped(mem, mem', dir, base, brk, limit, b.at, brk);
    TiledBounds(pre, base, b.at);
    EditedKeeps(mem, mem', dir, base, brk, limit, b.at, brk);
  }

  lemma HeadersNone(mem: Memory, dir: Frame)
    ensures Headers(mem, dir, [])
  {
  }

  /** An operation that keeps the pages of a heap keeps its blocks and its payloads. */
  lemma KeepsBlocks(mem: Memory, mem': Memory, dir: Frame, base: int, brk: int, limit: int,
                    bs: seq<Block>, lo: int, hi: int)
    requires BlocksOk(mem, dir, base, brk, limit, bs) && Keeps(mem, mem', dir, lo, hi)
    requires brk / 4096 <= lo || hi <= base / 4096
    ensures BlocksOk(mem', dir, base, brk, limit, bs)
    ensures PayloadsKept(mem, mem', dir, Used(bs))
  {
    hide Peek, Pte, Tiled;
    forall a: Word | a % 4 == 0 && base <= a < brk
      ensures Peek(mem', dir, a) == Peek(mem, dir, a)
    {
      InHeap(mem, dir, base, brk, limit, a);
    }
    TiledBounds(bs, base, brk);
    PageAligned(base);
    TiledAligned(bs, base, brk);
    forall b | b in bs
      ensures HeaderIs(mem', dir, b)
    {
      assert HeaderIs(mem, dir, b);
      WordAligned(b.at);
    }
    KeepsMapped(mem, mem', dir, base, brk, limit, lo, hi);
  }

  lemma KeepsMapped(mem: Memory, mem': Memory, dir: Frame, base: int, brk: int, limit: int, lo: int, hi: int)
    requires BreakOk(base, brk, limit) && MappedBelow(mem, dir, base, brk) && Keeps(mem, mem', dir, lo, hi)
    requires brk / 4096 <= lo || hi <= base / 4096
    ensures MappedBelow(mem', dir, base, brk)
  {
    hide Peek, Pte;
  }

  /** An owner's store inside a payload touches no header. */
  lemma PayloadStore(mem: Memory, mem': Memory, dir: Frame, base: int, brk: int, limit: int,
                     pre: seq<Block>, post: seq<Block>, a: Word, w: Word)
    requires BlocksOk(mem, dir, base, brk, limit, pre + post) && post != []
    requires Tiled(pre, base, post[0].at) && Tiled(post, post[0].at, brk)
    requires a % 4 == 0 && post[0].at + 8 <= a < Next(post[0])
    requires SameTables(mem, mem', dir) && Written(mem, mem', dir, a, w)
    ensures BlocksOk(mem', dir, base, brk, limit, pre + post)
  {
    hide Peek, Pte, Pde, Tiled;
    var bs := pre + post;
    TiledBounds(bs, base, brk);
    TiledBounds(pre, base, post[0].at);
    HeadSized(post, post[0].at, brk);
    TiledBounds(post[1..], Next(post[0]), brk);
    assert post == [post[0]] + post[1..];
    PageAligned(base);
    TiledAligned(bs, base, brk);
    forall b | b in bs
      ensures HeaderIs(mem', dir, b)
    {
      assert HeaderIs(mem, dir, b);
      WordAligned(b.at);
      InHeap(mem, dir, base, brk, limit, b.at);
      InHeap(mem, dir, base, brk, limit, b.at + 4);
      assert b.at != a && b.at + 4 != a;
    }
    SameTablesMapped(mem, mem', dir, base, brk, limit);
  }
}
