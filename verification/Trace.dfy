/** What a trace of calls and answers says about memory, and that memory agrees. */
module Trace {
  import opened Layout
  import opened Bytes
  import opened Mmu
  import opened PageTables
  import opened Paging
  import opened Blocks
  import opened HeapState
  import opened KernelState
  import H = Heap

  type Delta = d: int | -0x8000_0000 <= d < 0x8000_0000

  /** A call into the memory subsystem, with any arguments, or an owner's access to a byte of a block. */
  datatype Call =
    | CallKmalloc(size: Word)
    | CallKfree(pointer: Word)
    | CallKsize(pointer: Word)
    | CallKbrk(delta: Delta)
    | CallKstore(pointer: Word, offset: Word, byte: Byte)
    | CallKload(pointer: Word, offset: Word)
    | CallVmalloc(size: Word)
    | CallVfree(pointer: Word)
    | CallVsize(pointer: Word)
    | CallVbrk(delta: Delta)
    | CallVstore(pointer: Word, offset: Word, byte: Byte)
    | CallVload(pointer: Word, offset: Word)
    | CallFault(addr: Word, error: Word)
    | CallUserDemo

  predicate OfKernelHeap(call: Call) {
    call.CallKmalloc? || call.CallKfree? || call.CallKsize? || call.CallKbrk? || call.CallKstore? || call.CallKload?
  }

  predicate OfVirtualHeap(call: Call) {
    call.CallVmalloc? || call.CallVfree? || call.CallVsize? || call.CallVbrk? || call.CallVstore? || call.CallVload?
  }

  // ----- What callers know -----

  datatype HeapId = KernelHeap | VirtualHeap

  /** A pointer handed out by one of the heaps. */
  datatype Pointer = Pointer(heap: HeapId, at: int)

  /** A byte of the block behind a pointer. */
  datatype Cell = Cell(pointer: Pointer, offset: int)

  /** The block a pointer was granted, and the size asked for. */
  datatype Extent = Extent(block: Block, asked: Word)

  /** The extent of every live pointer, and the last byte stored in each cell of a live block. */
  datatype View = View(extents: map<Pointer, Extent>, bytes: map<Cell, Byte>)

  const NOTHING := View(map[], map[])

  /** What a call does to the view. */
  datatype Deed =
    | DeedAlloc(heap: HeapId, asked: Word)
    | DeedFree(pointer: Pointer)
    | DeedSize(pointer: Pointer)
    | DeedStore(cell: Cell, byte: Byte)
    | DeedLoad(cell: Cell)
    | DeedOther

  function DeedOf(call: Call): Deed {
    match call
    case CallKmalloc(size) => DeedAlloc(KernelHeap, size)
    case CallKfree(p) => DeedFree(Pointer(KernelHeap, p))
    case CallKsize(p) => DeedSize(Pointer(KernelHeap, p))
    case CallKstore(p, offset, byte) => DeedStore(Cell(Pointer(KernelHeap, p), offset), byte)
    case CallKload(p, offset) => DeedLoad(Cell(Pointer(KernelHeap, p), offset))
    case CallVmalloc(size) => DeedAlloc(VirtualHeap, size)
    case CallVfree(p) => DeedFree(Pointer(VirtualHeap, p))
    case CallVsize(p) => DeedSize(Pointer(VirtualHeap, p))
    case CallVstore(p, offset, byte) => DeedStore(Cell(Pointer(VirtualHeap, p), offset), byte)
    case CallVload(p, offset) => DeedLoad(Cell(Pointer(VirtualHeap, p), offset))
    case _ => DeedOther
  }

  /** An allocation adds an extent, a free drops an extent and its bytes, a store that was made sets a byte. */
  function After(v: View, d: Deed, answer: Word, grant: Block): View {
    match d
    case DeedAlloc(heap, asked) =>
      if answer == 0 then v else v.(extents := v.extents[Pointer(heap, answer) := Extent(grant, asked)])
    case DeedFree(p) =>
      View(v.extents - {p}, map c | c in v.bytes && c.pointer != p :: v.bytes[c])
    case DeedStore(c, byte) =>
      if answer == 0 then v else v.(bytes := v.bytes[c := byte])
    case _ => v
  }

  predicate Apart(b: Block, c: Block) {
    Next(b) <= c.at || Next(c) <= b.at
  }

  /** The block is behind the pointer, serves the size asked for, and is less than 16 bytes larger than it need be. */
  predicate Fitting(p: Pointer, e: Extent) {
    && e.block.at + 8 == p.at && e.block.at % 8 == 0
    && 0 <= e.block.at && Next(e.block) <= TABLE_WINDOW
    && H.RoundUp(e.asked) <= e.block.size < H.RoundUp(e.asked) + 16
  }

  predicate InExtent(v: View, c: Cell) {
    c.pointer in v.extents && 0 <= c.offset < v.extents[c.pointer].block.size
  }

  /**
   * One answer against what callers knew. A pointer granted was not live and
   * its block overlaps no live block; a size is that of the block; a store is
   * made exactly inside a live block; a read gives the last byte stored.
   */
  ghost predicate Honest(v: View, d: Deed, answer: Word, grant: Block) {
    match d
    case DeedAlloc(heap, asked) => answer != 0 ==>
      && Pointer(heap, answer) !in v.extents && Fitting(Pointer(heap, answer), Extent(grant, asked))
      && forall p :: p in v.extents ==> Apart(v.extents[p].block, grant)
    case DeedSize(p) => p in v.extents ==> answer == v.extents[p].block.size
    case DeedStore(c, _) => answer != 0 <==> InExtent(v, c)
    case DeedLoad(c) => c in v.bytes ==> answer == v.bytes[c]
    case _ => true
  }

  // ----- Memory agrees with the view -----

  /** The blocks each heap has handed out. */
  datatype Held = Held(kernel: set<Block>, virt: set<Block>) {
    function Of(heap: HeapId): set<Block> {
      if heap.KernelHeap? then kernel else virt
    }

    function All(): set<Block> { kernel + virt }

    function With(heap: HeapId, us: set<Block>): Held {
      if heap.KernelHeap? then Held(us, virt) else Held(kernel, us)
    }
  }

  /** The blocks left once the one behind a pointer is given back. */
  function Freed(us: set<Block>, at: int): set<Block> {
    set b | b in us && b.at + 8 != at
  }

  /** The live pointers are those of the blocks handed out, with the extents they were granted. */
  ghost predicate ExtentsOk(held: Held, extents: map<Pointer, Extent>) {
    && AllBacked(held, extents) && AllApart(extents)
    && AllKnown(held.kernel, KernelHeap, extents) && AllKnown(held.virt, VirtualHeap, extents)
  }

  ghost predicate AllBacked(held: Held, extents: map<Pointer, Extent>) {
    forall p :: p in extents ==> extents[p].block in held.Of(p.heap) && Fitting(p, extents[p])
  }

  ghost predicate AllApart(extents: map<Pointer, Extent>) {
    forall p, q :: p in extents && q in extents && p != q ==> Apart(extents[p].block, extents[q].block)
  }

  ghost predicate AllKnown(us: set<Block>, heap: HeapId, extents: map<Pointer, Extent>) {
    forall b :: b in us ==> Pointer(heap, b.at + 8) in extents && extents[Pointer(heap, b.at + 8)].block == b
  }

  function AddressOf(c: Cell): int { c.pointer.at + c.offset }

  /** Every byte stored in a live block is still there. */
  ghost predicate BytesOk(mem: Memory, dir: Frame, view: View) {
    forall c :: c in view.bytes ==>
      InExtent(view, c) && 0 <= AddressOf(c) < 0x1_0000_0000 && PeekByte(mem, dir, AddressOf(c)) == view.bytes[c]
  }

  ghost predicate ViewOk(mem: Memory, dir: Frame, held: Held, view: View) {
    ExtentsOk(held, view.extents) && BytesOk(mem, dir, view)
  }

  lemma NothingOk(mem: Memory, dir: Frame)
    ensures ViewOk(mem, dir, Held({}, {}), NOTHING)
  {
  }

  /** A cell is inside a live block exactly when the heap has such a block. */
  lemma CellInside(held: Held, v: View, c: Cell)
    requires ExtentsOk(held, v.extents) && c.offset >= 0
    ensures InExtent(v, c) <==> exists b :: b in held.Of(c.pointer.heap) && b.at + 8 == c.pointer.at && c.offset < b.size
  {
    if InExtent(v, c) {
      assert v.extents[c.pointer].block in held.Of(c.pointer.heap);
    }
    forall b | b in held.Of(c.pointer.heap) && b.at + 8 == c.pointer.at && c.offset < b.size
      ensures InExtent(v, c)
    {
      assert Pointer(c.pointer.heap, b.at + 8) == c.pointer;
    }
  }

  /** The byte behind a cell lies in the payload of its block, and so does its word. */
  lemma CellAddress(held: Held, v: View, c: Cell)
    requires ExtentsOk(held, v.extents) && InExtent(v, c)
    ensures var b := v.extents[c.pointer].block;
      && 0 <= AddressOf(c) < 0x1_0000_0000 && b in held.All()
      && b.at + 8 <= AddressOf(c) < Next(b)
      && b.at + 8 <= Aligned(AddressOf(c)) < Next(b) && Aligned(AddressOf(c)) % 4 == 0
  {
    assert Fitting(c.pointer, v.extents[c.pointer]);
    H.WordInside(v.extents[c.pointer].block.at, AddressOf(c));
  }

  /** What changes no live payload changes no stored byte. */
  lemma ViewKept(m0: Memory, m1: Memory, dir: Frame, held: Held, v: View)
    requires ViewOk(m0, dir, held, v) && PayloadsKept(m0, m1, dir, held.All())
    ensures ViewOk(m1, dir, held, v)
  {
    hide Peek, ByteOf, ExtentsOk;
    forall c | c in v.bytes
      ensures PeekByte(m1, dir, AddressOf(c)) == v.bytes[c]
    {
      CellAddress(held, v, c);
      AlignedWord(m0, dir, AddressOf(c));
      AlignedWord(m1, dir, AddressOf(c));
    }
  }

  lemma KnownGranted(us: set<Block>, heap: HeapId, extents: map<Pointer, Extent>, p: Pointer, e: Extent)
    requires AllKnown(us, heap, extents) && p !in extents && e.block.at + 8 == p.at
    ensures AllKnown(us, heap, extents[p := e])
    ensures p.heap == heap ==> AllKnown(us + {e.block}, heap, extents[p := e])
  {
  }

  lemma ApartGranted(extents: map<Pointer, Extent>, p: Pointer, e: Extent)
    requires AllApart(extents) && forall q :: q in extents ==> Apart(extents[q].block, e.block)
    ensures AllApart(extents[p := e])
  {
    ApartSymmetric(e.block);
    hide Apart;
  }

  lemma ExtentsGranted(held: Held, extents: map<Pointer, Extent>, p: Pointer, e: Extent)
    requires ExtentsOk(held, extents) && p !in extents
    requires Fitting(p, e) && forall q :: q in extents ==> Apart(extents[q].block, e.block)
    ensures ExtentsOk(held.With(p.heap, held.Of(p.heap) + {e.block}), extents[p := e])
  {
    hide AllKnown, AllApart, Apart;
    KnownGranted(held.kernel, KernelHeap, extents, p, e);
    KnownGranted(held.virt, VirtualHeap, extents, p, e);
    ApartGranted(extents, p, e);
  }

  lemma ApartSymmetric(b: Block)
    ensures forall c :: Apart(b, c) <==> Apart(c, b)
  {
  }

  lemma NewPointer(held: Held, extents: map<Pointer, Extent>, p: Pointer, e: Extent)
    requires AllBacked(held, extents) && Fitting(p, e) && forall q :: q in extents ==> Apart(extents[q].block, e.block)
    ensures p !in extents
  {
  }

  lemma BytesGranted(mem: Memory, dir: Frame, v: View, p: Pointer, e: Extent)
    requires BytesOk(mem, dir, v) && p !in v.extents
    ensures BytesOk(mem, dir, v.(extents := v.extents[p := e]))
  {
    hide PeekByte;
  }

  /** A block handed out, clear of the live ones. */
  lemma ViewGranted(mem: Memory, dir: Frame, held: Held, v: View, p: Pointer, b: Block, asked: Word)
    requires ViewOk(mem, dir, held, v) && 0 < p.at < 0x1_0000_0000
    requires Fitting(p, Extent(b, asked)) && forall q :: q in v.extents ==> Apart(v.extents[q].block, b)
    ensures ViewOk(mem, dir, held.With(p.heap, held.Of(p.heap) + {b}), After(v, DeedAlloc(p.heap, asked), p.at, b))
    ensures Honest(v, DeedAlloc(p.heap, asked), p.at, b)
  {
    hide AllBacked, AllKnown, AllApart, BytesOk, Fitting, Apart;
    NewPointer(held, v.extents, p, Extent(b, asked));
    BytesGranted(mem, dir, v, p, Extent(b, asked));
    ExtentsGranted(held, v.extents, p, Extent(b, asked));
  }

  lemma KnownFreed(us: set<Block>, heap: HeapId, extents: map<Pointer, Extent>, p: Pointer)
    requires AllKnown(us, heap, extents)
    ensures AllKnown(if heap == p.heap then Freed(us, p.at) else us, heap, extents - {p})
  {
  }

  lemma NullIsHonest(v: View, heap: HeapId, asked: Word, b: Block)
    ensures Honest(v, DeedAlloc(heap, asked), 0, b) && After(v, DeedAlloc(heap, asked), 0, b) == v
  {
  }

  lemma ExtentsFreed(held: Held, extents: map<Pointer, Extent>, p: Pointer)
    requires ExtentsOk(held, extents)
    ensures ExtentsOk(held.With(p.heap, Freed(held.Of(p.heap), p.at)), extents - {p})
  {
    hide AllKnown;
    KnownFreed(held.kernel, KernelHeap, extents, p);
    KnownFreed(held.virt, VirtualHeap, extents, p);
  }

  /** A block given back takes its pointer and its bytes along, and nothing else. */
  lemma ViewFreed(mem: Memory, dir: Frame, held: Held, v: View, p: Pointer)
    requires ViewOk(mem, dir, held, v)
    ensures ViewOk(mem, dir, held.With(p.heap, Freed(held.Of(p.heap), p.at)),
                   After(v, DeedFree(p), 0, Block(0, 0, false)))
  {
    hide PeekByte, ExtentsOk;
    ExtentsFreed(held, v.extents, p);
  }

  /** A byte stored in a live block is the only byte of any live block that changes. */
  lemma ViewStored(m0: Memory, m1: Memory, dir: Frame, held: Held, v: View, c: Cell, byte: Byte)
    requires ViewOk(m0, dir, held, v) && InExtent(v, c) && LiveMapped(m0, dir, held.All())
    requires 0 <= AddressOf(c) < 0x1_0000_0000 && ByteWritten(m0, m1, dir, AddressOf(c), byte)
    ensures ViewOk(m1, dir, held, After(v, DeedStore(c, byte), 1, Block(0, 0, false)))
  {
    hide PeekByte, ByteWritten, LiveMapped, Fitting;
    var v' := After(v, DeedStore(c, byte), 1, Block(0, 0, false));
    forall d | d in v'.bytes
      ensures InExtent(v', d) && 0 <= AddressOf(d) < 0x1_0000_0000 && PeekByte(m1, dir, AddressOf(d)) == v'.bytes[d]
    {
      assert InExtent(v, d);
      CellAddress(held, v, d);
      LiveMappedAt(m0, dir, held.All(), AddressOf(d));
      ByteWrittenReads(m0, m1, dir, AddressOf(c), byte, AddressOf(d));
      if d != c {
        CellsApart(held, v, c, d);
      }
    }
  }

  /** Different cells are different addresses. */
  lemma CellsApart(held: Held, v: View, c: Cell, d: Cell)
    requires ExtentsOk(held, v.extents) && InExtent(v, c) && InExtent(v, d) && c != d
    ensures AddressOf(c) != AddressOf(d)
  {
    CellAddress(held, v, c);
    CellAddress(held, v, d);
    if c.pointer != d.pointer {
      assert Apart(v.extents[c.pointer].block, v.extents[d.pointer].block);
    }
  }

  // ----- What each call owes its caller -----

  /** A heap between two calls: its configuration, its break and its blocks. */
  datatype HeapShot = HeapShot(backing: H.Backing, base: Word, limit: Word, physBase: Word, physEnd: Word,
                               brk: Word, blocks: seq<Block>)

  /** The whole of memory between two calls, with the free frames, the holder of every frame and both heaps. */
  datatype Shot = Shot(mem: Memory, dir: Frame, free: set<Frame>, owner: Owners, kernel: HeapShot, virt: HeapShot)

  /** Heap `h` cannot grow by a page. */
  ghost predicate Full(s: Shot, h: HeapShot) {
    H.StuckAt(s.mem, s.dir, s.free, h.backing, h.base, h.limit, h.physBase, h.physEnd, h.brk)
  }

  ghost predicate ShotHeapOk(s: Shot, h: HeapShot) {
    H.HeapAt(s.mem, s.dir, s.owner, h.backing, h.base, h.brk, h.limit, h.physBase, h.physEnd, h.blocks)
  }

  /** Both heaps lie in memory where the plan has them, and memory agrees with what callers know. */
  ghost predicate ShotOk(s: Shot, v: View) {
    && s.kernel.base == 0xD000_0000 && s.kernel.limit == 0xD200_0000 && s.kernel.backing.Contiguous?
    && s.virt.base == 0xE000_0000 && s.virt.limit == 0xF000_0000 && s.virt.backing.Scattered?
    && ShotHeapOk(s, s.kernel) && ShotHeapOk(s, s.virt)
    && ViewOk(s.mem, s.dir, Held(Used(s.kernel.blocks), Used(s.virt.blocks)), v)
  }

  /** An allocation gives the answer of the allocator and moves nothing but the break and the blocks of its heap. */
  ghost predicate OwesAlloc(h: HeapShot, size: Word, answer: Word, h': HeapShot, full': bool) {
    && h' == h.(brk := h'.brk, blocks := h'.blocks)
    && H.AllocAnswer(h.base, h.limit, h.blocks, h.brk, size, answer, h'.blocks, h'.brk, full')
  }

  ghost predicate OwesBrk(h: HeapShot, full: bool, delta: int, answer: Word, h': HeapShot, full': bool) {
    && h' == h.(brk := h'.brk, blocks := h'.blocks)
    && H.BrkAnswer(h.base, h.brk, h.blocks, full, delta, answer, h'.brk, h'.blocks, full')
  }

  /** The payload size of the block behind the pointer, handed out or not, and zero where there is none. */
  ghost predicate OwesSize(bs: seq<Block>, pointer: Word, answer: Word) {
    && (forall b :: b in bs && b.at + 8 == pointer ==> answer == b.size)
    && ((forall b :: b in bs ==> b.at + 8 != pointer) ==> answer == 0)
  }

  /** Byte `offset` behind `pointer` lies in a block handed out. */
  ghost predicate IsLive(bs: seq<Block>, pointer: Word, offset: Word) {
    exists b :: b in Used(bs) && b.at + 8 == pointer && offset < b.size
  }

  ghost predicate OwesStore(s: Shot, bs: seq<Block>, pointer: Word, offset: Word, byte: Byte, answer: Word, s': Shot) {
    && s' == s.(mem := s'.mem)
    && answer == (if IsLive(bs, pointer, offset) then 1 else 0)
    && (answer == 0 ==> s' == s)
    && (answer != 0 ==> pointer + offset < 0x1_0000_0000 && ByteWritten(s.mem, s'.mem, s.dir, pointer + offset, byte))
  }

  ghost predicate OwesLoad(s: Shot, bs: seq<Block>, pointer: Word, offset: Word, answer: Word) {
    if IsLive(bs, pointer, offset)
    then pointer + offset < 0x1_0000_0000 && answer == PeekByte(s.mem, s.dir, pointer + offset)
    else answer == 0
  }

  /** A fault is recovered exactly when its page is absent, in the demand zone, and frames are left. */
  ghost predicate OwesFault(s: Shot, addr: Word, error: Word, answer: Word, s': Shot) {
    && s'.kernel == s.kernel && s'.virt == s.virt
    && answer == (if && error % 2 == 0 && 0x0080_0000 <= addr < 0x0090_0000
                     && !IsMapped(s.mem, s.dir, addr / 4096) && !FewFrames(s.mem, s.dir, s.free, addr / 4096)
                  then 1 else 0)
    && (answer == 0 ==> s' == s)
    && (answer != 0 ==> FreshUserPage(s'.mem, s'.dir, addr / 4096))
  }

  /** The demonstration answers with the word it wrote, unless frames are short, and leaves no page behind. */
  ghost predicate OwesDemo(s: Shot, answer: Word, s': Shot) {
    && s'.kernel == s.kernel && s'.virt == s.virt
    && !IsMapped(s'.mem, s'.dir, DEMO_PAGE)
    && (answer == 0x4242_4242 || (answer == 0 && FewFrames(s'.mem, s'.dir, s'.free, DEMO_PAGE)))
  }

  /** The answer a call owes in state `s`, and the state `s'` it leaves. */
  ghost predicate Owes(s: Shot, call: Call, answer: Word, s': Shot) {
    && s'.dir == s.dir
    && match call
       case CallKmalloc(size) => OwesAlloc(s.kernel, size, answer, s'.kernel, Full(s', s'.kernel)) && s'.virt == s.virt
       case CallKfree(p) =>
         s' == s.(mem := s'.mem, kernel := s.kernel.(blocks := H.FreedBlocks(s.kernel.blocks, p)))
       case CallKsize(p) => s' == s && OwesSize(s.kernel.blocks, p, answer)
       case CallKbrk(delta) =>
         && OwesBrk(s.kernel, Full(s, s.kernel), delta, answer, s'.kernel, Full(s', s'.kernel))
         && s'.virt == s.virt && (answer == 0 ==> s' == s)
       case CallKstore(p, offset, byte) => OwesStore(s, s.kernel.blocks, p, offset, byte, answer, s')
       case CallKload(p, offset) => s' == s && OwesLoad(s, s.kernel.blocks, p, offset, answer)
       case CallVmalloc(size) => OwesAlloc(s.virt, size, answer, s'.virt, Full(s', s'.virt)) && s'.kernel == s.kernel
       case CallVfree(p) =>
         s' == s.(mem := s'.mem, virt := s.virt.(blocks := H.FreedBlocks(s.virt.blocks, p)))
       case CallVsize(p) => s' == s && OwesSize(s.virt.blocks, p, answer)
       case CallVbrk(delta) =>
         && OwesBrk(s.virt, Full(s, s.virt), delta, answer, s'.virt, Full(s', s'.virt))
         && s'.kernel == s.kernel && (answer == 0 ==> s' == s)
       case CallVstore(p, offset, byte) => OwesStore(s, s.virt.blocks, p, offset, byte, answer, s')
       case CallVload(p, offset) => s' == s && OwesLoad(s, s.virt.blocks, p, offset, answer)
       case CallFault(addr, error) => OwesFault(s, addr, error, answer, s')
       case CallUserDemo => OwesDemo(s, answer, s')
  }

  // ----- Whole runs -----

  /** What callers know at the end of a run. */
  ghost function Reread(v: View, calls: seq<Call>, answers: seq<Word>, grants: seq<Block>): View
    requires |answers| == |calls| == |grants|
  {
    if calls == [] then v
    else
      var n := |calls| - 1;
      After(Reread(v, calls[..n], answers[..n], grants[..n]), DeedOf(calls[n]), answers[n], grants[n])
  }

  /**
   * The run through the states `shots`: every answer was honest when it was
   * given and was the one owed, and memory agreed with what callers knew before
   * and after every call.
   */
  ghost predicate Truthful(v: View, calls: seq<Call>, answers: seq<Word>, grants: seq<Block>, shots: seq<Shot>)
    requires |answers| == |calls| == |grants|
  {
    && |shots| == |calls| + 1
    && ShotOk(shots[|calls|], Reread(v, calls, answers, grants))
    && (calls != [] ==>
          var n := |calls| - 1;
          && Truthful(v, calls[..n], answers[..n], grants[..n], shots[..n + 1])
          && Honest(Reread(v, calls[..n], answers[..n], grants[..n]), DeedOf(calls[n]), answers[n], grants[n])
          && Owes(shots[n], calls[n], answers[n], shots[n + 1]))
  }

  function FaultAfter(call: Call, answer: Word): nat {
    if call.CallFault? then answer else 0
  }

  /** The faults recovered on the way. */
  function Faults(calls: seq<Call>, answers: seq<Word>): nat
    requires |answers| == |calls|
  {
    if calls == [] then 0
    else
      var n := |calls| - 1;
      Faults(calls[..n], answers[..n]) + FaultAfter(calls[n], answers[n])
  }

  lemma TraceStep(v: View, calls: seq<Call>, answers: seq<Word>, grants: seq<Block>, shots: seq<Shot>,
                  call: Call, answer: Word, grant: Block, shot: Shot)
    requires |answers| == |calls| == |grants| && Truthful(v, calls, answers, grants, shots)
    requires Honest(Reread(v, calls, answers, grants), DeedOf(call), answer, grant)
    requires Owes(shots[|calls|], call, answer, shot)
    requires ShotOk(shot, After(Reread(v, calls, answers, grants), DeedOf(call), answer, grant))
    ensures Reread(v, calls + [call], answers + [answer], grants + [grant])
         == After(Reread(v, calls, answers, grants), DeedOf(call), answer, grant)
    ensures Truthful(v, calls + [call], answers + [answer], grants + [grant], shots + [shot])
    ensures Faults(calls + [call], answers + [answer]) == Faults(calls, answers) + FaultAfter(call, answer)
  {
    hide After, Honest, DeedOf, FaultAfter, Owes, ShotOk;
    var n := |calls|;
    assert (calls + [call])[..n] == calls && (answers + [answer])[..n] == answers && (grants + [grant])[..n] == grants;
    assert (shots + [shot])[..n + 1] == shots;
  }

  /** What a truthful run says of its call number `i`. */
  lemma {:induction false} CallAt(v: View, calls: seq<Call>, answers: seq<Word>, grants: seq<Block>, shots: seq<Shot>,
                                  i: nat)
    requires |answers| == |calls| == |grants| && Truthful(v, calls, answers, grants, shots) && i < |calls|
    ensures Honest(Reread(v, calls[..i], answers[..i], grants[..i]), DeedOf(calls[i]), answers[i], grants[i])
    ensures Owes(shots[i], calls[i], answers[i], shots[i + 1])
    ensures ShotOk(shots[i], Reread(v, calls[..i], answers[..i], grants[..i]))
  {
    hide Honest, DeedOf, Owes, ShotOk, Reread;
    var n := |calls| - 1;
    if i < n {
      CallAt(v, calls[..n], answers[..n], grants[..n], shots[..n + 1], i);
      assert calls[..n][..i] == calls[..i] && answers[..n][..i] == answers[..i] && grants[..n][..i] == grants[..i];
    }
  }

  /**
   * In a truthful run null answers only a request of zero bytes, one of more
   * than the range holds, or one that no run of free blocks fits where the heap
   * cannot grow by a page.
   */
  lemma NullMeans(v: View, calls: seq<Call>, answers: seq<Word>, grants: seq<Block>, shots: seq<Shot>, i: nat)
    requires |answers| == |calls| == |grants| && Truthful(v, calls, answers, grants, shots) && i < |calls|
    requires answers[i] == 0
    ensures calls[i].CallKmalloc? ==> Refused(calls[i].size, 0x1FF_FFF8, shots[i + 1], shots[i + 1].kernel)
    ensures calls[i].CallVmalloc? ==> Refused(calls[i].size, 0xFFF_FFF8, shots[i + 1], shots[i + 1].virt)
  {
    CallAt(v, calls, answers, grants, shots, i);
    var s, s' := shots[i], shots[i + 1];
    hide Honest, ShotHeapOk, ViewOk, Truthful, Reread, Full, H.BrkAnswer, ByteWritten, PeekByte;
    if calls[i].CallKmalloc? {
      NullAnswer(s.kernel, calls[i].size, s'.kernel, Full(s', s'.kernel));
    } else if calls[i].CallVmalloc? {
      NullAnswer(s.virt, calls[i].size, s'.virt, Full(s', s'.virt));
    }
  }

  ghost predicate Refused(size: Word, most: int, s: Shot, h: HeapShot) {
    || size == 0 || size > most
    || (Full(s, h) && forall b :: b in Coalesce(h.blocks) ==> !Fits(b, H.RoundUp(size)))
  }

  lemma NullAnswer(h: HeapShot, size: Word, h': HeapShot, full': bool)
    requires OwesAlloc(h, size, 0, h', full')
    ensures size == 0 || size > h.limit - h.base - 8 ||
      (full' && forall b :: b in Coalesce(h'.blocks) ==> !Fits(b, H.RoundUp(size)))
  {
    if 0 < size <= h.limit - h.base - 8 {
      var need := H.RoundUp(size);
      var bs := Coalesce(h.blocks);
      LowestFitFinds(bs, need);
      var grown := if h'.brk == h.brk then bs else Grown(bs, h.brk, h'.brk - h.brk);
      assert h'.blocks == Coalesce(grown);
      LowestFitFinds(h'.blocks, need);
      CoalesceTwice(grown);
    }
  }

  /** The first request of a heap with no page yet is served right after the first header, unless no page can be had. */
  lemma FirstServed(h: HeapShot, size: Word, answer: Word, h': HeapShot, full': bool)
    requires OwesAlloc(h, size, answer, h', full')
    requires h.blocks == [] && h.brk == h.base && 0 < size <= h.limit - h.base - 8
    ensures answer == h.base + 8 || (answer == 0 && full')
  {
    assert Coalesce([]) == [] && LowestFit([], H.RoundUp(size)).None?;
    var b := Block(h.brk, h'.brk - h.brk - 8, false);
    assert Grown([], h.brk, h'.brk - h.brk) == [b];
    assert Coalesce([b]) == [b] by {
      assert [b][1..] == [];
    }
    LowestFitFinds([b], H.RoundUp(size));
  }
}
