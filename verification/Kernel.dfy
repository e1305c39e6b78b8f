/** The kernel's memory after boot: two heaps, the paging layer and the frame pool under every run of calls. */
module Kernel {
  import opened Options
  import opened Layout
  import opened Bytes
  import opened Mmu
  import opened PageTables
  import opened Paging
  import opened Blocks
  import opened HeapState
  import opened Boot
  import opened KernelState
  import opened Trace
  import H = Heap
  import Pmm

  /** What the demonstration prints: its frame, the word read back, the entry after `protect`, and the last two answers. */
  datatype Report = Report(frame: Word, read: Word, entry: Word, refused: bool, gone: bool)

  /** The word written is read back, the page is then read-only for user code, and both later attempts find nothing. */
  predicate Expected(r: Report) {
    && r.read == 0x4242_4242
    && Present(r.entry) && !Writable(r.entry) && UserBit(r.entry) && r.entry / 4096 == r.frame / 4096
    && r.refused && r.gone
  }

  class Kernel {
    const vm: Vm
    const kheap: H.Heap
    const vheap: H.Heap
    const image: Image
    /** What callers know: the extent of every live pointer and every byte stored behind one. */
    ghost var view: View
    /** The page faults the handler has recovered. */
    ghost var recovered: nat

    ghost predicate Wired() {
      && kheap.vm == vm && vheap.vm == vm && kheap != vheap
      && kheap.base == KHEAP_BASE && kheap.limit == KHEAP_LIMIT && kheap.backing.Contiguous?
      && vheap.base == VMALLOC_BASE && vheap.limit == VMALLOC_LIMIT && vheap.backing.Scattered?
    }

    /** The blocks each heap has handed out. */
    ghost function Handed(): Held
      reads kheap, vheap
    {
      Held(Used(kheap.blocks), Used(vheap.blocks))
    }

    ghost function HeapShotOf(heap: H.Heap): HeapShot
      reads heap
    {
      HeapShot(heap.backing, heap.base, heap.limit, heap.physBase, heap.physEnd, heap.brk, heap.blocks)
    }

    /** The state of memory as a value. */
    ghost function Snap(): Shot
      reads kheap, vheap, vm, vm.mmu, vm.pmm
    {
      Shot(vm.mmu.mem, vm.mmu.dir, vm.pmm.free, vm.owner, HeapShotOf(kheap), HeapShotOf(vheap))
    }

    ghost predicate Valid()
      reads this, kheap, vheap, vm, vm.mmu, vm.pmm, vm.pmm.words
    {
      && Wired()
      && kheap.Valid() && vheap.Valid()
      && OwnersOk(vm.owner, image)
      && FixedOk(vm.mmu.mem, vm.mmu.dir, image)
      && ViewOk(vm.mmu.mem, vm.mmu.dir, Handed(), view)
      && recovered == |DemandPages(vm.mmu.mem, vm.mmu.dir)|
    }

    constructor (vm: Vm, kheap: H.Heap, vheap: H.Heap, image: Image)
      ensures this.vm == vm && this.kheap == kheap && this.vheap == vheap && this.image == image
      ensures view == NOTHING && recovered == 0
    {
      this.vm, this.kheap, this.vheap, this.image := vm, kheap, vheap, image;
      view, recovered := NOTHING, 0;
    }

    // ----- The view after an operation -----

    /** Two blocks handed out are one or do not overlap; across the heaps they never meet. */
    lemma BlocksApart(h: HeapId, b: Block, g: HeapId, c: Block)
      requires Wired() && kheap.Valid() && vheap.Valid() && b in Handed().Of(h) && c in Handed().Of(g)
      ensures Apart(b, c) || (h == g && b == c)
      ensures b.at % 8 == 0 && 0 <= b.at && Next(b) <= TABLE_WINDOW && b.size % 8 == 0 && b.size >= 8
    {
      hide Vm.Valid, UnmappedFrom, H.BackingOk, Headers, Pte, Tiled, MappedBelow;
      kheap.BlockInHeap(b);
      kheap.BlockInHeap(c);
      vheap.BlockInHeap(b);
      vheap.BlockInHeap(c);
      if h == g == KernelHeap {
        TiledDisjoint(kheap.blocks, kheap.base, kheap.brk, b, c);
      } else if h == g {
        TiledDisjoint(vheap.blocks, vheap.base, vheap.brk, b, c);
      }
    }

    /** A block newly handed out by one heap, with every live payload kept. */
    lemma AfterGrant(m0: Memory, was: Held, v: View, h: HeapId, p: Word, b: Block, asked: Word)
      requires Wired() && kheap.Valid() && vheap.Valid()
      requires ViewOk(m0, vm.mmu.dir, was, v) && PayloadsKept(m0, vm.mmu.mem, vm.mmu.dir, was.All())
      requires Handed() == was.With(h, was.Of(h) + {b}) && b !in was.Of(h)
      requires p != 0 && b.at + 8 == p && H.RoundUp(asked) <= b.size < H.RoundUp(asked) + 16
      ensures ViewOk(vm.mmu.mem, vm.mmu.dir, Handed(), After(v, DeedAlloc(h, asked), p, b))
      ensures Honest(v, DeedAlloc(h, asked), p, b)
    {
      hide Vm.Valid, UnmappedFrom, H.BackingOk, BlocksOk, Used, BytesOk, AllKnown, AllApart, Apart, PayloadsKept, H.RoundUp;
      BlocksApart(h, b, h, b);
      forall q | q in v.extents
        ensures Apart(v.extents[q].block, b)
      {
        BlocksApart(q.heap, v.extents[q].block, h, b);
      }
      ViewKept(m0, vm.mmu.mem, vm.mmu.dir, was, v);
      ViewGranted(vm.mmu.mem, vm.mmu.dir, was, v, Pointer(h, p), b, asked);
    }

    /** A block given back by one heap, with every live payload kept. */
    lemma AfterFree(m0: Memory, was: Held, v: View, p: Pointer)
      requires ViewOk(m0, vm.mmu.dir, was, v) && PayloadsKept(m0, vm.mmu.mem, vm.mmu.dir, was.All())
      requires Handed() == was.With(p.heap, Freed(was.Of(p.heap), p.at))
      ensures ViewOk(vm.mmu.mem, vm.mmu.dir, Handed(), After(v, DeedFree(p), 0, Block(0, 0, false)))
    {
      hide ViewOk, PayloadsKept, After;
      ViewKept(m0, vm.mmu.mem, vm.mmu.dir, was, v);
      ViewFreed(vm.mmu.mem, vm.mmu.dir, was, v, p);
    }

    /** A byte stored behind a pointer of one heap. */
    lemma AfterStore(m0: Memory, v: View, c: Cell, byte: Byte)
      requires Wired() && ViewOk(m0, vm.mmu.dir, Handed(), v) && InExtent(v, c)
      requires BlocksOk(m0, vm.mmu.dir, kheap.base, kheap.brk, kheap.limit, kheap.blocks)
      requires BlocksOk(m0, vm.mmu.dir, vheap.base, vheap.brk, vheap.limit, vheap.blocks)
      requires 0 <= AddressOf(c) < 0x1_0000_0000 && ByteWritten(m0, vm.mmu.mem, vm.mmu.dir, AddressOf(c), byte)
      ensures InLive(Handed().Of(c.pointer.heap), Aligned(AddressOf(c))) && Aligned(AddressOf(c)) % 4 == 0
      ensures ViewOk(vm.mmu.mem, vm.mmu.dir, Handed(), After(v, DeedStore(c, byte), 1, Block(0, 0, false)))
    {
      hide BlocksOk, LiveMapped, ByteWritten, BytesOk, AllKnown, AllApart, Fitting, Used, After;
      CellAddress(Handed(), v, c);
      assert v.extents[c.pointer].block in Handed().Of(c.pointer.heap);
      BlocksMapped(m0, vm.mmu.dir, kheap.base, kheap.brk, kheap.limit, kheap.blocks);
      BlocksMapped(m0, vm.mmu.dir, vheap.base, vheap.brk, vheap.limit, vheap.blocks);
      LiveMappedUnion(m0, vm.mmu.dir, Used(kheap.blocks), Used(vheap.blocks));
      ViewStored(m0, vm.mmu.mem, vm.mmu.dir, Handed(), v, c, byte);
    }

    // ----- The kmalloc heap -----

    /** After an operation of the kmalloc heap alone. */
    lemma AfterKernelHeap(m0: Memory, o0: Owners, was: seq<Block>)
      requires Wired() && kheap.Valid()
      requires OwnersOk(o0, image) && FixedOk(m0, vm.mmu.dir, image)
      requires H.HeapAt(m0, vm.mmu.dir, o0, vheap.backing, vheap.base, vheap.brk, vheap.limit,
                        vheap.physBase, vheap.physEnd, vheap.blocks)
      requires Keeps(m0, vm.mmu.mem, vm.mmu.dir, KHEAP_BASE / 4096, KHEAP_LIMIT / 4096)
      requires PayloadsKept(m0, vm.mmu.mem, vm.mmu.dir, Used(was))
      requires H.NoneHeld(o0, KHEAP_BASE / 4096, KHEAP_LIMIT / 4096)
      requires Traded(o0, vm.owner, KHEAP_BASE / 4096, KHEAP_LIMIT / 4096)
      ensures vheap.Valid()
      ensures OwnersOk(vm.owner, image) && FixedOk(vm.mmu.mem, vm.mmu.dir, image)
      ensures PayloadsKept(m0, vm.mmu.mem, vm.mmu.dir, Used(was) + Used(vheap.blocks))
      ensures DemandPages(vm.mmu.mem, vm.mmu.dir) == DemandPages(m0, vm.mmu.dir)
    {
      hide Vm.Valid, Keeps, PayloadsKept, DemandPages, OwnersOk, FixedOk, Traded, Used,
           H.NoneHeld, BlocksOk, UnmappedFrom, H.BackingOk;
      kheap.ContiguousHoldsNone();
      TradedNothing(o0, vm.owner, KHEAP_BASE / 4096, KHEAP_LIMIT / 4096);
      HeapOp(m0, vm.mmu.mem, vm.mmu.dir, o0, vm.owner, image, KHEAP_BASE / 4096, KHEAP_LIMIT / 4096,
             Used(was), vheap.backing, vheap.base, vheap.brk, vheap.limit,
             vheap.physBase, vheap.physEnd, vheap.blocks);
    }

    method Kmalloc(size: Word) returns (p: Word, ghost b: Block)
      requires Valid()
      modifies this, kheap`brk, kheap`blocks, vm`owner, vm.mmu`mem, vm.mmu`tlb, vm.pmm`free, vm.pmm`available, vm.pmm.words
      ensures Valid() && recovered == old(recovered)
      ensures Owes(old(Snap()), CallKmalloc(size), p, Snap())
      ensures Honest(old(view), DeedAlloc(KernelHeap, size), p, b)
      ensures view == After(old(view), DeedAlloc(KernelHeap, size), p, b)
    {
      hide Vm.Valid, OwnersOk, FixedOk, ViewOk, DemandPages, Used, H.BackingOk, BlocksOk, UnmappedFrom,
           Keeps, PayloadsKept, Drawn, Settled, Traded, H.NoneHeld, H.StuckAt, H.AllocAnswer, H.RoundUp, Honest;
      ghost var m0, o0, k0, b0, was := vm.mmu.mem, vm.owner, kheap.brk, kheap.blocks, Handed();
      kheap.ContiguousHoldsNone();
      kheap.BreakInRange();
      p, b := kheap.Alloc(size);
      kheap.BreakInRange();
      DrawnTrades(o0, vm.owner, k0 / 4096, kheap.brk / 4096, KHEAP_BASE / 4096, KHEAP_LIMIT / 4096);
      AfterKernelHeap(m0, o0, b0);
      if p != 0 {
        AfterGrant(m0, was, view, KernelHeap, p, b, size);
        view := After(view, DeedAlloc(KernelHeap, size), p, b);
      } else {
        ViewKept(m0, vm.mmu.mem, vm.mmu.dir, was, view);
        NullIsHonest(view, KernelHeap, size, b);
      }
    }

    method Kfree(pointer: Word)
      requires Valid()
      modifies this, kheap`blocks, vm.mmu`mem, vm.mmu`tlb
      ensures Valid() && recovered == old(recovered)
      ensures Owes(old(Snap()), CallKfree(pointer), 0, Snap())
      ensures view == After(old(view), DeedFree(Pointer(KernelHeap, pointer)), 0, Block(0, 0, false))
    {
      hide Vm.Valid, OwnersOk, FixedOk, ViewOk, DemandPages, Used, H.BackingOk, BlocksOk, UnmappedFrom,
           Keeps, PayloadsKept, Drawn, Settled, Traded, H.NoneHeld, SameTables, After;
      ghost var m0, b0, was := vm.mmu.mem, kheap.blocks, Handed();
      kheap.ContiguousHoldsNone();
      TradedSame(vm.owner, KHEAP_BASE / 4096, KHEAP_LIMIT / 4096);
      kheap.Free(pointer);
      AfterKernelHeap(m0, vm.owner, b0);
      assert Used(kheap.blocks) == Freed(Used(b0), pointer);
      AfterFree(m0, was, view, Pointer(KernelHeap, pointer));
      view := After(view, DeedFree(Pointer(KernelHeap, pointer)), 0, Block(0, 0, false));
    }

    method Kbrk(delta: int) returns (r: Word)
      requires Valid() && -0x8000_0000 <= delta < 0x8000_0000
      modifies this, kheap`brk, kheap`blocks, vm`owner, vm.mmu`mem, vm.mmu`tlb, vm.pmm`free, vm.pmm`available, vm.pmm.words
      ensures Valid() && view == old(view) && recovered == old(recovered)
      ensures Owes(old(Snap()), CallKbrk(delta), r, Snap())
    {
      hide Vm.Valid, OwnersOk, FixedOk, ViewOk, DemandPages, Used, H.BackingOk, BlocksOk, UnmappedFrom,
           Keeps, PayloadsKept, Drawn, Returned, Settled, Traded, H.NoneHeld, H.StuckAt, H.ShrinkAnswer, Grown;
      ghost var m0, o0, k0, b0 := vm.mmu.mem, vm.owner, kheap.brk, kheap.blocks;
      kheap.ContiguousHoldsNone();
      kheap.BreakInRange();
      r := kheap.Brk(delta);
      kheap.BreakInRange();
      DrawnTrades(o0, vm.owner, k0 / 4096, kheap.brk / 4096, KHEAP_BASE / 4096, KHEAP_LIMIT / 4096);
      DrawnTrades(o0, vm.owner, kheap.brk / 4096, k0 / 4096, KHEAP_BASE / 4096, KHEAP_LIMIT / 4096);
      AfterKernelHeap(m0, o0, b0);
      ViewKept(m0, vm.mmu.mem, vm.mmu.dir, Handed(), view);
    }

    method Ksize(pointer: Word) returns (size: Word)
      requires Valid()
      modifies vm.mmu`tlb
      ensures Valid()
      ensures Owes(old(Snap()), CallKsize(pointer), size, Snap())
      ensures Honest(view, DeedSize(Pointer(KernelHeap, pointer)), size, Block(0, 0, false))
    {
      hide Vm.Valid, OwnersOk, FixedOk, BytesOk, AllKnown, AllApart, DemandPages, H.BackingOk, BlocksOk, UnmappedFrom;
      size := kheap.Size(pointer);
    }

    /** An owner's store through a pointer of the kmalloc heap; a store outside a live block is not made. */
    method Kstore(pointer: Word, offset: Word, byte: Byte) returns (stored: bool)
      requires Valid()
      modifies this, vm.mmu`mem, vm.mmu`tlb
      ensures Valid() && recovered == old(recovered)
      ensures Owes(old(Snap()), CallKstore(pointer, offset, byte), if stored then 1 else 0, Snap())
      ensures stored <==> InExtent(old(view), Cell(Pointer(KernelHeap, pointer), offset))
      ensures view == if stored
        then After(old(view), DeedStore(Cell(Pointer(KernelHeap, pointer), offset), byte), 1, Block(0, 0, false))
        else old(view)
    {
      hide Vm.Valid, OwnersOk, FixedOk, BytesOk, AllBacked, AllKnown, AllApart, DemandPages, H.BackingOk, BlocksOk, UnmappedFrom,
           Written, SameTables, After, InExtent, InLive;
      ghost var m0, c := vm.mmu.mem, Cell(Pointer(KernelHeap, pointer), offset);
      CellInside(Handed(), view, c);
      stored := kheap.OwnerStore(pointer, offset, byte);
      if stored {
        AfterStore(m0, view, c, byte);
        StoreOp(m0, vm.mmu.mem, vm.mmu.dir, vm.owner, image, Aligned(pointer + offset),
                WithByte(Peek(m0, vm.mmu.dir, pointer + offset), (pointer + offset) % 4, byte),
                kheap.base, kheap.brk, kheap.limit, kheap.blocks,
                vheap.backing, vheap.base, vheap.brk, vheap.limit, vheap.physBase, vheap.physEnd, vheap.blocks);
        view := After(view, DeedStore(c, byte), 1, Block(0, 0, false));
      }
    }

    /** An owner's read through a pointer of the kmalloc heap; nothing outside a live block. */
    method Kload(pointer: Word, offset: Word) returns (byte: Byte)
      requires Valid()
      modifies vm.mmu`tlb
      ensures Valid()
      ensures Owes(old(Snap()), CallKload(pointer, offset), byte, Snap())
      ensures Honest(view, DeedLoad(Cell(Pointer(KernelHeap, pointer), offset)), byte, Block(0, 0, false))
    {
      hide Vm.Valid, OwnersOk, FixedOk, AllBacked, AllKnown, AllApart, DemandPages, H.BackingOk, BlocksOk, UnmappedFrom,
           InExtent, PeekByte;
      CellInside(Handed(), view, Cell(Pointer(KernelHeap, pointer), offset));
      var r := kheap.OwnerLoad(pointer, offset);
      byte := if r.Some? then r.value else 0;
    }

    // ----- The vmalloc heap -----

    /** After an operation of the vmalloc heap alone. */
    lemma AfterVirtualHeap(m0: Memory, o0: Owners, was: seq<Block>)
      requires Wired() && vheap.Valid()
      requires OwnersOk(o0, image) && FixedOk(m0, vm.mmu.dir, image)
      requires H.HeapAt(m0, vm.mmu.dir, o0, kheap.backing, kheap.base, kheap.brk, kheap.limit,
                        kheap.physBase, kheap.physEnd, kheap.blocks)
      requires Keeps(m0, vm.mmu.mem, vm.mmu.dir, VMALLOC_BASE / 4096, VMALLOC_LIMIT / 4096)
      requires PayloadsKept(m0, vm.mmu.mem, vm.mmu.dir, Used(was))
      requires Traded(o0, vm.owner, VMALLOC_BASE / 4096, VMALLOC_LIMIT / 4096)
      ensures kheap.Valid()
      ensures OwnersOk(vm.owner, image) && FixedOk(vm.mmu.mem, vm.mmu.dir, image)
      ensures PayloadsKept(m0, vm.mmu.mem, vm.mmu.dir, Used(kheap.blocks) + Used(was))
      ensures DemandPages(vm.mmu.mem, vm.mmu.dir) == DemandPages(m0, vm.mmu.dir)
    {
      hide Vm.Valid, Keeps, PayloadsKept, DemandPages, OwnersOk, FixedOk, Traded, Used,
           BlocksOk, UnmappedFrom, H.BackingOk;
      HeapOp(m0, vm.mmu.mem, vm.mmu.dir, o0, vm.owner, image, VMALLOC_BASE / 4096, VMALLOC_LIMIT / 4096,
             Used(was), kheap.backing, kheap.base, kheap.brk, kheap.limit,
             kheap.physBase, kheap.physEnd, kheap.blocks);
    }

    method Vmalloc(size: Word) returns (p: Word, ghost b: Block)
      requires Valid()
      modifies this, vheap`brk, vheap`blocks, vm`owner, vm.mmu`mem, vm.mmu`tlb, vm.pmm`free, vm.pmm`available, vm.pmm.words
      ensures Valid() && recovered == old(recovered)
      ensures Owes(old(Snap()), CallVmalloc(size), p, Snap())
      ensures Honest(old(view), DeedAlloc(VirtualHeap, size), p, b)
      ensures view == After(old(view), DeedAlloc(VirtualHeap, size), p, b)
    {
      hide Vm.Valid, OwnersOk, FixedOk, ViewOk, DemandPages, Used, H.BackingOk, BlocksOk, UnmappedFrom,
           Keeps, PayloadsKept, Drawn, Settled, Traded, H.StuckAt, H.AllocAnswer, H.RoundUp, Honest;
      ghost var m0, o0, v0, b0, was := vm.mmu.mem, vm.owner, vheap.brk, vheap.blocks, Handed();
      vheap.BreakInRange();
      p, b := vheap.Alloc(size);
      vheap.BreakInRange();
      DrawnTrades(o0, vm.owner, v0 / 4096, vheap.brk / 4096, VMALLOC_BASE / 4096, VMALLOC_LIMIT / 4096);
      AfterVirtualHeap(m0, o0, b0);
      if p != 0 {
        AfterGrant(m0, was, view, VirtualHeap, p, b, size);
        view := After(view, DeedAlloc(VirtualHeap, size), p, b);
      } else {
        ViewKept(m0, vm.mmu.mem, vm.mmu.dir, was, view);
        NullIsHonest(view, VirtualHeap, size, b);
      }
    }

    method Vfree(pointer: Word)
      requires Valid()
      modifies this, vheap`blocks, vm.mmu`mem, vm.mmu`tlb
      ensures Valid() && recovered == old(recovered)
      ensures Owes(old(Snap()), CallVfree(pointer), 0, Snap())
      ensures view == After(old(view), DeedFree(Pointer(VirtualHeap, pointer)), 0, Block(0, 0, false))
    {
      hide Vm.Valid, OwnersOk, FixedOk, ViewOk, DemandPages, Used, H.BackingOk, BlocksOk, UnmappedFrom,
           Keeps, PayloadsKept, Drawn, Settled, Traded, SameTables, After;
      ghost var m0, b0, was := vm.mmu.mem, vheap.blocks, Handed();
      TradedSame(vm.owner, VMALLOC_BASE / 4096, VMALLOC_LIMIT / 4096);
      vheap.Free(pointer);
      AfterVirtualHeap(m0, vm.owner, b0);
      assert Used(vheap.blocks) == Freed(Used(b0), pointer);
      AfterFree(m0, was, view, Pointer(VirtualHeap, pointer));
      view := After(view, DeedFree(Pointer(VirtualHeap, pointer)), 0, Block(0, 0, false));
    }

    method Vbrk(delta: int) returns (r: Word)
      requires Valid() && -0x8000_0000 <= delta < 0x8000_0000
      modifies this, vheap`brk, vheap`blocks, vm`owner, vm.mmu`mem, vm.mmu`tlb, vm.pmm`free, vm.pmm`available, vm.pmm.words
      ensures Valid() && view == old(view) && recovered == old(recovered)
      ensures Owes(old(Snap()), CallVbrk(delta), r, Snap())
    {
      hide Vm.Valid, OwnersOk, FixedOk, ViewOk, DemandPages, Used, H.BackingOk, BlocksOk, UnmappedFrom,
           Keeps, PayloadsKept, Drawn, Returned, Settled, Traded, H.StuckAt, H.ShrinkAnswer, Grown;
      ghost var m0, o0, v0, b0 := vm.mmu.mem, vm.owner, vheap.brk, vheap.blocks;
      vheap.BreakInRange();
      r := vheap.Brk(delta);
      vheap.BreakInRange();
      DrawnTrades(o0, vm.owner, v0 / 4096, vheap.brk / 4096, VMALLOC_BASE / 4096, VMALLOC_LIMIT / 4096);
      DrawnTrades(o0, vm.owner, vheap.brk / 4096, v0 / 4096, VMALLOC_BASE / 4096, VMALLOC_LIMIT / 4096);
      AfterVirtualHeap(m0, o0, b0);
      ViewKept(m0, vm.mmu.mem, vm.mmu.dir, Handed(), view);
    }

    method Vsize(pointer: Word) returns (size: Word)
      requires Valid()
      modifies vm.mmu`tlb
      ensures Valid()
      ensures Owes(old(Snap()), CallVsize(pointer), size, Snap())
      ensures Honest(view, DeedSize(Pointer(VirtualHeap, pointer)), size, Block(0, 0, false))
    {
      hide Vm.Valid, OwnersOk, FixedOk, BytesOk, AllKnown, AllApart, DemandPages, H.BackingOk, BlocksOk, UnmappedFrom;
      size := vheap.Size(pointer);
    }

    /** An owner's store through a pointer of the vmalloc heap; a store outside a live block is not made. */
    method Vstore(pointer: Word, offset: Word, byte: Byte) returns (stored: bool)
      requires Valid()
      modifies this, vm.mmu`mem, vm.mmu`tlb
      ensures Valid() && recovered == old(recovered)
      ensures Owes(old(Snap()), CallVstore(pointer, offset, byte), if stored then 1 else 0, Snap())
      ensures stored <==> InExtent(old(view), Cell(Pointer(VirtualHeap, pointer), offset))
      ensures view == if stored
        then After(old(view), DeedStore(Cell(Pointer(VirtualHeap, pointer), offset), byte), 1, Block(0, 0, false))
        else old(view)
    {
      hide Vm.Valid, OwnersOk, FixedOk, BytesOk, AllBacked, AllKnown, AllApart, DemandPages, H.BackingOk, BlocksOk, UnmappedFrom,
           Written, SameTables, After, InExtent, InLive;
      ghost var m0, c := vm.mmu.mem, Cell(Pointer(VirtualHeap, pointer), offset);
      CellInside(Handed(), view, c);
      stored := vheap.OwnerStore(pointer, offset, byte);
      if stored {
        AfterStore(m0, view, c, byte);
        StoreOp(m0, vm.mmu.mem, vm.mmu.dir, vm.owner, image, Aligned(pointer + offset),
                WithByte(Peek(m0, vm.mmu.dir, pointer + offset), (pointer + offset) % 4, byte),
                vheap.base, vheap.brk, vheap.limit, vheap.blocks,
                kheap.backing, kheap.base, kheap.brk, kheap.limit, kheap.physBase, kheap.physEnd, kheap.blocks);
        view := After(view, DeedStore(c, byte), 1, Block(0, 0, false));
      }
    }

    /** An owner's read through a pointer of the vmalloc heap; nothing outside a live block. */
    method Vload(pointer: Word, offset: Word) returns (byte: Byte)
      requires Valid()
      modifies vm.mmu`tlb
      ensures Valid()
      ensures Owes(old(Snap()), CallVload(pointer, offset), byte, Snap())
      ensures Honest(view, DeedLoad(Cell(Pointer(VirtualHeap, pointer), offset)), byte, Block(0, 0, false))
    {
      hide Vm.Valid, OwnersOk, FixedOk, AllBacked, AllKnown, AllApart, DemandPages, H.BackingOk, BlocksOk, UnmappedFrom,
           InExtent, PeekByte;
      CellInside(Handed(), view, Cell(Pointer(VirtualHeap, pointer), offset));
      var r := vheap.OwnerLoad(pointer, offset);
      byte := if r.Some? then r.value else 0;
    }

    // ----- User pages -----

    /** After an operation on one user page alone. */
    lemma AfterUserPage(m0: Memory, o0: Owners, p: Page)
      requires Wired() && vm.Valid()
      requires OwnersOk(o0, image) && FixedOk(m0, vm.mmu.dir, image) && ViewOk(m0, vm.mmu.dir, Handed(), view)
      requires H.HeapAt(m0, vm.mmu.dir, o0, kheap.backing, kheap.base, kheap.brk, kheap.limit,
                        kheap.physBase, kheap.physEnd, kheap.blocks)
      requires H.HeapAt(m0, vm.mmu.dir, o0, vheap.backing, vheap.base, vheap.brk, vheap.limit,
                        vheap.physBase, vheap.physEnd, vheap.blocks)
      requires Keeps(m0, vm.mmu.mem, vm.mmu.dir, p, p + 1) && Traded(o0, vm.owner, p, p + 1)
      requires PoolPage(p) && 0x400 <= p < 0xC_0000
      ensures kheap.Valid() && vheap.Valid()
      ensures OwnersOk(vm.owner, image) && FixedOk(vm.mmu.mem, vm.mmu.dir, image)
      ensures ViewOk(vm.mmu.mem, vm.mmu.dir, Handed(), view)
    {
      hide Vm.Valid, Keeps, PayloadsKept, ViewOk, OwnersOk, FixedOk, Traded, Used, Settled, BlocksOk, UnmappedFrom, H.BackingOk;
      TradedSettles(o0, vm.owner, p, p + 1);
      HeapKept(m0, vm.mmu.mem, vm.mmu.dir, o0, vm.owner, kheap.backing, kheap.base, kheap.brk, kheap.limit,
               kheap.physBase, kheap.physEnd, kheap.blocks, p, p + 1);
      HeapKept(m0, vm.mmu.mem, vm.mmu.dir, o0, vm.owner, vheap.backing, vheap.base, vheap.brk, vheap.limit,
               vheap.physBase, vheap.physEnd, vheap.blocks, p, p + 1);
      UserPageOp(m0, vm.mmu.mem, vm.mmu.dir, o0, vm.owner, image, p, kheap.blocks, vheap.blocks);
      ViewKept(m0, vm.mmu.mem, vm.mmu.dir, Handed(), view);
    }

    /** A page fault: a recovered one leaves a zeroed page that user code may read and write. */
    method Fault(addr: Word, error: Word) returns (handled: bool)
      requires Valid()
      modifies this, vm`owner, vm.mmu`mem, vm.mmu`tlb, vm.pmm`free, vm.pmm`available, vm.pmm.words
      ensures Valid()
      ensures view == old(view) && recovered == old(recovered) + (if handled then 1 else 0)
      ensures Owes(old(Snap()), CallFault(addr, error), if handled then 1 else 0, Snap())
    {
      hide Vm.Valid, OwnersOk, FixedOk, ViewOk, DemandPages, H.BackingOk, BlocksOk, UnmappedFrom,
           Keeps, Traded, Drawn, FreshBooks, ZeroUpTo, Pmm.Lowest, Entry, PageMap, LedgerOk;
      ghost var m0, o0, p := vm.mmu.mem, vm.owner, addr / 4096;
      TradedSame(o0, p, p + 1);
      handled := vm.HandleFault(addr, error);
      if handled {
        DemandPage(addr);
        DrawnTrades(o0, vm.owner, p, p + 1, p, p + 1);
        AfterUserPage(m0, o0, p);
        DemandAdded(m0, vm.mmu.mem, vm.mmu.dir, p);
        recovered := recovered + 1;
      }
    }

    /**
     * The shell's demonstration on one user page: map, write, read back,
     * protect, a refused mapping in kernel space, unmap. It reports what it saw
     * on the way, or nothing where frames are short.
     */
    method UserDemo() returns (report: Option<Report>)
      requires Valid()
      modifies this, vm`owner, vm.mmu`mem, vm.mmu`tlb, vm.pmm`free, vm.pmm`available, vm.pmm.words
      ensures Valid()
      ensures report.Some? ==> Expected(report.value)
      ensures Owes(old(Snap()), CallUserDemo, if report.Some? then report.value.read else 0, Snap())
      ensures view == old(view) && recovered == old(recovered)
    {
      hide Vm.Valid, OwnersOk, FixedOk, ViewOk, DemandPages, H.BackingOk, BlocksOk, UnmappedFrom,
           Keeps, Traded, Drawn, Returned, FreshBooks, ZeroUpTo, Pmm.Lowest, Entry, PageMap, LedgerOk, Pte;
      ghost var m0, o0 := vm.mmu.mem, vm.owner;
      report := DemoSteps();
      AfterUserPage(m0, o0, DEMO_PAGE);
      DemandKept(m0, vm.mmu.mem, vm.mmu.dir, DEMO_PAGE, DEMO_PAGE + 1);
    }

    method DemoSteps() returns (report: Option<Report>)
      requires vm.Valid()
      modifies vm`owner, vm.mmu`mem, vm.mmu`tlb, vm.pmm`free, vm.pmm`available, vm.pmm.words
      ensures vm.Valid()
      ensures report.Some? ==> Expected(report.value)
      ensures report.None? ==> vm.TooFewFrames(DEMO_PAGE)
      ensures !IsMapped(vm.mmu.mem, vm.mmu.dir, DEMO_PAGE)
      ensures Keeps(old(vm.mmu.mem), vm.mmu.mem, vm.mmu.dir, DEMO_PAGE, DEMO_PAGE + 1)
      ensures Traded(old(vm.owner), vm.owner, DEMO_PAGE, DEMO_PAGE + 1)
    {
      hide Vm.Valid, Keeps, Traded, Drawn, Returned, FreshBooks, ZeroUpTo, Pmm.Lowest, Entry, PageMap, LedgerOk,
           Pte, Peek, SameTables, SameWords, Claim, Tabled;
      ghost var m0, o0, dir := vm.mmu.mem, vm.owner, vm.mmu.dir;
      vm.FreePage(0x00C0_0000);
      ghost var m1, o1 := vm.mmu.mem, vm.owner;
      DrawnTrades(o0, o1, DEMO_PAGE, DEMO_PAGE + 1, DEMO_PAGE, DEMO_PAGE + 1);
      var frame := vm.MapNew(0x00C0_0000, USER_PAGE);
      if frame.None? {
        return None;
      }
      ghost var m2, o2 := vm.mmu.mem, vm.owner;
      DrawnTrades(o1, o2, DEMO_PAGE, DEMO_PAGE + 1, DEMO_PAGE, DEMO_PAGE + 1);
      TradedTrans(o0, o1, o2, DEMO_PAGE, DEMO_PAGE + 1);
      KeepsTrans(m0, m1, m2, dir, DEMO_PAGE, DEMO_PAGE + 1);
      EntryMeans(frame.value, USER_PAGE);
      vm.Write(0x00C0_0000, 0x4242_4242);
      ghost var m3 := vm.mmu.mem;
      WrittenKeeps(m2, m3, dir, 0x00C0_0000, 0x4242_4242);
      KeepsTrans(m0, m2, m3, dir, DEMO_PAGE, DEMO_PAGE + 1);
      DemoWritten(m2, m3, dir);
      var read := vm.Read(0x00C0_0000);
      var _ := vm.Protect(0x00C0_0000, 5);
      ghost var m4 := vm.mmu.mem;
      KeepsTrans(m0, m3, m4, dir, DEMO_PAGE, DEMO_PAGE + 1);
      var entry := vm.EntryOf(0x00C0_0000);
      DemoEntry(m2, m3, dir, frame.value);
      var mapped := vm.MapPage(0xD100_0000, frame.value, USER_PAGE);
      vm.FreePage(0x00C0_0000);
      DrawnTrades(o2, vm.owner, DEMO_PAGE, DEMO_PAGE + 1, DEMO_PAGE, DEMO_PAGE + 1);
      TradedTrans(o0, o2, vm.owner, DEMO_PAGE, DEMO_PAGE + 1);
      KeepsTrans(m0, m4, vm.mmu.mem, dir, DEMO_PAGE, DEMO_PAGE + 1);
      var after := vm.Translate(0x00C0_0000);
      report := Some(Report(frame.value, read, if entry.Some? then entry.value else 0, !mapped, after.None?));
    }

    /** One call of the kmalloc heap. */
    method KernelStep(call: Call) returns (answer: Word, ghost grant: Block)
      requires Valid() && OfKernelHeap(call)
      modifies this, kheap`brk, kheap`blocks, vheap`brk, vheap`blocks,
               vm`owner, vm.mmu`mem, vm.mmu`tlb, vm.pmm`free, vm.pmm`available, vm.pmm.words
      ensures Valid()
      ensures Owes(old(Snap()), call, answer, Snap())
      ensures Honest(old(view), DeedOf(call), answer, grant)
      ensures view == After(old(view), DeedOf(call), answer, grant)
      ensures recovered == old(recovered) + FaultAfter(call, answer)
    {
      hide Valid, Owes, Fitting, Apart;
      answer, grant := 0, Block(0, 0, false);
      var done := false;
      match call {
        case CallKmalloc(size) => answer, grant := Kmalloc(size);
        case CallKfree(pointer) => Kfree(pointer);
        case CallKsize(pointer) => answer := Ksize(pointer);
        case CallKbrk(delta) => answer := Kbrk(delta);
        case CallKstore(pointer, offset, byte) => done := Kstore(pointer, offset, byte);
        case CallKload(pointer, offset) => answer := Kload(pointer, offset);
      }
      if done {
        answer := 1;
      }
    }

    /** One call of the vmalloc heap. */
    method VirtualStep(call: Call) returns (answer: Word, ghost grant: Block)
      requires Valid() && OfVirtualHeap(call)
      modifies this, kheap`brk, kheap`blocks, vheap`brk, vheap`blocks,
               vm`owner, vm.mmu`mem, vm.mmu`tlb, vm.pmm`free, vm.pmm`available, vm.pmm.words
      ensures Valid()
      ensures Owes(old(Snap()), call, answer, Snap())
      ensures Honest(old(view), DeedOf(call), answer, grant)
      ensures view == After(old(view), DeedOf(call), answer, grant)
      ensures recovered == old(recovered) + FaultAfter(call, answer)
    {
      hide Valid, Owes, Fitting, Apart;
      answer, grant := 0, Block(0, 0, false);
      var done := false;
      match call {
        case CallVmalloc(size) => answer, grant := Vmalloc(size);
        case CallVfree(pointer) => Vfree(pointer);
        case CallVsize(pointer) => answer := Vsize(pointer);
        case CallVbrk(delta) => answer := Vbrk(delta);
        case CallVstore(pointer, offset, byte) => done := Vstore(pointer, offset, byte);
        case CallVload(pointer, offset) => answer := Vload(pointer, offset);
      }
      if done {
        answer := 1;
      }
    }

    /** One call; `answer` is what the caller gets, or whether a store was made or a fault recovered. */
    method Step(call: Call) returns (answer: Word, ghost grant: Block)
      requires Valid()
      modifies this, kheap`brk, kheap`blocks, vheap`brk, vheap`blocks,
               vm`owner, vm.mmu`mem, vm.mmu`tlb, vm.pmm`free, vm.pmm`available, vm.pmm.words
      ensures Valid()
      ensures Owes(old(Snap()), call, answer, Snap())
      ensures Honest(old(view), DeedOf(call), answer, grant)
      ensures view == After(old(view), DeedOf(call), answer, grant)
      ensures recovered == old(recovered) + FaultAfter(call, answer)
    {
      hide Valid, Owes, Fitting, Apart;
      if OfKernelHeap(call) {
        answer, grant := KernelStep(call);
      } else if OfVirtualHeap(call) {
        answer, grant := VirtualStep(call);
      } else if call.CallFault? {
        var handled := Fault(call.addr, call.error);
        answer, grant := if handled then 1 else 0, Block(0, 0, false);
      } else {
        var report := UserDemo();
        answer, grant := if report.Some? then report.value.read else 0, Block(0, 0, false);
      }
    }

    /**
     * Every run of calls keeps the kernel valid, and its trace tells the truth.
     * Each answer was the one owed in the state the call found: null only where
     * nothing could be had. Each pointer answered was not live and its block
     * overlapped no live block; each read gave the last byte stored. At the end
     * every pointer that was not freed still has the block it was granted, and
     * memory holds every byte stored there. At most 256 faults are recovered,
     * with at most 257 frames.
     */
    method Run(calls: seq<Call>) returns (answers: seq<Word>, ghost grants: seq<Block>, ghost shots: seq<Shot>)
      requires Valid()
      modifies this, kheap`brk, kheap`blocks, vheap`brk, vheap`blocks,
               vm`owner, vm.mmu`mem, vm.mmu`tlb, vm.pmm`free, vm.pmm`available, vm.pmm.words
      ensures Valid()
      ensures |answers| == |calls| == |grants|
      ensures Truthful(old(view), calls, answers, grants, shots)
      ensures shots[0] == old(Snap()) && shots[|calls|] == Snap()
      ensures view == Reread(old(view), calls, answers, grants)
      ensures ViewOk(vm.mmu.mem, vm.mmu.dir, Handed(), Reread(old(view), calls, answers, grants))
      ensures recovered == old(recovered) + Faults(calls, answers) <= 256
      ensures |FaultFrames(vm.owner)| <= 257
    {
      hide Valid, After, Honest, DeedOf, FaultAfter, Owes, ShotOk, ViewOk;
      answers, grants, shots := [], [], [Snap()];
      SnapAgrees();
      for i := 0 to |calls|
        invariant Valid()
        invariant |answers| == |grants| == i
        invariant Truthful(old(view), calls[..i], answers, grants, shots)
        invariant shots[0] == old(Snap()) && shots[i] == Snap()
        invariant view == Reread(old(view), calls[..i], answers, grants)
        invariant recovered == old(recovered) + Faults(calls[..i], answers)
      {
        var answer, grant := Step(calls[i]);
        SnapAgrees();
        TraceStep(old(view), calls[..i], answers, grants, shots, calls[i], answer, grant, Snap());
        assert calls[..i + 1] == calls[..i] + [calls[i]];
        answers, grants, shots := answers + [answer], grants + [grant], shots + [Snap()];
      }
      assert calls[..|calls|] == calls;
      FaultsBounded();
      ViewAgrees();
    }

    lemma SnapAgrees()
      requires Valid()
      ensures ShotOk(Snap(), view)
    {
      hide Vm.Valid, OwnersOk, FixedOk, ViewOk, DemandPages, H.BackingOk, BlocksOk, UnmappedFrom;
    }

    lemma ViewAgrees()
      requires Valid()
      ensures ViewOk(vm.mmu.mem, vm.mmu.dir, Handed(), view)
    {
    }

    lemma FaultsBounded()
      requires Valid()
      ensures recovered <= 256 && |FaultFrames(vm.owner)| <= 257
    {
      hide Inv, OwnersOk, FixedOk, ViewOk, DemandPages, FaultFrames, H.BackingOk, BlocksOk, UnmappedFrom, LedgerOk, Coherent;
      FaultFramesBounded(vm.mmu.mem, vm.mmu.dir, vm.owner);
    }

    // ----- What holds in every valid state -----

    ghost predicate IsFree(f: Frame) reads vm.pmm { f in vm.pmm.free }

    ghost predicate IsReserved(f: Frame) { BootFrame(image, f) }

    ghost predicate IsCarved(f: Frame) reads kheap { kheap.physBase / 4096 <= f < kheap.physEnd / 4096 }

    /** A table the kernel made after boot. */
    ghost predicate IsTable(f: Frame) reads vm.mmu {
      exists d :: 0 <= d < 1023 && !FixedSlot(d) && HasTable(vm.mmu.mem, vm.mmu.dir, d) && TableOf(vm.mmu.mem, vm.mmu.dir, d) == f
    }

    ghost predicate BacksPage(f: Frame, lo: int, hi: int) reads vm.mmu {
      exists p: Page :: lo <= p < hi && IsMapped(vm.mmu.mem, vm.mmu.dir, p) && FrameAt(vm.mmu.mem, vm.mmu.dir, p) == f
    }

    ghost predicate IsVmalloc(f: Frame) reads vm.mmu { BacksPage(f, VMALLOC_BASE / 4096, VMALLOC_LIMIT / 4096) }

    ghost predicate IsUser(f: Frame) reads vm.mmu { BacksPage(f, 0x400, 0xC_0000) }

    /** What each holder in the ledger means in memory. */
    lemma HolderMeaning(f: Frame)
      requires Valid() && f in vm.pmm.all
      ensures IsFree(f) <==> vm.owner[f].Free?
      ensures IsReserved(f) <==> vm.owner[f].BootTime?
      ensures IsCarved(f) <==> vm.owner[f].Carved?
    {
      hide Inv, FixedOk, ViewOk, DemandPages, BlocksOk, UnmappedFrom, Coherent;
    }

    lemma TableMeaning(f: Frame)
      requires Valid()
      ensures IsTable(f) <==> vm.owner[f].Table?
    {
      hide OwnersOk, FixedOk, ViewOk, DemandPages, BlocksOk, UnmappedFrom, Coherent, H.BackingOk,
           LedgerOk, PagesOwned, DirectoryOk, Pde;
      if vm.owner[f].Table? {
        assert TableOf(vm.mmu.mem, vm.mmu.dir, vm.owner[f].slot) == f;
      }
    }

    lemma PageMeaning(f: Frame)
      requires Valid()
      ensures IsVmalloc(f) || IsUser(f) <==> vm.owner[f].Mapped?
      ensures !(IsVmalloc(f) && IsUser(f))
    {
      hide FixedOk, ViewOk, DemandPages, BlocksOk, UnmappedFrom, Coherent, H.BackingOk, Inv, LedgerOk, Pte;
      var mem, dir := vm.mmu.mem, vm.mmu.dir;
      forall p: Page | PoolRange(p) && IsMapped(mem, dir, p)
        ensures vm.owner[FrameAt(mem, dir, p)] == Mapped(p)
      {
        PoolHolder(mem, dir, vm.owner, vm.pmm.free, vm.pmm.all, p);
      }
      if vm.owner[f].Mapped? {
        HeldPage(mem, dir, vm.owner, f);
        assert PoolRange(vm.owner[f].page);
      }
    }

    /** Every frame counted in the total has exactly one holder. */
    lemma OneHolder(f: Frame)
      requires Valid() && f in vm.pmm.all
      ensures IsFree(f) || IsReserved(f) || IsCarved(f) || IsTable(f) || IsVmalloc(f) || IsUser(f)
      ensures IsFree(f) ==> !IsReserved(f) && !IsCarved(f) && !IsTable(f) && !IsVmalloc(f) && !IsUser(f)
      ensures IsReserved(f) ==> !IsCarved(f) && !IsTable(f) && !IsVmalloc(f) && !IsUser(f)
      ensures IsCarved(f) ==> !IsTable(f) && !IsVmalloc(f) && !IsUser(f)
      ensures IsTable(f) ==> !IsVmalloc(f) && !IsUser(f)
      ensures IsVmalloc(f) ==> !IsUser(f)
    {
      hide Valid, IsFree, IsReserved, IsCarved, IsTable, IsVmalloc, IsUser;
      HolderMeaning(f);
      TableMeaning(f);
      PageMeaning(f);
      assert !vm.owner[f].Hole? && !vm.owner[f].Taken? by { AllHeld(f); }
    }

    lemma AllHeld(f: Frame)
      requires Valid() && f in vm.pmm.all
      ensures !vm.owner[f].Hole? && !vm.owner[f].Taken?
    {
    }

    /** Free frames are always counted frames, so the count of frames in use never underflows. */
    method FramesInUse() returns (n: nat)
      requires Valid()
      ensures n == |vm.pmm.all - vm.pmm.free|
    {
      hide Inv, OwnersOk, FixedOk, ViewOk, DemandPages, H.BackingOk, BlocksOk, UnmappedFrom, Coherent;
      n := vm.pmm.UsedFrames();
    }

    /** Every address of the kmalloc heap lies at its own offset in the carved block. */
    lemma PhysicallyContiguous(v: Word)
      requires Valid() && KHEAP_BASE <= v < kheap.brk
      ensures Walk(vm.mmu.mem, vm.mmu.dir, v / 4096).Some?
      ensures Walk(vm.mmu.mem, vm.mmu.dir, v / 4096).value.frame * 4096 + v % 4096
           == kheap.physBase + (v - KHEAP_BASE) < kheap.physEnd
    {
      hide Vm.Valid, OwnersOk, FixedOk, ViewOk, DemandPages, UnmappedFrom, Tiled, Headers, H.CarvedOk, Pte;
      InHeap(vm.mmu.mem, vm.mmu.dir, kheap.base, kheap.brk, kheap.limit, v);
      H.CarvedAligned(vm.owner, kheap.base, kheap.physBase, kheap.physEnd);
      assert FrameAt(vm.mmu.mem, vm.mmu.dir, v / 4096) == kheap.physBase / 4096 + (v / 4096 - KHEAP_BASE / 4096);
    }

    /** Live blocks of both heaps are disjoint and 8-aligned, and their words are mapped and writable. */
    lemma LiveBlocks(h: HeapId, b: Block, g: HeapId, c: Block)
      requires Valid() && b in Handed().Of(h) && c in Handed().Of(g)
      ensures Apart(b, c) || (h == g && b == c)
      ensures b.at % 8 == 0 && b.size % 8 == 0 && b.size >= 8
      ensures forall a: Word :: b.at <= a < Next(b) ==>
        IsMapped(vm.mmu.mem, vm.mmu.dir, a / 4096) && Writable(Pte(vm.mmu.mem, vm.mmu.dir, a / 4096))
    {
      hide Vm.Valid, OwnersOk, FixedOk, ViewOk, DemandPages, UnmappedFrom, H.BackingOk, BlocksOk, Pte, Apart;
      BlocksApart(h, b, g, c);
      kheap.BlockInHeap(b);
      vheap.BlockInHeap(b);
    }

    /**
     * Each page of the kernel window shows the memory 3 GB below it and is
     * writable exactly when it holds neither code nor read-only data, in the
     * tables and in the cache.
     */
    lemma ImageProtected(a: Word)
      requires Valid() && 0xC000_0000 <= a < 0xC040_0000 && a % 4096 == 0
      ensures Walk(vm.mmu.mem, vm.mmu.dir, a / 4096)
           == Some(Translation((a - 0xC000_0000) / 4096, !(image.start <= a < image.readonlyEnd), false))
      ensures a / 4096 in vm.mmu.tlb ==> (vm.mmu.tlb[a / 4096].writable <==> !(image.start <= a < image.readonlyEnd))
    {
      hide Inv, OwnersOk, FixedOk, ViewOk, DemandPages, UnmappedFrom, H.BackingOk, BlocksOk, LedgerOk, Walk;
      FixedWindows(vm.mmu.mem, vm.mmu.dir, vm.owner, image, a);
    }

    /** What user code can reach lies in user space, whether it is looked up or cached. */
    lemma UserReach(a: Word)
      requires Valid()
      requires
        || (Walk(vm.mmu.mem, vm.mmu.dir, a / 4096).Some? && Walk(vm.mmu.mem, vm.mmu.dir, a / 4096).value.user)
        || (a / 4096 in vm.mmu.tlb && vm.mmu.tlb[a / 4096].user)
      ensures LOW_WINDOW_END <= a < KERNEL_SPACE
    {
      hide Inv, OwnersOk, FixedOk, ViewOk, DemandPages, UnmappedFrom, H.BackingOk, BlocksOk, LedgerOk, Walk;
      UserIsolation(vm.mmu.mem, vm.mmu.dir, vm.owner, a);
    }
  }
}
