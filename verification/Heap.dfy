/**
 * The first-fit allocator behind kmalloc and vmalloc. Its headers live inside
 * the memory it manages and are read and written through paged memory.
 */
module Heap {
  import opened Options
  import opened Layout
  import opened Bytes
  import opened Mmu
  import opened PageTables
  import opened Paging
  import opened Blocks
  import opened HeapState
  import Pmm

  datatype Backing = Contiguous | Scattered

  /** At least 8, rounded up to a multiple of 8. */
  function RoundUp(size: Word): int {
    var atLeast := if size < 8 then 8 else size;
    (atLeast + 7) / 8 * 8
  }

  /** The smallest block size that serves a request. */
  lemma RoundUpIsLeast(size: Word)
    ensures RoundUp(size) >= size && RoundUp(size) >= 8 && RoundUp(size) % 8 == 0
    ensures forall n :: n >= size && n >= 8 && n % 8 == 0 ==> RoundUp(size) <= n
  {
    forall n | n >= size && n >= 8 && n % 8 == 0
      ensures RoundUp(size) <= n
    {
      var atLeast := if size < 8 then 8 else size;
      assert n == n / 8 * 8;
      assert (atLeast + 7) / 8 <= n / 8;
    }
  }

  /** Every frame of the carved block is kept for its own page of the heap. */
  ghost predicate CarvedOk(owner: Owners, base: Word, physBase: Word, physEnd: Word) {
    && physBase % 4096 == 0 && physEnd % 4096 == 0 && physBase <= physEnd
    && base / 4096 + (physEnd - physBase) / 4096 <= 0x10_0000
    && (forall f: Frame :: physBase / 4096 <= f < physEnd / 4096 ==>
          owner[f] == Carved(base / 4096 + (f - physBase / 4096)))
    && (forall f: Frame :: owner[f].Carved? ==> physBase / 4096 <= f < physEnd / 4096)
  }

  /** Each page below the break lies at its own place in the carved block. */
  ghost predicate InOrder(mem: Memory, dir: Frame, base: Word, brk: Word, physBase: Word) {
    forall p: Page :: base / 4096 <= p < brk / 4096 ==> FrameAt(mem, dir, p) == physBase / 4096 + (p - base / 4096)
  }

  ghost predicate BackingOk(mem: Memory, dir: Frame, owner: Owners, backing: Backing,
                            base: Word, brk: Word, physBase: Word, physEnd: Word)
  {
    match backing
    case Contiguous =>
      && CarvedOk(owner, base, physBase, physEnd)
      && brk - base <= physEnd - physBase
      && InOrder(mem, dir, base, brk, physBase)
    case Scattered =>
      base >= KHEAP_LIMIT
  }

  /** The frame of a contiguous heap's page is arithmetic on its address, in 32 bits. */
  function ContiguousFrame(physBase: Word, physEnd: Word, base: Word, at: Word): Option<Word>
    requires base <= at
  {
    var frame := Add32(physBase, at - base);
    if Add32(frame, 4096) > physEnd then None else Some(frame)
  }

  /** Growth stops before the 32-bit sum can wrap: at the end of the block, or at the end of the range. */
  predicate NoWrap(base: Word, limit: Word, physBase: Word, physEnd: Word) {
    physEnd <= 0xFFFF_E000 || limit - base <= physEnd - physBase
  }

  /**
   * Growth asks for pages in order, so it asks for none past the end of the
   * block before one is refused. The frames it is given stay inside the block,
   * unless the block ends where the sum wraps and the range goes on.
   */
  lemma ContiguousFrameStaysInside(physBase: Word, physEnd: Word, base: Word, limit: Word)
    requires physBase % 4096 == 0 && physEnd % 4096 == 0 && physBase <= physEnd
    requires base % 4096 == 0 && limit % 4096 == 0 && base <= limit
    ensures (forall at: Word :: at % 4096 == 0 && base <= at <= base + (physEnd - physBase) && at + 4096 <= limit ==>
               var r := ContiguousFrame(physBase, physEnd, base, at);
               r.Some? ==> physBase <= r.value && r.value + 4096 <= physEnd)
            <==> NoWrap(base, limit, physBase, physEnd)
  {
    if NoWrap(base, limit, physBase, physEnd) {
      forall at: Word | base <= at <= base + (physEnd - physBase) && at + 4096 <= limit
        ensures var r := ContiguousFrame(physBase, physEnd, base, at);
          r.Some? ==> physBase <= r.value && r.value + 4096 <= physEnd
      {
        FrameInside(physBase, physEnd, base, limit, at);
      }
    } else {
      NextPage(physEnd, 0x1_0000_0000);
      NextPage(base + (physEnd - physBase), limit);
      var at := base + (physEnd - physBase);
      assert ContiguousFrame(physBase, physEnd, base, at) == Some(physEnd);
    }
  }

  lemma FrameInside(physBase: Word, physEnd: Word, base: Word, limit: Word, at: Word)
    requires physBase <= physEnd && NoWrap(base, limit, physBase, physEnd) && physEnd <= 0xFFFF_F000
    requires base <= at <= base + (physEnd - physBase) && at + 4096 <= limit
    ensures var r := ContiguousFrame(physBase, physEnd, base, at);
      r.Some? ==> r.value == physBase + (at - base) && r.value + 4096 <= physEnd
  {
  }

  /** The page after one page is no later than any later page. */
  lemma NextPage(x: int, y: int)
    requires x % 4096 == 0 && y % 4096 == 0 && x < y
    ensures x + 4096 <= y
  {
  }

  /**
   * What follows a block that ends at the wrap: the last frame of the 32-bit
   * space, then frame 0 and every frame after it, which are low memory and the
   * kernel image.
   */
  lemma FramesAfterBlock(physBase: Word, base: Word, k: nat)
    requires physBase <= 0xFFFF_F000 && k < 0xF_FFFF
    requires base + (0xFFFF_F000 - physBase) + k * 4096 < 0x1_0000_0000
    ensures ContiguousFrame(physBase, 0xFFFF_F000, base, base + (0xFFFF_F000 - physBase) + k * 4096)
         == Some(if k == 0 then 0xFFFF_F000 else (k - 1) * 4096)
  {
    var off := (0xFFFF_F000 - physBase) + k * 4096;
    assert physBase + off == 0xFFFF_F000 + k * 4096;
  }

  /** Why the page at `at` cannot be added: no address space, no frame of its own, or no frame for its table. */
  ghost predicate StuckAt(mem: Memory, dir: Frame, free: set<Frame>, backing: Backing,
                          base: Word, limit: Word, physBase: Word, physEnd: Word, at: int)
  {
    || at + 4096 > limit
    || (at >= 0 && match backing
        case Contiguous =>
          || physBase + (at - base) + 4096 > physEnd
          || (!HasTable(mem, dir, at / 4096 / 1024) && free == {})
        case Scattered => FewFrames(mem, dir, free, at / 4096))
  }

  lemma SameTablesStuck(mem: Memory, mem': Memory, dir: Frame, free: set<Frame>, backing: Backing,
                        base: Word, limit: Word, physBase: Word, physEnd: Word, at: int)
    requires SameTables(mem, mem', dir)
    ensures StuckAt(mem', dir, free, backing, base, limit, physBase, physEnd, at)
         == StuckAt(mem, dir, free, backing, base, limit, physBase, physEnd, at)
  {
    hide Pte;
  }

  /** A heap as a value: its tiling, its pages and its frames. */
  ghost predicate HeapAt(mem: Memory, dir: Frame, owner: Owners, backing: Backing,
                         base: Word, brk: Word, limit: Word, physBase: Word, physEnd: Word, bs: seq<Block>)
  {
    && BlocksOk(mem, dir, base, brk, limit, bs)
    && UnmappedFrom(mem, dir, brk, limit)
    && BackingOk(mem, dir, owner, backing, base, brk, physBase, physEnd)
    && (backing.Contiguous? ==> NoWrap(base, limit, physBase, physEnd))
  }

  /** Edits of data leave the backing alone. */
  lemma SameTablesBacking(mem: Memory, mem': Memory, dir: Frame, owner: Owners, backing: Backing,
                          base: Word, brk: Word, limit: Word, physBase: Word, physEnd: Word)
    requires SameTables(mem, mem', dir)
    ensures BackingOk(mem, dir, owner, backing, base, brk, physBase, physEnd) ==>
      BackingOk(mem', dir, owner, backing, base, brk, physBase, physEnd)
    ensures UnmappedFrom(mem, dir, brk, limit) ==> UnmappedFrom(mem', dir, brk, limit)
  {
    hide Pte, CarvedOk;
    SameTablesMapped(mem, mem', dir, base, brk, limit);
    assert forall p: Page :: FrameAt(mem', dir, p) == FrameAt(mem, dir, p);
  }

  lemma QuietBacking(mem: Memory, mem': Memory, dir: Frame, owner: Owners, backing: Backing,
                     base: Word, brk: Word, limit: Word, physBase: Word, physEnd: Word, us: set<Block>)
    requires Quiet(mem, mem', dir, base, limit, us)
    ensures BackingOk(mem, dir, owner, backing, base, brk, physBase, physEnd) ==>
      BackingOk(mem', dir, owner, backing, base, brk, physBase, physEnd)
    ensures UnmappedFrom(mem, dir, brk, limit) ==> UnmappedFrom(mem', dir, brk, limit)
  {
    SameTablesBacking(mem, mem', dir, owner, backing, base, brk, limit, physBase, physEnd);
  }

  /** The walk over the tiling moves past one block. */
  lemma WalkStep(pre: seq<Block>, post: seq<Block>, base: int, at: int, end: int)
    requires Tiled(pre, base, at) && Tiled(post, at, end) && post != []
    ensures pre + post == pre + [post[0]] + post[1..]
    ensures Tiled(pre + [post[0]], base, Next(post[0])) && Tiled(post[1..], Next(post[0]), end)
    ensures post[0] in pre + post
    ensures post[0].at == at && post[0].size >= 8 && at + 16 <= Next(post[0]) <= end
  {
    assert post == [post[0]] + post[1..];
    OneTiles(post[0]);
    hide Tiled, Sized;
    TiledConcat(pre, [post[0]], base, at, Next(post[0]));
    TiledBounds(post, at, end);
    TiledBounds(post[1..], Next(post[0]), end);
  }

  class Heap {
    const vm: Vm
    const base: Word
    const limit: Word
    const backing: Backing
    var brk: Word
    var physBase: Word
    var physEnd: Word
    ghost var blocks: seq<Block>

    constructor (vm: Vm, base: Word, limit: Word, backing: Backing)
      ensures this.vm == vm && this.base == base && this.limit == limit && this.backing == backing
      ensures brk == base && physBase == 0 && physEnd == 0 && blocks == []
    {
      this.vm, this.base, this.limit, this.backing := vm, base, limit, backing;
      brk, physBase, physEnd, blocks := base, 0, 0, [];
    }

    /** The tiling is in memory; pages above the break do not matter here. */
    ghost predicate Walkable()
      reads this, vm, vm.mmu, vm.pmm, vm.pmm.words
    {
      vm.Valid() && BlocksOk(vm.mmu.mem, vm.mmu.dir, base, brk, limit, blocks)
    }

    ghost predicate Valid()
      reads this, vm, vm.mmu, vm.pmm, vm.pmm.words
    {
      && vm.Valid()
      && HeapAt(vm.mmu.mem, vm.mmu.dir, vm.owner, backing, base, brk, limit, physBase, physEnd, blocks)
    }

    method SizeAt(at: Word) returns (size: Word)
      requires vm.Valid() && BreakOk(base, brk, limit) && MappedBelow(vm.mmu.mem, vm.mmu.dir, base, brk)
      requires base <= at < brk && at % 4 == 0
      modifies vm.mmu`tlb
      ensures vm.Valid()
      ensures size == Peek(vm.mmu.mem, vm.mmu.dir, at)
    {
      hide Vm.Valid, MappedBelow, Peek, Pte;
      InHeap(vm.mmu.mem, vm.mmu.dir, base, brk, limit, at);
      size := vm.Read(at);
    }

    method UsedAt(at: Word) returns (used: bool)
      requires vm.Valid() && BreakOk(base, brk, limit) && MappedBelow(vm.mmu.mem, vm.mmu.dir, base, brk)
      requires base <= at && at + 4 < brk && at % 4 == 0
      modifies vm.mmu`tlb
      ensures vm.Valid()
      ensures used == (Peek(vm.mmu.mem, vm.mmu.dir, at + 4) != 0)
    {
      hide Vm.Valid, MappedBelow, Peek, Pte;
      InHeap(vm.mmu.mem, vm.mmu.dir, base, brk, limit, at + 4);
      var flag := vm.Read(at + 4);
      used := flag != 0;
    }

    /** Reading the header at the head of the walk. */
    lemma HeadHeader(pre: seq<Block>, post: seq<Block>, at: int)
      requires BlocksOk(vm.mmu.mem, vm.mmu.dir, base, brk, limit, blocks)
      requires blocks == pre + post && Tiled(pre, base, at) && Tiled(post, at, brk) && post != []
      ensures base <= at && at + 16 <= brk <= limit && at % 8 == 0 && at % 4 == 0
      ensures Peek(vm.mmu.mem, vm.mmu.dir, at) == post[0].size
      ensures Peek(vm.mmu.mem, vm.mmu.dir, at + 4) == Flag(post[0].used)
    {
      hide Tiled, MappedBelow, Peek;
      WalkStep(pre, post, base, at, brk);
      TiledBounds(pre, base, at);
      PageAligned(base);
      TiledAligned(pre, base, at);
      WordAligned(at);
      assert HeaderIs(vm.mmu.mem, vm.mmu.dir, post[0]);
    }

    /** The address of the top block. */
    method LastBlock(end: Word) returns (last: Option<Word>)
      requires Walkable() && end == brk
      modifies vm.mmu`tlb
      ensures Walkable()
      ensures last == if blocks == [] then None else Some(blocks[|blocks| - 1].at)
    {
      hide Vm.Valid, Headers, MappedBelow, BreakOk, Peek, Tiled;
      TiledNone(base);
      var at := base;
      last := None;
      ghost var pre, post := [], blocks;
      while at + 8 <= end
        invariant Walkable()
        invariant blocks == pre + post && Tiled(pre, base, at) && Tiled(post, at, brk)
        invariant last == if pre == [] then None else Some(pre[|pre| - 1].at)
        decreases end - at
      {
        TiledSome(post, at, brk);
        HeadHeader(pre, post, at);
        WalkStep(pre, post, base, at, brk);
        last := Some(at);
        var size := SizeAt(at);
        at := at + 8 + size;
        pre, post := pre + [post[0]], post[1..];
      }
      TiledBounds(post, at, brk);
      assert post == [] && pre + post == pre;
    }

    /** The block whose payload starts at `payload`, if the walk meets one. */
    method FindBlock(payload: Word) returns (r: Option<Word>, ghost pre: seq<Block>, ghost post: seq<Block>)
      requires Walkable()
      modifies vm.mmu`tlb
      ensures Walkable()
      ensures r.Some? ==>
        && blocks == pre + post && post != [] && r.value + 8 == payload
        && Tiled(pre, base, r.value) && Tiled(post, r.value, brk)
      ensures r.None? ==> forall b :: b in blocks ==> b.at + 8 != payload
    {
      hide Vm.Valid, Headers, MappedBelow, BreakOk, Peek, Tiled;
      TiledNone(base);
      var at := base;
      pre, post := [], blocks;
      while at + 8 <= brk
        invariant Walkable()
        invariant blocks == pre + post && Tiled(pre, base, at) && Tiled(post, at, brk)
        invariant forall b :: b in pre ==> b.at + 8 != payload
        decreases brk - at
      {
        TiledSome(post, at, brk);
        HeadHeader(pre, post, at);
        WalkStep(pre, post, base, at, brk);
        if at + 8 == payload {
          return Some(at), pre, post;
        }
        var size := SizeAt(at);
        at := at + 8 + size;
        pre, post := pre + [post[0]], post[1..];
      }
      TiledBounds(post, at, brk);
      assert post == [] && pre + post == pre;
      return None, pre, post;
    }

    /** Two stores: the size and the used flag. */
    method WriteHeader(at: Word, size: Word, used: bool)
      requires vm.Valid() && BreakOk(base, brk, limit) && MappedBelow(vm.mmu.mem, vm.mmu.dir, base, brk)
      requires base <= at && at + 8 <= brk && at % 8 == 0
      modifies vm.mmu`mem, vm.mmu`tlb
      ensures vm.Valid()
      ensures HeaderWritten(old(vm.mmu.mem), vm.mmu.mem, vm.mmu.dir, at, size, Flag(used))
    {
      hide Vm.Valid, MappedBelow, BreakOk, SameTables, Written, Pte;
      ghost var m0, dir := vm.mmu.mem, vm.mmu.dir;
      WordAligned(at);
      InHeap(m0, dir, base, brk, limit, at);
      InHeap(m0, dir, base, brk, limit, at + 4);
      vm.Write(at, size);
      ghost var m1 := vm.mmu.mem;
      SameTablesMapped(m0, m1, dir, base, brk, limit);
      InHeap(m1, dir, base, brk, limit, at + 4);
      vm.Write(at + 4, if used then 1 else 0);
      TwoWrites(m0, m1, vm.mmu.mem, dir, at, size, Flag(used));
    }

    /** One round of the inner merging loop: the free block at `at` absorbs the free block after it. */
    method Absorb(at: Word, next: Word, size: Word, ghost pre: seq<Block>, ghost post: seq<Block>)
        returns (bigger: Word)
      requires Walkable() && blocks == pre + post && Tiled(pre, base, at) && Tiled(post, at, brk)
      requires |post| >= 2 && !post[0].used && !post[1].used && size == post[0].size && next == Next(post[0])
      modifies this`blocks, vm.mmu`mem, vm.mmu`tlb
      ensures Walkable()
      ensures blocks == pre + ([Merge(post[0], post[1])] + post[2..])
      ensures bigger == Merge(post[0], post[1]).size
      ensures Quiet(old(vm.mmu.mem), vm.mmu.mem, vm.mmu.dir, base, limit, Used(old(blocks)))
    {
      hide Vm.Valid, Headers, MappedBelow, BreakOk, Peek, HeaderWritten, Quiet;
      ghost var rest := [post[1]] + post[2..];
      assert post == [post[0]] + rest;
      HeadHeader(pre, post, at);
      WalkStep(pre, post, base, at, brk);
      HeadHeader(pre + [post[0]], post[1..], next);
      WalkStep(pre + [post[0]], post[1..], base, next, brk);
      var more := SizeAt(next);
      bigger := size + 8 + more;
      WriteHeader(at, bigger, false);
      MergeReplaces(old(vm.mmu.mem), vm.mmu.mem, vm.mmu.dir, base, brk, limit, pre, post, at);
      blocks := pre + ([Merge(post[0], post[1])] + post[2..]);
    }

    /** The inner loop of the search: merge forward until the next block is used or the heap ends. */
    method MergeForward(at: Word, first: Word, ghost pre: seq<Block>, ghost post: seq<Block>)
        returns (size: Word, ghost rest: seq<Block>)
      requires Walkable() && blocks == pre + post && Tiled(pre, base, at) && Tiled(post, at, brk)
      requires post != [] && !post[0].used && first == post[0].size
      modifies this`blocks, vm.mmu`mem, vm.mmu`tlb
      ensures Walkable() && blocks == pre + rest && Tiled(rest, at, brk)
      ensures rest != [] && !rest[0].used && size == rest[0].size
      ensures |rest| == 1 || rest[1].used
      ensures Coalesce(rest) == Coalesce(post) && Used(rest) == Used(post)
      ensures Quiet(old(vm.mmu.mem), vm.mmu.mem, vm.mmu.dir, base, limit, Used(old(blocks)))
    {
      hide Vm.Valid, Headers, MappedBelow, BreakOk, Peek, Quiet, Used;
      size, rest := first, post;
      QuietSame(vm.mmu.mem, vm.mmu.dir, base, limit, Used(blocks));
      while true
        invariant Walkable() && blocks == pre + rest && Tiled(rest, at, brk)
        invariant rest != [] && !rest[0].used && size == rest[0].size
        invariant Coalesce(rest) == Coalesce(post) && Used(rest) == Used(post)
        invariant Quiet(old(vm.mmu.mem), vm.mmu.mem, vm.mmu.dir, base, limit, Used(old(blocks)))
        decreases |rest|
      {
        HeadHeader(pre, rest, at);
        WalkStep(pre, rest, base, at, brk);
        var next := at + 8 + size;
        if next + 8 > brk {
          TiledBounds(rest[1..], next, brk);
          break;
        }
        HeadHeader(pre + [rest[0]], rest[1..], next);
        var used := UsedAt(next);
        if used {
          break;
        }
        ghost var merged, mid := [Merge(rest[0], rest[1])] + rest[2..], vm.mmu.mem;
        MergeStep(rest);
        CoalesceUsed(rest);
        CoalesceUsed(merged);
        UsedConcat(pre, rest);
        UsedConcat(pre, post);
        size := Absorb(at, next, size, pre, rest);
        QuietTrans(old(vm.mmu.mem), mid, vm.mmu.mem, vm.mmu.dir, base, limit, Used(old(blocks)));
        TiledSuffix(pre, merged, base, at, brk);
        rest := merged;
      }
    }

    /**
     * The search that also merges: it finds the lowest maximal run of free
     * blocks with room for `need`, and nothing exactly when no run has it.
     */
    method FirstFit(need: Word) returns (r: Option<Word>, ghost pre: seq<Block>, ghost post: seq<Block>)
      requires Walkable()
      modifies this`blocks, vm.mmu`mem, vm.mmu`tlb
      ensures Walkable()
      ensures Coalesce(blocks) == Coalesce(old(blocks)) && Used(blocks) == Used(old(blocks))
      ensures Quiet(old(vm.mmu.mem), vm.mmu.mem, vm.mmu.dir, base, limit, Used(old(blocks)))
      ensures r.None? <==> LowestFit(Coalesce(old(blocks)), need).None?
      ensures r.None? ==> blocks == Coalesce(old(blocks))
      ensures r.Some? ==>
        && blocks == pre + post && Tiled(pre, base, r.value) && Tiled(post, r.value, brk)
        && post != [] && LowestFit(Coalesce(old(blocks)), need) == Some(post[0])
    {
      hide Vm.Valid, Headers, MappedBelow, BreakOk, Peek, Quiet, Used, Coalesce, LowestFit, Tiled;
      TiledNone(base);
      CoalesceNone();
      var at := base;
      pre, post := [], blocks;
      QuietSame(vm.mmu.mem, vm.mmu.dir, base, limit, Used(blocks));
      assert [] + Coalesce(blocks) == Coalesce(blocks);
      while at + 8 <= brk
        invariant Walkable() && blocks == pre + post && Tiled(pre, base, at) && Tiled(post, at, brk)
        invariant Coalesce(old(blocks)) == Coalesce(blocks) == pre + Coalesce(post)
        invariant Used(blocks) == Used(old(blocks))
        invariant forall b :: b in pre ==> !Fits(b, need)
        invariant Quiet(old(vm.mmu.mem), vm.mmu.mem, vm.mmu.dir, base, limit, Used(old(blocks)))
        decreases brk - at
      {
        TiledSome(post, at, brk);
        HeadHeader(pre, post, at);
        var size := SizeAt(at);
        var used := UsedAt(at);
        if !used {
          ghost var mid, unmerged := vm.mmu.mem, post;
          size, post := MergeForward(at, size, pre, post);
          QuietTrans(old(vm.mmu.mem), mid, vm.mmu.mem, vm.mmu.dir, base, limit, Used(old(blocks)));
          CoalesceBehind(pre, post, unmerged);
          UsedConcat(pre, post);
          UsedConcat(pre, unmerged);
          HeadSettled(pre, post, need);
          if size >= need {
            return Some(at), pre, post;
          }
        } else {
          HeadSettled(pre, post, need);
        }
        WalkStep(pre, post, base, at, brk);
        at := at + 8 + size;
        pre, post := pre + [post[0]], post[1..];
      }
      TiledBounds(post, at, brk);
      assert post == [] && pre + post == pre && pre + [] == pre;
      LowestFitFinds(pre, need);
      return None, pre, post;
    }

    /** Hand out the block at `block`, splitting off what is left when it can stand alone. */
    method Take(block: Word, need: Word, ghost pre: seq<Block>, ghost post: seq<Block>) returns (p: Word)
      requires Walkable() && blocks == pre + post && Tiled(pre, base, block) && Tiled(post, block, brk)
      requires post != [] && Fits(post[0], need) && need >= 8 && need % 8 == 0
      modifies this`blocks, vm.mmu`mem, vm.mmu`tlb
      ensures Walkable()
      ensures blocks == pre + Split(post[0], need) + post[1..]
      ensures p == post[0].at + 8
      ensures Quiet(old(vm.mmu.mem), vm.mmu.mem, vm.mmu.dir, base, limit, Used(old(blocks)))
    {
      hide Vm.Valid, Headers, MappedBelow, BreakOk, Peek, Quiet, Used, Tiled, HeaderWritten, UnmappedFrom;
      ghost var m0, dir, b := vm.mmu.mem, vm.mmu.dir, post[0];
      HeadHeader(pre, post, block);
      WalkStep(pre, post, base, block, brk);
      HeadSized(post, block, brk);
      var size := SizeAt(block);
      if size >= need + 16 {
        WriteHeader(block, need, true);
        ghost var m1 := vm.mmu.mem;
        HeaderEdits(m0, m1, dir, block, need, 1, block, brk);
        EditedMapped(m0, m1, dir, base, brk, limit, block, brk);
        SumAligned(block, need);
        WriteHeader(block + 8 + need, size - need - 8, false);
        SplitReplaces(m0, m1, vm.mmu.mem, dir, base, brk, limit, pre, b, need, post[1..]);
      } else {
        WriteHeader(block, size, true);
        FlagReplaces(m0, vm.mmu.mem, dir, base, brk, limit, pre, b, true, post[1..]);
      }
      blocks := pre + Split(b, need) + post[1..];
      p := block + 8;
    }

    /** Give a block back; a pointer that is not a block handed out changes nothing. */
    method Free(pointer: Word)
      requires Valid()
      modifies this`blocks, vm.mmu`mem, vm.mmu`tlb
      ensures Valid()
      ensures blocks == FreedBlocks(old(blocks), pointer)
      ensures Used(blocks) == set b | b in Used(old(blocks)) && b.at + 8 != pointer
      ensures Used(blocks) == Used(old(blocks)) ==> blocks == old(blocks) && vm.mmu.mem == old(vm.mmu.mem)
      ensures Quiet(old(vm.mmu.mem), vm.mmu.mem, vm.mmu.dir, base, limit, Used(old(blocks)))
    {
      hide Vm.Valid, Headers, MappedBelow, Peek, Quiet, Tiled, HeaderWritten, UnmappedFrom, BackingOk;
      QuietSame(vm.mmu.mem, vm.mmu.dir, base, limit, Used(blocks));
      if pointer == 0 {
        TiledBounds(blocks, base, brk);
        return;
      }
      var block, pre, post := FindBlock(pointer);
      if block.None? {
        return;
      }
      ghost var b := post[0];
      HeadHeader(pre, post, block.value);
      WalkStep(pre, post, base, block.value, brk);
      OnlyOneAt(pre, post, base, block.value, brk);
      var used := UsedAt(block.value);
      if !used {
        return;
      }
      HeadSized(post, block.value, brk);
      var size := SizeAt(block.value);
      WriteHeader(block.value, size, false);
      FlagReplaces(old(vm.mmu.mem), vm.mmu.mem, vm.mmu.dir, base, brk, limit, pre, b, false, post[1..]);
      QuietBacking(old(vm.mmu.mem), vm.mmu.mem, vm.mmu.dir, vm.owner, backing, base, brk, limit,
                   physBase, physEnd, Used(blocks));
      blocks := pre + [b.(used := false)] + post[1..];
      FreedUsed(pre, b, post[1..]);
    }

    /** The payload size behind a pointer, used or not; zero for a pointer that is no block. */
    method Size(pointer: Word) returns (size: Word)
      requires Valid()
      modifies vm.mmu`tlb
      ensures Valid()
      ensures forall b :: b in blocks && b.at + 8 == pointer ==> size == b.size
      ensures (forall b :: b in blocks ==> b.at + 8 != pointer) ==> size == 0
    {
      hide Vm.Valid, Headers, MappedBelow, Peek, Tiled, UnmappedFrom, BackingOk;
      if pointer == 0 {
        TiledBounds(blocks, base, brk);
        return 0;
      }
      var block, pre, post := FindBlock(pointer);
      if block.None? {
        return 0;
      }
      HeadHeader(pre, post, block.value);
      WalkStep(pre, post, base, block.value, brk);
      OnlyOneAt(pre, post, base, block.value, brk);
      size := SizeAt(block.value);
    }

    /** The page at `at` cannot be added. */
    ghost predicate Stuck(at: int)
      reads this, vm.mmu, vm.pmm
    {
      StuckAt(vm.mmu.mem, vm.mmu.dir, vm.pmm.free, backing, base, limit, physBase, physEnd, at)
    }

    /** The body of the growing loop: back one more page, or change nothing. */
    method AddPage(at: Word) returns (ok: bool)
      requires vm.Valid() && RangeOk(base, limit) && base <= at <= limit && at % 4096 == 0
      requires backing.Contiguous? ==>
        CarvedOk(vm.owner, base, physBase, physEnd) && at - base <= physEnd - physBase && NoWrap(base, limit, physBase, physEnd)
      requires at < limit ==> !IsMapped(vm.mmu.mem, vm.mmu.dir, at / 4096)
      modifies vm`owner, vm.mmu`mem, vm.mmu`tlb, vm.pmm`free, vm.pmm`available, vm.pmm.words
      ensures vm.Valid()
      ensures ok <==> !old(Stuck(at))
      ensures !ok ==> vm.mmu.mem == old(vm.mmu.mem) && vm.Books() == old(vm.Books())
      ensures ok ==>
        && at + 4096 <= limit
        && IsMapped(vm.mmu.mem, vm.mmu.dir, at / 4096) && Writable(Pte(vm.mmu.mem, vm.mmu.dir, at / 4096))
        && (backing.Contiguous? ==>
              && physBase + (at - base) + 4096 <= physEnd
              && FrameAt(vm.mmu.mem, vm.mmu.dir, at / 4096) == physBase / 4096 + (at / 4096 - base / 4096))
        && Keeps(old(vm.mmu.mem), vm.mmu.mem, vm.mmu.dir, at / 4096, at / 4096 + 1)
        && Drawn(old(vm.owner), vm.owner, at / 4096, at / 4096 + 1)
    {
      hide Inv, LedgerOk, Coherent, Keeps, Drawn, Entry, FreshBooks, Pmm.Lowest, PageMap, Pte, Pde;
      if at + 4096 > limit {
        return false;
      }
      HeapPage(base, limit, at);
      if backing.Scattered? {
        var frame := vm.MapFresh(at, KERNEL_PAGE);
        if frame.Some? {
          EntryMeans(frame.value, KERNEL_PAGE);
        }
        ok := frame.Some?;
      } else {
        ok := AddCarvedPage(at);
      }
    }

    /** While the heap grows: pages are backed up to `at`, and only free frames were drawn for them. */
    ghost predicate Growing(was: Memory, o0: Owners, at: Word)
      reads this, vm, vm.mmu, vm.pmm, vm.pmm.words
    {
      && vm.Valid() && BreakOk(base, brk, limit) && brk <= at <= limit && at % 4096 == 0
      && Extended(was, vm.mmu.mem, vm.mmu.dir, backing, base, brk, at, limit, physBase)
      && (backing.Contiguous? ==> CarvedOk(vm.owner, base, physBase, physEnd) && at - base <= physEnd - physBase)
      && (backing.Contiguous? ==> NoWrap(base, limit, physBase, physEnd))
      && Drawn(o0, vm.owner, brk / 4096, at / 4096)
    }

    method GrowOne(at: Word, ghost was: Memory, ghost o0: Owners) returns (ok: bool)
      requires Growing(was, o0, at)
      modifies vm`owner, vm.mmu`mem, vm.mmu`tlb, vm.pmm`free, vm.pmm`available, vm.pmm.words
      ensures ok <==> !old(Stuck(at))
      ensures ok ==> at + 4096 <= limit && Growing(was, o0, at + 4096)
      ensures !ok ==> Growing(was, o0, at) && Stuck(at)
      ensures !ok ==> vm.mmu.mem == old(vm.mmu.mem) && vm.Books() == old(vm.Books())
    {
      hide Vm.Valid, Extended, Keeps, Drawn, CarvedOk, Settled, Pte;
      ghost var mem, owner := vm.mmu.mem, vm.owner;
      ExtendedUnmapped(was, mem, vm.mmu.dir, backing, base, brk, at, limit, physBase);
      ok := AddPage(at);
      if ok {
        ExtendStep(was, mem, vm.mmu.mem, vm.mmu.dir, backing, base, brk, at, limit, physBase);
        StepPages(base, brk, at, limit);
        DrawnTrans(o0, owner, vm.owner, brk / 4096, at / 4096, at / 4096 + 1);
        DrawnSettles(owner, vm.owner, at / 4096, at / 4096 + 1);
        if backing.Contiguous? {
          CarvedSettles(owner, vm.owner, base, physBase, physEnd);
        }
      }
    }

    /** The growing loop: back pages from the break up, until `pages` are added or one is refused. */
    method Extend(pages: nat) returns (at: Word)
      requires Valid()
      modifies vm`owner, vm.mmu`mem, vm.mmu`tlb, vm.pmm`free, vm.pmm`available, vm.pmm.words
      ensures Growing(old(vm.mmu.mem), old(vm.owner), at)
      ensures (at - brk) % 4096 == 0 && at - brk <= pages * 4096
      ensures at - brk < pages * 4096 ==> Stuck(at)
      ensures at > brk <==> pages > 0 && !old(Stuck(brk))
      ensures at == brk ==> vm.mmu.mem == old(vm.mmu.mem) && vm.Books() == old(vm.Books())
    {
      hide Growing, Stuck, Vm.Valid, Headers, Tiled, Extended, Drawn, CarvedOk;
      at := brk;
      GrowStart();
      for i := 0 to pages
        invariant Growing(old(vm.mmu.mem), old(vm.owner), at)
        invariant at == brk + 4096 * i
        invariant i == 0 ==> vm.mmu.mem == old(vm.mmu.mem) && vm.Books() == old(vm.Books()) && Stuck(brk) == old(Stuck(brk))
        invariant i > 0 ==> !old(Stuck(brk))
      {
        var ok := GrowOne(at, old(vm.mmu.mem), old(vm.owner));
        if !ok {
          break;
        }
        at := at + 4096;
      }
    }

    lemma GrowStart()
      requires Valid()
      ensures Growing(vm.mmu.mem, vm.owner, brk)
    {
      hide Vm.Valid, Headers, Tiled, Extended, Drawn;
      ExtendStart(vm.mmu.mem, vm.mmu.dir, vm.owner, backing, base, brk, limit, physBase, physEnd);
      SettledSame(vm.owner);
    }

    /** The new pages up to `at` join the free top block, or become one. */
    method Cover(at: Word)
      requires Walkable() && brk < at <= limit && at % 4096 == 0
      requires MappedBelow(vm.mmu.mem, vm.mmu.dir, base, at)
      modifies this`brk, this`blocks, vm.mmu`mem, vm.mmu`tlb
      ensures Walkable() && brk == at
      ensures blocks == Grown(old(blocks), old(brk), at - old(brk))
      ensures Quiet(old(vm.mmu.mem), vm.mmu.mem, vm.mmu.dir, base, limit, Used(old(blocks)))
    {
      hide Vm.Valid, Headers, Peek, Tiled, MappedBelow, Quiet, HeaderWritten, Used, Sized, BreakOk;
      ghost var mem, dir := vm.mmu.mem, vm.mmu.dir;
      var start := brk;
      var tail := LastBlock(start);
      TiledBounds(blocks, base, start);
      BreakMoves(base, start, at, limit);
      ghost var n := |blocks| - 1;
      if blocks != [] {
        LastHeader(mem, dir, base, start, limit, blocks);
      }
      brk := at;
      if tail.Some? {
        var used := UsedAt(tail.value);
        if !used {
          ghost var pre, last := blocks[..n], blocks[n];
          var size := SizeAt(tail.value);
          WriteHeader(tail.value, size + (at - start), false);
          GrownTop(blocks, base, start, at);
          TopReplaces(mem, vm.mmu.mem, dir, base, at, limit, pre, last.(size := last.size + (at - start)));
          LastUsed(blocks);
          blocks := Grown(blocks, start, at - start);
          return;
        }
      }
      WriteHeader(start, at - start - 8, false);
      TopReplaces(mem, vm.mmu.mem, dir, base, at, limit, blocks, Block(start, at - start - 8, false));
      blocks := Grown(blocks, start, at - start);
    }

    /** Back `pages` more pages, or as many as there are, and put them at the top of the tiling. */
    method Grow(pages: nat) returns (ok: bool)
      requires Valid()
      modifies this`brk, this`blocks, vm`owner, vm.mmu`mem, vm.mmu`tlb, vm.pmm`free, vm.pmm`available, vm.pmm.words
      ensures Valid()
      ensures ok <==> pages > 0 && !old(Stuck(brk))
      ensures !ok ==> brk == old(brk) && blocks == old(blocks) && vm.mmu.mem == old(vm.mmu.mem)
      ensures !ok ==> vm.Books() == old(vm.Books())
      ensures ok ==>
        && old(brk) < brk <= old(brk) + pages * 4096 && (brk - old(brk)) % 4096 == 0
        && blocks == Grown(old(blocks), old(brk), brk - old(brk))
        && (brk < old(brk) + pages * 4096 ==> Stuck(brk))
      ensures Keeps(old(vm.mmu.mem), vm.mmu.mem, vm.mmu.dir, base / 4096, limit / 4096)
      ensures PayloadsKept(old(vm.mmu.mem), vm.mmu.mem, vm.mmu.dir, Used(old(blocks)))
      ensures Drawn(old(vm.owner), vm.owner, old(brk) / 4096, brk / 4096)
    {
      hide Vm.Valid, Headers, Peek, Tiled, Keeps, Settled, Drawn, MappedBelow, UnmappedFrom, CarvedOk, InOrder,
           PayloadsKept, Used, Grown;
      KeepsSame(vm.mmu.mem, vm.mmu.dir, base / 4096, limit / 4096);
      PayloadsSame(vm.mmu.mem, vm.mmu.dir, Used(blocks));
      SettledSame(vm.owner);
      var start := brk;
      var at := Extend(pages);
      if at == start {
        return false;
      }
      ghost var mid, dir := vm.mmu.mem, vm.mmu.dir;
      ExtendedParts(old(vm.mmu.mem), mid, dir, backing, base, start, at, limit, physBase);
      KeepsBlocks(old(vm.mmu.mem), mid, dir, base, start, limit, blocks, start / 4096, limit / 4096);
      Cover(at);
      QuietParts(mid, vm.mmu.mem, dir, base, at, limit, Used(old(blocks)));
      KeepsTrans(old(vm.mmu.mem), mid, vm.mmu.mem, dir, base / 4096, limit / 4096);
      PayloadsTrans(old(vm.mmu.mem), mid, vm.mmu.mem, dir, Used(old(blocks)));
      DrawnSettles(old(vm.owner), vm.owner, start / 4096, at / 4096);
      ExtendedBacking(old(vm.mmu.mem), mid, vm.mmu.mem, dir, old(vm.owner), vm.owner, backing,
                      base, start, at, limit, physBase, physEnd);
      assert HasTable(vm.mmu.mem, dir, at / 4096 / 1024) == HasTable(mid, dir, at / 4096 / 1024);
      return true;
    }

    /** Unmap one page of the heap; a scattered heap also frees its frame. */
    method DropPage(at: Word)
      requires vm.Valid() && at % 4096 == 0 && DataPage(at / 4096) && IsMapped(vm.mmu.mem, vm.mmu.dir, at / 4096)
      requires vm.owner[FrameAt(vm.mmu.mem, vm.mmu.dir, at / 4096)]
               == if backing.Contiguous? then Carved(at / 4096) else Mapped(at / 4096)
      modifies vm`owner, vm.mmu`mem, vm.mmu`tlb, vm.pmm`free, vm.pmm`available, vm.pmm.words
      ensures vm.Valid()
      ensures !IsMapped(vm.mmu.mem, vm.mmu.dir, at / 4096)
      ensures Keeps(old(vm.mmu.mem), vm.mmu.mem, vm.mmu.dir, at / 4096, at / 4096 + 1)
      ensures Returned(old(vm.owner), vm.owner, at / 4096, at / 4096 + 1)
    {
      hide Vm.Valid, Keeps, PageMap, Pte;
      var frame := vm.UnmapPage(at);
      if frame.Some? {
        if backing.Scattered? {
          vm.GiveFrame(frame.value);
        }
      }
    }

    /** The unmapping loop of `Shrink`. */
    method Retract(target: Word)
      requires vm.Valid() && BreakOk(base, brk, limit) && base <= target <= brk && target % 4096 == 0
      requires MappedBelow(vm.mmu.mem, vm.mmu.dir, base, brk) && UnmappedFrom(vm.mmu.mem, vm.mmu.dir, brk, limit)
      requires BackingOk(vm.mmu.mem, vm.mmu.dir, vm.owner, backing, base, brk, physBase, physEnd)
      modifies vm`owner, vm.mmu`mem, vm.mmu`tlb, vm.pmm`free, vm.pmm`available, vm.pmm.words
      ensures vm.Valid()
      ensures Retracted(old(vm.mmu.mem), vm.mmu.mem, vm.mmu.dir, base, target, brk, brk, limit)
      ensures BackingOk(vm.mmu.mem, vm.mmu.dir, vm.owner, backing, base, target, physBase, physEnd)
      ensures Returned(old(vm.owner), vm.owner, target / 4096, brk / 4096)
    {
      hide Inv, LedgerOk, Coherent, Retracted, BackingOk, Returned, MappedBelow, UnmappedFrom, Keeps, Settled, Pte;
      var at := target;
      RetractStart(vm.mmu.mem, vm.mmu.dir, base, target, brk, limit);
      SettledSame(vm.owner);
      while at < brk
        invariant target <= at <= brk && at % 4096 == 0
        invariant vm.Valid()
        invariant Retracted(old(vm.mmu.mem), vm.mmu.mem, vm.mmu.dir, base, target, at, brk, limit)
        invariant Returned(old(vm.owner), vm.owner, target / 4096, at / 4096)
        decreases brk - at
      {
        ghost var mem, owner := vm.mmu.mem, vm.owner;
        HeapPage(base, limit, at);
        PageHolder(old(vm.mmu.mem), mem, vm.mmu.dir, old(vm.owner), owner, vm.pmm.free, vm.pmm.all, backing,
                   base, target, at, brk, limit, physBase, physEnd);
        DropPage(at);
        RetractStep(old(vm.mmu.mem), mem, vm.mmu.mem, vm.mmu.dir, base, target, at, brk, limit);
        ReturnedTrans(old(vm.owner), owner, vm.owner, target / 4096, at / 4096, at / 4096 + 1);
        at := at + 4096;
      }
      RetractedBacking(old(vm.mmu.mem), vm.mmu.mem, vm.mmu.dir, old(vm.owner), vm.owner, backing,
                       base, target, brk, limit, physBase, physEnd);
    }

    /** Move the break down by `pages`, but only inside a free top block and leaving a whole block. */
    method Shrink(pages: nat) returns (ok: bool)
      requires Valid()
      modifies this`brk, this`blocks, vm`owner, vm.mmu`mem, vm.mmu`tlb, vm.pmm`free, vm.pmm`available, vm.pmm.words
      ensures Valid()
      ensures ok <==> Lowered(base, old(brk), pages) == old(brk) || MayShrink(old(blocks), Lowered(base, old(brk), pages))
      ensures brk == if ok then Lowered(base, old(brk), pages) else old(brk)
      ensures blocks == if brk == old(brk) then old(blocks) else Shrunk(old(blocks), brk)
      ensures brk == old(brk) ==> vm.mmu.mem == old(vm.mmu.mem) && vm.Books() == old(vm.Books())
      ensures Keeps(old(vm.mmu.mem), vm.mmu.mem, vm.mmu.dir, base / 4096, limit / 4096)
      ensures PayloadsKept(old(vm.mmu.mem), vm.mmu.mem, vm.mmu.dir, Used(old(blocks)))
      ensures Returned(old(vm.owner), vm.owner, brk / 4096, old(brk) / 4096)
    {
      hide Vm.Valid, Headers, Peek, Tiled, Keeps, Settled, Returned, MappedBelow, UnmappedFrom, BackingOk,
           PayloadsKept, Used, Quiet, Retracted;
      KeepsSame(vm.mmu.mem, vm.mmu.dir, base / 4096, limit / 4096);
      PayloadsSame(vm.mmu.mem, vm.mmu.dir, Used(blocks));
      SettledSame(vm.owner);
      var target := Lowered(base, brk, pages);
      if target == brk {
        return true;
      }
      TiledSome(blocks, base, brk);
      ok := CutTop(target);
      if !ok {
        return false;
      }
      ghost var cut, dir, left := vm.mmu.mem, vm.mmu.dir, Shrunk(blocks, target);
      Retract(target);
      RetractedParts(cut, vm.mmu.mem, dir, base, target, brk, limit);
      KeepsBlocks(cut, vm.mmu.mem, dir, base, target, limit, left, target / 4096, limit / 4096);
      ShrunkUsed(blocks, target);
      QuietParts(old(vm.mmu.mem), cut, dir, base, brk, limit, Used(blocks));
      KeepsTrans(old(vm.mmu.mem), cut, vm.mmu.mem, dir, base / 4096, limit / 4096);
      PayloadsTrans(old(vm.mmu.mem), cut, vm.mmu.mem, dir, Used(blocks));
      brk, blocks := target, left;
    }

    /** The refusals of `Shrink`, and the header of what is left of the top block. */
    method CutTop(target: Word) returns (ok: bool)
      requires Valid() && blocks != [] && base <= target < brk && target % 4096 == 0
      modifies vm.mmu`mem, vm.mmu`tlb
      ensures vm.Valid() && MappedBelow(vm.mmu.mem, vm.mmu.dir, base, brk)
      ensures UnmappedFrom(vm.mmu.mem, vm.mmu.dir, brk, limit)
      ensures BackingOk(vm.mmu.mem, vm.mmu.dir, vm.owner, backing, base, brk, physBase, physEnd)
      ensures ok <==> MayShrink(blocks, target)
      ensures !ok ==> vm.mmu.mem == old(vm.mmu.mem)
      ensures ok ==> BlocksOk(vm.mmu.mem, vm.mmu.dir, base, target, limit, Shrunk(blocks, target))
      ensures Quiet(old(vm.mmu.mem), vm.mmu.mem, vm.mmu.dir, base, limit, Used(blocks))
    {
      hide Vm.Valid, Headers, Peek, Tiled, MappedBelow, UnmappedFrom, BackingOk, Used, Quiet, HeaderWritten;
      ghost var mem, dir, n := vm.mmu.mem, vm.mmu.dir, |blocks| - 1;
      QuietSame(mem, dir, base, limit, Used(blocks));
      LastHeader(mem, dir, base, brk, limit, blocks);
      CutTiles(mem, dir, base, brk, limit, blocks, target);
      var tail := LastBlock(brk);
      var block := tail.value;
      var used := UsedAt(block);
      if used || target < block {
        return false;
      }
      if target > block {
        if target < block + 16 {
          return false;
        }
        WriteHeader(block, target - block - 8, false);
        TopReplaces(mem, vm.mmu.mem, dir, base, target, limit, blocks[..n], blocks[n].(size := target - block - 8));
        LastUsed(blocks);
        HeaderEdits(mem, vm.mmu.mem, dir, block, target - block - 8, 0, block, brk);
        EditedMapped(mem, vm.mmu.mem, dir, base, brk, limit, block, brk);
        QuietBacking(mem, vm.mmu.mem, dir, vm.owner, backing, base, brk, limit, physBase, physEnd, Used(blocks));
      } else {
        assert blocks[..n] + [] == blocks[..n];
      }
      return true;
    }

    /** Search once, and hand out what the search finds. */
    method TryAlloc(need: Word) returns (p: Word, ghost b: Block)
      requires Valid() && need >= 8 && need % 8 == 0
      modifies this`blocks, vm.mmu`mem, vm.mmu`tlb
      ensures Valid()
      ensures p == 0 <==> LowestFit(Coalesce(old(blocks)), need).None?
      ensures p == 0 ==> Coalesce(blocks) == blocks == Coalesce(old(blocks)) && Used(blocks) == Used(old(blocks))
      ensures p != 0 ==>
        && LowestFit(Coalesce(old(blocks)), need).value.at + 8 == p
        && Served(old(blocks), blocks, b, p, need)
      ensures Quiet(old(vm.mmu.mem), vm.mmu.mem, vm.mmu.dir, base, limit, Used(old(blocks)))
    {
      hide Vm.Valid, Headers, Peek, Tiled, MappedBelow, UnmappedFrom, BackingOk, Used, Quiet, Coalesce, LowestFit;
      b := Block(0, 0, false);
      var block, pre, post := FirstFit(need);
      ghost var mid, dir := vm.mmu.mem, vm.mmu.dir;
      if block.None? {
        QuietBacking(old(vm.mmu.mem), mid, dir, vm.owner, backing, base, brk, limit, physBase, physEnd, Used(old(blocks)));
        return 0, b;
      }
      LowestFitFinds(Coalesce(old(blocks)), need);
      WalkStep(pre, post, base, block.value, brk);
      p := Take(block.value, need, pre, post);
      b := Split(post[0], need)[0];
      QuietTrans(old(vm.mmu.mem), mid, vm.mmu.mem, dir, base, limit, Used(old(blocks)));
      QuietBacking(old(vm.mmu.mem), vm.mmu.mem, dir, vm.owner, backing, base, brk, limit, physBase, physEnd, Used(old(blocks)));
      SplitServes(old(blocks), pre, post, base, brk, need);
      TiledBounds(pre, base, block.value);
    }

    /**
     * Allocate `want` bytes: search, grow by what the request needs, and search
     * once more.
     */
    method Alloc(want: Word) returns (p: Word, ghost b: Block)
      requires Valid()
      modifies this`brk, this`blocks, vm`owner, vm.mmu`mem, vm.mmu`tlb, vm.pmm`free, vm.pmm`available, vm.pmm.words
      ensures Valid()
      ensures AllocAnswer(base, limit, old(blocks), old(brk), want, p, blocks, brk, Stuck(brk))
      ensures p == 0 ==> Used(blocks) == Used(old(blocks))
      ensures p != 0 ==> Served(old(blocks), blocks, b, p, RoundUp(want))
      ensures Keeps(old(vm.mmu.mem), vm.mmu.mem, vm.mmu.dir, base / 4096, limit / 4096)
      ensures PayloadsKept(old(vm.mmu.mem), vm.mmu.mem, vm.mmu.dir, Used(old(blocks)))
      ensures Drawn(old(vm.owner), vm.owner, old(brk) / 4096, brk / 4096)
    {
      hide Vm.Valid, Headers, Peek, Tiled, MappedBelow, UnmappedFrom, BackingOk, Used, Quiet, Coalesce, LowestFit,
           Keeps, PayloadsKept, Drawn, RoundUp, Served, Grown, GrownAnswer;
      KeepsSame(vm.mmu.mem, vm.mmu.dir, base / 4096, limit / 4096);
      PayloadsSame(vm.mmu.mem, vm.mmu.dir, Used(blocks));
      SettledSame(vm.owner);
      b := Block(0, 0, false);
      if want == 0 {
        return 0, b;
      }
      if want > limit - base - 8 {
        return 0, b;
      }
      RoundUpFits(want, base, limit);
      var need := RoundUp(want);
      ghost var m0, dir, us := vm.mmu.mem, vm.mmu.dir, Used(blocks);
      p, b := TryAlloc(need);
      ghost var m1, b1 := vm.mmu.mem, blocks;
      QuietParts(m0, m1, dir, base, brk, limit, us);
      if p != 0 {
        return;
      }
      p, b := AllocGrown(need);
      KeepsTrans(m0, m1, vm.mmu.mem, dir, base / 4096, limit / 4096);
      PayloadsTrans(m0, m1, vm.mmu.mem, dir, us);
      if p != 0 {
        ServedSame(old(blocks), b1, blocks, b, p, need);
      }
    }

    /** The second half of `Alloc`: grow by what the request needs, and search once more. */
    method AllocGrown(need: Word) returns (p: Word, ghost b: Block)
      requires Valid() && need >= 8 && need % 8 == 0 && need <= limit - base - 8
      requires Coalesce(blocks) == blocks && LowestFit(blocks, need).None?
      modifies this`brk, this`blocks, vm`owner, vm.mmu`mem, vm.mmu`tlb, vm.pmm`free, vm.pmm`available, vm.pmm.words
      ensures Valid()
      ensures GrownAnswer(old(blocks), old(brk), need, p, blocks, brk, Stuck(brk))
      ensures p == 0 ==> Used(blocks) == Used(old(blocks))
      ensures p != 0 ==> Served(old(blocks), blocks, b, p, need)
      ensures Keeps(old(vm.mmu.mem), vm.mmu.mem, vm.mmu.dir, base / 4096, limit / 4096)
      ensures PayloadsKept(old(vm.mmu.mem), vm.mmu.mem, vm.mmu.dir, Used(old(blocks)))
      ensures Drawn(old(vm.owner), vm.owner, old(brk) / 4096, brk / 4096)
    {
      hide Vm.Valid, Headers, Peek, Tiled, MappedBelow, UnmappedFrom, BackingOk, Used, Quiet, Coalesce, LowestFit,
           Keeps, PayloadsKept, Drawn, Served, Grown, StuckAt, SameTables, PagesOf;
      b := Block(0, 0, false);
      ghost var m0, dir, us := vm.mmu.mem, vm.mmu.dir, Used(blocks);
      var pages := PagesOf(need + 8);
      var ok := Grow(pages);
      if !ok {
        return 0, b;
      }
      ghost var m1, b1 := vm.mmu.mem, blocks;
      GrownUsed(old(blocks), old(brk), brk - old(brk));
      if brk == old(brk) + pages * 4096 {
        GrownFits(old(blocks), base, old(brk), brk - old(brk), need);
      }
      p, b := TryAlloc(need);
      QuietParts(m1, vm.mmu.mem, dir, base, brk, limit, us);
      SameTablesStuck(m1, vm.mmu.mem, dir, vm.pmm.free, backing, base, limit, physBase, physEnd, brk);
      KeepsTrans(m0, m1, vm.mmu.mem, dir, base / 4096, limit / 4096);
      PayloadsTrans(m0, m1, vm.mmu.mem, dir, us);
      if p != 0 {
        ServedSame(old(blocks), b1, blocks, b, p, need);
      }
    }

    /**
     * Move the break, with sbrk semantics: the old break on success, null on
     * refusal. Growth may stop early and still succeed; a refusal changes
     * nothing.
     */
    method Brk(delta: int) returns (r: Word)
      requires Valid() && -0x8000_0000 <= delta < 0x8000_0000
      modifies this`brk, this`blocks, vm`owner, vm.mmu`mem, vm.mmu`tlb, vm.pmm`free, vm.pmm`available, vm.pmm.words
      ensures Valid()
      ensures BrkAnswer(base, old(brk), old(blocks), old(Stuck(brk)), delta, r, brk, blocks, Stuck(brk))
      ensures r == 0 || delta == 0 ==> vm.mmu.mem == old(vm.mmu.mem) && vm.Books() == old(vm.Books())
      ensures Used(blocks) == Used(old(blocks))
      ensures Keeps(old(vm.mmu.mem), vm.mmu.mem, vm.mmu.dir, base / 4096, limit / 4096)
      ensures PayloadsKept(old(vm.mmu.mem), vm.mmu.mem, vm.mmu.dir, Used(old(blocks)))
      ensures delta >= 0 ==> Drawn(old(vm.owner), vm.owner, old(brk) / 4096, brk / 4096)
      ensures delta <= 0 ==> Returned(old(vm.owner), vm.owner, brk / 4096, old(brk) / 4096)
    {
      hide Vm.Valid, Headers, Peek, Tiled, MappedBelow, UnmappedFrom, BackingOk, Used, Keeps, PayloadsKept,
           Drawn, Returned, Grown, Shrunk, MayShrink, Stuck;
      var was := brk;
      if delta == 0 {
        KeepsSame(vm.mmu.mem, vm.mmu.dir, base / 4096, limit / 4096);
        PayloadsSame(vm.mmu.mem, vm.mmu.dir, Used(blocks));
        SettledSame(vm.owner);
        return was;
      }
      var moved;
      if delta > 0 {
        moved := Grow(PagesOf(delta));
        GrownUsed(old(blocks), old(brk), brk - old(brk));
      } else {
        LoweredIsTarget(base, brk, -delta);
        ghost var target := Lowered(base, brk, PagesOf(delta));
        moved := Shrink(PagesOf(delta));
        if brk != was {
          ShrunkUsed(old(blocks), brk);
        }
        assert ShrinkAnswer(base, was, old(blocks), delta, if moved then was else 0, brk, blocks, target);
      }
      return if moved then was else 0;
    }

    /**
     * Growing by `delta` and shrinking by it again restores the break, every
     * block and every frame, except frames that became page tables on the way.
     */
    method GrowThenShrink(delta: int) returns (whole: bool)
      requires Valid() && 0 < delta < 0x8000_0000
      modifies this`brk, this`blocks, vm`owner, vm.mmu`mem, vm.mmu`tlb, vm.pmm`free, vm.pmm`available, vm.pmm.words
      ensures Valid()
      ensures whole ==> brk == old(brk) && blocks == old(blocks)
      ensures !whole ==> Stuck(brk)
      ensures whole ==> forall f: Frame :: vm.owner[f] == old(vm.owner)[f] || (old(vm.owner)[f].Free? && vm.owner[f].Table?)
      ensures PayloadsKept(old(vm.mmu.mem), vm.mmu.mem, vm.mmu.dir, Used(old(blocks)))
    {
      hide Vm.Valid, Headers, Peek, Tiled, MappedBelow, BackingOk, Used, Keeps, PayloadsKept,
           Drawn, Returned, Grown, Shrunk, MayShrink, UnmappedFrom;
      ghost var m0, o0 := vm.mmu.mem, vm.owner;
      NothingAbove();
      var r := Brk(delta);
      whole := r != 0 && brk - r >= delta;
      if whole {
        ghost var m1, o1, top, b1 := vm.mmu.mem, vm.owner, brk, blocks;
        ShrunkUndoesGrown(old(blocks), base, r, brk - r);
        assert IsTarget(base, top, delta, r);
        var s := Brk(-delta);
        ghost var t :| ShrinkAnswer(base, top, b1, -delta, s, brk, blocks, t);
        OneTarget(base, top, delta, t, r);
        PayloadsTrans(m0, m1, vm.mmu.mem, vm.mmu.dir, Used(old(blocks)));
        NothingAbove();
        assert top / 4096 <= limit / 4096;
        ReturnUndoesDraw(o0, o1, vm.owner, r / 4096, top / 4096, limit / 4096);
      }
    }

    /** No frame is held for a page between the break and the limit. */
    lemma NothingAbove()
      requires Valid()
      ensures NoneHeld(vm.owner, brk / 4096, limit / 4096)
    {
      hide Headers, Tiled, MappedBelow, BackingOk, Coherent, LedgerOk, DirectoryOk, TablesOwned, Pte;
      forall f: Frame | vm.owner[f].Mapped?
        ensures !(brk / 4096 <= vm.owner[f].page < limit / 4096)
      {
        assert IsMapped(vm.mmu.mem, vm.mmu.dir, vm.owner[f].page);
      }
    }

    /** Count blocks and bytes; with their headers the payloads fill the heap exactly. */
    method Stats() returns (used: int, free: int, count: nat, live: nat)
      requires Valid()
      modifies vm.mmu`tlb
      ensures Valid()
      ensures count == |blocks| && live == |Used(blocks)| && used == UsedBytes(blocks)
      ensures used + free + 8 * count == brk - base
    {
      hide Vm.Valid, Headers, MappedBelow, BreakOk, Peek, Tiled, UnmappedFrom, BackingOk, Used, UsedBytes;
      NoneUsed();
      TiledNone(base);
      used, free, count, live := 0, 0, 0, 0;
      var at := base;
      ghost var pre, post := [], blocks;
      while at + 8 <= brk
        invariant Valid()
        invariant blocks == pre + post && Tiled(pre, base, at) && Tiled(post, at, brk)
        invariant count == |pre| && live == |Used(pre)| && used == UsedBytes(pre)
        invariant used + free + 8 * count == at - base
        decreases brk - at
      {
        TiledSome(post, at, brk);
        HeadHeader(pre, post, at);
        WalkStep(pre, post, base, at, brk);
        OnlyOneAt(pre, post, base, at, brk);
        CountStep(pre, post[0]);
        var size := SizeAt(at);
        count := count + 1;
        var inUse := UsedAt(at);
        if inUse {
          used, live := used + size, live + 1;
        } else {
          free := free + size;
        }
        at := at + 8 + size;
        pre, post := pre + [post[0]], post[1..];
      }
      TiledBounds(post, at, brk);
      assert post == [] && pre + post == pre;
      TiledNoneAt(at, brk);
    }

    /** Whether byte `offset` behind `pointer` lies in a block that is handed out. */
    method Inside(pointer: Word, offset: Word) returns (inside: bool, ghost pre: seq<Block>, ghost post: seq<Block>)
      requires Valid()
      modifies vm.mmu`tlb
      ensures Valid()
      ensures inside <==> exists b :: b in Used(blocks) && b.at + 8 == pointer && offset < b.size
      ensures inside ==>
        && blocks == pre + post && post != [] && post[0].at + 8 == pointer && pointer + offset < Next(post[0])
        && Tiled(pre, base, post[0].at) && Tiled(post, post[0].at, brk) && post[0].at % 8 == 0
        && base <= pointer + offset < brk
    {
      hide Vm.Valid, Headers, MappedBelow, BreakOk, Peek, Tiled, UnmappedFrom, BackingOk, Pte;
      var block;
      block, pre, post := FindBlock(pointer);
      if block.None? {
        return false, pre, post;
      }
      HeadHeader(pre, post, block.value);
      WalkStep(pre, post, base, block.value, brk);
      HeadSized(post, block.value, brk);
      OnlyOneAt(pre, post, base, block.value, brk);
      var used := UsedAt(block.value);
      var size := SizeAt(block.value);
      inside := used && offset < size;
      if inside {
        assert post[0] in Used(blocks);
      }
    }

    /** The owner of the block at `pointer` stores a byte inside it; a store anywhere else is not made. */
    method OwnerStore(pointer: Word, offset: Word, byte: Byte) returns (stored: bool)
      requires Valid()
      modifies vm.mmu`mem, vm.mmu`tlb
      ensures Valid()
      ensures stored <==> exists b :: b in Used(blocks) && b.at + 8 == pointer && offset < b.size
      ensures !stored ==> vm.mmu.mem == old(vm.mmu.mem)
      ensures stored ==>
        && pointer + offset < 0x1_0000_0000
        && SameTables(old(vm.mmu.mem), vm.mmu.mem, vm.mmu.dir)
        && ByteWritten(old(vm.mmu.mem), vm.mmu.mem, vm.mmu.dir, pointer + offset, byte)
    {
      hide Vm.Valid, Headers, MappedBelow, BreakOk, Peek, Tiled, UnmappedFrom, BackingOk, SameTables, Written, Pte, WithByte;
      ghost var pre, post;
      stored, pre, post := Inside(pointer, offset);
      if !stored {
        return;
      }
      var a: Word := pointer + offset;
      InHeap(vm.mmu.mem, vm.mmu.dir, base, brk, limit, a);
      ghost var mem, w := vm.mmu.mem, WithByte(Peek(vm.mmu.mem, vm.mmu.dir, a), a % 4, byte);
      vm.WriteByte(a, byte);
      WordInside(post[0].at, a);
      PayloadStore(mem, vm.mmu.mem, vm.mmu.dir, base, brk, limit, pre, post, Aligned(a), w);
      SameTablesBacking(mem, vm.mmu.mem, vm.mmu.dir, vm.owner, backing, base, brk, limit, physBase, physEnd);
    }

    /** The owner of the block at `pointer` reads a byte inside it. */
    method OwnerLoad(pointer: Word, offset: Word) returns (r: Option<Byte>)
      requires Valid()
      modifies vm.mmu`tlb
      ensures Valid()
      ensures r.Some? <==> exists b :: b in Used(blocks) && b.at + 8 == pointer && offset < b.size
      ensures r.Some? ==>
        pointer + offset < 0x1_0000_0000 && r.value == PeekByte(vm.mmu.mem, vm.mmu.dir, pointer + offset)
    {
      hide Vm.Valid, Headers, MappedBelow, BreakOk, Peek, Tiled, UnmappedFrom, BackingOk, Pte, ByteOf;
      var inside, pre, post := Inside(pointer, offset);
      if !inside {
        return None;
      }
      InHeap(vm.mmu.mem, vm.mmu.dir, base, brk, limit, pointer + offset);
      var byte := vm.ReadByte(pointer + offset);
      return Some(byte);
    }

    lemma BlockInHeap(b: Block)
      requires Valid()
      ensures b in blocks ==>
        && b.at % 8 == 0 && b.size % 8 == 0 && b.size >= 8 && base <= b.at && Next(b) <= brk
        && forall a: Word :: b.at <= a < Next(b) ==>
             IsMapped(vm.mmu.mem, vm.mmu.dir, a / 4096) && Writable(Pte(vm.mmu.mem, vm.mmu.dir, a / 4096))
    {
      hide Vm.Valid, Headers, Tiled, BackingOk, UnmappedFrom, Pte, MappedBelow;
      TiledBounds(blocks, base, brk);
      PageAligned(base);
      TiledAligned(blocks, base, brk);
      if b in blocks {
        forall a: Word | b.at <= a < Next(b)
          ensures IsMapped(vm.mmu.mem, vm.mmu.dir, a / 4096) && Writable(Pte(vm.mmu.mem, vm.mmu.dir, a / 4096))
        {
          InHeap(vm.mmu.mem, vm.mmu.dir, base, brk, limit, a);
        }
      }
    }

    lemma BreakInRange()
      requires Valid()
      ensures base <= brk <= limit && base / 4096 <= brk / 4096 <= limit / 4096
    {
    }

    /** A contiguous heap's pages hold carved frames and never frames of the pool. */
    lemma ContiguousHoldsNone()
      requires Valid() && backing.Contiguous?
      ensures NoneHeld(vm.owner, base / 4096, limit / 4096)
    {
      hide Headers, Tiled, Coherent, LedgerOk, Inv, MappedBelow, UnmappedFrom, BackingOk, NoneHeld;
      NothingAbove();
      CarvedHoldsNone(vm.mmu.mem, vm.mmu.dir, vm.owner, base, brk, physBase, physEnd);
      NoneHeldJoin(vm.owner, base / 4096, brk / 4096, limit / 4096);
    }

    method AddCarvedPage(at: Word) returns (ok: bool)
      requires vm.Valid() && RangeOk(base, limit) && base <= at && at + 4096 <= limit && at % 4096 == 0
      requires backing.Contiguous? && CarvedOk(vm.owner, base, physBase, physEnd) && at - base <= physEnd - physBase
      requires NoWrap(base, limit, physBase, physEnd)
      requires !IsMapped(vm.mmu.mem, vm.mmu.dir, at / 4096)
      modifies vm`owner, vm.mmu`mem, vm.mmu`tlb, vm.pmm`free, vm.pmm`available, vm.pmm.words
      ensures vm.Valid()
      ensures ok <==> !old(Stuck(at))
      ensures !ok ==> vm.mmu.mem == old(vm.mmu.mem) && vm.Books() == old(vm.Books())
      ensures ok ==>
        && IsMapped(vm.mmu.mem, vm.mmu.dir, at / 4096) && Writable(Pte(vm.mmu.mem, vm.mmu.dir, at / 4096))
        && physBase + (at - base) + 4096 <= physEnd
        && FrameAt(vm.mmu.mem, vm.mmu.dir, at / 4096) == physBase / 4096 + (at / 4096 - base / 4096)
        && Keeps(old(vm.mmu.mem), vm.mmu.mem, vm.mmu.dir, at / 4096, at / 4096 + 1)
        && Drawn(old(vm.owner), vm.owner, at / 4096, at / 4096 + 1)
    {
      hide Inv, LedgerOk, Coherent, Keeps, Drawn, Entry, Pmm.Lowest, PageMap, Pte, Pde;
      HeapPage(base, limit, at);
      var frame := ContiguousFrame(physBase, physEnd, base, at);
      if frame.None? {
        return false;
      }
      CarvedFrame(vm.owner, base, limit, physBase, physEnd, at);
      EntryMeans(frame.value, KERNEL_PAGE);
      ghost var has := HasTable(vm.mmu.mem, vm.mmu.dir, at / 4096 / 1024);
      if has || vm.pmm.free != {} {
        TabledDraws(vm.Books(), vm.pmm.all, has, at / 4096 / 1024);
        DrawnCarved(vm.owner, Tabled(vm.Books(), has, at / 4096 / 1024).owner, frame.value / 4096);
      }
      ok := vm.MapPage(at, frame.value, KERNEL_PAGE);
    }
  }

  /** While the heap grows: pages are backed up to `at`, and everything outside the new pages is kept. */
  ghost predicate Extended(was: Memory, mem: Memory, dir: Frame, backing: Backing,
                           base: Word, brk: Word, at: Word, limit: Word, physBase: Word)
  {
    && MappedBelow(mem, dir, base, at)
    && UnmappedFrom(mem, dir, at, limit)
    && Keeps(was, mem, dir, brk / 4096, limit / 4096)
    && (backing.Contiguous? ==> InOrder(mem, dir, base, at, physBase))
  }

  lemma ExtendStep(was: Memory, mem: Memory, mem': Memory, dir: Frame, backing: Backing,
                   base: Word, brk: Word, at: Word, limit: Word, physBase: Word)
    requires RangeOk(base, limit) && base <= brk <= at && at + 4096 <= limit && at % 4096 == 0 && brk % 4096 == 0
    requires Extended(was, mem, dir, backing, base, brk, at, limit, physBase)
    requires Keeps(mem, mem', dir, at / 4096, at / 4096 + 1)
    requires IsMapped(mem', dir, at / 4096) && Writable(Pte(mem', dir, at / 4096))
    requires backing.Contiguous? ==> FrameAt(mem', dir, at / 4096) == physBase / 4096 + (at / 4096 - base / 4096)
    ensures Extended(was, mem', dir, backing, base, brk, at + 4096, limit, physBase)
  {
    hide Pte, Peek, Keeps, MappedBelow, UnmappedFrom, InOrder;
    StepPages(base, brk, at, limit);
    KeepsOthers(mem, mem', dir, at / 4096);
    StepMapped(mem, mem', dir, base, at);
    StepUnmapped(mem, mem', dir, at, limit);
    if backing.Contiguous? {
      StepInOrder(mem, mem', dir, base, at, physBase);
    }
    KeepsWider(mem, mem', dir, at / 4096, at / 4096 + 1, brk / 4096, limit / 4096);
    KeepsTrans(was, mem, mem', dir, brk / 4096, limit / 4096);
  }

  lemma StepPages(base: int, brk: int, at: int, limit: int)
    requires RangeOk(base, limit) && base <= brk <= at && at + 4096 <= limit && at % 4096 == 0 && brk % 4096 == 0
    ensures (at + 4096) / 4096 == at / 4096 + 1
    ensures base / 4096 <= brk / 4096 <= at / 4096 && at / 4096 + 1 <= limit / 4096 <= WINDOW_PAGE
  {
  }

  /** All entries but the one of page `n` are the same. */
  ghost predicate SameBut(mem: Memory, mem': Memory, dir: Frame, n: int) {
    forall p: Page :: p < WINDOW_PAGE && p != n ==> Pte(mem', dir, p) == Pte(mem, dir, p)
  }

  lemma KeepsOthers(mem: Memory, mem': Memory, dir: Frame, n: int)
    requires Keeps(mem, mem', dir, n, n + 1)
    ensures SameBut(mem, mem', dir, n)
  {
    hide Pte, Peek;
  }

  lemma StepMapped(mem: Memory, mem': Memory, dir: Frame, base: Word, at: Word)
    requires SameBut(mem, mem', dir, at / 4096) && MappedBelow(mem, dir, base, at)
    requires at / 4096 < WINDOW_PAGE && (at + 4096) / 4096 == at / 4096 + 1
    requires IsMapped(mem', dir, at / 4096) && Writable(Pte(mem', dir, at / 4096))
    ensures MappedBelow(mem', dir, base, at + 4096)
  {
    hide Pte;
  }

  lemma StepUnmapped(mem: Memory, mem': Memory, dir: Frame, at: Word, limit: Word)
    requires SameBut(mem, mem', dir, at / 4096) && UnmappedFrom(mem, dir, at, limit)
    requires limit / 4096 <= WINDOW_PAGE && (at + 4096) / 4096 == at / 4096 + 1
    ensures UnmappedFrom(mem', dir, at + 4096, limit)
  {
    hide Pte;
    forall p: Page | at / 4096 + 1 <= p < limit / 4096
      ensures !IsMapped(mem', dir, p)
    {
      assert !IsMapped(mem, dir, p);
    }
  }

  lemma StepInOrder(mem: Memory, mem': Memory, dir: Frame, base: Word, at: Word, physBase: Word)
    requires SameBut(mem, mem', dir, at / 4096) && InOrder(mem, dir, base, at, physBase)
    requires at / 4096 < WINDOW_PAGE && (at + 4096) / 4096 == at / 4096 + 1
    requires FrameAt(mem', dir, at / 4096) == physBase / 4096 + (at / 4096 - base / 4096)
    requires at + 4096 < 0x1_0000_0000
    ensures InOrder(mem', dir, base, at + 4096, physBase)
  {
    hide Pte;
    forall p: Page | base / 4096 <= p < at / 4096
      ensures FrameAt(mem', dir, p) == physBase / 4096 + (p - base / 4096)
    {
      assert FrameAt(mem, dir, p) == physBase / 4096 + (p - base / 4096);
    }
  }

  lemma ExtendStart(mem: Memory, dir: Frame, owner: Owners, backing: Backing,
                    base: Word, brk: Word, limit: Word, physBase: Word, physEnd: Word)
    requires MappedBelow(mem, dir, base, brk) && UnmappedFrom(mem, dir, brk, limit)
    requires BackingOk(mem, dir, owner, backing, base, brk, physBase, physEnd)
    ensures Extended(mem, mem, dir, backing, base, brk, brk, limit, physBase)
  {
  }

  lemma CarvedSettles(owner: Owners, owner': Owners, base: Word, physBase: Word, physEnd: Word)
    requires CarvedOk(owner, base, physBase, physEnd) && Settled(owner, owner')
    ensures CarvedOk(owner', base, physBase, physEnd)
  {
  }

  lemma ExtendedUnmapped(was: Memory, mem: Memory, dir: Frame, backing: Backing,
                         base: Word, brk: Word, at: Word, limit: Word, physBase: Word)
    requires Extended(was, mem, dir, backing, base, brk, at, limit, physBase)
    requires at % 4096 == 0 && limit % 4096 == 0
    ensures at < limit ==> !IsMapped(mem, dir, at / 4096)
  {
    if at < limit {
      UnmappedAt(mem, dir, at, limit);
    }
  }

  lemma UnmappedAt(mem: Memory, dir: Frame, at: Word, limit: Word)
    requires UnmappedFrom(mem, dir, at, limit) && at < limit && at % 4096 == 0 && limit % 4096 == 0
    ensures !IsMapped(mem, dir, at / 4096)
  {
    assert at / 4096 < limit / 4096;
  }

  /** While the heap shrinks: pages target..at are gone, pages at..brk still there, the rest kept. */
  ghost predicate Retracted(was: Memory, mem: Memory, dir: Frame,
                            base: Word, target: Word, at: Word, brk: Word, limit: Word)
  {
    && MappedBelow(mem, dir, base, target) && MappedBelow(mem, dir, at, brk)
    && UnmappedFrom(mem, dir, target, at) && UnmappedFrom(mem, dir, brk, limit)
    && Keeps(was, mem, dir, target / 4096, limit / 4096)
    && (forall p: Page :: at / 4096 <= p < brk / 4096 ==> Pte(mem, dir, p) == Pte(was, dir, p))
  }

  lemma RetractStart(mem: Memory, dir: Frame, base: Word, target: Word, brk: Word, limit: Word)
    requires base <= target <= brk <= limit
    requires MappedBelow(mem, dir, base, brk) && UnmappedFrom(mem, dir, brk, limit)
    ensures Retracted(mem, mem, dir, base, target, target, brk, limit)
  {
    hide Pte;
    KeepsSame(mem, dir, target / 4096, limit / 4096);
  }

  lemma RetractPages(base: int, target: int, at: int, brk: int, limit: int)
    requires BreakOk(base, brk, limit) && base <= target <= at < brk && at % 4096 == 0 && target % 4096 == 0
    ensures (at + 4096) / 4096 == at / 4096 + 1 && at + 4096 <= brk
    ensures base / 4096 <= target / 4096 <= at / 4096 < brk / 4096 <= limit / 4096 <= WINDOW_PAGE
  {
  }

  lemma RetractStep(was: Memory, mem: Memory, mem': Memory, dir: Frame,
                    base: Word, target: Word, at: Word, brk: Word, limit: Word)
    requires BreakOk(base, brk, limit) && base <= target <= at < brk && at % 4096 == 0 && target % 4096 == 0
    requires Retracted(was, mem, dir, base, target, at, brk, limit)
    requires Keeps(mem, mem', dir, at / 4096, at / 4096 + 1) && !IsMapped(mem', dir, at / 4096)
    ensures at + 4096 <= brk && (at + 4096) / 4096 == at / 4096 + 1
    ensures Retracted(was, mem', dir, base, target, at + 4096, brk, limit)
  {
    hide Pte, Keeps, Writable;
    RetractPages(base, target, at, brk, limit);
    KeepsOthers(mem, mem', dir, at / 4096);
    RangeKept(mem, mem', dir, at / 4096, base, target);
    RangeKept(mem, mem', dir, at / 4096, at + 4096, brk);
    GoneKept(mem, mem', dir, at / 4096, target, at);
    GoneKept(mem, mem', dir, at / 4096, brk, limit);
    KeepsWider(mem, mem', dir, at / 4096, at / 4096 + 1, target / 4096, limit / 4096);
    KeepsTrans(was, mem, mem', dir, target / 4096, limit / 4096);
  }

  lemma RangeKept(mem: Memory, mem': Memory, dir: Frame, n: int, lo: int, hi: int)
    requires SameBut(mem, mem', dir, n) && (hi / 4096 <= n || n < lo / 4096) && hi / 4096 <= WINDOW_PAGE
    requires exists k :: k <= lo && MappedBelow(mem, dir, k, hi)
    ensures MappedBelow(mem', dir, lo, hi)
  {
    hide Pte;
    var k :| k <= lo && MappedBelow(mem, dir, k, hi);
    forall p: Page | lo / 4096 <= p < hi / 4096
      ensures IsMapped(mem', dir, p) && Writable(Pte(mem', dir, p))
    {
      assert k / 4096 <= p;
      assert IsMapped(mem, dir, p);
    }
  }

  lemma GoneKept(mem: Memory, mem': Memory, dir: Frame, n: int, lo: int, hi: int)
    requires SameBut(mem, mem', dir, n) && UnmappedFrom(mem, dir, lo, hi) && hi / 4096 <= WINDOW_PAGE
    requires 0 <= n < 0x10_0000 && !IsMapped(mem', dir, n)
    ensures UnmappedFrom(mem', dir, lo, hi)
  {
    hide Pte;
    forall p: Page | lo / 4096 <= p < hi / 4096
      ensures !IsMapped(mem', dir, p)
    {
      assert !IsMapped(mem, dir, p);
    }
  }

  lemma RetractedBacking(was: Memory, mem: Memory, dir: Frame, owner: Owners, owner': Owners, backing: Backing,
                         base: Word, target: Word, brk: Word, limit: Word, physBase: Word, physEnd: Word)
    requires BackingOk(was, dir, owner, backing, base, brk, physBase, physEnd)
    requires Retracted(was, mem, dir, base, target, brk, brk, limit) && base <= target <= brk
    requires RangeOk(base, limit) && target / 4096 <= WINDOW_PAGE
    requires Returned(owner, owner', target / 4096, brk / 4096)
    ensures BackingOk(mem, dir, owner', backing, base, target, physBase, physEnd)
  {
    hide Pte, MappedBelow, UnmappedFrom, CarvedOk, Returned, Settled;
    if backing.Contiguous? {
      DrawnSettles(owner, owner', target / 4096, brk / 4096);
      CarvedSettles(owner, owner', base, physBase, physEnd);
      forall p: Page | base / 4096 <= p < target / 4096
        ensures FrameAt(mem, dir, p) == physBase / 4096 + (p - base / 4096)
      {
        assert Pte(mem, dir, p) == Pte(was, dir, p);
        assert FrameAt(was, dir, p) == physBase / 4096 + (p - base / 4096);
      }
    }
  }

  /** Whose frame a page of the heap has: its own carved frame, or a frame of its own from the pool. */
  lemma PageHolder(was: Memory, mem: Memory, dir: Frame, owner: Owners, owner': Owners,
                   free: set<Frame>, all: set<Frame>, backing: Backing,
                   base: Word, target: Word, at: Word, brk: Word, limit: Word, physBase: Word, physEnd: Word)
    requires BreakOk(base, brk, limit) && base <= target <= at < brk && at % 4096 == 0 && target % 4096 == 0
    requires BackingOk(was, dir, owner, backing, base, brk, physBase, physEnd)
    requires Retracted(was, mem, dir, base, target, at, brk, limit)
    requires Returned(owner, owner', target / 4096, at / 4096)
    requires Inv(mem, dir, owner') && LedgerOk(free, all, owner')
    ensures IsMapped(mem, dir, at / 4096)
    ensures owner'[FrameAt(mem, dir, at / 4096)] == if backing.Contiguous? then Carved(at / 4096) else Mapped(at / 4096)
  {
    hide Pte, Inv, LedgerOk, UnmappedFrom, Keeps, Returned, CarvedOk;
    RetractPages(base, target, at, brk, limit);
    HeapPage(base, limit, at);
    if backing.Contiguous? {
      var f := physBase / 4096 + (at / 4096 - base / 4096);
      assert FrameAt(was, dir, at / 4096) == f;
      assert Pte(mem, dir, at / 4096) == Pte(was, dir, at / 4096);
      CarvedHolder(owner, base, brk, physBase, physEnd, at);
      ReturnedKeepsCarved(owner, owner', target / 4096, at / 4096, f);
    } else {
      assert at / 4096 >= KHEAP_LIMIT / 4096;
      PoolHolder(mem, dir, owner', free, all, at / 4096);
    }
  }

  lemma CarvedAligned(owner: Owners, base: Word, physBase: Word, physEnd: Word)
    requires CarvedOk(owner, base, physBase, physEnd)
    ensures physBase % 4096 == 0 && physEnd % 4096 == 0
  {
  }

  lemma CarvedHolder(owner: Owners, base: Word, brk: Word, physBase: Word, physEnd: Word, at: Word)
    requires CarvedOk(owner, base, physBase, physEnd) && brk - base <= physEnd - physBase
    requires base % 4096 == 0 && at % 4096 == 0 && brk % 4096 == 0 && base <= at < brk
    ensures var f := physBase / 4096 + (at / 4096 - base / 4096); 0 <= f < 0x10_0000 && owner[f] == Carved(at / 4096)
  {
    PageQuotient(physBase, physEnd - physBase);
    PageQuotient(base, brk - base);
    PageQuotient(base, at - base);
  }

  lemma ReturnedKeepsCarved(owner: Owners, owner': Owners, lo: int, hi: int, f: Frame)
    requires Returned(owner, owner', lo, hi) && owner[f].Carved?
    ensures owner'[f] == owner[f]
  {
  }

  /** The break lowered by some pages, but not below the base. */
  function Lowered(base: Word, brk: Word, pages: nat): (t: Word)
    requires base <= brk
    ensures base <= t <= brk && brk - t <= pages * 4096
    ensures t == base || brk - t == pages * 4096
  {
    if pages * 4096 < brk - base then brk - pages * 4096 else base
  }

  /** The blocks below the top tile up to it; a whole block left of the top tiles up to the target. */
  lemma CutTiles(mem: Memory, dir: Frame, base: int, brk: int, limit: int, bs: seq<Block>, target: int)
    requires BlocksOk(mem, dir, base, brk, limit, bs) && bs != [] && base <= target < brk && target % 4096 == 0
    ensures BreakOk(base, target, limit) && MappedBelow(mem, dir, base, target)
    ensures Tiled(bs[..|bs| - 1], base, bs[|bs| - 1].at)
    ensures target >= bs[|bs| - 1].at + 16 ==> Sized(bs[|bs| - 1].(size := target - bs[|bs| - 1].at - 8))
  {
    var pre, top := bs[..|bs| - 1], bs[|bs| - 1];
    assert bs == pre + [top];
    var mid := TiledSplit(pre, [top], base, brk);
    LoneBlock(top, mid, brk);
    hide Headers, Tiled;
    PageAligned(base);
    PageAligned(target);
    TiledAligned(bs, base, brk);
    SumAligned(target, top.at);
  }

  lemma RetractedParts(was: Memory, mem: Memory, dir: Frame, base: Word, target: Word, brk: Word, limit: Word)
    requires Retracted(was, mem, dir, base, target, brk, brk, limit)
    requires BreakOk(base, brk, limit) && base <= target <= brk
    ensures UnmappedFrom(mem, dir, target, limit)
    ensures Keeps(was, mem, dir, target / 4096, limit / 4096)
    ensures Keeps(was, mem, dir, base / 4096, limit / 4096)
  {
    hide Pte, Keeps, MappedBelow;
    KeepsWider(was, mem, dir, target / 4096, limit / 4096, base / 4096, limit / 4096);
  }

  /** Block `b` with payload `p` joined the blocks handed out: big enough, and not wastefully bigger. */
  predicate Served(was: seq<Block>, now: seq<Block>, b: Block, p: int, need: int) {
    && b.used && b !in Used(was)
    && Used(now) == Used(was) + {b}
    && b in now
    && b.at + 8 == p
    && need <= b.size < need + 16
  }

  lemma ServedSame(was: seq<Block>, was': seq<Block>, now: seq<Block>, b: Block, p: int, need: int)
    requires Served(was', now, b, p, need) && Used(was') == Used(was)
    ensures Served(was, now, b, p, need)
  {
  }

  lemma SplitServes(was: seq<Block>, pre: seq<Block>, post: seq<Block>, base: int, end: int, need: int)
    requires post != [] && Fits(post[0], need) && Used(was) == Used(pre + post)
    requires Tiled(pre, base, post[0].at) && Tiled(post, post[0].at, end)
    ensures Served(was, pre + Split(post[0], need) + post[1..], Split(post[0], need)[0], post[0].at + 8, need)
  {
    var h, t := post[0], Split(post[0], need);
    assert post == [h] + post[1..];
    UsedConcat(pre, post);
    UsedConcat([h], post[1..]);
    UsedConcat(pre, t);
    UsedConcat(pre + t, post[1..]);
    assert Used([h]) == {} && Used(t) == {t[0]};
    OnlyOneAt(pre, post, base, h.at, end);
    forall c | c in Used(pre + post)
      ensures c != t[0]
    {
      assert c in pre + post;
    }
    assert t[0] in pre + t + post[1..];
  }

  lemma RoundUpFits(want: Word, base: Word, limit: Word)
    requires RangeOk(base, limit) && 0 < want <= limit - base - 8
    ensures RoundUp(want) >= 8 && RoundUp(want) % 8 == 0 && want <= RoundUp(want) <= limit - base - 8
  {
    RoundUpIsLeast(want);
    PageAligned(limit);
    PageAligned(base);
    SumAligned(limit, base);
  }

  ghost predicate NoneHeld(owner: Owners, lo: int, hi: int) {
    forall f: Frame :: owner[f].Mapped? ==> !(lo <= owner[f].page < hi)
  }

  lemma NoneHeldJoin(owner: Owners, lo: int, mid: int, hi: int)
    requires NoneHeld(owner, lo, mid) && NoneHeld(owner, mid, hi)
    ensures NoneHeld(owner, lo, hi)
  {
  }

  lemma CarvedHoldsNone(mem: Memory, dir: Frame, owner: Owners, base: Word, brk: Word, physBase: Word, physEnd: Word)
    requires Inv(mem, dir, owner) && BackingOk(mem, dir, owner, Contiguous, base, brk, physBase, physEnd)
    requires base % 4096 == 0 && brk % 4096 == 0 && base <= brk
    ensures NoneHeld(owner, base / 4096, brk / 4096)
  {
    hide DirectoryOk, TablesOwned, Pte;
    PageQuotient(physBase, physEnd - physBase);
    PageQuotient(base, brk - base);
    forall p: Page | base / 4096 <= p < brk / 4096
      ensures owner[FrameAt(mem, dir, p)].Carved?
    {
      assert FrameAt(mem, dir, p) == physBase / 4096 + (p - base / 4096);
    }
  }

  /** Once the drawn pages are gone again, only new tables remain in the ledger. */
  lemma ReturnUndoesDraw(o0: Owners, o1: Owners, o2: Owners, lo: int, hi: int, top: int)
    requires Drawn(o0, o1, lo, hi) && Returned(o1, o2, lo, hi) && hi <= top
    requires NoneHeld(o0, lo, top) && NoneHeld(o2, lo, top)
    ensures forall f: Frame :: o2[f] == o0[f] || (o0[f].Free? && o2[f].Table?)
  {
    forall f: Frame
      ensures o2[f] == o0[f] || (o0[f].Free? && o2[f].Table?)
    {
      assert o1[f] == o0[f] || o0[f].Free?;
      assert o2[f] == o1[f] || o2[f].Free?;
    }
  }

  /** Where the break goes when `bytes` are given back: down by whole pages, to cover them and no more, or to the base. */
  predicate IsTarget(base: Word, brk: Word, bytes: int, t: Word) {
    && base <= t <= brk && (brk - t) % 4096 == 0
    && brk - t < bytes + 4096
    && (t == base || bytes <= brk - t)
  }

  lemma OneTarget(base: Word, brk: Word, bytes: int, t: Word, u: Word)
    requires IsTarget(base, brk, bytes, t) && IsTarget(base, brk, bytes, u)
    ensures t == u
  {
    if t < u {
      NextPage(brk - u, brk - t);
    } else if u < t {
      NextPage(brk - t, brk - u);
    }
  }

  /** Rounding the bytes up to pages and lowering by them finds the target. */
  lemma LoweredIsTarget(base: Word, brk: Word, bytes: nat)
    requires base <= brk && base % 4096 == 0 && brk % 4096 == 0
    ensures IsTarget(base, brk, bytes, Lowered(base, brk, PagesOf(bytes)))
  {
  }

  /**
   * What `Brk` answers: the old break on success, null on refusal. Growth is by
   * whole pages that cover the bytes asked for and no more; it needs one page
   * and may stop early, where the next page is refused. The break goes down only
   * inside a free top block. A refusal moves nothing.
   */
  ghost predicate BrkAnswer(base: Word, brk: Word, bs: seq<Block>, stuck: bool, delta: int,
                            r: Word, brk': Word, bs': seq<Block>, stuck': bool)
  {
    && (r == 0 || r == brk)
    && (r == 0 || delta == 0 ==> brk' == brk && bs' == bs)
    && (delta == 0 ==> r == brk)
    && (delta > 0 ==>
          && (r != 0 <==> !stuck)
          && (r != 0 ==>
                && (brk' - brk) % 4096 == 0 && 0 < brk' - brk < delta + 4096
                && (brk' - brk < delta ==> stuck')
                && bs' == Grown(bs, brk, brk' - brk)))
    && (delta < 0 ==> exists t :: ShrinkAnswer(base, brk, bs, delta, r, brk', bs', t))
  }

  ghost predicate ShrinkAnswer(base: Word, brk: Word, bs: seq<Block>, delta: int,
                               r: Word, brk': Word, bs': seq<Block>, t: Word)
  {
    && IsTarget(base, brk, -delta, t)
    && (r != 0 <==> t == brk || MayShrink(bs, t))
    && (r != 0 ==> brk' == t && bs' == if t == brk then bs else Shrunk(bs, t))
  }

  /**
   * What the second half of `Alloc` answers, once no run of the merged blocks
   * fits: the lowest run that fits after growth by the pages that cover a header
   * and the block, and no more. Growth stops early only at a refused page, and
   * then the answer may be null, with all free runs merged.
   */
  ghost predicate GrownAnswer(bs: seq<Block>, brk: Word, need: Word, p: Word, bs': seq<Block>, brk': Word, stuck': bool) {
    var grown := if brk' == brk then bs else Grown(bs, brk, brk' - brk);
    var fit := LowestFit(Coalesce(grown), need);
    && (brk' - brk) % 4096 == 0 && 0 <= brk' - brk < need + 8 + 4096
    && (brk' - brk < need + 8 ==> stuck')
    && (p == 0 <==> fit.None?) && (fit.Some? ==> p == fit.value.at + 8)
    && (p == 0 ==> brk' - brk < need + 8 && bs' == Coalesce(grown))
  }

  /**
   * What `Alloc` answers: null for a zero request and for one the range can
   * never hold; the lowest run of free blocks that fits, if there is one; else
   * what growing gives. A block served is large enough, and less than 16 bytes
   * larger than it need be.
   */
  ghost predicate AllocAnswer(base: Word, limit: Word, bs: seq<Block>, brk: Word, want: Word,
                              p: Word, bs': seq<Block>, brk': Word, stuck': bool)
  {
    && (p != 0 ==> exists b :: Served(bs, bs', b, p, RoundUp(want)))
    && if want == 0 || want > limit - base - 8 then
         p == 0 && bs' == bs && brk' == brk
       else
         var fit := LowestFit(Coalesce(bs), RoundUp(want));
         && RoundUp(want) < 0x1_0000_0000
         && if fit.Some? then
              p == fit.value.at + 8 && p != 0 && brk' == brk
            else
              GrownAnswer(Coalesce(bs), brk, RoundUp(want), p, bs', brk', stuck')
  }

  /** The whole pages a byte count stands for, rounded up. */
  function PagesOf(delta: int): (n: nat)
    ensures var bytes := if delta < 0 then -delta else delta; bytes <= n * 4096 < bytes + 4096
  {
    ((if delta < 0 then -delta else delta) + 4095) / 4096
  }

  /** The blocks with the one behind `pointer` no longer handed out. */
  function FreedBlocks(bs: seq<Block>, pointer: int): seq<Block> {
    seq(|bs|, i requires 0 <= i < |bs| => if bs[i].at + 8 == pointer then bs[i].(used := false) else bs[i])
  }

  lemma ExtendedParts(was: Memory, mem: Memory, dir: Frame, backing: Backing,
                      base: Word, brk: Word, at: Word, limit: Word, physBase: Word)
    requires Extended(was, mem, dir, backing, base, brk, at, limit, physBase) && base <= brk <= limit
    ensures MappedBelow(mem, dir, base, at)
    ensures Keeps(was, mem, dir, base / 4096, limit / 4096)
  {
    hide Keeps;
    KeepsWider(was, mem, dir, brk / 4096, limit / 4096, base / 4096, limit / 4096);
  }

  lemma ExtendedBacking(was: Memory, mid: Memory, mem: Memory, dir: Frame, owner: Owners, owner': Owners,
                        backing: Backing, base: Word, brk: Word, at: Word, limit: Word,
                        physBase: Word, physEnd: Word)
    requires BackingOk(was, dir, owner, backing, base, brk, physBase, physEnd) && Settled(owner, owner')
    requires Extended(was, mid, dir, backing, base, brk, at, limit, physBase)
    requires backing.Contiguous? ==> at - base <= physEnd - physBase
    requires SameTables(mid, mem, dir)
    ensures UnmappedFrom(mem, dir, at, limit)
    ensures BackingOk(mem, dir, owner', backing, base, at, physBase, physEnd)
  {
    hide Pte, Pde, Keeps, CarvedOk, Settled, MappedBelow, UnmappedFrom;
    SameTablesMapped(mid, mem, dir, base, at, limit);
    if backing.Contiguous? {
      CarvedSettles(owner, owner', base, physBase, physEnd);
      assert forall p: Page :: FrameAt(mem, dir, p) == FrameAt(mid, dir, p);
    }
  }

  /** The top block, grown up to `at`, tiles what follows the blocks below it. */
  lemma GrownTop(bs: seq<Block>, base: int, start: int, at: int)
    requires bs != [] && Tiled(bs, base, start) && (at - start) % 8 == 0 && start < at
    ensures var last := bs[|bs| - 1]; var top := last.(size := last.size + (at - start));
      Tiled(bs[..|bs| - 1], base, top.at) && Sized(top) && Next(top) == at
  {
    var pre, last := bs[..|bs| - 1], bs[|bs| - 1];
    assert bs == pre + [last];
    var mid := TiledSplit(pre, [last], base, start);
    LoneBlock(last, mid, start);
    OneTiles(last);
    SumAligned(last.size, at - start);
  }

  lemma BreakMoves(base: int, start: int, at: int, limit: int)
    requires BreakOk(base, start, limit) && at % 4096 == 0 && start < at <= limit
    ensures BreakOk(base, at, limit) && start % 8 == 0 && 0 <= base <= start
    ensures (at - start) % 8 == 0 && at - start >= 4096 && Sized(Block(start, at - start - 8, false))
    ensures at <= TABLE_WINDOW
  {
    var k, j := at / 4096, start / 4096;
    assert at == 4096 * k && start == 4096 * j && k > j;
    Multiple(512 * j);
    Multiple(512 * (k - j));
    Multiple(512 * (k - j) - 1);
  }

  lemma Multiple(k: int)
    ensures (8 * k) % 8 == 0
  {
  }

  lemma LastHeader(mem: Memory, dir: Frame, base: int, brk: int, limit: int, bs: seq<Block>)
    requires BlocksOk(mem, dir, base, brk, limit, bs) && bs != []
    ensures HeaderIs(mem, dir, bs[|bs| - 1])
    ensures base <= bs[|bs| - 1].at && bs[|bs| - 1].at + 16 <= brk && bs[|bs| - 1].at % 8 == 0
    ensures bs[|bs| - 1].size + 8 + bs[|bs| - 1].at == brk
    ensures bs[|bs| - 1].at % 4 == 0 && Headers(mem, dir, bs[..|bs| - 1])
  {
    hide Peek, Tiled, MappedBelow;
    var pre, last := bs[..|bs| - 1], bs[|bs| - 1];
    assert bs == pre + [last];
    HeadersConcat(mem, dir, pre, [last]);
    TopBlock(bs, base, brk);
    PageAligned(base);
    TiledAligned(bs, base, brk);
    assert last in bs;
    WordAligned(last.at);
  }

  lemma LastUsed(bs: seq<Block>)
    requires bs != [] && !bs[|bs| - 1].used
    ensures Used(bs[..|bs| - 1]) == Used(bs)
  {
    assert bs == bs[..|bs| - 1] + [bs[|bs| - 1]];
    UsedConcat(bs[..|bs| - 1], [bs[|bs| - 1]]);
  }

  lemma QuietParts(mem: Memory, mem': Memory, dir: Frame, base: Word, brk: Word, limit: Word, us: set<Block>)
    requires Quiet(mem, mem', dir, base, limit, us)
    ensures Keeps(mem, mem', dir, base / 4096, limit / 4096) && PayloadsKept(mem, mem', dir, us)
    ensures SameTables(mem, mem', dir)
  {
  }

  lemma DrawnCarved(owner: Owners, owner': Owners, f: Frame)
    requires Drawn(owner, owner', 0, 0) && owner[f].Carved?
    ensures owner'[f] == owner[f]
  {
  }

  /** A page of a heap's range is a kernel data page. */
  lemma HeapPage(base: int, limit: int, at: int)
    requires RangeOk(base, limit) && base <= at && at + 4096 <= limit
    ensures 0 <= at < 0x1_0000_0000 && at / 4096 < WINDOW_PAGE && DataPage(at / 4096) && IsKernel(at)
    ensures !UserInKernel(at, KERNEL_PAGE)
  {
  }

  /** Inside the carved block the arithmetic does not wrap, and the frame is kept for that page. */
  lemma CarvedFrame(owner: Owners, base: Word, limit: Word, physBase: Word, physEnd: Word, at: Word)
    requires CarvedOk(owner, base, physBase, physEnd) && NoWrap(base, limit, physBase, physEnd)
    requires base % 4096 == 0 && at % 4096 == 0 && base <= at && at + 4096 <= limit && at - base <= physEnd - physBase
    requires ContiguousFrame(physBase, physEnd, base, at).Some?
    ensures var frame := ContiguousFrame(physBase, physEnd, base, at).value;
      && physBase + (at - base) + 4096 <= physEnd
      && frame == physBase + (at - base)
      && frame / 4096 == physBase / 4096 + (at / 4096 - base / 4096)
      && owner[frame / 4096] == Carved(at / 4096)
  {
    var off := at - base;
    NextPage(physEnd, 0x1_0000_0000);
    FrameInside(physBase, physEnd, base, limit, at);
    PageQuotient(physBase, off);
    PageQuotient(base, off);
    PageQuotient(physBase, physEnd - physBase);
  }

  /** The word of a byte of a payload lies in the payload. */
  lemma WordInside(at: int, a: Word)
    requires at % 8 == 0 && at + 8 <= a
    ensures at + 8 <= Aligned(a) <= a && Aligned(a) % 4 == 0
  {
    var q, r := at / 8, a / 4;
    assert at == 8 * q && Aligned(a) == 4 * r && a < 4 * r + 4;
    Fours(2 * q + 2, r, a);
  }

  lemma Fours(x: int, r: int, a: int)
    requires 4 * x <= a < 4 * r + 4
    ensures 4 * x <= 4 * r && (4 * r) % 4 == 0
  {
  }

  lemma PageQuotient(x: int, y: int)
    requires x % 4096 == 0 && (x + y) % 4096 == 0
    ensures (x + y) / 4096 == x / 4096 + y / 4096 && y % 4096 == 0
  {
  }
}
