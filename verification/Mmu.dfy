/**
 * The hardware below the kernel: physical memory as 32-bit words, the two-level
 * walk of section 4.3 of the Intel SDM volume 3A, and a translation cache that
 * is filled only by the accesses made and never holds an absent translation.
 */
module Mmu {
  import opened Options
  import opened Layout
  import opened Bytes

  type Memory = m: seq<Word> | |m| == 0x4000_0000 ghost witness seq(0x4000_0000, _ => 0)

  predicate Present(e: Word) { e % 2 == 1 }
  predicate Writable(e: Word) { e / 2 % 2 == 1 }
  predicate UserBit(e: Word) { e / 4 % 2 == 1 }
  function FrameOf(e: Word): Frame { e / 4096 }

  /** What a walk yields: a frame, and rights that hold only when both entries grant them. */
  datatype Translation = Translation(frame: Frame, writable: bool, user: bool)

  /** Directory entry `d` of the directory in frame `dir`. */
  function Pde(mem: Memory, dir: Frame, d: int): Word
    requires 0 <= d < 1024
  {
    mem[dir * 1024 + d]
  }

  /** The table entry that governs page `p`, or zero where there is no table. */
  function Pte(mem: Memory, dir: Frame, p: Page): Word {
    var pde := Pde(mem, dir, p / 1024);
    if Present(pde) then mem[FrameOf(pde) * 1024 + p % 1024] else 0
  }

  function Walk(mem: Memory, dir: Frame, p: Page): Option<Translation> {
    var pde, pte := Pde(mem, dir, p / 1024), Pte(mem, dir, p);
    if Present(pte) then
      Some(Translation(FrameOf(pte), Writable(pde) && Writable(pte), UserBit(pde) && UserBit(pte)))
    else None
  }

  /** The memory word that holds a virtual address of a mapped page. */
  function Slot(mem: Memory, dir: Frame, a: Word): int
    ensures 0 <= Slot(mem, dir, a) < 0x4000_0000
  {
    FrameOf(Pte(mem, dir, a / 4096)) * 1024 + a % 4096 / 4
  }

  /** The word that holds a virtual address. */
  function Peek(mem: Memory, dir: Frame, a: Word): Word {
    mem[Slot(mem, dir, a)]
  }

  function PeekByte(mem: Memory, dir: Frame, a: Word): Byte {
    ByteOf(Peek(mem, dir, a), a % 4)
  }

  function Aligned(a: Word): Word { a - a % 4 }

  /** All four bytes of a word lie in one memory word of one page. */
  lemma AlignedWord(mem: Memory, dir: Frame, a: Word)
    ensures Aligned(a) % 4 == 0 && Aligned(a) / 4096 == a / 4096
    ensures Slot(mem, dir, Aligned(a)) == Slot(mem, dir, a)
    ensures Peek(mem, dir, Aligned(a)) == Peek(mem, dir, a)
  {
    AlignedParts(a / 4096, a % 4096 / 4, a % 4);
    assert a == a / 4096 * 4096 + a % 4096 / 4 * 4 + a % 4;
  }

  lemma AlignedParts(p: int, w: int, k: int)
    requires 0 <= w < 1024 && 0 <= k < 4
    ensures var a := p * 4096 + w * 4;
      && a % 4 == 0 && a / 4096 == p && a % 4096 / 4 == w
      && (a + k) % 4 == k
  {
    var a := p * 4096 + w * 4;
    assert a == 4 * (p * 1024 + w);
    assert a / 4096 == p && a % 4096 == w * 4;
  }

  /** A cached translation is the one a walk would find now. */
  predicate Agrees(tlb: map<Page, Translation>, mem: Memory, dir: Frame, p: Page) {
    p in tlb ==> Walk(mem, dir, p) == Some(tlb[p])
  }

  ghost predicate Coherent(tlb: map<Page, Translation>, mem: Memory, dir: Frame) {
    forall p: Page :: p in tlb ==> Walk(mem, dir, p) == Some(tlb[p])
  }

  class Mmu {
    var mem: Memory
    var tlb: map<Page, Translation>
    /** CR0.WP: supervisor writes obey the R/W bit. */
    var wp: bool
    /** The directory frame in CR3, which never changes. */
    const dir: Frame

    constructor (mem: Memory, dir: Frame)
      ensures this.mem == mem && this.dir == dir && tlb == map[] && !wp
    {
      this.mem, this.dir, tlb, wp := mem, dir, map[], false;
    }

    /** A supervisor read. A fault cannot occur: the caller proves the page present. */
    method Load(a: Word) returns (w: Word)
      requires a % 4 == 0
      requires Agrees(tlb, mem, dir, a / 4096)
      requires Walk(mem, dir, a / 4096).Some?
      modifies this`tlb
      ensures w == Peek(mem, dir, a)
      ensures old(Coherent(tlb, mem, dir)) ==> Coherent(tlb, mem, dir)
      ensures tlb == old(tlb)[a / 4096 := Walk(mem, dir, a / 4096).value]
    {
      var t := Translate(a / 4096);
      w := mem[t.frame * 1024 + a % 4096 / 4];
    }

    /** A supervisor write. The caller proves the page present and, under CR0.WP, writable. */
    method Store(a: Word, w: Word)
      requires a % 4 == 0
      requires Agrees(tlb, mem, dir, a / 4096)
      requires Walk(mem, dir, a / 4096).Some?
      requires wp ==> Walk(mem, dir, a / 4096).value.writable
      modifies this`tlb, this`mem
      ensures mem == old(mem)[Slot(old(mem), dir, a) := w]
      ensures tlb == old(tlb)[a / 4096 := old(Walk(mem, dir, a / 4096).value)]
    {
      var t := Translate(a / 4096);
      mem := mem[t.frame * 1024 + a % 4096 / 4 := w];
    }

    method LoadByte(a: Word) returns (b: Byte)
      requires Agrees(tlb, mem, dir, a / 4096)
      requires Walk(mem, dir, a / 4096).Some?
      modifies this`tlb
      ensures b == PeekByte(mem, dir, a)
      ensures tlb == old(tlb)[a / 4096 := Walk(mem, dir, a / 4096).value]
    {
      var t := Translate(a / 4096);
      b := ByteOf(mem[t.frame * 1024 + a % 4096 / 4], a % 4);
    }

    /** A byte write replaces one byte of the memory word it lies in. */
    method StoreByte(a: Word, b: Byte)
      requires Agrees(tlb, mem, dir, a / 4096)
      requires Walk(mem, dir, a / 4096).Some?
      requires wp ==> Walk(mem, dir, a / 4096).value.writable
      modifies this`tlb, this`mem
      ensures mem == old(mem)[Slot(old(mem), dir, a) := WithByte(Peek(old(mem), dir, a), a % 4, b)]
      ensures tlb == old(tlb)[a / 4096 := old(Walk(mem, dir, a / 4096).value)]
    {
      var t := Translate(a / 4096);
      var slot := t.frame * 1024 + a % 4096 / 4;
      mem := mem[slot := WithByte(mem[slot], a % 4, b)];
    }

    /** Use the cached translation when there is one, else walk and cache the result. */
    method Translate(p: Page) returns (t: Translation)
      requires Agrees(tlb, mem, dir, p)
      requires Walk(mem, dir, p).Some?
      modifies this`tlb
      ensures t == Walk(mem, dir, p).value
      ensures tlb == old(tlb)[p := t]
    {
      if p in tlb {
        t := tlb[p];
      } else {
        t := Walk(mem, dir, p).value;
        tlb := tlb[p := t];
      }
    }

    /** `invlpg`: forget one page. */
    method Invalidate(a: Word)
      modifies this`tlb
      ensures tlb == old(tlb) - {a / 4096}
    {
      tlb := tlb - {a / 4096};
    }

    /** A CR3 reload: forget everything. */
    method Flush()
      modifies this`tlb
      ensures tlb == map[]
    {
      tlb := map[];
    }
  }
}
