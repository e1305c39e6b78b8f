/** The physical frame allocator: a bitmap of 2^20 bits with a counter. */
module Pmm {
  import opened Options
  import opened Layout
  import opened Bits

  const WORDS := 0x8000

  datatype Region = Region(base: Word, end: Word)

  /** The frames `Init` walks for one region: the base rounds up and the end rounds down. */
  function FirstFrame(r: Region): Frame {
    Add32(r.base, 4095) / 4096
  }

  predicate InRegion(f: Frame, r: Region) {
    FirstFrame(r) <= f < r.end / 4096
  }

  ghost predicate InSome(f: Frame, rs: seq<Region>) {
    exists i :: 0 <= i < |rs| && InRegion(f, rs[i])
  }

  ghost function FramesOf(rs: seq<Region>): set<Frame> {
    set f: Frame | InSome(f, rs)
  }

  /** A frame every byte of which lies in the region. */
  predicate WhollyIn(f: Frame, r: Region) {
    r.base <= f * 4096 && f * 4096 + 4096 <= r.end
  }

  /**
   * Rounding keeps exactly the whole frames of a region, unless the region
   * starts in the last page of the 32-bit space: there the rounded base wraps
   * to zero and every lower frame is taken for free memory.
   */
  lemma RegionRoundsInward(r: Region)
    requires r.base < r.end
    ensures (forall f: Frame :: InRegion(f, r) <==> WhollyIn(f, r)) <==> r.base <= 0xFFFF_F000
  {
    if r.base > 0xFFFF_F000 {
      assert InRegion(0, r) && !WhollyIn(0, r);
    }
  }

  /** A concrete memory-map entry on which the rounding wraps and frees all of memory. */
  lemma WrappedRegion()
    ensures forall f: Frame :: InRegion(f, Region(0xFFFF_F100, 0xFFFF_F200)) <==> f < 0xF_FFFF
  {
    assert FirstFrame(Region(0xFFFF_F100, 0xFFFF_F200)) == 0;
  }

  /** No region reaches the last frame, so a byte count past any frame still fits 32 bits. */
  lemma LastFrameNeverFree(rs: seq<Region>)
    ensures forall f :: f in FramesOf(rs) ==> f < 0xF_FFFF
  {
  }

  /** `n` consecutive free frames starting at `b`. */
  ghost predicate RunAt(free: set<Frame>, b: int, n: int) {
    && 0 <= b
    && b + n <= MAX_FRAMES
    && forall f: Frame :: b <= f < b + n ==> f in free
  }

  ghost predicate HasRun(free: set<Frame>, n: int) {
    exists b :: RunAt(free, b, n)
  }

  lemma ShorterRun(free: set<Frame>, b: int, n: int, k: int)
    requires RunAt(free, b, n) && 0 <= k <= n
    ensures RunAt(free, b, k)
  {
  }

  /** The size `Carve` tries last when every larger one is refused. */
  function LastTried(pages: nat): nat {
    if pages < 32 then pages else LastTried(pages / 2)
  }

  lemma {:induction false} LastTriedBelow(pages: nat)
    ensures LastTried(pages) <= pages
    ensures pages >= 16 ==> LastTried(pages) >= 16
  {
    if pages >= 32 {
      LastTriedBelow(pages / 2);
    }
  }

  /** The size `Carve` gets: the first of the halved sizes, down to 16 pages, that is free in one piece. */
  ghost function Granted(free: set<Frame>, pages: nat): (n: nat)
    ensures n <= pages
  {
    if pages < 16 then 0 else if HasRun(free, pages) then pages else Granted(free, pages / 2)
  }

  /**
   * The full request, or at least half of the longest free run; nothing exactly
   * when the last size tried fits nowhere.
   */
  lemma {:induction false} GrantedMeans(free: set<Frame>, pages: nat)
    ensures Granted(free, pages) == 0 <==> LastTried(pages) < 16 || !HasRun(free, LastTried(pages))
    ensures Granted(free, pages) > 0 ==>
      && 16 <= Granted(free, pages) <= pages && HasRun(free, Granted(free, pages))
      && (Granted(free, pages) == pages || forall k :: k > 2 * Granted(free, pages) ==> !HasRun(free, k))
  {
    LastTriedBelow(pages);
    if pages >= 16 {
      if HasRun(free, pages) {
        LongerRunHelps(free, LastTried(pages));
      } else {
        LongerRunHelps(free, pages);
        GrantedMeans(free, pages / 2);
      }
    }
  }

  /** The lowest frame of a set. */
  ghost function Lowest(s: set<Frame>): (x: Frame)
    requires s != {}
    ensures x in s && forall y :: y in s ==> x <= y
  {
    var y: Frame :| y in s;
    LowestAbove(s, 0)
  }

  ghost function LowestAbove(s: set<Frame>, k: Frame): (x: Frame)
    requires exists y: Frame :: y in s && k <= y
    ensures x in s && k <= x && forall y: Frame :: y in s && k <= y ==> x <= y
    decreases 0x10_0000 - k
  {
    if k in s then k else LowestAbove(s, k + 1)
  }

  /** The bitmap words describe exactly the set of free frames. */
  ghost predicate Describes(ws: seq<Word>, free: set<Frame>)
  {
    |ws| == WORDS && forall f: Frame :: f in free <==> Bit(ws[f / 32], f % 32)
  }

  lemma DescribesAfterSet(ws: seq<Word>, free: set<Frame>, f: Frame)
    requires Describes(ws, free)
    ensures SetBit(ws[f / 32], f % 32) < 0x1_0000_0000
    ensures Describes(ws[f / 32 := SetBit(ws[f / 32], f % 32)], free + {f})
  {
    BitOfWord(ws[f / 32], f % 32);
    var ws' := ws[f / 32 := SetBit(ws[f / 32], f % 32)];
    forall g: Frame
      ensures g in free + {f} <==> Bit(ws'[g / 32], g % 32)
    {
      BitAfterSet(ws[f / 32], f % 32, g % 32);
    }
  }

  lemma DescribesAfterClear(ws: seq<Word>, free: set<Frame>, f: Frame)
    requires Describes(ws, free)
    ensures ClearBit(ws[f / 32], f % 32) < 0x1_0000_0000
    ensures Describes(ws[f / 32 := ClearBit(ws[f / 32], f % 32)], free - {f})
  {
    BitOfWord(ws[f / 32], f % 32);
    var ws' := ws[f / 32 := ClearBit(ws[f / 32], f % 32)];
    forall g: Frame
      ensures g in free - {f} <==> Bit(ws'[g / 32], g % 32)
    {
      BitAfterClear(ws[f / 32], f % 32, g % 32);
    }
  }

  /** A zero word holds no free frame. */
  lemma NoBitBelow(ws: seq<Word>, free: set<Frame>, word: int)
    requires Describes(ws, free)
    requires 0 <= word < WORDS && ws[word] == 0
    requires forall f :: f in free ==> word * 32 <= f
    ensures forall f :: f in free ==> word * 32 + 32 <= f
  {
    forall f | f in free
      ensures word * 32 + 32 <= f
    {
      ZeroHasNoBit(f % 32);
    }
  }

  /** In the first non-zero word, the lowest bit stands for the lowest free frame. */
  lemma LowestOfWord(ws: seq<Word>, free: set<Frame>, word: int)
    requires Describes(ws, free)
    requires 0 <= word < WORDS && ws[word] != 0
    requires forall f :: f in free ==> word * 32 <= f
    ensures TrailingZeros(ws[word]) < 32
    ensures word * 32 + TrailingZeros(ws[word]) in free
    ensures forall f :: f in free ==> word * 32 + TrailingZeros(ws[word]) <= f
  {
    TrailingZerosOfWord(ws[word]);
    var low: Frame := word * 32 + TrailingZeros(ws[word]);
    assert low / 32 == word && low % 32 == TrailingZeros(ws[word]);
    forall f: Frame | word * 32 <= f < low
      ensures f !in free
    {
      assert f / 32 == word && !Bit(ws[word], f % 32);
    }
  }

  class Pmm {
    const words: array<Word>
    var total: nat
    var available: nat
    /** The frames whose bit is set. */
    ghost var free: set<Frame>
    /** The frames counted in `total`. */
    ghost var all: set<Frame>

    ghost predicate Valid()
      reads this, words
    {
      && Describes(words[..], free)
      && available == |free|
      && total == |all|
    }

    /** The zero-initialised bitmap: nothing is free until `Init` says so. */
    constructor ()
      ensures Valid() && fresh(words)
      ensures free == {} && all == {}
    {
      words := new Word[WORDS](_ => 0);
      total, available := 0, 0;
      free, all := {}, {};
      new;
      forall f: Frame
        ensures !Bit(words[..][f / 32], f % 32)
      {
        ZeroHasNoBit(f % 32);
      }
    }

    predicate FreeBit(frame: nat)
      requires words.Length == WORDS
      reads words
    {
      frame < MAX_FRAMES && Bit(words[frame / 32], frame % 32)
    }

    lemma FreeBitIsMember(frame: nat)
      requires Valid()
      ensures FreeBit(frame) <==> frame < MAX_FRAMES && frame in free
    {
      if frame < MAX_FRAMES {
        assert words[..][frame / 32] == words[frame / 32];
      }
    }

    method SetFree(frame: nat)
      requires Valid()
      modifies this`available, this`free, words
      ensures Valid()
      ensures free == old(free) + (if frame < MAX_FRAMES then {frame} else {})
    {
      FreeBitIsMember(frame);
      if frame >= MAX_FRAMES || FreeBit(frame) {
        return;
      }
      DescribesAfterSet(words[..], free, frame);
      ghost var was := words[..];
      words[frame / 32] := SetBit(words[frame / 32], frame % 32);
      assert words[..] == was[frame / 32 := SetBit(was[frame / 32], frame % 32)];
      available := available + 1;
      free := free + {frame};
    }

    method SetUsed(frame: nat)
      requires Valid()
      modifies this`available, this`free, words
      ensures Valid()
      ensures free == old(free) - (if frame < MAX_FRAMES then {frame} else {})
    {
      FreeBitIsMember(frame);
      if frame >= MAX_FRAMES || !FreeBit(frame) {
        return;
      }
      DescribesAfterClear(words[..], free, frame);
      ghost var was := words[..];
      words[frame / 32] := ClearBit(words[frame / 32], frame % 32);
      assert words[..] == was[frame / 32 := ClearBit(was[frame / 32], frame % 32)];
      available := available - 1;
      free := free - {frame};
    }

    /** Overlapping regions count each frame once. */
    method Init(regions: seq<Region>)
      requires Valid()
      requires free == all
      modifies this, words
      ensures Valid()
      ensures free == all == old(free) + FramesOf(regions)
    {
      for i := 0 to |regions|
        invariant Valid()
        invariant free == all == old(free) + FramesOf(regions[..i])
      {
        FramesOfPrefix(regions, i);
        AddRegion(regions[i]);
      }
      assert regions[..|regions|] == regions;
    }

    /** The inner loop of `Init`. */
    method AddRegion(region: Region)
      requires Valid()
      requires free == all
      modifies this, words
      ensures Valid()
      ensures free == all == old(free) + set f: Frame | InRegion(f, region)
    {
      var last := region.end / 4096;
      var frame: int := FirstFrame(region);
      while frame < last
        invariant FirstFrame(region) <= frame
        invariant Valid() && free == all
        invariant forall f: Frame :: f in free <==> f in old(free) || (InRegion(f, region) && f < frame)
      {
        CountFrame(frame);
        frame := frame + 1;
      }
    }

    method CountFrame(frame: Frame)
      requires Valid()
      requires free == all
      modifies this, words
      ensures Valid()
      ensures free == all == old(free) + {frame}
    {
      FreeBitIsMember(frame);
      if !FreeBit(frame) {
        total := total + 1;
        all := all + {frame};
        SetFree(frame);
      }
    }

    method Reserve(start: Word, end: Word)
      requires Valid()
      modifies this`available, this`free, words
      ensures Valid()
      ensures free == set f | f in old(free) && !(start / 4096 <= f < Add32(end, 4095) / 4096)
    {
      var last := Add32(end, 4095) / 4096;
      var frame := start / 4096;
      while frame < last
        invariant start / 4096 <= frame
        invariant Valid()
        invariant forall f: Frame :: f in free <==> f in old(free) && !(start / 4096 <= f < frame && f < last)
      {
        SetUsed(frame);
        frame := frame + 1;
      }
    }

    /** The difference of the counters, in 32 bits: the frames in use exactly when every free frame was counted. */
    method UsedFrames() returns (n: Word)
      requires Valid()
      ensures n == |all - free| <==> free <= all
    {
      assert |all| == |all * free| + |all - free| by {
        assert all == all * free + (all - free);
      }
      assert |free| == |all * free| + |free - all| by {
        assert free == all * free + (free - all);
      }
      FrameCount(free - all, MAX_FRAMES);
      FrameCount(all - free, MAX_FRAMES);
      assert |free - all| == 0 <==> free <= all by {
        if !(free <= all) {
          var f :| f in free && f !in all;
          assert f in free - all;
        }
      }
      n := (total - available) % 0x1_0000_0000;
    }

    /** The lowest free frame, or nothing exactly when no frame is free. */
    method AllocFrame() returns (r: Option<Word>)
      requires Valid()
      modifies this`available, this`free, words
      ensures Valid()
      ensures r.None? <==> old(free) == {}
      ensures r.None? ==> free == old(free)
      ensures r.Some? ==>
        && r.value == Lowest(old(free)) * 4096
        && free == old(free) - {Lowest(old(free))}
    {
      for word := 0 to WORDS
        invariant Valid() && free == old(free)
        invariant forall f :: f in free ==> word * 32 <= f
      {
        var bits := words[word];
        assert words[..][word] == bits;
        if bits == 0 {
          NoBitBelow(words[..], free, word);
          continue;
        }
        TrailingZerosOfWord(bits);
        var frame := word * 32 + TrailingZeros(bits);
        LowestOfWord(words[..], free, word);
        SetUsed(frame);
        return Some(frame * 4096);
      }
      assert free == {};
      return None;
    }

    method FreeFrame(phys: Word)
      requires Valid()
      modifies this`available, this`free, words
      ensures Valid()
      ensures free == old(free) + {phys / 4096}
    {
      SetFree(phys / 4096);
    }

    /** The lowest base of `count` consecutive free frames, although the scan skips past each gap. */
    method FindRun(count: nat) returns (r: Option<nat>)
      requires Valid()
      ensures r.Some? ==> count > 0 && RunAt(free, r.value, count)
      ensures r.Some? ==> forall b :: 0 <= b < r.value ==> !RunAt(free, b, count)
      ensures r.None? ==> count == 0 || !HasRun(free, count)
    {
      if count == 0 {
        return None;
      }
      var frame := 0;
      while frame + count <= MAX_FRAMES
        invariant forall b :: 0 <= b < frame ==> !RunAt(free, b, count)
        decreases MAX_FRAMES - frame
      {
        FreeBitIsMember(frame);
        if !FreeBit(frame) {
          assert !RunAt(free, frame, count);
          frame := frame + 1;
          continue;
        }
        var span := 1;
        while span < count && FreeBit(frame + span)
          invariant 1 <= span <= count
          invariant RunAt(free, frame, span)
        {
          FreeBitIsMember(frame + span);
          span := span + 1;
        }
        if span == count {
          return Some(frame);
        }
        FreeBitIsMember(frame + span);
        forall b | 0 <= b < frame + span + 1
          ensures !RunAt(free, b, count)
        {
          assert b >= frame ==> b <= frame + span < b + count;
        }
        frame := frame + span + 1;
      }
      return None;
    }

    method AllocRange(count: nat) returns (r: Option<Word>)
      requires Valid()
      modifies this`available, this`free, words
      ensures Valid()
      ensures r.None? <==> count == 0 || !HasRun(old(free), count)
      ensures r.None? ==> free == old(free)
      ensures r.Some? ==>
        && r.value % 4096 == 0
        && RunAt(old(free), r.value / 4096, count)
        && (forall b :: 0 <= b < r.value / 4096 ==> !RunAt(old(free), b, count))
        && free == set f | f in old(free) && !(r.value / 4096 <= f < r.value / 4096 + count)
    {
      var base := FindRun(count);
      if base.None? {
        return None;
      }
      assert base.value + count <= MAX_FRAMES;
      TakeRange(base.value, count);
      return Some(base.value * 4096);
    }

    /** The marking loop of `AllocRange`. */
    method TakeRange(first: nat, count: nat)
      requires Valid()
      modifies this`available, this`free, words
      ensures Valid()
      ensures free == set f | f in old(free) && !(first <= f < first + count)
    {
      for frame := first to first + count
        invariant Valid()
        invariant forall f: Frame :: f in free <==> f in old(free) && !(first <= f < frame)
      {
        SetUsed(frame);
      }
    }

    /**
     * One contiguous block, halving the request on refusal, at the lowest place
     * that has it. The end of the block is a 32-bit sum.
     */
    method Carve(size: Word) returns (r: Option<(Word, Word)>)
      requires Valid()
      modifies this`available, this`free, words
      ensures Valid()
      ensures r.None? <==> Granted(old(free), size / 4096) == 0
      ensures r.None? ==> free == old(free)
      ensures r.Some? ==> var n := Granted(old(free), size / 4096);
        && r.value.0 % 4096 == 0 && r.value.1 == Add32(r.value.0, n * 4096)
        && RunAt(old(free), r.value.0 / 4096, n)
        && (forall b :: 0 <= b < r.value.0 / 4096 ==> !RunAt(old(free), b, n))
        && free == set f | f in old(free) && !(r.value.0 / 4096 <= f < r.value.0 / 4096 + n)
    {
      var pages := size / 4096;
      while pages >= 16
        invariant 0 <= pages <= size / 4096
        invariant Valid() && free == old(free)
        invariant Granted(free, pages) == Granted(free, size / 4096)
      {
        var base := AllocRange(pages);
        if base.Some? {
          return Some((base.value, Add32(base.value, pages * 4096)));
        }
        pages := pages / 2;
      }
      return None;
    }

    method LargestRun() returns (best: nat)
      requires Valid()
      ensures HasRun(free, best)
      ensures forall n :: n > best ==> !HasRun(free, n)
    {
      best := 0;
      var run := 0;
      assert RunAt(free, 0, 0);
      for frame := 0 to MAX_FRAMES
        invariant 0 <= run <= best <= frame
        invariant HasRun(free, best)
        invariant RunAt(free, frame - run, run)
        invariant run < frame ==> frame - run - 1 !in free
        invariant forall b, n :: n > best && b + n <= frame ==> !RunAt(free, b, n)
      {
        FreeBitIsMember(frame);
        if FreeBit(frame) {
          run := run + 1;
          assert RunAt(free, frame + 1 - run, run);
          if run > best {
            best := run;
          }
        } else {
          run := 0;
        }
      }
    }
  }

  /** There are at most `k` frames below frame `k`. */
  lemma {:induction false} FrameCount(s: set<Frame>, k: nat)
    requires k <= MAX_FRAMES && forall f :: f in s ==> f < k
    ensures |s| <= k
  {
    if k == 0 {
      assert s == {};
    } else {
      FrameCount(s - {k - 1}, k - 1);
    }
  }

  lemma FramesOfPrefix(rs: seq<Region>, i: int)
    requires 0 <= i < |rs|
    ensures FramesOf(rs[..i + 1]) == FramesOf(rs[..i]) + set f: Frame | InRegion(f, rs[i])
  {
    forall f: Frame
      ensures InSome(f, rs[..i + 1]) <==> InSome(f, rs[..i]) || InRegion(f, rs[i])
    {
      if InSome(f, rs[..i]) {
        var k :| 0 <= k < i && InRegion(f, rs[..i][k]);
        assert rs[..i + 1][k] == rs[..i][k];
      }
      if InRegion(f, rs[i]) {
        assert rs[..i + 1][i] == rs[i];
      }
    }
  }

  lemma LongerRunHelps(free: set<Frame>, n: nat)
    ensures !HasRun(free, n) ==> forall k :: k >= n ==> !HasRun(free, k)
  {
    forall k | k >= n && HasRun(free, k)
      ensures HasRun(free, n)
    {
      var b :| RunAt(free, b, k);
      ShorterRun(free, b, k, n);
    }
  }

  lemma RunStaysBelow(free: set<Frame>, b: int, n: nat)
    requires forall f :: f in free ==> f < 0xF_FFFF
    requires RunAt(free, b, n) && n > 0
    ensures b + n <= 0xF_FFFF
  {
    var top: Frame := b + n - 1;
    assert top in free;
  }

  /** The run search succeeds exactly for the sizes up to the longest run. */
  lemma RunsUpToLargest(free: set<Frame>, best: nat, n: nat)
    requires HasRun(free, best)
    requires forall k :: k > best ==> !HasRun(free, k)
    ensures HasRun(free, n) <==> n <= best
  {
    if n <= best {
      var b :| RunAt(free, b, best);
      ShorterRun(free, b, best, n);
    }
  }
}
