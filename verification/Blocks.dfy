/**
 * The heap's blocks as values: how they tile a region, what merging all
 * adjacent free blocks gives, and which block a first-fit search must find.
 */
module Blocks {
  import opened Options

  /** A block: the address of its 8-byte header, its payload size, and whether it is handed out. */
  datatype Block = Block(at: int, size: int, used: bool)

  function Next(b: Block): int { b.at + 8 + b.size }

  /** Blocks lie end to end from `at` to `end`. */
  predicate Tiled(bs: seq<Block>, at: int, end: int) {
    if bs == [] then at == end
    else bs[0].at == at && Sized(bs[0]) && Tiled(bs[1..], Next(bs[0]), end)
  }

  /** Payload sizes are positive multiples of 8. */
  predicate Sized(b: Block) {
    b.size >= 8 && b.size % 8 == 0
  }

  /** Every block lies inside the region, and headers are 8-aligned when the region is. */
  lemma {:induction false} TiledBounds(bs: seq<Block>, at: int, end: int)
    requires Tiled(bs, at, end)
    ensures at <= end
    ensures bs != [] ==> at + 16 <= end
    ensures forall b :: b in bs ==> at <= b.at && Next(b) <= end && b.size >= 8 && b.size % 8 == 0
  {
    if bs != [] {
      TiledBounds(bs[1..], Next(bs[0]), end);
      assert bs == [bs[0]] + bs[1..];
    }
  }

  lemma {:induction false} TiledAligned(bs: seq<Block>, at: int, end: int)
    requires Tiled(bs, at, end) && at % 8 == 0
    ensures end % 8 == 0
    ensures forall b :: b in bs ==> b.at % 8 == 0
  {
    if bs != [] {
      SumAligned(at, bs[0].size);
      TiledAligned(bs[1..], Next(bs[0]), end);
      assert bs == [bs[0]] + bs[1..];
    }
  }

  lemma TiledNone(at: int)
    ensures Tiled([], at, at)
  {
  }

  lemma TiledNoneAt(at: int, end: int)
    requires Tiled([], at, end)
    ensures at == end
  {
  }

  lemma TiledSome(bs: seq<Block>, at: int, end: int)
    requires Tiled(bs, at, end) && at != end
    ensures bs != []
  {
  }

  lemma HeadSized(bs: seq<Block>, at: int, end: int)
    requires Tiled(bs, at, end) && bs != []
    ensures bs[0].at == at && bs[0].size >= 8 && bs[0].size % 8 == 0 && Tiled(bs[1..], Next(bs[0]), end)
  {
  }

  lemma OneTiles(b: Block)
    ensures Tiled([b], b.at, Next(b)) <==> Sized(b)
    ensures Sized(b) <==> b.size >= 8 && b.size % 8 == 0
  {
  }

  lemma SumAligned(x: int, y: int)
    requires x % 8 == 0 && y % 8 == 0
    ensures (x + y) % 8 == 0 && (x + 8 + y) % 8 == 0 && (x - y - 8) % 8 == 0
  {
  }

  lemma {:induction false} TiledConcat(xs: seq<Block>, ys: seq<Block>, at: int, mid: int, end: int)
    requires Tiled(xs, at, mid)
    ensures Tiled(xs + ys, at, end) <==> Tiled(ys, mid, end)
  {
    if xs == [] {
      assert xs + ys == ys;
    } else {
      TiledConcat(xs[1..], ys, Next(xs[0]), mid, end);
      assert (xs + ys)[1..] == xs[1..] + ys;
    }
  }

  /** A tiling can be cut at any block. */
  lemma {:induction false} TiledSplit(xs: seq<Block>, ys: seq<Block>, at: int, end: int) returns (mid: int)
    requires Tiled(xs + ys, at, end)
    ensures Tiled(xs, at, mid) && Tiled(ys, mid, end)
  {
    if xs == [] {
      assert xs + ys == ys;
      mid := at;
    } else {
      assert (xs + ys)[1..] == xs[1..] + ys;
      mid := TiledSplit(xs[1..], ys, Next(xs[0]), end);
    }
  }

  lemma TiledSuffix(xs: seq<Block>, ys: seq<Block>, at: int, mid: int, end: int)
    requires Tiled(xs + ys, at, end) && Tiled(xs, at, mid)
    ensures Tiled(ys, mid, end)
  {
    TiledConcat(xs, ys, at, mid, end);
  }

  // ----- Merging -----

  function Merge(a: Block, b: Block): Block {
    Block(a.at, a.size + 8 + b.size, false)
  }

  /** Every maximal run of adjacent free blocks merged into one. */
  function Coalesce(bs: seq<Block>): seq<Block> {
    if bs == [] then [] else Prepend(bs[0], Coalesce(bs[1..]))
  }

  function Prepend(b: Block, rest: seq<Block>): seq<Block> {
    if rest != [] && !b.used && !rest[0].used then [Merge(b, rest[0])] + rest[1..] else [b] + rest
  }

  lemma CoalesceNone()
    ensures Coalesce([]) == []
  {
  }

  lemma CoalesceHead(bs: seq<Block>)
    requires bs != []
    ensures Coalesce(bs) != [] && Coalesce(bs)[0].used == bs[0].used && Coalesce(bs)[0].at == bs[0].at
  {
  }

  /** No two neighbours of a coalesced list are both free: nothing is left to merge. */
  lemma {:induction false} CoalesceIsMaximal(bs: seq<Block>)
    ensures forall i :: 0 <= i < |Coalesce(bs)| - 1 ==> Coalesce(bs)[i].used || Coalesce(bs)[i + 1].used
  {
    if bs != [] {
      CoalesceIsMaximal(bs[1..]);
    }
  }

  /** Merging conserves the tiling, so no byte is lost or gained. */
  lemma {:induction false} CoalesceTiled(bs: seq<Block>, at: int, end: int)
    requires Tiled(bs, at, end)
    ensures Tiled(Coalesce(bs), at, end)
  {
    if bs != [] {
      CoalesceTiled(bs[1..], Next(bs[0]), end);
      var rest := Coalesce(bs[1..]);
      if rest != [] && !bs[0].used && !rest[0].used {
        assert ([Merge(bs[0], rest[0])] + rest[1..])[1..] == rest[1..];
      } else {
        assert ([bs[0]] + rest)[1..] == rest;
      }
    }
  }

  /** Merging keeps every used block as it was. */
  lemma {:induction false} CoalesceUsed(bs: seq<Block>)
    ensures Used(Coalesce(bs)) == Used(bs)
  {
    if bs != [] {
      CoalesceUsed(bs[1..]);
      var rest := Coalesce(bs[1..]);
      assert bs == [bs[0]] + bs[1..];
      UsedConcat([bs[0]], bs[1..]);
      if rest != [] && !bs[0].used && !rest[0].used {
        assert rest == [rest[0]] + rest[1..];
        UsedConcat([rest[0]], rest[1..]);
        UsedConcat([Merge(bs[0], rest[0])], rest[1..]);
      } else {
        UsedConcat([bs[0]], rest);
      }
    }
  }

  /** A merged list is merged already. */
  lemma {:induction false} CoalesceTwice(bs: seq<Block>)
    ensures Coalesce(Coalesce(bs)) == Coalesce(bs)
  {
    CoalesceIsMaximal(bs);
    MaximalIsCoalesced(Coalesce(bs));
  }

  lemma {:induction false} MaximalIsCoalesced(bs: seq<Block>)
    requires forall i :: 0 <= i < |bs| - 1 ==> bs[i].used || bs[i + 1].used
    ensures Coalesce(bs) == bs
  {
    if bs != [] {
      forall i | 0 <= i < |bs[1..]| - 1
        ensures bs[1..][i].used || bs[1..][i + 1].used
      {
        assert bs[i + 1].used || bs[i + 2].used;
      }
      MaximalIsCoalesced(bs[1..]);
      assert |bs| > 1 ==> bs[0].used || bs[1].used;
      assert [bs[0]] + bs[1..] == bs;
    }
  }

  /** One merging step of the search does not change the coalesced list. */
  lemma MergeStep(bs: seq<Block>)
    requires |bs| >= 2 && !bs[0].used && !bs[1].used
    ensures Coalesce([Merge(bs[0], bs[1])] + bs[2..]) == Coalesce(bs)
  {
    var rest := Coalesce(bs[2..]);
    var merged := [Merge(bs[0], bs[1])] + bs[2..];
    assert merged[1..] == bs[2..];
    assert bs[1..][1..] == bs[2..];
    assert Coalesce(bs) == Prepend(bs[0], Prepend(bs[1], rest));
    assert Coalesce(merged) == Prepend(Merge(bs[0], bs[1]), rest);
    if rest != [] && !rest[0].used {
      assert Prepend(bs[1], rest) == [Merge(bs[1], rest[0])] + rest[1..];
    }
  }

  /** What is merged behind a prefix does not depend on how the prefix ends. */
  lemma {:induction false} CoalesceBehind(pre: seq<Block>, xs: seq<Block>, ys: seq<Block>)
    requires Coalesce(xs) == Coalesce(ys)
    ensures Coalesce(pre + xs) == Coalesce(pre + ys)
  {
    if pre == [] {
      assert pre + xs == xs && pre + ys == ys;
    } else {
      CoalesceBehind(pre[1..], xs, ys);
      assert (pre + xs)[1..] == pre[1..] + xs;
      assert (pre + ys)[1..] == pre[1..] + ys;
    }
  }

  // ----- The blocks handed out -----

  function Used(bs: seq<Block>): set<Block> {
    set b | b in bs && b.used
  }

  lemma UsedConcat(xs: seq<Block>, ys: seq<Block>)
    ensures Used(xs + ys) == Used(xs) + Used(ys)
  {
  }

  /** No two blocks of a tiling start at the same address. */
  lemma OnlyOneAt(pre: seq<Block>, post: seq<Block>, base: int, at: int, end: int)
    requires Tiled(pre, base, at) && Tiled(post, at, end) && post != []
    ensures forall c :: c in pre + post && c.at == at ==> c == post[0]
    ensures forall c :: c in pre + post[1..] ==> c.at != at
  {
    TiledBounds(pre, base, at);
    TiledBounds(post[1..], Next(post[0]), end);
    assert post == [post[0]] + post[1..];
  }

  /** Live payloads are disjoint: two blocks of a tiling are the same or one ends before the other starts. */
  lemma {:induction false} TiledDisjoint(bs: seq<Block>, at: int, end: int, b: Block, c: Block)
    requires Tiled(bs, at, end) && b in bs && c in bs
    ensures b == c || Next(b) <= c.at || Next(c) <= b.at
  {
    TiledBounds(bs[1..], Next(bs[0]), end);
    if b != bs[0] && c != bs[0] {
      TiledDisjoint(bs[1..], Next(bs[0]), end, b, c);
    }
  }

  /** Freeing a block takes it, and nothing else, out of the blocks handed out. */
  lemma FreedUsed(pre: seq<Block>, b: Block, post: seq<Block>)
    requires b.used && forall c :: c in pre + post ==> c.at != b.at
    ensures Used(pre + [b.(used := false)] + post) == set c | c in Used(pre + [b] + post) && c.at != b.at
    ensures Used(pre + [b.(used := false)] + post) != Used(pre + [b] + post)
  {
    UsedConcat(pre, [b]);
    UsedConcat(pre + [b], post);
    UsedConcat(pre, [b.(used := false)]);
    UsedConcat(pre + [b.(used := false)], post);
    assert b in Used(pre + [b] + post);
  }

  /** Payload bytes handed out. */
  function UsedBytes(bs: seq<Block>): int {
    if bs == [] then 0 else UsedBytes(bs[..|bs| - 1]) + (if bs[|bs| - 1].used then bs[|bs| - 1].size else 0)
  }

  lemma NoneUsed()
    ensures Used([]) == {} && UsedBytes([]) == 0
  {
  }

  /** Counting one more block. */
  lemma CountStep(pre: seq<Block>, b: Block)
    requires forall c :: c in pre ==> c.at != b.at
    ensures |Used(pre + [b])| == |Used(pre)| + (if b.used then 1 else 0)
    ensures UsedBytes(pre + [b]) == UsedBytes(pre) + (if b.used then b.size else 0)
  {
    UsedConcat(pre, [b]);
    assert (pre + [b])[..|pre|] == pre;
    if b.used {
      assert Used([b]) == {b} && b !in Used(pre);
    } else {
      assert Used([b]) == {};
    }
  }

  // ----- First fit -----

  predicate Fits(b: Block, need: int) { !b.used && b.size >= need }

  /** The lowest free block of at least `need` bytes. */
  function LowestFit(bs: seq<Block>, need: int): Option<Block> {
    if bs == [] then None
    else if Fits(bs[0], need) then Some(bs[0])
    else LowestFit(bs[1..], need)
  }

  lemma {:induction false} LowestFitSkips(xs: seq<Block>, ys: seq<Block>, need: int)
    requires forall b :: b in xs ==> !Fits(b, need)
    ensures LowestFit(xs + ys, need) == LowestFit(ys, need)
  {
    if xs == [] {
      assert xs + ys == ys;
    } else {
      LowestFitSkips(xs[1..], ys, need);
      assert (xs + ys)[1..] == xs[1..] + ys;
    }
  }

  /** The search finds a block exactly when one fits. */
  lemma {:induction false} LowestFitFinds(bs: seq<Block>, need: int)
    ensures LowestFit(bs, need).None? <==> forall b :: b in bs ==> !Fits(b, need)
    ensures LowestFit(bs, need).Some? ==> LowestFit(bs, need).value in bs && Fits(LowestFit(bs, need).value, need)
  {
    if bs != [] {
      LowestFitFinds(bs[1..], need);
      assert bs == [bs[0]] + bs[1..];
    }
  }

  /** A block that cannot merge forward is settled: the merged list has it next, and the search can judge it. */
  lemma HeadSettled(pre: seq<Block>, post: seq<Block>, need: int)
    requires post != [] && (post[0].used || |post| == 1 || post[1].used)
    ensures pre + Coalesce(post) == pre + [post[0]] + Coalesce(post[1..])
    ensures Fits(post[0], need) && (forall b :: b in pre ==> !Fits(b, need)) ==>
      LowestFit(pre + Coalesce(post), need) == Some(post[0])
  {
    if |post| > 1 {
      CoalesceHead(post[1..]);
    }
    assert Coalesce(post) == [post[0]] + Coalesce(post[1..]);
    assert pre + [post[0]] + Coalesce(post[1..]) == pre + ([post[0]] + Coalesce(post[1..]));
    if forall b :: b in pre ==> !Fits(b, need) {
      LowestFitSkips(pre, Coalesce(post), need);
    }
  }

  // ----- Taking, growing and shrinking -----

  /** A free block handed out for `need` bytes, split when the rest can stand alone. */
  function Split(b: Block, need: int): seq<Block> {
    if b.size >= need + 16 then [Block(b.at, need, true), Block(b.at + 8 + need, b.size - need - 8, false)]
    else [b.(used := true)]
  }

  lemma SplitTiled(b: Block, need: int)
    requires b.size >= need >= 8 && need % 8 == 0 && b.size % 8 == 0
    ensures Tiled(Split(b, need), b.at, Next(b))
  {
    var t := Split(b, need);
    if b.size >= need + 16 {
      assert t[1..] == [t[1]];
      assert t[1..][1..] == [];
    } else {
      assert t[1..] == [];
    }
  }

  /** The region grew by `span` bytes at `start`: a free top block absorbs them, else they form a new one. */
  function Grown(bs: seq<Block>, start: int, span: int): seq<Block> {
    if bs != [] && !bs[|bs| - 1].used then
      bs[..|bs| - 1] + [bs[|bs| - 1].(size := bs[|bs| - 1].size + span)]
    else bs + [Block(start, span - 8, false)]
  }

  lemma LoneBlock(b: Block, at: int, end: int)
    requires Tiled([b], at, end)
    ensures b.at == at && Next(b) == end
  {
  }

  lemma GrownUsed(bs: seq<Block>, start: int, span: int)
    ensures Used(Grown(bs, start, span)) == Used(bs)
  {
    if bs != [] && !bs[|bs| - 1].used {
      var pre, last := bs[..|bs| - 1], bs[|bs| - 1];
      assert bs == pre + [last];
      UsedConcat(pre, [last]);
      UsedConcat(pre, [last.(size := last.size + span)]);
    } else {
      UsedConcat(bs, [Block(start, span - 8, false)]);
    }
  }

  /** Whether the break may move down to `target`: only within the free top block, leaving a whole block. */
  predicate MayShrink(bs: seq<Block>, target: int) {
    bs != [] && var top := bs[|bs| - 1]; !top.used && (target == top.at || target >= top.at + 16)
  }

  function Shrunk(bs: seq<Block>, target: int): seq<Block>
    requires MayShrink(bs, target)
  {
    var top := bs[|bs| - 1];
    bs[..|bs| - 1] + (if target == top.at then [] else [top.(size := target - top.at - 8)])
  }

  lemma ShrunkUsed(bs: seq<Block>, target: int)
    requires MayShrink(bs, target)
    ensures Used(Shrunk(bs, target)) == Used(bs)
  {
    var pre, top := bs[..|bs| - 1], bs[|bs| - 1];
    assert bs == pre + [top];
    UsedConcat(pre, [top]);
    UsedConcat(pre, if target == top.at then [] else [top.(size := target - top.at - 8)]);
  }

  /** Growing and then shrinking back restores every block, whether the old top was free, used or absent. */
  lemma ShrunkUndoesGrown(bs: seq<Block>, at: int, start: int, span: int)
    requires Tiled(bs, at, start) && span >= 16
    ensures MayShrink(Grown(bs, start, span), start)
    ensures Shrunk(Grown(bs, start, span), start) == bs
  {
    hide Tiled;
    var g := Grown(bs, start, span);
    if bs != [] && !bs[|bs| - 1].used {
      var pre, last := bs[..|bs| - 1], bs[|bs| - 1];
      assert bs == pre + [last];
      TopBlock(bs, at, start);
      assert g[..|g| - 1] == pre && g[|g| - 1] == last.(size := last.size + span);
      assert last.(size := start - last.at - 8) == last;
    } else {
      assert g[..|g| - 1] == bs && g[|g| - 1].at == start;
      assert bs + [] == bs;
    }
  }

  lemma TopBlock(bs: seq<Block>, at: int, end: int)
    requires Tiled(bs, at, end) && bs != []
    ensures Next(bs[|bs| - 1]) == end && bs[|bs| - 1].size >= 8 && at <= bs[|bs| - 1].at
  {
    var pre, last := bs[..|bs| - 1], bs[|bs| - 1];
    assert bs == pre + [last];
    var mid := TiledSplit(pre, [last], at, end);
    TiledBounds(bs, at, end);
  }

  /** After growing by enough for a header and `need` bytes, the search cannot fail. */
  lemma GrownFits(bs: seq<Block>, at: int, start: int, span: int, need: int)
    requires Tiled(bs, at, start) && span >= need + 8 && need >= 8
    ensures LowestFit(Coalesce(Grown(bs, start, span)), need).Some?
  {
    var g := Grown(bs, start, span);
    TiledBounds(bs, at, start);
    assert Fits(g[|g| - 1], need);
    var c := CoalesceKeepsFit(g, g[|g| - 1], need);
    LowestFitFinds(Coalesce(g), need);
  }

  /** Merging never loses a fit. */
  lemma {:induction false} CoalesceKeepsFit(bs: seq<Block>, b: Block, need: int) returns (c: Block)
    requires b in bs && Fits(b, need)
    requires forall c :: c in bs ==> c.size >= 0
    ensures c in Coalesce(bs) && Fits(c, need)
  {
    CoalesceSizes(bs[1..]);
    var rest := Coalesce(bs[1..]);
    if b == bs[0] {
      c := Prepend(bs[0], rest)[0];
    } else {
      c := CoalesceKeepsFit(bs[1..], b, need);
      c := PrependKeepsFit(bs[0], rest, c, need);
    }
  }

  lemma PrependKeepsFit(b: Block, rest: seq<Block>, c: Block, need: int) returns (d: Block)
    requires c in rest && Fits(c, need) && b.size >= 0
    ensures d in Prepend(b, rest) && Fits(d, need)
  {
    assert rest == [rest[0]] + rest[1..];
    if !b.used && !rest[0].used && c == rest[0] {
      d := Merge(b, c);
      assert d == Prepend(b, rest)[0];
    } else {
      d := c;
    }
  }

  lemma {:induction false} CoalesceSizes(bs: seq<Block>)
    requires forall c :: c in bs ==> c.size >= 0
    ensures forall c :: c in Coalesce(bs) ==> c.size >= 0
  {
    if bs != [] {
      CoalesceSizes(bs[1..]);
    }
  }
}
