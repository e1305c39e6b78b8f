/** The page-table listing: a run-length encoding of the present pages in address order. */
module PageDump {
  import opened Options
  import opened Layout
  import opened Mmu
  import opened PageTables
  import opened Paging

  /** A printed line: a run of pages, contiguous in both directions, with the flags of its first page. */
  datatype Run = Run(virt: Word, phys: Word, flags: Word, pages: nat)

  /** A present page: where it is, where it goes, and its R/W and U/S bits. */
  datatype Cell = Cell(virt: Word, phys: Word, writable: bool, user: bool)

  function CellOf(page: Page, pte: Word): Cell {
    Cell(page * 4096, FrameOf(pte) * 4096, Writable(pte), UserBit(pte))
  }

  /** The present pages below page `n`, in address order. */
  ghost function PresentBelow(mem: Memory, dir: Frame, n: nat): seq<Cell>
    requires n <= 0x10_0000
  {
    if n == 0 then []
    else
      PresentBelow(mem, dir, n - 1)
      + (if IsMapped(mem, dir, n - 1) then [CellOf(n - 1, Pte(mem, dir, n - 1))] else [])
  }

  /** The pages a run stands for. */
  function Expand(r: Run): seq<Cell> {
    seq(r.pages, i requires 0 <= i < r.pages =>
      Cell((r.virt + i * 4096) % 0x1_0000_0000, (r.phys + i * 4096) % 0x1_0000_0000, Writable(r.flags), UserBit(r.flags)))
  }

  function ExpandAll(rs: seq<Run>): seq<Cell> {
    if rs == [] then [] else ExpandAll(rs[..|rs| - 1]) + Expand(rs[|rs| - 1])
  }

  /** The page after the last page of a run. */
  function End(r: Run): int { r.virt / 4096 + r.pages }

  /** Page `s` starts where run `r` ends, in both directions and with the same rights. */
  predicate Follows(r: Run, virt: Word, phys: Word, flags: Word) {
    && virt == (r.virt + r.pages * 4096) % 0x1_0000_0000
    && phys == (r.phys + r.pages * 4096) % 0x1_0000_0000
    && Writable(flags) == Writable(r.flags) && UserBit(flags) == UserBit(r.flags)
  }

  /** No run is empty and none starts where the one before it ends. */
  ghost predicate NoneFollows(rs: seq<Run>) {
    && (forall i :: 0 <= i < |rs| ==> rs[i].pages > 0)
    && (forall i :: 0 <= i < |rs| - 1 ==> !Follows(rs[i], rs[i + 1].virt, rs[i + 1].phys, rs[i + 1].flags))
  }

  /** Two pages that belong on one line: next to each other in both directions, with the same rights. */
  predicate Adjacent(c: Cell, d: Cell) {
    && d.virt == (c.virt + 4096) % 0x1_0000_0000
    && d.phys == (c.phys + 4096) % 0x1_0000_0000
    && d.writable == c.writable && d.user == c.user
  }

  /** The pages of a line are adjacent in a row. */
  ghost predicate InLine(cells: seq<Cell>) {
    cells != [] && forall i :: 0 <= i < |cells| - 1 ==> Adjacent(cells[i], cells[i + 1])
  }

  /** Every line is pages in a row, and no line goes on where the one before it ends: nothing could be merged. */
  ghost predicate Maximal(rs: seq<Run>) {
    && (forall i :: 0 <= i < |rs| ==> InLine(Expand(rs[i])))
    && (forall i :: 0 <= i < |rs| - 1 ==>
          !Adjacent(Expand(rs[i])[|Expand(rs[i])| - 1], Expand(rs[i + 1])[0]))
  }

  lemma NextInRun(x: Word, i: nat)
    ensures ((x + i * 4096) % 0x1_0000_0000 + 4096) % 0x1_0000_0000 == (x + (i + 1) * 4096) % 0x1_0000_0000
  {
  }

  lemma RunInLine(r: Run)
    requires r.pages > 0
    ensures InLine(Expand(r))
  {
    forall i | 0 <= i < r.pages - 1
      ensures Adjacent(Expand(r)[i], Expand(r)[i + 1])
    {
      NextInRun(r.virt, i);
      NextInRun(r.phys, i);
    }
  }

  lemma FirstCell(r: Run)
    requires r.pages > 0
    ensures Expand(r)[0] == Cell(r.virt, r.phys, Writable(r.flags), UserBit(r.flags))
  {
  }

  lemma LastCell(r: Run)
    requires r.pages > 0
    ensures var c := Expand(r)[r.pages - 1];
      && (c.virt + 4096) % 0x1_0000_0000 == (r.virt + r.pages * 4096) % 0x1_0000_0000
      && (c.phys + 4096) % 0x1_0000_0000 == (r.phys + r.pages * 4096) % 0x1_0000_0000
      && c.writable == Writable(r.flags) && c.user == UserBit(r.flags)
  {
    NextInRun(r.virt, r.pages - 1);
    NextInRun(r.phys, r.pages - 1);
  }

  /** A run follows another exactly when its first page is adjacent to the last page of the other. */
  lemma FollowsIsAdjacent(r: Run, s: Run)
    requires r.pages > 0 && s.pages > 0
    ensures Follows(r, s.virt, s.phys, s.flags) <==> Adjacent(Expand(r)[r.pages - 1], Expand(s)[0])
  {
    FirstCell(s);
    LastCell(r);
    hide Writable, UserBit;
  }

  lemma NothingToMerge(rs: seq<Run>)
    requires NoneFollows(rs)
    ensures Maximal(rs)
  {
    hide Follows, Adjacent, InLine;
    forall i | 0 <= i < |rs|
      ensures InLine(Expand(rs[i]))
    {
      RunInLine(rs[i]);
    }
    forall i | 0 <= i < |rs| - 1
      ensures !Adjacent(Expand(rs[i])[|Expand(rs[i])| - 1], Expand(rs[i + 1])[0])
    {
      FollowsIsAdjacent(rs[i], rs[i + 1]);
    }
  }

  /** The step of the listing: the run so far, the next page or a gap; what to print and the run to go on with. */
  function ExtendRun(run: Option<Run>, next: Option<(Word, Word, Word)>): (seq<Run>, Option<Run>) {
    match (run, next)
    case (Some(r), Some((at, frame, bits))) =>
      if Follows(r, at, frame, bits) then ([], Some(r.(pages := r.pages + 1)))
      else ([r], Some(Run(at, frame, bits, 1)))
    case (Some(r), None) => ([r], None)
    case (None, Some((at, frame, bits))) => ([], Some(Run(at, frame, bits, 1)))
    case (None, None) => ([], None)
  }

  function Pending(run: Option<Run>): seq<Run> {
    if run.Some? then [run.value] else []
  }

  /** The listing so far covers the pages below `n` and nothing else, with no run cut short. */
  ghost predicate Covers(mem: Memory, dir: Frame, printed: seq<Run>, run: Option<Run>, n: nat)
    requires n <= 0x10_0000
  {
    && ExpandAll(printed + Pending(run)) == PresentBelow(mem, dir, n)
    && NoneFollows(printed + Pending(run))
    && (run.Some? ==> run.value.virt % 4096 == 0 && End(run.value) == n && run.value.pages > 0)
    && (run.None? && printed != [] ==>
          printed[|printed| - 1].virt % 4096 == 0 && End(printed[|printed| - 1]) < n)
  }

  lemma ExpandSnoc(rs: seq<Run>, r: Run)
    ensures ExpandAll(rs + [r]) == ExpandAll(rs) + Expand(r)
  {
    assert (rs + [r])[..|rs|] == rs;
  }

  /** A page that follows makes its run one page longer. */
  lemma ExpandLonger(r: Run, page: Page, pte: Word)
    requires Follows(r, page * 4096, FrameOf(pte) * 4096, pte)
    ensures Expand(r.(pages := r.pages + 1)) == Expand(r) + [CellOf(page, pte)]
  {
  }

  lemma ExpandOne(page: Page, pte: Word)
    ensures Expand(Run(page * 4096, FrameOf(pte) * 4096, pte % 4096, 1)) == [CellOf(page, pte)]
  {
    FlagsOf(pte);
  }

  /** The low twelve bits carry the rights. */
  lemma FlagsOf(pte: Word)
    ensures Writable(pte % 4096) == Writable(pte) && UserBit(pte % 4096) == UserBit(pte)
  {
    EntryParts(FrameOf(pte), pte % 4096);
  }

  lemma StepPresent(mem: Memory, dir: Frame, printed: seq<Run>, run: Option<Run>, n: nat)
    requires n < 0x10_0000 && Covers(mem, dir, printed, run, n) && IsMapped(mem, dir, n)
    ensures var pte := Pte(mem, dir, n);
      var (out, run') := ExtendRun(run, Some((n * 4096, FrameOf(pte) * 4096, pte % 4096)));
      Covers(mem, dir, printed + out, run', n + 1)
  {
    hide Covers, Pte, Follows;
    var pte := Pte(mem, dir, n);
    if run.None? {
      StartRun(mem, dir, printed, n);
    } else if Follows(run.value, n * 4096, FrameOf(pte) * 4096, pte % 4096) {
      LengthenRun(mem, dir, printed, run.value, n);
      assert printed + [] == printed;
    } else {
      PrintRun(mem, dir, printed, run.value, n);
    }
    assert printed + [] == printed;
  }

  lemma StartRun(mem: Memory, dir: Frame, printed: seq<Run>, n: nat)
    requires n < 0x10_0000 && Covers(mem, dir, printed, None, n) && IsMapped(mem, dir, n)
    ensures var pte := Pte(mem, dir, n);
      Covers(mem, dir, printed, Some(Run(n * 4096, FrameOf(pte) * 4096, pte % 4096, 1)), n + 1)
  {
    hide Pte, Expand, Follows;
    var pte := Pte(mem, dir, n);
    var first := Run(n * 4096, FrameOf(pte) * 4096, pte % 4096, 1);
    assert printed + [] == printed;
    ExpandOne(n, pte);
    ExpandSnoc(printed, first);
    if printed != [] {
      GapBetween(printed[|printed| - 1], n, first);
    }
    NoneFollowsSnoc(printed, first);
  }

  lemma LengthenRun(mem: Memory, dir: Frame, printed: seq<Run>, r: Run, n: nat)
    requires n < 0x10_0000 && Covers(mem, dir, printed, Some(r), n) && IsMapped(mem, dir, n)
    requires Follows(r, n * 4096, FrameOf(Pte(mem, dir, n)) * 4096, Pte(mem, dir, n) % 4096)
    ensures Covers(mem, dir, printed, Some(r.(pages := r.pages + 1)), n + 1)
  {
    hide Pte, Expand, NoneFollows, ExpandAll;
    FlagsOf(Pte(mem, dir, n));
    ExpandLonger(r, n, Pte(mem, dir, n));
    ExpandSnoc(printed, r);
    ExpandSnoc(printed, r.(pages := r.pages + 1));
    NoneFollowsReplace(printed, r, r.pages + 1);
  }

  lemma PrintRun(mem: Memory, dir: Frame, printed: seq<Run>, r: Run, n: nat)
    requires n < 0x10_0000 && Covers(mem, dir, printed, Some(r), n) && IsMapped(mem, dir, n)
    requires !Follows(r, n * 4096, FrameOf(Pte(mem, dir, n)) * 4096, Pte(mem, dir, n) % 4096)
    ensures var pte := Pte(mem, dir, n);
      Covers(mem, dir, printed + [r], Some(Run(n * 4096, FrameOf(pte) * 4096, pte % 4096, 1)), n + 1)
  {
    hide Pte, Expand, NoneFollows, ExpandAll, Follows;
    var pte := Pte(mem, dir, n);
    var first := Run(n * 4096, FrameOf(pte) * 4096, pte % 4096, 1);
    ExpandOne(n, pte);
    ExpandSnoc(printed + [r], first);
    NoneFollowsSnoc(printed + [r], first);
  }

  lemma StepAbsent(mem: Memory, dir: Frame, printed: seq<Run>, run: Option<Run>, n: nat)
    requires n < 0x10_0000 && Covers(mem, dir, printed, run, n) && !IsMapped(mem, dir, n)
    ensures var (out, run') := ExtendRun(run, None); Covers(mem, dir, printed + out, run', n + 1)
  {
    if run.Some? {
      assert printed + [run.value] + [] == printed + [run.value];
    } else {
      assert printed + [] == printed;
    }
  }

  /** Once the run is printed, further gaps print nothing. */
  lemma SkipAbsent(mem: Memory, dir: Frame, printed: seq<Run>, n: nat, m: nat)
    requires n <= m <= 0x10_0000 && Covers(mem, dir, printed, None, n)
    requires forall p: Page :: n <= p < m ==> !IsMapped(mem, dir, p)
    ensures Covers(mem, dir, printed, None, m)
    decreases m - n
  {
    if n < m {
      StepAbsent(mem, dir, printed, None, n);
      assert printed + [] == printed;
      SkipAbsent(mem, dir, printed, n + 1, m);
    }
  }

  lemma NoneFollowsSnoc(rs: seq<Run>, r: Run)
    requires NoneFollows(rs) && r.pages > 0
    requires rs != [] ==> !Follows(rs[|rs| - 1], r.virt, r.phys, r.flags)
    ensures NoneFollows(rs + [r])
  {
  }

  lemma NoneFollowsReplace(rs: seq<Run>, r: Run, pages: nat)
    requires NoneFollows(rs + [r]) && pages > 0
    ensures NoneFollows(rs + [r.(pages := pages)])
  {
    var was, now := rs + [r], rs + [r.(pages := pages)];
    forall i | 0 <= i < |now|
      ensures now[i].pages > 0
    {
      assert was[i].pages > 0;
    }
    forall i | 0 <= i < |now| - 1
      ensures !Follows(now[i], now[i + 1].virt, now[i + 1].phys, now[i + 1].flags)
    {
      assert now[i] == was[i];
      assert !Follows(was[i], was[i + 1].virt, was[i + 1].phys, was[i + 1].flags);
    }
  }

  lemma GapBetween(r: Run, n: Page, first: Run)
    requires r.virt % 4096 == 0 && End(r) < n && first.virt == n * 4096
    ensures !Follows(r, first.virt, first.phys, first.flags)
  {
    assert r.virt + r.pages * 4096 == End(r) * 4096;
  }

  /**
   * List the page tables, the table window included. The lines expand to
   * exactly the present pages, and no two neighbouring lines could be merged.
   */
  method Dump(vm: Vm) returns (printed: seq<Run>)
    requires vm.Valid()
    modifies vm.mmu`tlb
    ensures vm.Valid()
    ensures ExpandAll(printed) == PresentBelow(vm.mmu.mem, vm.mmu.dir, 0x10_0000)
    ensures Maximal(printed)
  {
    hide Vm.Valid, Covers, ExtendRun, PresentBelow, ExpandAll, NoneFollows, Pte, Pde;
    ghost var mem, dir := vm.mmu.mem, vm.mmu.dir;
    var run: Option<Run> := None;
    printed := [];
    CoversNone(mem, dir);
    for d := 0 to 1024
      invariant vm.Valid() && Covers(mem, dir, printed, run, d * 1024)
    {
      var pde := vm.DirectoryEntry(d);
      if !Present(pde) {
        AbsentSlot(mem, dir, printed, run, d);
        var (out, run') := ExtendRun(run, None);
        printed, run := printed + out, run';
      } else {
        printed, run := DumpTable(vm, d, printed, run);
      }
    }
    CoversEnd(mem, dir, printed, run);
    var (out, _) := ExtendRun(run, None);
    printed := printed + out;
  }

  /** The inner loop: one table. */
  method DumpTable(vm: Vm, d: int, printed0: seq<Run>, run0: Option<Run>) returns (printed: seq<Run>, run: Option<Run>)
    requires vm.Valid() && 0 <= d < 1024 && HasTable(vm.mmu.mem, vm.mmu.dir, d)
    requires Covers(vm.mmu.mem, vm.mmu.dir, printed0, run0, d * 1024)
    modifies vm.mmu`tlb
    ensures vm.Valid()
    ensures Covers(vm.mmu.mem, vm.mmu.dir, printed, run, d * 1024 + 1024)
  {
    hide Vm.Valid, Covers, ExtendRun, Pte, Pde;
    ghost var mem, dir := vm.mmu.mem, vm.mmu.dir;
    printed, run := printed0, run0;
    for t := 0 to 1024
      invariant vm.Valid() && Covers(mem, dir, printed, run, d * 1024 + t)
    {
      var pte := vm.ReadEntry(d, t);
      EntryAt(mem, dir, d, t);
      if !Present(pte) {
        StepAbsent(mem, dir, printed, run, d * 1024 + t);
        var (out, run') := ExtendRun(run, None);
        printed, run := printed + out, run';
      } else {
        StepPresent(mem, dir, printed, run, d * 1024 + t);
        var (out, run') := ExtendRun(run, Some(((d * 1024 + t) * 4096, FrameOf(pte) * 4096, pte % 4096)));
        printed, run := printed + out, run';
      }
    }
  }

  lemma EntryAt(mem: Memory, dir: Frame, d: int, t: int)
    requires 0 <= d < 1024 && 0 <= t < 1024 && HasTable(mem, dir, d)
    ensures Pte(mem, dir, d * 1024 + t) == mem[TableOf(mem, dir, d) * 1024 + t]
  {
    assert (d * 1024 + t) / 1024 == d && (d * 1024 + t) % 1024 == t;
  }

  lemma CoversNone(mem: Memory, dir: Frame)
    ensures Covers(mem, dir, [], None, 0)
  {
  }

  lemma AbsentSlot(mem: Memory, dir: Frame, printed: seq<Run>, run: Option<Run>, d: int)
    requires 0 <= d < 1024 && !HasTable(mem, dir, d) && Covers(mem, dir, printed, run, d * 1024)
    ensures var (out, run') := ExtendRun(run, None); Covers(mem, dir, printed + out, run', d * 1024 + 1024)
  {
    hide Covers;
    forall p: Page | d * 1024 <= p < d * 1024 + 1024
      ensures !IsMapped(mem, dir, p)
    {
      assert p / 1024 == d;
    }
    StepAbsent(mem, dir, printed, run, d * 1024);
    var (out, run') := ExtendRun(run, None);
    SkipAbsent(mem, dir, printed + out, d * 1024 + 1, d * 1024 + 1024);
  }

  lemma CoversEnd(mem: Memory, dir: Frame, printed: seq<Run>, run: Option<Run>)
    requires Covers(mem, dir, printed, run, 0x10_0000)
    ensures var (out, _) := ExtendRun(run, None);
      ExpandAll(printed + out) == PresentBelow(mem, dir, 0x10_0000) && Maximal(printed + out)
  {
    hide ExpandAll, PresentBelow, Expand, NoneFollows, Maximal;
    var (out, _) := ExtendRun(run, None);
    assert printed + out == printed + Pending(run);
    NothingToMerge(printed + out);
  }
}
