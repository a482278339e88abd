/** The page directory of a new process: `init_page_tables` of multitasking.c. */
module ProcessTables {
  import opened BlockList
  import opened Frames
  import opened PhysicalMemory
  import opened PageTables
  import Bits

  const USER_SETTINGS: nat := 7    // present, writable, user
  const KERNEL_SETTINGS: nat := 3  // present, writable
  const TSS_TABLE: nat := 511
  const TSS_ENTRY: nat := 1021
  const KERNEL_TABLE: nat := 1022
  const LAST_TABLE: nat := 1023
  /** Virtual page of the task state segment, address 0x7FFFD000. */
  const TSS_PAGE: nat := 0x7FFFD

  /** alloc_phys_pages(1) with a frame to spare. */
  method AllocFrame(pm: PhysMemory) returns (r: nat)
    requires pm.Valid() && pm.freeCount >= 1
    modifies pm
    ensures pm.Valid() && pm.freeCount == old(pm.freeCount) - 1
    ensures FrameTaken(old(pm.mem), old(pm.blocks), pm.mem, pm.blocks, r) && OnlyNodesWritten(old(pm.mem), pm.mem)
  {
    assert pm.blocks != [];
    assert FirstFit(pm.blocks, 1) == 0;
    var a := pm.AllocPhysPages(1);
    OneFrameTaken(old(pm.mem), old(pm.blocks), pm.mem);
    r := a;
  }

  /** A store through the window into a frame that is not free. */
  method Store(pm: PhysMemory, frame: nat, i: nat, v: int)
    requires pm.Valid() && !Covers(pm.blocks, frame)
    modifies pm`mem, pm`window
    ensures pm.Valid() && pm.mem == Put(old(pm.mem), frame, i, v)
  {
    pm.TempMapPage(frame);
    pm.Poke(i, v);
    RingUntouched(old(pm.mem), pm.mem, pm.freeHead, pm.freeCount, pm.blocks);
  }

  /** The loops of lines 152-155 and 162-165: consecutive frames in consecutive entries. */
  method FillEntries(pm: PhysMemory, frame: nat, from: nat, to: nat, page: nat)
    requires pm.Valid() && !Covers(pm.blocks, frame) && frame < |pm.mem| && from <= to <= PAGES_PER_TABLE
    modifies pm`mem, pm`window
    ensures pm.Valid() && |pm.mem| == old(|pm.mem|)
    ensures forall i :: from <= i < to ==> Word(pm.mem, frame, i) == (page + (i - from)) * PAGE_SIZE + USER_SETTINGS
    ensures forall p, i :: p != frame || !(from <= i < to) ==> Word(pm.mem, p, i) == Word(old(pm.mem), p, i)
  {
    var entry := page * PAGE_SIZE + USER_SETTINGS;
    var i := from;
    while i < to
      invariant from <= i <= to && entry == (page + (i - from)) * PAGE_SIZE + USER_SETTINGS
      invariant pm.Valid() && |pm.mem| == old(|pm.mem|)
      invariant forall j :: from <= j < i ==> Word(pm.mem, frame, j) == (page + (j - from)) * PAGE_SIZE + USER_SETTINGS
      invariant forall p, j :: p != frame || !(from <= j < i) ==> Word(pm.mem, p, j) == Word(old(pm.mem), p, j)
    {
      Store(pm, frame, i, entry);
      entry := entry + PAGE_SIZE;
      i := i + 1;
    }
  }

  /** How the new directory translates: the first megabyte to itself, the next three to the
      image, the TSS page to its frame, the last 8 MB as `kernel` did in memory `m0`. */
  ghost predicate Translates(m: Mem, dir: nat, start: nat, tss: nat, m0: Mem, kernel: nat) {
    && (forall v :: 0 <= v < 256 ==> Lookup(m, dir, v) == v * 4096 + 7)
    && (forall v :: 256 <= v < 1024 ==> Lookup(m, dir, v) == (start + (v - 256)) * 4096 + 7)
    && Lookup(m, dir, 0x7FFFD) == tss * 4096 + 3
    && (forall v :: 1022 * 1024 <= v < 1024 * 1024 ==> Lookup(m, dir, v) == Lookup(m0, kernel, v))
  }

  /** The entries of the new directory: its first table is the user's, that of the TSS is not, and the
      last two are the kernel's own. */
  ghost predicate DirectoryBuilt(m: Mem, dir: nat, m0: Mem, kernel: nat) {
    && Word(m, dir, 0) % 4096 == 7 && Word(m, dir, 511) % 4096 == 3
    && Word(m, dir, 1022) == Word(m0, kernel, 1022) && Word(m, dir, 1023) == Word(m0, kernel, 1023)
  }

  /** The kernel's own tables for the last 8 MB, where present, are frames in use. */
  ghost predicate KernelShared(m: Mem, bs: seq<Block>, kernel: nat) {
    && !Covers(bs, kernel)
    && (forall i :: KERNEL_TABLE <= i <= LAST_TABLE && HasTable(m, kernel, i) ==> !Covers(bs, Table(m, kernel, i)))
  }

  /** Only pages that were free have been written, and no page has become free. */
  ghost predicate OnlyFreeUsed(m: Mem, bs: seq<Block>, m': Mem, bs': seq<Block>) {
    && OnlyFreeWritten(m, m', bs)
    && forall p :: Covers(bs', p) ==> Covers(bs, p)
  }

  /** The directory's entries beyond the words of a free node and the four that are stored. */
  ghost predicate OtherEntries(m: Mem, m': Mem, dir: nat) {
    forall i :: i > 2 && i != 511 && i != 1022 && i != 1023 ==> Word(m', dir, i) == Word(m, dir, i)
  }

  /** Lines 141-144 */
  method StoreEntries(pm: PhysMemory, dir: nat, first: nat, tab: nat, kernelTable: int, lastTable: int)
    requires pm.Valid() && !Covers(pm.blocks, dir) && dir < |pm.mem|
    modifies pm`mem, pm`window
    ensures pm.Valid() && |pm.mem| == old(|pm.mem|)
    ensures Word(pm.mem, dir, 0) == first * PAGE_SIZE + USER_SETTINGS
    ensures Word(pm.mem, dir, TSS_TABLE) == tab * PAGE_SIZE + KERNEL_SETTINGS
    ensures Word(pm.mem, dir, KERNEL_TABLE) == kernelTable && Word(pm.mem, dir, LAST_TABLE) == lastTable
    ensures OtherEntries(old(pm.mem), pm.mem, dir)
    ensures forall p, i :: p != dir ==> Word(pm.mem, p, i) == Word(old(pm.mem), p, i)
  {
    Store(pm, dir, 0, first * PAGE_SIZE + USER_SETTINGS);
    Store(pm, dir, TSS_TABLE, tab * PAGE_SIZE + KERNEL_SETTINGS);
    Store(pm, dir, KERNEL_TABLE, kernelTable);
    Store(pm, dir, LAST_TABLE, lastTable);
  }

  /** Lines 146-165 */
  method FillFirst(pm: PhysMemory, first: nat, start: nat)
    requires pm.Valid() && !Covers(pm.blocks, first) && first < |pm.mem|
    modifies pm`mem, pm`window
    ensures pm.Valid() && |pm.mem| == old(|pm.mem|)
    ensures forall i :: 0 <= i < 256 ==> Word(pm.mem, first, i) == i * PAGE_SIZE + USER_SETTINGS
    ensures forall i :: 256 <= i < 1024 ==> Word(pm.mem, first, i) == (start + (i - 256)) * PAGE_SIZE + USER_SETTINGS
    ensures forall p, i :: p != first ==> Word(pm.mem, p, i) == Word(old(pm.mem), p, i)
  {
    FillEntries(pm, first, 0, 256, 0);
    ghost var m := pm.mem;
    FillEntries(pm, first, 256, 1024, start);
    assert forall i :: 0 <= i < 256 ==> Word(pm.mem, first, i) == Word(m, first, i);
  }

  /** Lines 130-144: three frames, and the four entries of the directory. */
  method MakeDirectory(pm: PhysMemory, kernel: nat) returns (dir: nat, first: nat, tab: nat)
    requires pm.Valid() && pm.freeCount >= 4 && KernelShared(pm.mem, pm.blocks, kernel)
    modifies pm
    ensures pm.Valid() && pm.freeCount == old(pm.freeCount) - 3
    ensures OnlyFreeUsed(old(pm.mem), old(pm.blocks), pm.mem, pm.blocks)
    ensures dir != first && dir != tab && first != tab
    ensures forall p :: p in {dir, first, tab} ==>
              0 <= p < |pm.mem| && Covers(old(pm.blocks), p) && !Covers(pm.blocks, p)
    ensures Word(pm.mem, dir, 0) == first * PAGE_SIZE + USER_SETTINGS
    ensures Word(pm.mem, dir, TSS_TABLE) == tab * PAGE_SIZE + KERNEL_SETTINGS
    ensures Word(pm.mem, dir, KERNEL_TABLE) == Word(old(pm.mem), kernel, KERNEL_TABLE)
    ensures Word(pm.mem, dir, LAST_TABLE) == Word(old(pm.mem), kernel, LAST_TABLE)
    ensures OtherEntries(old(pm.mem), pm.mem, dir)
    ensures forall i :: i > 2 ==> Word(pm.mem, tab, i) == Word(old(pm.mem), tab, i)
  {
    first := AllocFrame(pm);
    tab := AllocFrame(pm);
    pm.TempMapPage(kernel);
    var kernelTable := pm.Peek(KERNEL_TABLE);
    var lastTable := pm.Peek(LAST_TABLE);
    dir := AllocFrame(pm);
    assert OnlyFreeUsed(old(pm.mem), old(pm.blocks), pm.mem, pm.blocks);
    StoreEntries(pm, dir, first, tab, kernelTable, lastTable);
  }

  /** Entry i of the directory names a table in a frame that was free in bs0 and is not in bs. */
  ghost predicate FreshTable(bs0: seq<Block>, m: Mem, bs: seq<Block>, dir: nat, i: nat) {
    var t := Table(m, dir, i);
    HasTable(m, dir, i) && 0 <= t < |m| && t != dir && Covers(bs0, t) && !Covers(bs, t)
  }

  /** Lines 126-174, all four allocations succeeding: the directory translates as meant, and
      nothing that was in use before has been written. */
  method InitPageTables(pm: PhysMemory, kernel: nat, start: nat) returns (dir: nat, ghost tss: nat)
    requires pm.Valid() && pm.freeCount >= 4 && KernelShared(pm.mem, pm.blocks, kernel)
    modifies pm
    ensures pm.Valid() && pm.freeCount == old(pm.freeCount) - 4
    ensures OnlyFreeUsed(old(pm.mem), old(pm.blocks), pm.mem, pm.blocks)
    ensures Covers(old(pm.blocks), dir) && !Covers(pm.blocks, dir)
    ensures Covers(old(pm.blocks), tss) && !Covers(pm.blocks, tss) && tss != dir
    ensures Translates(pm.mem, dir, start, tss, old(pm.mem), kernel)
    ensures DirectoryBuilt(pm.mem, dir, old(pm.mem), kernel) && OtherEntries(old(pm.mem), pm.mem, dir)
    ensures var tab := Word(pm.mem, dir, 511) / 4096;
            forall i :: i > 2 && i != 1021 ==> Word(pm.mem, tab, i) == Word(old(pm.mem), tab, i)
    ensures dir < |pm.mem| && FreshTable(old(pm.blocks), pm.mem, pm.blocks, dir, 0)
    ensures FreshTable(old(pm.blocks), pm.mem, pm.blocks, dir, TSS_TABLE)
  {
    hide Translates, Lookup, KernelShared, HasTable, Table, FreshTable;
    var first, tab;
    dir, first, tab := MakeDirectory(pm, kernel);
    ghost var m1 := pm.mem;
    FillFirst(pm, first, start);
    ghost var m3 := pm.mem;
    var page := AllocFrame(pm);
    Store(pm, tab, TSS_ENTRY, page * PAGE_SIZE + KERNEL_SETTINGS);
    tss := page;
    FlagsOf(first, USER_SETTINGS);
    FlagsOf(tab, KERNEL_SETTINGS);
    EntryNames(tab, KERNEL_SETTINGS);
    assert forall i :: Word(pm.mem, dir, i) == Word(m1, dir, i);
    assert forall i :: Word(pm.mem, first, i) == Word(m3, first, i);
    TableIsFresh(old(pm.blocks), pm.mem, pm.blocks, dir, 0, first, USER_SETTINGS);
    TableIsFresh(old(pm.blocks), pm.mem, pm.blocks, dir, TSS_TABLE, tab, KERNEL_SETTINGS);
    Assembled(pm.mem, dir, first, tab, start, tss, old(pm.mem), old(pm.blocks), kernel);
  }

  /** A page number and settings in one entry. */
  lemma EntryNames(page: nat, settings: nat)
    requires settings < PAGE_SIZE && settings % 2 == 1
    ensures Present(page * PAGE_SIZE + settings) && FrameOf(page * PAGE_SIZE + settings) == page
  {
    Bits.Quotient(page * PAGE_SIZE + settings, PAGE_SIZE, page, settings);
    Bits.Quotient(page * PAGE_SIZE + settings, 2, page * (PAGE_SIZE / 2) + settings / 2, 1);
  }

  lemma TableIsFresh(bs0: seq<Block>, m: Mem, bs: seq<Block>, dir: nat, i: nat, table: nat, settings: nat)
    requires Word(m, dir, i) == table * PAGE_SIZE + settings && settings < PAGE_SIZE && settings % 2 == 1
    requires table < |m| && table != dir && Covers(bs0, table) && !Covers(bs, table)
    ensures FreshTable(bs0, m, bs, dir, i)
  {
    hide FrameOf, Present, Covers, Word;
    EntryNames(table, settings);
  }

  lemma LookupIn(m: Mem, dir: nat, i: nat, table: nat, j: nat)
    requires Present(Word(m, dir, i)) && FrameOf(Word(m, dir, i)) == table && j < PAGES_PER_TABLE
    ensures Lookup(m, dir, i * PAGES_PER_TABLE + j) == Word(m, table, j)
  {
    hide FrameOf, Present, Word;
    Bits.Quotient(i * PAGES_PER_TABLE + j, PAGES_PER_TABLE, i, j);
  }

  /** The entries of the last 8 MB come from the kernel's tables, which have not been written. */
  lemma KernelLookups(m: Mem, dir: nat, m0: Mem, bs0: seq<Block>, kernel: nat, v: nat)
    requires KernelShared(m0, bs0, kernel) && OnlyFreeWritten(m0, m, bs0)
    requires Word(m, dir, KERNEL_TABLE) == Word(m0, kernel, KERNEL_TABLE)
    requires Word(m, dir, LAST_TABLE) == Word(m0, kernel, LAST_TABLE)
    requires KERNEL_TABLE * PAGES_PER_TABLE <= v < PAGE_COUNT
    ensures Lookup(m, dir, v) == Lookup(m0, kernel, v)
  {
    var i := v / PAGES_PER_TABLE;
    assert KERNEL_TABLE <= i <= LAST_TABLE;
    hide FrameOf, Present, Word, Covers;
    assert HasTable(m0, kernel, i) ==> !Covers(bs0, Table(m0, kernel, i));
  }

  lemma Assembled(m: Mem, dir: nat, first: nat, tab: nat, start: nat, tss: nat, m0: Mem, bs0: seq<Block>, kernel: nat)
    requires KernelShared(m0, bs0, kernel) && OnlyFreeWritten(m0, m, bs0)
    requires Word(m, dir, 0) == first * PAGE_SIZE + USER_SETTINGS
    requires Word(m, dir, TSS_TABLE) == tab * PAGE_SIZE + KERNEL_SETTINGS
    requires Word(m, dir, KERNEL_TABLE) == Word(m0, kernel, KERNEL_TABLE)
    requires Word(m, dir, LAST_TABLE) == Word(m0, kernel, LAST_TABLE)
    requires forall i :: 0 <= i < 256 ==> Word(m, first, i) == i * PAGE_SIZE + USER_SETTINGS
    requires forall i :: 256 <= i < 1024 ==> Word(m, first, i) == (start + (i - 256)) * PAGE_SIZE + USER_SETTINGS
    requires Word(m, tab, TSS_ENTRY) == tss * PAGE_SIZE + KERNEL_SETTINGS
    ensures Translates(m, dir, start, tss, m0, kernel)
  {
    hide FrameOf, Present, Word, Covers, Lookup, KernelShared, OnlyFreeWritten;
    EntryNames(first, USER_SETTINGS);
    EntryNames(tab, KERNEL_SETTINGS);
    forall v: nat | v < 1024
      ensures Lookup(m, dir, v) == Word(m, first, v)
    {
      LookupIn(m, dir, 0, first, v);
    }
    LookupIn(m, dir, TSS_TABLE, tab, TSS_ENTRY);
    forall v: nat | KERNEL_TABLE * PAGES_PER_TABLE <= v < PAGE_COUNT
      ensures Lookup(m, dir, v) == Lookup(m0, kernel, v)
    {
      KernelLookups(m, dir, m0, bs0, kernel, v);
    }
  }

  // ------------------------------------------------------------ later mappings

  /** Two directories that share their last two tables. */
  ghost predicate Share(m: Mem, dir: nat, kernel: nat) {
    forall i :: KERNEL_TABLE <= i <= LAST_TABLE ==> HasTable(m, kernel, i) && Word(m, dir, i) == Word(m, kernel, i)
  }

  /** Whatever is mapped later through either directory, both translate the last 8 MB alike. */
  lemma AgreementSurvives(m: Mem, bs: seq<Block>, m': Mem, bs': seq<Block>, d: nat, other: nat, lo: nat, hi: nat,
                          v: nat)
    requires Share(m, d, other) || Share(m, other, d)
    requires Extends(m, bs, m', bs', d, lo, hi)
    requires other == d || (!Covers(bs, other) && !IsTable(m, d, lo, hi, other))
    requires KERNEL_TABLE * PAGES_PER_TABLE <= v < PAGE_COUNT
    ensures Lookup(m', d, v) == Lookup(m', other, v)
    ensures Share(m', d, other) && Share(m', other, d)
  {
    var i := v / PAGES_PER_TABLE;
    assert KERNEL_TABLE <= i <= LAST_TABLE;
    forall j | KERNEL_TABLE <= j <= LAST_TABLE
      ensures HasTable(m', d, j) && Word(m', d, j) == Word(m', other, j)
    {
      assert HasTable(m, d, j) && Word(m, d, j) == Word(m, other, j);
    }
  }

  // ------------------------------------------------------------ a process and later mappings

  /** First directory entry of the kernel's half. */
  const KERNEL_HALF: nat := 512

  /** The kernel's directory and that of a process as `init_page_tables` makes it: the tables of
      the kernel's half are frames of their own, the last two are shared, and the process has its
      directory, its first table and the one for the TSS to itself. */
  ghost predicate Agreeing(m: Mem, bs: seq<Block>, kernel: nat, dir: nat) {
    && TablesOk(m, bs, kernel, KERNEL_HALF, PAGES_PER_TABLE)
    && OwnTable(m, bs, kernel, dir, 0) && OwnTable(m, bs, kernel, dir, TSS_TABLE)
    && (forall i :: KERNEL_TABLE <= i <= LAST_TABLE ==> HasTable(m, kernel, i) && Word(m, dir, i) == Word(m, kernel, i))
    && dir != kernel && !IsTable(m, kernel, KERNEL_HALF, PAGES_PER_TABLE, dir)
  }

  ghost predicate OwnTable(m: Mem, bs: seq<Block>, kernel: nat, dir: nat, i: nat) {
    TablesOk(m, bs, dir, i, i + 1) && HasTable(m, dir, i) && Table(m, dir, i) != kernel
  }

  /** The ranges of directory entries through which a process maps: one of its own tables, or the
      shared ones. */
  predicate ProcessRange(lo: nat, hi: nat) {
    || ((lo == 0 || lo == TSS_TABLE) && hi == lo + 1)
    || (lo == KERNEL_TABLE && hi == PAGES_PER_TABLE)
  }

  lemma AgreeingShares(m: Mem, bs: seq<Block>, kernel: nat, dir: nat)
    requires Agreeing(m, bs, kernel, dir)
    ensures TablesOk(m, bs, dir, KERNEL_TABLE, PAGES_PER_TABLE)
    ensures Share(m, dir, kernel) && Share(m, kernel, dir)
    ensures !Covers(bs, dir) && !IsTable(m, kernel, KERNEL_HALF, PAGES_PER_TABLE, dir)
    ensures !Covers(bs, kernel) && forall lo: nat, hi: nat :: ProcessRange(lo, hi) ==> !IsTable(m, dir, lo, hi, kernel)
  {
    forall i | KERNEL_TABLE <= i < PAGES_PER_TABLE && HasTable(m, dir, i)
      ensures 0 <= Table(m, dir, i) < |m| && Table(m, dir, i) != dir && !Covers(bs, Table(m, dir, i))
      ensures Table(m, dir, i) == Table(m, kernel, i) != kernel
    {
      assert HasTable(m, kernel, i) && Word(m, dir, i) == Word(m, kernel, i);
      assert Table(m, kernel, i) == dir ==> IsTable(m, kernel, KERNEL_HALF, PAGES_PER_TABLE, dir);
    }
  }

  lemma OwnTableStays(m: Mem, bs: seq<Block>, m': Mem, bs': seq<Block>, kernel: nat, dir: nat, i: nat)
    requires OwnTable(m, bs, kernel, dir, i) && |m'| == |m| && Word(m', dir, i) == Word(m, dir, i)
    requires forall p :: Covers(bs', p) ==> Covers(bs, p)
    ensures OwnTable(m', bs', kernel, dir, i)
  {
    assert HasTable(m', dir, i) && Table(m', dir, i) == Table(m, dir, i);
  }

  /** A mapping through the kernel's directory keeps the two in agreement. */
  lemma KernelMapAgrees(m: Mem, bs: seq<Block>, m': Mem, bs': seq<Block>, kernel: nat, dir: nat)
    requires Agreeing(m, bs, kernel, dir) && Extends(m, bs, m', bs', kernel, KERNEL_HALF, PAGES_PER_TABLE)
    requires TablesOk(m', bs', kernel, KERNEL_HALF, PAGES_PER_TABLE)
    ensures Agreeing(m', bs', kernel, dir)
  {
    AgreeingShares(m, bs, kernel, dir);
    AgreementSurvives(m, bs, m', bs', kernel, dir, KERNEL_HALF, PAGES_PER_TABLE, KERNEL_TABLE * PAGES_PER_TABLE);
    hide Lookup;
    assert forall j :: Word(m', dir, j) == Word(m, dir, j);
    OwnTableStays(m, bs, m', bs', kernel, dir, 0);
    OwnTableStays(m, bs, m', bs', kernel, dir, TSS_TABLE);
    hide OwnTable;
  }

  /** So does one through the process's own. */
  lemma ProcessMapAgrees(m: Mem, bs: seq<Block>, m': Mem, bs': seq<Block>, kernel: nat, dir: nat, lo: nat, hi: nat)
    requires Agreeing(m, bs, kernel, dir) && ProcessRange(lo, hi)
    requires Extends(m, bs, m', bs', dir, lo, hi) && TablesOk(m', bs', dir, lo, hi)
    ensures Agreeing(m', bs', kernel, dir)
  {
    AgreeingShares(m, bs, kernel, dir);
    AgreementSurvives(m, bs, m', bs', dir, kernel, lo, hi, KERNEL_TABLE * PAGES_PER_TABLE);
    hide Lookup;
    assert forall j :: Word(m', kernel, j) == Word(m, kernel, j);
    KernelTablesStay(m, bs, m', bs', kernel);
    OwnTableStays(m, bs, m', bs', kernel, dir, 0);
    OwnTableStays(m, bs, m', bs', kernel, dir, TSS_TABLE);
    hide OwnTable;
  }

  lemma KernelTablesStay(m: Mem, bs: seq<Block>, m': Mem, bs': seq<Block>, kernel: nat)
    requires TablesOk(m, bs, kernel, KERNEL_HALF, PAGES_PER_TABLE) && |m'| == |m|
    requires forall j :: Word(m', kernel, j) == Word(m, kernel, j)
    requires forall p :: Covers(bs', p) ==> Covers(bs, p)
    ensures TablesOk(m', bs', kernel, KERNEL_HALF, PAGES_PER_TABLE)
    ensures forall p :: IsTable(m', kernel, KERNEL_HALF, PAGES_PER_TABLE, p) <==>
              IsTable(m, kernel, KERNEL_HALF, PAGES_PER_TABLE, p)
  {
    assert forall j :: HasTable(m', kernel, j) <==> HasTable(m, kernel, j);
    assert forall j :: Table(m', kernel, j) == Table(m, kernel, j);
    forall p
      ensures IsTable(m', kernel, KERNEL_HALF, PAGES_PER_TABLE, p) <==>
                IsTable(m, kernel, KERNEL_HALF, PAGES_PER_TABLE, p)
    {
      if IsTable(m', kernel, KERNEL_HALF, PAGES_PER_TABLE, p) {
        var i :| KERNEL_HALF <= i < PAGES_PER_TABLE && HasTable(m', kernel, i) && Table(m', kernel, i) == p;
        assert HasTable(m, kernel, i) && Table(m, kernel, i) == p;
      }
      if IsTable(m, kernel, KERNEL_HALF, PAGES_PER_TABLE, p) {
        var i :| KERNEL_HALF <= i < PAGES_PER_TABLE && HasTable(m, kernel, i) && Table(m, kernel, i) == p;
        assert HasTable(m', kernel, i) && Table(m', kernel, i) == p;
      }
    }
  }

  /** A later call of map_pages: through the kernel's directory, or through the process's own in
      its first table, in the one for the TSS, or in the shared ones. */
  datatype Mapping =
    | InKernel(v: nat, paddr: nat, count: nat, flags: nat)
    | InFirst(v: nat, paddr: nat, count: nat, flags: nat)
    | InTss(v: nat, paddr: nat, count: nat, flags: nat)
    | InShared(v: nat, paddr: nat, count: nat, flags: nat)

  predicate InItsTables(q: Mapping) {
    match q
    case InKernel(v, _, count, _) => KERNEL_HALF * PAGES_PER_TABLE <= v && v + count <= PAGE_COUNT
    case InFirst(v, _, count, _) => v + count <= PAGES_PER_TABLE
    case InTss(v, _, count, _) => TSS_TABLE * PAGES_PER_TABLE <= v && v + count <= (TSS_TABLE + 1) * PAGES_PER_TABLE
    case InShared(v, _, count, _) => KERNEL_TABLE * PAGES_PER_TABLE <= v && v + count <= PAGE_COUNT
  }

  /** The directory a call goes through, and the entries it may reach. */
  function Through(q: Mapping, kernel: nat, dir: nat): nat {
    if q.InKernel? then kernel else dir
  }

  function FirstEntry(q: Mapping): nat {
    match q
    case InKernel(_, _, _, _) => 512
    case InFirst(_, _, _, _) => 0
    case InTss(_, _, _, _) => 511
    case InShared(_, _, _, _) => 1022
  }

  function EndEntry(q: Mapping): nat {
    match q
    case InKernel(_, _, _, _) => 1024
    case InFirst(_, _, _, _) => 1
    case InTss(_, _, _, _) => 512
    case InShared(_, _, _, _) => 1024
  }

  /** The first `done` pages of the call are mapped as asked, every other page is as it was. */
  ghost predicate MappingDone(m: Mem, m': Mem, d: nat, q: Mapping, done: nat) {
    && done <= q.count
    && forall u :: FirstEntry(q) * 1024 <= u < EndEntry(q) * 1024 ==>
         Lookup(m', d, u) ==
           if q.v <= u < q.v + done then EntryWord(q.paddr + (u - q.v) * 4096, q.flags) else Lookup(m, d, u)
  }

  /** Whether frames are left for the tables that are missing. */
  predicate CanMap(m: Mem, free: nat, d: nat, q: Mapping) {
    Missing(m, d, q.v, q.count) <= free
  }

  method MapOnce(pm: PhysMemory, kernel: nat, dir: nat, q: Mapping) returns (ok: bool, ghost done: nat)
    requires pm.Valid() && Agreeing(pm.mem, pm.blocks, kernel, dir) && InItsTables(q)
    modifies pm
    ensures pm.Valid() && Agreeing(pm.mem, pm.blocks, kernel, dir)
    ensures MappingDone(old(pm.mem), pm.mem, Through(q, kernel, dir), q, done)
    ensures (ok <==> done == q.count) && (ok <==> CanMap(old(pm.mem), old(pm.freeCount), Through(q, kernel, dir), q))
  {
    hide Agreeing, Extends, TablesOk, Lookup, IsTable, Share, EntryWord, Missing, TablesThere, HasTable, Word;
    ghost var m, bs := pm.mem, pm.blocks;
    AgreeingShares(m, bs, kernel, dir);
    AgreeingTables(m, bs, kernel, dir);
    match q {
      case InKernel(v, paddr, count, flags) =>
        ok, done := MapPages(pm, kernel, v, paddr, count, flags, KERNEL_HALF, PAGES_PER_TABLE);
        KernelMapAgrees(m, bs, pm.mem, pm.blocks, kernel, dir);
      case InFirst(v, paddr, count, flags) =>
        ok, done := MapPages(pm, dir, v, paddr, count, flags, 0, 1);
        ProcessMapAgrees(m, bs, pm.mem, pm.blocks, kernel, dir, 0, 1);
      case InTss(v, paddr, count, flags) =>
        ok, done := MapPages(pm, dir, v, paddr, count, flags, TSS_TABLE, TSS_TABLE + 1);
        ProcessMapAgrees(m, bs, pm.mem, pm.blocks, kernel, dir, TSS_TABLE, TSS_TABLE + 1);
      case InShared(v, paddr, count, flags) =>
        ok, done := MapPages(pm, dir, v, paddr, count, flags, KERNEL_TABLE, PAGES_PER_TABLE);
        ProcessMapAgrees(m, bs, pm.mem, pm.blocks, kernel, dir, KERNEL_TABLE, PAGES_PER_TABLE);
    }
  }

  lemma AgreeingTables(m: Mem, bs: seq<Block>, kernel: nat, dir: nat)
    requires Agreeing(m, bs, kernel, dir)
    ensures TablesOk(m, bs, kernel, KERNEL_HALF, PAGES_PER_TABLE)
    ensures TablesOk(m, bs, dir, 0, 1) && TablesOk(m, bs, dir, TSS_TABLE, TSS_TABLE + 1)
  {
  }

  /** Both directories translate the last 8 MB alike. */
  ghost predicate AlikeAtTheTop(m: Mem, kernel: nat, dir: nat) {
    forall v :: 1022 * 1024 <= v < 1024 * 1024 ==> Lookup(m, dir, v) == Lookup(m, kernel, v)
  }

  /** What one of a sequence of calls has done. */
  ghost predicate CallDone(m: Mem, m': Mem, kernel: nat, dir: nat, q: Mapping, ok: bool, done: nat) {
    MappingDone(m, m', Through(q, kernel, dir), q, done) && (ok <==> done == q.count)
  }

  /** Any sequence of mappings through the two directories. Each does what it should to the memory it
      finds, and at every moment both translate the last 8 MB alike. */
  method MapAll(pm: PhysMemory, kernel: nat, dir: nat, later: seq<Mapping>)
    returns (oks: seq<bool>, ghost mems: seq<Mem>, ghost dones: seq<nat>)
    requires pm.Valid() && Agreeing(pm.mem, pm.blocks, kernel, dir)
    requires forall n :: 0 <= n < |later| ==> InItsTables(later[n])
    modifies pm
    ensures pm.Valid() && Agreeing(pm.mem, pm.blocks, kernel, dir)
    ensures |oks| == |dones| == |later| && |mems| == |later| + 1 && mems[0] == old(pm.mem) && mems[|later|] == pm.mem
    ensures forall n :: 0 <= n < |later| ==> CallDone(mems[n], mems[n + 1], kernel, dir, later[n], oks[n], dones[n])
    ensures forall n :: 0 <= n <= |later| ==> AlikeAtTheTop(mems[n], kernel, dir)
  {
    hide Agreeing, MappingDone, CanMap, AlikeAtTheTop, InItsTables, Through;
    SharedTranslateAlike(pm.mem, pm.blocks, kernel, dir);
    mems, dones, oks := [pm.mem], [], [];
    for n := 0 to |later|
      invariant pm.Valid() && Agreeing(pm.mem, pm.blocks, kernel, dir)
      invariant |oks| == |dones| == n && |mems| == n + 1 && mems[0] == old(pm.mem) && mems[n] == pm.mem
      invariant forall j :: 0 <= j < n ==> CallDone(mems[j], mems[j + 1], kernel, dir, later[j], oks[j], dones[j])
      invariant forall j :: 0 <= j <= n ==> AlikeAtTheTop(mems[j], kernel, dir)
    {
      ghost var m := pm.mem;
      var ok;
      ghost var done;
      ok, done := MapOnce(pm, kernel, dir, later[n]);
      assert CallDone(m, pm.mem, kernel, dir, later[n], ok, done);
      SharedTranslateAlike(pm.mem, pm.blocks, kernel, dir);
      oks, dones, mems := oks + [ok], dones + [done], mems + [pm.mem];
    }
  }

  /** A process directory as built, and then any sequence of mappings through it and through the
      kernel's: at every moment both translate every address of the last 8 MB alike. */
  method BuildThenMap(pm: PhysMemory, kernel: nat, start: nat, later: seq<Mapping>)
    returns (dir: nat, oks: seq<bool>, ghost tss: nat, ghost mems: seq<Mem>, ghost dones: seq<nat>)
    requires pm.Valid() && pm.freeCount >= 4 && TablesOk(pm.mem, pm.blocks, kernel, KERNEL_HALF, PAGES_PER_TABLE)
    requires HasTable(pm.mem, kernel, KERNEL_TABLE) && HasTable(pm.mem, kernel, LAST_TABLE)
    requires forall n :: 0 <= n < |later| ==> InItsTables(later[n])
    modifies pm
    ensures pm.Valid() && Agreeing(pm.mem, pm.blocks, kernel, dir)
    ensures |oks| == |dones| == |later| && |mems| == |later| + 1 && mems[|later|] == pm.mem
    ensures Translates(mems[0], dir, start, tss, old(pm.mem), kernel)
    ensures forall n :: 0 <= n < |later| ==> CallDone(mems[n], mems[n + 1], kernel, dir, later[n], oks[n], dones[n])
    ensures forall n :: 0 <= n <= |later| ==> AlikeAtTheTop(mems[n], kernel, dir)
  {
    hide Agreeing, CallDone, Translates, AlikeAtTheTop, InItsTables, Lookup, OnlyFreeUsed, OtherEntries, FreshTable;
    ghost var m0, bs0 := pm.mem, pm.blocks;
    SharedInUse(m0, bs0, kernel);
    dir, tss := InitPageTables(pm, kernel, start);
    BuiltAgrees(m0, bs0, pm.mem, pm.blocks, kernel, dir);
    oks, mems, dones := MapAll(pm, kernel, dir, later);
  }

  lemma SharedInUse(m: Mem, bs: seq<Block>, kernel: nat)
    requires TablesOk(m, bs, kernel, KERNEL_HALF, PAGES_PER_TABLE)
    ensures KernelShared(m, bs, kernel)
  {
  }

  lemma BuiltAgrees(m: Mem, bs: seq<Block>, m': Mem, bs': seq<Block>, kernel: nat, dir: nat)
    requires TablesOk(m, bs, kernel, KERNEL_HALF, PAGES_PER_TABLE)
    requires HasTable(m, kernel, KERNEL_TABLE) && HasTable(m, kernel, LAST_TABLE)
    requires OnlyFreeUsed(m, bs, m', bs') && Covers(bs, dir) && !Covers(bs', dir) && dir < |m'|
    requires DirectoryBuilt(m', dir, m, kernel)
    requires FreshTable(bs, m', bs', dir, 0) && FreshTable(bs, m', bs', dir, TSS_TABLE)
    ensures Agreeing(m', bs', kernel, dir)
  {
    assert forall i :: Word(m', kernel, i) == Word(m, kernel, i);
    assert forall i :: HasTable(m', kernel, i) <==> HasTable(m, kernel, i);
    assert forall i :: Table(m', kernel, i) == Table(m, kernel, i);
  }

  lemma SharedTranslateAlike(m: Mem, bs: seq<Block>, kernel: nat, dir: nat)
    requires Agreeing(m, bs, kernel, dir)
    ensures AlikeAtTheTop(m, kernel, dir)
  {
    forall v | KERNEL_TABLE * PAGES_PER_TABLE <= v < PAGE_COUNT
      ensures Lookup(m, dir, v) == Lookup(m, kernel, v)
    {
      var i := v / PAGES_PER_TABLE;
      assert KERNEL_TABLE <= i <= LAST_TABLE;
      assert HasTable(m, kernel, i);
    }
  }
}
