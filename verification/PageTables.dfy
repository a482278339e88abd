/** Two-level page tables (32-bit paging, section 4.3 of the Intel SDM, volume 3A) walked
    through the window page: `map_pages` and `get_page_info` of memory_manager.c. */
module PageTables {
  import opened BlockList
  import opened Frames
  import opened PhysicalMemory
  import FreeRing
  import Bits

  const PAGES_PER_TABLE: nat := 1024
  /** Virtual and physical pages both number 2^20. */
  const PAGE_COUNT: nat := 0x10_0000
  const PAGE_PRESENT: nat := 1
  const PAGE_WRITABLE: nat := 2
  const PAGE_USER: nat := 4
  const PAGE_GLOBAL: nat := 0x100

  predicate Present(w: int) {
    w % 2 == 1
  }

  /** The frame an entry names: the entry without its twelve low bits. */
  function FrameOf(w: int): int {
    w / PAGE_SIZE
  }

  // ------------------------------------------------------------ entries

  /** Line 85 as written: the mask is PAGE_OFFSET_BITS, that is 12. */
  function EntryWord(paddr: nat, flags: nat): nat {
    Bits.Or(Bits.Clear(paddr, 12), flags)
  }

  /** Line 85 with the mask PAGE_OFFSET_MASK. */
  function EntryMeant(paddr: nat, flags: nat): nat {
    Bits.Or(Bits.Clear(paddr, 0xFFF), flags)
  }

  lemma PageBits()
    ensures Bits.Pow2(12) == PAGE_SIZE
    ensures Bits.Pow2(10) == PAGES_PER_TABLE
  {
    assert Bits.Pow2(4) == 16;
    assert Bits.Pow2(8) == 256;
  }

  /** The index arithmetic of lines 67, 97 and 103: an address shifted right and masked gives
      the table index and the entry index of its page, and line 116 clears its offset. */
  lemma IndexBits(vaddr: nat)
    requires vaddr < PAGE_COUNT * PAGE_SIZE
    ensures Bits.And(Bits.ShiftRight(vaddr, 22), 0x3FF) == (vaddr / PAGE_SIZE) / PAGES_PER_TABLE
    ensures Bits.And(Bits.ShiftRight(vaddr, 12), 0x3FF) == (vaddr / PAGE_SIZE) % PAGES_PER_TABLE
    ensures Bits.Clear(vaddr, 0xFFF) == vaddr / PAGE_SIZE * PAGE_SIZE
  {
    hide Bits.And, Bits.Clear, Bits.ShiftRight, Bits.Pow2;
    Bits.ShiftIsDiv(vaddr, 12);
    Bits.ShiftTwice(vaddr, 12, 10);
    Bits.ShiftIsDiv(vaddr / PAGE_SIZE, 10);
    PageBits();
    LowBits(vaddr);
    LowBits((vaddr / PAGE_SIZE) / PAGES_PER_TABLE);
    LowBits(vaddr / PAGE_SIZE);
  }

  lemma LowBits(x: nat)
    ensures Bits.And(x, 0x3FF) == x % PAGES_PER_TABLE
    ensures Bits.Clear(x, 0xFFF) == x / PAGE_SIZE * PAGE_SIZE
  {
    PageBits();
    Bits.MaskIsMod(x / PAGES_PER_TABLE, x % PAGES_PER_TABLE, 10);
    Bits.ClearMaskIsFloor(x / PAGE_SIZE, x % PAGE_SIZE, 12);
  }

  lemma EntrySplit(h: nat, l: nat, mask: nat, flags: nat, n: nat)
    requires l < Bits.Pow2(n) && mask < Bits.Pow2(n) && flags < Bits.Pow2(n)
    ensures Bits.Or(Bits.Clear(h * Bits.Pow2(n) + l, mask), flags)
         == h * Bits.Pow2(n) + Bits.Or(Bits.Clear(l, mask), flags)
    ensures Bits.Or(Bits.Clear(l, mask), flags) < Bits.Pow2(n)
  {
    Bits.ClearLow(h, l, mask, n);
    Bits.OrLow(h, Bits.Clear(l, mask), flags, n);
  }

  lemma EntryParts(paddr: nat, flags: nat)
    requires flags < PAGE_SIZE
    ensures EntryWord(paddr, flags) == paddr / PAGE_SIZE * PAGE_SIZE + EntryWord(paddr % PAGE_SIZE, flags)
    ensures EntryMeant(paddr, flags) == paddr / PAGE_SIZE * PAGE_SIZE + flags
    ensures EntryWord(paddr % PAGE_SIZE, flags) < PAGE_SIZE
  {
    hide Bits.Or, Bits.Clear, Bits.Pow2;
    PageBits();
    var h, l := paddr / PAGE_SIZE, paddr % PAGE_SIZE;
    EntrySplit(h, l, 12, flags, 12);
    EntrySplit(h, l, 0xFFF, flags, 12);
    LowBitsCleared(l);
    OrZero(flags);
  }

  lemma OrZero(flags: nat)
    ensures Bits.Or(0, flags) == flags
  {
  }

  lemma LowBitsCleared(l: nat)
    requires l < PAGE_SIZE
    ensures Bits.Clear(l, 0xFFF) == 0
  {
    PageBits();
    Bits.ClearMaskIsFloor(0, l, 12);
  }

  /** The mask of line 85 is as good as the right one exactly when the offset bits of `paddr`
      other than bits 2 and 3 are among the flags anyway. */
  lemma MaskIff(paddr: nat, flags: nat)
    requires flags < PAGE_SIZE
    ensures (EntryWord(paddr, flags) == EntryMeant(paddr, flags))
              <==> (Bits.Or(Bits.Clear(paddr % PAGE_SIZE, 12), flags) == flags)
  {
    EntryParts(paddr, flags);
  }

  /** For page-aligned addresses the mask does no harm. */
  lemma AlignedEntry(page: nat, flags: nat)
    requires flags < PAGE_SIZE
    ensures EntryWord(page * PAGE_SIZE, flags) == page * PAGE_SIZE + flags
    ensures FrameOf(EntryWord(page * PAGE_SIZE, flags)) == page
    ensures Present(EntryWord(page * PAGE_SIZE, flags)) <==> flags % 2 == 1
  {
    hide EntryWord, EntryMeant;
    EntryParts(page * PAGE_SIZE, flags);
    AlignedLow(flags);
  }

  lemma AlignedLow(flags: nat)
    ensures EntryWord(0, flags) == flags
  {
  }

  /** Remapping the kernel's code with its own old entry (lines 32-33): the writable bit of an
      entry that had it stays, though the new flags are present and global only. */
  lemma MaskFailure()
    ensures EntryWord(0x5003, 0x101) == 0x5103 && EntryMeant(0x5003, 0x101) == 0x5101
  {
    hide EntryWord, EntryMeant;
    EntryParts(0x5003, 0x101);
    LowEntry();
  }

  lemma LowEntry()
    ensures EntryWord(3, 0x101) == 0x103
  {
    hide Bits.Or, Bits.Clear;
    LowClear();
    LowOr();
  }

  lemma LowClear()
    ensures Bits.Clear(3, 12) == 3
  {
    hide Bits.Clear;
    Bits.ClearStep(3, 12);
    Bits.ClearStep(1, 6);
    Bits.ClearStep(0, 3);
  }

  lemma LowOr()
    ensures Bits.Or(3, 0x101) == 0x103
  {
    hide Bits.Or;
    Bits.OrStep(3, 0x101);
    Bits.OrStep(1, 0x80);
    Bits.OrStep(0, 0x40);
  }

  // ------------------------------------------------------------ the flat view

  /** The entry for virtual page v; 0 where the directory has no table (`get_page_info`). */
  function Lookup(m: Mem, dir: nat, v: nat): int {
    var pde := Word(m, dir, v / PAGES_PER_TABLE);
    if Present(pde) then Word(m, FrameOf(pde), v % PAGES_PER_TABLE) else 0
  }

  function Table(m: Mem, dir: nat, i: int): int {
    FrameOf(Word(m, dir, i))
  }

  predicate HasTable(m: Mem, dir: nat, i: int) {
    Present(Word(m, dir, i))
  }

  /** The tables that entries lo..hi of a directory name are distinct frames of memory, none
      of them free or the directory itself. */
  ghost predicate TablesOk(m: Mem, bs: seq<Block>, dir: nat, lo: nat, hi: nat) {
    && lo <= hi <= PAGES_PER_TABLE
    && dir < |m| && !Covers(bs, dir)
    && (forall i :: lo <= i < hi && HasTable(m, dir, i) ==>
          0 <= Table(m, dir, i) < |m| && Table(m, dir, i) != dir && !Covers(bs, Table(m, dir, i)))
    && (forall i, j :: lo <= i < hi && lo <= j < hi && i != j && HasTable(m, dir, i) && HasTable(m, dir, j) ==>
          Table(m, dir, i) != Table(m, dir, j))
  }

  ghost predicate IsTable(m: Mem, dir: nat, lo: nat, hi: nat, p: int) {
    exists i :: lo <= i < hi && HasTable(m, dir, i) && Table(m, dir, i) == p
  }

  /** Entry i names a table that was not there before: it is present, writable and the user's. */
  predicate OpenTable(m: Mem, m': Mem, dir: nat, i: int) {
    HasTable(m', dir, i) && !HasTable(m, dir, i) ==> Word(m', dir, i) % 4096 == 7
  }

  /** A directory keeps the entries that are present, and those that come are open. */
  ghost predicate DirGrew(m: Mem, m': Mem, dir: nat) {
    forall i :: (HasTable(m, dir, i) ==> Word(m', dir, i) == Word(m, dir, i)) && OpenTable(m, m', dir, i)
  }

  /** What a walk may do to memory and to the free list: directory entries that are present
      stay, tables added were free and are open, pages that leave the free list are tables now,
      and only the directory, its tables and free pages are written. */
  ghost predicate Extends(m: Mem, bs: seq<Block>, m': Mem, bs': seq<Block>, dir: nat, lo: nat, hi: nat) {
    && |m'| == |m|
    && (forall p :: Covers(bs', p) ==> Covers(bs, p))
    && (forall p :: Covers(bs, p) && !Covers(bs', p) ==> IsTable(m', dir, lo, hi, p))
    && (forall i :: HasTable(m, dir, i) || !(lo <= i < hi) ==> Word(m', dir, i) == Word(m, dir, i))
    && (forall i :: lo <= i < hi && HasTable(m', dir, i) && !HasTable(m, dir, i) ==>
          Covers(bs, Table(m', dir, i)) && !Covers(bs', Table(m', dir, i)))
    && (forall i :: lo <= i < hi ==> OpenTable(m, m', dir, i))
    && (forall p, j :: !Covers(bs, p) && p != dir && !IsTable(m, dir, lo, hi, p) ==> Word(m', p, j) == Word(m, p, j))
  }

  lemma ExtendsRefl(m: Mem, bs: seq<Block>, dir: nat, lo: nat, hi: nat)
    ensures Extends(m, bs, m, bs, dir, lo, hi)
  {
  }

  lemma StillTable(m: Mem, bs: seq<Block>, m': Mem, bs': seq<Block>, dir: nat, lo: nat, hi: nat, p: int)
    requires Extends(m, bs, m', bs', dir, lo, hi)
    ensures IsTable(m, dir, lo, hi, p) ==> IsTable(m', dir, lo, hi, p)
    ensures IsTable(m', dir, lo, hi, p) ==> IsTable(m, dir, lo, hi, p) || Covers(bs, p)
  {
    if IsTable(m, dir, lo, hi, p) {
      var i :| lo <= i < hi && HasTable(m, dir, i) && Table(m, dir, i) == p;
      assert HasTable(m', dir, i) && Table(m', dir, i) == p;
    }
    if IsTable(m', dir, lo, hi, p) {
      var i :| lo <= i < hi && HasTable(m', dir, i) && Table(m', dir, i) == p;
      if HasTable(m, dir, i) { assert Table(m, dir, i) == p; }
    }
  }

  lemma ExtendsTrans(m: Mem, bs: seq<Block>, m1: Mem, bs1: seq<Block>, m2: Mem, bs2: seq<Block>, dir: nat, lo: nat,
                     hi: nat)
    requires Extends(m, bs, m1, bs1, dir, lo, hi) && Extends(m1, bs1, m2, bs2, dir, lo, hi)
    ensures Extends(m, bs, m2, bs2, dir, lo, hi)
  {
    forall p | Covers(bs, p) && !Covers(bs2, p)
      ensures IsTable(m2, dir, lo, hi, p)
    {
      if !Covers(bs1, p) { StillTable(m1, bs1, m2, bs2, dir, lo, hi, p); }
    }
    forall i | lo <= i < hi
      ensures OpenTable(m, m2, dir, i)
    {
      assert OpenTable(m, m1, dir, i) && OpenTable(m1, m2, dir, i);
    }
    forall p, j | !Covers(bs, p) && p != dir && !IsTable(m, dir, lo, hi, p)
      ensures Word(m2, p, j) == Word(m, p, j)
    {
      StillTable(m, bs, m1, bs1, dir, lo, hi, p);
    }
  }

  lemma ExtendsGrew(m: Mem, bs: seq<Block>, m': Mem, bs': seq<Block>, dir: nat, lo: nat, hi: nat)
    requires Extends(m, bs, m', bs', dir, lo, hi)
    ensures DirGrew(m, m', dir)
  {
    forall i
      ensures OpenTable(m, m', dir, i)
    {
      if !(lo <= i < hi) { assert Word(m', dir, i) == Word(m, dir, i); }
    }
  }

  // ------------------------------------------------------------ one walk, on values

  /** The free list does not notice stores outside the free runs. */
  lemma RingUntouched(m: Mem, m': Mem, head: int, count: nat, bs: seq<Block>)
    requires FreeListOk(m, head, count, bs) && WellShaped(m') && |m'| == |m|
    requires forall p, j :: Covers(bs, p) ==> Word(m', p, j) == Word(m, p, j)
    ensures FreeListOk(m', head, count, bs)
  {
    forall i | 0 <= i < |bs|
      ensures FreeRing.Node(m', bs, i)
    {
      BaseIsCovered(bs, i);
      assert FreeRing.Node(m, bs, i);
    }
  }

  /** Lines 75-79: frame r, no longer free, becomes a zeroed table at directory entry i. */
  function TableAdded(m: Mem, dir: nat, i: nat, r: nat): Mem {
    Put(Zero(m, r), dir, i, r * PAGE_SIZE + (PAGE_PRESENT + PAGE_WRITABLE + PAGE_USER))
  }

  /** bs1 is the free list after frame r has been taken from bs, and m1 the memory. */
  ghost predicate FrameTaken(m: Mem, bs: seq<Block>, m1: Mem, bs1: seq<Block>, r: int) {
    && WellShaped(m1)
    && OnlyFreeWritten(m, m1, bs)
    && Covers(bs, r) && !Covers(bs1, r) && 0 <= r < |m|
    && (forall p :: Covers(bs, p) <==> Covers(bs1, p) || p == r)
  }

  lemma TableWord(m1: Mem, dir: nat, i: nat, r: nat)
    requires WellShaped(m1) && dir < |m1| && i < PAGES_PER_TABLE
    ensures var m3 := TableAdded(m1, dir, i, r);
            && HasTable(m3, dir, i) && Table(m3, dir, i) == r && Word(m3, dir, i) % 4096 == 7
            && (forall j :: j != i && r != dir ==> Word(m3, dir, j) == Word(m1, dir, j))
  {
  }

  lemma TableAddedExtends(m: Mem, bs: seq<Block>, m1: Mem, bs1: seq<Block>, r: nat, dir: nat, lo: nat, hi: nat, i: nat)
    requires TablesOk(m, bs, dir, lo, hi) && FrameTaken(m, bs, m1, bs1, r)
    requires lo <= i < hi && !HasTable(m, dir, i)
    ensures HasTable(TableAdded(m1, dir, i, r), dir, i) && Table(TableAdded(m1, dir, i, r), dir, i) == r
    ensures Extends(m, bs, TableAdded(m1, dir, i, r), bs1, dir, lo, hi)
  {
    var m3 := TableAdded(m1, dir, i, r);
    TableWord(m1, dir, i, r);
    assert forall j :: j != i ==> Word(m3, dir, j) == Word(m, dir, j);
    assert IsTable(m3, dir, lo, hi, r);
  }

  lemma TableAddedOk(m: Mem, bs: seq<Block>, m1: Mem, bs1: seq<Block>, r: nat, dir: nat, lo: nat, hi: nat, i: nat)
    requires TablesOk(m, bs, dir, lo, hi) && FrameTaken(m, bs, m1, bs1, r)
    requires lo <= i < hi && !HasTable(m, dir, i)
    ensures TablesOk(TableAdded(m1, dir, i, r), bs1, dir, lo, hi)
    ensures forall u :: lo * PAGES_PER_TABLE <= u < hi * PAGES_PER_TABLE ==>
              Lookup(TableAdded(m1, dir, i, r), dir, u) == Lookup(m, dir, u)
  {
    var m3 := TableAdded(m1, dir, i, r);
    TableWord(m1, dir, i, r);
    assert forall j :: j != i ==> Word(m3, dir, j) == Word(m, dir, j);
    forall k | lo <= k < hi && HasTable(m3, dir, k)
      ensures 0 <= Table(m3, dir, k) < |m3| && Table(m3, dir, k) != dir && !Covers(bs1, Table(m3, dir, k))
      ensures k != i ==> HasTable(m, dir, k) && Table(m3, dir, k) == Table(m, dir, k) && Table(m, dir, k) != r
    {
      if k != i { assert HasTable(m, dir, k); }
    }
    forall u | lo * PAGES_PER_TABLE <= u < hi * PAGES_PER_TABLE
      ensures Lookup(m3, dir, u) == Lookup(m, dir, u)
    {
      var k := u / PAGES_PER_TABLE;
      assert lo <= k < hi;
      if k != i && HasTable(m, dir, k) {
        assert !Covers(bs, Table(m, dir, k)) && Table(m, dir, k) != dir && Table(m3, dir, k) == Table(m, dir, k);
      }
    }
  }

  /** Line 85: an entry is stored in a table that is present. */
  lemma StoreEntry(m: Mem, bs: seq<Block>, dir: nat, lo: nat, hi: nat, v: nat, e: int)
    requires WellShaped(m) && TablesOk(m, bs, dir, lo, hi)
    requires lo <= v / PAGES_PER_TABLE < hi && HasTable(m, dir, v / PAGES_PER_TABLE)
    ensures var m' := Put(m, Table(m, dir, v / PAGES_PER_TABLE), v % PAGES_PER_TABLE, e);
            && Extends(m, bs, m', bs, dir, lo, hi)
            && TablesOk(m', bs, dir, lo, hi)
            && (forall u :: lo * PAGES_PER_TABLE <= u < hi * PAGES_PER_TABLE ==>
                  Lookup(m', dir, u) == if u == v then e else Lookup(m, dir, u))
  {
    var t := Table(m, dir, v / PAGES_PER_TABLE);
    var m' := Put(m, t, v % PAGES_PER_TABLE, e);
    assert IsTable(m, dir, lo, hi, t);
    assert forall j :: Word(m', dir, j) == Word(m, dir, j);
    forall u | lo * PAGES_PER_TABLE <= u < hi * PAGES_PER_TABLE
      ensures Lookup(m', dir, u) == if u == v then e else Lookup(m, dir, u)
    {
      var k := u / PAGES_PER_TABLE;
      assert lo <= k < hi;
      assert HasTable(m', dir, k) <==> HasTable(m, dir, k);
      if HasTable(m, dir, k) {
        assert Table(m', dir, k) == Table(m, dir, k);
      }
    }
  }

  /** A single page from any non-empty free list. */
  lemma OneFrameTaken(m: Mem, bs: seq<Block>, m1: Mem)
    requires Sorted(bs) && Within(bs, |m|) && WellShaped(m1) && OnlyFreeWritten(m, m1, bs) && bs != []
    ensures FirstFit(bs, 1) == 0
    ensures FrameTaken(m, bs, m1, Carve(bs, 0, 1), CarvedPage(bs, 0, 1))
  {
    CarveCovers(bs, 0, 1);
  }

  lemma SingleTaken(bs: seq<Block>)
    requires Sorted(bs) && bs != []
    ensures bs[0].size >= 1 && TakeSingle(bs) == Carve(bs, 0, 1)
  {
  }

  lemma FitForOne(m: Mem, head: int, count: nat, bs: seq<Block>)
    requires FreeListOk(m, head, count, bs)
    ensures Sorted(bs) && Within(bs, |m|) && WellShaped(m)
    ensures bs == [] <==> count == 0
    ensures FirstFit(bs, 1) == if bs == [] then |bs| else 0
  {
  }

  /** Everything a new table leaves in order. */
  lemma NewTable(m: Mem, bs: seq<Block>, m1: Mem, bs1: seq<Block>, r: nat, dir: nat, lo: nat, hi: nat, i: nat,
                 head: int, count: nat)
    requires TablesOk(m, bs, dir, lo, hi) && FrameTaken(m, bs, m1, bs1, r) && lo <= i < hi && !HasTable(m, dir, i)
    requires FreeListOk(m1, head, count, bs1)
    ensures var m3 := TableAdded(m1, dir, i, r);
            && FreeListOk(m3, head, count, bs1) && TablesOk(m3, bs1, dir, lo, hi)
            && Extends(m, bs, m3, bs1, dir, lo, hi)
            && (forall u :: lo * PAGES_PER_TABLE <= u < hi * PAGES_PER_TABLE ==>
                 Lookup(m3, dir, u) == Lookup(m, dir, u))
            && (forall j :: j != i ==> Word(m3, dir, j) == Word(m, dir, j))
            && HasTable(m3, dir, i) && Table(m3, dir, i) == r
  {
    TableAddedExtends(m, bs, m1, bs1, r, dir, lo, hi, i);
    TableAddedOk(m, bs, m1, bs1, r, dir, lo, hi, i);
    hide Extends, Lookup;
    TableWord(m1, dir, i, r);
    hide FreeListOk;
    RingUntouched(m1, TableAdded(m1, dir, i, r), head, count, bs1);
  }

  // ------------------------------------------------------------ the methods

  /** Lines 66-83, the first round of the inner loop: the table for directory entry i, made
      and zeroed when it is missing. False when there is no free frame. */
  method TableFor(pm: PhysMemory, dir: nat, i: nat, ghost lo: nat, ghost hi: nat) returns (table: int, ok: bool)
    requires pm.Valid() && TablesOk(pm.mem, pm.blocks, dir, lo, hi) && lo <= i < hi
    modifies pm
    ensures pm.Valid() && TablesOk(pm.mem, pm.blocks, dir, lo, hi)
    ensures Extends(old(pm.mem), old(pm.blocks), pm.mem, pm.blocks, dir, lo, hi)
    ensures forall u :: lo * PAGES_PER_TABLE <= u < hi * PAGES_PER_TABLE ==>
              Lookup(pm.mem, dir, u) == Lookup(old(pm.mem), dir, u)
    ensures forall j :: j != i ==> Word(pm.mem, dir, j) == Word(old(pm.mem), dir, j)
    ensures ok ==> HasTable(pm.mem, dir, i) && FrameOf(table) == Table(pm.mem, dir, i)
    ensures forall j :: lo <= j < hi && HasTable(pm.mem, dir, j) && !HasTable(old(pm.mem), dir, j) ==>
              Word(pm.mem, dir, j) % 4096 == 7
    ensures ok <==> old(HasTable(pm.mem, dir, i)) || old(pm.freeCount) >= 1
    ensures pm.freeCount == old(pm.freeCount) - if ok && !old(HasTable(pm.mem, dir, i)) then 1 else 0
    ensures pm.blocks == if ok && !old(HasTable(pm.mem, dir, i)) then TakeSingle(old(pm.blocks)) else old(pm.blocks)
    ensures !ok ==> pm.mem == old(pm.mem) && pm.blocks == old(pm.blocks) == []
  {
    hide TablesOk, Extends, Lookup, OnlyFreeWritten, FreeListOk, FrameTaken, Covers, CarvedPage, Carve, TakeSingle;
    ok := true;
    pm.TempMapPage(dir);
    table := pm.Peek(i);
    if Present(table) {
      ExtendsRefl(pm.mem, pm.blocks, dir, lo, hi);
    } else {
      ghost var m, bs := pm.mem, pm.blocks;
      FitForOne(m, pm.freeHead, pm.freeCount, bs);
      var addr := pm.AllocPhysPages(1);
      if addr == FreeRing.NONE {
        ExtendsRefl(pm.mem, pm.blocks, dir, lo, hi);
        return table, false;
      }
      FitForOne(pm.mem, pm.freeHead, pm.freeCount, pm.blocks);
      OneFrameTaken(m, bs, pm.mem);
      SingleTaken(bs);
      NewTable(m, bs, pm.mem, pm.blocks, addr, dir, lo, hi, i, pm.freeHead, pm.freeCount);
      pm.TempMapPage(addr);
      pm.ZeroWindow();
      pm.TempMapPage(dir);
      pm.Poke(i, addr * PAGE_SIZE + (PAGE_PRESENT + PAGE_WRITABLE + PAGE_USER));
      table := addr * PAGE_SIZE;
    }
  }

  /** Lines 64-88: one page. */
  method MapOne(pm: PhysMemory, dir: nat, v: nat, paddr: nat, flags: nat, ghost lo: nat, ghost hi: nat)
    returns (ok: bool)
    requires pm.Valid() && TablesOk(pm.mem, pm.blocks, dir, lo, hi)
    requires lo * PAGES_PER_TABLE <= v < hi * PAGES_PER_TABLE
    modifies pm
    ensures pm.Valid() && TablesOk(pm.mem, pm.blocks, dir, lo, hi)
    ensures Extends(old(pm.mem), old(pm.blocks), pm.mem, pm.blocks, dir, lo, hi)
    ensures forall j :: j != v / PAGES_PER_TABLE ==> Word(pm.mem, dir, j) == Word(old(pm.mem), dir, j)
    ensures forall u :: lo * PAGES_PER_TABLE <= u < hi * PAGES_PER_TABLE ==>
              Lookup(pm.mem, dir, u) == if ok && u == v then EntryWord(paddr, flags) else Lookup(old(pm.mem), dir, u)
    ensures ok ==> HasTable(pm.mem, dir, v / PAGES_PER_TABLE)
    ensures forall j :: lo <= j < hi && HasTable(pm.mem, dir, j) && !HasTable(old(pm.mem), dir, j) ==>
              Word(pm.mem, dir, j) % 4096 == 7
    ensures ok <==> old(HasTable(pm.mem, dir, v / PAGES_PER_TABLE)) || old(pm.freeCount) >= 1
    ensures pm.freeCount == old(pm.freeCount) - if ok && !old(HasTable(pm.mem, dir, v / PAGES_PER_TABLE)) then 1 else 0
    ensures pm.blocks == if ok && !old(HasTable(pm.mem, dir, v / PAGES_PER_TABLE)) then TakeSingle(old(pm.blocks))
              else old(pm.blocks)
    ensures !ok ==> pm.mem == old(pm.mem) && pm.blocks == old(pm.blocks) == []
  {
    hide TakeSingle;
    var table;
    table, ok := TableFor(pm, dir, v / PAGES_PER_TABLE, lo, hi);
    if ok {
      ghost var m := pm.mem;
      StoreEntry(m, pm.blocks, dir, lo, hi, v, EntryWord(paddr, flags));
      pm.TempMapPage(FrameOf(table));
      pm.Poke(v % PAGES_PER_TABLE, EntryWord(paddr, flags));
      RingUntouched(m, pm.mem, pm.freeHead, pm.freeCount, pm.blocks);
      ExtendsTrans(old(pm.mem), old(pm.blocks), m, pm.blocks, pm.mem, pm.blocks, dir, lo, hi);
    }
  }

  /** Page v + n is the first of the range from v in a table that is missing. */
  predicate OpensMissing(m: Mem, dir: nat, v: nat, n: nat) {
    !HasTable(m, dir, (v + n) / PAGES_PER_TABLE) && (n == 0 || (v + n) % PAGES_PER_TABLE == 0)
  }

  /** Tables missing for the pages v..v+n. */
  function Missing(m: Mem, dir: nat, v: nat, n: nat): nat
    decreases n
  {
    if n == 0 then 0 else Missing(m, dir, v, n - 1) + if OpensMissing(m, dir, v, n - 1) then 1 else 0
  }

  /** It grows with the range. */
  lemma {:induction false} MissingGrows(m: Mem, dir: nat, v: nat, k: nat, n: nat)
    requires k <= n
    ensures Missing(m, dir, v, k) <= Missing(m, dir, v, n)
    decreases n
  {
    if k < n { MissingGrows(m, dir, v, k, n - 1); }
  }

  /** The pages v..v+n have their tables. */
  ghost predicate TablesThere(m: Mem, dir: nat, v: nat, n: nat) {
    forall j: nat :: n > 0 && v / PAGES_PER_TABLE <= j <= (v + n - 1) / PAGES_PER_TABLE ==> HasTable(m, dir, j)
  }

  /** After n pages: entries of the directory that the range has not reached are as they were,
      those it has reached have their tables. */
  ghost predicate Reached(m: Mem, m': Mem, dir: nat, v: nat, n: nat) {
    && (forall j: nat :: n == 0 || j < v / PAGES_PER_TABLE || (v + n - 1) / PAGES_PER_TABLE < j ==>
         Word(m', dir, j) == Word(m, dir, j))
    && TablesThere(m', dir, v, n)
  }

  lemma NextPage(v: nat, n: nat)
    requires n > 0
    ensures (v + n) % PAGES_PER_TABLE == 0 ==> (v + n) / PAGES_PER_TABLE == (v + n - 1) / PAGES_PER_TABLE + 1
    ensures (v + n) % PAGES_PER_TABLE != 0 ==> (v + n) / PAGES_PER_TABLE == (v + n - 1) / PAGES_PER_TABLE
    ensures v / PAGES_PER_TABLE <= (v + n - 1) / PAGES_PER_TABLE
  {
  }

  /** Whether the next page needs a new table. */
  lemma NeedsTable(m: Mem, m': Mem, dir: nat, v: nat, n: nat)
    requires Reached(m, m', dir, v, n)
    ensures !HasTable(m', dir, (v + n) / PAGES_PER_TABLE) <==> OpensMissing(m, dir, v, n)
  {
    if n > 0 { NextPage(v, n); }
  }

  lemma ReachedNext(m: Mem, m': Mem, m2: Mem, dir: nat, v: nat, n: nat)
    requires Reached(m, m', dir, v, n)
    requires forall j: nat :: j != (v + n) / PAGES_PER_TABLE ==> Word(m2, dir, j) == Word(m', dir, j)
    requires HasTable(m2, dir, (v + n) / PAGES_PER_TABLE)
    ensures Reached(m, m2, dir, v, n + 1)
  {
    if n > 0 { NextPage(v, n); }
    forall j: nat | v / PAGES_PER_TABLE <= j <= (v + n) / PAGES_PER_TABLE
      ensures HasTable(m2, dir, j)
    {
      if j != (v + n) / PAGES_PER_TABLE { assert HasTable(m', dir, j); }
    }
  }

  /** Lines 62-93. `done` pages of the range are mapped when the walk ends; they are all of
      them unless a table was missing and no frame was left for it. */
  method MapPages(pm: PhysMemory, dir: nat, v0: nat, paddr: nat, count: nat, flags: nat, ghost lo: nat, ghost hi: nat)
    returns (ok: bool, ghost done: nat)
    requires pm.Valid() && TablesOk(pm.mem, pm.blocks, dir, lo, hi)
    requires lo * PAGES_PER_TABLE <= v0 && v0 + count <= hi * PAGES_PER_TABLE
    modifies pm
    ensures pm.Valid() && TablesOk(pm.mem, pm.blocks, dir, lo, hi)
    ensures Extends(old(pm.mem), old(pm.blocks), pm.mem, pm.blocks, dir, lo, hi)
    ensures done <= count && (ok <==> done == count)
    ensures forall u :: lo * PAGES_PER_TABLE <= u < hi * PAGES_PER_TABLE ==>
              Lookup(pm.mem, dir, u) ==
                if v0 <= u < v0 + done then EntryWord(paddr + (u - v0) * PAGE_SIZE, flags)
                    else Lookup(old(pm.mem), dir, u)
    ensures !ok ==> pm.blocks == [] && !HasTable(pm.mem, dir, (v0 + done) / PAGES_PER_TABLE)
    ensures done == 0 ==> pm.mem == old(pm.mem) && pm.blocks == old(pm.blocks)
    ensures forall j: nat :: count == 0 || j < v0 / PAGES_PER_TABLE || (v0 + count - 1) / PAGES_PER_TABLE < j ==>
              Word(pm.mem, dir, j) == Word(old(pm.mem), dir, j)
    ensures ok <==> Missing(old(pm.mem), dir, v0, count) <= old(pm.freeCount)
    ensures ok ==> pm.freeCount == old(pm.freeCount) - Missing(old(pm.mem), dir, v0, count)
    ensures ok ==> pm.blocks == TakeSingles(old(pm.blocks), Missing(old(pm.mem), dir, v0, count))
    ensures TablesThere(pm.mem, dir, v0, done)
    ensures forall j :: lo <= j < hi && HasTable(pm.mem, dir, j) && !HasTable(old(pm.mem), dir, j) ==>
              Word(pm.mem, dir, j) % 4096 == 7
  {
    hide TakeSingle, TablesOk, Extends, Lookup, EntryWord, FreeListOk, Reached, OpensMissing, HasTable, Word;
    hide TablesThere;
    var v, p, left := v0, paddr, count;
    done := 0;
    ghost var m0 := pm.mem;
    ExtendsRefl(pm.mem, pm.blocks, dir, lo, hi);
    ReachedNothing(m0, dir, v0);
    while left > 0
      invariant done + left == count && v == v0 + done && p == paddr + done * PAGE_SIZE
      invariant pm.Valid() && TablesOk(pm.mem, pm.blocks, dir, lo, hi)
      invariant Extends(m0, old(pm.blocks), pm.mem, pm.blocks, dir, lo, hi)
      invariant done == 0 ==> pm.mem == m0 && pm.blocks == old(pm.blocks)
      invariant Reached(m0, pm.mem, dir, v0, done)
      invariant pm.blocks == TakeSingles(old(pm.blocks), Missing(m0, dir, v0, done))
      invariant Missing(m0, dir, v0, done) <= old(pm.freeCount) &&
                  pm.freeCount == old(pm.freeCount) - Missing(m0, dir, v0, done)
      invariant forall u :: lo * PAGES_PER_TABLE <= u < hi * PAGES_PER_TABLE ==>
                  Lookup(pm.mem, dir, u) ==
                    if v0 <= u < v0 + done then EntryWord(paddr + (u - v0) * PAGE_SIZE, flags) else Lookup(m0, dir, u)
    {
      ghost var m, bs := pm.mem, pm.blocks;
      NeedsTable(m0, m, dir, v0, done);
      MissingGrows(m0, dir, v0, done + 1, count);
      ok := MapOne(pm, dir, v, p, flags, lo, hi);
      ExtendsTrans(m0, old(pm.blocks), m, bs, pm.mem, pm.blocks, dir, lo, hi);
      if !ok {
        ReachedWithin(m0, pm.mem, dir, v0, done, count);
        ReachedAll(m0, pm.mem, dir, v0, done);
        TablesOpen(m0, old(pm.blocks), pm.mem, pm.blocks, dir, lo, hi);
        return false, done;
      }
      ReachedNext(m0, m, pm.mem, dir, v0, done);
      v, p, left, done := v + 1, p + PAGE_SIZE, left - 1, done + 1;
    }
    ReachedWithin(m0, pm.mem, dir, v0, done, count);
    ReachedAll(m0, pm.mem, dir, v0, count);
    TablesOpen(m0, old(pm.blocks), pm.mem, pm.blocks, dir, lo, hi);
    ok := true;
  }

  lemma TablesOpen(m: Mem, bs: seq<Block>, m': Mem, bs': seq<Block>, dir: nat, lo: nat, hi: nat)
    requires Extends(m, bs, m', bs', dir, lo, hi)
    ensures forall j :: lo <= j < hi && HasTable(m', dir, j) && !HasTable(m, dir, j) ==> Word(m', dir, j) % 4096 == 7
  {
    hide HasTable, Word, Covers;
    forall j | lo <= j < hi && HasTable(m', dir, j) && !HasTable(m, dir, j)
      ensures Word(m', dir, j) % 4096 == 7
    {
      assert OpenTable(m, m', dir, j);
    }
  }

  lemma PageHasTable(m: Mem, dir: nat, v: nat, n: nat, u: nat)
    requires TablesThere(m, dir, v, n) && v <= u < v + n
    ensures HasTable(m, dir, u / PAGES_PER_TABLE)
  {
    Monotone(v, u);
    Monotone(u, v + n - 1);
  }

  lemma ReachedAll(m: Mem, m': Mem, dir: nat, v: nat, n: nat)
    requires Reached(m, m', dir, v, n)
    ensures TablesThere(m', dir, v, n)
  {
  }

  lemma ReachedWithin(m: Mem, m': Mem, dir: nat, v: nat, n: nat, count: nat)
    requires Reached(m, m', dir, v, n) && n <= count
    ensures forall j: nat :: count == 0 || j < v / PAGES_PER_TABLE || (v + count - 1) / PAGES_PER_TABLE < j ==>
              Word(m', dir, j) == Word(m, dir, j)
  {
    if 0 < n < count { Monotone(v + n - 1, v + count - 1); }
  }

  lemma Monotone(a: nat, b: nat)
    requires a <= b
    ensures a / PAGES_PER_TABLE <= b / PAGES_PER_TABLE
  {
  }

  lemma ReachedNothing(m: Mem, dir: nat, v: nat)
    ensures Reached(m, m, dir, v, 0)
  {
  }

  /** Lines 107-120. */
  method GetPageInfo(pm: PhysMemory, dir: nat, v: nat) returns (e: int)
    modifies pm`window
    ensures e == Lookup(pm.mem, dir, v)
    ensures Word(pm.mem, dir, v / 1024) % 2 == 0 ==> e == 0
    ensures Word(pm.mem, dir, v / 1024) % 2 == 1 ==>
              e == Word(pm.mem, Word(pm.mem, dir, v / 1024) / 4096, v % 1024)
  {
    pm.TempMapPage(dir);
    var pde := pm.Peek(v / PAGES_PER_TABLE);
    if !Present(pde) {
      return 0;
    }
    pm.TempMapPage(FrameOf(pde));
    e := pm.Peek(v % PAGES_PER_TABLE);
  }

  /** A user program may write page v: present, writable and user bits are set in the entry of the
      directory and in that of the table. */
  predicate UserMayWrite(m: Mem, dir: nat, v: nat) {
    Word(m, dir, v / 1024) % 8 == 7 && Lookup(m, dir, v) % 8 == 7
  }

  /** Page v is mapped for the user in a table that is new, or open like the others. */
  lemma RightsOfPage(m: Mem, m': Mem, dir: nat, v: nat, page: int, flags: nat)
    requires DirGrew(m, m', dir) && HasTable(m', dir, v / 1024)
    requires HasTable(m, dir, v / 1024) ==> Word(m, dir, v / 1024) % 8 == 7
    requires Lookup(m', dir, v) == page * PAGE_SIZE + flags && flags % 8 == 7
    ensures UserMayWrite(m', dir, v)
  {
    hide Lookup, HasTable, Word;
    assert OpenTable(m, m', dir, v / 1024);
    LowBitsOfSum(page, flags);
    LowBitsOfOpen(Word(m', dir, v / 1024));
  }

  lemma LowBitsOfSum(page: int, flags: nat)
    ensures (page * PAGE_SIZE + flags) % 8 == flags % 8
  {
  }

  lemma FlagsOf(page: int, flags: nat)
    requires flags < 4096
    ensures (page * 4096 + flags) % 4096 == flags
  {
  }

  lemma LowBitsOfOpen(w: int)
    ensures w % 4096 == 7 ==> w % 8 == 7
  {
  }

  /** Mapping an aligned range and reading it back: page k of the range gives the k-th frame
      with the flags, every other page what it gave before. Pages mapped with the user's flags
      are the user's to write, unless a table that was there before says otherwise. */
  method MapThenRead(pm: PhysMemory, dir: nat, v0: nat, page: nat, count: nat, flags: nat, u: nat)
    returns (ok: bool, e: int)
    requires pm.Valid() && TablesOk(pm.mem, pm.blocks, dir, 0, PAGES_PER_TABLE)
    requires v0 + count <= PAGE_COUNT && u < PAGE_COUNT && flags < PAGE_SIZE
    modifies pm
    ensures pm.Valid() && TablesOk(pm.mem, pm.blocks, dir, 0, PAGES_PER_TABLE)
    ensures ok && v0 <= u < v0 + count ==> e == (page + (u - v0)) * PAGE_SIZE + flags
    ensures !(v0 <= u < v0 + count) ==> e == Lookup(old(pm.mem), dir, u)
    ensures ok <==> Missing(old(pm.mem), dir, v0, count) <= old(pm.freeCount)
    ensures ok && v0 <= u < v0 + count && flags % 8 == 7 &&
            (HasTable(old(pm.mem), dir, u / 1024) ==> Word(old(pm.mem), dir, u / 1024) % 8 == 7) ==>
              UserMayWrite(pm.mem, dir, u)
  {
    hide TablesOk, Extends, Missing, FreeListOk, Lookup, EntryWord, HasTable, TablesThere, UserMayWrite, Word, DirGrew;
    ghost var done;
    ghost var m0, b0 := pm.mem, pm.blocks;
    ok, done := MapPages(pm, dir, v0, page * PAGE_SIZE, count, flags, 0, PAGES_PER_TABLE);
    e := GetPageInfo(pm, dir, u);
    if v0 <= u {
      AlignedEntry(page + (u - v0), flags);
      assert page * PAGE_SIZE + (u - v0) * PAGE_SIZE == (page + (u - v0)) * PAGE_SIZE;
      if ok && u < v0 + count && flags % 8 == 7 && (HasTable(m0, dir, u / 1024) ==> Word(m0, dir, u / 1024) % 8 == 7) {
        PageHasTable(pm.mem, dir, v0, count, u);
        ExtendsGrew(m0, b0, pm.mem, pm.blocks, dir, 0, PAGES_PER_TABLE);
        RightsOfPage(m0, pm.mem, dir, u, page + (u - v0), flags);
      }
    }
  }
}
