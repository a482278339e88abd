/** Lines of `alloc_virt_pages` and `free_virt_pages` whose text differs from what `VirtualMemory`
    does, and exactly when the text is right. */
module VirtualAsWritten {
  import opened BlockList
  import opened Frames
  import opened PhysicalMemory
  import opened PageTables
  import opened BlockTable
  import opened Ownership
  import opened OwnershipMoves
  import opened VirtualSteps
  import opened VirtualMemory
  import FreeRing

  ghost predicate OwnsRange(owner: Owners, first: int, len: nat, tag: Owner) {
    forall f :: InRange(f, first, len) ==> 0 <= f < |owner| && owner[f] == tag
  }

  lemma FramesFromBase(m: Mem, bs: seq<Block>, spaces: seq<Space>, owner: Owners, s: nat, k: nat)
    requires Inv(m, bs, spaces, owner) && s < |spaces| && k < |spaces[s].blocks|
    requires spaces[s].blocks[k].base >= 0 && spaces[s].blocks[k].kind == Memory
    ensures var b := spaces[s].blocks[k];
            OwnsRange(owner, FrameOf(Lookup(m, spaces[s].dir, b.base)), b.len, OfBlock(s, b.base))
  {
    var b := spaces[s].blocks[k];
    var frame := FirstFrame(m, spaces[s].dir, b);
    assert SpaceOk(m, bs, spaces[s], s, owner);
    assert BlockBacked(m, spaces[s], s, k, owner);
    hide Inv, SpaceOk, Lookup;
    forall f | InRange(f, frame, b.len)
      ensures 0 <= f < |owner| && owner[f] == OfBlock(s, b.base)
    {
      assert PageBacked(m, spaces[s].dir, b.base, f - frame, frame, owner, OfBlock(s, b.base));
    }
  }

  /** If the frames that follow the one at v are all the block's, v is its base. */
  lemma LastOwned(m: Mem, bs: seq<Block>, spaces: seq<Space>, owner: Owners, s: nat, k: nat, v: int)
    requires Inv(m, bs, spaces, owner) && s < |spaces| && k < |spaces[s].blocks|
    requires spaces[s].blocks[k].base >= 0 && Contains(spaces[s].blocks[k], v)
    requires var b := spaces[s].blocks[k];
             OwnsRange(owner, FrameOf(Lookup(m, spaces[s].dir, v)), b.len, OfBlock(s, b.base))
    ensures spaces[s].blocks[k].kind == Memory && v == spaces[s].blocks[k].base
  {
    var b := spaces[s].blocks[k];
    var first := FrameOf(Lookup(m, spaces[s].dir, v));
    var last := first + b.len - 1;
    assert InRange(last, first, b.len);
    OwnedByBlock(m, bs, spaces, s, k, owner, last);
    assert SpaceOk(m, bs, spaces[s], s, owner);
    assert BlockBacked(m, spaces[s], s, k, owner);
    hide Inv, SpaceOk, Lookup;
    assert PageBacked(m, spaces[s].dir, b.base, v - b.base, FirstFrame(m, spaces[s].dir, b), owner, OfBlock(s, b.base));
  }

  /** Lines 335-336 as written hand back, for any kind of block, the frames that follow the
      one at the given address. They are the block's own exactly when it is a memory block and
      the address is its base. */
  lemma HandedBackIff(m: Mem, bs: seq<Block>, spaces: seq<Space>, owner: Owners, s: nat, k: nat, v: int)
    requires Inv(m, bs, spaces, owner) && s < |spaces| && k < |spaces[s].blocks|
    requires spaces[s].blocks[k].base >= 0 && Contains(spaces[s].blocks[k], v)
    ensures var b := spaces[s].blocks[k];
            OwnsRange(owner, FrameOf(Lookup(m, spaces[s].dir, v)), b.len, OfBlock(s, b.base)) <==>
                (b.kind == Memory && v == b.base)
  {
    hide Inv, OwnsRange, FrameOf, Lookup;
    var b := spaces[s].blocks[k];
    var first := FrameOf(Lookup(m, spaces[s].dir, v));
    if b.kind == Memory && v == b.base {
      FramesFromBase(m, bs, spaces, owner, s, k);
    } else if OwnsRange(owner, first, b.len, OfBlock(s, b.base)) {
      LastOwned(m, bs, spaces, owner, s, k, v);
    }
  }

  // ------------------------------------------------------------ the kernel's table as grown in the text

  /** The entries that the recorded capacity allows lie in the pages of the reserved block. */
  predicate EntriesBacked(sp: Space) {
    sp.blocks != [] && sp.capacity * ENTRY_SIZE <= sp.blocks[|sp.blocks| - 1].len * PAGE_SIZE
  }

  /** Lines 288-302 as written, with a page-sized gap above the reserved block. Once a page was
      taken, the larger capacity is recorded whether or not the page could be mapped: it is backed
      exactly when there was a further frame for the page's table, should that be missing. */
  method GrowKernelTableAsWritten(vm: VirtualMemory) returns (taken: bool)
    requires vm.Valid() && |vm.spaces[0].blocks| == vm.spaces[0].capacity
    requires StorageEnd(vm.spaces[0]) < vm.spaces[0].End() && Vacant(vm.spaces[0].blocks, StorageEnd(vm.spaces[0]), 1)
    modifies vm, vm.pm
    ensures taken <==> old(vm.pm.freeCount) >= 1
    ensures !taken ==> vm.Valid() && vm.spaces == old(vm.spaces)
    ensures taken ==>
              var sp := old(vm.spaces)[0];
              var fits := 1 + Missing(old(vm.pm.mem), sp.dir, StorageEnd(sp), 1) <= old(vm.pm.freeCount);
              && vm.spaces == old(vm.spaces)[0 := if fits then Enlarged(sp)
                                                  else sp.(capacity := Capacity(NewSize(sp.capacity)))]
              && (EntriesBacked(vm.spaces[0]) <==> fits)
              && (vm.Valid() <==> fits)
  {
    hide Inv, FirstFit, Missing, Lookup, Capacity, NewSize, Vacant, OthersTranslateAlike, TranslatesAlike,
         AllTranslateAlike, DirsAlike, OtherDirsAlike, TablesCame, TakeSingles, Carve, KeepsOwners;
    vm.KernelIsThere();
    vm.OneFits();
    KernelTable(vm.pm.mem, vm.pm.blocks, vm.spaces, vm.owner);
    ghost var m0, sp := vm.pm.mem, vm.spaces[0];
    var main := vm.spaces[0].blocks[|vm.spaces[0].blocks| - 1];
    var newSize := NewSize(vm.spaces[0].capacity);
    var newPage := vm.TakeFrames(1);
    if newPage == FreeRing.NONE {
      return false;
    }
    taken := true;
    SameMissing(m0, vm.pm.mem, vm.spaces, 0, main.base + main.len, 1);
    var mapped, done := vm.MapInto(0, main.base + main.len, newPage, 1, WRITABLE);
    if mapped {
      assert MapsTo(vm.pm.mem, sp.dir, main.base + main.len, 0, newPage);
      InvKeptGrowing(vm.pm.mem, vm.pm.blocks, vm.spaces, vm.owner);
      vm.owner := GrownOwners(vm.pm.mem, vm.spaces[0], vm.owner);
      main := main.(len := main.len + 1);
    } else {
      vm.GiveFrames(newPage, 1);
      UnbackedEntries(vm.pm.mem, vm.pm.blocks, vm.spaces, vm.owner);
    }
    var blocks := vm.spaces[0].blocks;
    vm.spaces := vm.spaces[0 := vm.spaces[0].(blocks := blocks[|blocks| - 1 := main], capacity := Capacity(newSize))];
  }

  /** The kernel's table fills the reserved block, and the next size is a page more. */
  lemma KernelTable(m: Mem, bs: seq<Block>, spaces: seq<Space>, owner: Owners)
    requires Inv(m, bs, spaces, owner)
    ensures spaces != [] && spaces[0].blocks != []
    ensures var sp := spaces[0]; var main := sp.blocks[|sp.blocks| - 1];
            && main.kind == Reserved && main.base == sp.Start() && sp.capacity == Capacity(main.len)
            && NewSize(sp.capacity) == main.len + 1 && EntriesBacked(Enlarged(sp))
            && sp.blocks == sp.blocks[|sp.blocks| - 1 := main]
  {
    var main := spaces[0].blocks[|spaces[0].blocks| - 1];
    GrowthIsOnePage(main.len);
    RecordedCapacityIff(main.len, true);
  }

  lemma UnbackedEntries(m: Mem, bs: seq<Block>, spaces: seq<Space>, owner: Owners)
    requires Inv(m, bs, spaces, owner)
    ensures spaces != []
    ensures var after := spaces[0 := spaces[0].(capacity := Capacity(NewSize(spaces[0].capacity)))];
            !EntriesBacked(after[0]) && !Inv(m, bs, after, owner)
  {
    KernelTable(m, bs, spaces, owner);
    var main := spaces[0].blocks[|spaces[0].blocks| - 1];
    GrowthIsOnePage(main.len);
    RecordedCapacityIff(main.len, false);
  }

  /** A kernel whose table is full and fills 1024 pages, so that the next page needs a new page table,
      with one frame left: directory in frame 0, page table in frame 1, the table in frames 2 to 1025,
      frame 1026 free, and one-page device mappings from the top of the space down. */
  function FailingFrame(p: nat): (w: seq<int>)
    ensures |w| == WORDS_PER_FRAME
  {
    seq(WORDS_PER_FRAME, j requires 0 <= j < WORDS_PER_FRAME => FailingWord(p, j))
  }

  function FailingWord(p: nat, j: nat): int {
    if p == 0 then (if j == 512 then 0x1003 else 0)
    else if p == 1 then (2 + j) * PAGE_SIZE + 3
    else if p == 1026 then (if j == FreeRing.NEXT ||
        j == FreeRing.PREV then 1026 else if j == FreeRing.SIZE then 1 else 0)
    else 0
  }

  function FailingMem(): (m: Mem)
    ensures |m| == 1027 && forall p :: 0 <= p < 1027 ==> m[p] == FailingFrame(p)
  {
    seq(1027, p requires 0 <= p < 1027 => FailingFrame(p))
  }

  /** As many entries as fit in 1024 pages. */
  const FAILING_ENTRIES: nat := 349525

  function FailingBlock(k: nat): VBlock {
    if k + 1 < FAILING_ENTRIES then VBlock(IoMemory, 1023 * PAGES_PER_TABLE - 1 - k, 1)
    else VBlock(Reserved, 512 * PAGES_PER_TABLE, 1024)
  }

  function FailingBlocks(): (bs: seq<VBlock>)
    ensures |bs| == FAILING_ENTRIES && forall k :: 0 <= k < FAILING_ENTRIES ==> bs[k] == FailingBlock(k)
  {
    seq(FAILING_ENTRIES, k requires 0 <= k < FAILING_ENTRIES => FailingBlock(k))
  }

  function FailingSpace(): Space {
    Space(0, 512, 1023, Capacity(1024), 512 * PAGES_PER_TABLE, FailingBlocks())
  }

  function FailingOwner(f: int): Owner {
    if f == 0 then OfDir(0) else if f == 1 then OfTable(0, 512) else if 2 <= f < 1026 then OfStorage(f - 2)
        else FreePage
  }

  function FailingOwners(): (o: Owners)
    ensures |o| == 1027 && forall f :: 0 <= f < 1027 ==> o[f] == FailingOwner(f)
  {
    seq(1027, f requires 0 <= f < 1027 => FailingOwner(f))
  }

  lemma FailingWords()
    ensures WellShaped(FailingMem())
    ensures forall p, j :: 0 <= p < 1027 && 0 <= j < WORDS_PER_FRAME ==> Word(FailingMem(), p, j) == FailingWord(p, j)
    ensures forall p, j :: !(0 <= p < 1027 && 0 <= j < WORDS_PER_FRAME) ==> Word(FailingMem(), p, j) == 0
  {
  }

  lemma FailingTables(i: int)
    ensures HasTable(FailingMem(), 0, i) <==> i == 512
    ensures Table(FailingMem(), 0, 512) == 1
  {
    FailingWords();
  }

  lemma FailingLookup(j: int)
    requires 0 <= j < 1024
    ensures FrameOf(Lookup(FailingMem(), 0, 512 * PAGES_PER_TABLE + j)) == 2 + j
  {
    FailingWords();
    FailingTables(512);
    hide FailingMem;
    var v := 512 * PAGES_PER_TABLE + j;
    assert v / PAGES_PER_TABLE == 512 && v % PAGES_PER_TABLE == j;
  }

  lemma FailingRing()
    ensures FreeListOk(FailingMem(), 1026, 1, [Block(1026, 1)])
  {
    FailingWords();
    hide FailingMem;
    assert FreeRing.Node(FailingMem(), [Block(1026, 1)], 0);
  }

  lemma FailingBlocksOk()
    ensures Descending(FailingBlocks()) && InBounds(FailingBlocks(), 512 * PAGES_PER_TABLE, 1023 * PAGES_PER_TABLE)
    ensures FailingBlocks() != [] &&
              FailingBlocks()[|FailingBlocks()| - 1] == VBlock(Reserved, 512 * PAGES_PER_TABLE, 1024)
    ensures |FailingBlocks()| == Capacity(1024)
    ensures Vacant(FailingBlocks(), 513 * PAGES_PER_TABLE, 1)
    ensures forall k :: 0 <= k < |FailingBlocks()| ==> FailingBlocks()[k].base >= 0 && FailingBlocks()[k].kind != Memory
  {
    hide FailingBlocks;
  }

  lemma FailingSpaceOk()
    ensures SpaceOk(FailingMem(), [Block(1026, 1)], FailingSpace(), 0, FailingOwners())
    ensures KernelOk(FailingMem(), FailingSpace(), FailingOwners())
  {
    hide FailingMem, Lookup, HasTable, Table, FailingOwners, FailingBlocks, Descending, InBounds, FirstFrame;
    FailingBlocksOk();
    forall i
      ensures HasTable(FailingMem(), 0, i) <==> i == 512
      ensures Table(FailingMem(), 0, 512) == 1
    {
      FailingTables(i);
    }
    forall j | 0 <= j < 1024
      ensures StoragePage(FailingMem(), FailingSpace(), FailingOwners(), j)
    {
      FailingLookup(j);
    }
    forall k | 0 <= k < |FailingBlocks()|
      ensures BlockBacked(FailingMem(), FailingSpace(), 0, k, FailingOwners())
    {
    }
  }

  lemma FailingJustified(f: nat)
    requires f < 1027
    ensures Justified(FailingMem(), [Block(1026, 1)], [FailingSpace()], FailingOwner(f), f)
  {
    FailingTables(512);
    if 2 <= f < 1026 { FailingLookup(f - 2); }
    hide FailingMem, Lookup, HasTable, Table;
    assert Covers([Block(1026, 1)], f) <==> InBlock([Block(1026, 1)][0], f);
  }

  /** In that state, from which the next block makes the table grow, the page is taken but there is
      no frame for its table, and 349866 entries are recorded though only the old pages are there. */
  lemma GrowthFailure()
    ensures FreeListOk(FailingMem(), 1026, 1, [Block(1026, 1)])
    ensures Inv(FailingMem(), [Block(1026, 1)], [FailingSpace()], FailingOwners())
    ensures FailingSpace().blocks != [] && |FailingSpace().blocks| == FailingSpace().capacity
    ensures Vacant(FailingSpace().blocks, StorageEnd(FailingSpace()), 1) &&
              StorageEnd(FailingSpace()) < FailingSpace().End()
    ensures 1 + Missing(FailingMem(), 0, StorageEnd(FailingSpace()), 1) > 1
    ensures Capacity(NewSize(FailingSpace().capacity)) == 349866 > FailingSpace().capacity == 349525
    ensures !EntriesBacked(FailingSpace().(capacity := 349866))
  {
    FailingRing();
    FailingSpaceOk();
    FailingBlocksOk();
    GrowthIsOnePage(1024);
    FailingTables(513);
    hide FailingBlocks, FailingMem, FreeListOk, SpaceOk, KernelOk, Justified;
    forall f | 0 <= f < 1027
      ensures Justified(FailingMem(), [Block(1026, 1)], [FailingSpace()], FailingOwners()[f], f)
    {
      FailingJustified(f);
    }
    assert OpensMissing(FailingMem(), 0, 513 * PAGES_PER_TABLE, 0);
    assert Missing(FailingMem(), 0, 513 * PAGES_PER_TABLE, 0) == 0;
  }

  // ------------------------------------------------------------ the failing allocation in the text

  /** Some account of the owners fits the state: the pool is what it was. */
  ghost predicate PoolKept(m: Mem, bs: seq<Block>, spaces: seq<Space>, owner: Owners) {
    exists o: Owners :: Inv(m, bs, spaces, o) && Settled(owner, o)
  }

  ghost predicate FramesMovedOn(m: Mem, bs: seq<Block>, spaces: seq<Space>, owner: Owners, kind: Kind, frame: int,
                                count: nat) {
    exists o: Owners :: Inv(m, bs, spaces, o) && MovedOn(owner, o, kind, frame, count)
  }

  /** Directories and tables in order are not free, so their words have not been written. */
  lemma LookupStays(m: Mem, m': Mem, bs': seq<Block>, spaces: seq<Space>, o': Owners, s: nat, u: nat)
    requires Inv(m', bs', spaces, o') && OnlyFreeWritten(m, m', bs') && s < |spaces|
    requires spaces[s].Start() <= u < spaces[s].End()
    ensures Lookup(m', spaces[s].dir, u) == Lookup(m, spaces[s].dir, u)
  {
    assert SpaceOk(m', bs', spaces[s], s, o');
    var i := u / PAGES_PER_TABLE;
    assert spaces[s].lo <= i < spaces[s].hi;
    assert Word(m', spaces[s].dir, i) == Word(m, spaces[s].dir, i);
    if HasTable(m', spaces[s].dir, i) {
      assert !Covers(bs', Table(m', spaces[s].dir, i));
    }
  }

  lemma BlockStays(m: Mem, m': Mem, bs': seq<Block>, spaces: seq<Space>, o': Owners, s: nat, k: nat, f: nat)
    requires Inv(m', bs', spaces, o') && OnlyFreeWritten(m, m', bs') && s < |spaces| && k < |spaces[s].blocks|
    requires BlockHolds(m, spaces[s], k, spaces[s].blocks[k].base, f)
    ensures f < |o'| && o'[f] == OfBlock(s, spaces[s].blocks[k].base)
  {
    var b := spaces[s].blocks[k];
    assert SpaceOk(m', bs', spaces[s], s, o');
    LookupStays(m, m', bs', spaces, o', s, b.base);
    assert BlockBacked(m', spaces[s], s, k, o');
    var frame := FirstFrame(m', spaces[s].dir, b);
    assert PageBacked(m', spaces[s].dir, b.base, f - frame, frame, o', OfBlock(s, b.base));
  }

  lemma TableStays(m: Mem, m': Mem, bs': seq<Block>, spaces: seq<Space>, o': Owners, s: nat, i: nat)
    requires Inv(m', bs', spaces, o') && OnlyFreeWritten(m, m', bs') && s < |spaces|
    requires spaces[s].lo <= i < spaces[s].hi && HasTable(m, spaces[s].dir, i)
    ensures 0 <= Table(m, spaces[s].dir, i) < |o'| && o'[Table(m, spaces[s].dir, i)] == OfTable(s, i)
  {
    assert SpaceOk(m', bs', spaces[s], s, o');
    assert Word(m', spaces[s].dir, i) == Word(m, spaces[s].dir, i);
    assert HasTable(m', spaces[s].dir, i) && Table(m', spaces[s].dir, i) == Table(m, spaces[s].dir, i);
  }

  /** While only pages that are free afterwards are written and the spaces are the same, a frame of
      a block, a table, a directory or the kernel's table keeps its owner in every account. */
  lemma OwnerStays(m: Mem, bs: seq<Block>, o: Owners, m': Mem, bs': seq<Block>, o': Owners, spaces: seq<Space>, f: nat)
    requires Inv(m, bs, spaces, o) && Inv(m', bs', spaces, o') && OnlyFreeWritten(m, m', bs') && f < |o|
    ensures |o'| == |o| && (Loose(o[f]) || o[f] == Outside || o'[f] == o[f])
  {
    assert Justified(m, bs, spaces, o[f], f);
    match o[f] {
      case OfBlock(s, base) =>
        var k :| 0 <= k < |spaces[s].blocks| && BlockHolds(m, spaces[s], k, base, f);
        BlockStays(m, m', bs', spaces, o', s, k, f);
      case OfTable(s, i) =>
        TableStays(m, m', bs', spaces, o', s, i);
      case OfDir(s) =>
        assert SpaceOk(m', bs', spaces[s], s, o');
      case OfStorage(j) =>
        StorageInSpace(m', bs', spaces, o', j);
        LookupStays(m, m', bs', spaces, o', 0, spaces[0].Start() + j);
        assert StoragePage(m', spaces[0], o', j);
      case _ =>
    }
  }

  lemma StorageInSpace(m: Mem, bs: seq<Block>, spaces: seq<Space>, owner: Owners, j: nat)
    requires Inv(m, bs, spaces, owner) && spaces[0].blocks != [] && j < spaces[0].blocks[|spaces[0].blocks| - 1].len
    ensures spaces[0].Start() + j < spaces[0].End()
  {
    assert SpaceOk(m, bs, spaces[0], 0, owner);
  }

  /** If frames that nobody had given up are free afterwards, no account fits: the pool has grown,
      or the frames have two owners. */
  lemma NoAccountFits(m: Mem, bs: seq<Block>, o: Owners, m': Mem, bs': seq<Block>, spaces: seq<Space>, f: nat,
                      kind: Kind, frame: nat, count: nat)
    requires Inv(m, bs, spaces, o) && OnlyFreeWritten(m, m', bs') && f < |o| && !Loose(o[f]) && Covers(bs', f)
    requires kind == Memory ==> !(frame <= f < frame + count)
    ensures !FramesMovedOn(m', bs', spaces, o, kind, frame, count) && !PoolKept(m', bs', spaces, o)
  {
    forall o': Owners | Inv(m', bs', spaces, o')
      ensures !MovedOn(o, o', kind, frame, count) && !Settled(o, o')
    {
      OwnerStays(m, bs, o, m', bs', o', spaces, f);
      FreeIsFree(m', bs', spaces, o', f);
    }
  }

  lemma FreeIsFree(m: Mem, bs: seq<Block>, spaces: seq<Space>, owner: Owners, f: nat)
    requires Inv(m, bs, spaces, owner) && Covers(bs, f)
    ensures f < |owner| && owner[f] == FreePage
  {
    assert Justified(m, bs, spaces, owner[f], f);
  }

  lemma FitsWhere(sp: Space, v: int, i: nat, count: nat)
    requires Fits(sp, v, i, count)
    ensures sp.Start() <= v && v + count <= sp.End() && count >= 1
  {
  }

  lemma UnfreeRange(m: Mem, bs: seq<Block>, spaces: seq<Space>, owner: Owners, frame: nat, count: nat)
    requires Inv(m, bs, spaces, owner) && frame + count <= |owner|
    requires forall f :: frame <= f < frame + count ==> owner[f] != FreePage
    ensures Absent(bs, frame, count) && |m| == |owner|
  {
    forall f | frame <= f < frame + count
      ensures !Covers(bs, f)
    {
      assert Justified(m, bs, spaces, owner[f], f);
    }
  }

  lemma FreedRange(m: Mem, bs: seq<Block>, spaces: seq<Space>, owner: Owners, frame: nat, count: nat)
    requires Inv(m, bs, spaces, owner) && frame + count <= |owner|
    requires forall f :: frame <= f < frame + count ==> owner[f] == FreePage
    ensures forall f :: frame <= f < frame + count ==> Covers(bs, f)
  {
    forall f | frame <= f < frame + count
      ensures Covers(bs, f)
    {
      assert Justified(m, bs, spaces, owner[f], f);
    }
  }

  lemma AccountedFor(m: Mem, bs: seq<Block>, spaces: seq<Space>, o0: Owners, o: Owners, kind: Kind, frame: nat,
                     count: nat)
    requires Inv(m, bs, spaces, o) && MovedOn(o0, o, kind, frame, count)
    ensures FramesMovedOn(m, bs, spaces, o0, kind, frame, count)
  {
  }

  /** Tables made on the way are no matter for the accounts of other frames. */
  lemma SameAccounts(m: Mem, bs: seq<Block>, spaces: seq<Space>, o0: Owners, o: Owners, kind: Kind, frame: nat,
                     count: nat)
    requires Settled(o0, o) && kind != Memory
    ensures FramesMovedOn(m, bs, spaces, o0, kind, frame, count) ==> FramesMovedOn(m, bs, spaces, o, kind, frame, count)
    ensures PoolKept(m, bs, spaces, o0) ==> PoolKept(m, bs, spaces, o)
  {
    if FramesMovedOn(m, bs, spaces, o0, kind, frame, count) {
      var o' :| Inv(m, bs, spaces, o') && MovedOn(o0, o', kind, frame, count);
      assert MovedOn(o, o', kind, frame, count);
    }
    if PoolKept(m, bs, spaces, o0) {
      var o' :| Inv(m, bs, spaces, o') && Settled(o0, o');
      assert Settled(o, o');
    }
  }

  /** The range v..v+count has been unmapped with the directory's tables still there, and since then
      only pages that are free now have been written. */
  ghost predicate UnmappedThenFreed(m: Mem, m': Mem, bs': seq<Block>, dir: nat, v: nat, count: nat) {
    exists u: Mem :: Unmapped(m, u, dir, v, count) && DirGrew(m, u, dir) && OnlyFreeWritten(u, m', bs')
  }

  lemma FreedAfter(m: Mem, u: Mem, m': Mem, bs': seq<Block>, dir: nat, v: nat, count: nat)
    requires Unmapped(m, u, dir, v, count) && DirGrew(m, u, dir) && OnlyFreeWritten(u, m', bs')
    ensures UnmappedThenFreed(m, m', bs', dir, v, count)
  {
  }

  lemma NothingWritten(m: Mem, bs: seq<Block>)
    ensures OnlyFreeWritten(m, m, bs)
  {
  }

  lemma UnmappedFurther(m0: Mem, m1: Mem, m2: Mem, bs: seq<Block>, dir: nat, v: nat, count: nat, reached: nat)
    requires WalkedTo(m0, m1, dir, v, count, reached) && DirGrew(m0, m1, dir)
    requires UnmappedThenFreed(m1, m2, bs, dir, v, count)
    ensures UnmappedThenFreed(m0, m2, bs, dir, v, count)
  {
    hide WalkedTo, UnmappedTo, DirGrew, OnlyFreeWritten;
    var u: Mem :| Unmapped(m1, u, dir, v, count) && DirGrew(m1, u, dir) && OnlyFreeWritten(u, m2, bs);
    var done: nat :| UnmappedTo(m1, u, dir, v, count, done);
    WalkedOn(m0, m1, u, dir, v, count, reached, done);
    UnmappedIs(m0, u, dir, v, count, done);
    GrewTrans(m0, m1, u, dir);
    FreedAfter(m0, u, m2, bs, dir, v, count);
  }

  /** Lines 310-314 as written: the range is unmapped and the frames are released, whoever they
      belong to. */
  method FailPathAsWritten(vm: VirtualMemory, s: nat, v: nat, i: nat, kind: Kind, frame: nat, count: nat)
    requires vm.Valid() && s < |vm.spaces| && Fits(vm.spaces[s], v, i, count) && frame + count <= |vm.owner|
    requires forall f :: frame <= f < frame + count ==>
               if kind == Memory then vm.owner[f] == Pending else !Loose(vm.owner[f])
    modifies vm`owner, vm.pm
    ensures vm.pm.Valid() && vm.spaces == old(vm.spaces)
    ensures forall f :: frame <= f < frame + count ==> Covers(vm.pm.blocks, f)
    ensures kind == Memory ==> vm.Valid() && MovedOn(old(vm.owner), vm.owner, kind, frame, count)
    ensures kind != Memory ==> !PoolKept(vm.pm.mem, vm.pm.blocks, vm.spaces, old(vm.owner))
    ensures FramesMovedOn(vm.pm.mem, vm.pm.blocks, vm.spaces, old(vm.owner), kind, frame, count) <==> kind == Memory
    ensures UnmappedThenFreed(old(vm.pm.mem), vm.pm.mem, vm.pm.blocks, vm.spaces[s].dir, v, count)
  {
    hide Inv, Fits, Missing, Lookup, OthersTranslateAlike, TranslatesAlike, FramesMovedOn, PoolKept, Undisturbed;
    hide DirGrew, UnmappedTo, UnmappedThenFreed;
    FittingIsVacant(vm.pm.mem, vm.pm.blocks, vm.spaces, s, vm.owner, v, i, count);
    FitsWhere(vm.spaces[s], v, i, count);
    ghost var o0 := vm.owner;
    ghost var m0 := vm.pm.mem;
    ghost var done := vm.Unmap(s, v, i, count);
    ghost var m, bs, o := vm.pm.mem, vm.pm.blocks, vm.owner;
    DirHasGrown(m0, m, vm.spaces, s, s);
    UnmapSettles(o0, o);
    UnfreeRange(m, bs, vm.spaces, o, frame, count);
    InsertMeets(bs, frame, count);
    if kind == Memory {
      vm.GiveFrames(frame, count);
      FreedRange(vm.pm.mem, vm.pm.blocks, vm.spaces, vm.owner, frame, count);
      AccountedFor(vm.pm.mem, vm.pm.blocks, vm.spaces, o0, vm.owner, kind, frame, count);
    } else {
      vm.pm.FreePhysPages(frame, count);
      assert Covers(vm.pm.blocks, frame);
      NoAccountFits(m, bs, o, vm.pm.mem, vm.pm.blocks, vm.spaces, frame, kind, frame, count);
      SameAccounts(vm.pm.mem, vm.pm.blocks, vm.spaces, o0, o, kind, frame, count);
    }
    UnmappedIs(m0, m, vm.spaces[s].dir, v, count, done);
    FreedAfter(m0, m, vm.pm.mem, vm.pm.blocks, vm.spaces[s].dir, v, count);
  }

  lemma UnmapSettles(o0: Owners, o: Owners)
    requires |o| == |o0| && forall f :: 0 <= f < |o| && o[f] != o0[f] ==> o0[f] == FreePage && o[f].OfTable?
    ensures Settled(o0, o)
  {
  }

  /** A physical address a caller may pass: fresh frames asked for, or frames that are neither free
      nor between owners. */
  ghost predicate CallersFrames(owner: Owners, paddr: int, count: nat) {
    paddr == FreeRing.NONE ||
    (0 <= paddr && paddr + count <= |owner| && forall f :: paddr <= f < paddr + count ==> !Loose(owner[f]))
  }

  /** Space s has a block more, mapped to the caller's frames. */
  ghost predicate BlockEntered(m: Mem, spaces: seq<Space>, spaces': seq<Space>, s: nat, i: nat, v: nat, count: nat,
                               frame: int, flags: nat) {
    && s < |spaces| && s < |spaces'|
    && EntryAdded(spaces[s], spaces'[s], s, i, VBlock(IoMemory, v, count))
    && MapsRange(m, spaces'[s].dir, v, count, frame, flags)
  }

  /** Lines 237-322 with the fail path as written. The pool is what it was exactly when the frames
      were fresh, no address was found, or the block could be entered, which the state before the
      call decides. */
  method AllocVirtPagesAsWritten(vm: VirtualMemory, s: nat, vaddr: nat, paddr: int, count: nat, flags: nat)
    returns (r: nat, recorded: bool, ghost v: nat, ghost i: nat)
    requires vm.Valid() && s < |vm.spaces| && count >= 1 && flags < PAGE_SIZE && paddr >= FreeRing.NONE
    requires CallersFrames(vm.owner, paddr, count)
    modifies vm, vm.pm
    ensures Chosen(old(vm.spaces)[s], vaddr, count, v, i)
    ensures PoolKept(vm.pm.mem, vm.pm.blocks, vm.spaces, old(vm.owner)) <==>
              || paddr == FreeRing.NONE || v == NULL
              || Succeeds(old(vm.spaces), s, old(vm.pm.mem), old(vm.pm.blocks), old(vm.pm.freeCount), v, paddr, count)
    ensures !PoolKept(vm.pm.mem, vm.pm.blocks, vm.spaces, old(vm.owner)) ==>
              forall f :: paddr <= f < paddr + count ==> Covers(vm.pm.blocks, f)
    ensures recorded <==>
              Succeeds(old(vm.spaces), s, old(vm.pm.mem), old(vm.pm.blocks), old(vm.pm.freeCount), v, paddr, count)
    ensures recorded && paddr != FreeRing.NONE ==>
              BlockEntered(vm.pm.mem, old(vm.spaces), vm.spaces, s, i, v, count, paddr, flags)
    ensures !recorded && r == v ==> vm.pm.mem == old(vm.pm.mem) && vm.pm.blocks == old(vm.pm.blocks)
    ensures !recorded && r != v ==>
              UnmappedThenFreed(old(vm.pm.mem), vm.pm.mem, vm.pm.blocks, old(vm.spaces)[s].dir, v, count)
  {
    hide Undisturbed, Unmapped, UnmappedThenFreed, WalkedTo, DirGrew, OnlyFreeWritten, GrownOk;
    hide Inv, Missing, PoolKept, FramesMovedOn, OthersTranslateAlike, OwnKept, TablesHeld, Lookup, RoomMade, Succeeds,
         RoomAfter, EntryAdded;
    if paddr == FreeRing.NONE {
      r, recorded, v, i := vm.AllocVirtPages(s, vaddr, paddr, count, flags);
      PoolOf(vm.pm.mem, vm.pm.blocks, vm.spaces, old(vm.owner), vm.owner);
      NothingWritten(vm.pm.mem, vm.pm.blocks);
      if !recorded && r != v {
        DirHasGrown(old(vm.pm.mem), vm.pm.mem, old(vm.spaces), s, s);
        FreedAfter(old(vm.pm.mem), vm.pm.mem, vm.pm.mem, vm.pm.blocks, vm.spaces[s].dir, v, count);
      }
      return;
    }
    ghost var m0, o0, sp := vm.pm.mem, vm.owner, vm.spaces;
    var at;
    r, at := vm.ChooseAddress(s, vaddr, count);
    v, i := r, at;
    recorded := false;
    if r != NULL {
      ChosenFits(vm.spaces[s], vaddr, count, r, at);
      OwnSucceeds(sp, s, vm.pm.mem, vm.pm.blocks, vm.pm.freeCount, r, paddr, count);
      ghost var reached;
      recorded, reached := vm.MapWithRoom(s, r, at, paddr, count, flags);
      if recorded {
        EntryMade(sp[s], vm.spaces[s], s, at, VBlock(IoMemory, r, count));
        vm.Install(s, r, at, IoMemory, paddr, count);
        assert MapsRange(vm.pm.mem, vm.spaces[s].dir, r, count, paddr, flags);
        PoolOf(vm.pm.mem, vm.pm.blocks, vm.spaces, o0, vm.owner);
      } else {
        ghost var o1, m1 := vm.owner, vm.pm.mem;
        FailPathAsWritten(vm, s, r, at, IoMemory, paddr, count);
        DirHasGrown(m0, m1, sp, s, s);
        UnmappedFurther(m0, m1, vm.pm.mem, vm.pm.blocks, sp[s].dir, r, count, reached);
        SameAccounts(vm.pm.mem, vm.pm.blocks, vm.spaces, o0, o1, IoMemory, paddr, count);
        r := NULL;
      }
    } else {
      NoAddress(sp, s, vm.pm.mem, vm.pm.blocks, vm.pm.freeCount, paddr, count);
      SettledRefl(o0);
      PoolOf(vm.pm.mem, vm.pm.blocks, vm.spaces, o0, vm.owner);
    }
  }

  lemma NoAddress(spaces: seq<Space>, s: nat, m: Mem, bs: seq<Block>, free: int, paddr: int, count: nat)
    requires s < |spaces|
    ensures !Succeeds(spaces, s, m, bs, free, NULL, paddr, count)
  {
  }

  lemma PoolOf(m: Mem, bs: seq<Block>, spaces: seq<Space>, o0: Owners, o: Owners)
    requires Inv(m, bs, spaces, o) && Settled(o0, o)
    ensures PoolKept(m, bs, spaces, o0)
  {
  }

  lemma ChosenFits(sp: Space, vaddr: nat, count: nat, v: nat, i: nat)
    requires Chosen(sp, vaddr, count, v, i) && v != NULL
    ensures Fits(sp, v, i, count)
  {
  }

  /** A directory in frame 0 of an empty memory, with two frames free. */
  lemma EmptyDirectory(m: Mem, bs: seq<Block>)
    requires |m| == 16 && bs == Insert([], 1, 2) && forall j :: Word(m, 0, j) == 0
    ensures TablesOk(m, bs, 0, 512, 1023) && Total(bs) == 2
    ensures Missing(m, 0, 512 * PAGES_PER_TABLE, 1) == 1
    ensures !Covers(bs, 10) && !IsTable(m, 0, 512, 1023, 10)
  {
    assert bs == [Block(1, 2)];
    assert bs[1..] == [];
    assert Missing(m, 0, 512 * PAGES_PER_TABLE, 0) == 0;
    assert OpensMissing(m, 0, 512 * PAGES_PER_TABLE, 0);
    assert forall i :: !HasTable(m, 0, i);
  }

  lemma NothingFree()
    ensures Absent([], 1, 2)
  {
  }

  lemma EmptyBut(zeros: Mem, m: Mem, bs: seq<Block>)
    requires |zeros| == 16 && (forall p, j :: Word(zeros, p, j) == 0) && bs == Insert([], 1, 2) &&
               OnlyFreeWritten(zeros, m, bs)
    ensures |m| == 16 && forall j :: Word(m, 0, j) == 0
  {
    assert bs == [Block(1, 2)];
    assert !Covers(bs, 0);
  }

  lemma MissingThere(m: Mem)
    requires Word(m, 0, 513) == 0
    ensures Missing(m, 0, 513 * PAGES_PER_TABLE, 1) == 1
  {
    assert Missing(m, 0, 513 * PAGES_PER_TABLE, 0) == 0;
    assert OpensMissing(m, 0, 513 * PAGES_PER_TABLE, 0);
  }

  lemma FirstSpaceHasRoom(at: nat, v: nat, i: nat)
    requires 512 * PAGES_PER_TABLE < at < 1000 * PAGES_PER_TABLE && Chosen(FirstSpace(0, 512, 1023), at, 1, v, i)
    ensures v == at && FirstSpace(0, 512, 1023).dir == 0
    ensures |FirstSpace(0, 512, 1023).blocks| < FirstSpace(0, 512, 1023).capacity
  {
    var sp := FirstSpace(0, 512, 1023);
    assert sp.blocks == [VBlock(Reserved, 512 * PAGES_PER_TABLE, 1)];
    assert Vacant(sp.blocks, at, 1);
  }

  /** A kernel booted with two free frames, both needed for its own table: nothing is left, only the
      first page table is there, and page 10 is outside. */
  method BootWithTwoFrames() returns (pm: PhysMemory, vm: VirtualMemory)
    ensures fresh(pm) && fresh(vm) && vm.pm == pm && vm.Valid() && pm.freeCount == 0
    ensures vm.spaces == [FirstSpace(0, 512, 1023)] && |vm.owner| == 16 && vm.owner[10] == Outside
    ensures Word(pm.mem, 0, 513) == 0
  {
    hide Inv, TablesOk, IsTable, Missing, FreeListOk, Covers, Insert, Total, FirstSpace, Lookup, TablesHeld, Absent;
    var zeros := seq(16, _ => seq(WORDS_PER_FRAME, _ => 0));
    pm := new PhysMemory(zeros);
    NothingFree();
    pm.FreePhysPages(1, 2);
    EmptyBut(zeros, pm.mem, pm.blocks);
    EmptyDirectory(pm.mem, pm.blocks);
    FreeListCounts(pm.mem, pm.freeHead, pm.freeCount, pm.blocks);
    vm := new VirtualMemory(pm, 0, 512, 1023);
  }

  /** A device page 10 is asked for at an address whose page table is missing. The call fails, and
      afterwards the device page is free memory by every account. */
  method DevicePageFailure() returns (pm: PhysMemory, vm: VirtualMemory, ghost before: Owners)
    ensures vm.pm == pm && |before| == 16 && before[10] == Outside
    ensures !PoolKept(pm.mem, pm.blocks, vm.spaces, before) && Covers(pm.blocks, 10)
  {
    hide Inv, Missing, FreeListOk, Covers, Chosen, FirstSpace, Lookup, PoolKept;
    pm, vm := BootWithTwoFrames();
    MissingThere(pm.mem);
    before := vm.owner;
    var r, recorded, v, i := AllocVirtPagesAsWritten(vm, 0, 513 * PAGES_PER_TABLE, 10, 1, WRITABLE);
    FirstSpaceHasRoom(513 * PAGES_PER_TABLE, v, i);
  }

  // ------------------------------------------------------------ a user table as exchanged in the text

  /** Lines 278-288 and 302 as written for the table of user space s: whatever address comes back is
      taken for the new table. The table is in a kernel block of its own afterwards exactly when a
      run of free frames was long enough for it; otherwise nothing is behind the address, and the
      old table is gone all the same. */
  method GrowUserTableAsWritten(vm: VirtualMemory, s: nat) returns (took: bool, ghost v: nat, ghost i: nat)
    requires vm.Valid() && 0 < s < |vm.spaces| && TablesHeld(vm.spaces)
    modifies vm, vm.pm
    ensures vm.Valid() && |vm.spaces| == |old(vm.spaces)|
    ensures Chosen(old(vm.spaces)[0], NULL, NewSize(old(vm.spaces)[s].capacity), v, i)
    ensures !took ==> vm.spaces == old(vm.spaces)
    ensures took ==>
              && v != NULL && vm.spaces[s].table == v
              && vm.spaces[s].capacity == Capacity(NewSize(old(vm.spaces)[s].capacity))
              && (TableHeld(vm.spaces[0].blocks, vm.spaces[s]) <==>
                    FirstFit(old(vm.pm.blocks), NewSize(old(vm.spaces)[s].capacity)) < |old(vm.pm.blocks)|)
    ensures v != NULL && FirstFit(old(vm.pm.blocks), NewSize(old(vm.spaces)[s].capacity)) == |old(vm.pm.blocks)| ==>
              took
  {
    hide Inv, Chosen, EntryAdded, TablesHeld, TableHeld, TableExchanged, FirstFit, Capacity, NewSize, EnoughFrames,
         Missing, Lookup, RemoveAt;
    vm.CountFitsHere(s);
    vm.KernelDescends();
    NewSizeHoldsMore(vm.spaces[s].capacity);
    var size := NewSize(vm.spaces[s].capacity);
    ghost var sp0 := vm.spaces;
    var newTable, recorded;
    newTable, recorded, v, i := vm.AllocVirtPages(0, NULL, FreeRing.NONE, size, WRITABLE);
    took := newTable != NULL;
    if took {
      FittingIsChosen(sp0[0], size, v, i);
      var oldTable := vm.spaces[s].table;
      ghost var sp1 := vm.spaces;
      vm.SwapTable(s, Capacity(size), newTable);
      vm.KernelDescends();
      ghost var sp2 := vm.spaces;
      var found, k := vm.FreeVirtPages(0, oldTable);
      OldTableFound(sp1, sp2, s, oldTable);
      if recorded {
        HeldAfterExchange(sp0, sp1, s, i, v, size, sp2, k);
        HeldAt(vm.spaces, s);
      } else {
        NoBlockBehind(sp2[0].blocks, k, v, vm.spaces[s]);
      }
    }
  }

  lemma HeldAt(spaces: seq<Space>, s: nat)
    requires TablesHeld(spaces) && 0 < s < |spaces|
    ensures TableHeld(spaces[0].blocks, spaces[s])
  {
  }

  /** No block at an address before a block is dropped, none afterwards. */
  lemma NoBlockBehind(bs: seq<VBlock>, k: nat, v: int, sp: Space)
    requires NoBaseAt(bs, v) && k < |bs| && sp.table == v
    ensures !TableHeld(RemoveAt(bs, k), sp)
  {
  }

  // ------------------------------------------------------------ the release in the text

  /** The kernel's table is not dropped in a state that is in order. */
  lemma ReservedStays(m: Mem, bs: seq<Block>, o: Owners, m': Mem, bs': seq<Block>, o': Owners, spaces: seq<Space>,
                      k: nat)
    requires Inv(m, bs, spaces, o) && k < |spaces[0].blocks|
    requires Inv(m', bs', WithBlocks(spaces, 0, RemoveAt(spaces[0].blocks, k)), o')
    ensures k + 1 < |spaces[0].blocks|
  {
    var sp := spaces[0];
    assert SpaceOk(m, bs, sp, 0, o);
    assert KernelOk(m', sp.(blocks := RemoveAt(sp.blocks, k)), o');
  }

  lemma BlockStaysDropped(m: Mem, m': Mem, bs': seq<Block>, o': Owners, spaces: seq<Space>, s: nat, k: nat, t: nat,
                          j: nat, f: nat)
    requires s < |spaces| && k < |spaces[s].blocks| && t < |spaces| && j < |spaces[t].blocks| && !(t == s && j == k)
    requires Inv(m', bs', WithBlocks(spaces, s, RemoveAt(spaces[s].blocks, k)), o') && OnlyFreeWritten(m, m', bs')
    requires BlockHolds(m, spaces[t], j, spaces[t].blocks[j].base, f)
    ensures f < |o'| && o'[f] == OfBlock(t, spaces[t].blocks[j].base)
  {
    hide Inv, OnlyFreeWritten, Lookup;
    var spaces' := WithBlocks(spaces, s, RemoveAt(spaces[s].blocks, k));
    var at := if t == s && j > k then j - 1 else j;
    assert spaces'[t].blocks[at] == spaces[t].blocks[j];
    BlockStays(m, m', bs', spaces', o', t, at, f);
  }

  lemma StorageStaysDropped(m: Mem, bs: seq<Block>, o: Owners, m': Mem, bs': seq<Block>, o': Owners,
                            spaces: seq<Space>, s: nat, k: nat, j: nat)
    requires Inv(m, bs, spaces, o) && s < |spaces| && k < |spaces[s].blocks|
    requires Inv(m', bs', WithBlocks(spaces, s, RemoveAt(spaces[s].blocks, k)), o') && OnlyFreeWritten(m, m', bs')
    requires spaces[0].blocks != [] && j < spaces[0].blocks[|spaces[0].blocks| - 1].len
    ensures var f := FrameOf(Lookup(m, spaces[0].dir, spaces[0].Start() + j)); 0 <= f < |o'| && o'[f] == OfStorage(j)
  {
    hide Inv, Lookup, OnlyFreeWritten, WithBlocks, RemoveAt;
    var spaces' := WithBlocks(spaces, s, RemoveAt(spaces[s].blocks, k));
    if s == 0 { ReservedStays(m, bs, o, m', bs', o', spaces, k); }
    SameReserved(spaces, s, k);
    DroppedShape(spaces, s, k, 0);
    StorageInSpace(m', bs', spaces', o', j);
    LookupStays(m, m', bs', spaces', o', 0, spaces'[0].Start() + j);
    StorageAt(m', bs', spaces', o', j);
  }

  lemma SameReserved(spaces: seq<Space>, s: nat, k: nat)
    requires s < |spaces| && k < |spaces[s].blocks| && spaces[0].blocks != [] && (s == 0 ==> k + 1 < |spaces[0].blocks|)
    ensures var bs := WithBlocks(spaces, s, RemoveAt(spaces[s].blocks, k))[0].blocks;
            bs != [] && bs[|bs| - 1] == spaces[0].blocks[|spaces[0].blocks| - 1]
  {
  }

  lemma StorageAt(m: Mem, bs: seq<Block>, spaces: seq<Space>, owner: Owners, j: nat)
    requires Inv(m, bs, spaces, owner) && spaces[0].blocks != [] && j < spaces[0].blocks[|spaces[0].blocks| - 1].len
    ensures var f := FrameOf(Lookup(m, spaces[0].dir, spaces[0].Start() + j));
            0 <= f < |owner| && owner[f] == OfStorage(j)
  {
    assert StoragePage(m, spaces[0], owner, j);
  }

  lemma DirStays(m: Mem, bs: seq<Block>, spaces: seq<Space>, owner: Owners, t: nat)
    requires Inv(m, bs, spaces, owner) && t < |spaces|
    ensures spaces[t].dir < |owner| && owner[spaces[t].dir] == OfDir(t)
  {
    assert SpaceOk(m, bs, spaces[t], t, owner);
  }

  /** OwnerStays when block k of space s has been dropped, for frames of everything else. */
  lemma OwnerStaysDropped(m: Mem, bs: seq<Block>, o: Owners, m': Mem, bs': seq<Block>, o': Owners, spaces: seq<Space>,
                          s: nat, k: nat, f: nat)
    requires Inv(m, bs, spaces, o) && s < |spaces| && k < |spaces[s].blocks| && f < |o|
    requires Inv(m', bs', WithBlocks(spaces, s, RemoveAt(spaces[s].blocks, k)), o') && OnlyFreeWritten(m, m', bs')
    ensures |o'| == |o|
    ensures Loose(o[f]) || o[f] == Outside || o[f] == OfBlock(s, spaces[s].blocks[k].base) || o'[f] == o[f]
  {
    hide Inv, OnlyFreeWritten, Lookup, Covers, WithBlocks, RemoveAt;
    JustifiedAt(m, bs, spaces, o, f);
    SameLength(m, bs, o, m', bs', o', spaces, s, k);
    match o[f] {
      case OfBlock(t, base) =>
        var j :| 0 <= j < |spaces[t].blocks| && BlockHolds(m, spaces[t], j, base, f);
        if !(t == s && j == k) { BlockStaysDropped(m, m', bs', o', spaces, s, k, t, j, f); }
      case OfTable(t, i) =>
        DroppedShape(spaces, s, k, t);
        TableStays(m, m', bs', WithBlocks(spaces, s, RemoveAt(spaces[s].blocks, k)), o', t, i);
      case OfDir(t) =>
        DroppedShape(spaces, s, k, t);
        DirStays(m', bs', WithBlocks(spaces, s, RemoveAt(spaces[s].blocks, k)), o', t);
      case OfStorage(j) =>
        StorageStaysDropped(m, bs, o, m', bs', o', spaces, s, k, j);
      case _ =>
    }
  }

  lemma SameLength(m: Mem, bs: seq<Block>, o: Owners, m': Mem, bs': seq<Block>, o': Owners, spaces: seq<Space>,
                   s: nat, k: nat)
    requires Inv(m, bs, spaces, o) && s < |spaces| && k < |spaces[s].blocks|
    requires Inv(m', bs', WithBlocks(spaces, s, RemoveAt(spaces[s].blocks, k)), o') && OnlyFreeWritten(m, m', bs')
    ensures |o'| == |o|
  {
  }

  lemma DroppedShape(spaces: seq<Space>, s: nat, k: nat, t: nat)
    requires s < |spaces| && k < |spaces[s].blocks| && t < |spaces|
    ensures var spaces' := WithBlocks(spaces, s, RemoveAt(spaces[s].blocks, k));
            && |spaces'| == |spaces| && spaces'[t].dir == spaces[t].dir && spaces'[t].lo == spaces[t].lo
            && spaces'[t].hi == spaces[t].hi
  {
  }

  lemma NoAccountDropped(m: Mem, bs: seq<Block>, o: Owners, m': Mem, bs': seq<Block>, spaces: seq<Space>, s: nat,
                         k: nat, f: nat)
    requires Inv(m, bs, spaces, o) && s < |spaces| && k < |spaces[s].blocks| && OnlyFreeWritten(m, m', bs')
    requires f < |o| && !Loose(o[f]) && o[f] != OfBlock(s, spaces[s].blocks[k].base) && Covers(bs', f)
    ensures !PoolKept(m', bs', WithBlocks(spaces, s, RemoveAt(spaces[s].blocks, k)), o)
  {
    var spaces' := WithBlocks(spaces, s, RemoveAt(spaces[s].blocks, k));
    forall o': Owners | Inv(m', bs', spaces', o')
      ensures !Settled(o, o')
    {
      OwnerStaysDropped(m, bs, o, m', bs', o', spaces, s, k, f);
      FreeIsFree(m', bs', spaces', o', f);
    }
  }

  /** With the frames of the block itself released, the pool is accounted for. */
  lemma OwnFramesReleased(m: Mem, bs: seq<Block>, o: Owners, m': Mem, bs': seq<Block>, spaces: seq<Space>, s: nat,
                          k: nat)
    requires Inv(m, bs, spaces, o) && s < |spaces| && CanDrop(spaces[s], k) && spaces[s].blocks[k].kind == Memory
    requires var b := spaces[s].blocks[k];
             && OnlyFreeWritten(m, m', bs')
             && forall p :: Covers(bs', p) <==>
                  Covers(bs, p) || FirstFrame(m, spaces[s].dir, b) <= p < FirstFrame(m, spaces[s].dir, b) + b.len
    ensures PoolKept(m', bs', WithBlocks(spaces, s, RemoveAt(spaces[s].blocks, k)), o)
  {
    var b := spaces[s].blocks[k];
    var spaces' := WithBlocks(spaces, s, RemoveAt(spaces[s].blocks, k));
    var o1 := Dropped(m, spaces[s], b, o);
    var frame := FirstFrame(m, spaces[s].dir, b);
    DroppedThenFreed(m, bs, spaces, s, k, o);
    InvKeptDropping(m, bs, spaces, s, k, o);
    var o2 := Given(o1, frame, b.len, FreePage);
    hide Inv, Dropped, FirstFrame, RemoveAt, WithBlocks, Covers, OnlyFreeWritten, OnlyLooseWritten, LooseMove;
    GivenIsLoose(m, bs, m', bs', spaces', o1, o2, frame, b.len);
    InvKeptLoose(m, bs, m', bs', spaces', o1, o2);
    PoolOf(m', bs', spaces', o, o2);
  }

  /** What line 336 takes for the frames of the block are in memory and not free already. */
  ghost predicate Releasable(m: Mem, dir: nat, b: VBlock, v: nat, owner: Owners) {
    var first := FrameOf(Lookup(m, dir, v));
    0 <= first && first + b.len <= |owner| && forall f :: first <= f < first + b.len ==> !Loose(owner[f])
  }

  /** Lines 324-350 as written: whatever the kind of the block, as many frames as it has pages are
      released from the one at the given address on. The pool is accounted for afterwards exactly
      when the block is a memory block and the address its base. */
  method FreeVirtPagesAsWritten(vm: VirtualMemory, s: nat, v: nat) returns (ok: bool, ghost k: nat)
    requires vm.Valid() && s < |vm.spaces|
    requires forall j :: 0 <= j < |vm.spaces[s].blocks| && Contains(vm.spaces[s].blocks[j], v) ==>
               Releasable(vm.pm.mem, vm.spaces[s].dir, vm.spaces[s].blocks[j], v, vm.owner)
    modifies vm`spaces, vm.pm
    ensures !ok ==> vm.Valid() && vm.spaces == old(vm.spaces)
    ensures !ok ==> forall j :: 0 <= j < |vm.spaces[s].blocks| ==> !Contains(vm.spaces[s].blocks[j], v)
    ensures ok ==>
              && k < |old(vm.spaces)[s].blocks| && Contains(old(vm.spaces)[s].blocks[k], v)
              && vm.spaces == WithBlocks(old(vm.spaces), s, RemoveAt(old(vm.spaces)[s].blocks, k))
              && (PoolKept(vm.pm.mem, vm.pm.blocks, vm.spaces, old(vm.owner)) <==>
                    old(vm.spaces)[s].blocks[k].kind == Memory && old(vm.spaces)[s].blocks[k].base == v)
              && forall f :: InRange(f, FrameOf(Lookup(old(vm.pm.mem), old(vm.spaces)[s].dir, v)),
                   old(vm.spaces)[s].blocks[k].len) ==>
                   Covers(vm.pm.blocks, f)
  {
    hide Inv, Lookup, PoolKept, Insert, WithBlocks, RemoveAt, OwnsRange;
    ghost var m, bs, o, sp := vm.pm.mem, vm.pm.blocks, vm.owner, vm.spaces;
    var i := FindBlock(vm.spaces[s].blocks, v);
    k := i;
    if i == |vm.spaces[s].blocks| {
      return false, k;
    }
    ok := true;
    var b := vm.spaces[s].blocks[i];
    BlockFacts(m, bs, sp, o, s, i);
    var entry := GetPageInfo(vm.pm, vm.spaces[s].dir, v);
    ghost var first := FrameOf(Lookup(m, sp[s].dir, v));
    assert Releasable(m, sp[s].dir, b, v, o);
    UnfreeRange(m, bs, sp, o, first, b.len);
    InsertMeets(bs, first, b.len);
    vm.pm.FreePhysPages(FrameOf(entry), b.len);
    vm.spaces := WithBlocks(vm.spaces, s, RemoveAt(vm.spaces[s].blocks, i));
    HandedBackIff(m, bs, sp, o, s, i, v);
    if b.kind == Memory && v == b.base {
      OwnFramesReleased(m, bs, o, vm.pm.mem, vm.pm.blocks, sp, s, i);
    } else {
      var f := NotOwned(o, first, b.len, OfBlock(s, b.base));
      NoAccountDropped(m, bs, o, vm.pm.mem, vm.pm.blocks, sp, s, i, f);
    }
  }

  lemma BlockFacts(m: Mem, bs: seq<Block>, spaces: seq<Space>, owner: Owners, s: nat, k: nat)
    requires Inv(m, bs, spaces, owner) && s < |spaces| && k < |spaces[s].blocks|
    ensures spaces[s].blocks[k].base >= 0 && spaces[s].blocks[k].len >= 1
  {
    assert SpaceOk(m, bs, spaces[s], s, owner);
    assert BlockBacked(m, spaces[s], s, k, owner);
  }

  lemma NotOwned(owner: Owners, first: int, len: nat, tag: Owner) returns (f: nat)
    requires 0 <= first && first + len <= |owner| && !OwnsRange(owner, first, len, tag)
    ensures first <= f < first + len && owner[f] != tag
  {
    f :| InRange(f, first, len) && owner[f] != tag;
  }

  /** The first page of the kernel's table is mapped, so its page table is there. */
  lemma FirstTableThere(m: Mem, bs: seq<Block>, owner: Owners)
    requires Inv(m, bs, [FirstSpace(0, 512, 1023)], owner)
    ensures HasTable(m, 0, 512)
  {
    var spaces := [FirstSpace(0, 512, 1023)];
    StorageAt(m, bs, spaces, owner, 0);
    DirStays(m, bs, spaces, owner, 0);
  }

  lemma NextPageSucceeds(m: Mem, bs: seq<Block>, v: nat, i: nat)
    requires HasTable(m, 0, 512) && Chosen(FirstSpace(0, 512, 1023), 512 * PAGES_PER_TABLE + 1, 1, v, i)
    ensures v == 512 * PAGES_PER_TABLE + 1
    ensures Succeeds([FirstSpace(0, 512, 1023)], 0, m, bs, 0, v, 10, 1)
  {
    FirstSpaceHasRoom(512 * PAGES_PER_TABLE + 1, v, i);
    MissingOne(m, 0, v);
  }

  /** The block just entered is the only one at its address, and its page is the device's. */
  lemma DeviceBlock(m: Mem, kernel: Space, i: nat, frame: int, owner: Owners)
    requires EntryAdded(FirstSpace(0, 512, 1023), kernel, 0, i, VBlock(IoMemory, 512 * PAGES_PER_TABLE + 1, 1))
    requires MapsRange(m, kernel.dir, 512 * PAGES_PER_TABLE + 1, 1, 10, WRITABLE) && |owner| == 16 && !Loose(owner[10])
    ensures i < |kernel.blocks| && Contains(kernel.blocks[i], 512 * PAGES_PER_TABLE + 1) &&
              kernel.blocks[i].kind == IoMemory
    ensures forall j :: 0 <= j < |kernel.blocks| && Contains(kernel.blocks[j], 512 * PAGES_PER_TABLE + 1) ==> j == i
    ensures FrameOf(Lookup(m, kernel.dir, 512 * PAGES_PER_TABLE + 1)) == 10 && kernel.blocks[i].len == 1
    ensures Releasable(m, kernel.dir, kernel.blocks[i], 512 * PAGES_PER_TABLE + 1, owner)
  {
    hide Lookup;
    EntryIsThere(FirstSpace(0, 512, 1023), kernel, i, VBlock(IoMemory, 512 * PAGES_PER_TABLE + 1, 1));
    assert MapsWith(m, kernel.dir, 512 * PAGES_PER_TABLE + 1, 0, 10, WRITABLE);
  }

  /** A device page is mapped and released again: afterwards it is free memory by every account. */
  method DeviceReleaseFailure() returns (pm: PhysMemory, vm: VirtualMemory, ghost before: Owners)
    ensures vm.pm == pm && |before| == 16 && before[10] == Outside
    ensures !PoolKept(pm.mem, pm.blocks, vm.spaces, before) && Covers(pm.blocks, 10)
  {
    hide Inv, Missing, FreeListOk, Covers, Chosen, FirstSpace, Lookup, PoolKept, Succeeds, EntryAdded, MapsRange,
         Releasable, HasTable;
    pm, vm := BootWithTwoFrames();
    before := vm.owner;
    ghost var m, bs := pm.mem, pm.blocks;
    FirstTableThere(m, bs, before);
    var r, recorded, v, i := vm.AllocVirtPages(0, 512 * PAGES_PER_TABLE + 1, 10, 1, WRITABLE);
    NextPageSucceeds(m, bs, v, i);
    DeviceBlock(pm.mem, vm.spaces[0], i, 10, vm.owner);
    ghost var o1 := vm.owner;
    var ok, k := FreeVirtPagesAsWritten(vm, 0, r);
    SameAccounts(pm.mem, pm.blocks, vm.spaces, before, o1, IoMemory, 10, 1);
    assert InRange(10, 10, 1);
  }
}
