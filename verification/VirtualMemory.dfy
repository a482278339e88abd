/** `alloc_virt_pages` and `free_virt_pages` of memory_manager.c over the kernel's and any
    number of other address spaces, and the conservation of frames across all three layers. */
module VirtualMemory {
  import opened BlockList
  import opened Frames
  import opened PhysicalMemory
  import opened PageTables
  import opened BlockTable
  import opened Ownership
  import opened OwnershipMoves
  import opened VirtualSteps
  import opened Conservation
  import FreeRing

  /** Directory entries below the kernel's half. */
  const USER_TABLES: nat := 512
  const WRITABLE: nat := PAGE_PRESENT + PAGE_WRITABLE
  /** Line 77 of multitasking.c. */
  const WRITABLE_GLOBAL: nat := PAGE_PRESENT + PAGE_WRITABLE + PAGE_GLOBAL

  /** Line 46: a fresh page at the start of the kernel's space. */
  method MapFirstPage(pm: PhysMemory, dir: nat, lo: nat, hi: nat) returns (ghost frame: nat)
    requires pm.Valid() && TablesOk(pm.mem, pm.blocks, dir, lo, hi) && lo < hi && pm.freeCount >= 2
    modifies pm
    ensures pm.Valid() && TablesOk(pm.mem, pm.blocks, dir, lo, hi) && |pm.mem| == old(|pm.mem|)
    ensures forall p :: Covers(pm.blocks, p) ==> 0 <= p < |pm.mem|
    ensures FrameOf(Lookup(pm.mem, dir, lo * PAGES_PER_TABLE)) == frame < |pm.mem|
    ensures Lookup(pm.mem, dir, lo * PAGES_PER_TABLE) % 4096 == 3
    ensures !Covers(pm.blocks, frame) && frame != dir && !IsTable(pm.mem, dir, lo, hi, frame)
    ensures forall f :: Covers(old(pm.blocks), f) ==>
              Covers(pm.blocks, f) || f == frame || IsTable(pm.mem, dir, lo, hi, f)
    ensures forall f :: Covers(pm.blocks, f) || f == frame ==> Covers(old(pm.blocks), f)
    ensures forall f :: IsTable(pm.mem, dir, lo, hi, f) ==>
              Covers(old(pm.blocks), f) || IsTable(old(pm.mem), dir, lo, hi, f)
    ensures pm.freeCount == old(pm.freeCount) - 1 - Missing(old(pm.mem), dir, lo * PAGES_PER_TABLE, 1)
    ensures forall j: nat :: j != lo ==> Word(pm.mem, dir, j) == Word(old(pm.mem), dir, j)
  {
    hide TablesOk, Extends, FrameTaken, IsTable, Lookup, EntryWord, Missing, FreeListOk, OnlyFreeWritten, Covers,
         Carve, CarvedPage, FirstFit, Word;
    ghost var m0, b0 := pm.mem, pm.blocks;
    FitForOne(m0, pm.freeHead, pm.freeCount, b0);
    FreeListCounts(m0, pm.freeHead, pm.freeCount, b0);
    var a := pm.AllocPhysPages(1);
    FitForOne(pm.mem, pm.freeHead, pm.freeCount, pm.blocks);
    FirstFrameTaken(m0, b0, pm.mem, pm.blocks, dir, lo, hi);
    frame := a;
    ghost var m1, b1 := pm.mem, pm.blocks;
    DirUntouched(m0, b0, m1, b1, dir, lo, hi, frame);
    SameWordsSameMissing(m0, m1, dir, lo * PAGES_PER_TABLE, 1);
    OneMissing(m0, dir, lo * PAGES_PER_TABLE);
    var ok, done := MapPages(pm, dir, lo * PAGES_PER_TABLE, a * PAGE_SIZE, 1, WRITABLE, lo, hi);
    FirstOfTable(lo);
    AlignedEntry(a, WRITABLE);
    FlagsOf(a, WRITABLE);
    FirstPageMapped(m0, b0, m1, b1, pm.mem, pm.blocks, dir, lo, hi, frame);
    FitForOne(pm.mem, pm.freeHead, pm.freeCount, pm.blocks);
    CoveredWithin(pm.blocks, |pm.mem|);
  }

  class VirtualMemory {
    const pm: PhysMemory
    var spaces: seq<Space>
    ghost var owner: Owners

    ghost predicate Valid()
      reads this, pm
    {
      pm.Valid() && Inv(pm.mem, pm.blocks, spaces, owner)
    }

    /** Lines 38-50: the kernel's space, its table in one fresh page at the start. The frames
        to hand out must be there; the source does not test for them. */
    constructor (pm: PhysMemory, dir: nat, lo: nat, hi: nat)
      requires pm.Valid() && TablesOk(pm.mem, pm.blocks, dir, lo, hi) && lo < hi && pm.freeCount >= 2
      modifies pm
      ensures Valid() && this.pm == pm && spaces == [FirstSpace(dir, lo, hi)]
      ensures spaces == [Space(dir, lo, hi, 341, lo * 1024, [VBlock(Reserved, lo * 1024, 1)])]
      ensures Lookup(pm.mem, dir, lo * 1024) % 4096 == 3
      ensures forall f :: 0 <= f < |owner| ==> owner[f] != Pending
      ensures forall f :: 0 <= f < |owner| && Covers(old(pm.blocks), f) ==> owner[f] != Outside
      ensures forall f ::
                0 <= f < |owner| && !Covers(old(pm.blocks), f) && f != dir && !IsTable(old(pm.mem), dir, lo, hi, f) ==>
                  owner[f] == Outside
      ensures |owner| == old(|pm.mem|) && TablesHeld(spaces)
      ensures pm.freeCount == old(pm.freeCount) - 1 - Missing(old(pm.mem), dir, lo * PAGES_PER_TABLE, 1)
      ensures forall j: nat :: j != lo ==> Word(pm.mem, dir, j) == Word(old(pm.mem), dir, j)
    {
      this.pm := pm;
      spaces := [FirstSpace(dir, lo, hi)];
      new;
      ghost var frame := MapFirstPage(pm, dir, lo, hi);
      FirstInv(pm.mem, pm.blocks, dir, lo, hi, frame);
      owner := FirstOwners(pm.mem, pm.blocks, spaces[0], frame);
    }

    lemma OneFits()
      requires Valid()
      ensures FirstFit(pm.blocks, 1) == |pm.blocks| <==> pm.freeCount == 0
    {
    }

    /** A single page comes from the first run. */
    lemma SingleNext()
      requires Valid()
      ensures pm.blocks != [] ==>
                && FirstFit(pm.blocks, 1) == 0 && pm.blocks[0].size >= 1
                && TakeSingle(pm.blocks) == Carve(pm.blocks, 0, 1)
      ensures pm.blocks == [] <==> pm.freeCount == 0
    {
      FitForOne(pm.mem, pm.freeHead, pm.freeCount, pm.blocks);
      if pm.blocks != [] { SingleTaken(pm.blocks); }
    }

    lemma BlockIsOne(s: nat, i: nat, v: int)
      requires Valid() && s < |spaces| && i < |spaces[s].blocks| && Contains(spaces[s].blocks[i], v)
      ensures forall j :: 0 <= j < |spaces[s].blocks| && Contains(spaces[s].blocks[j], v) ==> j == i
      ensures spaces[s].blocks[i].base >= 0
    {
      assert SpaceOk(pm.mem, pm.blocks, spaces[s], s, owner);
      OnlyOneContains(spaces[s].blocks, i, v);
      assert BlockBacked(pm.mem, spaces[s], s, i, owner);
    }

    lemma FitsHere(s: nat, v: nat, i: nat, count: nat)
      requires Valid() && s < |spaces| && Fits(spaces[s], v, i, count)
      ensures Vacant(spaces[s].blocks, v, count) && count >= 1
      ensures spaces[s].Start() <= v && v + count <= spaces[s].End()
    {
      FittingIsVacant(pm.mem, pm.blocks, spaces, s, owner, v, i, count);
    }

    lemma CountFitsHere(s: nat)
      requires Valid() && s < |spaces|
      ensures |spaces[s].blocks| <= spaces[s].capacity
    {
      CountFits(pm.mem, pm.blocks, spaces, s, owner);
    }

    /** The kernel's table has room for more entries when it is a page longer. */
    lemma GrowsByEntries()
      requires Valid()
      ensures spaces != [] && spaces[0].blocks != []
      ensures |Enlarged(spaces[0]).blocks| == |spaces[0].blocks| <= spaces[0].capacity < Enlarged(spaces[0]).capacity
    {
      assert SpaceOk(pm.mem, pm.blocks, spaces[0], 0, owner);
      GrowthIsOnePage(spaces[0].blocks[|spaces[0].blocks| - 1].len);
    }

    lemma KernelDescends()
      requires Valid()
      ensures spaces != [] && Descending(spaces[0].blocks)
    {
      assert SpaceOk(pm.mem, pm.blocks, spaces[0], 0, owner);
    }

    lemma KernelIsThere()
      requires Valid()
      ensures spaces != [] && spaces[0].blocks != [] && spaces[0].blocks[|spaces[0].blocks| - 1].kind == Reserved
      ensures StorageEnd(spaces[0]) >= 0
    {
    }

    /** alloc_phys_pages: the frames are pending until somebody claims them. */
    method TakeFrames(count: nat) returns (frame: int)
      requires Valid() && count >= 1
      modifies this`owner, pm
      ensures Valid()
      ensures frame == FreeRing.NONE <==> FirstFit(old(pm.blocks), count) == |old(pm.blocks)|
      ensures frame == FreeRing.NONE ==> owner == old(owner) && pm.mem == old(pm.mem) && pm.blocks == old(pm.blocks)
      ensures frame != FreeRing.NONE ==>
                && 0 <= frame && frame + count <= |owner|
                && owner == Given(old(owner), frame, count, Pending)
                && (forall f :: frame <= f < frame + count ==> old(owner)[f] == FreePage)
      ensures AllTranslateAlike(old(pm.mem), pm.mem, spaces) && DirsAlike(old(pm.mem), pm.mem, spaces)
      ensures pm.freeCount == old(pm.freeCount) - if frame == FreeRing.NONE then 0 else count
      ensures frame != FreeRing.NONE ==> pm.blocks == Carve(old(pm.blocks), FirstFit(old(pm.blocks), count), count)
    {
      frame := pm.AllocPhysPages(count);
      ghost var m, bs := old(pm.mem), old(pm.blocks);
      if frame != FreeRing.NONE {
        TakenAreFree(m, bs, spaces, owner, FirstFit(bs, count), count);
        ghost var owner' := Given(owner, frame, count, Pending);
        TakenIsLoose(m, bs, pm.mem, pm.blocks, spaces, owner, owner', FirstFit(bs, count), count);
        LooseTranslateAlike(m, bs, pm.mem, spaces, owner);
        InvKeptLoose(m, bs, pm.mem, pm.blocks, spaces, owner, owner');
        owner := owner';
      }
    }

    /** free_phys_pages of frames that are pending. */
    method GiveFrames(frame: nat, count: nat)
      requires Valid() && count >= 1 && frame + count <= |owner|
      requires forall f :: frame <= f < frame + count ==> owner[f] == Pending
      modifies this`owner, pm
      ensures Valid()
      ensures owner == Given(old(owner), frame, count, FreePage)
      ensures AllTranslateAlike(old(pm.mem), pm.mem, spaces) && DirsAlike(old(pm.mem), pm.mem, spaces)
      ensures OnlyFreeWritten(old(pm.mem), pm.mem, pm.blocks)
    {
      ghost var m, bs := pm.mem, pm.blocks;
      PendingIsAbsent(m, bs, spaces, owner, frame, count);
      InsertMeets(bs, frame, count);
      pm.FreePhysPages(frame, count);
      ghost var owner' := Given(owner, frame, count, FreePage);
      GivenIsLoose(m, bs, pm.mem, pm.blocks, spaces, owner, owner', frame, count);
      LooseTranslateAlike(m, bs, pm.mem, spaces, owner);
      InvKeptLoose(m, bs, pm.mem, pm.blocks, spaces, owner, owner');
      owner := owner';
    }

    /** map_pages of a range that meets no block. `done` pages have been mapped; at the next a table
        was missing and no frame was left for it. */
    method MapInto(s: nat, v: nat, page: nat, count: nat, flags: nat) returns (ok: bool, ghost done: nat)
      requires Valid() && s < |spaces| && Vacant(spaces[s].blocks, v, count)
      requires spaces[s].Start() <= v && v + count <= spaces[s].End() && flags < PAGE_SIZE
      modifies this`owner, pm
      ensures Valid() && |owner| == |old(owner)|
      ensures forall f :: 0 <= f < |owner| && owner[f] != old(owner)[f] ==>
                old(owner)[f] == FreePage && owner[f].OfTable?
      ensures KeepsOwners(old(owner), owner) && Settled(old(owner), owner)
      ensures OthersTranslateAlike(old(pm.mem), pm.mem, spaces, s)
      ensures TranslatesAlike(old(pm.mem), pm.mem, spaces[s], v, count)
      ensures Undisturbed(old(pm.mem), pm.mem, spaces, s)
      ensures WalkedTo(old(pm.mem), pm.mem, spaces[s].dir, v, count, done) && (ok <==> done == count)
      ensures !ok ==> !HasTable(pm.mem, spaces[s].dir, (v + done) / PAGES_PER_TABLE)
      ensures forall j :: 0 <= j < done ==>
                MapsTo(pm.mem, spaces[s].dir, v, j, page) && MapsWith(pm.mem, spaces[s].dir, v, j, page, flags)
      ensures ok <==> Missing(old(pm.mem), spaces[s].dir, v, count) <= old(pm.freeCount)
      ensures ok ==>
                && pm.freeCount == old(pm.freeCount) - Missing(old(pm.mem), spaces[s].dir, v, count)
                && pm.blocks == TakeSingles(old(pm.blocks), Missing(old(pm.mem), spaces[s].dir, v, count))
                && TablesCame(old(pm.mem), pm.mem, spaces[s].dir, v, count)
      ensures OtherDirsAlike(old(pm.mem), pm.mem, spaces, s)
    {
      hide OtherDirsAlike, TablesCame, TakeSingles, HasTable, Missing, Lookup, EntryWord, TablesMarked, Extends,
           TablesOk, OthersTranslateAlike, Undisturbed, DirGrew, TablesThere;
      ghost var m, bs := pm.mem, pm.blocks;
      assert SpaceOk(m, bs, spaces[s], s, owner);
      ok, done := MapPages(pm, spaces[s].dir, v, page * PAGE_SIZE, count, flags, spaces[s].lo, spaces[s].hi);
      ghost var owner' := Marked(m, bs, pm.mem, pm.blocks, spaces[s], s, owner);
      assert MapEffect(m, bs, pm.mem, pm.blocks, spaces[s], v, count);
      hide Inv;
      InvKeptMapping(m, bs, pm.mem, pm.blocks, spaces, s, owner, owner', v, count);
      MappedFrame(m, bs, pm.mem, pm.blocks, spaces, s, owner, owner');
      owner := owner';
      ExtendsGrew(m, bs, pm.mem, pm.blocks, spaces[s].dir, spaces[s].lo, spaces[s].hi);
      MappingUndisturbed(m, pm.mem, spaces, s, v, count);
      MappedThere(pm.mem, spaces[s].dir, v, page, done, flags);
      if ok {
        TablesHaveCome(m, pm.mem, spaces[s].dir, v, count);
      }
    }

    // ---------------------------------------------------------- freeing

    /** Lines 324-350, with line 335 comparing and the block's base looked up. A reserved block
        stays. The entry leaves the table before its frames go back; both happen under the
        lock of the space. */
    method FreeVirtPages(s: nat, v: int) returns (ok: bool, ghost k: nat)
      requires Valid() && s < |spaces|
      modifies this, pm
      ensures Valid() && Settled(old(owner), owner)
      ensures ok ==>
                && k < |old(spaces)[s].blocks| && Contains(old(spaces)[s].blocks[k], v)
                && old(spaces)[s].blocks[k].kind != Reserved
                && spaces == WithBlocks(old(spaces), s, RemoveAt(old(spaces)[s].blocks, k))
                && (forall f :: 0 <= f < |owner| ==>
                      owner[f] ==
                        if old(owner)[f] == OfBlock(s, old(spaces)[s].blocks[k].base) then FreePage
                        else old(owner)[f])
      ensures TablesHeld(old(spaces)) && !InTableBlock(old(spaces), s, v) ==> TablesHeld(spaces)
      ensures !ok ==>
                && spaces == old(spaces) && owner == old(owner)
                && pm.mem == old(pm.mem) && pm.blocks == old(pm.blocks)
      ensures !ok ==> forall j :: 0 <= j < |spaces[s].blocks| && Contains(spaces[s].blocks[j], v) ==>
                spaces[s].blocks[j].kind == Reserved
      ensures AllTranslateAlike(old(pm.mem), pm.mem, spaces) && DirsAlike(old(pm.mem), pm.mem, spaces)
    {
      hide Valid, Inv, Settled, AllTranslateAlike, TablesHeld, InTableBlock, WithBlocks, RemoveAt, Lookup;
      NothingHappened(pm.mem, spaces, s, 0, 0, owner);
      AlikeRefl(pm.mem, spaces, 0, 0);
      var i := FindBlock(spaces[s].blocks, v);
      k := i;
      ok := false;
      if i < |spaces[s].blocks| {
        BlockIsOne(s, i, v);
        if spaces[s].blocks[i].kind != Reserved {
          ghost var o0, b := owner, spaces[s].blocks[i];
          if TablesHeld(spaces) && !InTableBlock(spaces, s, v) { HeldAfterRelease(spaces, s, i, v); }
          DropBlock(s, i);
          DroppedSettles(o0, owner, OfBlock(s, b.base));
          ok := true;
        }
      }
    }

    /** Lines 335-339. */
    method DropBlock(s: nat, k: nat)
      requires Valid() && s < |spaces| && CanDrop(spaces[s], k)
      modifies this, pm
      ensures Valid() && |owner| == |old(owner)|
      ensures spaces == WithBlocks(old(spaces), s, RemoveAt(old(spaces)[s].blocks, k))
      ensures forall f :: 0 <= f < |owner| ==>
                owner[f] ==
                  if old(owner)[f] == OfBlock(s, old(spaces)[s].blocks[k].base) then FreePage
                  else old(owner)[f]
      ensures AllTranslateAlike(old(pm.mem), pm.mem, spaces) && DirsAlike(old(pm.mem), pm.mem, spaces)
    {
      hide Inv, Lookup, AllTranslateAlike, DirsAlike, WithBlocks, RemoveAt, Word;
      var b := spaces[s].blocks[k];
      DroppedThenFreed(pm.mem, pm.blocks, spaces, s, k, owner);
      InvKeptDropping(pm.mem, pm.blocks, spaces, s, k, owner);
      var entry := GetPageInfo(pm, spaces[s].dir, b.base);
      owner := Dropped(pm.mem, spaces[s], b, owner);
      spaces := WithBlocks(spaces, s, RemoveAt(spaces[s].blocks, k));
      GiveBack(FrameOf(entry), b);
    }

    method GiveBack(frame: int, b: VBlock)
      requires Valid() && b.len >= 1
      requires b.kind == Memory ==>
                 && 0 <= frame && frame + b.len <= |owner|
                 && forall f :: frame <= f < frame + b.len ==> owner[f] == Pending
      modifies this`owner, pm
      ensures Valid()
      ensures owner == if b.kind == Memory then Given(old(owner), frame, b.len, FreePage) else old(owner)
      ensures AllTranslateAlike(old(pm.mem), pm.mem, spaces) && DirsAlike(old(pm.mem), pm.mem, spaces)
    {
      if b.kind == Memory {
        GiveFrames(frame, b.len);
      }
    }

    // ---------------------------------------------------------- allocating

    /** Lines 243-265. NULL where the request cannot be met: unlike the text, a NULL request
        does not go below the start of the space. */
    method ChooseAddress(s: nat, vaddr: nat, count: nat) returns (v: nat, i: nat)
      requires Valid() && s < |spaces| && count >= 1
      ensures Chosen(spaces[s], vaddr, count, v, i)
    {
      var sp := spaces[s];
      assert SpaceOk(pm.mem, pm.blocks, sp, s, owner);
      if vaddr == NULL {
        var w;
        w, i := FindGap(sp.blocks, sp.End(), count);
        v := if w >= sp.Start() then w else NULL;
      } else {
        var ok;
        ok, i := CheckRequest(sp.blocks, sp.Start(), sp.End(), vaddr, count);
        v := if ok then vaddr else NULL;
      }
    }

    /** Lines 304-309. */
    method Install(s: nat, v: nat, i: nat, kind: Kind, frame: nat, count: nat)
      requires Valid() && s < |spaces| && |spaces[s].blocks| < spaces[s].capacity
      requires Fits(spaces[s], v, i, count) && kind != Reserved
      requires forall j :: 0 <= j < count ==> MapsTo(pm.mem, spaces[s].dir, v, j, frame)
      requires kind == Memory ==> PendingRange(owner, frame, count)
      modifies this
      ensures Valid() && |owner| == |old(owner)|
      ensures spaces == WithBlocks(old(spaces), s, InsertAt(old(spaces)[s].blocks, i, VBlock(kind, v, count)))
      ensures owner == if kind == Memory then Given(old(owner), frame, count, OfBlock(s, v)) else old(owner)
    {
      var b := VBlock(kind, v, count);
      assert MapsTo(pm.mem, spaces[s].dir, v, 0, frame);
      if kind == Memory {
        forall j | 0 <= j < count
          ensures PageBacked(pm.mem, spaces[s].dir, v, j, frame, owner, Pending)
        {
          assert MapsTo(pm.mem, spaces[s].dir, v, j, frame);
          assert owner[frame + j] == Pending;
        }
      }
      InvKeptEntering(pm.mem, pm.blocks, spaces, s, b, i, owner);
      owner := Entered(pm.mem, spaces[s], s, b, owner);
      spaces := WithBlocks(spaces, s, InsertAt(spaces[s].blocks, i, b));
    }

    /** Line 312: every entry of the range that has a table is made not present. */
    method Unmap(s: nat, v: nat, i: nat, count: nat) returns (ghost done: nat)
      requires Valid() && s < |spaces| && Fits(spaces[s], v, i, count)
      modifies this`owner, pm
      ensures Valid() && KeepsOwners(old(owner), owner) && |owner| == |old(owner)|
      ensures forall f :: 0 <= f < |owner| && owner[f] != old(owner)[f] ==>
                old(owner)[f] == FreePage && owner[f].OfTable?
      ensures OthersTranslateAlike(old(pm.mem), pm.mem, spaces, s)
      ensures TranslatesAlike(old(pm.mem), pm.mem, spaces[s], v, count)
      ensures UnmappedTo(old(pm.mem), pm.mem, spaces[s].dir, v, count, done)
      ensures Undisturbed(old(pm.mem), pm.mem, spaces, s)
    {
      hide Valid, Inv, Vacant, Fits, Missing, MapsTo, Lookup, Settled, OtherDirsAlike, TablesCame, TakeSingles;
      hide OthersTranslateAlike, TranslatesAlike, AllTranslateAlike, Undisturbed, HasTable;
      FitsHere(s, v, i, count);
      ghost var m := pm.mem;
      var ok;
      ok, done := MapInto(s, v, 0, count, 0);
      ZeroWalk(m, pm.mem, spaces[s].dir, v, count, done);
    }

    /** Lines 311-314: the range is unmapped as far as there are tables, and the frames go
        back if this call had taken them. */
    method Undo(s: nat, v: nat, i: nat, kind: Kind, frame: nat, count: nat) returns (ghost done: nat)
      requires Valid() && s < |spaces| && Fits(spaces[s], v, i, count)
      requires kind == Memory ==> PendingRange(owner, frame, count)
      modifies this`owner, pm
      ensures Valid() && |owner| == |old(owner)|
      ensures forall f :: 0 <= f < |owner| ==>
                if kind == Memory && frame <= f < frame + count then owner[f] == FreePage
                else owner[f] == old(owner)[f] || (old(owner)[f] == FreePage && owner[f].OfTable?)
      ensures KeepsOwners(old(owner), owner)
      ensures OthersTranslateAlike(old(pm.mem), pm.mem, spaces, s)
      ensures TranslatesAlike(old(pm.mem), pm.mem, spaces[s], v, count)
      ensures UnmappedTo(old(pm.mem), pm.mem, spaces[s].dir, v, count, done)
      ensures Undisturbed(old(pm.mem), pm.mem, spaces, s)
    {
      hide Valid, Inv, Vacant, Fits, Missing, MapsTo, MapsWith, Lookup, Settled, OtherDirsAlike, TablesCame,
           TakeSingles;
      hide OthersTranslateAlike, TranslatesAlike, AllTranslateAlike, Undisturbed, UnmappedTo, DirsAlike;
      ghost var m0 := pm.mem;
      done := Unmap(s, v, i, count);
      if kind == Memory {
        ghost var m1 := pm.mem;
        FitsWithin(spaces[s], v, i, count);
        GiveFrames(frame, count);
        AlikeOn(m0, m1, pm.mem, spaces, s, v, count);
        AllAlikeUndisturbed(m1, pm.mem, spaces, s);
        UndisturbedTrans(m0, m1, pm.mem, spaces, s);
        FitsInside(spaces[s], v, i, count);
        StillUnmapped(m0, m1, pm.mem, spaces, s, v, count, done);
      }
    }

    /** Lines 289-298: a pending frame mapped at the page above the kernel's table. */
    method BackStorage(g: nat) returns (ok: bool)
      requires Valid() && StorageEnd(spaces[0]) == g && Vacant(spaces[0].blocks, g, 1)
      requires spaces[0].Start() <= g < spaces[0].End()
      modifies this`owner, pm
      ensures Valid() && |owner| == |old(owner)|
      ensures ok ==> CanGrow(pm.mem, spaces[0], owner) && Settled(old(owner), GrownOwners(pm.mem, spaces[0], owner))
      ensures !ok ==> Settled(old(owner), owner)
      ensures KeepsOwners(old(owner), owner)
      ensures TranslatesAlike(old(pm.mem), pm.mem, spaces[0], g, 1)
      ensures OthersTranslateAlike(old(pm.mem), pm.mem, spaces, 0)
      ensures ok <==> old(pm.freeCount) >= 1 + Missing(old(pm.mem), spaces[0].dir, g, 1)
      ensures ok ==> Lookup(pm.mem, spaces[0].dir, g) % 4096 == 3
      ensures !ok ==> TranslatesAlike(old(pm.mem), pm.mem, spaces[0], 0, 0)
      ensures Undisturbed(old(pm.mem), pm.mem, spaces, 0)
    {
      hide Valid, Inv, FirstFit, Given, Settled, Missing, DirsAlike, OthersTranslateAlike, AllTranslateAlike,
           TranslatesAlike, Lookup, Undisturbed, WalkedTo, HasTable;
      KernelIsThere();
      ok := false;
      ghost var sp, m0 := spaces[0], pm.mem;
      AlikeRefl(m0, spaces, g, 1);
      AlikeRefl(m0, spaces, 0, 0);
      OneFits();
      var page := TakeFrames(1);
      if page != FreeRing.NONE {
        ghost var o1, m1 := owner, pm.mem;
        SameMissing(m0, m1, spaces, 0, g, 1);
        AllAlikeUndisturbed(m0, m1, spaces, 0);
        ghost var done;
        ok, done := MapInto(0, g, page, 1, WRITABLE);
        PassedOn(old(owner), o1, owner, page, 1);
        ghost var m2 := pm.mem;
        UndisturbedTrans(m0, m1, m2, spaces, 0);
        AlikeRefl(m2, spaces, g, 1);
        if ok {
          assert MapsTo(pm.mem, sp.dir, g, 0, page) && MapsWith(pm.mem, sp.dir, g, 0, page, 3);
          FlagsOf(page, 3);
          OneFrame(owner, page, OfStorage(sp.blocks[|sp.blocks| - 1].len));
        } else {
          GiveFrames(page, 1);
          AllAlikeUndisturbed(m2, pm.mem, spaces, 0);
          UndisturbedTrans(m0, m2, pm.mem, spaces, 0);
          NoPageMapped(m0, m1, m2, pm.mem, spaces, g, done);
        }
        AlikeThrough(m0, m1, m2, pm.mem, spaces, g, 1);
      } else {
        AlikeThrough(m0, m0, m0, pm.mem, spaces, g, 1);
        UndisturbedRefl(m0, spaces, 0);
        SettledRefl(owner);
      }
    }

    /** Lines 289-302: one page more for the kernel's own table, provided the page above it is
        not in use and not about to be. Unlike the text, the table grows only if that page
        could be mapped. */
    method GrowKernelTable(v: nat, i: nat, count: nat) returns (ok: bool)
      requires Valid() && Fits(spaces[0], v, i, count)
      modifies this, pm
      ensures Valid() && Settled(old(owner), owner)
      ensures !ok ==> spaces == old(spaces)
      ensures ok ==> spaces == old(spaces)[0 := Enlarged(old(spaces)[0])] && Fits(spaces[0], v, i, count)
      ensures RangeKept(old(pm.mem), pm.mem, spaces[0], v, count)
      ensures OthersTranslateAlike(old(pm.mem), pm.mem, spaces, 0)
      ensures KeepsOwners(old(owner), owner)
      ensures TranslatesAlike(old(pm.mem), pm.mem, old(spaces)[0], StorageEnd(old(spaces)[0]), 1)
      ensures ok <==>
                && GrowsHere(old(spaces)[0], v, count)
                && old(pm.freeCount) >= 1 + Missing(old(pm.mem), spaces[0].dir, StorageEnd(old(spaces)[0]), 1)
      ensures ok ==> GrownPageOk(pm.mem, old(spaces)[0])
      ensures !ok ==> TranslatesAlike(old(pm.mem), pm.mem, spaces[0], 0, 0)
      ensures Undisturbed(old(pm.mem), pm.mem, old(spaces), 0)
    {
      hide Settled, KeepsOwners, RangeKept, OthersTranslateAlike, TranslatesAlike, Lookup, Missing, GrownOwners,
           Undisturbed;
      UndisturbedRefl(pm.mem, spaces, 0);
      AlikeRefl(pm.mem, spaces, 0, 0);
      ok := false;
      assert SpaceOk(pm.mem, pm.blocks, spaces[0], 0, owner);
      var g := StorageEnd(spaces[0]);
      NothingHappened(pm.mem, spaces, 0, v, count, owner);
      AlikeRefl(pm.mem, spaces, g, 1);
      var at := FindBlock(spaces[0].blocks, g);
      if g >= spaces[0].End() || v <= g < v + count || at < |spaces[0].blocks| {
        return;
      }
      NoBlockAt(spaces[0].blocks, g);
      ghost var m0, o0 := pm.mem, owner;
      ok := BackStorage(g);
      RangeAround(m0, pm.mem, spaces[0], v, count, g);
      if ok {
        InvKeptGrowing(pm.mem, pm.blocks, spaces, owner);
        GrownFits(spaces[0], v, i, count);
        GrownFromPending(pm.mem, spaces[0], o0, owner);
        OthersWhenGrown(m0, pm.mem, spaces);
        owner := GrownOwners(pm.mem, spaces[0], owner);
        spaces := spaces[0 := Enlarged(spaces[0])];
      }
    }

    // ---------------------------------------------------------- a new space

    /** init_address_space of multitasking.c lines 72-79 for a directory in a frame of its own,
        cleared first; its table is a kernel block of one page. */
    method AddSpace() returns (ok: bool, ghost v: nat, ghost i: nat)
      requires Valid()
      modifies this, pm
      ensures Valid() && Settled(old(owner), owner) && |spaces| >= |old(spaces)|
      ensures !ok ==> spaces == old(spaces)
      ensures ok ==>
                && |spaces| == |old(spaces)| + 1
                && SameShape(old(spaces), spaces[..|old(spaces)|])
                && (forall t :: 0 < t < |old(spaces)| ==> spaces[t] == old(spaces)[t])
                && spaces[|old(spaces)|] == Space(spaces[|old(spaces)|].dir, 0, 512, 341, v, [])
                && EntryAdded(old(spaces)[0], spaces[0], 0, i, VBlock(Memory, v, 1))
                && MappedFresh(pm.mem, spaces[0].dir, v, 1, 0x103)
                && (forall j :: Word(pm.mem, spaces[|old(spaces)|].dir, j) == 0)
      ensures Undisturbed(old(pm.mem), pm.mem, old(spaces), 0)
      ensures TablesHeld(old(spaces)) ==> TablesHeld(spaces)
      ensures old(pm.freeCount) >= 1 ==> Chosen(old(spaces)[0], NULL, 1, v, i)
      ensures ok <==>
                && old(pm.freeCount) >= 1
                && KernelTakes(old(spaces)[0], old(pm.mem), TakeSingle(old(pm.blocks)), old(pm.freeCount) - 1, v,
                     FreeRing.NONE, 1)
    {
      hide Valid, Inv, Chosen, EntryAdded, FirstFit, AllTranslateAlike, OthersTranslateAlike, DirsAlike, Missing,
           KernelTakes, TakeSingle, Carve, TablesHeld, OwnKept, KeepsOwners, Undisturbed, Unmapped, MapsRange, GrownOk;
      hide Word, Lookup, MappedFresh;
      KernelIsThere();
      KernelDescends();
      OneFits();
      v, i := 0, 0;
      SingleNext();
      ghost var m0, b0 := pm.mem, pm.blocks;
      UndisturbedRefl(m0, spaces, 0);
      ok := false;
      var dir := TakeFrames(1);
      if dir != FreeRing.NONE {
        ghost var o1, m1 := owner, pm.mem;
        var table, recorded;
        OneFits();
        ghost var sp0 := spaces;
        AllAlikeUndisturbed(m0, m1, sp0, 0);
        table, recorded, v, i := AllocVirtPages(0, NULL, FreeRing.NONE, 1, WRITABLE_GLOBAL);
        ghost var m2, sp1 := pm.mem, spaces;
        UndisturbedTrans(m0, m1, m2, sp0, 0);
        KernelDirAlike(m0, m1, sp0);
        SameTakes(m0, m1, sp0[0], TakeSingle(b0), old(pm.freeCount) - 1, v, FreeRing.NONE, 1);
        PassedOn(old(owner), o1, owner, dir, 1);
        if recorded {
          IsMappedFresh(m2, sp0[0].dir, v, 1, 0x103);
          ClearFrame(dir);
          FreshStays(m2, pm.mem, sp0, v, i, 1, 0x103, sp1);
          ShapeAllAlike(m2, pm.mem, sp0, sp1);
          AllAlikeUndisturbed(m2, pm.mem, sp0, 0);
          UndisturbedTrans(m0, m2, pm.mem, sp0, 0);
          if TablesHeld(sp0) {
            FittingIsChosen(sp0[0], 1, v, i);
            HeldWithNewSpace(sp0, spaces, i, v, Space(dir, 0, USER_TABLES, Capacity(1), table, []));
          }
          EnterSpace(Space(dir, 0, USER_TABLES, Capacity(1), table, []));
          ok := true;
        } else {
          GiveFrames(dir, 1);
          AllAlikeUndisturbed(m2, pm.mem, sp0, 0);
          UndisturbedTrans(m0, m2, pm.mem, sp0, 0);
        }
      }
    }

    /** Zeroes a pending frame. */
    method ClearFrame(frame: nat)
      requires Valid() && PendingRange(owner, frame, 1)
      modifies pm
      ensures Valid() && forall i :: Word(pm.mem, frame, i) == 0
      ensures AllTranslateAlike(old(pm.mem), pm.mem, spaces) && DirsAlike(old(pm.mem), pm.mem, spaces)
    {
      ghost var m := pm.mem;
      PendingIsAbsent(m, pm.blocks, spaces, owner, frame, 1);
      CoversInOwners(m, pm.blocks, spaces, owner);
      pm.TempMapPage(frame);
      pm.ZeroWindow();
      RingUntouched(m, pm.mem, pm.freeHead, pm.freeCount, pm.blocks);
      LooseTranslateAlike(m, pm.blocks, pm.mem, spaces, owner);
      InvKeptLoose(m, pm.blocks, pm.mem, pm.blocks, spaces, owner, owner);
    }

    method EnterSpace(sp: Space)
      requires Valid() && PendingRange(owner, sp.dir, 1) && sp.blocks == [] && sp.lo <= sp.hi <= PAGES_PER_TABLE
      requires forall i :: Word(pm.mem, sp.dir, i) == 0
      modifies this
      ensures Valid() && spaces == old(spaces) + [sp] && owner == Given(old(owner), sp.dir, 1, OfDir(|old(spaces)|))
    {
      InvKeptNewSpace(pm.mem, pm.blocks, spaces, owner, sp);
      OneFrame(owner, sp.dir, OfDir(|spaces|));
      owner := owner[sp.dir := OfDir(|spaces|)];
      spaces := spaces + [sp];
    }

    /** Lines 274-288 and 302: a larger table for a user space, in a kernel block of its own;
        the old one is given back. Unlike the text, an address without a block behind it does
        not pass for a new table. */
    method GrowUserTable(s: nat) returns (ok: bool, ghost v: nat, ghost i: nat)
      requires Valid() && 0 < s < |spaces|
      modifies this, pm
      decreases 1, 0
      ensures Valid() && Settled(old(owner), owner) && SameShape(old(spaces), spaces)
      ensures !ok ==> spaces == old(spaces)
      ensures ok ==> spaces[s].blocks == old(spaces)[s].blocks && |spaces[s].blocks| < spaces[s].capacity
      ensures forall t :: 0 < t < |spaces| && t != s ==> spaces[t] == old(spaces)[t]
      ensures TranslatesAlike(old(pm.mem), pm.mem, spaces[s], 0, 0)
      ensures Chosen(old(spaces)[0], NULL, NewSize(old(spaces)[s].capacity), v, i)
      ensures ok <==> TableFits(old(spaces)[0], old(pm.mem), old(pm.blocks), old(pm.freeCount),
                NewSize(old(spaces)[s].capacity))
      ensures !ok ==> KeepsOwners(old(owner), owner)
      ensures TablesHeld(old(spaces)) ==> TablesHeld(spaces)
      ensures ok ==> spaces[s].table == v && spaces[s].capacity == Capacity(NewSize(old(spaces)[s].capacity))
      ensures ok && TablesHeld(old(spaces)) ==>
                && TableExchanged(old(spaces)[0], spaces[0], old(spaces)[s], i, v, NewSize(old(spaces)[s].capacity))
                && forall f :: 0 <= f < |owner| && old(owner)[f] == OfBlock(0, old(spaces)[s].table) ==>
                     owner[f] == FreePage
      ensures ok ==> MappedFresh(pm.mem, spaces[0].dir, v, NewSize(old(spaces)[s].capacity), 3)
      ensures Undisturbed(old(pm.mem), pm.mem, old(spaces), 0)
    {
      hide Valid, Inv, Settled, OthersTranslateAlike, AllTranslateAlike, TranslatesAlike, Chosen, EntryAdded, OwnKept;
      hide Undisturbed, Unmapped, MapsRange, MappedFresh, GrownOk, DirsAlike;
      hide RemoveAt, Contains, WithBlocks, Lookup, Capacity, NewSize, EnoughFrames, FirstFit, TablesHeld,
           TableExchanged, TableHeld, KernelTakes, TableFits;
      CountFitsHere(s);
      KernelDescends();
      var size := NewSize(spaces[s].capacity);
      NewSizeHoldsMore(spaces[s].capacity);
      var newTable;
      ghost var kernel, m0, b0, f0 := spaces[0], pm.mem, pm.blocks, pm.freeCount;
      newTable, ok, v, i := AllocVirtPages(0, NULL, FreeRing.NONE, size, WRITABLE);
      FitsAtChosen(kernel, m0, b0, f0, size, v, i);
      if ok {
        ghost var o1, m1, sp1 := owner, pm.mem, spaces;
        var oldTable := spaces[s].table;
        SwapTable(s, Capacity(size), newTable);
        ghost var sp2 := spaces;
        KernelDescends();
        var found, k := FreeVirtPages(0, oldTable);
        SettledTrans(old(owner), o1, owner);
        if TablesHeld(old(spaces)) {
          FittingIsChosen(old(spaces)[0], size, v, i);
          OldTableFound(sp1, sp2, s, oldTable);
          HeldAfterExchange(old(spaces), sp1, s, i, v, size, sp2, k);
          OldTableBase(sp1[0].blocks[k], old(spaces)[s]);
        }
        if found { WithBlocksShape(sp2, 0, RemoveAt(sp2[0].blocks, k)); } else { SameShapeRefl(sp2); }
        UserTableGrown(old(pm.mem), m1, pm.mem, old(spaces), sp1, s, Capacity(size), newTable, spaces);
        IsMappedFresh(m1, kernel.dir, v, size, 3);
        FreshStays(m1, pm.mem, old(spaces), v, i, size, 3, spaces);
        ShapeAllAlike(m1, pm.mem, old(spaces), spaces);
        AllAlikeUndisturbed(m1, pm.mem, old(spaces), 0);
        UndisturbedTrans(m0, m1, pm.mem, old(spaces), 0);
      } else {
        SameShapeRefl(spaces);
        NothingElse(old(pm.mem), pm.mem, spaces, s);
      }
    }

    method SwapTable(s: nat, capacity: nat, table: int)
      requires Valid() && 0 < s < |spaces| && |spaces[s].blocks| <= capacity
      modifies this`spaces
      ensures Valid() && spaces == old(spaces)[s := old(spaces)[s].(capacity := capacity, table := table)]
    {
      InvKeptCapacity(pm.mem, pm.blocks, spaces, s, capacity, table, owner);
      spaces := spaces[s := spaces[s].(capacity := capacity, table := table)];
    }

    /** Lines 237-322. `vaddr` NULL asks for any address; `paddr` NONE for fresh frames. The
        result is `r`; `recorded` says whether the table has a block for it. */
    method AllocVirtPages(s: nat, vaddr: nat, paddr: int, count: nat, flags: nat)
      returns (r: nat, recorded: bool, ghost v: nat, ghost i: nat)
      requires Valid() && s < |spaces| && count >= 1 && flags < PAGE_SIZE && paddr >= FreeRing.NONE
      modifies this, pm
      decreases if s == 0 then 0 else 1, 4
      ensures Valid() && Settled(old(owner), owner) && SameShape(old(spaces), spaces)
      ensures Chosen(old(spaces)[s], vaddr, count, v, i) && (r == v || r == NULL)
      ensures !recorded ==> spaces == old(spaces)
      ensures recorded ==> r != NULL && EntryAdded(old(spaces)[s], spaces[s], s, i, VBlock(KindFor(paddr), r, count))
      ensures forall t :: 0 < t < |spaces| && t != s ==> spaces[t] == old(spaces)[t]
      ensures s == 0 ==> OthersTranslateAlike(old(pm.mem), pm.mem, spaces, 0)
      ensures recorded ==> exists frame: int ::
                MapsRange(pm.mem, spaces[s].dir, r, count, frame, flags) && (paddr == FreeRing.NONE || frame == paddr)
      ensures r != NULL && !recorded <==>
                v != NULL && paddr == FreeRing.NONE && FirstFit(old(pm.blocks), count) == |old(pm.blocks)|
      ensures recorded <==> Succeeds(old(spaces), s, old(pm.mem), old(pm.blocks), old(pm.freeCount), v, paddr, count)
      ensures s == 0 ==> KeepsOwners(old(owner), owner)
      ensures OwnKept(old(pm.mem), pm.mem, old(spaces)[s], s, v, count)
      ensures TablesHeld(old(spaces)) ==> TablesHeld(spaces)
      ensures Undisturbed(old(pm.mem), pm.mem, old(spaces), s)
      ensures !recorded && r == v ==> pm.mem == old(pm.mem) && pm.blocks == old(pm.blocks) && owner == old(owner)
      ensures !recorded && r != v ==> Unmapped(old(pm.mem), pm.mem, spaces[s].dir, v, count)
      ensures !recorded ==> TranslatesAlike(old(pm.mem), pm.mem, spaces[s], v, count)
      ensures recorded ==> GrownOk(pm.mem, old(spaces)[s], s)
    {
      hide Inv, Missing, DirsAlike, TablesHeld, EntryAdded, RoomAfter, FirstFit, Carve, Undisturbed, Unmapped, GrownOk;
      hide AllTranslateAlike, OthersTranslateAlike, OwnKept, TranslatesAlike, Lookup;
      UndisturbedRefl(pm.mem, spaces, s);
      ghost var m0, b0, f0 := pm.mem, pm.blocks, pm.freeCount;
      var at;
      r, at := ChooseAddress(s, vaddr, count);
      v, i := r, at;
      AllAlike(pm.mem, spaces, s, v, count);
      recorded := false;
      if r != NULL {
        if paddr == FreeRing.NONE {
          var frame := TakeFrames(count);
          if frame != FreeRing.NONE {
            SameRoom(m0, pm.mem, spaces, s, pm.blocks, pm.freeCount, r, count);
            FreshSucceeds(spaces, s, m0, b0, f0, r, count);
            ghost var m1, sp0 := pm.mem, spaces;
            AllAlikeUndisturbed(m0, m1, spaces, s);
            recorded := MapAndEnter(s, r, at, Memory, frame, count, flags);
            UndisturbedTrans(m0, m1, pm.mem, sp0, s);
            SinceTaken(m0, m1, pm.mem, sp0, spaces, s, v, count);
            assert recorded ==> MapsRange(pm.mem, spaces[s].dir, r, count, frame, flags);
            if !recorded {
              UnmappedSince(m0, m1, pm.mem, sp0, s, v, i, count);
              r := NULL;
            }
          } else {
            NoneSucceeds(spaces, s, m0, b0, f0, r, count);
          }
        } else {
          OwnSucceeds(spaces, s, m0, b0, f0, r, paddr, count);
          recorded := MapAndEnter(s, r, at, IoMemory, paddr, count, flags);
          assert recorded ==> MapsRange(pm.mem, spaces[s].dir, r, count, paddr, flags);
          if !recorded { r := NULL; }
        }
      }
    }

    /** Lines 273-303. */
    method MakeRoom(s: nat, v: nat, i: nat, count: nat) returns (ok: bool)
      requires Valid() && s < |spaces| && Fits(spaces[s], v, i, count)
      modifies this, pm
      decreases if s == 0 then 0 else 1, 1
      ensures Valid() && Settled(old(owner), owner) && SameShape(old(spaces), spaces)
      ensures !ok ==> spaces == old(spaces)
      ensures ok ==> |spaces[s].blocks| < spaces[s].capacity && RoomMade(old(spaces)[s], spaces[s], s)
      ensures Fits(spaces[s], v, i, count)
      ensures forall t :: 0 < t < |spaces| && t != s ==> spaces[t] == old(spaces)[t]
      ensures RangeKept(old(pm.mem), pm.mem, spaces[s], v, count)
      ensures s == 0 ==> OthersTranslateAlike(old(pm.mem), pm.mem, spaces, 0)
      ensures ok <==> RoomNow(old(spaces), s, old(pm.mem), old(pm.blocks), old(pm.freeCount), v, count)
      ensures s == 0 || !ok ==> KeepsOwners(old(owner), owner)
      ensures OwnKept(old(pm.mem), pm.mem, old(spaces)[s], s, 0, 0)
      ensures TablesHeld(old(spaces)) ==> TablesHeld(spaces)
      ensures Undisturbed(old(pm.mem), pm.mem, old(spaces), s)
      ensures ok ==> GrownOk(pm.mem, old(spaces)[s], s)
      ensures !ok ==> TranslatesAlike(old(pm.mem), pm.mem, spaces[s], 0, 0)
    {
      hide Valid, Inv, Settled, RoomMade, Fits, RangeKept, OthersTranslateAlike, TranslatesAlike, OwnKept, KeepsOwners;
      hide Undisturbed, MappedFresh, GrownPageOk;
      UndisturbedRefl(pm.mem, spaces, s);
      hide TablesHeld, Chosen, EnoughFrames, TableExchanged, Lookup, Vacant, Missing, RoomNow, GrowsHere, TableFits,
           MissingBeside;
      KernelIsThere();
      CountFitsHere(s);
      NothingHappened(pm.mem, spaces, s, v, count, owner);
      RoomToSpare(spaces[s], s);
      RoomIs(spaces, s, pm.mem, pm.blocks, pm.freeCount, v, count);
      ghost var m, before := pm.mem, spaces;
      ok := true;
      if |spaces[s].blocks| == spaces[s].capacity {
        if s != 0 {
          ghost var w, k;
          ok, w, k := GrowUserTable(s);
          UndisturbedFor(m, pm.mem, before, s);
          if ok { UserRoomMade(before[s], spaces[s], s); TableMoved(m, pm.mem, before, spaces, s, v, i, count); }
          else { TableMoved(m, pm.mem, before, spaces, s, v, i, count); }
        } else {
          GrowsByEntries();
          MissingOne(pm.mem, spaces[0].dir, StorageEnd(spaces[0]));
          ok := GrowKernelTable(v, i, count);
          TableGrew(m, pm.mem, before);
          if TablesHeld(before) { HeldAfterEnlarging(before); }
        }
      }
    }

    /** Lines 272-303: the range is mapped and the table has room. */
    method MapWithRoom(s: nat, v: nat, i: nat, frame: nat, count: nat, flags: nat) returns (ok: bool, ghost done: nat)
      requires Valid() && s < |spaces| && Fits(spaces[s], v, i, count) && flags < PAGE_SIZE
      modifies this, pm
      decreases if s == 0 then 0 else 1, 2
      ensures Valid() && Settled(old(owner), owner) && SameShape(old(spaces), spaces)
      ensures !ok ==> spaces == old(spaces)
      ensures ok ==> |spaces[s].blocks| < spaces[s].capacity && RoomMade(old(spaces)[s], spaces[s], s)
      ensures Fits(spaces[s], v, i, count)
      ensures ok ==> forall j :: 0 <= j < count ==>
                MapsTo(pm.mem, spaces[s].dir, v, j, frame) && MapsWith(pm.mem, spaces[s].dir, v, j, frame, flags)
      ensures forall t :: 0 < t < |spaces| && t != s ==> spaces[t] == old(spaces)[t]
      ensures s == 0 ==> OthersTranslateAlike(old(pm.mem), pm.mem, spaces, 0)
      ensures ok <==> RoomAfter(old(spaces), s, old(pm.mem), old(pm.blocks), old(pm.freeCount), v, count)
      ensures s == 0 || !ok ==> KeepsOwners(old(owner), owner)
      ensures OwnKept(old(pm.mem), pm.mem, old(spaces)[s], s, v, count)
      ensures TablesHeld(old(spaces)) ==> TablesHeld(spaces)
      ensures Undisturbed(old(pm.mem), pm.mem, old(spaces), s)
      ensures !ok ==> WalkedTo(old(pm.mem), pm.mem, spaces[s].dir, v, count, done)
      ensures !ok ==> TranslatesAlike(old(pm.mem), pm.mem, spaces[s], v, count)
      ensures ok ==> GrownOk(pm.mem, old(spaces)[s], s)
    {
      hide Valid, Inv, Vacant, Fits, Missing, MapsTo, MapsWith, Lookup, RangeKept, OwnKept, TablesHeld, RoomAfter;
      hide Undisturbed, WalkedTo, HasTable, GrownOk, DirGrew;
      hide RoomNow, RoomMade, OthersTranslateAlike, TranslatesAlike, Settled, KeepsOwners, OtherDirsAlike, TablesCame;
      hide TakeSingles;
      FitsHere(s, v, i, count);
      KernelIsThere();
      ghost var m0, b0, f0, o0, before := pm.mem, pm.blocks, pm.freeCount, owner, spaces;
      ok, done := MapInto(s, v, frame, count, flags);
      ghost var m1, o1 := pm.mem, owner;
      OwnFromMapping(m0, m1, spaces[s], s, v, count);
      NoRoomWithoutTables(spaces, s, m0, b0, f0, v, count);
      SameShapeRefl(spaces);
      if ok {
        RoomForeseen(m0, m1, spaces, s, b0, f0, v, count);
        ok := MakeRoom(s, v, i, count);
        DirHasGrown(m1, pm.mem, before, s, s);
        WalkedWhole(m0, m1, pm.mem, before[s], v, count);
        UndisturbedTrans(m0, m1, pm.mem, before, s);
        if ok { StillMapped(m1, pm.mem, spaces[s], v, count, frame, flags); }
        else { AlikeThen(m0, m1, pm.mem, spaces[s], v, count); }
        OwnKeptBoth(m0, m1, pm.mem, before[s], s, v, count);
        SettledTrans(o0, o1, owner);
        if s == 0 { ShapeAlike(m0, m1, before, spaces, 0); OthersTrans(m0, m1, pm.mem, spaces, 0); }
        if s == 0 || !ok { KeepsOwnersTrans(o0, o1, owner); }
      }
    }

    /** Lines 272-315. The frames of a memory block are pending on entry and the block's or free
        on return. */
    method MapAndEnter(s: nat, v: nat, i: nat, kind: Kind, frame: nat, count: nat, flags: nat) returns (ok: bool)
      requires Valid() && s < |spaces| && Fits(spaces[s], v, i, count) && flags < PAGE_SIZE && kind != Reserved
      requires kind == Memory ==> PendingRange(owner, frame, count)
      modifies this, pm
      decreases if s == 0 then 0 else 1, 3
      ensures Valid() && SameShape(old(spaces), spaces) && |owner| == |old(owner)|
      ensures MovedOn(old(owner), owner, kind, frame, count)
      ensures !ok ==> spaces == old(spaces)
      ensures ok ==> EntryAdded(old(spaces)[s], spaces[s], s, i, VBlock(kind, v, count))
      ensures ok ==> forall j :: 0 <= j < count ==> MapsWith(pm.mem, spaces[s].dir, v, j, frame, flags)
      ensures forall t :: 0 < t < |spaces| && t != s ==> spaces[t] == old(spaces)[t]
      ensures s == 0 ==> OthersTranslateAlike(old(pm.mem), pm.mem, spaces, 0)
      ensures ok <==> RoomAfter(old(spaces), s, old(pm.mem), old(pm.blocks), old(pm.freeCount), v, count)
      ensures s == 0 ==> KeepsOwners(old(owner), owner)
      ensures OwnKept(old(pm.mem), pm.mem, old(spaces)[s], s, v, count)
      ensures TablesHeld(old(spaces)) ==> TablesHeld(spaces)
      ensures Undisturbed(old(pm.mem), pm.mem, old(spaces), s)
      ensures !ok ==> Unmapped(old(pm.mem), pm.mem, spaces[s].dir, v, count)
      ensures !ok ==> TranslatesAlike(old(pm.mem), pm.mem, spaces[s], v, count)
      ensures ok ==> GrownOk(pm.mem, old(spaces)[s], s)
    {
      hide Undisturbed, WalkedTo, Unmapped, UnmappedTo, GrownOk, DirGrew;
      hide Valid, Inv, Settled, MovedOn, KeepsOwners, OwnKept, TranslatesAlike, OthersTranslateAlike, Lookup, Missing;
      hide RoomMade, EntryAdded, Fits, TablesHeld, PendingRange, Given;
      ghost var o0, m0, before := owner, pm.mem, spaces;
      ghost var reached;
      ok, reached := MapWithRoom(s, v, i, frame, count, flags);
      ghost var o1, m1, mid := owner, pm.mem, spaces;
      StillPending(o0, o1, kind, frame, count);
      if ok {
        FitsWithin(spaces[s], v, i, count);
        if TablesHeld(spaces) { HeldAfterInsert(spaces, s, i, VBlock(kind, v, count)); }
        Install(s, v, i, kind, frame, count);
        EntryMade(before[s], mid[s], s, i, VBlock(kind, v, count));
        WithBlocksShape(mid, s, InsertAt(mid[s].blocks, i, VBlock(kind, v, count)));
        ShapeTrans(before, mid, spaces);
        if s == 0 { WithBlocksAlike(m0, m1, mid, s, InsertAt(mid[s].blocks, i, VBlock(kind, v, count)), 0); }
        PendingMovedOn(o0, o1, owner, kind, frame, count, OfBlock(s, v));
      } else {
        ghost var done := Undo(s, v, i, kind, frame, count);
        DirHasGrown(m1, pm.mem, before, s, s);
        WalkedOn(m0, m1, pm.mem, before[s].dir, v, count, reached, done);
        UnmappedIs(m0, pm.mem, before[s].dir, v, count, done);
        UndisturbedTrans(m0, m1, pm.mem, before, s);
        OwnKeptOn(m0, m1, pm.mem, before[s], s, v, count);
        AlikeOnce(m0, m1, pm.mem, before[s], v, count);
        if s == 0 { OthersTrans(m0, m1, pm.mem, spaces, 0); }
        PendingMovedOn(o0, o1, owner, kind, frame, count, FreePage);
      }
      if s == 0 { KeepsOwnersTrans(o0, o1, owner); }
    }
  }

  datatype Request =
    | AllocAt(space: nat, vaddr: nat, paddr: int, count: nat, flags: nat)
    | Release(space: nat, vaddr: nat)
    | NewSpace

  /** A request names a space there is, and its numbers are in range. */
  predicate Proper(q: Request, spaces: nat) {
    && (q.NewSpace? || q.space < spaces)
    && (q.AllocAt? ==> q.count >= 1 && q.flags < PAGE_SIZE && q.paddr >= FreeRing.NONE)
  }

  /** A release that would take the block under a space's table from it. */
  ghost predicate TakesTable(q: Request, spaces: seq<Space>) {
    q.Release? && InTableBlock(spaces, q.space, q.vaddr)
  }

  datatype Answer =
    | Passed
    | Address(page: nat, recorded: bool)
    | Released(ok: bool)
    | Opened(ok: bool)

  /** What the requests work on. */
  datatype World = World(mem: Mem, bs: seq<Block>, free: nat, spaces: seq<Space>)

  ghost function WorldOf(vm: VirtualMemory): World
    reads vm, vm.pm
  {
    World(vm.pm.mem, vm.pm.blocks, vm.pm.freeCount, vm.spaces)
  }

  ghost function AllFrames(w: World): int {
    Accounted(w.mem, w.free, w.spaces)
  }

  /** Up to request n nobody has released a block under a table. */
  ghost predicate KeepTables(requests: seq<Request>, worlds: seq<World>, n: nat)
    requires n <= |requests| && n < |worlds|
  {
    forall j :: 0 <= j < n ==> !TakesTable(requests[j], worlds[j].spaces)
  }

  /** An allocation at page v of space s: met exactly when there is room, with a block more in the
      table and the range mapped as asked. A request that is turned down after an address was found
      leaves the range unmapped. A range mapped for the user is the user's. */
  ghost predicate Allocated(w: World, s: nat, v: nat, i: nat, paddr: int, count: nat, flags: nat, a: Answer, w': World)
    requires s < |w.spaces|
  {
    && a.Address? && (a.page == v || a.page == NULL) && SameShape(w.spaces, w'.spaces)
    && (a.page != NULL && !a.recorded <==> v != NULL && paddr == FreeRing.NONE && FirstFit(w.bs, count) == |w.bs|)
    && (a.recorded <==> Succeeds(w.spaces, s, w.mem, w.bs, w.free, v, paddr, count))
    && (a.recorded ==>
          && a.page == v && EntryAdded(w.spaces[s], w'.spaces[s], s, i, VBlock(KindFor(paddr), v, count))
          && MappedFresh(w'.mem, w.spaces[s].dir, v, count, flags))
    && (a.recorded && flags % 8 == 7 && OpenDir(w.mem, w.spaces[s].dir) ==>
          forall u :: v <= u < v + count ==> UserMayWrite(w'.mem, w.spaces[s].dir, u))
    && (!a.recorded ==> w'.spaces == w.spaces && TranslatesAlike(w.mem, w'.mem, w.spaces[s], v, count))
    && (!a.recorded && a.page != v ==> Unmapped(w.mem, w'.mem, w.spaces[s].dir, v, count))
    && (forall t :: 0 < t < |w.spaces| && t != s ==> w'.spaces[t] == w.spaces[t])
    && Undisturbed(w.mem, w'.mem, w.spaces, s)
  }

  /** The block around page v leaves the table, unless it is the kernel's own. */
  ghost predicate Dropping(w: World, s: nat, v: nat, k: nat, a: Answer, w': World)
    requires s < |w.spaces|
  {
    && a.Released?
    && (a.ok ==>
          && k < |w.spaces[s].blocks| && Contains(w.spaces[s].blocks[k], v) && w.spaces[s].blocks[k].kind != Reserved
          && w'.spaces == WithBlocks(w.spaces, s, RemoveAt(w.spaces[s].blocks, k))
          && AllTranslateAlike(w.mem, w'.mem, w.spaces) && DirsAlike(w.mem, w'.mem, w.spaces))
    && (!a.ok ==>
          && w'.spaces == w.spaces && w'.mem == w.mem && w'.bs == w.bs
          && forall j :: 0 <= j < |w.spaces[s].blocks| && Contains(w.spaces[s].blocks[j], v) ==>
               w.spaces[s].blocks[j].kind == Reserved)
  }

  /** One space more, empty, with a table of one page. */
  ghost predicate Opening(w: World, v: nat, i: nat, a: Answer, w': World)
    requires w.spaces != []
  {
    && a.Opened? && Undisturbed(w.mem, w'.mem, w.spaces, 0)
    && (a.ok <==> w.free >= 1 && KernelTakes(w.spaces[0], w.mem, TakeSingle(w.bs), w.free - 1, v, FreeRing.NONE, 1))
    && (w.free >= 1 ==> Chosen(w.spaces[0], NULL, 1, v, i))
    && (!a.ok ==> w'.spaces == w.spaces)
    && (a.ok ==>
          && |w'.spaces| == |w.spaces| + 1 && SameShape(w.spaces, w'.spaces[..|w.spaces|])
          && (forall t :: 0 < t < |w.spaces| ==> w'.spaces[t] == w.spaces[t])
          && w'.spaces[|w.spaces|] == Space(w'.spaces[|w.spaces|].dir, 0, 512, 341, v, [])
          && EntryAdded(w.spaces[0], w'.spaces[0], 0, i, VBlock(Memory, v, 1))
          && MappedFresh(w'.mem, w'.spaces[0].dir, v, 1, 0x103)
          && (forall j :: Word(w'.mem, w'.spaces[|w.spaces|].dir, j) == 0))
  }

  /** What a request comes to. One that is not proper when its turn comes is passed over. */
  ghost predicate Served(w: World, q: Request, a: Answer, w': World) {
    if w.spaces == [] || !Proper(q, |w.spaces|) then a == Passed && w' == w
    else match q
      case AllocAt(s, vaddr, paddr, count, flags) =>
        exists v: nat, i: nat ::
          Chosen(w.spaces[s], vaddr, count, v, i) && Allocated(w, s, v, i, paddr, count, flags, a, w')
      case Release(s, vaddr) => exists k: nat :: Dropping(w, s, vaddr, k, a, w')
      case NewSpace => exists v: nat, i: nat :: Opening(w, v, i, a, w')
  }

  lemma ServedByAlloc(w: World, q: Request, v: nat, i: nat, a: Answer, w': World)
    requires q.AllocAt? && Proper(q, |w.spaces|) && Chosen(w.spaces[q.space], q.vaddr, q.count, v, i)
    requires Allocated(w, q.space, v, i, q.paddr, q.count, q.flags, a, w')
    ensures Served(w, q, a, w')
  {
  }

  lemma ServedByRelease(w: World, q: Request, k: nat, a: Answer, w': World)
    requires q.Release? && Proper(q, |w.spaces|) && Dropping(w, q.space, q.vaddr, k, a, w')
    ensures Served(w, q, a, w')
  {
  }

  lemma ServedByOpening(w: World, v: nat, i: nat, a: Answer, w': World)
    requires w.spaces != [] && Opening(w, v, i, a, w')
    ensures Served(w, NewSpace, a, w')
  {
  }

  /** What AllocVirtPages leaves open stays open. */
  lemma AllocationOpens(m: Mem, m': Mem, spaces: seq<Space>, spaces': seq<Space>, s: nat, v: nat, count: nat,
                        flags: nat)
    requires s < |spaces| && Undisturbed(m, m', spaces, s) && SameShape(spaces, spaces')
    ensures UsersOpen(m, spaces) ==> UsersOpen(m', spaces')
    ensures MappedFresh(m', spaces[s].dir, v, count, flags) && flags % 8 == 7 && OpenDir(m, spaces[s].dir) ==>
              forall u :: v <= u < v + count ==> UserMayWrite(m', spaces[s].dir, u)
  {
    hide Undisturbed, UsersOpen, OpenDir, MappedFresh, UserMayWrite, DirGrew;
    if UsersOpen(m, spaces) {
      UsersStayOpen(m, m', spaces, s);
      SameDirsOpen(m', spaces, spaces');
    }
    if MappedFresh(m', spaces[s].dir, v, count, flags) && flags % 8 == 7 && OpenDir(m, spaces[s].dir) {
      DirHasGrown(m, m', spaces, s, s);
      OpenStays(m, m', spaces[s].dir);
      RangeIsTheUsers(m', spaces[s].dir, v, count, flags);
    }
  }

  lemma ReleaseKeepsOpen(m: Mem, m': Mem, spaces: seq<Space>, spaces': seq<Space>)
    requires SameShape(spaces, spaces') && AllTranslateAlike(m, m', spaces') && DirsAlike(m, m', spaces')
    ensures AllTranslateAlike(m, m', spaces) && DirsAlike(m, m', spaces)
    ensures UsersOpen(m, spaces) ==> UsersOpen(m', spaces')
  {
    hide UsersOpen, Undisturbed, Lookup, Word;
    ShapeAllAlike(m, m', spaces, spaces');
    AllAlikeUndisturbed(m, m', spaces, 0);
    if UsersOpen(m, spaces) {
      UsersStayOpen(m, m', spaces, 0);
      SameDirsOpen(m', spaces, spaces');
    }
  }

  lemma OpeningKeepsOpen(m: Mem, m': Mem, spaces: seq<Space>, spaces': seq<Space>)
    requires Undisturbed(m, m', spaces, 0)
    requires |spaces'| == |spaces| + 1 && SameShape(spaces, spaces'[..|spaces|]) &&
               forall j :: Word(m', spaces'[|spaces|].dir, j) == 0
    ensures UsersOpen(m, spaces) ==> UsersOpen(m', spaces')
  {
    hide UsersOpen, Undisturbed, Word;
    if UsersOpen(m, spaces) {
      UsersStayOpen(m, m', spaces, 0);
      NewSpaceOpen(m', spaces, spaces');
    }
  }

  method Serve(vm: VirtualMemory, q: Request) returns (a: Answer)
    requires vm.Valid()
    modifies vm, vm.pm
    ensures vm.Valid() && Settled(old(vm.owner), vm.owner)
    ensures Served(old(WorldOf(vm)), q, a, WorldOf(vm))
    ensures TablesHeld(old(vm.spaces)) && !TakesTable(q, old(vm.spaces)) ==> TablesHeld(vm.spaces)
    ensures UsersOpen(old(vm.pm.mem), old(vm.spaces)) ==> UsersOpen(vm.pm.mem, vm.spaces)
  {
    hide Inv, TablesHeld, InTableBlock, UsersOpen, Undisturbed, Chosen, Succeeds, Settled, AllTranslateAlike, DirsAlike;
    hide EntryAdded, MapsRange, MappedFresh, KernelTakes, Unmapped, OpenDir, TakeSingle, GrownOk, UserMayWrite, Served;
    hide TranslatesAlike, OthersTranslateAlike, OwnKept, KeepsOwners, SameShape;
    vm.KernelIsThere();
    ghost var w := WorldOf(vm);
    if !Proper(q, |vm.spaces|) {
      SettledRefl(vm.owner);
      PassedOver(w, q);
      return Passed;
    }
    match q {
      case NewSpace =>
        var ok, v, i := vm.AddSpace();
        a := Opened(ok);
        SameShapeRefl(w.spaces);
        if ok { OpeningKeepsOpen(w.mem, vm.pm.mem, w.spaces, vm.spaces); }
        else { AllocationOpens(w.mem, vm.pm.mem, w.spaces, vm.spaces, 0, 0, 0, 0); }
        ServedByOpening(w, v, i, a, WorldOf(vm));
      case AllocAt(s, vaddr, paddr, count, flags) =>
        var r, recorded, v, i := vm.AllocVirtPages(s, vaddr, paddr, count, flags);
        a := Address(r, recorded);
        SameDir(w.spaces, vm.spaces, s);
        if recorded { IsMappedFresh(vm.pm.mem, vm.spaces[s].dir, r, count, flags); }
        AllocationOpens(w.mem, vm.pm.mem, w.spaces, vm.spaces, s, r, count, flags);
        ServedByAlloc(w, q, v, i, a, WorldOf(vm));
      case Release(s, vaddr) =>
        var ok, k := vm.FreeVirtPages(s, vaddr);
        a := Released(ok);
        if ok { WithBlocksShape(w.spaces, s, RemoveAt(w.spaces[s].blocks, k)); } else { SameShapeRefl(w.spaces); }
        ReleaseKeepsOpen(w.mem, vm.pm.mem, w.spaces, vm.spaces);
        ServedByRelease(w, q, k, a, WorldOf(vm));
    }
  }

  lemma PassedOver(w: World, q: Request)
    requires !Proper(q, |w.spaces|)
    ensures Served(w, q, Passed, w)
  {
  }

  lemma SameDir(spaces: seq<Space>, spaces': seq<Space>, s: nat)
    requires SameShape(spaces, spaces') && s < |spaces|
    ensures |spaces'| == |spaces| && spaces'[s].dir == spaces[s].dir && spaces'[s].lo == spaces[s].lo
    ensures spaces'[s].hi == spaces[s].hi
  {
  }

  /** Every run of requests, failing ones and table growth included. Each request is served as it
      should be in the world it finds; the invariant holds, so every frame of the pool is in exactly
      one class, and nothing is left between owners. At every moment the free pages, the pages of
      all memory blocks, the page tables and directories and the pages of the kernel's table add up
      to what they added up to at the start. Every user table keeps its kernel block as long as
      nobody releases it, and tables that are open to the user stay open. */
  method RunRequests(vm: VirtualMemory, requests: seq<Request>) returns (answers: seq<Answer>, ghost worlds: seq<World>)
    requires vm.Valid()
    modifies vm, vm.pm
    ensures vm.Valid() && Settled(old(vm.owner), vm.owner)
    ensures |answers| == |requests| && |worlds| == |requests| + 1
    ensures worlds[0] == old(WorldOf(vm)) && worlds[|requests|] == WorldOf(vm)
    ensures forall n :: 0 <= n < |requests| ==> Served(worlds[n], requests[n], answers[n], worlds[n + 1])
    ensures forall n :: 0 <= n <= |requests| ==> AllFrames(worlds[n]) == AllFrames(worlds[0])
    ensures Managed(vm.owner) == Accounted(vm.pm.mem, vm.pm.freeCount, vm.spaces) + PendingFrames(vm.owner)
    ensures TablesHeld(worlds[0].spaces) && KeepTables(requests, worlds, |requests|) ==>
              forall n :: 0 <= n <= |requests| ==> TablesHeld(worlds[n].spaces)
    ensures UsersOpen(worlds[0].mem, worlds[0].spaces) ==>
              forall n :: 0 <= n <= |requests| ==> UsersOpen(worlds[n].mem, worlds[n].spaces)
  {
    hide Inv, Accounted, Managed, PendingFrames, TablesHeld, TakesTable, Served, UsersOpen, Settled;
    PoolIsAccounted(vm.pm.mem, vm.pm.blocks, vm.spaces, vm.owner);
    SettledRefl(vm.owner);
    worlds := [WorldOf(vm)];
    answers := [];
    for n := 0 to |requests|
      invariant vm.Valid() && Settled(old(vm.owner), vm.owner)
      invariant |answers| == n && |worlds| == n + 1 && worlds[0] == old(WorldOf(vm)) && worlds[n] == WorldOf(vm)
      invariant forall j :: 0 <= j < n ==> Served(worlds[j], requests[j], answers[j], worlds[j + 1])
      invariant forall j :: 0 <= j <= n ==> AllFrames(worlds[j]) == AllFrames(worlds[0])
      invariant TablesHeld(worlds[0].spaces) && KeepTables(requests, worlds, n) ==>
                  forall j :: 0 <= j <= n ==> TablesHeld(worlds[j].spaces)
      invariant UsersOpen(worlds[0].mem, worlds[0].spaces) ==>
                  forall j :: 0 <= j <= n ==> UsersOpen(worlds[j].mem, worlds[j].spaces)
    {
      ghost var o := vm.owner;
      var a := Serve(vm, requests[n]);
      SettledTrans(old(vm.owner), o, vm.owner);
      answers, worlds := answers + [a], worlds + [WorldOf(vm)];
      SamePool(old(vm.owner), vm.owner);
      PoolIsAccounted(vm.pm.mem, vm.pm.blocks, vm.spaces, vm.owner);
    }
    PoolIsAccounted(vm.pm.mem, vm.pm.blocks, vm.spaces, vm.owner);
  }
}
