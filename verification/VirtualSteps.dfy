/** What the steps of `alloc_virt_pages` and `free_virt_pages` promise each other, and the lemmas
    that carry those promises from one step to the next. */
module VirtualSteps {
  import opened BlockList
  import opened Frames
  import opened PhysicalMemory
  import opened PageTables
  import opened BlockTable
  import opened Ownership
  import opened OwnershipMoves
  import FreeRing

  const NULL: int := 0

  // ------------------------------------------------------------ promises

  /** Frames enter and leave the pool never, and none is left between owners that was not so
      before. */
  ghost predicate Settled(owner: Owners, owner': Owners) {
    && |owner'| == |owner|
    && forall f :: 0 <= f < |owner| ==>
         (owner'[f] == Outside <==> owner[f] == Outside) && (owner'[f] == Pending <==> owner[f] == Pending)
  }

  /** Every space translates as before. */
  ghost predicate AllTranslateAlike(m: Mem, m': Mem, spaces: seq<Space>) {
    forall t, u :: 0 <= t < |spaces| && spaces[t].Start() <= u < spaces[t].End() ==>
      Lookup(m', spaces[t].dir, u) == Lookup(m, spaces[t].dir, u)
  }

  ghost predicate SameShape(spaces: seq<Space>, spaces': seq<Space>) {
    && |spaces'| == |spaces|
    && forall t :: 0 <= t < |spaces| ==>
         spaces'[t].dir == spaces[t].dir && spaces'[t].lo == spaces[t].lo && spaces'[t].hi == spaces[t].hi
  }

  /** Every directory has the entries it had. */
  ghost predicate DirsAlike(m: Mem, m': Mem, spaces: seq<Space>) {
    forall t, i :: 0 <= t < |spaces| ==> Word(m', spaces[t].dir, i) == Word(m, spaces[t].dir, i)
  }

  /** Every space but `s` translates as before. */
  ghost predicate OthersTranslateAlike(m: Mem, m': Mem, spaces: seq<Space>, s: nat) {
    forall t, u :: 0 <= t < |spaces| && t != s && spaces[t].Start() <= u < spaces[t].End() ==>
      Lookup(m', spaces[t].dir, u) == Lookup(m, spaces[t].dir, u)
  }

  /** Space `s` translates as before outside v..v+count. */
  ghost predicate TranslatesAlike(m: Mem, m': Mem, sp: Space, v: int, count: nat) {
    forall u :: sp.Start() <= u < sp.End() && !(v <= u < v + count) ==> Lookup(m', sp.dir, u) == Lookup(m, sp.dir, u)
  }

  /** Frames for the pages, unless the caller has them, and one for each table that is missing. */
  predicate EnoughFrames(m: Mem, bs: seq<Block>, free: int, dir: nat, v: nat, paddr: int, count: nat) {
    if paddr == FreeRing.NONE then FirstFit(bs, count) < |bs| && count + Missing(m, dir, v, count) <= free
    else Missing(m, dir, v, count) <= free
  }

  /** What is left of the counter and of the free list after pages and tables have been taken. */
  function FramesLeft(m: Mem, free: int, dir: nat, v: nat, paddr: int, count: nat): int {
    free - (if paddr == FreeRing.NONE then count else 0) - Missing(m, dir, v, count)
  }

  function BlocksLeft(m: Mem, bs: seq<Block>, dir: nat, v: nat, paddr: int, count: nat): seq<Block> {
    var taken := if paddr == FreeRing.NONE &&
        FirstFit(bs, count) < |bs| then Carve(bs, FirstFit(bs, count), count) else bs;
    TakeSingles(taken, Missing(m, dir, v, count))
  }

  /** A frame for the table of page g, unless it is there or comes with the pages v..v+count. */
  function MissingBeside(m: Mem, dir: nat, v: nat, count: nat, g: int): nat {
    if HasTable(m, dir, g / PAGES_PER_TABLE)
       || (count > 0 && v / PAGES_PER_TABLE <= g / PAGES_PER_TABLE <= (v + count - 1) / PAGES_PER_TABLE)
    then 0 else 1
  }

  /** The page above the kernel's table is in the space, not in use and not about to be. */
  ghost predicate GrowsHere(sp: Space, v: nat, count: nat) {
    && sp.blocks != []
    && StorageEnd(sp) < sp.End() && !(v <= StorageEnd(sp) < v + count) && Vacant(sp.blocks, StorageEnd(sp), 1)
  }

  /** The kernel's table has room, or grows with the frames that are left. */
  ghost predicate KernelRoom(sp: Space, m: Mem, left: int, v: nat, count: nat) {
    || |sp.blocks| < sp.capacity
    || (GrowsHere(sp, v, count) && left >= 1 + MissingBeside(m, sp.dir, v, count, StorageEnd(sp)))
  }

  /** A block at v can be entered in the kernel's space. */
  ghost predicate KernelTakes(kernel: Space, m: Mem, bs: seq<Block>, free: int, v: nat, paddr: int, count: nat) {
    && v != NULL && EnoughFrames(m, bs, free, kernel.dir, v, paddr, count)
    && KernelRoom(kernel, m, FramesLeft(m, free, kernel.dir, v, paddr, count), v, count)
  }

  /** There is a place in the kernel's space for a table of so many pages. */
  ghost predicate TableFits(kernel: Space, m: Mem, bs: seq<Block>, free: int, size: nat) {
    exists v: nat, i: nat :: Chosen(kernel, NULL, size, v, i) &&
        KernelTakes(kernel, m, bs, free, v, FreeRing.NONE, size)
  }

  /** A user table has room, or a larger one can be had. */
  ghost predicate UserRoom(sp: Space, kernel: Space, m: Mem, bs: seq<Block>, free: int) {
    |sp.blocks| < sp.capacity || TableFits(kernel, m, bs, free, NewSize(sp.capacity))
  }

  /** When a block at v can be entered in space s, by the state before the call. */
  ghost predicate Succeeds(spaces: seq<Space>, s: nat, m: Mem, bs: seq<Block>, free: int, v: nat, paddr: int,
                           count: nat)
    requires s < |spaces|
  {
    if s == 0 then KernelTakes(spaces[0], m, bs, free, v, paddr, count)
    else
      && v != NULL && EnoughFrames(m, bs, free, spaces[s].dir, v, paddr, count)
      && UserRoom(spaces[s], spaces[0], m, BlocksLeft(m, bs, spaces[s].dir, v, paddr, count),
                  FramesLeft(m, free, spaces[s].dir, v, paddr, count))
  }

  /** The table of space s has room for an entry, or can be given it, with v..v+count mapped. */
  ghost predicate RoomNow(spaces: seq<Space>, s: nat, m: Mem, bs: seq<Block>, free: int, v: nat, count: nat)
    requires s < |spaces|
  {
    if s == 0 then
      || |spaces[0].blocks| < spaces[0].capacity
      || (GrowsHere(spaces[0], v, count) && free >= 1 + MissingBeside(m, spaces[0].dir, 0, 0, StorageEnd(spaces[0])))
    else UserRoom(spaces[s], spaces[0], m, bs, free)
  }

  /** Frames for the tables of v..v+count, and room for the entry with what is left. */
  ghost predicate RoomAfter(spaces: seq<Space>, s: nat, m: Mem, bs: seq<Block>, free: int, v: nat, count: nat)
    requires s < |spaces|
  {
    var missing := Missing(m, spaces[s].dir, v, count);
    && missing <= free
    && if s == 0 then KernelRoom(spaces[0], m, free - missing, v, count)
       else UserRoom(spaces[s], spaces[0], m, TakeSingles(bs, missing), free - missing)
  }

  /** Every directory but that of space s has the entries it had. */
  ghost predicate OtherDirsAlike(m: Mem, m': Mem, spaces: seq<Space>, s: nat) {
    forall t, i :: 0 <= t < |spaces| && t != s ==> Word(m', spaces[t].dir, i) == Word(m, spaces[t].dir, i)
  }

  /** The tables of v..v+count have come to directory dir, and no others. */
  ghost predicate TablesCame(m: Mem, m': Mem, dir: nat, v: nat, count: nat) {
    forall g: int :: g >= 0 ==> MissingBeside(m', dir, 0, 0, g) == MissingBeside(m, dir, v, count, g)
  }

  /** The frames of a memory block have found an owner, everything else has settled. */
  ghost predicate MovedOn(owner: Owners, owner': Owners, kind: Kind, frame: int, count: nat) {
    && |owner'| == |owner|
    && forall f :: 0 <= f < |owner| ==>
         if kind == Memory && frame <= f < frame + count then owner'[f] != Outside && owner'[f] != Pending
         else (owner'[f] == Outside <==> owner[f] == Outside) && (owner'[f] == Pending <==> owner[f] == Pending)
  }

  function KindFor(paddr: int): Kind {
    if paddr == FreeRing.NONE then Memory else IoMemory
  }

  /** Space s with room for an entry: the kernel's table has grown by a page if it was full, any
      other table may have been exchanged. */
  ghost predicate RoomMade(sp: Space, sp': Space, s: nat) {
    if s == 0 then (if |sp.blocks| == sp.capacity then sp.blocks != [] && sp' == Enlarged(sp) else sp' == sp)
    else sp'.blocks == sp.blocks && (|sp.blocks| < sp.capacity ==> sp' == sp)
  }

  /** The space has one entry more, after room has been made for it. */
  ghost predicate EntryAdded(sp: Space, sp': Space, s: nat, i: nat, b: VBlock) {
    exists mid: Space :: RoomMade(sp, mid, s) && i <= |mid.blocks| && sp' == mid.(blocks := InsertAt(mid.blocks, i, b))
  }

  /** Page u is where the kernel's table grows when it is full. */
  predicate GrowsAt(sp: Space, s: nat, u: int) {
    s == 0 && sp.blocks != [] && |sp.blocks| == sp.capacity && u == StorageEnd(sp)
  }

  /** Space s translates as before outside v..v+count and the page at which its table grows. */
  ghost predicate OwnKept(m: Mem, m': Mem, sp: Space, s: nat, v: int, count: nat) {
    forall u :: sp.Start() <= u < sp.End() && !(v <= u < v + count) && !GrowsAt(sp, s, u) ==>
        Lookup(m', sp.dir, u) == Lookup(m, sp.dir, u)
  }

  /** Only free and pending frames change hands. */
  ghost predicate KeepsOwners(owner: Owners, owner': Owners) {
    |owner'| == |owner| && forall f :: 0 <= f < |owner| && !Loose(owner[f]) ==> owner'[f] == owner[f]
  }

  /** A kernel block holds the table of the space, with the capacity of its length. */
  predicate IsTableBlock(b: VBlock, sp: Space) {
    b.kind == Memory && b.base == sp.table && sp.capacity == Capacity(b.len)
  }

  ghost predicate TableHeld(kernel: seq<VBlock>, sp: Space) {
    exists k :: 0 <= k < |kernel| && IsTableBlock(kernel[k], sp)
  }

  /** Every table but the kernel's has a kernel block of its own. */
  ghost predicate TablesHeld(spaces: seq<Space>) {
    && spaces != []
    && (forall s :: 0 < s < |spaces| ==> TableHeld(spaces[0].blocks, spaces[s]))
    && (forall s, t :: 0 < s < t < |spaces| ==> spaces[s].table != spaces[t].table)
  }

  /** The address lies in a kernel block that holds the table of some space. */
  ghost predicate InTableBlock(spaces: seq<Space>, s: nat, v: int) {
    s == 0 && spaces != [] &&
    exists k, t :: 0 <= k < |spaces[0].blocks| && 0 < t < |spaces| && Contains(spaces[0].blocks[k], v) &&
        spaces[t].table == spaces[0].blocks[k].base
  }

  /** In the kernel's space a block for a new table has been entered at v, and that of the old
      table of `sp` has gone. */
  ghost predicate TableExchanged(kernel: Space, kernel': Space, sp: Space, i: nat, v: int, size: nat) {
    exists mid: Space, k: nat ::
      && EntryAdded(kernel, mid, 0, i, VBlock(Memory, v, size))
      && k < |mid.blocks| && IsTableBlock(mid.blocks[k], sp) && mid.blocks[k].base != v
      && kernel' == mid.(blocks := RemoveAt(mid.blocks, k))
  }

  /** The translation of pages v..v+count is as before. */
  ghost predicate RangeKept(m: Mem, m': Mem, sp: Space, v: int, count: nat) {
    forall u :: v <= u < v + count && sp.Start() <= u < sp.End() ==> Lookup(m', sp.dir, u) == Lookup(m, sp.dir, u)
  }

  /** A block of `count` pages at v belongs at index i and lies within the space. */
  ghost predicate Fits(sp: Space, v: int, i: nat, count: nat) {
    && count >= 1 && sp.Start() <= v && v + count <= sp.End()
    && Position(sp.blocks, i, v, count)
  }

  ghost predicate PendingRange(owner: Owners, frame: nat, count: nat) {
    frame + count <= |owner| && forall f :: frame <= f < frame + count ==> owner[f] == Pending
  }

  /** The address a request gets. */
  ghost predicate Chosen(sp: Space, vaddr: nat, count: nat, v: nat, i: nat) {
    && (v != NULL ==> Fits(sp, v, i, count))
    && (vaddr != NULL ==>
          (v != NULL <==> sp.Start() <= vaddr && vaddr + count < sp.End() && Vacant(sp.blocks, vaddr, count))
          && (v != NULL ==> v == vaddr))
    && (vaddr == NULL ==>
          forall w :: (v != NULL ==> v < w) && sp.Start() <= w && NULL < w && w + count <= sp.End() ==>
              !Vacant(sp.blocks, w, count))
  }

  predicate Contains(b: VBlock, v: int) {
    b.base <= v && b.base + b.len > v
  }

  ghost predicate MapsTo(m: Mem, dir: nat, v: nat, j: nat, page: nat) {
    FrameOf(Lookup(m, dir, v + j)) == page + j
  }

  /** Page v + j is mapped to frame page + j with the flags. */
  ghost predicate MapsWith(m: Mem, dir: nat, v: nat, j: nat, page: int, flags: nat) {
    Lookup(m, dir, v + j) == (page + j) * PAGE_SIZE + flags
  }

  ghost predicate MapsRange(m: Mem, dir: nat, v: nat, count: nat, frame: int, flags: nat) {
    forall j :: 0 <= j < count ==> MapsWith(m, dir, v, j, frame, flags)
  }

  /** Every page of every block translates as before. */
  ghost predicate BlocksKept(m: Mem, m': Mem, spaces: seq<Space>) {
    forall t, k, u ::
      0 <= t < |spaces| && 0 <= k < |spaces[t].blocks| && Contains(spaces[t].blocks[k], u) &&
      spaces[t].Start() <= u < spaces[t].End() ==>
        Lookup(m', spaces[t].dir, u) == Lookup(m, spaces[t].dir, u)
  }

  ghost predicate DirsGrew(m: Mem, m': Mem, spaces: seq<Space>) {
    forall t :: 0 <= t < |spaces| ==> DirGrew(m, m', spaces[t].dir)
  }

  /** What a call for space s leaves alone: directories keep their entries and come by open ones
      only, user spaces but s translate as before, and so does every page of every block. */
  ghost predicate Undisturbed(m: Mem, m': Mem, spaces: seq<Space>, s: nat) {
    && DirsGrew(m, m', spaces) && BlocksKept(m, m', spaces)
    && (forall t, u :: 0 < t < |spaces| && t != s && spaces[t].Start() <= u < spaces[t].End() ==>
          Lookup(m', spaces[t].dir, u) == Lookup(m, spaces[t].dir, u))
  }

  /** A walk over v..v+count has come to page v+done, and from there on nothing is mapped anew. */
  ghost predicate WalkedTo(m: Mem, m': Mem, dir: nat, v: nat, count: nat, done: nat) {
    && done <= count && TablesThere(m', dir, v, done)
    && (forall u :: v + done <= u < v + count ==> Lookup(m', dir, u) == Lookup(m, dir, u))
  }

  /** Line 312 has gone over v..v+count as far as there are tables. The entries it has stored are
      not present: 0 for the first page, and 4096 more for each that follows, since the physical
      address advances with the walk. At page v+done a table is missing, and from there on all is
      as it was in m. */
  ghost predicate UnmappedTo(m: Mem, m': Mem, dir: nat, v: nat, count: nat, done: nat) {
    && done <= count
    && (forall u :: v <= u < v + done ==> Lookup(m', dir, u) == (u - v) * 4096)
    && (forall u :: v + done <= u < v + count ==> Lookup(m', dir, u) == Lookup(m, dir, u))
    && (done < count ==> !HasTable(m', dir, (v + done) / PAGES_PER_TABLE))
  }

  ghost predicate Unmapped(m: Mem, m': Mem, dir: nat, v: nat, count: nat) {
    exists done: nat :: UnmappedTo(m, m', dir, v, count, done)
  }

  /** The page by which the kernel's table grows is present and writable, and not the user's. */
  predicate GrownPageOk(m: Mem, sp: Space) {
    sp.blocks != [] && StorageEnd(sp) >= 0 && Lookup(m, sp.dir, StorageEnd(sp)) % 4096 == 3
  }

  predicate GrownOk(m: Mem, sp: Space, s: nat) {
    s == 0 && sp.blocks != [] && |sp.blocks| == sp.capacity ==> GrownPageOk(m, sp)
  }

  // ------------------------------------------------------------ what is left alone

  lemma UndisturbedRefl(m: Mem, spaces: seq<Space>, s: nat)
    ensures Undisturbed(m, m, spaces, s)
  {
  }

  lemma GrewTrans(m0: Mem, m1: Mem, m2: Mem, dir: nat)
    requires DirGrew(m0, m1, dir) && DirGrew(m1, m2, dir)
    ensures DirGrew(m0, m2, dir)
  {
    hide HasTable, Word;
    forall i
      ensures OpenTable(m0, m2, dir, i) && (HasTable(m0, dir, i) ==> Word(m2, dir, i) == Word(m0, dir, i))
    {
      assert OpenTable(m0, m1, dir, i) && OpenTable(m1, m2, dir, i);
      SameWord(m0, m1, dir, i);
      SameWord(m1, m2, dir, i);
    }
  }

  lemma SameWord(m: Mem, m': Mem, dir: nat, i: int)
    requires HasTable(m, dir, i) ==> Word(m', dir, i) == Word(m, dir, i)
    ensures HasTable(m, dir, i) ==> HasTable(m', dir, i)
  {
  }

  lemma UndisturbedTrans(m0: Mem, m1: Mem, m2: Mem, spaces: seq<Space>, s: nat)
    requires Undisturbed(m0, m1, spaces, s) && Undisturbed(m1, m2, spaces, s)
    ensures Undisturbed(m0, m2, spaces, s)
  {
    hide Lookup, DirGrew, Contains;
    forall t | 0 <= t < |spaces|
      ensures DirGrew(m0, m2, spaces[t].dir)
    {
      GrewTrans(m0, m1, m2, spaces[t].dir);
    }
  }

  lemma SameDirGrew(m: Mem, m': Mem, dir: nat)
    requires forall i :: Word(m', dir, i) == Word(m, dir, i)
    ensures DirGrew(m, m', dir)
  {
  }

  lemma AllAlikeUndisturbed(m: Mem, m': Mem, spaces: seq<Space>, s: nat)
    requires AllTranslateAlike(m, m', spaces) && DirsAlike(m, m', spaces)
    ensures Undisturbed(m, m', spaces, s)
  {
    hide Lookup, Word, DirGrew;
    forall t | 0 <= t < |spaces|
      ensures DirGrew(m, m', spaces[t].dir)
    {
      SameDirGrew(m, m', spaces[t].dir);
    }
  }

  /** A mapping at a vacant range. */
  lemma MappingUndisturbed(m: Mem, m': Mem, spaces: seq<Space>, s: nat, v: nat, count: nat)
    requires s < |spaces| && DirGrew(m, m', spaces[s].dir) && Vacant(spaces[s].blocks, v, count)
    requires OtherDirsAlike(m, m', spaces, s) && OthersTranslateAlike(m, m', spaces, s)
    requires TranslatesAlike(m, m', spaces[s], v, count)
    ensures Undisturbed(m, m', spaces, s)
  {
    hide Lookup, Word, DirGrew;
    forall t | 0 <= t < |spaces|
      ensures DirGrew(m, m', spaces[t].dir)
    {
      if t != s { SameDirGrew(m, m', spaces[t].dir); }
    }
    forall t, k, u | 0 <= t < |spaces| && 0 <= k < |spaces[t].blocks| && Contains(spaces[t].blocks[k], u) &&
                     spaces[t].Start() <= u < spaces[t].End()
      ensures Lookup(m', spaces[t].dir, u) == Lookup(m, spaces[t].dir, u)
    {
      if t == s { assert !(v <= u < v + count); }
    }
  }

  /** What leaves all user spaces alone leaves all but s alone. */
  lemma UndisturbedFor(m: Mem, m': Mem, spaces: seq<Space>, s: nat)
    requires Undisturbed(m, m', spaces, 0)
    ensures Undisturbed(m, m', spaces, s)
  {
  }

  lemma ShapeAllAlike(m: Mem, m': Mem, spaces: seq<Space>, spaces': seq<Space>)
    requires SameShape(spaces, spaces') && AllTranslateAlike(m, m', spaces') && DirsAlike(m, m', spaces')
    ensures AllTranslateAlike(m, m', spaces) && DirsAlike(m, m', spaces)
  {
  }

  /** All tables of a directory are open to the user. */
  ghost predicate OpenDir(m: Mem, dir: nat) {
    forall i :: HasTable(m, dir, i) ==> Word(m, dir, i) % 8 == 7
  }

  ghost predicate UsersOpen(m: Mem, spaces: seq<Space>) {
    forall t :: 0 < t < |spaces| ==> OpenDir(m, spaces[t].dir)
  }

  lemma OpenStays(m: Mem, m': Mem, dir: nat)
    requires OpenDir(m, dir) && DirGrew(m, m', dir)
    ensures OpenDir(m', dir)
  {
    hide HasTable, Word;
    forall i | HasTable(m', dir, i)
      ensures Word(m', dir, i) % 8 == 7
    {
      assert OpenTable(m, m', dir, i);
      LowBitsOfOpen(Word(m', dir, i));
    }
  }

  lemma UsersStayOpen(m: Mem, m': Mem, spaces: seq<Space>, s: nat)
    requires UsersOpen(m, spaces) && Undisturbed(m, m', spaces, s)
    ensures UsersOpen(m', spaces)
  {
    hide OpenDir, DirGrew, BlocksKept, Lookup;
    forall t | 0 < t < |spaces|
      ensures OpenDir(m', spaces[t].dir)
    {
      OpenStays(m, m', spaces[t].dir);
    }
  }

  lemma SameDirsOpen(m: Mem, spaces: seq<Space>, spaces': seq<Space>)
    requires UsersOpen(m, spaces) && SameShape(spaces, spaces')
    ensures UsersOpen(m, spaces')
  {
    hide OpenDir;
  }

  lemma NewSpaceOpen(m: Mem, spaces: seq<Space>, spaces': seq<Space>)
    requires UsersOpen(m, spaces) && |spaces'| == |spaces| + 1 && SameShape(spaces, spaces'[..|spaces|])
    requires forall j :: Word(m, spaces'[|spaces|].dir, j) == 0
    ensures UsersOpen(m, spaces')
  {
    EmptyDirOpen(m, spaces'[|spaces|].dir);
    hide OpenDir, Word;
    forall t | 0 < t < |spaces'|
      ensures OpenDir(m, spaces'[t].dir)
    {
      if t < |spaces| { assert spaces'[..|spaces|][t].dir == spaces[t].dir; }
    }
  }

  lemma EmptyDirOpen(m: Mem, dir: nat)
    requires forall j :: Word(m, dir, j) == 0
    ensures OpenDir(m, dir)
  {
  }

  /** In a directory whose tables are open, pages mapped with the user's flags are the user's. */
  lemma RangeIsTheUsers(m: Mem, dir: nat, v: nat, count: nat, flags: nat)
    requires OpenDir(m, dir) && MappedFresh(m, dir, v, count, flags) && flags % 8 == 7
    ensures forall u :: v <= u < v + count ==> UserMayWrite(m, dir, u)
  {
    var frame: int :| MapsRange(m, dir, v, count, frame, flags);
    hide Word;
    forall u | v <= u < v + count
      ensures UserMayWrite(m, dir, u)
    {
      assert MapsWith(m, dir, v, u - v, frame, flags);
      LowBitsOfSum(frame + (u - v), flags);
    }
  }

  // ------------------------------------------------------------ how far a range is mapped

  lemma WalkedOn(m0: Mem, m1: Mem, m2: Mem, dir: nat, v: nat, count: nat, done: nat, d: nat)
    requires WalkedTo(m0, m1, dir, v, count, done) && DirGrew(m1, m2, dir) && UnmappedTo(m1, m2, dir, v, count, d)
    ensures UnmappedTo(m0, m2, dir, v, count, d)
  {
    hide Lookup, HasTable, Word, TablesThere;
    if d < done {
      PageHasTable(m1, dir, v, done, v + d);
      SameWord(m1, m2, dir, (v + d) / PAGES_PER_TABLE);
      assert false;
    }
  }

  /** A walk that stores page and flags 0. */
  lemma ZeroWalk(m: Mem, m': Mem, dir: nat, v: nat, count: nat, done: nat)
    requires WalkedTo(m, m', dir, v, count, done)
    requires done < count ==> !HasTable(m', dir, (v + done) / PAGES_PER_TABLE)
    requires forall j :: 0 <= j < done ==> MapsWith(m', dir, v, j, 0, 0)
    ensures UnmappedTo(m, m', dir, v, count, done)
  {
    hide Lookup, HasTable, TablesThere;
    forall u | v <= u < v + done
      ensures Lookup(m', dir, u) == (u - v) * 4096
    {
      assert MapsWith(m', dir, v, u - v, 0, 0);
    }
  }

  lemma FitsInside(sp: Space, v: int, i: nat, count: nat)
    requires Fits(sp, v, i, count)
    ensures sp.Start() <= v && v + count <= sp.End()
  {
  }

  /** What has been unmapped stays so when frames go back. */
  lemma StillUnmapped(m: Mem, m1: Mem, m2: Mem, spaces: seq<Space>, s: nat, v: nat, count: nat, done: nat)
    requires s < |spaces| && spaces[s].Start() <= v && v + count <= spaces[s].End()
    requires UnmappedTo(m, m1, spaces[s].dir, v, count, done)
    requires AllTranslateAlike(m1, m2, spaces) && DirsAlike(m1, m2, spaces)
    ensures UnmappedTo(m, m2, spaces[s].dir, v, count, done)
  {
    hide Lookup, Word;
  }

  /** While directories keep their tables and nothing else is mapped, the walk has come as far. */
  lemma WalkedWhole(m0: Mem, m1: Mem, m2: Mem, sp: Space, v: nat, count: nat)
    requires WalkedTo(m0, m1, sp.dir, v, count, count) && DirGrew(m1, m2, sp.dir)
    ensures WalkedTo(m0, m2, sp.dir, v, count, count)
  {
    hide Lookup, DirGrew, TablesThere;
    TablesPersist(m1, m2, sp.dir, v, count);
  }

  lemma DirHasGrown(m: Mem, m': Mem, spaces: seq<Space>, s: nat, t: nat)
    requires Undisturbed(m, m', spaces, s) && t < |spaces|
    ensures DirGrew(m, m', spaces[t].dir)
  {
  }

  /** Unmapped since the frames were taken, unmapped since before. */
  lemma UnmappedSince(m0: Mem, m1: Mem, m2: Mem, spaces: seq<Space>, s: nat, v: nat, i: nat, count: nat)
    requires s < |spaces| && Fits(spaces[s], v, i, count) && AllTranslateAlike(m0, m1, spaces)
    requires Unmapped(m1, m2, spaces[s].dir, v, count)
    ensures Unmapped(m0, m2, spaces[s].dir, v, count)
  {
    hide Lookup, HasTable;
    FitsInside(spaces[s], v, i, count);
    var done: nat :| UnmappedTo(m1, m2, spaces[s].dir, v, count, done);
    assert UnmappedTo(m0, m2, spaces[s].dir, v, count, done);
  }

  /** The pages v..v+count are mapped to consecutive frames with the flags. */
  ghost predicate MappedFresh(m: Mem, dir: nat, v: nat, count: nat, flags: nat) {
    exists frame: int :: MapsRange(m, dir, v, count, frame, flags)
  }

  lemma IsMappedFresh(m: Mem, dir: nat, v: nat, count: nat, flags: nat)
    requires exists frame: int :: MapsRange(m, dir, v, count, frame, flags)
    ensures MappedFresh(m, dir, v, count, flags)
  {
  }

  lemma FreshStays(m: Mem, m': Mem, spaces: seq<Space>, v: nat, i: nat, count: nat, flags: nat, spaces': seq<Space>)
    requires spaces != [] && SameShape(spaces, spaces') && AllTranslateAlike(m, m', spaces')
    requires Chosen(spaces[0], NULL, count, v, i) && v != NULL && MappedFresh(m, spaces[0].dir, v, count, flags)
    ensures MappedFresh(m', spaces'[0].dir, v, count, flags)
  {
    hide Lookup;
    FitsInside(spaces[0], v, i, count);
    var frame: int :| MapsRange(m, spaces[0].dir, v, count, frame, flags);
    forall j | 0 <= j < count
      ensures MapsWith(m', spaces'[0].dir, v, j, frame, flags)
    {
      assert MapsWith(m, spaces[0].dir, v, j, frame, flags);
    }
    assert MapsRange(m', spaces'[0].dir, v, count, frame, flags);
  }

  lemma {:induction false} UnmappedIs(m: Mem, m': Mem, dir: nat, v: nat, count: nat, done: nat)
    requires UnmappedTo(m, m', dir, v, count, done)
    ensures Unmapped(m, m', dir, v, count)
  {
  }

  /** After a failed call every page of the range is not present, or as it was before. */
  lemma UnmappedPages(m: Mem, m': Mem, dir: nat, v: nat, count: nat)
    requires Unmapped(m, m', dir, v, count)
    ensures forall u :: v <= u < v + count ==>
              (Lookup(m', dir, u) == (u - v) * 4096 && Lookup(m', dir, u) % 2 == 0) ||
              Lookup(m', dir, u) == Lookup(m, dir, u)
  {
    hide Lookup, HasTable;
    var done: nat :| UnmappedTo(m, m', dir, v, count, done);
  }

  lemma TablesPersist(m: Mem, m': Mem, dir: nat, v: nat, n: nat)
    requires TablesThere(m, dir, v, n) && DirGrew(m, m', dir)
    ensures TablesThere(m', dir, v, n)
  {
    hide HasTable, Word;
    forall j: nat | n > 0 && v / PAGES_PER_TABLE <= j <= (v + n - 1) / PAGES_PER_TABLE
      ensures HasTable(m', dir, j)
    {
      assert HasTable(m, dir, j);
      SameWord(m, m', dir, j);
    }
  }

  // ------------------------------------------------------------ from step to step

  lemma {:induction false} SameWordsSameMissing(m: Mem, m': Mem, dir: nat, v: nat, n: nat)
    requires forall j :: Word(m', dir, j) == Word(m, dir, j)
    ensures Missing(m', dir, v, n) == Missing(m, dir, v, n)
    decreases n
  {
    if n > 0 { SameWordsSameMissing(m, m', dir, v, n - 1); }
  }

  lemma SameMissing(m: Mem, m': Mem, spaces: seq<Space>, s: nat, v: nat, n: nat)
    requires DirsAlike(m, m', spaces) && s < |spaces|
    ensures Missing(m', spaces[s].dir, v, n) == Missing(m, spaces[s].dir, v, n)
  {
    SameWordsSameMissing(m, m', spaces[s].dir, v, n);
  }

  lemma LooseTranslateAlike(m: Mem, bs: seq<Block>, m': Mem, spaces: seq<Space>, owner: Owners)
    requires Inv(m, bs, spaces, owner) && OnlyLooseWritten(m, m', owner)
    ensures AllTranslateAlike(m, m', spaces) && DirsAlike(m, m', spaces)
  {
    forall t | 0 <= t < |spaces|
      ensures forall i :: Word(m', spaces[t].dir, i) == Word(m, spaces[t].dir, i)
      ensures forall u :: spaces[t].Start() <= u < spaces[t].End() ==>
                Lookup(m', spaces[t].dir, u) == Lookup(m, spaces[t].dir, u)
    {
      SameLookups(m, bs, m', spaces[t], t, owner);
    }
  }

  lemma AlikeRefl(m: Mem, spaces: seq<Space>, v: int, count: nat)
    ensures AllTranslateAlike(m, m, spaces) && OthersTranslateAlike(m, m, spaces, 0)
    ensures spaces != [] ==> TranslatesAlike(m, m, spaces[0], v, count)
  {
  }

  /** A mapping in the kernel's space between steps that change no translation. */
  lemma AlikeThrough(m0: Mem, m1: Mem, m2: Mem, m3: Mem, spaces: seq<Space>, v: int, count: nat)
    requires spaces != [] && AllTranslateAlike(m0, m1, spaces) && AllTranslateAlike(m2, m3, spaces)
    requires OthersTranslateAlike(m1, m2, spaces, 0) && TranslatesAlike(m1, m2, spaces[0], v, count)
    ensures OthersTranslateAlike(m0, m3, spaces, 0) && TranslatesAlike(m0, m3, spaces[0], v, count)
  {
  }

  /** A page of the kernel's for which no table could be had. */
  lemma NoPageMapped(m0: Mem, m1: Mem, m2: Mem, m3: Mem, spaces: seq<Space>, g: nat, done: nat)
    requires spaces != [] && AllTranslateAlike(m0, m1, spaces) && AllTranslateAlike(m2, m3, spaces)
    requires TranslatesAlike(m1, m2, spaces[0], g, 1) && WalkedTo(m1, m2, spaces[0].dir, g, 1, done) && done != 1
    ensures TranslatesAlike(m0, m3, spaces[0], 0, 0)
  {
    hide Lookup, TablesThere;
  }

  lemma AllAlike(m: Mem, spaces: seq<Space>, s: nat, v: int, count: nat)
    requires s < |spaces|
    ensures OthersTranslateAlike(m, m, spaces, 0) && OwnKept(m, m, spaces[s], s, v, count) &&
              TranslatesAlike(m, m, spaces[s], v, count)
  {
  }

  /** What a step keeps when only frames have been taken before it. */
  lemma SinceTaken(m0: Mem, m1: Mem, m2: Mem, spaces: seq<Space>, spaces': seq<Space>, s: nat, v: int, count: nat)
    requires s < |spaces| && SameShape(spaces, spaces') && AllTranslateAlike(m0, m1, spaces)
    ensures OthersTranslateAlike(m1, m2, spaces', 0) ==> OthersTranslateAlike(m0, m2, spaces', 0)
    ensures OwnKept(m1, m2, spaces[s], s, v, count) ==> OwnKept(m0, m2, spaces[s], s, v, count)
    ensures TranslatesAlike(m1, m2, spaces[s], v, count) ==> TranslatesAlike(m0, m2, spaces[s], v, count)
  {
    hide Lookup;
  }

  lemma AlikeThen(m0: Mem, m1: Mem, m2: Mem, sp: Space, v: int, count: nat)
    requires TranslatesAlike(m0, m1, sp, v, count) && TranslatesAlike(m1, m2, sp, 0, 0)
    ensures TranslatesAlike(m0, m2, sp, v, count)
  {
    hide Lookup;
  }

  lemma AlikeOnce(m0: Mem, m1: Mem, m2: Mem, sp: Space, v: int, count: nat)
    requires TranslatesAlike(m0, m1, sp, v, count) && TranslatesAlike(m1, m2, sp, v, count)
    ensures TranslatesAlike(m0, m2, sp, v, count)
  {
    hide Lookup;
  }

  lemma WithBlocksShape(spaces: seq<Space>, s: nat, blocks: seq<VBlock>)
    requires s < |spaces|
    ensures SameShape(spaces, WithBlocks(spaces, s, blocks))
    ensures forall t :: 0 <= t < |spaces| && t != s ==> WithBlocks(spaces, s, blocks)[t] == spaces[t]
  {
  }

  lemma SameShapeRefl(spaces: seq<Space>)
    ensures SameShape(spaces, spaces)
  {
  }

  lemma NothingElse(m: Mem, m': Mem, spaces: seq<Space>, s: nat)
    requires 0 < s < |spaces| && OthersTranslateAlike(m, m', spaces, 0)
    ensures TranslatesAlike(m, m', spaces[s], 0, 0)
  {
  }

  /** A table block entered in the kernel's space, the table exchanged, the old block gone. */
  lemma UserTableGrown(m0: Mem, m1: Mem, m2: Mem, sp0: seq<Space>, sp1: seq<Space>, s: nat, capacity: nat, table: int,
                       sp3: seq<Space>)
    requires 0 < s < |sp0| && SameShape(sp0, sp1) && forall t :: 0 < t < |sp0| ==> sp1[t] == sp0[t]
    requires SameShape(sp1[s := sp1[s].(capacity := capacity, table := table)], sp3)
    requires forall t :: 0 < t < |sp3| ==> sp3[t] == sp1[s := sp1[s].(capacity := capacity, table := table)][t]
    requires OthersTranslateAlike(m0, m1, sp1, 0) && AllTranslateAlike(m1, m2, sp3)
    ensures SameShape(sp0, sp3) && sp3[s] == sp0[s].(capacity := capacity, table := table)
    ensures forall t :: 0 < t < |sp3| && t != s ==> sp3[t] == sp0[t]
    ensures TranslatesAlike(m0, m2, sp3[s], 0, 0)
  {
    forall u | sp3[s].Start() <= u < sp3[s].End()
      ensures Lookup(m2, sp3[s].dir, u) == Lookup(m0, sp3[s].dir, u)
    {
      assert Lookup(m2, sp3[s].dir, u) == Lookup(m1, sp3[s].dir, u);
      assert Lookup(m1, sp1[s].dir, u) == Lookup(m0, sp1[s].dir, u);
    }
  }

  lemma HeldByBlock(kernel: seq<VBlock>, sp: Space, k: nat)
    requires k < |kernel| && IsTableBlock(kernel[k], sp)
    ensures TableHeld(kernel, sp)
  {
  }

  lemma HeldAfterInsert(spaces: seq<Space>, s: nat, i: nat, b: VBlock)
    requires TablesHeld(spaces) && s < |spaces| && i <= |spaces[s].blocks|
    ensures TablesHeld(WithBlocks(spaces, s, InsertAt(spaces[s].blocks, i, b)))
  {
    var after := WithBlocks(spaces, s, InsertAt(spaces[s].blocks, i, b));
    forall t | 0 < t < |spaces|
      ensures TableHeld(after[0].blocks, after[t])
    {
      var k :| 0 <= k < |spaces[0].blocks| && IsTableBlock(spaces[0].blocks[k], spaces[t]);
      HeldByBlock(after[0].blocks, after[t], if s == 0 && k >= i then k + 1 else k);
    }
  }

  lemma HeldAfterEnlarging(spaces: seq<Space>)
    requires TablesHeld(spaces) && spaces[0].blocks != [] && spaces[0].blocks[|spaces[0].blocks| - 1].kind == Reserved
    ensures TablesHeld(spaces[0 := Enlarged(spaces[0])])
  {
    var after := spaces[0 := Enlarged(spaces[0])];
    forall t | 0 < t < |spaces|
      ensures TableHeld(after[0].blocks, after[t])
    {
      var k :| 0 <= k < |spaces[0].blocks| && IsTableBlock(spaces[0].blocks[k], spaces[t]);
      HeldByBlock(after[0].blocks, after[t], k);
    }
  }

  /** Dropping a kernel block that holds no table. */
  lemma HeldAfterRemove(spaces: seq<Space>, k: nat)
    requires TablesHeld(spaces) && k < |spaces[0].blocks|
    requires forall t :: 0 < t < |spaces| ==> spaces[t].table != spaces[0].blocks[k].base
    ensures TablesHeld(WithBlocks(spaces, 0, RemoveAt(spaces[0].blocks, k)))
  {
    var after := WithBlocks(spaces, 0, RemoveAt(spaces[0].blocks, k));
    forall t | 0 < t < |spaces|
      ensures TableHeld(after[0].blocks, after[t])
    {
      var j :| 0 <= j < |spaces[0].blocks| && IsTableBlock(spaces[0].blocks[j], spaces[t]);
      HeldByBlock(after[0].blocks, after[t], if j > k then j - 1 else j);
    }
  }

  /** The block just entered, and where it is. */
  lemma EntryIsThere(sp: Space, sp': Space, i: nat, b: VBlock)
    requires EntryAdded(sp, sp', 0, i, b)
    ensures i < |sp'.blocks| && sp'.blocks[i] == b
  {
  }

  /** The table of space s moves to a kernel block at v that has just been entered, and the block
      at its old address goes. */
  lemma HeldAfterExchange(sp0: seq<Space>, sp1: seq<Space>, s: nat, i: nat, v: int, size: nat, sp2: seq<Space>, k: nat)
    requires TablesHeld(sp0) && TablesHeld(sp1) && 0 < s < |sp0| == |sp1| && forall t :: 0 < t < |sp0| ==>
               sp1[t] == sp0[t]
    requires EntryAdded(sp0[0], sp1[0], 0, i, VBlock(Memory, v, size)) && NoBaseAt(sp0[0].blocks, v)
    requires sp2 == sp1[s := sp1[s].(capacity := Capacity(size), table := v)]
    requires Descending(sp1[0].blocks) && k < |sp1[0].blocks| && Contains(sp1[0].blocks[k], sp0[s].table)
    ensures TablesHeld(sp2) && IsTableBlock(sp1[0].blocks[k], sp0[s]) && sp0[s].table != v
    ensures TablesHeld(WithBlocks(sp2, 0, RemoveAt(sp2[0].blocks, k)))
    ensures TableExchanged(sp0[0], WithBlocks(sp2, 0, RemoveAt(sp2[0].blocks, k))[0], sp0[s], i, v, size)
  {
    TablesElsewhere(sp0, v);
    var j :| 0 <= j < |sp1[0].blocks| && IsTableBlock(sp1[0].blocks[j], sp1[s]);
    OnlyOneContains(sp1[0].blocks, k, sp0[s].table);
    assert Contains(sp1[0].blocks[j], sp0[s].table);
    assert j == k;
    EntryIsThere(sp0[0], sp1[0], i, VBlock(Memory, v, size));
    forall t | 0 < t < |sp2|
      ensures TableHeld(sp2[0].blocks, sp2[t])
    {
      if t == s { HeldByBlock(sp2[0].blocks, sp2[s], i); }
      else { assert TableHeld(sp1[0].blocks, sp1[t]); }
    }
    HeldAfterRemove(sp2, k);
  }

  lemma HeldAfterRelease(spaces: seq<Space>, s: nat, k: nat, v: int)
    requires TablesHeld(spaces) && s < |spaces| && k < |spaces[s].blocks| && Contains(spaces[s].blocks[k], v) &&
               !InTableBlock(spaces, s, v)
    ensures TablesHeld(WithBlocks(spaces, s, RemoveAt(spaces[s].blocks, k)))
  {
    if s == 0 {
      HeldAfterRemove(spaces, k);
    } else {
      var after := WithBlocks(spaces, s, RemoveAt(spaces[s].blocks, k));
      forall t | 0 < t < |spaces|
        ensures TableHeld(after[0].blocks, after[t])
      {
        var j :| 0 <= j < |spaces[0].blocks| && IsTableBlock(spaces[0].blocks[j], spaces[t]);
        HeldByBlock(after[0].blocks, after[t], j);
      }
    }
  }

  /** A new space whose table is a kernel block that has just been entered. */
  lemma HeldWithNewSpace(sp0: seq<Space>, sp1: seq<Space>, i: nat, v: int, sp: Space)
    requires TablesHeld(sp0) && TablesHeld(sp1) && |sp1| == |sp0| && forall t :: 0 < t < |sp0| ==> sp1[t] == sp0[t]
    requires EntryAdded(sp0[0], sp1[0], 0, i, VBlock(Memory, v, 1)) && NoBaseAt(sp0[0].blocks, v)
    requires sp.table == v && sp.capacity == Capacity(1)
    ensures TablesHeld(sp1 + [sp])
  {
    TablesElsewhere(sp0, v);
    EntryIsThere(sp0[0], sp1[0], i, VBlock(Memory, v, 1));
    var after := sp1 + [sp];
    forall t | 0 < t < |after|
      ensures TableHeld(after[0].blocks, after[t])
    {
      if t == |sp1| { HeldByBlock(after[0].blocks, sp, i); }
      else { assert TableHeld(sp1[0].blocks, sp1[t]); }
    }
  }

  ghost predicate NoBaseAt(bs: seq<VBlock>, v: int) {
    forall k :: 0 <= k < |bs| ==> bs[k].base != v
  }

  lemma TablesElsewhere(spaces: seq<Space>, v: int)
    requires TablesHeld(spaces) && NoBaseAt(spaces[0].blocks, v)
    ensures forall t :: 0 < t < |spaces| ==> spaces[t].table != v
  {
    forall t | 0 < t < |spaces|
      ensures spaces[t].table != v
    {
      var k :| 0 <= k < |spaces[0].blocks| && IsTableBlock(spaces[0].blocks[k], spaces[t]);
    }
  }

  lemma FittingIsElsewhere(sp: Space, v: int, i: nat, count: nat)
    requires Fits(sp, v, i, count) && Descending(sp.blocks)
    ensures NoBaseAt(sp.blocks, v)
  {
  }

  /** An address chosen for a new block is no block's base. */
  lemma FittingIsChosen(sp: Space, count: nat, v: nat, i: nat)
    requires Chosen(sp, NULL, count, v, i) && v != NULL && Descending(sp.blocks)
    ensures NoBaseAt(sp.blocks, v)
  {
    FittingIsElsewhere(sp, v, i, count);
  }

  /** The block of a held table contains its address. */
  lemma OldTableFound(spaces: seq<Space>, spaces': seq<Space>, s: nat, table: int)
    requires TablesHeld(spaces) && 0 < s < |spaces| && table == spaces[s].table && Descending(spaces[0].blocks)
    requires spaces' != [] && spaces'[0] == spaces[0]
    ensures exists k :: 0 <= k < |spaces'[0].blocks| && Contains(spaces'[0].blocks[k], table) &&
              spaces'[0].blocks[k].kind != Reserved
  {
    var k :| 0 <= k < |spaces[0].blocks| && IsTableBlock(spaces[0].blocks[k], spaces[s]);
    assert Contains(spaces'[0].blocks[k], table);
  }

  lemma OldTableBase(b: VBlock, sp: Space)
    requires IsTableBlock(b, sp)
    ensures b.base == sp.table
  {
  }

  // ------------------------------------------------------------ when there is room

  lemma MissingOne(m: Mem, dir: nat, g: nat)
    ensures Missing(m, dir, g, 1) == MissingBeside(m, dir, 0, 0, g)
  {
    assert Missing(m, dir, g, 0) == 0;
  }

  lemma TablesHaveCome(m: Mem, m': Mem, dir: nat, v: nat, count: nat)
    requires forall j: nat :: count == 0 || j < v / PAGES_PER_TABLE || (v + count - 1) / PAGES_PER_TABLE < j ==>
               Word(m', dir, j) == Word(m, dir, j)
    requires TablesThere(m', dir, v, count)
    ensures TablesCame(m, m', dir, v, count)
  {
    forall g: int | g >= 0
      ensures MissingBeside(m', dir, 0, 0, g) == MissingBeside(m, dir, v, count, g)
    {
      var j: nat := g / PAGES_PER_TABLE;
      assert HasTable(m', dir, j) <==>
               HasTable(m, dir, j) || (count > 0 && v / PAGES_PER_TABLE <= j <= (v + count - 1) / PAGES_PER_TABLE);
    }
  }

  /** With the pages mapped, the kernel's table has room exactly as foreseen. */
  lemma KernelRoomForeseen(m: Mem, m': Mem, sp: Space, left: int, v: nat, count: nat)
    requires TablesCame(m, m', sp.dir, v, count) && (sp.blocks != [] ==> StorageEnd(sp) >= 0)
    ensures KernelRoom(sp, m, left, v, count) <==>
              |sp.blocks| < sp.capacity
              || (GrowsHere(sp, v, count) && left >= 1 + MissingBeside(m', sp.dir, 0, 0, StorageEnd(sp)))
  {
  }

  /** What the kernel's directory says decides, not the rest of memory. */
  lemma SameTakes(m: Mem, m': Mem, kernel: Space, bs: seq<Block>, free: int, v: nat, paddr: int, count: nat)
    requires forall j :: Word(m', kernel.dir, j) == Word(m, kernel.dir, j)
    ensures KernelTakes(kernel, m', bs, free, v, paddr, count) <==> KernelTakes(kernel, m, bs, free, v, paddr, count)
  {
    SameWordsSameMissing(m, m', kernel.dir, v, count);
  }

  lemma SameFits(m: Mem, m': Mem, kernel: Space, bs: seq<Block>, free: int, size: nat)
    requires forall j :: Word(m', kernel.dir, j) == Word(m, kernel.dir, j)
    ensures TableFits(kernel, m', bs, free, size) <==> TableFits(kernel, m, bs, free, size)
  {
    forall v: nat
      ensures KernelTakes(kernel, m', bs, free, v, FreeRing.NONE, size) <==>
                KernelTakes(kernel, m, bs, free, v, FreeRing.NONE, size)
    {
      SameTakes(m, m', kernel, bs, free, v, FreeRing.NONE, size);
    }
  }

  /** The highest gap is one. */
  lemma ChosenIsUnique(sp: Space, count: nat, v1: nat, i1: nat, v2: nat, i2: nat)
    requires Descending(sp.blocks) && count >= 1 && Chosen(sp, NULL, count, v1, i1) && Chosen(sp, NULL, count, v2, i2)
    ensures v1 == v2
  {
    if v1 != NULL { PositionIsVacant(sp.blocks, i1, v1, count); }
    if v2 != NULL { PositionIsVacant(sp.blocks, i2, v2, count); }
  }

  lemma FitsAtChosen(kernel: Space, m: Mem, bs: seq<Block>, free: int, size: nat, v: nat, i: nat)
    requires Descending(kernel.blocks) && size >= 1 && Chosen(kernel, NULL, size, v, i)
    ensures TableFits(kernel, m, bs, free, size) <==> KernelTakes(kernel, m, bs, free, v, FreeRing.NONE, size)
  {
    hide Chosen, KernelTakes;
    if TableFits(kernel, m, bs, free, size) {
      var w: nat, k: nat :| Chosen(kernel, NULL, size, w, k) &&
          KernelTakes(kernel, m, bs, free, w, FreeRing.NONE, size);
      ChosenIsUnique(kernel, size, v, i, w, k);
    }
  }

  lemma RoomIs(spaces: seq<Space>, s: nat, m: Mem, bs: seq<Block>, free: int, v: nat, count: nat)
    requires s < |spaces|
    ensures |spaces[s].blocks| < spaces[s].capacity ==> RoomNow(spaces, s, m, bs, free, v, count)
    ensures |spaces[s].blocks| >= spaces[s].capacity ==>
              (RoomNow(spaces, s, m, bs, free, v, count) <==>
                 if s == 0 then GrowsHere(spaces[0], v, count) &&
                     free >= 1 + MissingBeside(m, spaces[0].dir, 0, 0, StorageEnd(spaces[0]))
                 else TableFits(spaces[0], m, bs, free, NewSize(spaces[s].capacity)))
  {
  }

  lemma KernelDirAlike(m: Mem, m': Mem, spaces: seq<Space>)
    requires spaces != [] && DirsAlike(m, m', spaces)
    ensures forall j :: Word(m', spaces[0].dir, j) == Word(m, spaces[0].dir, j)
  {
  }

  /** While directories keep their entries, the room does not change. */
  lemma SameRoom(m: Mem, m': Mem, spaces: seq<Space>, s: nat, bs: seq<Block>, free: int, v: nat, count: nat)
    requires s < |spaces| && DirsAlike(m, m', spaces)
    ensures RoomAfter(spaces, s, m', bs, free, v, count) <==> RoomAfter(spaces, s, m, bs, free, v, count)
  {
    hide TableFits;
    SameMissing(m, m', spaces, s, v, count);
    KernelDirAlike(m, m', spaces);
    if s != 0 {
      var missing := Missing(m, spaces[s].dir, v, count);
      SameFits(m, m', spaces[0], TakeSingles(bs, missing), free - missing, NewSize(spaces[s].capacity));
    }
  }

  /** Room after a mapping, as foreseen before it. */
  lemma RoomForeseen(m: Mem, m': Mem, spaces: seq<Space>, s: nat, bs: seq<Block>, free: int, v: nat, count: nat)
    requires s < |spaces| && TablesCame(m, m', spaces[s].dir, v, count) && OtherDirsAlike(m, m', spaces, s)
    requires spaces[0].blocks != [] && StorageEnd(spaces[0]) >= 0
    requires Missing(m, spaces[s].dir, v, count) <= free
    ensures var missing := Missing(m, spaces[s].dir, v, count);
            RoomNow(spaces, s, m', TakeSingles(bs, missing), free - missing, v, count) <==>
                RoomAfter(spaces, s, m, bs, free, v, count)
  {
    hide TableFits, Missing;
    var missing := Missing(m, spaces[s].dir, v, count);
    if s == 0 {
      KernelRoomForeseen(m, m', spaces[0], free - missing, v, count);
    } else {
      SameFits(m, m', spaces[0], TakeSingles(bs, missing), free - missing, NewSize(spaces[s].capacity));
    }
  }

  /** Success with fresh frames is a fit, and room after the pages have been taken. */
  lemma FreshSucceeds(spaces: seq<Space>, s: nat, m: Mem, bs: seq<Block>, free: int, v: nat, count: nat)
    requires s < |spaces| && v != NULL && FirstFit(bs, count) < |bs|
    ensures Succeeds(spaces, s, m, bs, free, v, FreeRing.NONE, count) <==>
              RoomAfter(spaces, s, m, Carve(bs, FirstFit(bs, count), count), free - count, v, count)
  {
  }

  lemma NoneSucceeds(spaces: seq<Space>, s: nat, m: Mem, bs: seq<Block>, free: int, v: nat, count: nat)
    requires s < |spaces| && FirstFit(bs, count) == |bs|
    ensures !Succeeds(spaces, s, m, bs, free, v, FreeRing.NONE, count)
  {
  }

  lemma OwnSucceeds(spaces: seq<Space>, s: nat, m: Mem, bs: seq<Block>, free: int, v: nat, paddr: int, count: nat)
    requires s < |spaces| && v != NULL && paddr != FreeRing.NONE
    ensures Succeeds(spaces, s, m, bs, free, v, paddr, count) <==> RoomAfter(spaces, s, m, bs, free, v, count)
  {
  }

  // ------------------------------------------------------------ making room

  lemma NothingHappened(m: Mem, spaces: seq<Space>, s: nat, v: nat, count: nat, owner: Owners)
    requires s < |spaces|
    ensures RangeKept(m, m, spaces[s], v, count) && OwnKept(m, m, spaces[s], s, 0, 0) &&
              OthersTranslateAlike(m, m, spaces, 0)
    ensures KeepsOwners(owner, owner) && Settled(owner, owner) && SameShape(spaces, spaces)
  {
  }

  lemma RoomToSpare(sp: Space, s: nat)
    ensures |sp.blocks| < sp.capacity ==> RoomMade(sp, sp, s)
  {
  }

  lemma UserRoomMade(sp: Space, sp': Space, s: nat)
    requires s != 0 && sp'.blocks == sp.blocks && |sp.blocks| == sp.capacity
    ensures RoomMade(sp, sp', s)
  {
  }

  lemma FitsWithin(sp: Space, v: int, i: nat, count: nat)
    requires Fits(sp, v, i, count)
    ensures i <= |sp.blocks| && count >= 1
  {
  }

  /** A change at page g alone leaves a range without it as it was, in the space as grown too. */
  lemma RangeAround(m: Mem, m': Mem, sp: Space, v: nat, count: nat, g: int)
    requires TranslatesAlike(m, m', sp, g, 1) && !(v <= g < v + count)
    ensures RangeKept(m, m', sp, v, count)
    ensures sp.blocks != [] ==> RangeKept(m, m', Enlarged(sp), v, count)
  {
  }

  lemma OthersWhenGrown(m: Mem, m': Mem, spaces: seq<Space>)
    requires spaces != [] && spaces[0].blocks != [] && OthersTranslateAlike(m, m', spaces, 0)
    ensures OthersTranslateAlike(m, m', spaces[0 := Enlarged(spaces[0])], 0)
  {
  }

  lemma GrownFromPending(m: Mem, sp: Space, o0: Owners, o: Owners)
    requires CanGrow(m, sp, o) && KeepsOwners(o0, o)
    ensures KeepsOwners(o0, GrownOwners(m, sp, o))
  {
  }

  lemma TableGrew(m: Mem, m': Mem, spaces: seq<Space>)
    requires spaces != [] && spaces[0].blocks != [] && |spaces[0].blocks| == spaces[0].capacity
    requires TranslatesAlike(m, m', spaces[0], StorageEnd(spaces[0]), 1)
    ensures OwnKept(m, m', spaces[0], 0, 0, 0) && SameShape(spaces, spaces[0 := Enlarged(spaces[0])])
    ensures RoomMade(spaces[0], Enlarged(spaces[0]), 0)
  {
  }

  lemma TableMoved(m: Mem, m': Mem, spaces: seq<Space>, spaces': seq<Space>, s: nat, v: nat, i: nat, count: nat)
    requires 0 < s < |spaces| && SameShape(spaces, spaces') && spaces'[s].blocks == spaces[s].blocks
    requires TranslatesAlike(m, m', spaces'[s], 0, 0) && Fits(spaces[s], v, i, count)
    ensures RangeKept(m, m', spaces'[s], v, count) && OwnKept(m, m', spaces[s], s, 0, 0) &&
              Fits(spaces'[s], v, i, count)
  {
  }

  // ------------------------------------------------------------ entering a block

  lemma EntryMade(sp: Space, mid: Space, s: nat, i: nat, b: VBlock)
    requires RoomMade(sp, mid, s) && i <= |mid.blocks|
    ensures EntryAdded(sp, mid.(blocks := InsertAt(mid.blocks, i, b)), s, i, b)
  {
  }

  /** Pending frames become a block's, or go back, after everything else has settled. */
  lemma PendingMovedOn(o0: Owners, o1: Owners, o2: Owners, kind: Kind, frame: nat, count: nat, tag: Owner)
    requires Settled(o0, o1) && |o2| == |o1| && tag != Outside && tag != Pending &&
               (kind == Memory ==> PendingRange(o1, frame, count))
    requires forall f :: 0 <= f < |o1| ==>
               if kind == Memory && frame <= f < frame + count then o2[f] == tag
               else o2[f] == o1[f] || (o1[f] == FreePage && o2[f].OfTable?)
    ensures MovedOn(o0, o2, kind, frame, count)
    ensures KeepsOwners(o1, o2)
  {
  }

  lemma StillPending(o0: Owners, o1: Owners, kind: Kind, frame: nat, count: nat)
    requires Settled(o0, o1) && (kind == Memory ==> PendingRange(o0, frame, count))
    ensures kind == Memory ==> PendingRange(o1, frame, count)
  {
  }

  lemma KeepsOwnersTrans(o0: Owners, o1: Owners, o2: Owners)
    requires KeepsOwners(o0, o1) && KeepsOwners(o1, o2)
    ensures KeepsOwners(o0, o2)
  {
  }

  lemma OwnKeptOn(m0: Mem, m1: Mem, m2: Mem, sp: Space, s: nat, v: int, count: nat)
    requires OwnKept(m0, m1, sp, s, v, count) && TranslatesAlike(m1, m2, sp, v, count)
    ensures OwnKept(m0, m2, sp, s, v, count)
  {
  }

  lemma AlikeOn(m0: Mem, m1: Mem, m2: Mem, spaces: seq<Space>, s: nat, v: int, count: nat)
    requires s < |spaces| && AllTranslateAlike(m1, m2, spaces)
    requires OthersTranslateAlike(m0, m1, spaces, s) && TranslatesAlike(m0, m1, spaces[s], v, count)
    ensures OthersTranslateAlike(m0, m2, spaces, s) && TranslatesAlike(m0, m2, spaces[s], v, count)
  {
  }

  lemma DroppedSettles(o0: Owners, o: Owners, tag: Owner)
    requires |o| == |o0| && tag.OfBlock?
    requires forall f :: 0 <= f < |o| ==> o[f] == if o0[f] == tag then FreePage else o0[f]
    ensures Settled(o0, o)
  {
  }

  lemma OwnKeptBoth(m0: Mem, m1: Mem, m2: Mem, sp: Space, s: nat, v: int, count: nat)
    requires OwnKept(m0, m1, sp, s, v, count) && OwnKept(m1, m2, sp, s, 0, 0)
    ensures OwnKept(m0, m2, sp, s, v, count)
  {
  }

  lemma OwnFromMapping(m: Mem, m': Mem, sp: Space, s: nat, v: int, count: nat)
    requires TranslatesAlike(m, m', sp, v, count)
    ensures OwnKept(m, m', sp, s, v, count)
  {
  }

  lemma NoRoomWithoutTables(spaces: seq<Space>, s: nat, m: Mem, bs: seq<Block>, free: int, v: nat, count: nat)
    requires s < |spaces|
    ensures RoomAfter(spaces, s, m, bs, free, v, count) ==> Missing(m, spaces[s].dir, v, count) <= free
  {
  }

  lemma ShapeAlike(m: Mem, m': Mem, spaces: seq<Space>, spaces': seq<Space>, s: nat)
    requires SameShape(spaces, spaces') && OthersTranslateAlike(m, m', spaces, s)
    ensures OthersTranslateAlike(m, m', spaces', s)
  {
  }

  lemma OthersTrans(m0: Mem, m1: Mem, m2: Mem, spaces: seq<Space>, s: nat)
    requires OthersTranslateAlike(m0, m1, spaces, s) && OthersTranslateAlike(m1, m2, spaces, s)
    ensures OthersTranslateAlike(m0, m2, spaces, s)
  {
  }

  lemma WithBlocksAlike(m: Mem, m': Mem, spaces: seq<Space>, s: nat, blocks: seq<VBlock>, t: nat)
    requires s < |spaces| && OthersTranslateAlike(m, m', spaces, t)
    ensures OthersTranslateAlike(m, m', WithBlocks(spaces, s, blocks), t)
  {
  }

  lemma ShapeTrans(a: seq<Space>, b: seq<Space>, c: seq<Space>)
    requires SameShape(a, b) && SameShape(b, c)
    ensures SameShape(a, c)
  {
  }

  lemma CountFits(m: Mem, bs: seq<Block>, spaces: seq<Space>, s: nat, owner: Owners)
    requires Inv(m, bs, spaces, owner) && s < |spaces|
    ensures |spaces[s].blocks| <= spaces[s].capacity
  {
    assert SpaceOk(m, bs, spaces[s], s, owner);
  }

  lemma StillMapped(m: Mem, m': Mem, sp: Space, v: nat, count: nat, frame: nat, flags: nat)
    requires sp.Start() <= v && v + count <= sp.End() && RangeKept(m, m', sp, v, count)
    requires forall j :: 0 <= j < count ==> MapsTo(m, sp.dir, v, j, frame) && MapsWith(m, sp.dir, v, j, frame, flags)
    ensures forall j :: 0 <= j < count ==> MapsTo(m', sp.dir, v, j, frame) && MapsWith(m', sp.dir, v, j, frame, flags)
  {
    forall j | 0 <= j < count
      ensures MapsTo(m', sp.dir, v, j, frame) && MapsWith(m', sp.dir, v, j, frame, flags)
    {
      assert MapsTo(m, sp.dir, v, j, frame) && MapsWith(m, sp.dir, v, j, frame, flags);
    }
  }

  /** Frames taken, tables made, and the frames passed on: nothing is left between owners. */
  lemma PassedOn(o0: Owners, o1: Owners, o2: Owners, frame: nat, count: nat)
    requires o1 == Given(o0, frame, count, Pending) && frame + count <= |o0|
    requires forall f :: frame <= f < frame + count ==> o0[f] == FreePage
    requires |o2| == |o1| && Settled(o1, o2)
    ensures PendingRange(o2, frame, count)
    ensures forall tag: Owner :: tag != Outside && tag != Pending ==> Settled(o0, Given(o2, frame, count, tag))
  {
  }

  lemma OneFrame(o: Owners, frame: nat, tag: Owner)
    requires frame < |o|
    ensures Given(o, frame, 1, tag) == o[frame := tag]
  {
  }

  lemma NoBlockAt(bs: seq<VBlock>, g: int)
    requires Descending(bs) && forall j :: 0 <= j < |bs| ==> !Contains(bs[j], g)
    ensures Vacant(bs, g, 1)
  {
  }

  lemma GrownFits(sp: Space, v: int, i: nat, count: nat)
    requires sp.blocks != [] && Fits(sp, v, i, count) && i < |sp.blocks|
    requires !(v <= StorageEnd(sp) < v + count)
    ensures Fits(Enlarged(sp), v, i, count)
    ensures |Enlarged(sp).blocks| == |sp.blocks|
  {
  }

  lemma FittingIsVacant(m: Mem, bs: seq<Block>, spaces: seq<Space>, s: nat, owner: Owners, v: int, i: nat, count: nat)
    requires Inv(m, bs, spaces, owner) && s < |spaces| && Fits(spaces[s], v, i, count)
    ensures Vacant(spaces[s].blocks, v, count)
  {
    assert SpaceOk(m, bs, spaces[s], s, owner);
    PositionIsVacant(spaces[s].blocks, i, v, count);
  }

  /** Lines 329-333. */
  method FindBlock(bs: seq<VBlock>, v: int) returns (i: nat)
    ensures i <= |bs| && (i < |bs| ==> Contains(bs[i], v))
    ensures forall j :: 0 <= j < i ==> !Contains(bs[j], v)
  {
    i := 0;
    while i < |bs| && !Contains(bs[i], v)
      invariant i <= |bs|
      invariant forall j :: 0 <= j < i ==> !Contains(bs[j], v)
    {
      i := i + 1;
    }
  }

  lemma OnlyOneContains(bs: seq<VBlock>, i: nat, v: int)
    requires Descending(bs) && i < |bs| && Contains(bs[i], v)
    ensures forall j :: 0 <= j < |bs| && Contains(bs[j], v) ==> j == i
  {
  }

  lemma OwnedByBlock(m: Mem, bs: seq<Block>, spaces: seq<Space>, s: nat, k: nat, owner: Owners, f: nat)
    requires Inv(m, bs, spaces, owner) && s < |spaces| && k < |spaces[s].blocks| && f < |owner|
    requires owner[f] == OfBlock(s, spaces[s].blocks[k].base)
    ensures spaces[s].blocks[k].base >= 0 && spaces[s].blocks[k].kind == Memory
    ensures FirstFrame(m, spaces[s].dir, spaces[s].blocks[k]) <= f < FirstFrame(m, spaces[s].dir,
              spaces[s].blocks[k]) + spaces[s].blocks[k].len
  {
    var b := spaces[s].blocks[k];
    assert SpaceOk(m, bs, spaces[s], s, owner);
    assert Justified(m, bs, spaces, owner[f], f);
    var j :| 0 <= j < |spaces[s].blocks| && BlockHolds(m, spaces[s], j, b.base, f);
  }

  /** The frames of a dropped block are exactly those its table entry owned. */
  lemma DroppedExactly(m: Mem, bs: seq<Block>, spaces: seq<Space>, s: nat, k: nat, owner: Owners)
    requires Inv(m, bs, spaces, owner) && s < |spaces| && CanDrop(spaces[s], k)
    ensures var b := spaces[s].blocks[k];
            var r := Dropped(m, spaces[s], b, owner);
            && (forall f :: 0 <= f < |owner| ==> r[f] == if owner[f] == OfBlock(s, b.base) then Pending else owner[f])
            && (b.kind == Memory ==>
                  0 <= FirstFrame(m, spaces[s].dir, b) && FirstFrame(m, spaces[s].dir, b) + b.len <= |owner|)
            && b.base < PAGE_COUNT
  {
    var sp := spaces[s];
    var b := sp.blocks[k];
    assert SpaceOk(m, bs, sp, s, owner);
    DroppedOwners(m, bs, sp, s, k, owner);
    assert BlockBacked(m, sp, s, k, owner);
    if b.kind == Memory {
      assert PageBacked(m, sp.dir, b.base, 0, FirstFrame(m, sp.dir, b), owner, OfBlock(s, b.base));
      assert PageBacked(m, sp.dir, b.base, b.len - 1, FirstFrame(m, sp.dir, b), owner, OfBlock(s, b.base));
    }
    forall f | 0 <= f < |owner| && owner[f] == OfBlock(s, b.base)
      ensures b.kind == Memory && FirstFrame(m, sp.dir, b) <= f < FirstFrame(m, sp.dir, b) + b.len
    {
      OwnedByBlock(m, bs, spaces, s, k, owner, f);
    }
  }

  lemma DroppedThenFreed(m: Mem, bs: seq<Block>, spaces: seq<Space>, s: nat, k: nat, owner: Owners)
    requires Inv(m, bs, spaces, owner) && s < |spaces| && CanDrop(spaces[s], k)
    ensures var b := spaces[s].blocks[k];
            var frame := FirstFrame(m, spaces[s].dir, b);
            var r := Dropped(m, spaces[s], b, owner);
            && 0 <= b.base < PAGE_COUNT && b.len >= 1
            && (b.kind == Memory ==> 0 <= frame && frame + b.len <= |r| && forall f :: frame <= f < frame + b.len ==>
                 r[f] == Pending)
            && forall f :: 0 <= f < |owner| ==>
                 (if b.kind == Memory then Given(r, frame, b.len, FreePage) else r)[f]
                   == if owner[f] == OfBlock(s, b.base) then FreePage else owner[f]
  {
    var b := spaces[s].blocks[k];
    assert SpaceOk(m, bs, spaces[s], s, owner);
    DroppedExactly(m, bs, spaces, s, k, owner);
    assert BlockBacked(m, spaces[s], s, k, owner);
    var frame := FirstFrame(m, spaces[s].dir, b);
    forall f | b.kind == Memory && frame <= f < frame + b.len
      ensures 0 <= f < |owner| && owner[f] == OfBlock(s, b.base)
    {
      assert PageBacked(m, spaces[s].dir, b.base, f - frame, frame, owner, OfBlock(s, b.base));
    }
    forall f | 0 <= f < |owner| && owner[f] == OfBlock(s, b.base)
      ensures b.kind == Memory && FirstFrame(m, spaces[s].dir, b) <= f < FirstFrame(m, spaces[s].dir, b) + b.len
    {
      OwnedByBlock(m, bs, spaces, s, k, owner, f);
    }
  }

  lemma MappedThere(m: Mem, dir: nat, v: nat, page: nat, count: nat, flags: nat)
    requires flags < PAGE_SIZE
    requires forall u :: v <= u < v + count ==>
               Lookup(m, dir, u) == EntryWord(page * PAGE_SIZE + (u - v) * PAGE_SIZE, flags)
    ensures forall j :: 0 <= j < count ==> MapsTo(m, dir, v, j, page) && MapsWith(m, dir, v, j, page, flags)
  {
    hide Lookup, EntryWord;
    forall j | 0 <= j < count
      ensures MapsTo(m, dir, v, j, page) && MapsWith(m, dir, v, j, page, flags)
    {
      AlignedEntry(page + j, flags);
      assert page * PAGE_SIZE + j * PAGE_SIZE == (page + j) * PAGE_SIZE;
      assert Lookup(m, dir, v + j) == EntryWord(page * PAGE_SIZE + ((v + j) - v) * PAGE_SIZE, flags);
    }
  }

  lemma MappedFrame(m: Mem, bs: seq<Block>, m': Mem, bs': seq<Block>, spaces: seq<Space>, s: nat, owner: Owners,
                    owner': Owners)
    requires Inv(m, bs, spaces, owner) && s < |spaces|
    requires Extends(m, bs, m', bs', spaces[s].dir, spaces[s].lo, spaces[s].hi)
    requires TablesMarked(m', bs, bs', spaces[s], s, owner, owner')
    ensures OthersTranslateAlike(m, m', spaces, s) && OtherDirsAlike(m, m', spaces, s)
    ensures forall f :: 0 <= f < |owner| && owner'[f] != owner[f] ==> owner[f] == FreePage && owner'[f].OfTable?
  {
    assert forall f :: 0 <= f < |owner| ==> Justified(m, bs, spaces, owner[f], f);
    forall t | 0 <= t < |spaces| && t != s
      ensures forall i :: Word(m', spaces[t].dir, i) == Word(m, spaces[t].dir, i)
      ensures forall u :: spaces[t].Start() <= u < spaces[t].End() ==>
                Lookup(m', spaces[t].dir, u) == Lookup(m, spaces[t].dir, u)
    {
      OtherSpaceUntouched(m, bs, m', bs', spaces[s], s, spaces[t], t, owner);
    }
  }

  lemma CoversInOwners(m: Mem, bs: seq<Block>, spaces: seq<Space>, owner: Owners)
    requires Inv(m, bs, spaces, owner)
    ensures LooseMove(bs, owner, owner) && |owner| == |m|
  {
    assert forall f :: 0 <= f < |owner| ==> Justified(m, bs, spaces, owner[f], f);
  }

  lemma CoveredWithin(bs: seq<Block>, frames: nat)
    requires Within(bs, frames)
    ensures forall p :: Covers(bs, p) ==> 0 <= p < frames
  {
  }

  /** Taking one page leaves a directory and its tables alone. */
  lemma FirstFrameTaken(m: Mem, bs: seq<Block>, m1: Mem, bs1: seq<Block>, dir: nat, lo: nat, hi: nat)
    requires Sorted(bs) && Within(bs, |m|) && Total(bs) >= 2 && WellShaped(m1) && OnlyFreeWritten(m, m1, bs)
    requires TablesOk(m, bs, dir, lo, hi)
    ensures FirstFit(bs, 1) == 0 && bs != []
    ensures bs1 == Carve(bs, 0, 1) ==>
              && TablesOk(m1, bs1, dir, lo, hi) && bs1 != []
              && FrameTaken(m, bs, m1, bs1, CarvedPage(bs, 0, 1))
              && !IsTable(m1, dir, lo, hi, CarvedPage(bs, 0, 1)) && CarvedPage(bs, 0, 1) != dir
  {
    OneFrameTaken(m, bs, m1);
    CarveTotal(bs, 0, 1);
    if bs1 == Carve(bs, 0, 1) {
      forall i | lo <= i < hi && HasTable(m1, dir, i)
        ensures HasTable(m, dir, i) && Table(m1, dir, i) == Table(m, dir, i)
      {
      }
    }
  }

  /** The first page and its table come from the free list. */
  lemma FirstPageMapped(m0: Mem, b0: seq<Block>, m1: Mem, b1: seq<Block>, m2: Mem, b2: seq<Block>, dir: nat, lo: nat,
                        hi: nat, frame: int)
    requires TablesOk(m0, b0, dir, lo, hi) && FrameTaken(m0, b0, m1, b1, frame) && TablesOk(m1, b1, dir, lo, hi)
    requires Extends(m1, b1, m2, b2, dir, lo, hi)
    requires !IsTable(m1, dir, lo, hi, frame) && frame != dir
    ensures |m2| == |m0| && !Covers(b2, frame) && !IsTable(m2, dir, lo, hi, frame)
    ensures forall f :: Covers(b0, f) ==> Covers(b2, f) || f == frame || IsTable(m2, dir, lo, hi, f)
    ensures forall f :: Covers(b2, f) || f == frame ==> Covers(b0, f)
    ensures forall f :: IsTable(m2, dir, lo, hi, f) ==> Covers(b0, f) || IsTable(m0, dir, lo, hi, f)
    ensures forall j :: Word(m1, dir, j) == Word(m0, dir, j)
  {
    assert forall j :: Word(m1, dir, j) == Word(m0, dir, j);
    forall f | IsTable(m2, dir, lo, hi, f)
      ensures f != frame && (Covers(b0, f) || IsTable(m0, dir, lo, hi, f))
    {
      var i :| lo <= i < hi && HasTable(m2, dir, i) && Table(m2, dir, i) == f;
      if HasTable(m1, dir, i) {
        assert Table(m1, dir, i) == f && IsTable(m1, dir, lo, hi, f);
        assert HasTable(m0, dir, i) && Table(m0, dir, i) == f;
      }
    }
  }

  lemma FreeListCounts(m: Mem, head: int, count: nat, bs: seq<Block>)
    requires FreeListOk(m, head, count, bs)
    ensures Sorted(bs) && Within(bs, |m|) && count == Total(bs)
  {
  }

  lemma DirUntouched(m0: Mem, b0: seq<Block>, m1: Mem, b1: seq<Block>, dir: nat, lo: nat, hi: nat, frame: int)
    requires TablesOk(m0, b0, dir, lo, hi) && FrameTaken(m0, b0, m1, b1, frame)
    ensures forall j :: Word(m1, dir, j) == Word(m0, dir, j)
    ensures |m1| == |m0| && 0 <= frame < |m0|
  {
  }

  lemma FirstOfTable(lo: nat)
    ensures lo * PAGES_PER_TABLE / PAGES_PER_TABLE == lo && (lo * PAGES_PER_TABLE + 1 - 1) / PAGES_PER_TABLE == lo
  {
  }

  /** One page needs one frame for its table at most. */
  lemma OneMissing(m: Mem, dir: nat, v: nat)
    ensures Missing(m, dir, v, 1) <= 1
  {
    assert Missing(m, dir, v, 0) == 0;
  }

  lemma TakenAreFree(m: Mem, bs: seq<Block>, spaces: seq<Space>, owner: Owners, i: nat, count: nat)
    requires Inv(m, bs, spaces, owner) && Sorted(bs) && i < |bs| && bs[i].size >= count >= 1
    ensures var r := CarvedPage(bs, i, count);
            r + count <= |owner| && forall f :: r <= f < r + count ==> owner[f] == FreePage
  {
    CarveCovers(bs, i, count);
    var r := CarvedPage(bs, i, count);
    assert Covers(bs, r + count - 1);
    forall f | r <= f < r + count
      ensures f < |owner| && owner[f] == FreePage
    {
      assert Covers(bs, f);
      assert Justified(m, bs, spaces, owner[f], f);
    }
  }

  lemma TakenIsLoose(m: Mem, bs: seq<Block>, m': Mem, bs': seq<Block>, spaces: seq<Space>, owner: Owners,
                     owner': Owners, i: nat, count: nat)
    requires Inv(m, bs, spaces, owner) && Sorted(bs) && i < |bs| && bs[i].size >= count >= 1
    requires bs' == Carve(bs, i, count) && OnlyFreeWritten(m, m', bs)
    requires owner' == Given(owner, CarvedPage(bs, i, count), count, Pending)
    ensures OnlyLooseWritten(m, m', owner) && LooseMove(bs', owner, owner')
  {
    TakenAreFree(m, bs, spaces, owner, i, count);
    CarveCovers(bs, i, count);
    assert forall f :: 0 <= f < |owner| ==> Justified(m, bs, spaces, owner[f], f);
  }

  lemma PendingIsAbsent(m: Mem, bs: seq<Block>, spaces: seq<Space>, owner: Owners, frame: nat, count: nat)
    requires Inv(m, bs, spaces, owner) && frame + count <= |owner|
    requires forall f :: frame <= f < frame + count ==> owner[f] == Pending
    ensures Absent(bs, frame, count)
  {
    forall f | frame <= f < frame + count
      ensures !Covers(bs, f)
    {
      assert Justified(m, bs, spaces, owner[f], f);
    }
  }

  lemma GivenIsLoose(m: Mem, bs: seq<Block>, m': Mem, bs': seq<Block>, spaces: seq<Space>, owner: Owners,
                     owner': Owners, frame: nat, count: nat)
    requires Inv(m, bs, spaces, owner) && frame + count <= |owner|
    requires forall f :: frame <= f < frame + count ==> owner[f] == Pending
    requires forall p :: Covers(bs', p) <==> Covers(bs, p) || frame <= p < frame + count
    requires OnlyFreeWritten(m, m', bs') && owner' == Given(owner, frame, count, FreePage)
    ensures OnlyLooseWritten(m, m', owner) && LooseMove(bs', owner, owner')
  {
    assert forall f :: 0 <= f < |owner| ==> Justified(m, bs, spaces, owner[f], f);
  }

  lemma SettledRefl(a: Owners)
    ensures Settled(a, a)
  {
  }

  lemma SettledTrans(a: Owners, b: Owners, c: Owners)
    requires Settled(a, b) && Settled(b, c)
    ensures Settled(a, c)
  {
  }
}
