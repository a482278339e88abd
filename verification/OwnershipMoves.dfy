/** The moves that change a block table, and what each does to the owners of frames. */
module OwnershipMoves {
  import opened BlockList
  import opened Frames
  import opened PageTables
  import opened BlockTable
  import opened Ownership

  /** `owner` with frames frame..frame+len given to `tag`. */
  function Given(owner: Owners, frame: int, len: nat, tag: Owner): (r: Owners)
    ensures |r| == |owner|
    ensures forall f :: 0 <= f < |owner| ==> r[f] == if frame <= f < frame + len then tag else owner[f]
  {
    seq(|owner|, f requires 0 <= f < |owner| => if frame <= f < frame + len then tag else owner[f])
  }

  function WithBlocks(spaces: seq<Space>, s: nat, blocks: seq<VBlock>): seq<Space>
    requires s < |spaces|
  {
    spaces[s := spaces[s].(blocks := blocks)]
  }

  /** Spaces that are not s do not notice when owners change only at pending frames or at
      frames of blocks of s. */
  lemma UninvolvedSpace(m: Mem, bs: seq<Block>, sp: Space, t: nat, owner: Owners, owner': Owners, s: nat)
    requires SpaceOk(m, bs, sp, t, owner) && t != s && |owner'| == |owner|
    requires forall f :: 0 <= f < |owner| && owner'[f] != owner[f] ==>
               owner[f] == Pending || (owner[f].OfBlock? && owner[f].space == s)
    ensures SpaceOk(m, bs, sp, t, owner')
  {
    forall k | 0 <= k < |sp.blocks|
      ensures BlockBacked(m, sp, t, k, owner')
    {
      assert BlockBacked(m, sp, t, k, owner);
      var b := sp.blocks[k];
      if b.kind == Memory {
        forall j | 0 <= j < b.len
          ensures PageBacked(m, sp.dir, b.base, j, FirstFrame(m, sp.dir, b), owner', OfBlock(t, b.base))
        {
          assert PageBacked(m, sp.dir, b.base, j, FirstFrame(m, sp.dir, b), owner, OfBlock(t, b.base));
        }
      }
    }
  }

  // ------------------------------------------------------------ adding a block

  /** The owners after block b has been entered: a memory block takes its pending frames. */
  function Entered(m: Mem, sp: Space, s: nat, b: VBlock, owner: Owners): Owners
    requires b.base >= 0
  {
    if b.kind == Memory then Given(owner, FirstFrame(m, sp.dir, b), b.len, OfBlock(s, b.base)) else owner
  }

  ghost predicate CanEnter(m: Mem, sp: Space, b: VBlock, i: nat, owner: Owners) {
    && i <= |sp.blocks| && |sp.blocks| < sp.capacity && b.kind != Reserved && b.len >= 1
    && sp.Start() <= b.base && b.base + b.len <= sp.End()
    && Position(sp.blocks, i, b.base, b.len)
    && (b.kind == Memory ==> Backed(m, sp.dir, b.base, b.len, FirstFrame(m, sp.dir, b), owner, Pending))
  }

  lemma EnteredOwners(m: Mem, sp: Space, s: nat, b: VBlock, i: nat, owner: Owners)
    requires CanEnter(m, sp, b, i, owner)
    ensures var owner' := Entered(m, sp, s, b, owner);
            && |owner'| == |owner|
            && (forall f :: 0 <= f < |owner| && owner'[f] != owner[f] ==>
                 owner[f] == Pending && owner'[f] == OfBlock(s, b.base))
  {
    if b.kind == Memory {
      var frame := FirstFrame(m, sp.dir, b);
      forall f | frame <= f < frame + b.len
        ensures 0 <= f < |owner| && owner[f] == Pending
      {
        assert PageBacked(m, sp.dir, b.base, f - frame, frame, owner, Pending);
      }
    }
  }

  lemma EnteredSpace(m: Mem, bs: seq<Block>, sp: Space, s: nat, b: VBlock, i: nat, owner: Owners)
    requires SpaceOk(m, bs, sp, s, owner) && CanEnter(m, sp, b, i, owner)
    ensures SpaceOk(m, bs, sp.(blocks := InsertAt(sp.blocks, i, b)), s, Entered(m, sp, s, b, owner))
  {
    var owner' := Entered(m, sp, s, b, owner);
    var sp' := sp.(blocks := InsertAt(sp.blocks, i, b));
    EnteredOwners(m, sp, s, b, i, owner);
    InsertKeepsOrder(sp.blocks, i, b, sp.Start(), sp.End());
    forall k | 0 <= k < |sp'.blocks|
      ensures BlockBacked(m, sp', s, k, owner')
    {
      if k == i {
        NewBlockBacked(m, sp, s, b, owner);
      } else {
        var o := if k < i then k else k - 1;
        assert sp'.blocks[k] == sp.blocks[o];
        assert BlockBacked(m, sp, s, o, owner);
        OldBlockBacked(m, sp, s, o, owner, owner');
      }
    }
  }

  lemma NewBlockBacked(m: Mem, sp: Space, s: nat, b: VBlock, owner: Owners)
    requires b.base >= 0 && b.len >= 1
    requires b.kind == Memory ==> Backed(m, sp.dir, b.base, b.len, FirstFrame(m, sp.dir, b), owner, Pending)
    ensures b.kind == Memory ==>
              Backed(m, sp.dir, b.base, b.len, FirstFrame(m, sp.dir, b), Entered(m, sp, s, b, owner),
                  OfBlock(s, b.base))
  {
    if b.kind == Memory {
      forall j | 0 <= j < b.len
        ensures PageBacked(m, sp.dir, b.base, j, FirstFrame(m, sp.dir, b), Entered(m, sp, s, b, owner),
                  OfBlock(s, b.base))
      {
        assert PageBacked(m, sp.dir, b.base, j, FirstFrame(m, sp.dir, b), owner, Pending);
      }
    }
  }

  /** A block whose frames keep their owner is still backed. */
  lemma OldBlockBacked(m: Mem, sp: Space, s: nat, o: nat, owner: Owners, owner': Owners)
    requires o < |sp.blocks| && BlockBacked(m, sp, s, o, owner) && |owner'| == |owner|
    requires forall f :: 0 <= f < |owner| && owner[f] == OfBlock(s, sp.blocks[o].base) ==> owner'[f] == owner[f]
    ensures BlockBacked(m, sp, s, o, owner')
  {
    var b := sp.blocks[o];
    if b.kind == Memory {
      forall j | 0 <= j < b.len
        ensures PageBacked(m, sp.dir, b.base, j, FirstFrame(m, sp.dir, b), owner', OfBlock(s, b.base))
      {
        assert PageBacked(m, sp.dir, b.base, j, FirstFrame(m, sp.dir, b), owner, OfBlock(s, b.base));
      }
    }
  }

  lemma EnteredJustified(m: Mem, bs: seq<Block>, spaces: seq<Space>, s: nat, b: VBlock, i: nat, owner: Owners, f: nat)
    requires s < |spaces| && CanEnter(m, spaces[s], b, i, owner) && f < |owner|
    requires Justified(m, bs, spaces, owner[f], f)
    requires s == 0 ==> i < |spaces[0].blocks|
    ensures Justified(m, bs, WithBlocks(spaces, s, InsertAt(spaces[s].blocks, i, b)),
              Entered(m, spaces[s], s, b, owner)[f], f)
  {
    var sp := spaces[s];
    var blocks' := InsertAt(sp.blocks, i, b);
    var sp' := sp.(blocks := blocks');
    var owner' := Entered(m, sp, s, b, owner);
    EnteredOwners(m, sp, s, b, i, owner);
    if owner'[f] != owner[f] {
      assert blocks'[i] == b;
      assert BlockHolds(m, sp', i, b.base, f);
    } else if owner[f].OfBlock? && owner[f].space == s {
      HoldsAfterInsert(m, sp, i, b, owner[f].base, f);
    } else if owner[f].OfStorage? && s == 0 {
      assert blocks'[|blocks'| - 1] == sp.blocks[|sp.blocks| - 1];
    }
  }

  lemma HoldsAfterInsert(m: Mem, sp: Space, i: nat, b: VBlock, base: int, f: int)
    requires i <= |sp.blocks| && HoldsFrame(m, sp, base, f)
    ensures HoldsFrame(m, sp.(blocks := InsertAt(sp.blocks, i, b)), base, f)
  {
    var sp' := sp.(blocks := InsertAt(sp.blocks, i, b));
    var k :| 0 <= k < |sp.blocks| && BlockHolds(m, sp, k, base, f);
    var k' := if k < i then k else k + 1;
    assert sp'.blocks[k'] == sp.blocks[k];
    assert BlockHolds(m, sp', k', base, f);
  }

  /** Entering a block at its position keeps the invariant. */
  lemma InvKeptEntering(m: Mem, bs: seq<Block>, spaces: seq<Space>, s: nat, b: VBlock, i: nat, owner: Owners)
    requires Inv(m, bs, spaces, owner) && s < |spaces| && CanEnter(m, spaces[s], b, i, owner)
    ensures Inv(m, bs, WithBlocks(spaces, s, InsertAt(spaces[s].blocks, i, b)), Entered(m, spaces[s], s, b, owner))
  {
    var spaces' := WithBlocks(spaces, s, InsertAt(spaces[s].blocks, i, b));
    var owner' := Entered(m, spaces[s], s, b, owner);
    EnteredOwners(m, spaces[s], s, b, i, owner);
    if s == 0 { BeforeReserved(spaces[0], b, i); }
    forall f | 0 <= f < |owner|
      ensures Justified(m, bs, spaces', owner'[f], f)
    {
      EnteredJustified(m, bs, spaces, s, b, i, owner, f);
    }
    forall t | 0 <= t < |spaces|
      ensures SpaceOk(m, bs, spaces'[t], t, owner')
    {
      if t == s { EnteredSpace(m, bs, spaces[s], s, b, i, owner); }
      else { UninvolvedSpace(m, bs, spaces[t], t, owner, owner', s); }
    }
    EnteredKernel(m, spaces[0], spaces'[0], owner, owner');
  }

  /** A block within the kernel's space belongs before the reserved one. */
  lemma BeforeReserved(sp: Space, b: VBlock, i: nat)
    requires sp.blocks != [] && sp.blocks[|sp.blocks| - 1].base == sp.Start() <= b.base && b.len >= 1
    requires Position(sp.blocks, i, b.base, b.len)
    ensures i < |sp.blocks|
  {
  }

  /** The kernel's table depends on its last block, its lookups and the owners of storage. */
  lemma EnteredKernel(m: Mem, sp: Space, sp': Space, owner: Owners, owner': Owners)
    requires KernelOk(m, sp, owner) && |owner'| == |owner| && sp'.blocks != []
    requires sp'.dir == sp.dir && sp'.lo == sp.lo && sp'.capacity == sp.capacity
    requires sp'.blocks[|sp'.blocks| - 1] == sp.blocks[|sp.blocks| - 1]
    requires forall f :: 0 <= f < |owner| && owner[f].OfStorage? ==> owner'[f] == owner[f]
    ensures KernelOk(m, sp', owner')
  {
    forall j | 0 <= j < sp.blocks[|sp.blocks| - 1].len
      ensures StoragePage(m, sp', owner', j)
    {
      assert StoragePage(m, sp, owner, j);
    }
  }

  // ------------------------------------------------------------ dropping a block

  /** The owners after block b has been dropped: the frames of a memory block are pending. */
  function Dropped(m: Mem, sp: Space, b: VBlock, owner: Owners): Owners
    requires b.base >= 0
  {
    if b.kind == Memory then Given(owner, FirstFrame(m, sp.dir, b), b.len, Pending) else owner
  }

  ghost predicate CanDrop(sp: Space, k: nat) {
    k < |sp.blocks| && sp.blocks[k].kind != Reserved && sp.blocks[k].base >= 0
  }

  lemma DroppedOwners(m: Mem, bs: seq<Block>, sp: Space, s: nat, k: nat, owner: Owners)
    requires SpaceOk(m, bs, sp, s, owner) && CanDrop(sp, k)
    ensures var owner' := Dropped(m, sp, sp.blocks[k], owner);
            && |owner'| == |owner|
            && (forall f :: 0 <= f < |owner| && owner'[f] != owner[f] ==>
                 owner[f] == OfBlock(s, sp.blocks[k].base) && owner'[f] == Pending)
  {
    var b := sp.blocks[k];
    assert BlockBacked(m, sp, s, k, owner);
    if b.kind == Memory {
      var frame := FirstFrame(m, sp.dir, b);
      forall f | frame <= f < frame + b.len
        ensures 0 <= f < |owner| && owner[f] == OfBlock(s, b.base)
      {
        assert PageBacked(m, sp.dir, b.base, f - frame, frame, owner, OfBlock(s, b.base));
      }
    }
  }

  lemma DroppedSpace(m: Mem, bs: seq<Block>, sp: Space, s: nat, k: nat, owner: Owners)
    requires SpaceOk(m, bs, sp, s, owner) && CanDrop(sp, k)
    ensures SpaceOk(m, bs, sp.(blocks := RemoveAt(sp.blocks, k)), s, Dropped(m, sp, sp.blocks[k], owner))
  {
    var owner' := Dropped(m, sp, sp.blocks[k], owner);
    var sp' := sp.(blocks := RemoveAt(sp.blocks, k));
    DroppedOwners(m, bs, sp, s, k, owner);
    RemoveKeepsOrder(sp.blocks, k, sp.Start(), sp.End());
    forall i | 0 <= i < |sp'.blocks|
      ensures BlockBacked(m, sp', s, i, owner')
    {
      var o := if i < k then i else i + 1;
      assert sp'.blocks[i] == sp.blocks[o];
      assert BlockBacked(m, sp, s, o, owner);
      OldBlockBacked(m, sp, s, o, owner, owner');
    }
  }

  lemma DroppedJustified(m: Mem, bs: seq<Block>, spaces: seq<Space>, s: nat, k: nat, owner: Owners, f: nat)
    requires s < |spaces| && CanDrop(spaces[s], k) && f < |owner|
    requires SpaceOk(m, bs, spaces[s], s, owner) && Justified(m, bs, spaces, owner[f], f)
    requires s == 0 ==> k + 1 < |spaces[0].blocks|
    ensures Justified(m, bs, WithBlocks(spaces, s, RemoveAt(spaces[s].blocks, k)),
              Dropped(m, spaces[s], spaces[s].blocks[k], owner)[f], f)
  {
    var sp := spaces[s];
    var blocks' := RemoveAt(sp.blocks, k);
    DroppedOwners(m, bs, sp, s, k, owner);
    if owner[f].OfBlock? && owner[f].space == s && Dropped(m, sp, sp.blocks[k], owner)[f] == owner[f] {
      HoldsAfterRemove(m, sp, s, k, owner[f].base, owner, f);
    } else if owner[f].OfStorage? && s == 0 {
      assert blocks'[|blocks'| - 1] == sp.blocks[|sp.blocks| - 1];
    }
  }

  lemma HoldsAfterRemove(m: Mem, sp: Space, s: nat, k: nat, base: int, owner: Owners, f: nat)
    requires CanDrop(sp, k) && HoldsFrame(m, sp, base, f) && Descending(sp.blocks) && f < |owner|
    requires owner[f] == OfBlock(s, base) && Dropped(m, sp, sp.blocks[k], owner)[f] == owner[f]
    ensures HoldsFrame(m, sp.(blocks := RemoveAt(sp.blocks, k)), base, f)
  {
    var sp' := sp.(blocks := RemoveAt(sp.blocks, k));
    var o :| 0 <= o < |sp.blocks| && BlockHolds(m, sp, o, base, f);
    assert o != k;
    var i := if o < k then o else o - 1;
    assert sp'.blocks[i] == sp.blocks[o];
    assert BlockHolds(m, sp', i, base, f);
  }

  /** Dropping a block keeps the invariant; its frames are pending. */
  lemma InvKeptDropping(m: Mem, bs: seq<Block>, spaces: seq<Space>, s: nat, k: nat, owner: Owners)
    requires Inv(m, bs, spaces, owner) && s < |spaces| && CanDrop(spaces[s], k)
    ensures Inv(m, bs, WithBlocks(spaces, s, RemoveAt(spaces[s].blocks, k)),
              Dropped(m, spaces[s], spaces[s].blocks[k], owner))
  {
    var spaces' := WithBlocks(spaces, s, RemoveAt(spaces[s].blocks, k));
    var owner' := Dropped(m, spaces[s], spaces[s].blocks[k], owner);
    assert SpaceOk(m, bs, spaces[s], s, owner);
    DroppedOwners(m, bs, spaces[s], s, k, owner);
    forall f | 0 <= f < |owner|
      ensures Justified(m, bs, spaces', owner'[f], f)
    {
      DroppedJustified(m, bs, spaces, s, k, owner, f);
    }
    forall t | 0 <= t < |spaces|
      ensures SpaceOk(m, bs, spaces'[t], t, owner')
    {
      if t == s { DroppedSpace(m, bs, spaces[s], s, k, owner); }
      else { UninvolvedSpace(m, bs, spaces[t], t, owner, owner', s); }
    }
    EnteredKernel(m, spaces[0], spaces'[0], owner, owner');
  }

  // ------------------------------------------------------------ growing a table

  /** The kernel's space with one page more of table (lines 293-302). */
  function Enlarged(sp: Space): Space
    requires sp.blocks != []
  {
    var n := |sp.blocks|;
    var r := sp.blocks[n - 1];
    sp.(blocks := sp.blocks[n - 1 := VBlock(r.kind, r.base, r.len + 1)], capacity := Capacity(r.len + 1))
  }

  function StorageEnd(sp: Space): int
    requires sp.blocks != []
  {
    sp.blocks[|sp.blocks| - 1].base + sp.blocks[|sp.blocks| - 1].len
  }

  ghost predicate CanGrow(m: Mem, sp: Space, owner: Owners) {
    && sp.blocks != [] && sp.blocks[|sp.blocks| - 1].kind == Reserved
    && 0 <= StorageEnd(sp) < sp.End()
    && Vacant(sp.blocks, StorageEnd(sp), 1)
    && 0 <= FrameOf(Lookup(m, sp.dir, StorageEnd(sp))) < |owner|
    && owner[FrameOf(Lookup(m, sp.dir, StorageEnd(sp)))] == Pending
  }

  lemma GrownSpace(m: Mem, bs: seq<Block>, sp: Space, owner: Owners, owner': Owners)
    requires SpaceOk(m, bs, sp, 0, owner) && CanGrow(m, sp, owner) && |owner'| == |owner|
    requires sp.capacity == Capacity(sp.blocks[|sp.blocks| - 1].len)
    requires forall f :: 0 <= f < |owner| && owner'[f] != owner[f] ==> owner[f] == Pending
    ensures SpaceOk(m, bs, Enlarged(sp), 0, owner')
  {
    hide Lookup, TablesOk, Capacity, NewSize;
    var n := |sp.blocks|;
    var sp' := Enlarged(sp);
    GrowthIsOnePage(sp.blocks[n - 1].len);
    forall i | 0 <= i < n - 1
      ensures StorageEnd(sp) + 1 <= sp.blocks[i].base
    {
      assert !Meets(sp.blocks[i], StorageEnd(sp), 1);
    }
    forall k | 0 <= k < n
      ensures BlockBacked(m, sp', 0, k, owner')
    {
      assert BlockBacked(m, sp, 0, k, owner);
      OldBlockBacked(m, sp, 0, k, owner, owner');
    }
  }

  lemma HoldsAfterGrowth(m: Mem, sp: Space, base: int, f: int)
    requires sp.blocks != [] && sp.blocks[|sp.blocks| - 1].kind == Reserved && HoldsFrame(m, sp, base, f)
    ensures HoldsFrame(m, Enlarged(sp), base, f)
  {
    var k :| 0 <= k < |sp.blocks| && BlockHolds(m, sp, k, base, f);
    assert Enlarged(sp).blocks[k] == sp.blocks[k];
    assert BlockHolds(m, Enlarged(sp), k, base, f);
  }

  /** The owners after the frame of the next table page has been handed over. */
  function GrownOwners(m: Mem, sp: Space, owner: Owners): Owners
    requires sp.blocks != [] && StorageEnd(sp) >= 0 && 0 <= FrameOf(Lookup(m, sp.dir, StorageEnd(sp))) < |owner|
  {
    owner[FrameOf(Lookup(m, sp.dir, StorageEnd(sp))) := OfStorage(sp.blocks[|sp.blocks| - 1].len)]
  }

  lemma GrownJustified(m: Mem, bs: seq<Block>, spaces: seq<Space>, owner: Owners, f: nat)
    requires spaces != [] && CanGrow(m, spaces[0], owner) && f < |owner| && Justified(m, bs, spaces, owner[f], f)
    requires spaces[0].blocks[|spaces[0].blocks| - 1].base == spaces[0].Start()
    ensures Justified(m, bs, spaces[0 := Enlarged(spaces[0])], GrownOwners(m, spaces[0], owner)[f], f)
  {
    if owner[f].OfBlock? && owner[f].space == 0 { HoldsAfterGrowth(m, spaces[0], owner[f].base, f); }
  }

  lemma GrownKernel(m: Mem, sp: Space, owner: Owners)
    requires KernelOk(m, sp, owner) && CanGrow(m, sp, owner)
    ensures KernelOk(m, Enlarged(sp), GrownOwners(m, sp, owner))
  {
    var r := sp.blocks[|sp.blocks| - 1];
    forall j | 0 <= j < r.len + 1
      ensures StoragePage(m, Enlarged(sp), GrownOwners(m, sp, owner), j)
    {
      if j < r.len { assert StoragePage(m, sp, owner, j); }
    }
  }

  /** Handing a pending frame to the kernel's table keeps the invariant. */
  lemma InvKeptGrowing(m: Mem, bs: seq<Block>, spaces: seq<Space>, owner: Owners)
    requires Inv(m, bs, spaces, owner) && CanGrow(m, spaces[0], owner)
    ensures Inv(m, bs, spaces[0 := Enlarged(spaces[0])], GrownOwners(m, spaces[0], owner))
  {
    var spaces' := spaces[0 := Enlarged(spaces[0])];
    var owner' := GrownOwners(m, spaces[0], owner);
    forall f | 0 <= f < |owner|
      ensures Justified(m, bs, spaces', owner'[f], f)
    {
      GrownJustified(m, bs, spaces, owner, f);
    }
    forall t | 0 <= t < |spaces|
      ensures SpaceOk(m, bs, spaces'[t], t, owner')
    {
      if t == 0 { GrownSpace(m, bs, spaces[0], owner, owner'); }
      else { UninvolvedSpace(m, bs, spaces[t], t, owner, owner', 0); }
    }
    GrownKernel(m, spaces[0], owner);
  }

  /** A user table has moved to a larger block: only its address and capacity change. */
  lemma InvKeptCapacity(m: Mem, bs: seq<Block>, spaces: seq<Space>, s: nat, capacity: nat, table: int, owner: Owners)
    requires Inv(m, bs, spaces, owner) && 0 < s < |spaces| && |spaces[s].blocks| <= capacity
    ensures Inv(m, bs, spaces[s := spaces[s].(capacity := capacity, table := table)], owner)
  {
    var sp' := spaces[s].(capacity := capacity, table := table);
    forall f | 0 <= f < |owner|
      ensures Justified(m, bs, spaces[s := sp'], owner[f], f)
    {
      assert Justified(m, bs, spaces, owner[f], f);
      if owner[f].OfBlock? && owner[f].space == s {
        var k :| 0 <= k < |spaces[s].blocks| && BlockHolds(m, spaces[s], k, owner[f].base, f);
        assert BlockHolds(m, sp', k, owner[f].base, f);
      }
    }
    forall k | 0 <= k < |sp'.blocks|
      ensures BlockBacked(m, sp', s, k, owner)
    {
      assert BlockBacked(m, spaces[s], s, k, owner);
    }
  }

  // ------------------------------------------------------------ a new space

  /** A space without blocks or tables, its directory in a pending frame. */
  lemma InvKeptNewSpace(m: Mem, bs: seq<Block>, spaces: seq<Space>, owner: Owners, sp: Space)
    requires Inv(m, bs, spaces, owner) && sp.blocks == [] && sp.lo <= sp.hi <= PAGES_PER_TABLE
    requires sp.dir < |owner| && owner[sp.dir] == Pending && forall i :: Word(m, sp.dir, i) == 0
    ensures Inv(m, bs, spaces + [sp], owner[sp.dir := OfDir(|spaces|)])
  {
    var n := |spaces|;
    var owner' := owner[sp.dir := OfDir(n)];
    var spaces' := spaces + [sp];
    assert spaces'[0] == spaces[0];
    forall f | 0 <= f < |owner|
      ensures Justified(m, bs, spaces', owner'[f], f)
    {
      assert Justified(m, bs, spaces, owner[f], f);
      if owner[f].OfBlock? || owner[f].OfTable? || owner[f].OfDir? {
        assert spaces'[owner[f].space] == spaces[owner[f].space];
      }
    }
    forall t | 0 <= t < n
      ensures SpaceOk(m, bs, spaces'[t], t, owner')
    {
      assert spaces'[t] == spaces[t];
      UninvolvedSpace(m, bs, spaces[t], t, owner, owner', n);
    }
    assert Justified(m, bs, spaces, owner[sp.dir], sp.dir);
    assert SpaceOk(m, bs, sp, n, owner');
    EnteredKernel(m, spaces[0], spaces'[0], owner, owner');
  }
}
