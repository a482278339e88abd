/** Who owns each frame of memory: the invariant that ties the free list, the page tables and
    the block tables of all address spaces together, and the moves that keep it. */
module Ownership {
  import opened BlockList
  import opened Frames
  import opened PageTables
  import opened BlockTable

  /** An AddressSpace whose pages are those of directory entries lo..hi, with `block_count`
      being |blocks|, `block_table_size` being `capacity`, and the kernel page `table` being
      where its blocks are kept. Space 0 is the kernel's. */
  datatype Space = Space(dir: nat, lo: nat, hi: nat, capacity: nat, table: int, blocks: seq<VBlock>) {
    function Start(): nat { lo * PAGES_PER_TABLE }
    function End(): nat { hi * PAGES_PER_TABLE }
  }

  /** `Outside`: never managed here. `Pending`: between two owners inside a call. */
  datatype Owner =
    | Outside
    | FreePage
    | Pending
    | OfBlock(space: nat, base: int)
    | OfTable(space: nat, index: nat)
    | OfDir(space: nat)
    | OfStorage(k: nat)

  type Owners = seq<Owner>

  /** Consecutive pages from v are mapped to consecutive frames, all owned by `tag`. */
  ghost predicate Backed(m: Mem, dir: nat, v: int, len: nat, frame: int, owner: Owners, tag: Owner)
    requires v >= 0
  {
    forall j :: 0 <= j < len ==> PageBacked(m, dir, v, j, frame, owner, tag)
  }

  ghost predicate PageBacked(m: Mem, dir: nat, v: int, j: nat, frame: int, owner: Owners, tag: Owner)
    requires v >= 0
  {
    FrameOf(Lookup(m, dir, v + j)) == frame + j && 0 <= frame + j < |owner| && owner[frame + j] == tag
  }

  /** The frame of the first page of a block (`get_page_info` of its base). */
  function FirstFrame(m: Mem, dir: nat, b: VBlock): int
    requires b.base >= 0
  {
    FrameOf(Lookup(m, dir, b.base))
  }

  ghost predicate BlockBacked(m: Mem, sp: Space, s: nat, k: nat, owner: Owners)
    requires k < |sp.blocks|
  {
    && sp.blocks[k].base >= 0
    && (sp.blocks[k].kind == Memory ==>
          Backed(m, sp.dir, sp.blocks[k].base, sp.blocks[k].len, FirstFrame(m, sp.dir, sp.blocks[k]), owner,
              OfBlock(s, sp.blocks[k].base)))
  }

  ghost predicate TablesOwned(m: Mem, sp: Space, s: nat, owner: Owners) {
    && sp.dir < |owner| && owner[sp.dir] == OfDir(s)
    && (forall i :: sp.lo <= i < sp.hi && HasTable(m, sp.dir, i) ==>
          0 <= Table(m, sp.dir, i) < |owner| && owner[Table(m, sp.dir, i)] == OfTable(s, i))
  }

  ghost predicate SpaceOk(m: Mem, bs: seq<Block>, sp: Space, s: nat, owner: Owners) {
    && TablesOk(m, bs, sp.dir, sp.lo, sp.hi)
    && TablesOwned(m, sp, s, owner)
    && Descending(sp.blocks) && InBounds(sp.blocks, sp.Start(), sp.End())
    && |sp.blocks| <= sp.capacity
    && (forall k :: 0 <= k < |sp.blocks| ==> BlockBacked(m, sp, s, k, owner))
  }

  /** The kernel's table lies in its last block, reserved at the start of the space. */
  ghost predicate KernelOk(m: Mem, sp: Space, owner: Owners) {
    && sp.blocks != []
    && var r := sp.blocks[|sp.blocks| - 1];
    && r.kind == Reserved && r.base == sp.Start()
    && sp.capacity == Capacity(r.len)
    && (forall j :: 0 <= j < r.len ==> StoragePage(m, sp, owner, j))
  }

  ghost predicate StoragePage(m: Mem, sp: Space, owner: Owners, j: nat) {
    var f := FrameOf(Lookup(m, sp.dir, sp.Start() + j));
    0 <= f < |owner| && owner[f] == OfStorage(j)
  }

  ghost predicate HoldsFrame(m: Mem, sp: Space, base: int, f: int) {
    exists k :: 0 <= k < |sp.blocks| && BlockHolds(m, sp, k, base, f)
  }

  ghost predicate BlockHolds(m: Mem, sp: Space, k: nat, base: int, f: int)
    requires k < |sp.blocks|
  {
    && sp.blocks[k].base == base && base >= 0 && sp.blocks[k].kind == Memory
    && FirstFrame(m, sp.dir, sp.blocks[k]) <= f < FirstFrame(m, sp.dir, sp.blocks[k]) + sp.blocks[k].len
  }

  /** What an owner's claim to frame f rests on. */
  ghost predicate Justified(m: Mem, bs: seq<Block>, spaces: seq<Space>, o: Owner, f: int) {
    && (o == FreePage <==> Covers(bs, f))
    && match o
       case OfBlock(s, base) => s < |spaces| && HoldsFrame(m, spaces[s], base, f)
       case OfTable(s, i) =>
         s < |spaces| && spaces[s].lo <= i < spaces[s].hi && HasTable(m, spaces[s].dir, i) &&
             Table(m, spaces[s].dir, i) == f
       case OfDir(s) => s < |spaces| && spaces[s].dir == f
       case OfStorage(j) =>
         && spaces != [] && spaces[0].blocks != []
         && j < spaces[0].blocks[|spaces[0].blocks| - 1].len
         && FrameOf(Lookup(m, spaces[0].dir, spaces[0].Start() + j)) == f
       case _ => true
  }

  ghost predicate Inv(m: Mem, bs: seq<Block>, spaces: seq<Space>, owner: Owners) {
    && |owner| == |m| && spaces != []
    && (forall p :: Covers(bs, p) ==> 0 <= p < |owner|)
    && (forall f :: 0 <= f < |owner| ==> Justified(m, bs, spaces, owner[f], f))
    && (forall s :: 0 <= s < |spaces| ==> SpaceOk(m, bs, spaces[s], s, owner))
    && KernelOk(m, spaces[0], owner)
  }

  // ------------------------------------------------------------ frames on the move

  ghost predicate Loose(o: Owner) {
    o == FreePage || o == Pending
  }

  /** Memory changes only at loose frames. */
  ghost predicate OnlyLooseWritten(m: Mem, m': Mem, owner: Owners) {
    && |m'| == |m|
    && forall p, j :: !(0 <= p < |owner| && Loose(owner[p])) ==> Word(m', p, j) == Word(m, p, j)
  }

  lemma SameLookups(m: Mem, bs: seq<Block>, m': Mem, sp: Space, s: nat, owner: Owners)
    requires SpaceOk(m, bs, sp, s, owner) && OnlyLooseWritten(m, m', owner)
    ensures forall i :: Word(m', sp.dir, i) == Word(m, sp.dir, i)
    ensures forall u :: sp.Start() <= u < sp.End() ==> Lookup(m', sp.dir, u) == Lookup(m, sp.dir, u)
  {
    forall u | sp.Start() <= u < sp.End()
      ensures Lookup(m', sp.dir, u) == Lookup(m, sp.dir, u)
    {
      var i := u / PAGES_PER_TABLE;
      assert sp.lo <= i < sp.hi;
      if HasTable(m, sp.dir, i) {
        assert owner[Table(m, sp.dir, i)] == OfTable(s, i);
      }
    }
  }

  /** Owners change only between free and pending, in step with the free list. */
  ghost predicate LooseMove(bs': seq<Block>, owner: Owners, owner': Owners) {
    && |owner'| == |owner|
    && (forall p :: Covers(bs', p) ==> 0 <= p < |owner|)
    && (forall f :: 0 <= f < |owner| ==> (owner'[f] == FreePage <==> Covers(bs', f)))
    && (forall f :: 0 <= f < |owner| && owner'[f] != owner[f] ==> Loose(owner[f]) && Loose(owner'[f]))
  }

  lemma SpaceKeptLoose(m: Mem, bs: seq<Block>, m': Mem, bs': seq<Block>, sp: Space, s: nat, owner: Owners,
                       owner': Owners)
    requires SpaceOk(m, bs, sp, s, owner) && OnlyLooseWritten(m, m', owner) && LooseMove(bs', owner, owner')
    requires |owner| == |m|
    ensures SpaceOk(m', bs', sp, s, owner')
  {
    SameLookups(m, bs, m', sp, s, owner);
    assert TablesOk(m', bs', sp.dir, sp.lo, sp.hi) by {
      forall i | sp.lo <= i < sp.hi && HasTable(m', sp.dir, i)
        ensures HasTable(m, sp.dir, i) && Table(m', sp.dir, i) == Table(m, sp.dir, i) &&
                  !Covers(bs', Table(m, sp.dir, i))
      {
        assert HasTable(m, sp.dir, i);
        assert owner[Table(m, sp.dir, i)] == OfTable(s, i);
      }
    }
    forall i | sp.lo <= i < sp.hi && HasTable(m', sp.dir, i)
      ensures 0 <= Table(m', sp.dir, i) < |owner'| && owner'[Table(m', sp.dir, i)] == OfTable(s, i)
    {
      assert HasTable(m, sp.dir, i);
    }
    forall k | 0 <= k < |sp.blocks|
      ensures BlockBacked(m', sp, s, k, owner')
    {
      assert BlockBacked(m, sp, s, k, owner);
      var b := sp.blocks[k];
      if b.kind == Memory {
        forall j | 0 <= j < b.len
          ensures PageBacked(m', sp.dir, b.base, j, FirstFrame(m', sp.dir, b), owner', OfBlock(s, b.base))
        {
          assert PageBacked(m, sp.dir, b.base, j, FirstFrame(m, sp.dir, b), owner, OfBlock(s, b.base));
        }
      }
    }
  }

  /** Allocation and release of loose frames keep the invariant. */
  lemma InvKeptLoose(m: Mem, bs: seq<Block>, m': Mem, bs': seq<Block>, spaces: seq<Space>, owner: Owners,
                     owner': Owners)
    requires Inv(m, bs, spaces, owner) && OnlyLooseWritten(m, m', owner) && LooseMove(bs', owner, owner')
    ensures Inv(m', bs', spaces, owner')
  {
    forall s | 0 <= s < |spaces|
      ensures SpaceOk(m', bs', spaces[s], s, owner')
    {
      SpaceKeptLoose(m, bs, m', bs', spaces[s], s, owner, owner');
    }
    forall f | 0 <= f < |owner|
      ensures Justified(m', bs', spaces, owner'[f], f)
    {
      JustifiedKeptLoose(m, bs, m', bs', spaces, owner, owner', f);
    }
    KernelKeptLoose(m, bs, m', spaces[0], owner, owner', bs');
  }

  lemma KernelKeptLoose(m: Mem, bs: seq<Block>, m': Mem, sp: Space, owner: Owners, owner': Owners, bs': seq<Block>)
    requires SpaceOk(m, bs, sp, 0, owner) && KernelOk(m, sp, owner)
    requires OnlyLooseWritten(m, m', owner) && LooseMove(bs', owner, owner')
    ensures KernelOk(m', sp, owner')
  {
    SameLookups(m, bs, m', sp, 0, owner);
    var r := sp.blocks[|sp.blocks| - 1];
    forall j | 0 <= j < r.len
      ensures StoragePage(m', sp, owner', j)
    {
      assert StoragePage(m, sp, owner, j);
    }
  }

  lemma JustifiedKeptLoose(m: Mem, bs: seq<Block>, m': Mem, bs': seq<Block>, spaces: seq<Space>, owner: Owners,
                           owner': Owners, f: nat)
    requires Inv(m, bs, spaces, owner) && OnlyLooseWritten(m, m', owner) && LooseMove(bs', owner, owner') && f < |owner|
    ensures Justified(m', bs', spaces, owner'[f], f)
  {
    assert Justified(m, bs, spaces, owner[f], f);
    match owner'[f] {
      case OfBlock(s, base) => HoldsKept(m, bs, m', spaces[s], s, owner, base, f);
      case OfTable(s, i) => SameLookups(m, bs, m', spaces[s], s, owner);
      case OfStorage(j) =>
        SameLookups(m, bs, m', spaces[0], 0, owner);
      case _ =>
    }
  }

  lemma HoldsKept(m: Mem, bs: seq<Block>, m': Mem, sp: Space, s: nat, owner: Owners, base: int, f: int)
    requires SpaceOk(m, bs, sp, s, owner) && OnlyLooseWritten(m, m', owner)
    requires HoldsFrame(m, sp, base, f)
    ensures HoldsFrame(m', sp, base, f)
  {
    SameLookups(m, bs, m', sp, s, owner);
    var k :| 0 <= k < |sp.blocks| && BlockHolds(m, sp, k, base, f);
    assert BlockHolds(m', sp, k, base, f);
  }

  // ------------------------------------------------------------ mapping a vacant range

  /** What `map_pages` does to space `sp` when it maps (part of) v..v+count. */
  ghost predicate MapEffect(m: Mem, bs: seq<Block>, m': Mem, bs': seq<Block>, sp: Space, v: int, count: nat) {
    && Extends(m, bs, m', bs', sp.dir, sp.lo, sp.hi)
    && TablesOk(m', bs', sp.dir, sp.lo, sp.hi)
    && (forall u :: sp.Start() <= u < sp.End() && !(v <= u < v + count) ==>
         Lookup(m', sp.dir, u) == Lookup(m, sp.dir, u))
  }

  /** The frames that left the free list are the new tables of space s. */
  ghost predicate TablesMarked(m': Mem, bs: seq<Block>, bs': seq<Block>, sp: Space, s: nat, owner: Owners,
                               owner': Owners) {
    && |owner'| == |owner|
    && forall f :: 0 <= f < |owner| ==>
         if Covers(bs, f) && !Covers(bs', f) then
           && owner'[f].OfTable? && owner'[f].space == s && sp.lo <= owner'[f].index < sp.hi
           && HasTable(m', sp.dir, owner'[f].index) && Table(m', sp.dir, owner'[f].index) == f
         else owner'[f] == owner[f]
  }

  /** An index of the directory that names table f. */
  ghost function TableIndex(m: Mem, sp: Space, f: int): (i: nat)
    requires IsTable(m, sp.dir, sp.lo, sp.hi, f)
    ensures sp.lo <= i < sp.hi && HasTable(m, sp.dir, i) && Table(m, sp.dir, i) == f
  {
    var i :| sp.lo <= i < sp.hi && HasTable(m, sp.dir, i) && Table(m, sp.dir, i) == f;
    i
  }

  ghost function Marked(m: Mem, bs: seq<Block>, m': Mem, bs': seq<Block>, sp: Space, s: nat, owner: Owners): (r: Owners)
    requires Extends(m, bs, m', bs', sp.dir, sp.lo, sp.hi)
    ensures TablesMarked(m', bs, bs', sp, s, owner, r)
  {
    seq(|owner|, f requires 0 <= f < |owner| =>
      if Covers(bs, f) && !Covers(bs', f) then OfTable(s, TableIndex(m', sp, f)) else owner[f])
  }

  /** Memory of another space is not touched. */
  lemma OtherSpaceUntouched(m: Mem, bs: seq<Block>, m': Mem, bs': seq<Block>, sp: Space, s: nat, ot: Space, t: nat,
                            owner: Owners)
    requires |owner| == |m| && s != t
    requires forall f :: 0 <= f < |owner| ==> (owner[f] == FreePage <==> Covers(bs, f))
    requires SpaceOk(m, bs, sp, s, owner) && SpaceOk(m, bs, ot, t, owner)
    requires Extends(m, bs, m', bs', sp.dir, sp.lo, sp.hi)
    ensures forall i :: Word(m', ot.dir, i) == Word(m, ot.dir, i)
    ensures forall u :: ot.Start() <= u < ot.End() ==> Lookup(m', ot.dir, u) == Lookup(m, ot.dir, u)
  {
    assert !IsTable(m, sp.dir, sp.lo, sp.hi, ot.dir);
    forall u | ot.Start() <= u < ot.End()
      ensures Lookup(m', ot.dir, u) == Lookup(m, ot.dir, u)
    {
      var i := u / PAGES_PER_TABLE;
      assert ot.lo <= i < ot.hi;
      if HasTable(m, ot.dir, i) {
        assert owner[Table(m, ot.dir, i)] == OfTable(t, i);
        assert !IsTable(m, sp.dir, sp.lo, sp.hi, Table(m, ot.dir, i));
      }
    }
  }

  /** A space whose directory, lookups and owners are as before is still in order. */
  lemma SpaceSame(m: Mem, bs: seq<Block>, m': Mem, bs': seq<Block>, sp: Space, s: nat, owner: Owners, owner': Owners)
    requires SpaceOk(m, bs, sp, s, owner) && |owner| == |m| == |m'| && |owner'| == |owner|
    requires forall p :: Covers(bs', p) ==> Covers(bs, p)
    requires forall f :: 0 <= f < |owner| && !Covers(bs, f) ==> owner'[f] == owner[f]
    requires forall f :: 0 <= f < |owner| ==> (owner[f] == FreePage <==> Covers(bs, f))
    requires forall i :: Word(m', sp.dir, i) == Word(m, sp.dir, i)
    requires forall u :: sp.Start() <= u < sp.End() ==> Lookup(m', sp.dir, u) == Lookup(m, sp.dir, u)
    ensures SpaceOk(m', bs', sp, s, owner')
  {
    forall i | sp.lo <= i < sp.hi && HasTable(m', sp.dir, i)
      ensures HasTable(m, sp.dir, i) && Table(m', sp.dir, i) == Table(m, sp.dir, i)
    {
    }
    forall k | 0 <= k < |sp.blocks|
      ensures BlockBacked(m', sp, s, k, owner')
    {
      BlockSame(m, m', sp, s, k, owner, owner');
    }
  }

  lemma BlockSame(m: Mem, m': Mem, sp: Space, s: nat, k: nat, owner: Owners, owner': Owners)
    requires k < |sp.blocks| && BlockBacked(m, sp, s, k, owner) && |owner'| == |owner| && sp.blocks[k].len >= 1
    requires forall f :: 0 <= f < |owner| && owner[f].OfBlock? ==> owner'[f] == owner[f]
    requires forall u :: sp.blocks[k].base <= u < sp.blocks[k].base + sp.blocks[k].len ==>
               Lookup(m', sp.dir, u) == Lookup(m, sp.dir, u)
    ensures BlockBacked(m', sp, s, k, owner')
  {
    var b := sp.blocks[k];
    if b.kind == Memory {
      forall j | 0 <= j < b.len
        ensures PageBacked(m', sp.dir, b.base, j, FirstFrame(m', sp.dir, b), owner', OfBlock(s, b.base))
      {
        assert PageBacked(m, sp.dir, b.base, j, FirstFrame(m, sp.dir, b), owner, OfBlock(s, b.base));
      }
    }
  }

  /** The space that was mapped into. */
  lemma MappedSpaceOk(m: Mem, bs: seq<Block>, m': Mem, bs': seq<Block>, sp: Space, s: nat, owner: Owners,
                      owner': Owners, v: int, count: nat)
    requires SpaceOk(m, bs, sp, s, owner) && |owner| == |m|
    requires forall f :: 0 <= f < |owner| ==> (owner[f] == FreePage <==> Covers(bs, f))
    requires MapEffect(m, bs, m', bs', sp, v, count) && TablesMarked(m', bs, bs', sp, s, owner, owner')
    requires Vacant(sp.blocks, v, count)
    ensures SpaceOk(m', bs', sp, s, owner')
  {
    forall i | sp.lo <= i < sp.hi && HasTable(m', sp.dir, i)
      ensures 0 <= Table(m', sp.dir, i) < |owner'| && owner'[Table(m', sp.dir, i)] == OfTable(s, i)
    {
      if HasTable(m, sp.dir, i) {
        assert Table(m', sp.dir, i) == Table(m, sp.dir, i);
      } else {
        var f := Table(m', sp.dir, i);
        assert Covers(bs, f) && !Covers(bs', f);
        assert owner'[f].index == i;
      }
    }
    forall k | 0 <= k < |sp.blocks|
      ensures BlockBacked(m', sp, s, k, owner')
    {
      assert BlockBacked(m, sp, s, k, owner);
      assert !Meets(sp.blocks[k], v, count);
      BlockSame(m, m', sp, s, k, owner, owner');
    }
  }

  /** What a mapping in space s leaves alone in space t. */
  lemma MappedSpace(m: Mem, bs: seq<Block>, m': Mem, bs': seq<Block>, spaces: seq<Space>, s: nat, owner: Owners,
                    v: int, count: nat, t: nat)
    requires Inv(m, bs, spaces, owner) && s < |spaces| && t < |spaces|
    requires MapEffect(m, bs, m', bs', spaces[s], v, count)
    ensures Descending(spaces[t].blocks) && InBounds(spaces[t].blocks, spaces[t].Start(), spaces[t].End())
    ensures forall u :: spaces[t].Start() <= u < spaces[t].End() && !(t == s && v <= u < v + count) ==>
              Lookup(m', spaces[t].dir, u) == Lookup(m, spaces[t].dir, u)
    ensures forall i :: t != s || HasTable(m, spaces[t].dir, i) ==>
              Word(m', spaces[t].dir, i) == Word(m, spaces[t].dir, i)
  {
    assert SpaceOk(m, bs, spaces[t], t, owner);
    if t != s {
      assert forall f :: 0 <= f < |owner| ==> Justified(m, bs, spaces, owner[f], f);
      OtherSpaceUntouched(m, bs, m', bs', spaces[s], s, spaces[t], t, owner);
    }
  }

  lemma JustifiedAt(m: Mem, bs: seq<Block>, spaces: seq<Space>, owner: Owners, f: nat)
    requires Inv(m, bs, spaces, owner) && f < |owner|
    ensures Justified(m, bs, spaces, owner[f], f) && |owner| == |m| && spaces != []
    ensures spaces[0].blocks != [] && spaces[0].blocks[|spaces[0].blocks| - 1].kind == Reserved
    ensures spaces[0].blocks[|spaces[0].blocks| - 1].base == spaces[0].Start()
  {
  }

  lemma MappedJustified(m: Mem, bs: seq<Block>, m': Mem, bs': seq<Block>, spaces: seq<Space>, s: nat, owner: Owners,
                        owner': Owners, v: int, count: nat, f: nat)
    requires Inv(m, bs, spaces, owner) && s < |spaces| && f < |owner|
    requires MapEffect(m, bs, m', bs', spaces[s], v, count) && TablesMarked(m', bs, bs', spaces[s], s, owner, owner')
    requires Vacant(spaces[s].blocks, v, count)
    ensures Justified(m', bs', spaces, owner'[f], f)
  {
    hide Inv, MapEffect, Lookup, HoldsFrame, Descending, InBounds, Vacant;
    JustifiedAt(m, bs, spaces, owner, f);
    FreeShrinks(m, bs, m', bs', spaces[s], v, count);
    if Covers(bs, f) && !Covers(bs', f) {
    } else {
      match owner[f] {
        case OfBlock(t, base) =>
          MappedSpace(m, bs, m', bs', spaces, s, owner, v, count, t);
          MappedHolds(m, m', spaces[t], base, f, v, count, t == s);
        case OfTable(t, i) =>
          MappedSpace(m, bs, m', bs', spaces, s, owner, v, count, t);
        case OfStorage(j) =>
          MappedSpace(m, bs, m', bs', spaces, s, owner, v, count, 0);
          StorageSame(m, m', spaces[0], v, count, s == 0, j);
        case _ =>
      }
    }
  }

  lemma FreeShrinks(m: Mem, bs: seq<Block>, m': Mem, bs': seq<Block>, sp: Space, v: int, count: nat)
    requires MapEffect(m, bs, m', bs', sp, v, count)
    ensures forall p :: Covers(bs', p) ==> Covers(bs, p)
  {
  }

  lemma MappedHolds(m: Mem, m': Mem, sp: Space, base: int, f: int, v: int, count: nat, mapped: bool)
    requires HoldsFrame(m, sp, base, f) && Descending(sp.blocks) && InBounds(sp.blocks, sp.Start(), sp.End())
    requires mapped ==> Vacant(sp.blocks, v, count)
    requires forall u :: sp.Start() <= u < sp.End() && !(mapped && v <= u < v + count) ==>
               Lookup(m', sp.dir, u) == Lookup(m, sp.dir, u)
    ensures HoldsFrame(m', sp, base, f)
  {
    var k :| 0 <= k < |sp.blocks| && BlockHolds(m, sp, k, base, f);
    if mapped { assert !Meets(sp.blocks[k], v, count); }
    assert BlockHolds(m', sp, k, base, f);
  }

  lemma StorageSame(m: Mem, m': Mem, sp: Space, v: int, count: nat, mapped: bool, j: nat)
    requires sp.blocks != [] && Descending(sp.blocks) && InBounds(sp.blocks, sp.Start(), sp.End())
    requires sp.blocks[|sp.blocks|-1].base == sp.Start() && j < sp.blocks[|sp.blocks|-1].len
    requires mapped ==> Vacant(sp.blocks, v, count)
    requires forall u :: sp.Start() <= u < sp.End() && !(mapped && v <= u < v + count) ==>
               Lookup(m', sp.dir, u) == Lookup(m, sp.dir, u)
    ensures Lookup(m', sp.dir, sp.Start() + j) == Lookup(m, sp.dir, sp.Start() + j)
  {
    if mapped { assert !Meets(sp.blocks[|sp.blocks|-1], v, count); }
  }

  /** Mapping a range that meets no block keeps the invariant. */
  lemma InvKeptMapping(m: Mem, bs: seq<Block>, m': Mem, bs': seq<Block>, spaces: seq<Space>, s: nat, owner: Owners,
                       owner': Owners, v: int, count: nat)
    requires Inv(m, bs, spaces, owner) && s < |spaces|
    requires MapEffect(m, bs, m', bs', spaces[s], v, count) && TablesMarked(m', bs, bs', spaces[s], s, owner, owner')
    requires Vacant(spaces[s].blocks, v, count)
    ensures Inv(m', bs', spaces, owner')
  {
    forall f | 0 <= f < |owner|
      ensures Justified(m', bs', spaces, owner'[f], f)
    {
      MappedJustified(m, bs, m', bs', spaces, s, owner, owner', v, count, f);
    }
    assert forall f :: 0 <= f < |owner| ==> Justified(m, bs, spaces, owner[f], f);
    forall t | 0 <= t < |spaces|
      ensures SpaceOk(m', bs', spaces[t], t, owner')
    {
      if t == s {
        MappedSpaceOk(m, bs, m', bs', spaces[s], s, owner, owner', v, count);
      } else {
        OtherSpaceUntouched(m, bs, m', bs', spaces[s], s, spaces[t], t, owner);
        SpaceSame(m, bs, m', bs', spaces[t], t, owner, owner');
      }
    }
    if s != 0 { OtherSpaceUntouched(m, bs, m', bs', spaces[s], s, spaces[0], 0, owner); }
    assert SpaceOk(m, bs, spaces[0], 0, owner);
    MappedKernel(m, m', spaces[0], owner, owner', v, count, s == 0);
  }

  lemma MappedKernel(m: Mem, m': Mem, sp: Space, owner: Owners, owner': Owners, v: int, count: nat, mapped: bool)
    requires KernelOk(m, sp, owner) && |owner'| == |owner|
    requires Descending(sp.blocks) && InBounds(sp.blocks, sp.Start(), sp.End())
    requires mapped ==> Vacant(sp.blocks, v, count)
    requires forall u :: sp.Start() <= u < sp.End() && !(mapped && v <= u < v + count) ==>
               Lookup(m', sp.dir, u) == Lookup(m, sp.dir, u)
    requires forall f :: 0 <= f < |owner| && owner[f] != FreePage ==> owner'[f] == owner[f]
    ensures KernelOk(m', sp, owner')
  {
    forall j | 0 <= j < sp.blocks[|sp.blocks| - 1].len
      ensures StoragePage(m', sp, owner', j)
    {
      StorageSame(m, m', sp, v, count, mapped, j);
      assert StoragePage(m, sp, owner, j);
    }
  }

  // ------------------------------------------------------------ the first space

  /** The kernel's space with one page of table, in `frame`. */
  function FirstSpace(dir: nat, lo: nat, hi: nat): Space {
    Space(dir, lo, hi, Capacity(1), lo * PAGES_PER_TABLE, [VBlock(Reserved, lo * PAGES_PER_TABLE, 1)])
  }

  ghost function FirstOwner(m: Mem, bs: seq<Block>, sp: Space, frame: int, f: int): Owner {
    if Covers(bs, f) then FreePage
    else if f == sp.dir then OfDir(0)
    else if f == frame then OfStorage(0)
    else if IsTable(m, sp.dir, sp.lo, sp.hi, f) then OfTable(0, TableIndex(m, sp, f))
    else Outside
  }

  ghost function FirstOwners(m: Mem, bs: seq<Block>, sp: Space, frame: int): (r: Owners)
    ensures |r| == |m| && forall f :: 0 <= f < |m| ==> r[f] == FirstOwner(m, bs, sp, frame, f)
  {
    seq(|m|, f => FirstOwner(m, bs, sp, frame, f))
  }

  lemma FirstTables(m: Mem, bs: seq<Block>, sp: Space, frame: nat, i: nat)
    requires TablesOk(m, bs, sp.dir, sp.lo, sp.hi) && sp.lo <= i < sp.hi && HasTable(m, sp.dir, i)
    requires !Covers(bs, frame) && frame != sp.dir && !IsTable(m, sp.dir, sp.lo, sp.hi, frame)
    ensures FirstOwners(m, bs, sp, frame)[Table(m, sp.dir, i)] == OfTable(0, i)
  {
    assert IsTable(m, sp.dir, sp.lo, sp.hi, Table(m, sp.dir, i));
  }

  lemma FirstSpaceOk(m: Mem, bs: seq<Block>, dir: nat, lo: nat, hi: nat, frame: nat)
    requires TablesOk(m, bs, dir, lo, hi) && lo < hi
    requires FrameOf(Lookup(m, dir, lo * PAGES_PER_TABLE)) == frame < |m|
    requires !Covers(bs, frame) && frame != dir && !IsTable(m, dir, lo, hi, frame)
    ensures SpaceOk(m, bs, FirstSpace(dir, lo, hi), 0, FirstOwners(m, bs, FirstSpace(dir, lo, hi), frame))
    ensures KernelOk(m, FirstSpace(dir, lo, hi), FirstOwners(m, bs, FirstSpace(dir, lo, hi), frame))
  {
    hide Covers, IsTable, HasTable, Table, FirstOwners, Lookup;
    var sp := FirstSpace(dir, lo, hi);
    var owner := FirstOwners(m, bs, sp, frame);
    forall i | sp.lo <= i < sp.hi && HasTable(m, dir, i)
      ensures owner[Table(m, dir, i)] == OfTable(0, i)
    {
      FirstTables(m, bs, sp, frame, i);
    }
    assert StoragePage(m, sp, owner, 0);
    assert BlockBacked(m, sp, 0, 0, owner);
  }

  lemma FirstJustified(m: Mem, bs: seq<Block>, dir: nat, lo: nat, hi: nat, frame: nat, f: nat)
    requires FrameOf(Lookup(m, dir, lo * PAGES_PER_TABLE)) == frame && f < |m|
    ensures Justified(m, bs, [FirstSpace(dir, lo, hi)], FirstOwners(m, bs, FirstSpace(dir, lo, hi), frame)[f], f)
  {
  }

  /** Once the first table page is mapped, every frame that is neither free, a table, the
      directory nor that page is outside, and the invariant holds. */
  lemma FirstInv(m: Mem, bs: seq<Block>, dir: nat, lo: nat, hi: nat, frame: nat)
    requires TablesOk(m, bs, dir, lo, hi) && lo < hi
    requires forall p :: Covers(bs, p) ==> 0 <= p < |m|
    requires FrameOf(Lookup(m, dir, lo * PAGES_PER_TABLE)) == frame < |m|
    requires !Covers(bs, frame) && frame != dir && !IsTable(m, dir, lo, hi, frame)
    ensures Inv(m, bs, [FirstSpace(dir, lo, hi)], FirstOwners(m, bs, FirstSpace(dir, lo, hi), frame))
  {
    hide SpaceOk, KernelOk, Justified, TablesOk, Lookup, FirstSpace;
    FirstSpaceOk(m, bs, dir, lo, hi, frame);
    forall f: nat | f < |m|
      ensures Justified(m, bs, [FirstSpace(dir, lo, hi)], FirstOwners(m, bs, FirstSpace(dir, lo, hi), frame)[f], f)
    {
      FirstJustified(m, bs, dir, lo, hi, frame, f);
    }
  }
}
