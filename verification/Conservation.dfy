/** Every managed frame is in exactly one class, and the classes add up to the pool. */
module Conservation {
  import opened BlockList
  import opened Frames
  import opened PageTables
  import opened BlockTable
  import opened Ownership
  import opened OwnershipMoves
  import opened VirtualSteps

  /** The classes of frames, as the free list, the tables and the directories show them. */
  ghost predicate BlockHasFrame(m: Mem, spaces: seq<Space>, s: nat, k: nat, f: int) {
    && s < |spaces| && k < |spaces[s].blocks| && spaces[s].blocks[k].kind == Memory && spaces[s].blocks[k].base >= 0
    && FirstFrame(m, spaces[s].dir, spaces[s].blocks[k]) <= f < FirstFrame(m, spaces[s].dir, spaces[s].blocks[k]) +
         spaces[s].blocks[k].len
  }

  ghost predicate EntryHasFrame(m: Mem, spaces: seq<Space>, s: nat, i: nat, f: int) {
    && s < |spaces| && spaces[s].lo <= i < spaces[s].hi
    && HasTable(m, spaces[s].dir, i) && Table(m, spaces[s].dir, i) == f
  }

  ghost predicate DirIsFrame(spaces: seq<Space>, s: nat, f: int) {
    s < |spaces| && spaces[s].dir == f
  }

  ghost predicate StorageHasFrame(m: Mem, spaces: seq<Space>, j: nat, f: int) {
    && spaces != [] && spaces[0].blocks != [] && j < spaces[0].blocks[|spaces[0].blocks| - 1].len
    && FrameOf(Lookup(m, spaces[0].dir, spaces[0].Start() + j)) == f
  }

  lemma FrameOfBlock(m: Mem, bs: seq<Block>, spaces: seq<Space>, owner: Owners, s: nat, k: nat, f: nat)
    requires Inv(m, bs, spaces, owner) && f < |owner| && BlockHasFrame(m, spaces, s, k, f)
    ensures owner[f] == OfBlock(s, spaces[s].blocks[k].base)
  {
    var b := spaces[s].blocks[k];
    var frame := FirstFrame(m, spaces[s].dir, b);
    assert SpaceOk(m, bs, spaces[s], s, owner);
    assert BlockBacked(m, spaces[s], s, k, owner);
    assert PageBacked(m, spaces[s].dir, b.base, f - frame, frame, owner, OfBlock(s, b.base));
  }

  /** Conservation: a frame is in the class its owner names, by exactly one block, table
      entry, directory or page of the kernel's table, and in no other. */
  lemma OneClassEach(m: Mem, bs: seq<Block>, spaces: seq<Space>, owner: Owners, f: nat)
    requires Inv(m, bs, spaces, owner) && f < |owner|
    ensures Covers(bs, f) <==> owner[f] == FreePage
    ensures forall s: nat, k: nat :: BlockHasFrame(m, spaces, s, k, f) ==>
              owner[f] == OfBlock(s, spaces[s].blocks[k].base)
    ensures forall s: nat, i: nat :: EntryHasFrame(m, spaces, s, i, f) <==> owner[f] == OfTable(s, i)
    ensures forall s: nat :: DirIsFrame(spaces, s, f) <==> owner[f] == OfDir(s)
    ensures forall j: nat :: StorageHasFrame(m, spaces, j, f) <==> owner[f] == OfStorage(j)
    ensures owner[f].OfBlock? ==> exists k: nat :: BlockHasFrame(m, spaces, owner[f].space, k, f)
    ensures forall s: nat, k: nat, t: nat, l: nat ::
              BlockHasFrame(m, spaces, s, k, f) && BlockHasFrame(m, spaces, t, l, f) ==> s == t && k == l
  {
    assert Justified(m, bs, spaces, owner[f], f);
    forall s: nat, k: nat | BlockHasFrame(m, spaces, s, k, f)
      ensures owner[f] == OfBlock(s, spaces[s].blocks[k].base)
    {
      FrameOfBlock(m, bs, spaces, owner, s, k, f);
    }
    forall s: nat, i: nat | EntryHasFrame(m, spaces, s, i, f)
      ensures owner[f] == OfTable(s, i)
    {
      assert SpaceOk(m, bs, spaces[s], s, owner);
    }
    forall s: nat | DirIsFrame(spaces, s, f)
      ensures owner[f] == OfDir(s)
    {
      assert SpaceOk(m, bs, spaces[s], s, owner);
    }
    forall j: nat | StorageHasFrame(m, spaces, j, f)
      ensures owner[f] == OfStorage(j)
    {
      assert StoragePage(m, spaces[0], owner, j);
    }
    if owner[f].OfBlock? {
      var s := owner[f].space;
      var k :| 0 <= k < |spaces[s].blocks| && BlockHolds(m, spaces[s], k, owner[f].base, f);
      assert BlockHasFrame(m, spaces, s, k, f);
    }
    forall s: nat, k: nat, t: nat, l: nat | BlockHasFrame(m, spaces, s, k, f) && BlockHasFrame(m, spaces, t, l, f)
      ensures s == t && k == l
    {
      assert SpaceOk(m, bs, spaces[s], s, owner);
    }
  }

  // ------------------------------------------------------------ counting owners

  function Count(owner: Owners, p: Owner -> bool): nat {
    if owner == [] then 0
    else Count(owner[..|owner| - 1], p) + (if p(owner[|owner| - 1]) then 1 else 0)
  }

  predicate IsManaged(o: Owner) { o != Outside }
  predicate IsFree(o: Owner) { o == FreePage }
  predicate IsPending(o: Owner) { o == Pending }
  predicate IsOfBlock(o: Owner) { o.OfBlock? }
  predicate IsOfTable(o: Owner) { o.OfTable? || o.OfDir? }
  predicate IsOfStorage(o: Owner) { o.OfStorage? }

  function Managed(owner: Owners): nat { Count(owner, IsManaged) }
  function FreeFrames(owner: Owners): nat { Count(owner, IsFree) }
  function PendingFrames(owner: Owners): nat { Count(owner, IsPending) }

  /** Frames of each class add up to the pool. */
  lemma {:induction false} ClassesAddUp(owner: Owners)
    ensures Managed(owner) == FreeFrames(owner) + PendingFrames(owner)
                              + Count(owner, IsOfBlock) + Count(owner, IsOfTable) + Count(owner, IsOfStorage)
  {
    if owner != [] {
      ClassesAddUp(owner[..|owner| - 1]);
    }
  }

  function CountTag(owner: Owners, tag: Owner): nat {
    if owner == [] then 0
    else CountTag(owner[..|owner| - 1], tag) + (if owner[|owner| - 1] == tag then 1 else 0)
  }

  function CountTags(owner: Owners, tags: seq<Owner>): nat {
    if tags == [] then 0
    else CountTags(owner, tags[..|tags| - 1]) + CountTag(owner, tags[|tags| - 1])
  }

  /** A tag owns exactly the frames of a range. */
  lemma {:induction false} CountRange(owner: Owners, tag: Owner, first: int, len: nat, n: nat)
    requires n <= |owner| && 0 <= first
    requires forall f :: 0 <= f < n ==> (owner[f] == tag <==> first <= f < first + len)
    ensures CountTag(owner[..n], tag) == if n <= first then 0 else if n <= first + len then n - first else len
  {
    if n > 0 {
      assert owner[..n][..n-1] == owner[..n-1];
      CountRange(owner, tag, first, len, n - 1);
    }
  }

  ghost predicate DistinctTags(tags: seq<Owner>) {
    forall i, j :: 0 <= i < j < |tags| ==> tags[i] != tags[j]
  }

  lemma {:induction false} CountTagsLast(owner: Owners, tags: seq<Owner>)
    requires owner != [] && DistinctTags(tags)
    ensures CountTags(owner, tags) == CountTags(owner[..|owner| - 1], tags) + if owner[|owner| - 1] in tags then 1
              else 0
  {
    if tags != [] {
      var t := tags[..|tags| - 1];
      CountTagsLast(owner, t);
      assert tags == t + [tags[|tags| - 1]];
    }
  }

  lemma {:induction false} NoOwnersCounted(tags: seq<Owner>)
    ensures CountTags([], tags) == 0
  {
    if tags != [] { NoOwnersCounted(tags[..|tags| - 1]); }
  }

  /** The tags of a class, one by one, count the class. */
  lemma {:induction false} CountByTags(owner: Owners, tags: seq<Owner>, p: Owner -> bool)
    requires DistinctTags(tags) && forall f :: 0 <= f < |owner| ==> (p(owner[f]) <==> owner[f] in tags)
    ensures Count(owner, p) == CountTags(owner, tags)
  {
    if owner == [] {
      NoOwnersCounted(tags);
    } else {
      CountByTags(owner[..|owner| - 1], tags, p);
      CountTagsLast(owner, tags);
    }
  }

  lemma {:induction false} CountTagsAppend(owner: Owners, a: seq<Owner>, b: seq<Owner>)
    ensures CountTags(owner, a + b) == CountTags(owner, a) + CountTags(owner, b)
  {
    if b == [] {
      assert a + b == a;
    } else {
      var n := |b| - 1;
      CountTagsAppend(owner, a, b[..n]);
      assert (a + b)[..|a + b| - 1] == a + b[..n];
    }
  }

  // ------------------------------------------------------------ memory blocks

  /** Pages of the memory blocks of a table. */
  function BlockPages(bs: seq<VBlock>): nat {
    if bs == [] then 0
    else BlockPages(bs[..|bs| - 1]) + (if bs[|bs| - 1].kind == Memory then bs[|bs| - 1].len else 0)
  }

  /** Pages of the memory blocks of all spaces. */
  function MemoryPages(spaces: seq<Space>): nat {
    if spaces == [] then 0
    else MemoryPages(spaces[..|spaces| - 1]) + BlockPages(spaces[|spaces| - 1].blocks)
  }

  function BlockTags(s: nat, bs: seq<VBlock>): seq<Owner> {
    if bs == [] then []
    else BlockTags(s, bs[..|bs| - 1]) + (if bs[|bs| - 1].kind == Memory then [OfBlock(s, bs[|bs| - 1].base)] else [])
  }

  function MemoryTags(spaces: seq<Space>): seq<Owner> {
    if spaces == [] then []
    else MemoryTags(spaces[..|spaces| - 1]) + BlockTags(|spaces| - 1, spaces[|spaces| - 1].blocks)
  }

  ghost predicate IsBlockTag(s: nat, bs: seq<VBlock>, tag: Owner, n: nat) {
    exists k :: 0 <= k < n && k < |bs| && bs[k].kind == Memory && tag == OfBlock(s, bs[k].base)
  }

  lemma {:induction false} BlockTagsAre(s: nat, bs: seq<VBlock>, n: nat)
    requires Descending(bs) && n <= |bs|
    ensures forall tag :: tag in BlockTags(s, bs[..n]) <==> IsBlockTag(s, bs, tag, n)
    ensures DistinctTags(BlockTags(s, bs[..n]))
  {
    if n > 0 {
      BlockTagsAre(s, bs, n - 1);
      assert bs[..n][..n-1] == bs[..n-1];
      var last := if bs[n-1].kind == Memory then [OfBlock(s, bs[n-1].base)] else [];
      assert BlockTags(s, bs[..n]) == BlockTags(s, bs[..n-1]) + last;
      if bs[n-1].kind == Memory {
        assert !IsBlockTag(s, bs, OfBlock(s, bs[n-1].base), n - 1);
        assert IsBlockTag(s, bs, OfBlock(s, bs[n-1].base), n);
      }
      forall tag
        ensures tag in BlockTags(s, bs[..n]) <==> IsBlockTag(s, bs, tag, n)
      {
        if IsBlockTag(s, bs, tag, n - 1) { assert IsBlockTag(s, bs, tag, n); }
      }
      TagsJoin(BlockTags(s, bs[..n-1]), last);
    }
  }

  lemma TagsJoin(a: seq<Owner>, b: seq<Owner>)
    requires DistinctTags(a) && DistinctTags(b) && forall tag :: tag in a ==> tag !in b
    ensures DistinctTags(a + b)
  {
    var c := a + b;
    forall i, j | 0 <= i < j < |c|
      ensures c[i] != c[j]
    {
      if i < |a| <= j { assert a[i] in a && b[j - |a|] in b; }
    }
  }

  /** The tags of the memory blocks of space s. */
  lemma SpaceTagsAre(m: Mem, bs: seq<Block>, spaces: seq<Space>, owner: Owners, s: nat)
    requires Inv(m, bs, spaces, owner) && s < |spaces|
    ensures DistinctTags(BlockTags(s, spaces[s].blocks))
    ensures forall tag :: tag in BlockTags(s, spaces[s].blocks) ==> tag.OfBlock? && tag.space == s
    ensures forall f :: 0 <= f < |owner| && owner[f].OfBlock? && owner[f].space == s ==>
              owner[f] in BlockTags(s, spaces[s].blocks)
  {
    var b := spaces[s].blocks;
    assert SpaceOk(m, bs, spaces[s], s, owner);
    BlockTagsAre(s, b, |b|);
    assert b[..|b|] == b;
    forall f | 0 <= f < |owner| && owner[f].OfBlock? && owner[f].space == s
      ensures owner[f] in BlockTags(s, b)
    {
      assert Justified(m, bs, spaces, owner[f], f);
      var k :| 0 <= k < |b| && BlockHolds(m, spaces[s], k, owner[f].base, f);
      assert IsBlockTag(s, b, owner[f], |b|);
    }
  }

  /** One block owns as many frames as it has pages. */
  lemma BlockOwnsItsLength(m: Mem, bs: seq<Block>, spaces: seq<Space>, owner: Owners, s: nat, k: nat)
    requires Inv(m, bs, spaces, owner) && s < |spaces| && k < |spaces[s].blocks| && spaces[s].blocks[k].kind == Memory
    ensures CountTag(owner, OfBlock(s, spaces[s].blocks[k].base)) == spaces[s].blocks[k].len
  {
    var b := spaces[s].blocks[k];
    BlockFrameRange(m, bs, spaces, owner, s, k);
    CountRange(owner, OfBlock(s, b.base), FirstFrame(m, spaces[s].dir, b), b.len, |owner|);
    assert owner[..|owner|] == owner;
  }

  lemma BlockFrameRange(m: Mem, bs: seq<Block>, spaces: seq<Space>, owner: Owners, s: nat, k: nat)
    requires Inv(m, bs, spaces, owner) && s < |spaces| && k < |spaces[s].blocks| && spaces[s].blocks[k].kind == Memory
    ensures var b := spaces[s].blocks[k];
            && b.base >= 0 && 0 <= FirstFrame(m, spaces[s].dir, b) && FirstFrame(m, spaces[s].dir, b) + b.len <= |owner|
            && forall f :: 0 <= f < |owner| ==>
                 (owner[f] == OfBlock(s, b.base) <==>
                     FirstFrame(m, spaces[s].dir, b) <= f < FirstFrame(m, spaces[s].dir, b) + b.len)
  {
    var b := spaces[s].blocks[k];
    assert SpaceOk(m, bs, spaces[s], s, owner);
    assert BlockBacked(m, spaces[s], s, k, owner);
    var frame := FirstFrame(m, spaces[s].dir, b);
    assert PageBacked(m, spaces[s].dir, b.base, 0, frame, owner, OfBlock(s, b.base));
    assert PageBacked(m, spaces[s].dir, b.base, b.len - 1, frame, owner, OfBlock(s, b.base));
    forall f | 0 <= f < |owner|
      ensures owner[f] == OfBlock(s, b.base) <==> frame <= f < frame + b.len
    {
      if owner[f] == OfBlock(s, b.base) { OwnedByBlock(m, bs, spaces, s, k, owner, f); }
      if frame <= f < frame + b.len { assert PageBacked(m, spaces[s].dir, b.base, f - frame, frame, owner,
          OfBlock(s, b.base)); }
    }
  }

  lemma {:induction false} SpaceOwnsItsPages(m: Mem, bs: seq<Block>, spaces: seq<Space>, owner: Owners, s: nat, n: nat)
    requires Inv(m, bs, spaces, owner) && s < |spaces| && n <= |spaces[s].blocks|
    ensures CountTags(owner, BlockTags(s, spaces[s].blocks[..n])) == BlockPages(spaces[s].blocks[..n])
  {
    if n > 0 {
      var b := spaces[s].blocks;
      SpaceOwnsItsPages(m, bs, spaces, owner, s, n - 1);
      assert b[..n][..n-1] == b[..n-1];
      if b[n-1].kind == Memory {
        BlockOwnsItsLength(m, bs, spaces, owner, s, n - 1);
        CountTagsAppend(owner, BlockTags(s, b[..n-1]), [OfBlock(s, b[n-1].base)]);
        OneTag(owner, OfBlock(s, b[n-1].base));
      } else {
        assert BlockTags(s, b[..n]) == BlockTags(s, b[..n-1]);
      }
    }
  }

  lemma OneTag(owner: Owners, tag: Owner)
    ensures CountTags(owner, [tag]) == CountTag(owner, tag)
  {
    assert [tag][..0] == [];
  }

  lemma MemoryStep(owner: Owners, spaces: seq<Space>, n: nat)
    requires n <= |spaces|
    ensures n == 0 ==>
              && MemoryTags(spaces[..n]) == [] && MemoryPages(spaces[..n]) == 0
              && DistinctTags([]) && CountTags(owner, []) == 0
    ensures n > 0 ==>
              && MemoryTags(spaces[..n]) == MemoryTags(spaces[..n-1]) + BlockTags(n - 1, spaces[n-1].blocks)
              && MemoryPages(spaces[..n]) == MemoryPages(spaces[..n-1]) + BlockPages(spaces[n-1].blocks)
  {
    if n > 0 { assert spaces[..n][..n-1] == spaces[..n-1] && spaces[..n][n-1] == spaces[n-1]; }
  }

  lemma {:induction false} MemoryTagsAre(m: Mem, bs: seq<Block>, spaces: seq<Space>, owner: Owners, n: nat)
    requires Inv(m, bs, spaces, owner) && n <= |spaces|
    ensures DistinctTags(MemoryTags(spaces[..n])) &&
              CountTags(owner, MemoryTags(spaces[..n])) == MemoryPages(spaces[..n])
    ensures forall tag :: tag in MemoryTags(spaces[..n]) ==> tag.OfBlock? && tag.space < n
    ensures forall f :: 0 <= f < |owner| && owner[f].OfBlock? && owner[f].space < n ==>
              owner[f] in MemoryTags(spaces[..n])
  {
    hide Inv, BlockTags, BlockPages, CountTags, MemoryTags, MemoryPages, DistinctTags;
    MemoryStep(owner, spaces, n);
    if n > 0 {
      var s := n - 1;
      MemoryTagsAre(m, bs, spaces, owner, s);
      SpaceTagsAre(m, bs, spaces, owner, s);
      var b := spaces[s].blocks;
      assert b[..|b|] == b;
      SpaceOwnsItsPages(m, bs, spaces, owner, s, |b|);
      TagsJoin(MemoryTags(spaces[..s]), BlockTags(s, b));
      CountTagsAppend(owner, MemoryTags(spaces[..s]), BlockTags(s, b));
    }
  }

  /** The frames owned by blocks are as many as the memory blocks of all spaces have pages. */
  lemma BlockFramesArePages(m: Mem, bs: seq<Block>, spaces: seq<Space>, owner: Owners)
    requires Inv(m, bs, spaces, owner)
    ensures Count(owner, IsOfBlock) == MemoryPages(spaces)
  {
    MemoryTagsAre(m, bs, spaces, owner, |spaces|);
    assert spaces[..|spaces|] == spaces;
    forall f | 0 <= f < |owner|
      ensures IsOfBlock(owner[f]) <==> owner[f] in MemoryTags(spaces)
    {
      assert Justified(m, bs, spaces, owner[f], f);
    }
    CountByTags(owner, MemoryTags(spaces), IsOfBlock);
  }

  // ------------------------------------------------------------ page tables and directories

  /** Directory entries lo..hi that are present. */
  function PresentTables(m: Mem, dir: nat, lo: nat, hi: nat): nat
    decreases hi
  {
    if hi <= lo then 0 else PresentTables(m, dir, lo, hi - 1) + (if HasTable(m, dir, hi - 1) then 1 else 0)
  }

  /** Page tables and directories of all spaces. */
  function TablePages(m: Mem, spaces: seq<Space>): nat {
    if spaces == [] then 0
    else
      var sp := spaces[|spaces| - 1];
      TablePages(m, spaces[..|spaces| - 1]) + 1 + PresentTables(m, sp.dir, sp.lo, sp.hi)
  }

  function TableTags(m: Mem, s: nat, dir: nat, lo: nat, hi: nat): seq<Owner>
    decreases hi
  {
    if hi <= lo then [OfDir(s)] else TableTags(m, s, dir, lo, hi - 1) + (if HasTable(m, dir, hi - 1)
        then [OfTable(s, hi - 1)] else [])
  }

  function AllTableTags(m: Mem, spaces: seq<Space>): seq<Owner> {
    if spaces == [] then []
    else
      var sp := spaces[|spaces| - 1];
      AllTableTags(m, spaces[..|spaces| - 1]) + TableTags(m, |spaces| - 1, sp.dir, sp.lo, sp.hi)
  }

  lemma {:induction false} TableTagsAre(m: Mem, s: nat, dir: nat, lo: nat, hi: nat)
    requires lo <= hi
    ensures forall tag :: tag in TableTags(m, s, dir, lo, hi) <==>
              tag == OfDir(s) || (tag.OfTable? && tag.space == s && lo <= tag.index < hi && HasTable(m, dir, tag.index))
    ensures DistinctTags(TableTags(m, s, dir, lo, hi))
    decreases hi
  {
    if hi > lo {
      TableTagsAre(m, s, dir, lo, hi - 1);
      TagsJoin(TableTags(m, s, dir, lo, hi - 1), if HasTable(m, dir, hi - 1) then [OfTable(s, hi - 1)] else []);
    }
  }

  /** A directory, or a table that is present, is one frame. */
  lemma OneFrameEach(m: Mem, bs: seq<Block>, spaces: seq<Space>, owner: Owners, s: nat)
    requires Inv(m, bs, spaces, owner) && s < |spaces|
    ensures CountTag(owner, OfDir(s)) == 1
    ensures forall i: nat :: spaces[s].lo <= i < spaces[s].hi && HasTable(m, spaces[s].dir, i) ==>
              CountTag(owner, OfTable(s, i)) == 1
  {
    var sp := spaces[s];
    assert SpaceOk(m, bs, sp, s, owner);
    assert owner[..|owner|] == owner;
    assert forall f :: 0 <= f < |owner| ==> Justified(m, bs, spaces, owner[f], f);
    CountRange(owner, OfDir(s), sp.dir, 1, |owner|);
    forall i: nat | sp.lo <= i < sp.hi && HasTable(m, sp.dir, i)
      ensures CountTag(owner, OfTable(s, i)) == 1
    {
      CountRange(owner, OfTable(s, i), Table(m, sp.dir, i), 1, |owner|);
    }
  }

  lemma {:induction false} SpaceOwnsItsTables(m: Mem, owner: Owners, s: nat, dir: nat, lo: nat, hi: nat)
    requires CountTag(owner, OfDir(s)) == 1
    requires forall i: nat :: lo <= i < hi && HasTable(m, dir, i) ==> CountTag(owner, OfTable(s, i)) == 1
    ensures CountTags(owner, TableTags(m, s, dir, lo, hi)) == 1 + PresentTables(m, dir, lo, hi)
    decreases hi
  {
    if hi <= lo {
      OneTag(owner, OfDir(s));
    } else {
      SpaceOwnsItsTables(m, owner, s, dir, lo, hi - 1);
      if HasTable(m, dir, hi - 1) {
        CountTagsAppend(owner, TableTags(m, s, dir, lo, hi - 1), [OfTable(s, hi - 1)]);
        OneTag(owner, OfTable(s, hi - 1));
      } else {
        assert TableTags(m, s, dir, lo, hi) == TableTags(m, s, dir, lo, hi - 1);
      }
    }
  }

  lemma TableStep(m: Mem, owner: Owners, spaces: seq<Space>, n: nat)
    requires n <= |spaces|
    ensures n == 0 ==>
              && AllTableTags(m, spaces[..n]) == [] && TablePages(m, spaces[..n]) == 0
              && DistinctTags([]) && CountTags(owner, []) == 0
    ensures n > 0 ==>
              var sp := spaces[n-1];
              && AllTableTags(m, spaces[..n])
                 == AllTableTags(m, spaces[..n-1]) + TableTags(m, n - 1, sp.dir, sp.lo, sp.hi)
              && TablePages(m, spaces[..n])
                 == TablePages(m, spaces[..n-1]) + 1 + PresentTables(m, sp.dir, sp.lo, sp.hi)
  {
    if n > 0 { assert spaces[..n][..n-1] == spaces[..n-1] && spaces[..n][n-1] == spaces[n-1]; }
  }

  lemma {:induction false} AllTableTagsAre(m: Mem, bs: seq<Block>, spaces: seq<Space>, owner: Owners, n: nat)
    requires Inv(m, bs, spaces, owner) && n <= |spaces|
    ensures DistinctTags(AllTableTags(m, spaces[..n])) &&
              CountTags(owner, AllTableTags(m, spaces[..n])) == TablePages(m, spaces[..n])
    ensures forall tag :: tag in AllTableTags(m, spaces[..n]) ==> IsOfTable(tag) && tag.space < n
    ensures forall f :: 0 <= f < |owner| && IsOfTable(owner[f]) && owner[f].space < n ==>
              owner[f] in AllTableTags(m, spaces[..n])
  {
    hide Inv, TableTags, PresentTables, CountTags, AllTableTags, TablePages, DistinctTags, HasTable;
    TableStep(m, owner, spaces, n);
    if n > 0 {
      var s := n - 1;
      var sp := spaces[s];
      AllTableTagsAre(m, bs, spaces, owner, s);
      TablesInRange(m, bs, spaces, owner, s);
      TableTagsAre(m, s, sp.dir, sp.lo, sp.hi);
      OneFrameEach(m, bs, spaces, owner, s);
      SpaceOwnsItsTables(m, owner, s, sp.dir, sp.lo, sp.hi);
      TagsJoin(AllTableTags(m, spaces[..s]), TableTags(m, s, sp.dir, sp.lo, sp.hi));
      CountTagsAppend(owner, AllTableTags(m, spaces[..s]), TableTags(m, s, sp.dir, sp.lo, sp.hi));
    }
  }

  lemma TablesInRange(m: Mem, bs: seq<Block>, spaces: seq<Space>, owner: Owners, s: nat)
    requires Inv(m, bs, spaces, owner) && s < |spaces|
    ensures spaces[s].lo <= spaces[s].hi
    ensures forall f :: 0 <= f < |owner| && owner[f].OfTable? && owner[f].space == s ==>
              spaces[s].lo <= owner[f].index < spaces[s].hi && HasTable(m, spaces[s].dir, owner[f].index)
  {
    assert SpaceOk(m, bs, spaces[s], s, owner);
    assert forall f :: 0 <= f < |owner| ==> Justified(m, bs, spaces, owner[f], f);
  }

  /** The frames owned as page tables and directories are as many as there are present entries
      and spaces. */
  lemma TableFramesAreTables(m: Mem, bs: seq<Block>, spaces: seq<Space>, owner: Owners)
    requires Inv(m, bs, spaces, owner)
    ensures Count(owner, IsOfTable) == TablePages(m, spaces)
  {
    AllTableTagsAre(m, bs, spaces, owner, |spaces|);
    assert spaces[..|spaces|] == spaces;
    forall f | 0 <= f < |owner|
      ensures IsOfTable(owner[f]) <==> owner[f] in AllTableTags(m, spaces)
    {
      assert Justified(m, bs, spaces, owner[f], f);
    }
    CountByTags(owner, AllTableTags(m, spaces), IsOfTable);
  }

  // ------------------------------------------------------------ the kernel's block table

  /** Pages of the reserved block, in which the kernel's block table lies. */
  function StoragePages(spaces: seq<Space>): nat {
    if spaces == [] || spaces[0].blocks == [] then 0 else spaces[0].blocks[|spaces[0].blocks| - 1].len
  }

  function StorageTags(n: nat): seq<Owner> {
    if n == 0 then [] else StorageTags(n - 1) + [OfStorage(n - 1)]
  }

  lemma {:induction false} StorageTagsAre(owner: Owners, n: nat)
    requires forall j: nat :: j < n ==> CountTag(owner, OfStorage(j)) == 1
    ensures DistinctTags(StorageTags(n)) && CountTags(owner, StorageTags(n)) == n
    ensures forall tag :: tag in StorageTags(n) <==> tag.OfStorage? && tag.k < n
  {
    hide CountTags, CountTag, DistinctTags, StorageTags;
    StorageStep(owner, n);
    if n > 0 {
      StorageTagsAre(owner, n - 1);
      TagsJoin(StorageTags(n - 1), [OfStorage(n - 1)]);
      CountTagsAppend(owner, StorageTags(n - 1), [OfStorage(n - 1)]);
      OneTag(owner, OfStorage(n - 1));
    }
  }

  lemma StorageStep(owner: Owners, n: nat)
    ensures n == 0 ==> StorageTags(n) == [] && DistinctTags([]) && CountTags(owner, []) == 0
    ensures n > 0 ==> StorageTags(n) == StorageTags(n - 1) + [OfStorage(n - 1)] && DistinctTags([OfStorage(n - 1)])
  {
  }

  lemma OneStorageFrame(m: Mem, bs: seq<Block>, spaces: seq<Space>, owner: Owners, j: nat)
    requires Inv(m, bs, spaces, owner) && j < StoragePages(spaces)
    ensures CountTag(owner, OfStorage(j)) == 1
  {
    assert StoragePage(m, spaces[0], owner, j);
    assert forall f :: 0 <= f < |owner| ==> Justified(m, bs, spaces, owner[f], f);
    CountRange(owner, OfStorage(j), FrameOf(Lookup(m, spaces[0].dir, spaces[0].Start() + j)), 1, |owner|);
    assert owner[..|owner|] == owner;
  }

  lemma StorageFramesArePages(m: Mem, bs: seq<Block>, spaces: seq<Space>, owner: Owners)
    requires Inv(m, bs, spaces, owner)
    ensures Count(owner, IsOfStorage) == StoragePages(spaces)
  {
    var n := StoragePages(spaces);
    forall j: nat | j < n
      ensures CountTag(owner, OfStorage(j)) == 1
    {
      OneStorageFrame(m, bs, spaces, owner, j);
    }
    StorageTagsAre(owner, n);
    forall f | 0 <= f < |owner|
      ensures IsOfStorage(owner[f]) <==> owner[f] in StorageTags(n)
    {
      assert Justified(m, bs, spaces, owner[f], f);
    }
    CountByTags(owner, StorageTags(n), IsOfStorage);
  }

  // ------------------------------------------------------------ the free list

  lemma {:induction false} CountBelow(owner: Owners, n: nat, free: set<int>)
    requires n <= |owner| && forall f :: 0 <= f < n ==> (owner[f] == FreePage <==> f in free)
    ensures FreeFrames(owner[..n]) == |set f | f in free && 0 <= f < n|
  {
    var s := set f | f in free && 0 <= f < n;
    if n == 0 {
      assert s == {};
    } else {
      CountBelow(owner, n - 1, free);
      var t := set f | f in free && 0 <= f < n - 1;
      assert owner[..n][..n-1] == owner[..n-1];
      assert s == if n - 1 in free then t + {n - 1} else t;
    }
  }

  /** The page counter of the allocator is the size of the free class. */
  lemma FreeClassIsCounted(m: Mem, bs: seq<Block>, spaces: seq<Space>, owner: Owners)
    requires Inv(m, bs, spaces, owner) && Sorted(bs)
    ensures FreeFrames(owner) == Total(bs)
  {
    PagesAreCovered(bs);
    TotalIsPageCount(bs);
    assert forall f :: 0 <= f < |owner| ==> Justified(m, bs, spaces, owner[f], f);
    CountBelow(owner, |owner|, Pages(bs));
    assert owner[..|owner|] == owner;
    assert (set f | f in Pages(bs) && 0 <= f < |owner|) == Pages(bs);
  }

  lemma {:induction false} SamePool(owner: Owners, owner': Owners)
    requires Settled(owner, owner')
    ensures Managed(owner') == Managed(owner) && PendingFrames(owner') == PendingFrames(owner)
  {
    if owner != [] {
      var n := |owner| - 1;
      assert Settled(owner[..n], owner'[..n]);
      SamePool(owner[..n], owner'[..n]);
    }
  }

  // ------------------------------------------------------------ the numbers add up

  /** All frames the structures of the three layers account for. */
  function Accounted(m: Mem, free: nat, spaces: seq<Space>): nat {
    free + MemoryPages(spaces) + TablePages(m, spaces) + StoragePages(spaces)
  }

  /** The pool is the free pages, the pages of memory blocks, the page tables and directories,
      and the pages of the kernel's block table, and what is pending. */
  lemma PoolIsAccounted(m: Mem, bs: seq<Block>, spaces: seq<Space>, owner: Owners)
    requires Inv(m, bs, spaces, owner) && Sorted(bs)
    ensures Managed(owner) == Accounted(m, Total(bs), spaces) + PendingFrames(owner)
  {
    hide *;
    ClassesAddUp(owner);
    FreeClassIsCounted(m, bs, spaces, owner);
    BlockFramesArePages(m, bs, spaces, owner);
    TableFramesAreTables(m, bs, spaces, owner);
    StorageFramesArePages(m, bs, spaces, owner);
    AccountedIs(m, Total(bs), spaces);
  }

  lemma AccountedIs(m: Mem, free: nat, spaces: seq<Space>)
    ensures Accounted(m, free, spaces) == free + MemoryPages(spaces) + TablePages(m, spaces) + StoragePages(spaces)
  {
  }
}
