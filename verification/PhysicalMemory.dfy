/** The physical page allocator of memory_manager.c: `alloc_phys_pages` as written, and
    `free_phys_pages` both as written and with its three slips repaired. */
module PhysicalMemory {
  import opened BlockList
  import opened Cycles
  import opened Frames
  import opened FreeRing

  /** Nothing outside the free runs has been written. */
  ghost predicate OnlyFreeWritten(m: Mem, m': Mem, bs: seq<Block>) {
    && |m'| == |m|
    && forall p, j :: !Covers(bs, p) ==> Word(m', p, j) == Word(m, p, j)
  }

  /** The allocator's invariant on its globals and on the words of memory. */
  ghost predicate FreeListOk(m: Mem, head: int, count: nat, bs: seq<Block>) {
    && WellShaped(m)
    && Sorted(bs)
    && Within(bs, |m|)
    && Ring(m, head, bs)
    && count == Total(bs)
  }

  /** The stores of a release whose walk ended at run k, repaired. */
  function Released(m: Mem, bs: seq<Block>, k: nat, base: nat, count: nat): Mem
    requires k < |bs|
  {
    var cur, next, prev := bs[k].base, bs[Succ(k, |bs|)].base, bs[Pred(k, |bs|)].base;
    if bs[k].base + bs[k].size == base then Grown(m, cur, base, count)
    else if base + count == cur then
      if |bs| == 1 then Linked(m, base, base, base, count + bs[k].size)
      else Linked(m, next, prev, base, count + bs[k].size)
    else if cur > base then Linked(m, cur, prev, base, count)
    else Linked(m, next, cur, base, count)
  }

  /** The stores of the same release by the text of lines 181-217. */
  function ReleasedAsWritten(m: Mem, bs: seq<Block>, k: nat, base: nat, count: nat): Mem
    requires k < |bs|
  {
    var cur, next, prev := bs[k].base, bs[Succ(k, |bs|)].base, bs[Pred(k, |bs|)].base;
    if bs[k].base + bs[k].size == base then Grown(m, cur, base, count)
    else if base + count == cur then Linked(m, next, prev, base, count + bs[k].size)
    else Linked(m, cur, next, base, count)
  }

  /** When the text of the release is right. `k` is the run at which the walk ends. */
  predicate TextIsRight(bs: seq<Block>, k: nat, base: nat, count: nat)
    requires k < |bs|
  {
    if bs[k].base + bs[k].size == base then true
    else if base + count == bs[k].base then |bs| >= 2
    else if bs[k].base > base then |bs| <= 2
    else |bs| == 1
  }

  lemma SortedIsPlaced(m: Mem, bs: seq<Block>)
    requires WellShaped(m) && Sorted(bs) && Within(bs, |m|)
    ensures Placed(m, bs)
  {
  }

  lemma AbsentBase(bs: seq<Block>, base: nat, count: nat)
    requires Sorted(bs) && count >= 1 && Absent(bs, base, count)
    ensures forall i :: 0 <= i < |bs| ==> bs[i].base != base
  {
    forall i | 0 <= i < |bs|
      ensures bs[i].base != base
    {
      Apart(bs, i, base, count);
    }
  }

  /** The repaired stores leave the ring of the coalesced list. */
  lemma ReleasedRing(m: Mem, bs: seq<Block>, k: nat, base: nat, count: nat)
    requires WellShaped(m) && Sorted(bs) && Within(bs, |m|) && Nodes(m, bs)
    requires count >= 1 && base + count <= |m| && Absent(bs, base, count) && FirstStop(bs, k, base, count)
    ensures Nodes(Released(m, bs, k, base, count), Insert(bs, base, count))
  {
    SortedIsPlaced(m, bs);
    AbsentBase(bs, base, count);
    WalkInserts(bs, k, base, count);
    ReleasedNodes(m, bs, k, base, count);
  }

  lemma ReleasedNodes(m: Mem, bs: seq<Block>, k: nat, base: nat, count: nat)
    requires Placed(m, bs) && Nodes(m, bs) && Sorted(bs) && base < |m| && count >= 1
    requires k < |bs| && Stops(bs, k, base, count)
    requires forall i :: 0 <= i < |bs| ==> bs[i].base != base
    ensures Nodes(Released(m, bs, k, base, count), InsertedAt(bs, k, base, count))
  {
    if bs[k].base + bs[k].size == base {
      GrownNodes(m, bs, k, base, count);
    } else if base + count == bs[k].base {
      TakenOverNodes(m, bs, k, Block(base, count + bs[k].size));
    } else if bs[k].base > base {
      LinkAddsNode(m, bs, k, Block(base, count));
    } else {
      AppendedNodes(m, bs, Block(base, count));
    }
  }

  lemma TakenOverNodes(m: Mem, bs: seq<Block>, k: nat, b: Block)
    requires Placed(m, bs) && Nodes(m, bs) && k < |bs| && b.base < |m|
    requires forall i :: 0 <= i < |bs| ==> bs[i].base != b.base
    ensures Nodes(if |bs| == 1 then Linked(m, b.base, b.base, b.base, b.size)
                  else Linked(m, bs[Succ(k, |bs|)].base, bs[Pred(k, |bs|)].base, b.base, b.size), bs[k := b])
  {
    if |bs| == 1 {
      LinkAlone(m, b);
      assert bs[k := b] == [b];
    } else {
      LinkReplacesNode(m, bs, k, b);
    }
  }

  lemma AppendedNodes(m: Mem, bs: seq<Block>, b: Block)
    requires Placed(m, bs) && Nodes(m, bs) && bs != [] && b.base < |m|
    requires forall i :: 0 <= i < |bs| ==> bs[i].base != b.base
    ensures Nodes(Linked(m, bs[0].base, bs[|bs|-1].base, b.base, b.size), bs + [b])
  {
    LinkAddsNode(m, bs, |bs|, b);
    assert bs[..|bs|] + [b] + bs[|bs|..] == bs + [b];
  }

  /** Where the repaired list starts. */
  lemma InsertHead(bs: seq<Block>, k: nat, base: nat, count: nat)
    requires Sorted(bs) && count >= 1 && Absent(bs, base, count) && FirstStop(bs, k, base, count)
    ensures Insert(bs, base, count) != []
    ensures Insert(bs, base, count)[0].base == if base < bs[0].base then base else bs[0].base
  {
    WalkInserts(bs, k, base, count);
    Apart(bs, k, base, count);
    if k > 0 { assert !Stops(bs, 0, base, count); }
  }

  /** A release keeps the list within memory. */
  lemma InsertWithin(bs: seq<Block>, base: nat, count: nat, frames: nat)
    requires Sorted(bs) && Within(bs, frames) && count >= 1 && base + count <= frames && Absent(bs, base, count)
    ensures Within(Insert(bs, base, count), frames)
  {
    InsertMeets(bs, base, count);
    WithinByCover(Insert(bs, base, count), frames);
  }

  // ------------------------------------------------------------ the text of the release

  /** Any ascending, coalesced list of the right pages that the links could describe is the
      one `Insert` gives. */
  lemma OnlyOneGoodList(bs: seq<Block>, base: nat, count: nat, c: seq<Block>)
    requires Sorted(bs) && count >= 1 && Absent(bs, base, count) && Sorted(c)
    requires forall p :: Covers(c, p) <==> Covers(bs, p) || base <= p < base + count
    ensures c == Insert(bs, base, count)
  {
    InsertMeets(bs, base, count);
    Canonical(c, Insert(bs, base, count));
  }

  /** A single run that the new one ends at stays linked behind it. */
  lemma TextFailsOnSingleRun(m: Mem, bs: seq<Block>, base: nat, count: nat)
    requires Placed(m, bs) && Nodes(m, bs) && |bs| == 1 && base + count == bs[0].base
    requires base < |m| && count >= 1
    ensures !Nodes(ReleasedAsWritten(m, bs, 0, base, count), [Block(base, count + bs[0].size)])
  {
    var c := [Block(base, count + bs[0].size)];
    var m' := ReleasedAsWritten(m, bs, 0, base, count);
    assert Word(m', base, NEXT) == bs[0].base;
    assert !Node(m', c, 0);
  }

  /** Before a run of a ring of three or more, the run after it is cut out. */
  lemma TextFailsBeforeRun(m: Mem, bs: seq<Block>, k: nat, base: nat, count: nat)
    requires Placed(m, bs) && Nodes(m, bs) && |bs| >= 3 && k < |bs| && base < |m| && count >= 1
    requires forall i :: 0 <= i < |bs| ==> bs[i].base != base
    requires bs[k].base + bs[k].size != base && base + count != bs[k].base && bs[k].base > base
    ensures !Nodes(ReleasedAsWritten(m, bs, k, base, count), bs[..k] + [Block(base, count)] + bs[k..])
  {
    var b := Block(base, count);
    var c := bs[..k] + [b] + bs[k..];
    var m' := ReleasedAsWritten(m, bs, k, base, count);
    var o := Succ(k, |bs|);
    var i := if o < k then o else o + 1;
    AddNeighbours(bs, k, b, o, i);
    assert Word(m', bs[o].base, NEXT) == base;
    assert c[i] == bs[o] && c[Succ(i, |c|)].base != base;
    assert !Node(m', c, i);
  }

  /** Past the last run of a ring of two or more, the new run lands before the last one. */
  lemma TextFailsAtEnd(m: Mem, bs: seq<Block>, base: nat, count: nat)
    requires Placed(m, bs) && Nodes(m, bs) && |bs| >= 2 && base < |m| && count >= 1
    requires forall i :: 0 <= i < |bs| ==> bs[i].base != base
    requires bs[|bs|-1].base + bs[|bs|-1].size != base && base + count != bs[|bs|-1].base && bs[|bs|-1].base <= base
    ensures !Nodes(ReleasedAsWritten(m, bs, |bs| - 1, base, count), bs + [Block(base, count)])
  {
    var c := bs + [Block(base, count)];
    var m' := ReleasedAsWritten(m, bs, |bs| - 1, base, count);
    assert Word(m', bs[0].base, NEXT) == base;
    assert c[0] == bs[0] && c[1] == bs[1];
    assert !Node(m', c, 0);
  }

  /** When the text is right it performs the repaired stores. */
  lemma TextAgrees(m: Mem, bs: seq<Block>, k: nat, base: nat, count: nat)
    requires k < |bs| && Stops(bs, k, base, count) && TextIsRight(bs, k, base, count)
    ensures ReleasedAsWritten(m, bs, k, base, count) == Released(m, bs, k, base, count)
  {
  }

  /** The release as written leaves the ring of the coalesced list if and only if the walk
      ended where the text is right. */
  lemma TextIff(m: Mem, bs: seq<Block>, k: nat, base: nat, count: nat)
    requires WellShaped(m) && Sorted(bs) && Within(bs, |m|) && Nodes(m, bs)
    requires count >= 1 && base + count <= |m| && Absent(bs, base, count) && FirstStop(bs, k, base, count)
    ensures Nodes(ReleasedAsWritten(m, bs, k, base, count), Insert(bs, base, count)) <==>
              TextIsRight(bs, k, base, count)
  {
    if TextIsRight(bs, k, base, count) {
      TextAgrees(m, bs, k, base, count);
      ReleasedRing(m, bs, k, base, count);
    } else {
      SortedIsPlaced(m, bs);
      AbsentBase(bs, base, count);
      WalkInserts(bs, k, base, count);
      if base + count == bs[k].base {
        TextFailsOnSingleRun(m, bs, base, count);
        assert bs[k := Block(base, count + bs[k].size)] == [Block(base, count + bs[k].size)];
      } else if bs[k].base > base {
        TextFailsBeforeRun(m, bs, k, base, count);
      } else {
        TextFailsAtEnd(m, bs, base, count);
      }
    }
  }

  /** Smallest failing releases: below a lone run, past two runs, below three runs. */
  lemma TextFailureExamples(m: Mem, bs: seq<Block>)
    requires WellShaped(m) && |m| >= 300 && Nodes(m, bs)
    ensures bs == [Block(260, 2)] ==>
              !Nodes(ReleasedAsWritten(m, bs, 0, 259, 1), Insert(bs, 259, 1))
    ensures bs == [Block(260, 2), Block(270, 2)] ==>
              !Nodes(ReleasedAsWritten(m, bs, 1, 280, 1), Insert(bs, 280, 1))
    ensures bs == [Block(260, 2), Block(270, 2), Block(280, 2)] ==>
              !Nodes(ReleasedAsWritten(m, bs, 0, 256, 1), Insert(bs, 256, 1))
  {
    if bs == [Block(260, 2)] {
      TextIff(m, bs, 0, 259, 1);
    } else if bs == [Block(260, 2), Block(270, 2)] {
      TextIff(m, bs, 1, 280, 1);
    } else if bs == [Block(260, 2), Block(270, 2), Block(280, 2)] {
      TextIff(m, bs, 0, 256, 1);
    }
  }

  /** The order in which lines 208-217 chain a ring of at most two runs and a new one. */
  function SmallRingOrder(bs: seq<Block>, k: nat, b: Block): seq<Block>
    requires k < |bs|
  {
    if |bs| == 1 && bs[0].base < b.base then bs + [b] else bs[..k] + [b] + bs[k..]
  }

  /** Lines 208-217 as written on a ring of at most two runs: still a circular doubly linked
      ring of the old runs and the new one, entered at its lowest run. */
  lemma TextKeepsSmallRing(m: Mem, bs: seq<Block>, k: nat, base: nat, count: nat)
    requires WellShaped(m) && Sorted(bs) && Within(bs, |m|) && Nodes(m, bs) && |bs| <= 2
    requires count >= 1 && base + count <= |m| && Absent(bs, base, count) && FirstStop(bs, k, base, count)
    requires bs[k].base + bs[k].size != base && base + count != bs[k].base
    ensures var c := SmallRingOrder(bs, k, Block(base, count));
            && multiset(c) == multiset(bs + [Block(base, count)])
            && Nodes(ReleasedAsWritten(m, bs, k, base, count), c)
            && c[0].base == (if base < bs[0].base then base else bs[0].base)
            && (forall i :: 0 <= i < |c| ==> c[0].base <= c[i].base)
  {
    SortedIsPlaced(m, bs);
    AbsentBase(bs, base, count);
    SmallRingLowest(bs, k, base, count);
    SmallRingNodes(m, bs, k, base, count);
  }

  lemma SmallRingLowest(bs: seq<Block>, k: nat, base: nat, count: nat)
    requires Sorted(bs) && |bs| <= 2 && count >= 1 && Absent(bs, base, count) && FirstStop(bs, k, base, count)
    requires bs[k].base + bs[k].size != base && base + count != bs[k].base
    ensures var c := SmallRingOrder(bs, k, Block(base, count));
            && multiset(c) == multiset(bs + [Block(base, count)])
            && c[0].base == (if base < bs[0].base then base else bs[0].base)
            && (forall i :: 0 <= i < |c| ==> c[0].base <= c[i].base)
  {
    MultisetSplice(bs, k, Block(base, count));
    Apart(bs, 0, base, count);
    if k > 0 { assert !Stops(bs, 0, base, count); }
  }

  lemma SmallRingNodes(m: Mem, bs: seq<Block>, k: nat, base: nat, count: nat)
    requires Placed(m, bs) && Nodes(m, bs) && |bs| <= 2 && k < |bs| && base < |m|
    requires forall i :: 0 <= i < |bs| ==> bs[i].base != base
    requires bs[k].base + bs[k].size != base && base + count != bs[k].base
    ensures Nodes(ReleasedAsWritten(m, bs, k, base, count), SmallRingOrder(bs, k, Block(base, count)))
  {
    var b := Block(base, count);
    if |bs| == 1 && bs[0].base < base {
      AppendedNodes(m, bs, b);
    } else {
      LinkAddsNode(m, bs, k, b);
    }
  }

  lemma MultisetSplice(bs: seq<Block>, k: nat, b: Block)
    requires k <= |bs|
    ensures multiset(bs[..k] + [b] + bs[k..]) == multiset(bs + [b])
  {
    assert bs == bs[..k] + bs[k..];
  }

  // ------------------------------------------------------------ the stores of an allocation

  /** The stores of an allocation that takes `count` pages from run i. */
  function Taken(m: Mem, bs: seq<Block>, i: nat, count: nat): Mem
    requires i < |bs|
  {
    if bs[i].size == count then Joined(m, bs[Succ(i, |bs|)].base, bs[Pred(i, |bs|)].base)
    else Put(m, bs[i].base, SIZE, bs[i].size - count)
  }

  lemma CarveWithin(bs: seq<Block>, i: nat, count: nat, frames: nat)
    requires Within(bs, frames) && i < |bs| && bs[i].size >= count
    ensures Within(Carve(bs, i, count), frames)
  {
  }

  lemma TakenRing(m: Mem, bs: seq<Block>, i: nat, count: nat)
    requires WellShaped(m) && Sorted(bs) && Within(bs, |m|) && Nodes(m, bs) && i < |bs| && bs[i].size >= count
    ensures Nodes(Taken(m, bs, i, count), Carve(bs, i, count))
    ensures Sorted(Carve(bs, i, count)) && Within(Carve(bs, i, count), |m|)
  {
    SortedIsPlaced(m, bs);
    CarveSorted(bs, i, count);
    CarveWithin(bs, i, count, |m|);
    hide Sorted, Within;
    if bs[i].size == count {
      JoinDropsNode(m, bs, i);
    } else {
      ResizeNode(m, bs, i, bs[i].size - count);
    }
  }

  lemma TakenHead(bs: seq<Block>, i: nat, count: nat)
    requires Sorted(bs) && i < |bs| && bs[i].size >= count
    ensures var c := Carve(bs, i, count);
            (if c == [] then NONE else c[0].base)
              == (if i == 0 && bs[i].size == count then (if |bs| == 1 then NONE else bs[1].base) else bs[0].base)
  {
  }

  /** The early test of line 128: a run is never larger than the page counter. */
  lemma CountBoundsRuns(bs: seq<Block>, count: nat)
    requires Total(bs) < count
    ensures FirstFit(bs, count) == |bs|
  {
    var i := FirstFit(bs, count);
    if i < |bs| { SizeAtMostTotal(bs, i); }
  }

  /** The do-while test of line 159: the link of run k is the head only at the last run. */
  lemma WrappedAround(bs: seq<Block>, k: nat)
    requires Sorted(bs) && k < |bs| && bs[Succ(k, |bs|)].base == bs[0].base
    ensures k + 1 == |bs|
  {
  }

  lemma NotOwnNeighbour(bs: seq<Block>, k: nat)
    requires Sorted(bs) && k < |bs| && |bs| > 1
    ensures bs[Succ(k, |bs|)].base != bs[k].base
  {
  }

  lemma BaseIsCovered(bs: seq<Block>, i: nat)
    requires Sorted(bs) && i < |bs|
    ensures Covers(bs, bs[i].base)
  {
    assert InBlock(bs[i], bs[i].base);
  }

  lemma TakenWritesFreeRuns(m: Mem, bs: seq<Block>, i: nat, count: nat)
    requires Sorted(bs) && i < |bs|
    ensures OnlyFreeWritten(m, Taken(m, bs, i, count), bs)
  {
    BaseIsCovered(bs, i);
    BaseIsCovered(bs, Succ(i, |bs|));
    BaseIsCovered(bs, Pred(i, |bs|));
  }

  /** Only the first three words of frames, where nodes are, have been written. */
  ghost predicate OnlyNodesWritten(m: Mem, m': Mem) {
    forall p, j :: j > 2 ==> Word(m', p, j) == Word(m, p, j)
  }

  lemma TakenWritesNodes(m: Mem, bs: seq<Block>, i: nat, count: nat)
    requires i < |bs|
    ensures OnlyNodesWritten(m, Taken(m, bs, i, count))
  {
  }

  lemma GrownWrites(m: Mem, bs: seq<Block>, k: nat, base: nat, count: nat, c: seq<Block>)
    requires Sorted(bs) && Nodes(m, bs) && Placed(m, bs) && k < |bs|
    requires forall p :: Covers(bs, p) ==> Covers(c, p)
    ensures OnlyFreeWritten(m, Grown(m, bs[k].base, base, count), c)
    ensures WellShaped(Grown(m, bs[k].base, base, count))
  {
    var s := Succ(k, |bs|);
    assert Node(m, bs, k) && Node(m, bs, s);
    BaseIsCovered(bs, k);
    BaseIsCovered(bs, Succ(s, |bs|));
  }

  lemma LinkedWrites(m: Mem, succ: nat, pred: nat, base: nat, size: nat, c: seq<Block>)
    requires WellShaped(m) && Covers(c, succ) && Covers(c, pred) && Covers(c, base)
    ensures OnlyFreeWritten(m, Linked(m, succ, pred, base, size), c)
    ensures WellShaped(Linked(m, succ, pred, base, size))
  {
  }

  lemma ReleasedWritesFreeRuns(m: Mem, bs: seq<Block>, k: nat, base: nat, count: nat)
    requires Sorted(bs) && Nodes(m, bs) && Placed(m, bs) && count >= 1 && Absent(bs, base, count) && k < |bs|
    ensures OnlyFreeWritten(m, Released(m, bs, k, base, count), Insert(bs, base, count))
    ensures WellShaped(Released(m, bs, k, base, count))
  {
    var n := |bs|;
    var c := Insert(bs, base, count);
    InsertMeets(bs, base, count);
    BaseIsCovered(bs, k);
    BaseIsCovered(bs, Succ(k, n));
    BaseIsCovered(bs, Pred(k, n));
    assert Covers(c, base);
    if bs[k].base + bs[k].size == base {
      GrownWrites(m, bs, k, base, count, c);
    } else if base + count == bs[k].base {
      var size := count + bs[k].size;
      if n == 1 { LinkedWrites(m, base, base, base, size, c); }
      else { LinkedWrites(m, bs[Succ(k, n)].base, bs[Pred(k, n)].base, base, size, c); }
    } else if bs[k].base > base {
      LinkedWrites(m, bs[k].base, bs[Pred(k, n)].base, base, count, c);
    } else {
      LinkedWrites(m, bs[Succ(k, n)].base, bs[k].base, base, count, c);
    }
  }

  lemma NodeAt(m: Mem, head: int, free: nat, bs: seq<Block>, k: nat, base: nat, count: nat)
    requires FreeListOk(m, head, free, bs) && FirstStop(bs, k, base, count)
    ensures Node(m, bs, k) && k < |bs| && Placed(m, bs) && Nodes(m, bs) && WellShaped(m) && Sorted(bs) &&
              Within(bs, |m|)
    ensures |bs| > 1 ==> bs[Succ(k, |bs|)].base != bs[k].base
  {
    SortedIsPlaced(m, bs);
    if |bs| > 1 { NotOwnNeighbour(bs, k); }
  }

  lemma InsertFirst(base: nat, count: nat)
    ensures Insert([], base, count) == [Block(base, count)]
  {
  }

  class PhysMemory {
    var mem: Mem
    /** The frame that TEMP_PAGE shows. */
    var window: int
    var freeHead: int
    var freeCount: nat
    ghost var blocks: seq<Block>

    ghost predicate Valid()
      reads this
    {
      FreeListOk(mem, freeHead, freeCount, blocks)
    }

    /** An allocator that manages nothing yet. */
    constructor (m: Mem)
      requires WellShaped(m)
      ensures Valid() && mem == m && blocks == [] && freeCount == 0
    {
      mem, window, freeHead, freeCount, blocks := m, 0, NONE, 0, [];
    }

    method TempMapPage(page: int)
      modifies this`window
      ensures window == page
    {
      window := page;
    }

    method Peek(i: nat) returns (v: int)
      ensures v == Word(mem, window, i)
    {
      v := Word(mem, window, i);
    }

    method Poke(i: nat, v: int)
      modifies this`mem
      ensures mem == Put(old(mem), window, i, v)
    {
      mem := Put(mem, window, i, v);
    }

    /** memset((void*)TEMP_PAGE, 0, PAGE_SIZE) */
    method ZeroWindow()
      modifies this`mem
      ensures mem == Zero(old(mem), window)
    {
      mem := Zero(mem, window);
    }

    /** Lines 138-149: the whole run leaves the ring. The window shows its node. */
    method TakeWholeRun(cur: nat, ghost k: nat)
      requires FreeListOk(mem, freeHead, Total(blocks), blocks)
      requires k < |blocks| && cur == blocks[k].base && window == cur
      modifies this`mem, this`window, this`freeHead, this`blocks
      ensures FreeListOk(mem, freeHead, Total(blocks), blocks)
      ensures blocks == Carve(old(blocks), k, old(blocks)[k].size)
      ensures mem == Taken(old(mem), old(blocks), k, old(blocks)[k].size)
    {
      assert Node(mem, blocks, k);
      var next := Peek(NEXT);
      var prev := Peek(PREV);
      TempMapPage(next);
      Poke(PREV, prev);
      TempMapPage(prev);
      Poke(NEXT, next);
      if cur == freeHead {
        freeHead := next;
        if cur == freeHead {
          freeHead := NONE;
        }
      }
      TakenRing(old(mem), blocks, k, blocks[k].size);
      TakenHead(blocks, k, blocks[k].size);
      blocks := Carve(blocks, k, blocks[k].size);
    }

    /** Line 153: the run keeps its first pages. The window shows its node. */
    method ShrinkRun(ghost k: nat, size: nat, count: nat)
      requires FreeListOk(mem, freeHead, Total(blocks), blocks)
      requires k < |blocks| && window == blocks[k].base && size == blocks[k].size && count < size
      modifies this`mem, this`blocks
      ensures FreeListOk(mem, freeHead, Total(blocks), blocks)
      ensures blocks == Carve(old(blocks), k, count)
      ensures mem == Taken(old(mem), old(blocks), k, count)
    {
      Poke(SIZE, size - count);
      TakenRing(old(mem), blocks, k, count);
      TakenHead(blocks, k, count);
      blocks := Carve(blocks, k, count);
    }

    /** Lines 137-155: the window shows a run that is large enough. */
    method TakeFrom(cur: nat, ghost k: nat, size: nat, count: nat) returns (r: nat)
      requires FreeListOk(mem, freeHead, Total(blocks), blocks)
      requires k < |blocks| && cur == blocks[k].base && window == cur && size == blocks[k].size && count <= size
      modifies this`mem, this`window, this`freeHead, this`blocks
      ensures FreeListOk(mem, freeHead, Total(blocks), blocks)
      ensures Total(blocks) == Total(old(blocks)) - count
      ensures blocks == Carve(old(blocks), k, count) && r == CarvedPage(old(blocks), k, count)
      ensures OnlyFreeWritten(old(mem), mem, old(blocks)) && OnlyNodesWritten(old(mem), mem)
    {
      TakenWritesFreeRuns(mem, blocks, k, count);
      TakenWritesNodes(mem, blocks, k, count);
      CarveTotal(blocks, k, count);
      if size == count {
        TakeWholeRun(cur, k);
        r := cur;
      } else {
        ShrinkRun(k, size, count);
        r := cur + (size - count);
      }
    }

    /** Lines 127-166. First fit; the pages come from the end of the run. */
    method AllocPhysPages(count: nat) returns (r: int)
      requires Valid()
      modifies this
      ensures Valid()
      ensures r == NONE <==> FirstFit(old(blocks), count) == |old(blocks)|
      ensures r == NONE ==> mem == old(mem) && blocks == old(blocks) && freeCount == old(freeCount)
      ensures r != NONE ==>
                && r == CarvedPage(old(blocks), FirstFit(old(blocks), count), count)
                && blocks == Carve(old(blocks), FirstFit(old(blocks), count), count)
                && freeCount == old(freeCount) - count
      ensures OnlyFreeWritten(old(mem), mem, old(blocks)) && OnlyNodesWritten(old(mem), mem)
    {
      hide Sorted, Within, WellShaped, Carve, CarvedPage, FirstFit;
      r := NONE;
      if freeCount < count {
        CountBoundsRuns(blocks, count);
        return;
      }
      if freeHead != NONE {
        var cur: nat := freeHead;
        ghost var k := 0;
        while true
          invariant k < |blocks| && cur == blocks[k].base
          invariant mem == old(mem) && blocks == old(blocks) && freeHead == old(freeHead) && freeCount == old(freeCount)
          invariant forall j :: 0 <= j < k ==> blocks[j].size < count
          decreases |blocks| - k
        {
          assert Node(mem, blocks, k);
          TempMapPage(cur);
          var size := Peek(SIZE);
          if size >= count {
            FirstFitIs(blocks, count, k);
            r := TakeFrom(cur, k, size, count);
            freeCount := freeCount - count;
            return;
          }
          cur := Peek(NEXT);
          if cur == freeHead {
            WrappedAround(blocks, k);
            FirstFitIs(blocks, count, |blocks|);
            return;
          }
          k := k + 1;
        }
      } else {
        FirstFitIs(blocks, count, 0);
      }
    }

    /** Lines 172-176: the first run of an empty ring. */
    method FirstRun(base: nat, count: nat)
      requires WellShaped(mem) && base < |mem|
      modifies this`mem, this`window, this`freeHead
      ensures WellShaped(mem) && Ring(mem, freeHead, [Block(base, count)])
      ensures OnlyFreeWritten(old(mem), mem, [Block(base, count)]) || count == 0
    {
      TempMapPage(base);
      Poke(NEXT, base);
      Poke(PREV, base);
      Poke(SIZE, count);
      freeHead := base;
      assert Node(mem, [Block(base, count)], 0);
      if count > 0 { BaseIsCovered([Block(base, count)], 0); }
    }

    /** Lines 182-193. The window shows the node at `cur`. */
    method GrowRun(cur: nat, ghost k: nat, base: nat, count: nat)
      requires Nodes(mem, blocks) && Placed(mem, blocks) && k < |blocks| && cur == blocks[k].base && window == cur
      requires Sorted(blocks) && blocks[k].base + blocks[k].size == base
      modifies this`mem, this`window
      ensures mem == Grown(old(mem), cur, base, count)
    {
      hide Nodes, Placed, Sorted;
      var size := Peek(SIZE);
      Poke(SIZE, size + count);
      var next1 := Peek(NEXT);
      if next1 == base + count {
        TempMapPage(next1);
        var next2 := Peek(NEXT);
        var newCount := Peek(SIZE);
        TempMapPage(next2);
        Poke(PREV, cur);
        TempMapPage(cur);
        Poke(NEXT, next2);
        size := Peek(SIZE);
        Poke(SIZE, size + newCount);
      }
    }

    /** Lines 199-206 and 210-216. */
    method LinkRun(succ: nat, pred: nat, base: nat, size: nat)
      modifies this`mem, this`window
      ensures mem == Linked(old(mem), succ, pred, base, size)
    {
      TempMapPage(succ);
      Poke(PREV, base);
      TempMapPage(pred);
      Poke(NEXT, base);
      TempMapPage(base);
      Poke(NEXT, succ);
      Poke(PREV, pred);
      Poke(SIZE, size);
    }

    /** The walk of lines 178-220: the window shows the run at which the release is made. */
    method FindStop(base: nat, count: nat) returns (cur: nat, ghost k: nat)
      requires Valid() && blocks != []
      modifies this`window
      ensures FirstStop(blocks, k, base, count) && cur == blocks[k].base && window == cur
    {
      cur, k := freeHead, 0;
      while true
        invariant k < |blocks| && cur == blocks[k].base
        invariant forall j :: 0 <= j < k ==> !Stops(blocks, j, base, count)
        decreases |blocks| - k
      {
        assert Node(mem, blocks, k);
        TempMapPage(cur);
        var size := Peek(SIZE);
        var next := Peek(NEXT);
        if next == freeHead { WrappedAround(blocks, k); }
        if cur + size == base || base + count == cur || cur > base || next == freeHead {
          return;
        }
        cur, k := next, k + 1;
      }
    }

    /** The branches of lines 181-217 as written. */
    method ReleaseAtAsWritten(cur: nat, ghost k: nat, base: nat, count: nat)
      requires Valid() && FirstStop(blocks, k, base, count) && cur == blocks[k].base && window == cur
      requires count >= 1 && base + count <= |mem| && Absent(blocks, base, count)
      modifies this`mem, this`window
      ensures Nodes(mem, Insert(blocks, base, count)) <==> TextIsRight(blocks, k, base, count)
      ensures WellShaped(mem) && |mem| == |old(mem)|
    {
      hide TextIsRight, Insert, Sorted, Within, Absent, FreeListOk, Ring, Nodes, Placed, WellShaped, FirstStop, Grown,
           Linked;
      NodeAt(mem, freeHead, freeCount, blocks, k, base, count);
      TextIff(mem, blocks, k, base, count);
      var size := Peek(SIZE);
      var next := Peek(NEXT);
      if cur + size == base {
        GrownShape(mem, cur, base, count);
        GrowRun(cur, k, base, count);
      } else if base + count == cur {
        var prev := Peek(PREV);
        LinkedShape(mem, next, prev, base, count + size);
        LinkRun(next, prev, base, count + size);
      } else {
        var prev := next;  // line 209
        LinkedShape(mem, cur, prev, base, count);
        LinkRun(cur, prev, base, count);
      }
    }

    /** Lines 168-229 as written. `blocks` records the list that the release is meant to leave;
        the links describe it exactly when the walk ended where the text is right. */
    method FreePhysPagesAsWritten(base: nat, count: nat) returns (ghost k: nat)
      requires Valid()
      requires count >= 1 && base + count <= |mem| && Absent(blocks, base, count)
      modifies this
      ensures blocks == Insert(old(blocks), base, count)
      ensures old(blocks) != [] ==>
                && FirstStop(old(blocks), k, base, count)
                && (Ring(mem, freeHead, blocks) <==> TextIsRight(old(blocks), k, base, count))
      ensures old(blocks) == [] ==> Ring(mem, freeHead, blocks)
      ensures old(blocks) == [] || TextIsRight(old(blocks), k, base, count) ==> Valid()
      ensures |mem| == |old(mem)|
      ensures freeCount == old(freeCount) + count
    {
      hide Insert, Sorted, Within, Absent, FirstStop, TextIsRight, Covers;
      InsertMeets(blocks, base, count);
      InsertWithin(blocks, base, count, |mem|);
      InsertFirst(base, count);
      if freeHead == NONE {
        FirstRun(base, count);
        k := 0;
      } else {
        var cur;
        cur, k := FindStop(base, count);
        InsertHead(blocks, k, base, count);
        ReleaseAtAsWritten(cur, k, base, count);
        if base < freeHead {
          freeHead := base;
        }
      }
      freeCount := freeCount + count;
      blocks := Insert(blocks, base, count);
    }

    /** Lines 168-229 with the single-run, line 209 and append-at-end slips repaired. */
    method FreePhysPages(base: nat, count: nat)
      requires Valid()
      requires count >= 1 && base + count <= |mem| && Absent(blocks, base, count)
      modifies this
      ensures Valid()
      ensures blocks == Insert(old(blocks), base, count)
      ensures freeCount == old(freeCount) + count
      ensures OnlyFreeWritten(old(mem), mem, blocks)
    {
      InsertMeets(blocks, base, count);
      InsertWithin(blocks, base, count, |mem|);
      if freeHead == NONE {
        FirstRun(base, count);
      } else {
        var cur, k := FindStop(base, count);
        ReleaseAt(cur, k, base, count);
        InsertHead(blocks, k, base, count);
        if base < freeHead {
          freeHead := base;
        }
      }
      freeCount := freeCount + count;
      blocks := Insert(blocks, base, count);
    }

    /** The repaired branches of lines 181-217. */
    method ReleaseAt(cur: nat, ghost k: nat, base: nat, count: nat)
      requires Valid() && FirstStop(blocks, k, base, count) && cur == blocks[k].base && window == cur
      requires count >= 1 && base + count <= |mem| && Absent(blocks, base, count)
      modifies this`mem, this`window
      ensures WellShaped(mem) && Nodes(mem, Insert(blocks, base, count))
      ensures OnlyFreeWritten(old(mem), mem, Insert(blocks, base, count))
    {
      hide Insert, Sorted, Within, Absent, FreeListOk, Ring, Nodes, Placed, OnlyFreeWritten, WellShaped, FirstStop,
           Grown, Linked;
      NodeAt(mem, freeHead, freeCount, blocks, k, base, count);
      ReleasedRing(mem, blocks, k, base, count);
      ReleasedWritesFreeRuns(mem, blocks, k, base, count);
      var size := Peek(SIZE);
      var next := Peek(NEXT);
      var prev := Peek(PREV);
      if cur + size == base {
        GrowRun(cur, k, base, count);
      } else if base + count == cur {
        if next == cur {
          LinkRun(base, base, base, count + size);
        } else {
          LinkRun(next, prev, base, count + size);
        }
      } else if cur > base {
        LinkRun(cur, prev, base, count);
      } else {
        LinkRun(next, cur, base, count);
      }
    }
  }

  // ------------------------------------------------------------ every run

  lemma RunStep(bs: seq<Block>, ops: seq<Op>, n: nat)
    requires n < |ops| && AllowedRun(bs, ops[n..])
    ensures Allowed(bs, ops[n]) && AllowedRun(Apply(bs, ops[n]), ops[n+1..])
    ensures Run(bs, ops[n..]) == Run(Apply(bs, ops[n]), ops[n+1..])
  {
    assert ops[n..][0] == ops[n] && ops[n..][1..] == ops[n+1..];
  }

  lemma RunOver(bs: seq<Block>, ops: seq<Op>)
    ensures Run(bs, ops[|ops|..]) == bs && ops[0..] == ops
  {
  }

  /** Over every run of allocations and releases of pages that are not free, the words of memory
      stay the ring of the list that the operations on values give. */
  method RunOperations(pm: PhysMemory, ops: seq<Op>)
    requires pm.Valid() && AllowedRun(pm.blocks, ops)
    requires forall op :: op in ops && op.Free? ==> op.base + op.count <= |pm.mem|
    modifies pm
    ensures pm.Valid() && pm.blocks == Run(old(pm.blocks), ops) && |pm.mem| == old(|pm.mem|)
  {
    hide Run, AllowedRun, FreeListOk, Insert, Carve, CarvedPage, FirstFit;
    RunOver(pm.blocks, ops);
    for n := 0 to |ops|
      invariant pm.Valid() && |pm.mem| == old(|pm.mem|)
      invariant AllowedRun(pm.blocks, ops[n..]) && Run(pm.blocks, ops[n..]) == Run(old(pm.blocks), ops)
    {
      RunStep(pm.blocks, ops, n);
      match ops[n] {
        case Alloc(count) =>
          var r := pm.AllocPhysPages(count);
        case Free(base, count) =>
          assert ops[n] in ops;
          pm.FreePhysPages(base, count);
      }
    }
    RunOver(pm.blocks, ops);
  }

  /** The text of a release is right at the run where its walk ends. */
  ghost predicate RightHere(bs: seq<Block>, op: Op) {
    op.Free? && bs != [] ==> forall k: nat :: FirstStop(bs, k, op.base, op.count) ==>
        TextIsRight(bs, k, op.base, op.count)
  }

  ghost predicate RightRun(bs: seq<Block>, ops: seq<Op>)
    decreases |ops|
  {
    ops != [] ==> RightHere(bs, ops[0]) && RightRun(Apply(bs, ops[0]), ops[1..])
  }

  lemma RightStep(bs: seq<Block>, ops: seq<Op>, n: nat)
    requires n < |ops| && RightRun(bs, ops[n..])
    ensures RightHere(bs, ops[n]) && RightRun(Apply(bs, ops[n]), ops[n+1..])
  {
    assert ops[n..][0] == ops[n] && ops[n..][1..] == ops[n+1..];
  }

  /** The same runs by the text, as long as every release is one at which it is right. */
  method RunOperationsAsWritten(pm: PhysMemory, ops: seq<Op>)
    requires pm.Valid() && AllowedRun(pm.blocks, ops) && RightRun(pm.blocks, ops)
    requires forall op :: op in ops && op.Free? ==> op.base + op.count <= |pm.mem|
    modifies pm
    ensures pm.Valid() && pm.blocks == Run(old(pm.blocks), ops) && |pm.mem| == old(|pm.mem|)
  {
    hide Run, AllowedRun, RightRun, FreeListOk, Insert, Carve, CarvedPage, FirstFit, FirstStop, TextIsRight;
    RunOver(pm.blocks, ops);
    for n := 0 to |ops|
      invariant pm.Valid() && |pm.mem| == old(|pm.mem|)
      invariant AllowedRun(pm.blocks, ops[n..]) && Run(pm.blocks, ops[n..]) == Run(old(pm.blocks), ops)
      invariant RightRun(pm.blocks, ops[n..])
    {
      RunStep(pm.blocks, ops, n);
      RightStep(pm.blocks, ops, n);
      match ops[n] {
        case Alloc(count) =>
          var r := pm.AllocPhysPages(count);
        case Free(base, count) =>
          assert ops[n] in ops;
          ghost var k := pm.FreePhysPagesAsWritten(base, count);
      }
    }
    RunOver(pm.blocks, ops);
  }
}
