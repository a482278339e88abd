/** The free list of the physical allocator as a value: a sequence of runs of pages.
    `FirstFit`, `Carve` and `Insert` say what `alloc_phys_pages` and `free_phys_pages`
    do to that sequence; the lemmas say what a sorted list means as a set of pages. */
module BlockList {

  /** A run of `size` free pages whose first page is `base`. */
  datatype Block = Block(base: nat, size: nat)

  /** Ascending, never empty, and with at least one page between two runs. */
  ghost predicate Sorted(bs: seq<Block>) {
    && (forall i :: 0 <= i < |bs| ==> bs[i].size >= 1)
    && (forall i, j :: 0 <= i < j < |bs| ==> bs[i].base + bs[i].size < bs[j].base)
  }

  predicate InBlock(b: Block, p: int) {
    b.base <= p < b.base + b.size
  }

  ghost predicate Covers(bs: seq<Block>, p: int) {
    exists i :: 0 <= i < |bs| && InBlock(bs[i], p)
  }

  function Total(bs: seq<Block>): nat {
    if bs == [] then 0 else bs[0].size + Total(bs[1..])
  }

  /** The pages of one run, and of a whole list. */
  function Range(base: int, n: nat): (r: set<int>)
    ensures forall p :: p in r <==> base <= p < base + n
  {
    if n == 0 then {} else Range(base, n - 1) + {base + n - 1}
  }

  function Pages(bs: seq<Block>): set<int> {
    if bs == [] then {} else Range(bs[0].base, bs[0].size) + Pages(bs[1..])
  }

  /** Index of the first run with at least `count` pages; |bs| when there is none. */
  function FirstFit(bs: seq<Block>, count: nat): (i: nat)
    ensures i <= |bs|
    ensures i < |bs| ==> bs[i].size >= count
    ensures forall j :: 0 <= j < i ==> bs[j].size < count
  {
    if bs == [] || bs[0].size >= count then 0 else 1 + FirstFit(bs[1..], count)
  }

  /** Take `count` pages from the end of run `i`; the run disappears when nothing is left. */
  function Carve(bs: seq<Block>, i: nat, count: nat): seq<Block>
    requires i < |bs| && bs[i].size >= count
  {
    if bs[i].size == count then bs[..i] + bs[i+1..]
    else bs[i := Block(bs[i].base, bs[i].size - count)]
  }

  /** The first page handed out by Carve. */
  function CarvedPage(bs: seq<Block>, i: nat, count: nat): nat
    requires i < |bs| && bs[i].size >= count
  {
    bs[i].base + bs[i].size - count
  }

  /** What an allocation of one page leaves, and k of them. */
  function TakeSingle(bs: seq<Block>): seq<Block> {
    if bs == [] || bs[0].size == 0 then bs else Carve(bs, 0, 1)
  }

  function TakeSingles(bs: seq<Block>, k: nat): seq<Block> {
    if k == 0 then bs else TakeSingle(TakeSingles(bs, k - 1))
  }

  /** Put the run [base, base + count) back, merging it with its neighbours. */
  function Insert(bs: seq<Block>, base: nat, count: nat): seq<Block> {
    if bs == [] then [Block(base, count)]
    else if bs[0].base + bs[0].size == base then
      if |bs| > 1 && bs[1].base == base + count
      then [Block(bs[0].base, bs[0].size + count + bs[1].size)] + bs[2..]
      else [Block(bs[0].base, bs[0].size + count)] + bs[1..]
    else if base + count == bs[0].base then [Block(base, count + bs[0].size)] + bs[1..]
    else if bs[0].base > base then [Block(base, count)] + bs
    else [bs[0]] + Insert(bs[1..], base, count)
  }

  /** No page of [base, base + count) is in the list. */
  ghost predicate Absent(bs: seq<Block>, base: nat, count: nat) {
    forall p :: base <= p < base + count ==> !Covers(bs, p)
  }

  // ---------------------------------------------------------------- basic facts

  ghost predicate Within(bs: seq<Block>, frames: nat) {
    forall i :: 0 <= i < |bs| ==> bs[i].base + bs[i].size <= frames
  }

  /** Memory bounds are a matter of the covered pages only. */
  lemma WithinByCover(bs: seq<Block>, frames: nat)
    requires forall i :: 0 <= i < |bs| ==> bs[i].size >= 1
    requires forall p :: Covers(bs, p) ==> p < frames
    ensures Within(bs, frames)
  {
    forall i | 0 <= i < |bs|
      ensures bs[i].base + bs[i].size <= frames
    {
      assert InBlock(bs[i], bs[i].base + bs[i].size - 1);
      assert Covers(bs, bs[i].base + bs[i].size - 1);
    }
  }

  lemma SortedTail(bs: seq<Block>)
    requires Sorted(bs) && bs != []
    ensures Sorted(bs[1..])
    ensures forall p :: Covers(bs, p) <==> InBlock(bs[0], p) || Covers(bs[1..], p)
    ensures forall p :: Covers(bs[1..], p) ==> bs[0].base + bs[0].size < p
  {
    CoversCons(bs);
  }

  lemma CoversCons(bs: seq<Block>)
    requires bs != []
    ensures forall p :: Covers(bs, p) <==> InBlock(bs[0], p) || Covers(bs[1..], p)
  {
    forall p
      ensures Covers(bs, p) <==> InBlock(bs[0], p) || Covers(bs[1..], p)
    {
      if Covers(bs, p) {
        var i :| 0 <= i < |bs| && InBlock(bs[i], p);
        assert i > 0 ==> InBlock(bs[1..][i-1], p);
      }
      if Covers(bs[1..], p) {
        var i :| 0 <= i < |bs[1..]| && InBlock(bs[1..][i], p);
        assert InBlock(bs[i+1], p);
      }
    }
  }

  lemma {:induction false} PagesAreCovered(bs: seq<Block>)
    ensures forall p :: p in Pages(bs) <==> Covers(bs, p)
  {
    if bs != [] {
      PagesAreCovered(bs[1..]);
      CoversCons(bs);
    }
  }

  lemma {:induction false} RangeSize(base: int, n: nat)
    ensures |Range(base, n)| == n
  {
    if n > 0 {
      RangeSize(base, n - 1);
    }
  }

  /** The page counter is the number of free pages: runs of a sorted list do not overlap. */
  lemma {:induction false} TotalIsPageCount(bs: seq<Block>)
    requires Sorted(bs)
    ensures |Pages(bs)| == Total(bs)
  {
    if bs != [] {
      SortedTail(bs);
      TotalIsPageCount(bs[1..]);
      RangeSize(bs[0].base, bs[0].size);
      PagesAreCovered(bs[1..]);
      assert Range(bs[0].base, bs[0].size) !! Pages(bs[1..]);
    }
  }

  // ---------------------------------------------------------------- canonicity

  /** A sorted list is determined by the pages it covers. */
  lemma {:induction false} Canonical(a: seq<Block>, b: seq<Block>)
    requires Sorted(a) && Sorted(b)
    requires forall p :: Covers(a, p) <==> Covers(b, p)
    ensures a == b
  {
    if a == [] {
      if b != [] { assert InBlock(b[0], b[0].base); assert Covers(b, b[0].base); }
    } else {
      assert InBlock(a[0], a[0].base);
      assert Covers(a, a[0].base);
      assert b != [];
      assert InBlock(b[0], b[0].base);
      assert Covers(b, b[0].base);
      SortedTail(a);
      SortedTail(b);
      assert a[0].base == b[0].base;
      FirstRunAtLeast(a, b);
      FirstRunAtLeast(b, a);
      forall p
        ensures Covers(a[1..], p) <==> Covers(b[1..], p)
      {
        assert Covers(a, p) <==> Covers(b, p);
      }
      Canonical(a[1..], b[1..]);
      assert a == [a[0]] + a[1..] && b == [b[0]] + b[1..];
    }
  }

  lemma FirstRunAtLeast(a: seq<Block>, b: seq<Block>)
    requires Sorted(a) && Sorted(b) && a != [] && b != [] && a[0].base == b[0].base
    requires forall p :: Covers(a, p) <==> Covers(b, p)
    ensures b[0].size <= a[0].size
  {
    var e := a[0].base + a[0].size;
    assert !Covers(a, e);
    assert !InBlock(b[0], e);
  }

  // ---------------------------------------------------------------- allocation

  lemma CarveSorted(bs: seq<Block>, i: nat, count: nat)
    requires Sorted(bs) && i < |bs| && bs[i].size >= count
    ensures Sorted(Carve(bs, i, count))
  {
  }

  /** Carving removes exactly the handed-out run, all of which was free. */
  lemma CarveCovers(bs: seq<Block>, i: nat, count: nat)
    requires Sorted(bs) && i < |bs| && bs[i].size >= count
    ensures forall p :: Covers(Carve(bs, i, count), p) <==>
              Covers(bs, p) && !(CarvedPage(bs, i, count) <= p < CarvedPage(bs, i, count) + count)
    ensures forall p :: CarvedPage(bs, i, count) <= p < CarvedPage(bs, i, count) + count ==> Covers(bs, p)
  {
    var r := CarvedPage(bs, i, count);
    forall p
      ensures Covers(Carve(bs, i, count), p) <==> Covers(bs, p) && !(r <= p < r + count)
    {
      CarveCoversPage(bs, i, count, p);
    }
    forall p | r <= p < r + count
      ensures Covers(bs, p)
    {
      assert InBlock(bs[i], p);
    }
  }

  lemma CarveCoversPage(bs: seq<Block>, i: nat, count: nat, p: int)
    requires Sorted(bs) && i < |bs| && bs[i].size >= count
    ensures Covers(Carve(bs, i, count), p) <==>
              Covers(bs, p) && !(CarvedPage(bs, i, count) <= p < CarvedPage(bs, i, count) + count)
  {
    var r := CarvedPage(bs, i, count);
    var c := Carve(bs, i, count);
    if Covers(c, p) {
      var k :| 0 <= k < |c| && InBlock(c[k], p);
      CarvedRunIsFree(bs, i, count, k, p);
    }
    if Covers(bs, p) && !(r <= p < r + count) {
      var k :| 0 <= k < |bs| && InBlock(bs[k], p);
      UncarvedStaysFree(bs, i, count, k, p);
    }
  }

  lemma UncarvedStaysFree(bs: seq<Block>, i: nat, count: nat, k: nat, p: int)
    requires i < |bs| && bs[i].size >= count && k < |bs| && InBlock(bs[k], p)
    requires k == i ==> p < CarvedPage(bs, i, count)
    ensures Covers(Carve(bs, i, count), p)
  {
    var c := Carve(bs, i, count);
    if bs[i].size != count || k < i {
      assert InBlock(c[k], p);
    } else {
      assert k > i;
      assert InBlock(c[k-1], p);
    }
  }

  lemma CarvedRunIsFree(bs: seq<Block>, i: nat, count: nat, k: nat, p: int)
    requires Sorted(bs) && i < |bs| && bs[i].size >= count
    requires k < |Carve(bs, i, count)| && InBlock(Carve(bs, i, count)[k], p)
    ensures Covers(bs, p)
    ensures !(CarvedPage(bs, i, count) <= p < CarvedPage(bs, i, count) + count)
  {
    if bs[i].size == count && k >= i {
      assert Carve(bs, i, count)[k] == bs[k+1];
      assert InBlock(bs[k+1], p);
    } else if k < i {
      assert Carve(bs, i, count)[k] == bs[k];
      assert InBlock(bs[k], p);
    } else {
      assert InBlock(bs[k], p);
    }
  }

  lemma FirstFitIs(bs: seq<Block>, count: nat, i: nat)
    requires i <= |bs| && (i < |bs| ==> bs[i].size >= count)
    requires forall j :: 0 <= j < i ==> bs[j].size < count
    ensures FirstFit(bs, count) == i
  {
    assert !(FirstFit(bs, count) < i);
  }

  lemma {:induction false} SizeAtMostTotal(bs: seq<Block>, i: nat)
    requires i < |bs|
    ensures bs[i].size <= Total(bs)
  {
    if i > 0 { SizeAtMostTotal(bs[1..], i - 1); }
  }

  lemma CarveTotal(bs: seq<Block>, i: nat, count: nat)
    requires i < |bs| && bs[i].size >= count
    ensures Total(Carve(bs, i, count)) == Total(bs) - count
  {
    var mid := if bs[i].size == count then [] else [Block(bs[i].base, bs[i].size - count)];
    assert bs == bs[..i] + ([bs[i]] + bs[i+1..]);
    assert Carve(bs, i, count) == bs[..i] + (mid + bs[i+1..]);
    TotalAppend(bs[..i], [bs[i]] + bs[i+1..]);
    TotalAppend([bs[i]], bs[i+1..]);
    TotalAppend(bs[..i], mid + bs[i+1..]);
    TotalAppend(mid, bs[i+1..]);
  }

  lemma {:induction false} TotalAppend(a: seq<Block>, b: seq<Block>)
    ensures Total(a + b) == Total(a) + Total(b)
  {
    if a == [] {
      assert a + b == b;
    } else {
      assert (a + b)[1..] == a[1..] + b;
      TotalAppend(a[1..], b);
    }
  }

  /** A request that no run can hold really cannot be met: no free run of that length exists. */
  lemma NoFitMeansNoRun(bs: seq<Block>, count: nat, p: int)
    requires Sorted(bs) && count >= 1 && FirstFit(bs, count) == |bs|
    ensures exists k :: p <= k < p + count && !Covers(bs, k)
  {
    if Covers(bs, p) {
      var i :| 0 <= i < |bs| && InBlock(bs[i], p);
      assert bs[i].size < count;
      assert !Covers(bs, bs[i].base + bs[i].size);
    }
  }

  // ---------------------------------------------------------------- release

  /** Putting back pages that are not free keeps the list sorted with no two adjacent runs,
      and adds exactly those pages. */
  lemma {:induction false} InsertMeets(bs: seq<Block>, base: nat, count: nat)
    requires Sorted(bs) && count >= 1 && Absent(bs, base, count)
    ensures Sorted(Insert(bs, base, count))
    ensures forall p :: Covers(Insert(bs, base, count), p) <==> Covers(bs, p) || base <= p < base + count
    ensures Total(Insert(bs, base, count)) == Total(bs) + count
  {
    var r := Insert(bs, base, count);
    CoversCons(r);
    if bs != [] {
      CoversCons(bs);
      Apart(bs, 0, base, count);
      if bs[0].base + bs[0].size == base {
        InsertAbove(bs, base, count);
      } else if base + count == bs[0].base {
        assert r[1..] == bs[1..];
      } else if bs[0].base > base {
        assert r[1..] == bs;
      } else {
        SortedTail(bs);
        InsertMeets(bs[1..], base, count);
        assert r[1..] == Insert(bs[1..], base, count);
        SortedCons(bs[0], r[1..]);
        assert r == [bs[0]] + r[1..];
      }
    }
  }

  /** A run none of whose pages is free lies wholly below or wholly above each free run. */
  lemma Apart(bs: seq<Block>, i: nat, base: nat, count: nat)
    requires Sorted(bs) && count >= 1 && Absent(bs, base, count) && i < |bs|
    ensures base + count <= bs[i].base || bs[i].base + bs[i].size <= base
  {
    if !(base + count <= bs[i].base || bs[i].base + bs[i].size <= base) {
      var p := if base < bs[i].base then bs[i].base else base;
      assert InBlock(bs[i], p);
      assert Covers(bs, p);
    }
  }

  lemma SortedCons(b: Block, t: seq<Block>)
    requires Sorted(t) && b.size >= 1
    requires forall p :: Covers(t, p) ==> b.base + b.size < p
    ensures Sorted([b] + t)
  {
    forall j | 0 <= j < |t|
      ensures b.base + b.size < t[j].base
    {
      assert InBlock(t[j], t[j].base);
      assert Covers(t, t[j].base);
    }
  }

  /** A first run in front of a list that begins further up. */
  lemma FirstRun(b: Block, t: seq<Block>)
    requires Sorted(t) && b.size >= 1 && forall p :: Covers(t, p) ==> b.base + b.size < p
    ensures Sorted([b] + t) && Total([b] + t) == b.size + Total(t)
    ensures forall p :: Covers([b] + t, p) <==> InBlock(b, p) || Covers(t, p)
  {
    SortedCons(b, t);
    CoversCons([b] + t);
    assert ([b] + t)[1..] == t;
  }

  lemma InsertAboveIs(bs: seq<Block>, base: nat, count: nat)
    requires bs != [] && bs[0].base + bs[0].size == base
    ensures Insert(bs, base, count) ==
            if |bs| > 1 && bs[1].base == base + count
            then [Block(bs[0].base, bs[0].size + count + bs[1].size)] + bs[1..][1..]
            else [Block(bs[0].base, bs[0].size + count)] + bs[1..]
    ensures Total(bs) == bs[0].size + Total(bs[1..])
    ensures |bs| > 1 ==> Total(bs[1..]) == bs[1].size + Total(bs[1..][1..]) && bs[1..][0] == bs[1]
  {
    if |bs| > 1 { assert bs[1..][1..] == bs[2..]; }
  }

  lemma InsertAbove(bs: seq<Block>, base: nat, count: nat)
    requires Sorted(bs) && count >= 1 && Absent(bs, base, count)
    requires bs != [] && bs[0].base + bs[0].size == base && bs[0].size >= 1
    ensures Sorted(Insert(bs, base, count))
    ensures forall p :: Covers(Insert(bs, base, count), p) <==> Covers(bs, p) || base <= p < base + count
    ensures Total(Insert(bs, base, count)) == Total(bs) + count
  {
    hide *;
    InsertAboveIs(bs, base, count);
    SortedTail(bs);
    RunsOfPages(bs, base, count);
    var t := bs[1..];
    if |bs| > 1 {
      Apart(bs, 1, base, count);
      SortedTail(t);
      if bs[1].base == base + count {
        FirstRun(Block(bs[0].base, bs[0].size + count + bs[1].size), t[1..]);
        RunsOfPages(t, 0, 0);
      } else {
        SecondAbove(bs);
        LowestFirst(t);
        FirstRun(Block(bs[0].base, bs[0].size + count), t);
      }
    } else {
      NothingCovered(t);
      FirstRun(Block(bs[0].base, bs[0].size + count), t);
    }
  }

  lemma RunsOfPages(bs: seq<Block>, base: nat, count: nat)
    ensures bs != [] ==> forall p :: InBlock(bs[0], p) <==> bs[0].base <= p < bs[0].base + bs[0].size
    ensures forall b: nat, n: nat, p :: InBlock(Block(b, n), p) <==> b <= p < b + n
  {
  }

  lemma NothingCovered(bs: seq<Block>)
    requires bs == []
    ensures forall p :: !Covers(bs, p)
    ensures Total(bs) == 0
  {
  }

  lemma SecondAbove(bs: seq<Block>)
    requires Sorted(bs) && |bs| > 1
    ensures bs[0].base + bs[0].size < bs[1].base && bs[1].size >= 1
  {
  }

  lemma LowestFirst(bs: seq<Block>)
    requires Sorted(bs) && bs != []
    ensures forall p :: Covers(bs, p) ==> bs[0].base <= p
  {
  }

  // ---------------------------------------------------------------- the walk of a release

  /** The walk of `free_phys_pages` ends at run i: the new run touches it, belongs before it,
      or run i is the last one. */
  predicate Stops(bs: seq<Block>, i: nat, base: nat, count: nat)
    requires i < |bs|
  {
    || bs[i].base + bs[i].size == base
    || base + count == bs[i].base
    || bs[i].base > base
    || i + 1 == |bs|
  }

  ghost predicate FirstStop(bs: seq<Block>, i: nat, base: nat, count: nat) {
    && i < |bs|
    && Stops(bs, i, base, count)
    && forall j :: 0 <= j < i ==> !Stops(bs, j, base, count)
  }

  /** What a release should leave when its walk ends at run i. */
  function InsertedAt(bs: seq<Block>, i: nat, base: nat, count: nat): seq<Block>
    requires i < |bs|
  {
    if bs[i].base + bs[i].size == base then
      if i + 1 < |bs| && bs[i+1].base == base + count
      then bs[..i] + [Block(bs[i].base, bs[i].size + count + bs[i+1].size)] + bs[i+2..]
      else bs[i := Block(bs[i].base, bs[i].size + count)]
    else if base + count == bs[i].base then bs[i := Block(base, count + bs[i].size)]
    else if bs[i].base > base then bs[..i] + [Block(base, count)] + bs[i..]
    else bs + [Block(base, count)]
  }

  /** The walk and the recursive definition agree. */
  lemma {:induction false} WalkInserts(bs: seq<Block>, i: nat, base: nat, count: nat)
    requires FirstStop(bs, i, base, count)
    ensures Insert(bs, base, count) == InsertedAt(bs, i, base, count)
  {
    if i > 0 {
      assert !Stops(bs, 0, base, count);
      var t := bs[1..];
      forall j | 0 <= j < i - 1
        ensures !Stops(t, j, base, count)
      {
        assert !Stops(bs, j + 1, base, count);
      }
      WalkInserts(t, i - 1, base, count);
      InsertedAtCons(bs, i, base, count);
    } else if bs[0].base + bs[0].size != base && base + count != bs[0].base && bs[0].base <= base {
      assert bs == [bs[0]];
    }
  }

  lemma InsertedAtCons(bs: seq<Block>, i: nat, base: nat, count: nat)
    requires 0 < i < |bs|
    ensures [bs[0]] + InsertedAt(bs[1..], i - 1, base, count) == InsertedAt(bs, i, base, count)
  {
    var t := bs[1..];
    assert t[i-1] == bs[i];
    assert [bs[0]] + t[..i-1] == bs[..i];
    if bs[i].base + bs[i].size == base && i + 1 < |bs| && bs[i+1].base == base + count {
      var b := Block(bs[i].base, bs[i].size + count + bs[i+1].size);
      assert t[i] == bs[i+1] && t[i+1..] == bs[i+2..];
      assert [bs[0]] + (t[..i-1] + [b] + t[i+1..]) == ([bs[0]] + t[..i-1]) + [b] + t[i+1..];
    } else if bs[i].base + bs[i].size == base {
      ConsUpdate(bs, i, Block(bs[i].base, bs[i].size + count));
    } else if base + count == bs[i].base {
      ConsUpdate(bs, i, Block(base, count + bs[i].size));
    } else if bs[i].base > base {
      var b := Block(base, count);
      assert t[i-1..] == bs[i..];
      assert [bs[0]] + (t[..i-1] + [b] + t[i-1..]) == ([bs[0]] + t[..i-1]) + [b] + t[i-1..];
    } else {
      assert [bs[0]] + (t + [Block(base, count)]) == bs + [Block(base, count)];
    }
  }

  lemma ConsUpdate(bs: seq<Block>, i: nat, b: Block)
    requires 0 < i < |bs|
    ensures [bs[0]] + bs[1..][i-1 := b] == bs[i := b]
  {
  }

  // ---------------------------------------------------------------- runs

  datatype Op = Alloc(count: nat) | Free(base: nat, count: nat)

  /** What a caller owes: only pages that are not free are given back, at least one at a time. */
  ghost predicate Allowed(bs: seq<Block>, op: Op) {
    op.Free? ==> op.count >= 1 && Absent(bs, op.base, op.count)
  }

  function Apply(bs: seq<Block>, op: Op): seq<Block> {
    match op
    case Free(base, count) => Insert(bs, base, count)
    case Alloc(count) =>
      var i := FirstFit(bs, count);
      if i < |bs| then Carve(bs, i, count) else bs
  }

  function Run(bs: seq<Block>, ops: seq<Op>): seq<Block>
    decreases |ops|
  {
    if ops == [] then bs else Run(Apply(bs, ops[0]), ops[1..])
  }

  ghost predicate AllowedRun(bs: seq<Block>, ops: seq<Op>)
    decreases |ops|
  {
    ops != [] ==> Allowed(bs, ops[0]) && AllowedRun(Apply(bs, ops[0]), ops[1..])
  }

  lemma ApplySorted(bs: seq<Block>, op: Op)
    requires Sorted(bs) && Allowed(bs, op)
    ensures Sorted(Apply(bs, op))
  {
    match op
    case Free(base, count) => InsertMeets(bs, base, count);
    case Alloc(count) => if FirstFit(bs, count) < |bs| { CarveSorted(bs, FirstFit(bs, count), count); }
  }

  /** Over every run, from any sorted list, the list stays sorted and coalesced. */
  lemma {:induction false} RunSorted(bs: seq<Block>, ops: seq<Op>)
    requires Sorted(bs) && AllowedRun(bs, ops)
    ensures Sorted(Run(bs, ops))
    ensures |Pages(Run(bs, ops))| == Total(Run(bs, ops))
    decreases |ops|
  {
    TotalIsPageCount(bs);
    if ops != [] {
      ApplySorted(bs, ops[0]);
      RunSorted(Apply(bs, ops[0]), ops[1..]);
    }
  }

  /** Two runs that leave the same pages free leave the same list, whatever order they took. */
  lemma OrderDoesNotMatter(a: seq<Block>, opsA: seq<Op>, b: seq<Block>, opsB: seq<Op>)
    requires Sorted(a) && AllowedRun(a, opsA) && Sorted(b) && AllowedRun(b, opsB)
    requires Pages(Run(a, opsA)) == Pages(Run(b, opsB))
    ensures Run(a, opsA) == Run(b, opsB)
  {
    RunSorted(a, opsA);
    RunSorted(b, opsB);
    PagesAreCovered(Run(a, opsA));
    PagesAreCovered(Run(b, opsB));
    Canonical(Run(a, opsA), Run(b, opsB));
  }

  /** In particular the order of two releases does not matter. */
  lemma ReleasesCommute(bs: seq<Block>, b1: nat, n1: nat, b2: nat, n2: nat)
    requires Sorted(bs) && n1 >= 1 && n2 >= 1 && Absent(bs, b1, n1) && Absent(bs, b2, n2)
    requires b1 + n1 <= b2 || b2 + n2 <= b1
    ensures Insert(Insert(bs, b1, n1), b2, n2) == Insert(Insert(bs, b2, n2), b1, n1)
  {
    InsertMeets(bs, b1, n1);
    InsertMeets(bs, b2, n2);
    InsertMeets(Insert(bs, b1, n1), b2, n2);
    InsertMeets(Insert(bs, b2, n2), b1, n1);
    Canonical(Insert(Insert(bs, b1, n1), b2, n2), Insert(Insert(bs, b2, n2), b1, n1));
  }

  /** Giving back what was just handed out restores the list. */
  lemma FreeUndoesAlloc(bs: seq<Block>, count: nat)
    requires Sorted(bs) && count >= 1 && FirstFit(bs, count) < |bs|
    ensures var i := FirstFit(bs, count);
            Insert(Carve(bs, i, count), CarvedPage(bs, i, count), count) == bs
  {
    var i := FirstFit(bs, count);
    CarveSorted(bs, i, count);
    CarveCovers(bs, i, count);
    InsertMeets(Carve(bs, i, count), CarvedPage(bs, i, count), count);
    Canonical(Insert(Carve(bs, i, count), CarvedPage(bs, i, count), count), bs);
  }
}
