/** The table of virtual blocks of an address space: the address searches of
    `alloc_virt_pages` and the in-place shifts that add and drop entries. */
module BlockTable {
  import opened Frames

  datatype Kind = Reserved | Memory | IoMemory

  /** A block of `len` virtual pages starting at page `base`. */
  datatype VBlock = VBlock(kind: Kind, base: int, len: nat)

  /** Highest block first, none empty, none overlapping. */
  ghost predicate Descending(bs: seq<VBlock>) {
    && (forall i :: 0 <= i < |bs| ==> bs[i].len >= 1)
    && (forall i, j :: 0 <= i < j < |bs| ==> bs[j].base + bs[j].len <= bs[i].base)
  }

  ghost predicate InBounds(bs: seq<VBlock>, start: int, end: int) {
    forall i :: 0 <= i < |bs| ==> start <= bs[i].base && bs[i].base + bs[i].len <= end
  }

  /** Line 234, in whatever unit the four numbers are given. */
  predicate Overlapped(base1: int, size1: int, base2: int, size2: int) {
    (base1 >= base2 && base1 < base2 + size2) || (base2 >= base1 && base2 < base1 + size1)
  }

  predicate Meets(b: VBlock, v: int, count: int) {
    Overlapped(b.base, b.len, v, count)
  }

  predicate InRange(p: int, base: int, size: int) {
    base <= p < base + size
  }

  /** The test is intersection, for ranges that are not empty. */
  lemma OverlappedIsCommonPage(base1: int, size1: int, base2: int, size2: int)
    requires size1 >= 1 && size2 >= 1
    ensures Overlapped(base1, size1, base2, size2) <==>
              exists p :: InRange(p, base1, size1) && InRange(p, base2, size2)
  {
    if Overlapped(base1, size1, base2, size2) {
      var p := if base1 >= base2 then base1 else base2;
      assert InRange(p, base1, size1) && InRange(p, base2, size2);
    }
  }

  /** The range meets no block. */
  ghost predicate Vacant(bs: seq<VBlock>, v: int, count: int) {
    forall i :: 0 <= i < |bs| ==> !Meets(bs[i], v, count)
  }

  /** Where a vacant range belongs in the table. */
  ghost predicate Position(bs: seq<VBlock>, i: nat, v: int, count: int) {
    && i <= |bs|
    && (forall j :: 0 <= j < i ==> v + count <= bs[j].base)
    && (forall j :: i <= j < |bs| ==> bs[j].base + bs[j].len <= v)
  }

  lemma PositionIsVacant(bs: seq<VBlock>, i: nat, v: int, count: nat)
    requires Descending(bs) && Position(bs, i, v, count) && count >= 1
    ensures Vacant(bs, v, count)
  {
  }

  // ------------------------------------------------------------ a NULL request

  /** Lines 244-251 with the size test in one unit: the highest vacant range. Nothing keeps
      the result above the start of the space. */
  method FindGap(bs: seq<VBlock>, end: int, count: nat) returns (v: int, i: nat)
    requires Descending(bs) && count >= 1
    requires forall k :: 0 <= k < |bs| ==> bs[k].base + bs[k].len <= end
    ensures Position(bs, i, v, count) && v + count <= end
    ensures forall w :: v < w && w + count <= end ==> !Vacant(bs, w, count)
  {
    v := end - count;
    i := 0;
    while i < |bs|
      invariant i <= |bs| && v + count <= end
      invariant v + count == if i == 0 then end else bs[i-1].base
      invariant forall w :: v < w && w + count <= end ==> !Vacant(bs, w, count)
    {
      if Overlapped(bs[i].base, bs[i].len, v, count) {
        forall w | bs[i].base - count < w && w + count <= end
          ensures !Vacant(bs, w, count)
        {
          if w <= v { assert Meets(bs[i], w, count); }
        }
        v := bs[i].base - count;
      } else {
        break;
      }
      i := i + 1;
    }
  }

  /** With a lower bound wanted, the search is right exactly when the space has a gap. */
  lemma GapIff(bs: seq<VBlock>, start: int, end: int, count: nat, v: int, i: nat)
    requires Descending(bs) && count >= 1 && Position(bs, i, v, count) && v + count <= end
    requires forall w :: v < w && w + count <= end ==> !Vacant(bs, w, count)
    ensures start <= v <==> exists w :: start <= w && w + count <= end && Vacant(bs, w, count)
  {
    PositionIsVacant(bs, i, v, count);
  }

  // ------------------------------------------------------------ the NULL request as written

  /** Line 246: addresses and lengths in bytes, but `count` in pages. */
  predicate MeetsAsWritten(b: VBlock, v: int, count: int) {
    Overlapped(b.base * PAGE_SIZE, b.len * PAGE_SIZE, v * PAGE_SIZE, count)
  }

  /** The pages at the start of the range that the mixed test looks at. */
  function Seen(count: nat): nat {
    (count + PAGE_SIZE - 1) / PAGE_SIZE
  }

  /** It is the test of that first part. */
  lemma MixedTest(b: VBlock, v: int, count: nat)
    requires b.len >= 1 && count >= 1
    ensures MeetsAsWritten(b, v, count) <==> Meets(b, v, Seen(count))
    ensures Meets(b, v, Seen(count)) <==> b.base + b.len > v && b.base < v + Seen(count)
    ensures Meets(b, v, count) <==> b.base + b.len > v && b.base < v + count
    ensures 1 <= Seen(count) <= count
  {
  }

  /** Where the search stands after j blocks. */
  function Candidate(bs: seq<VBlock>, end: int, count: nat, j: nat): int
    requires j <= |bs|
  {
    (if j == 0 then end else bs[j-1].base) - count
  }

  /** The first block from j on that lies wholly below its candidate. */
  function FirstClear(bs: seq<VBlock>, end: int, count: nat, j: nat): (g: nat)
    requires j <= |bs|
    ensures j <= g <= |bs|
    ensures g < |bs| ==> bs[g].base + bs[g].len <= Candidate(bs, end, count, g)
    ensures forall k :: j <= k < g ==> bs[k].base + bs[k].len > Candidate(bs, end, count, k)
    decreases |bs| - j
  {
    if j == |bs| || bs[j].base + bs[j].len <= Candidate(bs, end, count, j) then j
    else FirstClear(bs, end, count, j + 1)
  }

  /** Each of the first n blocks starts in the part of its candidate that the test looks at. */
  ghost predicate AllSeen(bs: seq<VBlock>, end: int, count: nat, n: nat)
    requires n <= |bs|
  {
    forall j :: 0 <= j < n ==> bs[j].base < Candidate(bs, end, count, j) + Seen(count)
  }

  /** So does every block that is in the way of its candidate. */
  ghost predicate TestSuffices(bs: seq<VBlock>, end: int, count: nat) {
    AllSeen(bs, end, count, FirstClear(bs, end, count, 0))
  }

  /** Lines 244-251 as written. The range found is vacant exactly when the table and the size
      meet TestSuffices, and then it is the highest one and in its place; for one page they
      always do. */
  method FindGapAsWritten(bs: seq<VBlock>, end: int, count: nat) returns (v: int, i: nat)
    requires Descending(bs) && count >= 1
    requires forall k :: 0 <= k < |bs| ==> bs[k].base + bs[k].len <= end
    ensures Vacant(bs, v, count) <==> TestSuffices(bs, end, count)
    ensures TestSuffices(bs, end, count) ==> Position(bs, i, v, count) && v + count <= end
    ensures i <= |bs| && v == Candidate(bs, end, count, i)
    ensures forall w :: v < w && w + count <= end ==> !Vacant(bs, w, count)
    ensures count == 1 ==> TestSuffices(bs, end, count)
  {
    hide MeetsAsWritten, Overlapped, Vacant, TestSuffices, AllSeen, Seen, Meets, Descending, FirstClear, Position,
         Candidate;
    FirstCandidate(bs, end, count);
    v := end - count;
    i := 0;
    NoneHigher(bs, end, count);
    ghost var g := FirstClear(bs, end, count, 0);
    while i < |bs|
      invariant i <= g && v == Candidate(bs, end, count, i) && v + count <= end
      invariant forall w :: v < w && w + count <= end ==> !Vacant(bs, w, count)
      invariant AllSeen(bs, end, count, i)
    {
      DescendingAt(bs, i);
      MixedTest(bs[i], v, count);
      if MeetsAsWritten(bs[i], v, count) {
        HigherMeets(bs, i, v, count, end);
        NextCandidate(bs, end, count, i);
        v := bs[i].base - count;
      } else {
        break;
      }
      i := i + 1;
    }
    UnseenDecides(bs, end, count, v, i);
  }

  lemma DescendingAt(bs: seq<VBlock>, i: nat)
    requires Descending(bs)
    ensures i < |bs| ==> bs[i].len >= 1
    ensures forall j, k :: 0 <= j < k < |bs| ==> bs[k].base + bs[k].len <= bs[j].base
  {
  }

  lemma FirstCandidate(bs: seq<VBlock>, end: int, count: nat)
    ensures Candidate(bs, end, count, 0) == end - count && AllSeen(bs, end, count, 0)
  {
  }

  lemma NextCandidate(bs: seq<VBlock>, end: int, count: nat, i: nat)
    requires i < |bs|
    ensures Candidate(bs, end, count, i + 1) == bs[i].base - count
    ensures AllSeen(bs, end, count, i) && bs[i].base < Candidate(bs, end, count, i) + Seen(count) ==>
              AllSeen(bs, end, count, i + 1)
  {
    hide Seen;
  }

  lemma NoneHigher(bs: seq<VBlock>, end: int, count: nat)
    ensures forall w :: end - count < w && w + count <= end ==> !Vacant(bs, w, count)
  {
  }

  /** No range above bs[i].base - count is vacant when none above v is and bs[i] reaches above v. */
  lemma HigherMeets(bs: seq<VBlock>, i: nat, v: int, count: nat, end: int)
    requires i < |bs| && bs[i].len >= 1 && count >= 1 && bs[i].base + bs[i].len > v
    requires forall w :: v < w && w + count <= end ==> !Vacant(bs, w, count)
    ensures forall w :: bs[i].base - count < w && w + count <= end ==> !Vacant(bs, w, count)
  {
    forall w | bs[i].base - count < w && w + count <= end
      ensures !Vacant(bs, w, count)
    {
      if w <= v { assert Meets(bs[i], w, count); }
    }
  }

  lemma CandidateIs(bs: seq<VBlock>, end: int, count: nat, i: nat)
    requires i <= |bs|
    ensures Candidate(bs, end, count, i) + count == if i == 0 then end else bs[i-1].base
  {
  }

  /** The search ended at the first clear block: nothing is in the way. */
  lemma EndedAtClear(bs: seq<VBlock>, end: int, count: nat, i: nat)
    requires Descending(bs) && i == FirstClear(bs, end, count, 0) && AllSeen(bs, end, count, i)
    ensures TestSuffices(bs, end, count) && Position(bs, i, Candidate(bs, end, count, i), count)
  {
    hide AllSeen, Seen, Candidate, FirstClear;
    CandidateIs(bs, end, count, i);
  }

  /** It ended earlier: the block there is in the way, and the test does not look that far. */
  lemma EndedBefore(bs: seq<VBlock>, end: int, count: nat, v: int, i: nat)
    requires count >= 1 && i < FirstClear(bs, end, count, 0) && v == Candidate(bs, end, count, i)
    requires bs[i].len >= 1 && bs[i].base + bs[i].len <= v + count && bs[i].base + bs[i].len > v
    requires bs[i].base >= v + Seen(count) && 1 <= Seen(count)
    ensures !TestSuffices(bs, end, count) && !Vacant(bs, v, count) && count > 1
  {
    hide Seen, FirstClear, Candidate;
    assert Meets(bs[i], v, count);
  }

  /** The search ended at i, after blocks that the test saw. */
  lemma UnseenDecides(bs: seq<VBlock>, end: int, count: nat, v: int, i: nat)
    requires Descending(bs) && count >= 1 && (forall k :: 0 <= k < |bs| ==> bs[k].base + bs[k].len <= end)
    requires i <= FirstClear(bs, end, count, 0) && v == Candidate(bs, end, count, i)
    requires i < |bs| ==> !MeetsAsWritten(bs[i], v, count)
    requires AllSeen(bs, end, count, i)
    ensures Vacant(bs, v, count) <==> TestSuffices(bs, end, count)
    ensures TestSuffices(bs, end, count) ==> Position(bs, i, v, count)
    ensures count == 1 ==> TestSuffices(bs, end, count)
  {
    hide MeetsAsWritten, Overlapped, Seen, Descending, Meets, Vacant, TestSuffices, AllSeen, Position, FirstClear;
    if i == FirstClear(bs, end, count, 0) {
      EndedAtClear(bs, end, count, i);
      PositionIsVacant(bs, i, v, count);
    } else {
      DescendingAt(bs, i);
      MixedTest(bs[i], v, count);
      EndedBefore(bs, end, count, v, i);
    }
  }

  /** Three pages below page 12 with a block at page 10: the search as written answers page 9,
      across the block; the right answer is page 7. */
  lemma FindGapFailure()
    ensures var bs := [VBlock(Memory, 10, 1)];
            !TestSuffices(bs, 12, 3) && !Vacant(bs, 9, 3) && Position(bs, 1, 7, 3)
  {
    var bs := [VBlock(Memory, 10, 1)];
    assert FirstClear(bs, 12, 3, 0) >= 1;
    assert bs[0].base == 10 && Candidate(bs, 12, 3, 0) == 9;
    assert Meets(bs[0], 9, 3);
  }

  // ------------------------------------------------------------ an explicit request

  /** Line 253 in bytes, `end` being the last byte of the space: in pages it asks for one page
      more than the range. */
  lemma BoundsTest(v: int, count: int, end: int)
    ensures v * PAGE_SIZE + count * PAGE_SIZE < end * PAGE_SIZE - 1 <==> v + count < end
  {
  }

  /** Lines 253-264. `end` is the first page after the space. */
  method CheckRequest(bs: seq<VBlock>, start: int, end: int, v: int, count: nat) returns (ok: bool, i: nat)
    requires Descending(bs) && count >= 1
    ensures ok <==> start <= v && v + count < end && Vacant(bs, v, count)
    ensures ok ==> Position(bs, i, v, count)
  {
    ok, i := true, 0;
    if v >= start && v + count < end {
      while i < |bs|
        invariant i <= |bs| && ok
        invariant forall j :: 0 <= j < i ==> v + count <= bs[j].base
      {
        if Overlapped(bs[i].base, bs[i].len, v, count) {
          assert Meets(bs[i], v, count);
          ok := false;
          break;
        } else if bs[i].base < v {
          break;
        }
        i := i + 1;
      }
      if ok { PositionIsVacant(bs, i, v, count); }
    } else {
      ok := false;
    }
  }

  // ------------------------------------------------------------ the table as a value

  function InsertAt(bs: seq<VBlock>, i: nat, b: VBlock): seq<VBlock>
    requires i <= |bs|
  {
    bs[..i] + [b] + bs[i..]
  }

  function RemoveAt(bs: seq<VBlock>, i: nat): seq<VBlock>
    requires i < |bs|
  {
    bs[..i] + bs[i+1..]
  }

  /** A block put at its position keeps the table in order and within its space. */
  lemma InsertKeepsOrder(bs: seq<VBlock>, i: nat, b: VBlock, start: int, end: int)
    requires Descending(bs) && InBounds(bs, start, end) && Position(bs, i, b.base, b.len)
    requires b.len >= 1 && start <= b.base && b.base + b.len <= end
    ensures Descending(InsertAt(bs, i, b)) && InBounds(InsertAt(bs, i, b), start, end)
    ensures RemoveAt(InsertAt(bs, i, b), i) == bs
  {
    var c := InsertAt(bs, i, b);
    forall k | 0 <= k < |c|
      ensures c[k] == InsertedBlock(bs, i, b, k) && c[k].len >= 1 && start <= c[k].base && c[k].base + c[k].len <= end
    {
    }
    forall j, k | 0 <= j < k < |c|
      ensures c[k].base + c[k].len <= c[j].base
    {
      Ordered(bs, i, b, j, k);
    }
  }

  function InsertedBlock(bs: seq<VBlock>, i: nat, b: VBlock, k: nat): VBlock
    requires i <= |bs| && k <= |bs|
  {
    if k < i then bs[k] else if k == i then b else bs[k-1]
  }

  lemma Ordered(bs: seq<VBlock>, i: nat, b: VBlock, j: nat, k: nat)
    requires Descending(bs) && Position(bs, i, b.base, b.len) && j < k <= |bs|
    ensures InsertedBlock(bs, i, b, k).base + InsertedBlock(bs, i, b, k).len <= InsertedBlock(bs, i, b, j).base
  {
  }

  lemma RemoveKeepsOrder(bs: seq<VBlock>, i: nat, start: int, end: int)
    requires Descending(bs) && InBounds(bs, start, end) && i < |bs|
    ensures Descending(RemoveAt(bs, i)) && InBounds(RemoveAt(bs, i), start, end)
  {
  }

  // ------------------------------------------------------------ growing the table

  /** sizeof(VirtMemoryBlock) */
  const ENTRY_SIZE: nat := 12

  /** Entries that fit in so many pages. */
  function Capacity(pages: nat): nat {
    pages * PAGE_SIZE / ENTRY_SIZE
  }

  /** Lines 274-277: the size in pages of the next table of a full one. */
  function NewSize(capacity: nat): nat {
    ((capacity * ENTRY_SIZE + (PAGE_SIZE - 1)) / PAGE_SIZE * PAGE_SIZE + PAGE_SIZE) / PAGE_SIZE
  }

  /** Rounding the used bytes up and adding a page gives exactly one page more, and room for
      at least 341 further entries. */
  lemma GrowthIsOnePage(pages: nat)
    ensures NewSize(Capacity(pages)) == pages + 1
    ensures Capacity(pages + 1) >= Capacity(pages) + 341
  {
  }

  /** The entries that the next size allows fit the pages there are exactly when the page has been
      added. */
  lemma RecordedCapacityIff(pages: nat, mapped: bool)
    ensures Capacity(NewSize(Capacity(pages))) * ENTRY_SIZE <= (if mapped then pages + 1 else pages) * PAGE_SIZE <==>
              mapped
  {
    GrowthIsOnePage(pages);
  }

  lemma NewSizeHoldsMore(capacity: nat)
    ensures Capacity(NewSize(capacity)) >= capacity + 341 && NewSize(capacity) >= 1
  {
  }

  // ------------------------------------------------------------ shifting entries in place

  /** memcpy of stdlib.c lines 14-20: one element at a time, from the front. */
  method MemCpy<T>(a: array<T>, dest: nat, src: nat, len: nat)
    requires dest + len <= a.Length && src + len <= a.Length
    modifies a
    ensures a[..] == Copied(old(a[..]), dest, src, len)
  {
    var d, s, left := dest, src, len;
    while left > 0
      invariant 0 <= left <= len && d + left == dest + len && s + left == src + len
      invariant a[..] == Copied(old(a[..]), dest, src, len - left)
    {
      a[d] := a[s];
      left, d, s := left - 1, d + 1, s + 1;
    }
  }

  /** The array after `n` steps of that loop. */
  function Copied<T>(a: seq<T>, dest: nat, src: nat, n: nat): (r: seq<T>)
    requires dest + n <= |a| && src + n <= |a|
    ensures |r| == |a|
  {
    if n == 0 then a else
      var p := Copied(a, dest, src, n - 1);
      p[dest + n - 1 := p[src + n - 1]]
  }

  /** x modulo d */
  function Wrapped(x: nat, d: nat): (r: nat)
    requires d >= 1
    ensures r < d && r <= x
  {
    if x < d then x else Wrapped(x - d, d)
  }

  /** Forward copying onto itself: towards the front every element arrives, towards the back
      the first dest - src elements repeat. */
  lemma {:induction false} CopiedAt<T>(a: seq<T>, dest: nat, src: nat, n: nat, k: nat)
    requires dest + n <= |a| && src + n <= |a| && k < |a|
    ensures Copied(a, dest, src, n)[k] ==
              if !(dest <= k < dest + n) then a[k]
              else if dest <= src then a[src + (k - dest)]
              else a[src + Wrapped(k - dest, dest - src)]
    decreases n
  {
    if n > 0 {
      CopiedAt(a, dest, src, n - 1, k);
      if k == dest + n - 1 {
        CopiedAt(a, dest, src, n - 1, src + n - 1);
      }
    }
  }

  /** The first `count` slots hold the table. */
  ghost predicate Stores(a: array<VBlock>, bs: seq<VBlock>)
    reads a
  {
    |bs| <= a.Length && a[..|bs|] == bs
  }

  /** Lines 304-309 as written: the entries from i on are pushed back by a forward copy, which
      is right exactly when at most one entry has to move. */
  method InsertEntryAsWritten(a: array<VBlock>, ghost bs: seq<VBlock>, count: nat, i: nat, b: VBlock)
    requires Stores(a, bs) && count == |bs| && i <= count < a.Length && Descending(bs)
    modifies a
    ensures Stores(a, InsertAt(bs, i, b)) <==> count - i <= 1
  {
    ghost var before := a[..];
    MemCpy(a, i + 1, i, count - i);
    a[i] := b;
    ghost var want := InsertAt(bs, i, b);
    forall k | 0 <= k < |want|
      ensures a[k] == if k < i then bs[k] else if k == i then b else bs[i]
    {
      CopiedAt(before, i + 1, i, count - i, k);
    }
    if count - i > 1 {
      assert want[i+2] == bs[i+1] && a[i+2] == bs[i];
      assert bs[i] != bs[i+1];
      assert a[..|want|][i+2] != want[i+2];
    } else {
      assert a[..|want|] == want;
    }
  }

  /** The same insertion with a copy that starts from the back. */
  method InsertEntry(a: array<VBlock>, ghost bs: seq<VBlock>, count: nat, i: nat, b: VBlock)
    requires Stores(a, bs) && count == |bs| && i <= count < a.Length
    modifies a
    ensures Stores(a, InsertAt(bs, i, b))
  {
    var k := count;
    while k > i
      invariant i <= k <= count
      invariant forall j :: 0 <= j < k ==> a[j] == bs[j]
      invariant forall j :: k < j <= count ==> a[j] == bs[j-1]
    {
      a[k] := a[k-1];
      k := k - 1;
    }
    a[i] := b;
    assert a[..count+1] == InsertAt(bs, i, b);
  }

  /** Lines 338-339: dropping an entry copies towards the front, which is right as written. */
  method RemoveEntry(a: array<VBlock>, ghost bs: seq<VBlock>, count: nat, i: nat)
    requires Stores(a, bs) && count == |bs| && i < count
    modifies a
    ensures Stores(a, RemoveAt(bs, i))
  {
    ghost var before := a[..];
    MemCpy(a, i, i + 1, count - 1 - i);
    forall k | 0 <= k < count - 1
      ensures a[k] == RemoveAt(bs, i)[k]
    {
      CopiedAt(before, i, i + 1, count - 1 - i, k);
    }
    assert a[..count-1] == RemoveAt(bs, i);
  }
}
