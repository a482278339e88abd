/** The intrusive ring of stdlib.c: list_append store by store, as an interrupt may see it. */
module ThreadRing {
  import opened Cycles

  /** No item. */
  const NO_ITEM: nat := 0

  /** The fields of a List and of its items, by address. `listed` are the items whose `list`
      is not NULL. */
  datatype Links = Links(next: map<nat, nat>, prev: map<nat, nat>, listed: set<nat>, first: nat, count: nat,
      locked: bool)

  function Get(m: map<nat, nat>, x: nat): nat {
    if x in m then m[x] else NO_ITEM
  }

  ghost predicate Distinct(r: seq<nat>) {
    forall i, j :: 0 <= i < j < |r| ==> r[i] != r[j]
  }

  /** `next` runs once through all of r, in order, and back to its head. */
  ghost predicate Cycle(next: map<nat, nat>, r: seq<nat>) {
    r != [] && Distinct(r) && forall i: nat :: i < |r| ==> Get(next, r[i]) == r[Succ(i, |r|)]
  }

  ghost predicate BackCycle(prev: map<nat, nat>, r: seq<nat>) {
    forall i: nat :: i < |r| ==> Get(prev, r[Succ(i, |r|)]) == r[i]
  }

  /** A list at rest with the members r, oldest first. */
  ghost predicate RingList(l: Links, r: seq<nat>) {
    && l.count == |r| && NO_ITEM !in r
    && (r == [] ==> l.first == NO_ITEM)
    && (r != [] ==> l.first == r[0] && Cycle(l.next, r) && BackCycle(l.prev, r))
  }

  // ------------------------------------------------------------ list_append, store by store

  /** Lines 117-121 and 127 in program order, for a ring that is not empty. */
  function Store(l: Links, item: nat, k: nat): Links {
    if k == 0 then l.(listed := l.listed + {item})
    else if k == 1 then l.(next := l.next[item := l.first])
    else if k == 2 then l.(prev := l.prev[item := Get(l.prev, l.first)])
    else if k == 3 then l.(next := l.next[Get(l.prev, item) := item])
    else if k == 4 then l.(prev := l.prev[Get(l.next, item) := item])
    else l.(count := l.count + 1)
  }

  const STORES: nat := 6

  /** The fields after the first k stores. */
  function Stores(l: Links, item: nat, k: nat): Links
    decreases k
  {
    if k == 0 then l else Store(Stores(l, item, k - 1), item, k - 1)
  }

  /** Whom the `next` links reach after k stores: the fourth store links the item in. */
  function Reached(r: seq<nat>, item: nat, k: nat): seq<nat> {
    if k < 4 then r else r + [item]
  }

  lemma StoresAre(l: Links, item: nat)
    requires l.first != item && Get(l.prev, l.first) != item
    ensures Stores(l, item, 0) == l
    ensures Stores(l, item, 1) == l.(listed := l.listed + {item})
    ensures Stores(l, item, 2) == Stores(l, item, 1).(next := l.next[item := l.first])
    ensures Stores(l, item, 3) == Stores(l, item, 2).(prev := l.prev[item := Get(l.prev, l.first)])
    ensures Stores(l, item, 4) == Stores(l, item, 3).(next := l.next[item := l.first][Get(l.prev, l.first) := item])
    ensures Stores(l, item, 5) == Stores(l, item, 4).(prev := l.prev[item := Get(l.prev, l.first)][l.first := item])
    ensures Stores(l, item, 6) == Stores(l, item, 5).(count := l.count + 1)
  {
    StoresNext(l, item, 1);
    StoresNext(l, item, 2);
    StoresNext(l, item, 3);
    StoresNext(l, item, 4);
    StoresNext(l, item, 5);
    StoresNext(l, item, 6);
  }

  lemma StoresNext(l: Links, item: nat, k: nat)
    requires k >= 1
    ensures Stores(l, item, k) == Store(Stores(l, item, k - 1), item, k - 1)
  {
  }

  /** The last member, found through the head. */
  lemma TailIs(l: Links, r: seq<nat>)
    requires RingList(l, r) && r != []
    ensures Get(l.prev, l.first) == r[|r|-1]
  {
    assert r[Succ(|r| - 1, |r|)] == r[0];
  }

  /** An interrupt after any number of stores finds one cycle: the old members, or the old
      members and the new one at the tail. */
  lemma AppendIsInterruptible(l: Links, r: seq<nat>, item: nat, k: nat)
    requires RingList(l, r) && r != [] && item !in r && item != NO_ITEM && k <= STORES
    ensures Cycle(Stores(l, item, k).next, Reached(r, item, k))
    ensures Stores(l, item, k).first == r[0] && Stores(l, item, k).locked == l.locked
  {
    TailIs(l, r);
    assert r[0] in r && r[|r|-1] in r;
    StoresAre(l, item);
    ItemPointed(l.next, r, item);
    TailLinked(l.next[item := r[0]], r, item);
  }

  /** The new item may point anywhere while nothing points to it. */
  lemma ItemPointed(next: map<nat, nat>, r: seq<nat>, item: nat)
    requires Cycle(next, r) && item !in r
    ensures Cycle(next[item := r[0]], r)
  {
    forall i: nat | i < |r|
      ensures Get(next[item := r[0]], r[i]) == r[Succ(i, |r|)]
    {
      assert r[i] in r;
    }
  }

  lemma TailLinked(next: map<nat, nat>, r: seq<nat>, item: nat)
    requires Cycle(next, r) && item !in r && Get(next, item) == r[0]
    ensures Cycle(next[r[|r|-1] := item], r + [item])
  {
    var n, s := next[r[|r|-1] := item], r + [item];
    forall i: nat | i < |s|
      ensures Get(n, s[i]) == s[Succ(i, |s|)]
    {
      assert r[|r|-1] in r;
      if i + 1 < |r| {
        assert r[i] in r && Succ(i, |r|) == i + 1;
      }
    }
  }

  lemma HeadPointsBack(prev: map<nat, nat>, r: seq<nat>, item: nat)
    requires BackCycle(prev, r) && r != [] && Distinct(r) && item !in r
    ensures BackCycle(prev[item := r[|r|-1]][r[0] := item], r + [item])
  {
    var p, s := prev[item := r[|r|-1]][r[0] := item], r + [item];
    forall i: nat | i < |s|
      ensures Get(p, s[Succ(i, |s|)]) == s[i]
    {
      if i + 1 < |r| {
        assert Succ(i, |r|) == i + 1 && r[i + 1] in r && r[0] in r;
        assert Get(prev, r[Succ(i, |r|)]) == r[i];
      } else if i + 1 == |r| {
        assert s[i + 1] == item && r[0] in r;
      }
    }
  }

  /** After the last store the list is at rest with the item at its tail. */
  lemma AppendAdds(l: Links, r: seq<nat>, item: nat)
    requires RingList(l, r) && r != [] && item !in r && item != NO_ITEM
    ensures RingList(Stores(l, item, STORES), r + [item])
    ensures Stores(l, item, STORES).listed == l.listed + {item}
  {
    AppendIsInterruptible(l, r, item, STORES);
    TailIs(l, r);
    assert r[0] in r && r[|r|-1] in r;
    StoresAre(l, item);
    HeadPointsBack(l.prev, r, item);
  }

  // ------------------------------------------------------------ the list itself

  /** The list and its items, with the fields updated in place. */
  class RingOfItems {
    var links: Links

    /** list_init */
    constructor ()
      ensures RingList(links, []) && links.listed == {} && !links.locked
    {
      links := Links(map[], map[], {}, NO_ITEM, 0, false);
    }

    /** list_append. The mutex is free, as it is for one caller at a time. A new item joins at the
        tail, one whose `list` is set is kept out, and the first item, whose `list` never is, is
        let in again and breaks the ring. */
    method ListAppend(item: nat, ghost r: seq<nat>)
      requires RingList(links, r) && Marked(links, r) && !links.locked && item != NO_ITEM
      modifies this
      ensures !links.locked && links.listed == old(links.listed) + (if r == [] then {} else {item})
      ensures item in old(links.listed) ==> links == old(links)
      ensures item !in old(links.listed) && item !in r ==> RingList(links, r + [item]) && Marked(links, r + [item])
      ensures item !in old(links.listed) && item in r ==>
                item == r[0] && !RingList(links, r) && (|r| >= 2 ==> Get(links.next, item) == item)
    {
      if item !in links.listed {
        ghost var l0 := links.(locked := true);
        links := links.(locked := true);
        if links.first != NO_ITEM {
          TailIs(l0, r);
          assert r[0] in r && r[|r|-1] in r;
          if item in r {
            if |r| >= 2 { SecondAppendOfFirst(l0, r); }
          } else {
            StoresAre(l0, item);
            AppendAdds(l0, r, item);
          }
          StoresOnce(l0, item);
          links := links.(listed := links.listed + {item});
          links := links.(next := links.next[item := links.first]);
          links := links.(prev := links.prev[item := Get(links.prev, links.first)]);
          links := links.(next := links.next[Get(links.prev, item) := item]);
          links := links.(prev := links.prev[Get(links.next, item) := item]);
        } else {
          links := links.(next := links.next[item := item]);
          links := links.(prev := links.prev[item := item]);
          links := links.(first := item);
        }
        links := links.(count := links.count + 1);
        links := links.(locked := false);
      }
    }
  }

  /** Every member but the first has its `list` set. */
  ghost predicate Marked(l: Links, r: seq<nat>) {
    forall i :: 1 <= i < |r| ==> r[i] in l.listed
  }

  lemma StoresOnce(l: Links, item: nat)
    ensures Stores(l, item, STORES)
            == Store(Store(Store(Store(Store(Store(l, item, 0), item, 1), item, 2), item, 3), item, 4), item, 5)
    ensures Stores(l, item, STORES).count == l.count + 1
  {
    StoresNext(l, item, 1);
    StoresNext(l, item, 2);
    StoresNext(l, item, 3);
    StoresNext(l, item, 4);
    StoresNext(l, item, 5);
    StoresNext(l, item, 6);
  }

  /** The first member is linked without its `list` being set, so only for it the guard lets a
      second append through, and that cuts every other member off: from the head, `next` leads
      back to the head at once. */
  lemma SecondAppendOfFirst(l: Links, r: seq<nat>)
    requires RingList(l, r) && |r| >= 2 && r[0] !in l.listed
    ensures Get(Stores(l, r[0], STORES).next, r[0]) == r[0]
    ensures !Cycle(Stores(l, r[0], STORES).next, r)
  {
    TailIs(l, r);
    var item := r[0];
    StoresNext(l, item, 1);
    StoresNext(l, item, 2);
    StoresNext(l, item, 3);
    StoresNext(l, item, 4);
    StoresNext(l, item, 5);
    StoresNext(l, item, 6);
    assert Stores(l, item, 6).next == l.next[item := item][r[|r|-1] := item];
    assert r[Succ(0, |r|)] == r[1];
  }
}
