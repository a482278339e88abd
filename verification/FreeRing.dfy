/** The ring of free runs: nodes that live in the first words of the free runs themselves.
    Here the stores of `alloc_phys_pages` and `free_phys_pages` are functions on memory
    values, and the lemmas say which sequence of runs the links describe afterwards. */
module FreeRing {
  import opened BlockList
  import opened Cycles
  import opened Frames

  /** (phyaddr)-1 */
  const NONE: int := -1

  // PhysMemoryBlock: word indices of its fields
  const NEXT: nat := 0
  const PREV: nat := 1
  const SIZE: nat := 2

  /** The node of run `i` holds its neighbours and its size. */
  ghost predicate Node(m: Mem, bs: seq<Block>, i: nat)
    requires i < |bs|
  {
    && Word(m, bs[i].base, NEXT) == bs[Succ(i, |bs|)].base
    && Word(m, bs[i].base, PREV) == bs[Pred(i, |bs|)].base
    && Word(m, bs[i].base, SIZE) == bs[i].size
  }

  ghost predicate Nodes(m: Mem, bs: seq<Block>) {
    forall i :: 0 <= i < |bs| ==> Node(m, bs, i)
  }

  /** The words of `m`, entered at `head`, are a circular doubly linked list of `bs`. */
  ghost predicate Ring(m: Mem, head: int, bs: seq<Block>) {
    && head == (if bs == [] then NONE else bs[0].base)
    && Nodes(m, bs)
  }

  /** Nodes are distinct frames of memory. */
  ghost predicate Placed(m: Mem, bs: seq<Block>) {
    && WellShaped(m)
    && (forall i :: 0 <= i < |bs| ==> bs[i].base < |m|)
    && (forall i, j :: 0 <= i < |bs| && 0 <= j < |bs| && i != j ==> bs[i].base != bs[j].base)
  }

  // ------------------------------------------------------------ stores

  /** Lines 140-143 and 188-191: the nodes at `next` and `prev` are joined. */
  function Joined(m: Mem, next: int, prev: int): Mem {
    Put(Put(m, next, PREV, prev), prev, NEXT, next)
  }

  /** Lines 199-206 and 210-216: a node at `base` is put between `pred` and `succ`. */
  function Linked(m: Mem, succ: int, pred: int, base: int, size: int): Mem {
    Put(Put(Put(Put(Put(m, succ, PREV, base), pred, NEXT, base), base, NEXT, succ), base, PREV, pred), base, SIZE, size)
  }

  /** Lines 182-193: the run at `cur` grows upwards by `count` and swallows its successor
      when that one starts where it now ends. */
  function Grown(m: Mem, cur: int, base: int, count: int): Mem {
    var m1 := Put(m, cur, SIZE, Word(m, cur, SIZE) + count);
    if Word(m1, cur, NEXT) == base + count then
      var next1 := Word(m1, cur, NEXT);
      var m2 := Joined(m1, Word(m1, next1, NEXT), cur);
      Put(m2, cur, SIZE, Word(m2, cur, SIZE) + Word(m1, next1, SIZE))
    else m1
  }

  // ------------------------------------------------------------ dropping a node

  /** Neighbours after run k has been dropped; run o of bs is run i of the shorter list. */
  lemma DropNeighbours(bs: seq<Block>, k: nat, o: nat, i: nat)
    requires k < |bs| && o < |bs| && o != k && i == (if o < k then o else o - 1)
    ensures var c := bs[..k] + bs[k+1..];
            && c[i] == bs[o]
            && c[Succ(i, |c|)] == bs[if Succ(o, |bs|) == k then Succ(k, |bs|) else Succ(o, |bs|)]
            && c[Pred(i, |c|)] == bs[if Pred(o, |bs|) == k then Pred(k, |bs|) else Pred(o, |bs|)]
  {
  }

  lemma JoinedNode(m: Mem, bs: seq<Block>, k: nat, o: nat, m': Mem)
    requires k < |bs| && o < |bs| && o != k
    requires Placed(m, bs) && Node(m, bs, o)
    requires m' == Joined(m, bs[Succ(k, |bs|)].base, bs[Pred(k, |bs|)].base)
    ensures Word(m', bs[o].base, NEXT) == bs[if Succ(o, |bs|) == k then Succ(k, |bs|) else Succ(o, |bs|)].base
    ensures Word(m', bs[o].base, PREV) == bs[if Pred(o, |bs|) == k then Pred(k, |bs|) else Pred(o, |bs|)].base
    ensures Word(m', bs[o].base, SIZE) == bs[o].size
  {
    var s, p := Succ(k, |bs|), Pred(k, |bs|);
    assert bs[s].base == bs[o].base <==> s == o;
    assert bs[p].base == bs[o].base <==> p == o;
  }

  /** Joining the neighbours of run k leaves a ring without it. */
  lemma JoinDropsNode(m: Mem, bs: seq<Block>, k: nat)
    requires Placed(m, bs) && Nodes(m, bs) && k < |bs|
    ensures Nodes(Joined(m, bs[Succ(k, |bs|)].base, bs[Pred(k, |bs|)].base), bs[..k] + bs[k+1..])
  {
    var c := bs[..k] + bs[k+1..];
    var m' := Joined(m, bs[Succ(k, |bs|)].base, bs[Pred(k, |bs|)].base);
    forall i | 0 <= i < |c|
      ensures Node(m', c, i)
    {
      var o := if i < k then i else i + 1;
      assert Node(m, bs, o);
      DropNeighbours(bs, k, o, i);
      JoinedNode(m, bs, k, o, m');
    }
  }

  // ------------------------------------------------------------ resizing a node

  lemma ResizeNode(m: Mem, bs: seq<Block>, k: nat, size: nat)
    requires Placed(m, bs) && Nodes(m, bs) && k < |bs|
    ensures Nodes(Put(m, bs[k].base, SIZE, size), bs[k := Block(bs[k].base, size)])
  {
    var c := bs[k := Block(bs[k].base, size)];
    var m' := Put(m, bs[k].base, SIZE, size);
    forall i | 0 <= i < |c|
      ensures Node(m', c, i)
    {
      assert Node(m, bs, i);
      assert i != k ==> bs[i].base != bs[k].base;
    }
  }

  // ------------------------------------------------------------ adding a node

  lemma AddNeighbours(bs: seq<Block>, k: nat, b: Block, o: nat, i: nat)
    requires k <= |bs| && o < |bs| && i == (if o < k then o else o + 1)
    ensures var c := bs[..k] + [b] + bs[k..];
            && c[i] == bs[o]
            && c[Succ(i, |c|)] == (if o == Pred(k, |bs|) then b else bs[Succ(o, |bs|)])
            && c[Pred(i, |c|)] == (if o == (if k < |bs| then k else 0) then b else bs[Pred(o, |bs|)])
  {
  }

  lemma AddedNeighbours(bs: seq<Block>, k: nat, b: Block)
    requires k <= |bs| && bs != []
    ensures var c := bs[..k] + [b] + bs[k..];
            c[k] == b && c[Succ(k, |c|)] == bs[if k < |bs| then k else 0] && c[Pred(k, |c|)] == bs[Pred(k, |bs|)]
  {
  }

  lemma LinkedNode(m: Mem, bs: seq<Block>, s: nat, p: nat, b: Block, o: nat, m': Mem)
    requires s < |bs| && p < |bs| && o < |bs|
    requires Placed(m, bs) && Node(m, bs, o) && b.base < |m| && b.base != bs[o].base
    requires m' == Linked(m, bs[s].base, bs[p].base, b.base, b.size)
    ensures Word(m', bs[o].base, NEXT) == if o == p then b.base else bs[Succ(o, |bs|)].base
    ensures Word(m', bs[o].base, PREV) == if o == s then b.base else bs[Pred(o, |bs|)].base
    ensures Word(m', bs[o].base, SIZE) == bs[o].size
  {
    assert bs[s].base == bs[o].base <==> s == o;
    assert bs[p].base == bs[o].base <==> p == o;
  }

  /** Linking between the run before position k and the run at k puts the new run at k. */
  lemma LinkAddsNode(m: Mem, bs: seq<Block>, k: nat, b: Block)
    requires Placed(m, bs) && Nodes(m, bs) && bs != [] && k <= |bs|
    requires b.base < |m| && forall i :: 0 <= i < |bs| ==> bs[i].base != b.base
    ensures Nodes(Linked(m, bs[if k < |bs| then k else 0].base, bs[Pred(k, |bs|)].base, b.base, b.size),
                  bs[..k] + [b] + bs[k..])
  {
    var c := bs[..k] + [b] + bs[k..];
    var s, p := if k < |bs| then k else 0, Pred(k, |bs|);
    var m' := Linked(m, bs[s].base, bs[p].base, b.base, b.size);
    forall i | 0 <= i < |c|
      ensures Node(m', c, i)
    {
      if i == k {
        AddedNeighbours(bs, k, b);
      } else {
        var o := if i < k then i else i - 1;
        assert Node(m, bs, o);
        AddNeighbours(bs, k, b, o, i);
        LinkedNode(m, bs, s, p, b, o, m');
      }
    }
  }

  // ------------------------------------------------------------ replacing a node

  /** Linking between the neighbours of run k puts the new run in place of run k, provided
      run k is not its own neighbour. */
  lemma LinkReplacesNode(m: Mem, bs: seq<Block>, k: nat, b: Block)
    requires Placed(m, bs) && Nodes(m, bs) && k < |bs| && |bs| >= 2
    requires b.base < |m| && forall i :: 0 <= i < |bs| ==> bs[i].base != b.base
    ensures Nodes(Linked(m, bs[Succ(k, |bs|)].base, bs[Pred(k, |bs|)].base, b.base, b.size), bs[k := b])
  {
    var c := bs[k := b];
    var s, p := Succ(k, |bs|), Pred(k, |bs|);
    var m' := Linked(m, bs[s].base, bs[p].base, b.base, b.size);
    forall i | 0 <= i < |c|
      ensures Node(m', c, i)
    {
      if i != k {
        assert Node(m, bs, i);
        LinkedNode(m, bs, s, p, b, i, m');
      }
    }
  }

  lemma LinkAlone(m: Mem, b: Block)
    requires WellShaped(m) && b.base < |m|
    ensures Nodes(Linked(m, b.base, b.base, b.base, b.size), [b])
  {
    assert Node(Linked(m, b.base, b.base, b.base, b.size), [b], 0);
  }

  // ------------------------------------------------------------ growing a node

  lemma GrownShape(m: Mem, cur: int, base: int, count: int)
    requires WellShaped(m)
    ensures WellShaped(Grown(m, cur, base, count)) && |Grown(m, cur, base, count)| == |m|
  {
  }

  lemma LinkedShape(m: Mem, succ: int, pred: int, base: int, size: int)
    requires WellShaped(m)
    ensures WellShaped(Linked(m, succ, pred, base, size)) && |Linked(m, succ, pred, base, size)| == |m|
  {
  }

  lemma GrownIs(m: Mem, bs: seq<Block>, k: nat, base: nat, count: nat)
    requires Placed(m, bs) && Nodes(m, bs) && k < |bs|
    ensures var m1 := Put(m, bs[k].base, SIZE, bs[k].size + count);
            Grown(m, bs[k].base, base, count) ==
            if bs[Succ(k, |bs|)].base != base + count then m1
            else
              var m2 := Joined(m1, bs[Succ(Succ(k, |bs|), |bs|)].base, bs[k].base);
              Put(m2, bs[k].base, SIZE, Word(m2, bs[k].base, SIZE) + Word(m1, bs[Succ(k, |bs|)].base, SIZE))
  {
    assert Node(m, bs, k) && Node(m, bs, Succ(k, |bs|));
  }

  /** Sorted runs without their second argument: where the next run can start. */
  lemma NextStart(bs: seq<Block>, k: nat, base: nat, count: nat)
    requires Sorted(bs) && k < |bs| && bs[k].base + bs[k].size == base && count >= 1
    ensures bs[Succ(k, |bs|)].base == base + count <==> k + 1 < |bs| && bs[k+1].base == base + count
    ensures k + 1 < |bs| ==> Succ(k, |bs|) == k + 1
  {
  }

  lemma SizeWord(m: Mem, bs: seq<Block>, k: nat)
    requires Nodes(m, bs) && k < |bs|
    ensures Word(m, bs[k].base, SIZE) == bs[k].size
  {
    assert Node(m, bs, k);
  }

  lemma ResizedPlaced(m: Mem, bs: seq<Block>, k: nat, size: nat)
    requires Placed(m, bs) && k < |bs|
    ensures Placed(Put(m, bs[k].base, SIZE, size), bs[k := Block(bs[k].base, size)])
  {
  }

  lemma GrownNodes(m: Mem, bs: seq<Block>, k: nat, base: nat, count: nat)
    requires Sorted(bs) && Placed(m, bs) && Nodes(m, bs) && k < |bs|
    requires bs[k].base + bs[k].size == base && count >= 1
    ensures Nodes(Grown(m, bs[k].base, base, count),
                  if k + 1 < |bs| && bs[k+1].base == base + count
                  then bs[..k] + [Block(bs[k].base, bs[k].size + count + bs[k+1].size)] + bs[k+2..]
                  else bs[k := Block(bs[k].base, bs[k].size + count)])
  {
    hide *;
    var b1 := bs[k := Block(bs[k].base, bs[k].size + count)];
    var m1 := Put(m, bs[k].base, SIZE, bs[k].size + count);
    GrownIs(m, bs, k, base, count);
    NextStart(bs, k, base, count);
    ResizeNode(m, bs, k, bs[k].size + count);
    ResizedPlaced(m, bs, k, bs[k].size + count);
    if k + 1 < |bs| && bs[k+1].base == base + count {
      GrownMerge(m1, b1, k);
      SizeWord(m1, b1, k + 1);
      SameSuccessor(bs, b1, k);
      assert b1[..k] + [Block(b1[k].base, b1[k].size + b1[k+1].size)] + b1[k+2..]
          == bs[..k] + [Block(bs[k].base, bs[k].size + count + bs[k+1].size)] + bs[k+2..];
    }
  }

  lemma SameSuccessor(bs: seq<Block>, b1: seq<Block>, k: nat)
    requires k + 1 < |bs| && |b1| == |bs| && b1[k].base == bs[k].base && b1 == bs[k := b1[k]]
    ensures b1[Succ(k + 1, |b1|)].base == bs[Succ(k + 1, |bs|)].base
  {
  }

  lemma DroppedPlaced(m: Mem, bs: seq<Block>, k: nat, m2: Mem)
    requires Placed(m, bs) && k < |bs| && WellShaped(m2) && |m2| == |m|
    ensures Placed(m2, bs[..k] + bs[k+1..])
  {
  }

  lemma JoinedShape(m: Mem, next: int, prev: int)
    requires WellShaped(m)
    ensures WellShaped(Joined(m, next, prev)) && |Joined(m, next, prev)| == |m|
    ensures forall p :: Word(Joined(m, next, prev), p, SIZE) == Word(m, p, SIZE)
  {
  }

  lemma PlacedShape(m: Mem, bs: seq<Block>)
    requires Placed(m, bs)
    ensures WellShaped(m)
  {
  }

  lemma Around(k: nat, n: nat)
    requires k + 1 < n
    ensures Succ(k + 1, n) < n && Pred(k + 1, n) == k
  {
  }

  /** Run k and the run after it become one. */
  lemma GrownMerge(m: Mem, bs: seq<Block>, k: nat)
    requires Placed(m, bs) && Nodes(m, bs) && k + 1 < |bs|
    ensures var m2 := Joined(m, bs[Succ(k + 1, |bs|)].base, bs[k].base);
            && Word(m2, bs[k].base, SIZE) == bs[k].size
            && Nodes(Put(m2, bs[k].base, SIZE, bs[k].size + bs[k+1].size),
                     bs[..k] + [Block(bs[k].base, bs[k].size + bs[k+1].size)] + bs[k+2..])
  {
    hide *;
    Around(k, |bs|);
    var m2 := Joined(m, bs[Succ(k + 1, |bs|)].base, bs[k].base);
    SizeWord(m, bs, k);
    PlacedShape(m, bs);
    JoinedShape(m, bs[Succ(k + 1, |bs|)].base, bs[k].base);
    JoinDropsNode(m, bs, k + 1);
    var c := bs[..k+1] + bs[k+2..];
    DroppedPlaced(m, bs, k + 1, m2);
    assert c[k] == bs[k];
    ResizeNode(m2, c, k, bs[k].size + bs[k+1].size);
    assert c[k := Block(bs[k].base, bs[k].size + bs[k+1].size)]
        == bs[..k] + [Block(bs[k].base, bs[k].size + bs[k+1].size)] + bs[k+2..];
  }
}
