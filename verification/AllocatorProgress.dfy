/** A request to the shared allocator that can be met is met: what the step under the lock does, and
    what a call does that nobody comes between. */
module AllocatorProgress {
  import opened AllocatorLock
  import opened BlockList

  /** The pages p..p+n are all free. */
  ghost predicate FreeRun(bs: seq<Block>, p: int, n: nat) {
    forall q :: p <= q < p + n ==> Covers(bs, q)
  }

  ghost predicate CanMeet(bs: seq<Block>, n: nat) {
    exists p :: FreeRun(bs, p, n)
  }

  /** The pages p..p+n have gone from the free list, and no others. */
  ghost predicate TakenFrom(bs: seq<Block>, bs': seq<Block>, p: int, n: nat) {
    FreeRun(bs, p, n) && forall q :: Covers(bs', q) <==> Covers(bs, q) && !(p <= q < p + n)
  }

  /** There are n consecutive free pages exactly when the walk finds a run that is large enough. */
  lemma CanMeetIff(bs: seq<Block>, n: nat)
    requires Sorted(bs) && n >= 1
    ensures CanMeet(bs, n) <==> FirstFit(bs, n) < |bs|
    ensures CanMeet(bs, n) ==> n <= Total(bs)
  {
    var i := FirstFit(bs, n);
    if i < |bs| {
      CarveCovers(bs, i, n);
      SizeAtMostTotal(bs, i);
      assert FreeRun(bs, CarvedPage(bs, i, n), n);
    }
    forall p | FreeRun(bs, p, n)
      ensures i < |bs|
    {
      if i == |bs| { NoFitMeansNoRun(bs, n, p); }
    }
  }

  /** Under the lock an allocation takes n consecutive free pages if there are any; */
  lemma AllocationStep(s: State, t: nat, pool: set<int>, n: nat)
    requires Inv(s, pool) && t < |s.threads| && s.threads[t].pc == Locked(Alloc(n)) && n >= 1
    ensures var s' := Next(s, Go(t));
            var pc := s'.threads[t].pc;
            if CanMeet(s.blocks, n) then
              pc.Relinked? && pc.op == Alloc(n) && pc.got >= 0 && TakenFrom(s.blocks, s'.blocks, pc.got, n)
            else pc == Counted(Alloc(n), -1) && s'.blocks == s.blocks
    ensures Next(s, Go(t)).blocks == Apply(s.blocks, Alloc(n))
  {
    CanMeetIff(s.blocks, n);
    if CanMeet(s.blocks, n) {
      CarveCovers(s.blocks, FirstFit(s.blocks, n), n);
    }
  }

  /** and a release makes exactly its pages free. */
  lemma ReleaseStep(s: State, t: nat, pool: set<int>, base: nat, n: nat)
    requires Inv(s, pool) && t < |s.threads| && s.threads[t].pc == Locked(Free(base, n))
    ensures var s' := Next(s, Go(t));
            && s'.threads[t].pc == Relinked(Free(base, n), base)
            && (forall q :: Covers(s'.blocks, q) <==> Covers(s.blocks, q) || base <= q < base + n)
            && s'.blocks == Apply(s.blocks, Free(base, n))
  {
    forall q | base <= q < base + n
      ensures !Covers(s.blocks, q)
    {
      assert Holds(s.threads[t], q);
    }
    InsertMeets(s.blocks, base, n);
  }

  function StepsLeft(pc: Pc): nat {
    match pc
    case Idle => 0
    case Counted(_, _) => 1
    case Relinked(_, _) => 2
    case Locked(_) => 3
    case Spin(_) => 4
    case Test(_) => 5
  }

  /** Thread t runs alone until it has returned, or finds the lock taken. */
  function Alone(s: State, t: nat): State
    requires t < |s.threads|
    decreases StepsLeft(s.threads[t].pc)
  {
    if s.threads[t].pc.Idle? || (s.threads[t].pc.Spin? && s.lock) then s else Alone(Next(s, Go(t)), t)
  }

  /** That is one of the interleavings. */
  lemma {:induction false} AloneIsARun(s: State, t: nat) returns (events: seq<Event>)
    requires t < |s.threads|
    ensures (forall e :: e in events ==> e == Go(t)) && Possible(s, events) && After(s, events) == Alone(s, t)
    decreases StepsLeft(s.threads[t].pc)
  {
    events := [];
    if !(s.threads[t].pc.Idle? || (s.threads[t].pc.Spin? && s.lock)) {
      var rest := AloneIsARun(Next(s, Go(t)), t);
      events := [Go(t)] + rest;
      assert events[1..] == rest;
    }
  }

  /** The state when thread t is at pc and the others are as in threads. */
  function At(threads: seq<Thread>, t: nat, pc: Pc, owned: set<int>, lock: bool, blocks: seq<Block>, free: int): State
    requires t < |threads|
  {
    State(lock, blocks, free, threads[t := Thread(pc, owned)])
  }

  lemma Turn(threads: seq<Thread>, t: nat, a: Thread, b: Thread)
    requires t < |threads|
    ensures threads[t := a][t := b] == threads[t := b]
  {
  }

  lemma TestTurn(threads: seq<Thread>, t: nat, owned: set<int>, bs: seq<Block>, free: int, n: nat)
    requires t < |threads|
    ensures Alone(At(threads, t, Test(n), owned, false, bs, free), t) ==
            if free < n then At(threads, t, Idle, owned, false, bs, free)
            else Alone(At(threads, t, Spin(Alloc(n)), owned, false, bs, free), t)
  {
    Turn(threads, t, Thread(Test(n), owned), Thread(if free < n then Idle else Spin(Alloc(n)), owned));
  }

  lemma SpinTurn(threads: seq<Thread>, t: nat, owned: set<int>, bs: seq<Block>, free: int, op: Op)
    requires t < |threads|
    ensures Alone(At(threads, t, Spin(op), owned, false, bs, free), t) ==
            Alone(At(threads, t, Locked(op), owned, true, bs, free), t)
  {
    Turn(threads, t, Thread(Spin(op), owned), Thread(Locked(op), owned));
  }

  lemma CountTurns(threads: seq<Thread>, t: nat, owned: set<int>, bs: seq<Block>, free: int, op: Op, got: int)
    requires t < |threads|
    ensures Alone(At(threads, t, Relinked(op, got), owned, true, bs, free), t) ==
            Alone(At(threads, t, Counted(op, got), owned, true, bs,
                  if op.Alloc? then free - op.count else free + op.count), t)
    ensures Alone(At(threads, t, Counted(op, got), owned, true, bs, free), t) ==
            At(threads, t, Idle, owned + if op.Alloc? && got >= 0 then Range(got, op.count) else {}, false, bs, free)
  {
    var more := if op.Alloc? && got >= 0 then Range(got, op.count) else {};
    Turn(threads, t, Thread(Relinked(op, got), owned), Thread(Counted(op, got), owned));
    Turn(threads, t, Thread(Counted(op, got), owned), Thread(Idle, owned + more));
  }

  lemma AllocTurn(threads: seq<Thread>, t: nat, owned: set<int>, bs: seq<Block>, free: int, n: nat)
    requires t < |threads|
    ensures FirstFit(bs, n) < |bs| ==>
              Alone(At(threads, t, Locked(Alloc(n)), owned, true, bs, free), t) ==
              Alone(At(threads, t, Relinked(Alloc(n), CarvedPage(bs, FirstFit(bs, n), n)), owned, true,
                    Carve(bs, FirstFit(bs, n), n), free), t)
    ensures FirstFit(bs, n) == |bs| ==>
              Alone(At(threads, t, Locked(Alloc(n)), owned, true, bs, free), t) ==
              Alone(At(threads, t, Counted(Alloc(n), -1), owned, true, bs, free), t)
  {
    var i := FirstFit(bs, n);
    if i < |bs| {
      Turn(threads, t, Thread(Locked(Alloc(n)), owned), Thread(Relinked(Alloc(n), CarvedPage(bs, i, n)), owned));
    } else {
      Turn(threads, t, Thread(Locked(Alloc(n)), owned), Thread(Counted(Alloc(n), -1), owned));
    }
  }

  lemma FreeTurn(threads: seq<Thread>, t: nat, owned: set<int>, bs: seq<Block>, free: int, base: nat, n: nat)
    requires t < |threads|
    ensures Alone(At(threads, t, Locked(Free(base, n)), owned, true, bs, free), t) ==
            Alone(At(threads, t, Relinked(Free(base, n), base), owned, true, Insert(bs, base, n), free), t)
  {
    Turn(threads, t, Thread(Locked(Free(base, n)), owned), Thread(Relinked(Free(base, n), base), owned));
  }

  /** All turns of a call for n pages with the lock open. */
  lemma AllocTurns(threads: seq<Thread>, t: nat, owned: set<int>, bs: seq<Block>, free: int, n: nat)
    requires t < |threads|
    ensures var i := FirstFit(bs, n);
            Alone(At(threads, t, Test(n), owned, false, bs, free), t) ==
              if free >= n && i < |bs| then
                At(threads, t, Idle, owned + Range(CarvedPage(bs, i, n), n), false, Carve(bs, i, n), free - n)
              else At(threads, t, Idle, owned, false, bs, free)
  {
    hide Alone, At;
    TestTurn(threads, t, owned, bs, free, n);
    SpinTurn(threads, t, owned, bs, free, Alloc(n));
    AllocTurn(threads, t, owned, bs, free, n);
    var i := FirstFit(bs, n);
    if i < |bs| {
      CountTurns(threads, t, owned, Carve(bs, i, n), free, Alloc(n), CarvedPage(bs, i, n));
      CountTurns(threads, t, owned, Carve(bs, i, n), free - n, Alloc(n), CarvedPage(bs, i, n));
    } else {
      CountTurns(threads, t, owned, bs, free, Alloc(n), -1);
      assert owned + {} == owned;
    }
  }

  lemma FreeTurns(threads: seq<Thread>, t: nat, owned: set<int>, bs: seq<Block>, free: int, base: nat, n: nat)
    requires t < |threads|
    ensures Alone(At(threads, t, Spin(Free(base, n)), owned, false, bs, free), t) ==
            At(threads, t, Idle, owned, false, Insert(bs, base, n), free + n)
  {
    hide Alone, At;
    SpinTurn(threads, t, owned, bs, free, Free(base, n));
    FreeTurn(threads, t, owned, bs, free, base, n);
    CountTurns(threads, t, owned, Insert(bs, base, n), free, Free(base, n), base);
    CountTurns(threads, t, owned, Insert(bs, base, n), free + n, Free(base, n), base);
    assert owned + {} == owned;
  }

  /** The thread has come to own the n pages from got on, which were free. */
  ghost predicate Gained(s: State, r: State, t: nat, got: int, n: nat) {
    && t < |s.threads| && t < |r.threads|
    && r.threads[t].owned == s.threads[t].owned + Range(got, n) && Range(got, n) !! s.threads[t].owned
    && TakenFrom(s.blocks, r.blocks, got, n)
  }

  /** An allocation that nobody comes between is met exactly when there are n consecutive free pages.
      Then the caller has n more pages, the free list lacks them and the counter is n less; otherwise
      nothing has changed. The list is what the operation on values makes of it. */
  lemma AllocationAlone(s: State, t: nat, pool: set<int>, n: nat)
    requires Inv(s, pool) && t < |s.threads| && s.threads[t].pc == Idle && !s.lock && n >= 1
    ensures var r := Alone(Next(s, Call(t, Alloc(n))), t);
            && |r.threads| == |s.threads| && r.threads[t].pc == Idle && !r.lock
            && (forall u :: 0 <= u < |s.threads| && u != t ==> r.threads[u] == s.threads[u])
            && r.blocks == Apply(s.blocks, Alloc(n)) && r.freeCount == Total(r.blocks)
            && (CanMeet(s.blocks, n) ==> r.freeCount == s.freeCount - n && exists got :: Gained(s, r, t, got, n))
            && (!CanMeet(s.blocks, n) ==> r == s)
  {
    var owned, bs, i := s.threads[t].owned, s.blocks, FirstFit(s.blocks, n);
    var r := Alone(Next(s, Call(t, Alloc(n))), t);
    CanMeetIff(bs, n);
    AllocTurns(s.threads, t, owned, bs, s.freeCount, n);
    hide Alone, CanMeet, FirstFit;
    if i < |bs| {
      CarveTotal(bs, i, n);
      CarveCovers(bs, i, n);
      var got := CarvedPage(bs, i, n);
      FreeIsNotOwned(s, t, pool, got, n);
      assert Gained(s, r, t, got, n);
    } else {
      assert r.threads == s.threads;
    }
  }

  lemma FreeIsNotOwned(s: State, t: nat, pool: set<int>, got: int, n: nat)
    requires Inv(s, pool) && t < |s.threads| && FreeRun(s.blocks, got, n)
    ensures Range(got, n) !! s.threads[t].owned
  {
    forall q | q in Range(got, n)
      ensures q !in s.threads[t].owned
    {
      assert Covers(s.blocks, q);
      assert q in s.threads[t].owned ==> Holds(s.threads[t], q);
    }
  }

  /** A release that nobody comes between makes exactly its pages free. */
  lemma ReleaseAlone(s: State, t: nat, pool: set<int>, base: nat, n: nat)
    requires Inv(s, pool) && Enabled(s, Call(t, Free(base, n))) && !s.lock
    ensures var r := Alone(Next(s, Call(t, Free(base, n))), t);
            && |r.threads| == |s.threads| && !r.lock
            && r.threads[t] == Thread(Idle, s.threads[t].owned - Range(base, n))
            && (forall u :: 0 <= u < |s.threads| && u != t ==> r.threads[u] == s.threads[u])
            && r.blocks == Apply(s.blocks, Free(base, n)) && r.freeCount == s.freeCount + n == Total(r.blocks)
            && (forall q :: Covers(r.blocks, q) <==> Covers(s.blocks, q) || base <= q < base + n)
  {
    var owned := s.threads[t].owned - Range(base, n);
    FreeTurns(s.threads, t, owned, s.blocks, s.freeCount, base, n);
    forall q | base <= q < base + n
      ensures !Covers(s.blocks, q)
    {
      assert q in s.threads[t].owned;
      assert Holds(s.threads[t], q);
    }
    InsertMeets(s.blocks, base, n);
  }
}
