/** Any number of threads running `alloc_phys_pages` and `free_phys_pages`, one machine step
    at a time, around the atomic-swap mutex. The early test of line 128 is outside the lock,
    and the ring and the page counter are updated by separate steps. */
module AllocatorLock {
  import opened BlockList
  import FreeRing

  /** Where a thread is inside the two functions. */
  datatype Pc =
    | Idle
    | Test(count: nat)              // before line 128
    | Spin(op: Op)                  // in the xchg loop of mutex_get
    | Locked(op: Op)                // lock taken, ring untouched
    | Relinked(op: Op, got: int)    // ring changed, counter not yet
    | Counted(op: Op, got: int)     // about to release the lock

  /** `owned`: the pages the thread's finished allocations have returned and it still has. */
  datatype Thread = Thread(pc: Pc, owned: set<int>)

  datatype State = State(lock: bool, blocks: seq<Block>, freeCount: int, threads: seq<Thread>)

  /** `Call` starts one of the functions, `Go` performs the next step of a running one. */
  datatype Event = Call(t: nat, op: Op) | Go(t: nat)

  /** A thread gives back at least one page, and only pages it owns. */
  predicate Enabled(s: State, e: Event) {
    && e.t < |s.threads|
    && match e
       case Go(t) => s.threads[t].pc != Idle
       case Call(t, op) =>
         s.threads[t].pc == Idle && (op.Free? ==> op.count >= 1 && Range(op.base, op.count) <= s.threads[t].owned)
  }

  function With(s: State, t: nat, th: Thread): State
    requires t < |s.threads|
  {
    s.(threads := s.threads[t := th])
  }

  function Next(s: State, e: Event): State
    requires Enabled(s, e)
  {
    var th := s.threads[e.t];
    match e
    case Call(t, Alloc(n)) => With(s, t, th.(pc := Test(n)))
    case Call(t, Free(base, n)) => With(s, t, Thread(Spin(e.op), th.owned - Range(base, n)))
    case Go(t) =>
      match th.pc
      case Idle => s
      case Test(n) => With(s, t, th.(pc := if s.freeCount < n then Idle else Spin(Alloc(n))))
      case Spin(op) => if s.lock then s else With(s.(lock := true), t, th.(pc := Locked(op)))
      case Locked(Free(base, n)) =>
        With(s.(blocks := Insert(s.blocks, base, n)), t, th.(pc := Relinked(th.pc.op, base)))
      case Locked(Alloc(n)) =>
        var i := FirstFit(s.blocks, n);
        if i < |s.blocks| then
          With(s.(blocks := Carve(s.blocks, i, n)), t, th.(pc := Relinked(th.pc.op, CarvedPage(s.blocks, i, n))))
        else With(s, t, th.(pc := Counted(th.pc.op, FreeRing.NONE)))
      case Relinked(op, got) =>
        var d: int := if op.Alloc? then 0 - op.count else op.count;
        With(s.(freeCount := s.freeCount + d), t, th.(pc := Counted(op, got)))
      case Counted(op, got) =>
        var more := if op.Alloc? && got >= 0 then Range(got, op.count) else {};
        With(s.(lock := false), t, Thread(Idle, th.owned + more))
  }

  // ------------------------------------------------------------ invariant

  /** The pages on their way between a thread and the free list. */
  predicate InTransit(pc: Pc, p: int) {
    match pc
    case Spin(Free(base, n)) => base <= p < base + n
    case Locked(Free(base, n)) => base <= p < base + n
    case Relinked(Alloc(n), got) => got <= p < got + n
    case Counted(Alloc(n), got) => got >= 0 && got <= p < got + n
    case _ => false
  }

  predicate Holds(th: Thread, p: int) {
    p in th.owned || InTransit(th.pc, p)
  }

  predicate Inside(th: Thread) {
    th.pc.Locked? || th.pc.Relinked? || th.pc.Counted?
  }

  ghost predicate HeldBySome(s: State, p: int) {
    exists t :: 0 <= t < |s.threads| && Holds(s.threads[t], p)
  }

  /** Every page of the pool is free or held by exactly one thread. */
  ghost predicate Partition(s: State, pool: set<int>) {
    && (forall p :: p in pool <==> Covers(s.blocks, p) || HeldBySome(s, p))
    && (forall t, p :: 0 <= t < |s.threads| && Holds(s.threads[t], p) ==> !Covers(s.blocks, p))
    && (forall t, p :: 0 <= t < |s.threads| && p in s.threads[t].owned ==> !InTransit(s.threads[t].pc, p))
    && (forall t, u, p ::
          0 <= t < |s.threads| && 0 <= u < |s.threads| && Holds(s.threads[t], p) && Holds(s.threads[u], p) ==> t == u)
  }

  /** The lock is taken exactly while one thread is inside. */
  ghost predicate Exclusive(s: State) {
    && (s.lock <==> exists t :: 0 <= t < |s.threads| && Inside(s.threads[t]))
    && (forall t, u ::
          0 <= t < |s.threads| && 0 <= u < |s.threads| && Inside(s.threads[t]) && Inside(s.threads[u]) ==> t == u)
  }

  predicate WellFormedPc(pc: Pc) {
    && ((pc.Spin? || pc.Locked?) && pc.op.Free? ==> pc.op.count >= 1)
    && (pc.Relinked? ==> pc.got >= 0)
  }

  /** How far the counter lags behind the ring because of this thread. */
  function Lag(th: Thread): int {
    if th.pc.Relinked? then (if th.pc.op.Alloc? then th.pc.op.count else 0 - th.pc.op.count) else 0
  }

  ghost predicate Counts(s: State) {
    && s.freeCount >= 0 && Sorted(s.blocks)
    && (forall t :: 0 <= t < |s.threads| ==> WellFormedPc(s.threads[t].pc))
    && (forall t :: 0 <= t < |s.threads| && Inside(s.threads[t]) ==> s.freeCount == Total(s.blocks) + Lag(s.threads[t]))
    && (!s.lock ==> s.freeCount == Total(s.blocks))
  }

  ghost predicate Inv(s: State, pool: set<int>) {
    Partition(s, pool) && Exclusive(s) && Counts(s)
  }

  // ------------------------------------------------------------ one step

  /** When only thread t changes, and what it holds together with the free pages stays the
      same disjoint union, the partition survives. */
  lemma PartitionKept(s: State, t: nat, s': State, pool: set<int>)
    requires Partition(s, pool) && t < |s.threads| && t < |s'.threads|
    requires s'.threads == s.threads[t := s'.threads[t]]
    requires forall p :: Covers(s'.blocks, p) || Holds(s'.threads[t], p) <==>
               Covers(s.blocks, p) || Holds(s.threads[t], p)
    requires forall p :: Holds(s'.threads[t], p) ==> !Covers(s'.blocks, p)
    requires forall p :: p in s'.threads[t].owned ==> !InTransit(s'.threads[t].pc, p)
    ensures Partition(s', pool)
  {
    forall p
      ensures p in pool <==> Covers(s'.blocks, p) || HeldBySome(s', p)
    {
      PoolKept(s, t, s', p);
    }
    forall u, p | 0 <= u < |s'.threads| && Holds(s'.threads[u], p)
      ensures !Covers(s'.blocks, p)
    {
      if u != t { assert Holds(s.threads[u], p); }
    }
    forall u, v, p | 0 <= u < |s'.threads| && 0 <= v < |s'.threads| && Holds(s'.threads[u], p) &&
        Holds(s'.threads[v], p)
      ensures u == v
    {
      if u != t { assert Holds(s.threads[u], p); }
      if v != t { assert Holds(s.threads[v], p); }
    }
  }

  lemma PoolKept(s: State, t: nat, s': State, p: int)
    requires t < |s.threads| && t < |s'.threads| && s'.threads == s.threads[t := s'.threads[t]]
    requires Covers(s'.blocks, p) || Holds(s'.threads[t], p) <==> Covers(s.blocks, p) || Holds(s.threads[t], p)
    ensures Covers(s.blocks, p) || HeldBySome(s, p) <==> Covers(s'.blocks, p) || HeldBySome(s', p)
  {
    if HeldBySome(s, p) {
      var u :| 0 <= u < |s.threads| && Holds(s.threads[u], p);
      if u != t { assert Holds(s'.threads[u], p); }
    }
    if HeldBySome(s', p) {
      var u :| 0 <= u < |s'.threads| && Holds(s'.threads[u], p);
      if u != t { assert Holds(s.threads[u], p); }
    }
  }

  /** Thread `th` becomes `th'` while the free list goes from bs to bs': pages only move
      between the two. */
  ghost predicate Exchanged(th: Thread, bs: seq<Block>, th': Thread, bs': seq<Block>) {
    && Sorted(bs')
    && Total(bs') + Lag(th') == Total(bs)
    && (forall p :: Covers(bs', p) || Holds(th', p) <==> Covers(bs, p) || Holds(th, p))
    && (forall p :: Holds(th', p) ==> !Covers(bs', p))
    && (forall p :: p in th'.owned ==> !InTransit(th'.pc, p))
  }

  lemma RelinkFree(th: Thread, bs: seq<Block>)
    requires Sorted(bs) && th.pc.Locked? && th.pc.op.Free? && WellFormedPc(th.pc)
    requires forall p :: Holds(th, p) ==> !Covers(bs, p)
    requires forall p :: p in th.owned ==> !InTransit(th.pc, p)
    ensures Exchanged(th, bs, th.(pc := Relinked(th.pc.op, th.pc.op.base)), Insert(bs, th.pc.op.base, th.pc.op.count))
  {
    forall p | th.pc.op.base <= p < th.pc.op.base + th.pc.op.count
      ensures !Covers(bs, p)
    {
      assert Holds(th, p);
    }
    InsertMeets(bs, th.pc.op.base, th.pc.op.count);
  }

  lemma RelinkAlloc(th: Thread, bs: seq<Block>, i: nat)
    requires Sorted(bs) && th.pc.Locked? && th.pc.op.Alloc? && i < |bs| && bs[i].size >= th.pc.op.count
    requires forall p :: Holds(th, p) ==> !Covers(bs, p)
    ensures Exchanged(th, bs, th.(pc := Relinked(th.pc.op, CarvedPage(bs, i, th.pc.op.count))),
              Carve(bs, i, th.pc.op.count))
  {
    CarveSorted(bs, i, th.pc.op.count);
    CarveCovers(bs, i, th.pc.op.count);
    CarveTotal(bs, i, th.pc.op.count);
    assert forall p :: p in th.owned ==> Holds(th, p);
  }

  /** The step that changes the ring. */
  lemma Relink(s: State, t: nat)
    requires t < |s.threads| && Sorted(s.blocks) && s.threads[t].pc.Locked? && WellFormedPc(s.threads[t].pc)
    requires forall p :: Holds(s.threads[t], p) ==> !Covers(s.blocks, p)
    requires forall p :: p in s.threads[t].owned ==> !InTransit(s.threads[t].pc, p)
    ensures Exchanged(s.threads[t], s.blocks, Next(s, Go(t)).threads[t], Next(s, Go(t)).blocks)
  {
    if s.threads[t].pc.op.Free? {
      RelinkFree(s.threads[t], s.blocks);
    } else if FirstFit(s.blocks, s.threads[t].pc.op.count) < |s.blocks| {
      RelinkAlloc(s.threads[t], s.blocks, FirstFit(s.blocks, s.threads[t].pc.op.count));
    }
  }

  /** Every other step moves no page between a thread and the free list. */
  lemma OtherStep(s: State, e: Event)
    requires Enabled(s, e) && !(e.Go? && s.threads[e.t].pc.Locked?)
    requires WellFormedPc(s.threads[e.t].pc)
    requires forall p :: p in s.threads[e.t].owned ==> !InTransit(s.threads[e.t].pc, p)
    ensures var s' := Next(s, e);
            && s'.blocks == s.blocks
            && (forall p :: Holds(s'.threads[e.t], p) <==> Holds(s.threads[e.t], p))
            && (forall p :: p in s'.threads[e.t].owned ==> !InTransit(s'.threads[e.t].pc, p))
  {
    if e.Call? && e.op.Free? {
      assert forall p :: p in Range(e.op.base, e.op.count) ==> p in s.threads[e.t].owned;
    }
  }

  lemma StepPartition(s: State, e: Event, pool: set<int>)
    requires Inv(s, pool) && Enabled(s, e)
    ensures Partition(Next(s, e), pool)
  {
    if e.Go? && s.threads[e.t].pc.Locked? {
      Relink(s, e.t);
    } else {
      OtherStep(s, e);
    }
    PartitionKept(s, e.t, Next(s, e), pool);
  }

  lemma StepExclusive(s: State, e: Event)
    requires Exclusive(s) && Enabled(s, e)
    ensures Exclusive(Next(s, e))
  {
    var s' := Next(s, e);
    assert forall u :: 0 <= u < |s.threads| && u != e.t ==> s'.threads[u] == s.threads[u];
    if Inside(s'.threads[e.t]) {
      assert s'.lock;
    } else if Inside(s.threads[e.t]) {
      assert !s'.lock;
    } else if s.lock {
      var u :| 0 <= u < |s.threads| && Inside(s.threads[u]);
      assert Inside(s'.threads[u]);
    }
  }

  lemma StepCounts(s: State, e: Event, pool: set<int>)
    requires Inv(s, pool) && Enabled(s, e)
    ensures Counts(Next(s, e))
  {
    var s' := Next(s, e);
    var th := s.threads[e.t];
    if e.Go? && th.pc.Locked? {
      Relink(s, e.t);
    } else {
      OtherStep(s, e);
    }
    CountsKept(s, e, s');
  }

  /** What a step does to lock, counter and lag of its thread. */
  lemma StepNumbers(s: State, e: Event)
    requires Enabled(s, e) && WellFormedPc(s.threads[e.t].pc)
    ensures var s' := Next(s, e);
            var th, th' := s.threads[e.t], s'.threads[e.t];
            && WellFormedPc(th'.pc) && s'.threads == s.threads[e.t := th']
            && (th.pc.Relinked? && e.Go? ==> s'.freeCount == s.freeCount - Lag(th) && Lag(th') == 0)
            && (!(th.pc.Relinked? && e.Go?) ==> s'.freeCount == s.freeCount)
            && (Lag(th) != 0 ==> Inside(th) && th.pc.Relinked? && e.Go?)
            && (!(e.Go? && (th.pc.Locked? || th.pc.Relinked?)) ==> Lag(th') == Lag(th))
            && (th.pc.Locked? || th.pc.Counted? ==> Inside(th))
            && (Inside(th) && !Inside(th') ==> th.pc.Counted?)
            && (Inside(th') && !Inside(th) ==> !s.lock && s'.lock && Lag(th') == 0)
            && (!Inside(th) && !Inside(th') ==> s'.lock == s.lock)
            && (Inside(th) && Inside(th') ==> s'.lock == s.lock)
  {
  }

  lemma EnabledThread(s: State, e: Event)
    requires Enabled(s, e)
    ensures e.t < |s.threads|
  {
  }

  lemma CountsKept(s: State, e: Event, s': State)
    requires Counts(s) && Exclusive(s) && Enabled(s, e) && s' == Next(s, e) && Sorted(s'.blocks)
    requires if e.Go? && s.threads[e.t].pc.Locked? then Total(s'.blocks) + Lag(s'.threads[e.t]) == Total(s.blocks)
             else s'.blocks == s.blocks
    ensures Counts(s')
  {
    hide Next, Lag, Inside, WellFormedPc, Enabled, Sorted, Total;
    EnabledThread(s, e);
    var th := s.threads[e.t];
    StepNumbers(s, e);
    forall t | 0 <= t < |s'.threads| && Inside(s'.threads[t])
      ensures s'.freeCount == Total(s'.blocks) + Lag(s'.threads[t])
    {
      if t != e.t { assert Inside(s.threads[t]); }
    }
  }

  // ------------------------------------------------------------ all interleavings

  ghost predicate Possible(s: State, events: seq<Event>)
    decreases |events|
  {
    events != [] ==> Enabled(s, events[0]) && Possible(Next(s, events[0]), events[1..])
  }

  function After(s: State, events: seq<Event>): State
    requires Possible(s, events)
    decreases |events|
  {
    if events == [] then s else After(Next(s, events[0]), events[1..])
  }

  /** At boot nobody is running and every page of the pool is free. */
  ghost predicate Initial(s: State) {
    && !s.lock && Sorted(s.blocks) && s.freeCount == Total(s.blocks)
    && forall t :: 0 <= t < |s.threads| ==> s.threads[t] == Thread(Idle, {})
  }

  lemma InitialInv(s: State, pool: set<int>)
    requires Initial(s) && forall p :: p in pool <==> Covers(s.blocks, p)
    ensures Inv(s, pool)
  {
  }

  lemma {:induction false} InvariantOverRuns(s: State, events: seq<Event>, pool: set<int>)
    requires Inv(s, pool) && Possible(s, events)
    ensures Inv(After(s, events), pool)
    decreases |events|
  {
    if events != [] {
      StepPartition(s, events[0], pool);
      StepExclusive(s, events[0]);
      StepCounts(s, events[0], pool);
      InvariantOverRuns(Next(s, events[0]), events[1..], pool);
    }
  }

  /** Under every interleaving: one thread inside at most, no page held twice or held while
      free, every page of the pool accounted for, and a counter that never underflows. */
  lemma SafeUnderInterleaving(s: State, events: seq<Event>)
    requires Initial(s) && Possible(s, events)
    ensures var r := After(s, events);
            && (forall t, u ::
                  0 <= t < |r.threads| && 0 <= u < |r.threads| && Inside(r.threads[t]) && Inside(r.threads[u]) ==>
                    t == u)
            && (forall t, u, p ::
                  0 <= t < |r.threads| && 0 <= u < |r.threads| && Holds(r.threads[t], p) && Holds(r.threads[u], p) ==>
                    t == u)
            && (forall t, p :: 0 <= t < |r.threads| && Holds(r.threads[t], p) ==> !Covers(r.blocks, p))
            && (forall p :: Covers(s.blocks, p) <==> Covers(r.blocks, p) || HeldBySome(r, p))
            && Sorted(r.blocks) && r.freeCount >= 0
            && (!r.lock ==> r.freeCount == |Pages(r.blocks)|)
  {
    var pool := Pages(s.blocks);
    PagesAreCovered(s.blocks);
    InitialInv(s, pool);
    hide After, Possible, Initial, Sorted;
    InvariantOverRuns(s, events, pool);
    TotalIsPageCount(After(s, events).blocks);
  }

  /** What an allocation returns was in the pool, is not free, and belongs to nobody else. */
  lemma HandedOutOnce(s: State, t: nat, pool: set<int>, p: int)
    requires Inv(s, pool) && t < |s.threads| && s.threads[t].pc.Counted? && s.threads[t].pc.op.Alloc? &&
               s.threads[t].pc.got >= 0
    requires s.threads[t].pc.got <= p < s.threads[t].pc.got + s.threads[t].pc.op.count
    ensures p in pool && !Covers(s.blocks, p) && p !in s.threads[t].owned
    ensures forall u :: 0 <= u < |s.threads| && u != t ==> !Holds(s.threads[u], p)
    ensures p in Next(s, Go(t)).threads[t].owned
  {
    assert Holds(s.threads[t], p);
    assert HeldBySome(s, p);
  }

  /** Once the early test is passed the counter may drop; the walk under the lock decides. */
  lemma StaleTestIsHarmless(s: State, t: nat, pool: set<int>)
    requires Inv(s, pool) && t < |s.threads| && s.threads[t].pc.Locked? && s.threads[t].pc.op.Alloc?
    requires s.freeCount < s.threads[t].pc.op.count
    ensures Next(s, Go(t)) == With(s, t, s.threads[t].(pc := Counted(s.threads[t].pc.op, FreeRing.NONE)))
  {
    var n := s.threads[t].pc.op.count;
    assert s.freeCount == Total(s.blocks) + Lag(s.threads[t]);
    if FirstFit(s.blocks, n) < |s.blocks| {
      SizeAtMostTotal(s.blocks, FirstFit(s.blocks, n));
    }
  }
}
