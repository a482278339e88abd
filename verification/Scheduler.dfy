/** Round-robin scheduling on the thread ring: timer ticks may arrive between any two stores of
    an append, and any thread may be suspended at any time. */
module Scheduler {
  import opened Cycles
  import opened Options
  import opened ThreadRing

  /** The registers an interrupt saves, and a thread's `state`. */
  datatype Registers = Registers(gs: nat, fs: nat, es: nat, ds: nat,
                                 ebp: nat, edi: nat, esi: nat, edx: nat, ecx: nat, ebx: nat, eax: nat,
                                 eip: nat, cs: nat, eflags: nat, esp: nat, ss: nat)

  /** An append under way: the caller, the item, and the stores done. */
  datatype Job = Job(caller: nat, item: nat, done: nat)

  /** `created` are threads whose state is set up and which are yet to be appended; `cpu` is what
      the running thread has in its registers. */
  datatype State = State(links: Links, job: Option<Job>, created: set<nat>, suspended: set<nat>, halted: set<nat>,
                         process: map<nat, nat>, saved: map<nat, Registers>, cpu: Registers, current: nat)

  datatype Event =
    | Tick
    | Work(regs: Registers)
    | Create(thread: nat, owner: nat, entry: nat, stackTop: nat, kernel: bool, asleep: bool)
    | Begin(item: nat)
    | NextStore
    | End
    | Suspend(t: nat, on: bool)
    | SuspendProcess(p: nat, on: bool)

  // ------------------------------------------------------------ the selection loop

  /** Neither the thread nor its process is suspended. */
  predicate Runnable(s: State, t: nat) {
    t !in s.suspended && Get(s.process, t) !in s.halted
  }

  /** n links on. */
  function Walk(next: map<nat, nat>, from: nat, n: nat): nat
    decreases n
  {
    if n == 0 then from else Get(next, Walk(next, from, n - 1))
  }

  /** The loop of lines 47-50 stops after n turns. */
  ghost predicate StopsAfter(s: State, n: nat) {
    && n >= 1 && Runnable(s, Walk(s.links.next, s.current, n))
    && forall k: nat :: 1 <= k < n ==> !Runnable(s, Walk(s.links.next, s.current, k))
  }

  function Recall(saved: map<nat, Registers>, t: nat, otherwise: Registers): Registers {
    if t in saved then saved[t] else otherwise
  }

  /** Lines 45-53 when the loop ends at t. */
  function Dispatched(s: State, t: nat): State {
    var saved := s.saved[s.current := s.cpu];
    s.(saved := saved, current := t, cpu := Recall(saved, t, s.cpu))
  }

  /** Lines 90-101 */
  function FreshRegisters(entry: nat, stackTop: nat, kernel: bool): Registers {
    var data := if kernel then 16 else 35;
    Registers(data, data, data, data, 0, 0, 0, 0, 0, 0, 0, entry, if kernel then 8 else 27, 0x202, stackTop, data)
  }

  /** What a thread starts with: at its entry point, on its stack, interrupts enabled, with the
      segments of its ring, and zero in every other register. */
  predicate StartsAt(r: Registers, entry: nat, stackTop: nat, kernel: bool) {
    && r.eip == entry && r.esp == stackTop && r.eflags == 0x202 && r.cs == (if kernel then 8 else 27)
    && r.ss == r.ds == r.es == r.fs == r.gs == (if kernel then 16 else 35)
    && r.eax == r.ebx == r.ecx == r.edx == r.esi == r.edi == r.ebp == 0
  }

  function With(s: set<nat>, x: nat, on: bool): (r: set<nat>)
    ensures x in r <==> on
    ensures forall y :: y != x ==> (y in r <==> y in s)
  {
    if on then s + {x} else s - {x}
  }

  ghost predicate Step(s: State, e: Event, s': State) {
    match e
    case Tick => exists n: nat :: StopsAfter(s, n) && s' == Dispatched(s, Walk(s.links.next, s.current, n))
    case Work(regs) => s' == s.(cpu := regs)
    case Create(t, owner, entry, top, kernel, asleep) =>
      && t != NO_ITEM && t !in s.saved && t != s.current && t !in s.links.listed
      && s' == s.(saved := s.saved[t := FreshRegisters(entry, top, kernel)], process := s.process[t := owner],
                  suspended := With(s.suspended, t, asleep), created := s.created + {t})
    case Begin(item) =>
      && s.job.None? && !s.links.locked && item in s.created && item !in s.links.listed
      && s' == s.(links := s.links.(locked := true), created := s.created - {item},
           job := Some(Job(s.current, item, 0)))
    case NextStore =>
      && s.job.Some? && s.job.value.caller == s.current && s.job.value.done < STORES
      && s' == s.(links := Store(s.links, s.job.value.item, s.job.value.done),
                  job := Some(s.job.value.(done := s.job.value.done + 1)))
    case End =>
      && s.job.Some? && s.job.value.caller == s.current && s.job.value.done == STORES
      && s' == s.(links := s.links.(locked := false), job := None)
    case Suspend(t, on) => s' == s.(suspended := With(s.suspended, t, on))
    case SuspendProcess(p, on) => s' == s.(halted := With(s.halted, p, on))
  }

  // ------------------------------------------------------------ positions on the ring

  /** Turns from position i to position j, a whole round for i itself. */
  function Distance(n: nat, i: nat, j: nat): (d: nat)
    requires i < n && j < n
    ensures 1 <= d <= n && (d == n <==> i == j)
  {
    if j > i then j - i else j + n - i
  }

  function Ahead(n: nat, i: nat, k: nat): (p: nat)
    requires i < n && k <= n
    ensures p < n
  {
    if i + k < n then i + k else i + k - n
  }

  lemma {:induction false} WalkIs(next: map<nat, nat>, r: seq<nat>, i: nat, k: nat)
    requires Cycle(next, r) && i < |r| && k <= |r|
    ensures Walk(next, r[i], k) == r[Ahead(|r|, i, k)]
    decreases k
  {
    if k > 0 {
      WalkIs(next, r, i, k - 1);
      var p := Ahead(|r|, i, k - 1);
      assert Get(next, r[p]) == r[Succ(p, |r|)];
    }
  }

  lemma {:induction false} WalkStays(next: map<nat, nat>, r: seq<nat>, c: nat, k: nat)
    requires Cycle(next, r) && c in r
    ensures Walk(next, c, k) in r
    decreases k
  {
    if k > 0 {
      WalkStays(next, r, c, k - 1);
      var i: nat :| i < |r| && r[i] == Walk(next, c, k - 1);
      assert Get(next, r[i]) == r[Succ(i, |r|)];
    }
  }

  function Index(r: seq<nat>, t: nat): (i: nat)
    requires t in r
    ensures i < |r| && r[i] == t
  {
    if r[0] == t then 0 else 1 + Index(r[1..], t)
  }

  lemma IndexIs(r: seq<nat>, i: nat)
    requires Distinct(r) && i < |r|
    ensures Index(r, r[i]) == i
  {
  }

  lemma {:induction false} LeastTurn(s: State, m: nat) returns (n: nat)
    requires m >= 1 && Runnable(s, Walk(s.links.next, s.current, m))
    ensures n <= m && StopsAfter(s, n)
  {
    n := 1;
    while !Runnable(s, Walk(s.links.next, s.current, n))
      invariant 1 <= n <= m
      invariant forall k: nat :: 1 <= k < n ==> !Runnable(s, Walk(s.links.next, s.current, k))
      decreases m - n
    {
      n := n + 1;
    }
  }

  /** The selection loop ends exactly when some member of the ring is runnable, then within one
      round and at a member. */
  lemma SelectionStopsIff(s: State, r: seq<nat>)
    requires Cycle(s.links.next, r) && s.current in r
    ensures (exists n: nat :: StopsAfter(s, n)) <==> (exists t :: t in r && Runnable(s, t))
    ensures forall n: nat :: StopsAfter(s, n) ==> n <= |r| && Walk(s.links.next, s.current, n) in r
  {
    forall n: nat | StopsAfter(s, n)
      ensures Walk(s.links.next, s.current, n) in r
    {
      WalkStays(s.links.next, r, s.current, n);
    }
    forall t | t in r && Runnable(s, t)
      ensures exists n: nat :: StopsAfter(s, n)
      ensures forall n: nat :: StopsAfter(s, n) ==> n <= |r|
    {
      var d := Distance(|r|, Index(r, s.current), Index(r, t));
      WalkIs(s.links.next, r, Index(r, s.current), d);
      var n := LeastTurn(s, d);
    }
  }

  // ------------------------------------------------------------ the invariant

  /** The list as it was when the append under way began, and its members. */
  datatype Shadow = Shadow(rest: Links, members: seq<nat>)

  /** Whom the scheduler can reach. */
  function Ring(s: State, h: Shadow): seq<nat> {
    if s.job.None? then h.members else Reached(h.members, s.job.value.item, s.job.value.done)
  }

  ghost predicate Inv(s: State, h: Shadow) {
    && RingList(h.rest, h.members) && h.members != [] && s.current in Ring(s, h)
    && (s.job.None? ==> s.links == h.rest && !h.rest.locked)
    && (s.job.Some? ==>
          && s.job.value.item !in h.members && s.job.value.item != NO_ITEM && s.job.value.done <= STORES
          && s.job.value.item !in s.created && s.job.value.item in s.saved
          && h.rest.locked && s.links == Stores(h.rest, s.job.value.item, s.job.value.done))
    && (forall t :: t in h.members ==> (t in s.saved || t == s.current) && t !in s.created)
    && (forall t :: t in s.created ==> t in s.saved && t != NO_ITEM)
  }

  function ShadowNext(s: State, h: Shadow, e: Event): Shadow {
    match e
    case Begin(item) => h.(rest := h.rest.(locked := true))
    case End => if s.job.None? then h else Shadow(s.links.(locked := false), h.members + [s.job.value.item])
    case _ => h
  }

  /** Whatever the moment, the links reached from the running thread are one cycle of distinct
      threads whose saved state has been set. */
  lemma RingIsCycle(s: State, h: Shadow)
    requires Inv(s, h)
    ensures Cycle(s.links.next, Ring(s, h)) && s.current in Ring(s, h)
    ensures forall t :: t in Ring(s, h) ==> t in s.saved || t == s.current
  {
    if s.job.Some? {
      AppendIsInterruptible(h.rest, h.members, s.job.value.item, s.job.value.done);
    }
  }

  /** The ring changes at the fourth store only, where the new thread joins at its tail. */
  lemma RingGrowsAtTail(s: State, h: Shadow, e: Event, s': State)
    requires Inv(s, h) && Step(s, e, s')
    ensures Ring(s', ShadowNext(s, h, e)) ==
            if e.NextStore? && s.job.value.done == 3 then Ring(s, h) + [s.job.value.item] else Ring(s, h)
  {
  }

  /** The state init_multitasking leaves: the kernel thread alone on the ring and running, its
      state not saved yet. */
  lemma Boots(s: State)
    requires RingList(s.links, [s.current]) && !s.links.locked && s.job.None? && s.created == {}
    ensures Inv(s, Shadow(s.links, [s.current]))
  {
  }

  lemma StepKeepsInv(s: State, h: Shadow, e: Event, s': State)
    requires Inv(s, h) && Step(s, e, s')
    ensures Inv(s', ShadowNext(s, h, e))
  {
    match e {
      case Tick =>
        RingIsCycle(s, h);
        SelectionStopsIff(s, Ring(s, h));
      case NextStore => StoreKeepsInv(s, h, s');
      case End => EndKeepsInv(s, h, s');
      case _ =>
    }
  }

  lemma StoreKeepsInv(s: State, h: Shadow, s': State)
    requires Inv(s, h) && Step(s, NextStore, s')
    ensures Inv(s', h)
  {
    StoresNext(h.rest, s.job.value.item, s.job.value.done + 1);
  }

  lemma EndKeepsInv(s: State, h: Shadow, s': State)
    requires Inv(s, h) && Step(s, End, s')
    ensures Inv(s', ShadowNext(s, h, End))
  {
    AppendAdds(h.rest, h.members, s.job.value.item);
  }

  // ------------------------------------------------------------ runs

  ghost predicate Trace(ss: seq<State>, es: seq<Event>) {
    |ss| == |es| + 1 && forall k: nat :: k < |es| ==> Step(ss[k], es[k], ss[k+1])
  }

  function ShadowAt(ss: seq<State>, es: seq<Event>, h: Shadow, k: nat): Shadow
    requires |ss| == |es| + 1 && k <= |es|
    decreases k
  {
    if k == 0 then h else ShadowNext(ss[k-1], ShadowAt(ss, es, h, k - 1), es[k-1])
  }

  function RingAt(ss: seq<State>, es: seq<Event>, h: Shadow, k: nat): seq<nat>
    requires |ss| == |es| + 1 && k <= |es|
  {
    Ring(ss[k], ShadowAt(ss, es, h, k))
  }

  lemma TraceAt(ss: seq<State>, es: seq<Event>, h: Shadow, k: nat)
    requires Trace(ss, es) && 1 <= k <= |es|
    ensures |ss| == |es| + 1 && Step(ss[k-1], es[k-1], ss[k])
    ensures ShadowAt(ss, es, h, k) == ShadowNext(ss[k-1], ShadowAt(ss, es, h, k - 1), es[k-1])
  {
    assert Step(ss[k-1], es[k-1], ss[k-1+1]);
  }

  lemma ShadowStarts(ss: seq<State>, es: seq<Event>, h: Shadow)
    requires Trace(ss, es)
    ensures |ss| == |es| + 1 && ShadowAt(ss, es, h, 0) == h
  {
  }

  lemma {:induction false} InvOverRuns(ss: seq<State>, es: seq<Event>, h: Shadow, k: nat)
    requires Trace(ss, es) && Inv(ss[0], h) && k <= |es|
    ensures Inv(ss[k], ShadowAt(ss, es, h, k))
    decreases k
  {
    hide *;
    if k == 0 {
      ShadowStarts(ss, es, h);
    } else {
      InvOverRuns(ss, es, h, k - 1);
      TraceAt(ss, es, h, k);
      StepKeepsInv(ss[k-1], ShadowAt(ss, es, h, k - 1), es[k-1], ss[k]);
    }
  }

  /** At every moment of every run, a tick would end its selection loop if some member of the
      ring is runnable, at a member whose saved state has been set. */
  lemma TickIsSafe(ss: seq<State>, es: seq<Event>, h: Shadow, k: nat)
    requires Trace(ss, es) && Inv(ss[0], h) && k <= |es|
    ensures Cycle(ss[k].links.next, RingAt(ss, es, h, k)) && ss[k].current in RingAt(ss, es, h, k)
    ensures (exists n: nat :: StopsAfter(ss[k], n)) <==> (exists t :: t in RingAt(ss, es, h, k) && Runnable(ss[k], t))
    ensures forall n: nat :: StopsAfter(ss[k], n) ==>
              Walk(ss[k].links.next, ss[k].current, n) in RingAt(ss, es, h, k)
              && Walk(ss[k].links.next, ss[k].current, n) in ss[k].saved.Keys + {ss[k].current}
  {
    InvOverRuns(ss, es, h, k);
    RingIsCycle(ss[k], ShadowAt(ss, es, h, k));
    SelectionStopsIff(ss[k], RingAt(ss, es, h, k));
  }

  // ------------------------------------------------------------ context integrity

  /** What thread t must find when it runs next: its registers when it was last preempted, or
      those it was created with. */
  function Context(ss: seq<State>, es: seq<Event>, t: nat, k: nat): Option<Registers>
    requires |ss| == |es| + 1 && k <= |es|
    decreases k
  {
    if k == 0 then (if t in ss[0].saved then Some(ss[0].saved[t]) else None)
    else
      match es[k-1]
      case Tick => if ss[k-1].current == t then Some(ss[k-1].cpu) else Context(ss, es, t, k - 1)
      case Create(u, _, entry, top, kernel, _) =>
        if u == t then Some(FreshRegisters(entry, top, kernel)) else Context(ss, es, t, k - 1)
      case _ => Context(ss, es, t, k - 1)
  }

  /** Over every run, a thread's saved state is the context it must find; */
  lemma {:induction false} SavedIsContext(ss: seq<State>, es: seq<Event>, t: nat, k: nat)
    requires Trace(ss, es) && k <= |es|
    ensures Context(ss, es, t, k) == if t in ss[k].saved then Some(ss[k].saved[t]) else None
    decreases k
  {
    if k > 0 {
      SavedIsContext(ss, es, t, k - 1);
      assert Step(ss[k-1], es[k-1], ss[k-1+1]);
    }
  }

  /** and a dispatched thread has it in its registers. */
  lemma DispatchRestoresContext(ss: seq<State>, es: seq<Event>, h: Shadow, k: nat)
    requires Trace(ss, es) && Inv(ss[0], h) && k < |es| && es[k].Tick?
    ensures Context(ss, es, ss[k+1].current, k + 1) == Some(ss[k+1].cpu)
  {
    TickIsSafe(ss, es, h, k);
    SavedIsContext(ss, es, ss[k+1].current, k + 1);
    assert Step(ss[k], Tick, ss[k+1]);
    hide Inv, Context, Trace, Cycle, StopsAfter, RingAt;
  }

  /** The tick of event i preempts t, and no later event before k does. */
  ghost predicate LastPreempted(ss: seq<State>, es: seq<Event>, t: nat, i: nat, k: nat)
    requires |ss| == |es| + 1 && k <= |es|
  {
    && i < k && es[i].Tick? && ss[i].current == t
    && forall j: nat :: i < j < k ==> !(es[j].Tick? && ss[j].current == t)
  }

  ghost predicate NeverPreempted(ss: seq<State>, es: seq<Event>, t: nat, k: nat)
    requires |ss| == |es| + 1 && k <= |es|
  {
    forall j: nat :: j < k ==> !(es[j].Tick? && ss[j].current == t)
  }

  /** In a thread's saved state are the registers of the moment when it was last preempted; */
  lemma {:induction false} SavedAtPreemption(ss: seq<State>, es: seq<Event>, t: nat, i: nat, k: nat)
    requires Trace(ss, es) && k <= |es| && LastPreempted(ss, es, t, i, k)
    ensures t in ss[k].saved && ss[k].saved[t] == ss[i].cpu
    decreases k
  {
    assert Step(ss[k-1], es[k-1], ss[k-1+1]);
    if i < k - 1 {
      SavedAtPreemption(ss, es, t, i, k - 1);
    }
  }

  /** and before its first preemption, those it was created with, whenever that was. */
  lemma {:induction false} SavedAtCreation(ss: seq<State>, es: seq<Event>, t: nat, i: nat, k: nat)
    requires Trace(ss, es) && i < k <= |es| && es[i].Create? && es[i].thread == t && NeverPreempted(ss, es, t, k)
    ensures t in ss[k].saved && ss[k].saved[t].eip == es[i].entry && ss[k].saved[t].esp == es[i].stackTop
    ensures StartsAt(ss[k].saved[t], es[i].entry, es[i].stackTop, es[i].kernel)
    decreases k
  {
    assert Step(ss[k-1], es[k-1], ss[k-1+1]);
    if i < k - 1 {
      SavedAtCreation(ss, es, t, i, k - 1);
    }
  }

  /** So a dispatched thread finds in its registers what it had there when it was last preempted,
      in this very tick if it goes on, or what it was created with if it runs for the first time. */
  lemma DispatchResumes(ss: seq<State>, es: seq<Event>, h: Shadow, k: nat, i: nat)
    requires Trace(ss, es) && Inv(ss[0], h) && k < |es| && es[k].Tick?
    ensures LastPreempted(ss, es, ss[k+1].current, i, k + 1) ==> ss[k+1].cpu == ss[i].cpu
    ensures i < k && es[i].Create? && es[i].thread == ss[k+1].current &&
              NeverPreempted(ss, es, ss[k+1].current, k + 1) ==>
              && ss[k+1].cpu.eip == es[i].entry && ss[k+1].cpu.esp == es[i].stackTop
              && StartsAt(ss[k+1].cpu, es[i].entry, es[i].stackTop, es[i].kernel)
  {
    var t := ss[k+1].current;
    DispatchRestoresContext(ss, es, h, k);
    SavedIsContext(ss, es, t, k + 1);
    hide Inv, Context, Trace, LastPreempted, NeverPreempted;
    if LastPreempted(ss, es, t, i, k + 1) {
      SavedAtPreemption(ss, es, t, i, k + 1);
    } else if i < k && es[i].Create? && es[i].thread == t && NeverPreempted(ss, es, t, k + 1) {
      SavedAtCreation(ss, es, t, i, k + 1);
    }
  }

  // ------------------------------------------------------------ fairness

  /** Going round from c, y comes before x. */
  ghost predicate Before(r: seq<nat>, c: nat, y: nat, x: nat) {
    && c in r && y in r && x in r
    && Distance(|r|, Index(r, c), Index(r, y)) < Distance(|r|, Index(r, c), Index(r, x))
  }

  lemma Closer(n: nat, i: nat, j: nat, k: nat)
    requires i < n && j < n && k < Distance(n, i, j)
    ensures Distance(n, Ahead(n, i, k), j) == Distance(n, i, j) - k
  {
  }

  /** A tick does not pass a runnable thread by. */
  lemma TickDoesNotPass(s: State, r: seq<nat>, y: nat, x: nat, n: nat)
    requires Cycle(s.links.next, r) && Before(r, s.current, y, x) && Runnable(s, y) && StopsAfter(s, n)
    ensures var c := Walk(s.links.next, s.current, n); c == y || (c != x && Before(r, c, y, x))
  {
    var i, j, k := Index(r, s.current), Index(r, y), Index(r, x);
    var d := Distance(|r|, i, j);
    WalkIs(s.links.next, r, i, d);
    assert Ahead(|r|, i, d) == j;
    assert n <= d;
    WalkIs(s.links.next, r, i, n);
    var p := Ahead(|r|, i, n);
    IndexIs(r, p);
    if n < d {
      Closer(|r|, i, j, n);
      Closer(|r|, i, k, n);
    }
  }

  lemma GrowthKeepsOrder(r: seq<nat>, z: nat, c: nat, y: nat, x: nat)
    requires Before(r, c, y, x) && z !in r && Distinct(r)
    ensures Before(r + [z], c, y, x)
  {
    IndexGrows(r, z, c);
    IndexGrows(r, z, y);
    IndexGrows(r, z, x);
  }

  lemma IndexGrows(r: seq<nat>, z: nat, t: nat)
    requires t in r && z !in r && Distinct(r)
    ensures t in r + [z] && Index(r + [z], t) == Index(r, t)
  {
    var i := Index(r, t);
    assert (r + [z])[i] == t;
    IndexIs(r + [z], i);
  }

  lemma OrderKept(s: State, h: Shadow, e: Event, s': State, y: nat, x: nat)
    requires Inv(s, h) && Step(s, e, s') && Before(Ring(s, h), s.current, y, x) && Runnable(s, y)
    ensures var r' := Ring(s', ShadowNext(s, h, e));
            if e.Tick? then s'.current == y || (s'.current != x && Before(r', s'.current, y, x))
            else Before(r', s'.current, y, x)
  {
    hide Inv, Before, Cycle, Ring, ShadowNext, Distance;
    RingIsCycle(s, h);
    RingGrowsAtTail(s, h, e, s');
    if e.Tick? {
      var n: nat :| StopsAfter(s, n) && s' == Dispatched(s, Walk(s.links.next, s.current, n));
      TickDoesNotPass(s, Ring(s, h), y, x, n);
    } else if e.NextStore? && s.job.value.done == 3 {
      JoinerIsNew(s, h);
      GrowthKeepsOrder(Ring(s, h), s.job.value.item, s.current, y, x);
    }
  }

  lemma JoinerIsNew(s: State, h: Shadow)
    requires Inv(s, h) && s.job.Some? && s.job.value.done == 3
    ensures s.job.value.item !in Ring(s, h) && Distinct(Ring(s, h))
  {
  }

  /** Whoever waits ahead of x stays ahead until dispatched. */
  lemma {:induction false} WaitsAhead(ss: seq<State>, es: seq<Event>, h: Shadow, i: nat, j: nat, y: nat, x: nat)
    requires Trace(ss, es) && Inv(ss[0], h) && i <= j <= |es|
    requires Before(RingAt(ss, es, h, i), ss[i].current, y, x)
    requires forall k: nat :: i <= k < j ==> Runnable(ss[k], y)
    requires forall k: nat :: i <= k < j && es[k].Tick? ==> ss[k+1].current != y
    ensures Before(RingAt(ss, es, h, j), ss[j].current, y, x)
    ensures i < j && es[j-1].Tick? ==> ss[j].current != x
    decreases j
  {
    hide *;
    RingAtIs(ss, es, h, j);
    if i < j {
      WaitsAhead(ss, es, h, i, j - 1, y, x);
      InvOverRuns(ss, es, h, j - 1);
      TraceAt(ss, es, h, j);
      RingAtIs(ss, es, h, j - 1);
      OrderKept(ss[j-1], ShadowAt(ss, es, h, j - 1), es[j-1], ss[j], y, x);
      assert ss[j-1+1] == ss[j];
    }
  }

  /** Fairness over every run of ticks, appends and suspensions: between two dispatches of x,
      every other member of the ring that stays runnable is dispatched. */
  lemma Fairness(ss: seq<State>, es: seq<Event>, h: Shadow, i: nat, j: nat, x: nat, y: nat)
    requires Trace(ss, es) && Inv(ss[0], h) && i < j <= |es|
    requires ss[i].current == x && es[j-1].Tick? && ss[j].current == x
    requires y in RingAt(ss, es, h, i) && y != x && forall k: nat :: i <= k < j ==> Runnable(ss[k], y)
    ensures exists k: nat :: i <= k < j - 1 && es[k].Tick? && ss[k+1].current == y
  {
    hide *;
    InvOverRuns(ss, es, h, i);
    RingAtIs(ss, es, h, i);
    RingIsCycle(ss[i], ShadowAt(ss, es, h, i));
    JustDispatched(RingAt(ss, es, h, i), x, y);
    if forall k: nat :: i <= k < j && es[k].Tick? ==> ss[k+1].current != y {
      WaitsAhead(ss, es, h, i, j, y, x);
    } else {
      var k: nat :| i <= k < j && es[k].Tick? && ss[k+1].current == y;
      assert k != j - 1;
    }
  }

  lemma RingAtIs(ss: seq<State>, es: seq<Event>, h: Shadow, k: nat)
    requires Trace(ss, es) && k <= |es|
    ensures |ss| == |es| + 1 && RingAt(ss, es, h, k) == Ring(ss[k], ShadowAt(ss, es, h, k))
  {
  }

  /** A thread just dispatched comes after all the others. */
  lemma JustDispatched(r: seq<nat>, x: nat, y: nat)
    requires x in r && y in r && x != y
    ensures Before(r, x, y, x)
  {
  }

  lemma PassedOver(s: State, n: nat)
    requires StopsAfter(s, n)
    ensures n >= 1 && forall k: nat :: 1 <= k < n ==>
              Walk(s.links.next, s.current, k) in s.suspended ||
              Get(s.process, Walk(s.links.next, s.current, k)) in s.halted
  {
    forall k: nat | 1 <= k < n
      ensures Walk(s.links.next, s.current, k) in s.suspended ||
              Get(s.process, Walk(s.links.next, s.current, k)) in s.halted
    {
      assert !Runnable(s, Walk(s.links.next, s.current, k));
    }
  }

  // ------------------------------------------------------------ the code

  class Kernel {
    var links: Links
    var suspended: set<nat>
    var halted: set<nat>
    var process: map<nat, nat>
    var saved: map<nat, Registers>
    var current: nat
    ghost var job: Option<Job>
    ghost var created: set<nat>

    constructor (s: State)
      ensures Snapshot(s.cpu) == s
    {
      links, suspended, halted, process, saved, current := s.links, s.suspended, s.halted, s.process, s.saved,
          s.current;
      job, created := s.job, s.created;
    }

    /** The state while the processor holds `cpu`. */
    ghost function Snapshot(cpu: Registers): State
      reads this
    {
      State(links, job, created, suspended, halted, process, saved, cpu, current)
    }

    /** switch_task on the interrupted registers. It needs some runnable thread in reach, or it
        would not return. */
    method SwitchTask(regs: Registers) returns (regs': Registers)
      requires exists n: nat :: StopsAfter(Snapshot(regs), n)
      modifies this`saved, this`current
      ensures Step(old(Snapshot(regs)), Tick, Snapshot(regs'))
      ensures current !in suspended && Get(process, current) !in halted
      ensures exists n: nat :: n >= 1 && current == Walk(links.next, old(current), n) &&
                forall k: nat :: 1 <= k < n ==>
                  Walk(links.next, old(current), k) in suspended ||
                  Get(process, Walk(links.next, old(current), k)) in halted
      ensures saved == old(saved)[old(current) := regs] && (current in saved ==> regs' == saved[current])
    {
      ghost var s := Snapshot(regs);
      ghost var m: nat :| StopsAfter(s, m);
      saved := saved[current := regs];
      current := Get(links.next, current);
      ghost var n := 1;
      assert current == Walk(links.next, s.current, 0 + 1);
      while current in suspended || Get(process, current) in halted
        invariant 1 <= n <= m && current == Walk(links.next, s.current, n) && saved == s.saved[s.current := regs]
        invariant forall k: nat :: 1 <= k < n ==> !Runnable(s, Walk(links.next, s.current, k))
        decreases m - n
      {
        assert !Runnable(s, current);
        current := Get(links.next, current);
        n := n + 1;
      }
      assert StopsAfter(s, n);
      regs' := Recall(saved, current, regs);
      assert Snapshot(regs') == Dispatched(s, Walk(s.links.next, s.current, n));
      PassedOver(s, n);
    }

    /** create_thread up to its list_append, for a thread in a fresh page. */
    method CreateThread(thread: nat, owner: nat, entry: nat, stackBase: nat, stackSize: nat, kernel: bool,
                        asleep: bool, cpu: Registers)
      requires thread != NO_ITEM && thread !in saved && thread != current && thread !in links.listed
      modifies this`process, this`suspended, this`saved, this`created
      ensures Step(old(Snapshot(cpu)), Create(thread, owner, entry, stackBase + stackSize, kernel, asleep),
                Snapshot(cpu))
      ensures thread in saved && StartsAt(saved[thread], entry, stackBase + stackSize, kernel)
      ensures saved[thread].eip == entry && saved[thread].esp == stackBase + stackSize
      ensures thread in process && process[thread] == owner && (thread in suspended <==> asleep)
      ensures forall t :: t != thread ==>
                && (t in suspended <==> t in old(suspended)) && Get(process, t) == old(Get(process, t))
                && (t in saved <==> t in old(saved)) && (t in saved ==> saved[t] == old(saved)[t])
    {
      process := process[thread := owner];
      suspended := With(suspended, thread, asleep);
      var state := Registers(0, 0, 0, 0, 0, 0, 0, 0, 0, 0, 0, 0, 0, 0, 0, 0);
      var dataSelector, codeSelector := if kernel then 16 else 35, if kernel then 8 else 27;
      state := state.(eflags := 0x202).(cs := codeSelector).(eip := entry).(ss := dataSelector).(esp := stackBase +
          stackSize);
      state := state.(ds := dataSelector).(es := dataSelector).(fs := dataSelector).(gs := dataSelector);
      saved := saved[thread := state];
      created := created + {thread};
    }
  }
}
