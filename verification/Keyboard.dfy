/** The scan code ring of tty.c: the keyboard interrupt may come between any two steps of
    in_scancode. */
module Keyboard {

  type Code = c: int | 0 <= c < 256

  /** KEY_BUFFER_SIZE */
  const SIZE: nat := 16

  // ------------------------------------------------------------ indices

  /** The tail for u unread codes. Both indices run over 0..SIZE and wrap when next used. */
  function TailFor(head: nat, u: nat): int {
    if head + u <= SIZE then head + u else head + u - SIZE
  }

  /** The slot of the i-th unread code. */
  function Slot(head: nat, i: nat): int {
    if head + i < SIZE then head + i else head + i - SIZE
  }

  function AfterKey(tail: nat): nat {
    if tail >= SIZE then 1 else tail + 1
  }

  /** The unread codes, oldest first, in the ring. */
  ghost predicate Holds(buffer: seq<Code>, head: nat, tail: nat, unread: seq<Code>) {
    && |buffer| == SIZE && head <= SIZE && |unread| <= SIZE && tail == TailFor(head, |unread|)
    && forall i: nat :: i < |unread| ==> buffer[Slot(head, i)] == unread[i]
  }

  lemma KeyHolds(buffer: seq<Code>, head: nat, tail: nat, unread: seq<Code>, code: Code)
    requires Holds(buffer, head, tail, unread) && |unread| < SIZE
    ensures AfterKey(tail) - 1 < |buffer|
    ensures Holds(buffer[AfterKey(tail) - 1 := code], head, AfterKey(tail), unread + [code])
  {
    assert AfterKey(tail) - 1 == Slot(head, |unread|);
  }

  /** A code that finds every slot unread takes the place of the oldest, and then it is the only
      one that can be seen. */
  lemma OverrunForgets(buffer: seq<Code>, head: nat, tail: nat, unread: seq<Code>, code: Code)
    requires Holds(buffer, head, tail, unread) && |unread| == SIZE
    ensures AfterKey(tail) - 1 < |buffer|
    ensures Holds(buffer[AfterKey(tail) - 1 := code], head, AfterKey(tail), [code])
  {
    assert AfterKey(tail) - 1 == Slot(head, 0);
  }

  /** Wrapping the head changes nothing as long as something is unread. */
  lemma WrapHolds(buffer: seq<Code>, tail: nat, unread: seq<Code>)
    requires Holds(buffer, SIZE, tail, unread) && unread != []
    ensures Holds(buffer, 0, tail, unread)
  {
    forall i: nat | i < |unread|
      ensures buffer[Slot(0, i)] == unread[i]
    {
      assert Slot(0, i) == Slot(SIZE, i);
    }
  }

  lemma TakeHolds(buffer: seq<Code>, head: nat, tail: nat, unread: seq<Code>)
    requires Holds(buffer, head, tail, unread) && unread != [] && head < SIZE
    ensures buffer[head] == unread[0] && Holds(buffer, head + 1, tail, unread[1..])
  {
    assert buffer[Slot(head, 0)] == unread[0];
    forall i: nat | i < |unread| - 1
      ensures buffer[Slot(head + 1, i)] == unread[1..][i]
    {
      assert Slot(head + 1, i) == Slot(head, i + 1);
    }
  }

  /** The ring looks empty exactly when nothing is unread, or when it is full and a code has
      been taken before. */
  lemma LooksEmptyIff(buffer: seq<Code>, head: nat, tail: nat, unread: seq<Code>)
    requires Holds(buffer, head, tail, unread)
    ensures head == tail <==> unread == [] || (|unread| == SIZE && head != 0)
  {
    assert unread == [] <==> |unread| == 0;
  }

  // ------------------------------------------------------------ interleavings

  /** Where the consumer is in in_scancode. */
  datatype Pc = Idle | Check | Read | Advance

  /** `sent` are the codes of all interrupts so far and `got` those in_scancode has taken out. */
  datatype State = State(head: nat, tail: nat, buffer: seq<Code>, pc: Pc, result: Code, sent: seq<Code>, got: seq<Code>)

  datatype Event = Key(code: Code) | Consume

  /** keyboard_interrupt */
  function Interrupt(s: State, code: Code): State
    requires |s.buffer| == SIZE
  {
    var tail := AfterKey(s.tail);
    if tail - 1 < SIZE then s.(tail := tail, buffer := s.buffer[tail - 1 := code], sent := s.sent + [code])
    else s
  }

  /** One step of in_scancode: the test, the wrap, the read, the increment. */
  ghost predicate Consumes(s: State, s': State) {
    match s.pc
    case Idle => s' == if s.head != s.tail then s.(pc := Check) else s.(result := 0)
    case Check => s' == if s.head >= SIZE then s.(head := 0, pc := Read) else s.(pc := Read)
    case Read => s.head < |s.buffer| && s' == s.(result := s.buffer[s.head], pc := Advance)
    case Advance => s' == s.(head := s.head + 1, got := s.got + [s.result], pc := Idle)
  }

  ghost predicate Step(s: State, e: Event, s': State) {
    |s.buffer| == SIZE && match e case Key(code) => s' == Interrupt(s, code) case Consume => Consumes(s, s')
  }

  ghost predicate Inv(s: State) {
    && |s.got| <= |s.sent| && s.got == s.sent[..|s.got|]
    && Holds(s.buffer, s.head, s.tail, s.sent[|s.got|..])
    && (s.pc != Idle ==> |s.got| < |s.sent|)
    && (s.pc == Read || s.pc == Advance ==> s.head < SIZE)
    && (s.pc == Advance ==> s.result == s.sent[|s.got|])
  }

  lemma StepKeepsInv(s: State, e: Event, s': State)
    requires Inv(s) && Step(s, e, s') && |s'.sent| - |s'.got| <= SIZE
    ensures Inv(s')
  {
    hide Holds;
    var unread := s.sent[|s.got|..];
    match e {
      case Key(code) =>
        HoldsParts(s);
        assert s'.sent[|s.got|..] == unread + [code] by { KeyNext(s, code, s'); }
        KeyHolds(s.buffer, s.head, s.tail, unread, code);
      case Consume => ConsumeKeepsInv(s, s');
    }
  }

  lemma KeyNext(s: State, code: Code, s': State)
    requires Inv(s) && Step(s, Key(code), s')
    ensures s'.sent == s.sent + [code] && s'.got == s.got && s'.sent[|s.got|..] == s.sent[|s.got|..] + [code]
    ensures s'.head == s.head && s'.tail == AfterKey(s.tail) && s'.pc == s.pc && s'.result == s.result
    ensures AfterKey(s.tail) - 1 < |s.buffer| && s'.buffer == s.buffer[AfterKey(s.tail) - 1 := code]
  {
  }

  lemma HoldsParts(s: State)
    requires Inv(s)
    ensures s.head <= SIZE && |s.buffer| == SIZE && |s.sent| - |s.got| <= SIZE
  {
  }

  lemma ConsumeKeepsInv(s: State, s': State)
    requires Inv(s) && Step(s, Consume, s')
    ensures Inv(s')
  {
    hide Holds;
    var unread := s.sent[|s.got|..];
    HoldsParts(s);
    match s.pc {
      case Idle =>
        LooksEmptyIff(s.buffer, s.head, s.tail, unread);
      case Check =>
        if s.head == SIZE { WrapHolds(s.buffer, s.tail, unread); }
      case Read =>
        TakeHolds(s.buffer, s.head, s.tail, unread);
      case Advance =>
        TakeHolds(s.buffer, s.head, s.tail, unread);
        assert unread[1..] == s.sent[|s.got| + 1..];
        assert s.sent[..|s.got| + 1] == s.got + [s.result];
    }
  }

  /** A run in which there are never more unread codes than slots. */
  ghost predicate Trace(ss: seq<State>, es: seq<Event>) {
    && |ss| == |es| + 1
    && (forall k: nat :: k < |es| ==> Step(ss[k], es[k], ss[k+1]))
    && forall k: nat :: k < |ss| ==> |ss[k].sent| - |ss[k].got| <= SIZE
  }

  ghost predicate Initial(s: State) {
    s.head == 0 && s.tail == 0 && |s.buffer| == SIZE && s.pc == Idle && s.sent == [] && s.got == []
  }

  lemma {:induction false} InvOverRuns(ss: seq<State>, es: seq<Event>, k: nat)
    requires Trace(ss, es) && Initial(ss[0]) && k <= |es|
    ensures Inv(ss[k])
    decreases k
  {
    if k > 0 {
      InvOverRuns(ss, es, k - 1);
      assert Step(ss[k-1], es[k-1], ss[k-1+1]);
      StepKeepsInv(ss[k-1], es[k-1], ss[k]);
    }
  }

  /** Whatever the interleaving, in_scancode takes the codes out in the order they came in, each
      once; and it reports an empty ring only when nothing is unread, or all SIZE codes are. So
      up to 15 unread codes the ring is a queue. */
  lemma RefinesQueue(ss: seq<State>, es: seq<Event>, k: nat)
    requires Trace(ss, es) && Initial(ss[0]) && k <= |es|
    ensures ss[k].got <= ss[k].sent && ss[k].tail <= SIZE && ss[k].head <= SIZE
    ensures k < |es| && es[k].Consume? && ss[k].pc == Idle ==>
              && (ss[k+1].pc == Idle <==>
                    ss[k].got == ss[k].sent || (|ss[k].sent| - |ss[k].got| == 16 && ss[k].head != 0))
              && (ss[k+1].pc == Idle ==> ss[k+1].result == 0) && ss[k+1].got == ss[k].got
    ensures k < |es| && es[k].Consume? && ss[k].pc == Advance ==>
              && |ss[k].got| < |ss[k].sent| && ss[k+1].got == ss[k].got + [ss[k].sent[|ss[k].got|]]
              && ss[k+1].pc == Idle && ss[k+1].result == ss[k].sent[|ss[k].got|]
    ensures k < |es| && es[k].Key? ==> ss[k+1].sent == ss[k].sent + [es[k].code] && ss[k+1].got == ss[k].got
  {
    InvOverRuns(ss, es, k);
    var s := ss[k];
    LooksEmptyIff(s.buffer, s.head, s.tail, s.sent[|s.got|..]);
    if k < |es| { assert Step(ss[k], es[k], ss[k+1]); }
  }

  // ------------------------------------------------------------ the code

  class KeyRing {
    const keyBuffer: array<Code>
    var head: nat
    var tail: nat
    ghost var unread: seq<Code>

    ghost predicate Valid()
      reads this, keyBuffer
    {
      keyBuffer.Length == SIZE && Holds(keyBuffer[..], head, tail, unread)
    }

    constructor ()
      ensures Valid() && unread == [] && head == 0 && fresh(keyBuffer) && keyBuffer.Length == 16
    {
      keyBuffer := new Code[SIZE](_ => 0);
      head, tail, unread := 0, 0, [];
    }

    /** The code joins the unread ones, or replaces all of them when every slot is unread. */
    method KeyboardInterrupt(code: Code)
      requires Valid()
      modifies this`tail, this`unread, keyBuffer
      ensures Valid() && unread == if |old(unread)| < SIZE then old(unread) + [code] else [code]
    {
      if |unread| < SIZE {
        KeyHolds(keyBuffer[..], head, tail, unread, code);
      } else {
        OverrunForgets(keyBuffer[..], head, tail, unread, code);
      }
      ghost var before := keyBuffer[..];
      if tail >= SIZE {
        tail := 0;
      }
      tail := tail + 1;
      keyBuffer[tail - 1] := code;
      assert keyBuffer[..] == before[tail - 1 := code];
      unread := if |unread| < SIZE then unread + [code] else [code];
    }

    method InScancode() returns (result: Code)
      requires Valid()
      modifies this`head, this`unread
      ensures Valid()
      ensures old(unread) == [] || (|old(unread)| == SIZE && old(head) != 0) ==> result == 0 && unread == old(unread)
      ensures !(old(unread) == [] || (|old(unread)| == SIZE && old(head) != 0)) ==> old(unread) == [result] + unread
    {
      LooksEmptyIff(keyBuffer[..], head, tail, unread);
      if head != tail {
        if head >= SIZE {
          WrapHolds(keyBuffer[..], tail, unread);
          head := 0;
        }
        TakeHolds(keyBuffer[..], head, tail, unread);
        result := keyBuffer[head];
        head := head + 1;
        unread := unread[1..];
      } else {
        result := 0;
      }
    }
  }
}
