/**
 The compare-and-swap reference count under every interleaving of any number of threads, against
 the same two operations done under one lock.
 */
module Refcount {
  import opened Bits

  const MAX: U32 := 0xFFFF_FFFF

  datatype Op = Inc | Dec

  /** What an operation hands back: nothing, or whether the count reached zero. */
  datatype Result = Nothing | IsZero(zero: bool)

  // ----- the operations under a lock -----

  datatype Atomic = Stepped(count: U32, result: Result) | Aborted

  function Locked(op: Op, count: U32): Atomic {
    match op
    case Inc => Stepped(if count < MAX then count + 1 else count, Nothing)
    case Dec =>
      if count == 0 then Aborted
      else
        var after := if count < MAX then count - 1 else count;
        Stepped(after, IsZero(after == 0))
  }

  class LockedCount {
    var count: U32

    constructor (initial: U32)
      ensures count == initial
    {
      count := initial;
    }

    method Increment()
      modifies this
      ensures Stepped(count, Nothing) == Locked(Inc, old(count))
    {
      if count < MAX {
        count := count + 1;
      }
    }

    method DecrementAndTestZero() returns (aborted: bool, zero: bool)
      modifies this
      ensures (if aborted then Aborted else Stepped(count, IsZero(zero))) == Locked(Dec, old(count))
      ensures aborted ==> count == old(count)
    {
      if count == 0 {
        return true, false;
      }
      if count < MAX {
        count := count - 1;
      }
      return false, count == 0;
    }
  }

  // ----- the compare-and-swap loops, one atomic action per step -----

  /** Where a thread is in an operation. A value that was read is checked, then tried, then returned. */
  datatype PC =
    | Idle
    | Loading(op: Op)
    | Checking(op: Op, expected: U32)
    | Trying(op: Op, expected: U32)
    | Returning(result: Result)
    | Crashed

  /** A thread, and the references it holds. */
  datatype Thread = Thread(pc: PC, held: nat)

  /** The shared count, the threads, and how many decrements have returned one. */
  datatype Config = Config(count: U32, threads: seq<Thread>, ones: nat)

  datatype Action =
    | Call(op: Op)
    | Load
    | Check
    | SwapOk
    | SwapFails
    | Return
    | Give(receiver: nat)

  /** The value read is one on which the loop does not try to swap. */
  predicate Decisive(op: Op, v: U32) {
    v == MAX || (op == Dec && v == 0)
  }

  function At(c: Config, t: nat, pc: PC): Config
    requires t < |c.threads|
  {
    c.(threads := c.threads[t := c.threads[t].(pc := pc)])
  }

  function Swapped(op: Op, expected: U32): U32
    requires !Decisive(op, expected)
  {
    if op == Inc then expected + 1 else expected - 1
  }

  /** Whether thread t can do the action. With discipline, only holders of a reference call. */
  predicate Enabled(c: Config, t: nat, a: Action, disciplined: bool) {
    && t < |c.threads|
    && var pc := c.threads[t].pc;
       match a
       case Call(_) => pc.Idle? && (disciplined ==> c.threads[t].held >= 1)
       case Load => pc.Loading?
       case Check => pc.Checking?
       case SwapOk => pc.Trying? && !Decisive(pc.op, pc.expected) && c.count == pc.expected
       case SwapFails => pc.Trying?
       case Return => pc.Returning?
       case Give(u) => pc.Idle? && u < |c.threads| && u != t && c.threads[t].held >= 1
  }

  /** A weak compare-and-swap may fail even when the count is as expected; failing reads it again. */
  function Do(c: Config, t: nat, a: Action): Config
    requires Enabled(c, t, a, false)
  {
    var pc, held := c.threads[t].pc, c.threads[t].held;
    match a
    case Call(op) =>
      c.(threads := c.threads[t := Thread(Loading(op), if op == Dec && held > 0 then held - 1 else held)])
    case Load => At(c, t, Checking(pc.op, c.count))
    case Check =>
      if !Decisive(pc.op, pc.expected) then At(c, t, Trying(pc.op, pc.expected))
      else if pc.expected == 0 then At(c, t, Crashed)
      else At(c, t, Returning(if pc.op == Inc then Nothing else IsZero(false)))
    case SwapOk =>
      var after := Swapped(pc.op, pc.expected);
      At(c, t, Returning(if pc.op == Inc then Nothing else IsZero(after == 0))).(count := after)
    case SwapFails => At(c, t, Checking(pc.op, c.count))
    case Return =>
      c.(threads := c.threads[t := Thread(Idle, if pc.result == Nothing then held + 1 else held)],
         ones := c.ones + if pc.result == IsZero(true) then 1 else 0)
    case Give(u) =>
      c.(threads := c.threads[t := Thread(Idle, held - 1)][u := c.threads[u].(held := c.threads[u].held + 1)])
  }

  datatype Move = Move(t: nat, a: Action)

  /** A run is a sequence of moves of arbitrary threads. */
  predicate Runs(c: Config, moves: seq<Move>, c': Config, disciplined: bool)
    decreases |moves|
  {
    if moves == [] then c' == c
    else
      && Enabled(c, moves[0].t, moves[0].a, disciplined)
      && Enabled(c, moves[0].t, moves[0].a, false)
      && Runs(Do(c, moves[0].t, moves[0].a), moves[1..], c', disciplined)
  }

  /** How many swaps of the operation succeed in a run. */
  function Swaps(c: Config, moves: seq<Move>, c': Config, op: Op): nat
    requires Runs(c, moves, c', false)
    decreases |moves|
  {
    if moves == [] then 0
    else
      var t, a := moves[0].t, moves[0].a;
      Swaps(Do(c, t, a), moves[1..], c', op) + if a.SwapOk? && c.threads[t].pc.op == op then 1 else 0
  }

  /**
   Over every run the count is, as a number, where it started plus the increments that swapped minus
   the decrements that did: it never wraps, and nothing but a swap changes it.
   */
  lemma {:induction false} CountIsSwaps(c: Config, moves: seq<Move>, c': Config)
    requires Runs(c, moves, c', false)
    ensures c'.count - c.count == Swaps(c, moves, c', Inc) - Swaps(c, moves, c', Dec)
    decreases |moves|
  {
    if moves != [] {
      CountIsSwaps(Do(c, moves[0].t, moves[0].a), moves[1..], c');
    }
  }

  // ----- the specification machine: calls, atomic locked operations, returns -----

  datatype SpecPC = SpecIdle | Pending(op: Op) | Completed(result: Result) | SpecCrashed

  datatype Spec = Spec(count: U32, pcs: seq<SpecPC>)

  /** One step of the specification, or none. */
  predicate SpecStep(s: Spec, s': Spec, t: nat) {
    s' == s
    || (&& t < |s.pcs|
        && match s.pcs[t]
           case SpecIdle => s'.count == s.count && exists op: Op :: s'.pcs == s.pcs[t := Pending(op)]
           case Pending(op) =>
             (match Locked(op, s.count)
              case Aborted => s' == s.(pcs := s.pcs[t := SpecCrashed])
              case Stepped(count, result) => s' == Spec(count, s.pcs[t := Completed(result)]))
           case Completed(_) => s' == s.(pcs := s.pcs[t := SpecIdle])
           case SpecCrashed => false)
  }

  /**
   What a thread's position means to the specification: an operation takes effect when it swaps, or
   when it reads a value on which it will not swap.
   */
  function Meaning(pc: PC): SpecPC {
    match pc
    case Idle => SpecIdle
    case Loading(op) => Pending(op)
    case Checking(op, v) =>
      if !Decisive(op, v) then Pending(op)
      else if v == 0 then SpecCrashed
      else Completed(if op == Inc then Nothing else IsZero(false))
    case Trying(op, _) => Pending(op)
    case Returning(result) => Completed(result)
    case Crashed => SpecCrashed
  }

  function Abstract(c: Config): Spec {
    Spec(c.count, seq(|c.threads|, i requires 0 <= i < |c.threads| => Meaning(c.threads[i].pc)))
  }

  /** Tried values are ones to swap on. */
  predicate Sane(c: Config) {
    forall i :: 0 <= i < |c.threads| && c.threads[i].pc.Trying? ==>
      !Decisive(c.threads[i].pc.op, c.threads[i].pc.expected)
  }

  /** Every move is one atomic locked operation, a call, a return, or invisible. */
  lemma MoveRefines(c: Config, t: nat, a: Action)
    requires Enabled(c, t, a, false) && Sane(c)
    ensures Sane(Do(c, t, a))
    ensures SpecStep(Abstract(c), Abstract(Do(c, t, a)), t)
  {
    var c' := Do(c, t, a);
    var s, s' := Abstract(c), Abstract(c');
    if a.Give? {
      assert s'.pcs == s.pcs;
    } else {
      assert s'.pcs == s.pcs[t := Meaning(c'.threads[t].pc)];
      if a.Call? {
        assert s'.pcs == s.pcs[t := Pending(a.op)];
      }
    }
  }

  /** A run of the specification machine that passes through the given states. */
  predicate SpecRuns(states: seq<Spec>, movers: seq<nat>) {
    |states| == |movers| + 1 && forall i :: 0 <= i < |movers| ==> SpecStep(states[i], states[i + 1], movers[i])
  }

  function Movers(moves: seq<Move>): (r: seq<nat>)
    ensures |r| == |moves|
  {
    if moves == [] then [] else [moves[0].t] + Movers(moves[1..])
  }

  function Trail(c: Config, moves: seq<Move>, c': Config): (r: seq<Spec>)
    requires Runs(c, moves, c', false)
    ensures |r| == |moves| + 1 && r[0] == Abstract(c) && r[|moves|] == Abstract(c')
    decreases |moves|
  {
    if moves == [] then [Abstract(c)]
    else [Abstract(c)] + Trail(Do(c, moves[0].t, moves[0].a), moves[1..], c')
  }

  /**
   Every interleaving, with spurious failures, is a run of the locked machine: each operation takes
   effect atomically between its call and its return, with the locked operation's result.
   */
  lemma {:induction false} RunRefines(c: Config, moves: seq<Move>, c': Config)
    requires Sane(c) && Runs(c, moves, c', false)
    ensures Sane(c') && SpecRuns(Trail(c, moves, c'), Movers(moves))
    decreases |moves|
  {
    hide Do, Enabled, SpecStep, Sane;
    if moves != [] {
      MoveRefines(c, moves[0].t, moves[0].a);
      var next := Do(c, moves[0].t, moves[0].a);
      RunRefines(next, moves[1..], c');
      var rest, states, movers := Trail(next, moves[1..], c'), Trail(c, moves, c'), Movers(moves);
      forall i | 0 <= i < |movers|
        ensures SpecStep(states[i], states[i + 1], movers[i])
      {
        if i > 0 {
          assert states[i] == rest[i - 1] && states[i + 1] == rest[i] && movers[i] == Movers(moves[1..])[i - 1];
        }
      }
    }
  }

  /** The count never wraps and the maximum is never left, in any run. */
  lemma {:induction false} MaximumIsSticky(c: Config, moves: seq<Move>, c': Config)
    requires Runs(c, moves, c', false) && c.count == 0xFFFF_FFFF
    ensures c'.count == 0xFFFF_FFFF
    decreases |moves|
  {
    if moves != [] {
      MaximumIsSticky(Do(c, moves[0].t, moves[0].a), moves[1..], c');
    }
  }

  // ----- counting references -----

  /** References a thread accounts for: those it holds, one it is giving up, one it has just made. */
  function Weight(th: Thread): nat {
    th.held + match th.pc
              case Idle => 0
              case Loading(op) => if op == Dec then 1 else 0
              case Checking(op, _) => if op == Dec then 1 else 0
              case Trying(op, _) => if op == Dec then 1 else 0
              case Returning(result) => if result == Nothing then 1 else 0
              case Crashed => 0
  }

  function Total(ths: seq<Thread>): nat {
    if ths == [] then 0 else Weight(ths[0]) + Total(ths[1..])
  }

  lemma {:induction false} TotalUpdate(ths: seq<Thread>, t: nat, th: Thread)
    requires t < |ths|
    ensures Total(ths[t := th]) == Total(ths) - Weight(ths[t]) + Weight(th)
    ensures Weight(ths[t]) <= Total(ths)
  {
    if t == 0 {
      assert ths[t := th][1..] == ths[1..];
    } else {
      assert ths[t := th][1..] == ths[1..][t - 1 := th];
      TotalUpdate(ths[1..], t - 1, th);
    }
  }

  lemma {:induction false} TotalZero(ths: seq<Thread>, t: nat)
    requires t < |ths|
    ensures Total(ths) == 0 ==> Weight(ths[t]) == 0
  {
    TotalUpdate(ths, t, ths[t]);
  }

  /** A thread making a reference holds one meanwhile; no thread is about to find the count at zero. */
  predicate ThreadOk(c: Config, th: Thread) {
    match th.pc
    case Idle => true
    case Loading(op) => op == Inc ==> th.held >= 1
    case Checking(op, v) => (op == Inc ==> th.held >= 1) && v > 0 && (v == MAX ==> c.count == MAX)
    case Trying(op, v) => (op == Inc ==> th.held >= 1) && !Decisive(op, v)
    case Returning(result) => result == IsZero(true) ==> c.count == 0
    case Crashed => false
  }

  function Zeroing(th: Thread): nat {
    if th.pc == Returning(IsZero(true)) then 1 else 0
  }

  function ZeroingTotal(ths: seq<Thread>): nat {
    if ths == [] then 0 else Zeroing(ths[0]) + ZeroingTotal(ths[1..])
  }

  lemma {:induction false} ZeroingUpdate(ths: seq<Thread>, t: nat, th: Thread)
    requires t < |ths|
    ensures ZeroingTotal(ths[t := th]) == ZeroingTotal(ths) - Zeroing(ths[t]) + Zeroing(th)
    ensures Zeroing(ths[t]) <= ZeroingTotal(ths)
  {
    if t == 0 {
      assert ths[t := th][1..] == ths[1..];
    } else {
      assert ths[t := th][1..] == ths[1..][t - 1 := th];
      ZeroingUpdate(ths[1..], t - 1, th);
    }
  }

  /**
   Unless it is stuck at the maximum, the count is the number of references; decrements that return
   one, whether they have returned or are about to, are one when the count is zero and none before.
   */
  predicate Counted(c: Config) {
    && (c.count == MAX || c.count == Total(c.threads))
    && (forall i :: 0 <= i < |c.threads| ==> ThreadOk(c, c.threads[i]))
    && c.ones + ZeroingTotal(c.threads) <= 1
    && (c.ones + ZeroingTotal(c.threads) == 1 <==> c.count == 0)
  }

  /** Only these moves change the count or what the threads are about to report. */
  lemma MoveTotals(c: Config, t: nat, a: Action)
    requires Enabled(c, t, a, true) && Enabled(c, t, a, false)
    ensures var c', th := Do(c, t, a), c.threads[t];
            var th' := c'.threads[t];
            && |c'.threads| == |c.threads|
            && Weight(th) <= Total(c.threads)
            && Total(c'.threads) == Total(c.threads) + (if a.Give? then 0 else Weight(th') - Weight(th))
            && ZeroingTotal(c'.threads) == ZeroingTotal(c.threads) + Zeroing(th') - Zeroing(th)
  {
    hide Weight, Total, ZeroingTotal;
    var c' := Do(c, t, a);
    TotalUpdate(c.threads, t, c'.threads[t]);
    ZeroingUpdate(c.threads, t, c'.threads[t]);
    if a.Give? {
      GiveTotals(c, t, a.receiver);
    }
  }

  lemma GiveTotals(c: Config, t: nat, u: nat)
    requires Enabled(c, t, Give(u), false)
    ensures var c' := Do(c, t, Give(u));
            && Total(c'.threads) == Total(c.threads)
            && ZeroingTotal(c'.threads) == ZeroingTotal(c.threads)
            && Zeroing(c'.threads[t]) == Zeroing(c.threads[t])
  {
    hide Total, ZeroingTotal;
    var mid := c.threads[t := Thread(Idle, c.threads[t].held - 1)];
    var last := c.threads[u].(held := c.threads[u].held + 1);
    TotalUpdate(c.threads, t, mid[t]);
    TotalUpdate(mid, u, last);
    ZeroingUpdate(c.threads, t, mid[t]);
    ZeroingUpdate(mid, u, last);
  }

  /** A thread that does not move stays in order. */
  lemma BystanderOk(c: Config, t: nat, a: Action, i: nat)
    requires Enabled(c, t, a, true) && Enabled(c, t, a, false) && Counted(c)
    requires i < |c.threads| && i != t
    ensures ThreadOk(Do(c, t, a), Do(c, t, a).threads[i])
  {
    hide Total, ZeroingTotal;
    assert ThreadOk(c, c.threads[i]);
    assert ThreadOk(c, c.threads[t]);
    if a.SwapOk? && c.threads[i].pc == Returning(IsZero(true)) {
      TotalUpdate(c.threads, t, c.threads[t]);
      ZeroingUpdate(c.threads, i, c.threads[i]);
    }
  }

  /** The thread that moves stays in order. */
  lemma MoverOk(c: Config, t: nat, a: Action)
    requires Enabled(c, t, a, true) && Enabled(c, t, a, false) && Counted(c)
    ensures ThreadOk(Do(c, t, a), Do(c, t, a).threads[t])
  {
    hide Total, ZeroingTotal;
    assert ThreadOk(c, c.threads[t]);
    TotalUpdate(c.threads, t, c.threads[t]);
  }

  /** Every disciplined move keeps the invariant. */
  lemma MoveKeepsCounted(c: Config, t: nat, a: Action)
    requires Enabled(c, t, a, true) && Enabled(c, t, a, false) && Counted(c)
    ensures Counted(Do(c, t, a))
  {
    hide Total, ZeroingTotal;
    var c' := Do(c, t, a);
    MoveTotals(c, t, a);
    MoverOk(c, t, a);
    forall i | 0 <= i < |c'.threads|
      ensures ThreadOk(c', c'.threads[i])
    {
      if i != t { BystanderOk(c, t, a, i); }
    }
    assert ThreadOk(c, c.threads[t]);
  }

  /** The starting point: idle threads that hold as many references as the count says. */
  predicate Initial(c: Config) {
    && 0 < c.count == Total(c.threads) && c.ones == 0
    && forall i :: 0 <= i < |c.threads| ==> c.threads[i].pc == Idle
  }

  lemma {:induction false} NothingZeroing(ths: seq<Thread>)
    requires forall i :: 0 <= i < |ths| ==> ths[i].pc == Idle
    ensures ZeroingTotal(ths) == 0
  {
    if ths != [] {
      assert ths[0].pc == Idle;
      NothingZeroing(ths[1..]);
    }
  }

  lemma {:induction false} RunKeepsCounted(c: Config, moves: seq<Move>, c': Config)
    requires Counted(c) && Runs(c, moves, c', true)
    ensures Counted(c')
    decreases |moves|
  {
    hide Counted, Do, Enabled;
    if moves != [] {
      MoveKeepsCounted(c, moves[0].t, moves[0].a);
      RunKeepsCounted(Do(c, moves[0].t, moves[0].a), moves[1..], c');
    }
  }

  /**
   When only holders of references call, over every run: no thread aborts, at most one decrement
   returns one, and when one has, no thread holds, makes or gives up a reference. While the count
   is below the maximum it is exactly the number of references; when it is zero and the threads
   have returned, one decrement has reported it.
   */
  lemma LastReferenceReported(c: Config, moves: seq<Move>, c': Config)
    requires Initial(c) && Runs(c, moves, c', true)
    ensures c'.ones <= 1
    ensures c'.ones == 1 ==> forall i :: 0 <= i < |c'.threads| ==> Weight(c'.threads[i]) == 0
    ensures forall i :: 0 <= i < |c'.threads| ==> c'.threads[i].pc != Crashed
    ensures c'.count < 0xFFFF_FFFF ==> c'.count == Total(c'.threads)
    ensures (forall i :: 0 <= i < |c'.threads| ==> c'.threads[i].pc == Idle) ==> (c'.ones == 1 <==> c'.count == 0)
  {
    if forall i :: 0 <= i < |c'.threads| ==> c'.threads[i].pc == Idle {
      NothingZeroing(c'.threads);
    }
    hide Total, ZeroingTotal, Runs;
    NothingZeroing(c.threads);
    RunKeepsCounted(c, moves, c');
    forall i | 0 <= i < |c'.threads|
      ensures c'.ones == 1 ==> Weight(c'.threads[i]) == 0
      ensures c'.threads[i].pc != Crashed
    {
      TotalZero(c'.threads, i);
      assert ThreadOk(c', c'.threads[i]);
    }
  }
}
