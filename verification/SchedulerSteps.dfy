/** Several processors picking at once.  `PickNext` is up to three critical sections: putting
    the running thread back, choosing the next one under all four priority queue locks and,
    when those queues are all empty, taking an idle thread under the idle queue's own lock.
    Any processor may act in between. */
module SchedulerSteps {
  import opened Options
  import opened SchedulerSpec

  datatype Phase =
    | Steady    // not in a pick
    | Picking   // the running thread is back in its queue, nothing chosen yet
    | Idling    // the priority queues were empty, the idle queue not yet looked at

  /** A processor and how far its pick has got.  During a pick its thread pointer is stale: the
      thread is already back in a queue. */
  datatype Slot<T> = Slot(cpu: Cpu<T>, phase: Phase)

  datatype System<T> = System(q: Queues<T>, slots: seq<Slot<T>>)

  datatype Event<T> =
    | PutBack(i: nat)       // PickNext on processor i: put the running thread back
    | Choose(i: nat)        // choose among the priority queues
    | TakeIdle(i: nat)      // those were empty: take an idle thread, if any
    | Readd(thread: T)      // ReaddThread: a woken thread joins its queue
    | Leave(i: nat)         // the running thread ends or blocks

  ghost predicate Enabled<T>(s: System<T>, e: Event<T>, kind: T -> Kind)
  {
    match e
    case PutBack(i) => i < |s.slots| && s.slots[i].phase.Steady?
    case Choose(i) => i < |s.slots| && s.slots[i].phase.Picking?
    case TakeIdle(i) => i < |s.slots| && s.slots[i].phase.Idling?
    case Readd(t) => kind(t) != Idle && Places(s, t) == 0
    case Leave(i) => i < |s.slots| && s.slots[i].phase.Steady? && s.slots[i].cpu.current.Some?
  }

  ghost function Step<T>(s: System<T>, e: Event<T>, kind: T -> Kind): System<T>
    requires Enabled(s, e, kind)
  {
    match e
    case PutBack(i) =>
      var (q, c) := Requeue(s.q, s.slots[i].cpu, kind);
      System(q, s.slots[i := Slot(c, Picking)])
    case Choose(i) =>
      if Prioritised(s, i) then
        var (q, c) := Select(s.q, s.slots[i].cpu);
        System(q, s.slots[i := Slot(c, Steady)])
      else System(s.q, s.slots[i := Slot(s.slots[i].cpu, Idling)])
    case TakeIdle(i) =>
      var c := s.slots[i].cpu;
      if s.q.idle == [] then System(s.q, s.slots[i := Slot(c.(current := None), Steady)])
      else System(s.q.Put(Idle, s.q.idle[1..]), s.slots[i := Slot(c.(current := Some(s.q.idle[0])), Steady)])
    case Readd(t) =>
      System(s.q.Put(kind(t), s.q.Get(kind(t)) + [t]), s.slots)
    case Leave(i) =>
      System(s.q, s.slots[i := Slot(s.slots[i].cpu.(current := None), Steady)])
  }

  /** The choice on processor `i` falls on a priority queue. */
  predicate Prioritised<T>(s: System<T>, i: nat)
    requires i < |s.slots|
  {
    var k := Choice(s.q, s.slots[i].cpu);
    k.Some? && k.value != Idle
  }

  // ------------------------------------------------------------- conservation

  ghost function Queued<T>(q: Queues<T>, t: T): nat
  {
    multiset(q.kernel)[t] + multiset(q.high)[t] + multiset(q.normal)[t] + multiset(q.low)[t] + multiset(q.idle)[t]
  }

  ghost function Held<T>(s: Slot<T>, t: T): nat
  {
    if s.phase.Steady? && s.cpu.current == Some(t) then 1 else 0
  }

  ghost function Running<T>(slots: seq<Slot<T>>, t: T): nat
  {
    if slots == [] then 0 else Held(slots[0], t) + Running(slots[1..], t)
  }

  /** The number of places thread `t` is in: queue positions, and processors that run it. */
  ghost function Places<T>(s: System<T>, t: T): nat
  {
    Queued(s.q, t) + Running(s.slots, t)
  }

  lemma {:induction false} RunningUpdate<T>(slots: seq<Slot<T>>, i: nat, x: Slot<T>, t: T)
    requires i < |slots|
    ensures Running(slots[i := x], t) == Running(slots, t) + Held(x, t) - Held(slots[i], t)
  {
    UpdateTail(slots, i, x);
    if i > 0 {
      RunningUpdate(slots[1..], i - 1, x, t);
    }
  }

  lemma UpdateTail<T>(s: seq<T>, i: nat, x: T)
    requires i < |s|
    ensures s[i := x][1..] == if i == 0 then s[1..] else s[1..][i - 1 := x]
  {
  }

  lemma PushCount<T>(q: Queues<T>, k: Kind, t: T, u: T)
    ensures Queued(q.Put(k, q.Get(k) + [t]), u) == Queued(q, u) + if t == u then 1 else 0
  {
  }

  lemma PopCount<T>(q: Queues<T>, k: Kind, u: T)
    requires q.Get(k) != []
    ensures Queued(q.Put(k, q.Get(k)[1..]), u) == Queued(q, u) - if q.Get(k)[0] == u then 1 else 0
  {
    var s := q.Get(k);
    assert s == [s[0]] + s[1..];
  }

  /** Every section of a pick moves at most one thread from one place to another and loses or
      duplicates nothing; only `Readd` and `Leave` change who is there. */
  lemma StepConserves<T>(s: System<T>, e: Event<T>, kind: T -> Kind, t: T)
    requires Enabled(s, e, kind)
    ensures var gain := match e
                        case PutBack(_) => 0
                        case Choose(_) => 0
                        case TakeIdle(_) => 0
                        case Readd(u) => if u == t then 1 else 0
                        case Leave(i) => if s.slots[i].cpu.current.value == t then -1 else 0;
            Places(Step(s, e, kind), t) == Places(s, t) + gain
  {
    hide Queued, Running;
    var s' := Step(s, e, kind);
    match e
    case PutBack(i) =>
      RunningUpdate(s.slots, i, s'.slots[i], t);
      if s.slots[i].cpu.current.Some? {
        PushCount(s.q, kind(s.slots[i].cpu.current.value), s.slots[i].cpu.current.value, t);
      }
    case Choose(i) =>
      RunningUpdate(s.slots, i, s'.slots[i], t);
      ChoiceIsServable(s.q, s.slots[i].cpu);
      if Prioritised(s, i) {
        PopCount(s.q, Choice(s.q, s.slots[i].cpu).value, t);
      }
    case TakeIdle(i) =>
      RunningUpdate(s.slots, i, s'.slots[i], t);
      if s.q.idle != [] {
        PopCount(s.q, Idle, t);
      }
    case Readd(u) =>
      PushCount(s.q, kind(u), u, t);
    case Leave(i) =>
      RunningUpdate(s.slots, i, s'.slots[i], t);
  }

  /** Every queue, the idle one too, is served in order: a step takes at most the front thread of
      one queue, to run it, and adds at most one thread at the back of its own queue. */
  lemma StepKeepsTurns<T>(s: System<T>, e: Event<T>, kind: T -> Kind, k: Kind)
    requires Enabled(s, e, kind)
    ensures var q, s' := s.q.Get(k), Step(s, e, kind);
            if Serves(s, e, k) then
              q != [] && s'.q.Get(k) == q[1..] && s'.slots[e.i].phase.Steady? && s'.slots[e.i].cpu.current == Some(q[0])
            else s'.q.Get(k) == q + Joins(s, e, kind, k)
  {
    hide Queues.Get, Queues.Put, Choice;
    NoneJoins(s.q.Get(k));
    match e
    case PutBack(i) =>
      if s.slots[i].cpu.current.Some? {
        PushGet(s.q, kind(s.slots[i].cpu.current.value), s.slots[i].cpu.current.value, k);
      }
    case Choose(i) =>
      ChoiceIsServable(s.q, s.slots[i].cpu);
      if Prioritised(s, i) {
        PopGet(s.q, Choice(s.q, s.slots[i].cpu).value, k);
      }
    case TakeIdle(i) =>
      IdleGet(s.q);
      if s.q.idle != [] {
        PopGet(s.q, Idle, k);
      }
    case Readd(t) =>
      PushGet(s.q, kind(t), t, k);
    case Leave(i) =>
  }

  /** The step is the pick of a thread from queue `k`. */
  predicate Serves<T>(s: System<T>, e: Event<T>, k: Kind)
  {
    if e.Choose? then e.i < |s.slots| && Prioritised(s, e.i) && Choice(s.q, s.slots[e.i].cpu) == Some(k)
    else e.TakeIdle? && k == Idle && s.q.idle != []
  }

  /** The thread a step adds to queue `k`: the one put back, or the one that returns. */
  function Joins<T>(s: System<T>, e: Event<T>, kind: T -> Kind, k: Kind): seq<T>
  {
    if e.PutBack? && e.i < |s.slots| && s.slots[e.i].cpu.current.Some? && kind(s.slots[e.i].cpu.current.value) == k then
      [s.slots[e.i].cpu.current.value]
    else if e.Readd? && kind(e.thread) == k then [e.thread]
    else []
  }

  lemma PushGet<T>(q: Queues<T>, j: Kind, t: T, k: Kind)
    ensures q.Put(j, q.Get(j) + [t]).Get(k) == q.Get(k) + if j == k then [t] else []
  {
    NoneJoins(q.Get(k));
  }

  lemma PopGet<T>(q: Queues<T>, j: Kind, k: Kind)
    requires q.Get(j) != []
    ensures q.Put(j, q.Get(j)[1..]).Get(k) == if j == k then q.Get(k)[1..] else q.Get(k)
  {
  }

  lemma NoneJoins<T>(q: seq<T>)
    ensures q + [] == q
  {
  }

  lemma IdleGet<T>(q: Queues<T>)
    ensures q.Get(Idle) == q.idle
  {
  }

  /** No thread is in two places, and every queue holds only its own kind. */
  ghost predicate Orderly<T(!new)>(s: System<T>, kind: T -> Kind)
  {
    && (forall t :: Places(s, t) <= 1)
    && Filed(s.q, kind)
  }

  lemma FiledPush<T>(q: Queues<T>, t: T, kind: T -> Kind)
    requires Filed(q, kind)
    ensures Filed(q.Put(kind(t), q.Get(kind(t)) + [t]), kind)
  {
    var q' := q.Put(kind(t), q.Get(kind(t)) + [t]);
    forall k: Kind, i | 0 <= i < |q'.Get(k)| ensures kind(q'.Get(k)[i]) == k {
      if i < |q.Get(k)| { assert q'.Get(k)[i] == q.Get(k)[i]; }
    }
  }

  lemma FiledPop<T>(q: Queues<T>, x: Kind, kind: T -> Kind)
    requires Filed(q, kind) && q.Get(x) != []
    ensures Filed(q.Put(x, q.Get(x)[1..]), kind)
  {
    var q' := q.Put(x, q.Get(x)[1..]);
    forall k: Kind, i | 0 <= i < |q'.Get(k)| ensures kind(q'.Get(k)[i]) == k {
      assert q'.Get(k)[i] == q.Get(k)[if k == x then i + 1 else i];
    }
  }

  lemma StepKeepsOrder<T(!new)>(s: System<T>, e: Event<T>, kind: T -> Kind)
    requires Orderly(s, kind) && Enabled(s, e, kind)
    ensures Orderly(Step(s, e, kind), kind)
  {
    hide Places, Filed;
    forall t ensures Places(Step(s, e, kind), t) <= 1 {
      StepConserves(s, e, kind, t);
    }
    match e
    case PutBack(i) =>
      if s.slots[i].cpu.current.Some? { FiledPush(s.q, s.slots[i].cpu.current.value, kind); }
    case Choose(i) =>
      ChoiceIsServable(s.q, s.slots[i].cpu);
      if Prioritised(s, i) { FiledPop(s.q, Choice(s.q, s.slots[i].cpu).value, kind); }
    case TakeIdle(i) =>
      if s.q.idle != [] { FiledPop(s.q, Idle, kind); }
    case Readd(t) =>
      FiledPush(s.q, t, kind);
    case Leave(i) =>
  }

  ghost predicate Follows<T>(s: System<T>, e: Event<T>, kind: T -> Kind, s': System<T>)
  {
    Enabled(s, e, kind) && s' == Step(s, e, kind)
  }

  ghost predicate IsRun<T>(ss: seq<System<T>>, es: seq<Event<T>>, kind: T -> Kind)
  {
    && |ss| == |es| + 1
    && forall i :: 0 <= i < |es| ==> Follows(ss[i], es[i], kind, ss[i + 1])
  }

  /** Over every interleaving of picks on any number of processors, with threads leaving and
      returning in between, no thread is ever in two places. */
  lemma {:induction false} RunKeepsOrder<T(!new)>(ss: seq<System<T>>, es: seq<Event<T>>, kind: T -> Kind, n: nat)
    requires IsRun(ss, es, kind) && Orderly(ss[0], kind) && n < |ss|
    ensures Orderly(ss[n], kind)
    decreases n
  {
    if n > 0 {
      hide Orderly, Step, Enabled;
      RunKeepsOrder(ss, es, kind, n - 1);
      assert Follows(ss[n - 1], es[n - 1], kind, ss[n - 1 + 1]);
      StepKeepsOrder(ss[n - 1], es[n - 1], kind);
    }
  }

  lemma PickConserves<T>(s: System<T>, e: Event<T>, kind: T -> Kind, s': System<T>, t: T)
    requires Follows(s, e, kind, s') && (e.PutBack? || e.Choose? || e.TakeIdle?)
    ensures Places(s', t) == Places(s, t)
  {
    hide Places, Step, Enabled;
    StepConserves(s, e, kind, t);
  }

  /** While nobody leaves or returns, picking never loses or duplicates a thread. */
  lemma {:induction false} PicksConserve<T>(ss: seq<System<T>>, es: seq<Event<T>>, kind: T -> Kind, n: nat, t: T)
    requires IsRun(ss, es, kind) && n < |ss|
    requires forall i :: 0 <= i < n ==> es[i].PutBack? || es[i].Choose? || es[i].TakeIdle?
    ensures Places(ss[n], t) == Places(ss[0], t)
    decreases n
  {
    if n > 0 {
      hide Places, Follows;
      PicksConserve(ss, es, kind, n - 1, t);
      PickConserves(ss[n - 1], es[n - 1], kind, ss[n - 1 + 1], t);
    }
  }

  lemma {:induction false} RunningAt<T>(slots: seq<Slot<T>>, i: nat, t: T)
    requires i < |slots|
    ensures Running(slots, t) >= Held(slots[i], t)
  {
    if i > 0 {
      RunningAt(slots[1..], i - 1, t);
    }
  }

  lemma {:induction false} RunningAtBoth<T>(slots: seq<Slot<T>>, i: nat, j: nat, t: T)
    requires i < j < |slots|
    ensures Running(slots, t) >= Held(slots[i], t) + Held(slots[j], t)
  {
    if i > 0 {
      RunningAtBoth(slots[1..], i - 1, j - 1, t);
    } else {
      RunningAt(slots[1..], j - 1, t);
    }
  }

  /** When no pick is in progress, a thread that runs on one processor runs on no other and
      waits in no queue. */
  lemma RunsInOnePlace<T(!new)>(s: System<T>, kind: T -> Kind, i: nat, j: nat, t: T)
    requires Orderly(s, kind) && i < |s.slots| && j < |s.slots|
    requires s.slots[i].phase.Steady? && s.slots[j].phase.Steady? && s.slots[i].cpu.current == Some(t)
    ensures s.slots[j].cpu.current == Some(t) <==> i == j
    ensures forall k: Kind :: t !in s.q.Get(k)
  {
    if i < j {
      RunningAtBoth(s.slots, i, j, t);
    } else if j < i {
      RunningAtBoth(s.slots, j, i, t);
    }
    RunningAt(s.slots, i, t);
    hide Running;
    assert Places(s, t) <= 1;
    forall k: Kind ensures t !in s.q.Get(k) {
      assert multiset(s.q.Get(k))[t] == 0;
    }
  }
}
