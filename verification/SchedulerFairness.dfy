/** How long a queued thread can wait, over every interleaving of picks on any number of
    processors, with threads leaving and returning in between. */
module SchedulerFairness {
  import opened Options
  import opened SchedulerSpec
  import opened SchedulerSteps

  /** A processor that keeps finding threads of the kind takes one at least this often. */
  function Turn(k: Kind): nat
  {
    match k
    case Kernel => 2
    case High => 10
    case Normal => 50
    case Low => 125
    case Idle => 0
  }

  /** What a thread that leaves, and so is never counted as having run, can add to the wait. */
  function Toll(k: Kind): nat
  {
    match k
    case Kernel => 1
    case High => 5
    case Normal => 25
    case Low => 25
    case Idle => 0
  }

  function Passed(run: nat): nat
  {
    if run >= 4 then 1 else 0
  }

  /** The picks that can still go to other kinds before the turn of kind `k`. */
  function Wait<T>(k: Kind, c: Cpu<T>): (w: nat)
    ensures k != Idle ==> w < Turn(k)
  {
    match k
    case Kernel => Passed(c.kernelRun)
    case High => Left(c.kernelRun) + 5 * Passed(c.highRun)
    case Normal => Left(c.kernelRun) + 5 * Left(c.highRun) + 25 * Passed(c.normalRun)
    case Low => WaitLow(c)
    case Idle => 0
  }

  /** A pick that passes over a waiting kind brings its turn nearer. */
  lemma PassShrinks<T>(q: Queues<T>, c: Cpu<T>, kind: T -> Kind, k: Kind)
    requires Filed(q, kind) && k != Idle && q.Get(k) != [] && Choice(q, c) != Some(k)
    ensures Wait(k, Ready(Select(q, c).1, kind)) < Wait(k, c)
  {
    ChoiceIsServable(q, c);
    ChosenKind(q, c, kind);
  }

  lemma LeaveCosts<T>(k: Kind, c: Cpu<T>, j: Kind)
    ensures Wait(k, c) <= Wait(k, Bump(c, j)) + Toll(k)
  {
  }

  /** Only the counters matter, not the running thread. */
  lemma WaitOfCounters<T>(k: Kind, c: Cpu<T>, current: Option<T>)
    ensures Wait(k, c.(current := current)) == Wait(k, c)
  {
  }

  // ---- One step ------------------------------------------------------------------------

  /** The counters as the processor's next choice will see them. */
  function Coming<T>(s: Slot<T>, kind: T -> Kind): Cpu<T>
  {
    if s.phase.Steady? then Ready(s.cpu, kind) else s.cpu
  }

  /** The step is a choice that makes `t` run. */
  ghost predicate Takes<T>(e: Event<T>, s': System<T>, t: T)
  {
    e.Choose? && e.i < |s'.slots| && s'.slots[e.i].phase.Steady? && s'.slots[e.i].cpu.current == Some(t)
  }

  /** Thread `t` stands at place `p` of its queue. */
  predicate Stands<T(==)>(s: System<T>, k: Kind, p: nat, t: T)
  {
    p < |s.q.Get(k)| && s.q.Get(k)[p] == t
  }

  /** The step takes the front thread of queue `k`. */
  ghost predicate Pops<T>(s: System<T>, e: Event<T>, k: Kind)
  {
    e.Choose? && e.i < |s.slots| && Choice(s.q, s.slots[e.i].cpu) == Some(k)
  }

  /** A thread that is not taken keeps its place, or moves up one when another is. */
  lemma PlaceAfter<T>(s: System<T>, e: Event<T>, s': System<T>, kind: T -> Kind, k: Kind, p: nat, t: T)
    requires Follows(s, e, kind, s') && k != Idle && Stands(s, k, p, t) && !Takes(e, s', t)
    ensures Pops(s, e, k) ==> p > 0
    ensures Stands(s', k, if Pops(s, e, k) then p - 1 else p, t)
  {
    if e.Choose? {
      PlaceAfterChoice(s, e.i, s', kind, k, p, t);
    }
  }

  lemma PlaceAfterChoice<T>(s: System<T>, i: nat, s': System<T>, kind: T -> Kind, k: Kind, p: nat, t: T)
    requires Follows(s, Choose(i), kind, s') && k != Idle && Stands(s, k, p, t) && !Takes(Choose(i), s', t)
    ensures Pops(s, Choose(i), k) ==> p > 0
    ensures Stands(s', k, if Pops(s, Choose(i), k) then p - 1 else p, t)
  {
    ChoiceIsServable(s.q, s.slots[i].cpu);
    var j := Choice(s.q, s.slots[i].cpu).value;
    assert s'.slots[i].cpu.current == Some(s.q.Get(j)[0]);
    PlaceAfterPop(s.q, j, k, p);
  }

  lemma PlaceAfterPop<T>(q: Queues<T>, j: Kind, k: Kind, p: nat)
    requires q.Get(j) != [] && p < |q.Get(k)| && (j == k ==> p > 0)
    ensures var s, r := q.Put(j, q.Get(j)[1..]).Get(k), if j == k then p - 1 else p;
            r < |s| && s[r] == q.Get(k)[p]
  {
  }

  /** Of processor `i`: a choice lowers the wait unless it takes from queue `k`, a departure may
      raise it, and nothing else changes it. */
  lemma WaitAfter<T>(s: System<T>, e: Event<T>, s': System<T>, kind: T -> Kind, k: Kind, i: nat)
    requires Follows(s, e, kind, s') && Filed(s.q, kind) && k != Idle && s.q.Get(k) != [] && i < |s.slots|
    ensures |s'.slots| == |s.slots|
    ensures var w, w' := Wait(k, Coming(s.slots[i], kind)), Wait(k, Coming(s'.slots[i], kind));
            if e == Choose(i) then Pops(s, e, k) || w' < w
            else if e == Leave(i) then w' <= w + Toll(k)
            else w' == w
  {
    hide Wait;
    match e
    case PutBack(j) =>
    case Choose(j) =>
      ChoiceIsServable(s.q, s.slots[j].cpu);
      if j == i && !Pops(s, e, k) {
        PassShrinks(s.q, s.slots[i].cpu, kind, k);
      }
    case TakeIdle(j) =>
      assert s.q.idle != [] ==> kind(s.q.Get(Idle)[0]) == Idle;
      WaitOfCounters(k, s.slots[j].cpu, s'.slots[j].cpu.current);
    case Readd(u) =>
    case Leave(j) =>
      if j == i {
        LeaveCosts(k, s.slots[i].cpu, kind(s.slots[i].cpu.current.value));
        WaitOfCounters(k, s.slots[i].cpu, None);
      }
  }

  // ---- Runs ----------------------------------------------------------------------------

  ghost function Once<T>(e: Event<T>, f: Event<T>): nat
  {
    if e == f then 1 else 0
  }

  /** How often `e` occurs among steps `a` to `b`. */
  ghost function Tally<T>(es: seq<Event<T>>, a: nat, b: nat, e: Event<T>): nat
    requires a <= b <= |es|
  {
    if a == b then 0 else Tally(es, a, b - 1, e) + Once(es[b - 1], e)
  }

  /** What has been spent on waiting, and what may still be, is within the bound. */
  predicate Within(k: Kind, choices: nat, leaves: nat, w: nat, r: nat, p: nat)
  {
    choices + w + Turn(k) * r < Turn(k) * (p + 1) + Toll(k) * leaves
  }

  /** The bound is kept when a thread moves up, when a choice lowers the wait, and when a
      departure raises it by no more than the toll. */
  lemma StaysWithin(k: Kind, choices: nat, leaves: nat, w: nat, r: nat, p: nat, choices': nat, leaves': nat, w': nat,
                    up: bool)
    requires k != Idle && Within(k, choices, leaves, w, r, p) && w' < Turn(k)
    requires if up then r > 0 && choices' <= choices + 1 && leaves' == leaves
             else if choices' == choices + 1 then w' < w && leaves' == leaves
             else choices' == choices && leaves' >= leaves && w' <= w + if leaves' == leaves + 1 then Toll(k) else 0
    ensures Within(k, choices', leaves', w', if up then r - 1 else r, p)
  {
    match k
    case Kernel =>
    case High =>
    case Normal =>
    case Low =>
  }

  /** One step of a thread's wait: its next place, and what has then been spent. */
  lemma WaitsOn<T>(s: System<T>, e: Event<T>, s': System<T>, kind: T -> Kind, k: Kind, i: nat, p: nat, t: T,
                   choices: nat, leaves: nat, r: nat)
    returns (r': nat)
    requires Follows(s, e, kind, s') && Filed(s.q, kind) && k != Idle && i < |s.slots|
    requires Stands(s, k, r, t) && !Takes(e, s', t)
    requires Within(k, choices, leaves, Wait(k, Coming(s.slots[i], kind)), r, p)
    ensures i < |s'.slots| && Stands(s', k, r', t)
    ensures Within(k, choices + Once(e, Choose(i)), leaves + Once(e, Leave(i)), Wait(k, Coming(s'.slots[i], kind)),
                   r', p)
  {
    hide Wait, Coming, Takes, Follows, Filed, Within, Turn, Toll;
    PlaceAfter(s, e, s', kind, k, r, t);
    WaitAfter(s, e, s', kind, k, i);
    StaysWithin(k, choices, leaves, Wait(k, Coming(s.slots[i], kind)), r, p, choices + Once(e, Choose(i)),
                leaves + Once(e, Leave(i)), Wait(k, Coming(s'.slots[i], kind)), Pops(s, e, k));
    r' := if Pops(s, e, k) then r - 1 else r;
  }

  lemma RunStep<T(!new)>(ss: seq<System<T>>, es: seq<Event<T>>, kind: T -> Kind, n: nat)
    requires IsRun(ss, es, kind) && Orderly(ss[0], kind) && n < |es|
    ensures |ss| == |es| + 1 && Follows(ss[n], es[n], kind, ss[n + 1]) && Filed(ss[n].q, kind)
  {
    hide Follows, Filed;
    RunKeepsOrder(ss, es, kind, n);
  }

  /** The place of a thread not yet taken after `b` steps, and how much waiting that leaves. */
  lemma {:induction false} StillWaiting<T(!new)>(ss: seq<System<T>>, es: seq<Event<T>>, kind: T -> Kind, k: Kind,
                                                 i: nat, p: nat, t: T, a: nat, b: nat)
    returns (r: nat)
    requires IsRun(ss, es, kind) && Orderly(ss[0], kind) && k != Idle && a <= b <= |es|
    requires i < |ss[a].slots| && Stands(ss[a], k, p, t)
    requires forall n :: a <= n < b ==> !Takes(es[n], ss[n + 1], t)
    ensures i < |ss[b].slots| && Stands(ss[b], k, r, t)
    ensures Within(k, Tally(es, a, b, Choose(i)), Tally(es, a, b, Leave(i)), Wait(k, Coming(ss[b].slots[i], kind)),
                   r, p)
    decreases b
  {
    hide Wait, Coming, Takes, Follows, Filed, Within, Stands, Orderly, Turn, Toll, Once;
    if a == b {
      FirstWithin(k, Coming(ss[b].slots[i], kind), p);
      return p;
    }
    var n := b - 1;
    RunStep(ss, es, kind, n);
    hide IsRun;
    r := StillWaiting(ss, es, kind, k, i, p, t, a, n);
    r := WaitsOn(ss[n], es[n], ss[n + 1], kind, k, i, p, t, Tally(es, a, n, Choose(i)), Tally(es, a, n, Leave(i)), r);
  }

  lemma FirstWithin<T>(k: Kind, c: Cpu<T>, p: nat)
    requires k != Idle
    ensures Within(k, 0, 0, Wait(k, c), p, p)
  {
  }

  /** A thread at place `p` of its queue runs by the time one processor, any one, has made
      `Turn(k) * (p + 1)` choices, and `Toll(k)` more for each thread that left it. */
  lemma RunsWithin<T(!new)>(ss: seq<System<T>>, es: seq<Event<T>>, kind: T -> Kind, k: Kind, i: nat, p: nat, t: T,
                            a: nat, b: nat)
    requires IsRun(ss, es, kind) && Orderly(ss[0], kind) && k != Idle && a <= b <= |es|
    requires i < |ss[a].slots| && Stands(ss[a], k, p, t)
    requires Tally(es, a, b, Choose(i)) >= Turn(k) * (p + 1) + Toll(k) * Tally(es, a, b, Leave(i))
    ensures exists n :: a <= n < b && Takes(es[n], ss[n + 1], t)
  {
    hide Takes;
    if forall n :: a <= n < b ==> !Takes(es[n], ss[n + 1], t) {
      var r := StillWaiting(ss, es, kind, k, i, p, t, a, b);
    }
  }

  /** A kernel thread that blocks each time before its turn is over, and returns, is never counted
      as having run. */
  function Blocking<T>(u: T, t: T): seq<System<T>>
  {
    var idle, kernel, none := Cpu(None, 0, 0, 0), Queues([u], [], [], [t], []), Queues([], [], [], [t], []);
    [System(kernel, [Slot(idle, Steady)]), System(kernel, [Slot(idle, Picking)]),
     System(none, [Slot(idle.(current := Some(u)), Steady)]), System(none, [Slot(idle, Steady)]),
     System(kernel, [Slot(idle, Steady)])]
  }

  /** The low thread then waits for ever: these steps lead back to where they began, with a
      choice made and the low thread where it was. */
  lemma Starved<T(!new)>(u: T, t: T, kind: T -> Kind)
    requires kind(u) == Kernel && kind(t) == Low
    ensures var ss, es := Blocking(u, t), [PutBack(0), Choose(0), Leave(0), Readd(u)];
            && IsRun(ss, es, kind) && Orderly(ss[0], kind) && ss[4] == ss[0]
            && forall n :: 0 <= n < 5 ==> Stands(ss[n], Low, 0, t)
  {
    hide Orderly;
    var ss, es := Blocking(u, t), [PutBack(0), Choose(0), Leave(0), Readd(u)];
    BlockingOrderly(u, t, kind);
    assert ss[3].slots == [Slot(Cpu(None, 0, 0, 0), Steady)];
    assert Places(ss[3], u) == 0;
    assert Follows(ss[0], es[0], kind, ss[1]);
    assert Follows(ss[1], es[1], kind, ss[2]);
    assert Follows(ss[2], es[2], kind, ss[3]);
    assert Follows(ss[3], es[3], kind, ss[4]);
  }

  lemma BlockingOrderly<T(!new)>(u: T, t: T, kind: T -> Kind)
    requires kind(u) == Kernel && kind(t) == Low
    ensures Orderly(Blocking(u, t)[0], kind)
  {
    var s := Blocking(u, t)[0];
    assert s.slots[1..] == [] && s.slots[0].cpu.current == None;
  }
}
