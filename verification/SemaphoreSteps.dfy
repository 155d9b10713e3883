/** The semaphore's critical sections interleaved in every possible way
    (kernel/src/Scheduling/Semaphore.cpp).  `release` is up to five separate sections under
    three different locks; `acquire` holds the value lock from its test to its end. */
module SemaphoreSteps {
  import opened Machine
  import opened Seqs

  /** Where the one `acquire` that may hold the value lock has got to. */
  datatype Acquire<T> =
    | Free             // the value lock is free
    | MustWait(t: T)   // saw value zero, not yet on the wait list
    | Claimed(t: T)    // took a unit, not yet among the holders

  /** `value` is kept unreduced: the 64-bit field holds it modulo 2^64.  Releases in progress
      are counted by how far they have got. */
  datatype Sem<T> = Sem(
    value: int,
    holders: seq<T>,
    waiting: seq<T>,
    acquire: Acquire<T>,
    removed: nat,          // holder entry removed, value not yet raised
    raised: nat,           // value raised, wait list not yet looked at
    popped: multiset<T>,   // waiter taken off the list, value not yet lowered
    lowered: multiset<T>)  // value lowered, waiter not yet among the holders

  datatype Event<T> =
    | Test(t: T)         // acquire: take the value lock, test, maybe decrement
    | Finish             // acquire: join the list, release the value lock
    | Remove(t: T)       // release: drop the holder entry
    | Raise              // release: value++
    | Look               // release: pop the first waiter, if any
    | Lower(t: T)        // release: value--
    | Insert(t: T)       // release: the waiter becomes a holder

  ghost predicate Enabled<T>(s: Sem<T>, e: Event<T>)
  {
    match e
    case Test(_) => s.acquire.Free?
    case Finish => !s.acquire.Free?
    case Remove(t) => t in s.holders
    case Raise => s.acquire.Free? && s.removed > 0
    case Look => s.raised > 0
    case Lower(t) => s.acquire.Free? && t in s.popped
    case Insert(t) => t in s.lowered
  }

  ghost function Step<T>(s: Sem<T>, e: Event<T>): Sem<T>
    requires Enabled(s, e)
  {
    match e
    case Test(t) =>
      if Wrap(s.value) == 0 then s.(acquire := MustWait(t))
      else s.(value := s.value - 1, acquire := Claimed(t))
    case Finish =>
      if s.acquire.MustWait? then s.(acquire := Free, waiting := s.waiting + [s.acquire.t])
      else s.(acquire := Free, holders := s.holders + [s.acquire.t])
    case Remove(t) => s.(holders := Without(s.holders, t), removed := s.removed + 1)
    case Raise => s.(removed := s.removed - 1, value := s.value + 1, raised := s.raised + 1)
    case Look =>
      if s.waiting == [] then s.(raised := s.raised - 1)
      else s.(raised := s.raised - 1, waiting := s.waiting[1..], popped := s.popped + multiset{s.waiting[0]})
    case Lower(t) =>
      s.(value := s.value - 1, popped := s.popped - multiset{t}, lowered := s.lowered + multiset{t})
    case Insert(t) =>
      s.(lowered := s.lowered - multiset{t}, holders := s.holders + [t])
  }

  function Init<T>(n: nat): Sem<T>
  {
    Sem(n, [], [], Free, 0, 0, multiset{}, multiset{})
  }

  // ------------------------------------------------------------------ invariants

  /** Units that have left the value or the holders and not yet arrived at the other. */
  ghost function InFlight<T>(s: Sem<T>): nat
  {
    s.removed + |s.lowered| + if s.acquire.Claimed? then 1 else 0
  }

  /** Releases between raising the value and their end: each may yet hand its unit on. */
  ghost function Pending<T>(s: Sem<T>): nat
  {
    s.raised + |s.popped|
  }

  /** No unit is lost or made, and while someone waits every unit of the value is spoken for
      by a release that has still to look at the wait list or to lower the value again. */
  ghost predicate Inv<T>(s: Sem<T>, n: nat)
  {
    && s.value + |s.holders| + InFlight(s) == n
    && (s.waiting != [] ==> s.value <= Pending(s))
    && (s.acquire.MustWait? ==> s.value <= 0)
  }

  lemma StepKeepsInv<T>(s: Sem<T>, e: Event<T>, n: nat)
    requires n < WORD && Inv(s, n) && Enabled(s, e)
    ensures Inv(Step(s, e), n)
  {
    assert e.Test? && Wrap(s.value) == 0 ==> s.value <= 0;
  }

  ghost predicate IsRun<T>(ss: seq<Sem<T>>, es: seq<Event<T>>, n: nat)
  {
    && |ss| == |es| + 1 && ss[0] == Init(n)
    && forall i :: 0 <= i < |es| ==> Follows(ss[i], es[i], ss[i + 1])
  }

  ghost predicate Follows<T>(s: Sem<T>, e: Event<T>, s': Sem<T>)
  {
    Enabled(s, e) && s' == Step(s, e)
  }

  /** Whatever the interleaving, units are conserved and no unit lies idle beside a waiter. */
  lemma {:induction false} RunKeepsInv<T>(ss: seq<Sem<T>>, es: seq<Event<T>>, n: nat, k: nat)
    requires n < WORD && IsRun(ss, es, n) && k < |ss|
    ensures Inv(ss[k], n)
    decreases k
  {
    if k > 0 {
      hide Inv, Step, Enabled;
      RunKeepsInv(ss, es, n, k - 1);
      assert Follows(ss[k - 1], es[k - 1], ss[k - 1 + 1]);
      StepKeepsInv(ss[k - 1], es[k - 1], n);
    } else {
      assert Inv(Init<T>(n), n);
    }
  }

  ghost predicate Quiet<T>(s: Sem<T>)
  {
    s.acquire.Free? && s.removed == 0 && s.raised == 0 && s.popped == multiset{} && s.lowered == multiset{}
  }

  /** No wakeup is lost: when nothing is in progress and someone waits, no unit is free. */
  lemma NoLostWakeup<T>(ss: seq<Sem<T>>, es: seq<Event<T>>, n: nat, k: nat)
    requires n < WORD && IsRun(ss, es, n) && k < |ss| && Quiet(ss[k]) && ss[k].waiting != []
    ensures ss[k].value <= 0 && |ss[k].holders| >= n
  {
    RunKeepsInv(ss, es, n, k);
  }

  // ------------------------------------------------------------ who is where

  ghost function One<T>(t: T, u: T): int
  {
    if t == u then 1 else 0
  }

  /** How often `u` holds a unit, or has one and will be a holder. */
  ghost function Held<T>(s: Sem<T>, u: T): nat
  {
    multiset(s.holders)[u] + s.lowered[u] + if s.acquire == Claimed(u) then 1 else 0
  }

  /** How often `u` waits, or has been taken off the list and not yet got its unit. */
  ghost function Waits<T>(s: Sem<T>, u: T): nat
  {
    multiset(s.waiting)[u] + s.popped[u] + if s.acquire == MustWait(u) then 1 else 0
  }

  /** Nobody is lost, duplicated or mistaken for another.  A thread comes to hold a unit when it
      finds one free, comes to wait when it finds none, goes from one to the other when a release
      hands it a unit, and is gone when its own entry is dropped; no other step moves anyone. */
  lemma StepMoves<T>(s: Sem<T>, e: Event<T>, u: T)
    requires Enabled(s, e)
    ensures Held(Step(s, e), u) == Held(s, u) + Gets(s, e, u)
    ensures Waits(Step(s, e), u) == Waits(s, u) + Queues(s, e, u)
  {
    hide Held, Waits, Step;
    match e
    case Test(t) => TestMoves(s, t, u);
    case Finish => FinishMoves(s, u);
    case Remove(t) => RemoveMoves(s, t, u);
    case Raise => RaiseMoves(s, u);
    case Look => LookMoves(s, u);
    case Lower(t) => LowerMoves(s, t, u);
    case Insert(t) => InsertMoves(s, t, u);
  }

  /** The units `u` gains by a step: one it found free, one handed to it, less one it gives up. */
  ghost function Gets<T>(s: Sem<T>, e: Event<T>, u: T): int
  {
    match e
    case Test(t) => if Wrap(s.value) == 0 then 0 else One(t, u)
    case Remove(t) => -One(t, u)
    case Lower(t) => One(t, u)
    case _ => 0
  }

  /** The waits `u` begins by a step, less the one that ends when a unit is handed to it. */
  ghost function Queues<T>(s: Sem<T>, e: Event<T>, u: T): int
  {
    match e
    case Test(t) => if Wrap(s.value) == 0 then One(t, u) else 0
    case Lower(t) => -One(t, u)
    case _ => 0
  }

  lemma TestMoves<T>(s: Sem<T>, t: T, u: T)
    requires s.acquire.Free?
    ensures Held(Step(s, Test(t)), u) == Held(s, u) + Gets(s, Test(t), u)
    ensures Waits(Step(s, Test(t)), u) == Waits(s, u) + Queues(s, Test(t), u)
  {
  }

  lemma RemoveMoves<T>(s: Sem<T>, t: T, u: T)
    requires t in s.holders
    ensures Held(Step(s, Remove(t)), u) == Held(s, u) - One(t, u) && Waits(Step(s, Remove(t)), u) == Waits(s, u)
  {
    WithoutOne(s.holders, t);
  }

  lemma RaiseMoves<T>(s: Sem<T>, u: T)
    requires s.acquire.Free? && s.removed > 0
    ensures Held(Step(s, Raise), u) == Held(s, u) && Waits(Step(s, Raise), u) == Waits(s, u)
  {
  }

  lemma LowerMoves<T>(s: Sem<T>, t: T, u: T)
    requires s.acquire.Free? && t in s.popped
    ensures Held(Step(s, Lower(t)), u) == Held(s, u) + One(t, u)
    ensures Waits(Step(s, Lower(t)), u) == Waits(s, u) - One(t, u)
  {
  }

  lemma InsertMoves<T>(s: Sem<T>, t: T, u: T)
    requires t in s.lowered
    ensures Held(Step(s, Insert(t)), u) == Held(s, u) && Waits(Step(s, Insert(t)), u) == Waits(s, u)
  {
    CountSnoc(s.holders, t, u);
  }

  lemma FinishMoves<T>(s: Sem<T>, u: T)
    requires !s.acquire.Free?
    ensures Held(Step(s, Finish), u) == Held(s, u) && Waits(Step(s, Finish), u) == Waits(s, u)
  {
    CountSnoc(s.holders, s.acquire.t, u);
    CountSnoc(s.waiting, s.acquire.t, u);
  }

  lemma LookMoves<T>(s: Sem<T>, u: T)
    requires s.raised > 0
    ensures Held(Step(s, Look), u) == Held(s, u) && Waits(Step(s, Look), u) == Waits(s, u)
  {
    if s.waiting != [] {
      CountFront(s.waiting, u);
    }
  }

  lemma CountSnoc<T>(a: seq<T>, t: T, u: T)
    ensures multiset(a + [t])[u] == multiset(a)[u] + One(t, u)
  {
  }

  lemma CountFront<T>(a: seq<T>, u: T)
    requires a != []
    ensures multiset(a[1..])[u] == multiset(a)[u] - One(a[0], u)
  {
    assert a == [a[0]] + a[1..];
  }

  /** Waiters are listed in the order in which they came, and taken from the front. */
  lemma StepKeepsOrder<T>(s: Sem<T>, e: Event<T>)
    requires Enabled(s, e)
    ensures Step(s, e).waiting ==
            if e.Finish? && s.acquire.MustWait? then s.waiting + [s.acquire.t]
            else if e.Look? && s.waiting != [] then s.waiting[1..]
            else s.waiting
    ensures e.Look? && s.waiting != [] ==> Step(s, e).popped == s.popped + multiset{s.waiting[0]}
  {
  }

  /** Over a whole run: how often `u` holds or waits is how often it asked less how often its
      entry was dropped. */
  lemma {:induction false} RunMoves<T>(ss: seq<Sem<T>>, es: seq<Event<T>>, n: nat, k: nat, u: T)
    requires IsRun(ss, es, n) && k < |ss|
    ensures Held(ss[k], u) + Waits(ss[k], u) == Tally(es[..k], Test(u)) - Tally(es[..k], Remove(u))
    decreases k
  {
    hide Enabled, Step, Held, Waits;
    if k == 0 {
      NobodyAtFirst(n, u);
    } else {
      RunMoves(ss, es, n, k - 1, u);
      assert Follows(ss[k - 1], es[k - 1], ss[k - 1 + 1]);
      StepMoves(ss[k - 1], es[k - 1], u);
      assert es[..k][..k - 1] == es[..k - 1];
    }
  }

  lemma NobodyAtFirst<T>(n: nat, u: T)
    ensures Held(Init<T>(n), u) == 0 && Waits(Init<T>(n), u) == 0
  {
  }

  /** How often an event occurs. */
  ghost function Tally<T>(es: seq<Event<T>>, e: Event<T>): nat
  {
    if es == [] then 0 else Tally(es[..|es| - 1], e) + if es[|es| - 1] == e then 1 else 0
  }

  // --------------------------------------------------------- when exclusion holds

  /** No more units have been handed out than there are. */
  ghost predicate Safe<T>(s: Sem<T>)
  {
    s.value >= Pending(s)
  }

  /** An `acquire` that takes a unit a pending release still counts on. */
  ghost predicate Barges<T>(s: Sem<T>, e: Event<T>)
  {
    e.Test? && Wrap(s.value) != 0 && s.value == Pending(s)
  }

  /** A step leaves the safe states exactly when it is such an acquire. */
  lemma SafeUnlessBarging<T>(s: Sem<T>, e: Event<T>)
    requires Safe(s) && Enabled(s, e)
    ensures Safe(Step(s, e)) <==> !Barges(s, e)
  {
  }

  /** Passing over a waiter is always barging, in every reachable safe state. */
  lemma OvertakingIsBarging<T>(s: Sem<T>, e: Event<T>, n: nat)
    requires Inv(s, n) && Safe(s) && e.Test? && s.waiting != [] && Wrap(s.value) != 0
    ensures Barges(s, e)
  {
  }

  /** So no barging is enough: there are never more holders than units, and the value never wraps. */
  lemma {:induction false} NoBargingNoExcess<T>(ss: seq<Sem<T>>, es: seq<Event<T>>, n: nat, k: nat)
    requires n < WORD && IsRun(ss, es, n) && k < |ss|
    requires forall i :: 0 <= i < k ==> !Barges(ss[i], es[i])
    ensures Safe(ss[k]) && 0 <= ss[k].value && |ss[k].holders| <= n
    decreases k
  {
    RunKeepsInv(ss, es, n, k);
    if k > 0 {
      hide Step, Enabled, Inv;
      NoBargingNoExcess(ss, es, n, k - 1);
      assert Follows(ss[k - 1], es[k - 1], ss[k - 1 + 1]);
      SafeUnlessBarging(ss[k - 1], es[k - 1]);
    } else {
      assert Safe(Init<T>(n));
    }
    assert Inv(ss[k], n);
  }

  /** No more units are held, or on their way to or from a holder, than there are. */
  ghost predicate Exclusive<T>(s: Sem<T>, n: nat)
  {
    |s.holders| + InFlight(s) <= n
  }

  /** A release that lowers a value of zero: its unit was taken in the meantime. */
  ghost predicate Overdraws<T>(s: Sem<T>, e: Event<T>)
  {
    e.Lower? && s.value == 0
  }

  /** Exclusion holds throughout a run exactly when no release overdraws. */
  lemma ExclusiveExactly<T>(ss: seq<Sem<T>>, es: seq<Event<T>>, n: nat, k: nat)
    requires n < WORD && IsRun(ss, es, n) && k < |ss|
    ensures (forall j :: 0 <= j <= k ==> Exclusive(ss[j], n)) <==> (forall i :: 0 <= i < k ==> !Overdraws(ss[i], es[i]))
  {
    forall j | 0 <= j <= k ensures Exclusive(ss[j], n) <==> ss[j].value >= 0 {
      RunKeepsInv(ss, es, n, j);
    }
    if forall i :: 0 <= i < k ==> !Overdraws(ss[i], es[i]) {
      forall j | 0 <= j <= k ensures ss[j].value >= 0 {
        NeverNegative(ss, es, n, j);
      }
    }
    if forall j :: 0 <= j <= k ==> Exclusive(ss[j], n) {
      forall i | 0 <= i < k ensures !Overdraws(ss[i], es[i]) {
        assert Follows(ss[i], es[i], ss[i + 1]) && Exclusive(ss[i + 1], n);
      }
    }
  }

  lemma {:induction false} NeverNegative<T>(ss: seq<Sem<T>>, es: seq<Event<T>>, n: nat, k: nat)
    requires n < WORD && IsRun(ss, es, n) && k < |ss|
    requires forall i :: 0 <= i < k ==> !Overdraws(ss[i], es[i])
    ensures ss[k].value >= 0
    decreases k
  {
    if k > 0 {
      NeverNegative(ss, es, n, k - 1);
      assert Follows(ss[k - 1], es[k - 1], ss[k - 1 + 1]) && !Overdraws(ss[k - 1], es[k - 1]);
    }
  }

  // And with barging exclusion does fail.  Thread 1 holds a mutex and 2 waits for it; 1 gives
  // it up and raises the value, 3 takes it, and 2 is then made a holder as well.

  function Act(i: nat): Event<nat>
  {
    match i
    case 0 => Test(1)
    case 1 => Finish
    case 2 => Test(2)
    case 3 => Finish
    case 4 => Remove(1)
    case 5 => Raise
    case 6 => Test(3)
    case 7 => Finish
    case 8 => Look
    case 9 => Lower(2)
    case _ => Insert(2)
  }

  function Scene(i: nat): Sem<nat>
  {
    match i
    case 0 => Init(1)
    case 1 => Sem(0, [], [], Claimed(1), 0, 0, multiset{}, multiset{})
    case 2 => Sem(0, [1], [], Free, 0, 0, multiset{}, multiset{})
    case 3 => Sem(0, [1], [], MustWait(2), 0, 0, multiset{}, multiset{})
    case 4 => Sem(0, [1], [2], Free, 0, 0, multiset{}, multiset{})
    case 5 => Sem(0, [], [2], Free, 1, 0, multiset{}, multiset{})
    case 6 => Sem(1, [], [2], Free, 0, 1, multiset{}, multiset{})
    case 7 => Sem(0, [], [2], Claimed(3), 0, 1, multiset{}, multiset{})
    case 8 => Sem(0, [3], [2], Free, 0, 1, multiset{}, multiset{})
    case 9 => Sem(0, [3], [], Free, 0, 0, multiset{2}, multiset{})
    case 10 => Sem(-1, [3], [], Free, 0, 0, multiset{}, multiset{2})
    case _ => Sem(-1, [3, 2], [], Free, 0, 0, multiset{}, multiset{})
  }

  lemma LastHolderLeaves<T>(s: Sem<T>, t: T)
    requires s.holders == [t]
    ensures Follows(s, Remove(t), s.(holders := [], removed := s.removed + 1))
  {
    assert Without([t], t) == [];
  }

  lemma OnlyWaiterPopped<T>(s: Sem<T>, t: T)
    requires s.waiting == [t] && s.raised > 0 && s.popped == multiset{}
    ensures Follows(s, Look, s.(raised := s.raised - 1, waiting := [], popped := multiset{t}))
  {
  }

  lemma OnlyPoppedLowered<T>(s: Sem<T>, t: T)
    requires s.acquire.Free? && s.popped == multiset{t} && s.lowered == multiset{}
    ensures Follows(s, Lower(t), s.(value := s.value - 1, popped := multiset{}, lowered := multiset{t}))
  {
  }

  lemma OnlyLoweredInserted<T>(s: Sem<T>, t: T)
    requires s.lowered == multiset{t}
    ensures Follows(s, Insert(t), s.(lowered := multiset{}, holders := s.holders + [t]))
  {
  }

  lemma SceneFollows(i: nat)
    requires i < 11
    ensures Follows(Scene(i), Act(i), Scene(i + 1))
  {
    if i == 4 {
      hide Follows;
      LastHolderLeaves(Scene(4), 1);
    } else if i < 8 {
      assert i in {0, 1, 2, 3, 5, 6, 7};
    } else {
      hide Follows;
      OnlyWaiterPopped(Scene(8), 2);
      OnlyPoppedLowered(Scene(9), 2);
      OnlyLoweredInserted(Scene(10), 2);
      assert [3] + [2] == [3, 2];
    }
  }

  /** A run of a mutex, ending quietly, with two holders and the value wrapped around. */
  lemma TwoHolders()
    ensures exists ss: seq<Sem<nat>>, es: seq<Event<nat>> ::
              IsRun(ss, es, 1) && |es| == 11 && Quiet(ss[11]) && |ss[11].holders| == 2 && ss[11].value == -1
  {
    var ss := seq(12, (i: nat) => Scene(i));
    var es := seq(11, (i: nat) => Act(i));
    forall i | 0 <= i < 11 ensures Follows(ss[i], es[i], ss[i + 1]) {
      SceneFollows(i);
    }
    assert IsRun(ss, es, 1);
    assert ss[11] == Scene(11);
  }
}
