/** What `PickNext` decides (kernel/src/Scheduling/Scheduler.cpp), on plain values:
    four priority queues, an idle queue and three 8-bit run counters per processor. */
module SchedulerSpec {
  import opened Options

  /** The queue a thread belongs to: its process's priority, or the idle queue. */
  datatype Kind = Kernel | High | Normal | Low | Idle

  datatype Queues<T> = Queues(kernel: seq<T>, high: seq<T>, normal: seq<T>, low: seq<T>, idle: seq<T>)
  {
    function Get(k: Kind): seq<T>
    {
      match k
      case Kernel => kernel
      case High => high
      case Normal => normal
      case Low => low
      case Idle => idle
    }

    function Put(k: Kind, s: seq<T>): Queues<T>
    {
      match k
      case Kernel => this.(kernel := s)
      case High => this.(high := s)
      case Normal => this.(normal := s)
      case Low => this.(low := s)
      case Idle => this.(idle := s)
    }
  }

  /** A processor: the thread it runs and how often in a row each class has run. */
  datatype Cpu<T> = Cpu(current: Option<T>, kernelRun: nat, highRun: nat, normalRun: nat)

  /** An 8-bit counter. */
  function Inc8(x: nat): nat
  {
    (x + 1) % 256
  }

  /** The counters after the running thread, of kind `k`, has been put back. */
  function Bump<T>(c: Cpu<T>, k: Kind): Cpu<T>
  {
    match k
    case Kernel => c.(kernelRun := Inc8(c.kernelRun))
    case High => c.(highRun := Inc8(c.highRun))
    case Normal => c.(normalRun := Inc8(c.normalRun))
    case Low => c
    case Idle => c
  }

  /** The queue `PickNext` takes from; `None` when nothing at all can run. */
  function Choice<T>(q: Queues<T>, c: Cpu<T>): Option<Kind>
  {
    if (c.kernelRun >= 4 || q.kernel == []) && (q.high != [] || q.normal != [] || q.low != []) then
      if (c.highRun >= 4 || q.high == []) && (q.normal != [] || q.low != []) then
        if (c.normalRun >= 4 || q.normal == []) && q.low != [] then Some(Low) else Some(Normal)
      else Some(High)
    else if q.kernel == [] then
      if q.idle != [] then Some(Idle) else None
    else Some(Kernel)
  }

  /** Counters after a choice: a class that was passed over starts afresh. */
  function Reset<T>(c: Cpu<T>, k: Kind): Cpu<T>
  {
    match k
    case Kernel => c
    case Idle => c
    case High => c.(kernelRun := 0)
    case Normal => c.(kernelRun := 0, highRun := 0)
    case Low => c.(kernelRun := 0, highRun := 0, normalRun := 0)
  }

  /** Only a non-empty queue is ever popped, and the idle queue (or nothing) is chosen
      exactly when all four priority queues are empty. */
  lemma ChoiceIsServable<T>(q: Queues<T>, c: Cpu<T>)
    ensures Choice(q, c).Some? ==> q.Get(Choice(q, c).value) != []
    ensures Choice(q, c) == None || Choice(q, c) == Some(Idle) <==>
            q.kernel == [] && q.high == [] && q.normal == [] && q.low == []
    ensures Choice(q, c) == None ==> q.idle == []
  {
  }

  /** The second half of `PickNext`: pop the front of the chosen queue. */
  function Select<T>(q: Queues<T>, c: Cpu<T>): (Queues<T>, Cpu<T>)
  {
    match Choice(q, c)
    case None => (q, c.(current := None))
    case Some(k) =>
      ChoiceIsServable(q, c);
      (q.Put(k, q.Get(k)[1..]), Reset(c, k).(current := Some(q.Get(k)[0])))
  }

  /** The first half: put the running thread at the back of its queue. */
  function Requeue<T>(q: Queues<T>, c: Cpu<T>, kind: T -> Kind): (Queues<T>, Cpu<T>)
  {
    if c.current == None then (q, c)
    else
      var k := kind(c.current.value);
      (q.Put(k, q.Get(k) + [c.current.value]), Bump(c, k))
  }

  /** `PickNext` as a whole. */
  function Pick<T>(q: Queues<T>, c: Cpu<T>, kind: T -> Kind): (Queues<T>, Cpu<T>)
  {
    var (q', c') := Requeue(q, c, kind);
    Select(q', c')
  }

  // ------------------------------------------------------------ bounded waiting

  /** Every thread is in the queue of its own kind. */
  ghost predicate Filed<T>(q: Queues<T>, kind: T -> Kind)
  {
    forall k: Kind, i :: 0 <= i < |q.Get(k)| ==> kind(q.Get(k)[i]) == k
  }

  lemma ChosenKind<T>(q: Queues<T>, c: Cpu<T>, kind: T -> Kind)
    requires Filed(q, kind) && Choice(q, c).Some?
    ensures Select(q, c).1.current.Some? && kind(Select(q, c).1.current.value) == Choice(q, c).value
  {
    ChoiceIsServable(q, c);
    var k := Choice(q, c).value;
    assert kind(q.Get(k)[0]) == k;
  }

  /** The processor as `Select` sees it: its running thread has just been put back. */
  function Ready<T>(c: Cpu<T>, kind: T -> Kind): Cpu<T>
  {
    if c.current == None then c else Bump(c, kind(c.current.value))
  }

  /** Successive picks on one processor.  `qs[i]` is the state of the queues at the moment of
      the i-th choice; between choices other processors may do anything at all to them.  The
      thread that ran is put back before each choice. */
  ghost predicate Picks<T>(cs: seq<Cpu<T>>, qs: seq<Queues<T>>, kind: T -> Kind)
  {
    && |cs| == |qs| + 1
    && (forall i :: 0 <= i < |qs| ==> Filed(qs[i], kind))
    && (forall i {:trigger qs[i]} :: 0 <= i < |qs| ==> cs[i + 1] == Select(qs[i], Ready(cs[i], kind)).1)
  }

  function Chosen<T>(cs: seq<Cpu<T>>, qs: seq<Queues<T>>, kind: T -> Kind, i: nat): Option<Kind>
    requires i < |qs| && |cs| == |qs| + 1
  {
    Choice(qs[i], Ready(cs[i], kind))
  }

  /** Turns a class can still take before its counter forces it to be passed over. */
  function Left(run: nat): nat
  {
    if run >= 4 then 0 else 4 - run
  }

  function WaitAny<T>(c: Cpu<T>): nat
  {
    Left(c.kernelRun)
  }

  function WaitNormal<T>(c: Cpu<T>): nat
  {
    Left(c.kernelRun) + 5 * Left(c.highRun)
  }

  /** The picks that can still go to other classes before a low thread's turn. */
  function WaitLow<T>(c: Cpu<T>): (w: nat)
    ensures w <= 124
  {
    Left(c.kernelRun) + 5 * Left(c.highRun) + 25 * Left(c.normalRun)
  }

  /** A pick that passes over a waiting class brings that class's turn nearer, in spite of
      the counters' wrap-around; with every queue occupied it does so by exactly one. */
  lemma WaitShrinks<T>(q: Queues<T>, c: Cpu<T>, kind: T -> Kind)
    requires Filed(q, kind)
    ensures var k, c' := Choice(q, c), Ready(Select(q, c).1, kind);
            && (q.low != [] && k != Some(Low) ==> WaitLow(c') < WaitLow(c))
            && ((q.low != [] || q.normal != []) && k != Some(Low) && k != Some(Normal) ==>
                 WaitNormal(c') < WaitNormal(c))
            && ((q.low != [] || q.normal != [] || q.high != []) && k == Some(Kernel) ==> WaitAny(c') < WaitAny(c))
            && (q.low != [] && q.normal != [] && q.high != [] && q.kernel != [] ==>
                  (k == Some(Low) <==> WaitLow(c) == 0) && (k != Some(Low) ==> WaitLow(c') == WaitLow(c) - 1))
  {
    if Choice(q, c).Some? {
      ChosenKind(q, c, kind);
    }
  }

  /** A class that is passed over starts afresh, so the wait for the next turn of a lower one is
      again as long as it can be; an idle thread, or none, changes no counter. */
  lemma WaitsAfresh<T>(q: Queues<T>, c: Cpu<T>, kind: T -> Kind)
    requires Filed(q, kind)
    ensures var k, c' := Choice(q, c), Ready(Select(q, c).1, kind);
            && (k == Some(Low) ==> WaitLow(c') == 124)
            && (k == Some(Normal) ==> WaitNormal(c') == 24)
            && (k == Some(High) ==> WaitAny(c') == 4)
            && (k == Some(Idle) || k == None ==>
                  c'.kernelRun == c.kernelRun && c'.highRun == c.highRun && c'.normalRun == c.normalRun)
  {
    if Choice(q, c).Some? {
      ChosenKind(q, c, kind);
    }
  }

  /** While only kernel threads are picked their counter runs on in 8 bits, so that it forgets every
      256 picks how often they have run. */
  lemma {:induction false} CounterWraps<T>(cs: seq<Cpu<T>>, qs: seq<Queues<T>>, kind: T -> Kind, n: nat)
    requires Picks(cs, qs, kind) && n <= |qs| && Ready(cs[0], kind).kernelRun < 256
    requires forall i :: 0 <= i < n ==> Chosen(cs, qs, kind, i) == Some(Kernel)
    ensures Ready(cs[n], kind).kernelRun == (Ready(cs[0], kind).kernelRun + n) % 256
    decreases n
  {
    if n > 0 {
      CounterWraps(cs, qs, kind, n - 1);
      var c := Ready(cs[n - 1], kind);
      assert Chosen(cs, qs, kind, n - 1) == Some(Kernel);
      ChosenKind(qs[n - 1], c, kind);
      assert cs[n - 1 + 1] == Select(qs[n - 1], c).1;
    }
  }

  /** A low thread is taken in one of any 125 consecutive picks at which the low queue is
      occupied, whatever the other processors do. */
  lemma LowWithin125<T>(cs: seq<Cpu<T>>, qs: seq<Queues<T>>, kind: T -> Kind, from: nat)
    requires Picks(cs, qs, kind) && from + 125 <= |qs|
    requires forall i :: from <= i < from + 125 ==> qs[i].low != []
    ensures exists i :: from <= i < from + 125 && Chosen(cs, qs, kind, i) == Some(Low)
  {
    var j := from;
    while j < from + 125 && Chosen(cs, qs, kind, j) != Some(Low)
      invariant from <= j <= from + 125
      invariant WaitLow(Ready(cs[j], kind)) + (j - from) <= 124
    {
      WaitShrinks(qs[j], Ready(cs[j], kind), kind);
      j := j + 1;
    }
  }

  /** A normal or low thread is taken in one of any 25 picks at which one is queued. */
  lemma NormalWithin25<T>(cs: seq<Cpu<T>>, qs: seq<Queues<T>>, kind: T -> Kind, from: nat)
    requires Picks(cs, qs, kind) && from + 25 <= |qs|
    requires forall i :: from <= i < from + 25 ==> qs[i].low != [] || qs[i].normal != []
    ensures exists i :: from <= i < from + 25 && Chosen(cs, qs, kind, i) in {Some(Low), Some(Normal)}
  {
    var j := from;
    while j < from + 25 && Chosen(cs, qs, kind, j) !in {Some(Low), Some(Normal)}
      invariant from <= j <= from + 25
      invariant WaitNormal(Ready(cs[j], kind)) + (j - from) <= 24
    {
      WaitShrinks(qs[j], Ready(cs[j], kind), kind);
      j := j + 1;
    }
  }

  /** A thread that is not a kernel thread is taken in one of any 5 picks at which one is queued. */
  lemma AnyWithin5<T>(cs: seq<Cpu<T>>, qs: seq<Queues<T>>, kind: T -> Kind, from: nat)
    requires Picks(cs, qs, kind) && from + 5 <= |qs|
    requires forall i :: from <= i < from + 5 ==> qs[i].low != [] || qs[i].normal != [] || qs[i].high != []
    ensures exists i :: from <= i < from + 5 && Chosen(cs, qs, kind, i) in {Some(Low), Some(Normal), Some(High)}
  {
    var j := from;
    while j < from + 5 && Chosen(cs, qs, kind, j) !in {Some(Low), Some(Normal), Some(High)}
      invariant from <= j <= from + 5
      invariant WaitAny(Ready(cs[j], kind)) + (j - from) <= 4
    {
      ChoiceIsServable(qs[j], Ready(cs[j], kind));
      WaitShrinks(qs[j], Ready(cs[j], kind), kind);
      j := j + 1;
    }
  }

  /** The bound is exact: with all four queues occupied, the low thread's turn comes after
      precisely `WaitLow` other picks, which is 124 for a processor that starts afresh. */
  lemma LowExactly<T>(cs: seq<Cpu<T>>, qs: seq<Queues<T>>, kind: T -> Kind, w: nat)
    requires Picks(cs, qs, kind) && w == WaitLow(Ready(cs[0], kind)) < |qs|
    requires forall i :: 0 <= i <= w ==> qs[i].low != [] && qs[i].normal != [] && qs[i].high != [] && qs[i].kernel != []
    ensures forall i :: 0 <= i <= w ==> (Chosen(cs, qs, kind, i) == Some(Low) <==> i == w)
    ensures cs[0] == Cpu(None, 0, 0, 0) ==> w == 124
  {
    var j := 0;
    while j < w
      invariant 0 <= j <= w
      invariant WaitLow(Ready(cs[j], kind)) == w - j
      invariant forall i :: 0 <= i < j ==> Chosen(cs, qs, kind, i) != Some(Low)
    {
      WaitShrinks(qs[j], Ready(cs[j], kind), kind);
      j := j + 1;
    }
    WaitShrinks(qs[w], Ready(cs[w], kind), kind);
  }
}
