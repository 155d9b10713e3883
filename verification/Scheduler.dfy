/** The intrusive thread lists and `PickNext` itself, on linked thread objects. */
module Scheduler {
  import opened Options
  import opened SchedulerSpec

  class Thread {
    const kind: Kind
    var next: Thread?
    var previous: Thread?

    constructor (kind: Kind)
      ensures this.kind == kind && Detached()
    {
      this.kind := kind;
      next, previous := null, null;
    }

    /** In no list. */
    predicate Detached()
      reads this
    {
      next == null && previous == null
    }
  }

  /** The i-th thread; null outside the sequence. */
  function At(s: seq<Thread>, i: int): Thread?
  {
    if 0 <= i < |s| then s[i] else null
  }

  class ThreadList {
    var start: Thread?
    var end: Thread?
    var count: nat
    ghost var elems: seq<Thread>

    constructor ()
      ensures Valid() && elems == []
    {
      start, end, count, elems := null, null, 0, [];
    }

    /** A doubly linked list through exactly `elems`, each thread once. */
    ghost predicate Valid()
      reads this, elems
    {
      && count == |elems|
      && (forall i, j :: 0 <= i < j < |elems| ==> elems[i] != elems[j])
      && start == (if elems == [] then null else elems[0])
      && end == (if elems == [] then null else elems[|elems| - 1])
      && (forall i {:trigger elems[i].next} :: 0 <= i < |elems| ==> elems[i].next == At(elems, i + 1))
      && (forall i {:trigger elems[i].previous} :: 0 <= i < |elems| ==> elems[i].previous == At(elems, i - 1))
    }

    method PushBack(thread: Thread)
      requires Valid() && thread !in elems && thread.Detached()
      modifies this, thread, end
      ensures Valid() && elems == old(elems) + [thread]
    {
      if end != null {
        end.next := thread;
      }
      thread.previous := end;
      end := thread;
      if start == null {
        start := thread;
      }
      count := count + 1;
      elems := elems + [thread];
    }

    method PushFront(thread: Thread)
      requires Valid() && thread !in elems && thread.Detached()
      modifies this, thread, start
      ensures Valid() && elems == [thread] + old(elems)
    {
      thread.next := start;
      if start != null {
        start.previous := thread;
      }
      start := thread;
      if end == null {
        end := thread;
      }
      count := count + 1;
      elems := [thread] + elems;
    }

    method PopFront() returns (thread: Thread?)
      requires Valid()
      modifies this, At(elems, 0), At(elems, 1)
      ensures Valid()
      ensures old(elems) == [] ==> thread == null && elems == []
      ensures old(elems) != [] ==> thread == old(elems)[0] && elems == old(elems)[1..] && thread.Detached()
    {
      if count == 0 {
        return null;
      }
      if count == 1 {
        thread := start;
        assert thread == elems[0];
        start := null;
        end := null;
        count := 0;
        elems := [];
        return;
      }
      thread := start;
      assert thread == elems[0] && elems[1] in elems;
      start := thread.next;
      start.previous := null;
      thread.next := null;
      count := count - 1;
      elems := elems[1..];
    }

    method PopBack() returns (thread: Thread?)
      requires Valid()
      modifies this, At(elems, |elems| - 1), At(elems, |elems| - 2)
      ensures Valid()
      ensures old(elems) == [] ==> thread == null && elems == []
      ensures old(elems) != [] ==>
                && thread == old(elems)[|old(elems)| - 1] && elems == old(elems)[..|old(elems)| - 1]
                && thread.Detached()
    {
      if count == 0 {
        return null;
      }
      if count == 1 {
        thread := end;
        assert thread == elems[0];
        start := null;
        end := null;
        count := 0;
        elems := [];
        return;
      }
      thread := end;
      assert thread == elems[|elems| - 1] && elems[|elems| - 2] in elems;
      end := end.previous;
      end.next := null;
      thread.previous := null;
      count := count - 1;
      elems := elems[..|elems| - 1];
    }

    method Get(index: nat) returns (thread: Thread?)
      requires Valid()
      ensures thread == if index < |elems| then elems[index] else null
    {
      if index >= count {
        return null;
      }
      thread := start;
      for i := 0 to index
        invariant thread == elems[i]
      {
        thread := thread.next;
      }
    }

    method Contains(thread: Thread) returns (found: bool)
      requires Valid()
      ensures found <==> thread in elems
    {
      var current := start;
      ghost var i := 0;
      while current != null
        invariant 0 <= i <= |elems|
        invariant current == if i < |elems| then elems[i] else null
        invariant thread !in elems[..i]
        decreases |elems| - i
      {
        if current == thread {
          return true;
        }
        current := current.next;
        i := i + 1;
      }
      return false;
    }
  }

  lemma SameQueues<T>(p: Queues<T>, q: Queues<T>)
    requires forall k: Kind :: p.Get(k) == q.Get(k)
    ensures p == q
  {
    assert p.Get(Kernel) == q.Get(Kernel) && p.Get(High) == q.Get(High) && p.Get(Normal) == q.Get(Normal);
    assert p.Get(Low) == q.Get(Low) && p.Get(Idle) == q.Get(Idle);
  }

  function KindOf(t: Thread): Kind
  {
    t.kind
  }

  class Processor {
    var current: Thread?
    var kernelRun: nat
    var highRun: nat
    var normalRun: nat

    constructor ()
      ensures View() == Cpu(None, 0, 0, 0)
    {
      current, kernelRun, highRun, normalRun := null, 0, 0, 0;
    }

    method CountRun(k: Kind)
      modifies this`kernelRun, this`highRun, this`normalRun
      ensures View() == old(Bump(View(), k))
    {
      match k {
        case Kernel => kernelRun := Inc8(kernelRun);
        case High => highRun := Inc8(highRun);
        case Normal => normalRun := Inc8(normalRun);
        case Low =>
        case Idle =>
      }
    }

    /** Run `t`, taken from the queue of kind `k`. */
    method Run(t: Thread, k: Kind)
      modifies this
      ensures current == t && View() == old(Reset(View(), k)).(current := Some(t))
    {
      current := t;
      match k {
        case Kernel =>
        case High => kernelRun := 0;
        case Normal => highRun := 0; kernelRun := 0;
        case Low => normalRun := 0; highRun := 0; kernelRun := 0;
        case Idle =>
      }
    }

    function View(): Cpu<Thread>
      reads this
    {
      Cpu(if current == null then None else (var t: Thread := current; Some(t)), kernelRun, highRun, normalRun)
    }
  }

  /** Position of each kind's list. */
  function Rank(k: Kind): (r: nat)
    ensures r < 5
  {
    match k
    case Kernel => 0
    case High => 1
    case Normal => 2
    case Low => 3
    case Idle => 4
  }

  lemma RanksDiffer(k: Kind, m: Kind)
    ensures Rank(k) == Rank(m) <==> k == m
  {
  }

  method FiveEmpty() returns (ls: seq<ThreadList>)
    ensures |ls| == 5 && forall i, j :: 0 <= i < j < 5 ==> ls[i] != ls[j]
    ensures forall i :: 0 <= i < 5 ==> fresh(ls[i]) && ls[i].Valid() && ls[i].elems == []
  {
    var kernel := new ThreadList();
    var high := new ThreadList();
    var normal := new ThreadList();
    var low := new ThreadList();
    var idle := new ThreadList();
    ls := [kernel, high, normal, low, idle];
  }

  class RunQueues {
    // The global kernel, high, normal, low and idle lists.
    const lists: seq<ThreadList>
    const cpus: seq<Processor>
    var totalThreads: nat

    constructor (processors: seq<Processor>)
      requires forall i, j :: 0 <= i < j < |processors| ==> processors[i] != processors[j]
      requires forall c :: c in processors ==> c.current == null
      ensures Valid(null) && cpus == processors && totalThreads == 0
      ensures View() == Queues([], [], [], [], [])
    {
      var five := FiveEmpty();
      lists := five;
      cpus, totalThreads := processors, 0;
      new;
      hide Rank, Valid, View;
      EmptyLists();
    }

    lemma EmptyLists()
      requires |lists| == 5 && forall i, j :: 0 <= i < j < 5 ==> lists[i] != lists[j]
      requires forall i :: 0 <= i < 5 ==> lists[i].Valid() && lists[i].elems == []
      requires forall i, j :: 0 <= i < j < |cpus| ==> cpus[i] != cpus[j]
      requires forall c :: c in cpus ==> c.current == null
      ensures Valid(null) && View() == Queues([], [], [], [], [])
    {
      forall k: Kind, m: Kind ensures k != m ==> ListOf(k) != ListOf(m) {
        RanksDiffer(k, m);
      }
      hide Rank;
    }

    function ListOf(k: Kind): ThreadList
      requires |lists| == 5
    {
      lists[Rank(k)]
    }

    ghost function View(): Queues<Thread>
      requires |lists| == 5
      reads lists
    {
      Queues(ListOf(Kernel).elems, ListOf(High).elems, ListOf(Normal).elems, ListOf(Low).elems, ListOf(Idle).elems)
    }

    ghost function Queued(): set<Thread>
      reads lists
      ensures forall k: Kind, t :: |lists| == 5 && t in ListOf(k).elems ==> t in Queued()
    {
      set l, t | l in lists && t in l.elems :: t
    }

    /** Every list is well formed and files only its own kind; no thread is in two lists. */
    ghost predicate ListsValid()
      reads lists, Queued()
    {
      && |lists| == 5
      && (forall k: Kind, m: Kind :: k != m ==> ListOf(k) != ListOf(m))
      && (forall k: Kind :: ListOf(k) in lists && ListOf(k).Valid())
      && (forall k: Kind, t: Thread :: t in ListOf(k).elems ==> t.kind == k)
    }

    ghost function Current(): set<Thread>
      reads cpus
    {
      set c | c in cpus && c.current != null :: c.current
    }

    /** The running threads are detached and distinct.  A processor between the two halves of
        a pick (`except`) is left out: its thread is already back in a list. */
    ghost predicate CpusValid(except: Processor?)
      reads cpus, Current()
    {
      && (forall i, j :: 0 <= i < j < |cpus| ==> cpus[i] != cpus[j])
      && (forall c :: c in cpus && c != except && c.current != null ==> c.current.Detached())
      && (forall c, d :: c in cpus && d in cpus && c != except && d != except && c != d && c.current != null ==>
            c.current != d.current)
    }

    ghost predicate Apart(except: Processor?)
      requires |lists| == 5
      reads lists, cpus
    {
      forall c, k: Kind :: c in cpus && c != except && c.current != null ==> c.current !in ListOf(k).elems
    }

    ghost predicate Valid(except: Processor?)
      reads lists, Queued(), cpus, Current()
    {
      ListsValid() && CpusValid(except) && Apart(except)
    }

    /** Queue `t` with its kind. */
    method Push(t: Thread)
      requires ListsValid() && t.Detached() && forall k: Kind :: t !in ListOf(k).elems
      modifies ListOf(t.kind), t, ListOf(t.kind).end
      ensures ListsValid()
      ensures forall k: Kind ::
                ListOf(k).elems == if k == t.kind then old(ListOf(k).elems) + [t] else old(ListOf(k).elems)
    {
      hide Rank;
      var list := ListOf(t.kind);
      ghost var last := list.end;
      assert last != null ==> last in list.elems;
      assert last != null ==> last.kind == t.kind;
      list.PushBack(t);
      forall k: Kind | k != t.kind ensures ListOf(k).Valid() && ListOf(k).elems == old(ListOf(k).elems) {
        assert ListOf(k) != list && t !in old(ListOf(k).elems) && last !in old(ListOf(k).elems);
      }
    }

    /** First half of `PickNext`: the running thread goes to the back of its queue. */
    method PutBack(info: Processor)
      requires Valid(null) && info in cpus
      modifies info, info.current
      modifies if info.current != null then {ListOf(info.current.kind), ListOf(info.current.kind).end} else {}
      ensures Valid(info)
      ensures info.View() == old(Ready(info.View(), KindOf))
      ensures forall k: Kind :: ListOf(k).elems ==
                if old(info.current) != null && k == old(info.current).kind then
                  old(ListOf(k).elems) + [old(info.current)]
                else old(ListOf(k).elems)
    {
      hide Rank;
      if info.current != null {
        var t := info.current;
        ghost var last := ListOf(t.kind).end;
        assert last != null ==> last in ListOf(t.kind).elems;
        Push(t);
        info.CountRun(t.kind);
      }
    }

    lemma ViewGet(k: Kind)
      requires |lists| == 5
      ensures View().Get(k) == ListOf(k).elems
    {
    }

    /** Take the front of the list of kind `k`. */
    method Pop(k: Kind) returns (t: Thread)
      requires ListsValid() && ListOf(k).elems != []
      modifies ListOf(k), At(ListOf(k).elems, 0), At(ListOf(k).elems, 1)
      ensures ListsValid() && t.Detached() && t == old(ListOf(k).elems)[0]
      ensures forall m: Kind :: t !in ListOf(m).elems
      ensures forall m: Kind :: ListOf(m).elems == if m == k then old(ListOf(m).elems)[1..] else old(ListOf(m).elems)
    {
      hide Rank;
      var list := ListOf(k);
      ghost var a, b := At(list.elems, 0), At(list.elems, 1);
      assert a in list.elems && (b != null ==> b in list.elems);
      assert a.kind == k && (b != null ==> b.kind == k);
      t := list.PopFront();
      forall m: Kind | m != k
        ensures ListOf(m).Valid() && ListOf(m).elems == old(ListOf(m).elems) && a !in ListOf(m).elems
      {
        assert ListOf(m) != list && a !in old(ListOf(m).elems) && b !in old(ListOf(m).elems);
      }
    }

    /** Starting a thread on a processor leaves the lists alone. */
    method Dispatch(info: Processor, t: Thread, k: Kind)
      requires ListsValid()
      modifies info
      ensures ListsValid() && forall m: Kind :: ListOf(m).elems == old(ListOf(m).elems)
      ensures info.current == t && info.View() == old(Reset(info.View(), k)).(current := Some(t))
    {
      hide Rank, Reset;
      info.Run(t, k);
    }

    /** Run the front thread of the list of kind `k` on `info`. */
    method Take(info: Processor, k: Kind)
      requires Valid(info) && info in cpus && ListOf(k).elems != []
      modifies info, ListOf(k), At(ListOf(k).elems, 0), At(ListOf(k).elems, 1)
      ensures Valid(null)
      ensures info.View() == old(Reset(info.View(), k).(current := Some(ListOf(k).elems[0])))
      ensures forall m: Kind :: ListOf(m).elems == if m == k then old(ListOf(m).elems)[1..] else old(ListOf(m).elems)
    {
      hide Rank, Reset, ListsValid, Queued;
      FiveLists();
      ghost var a, b := At(ListOf(k).elems, 0), At(ListOf(k).elems, 1);
      assert a in ListOf(k).elems && (b != null ==> b in ListOf(k).elems);
      assert forall c :: c in cpus && c != info && c.current != null ==> c.current != a && c.current != b;
      var t := Pop(k);
      Dispatch(info, t, k);
      assert Apart(null) by {
        assert forall c, m: Kind :: c in cpus && c != info && c.current != null ==> c.current !in old(ListOf(m).elems);
      }
      assert CpusValid(null);
    }

    /** Second half of `PickNext`: choose under all four queue locks. */
    method Choose(info: Processor)
      requires Valid(info) && info in cpus
      modifies info, lists, Queued()
      ensures Valid(null)
      ensures View() == old(Select(View(), info.View()).0)
      ensures info.View() == old(Select(View(), info.View()).1)
    {
      hide Rank, ListsValid, CpusValid, Apart, Reset, Choice, View, Queued;
      FiveLists();
      DecideIs(info);
      var k := Decide(info);
      hide Decide;
      if k.None? {
        Rest(info);
      } else {
        TakeView(info, k.value);
      }
    }

    /** The decision, from the counts of the lists and the counters of the processor. */
    function Decide(info: Processor): Option<Kind>
      requires |lists| == 5
      reads lists, info
    {
      var kernels, highs := ListOf(Kernel).count, ListOf(High).count;
      var normals, lows, idles := ListOf(Normal).count, ListOf(Low).count, ListOf(Idle).count;
      if (info.kernelRun >= 4 || kernels == 0) && (highs > 0 || normals > 0 || lows > 0) then
        if (info.highRun >= 4 || highs == 0) && (normals > 0 || lows > 0) then
          if (info.normalRun >= 4 || normals == 0) && lows > 0 then Some(Low) else Some(Normal)
        else Some(High)
      else if kernels == 0 then
        if idles == 0 then None else Some(Idle)
      else Some(Kernel)
    }

    lemma DecideIs(info: Processor)
      requires ListsValid()
      ensures Decide(info) == Choice(View(), info.View())
    {
    }

    /** Nothing to run. */
    method Rest(info: Processor)
      requires Valid(info) && info in cpus
      modifies info
      ensures Valid(null) && View() == old(View()) && info.View() == old(info.View()).(current := None)
    {
      info.current := null;
    }

    /** Running the front of a list, stated on the queues as a whole. */
    method TakeView(info: Processor, k: Kind)
      requires Valid(info) && info in cpus && Choice(View(), info.View()) == Some(k)
      modifies info, lists, Queued()
      ensures Valid(null)
      ensures View() == old(Select(View(), info.View()).0)
      ensures info.View() == old(Select(View(), info.View()).1)
    {
      hide Rank, CpusValid, Apart, ListsValid, Queued, Reset, Choice, View;
      FiveLists();
      ghost var q := View();
      ChoiceIsServable(q, info.View());
      forall m: Kind ensures q.Get(m) == ListOf(m).elems {
        ViewGet(m);
      }
      FrontQueued(k);
      Take(info, k);
      FiveLists();
      ViewIs(q.Put(k, q.Get(k)[1..]));
    }

    lemma FrontQueued(k: Kind)
      requires ListsValid()
      ensures forall i :: At(ListOf(k).elems, i) != null ==> At(ListOf(k).elems, i) in Queued()
    {
    }

    lemma ViewIs(q: Queues<Thread>)
      requires |lists| == 5 && forall k: Kind :: ListOf(k).elems == q.Get(k)
      ensures View() == q
    {
      forall k: Kind ensures View().Get(k) == q.Get(k) {
        ViewGet(k);
      }
      SameQueues(View(), q);
    }

    lemma FiveLists()
      requires ListsValid()
      ensures |lists| == 5
      ensures forall k: Kind :: ListOf(k) in lists && (ListOf(k).end != null ==> ListOf(k).end in Queued())
    {
      forall k: Kind ensures ListOf(k).end != null ==> ListOf(k).end in Queued() {
        assert ListOf(k).end != null ==> ListOf(k).end in ListOf(k).elems;
      }
    }

    lemma QueuedIn(u: Thread) returns (k: Kind)
      requires ListsValid() && u in Queued()
      ensures u in ListOf(k).elems
    {
      var l, t :| l in lists && t in l.elems && t == u;
      var i :| 0 <= i < 5 && lists[i] == l;
      k := if i == 0 then Kernel else if i == 1 then High else if i == 2 then Normal else if i == 3 then Low else Idle;
    }

    /** The first half again, stated on the queues as a whole. */
    method PutBackView(info: Processor)
      requires Valid(null) && info in cpus
      modifies info, info.current, lists, Queued()
      ensures Valid(info)
      ensures (View(), info.View()) == old(Requeue(View(), info.View(), KindOf))
      ensures forall u :: u in Queued() ==> u in old(Queued()) || u == old(info.current)
      ensures totalThreads == old(totalThreads)
    {
      hide Rank, View, CpusValid, Apart, ListsValid, Queued;
      ghost var t := info.current;
      FiveLists();
      ghost var q, c, before := View(), info.View(), Queued();
      forall k: Kind ensures q.Get(k) == ListOf(k).elems {
        ViewGet(k);
      }
      PutBack(info);
      FiveLists();
      ViewIs(Requeue(q, c, KindOf).0);
      forall u | u in Queued() ensures u in before || u == t {
        var k := QueuedIn(u);
        assert u in q.Get(k) || u == t;
      }
    }

    /** Put the running thread back and choose the next.  The last thread alive just keeps
        running. */
    method PickNext(info: Processor)
      requires Valid(null) && info in cpus && totalThreads > 0
      modifies info, info.current, lists, Queued()
      ensures Valid(null) && totalThreads == old(totalThreads)
      ensures if totalThreads == 1 && old(info.current) != null
              then View() == old(View()) && info.View() == old(info.View())
              else (View(), info.View()) == old(Pick(View(), info.View(), KindOf))
    {
      if totalThreads == 1 && info.current != null {
        return;
      }
      hide Rank, CpusValid, Apart, Select, Queued, View, Requeue;
      PutBackView(info);
      Choose(info);
    }

    /** A thread that was away joins the back of its queue. */
    method ReaddThread(t: Thread)
      requires Valid(null) && t.Detached() && t.kind != Idle && t !in Queued() && t !in Current()
      modifies t, lists, Queued()
      ensures Valid(null)
      ensures forall k: Kind ::
                ListOf(k).elems == if k == t.kind then old(ListOf(k).elems) + [t] else old(ListOf(k).elems)
    {
      hide Rank;
      ghost var last := ListOf(t.kind).end;
      assert last != null ==> last in ListOf(t.kind).elems;
      assert last != null ==> last in Queued();
      Push(t);
    }
  }
}
