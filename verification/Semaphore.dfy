/** The semaphore object with each operation run to completion: the uninterrupted runs of
    the interleaved model, for which the strong promises hold. */
module Semaphore {
  import opened Machine
  import opened Seqs
  import opened SemaphoreSteps

  /** `acquire`, run through. */
  ghost function Acquired<T>(s: Sem<T>, t: T): Sem<T>
    requires Quiet(s)
  {
    Step(Step(s, Test(t)), Finish)
  }

  /** `release`, run through: nothing happens unless `t` is a holder. */
  ghost function Released<T>(s: Sem<T>, t: T): Sem<T>
    requires Quiet(s)
  {
    if t !in s.holders then s
    else
      var s' := Step(Step(Step(s, Remove(t)), Raise), Look);
      if s.waiting == [] then s'
      else Step(Step(s', Lower(s.waiting[0])), Insert(s.waiting[0]))
  }

  /** What an uninterrupted `acquire` amounts to: the caller itself becomes a holder while there
      are units, else the last waiter. */
  lemma AcquiredIs<T>(s: Sem<T>, t: T)
    requires Quiet(s) && 0 <= s.value < WORD
    ensures Acquired(s, t) ==
            if s.value == 0 then s.(waiting := s.waiting + [t])
            else s.(holders := s.holders + [t], value := s.value - 1)
  {
  }

  /** What an uninterrupted `release` amounts to. */
  lemma ReleasedIs<T>(s: Sem<T>, t: T)
    requires Quiet(s)
    ensures Released(s, t) ==
            if t !in s.holders then s
            else if s.waiting == [] then s.(holders := Without(s.holders, t), value := s.value + 1)
            else s.(holders := Without(s.holders, t) + [s.waiting[0]], waiting := s.waiting[1..])
  {
    if t in s.holders && s.waiting != [] {
      var w := s.waiting[0];
      var s3 := Step(Step(Step(s, Remove(t)), Raise), Look);
      assert s3.popped == multiset{w} && s3.lowered == multiset{};
      var s4 := Step(s3, Lower(w));
      assert s4.popped == multiset{} && s4.lowered == multiset{w};
      assert Step(s4, Insert(w)).lowered == multiset{};
    }
  }

  class Semaphore<T(==)> {
    const initial: nat
    var value: nat
    var holders: seq<T>
    var waiting: seq<T>
    // Everyone who ever had to wait, in order of arrival, and everyone woken, in order.
    ghost var arrivals: seq<T>
    ghost var woken: seq<T>

    /** Units are conserved, nobody waits while a unit is free, and waiters are served
        strictly in order of arrival. */
    ghost predicate Valid()
      reads this
    {
      && initial < 0x1_0000_0000
      && value + |holders| == initial
      && (waiting != [] ==> value == 0)
      && arrivals == woken + waiting
    }

    ghost function View(): (s: Sem<T>)
      reads this
      ensures Quiet(s)
    {
      Sem(value, holders, waiting, Free, 0, 0, multiset{}, multiset{})
    }

    constructor (value: nat)
      requires value < 0x1_0000_0000
      ensures Valid() && initial == value && View() == Init(value)
    {
      initial, this.value := value, value;
      holders, waiting, arrivals, woken := [], [], [], [];
    }

    method Acquire(t: T)
      requires Valid()
      modifies this
      ensures Valid() && View() == old(Acquired(View(), t))
      ensures if old(value) == 0 then holders == old(holders) && waiting == old(waiting) + [t]
              else multiset(holders) == multiset(old(holders)) + multiset{t} && waiting == old(waiting)
      ensures woken == old(woken)
      ensures arrivals == old(arrivals) + if old(value) == 0 then [t] else []
    {
      if value == 0 {
        waiting := waiting + [t];
        arrivals := arrivals + [t];
      } else {
        value := value - 1;
        holders := holders + [t];
      }
    }

    /** The try-form used once the value is known to be non-zero. */
    method AcquireNoLock(t: T)
      requires Valid()
      modifies this`value, this`holders
      ensures Valid()
      ensures if old(value) != 0 then View() == old(Acquired(View(), t)) else View() == old(View())
      ensures old(value) != 0 ==> multiset(holders) == multiset(old(holders)) + multiset{t}
    {
      if value != 0 {
        value := value - 1;
        holders := holders + [t];
      }
    }

    method Release(t: T)
      requires Valid()
      modifies this
      ensures Valid() && View() == old(Released(View(), t))
      ensures arrivals == old(arrivals)
      ensures woken == old(woken) + if t in old(holders) && old(waiting) != [] then [old(waiting)[0]] else []
    {
      ReleasedIs(View(), t);
      if t in holders {
        holders := Without(holders, t);
        value := value + 1;
        if |waiting| > 0 {
          var next := waiting[0];
          waiting := waiting[1..];
          value := value - 1;
          holders := holders + [next];
          woken := woken + [next];
        }
      }
    }

    /** The destructor makes every waiter runnable again, in order. */
    method Destroy() returns (readied: seq<T>)
      requires Valid()
      modifies this
      ensures readied == old(waiting) && waiting == [] && woken == old(woken) + readied
      ensures holders == old(holders) && value == old(value) && arrivals == old(arrivals)
    {
      readied := [];
      while |waiting| > 0
        invariant readied + waiting == old(waiting) && woken == old(woken) + readied
        invariant holders == old(holders) && value == old(value) && arrivals == old(arrivals)
        decreases |waiting|
      {
        var thread := waiting[0];
        waiting := waiting[1..];
        readied := readied + [thread];
        woken := woken + [thread];
      }
    }
  }

  // ------------------------------------------------------------- runs of whole calls

  datatype Call<T> = Take(t: T) | Give(t: T)

  ghost function Apply<T>(s: Sem<T>, c: Call<T>): Sem<T>
    requires Quiet(s)
  {
    if c.Take? then Acquired(s, c.t) else Released(s, c.t)
  }

  /** The state after a sequence of whole calls. */
  ghost function After<T>(n: nat, calls: seq<Call<T>>): (s: Sem<T>)
    ensures Quiet(s)
  {
    if calls == [] then Init(n)
    else
      var s := After(n, calls[..|calls| - 1]);
      ReleasedIs(s, calls[|calls| - 1].t);
      Apply(s, calls[|calls| - 1])
  }

  /** A call by one thread leaves the others where they were, but for the first waiter when a
      holder gives its unit up. */
  lemma CallMoves<T>(s: Sem<T>, c: Call<T>)
    requires Quiet(s) && 0 <= s.value < WORD
    ensures var s' := Apply(s, c);
            if c.Take? then
              && multiset(s'.holders) == multiset(s.holders) + (if s.value > 0 then multiset{c.t} else multiset{})
              && s'.waiting == s.waiting + (if s.value > 0 then [] else [c.t])
            else if c.t in s.holders then
              && multiset(s'.holders) == multiset(s.holders) - multiset{c.t} + multiset(s.waiting[..Front(s.waiting)])
              && s'.waiting == s.waiting[Front(s.waiting)..]
            else s' == s
  {
    if c.Take? {
      AcquiredIs(s, c.t);
    } else {
      ReleasedIs(s, c.t);
      if c.t in s.holders {
        WithoutOne(s.holders, c.t);
        assert s.waiting != [] ==> s.waiting[..1] == [s.waiting[0]];
      }
    }
  }

  /** One waiter is served if there is one. */
  function Front<T>(waiting: seq<T>): nat
  {
    if waiting == [] then 0 else 1
  }

  /** Value plus holders is always the initial count, and waiters exist only at value zero.
      A mutex never has two holders. */
  lemma {:induction false} CallsKeepCount<T>(n: nat, calls: seq<Call<T>>)
    requires n < WORD
    ensures var s := After(n, calls);
            && 0 <= s.value && s.value + |s.holders| == n && (s.waiting != [] ==> s.value == 0)
    ensures n == 1 ==> |After(n, calls).holders| <= 1
    decreases |calls|
  {
    if calls != [] {
      var front := calls[..|calls| - 1];
      CallsKeepCount(n, front);
      ReleasedIs(After(n, front), calls[|calls| - 1].t);
    }
  }
}
