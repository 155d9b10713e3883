/** Ways to cut and glue sequences, stated once for every element type. */
module Seqs {
  lemma Cut<T>(s: seq<T>, i: nat)
    requires i < |s|
    ensures s == s[..i] + [s[i]] + s[i + 1..]
  {
  }

  lemma CutRange<T>(s: seq<T>, i: nat, k: nat)
    requires i <= k <= |s|
    ensures s == s[..i] + s[i..k] + s[k..]
  {
  }

  lemma TakeSnoc<T>(s: seq<T>, i: nat)
    requires i < |s|
    ensures s[..i + 1] == s[..i] + [s[i]]
  {
  }

  lemma DropCons<T>(s: seq<T>, i: nat)
    requires i < |s|
    ensures s[i..] == [s[i]] + s[i + 1..]
  {
  }

  lemma Parts<T>(a: seq<T>, b: seq<T>)
    ensures (a + b)[..|a|] == a && (a + b)[|a|..] == b
    ensures a != [] ==> (a + b)[1..] == a[1..] + b
    ensures a + [] == a && [] + b == b
  {
  }

  lemma Assoc<T>(a: seq<T>, b: seq<T>, c: seq<T>)
    ensures a + b + c == a + (b + c)
  {
  }

  lemma NoMore<T>(a: seq<T>)
    ensures a + [] == a && [] + a == a
  {
  }

  lemma TailSnoc<T>(a: seq<T>, x: T)
    ensures a == [] ==> (a + [x])[1..] == []
    ensures a != [] ==> (a + [x])[1..] == a[1..] + [x]
  {
  }

  lemma Window<T>(a: seq<T>, b: seq<T>, c: seq<T>)
    ensures (a + b + c)[|a|..|a| + |b|] == b && |a + b + c| == |a| + |b| + |c|
  {
  }

  /** The list without the first occurrence of `t`. */
  function Without<T(==)>(s: seq<T>, t: T): (r: seq<T>)
    ensures t in s ==> |r| == |s| - 1
    ensures t !in s ==> r == s
  {
    if s == [] then [] else if s[0] == t then s[1..] else [s[0]] + Without(s[1..], t)
  }

  /** One occurrence goes, and nothing else. */
  lemma {:induction false} WithoutOne<T>(s: seq<T>, t: T)
    requires t in s
    ensures multiset(Without(s, t)) == multiset(s) - multiset{t}
  {
    assert s == [s[0]] + s[1..];
    if s[0] != t {
      WithoutOne(s[1..], t);
    }
  }
}
