/** ShuffleArray (core/utils/array.go): a Fisher-Yates shuffle in place. The random numbers are a parameter:
    draws[k] is what the k-th call of Intn returned. */
module Shuffle {
  import opened Sequences

  /** Each draw is an index into what is left of the slice. */
  ghost predicate ValidDraws(draws: seq<nat>, n: nat) {
    |draws| == n && forall k | 0 <= k < n :: draws[k] < n - k
  }

  predicate Distinct<T(==)>(s: seq<T>) {
    forall i, j | 0 <= i < j < |s| :: s[i] != s[j]
  }

  /** One round: the drawn element goes last, and the last one takes its place; what remains is shuffled on. */
  function Remaining<T>(s: seq<T>, r: nat): seq<T>
    requires r < |s|
  {
    var n := |s|;
    if r == n - 1 then s[..n - 1] else s[..n - 1][r := s[n - 1]]
  }

  /** The result of a shuffle, as a function of the draws. */
  ghost function Shuffled<T>(s: seq<T>, draws: seq<nat>): (t: seq<T>)
    requires ValidDraws(draws, |s|)
    ensures |t| == |s|
    decreases |s|
  {
    if s == [] then []
    else
      DrawsRest(draws, |s|);
      Shuffled(Remaining(s, draws[0]), draws[1..]) + [s[draws[0]]]
  }

  lemma DrawsRest(draws: seq<nat>, n: nat)
    requires ValidDraws(draws, n) && n > 0
    ensures ValidDraws(draws[1..], n - 1)
  {
  }

  lemma {:induction false} ShuffledStep<T>(s: seq<T>, r: nat, rest: seq<nat>)
    requires r < |s| && ValidDraws(rest, |s| - 1)
    ensures ValidDraws([r] + rest, |s|)
    ensures Shuffled(s, [r] + rest) == Shuffled(Remaining(s, r), rest) + [s[r]]
  {
  }

  /** The body of the loop. */
  method Swap<T>(a: array<T>, n: nat, randIndex: nat)
    requires randIndex < n <= a.Length
    modifies a
    ensures a[..n - 1] == Remaining(old(a[..n]), randIndex)
    ensures a[n - 1..] == [old(a[randIndex])] + old(a[n..])
  {
    ghost var before, after := a[..n], a[n..];
    a[n - 1], a[randIndex] := a[randIndex], a[n - 1];
    assert forall k | 0 <= k < n - 1 :: a[k] == Remaining(before, randIndex)[k];
    assert a[n..] == after;
  }

  method ShuffleArray<T>(a: array<T>, draws: seq<nat>)
    requires ValidDraws(draws, a.Length)
    modifies a
    ensures a[..] == Shuffled(old(a[..]), draws)
  {
    var n := a.Length;
    ghost var s, d, done := a[..], draws, [];
    assert s + done == s;
    while n > 0
      invariant 0 <= n <= a.Length && s == a[..n] && done == a[n..] && d == draws[a.Length - n..]
      invariant Leads(old(a[..]), draws, s, d, done)
    {
      var randIndex := draws[a.Length - n];
      TakeOne(old(a[..]), draws, s, d, done);
      Swap(a, n, randIndex);
      s, d, done := Remaining(s, randIndex), d[1..], [s[randIndex]] + done;
      n := n - 1;
    }
  }

  /** The shuffle of the whole slice is that of what is left, and what is done. */
  ghost predicate Leads<T>(all: seq<T>, draws: seq<nat>, s: seq<T>, d: seq<nat>, done: seq<T>) {
    ValidDraws(draws, |all|) && ValidDraws(d, |s|) && Shuffled(all, draws) == Shuffled(s, d) + done
  }

  lemma {:induction false} TakeOne<T>(all: seq<T>, draws: seq<nat>, s: seq<T>, d: seq<nat>, done: seq<T>)
    requires s != [] && Leads(all, draws, s, d, done)
    ensures Leads(all, draws, Remaining(s, d[0]), d[1..], [s[d[0]]] + done)
  {
  }

  // ---------- a permutation, whatever is drawn ----------

  lemma {:induction false} RemainingElements<T>(s: seq<T>, r: nat)
    requires r < |s|
    ensures multiset(Remaining(s, r)) + multiset{s[r]} == multiset(s)
  {
    var n := |s|;
    assert s == s[..n - 1] + [s[n - 1]];
    assert multiset(s) == multiset(s[..n - 1]) + multiset{s[n - 1]};
  }

  lemma {:induction false} ShuffledIsPermutation<T>(s: seq<T>, draws: seq<nat>)
    requires ValidDraws(draws, |s|)
    ensures multiset(Shuffled(s, draws)) == multiset(s)
    decreases |s|
  {
    if s != [] {
      DrawsRest(draws, |s|);
      ShuffledIsPermutation(Remaining(s, draws[0]), draws[1..]);
      RemainingElements(s, draws[0]);
    }
  }

  // ---------- every permutation can be drawn ----------

  function Find<T(==)>(s: seq<T>, x: T): (r: nat)
    requires x in s
    ensures r < |s| && s[r] == x
  {
    if s[0] == x then 0 else 1 + Find(s[1..], x)
  }

  /** The draws that turn s into t. */
  ghost function DrawsFor<T>(s: seq<T>, t: seq<T>): (draws: seq<nat>)
    requires multiset(s) == multiset(t)
    ensures ValidDraws(draws, |s|)
    decreases |s|
  {
    SameLength(s, t);
    if s == [] then []
    else
      var r := LastOf(s, t);
      [r] + DrawsFor(Remaining(s, r), t[..|t| - 1])
  }

  lemma {:induction false} SameLength<T>(s: seq<T>, t: seq<T>)
    requires multiset(s) == multiset(t)
    ensures |s| == |t|
  {
    assert |multiset(s)| == |s| && |multiset(t)| == |t|;
  }

  /** Where the last element of t is in s. */
  ghost function LastOf<T>(s: seq<T>, t: seq<T>): (r: nat)
    requires multiset(s) == multiset(t) && |s| == |t| > 0
    ensures r < |s| && s[r] == t[|t| - 1]
    ensures multiset(Remaining(s, r)) == multiset(t[..|t| - 1])
  {
    var last := t[|t| - 1];
    assert last in multiset(t);
    assert last in s;
    var r := Find(s, last);
    RemainingElements(s, r);
    assert t == t[..|t| - 1] + [last];
    Cancel(multiset(Remaining(s, r)), multiset(t[..|t| - 1]), multiset{last});
    r
  }

  lemma Cancel<T>(a: multiset<T>, b: multiset<T>, c: multiset<T>)
    requires a + c == b + c
    ensures a == b
  {
    assert a == (a + c) - c && b == (b + c) - c;
  }

  lemma {:induction false} EveryPermutationIsDrawn<T>(s: seq<T>, t: seq<T>)
    requires multiset(s) == multiset(t)
    ensures Shuffled(s, DrawsFor(s, t)) == t
    decreases |s|
  {
    SameLength(s, t);
    if s != [] {
      var r := DrawsStep(s, t);
      EveryPermutationIsDrawn(Remaining(s, r), t[..|t| - 1]);
      ShuffledStep(s, r, DrawsFor(Remaining(s, r), t[..|t| - 1]));
      SplitLast(t);
    }
  }

  lemma {:induction false} DrawsStep<T>(s: seq<T>, t: seq<T>) returns (r: nat)
    requires multiset(s) == multiset(t) && |s| == |t| > 0
    ensures r < |s| && s[r] == t[|t| - 1] && multiset(Remaining(s, r)) == multiset(t[..|t| - 1])
    ensures DrawsFor(s, t) == [r] + DrawsFor(Remaining(s, r), t[..|t| - 1])
  {
    r := LastOf(s, t);
  }

  lemma SplitLast<T>(t: seq<T>)
    requires t != []
    ensures t == t[..|t| - 1] + [t[|t| - 1]]
  {
  }

  // ---------- ... in just one way, if the elements are distinct ----------

  lemma {:induction false} RemainingIsDistinct<T>(s: seq<T>, r: nat)
    requires r < |s| && Distinct(s)
    ensures Distinct(Remaining(s, r))
  {
  }

  lemma {:induction false} SameDraws<T>(s: seq<T>, d: seq<nat>, e: seq<nat>)
    requires ValidDraws(d, |s|) && ValidDraws(e, |s|) && Distinct(s)
    requires Shuffled(s, d) == Shuffled(s, e)
    ensures d == e
    decreases |s|
  {
    if s != [] {
      var n := |s|;
      DrawsRest(d, n);
      DrawsRest(e, n);
      var t := Shuffled(s, d);
      assert t[n - 1] == s[d[0]] && t[n - 1] == s[e[0]];
      assert d[0] == e[0];
      assert t[..n - 1] == Shuffled(Remaining(s, d[0]), d[1..]) == Shuffled(Remaining(s, e[0]), e[1..]);
      RemainingIsDistinct(s, d[0]);
      SameDraws(Remaining(s, d[0]), d[1..], e[1..]);
      assert d == [d[0]] + d[1..] && e == [e[0]] + e[1..];
    }
  }

  /** Two equal elements, and two draws with the same result. */
  lemma {:induction false} TwoWays<T>(s: seq<T>, i: nat, j: nat) returns (d: seq<nat>, e: seq<nat>)
    requires i < j < |s| && s[i] == s[j]
    ensures ValidDraws(d, |s|) && ValidDraws(e, |s|) && d != e && Shuffled(s, d) == Shuffled(s, e)
  {
    var u, v := Remaining(s, i), Remaining(s, j);
    RemainingElements(s, i);
    RemainingElements(s, j);
    Cancel(multiset(u), multiset(v), multiset{s[i]});
    EveryPermutationIsDrawn(u, u);
    EveryPermutationIsDrawn(v, u);
    ShuffledStep(s, i, DrawsFor(u, u));
    ShuffledStep(s, j, DrawsFor(v, u));
    d, e := [i] + DrawsFor(u, u), [j] + DrawsFor(v, u);
    assert d[0] != e[0];
  }

  /** No two draws have the same result exactly when no two elements are equal. */
  lemma {:induction false} DrawsAreUniqueExactlyWhenDistinct<T>(s: seq<T>)
    ensures Distinct(s) <==>
            forall d, e | ValidDraws(d, |s|) && ValidDraws(e, |s|) && Shuffled(s, d) == Shuffled(s, e) :: d == e
  {
    if Distinct(s) {
      forall d, e | ValidDraws(d, |s|) && ValidDraws(e, |s|) && Shuffled(s, d) == Shuffled(s, e) ensures d == e {
        SameDraws(s, d, e);
      }
    } else {
      var i, j :| 0 <= i < j < |s| && s[i] == s[j];
      var d, e := TwoWays(s, i, j);
    }
  }
}
