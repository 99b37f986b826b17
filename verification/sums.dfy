/** Sums over the values of a finite map, where a missing key counts as zero. */
module Sums {
  function Get<K>(m: map<K, int>, k: K): int {
    if k in m then m[k] else 0
  }

  function When(condition: bool, amount: int): int {
    if condition then amount else 0
  }

  ghost function Pick<K>(keys: set<K>): (k: K)
    requires keys != {}
    ensures k in keys
  {
    var k :| k in keys;
    k
  }

  ghost function SumOver<K>(m: map<K, int>, keys: set<K>): int {
    if keys == {} then 0 else Get(m, Pick(keys)) + SumOver(m, keys - {Pick(keys)})
  }

  ghost function Total<K>(m: map<K, int>): int {
    SumOver(m, m.Keys)
  }

  /** The choice of the first summand does not matter. */
  lemma {:induction false} SumRemove<K>(m: map<K, int>, keys: set<K>, k: K)
    requires k in keys
    ensures SumOver(m, keys) == Get(m, k) + SumOver(m, keys - {k})
    decreases keys
  {
    var x := Pick(keys);
    if k != x {
      SumRemove(m, keys - {x}, k);
      SumRemove(m, keys - {k}, x);
      assert keys - {x} - {k} == keys - {k} - {x};
    }
  }

  lemma {:induction false} SumSame<K>(m: map<K, int>, n: map<K, int>, keys: set<K>)
    requires forall k :: k in keys ==> Get(m, k) == Get(n, k)
    ensures SumOver(m, keys) == SumOver(n, keys)
    decreases keys
  {
    if keys != {} {
      SumSame(m, n, keys - {Pick(keys)});
    }
  }

  lemma TotalRemove<K>(m: map<K, int>, k: K)
    ensures Total(m - {k}) == Total(m) - Get(m, k)
  {
    var rest := m.Keys - {k};
    assert (m - {k}).Keys == rest;
    SumSame(m, m - {k}, rest);
    if k in m {
      SumRemove(m, m.Keys, k);
    } else {
      assert rest == m.Keys;
    }
  }

  lemma TotalUpdate<K>(m: map<K, int>, k: K, v: int)
    ensures Total(m[k := v]) == Total(m) - Get(m, k) + v
  {
    TotalRemove(m, k);
    TotalRemove(m[k := v], k);
    assert m[k := v] - {k} == m - {k};
  }

  ghost predicate AllNonNegative<K>(m: map<K, int>) {
    forall k :: k in m ==> m[k] >= 0
  }

  lemma {:induction false} SumNonNegative<K>(m: map<K, int>, keys: set<K>)
    requires AllNonNegative(m)
    ensures SumOver(m, keys) >= 0
    decreases keys
  {
    if keys != {} {
      SumNonNegative(m, keys - {Pick(keys)});
    }
  }

  lemma GetAtMostTotal<K>(m: map<K, int>, k: K)
    requires AllNonNegative(m)
    ensures 0 <= Get(m, k) <= Total(m)
  {
    SumNonNegative(m, m.Keys);
    if k in m {
      SumRemove(m, m.Keys, k);
      SumNonNegative(m, m.Keys - {k});
    }
  }

  lemma TotalEmpty<K>(m: map<K, int>)
    requires m.Keys == {}
    ensures Total(m) == 0
  {
  }

  // ----- sums over sequences

  ghost function SumSeq<T>(s: seq<T>, f: T -> int): int {
    if s == [] then 0 else f(s[0]) + SumSeq(s[1..], f)
  }

  lemma {:induction false} SumSeqUpdate<T>(s: seq<T>, f: T -> int, i: nat, x: T)
    requires i < |s|
    ensures SumSeq(s[i := x], f) == SumSeq(s, f) - f(s[i]) + f(x)
  {
    if i > 0 {
      SumSeqUpdate(s[1..], f, i - 1, x);
      assert s[i := x][1..] == s[1..][i - 1 := x];
    } else {
      assert s[i := x][1..] == s[1..];
    }
  }

  lemma {:induction false} SumSeqSame<T>(s: seq<T>, t: seq<T>, f: T -> int)
    requires |s| == |t| && forall i :: 0 <= i < |s| ==> f(s[i]) == f(t[i])
    ensures SumSeq(s, f) == SumSeq(t, f)
  {
    if s != [] {
      SumSeqSame(s[1..], t[1..], f);
    }
  }

  lemma {:induction false} SumSeqNonNegative<T(!new)>(s: seq<T>, f: T -> int)
    requires forall x :: f(x) >= 0
    ensures SumSeq(s, f) >= 0
    ensures forall i :: 0 <= i < |s| ==> f(s[i]) <= SumSeq(s, f)
  {
    if s != [] {
      SumSeqNonNegative(s[1..], f);
    }
  }

  lemma {:induction false} SumSeqAppend<T>(s: seq<T>, t: seq<T>, f: T -> int)
    ensures SumSeq(s + t, f) == SumSeq(s, f) + SumSeq(t, f)
  {
    if s == [] {
      assert s + t == t;
    } else {
      SumSeqAppend(s[1..], t, f);
      assert (s + t)[1..] == s[1..] + t;
    }
  }
}
