/** Regrouping facts about sequences and multisets, stated on variables to keep their proofs small. */
module Sequences {

  lemma {:induction false} Regroup<T>(a: seq<T>, b: seq<T>, c: seq<T>, d: seq<T>, e: seq<T>)
    ensures a + b + (c + d + e) == a + (b + c + d) + e
  {
  }

  lemma {:induction false} Assoc5<T>(a: seq<T>, b: seq<T>, c: seq<T>, d: seq<T>, e: seq<T>)
    ensures a + (b + c + d) + e == (a + b) + c + (d + e)
  {
  }

  // Cutting sequences.

  lemma {:induction false} Cut<T>(s: seq<T>, t: seq<T>, n: nat)
    requires n < |t|
    ensures s + t[..n] + [t[n]] + t[n+1..] == s + t && t[..n] + [t[n]] + t[n+1..] == t
  {
  }

  lemma {:induction false} CutAt<T>(s: seq<T>, n: nat, t: seq<T>)
    requires n < |s|
    ensures s[..n] + [s[n]] + (s[n+1..] + t) == s + t
  {
  }

  lemma {:induction false} Slice<T>(s: seq<T>, t: seq<T>, n: nat)
    requires n <= |t|
    ensures s + t[..n] + t[n..] == s + t && t[..n] + t[n..] == t
  {
  }

  lemma {:induction false} PairView<T>(s: seq<T>, k: nat)
    requires k + 1 < |s|
    ensures s == s[..k] + [s[k], s[k+1]] + s[k+2..]
  {
  }

  lemma {:induction false} CutFront<T>(s: seq<T>, n: nat, t: seq<T>)
    requires n <= |s|
    ensures s[..n] + (s[n..] + t) == s + t
  {
  }

  ghost function InsertAt<T>(s: seq<T>, i: nat, x: T): seq<T>
    requires i <= |s|
  {
    s[..i] + [x] + s[i..]
  }

  /** Inserting into one half of a split is inserting into the whole. */
  lemma {:induction false} InsertLow<T>(s: seq<T>, m: nat, i: nat, x: T)
    requires i <= m < |s|
    ensures InsertAt(s[..m], i, x) + [s[m]] + s[m+1..] == InsertAt(s, i, x)
  {
  }

  lemma {:induction false} InsertHigh<T>(s: seq<T>, m: nat, i: nat, x: T)
    requires m < i <= |s|
    ensures s[..m] + [s[m]] + InsertAt(s[m+1..], i - m - 1, x) == InsertAt(s, i, x)
  {
  }

  lemma {:induction false} InsertLowKid<T>(s: seq<T>, m: nat, i: nat, x: T)
    requires i <= m <= |s|
    ensures InsertAt(s[..m], i, x) + s[m..] == InsertAt(s, i, x)
  {
  }

  lemma {:induction false} InsertHighKid<T>(s: seq<T>, m: nat, i: nat, x: T)
    requires m <= i <= |s|
    ensures s[..m] + InsertAt(s[m..], i - m, x) == InsertAt(s, i, x)
  {
  }

  lemma {:induction false} MultisetShuffle<R>(a: R, x: multiset<R>, b: R, y: multiset<R>)
    ensures (multiset{a} + x) + (multiset{b} + y) == multiset{a, b} + (x + y)
  {
  }

  lemma {:induction false} MultisetAssoc<R>(a: multiset<R>, b: multiset<R>, c: multiset<R>)
    ensures a + (b + c) == a + b + c
  {
  }

  ghost predicate Distinct<R>(m: multiset<R>) {
    forall r :: r in m ==> m[r] == 1
  }

  lemma {:induction false} ApartMultiset<R>(p: R, a: R, b: R, l: multiset<R>, x: multiset<R>, y: multiset<R>,
                                            r: multiset<R>, all: multiset<R>)
    requires all == multiset{p} + (l + (multiset{a, b} + (x + y)) + r) && Distinct(all)
    ensures p != a && p != b && a != b
    ensures var m := l + r + x + y; p !in m && a !in m && b !in m
  {
    assert all[p] == 1 && all[a] == 1 && all[b] == 1;
  }

  lemma {:induction false} DropOne<R>(p: R, a: R, b: R, l: multiset<R>, x: multiset<R>, r: multiset<R>)
    ensures multiset{p} + (l + (multiset{a, b} + x) + r) == multiset{p} + (l + (multiset{a} + x) + r) + multiset{b}
  {
  }

  lemma {:induction false} AddNodes<R>(f: R, l: multiset<R>, t: multiset<R>, u: multiset<R>, r: multiset<R>)
    ensures multiset{f} + (l + (t + u) + r) == (multiset{f} + l + r) + t + u
  {
  }

  lemma {:induction false} InsertInPair<T>(a: seq<T>, s: T, b: seq<T>, i: nat, x: T)
    requires i <= |a| + 1 + |b|
    ensures i <= |a| ==> InsertAt(a, i, x) + [s] + b == InsertAt(a + [s] + b, i, x)
    ensures i > |a| ==> a + [s] + InsertAt(b, i - |a| - 1, x) == InsertAt(a + [s] + b, i, x)
  {
  }

  lemma {:induction false} InsertInTwo<T>(a: seq<T>, b: seq<T>, i: nat, x: T)
    requires i <= |a| + |b|
    ensures i <= |a| ==> InsertAt(a, i, x) + b == InsertAt(a + b, i, x)
    ensures i >= |a| ==> a + InsertAt(b, i - |a|, x) == InsertAt(a + b, i, x)
  {
  }

  /** Sequences that differ at k and k+1 only still do after one more update of each there. */
  lemma {:induction false} TwoUpdates<T>(p: seq<T>, q: seq<T>, k: nat, i: nat, x: T, j: nat, y: T)
    requires k + 1 < |p| == |q| && q == p[k := q[k]][k+1 := q[k+1]] && k <= i <= k + 1 && k <= j <= k + 1
    ensures q[j := y] == p[i := x][k := q[j := y][k]][k+1 := q[j := y][k+1]]
  {
  }
}
