/** What sortedness of the in-order sequence gives inside one node, and to a search that descends. */
module Order {
  import opened Keys
  import opened Sequences
  import opened Shape
  import opened Siblings
  import opened Contexts

  /** Keys of t's subtree that precede its key number i. */
  ghost function KeyOffset<R>(t: Tree<R>, i: nat): int
    requires Arity(t) && i < |t.keys|
  {
    if t.Leaf? then i else Total(t.kids[..i+1]) + i
  }

  lemma {:induction false} LeadLast<R>(kids: seq<Tree<R>>, keys: seq<Key>)
    requires |kids| == |keys| > 0
    ensures |Lead(kids, keys)| > 0 && Lead(kids, keys)[|Lead(kids, keys)|-1] == keys[|keys|-1]
  {
    var n := |keys| - 1;
    assert kids == kids[..n] + [kids[n]] && keys == keys[..n] + [keys[n]];
    LeadConcat(kids[..n], keys[..n], [kids[n]], [keys[n]]);
    assert Lead([kids[n]], [keys[n]]) == InOrder(kids[n]) + [keys[n]];
  }

  /** Key number i of a node stands at its offset of the in-order sequence. */
  lemma {:induction false} KeyAt<R>(t: Tree<R>, i: nat)
    requires Arity(t) && i < |t.keys|
    ensures 0 <= KeyOffset(t, i) < |InOrder(t)| && InOrder(t)[KeyOffset(t, i)] == t.keys[i]
  {
    if t.Inner? {
      var f := FrameAt(t, i + 1);
      PlugStep([], t, i + 1);
      FillInOrder(f, t.kids[i+1]);
      LeadLast(t.kids[..i+1], t.keys[..i+1]);
      LeadSize(t.kids[..i+1], t.keys[..i+1]);
    }
  }

  lemma {:induction false} OffsetsIncrease<R>(t: Tree<R>, i: nat, j: nat)
    requires Arity(t) && i < j < |t.keys|
    ensures KeyOffset(t, i) < KeyOffset(t, j)
  {
    if t.Inner? {
      assert t.kids[..j+1] == t.kids[..i+1] + t.kids[i+1..j+1];
      TotalConcat(t.kids[..i+1], t.kids[i+1..j+1]);
      TotalNat(t.kids[i+1..j+1]);
    }
  }

  lemma {:induction false} KeysSorted<R>(t: Tree<R>)
    requires Arity(t) && Sorted(InOrder(t))
    ensures Sorted(t.keys)
  {
    forall i, j | 0 <= i < j < |t.keys| ensures Lt(t.keys[i], t.keys[j]) {
      KeyAt(t, i);
      KeyAt(t, j);
      OffsetsIncrease(t, i, j);
    }
  }

  ghost predicate Below(s: seq<Key>, q: Key) {
    forall i :: 0 <= i < |s| ==> Lt(s[i], q)
  }

  ghost predicate Above(q: Key, s: seq<Key>) {
    forall i :: 0 <= i < |s| ==> Lt(q, s[i])
  }

  lemma {:induction false} BelowLast(s: seq<Key>, q: Key)
    requires Sorted(s) && (s != [] ==> Lt(s[|s|-1], q))
    ensures Below(s, q)
  {
  }

  lemma {:induction false} AboveFirst(q: Key, s: seq<Key>)
    requires Sorted(s) && (s != [] ==> Lt(q, s[0]))
    ensures Above(q, s)
  {
  }

  lemma {:induction false} SortedParts(a: seq<Key>, b: seq<Key>, c: seq<Key>)
    requires Sorted(a + b + c)
    ensures Sorted(a) && Sorted(b) && Sorted(c)
  {
    var s := a + b + c;
    assert forall i :: 0 <= i < |a| ==> s[i] == a[i];
    assert forall i :: 0 <= i < |b| ==> s[|a| + i] == b[i];
    assert forall i :: 0 <= i < |c| ==> s[|a| + |b| + i] == c[i];
  }

  /** Descending at the lower bound of q among t's keys leaves smaller keys on the left and larger on the right. */
  lemma {:induction false} SearchStep<R>(t: Tree<R>, i: nat, q: Key)
    requires t.Inner? && Arity(t) && Sorted(InOrder(t)) && i <= |t.keys|
    requires Below(t.keys[..i], q) && Above(q, t.keys[i..])
    ensures var f := FrameAt(t, i);
      && Below(FrameLeft(f), q) && Above(q, FrameRight(f)) && Sorted(InOrder(t.kids[i]))
      && InOrder(t) == FrameLeft(f) + InOrder(t.kids[i]) + FrameRight(f)
  {
    var f := FrameAt(t, i);
    PlugStep([], t, i);
    FillInOrder(f, t.kids[i]);
    SortedParts(FrameLeft(f), InOrder(t.kids[i]), FrameRight(f));
    if i > 0 {
      LeadLast(t.kids[..i], t.keys[..i]);
      assert t.keys[..i][i-1] == t.keys[i-1];
    }
    BelowLast(FrameLeft(f), q);
    AboveFirst(q, FrameRight(f));
  }

  // ---------- the specification of insertion and search ----------

  /** The number of keys before q. */
  ghost function LowerBound(s: seq<Key>, q: Key): (i: nat)
    ensures i <= |s|
  {
    if s == [] || !Lt(s[0], q) then 0 else 1 + LowerBound(s[1..], q)
  }

  /** In a sorted sequence everything before the bound is below q, and nothing after it is. */
  lemma {:induction false} LowerBoundSplits(s: seq<Key>, q: Key)
    requires Sorted(s)
    ensures var i := LowerBound(s, q);
      && Below(s[..i], q) && (forall j :: i <= j < |s| ==> !Lt(s[j], q))
      && (q in s <==> i < |s| && s[i] == q)
  {
    if s != [] && Lt(s[0], q) {
      LowerBoundSplits(s[1..], q);
      var i := LowerBound(s[1..], q);
      assert s[..i+1] == [s[0]] + s[1..][..i];
      assert forall j :: i + 1 <= j < |s| ==> s[j] == s[1..][j-1];
    }
  }

  lemma {:induction false} LowerBoundAt(a: seq<Key>, b: seq<Key>, q: Key)
    requires Below(a, q) && (b != [] ==> !Lt(b[0], q))
    ensures LowerBound(a + b, q) == |a|
  {
    if a == [] {
      assert a + b == b;
    } else {
      assert (a + b)[0] == a[0] && (a + b)[1..] == a[1..] + b;
      LowerBoundAt(a[1..], b, q);
    }
  }

  lemma {:induction false} SortedInsert(a: seq<Key>, q: Key, b: seq<Key>)
    requires Sorted(a + b) && Below(a, q) && Above(q, b)
    ensures Sorted(a + [q] + b)
  {
    hide Lt;
    var s, n := a + [q] + b, |a|;
    forall i, j | 0 <= i < j < |s| ensures Lt(s[i], s[j]) {
      if i < n { assert s[i] == a[i] == (a + b)[i]; }
      if j < n { assert s[j] == a[j] == (a + b)[j]; }
      if i > n { assert s[i] == b[i-n-1] == (a + b)[i-1]; }
      if j > n { assert s[j] == b[j-n-1] == (a + b)[j-1]; }
    }
  }

  lemma {:induction false} NotIn(a: seq<Key>, q: Key, b: seq<Key>)
    requires Below(a, q) && Above(q, b)
    ensures q !in a + b
  {
  }

  /** A sorted sequence is determined by its elements. */
  lemma {:induction false} SortedUnique(a: seq<Key>, b: seq<Key>)
    requires Sorted(a) && Sorted(b) && forall e :: e in a <==> e in b
    ensures a == b
    decreases |a|
  {
    assert a != [] ==> a[0] in b;
    assert b != [] ==> b[0] in a;
    if a != [] {
      assert a[0] == b[0];
      forall e ensures e in a[1..] <==> e in b[1..] {
        assert e in a <==> e == a[0] || e in a[1..];
        assert e in b <==> e == b[0] || e in b[1..];
      }
      SortedUnique(a[1..], b[1..]);
    }
  }
}
