/**
 The value of a B-tree: its nodes with their keys, children and stored counts, as a
 tree over node identities R.  Every operation is specified by the in-order key sequence.
 */
module Shape {
  import opened Keys
  import opened Sequences

  const MAX_LEAF_KEYS: int := 15     // (256 - 4) / 16
  const MIN_LEAF_KEYS: int := 7
  const MAX_INNER_KEYS: int := 10    // (256 - 8 - 4 - 4) / 24
  const MIN_INNER_KEYS: int := 5

  lemma {:induction false} MaxInner()
    ensures MAX_INNER_KEYS == 10
  {
  }

  datatype Tree<R> =
    | Leaf(id: R, keys: seq<Key>)
    | Inner(id: R, keys: seq<Key>, kids: seq<Tree<R>>, cnt: int)

  ghost function InOrder<R>(t: Tree<R>): seq<Key>
    decreases t
  {
    match t
    case Leaf(_, keys) => keys
    case Inner(_, keys, kids, _) => Weave(kids, keys)
  }

  /** kids[0], keys[0], kids[1], keys[1], ..., kids[n] */
  ghost function Weave<R>(kids: seq<Tree<R>>, keys: seq<Key>): seq<Key>
    decreases kids
  {
    if kids == [] then []
    else if keys == [] then InOrder(kids[0])
    else InOrder(kids[0]) + [keys[0]] + Weave(kids[1..], keys[1..])
  }

  /** kids[0], keys[0], ..., kids[n-1], keys[n-1] */
  ghost function Lead<R>(kids: seq<Tree<R>>, keys: seq<Key>): seq<Key>
    requires |kids| == |keys|
  {
    if kids == [] then [] else InOrder(kids[0]) + [keys[0]] + Lead(kids[1..], keys[1..])
  }

  /** keys[0], kids[0], ..., keys[n-1], kids[n-1] */
  ghost function Tail<R>(keys: seq<Key>, kids: seq<Tree<R>>): seq<Key>
    requires |kids| == |keys|
  {
    if kids == [] then [] else [keys[0]] + InOrder(kids[0]) + Tail(keys[1..], kids[1..])
  }

  lemma {:induction false} LeadConcat<R>(c1: seq<Tree<R>>, k1: seq<Key>, c2: seq<Tree<R>>, k2: seq<Key>)
    requires |c1| == |k1| && |c2| == |k2|
    ensures Lead(c1 + c2, k1 + k2) == Lead(c1, k1) + Lead(c2, k2)
  {
    if c1 == [] {
      assert c1 + c2 == c2 && k1 + k2 == k2;
    } else {
      assert (c1 + c2)[1..] == c1[1..] + c2 && (k1 + k2)[1..] == k1[1..] + k2;
      LeadConcat(c1[1..], k1[1..], c2, k2);
    }
  }

  lemma {:induction false} TailConcat<R>(k1: seq<Key>, c1: seq<Tree<R>>, k2: seq<Key>, c2: seq<Tree<R>>)
    requires |c1| == |k1| && |c2| == |k2|
    ensures Tail(k1 + k2, c1 + c2) == Tail(k1, c1) + Tail(k2, c2)
  {
    if c1 == [] {
      assert c1 + c2 == c2 && k1 + k2 == k2;
    } else {
      assert (c1 + c2)[1..] == c1[1..] + c2 && (k1 + k2)[1..] == k1[1..] + k2;
      TailConcat(k1[1..], c1[1..], k2, c2);
    }
  }

  lemma {:induction false} WeaveTail<R>(t: Tree<R>, keys: seq<Key>, kids: seq<Tree<R>>)
    requires |kids| == |keys|
    ensures Weave([t] + kids, keys) == InOrder(t) + Tail(keys, kids)
    decreases |kids|
  {
    if kids != [] {
      assert ([t] + kids)[1..] == kids == [kids[0]] + kids[1..];
      WeaveTail(kids[0], keys[1..], kids[1..]);
    }
  }

  /** An inner node's sequence, read around its child t. */
  lemma {:induction false} WeaveFocus<R>(left: seq<Tree<R>>, lk: seq<Key>, t: Tree<R>, rk: seq<Key>,
                                         right: seq<Tree<R>>)
    requires |left| == |lk| && |right| == |rk|
    ensures Weave(left + [t] + right, lk + rk) == Lead(left, lk) + InOrder(t) + Tail(rk, right)
  {
    if left == [] {
      assert left + [t] + right == [t] + right && lk + rk == rk;
      WeaveTail(t, rk, right);
    } else {
      assert (left + [t] + right)[1..] == left[1..] + [t] + right && (lk + rk)[1..] == lk[1..] + rk;
      WeaveFocus(left[1..], lk[1..], t, rk, right);
    }
  }

  /** An inner node's sequence, read around two adjacent children and their separator. */
  lemma {:induction false} WeavePair<R>(left: seq<Tree<R>>, lk: seq<Key>, a: Tree<R>, s: Key, b: Tree<R>,
                                        rk: seq<Key>, right: seq<Tree<R>>)
    requires |left| == |lk| && |right| == |rk|
    ensures Weave(left + [a, b] + right, lk + [s] + rk)
         == Lead(left, lk) + (InOrder(a) + [s] + InOrder(b)) + Tail(rk, right)
  {
    var sk, bk := [s] + rk, [b] + right;
    assert left + [a, b] + right == left + [a] + bk && lk + [s] + rk == lk + sk;
    WeaveFocus(left, lk, a, sk, bk);
    assert Tail(sk, bk) == [s] + InOrder(b) + Tail(rk, right) by {
      assert sk[1..] == rk && bk[1..] == right;
    }
    Regroup(Lead(left, lk), InOrder(a), [s], InOrder(b), Tail(rk, right));
  }

  /** Two adjacent lists of children and the separator between them. */
  lemma {:induction false} WeaveSplit<R>(c1: seq<Tree<R>>, k1: seq<Key>, s: Key, c2: seq<Tree<R>>, k2: seq<Key>)
    requires |c1| == |k1| + 1 && |c2| == |k2| + 1
    ensures Weave(c1 + c2, k1 + [s] + k2) == Weave(c1, k1) + [s] + Weave(c2, k2)
  {
    if k1 == [] {
      assert (c1 + c2)[1..] == c2 && (k1 + [s] + k2)[1..] == k2;
    } else {
      assert (c1 + c2)[1..] == c1[1..] + c2 && (k1 + [s] + k2)[1..] == k1[1..] + [s] + k2;
      WeaveSplit(c1[1..], k1[1..], s, c2, k2);
    }
  }

  ghost function Kids<R>(t: Tree<R>): seq<Tree<R>> {
    if t.Leaf? then [] else t.kids
  }

  ghost predicate Arity<R>(t: Tree<R>) {
    t.Inner? ==> |t.kids| == |t.keys| + 1
  }

  /** A merge of siblings keeps the in-order sequence; a split is a merge read backwards. */
  lemma {:induction false} MergeInOrder<R>(a: Tree<R>, s: Key, b: Tree<R>, m: Tree<R>)
    requires Arity(a) && Arity(b) && a.Leaf? == b.Leaf? == m.Leaf?
    requires m.keys == a.keys + [s] + b.keys && Kids(m) == Kids(a) + Kids(b)
    ensures InOrder(m) == InOrder(a) + [s] + InOrder(b)
  {
    if a.Inner? {
      WeaveSplit(a.kids, a.keys, s, b.kids, b.keys);
    }
  }

  /** Moving the boundary between two siblings keeps left ++ [separator] ++ right. */
  lemma {:induction false} RecutInOrder<R>(a: Tree<R>, s: Key, b: Tree<R>, a': Tree<R>, s': Key, b': Tree<R>)
    requires Arity(a) && Arity(b) && Arity(a') && Arity(b')
    requires a.Leaf? == b.Leaf? && a'.Leaf? == b.Leaf? && b'.Leaf? == b.Leaf?
    requires a'.keys + [s'] + b'.keys == a.keys + [s] + b.keys
    requires Kids(a') + Kids(b') == Kids(a) + Kids(b)
    ensures InOrder(a') + [s'] + InOrder(b') == InOrder(a) + [s] + InOrder(b)
  {
    if a.Inner? {
      WeaveSplit(a.kids, a.keys, s, b.kids, b.keys);
      WeaveSplit(a'.kids, a'.keys, s', b'.kids, b'.keys);
    }
  }

  ghost function Nodes<R>(t: Tree<R>): (m: multiset<R>)
    ensures t.id in m
    decreases t
  {
    multiset{t.id} + (if t.Leaf? then multiset{} else NodesS(t.kids))
  }

  ghost function NodesS<R>(kids: seq<Tree<R>>): multiset<R>
    decreases kids
  {
    if kids == [] then multiset{} else Nodes(kids[0]) + NodesS(kids[1..])
  }

  lemma {:induction false} NodesIn<R>(kids: seq<Tree<R>>, i: nat)
    requires i < |kids|
    ensures Nodes(kids[i]) <= NodesS(kids)
  {
    if i > 0 {
      NodesIn(kids[1..], i - 1);
    }
  }

  lemma {:induction false} NodesConcat<R>(a: seq<Tree<R>>, b: seq<Tree<R>>)
    ensures NodesS(a + b) == NodesS(a) + NodesS(b)
  {
    if a == [] {
      assert a + b == b;
    } else {
      assert (a + b)[1..] == a[1..] + b;
      NodesConcat(a[1..], b);
    }
  }

  lemma {:induction false} NodesOne<R>(t: Tree<R>)
    ensures NodesS([t]) == Nodes(t)
  {
    assert [t][1..] == [];
  }

  lemma {:induction false} PairNodes<R>(l: seq<Tree<R>>, a: Tree<R>, b: Tree<R>, r: seq<Tree<R>>)
    ensures NodesS(l + [a, b] + r) == NodesS(l) + (Nodes(a) + Nodes(b)) + NodesS(r)
  {
    hide *;
    NodesConcat(l + [a, b], r);
    NodesConcat(l, [a, b]);
    assert [a, b] == [a] + [b];
    NodesConcat([a], [b]);
    NodesOne(a);
    NodesOne(b);
  }

  lemma {:induction false} NodesUnfold<R>(a: Tree<R>, b: Tree<R>)
    ensures Nodes(a) + Nodes(b) == multiset{a.id, b.id} + NodesS(Kids(a) + Kids(b))
  {
    NodesConcat(Kids(a), Kids(b));
    assert Nodes(a) == multiset{a.id} + NodesS(Kids(a)) && Nodes(b) == multiset{b.id} + NodesS(Kids(b));
    MultisetShuffle(a.id, NodesS(Kids(a)), b.id, NodesS(Kids(b)));
  }

  lemma {:induction false} FocusNodes<R>(l: seq<Tree<R>>, t: Tree<R>, r: seq<Tree<R>>)
    ensures NodesS(l + [t] + r) == NodesS(l) + Nodes(t) + NodesS(r)
  {
    hide *;
    NodesConcat(l + [t], r);
    NodesConcat(l, [t]);
    NodesOne(t);
  }

  /** The keys held by a list of subtrees. */
  ghost function Total<R>(kids: seq<Tree<R>>): int
  {
    if kids == [] then 0 else |InOrder(kids[0])| + Total(kids[1..])
  }

  lemma {:induction false} TotalNat<R>(kids: seq<Tree<R>>)
    ensures 0 <= Total(kids)
  {
    if kids != [] {
      TotalNat(kids[1..]);
    }
  }

  lemma {:induction false} TotalConcat<R>(a: seq<Tree<R>>, b: seq<Tree<R>>)
    ensures Total(a + b) == Total(a) + Total(b)
  {
    if a == [] {
      assert a + b == b;
    } else {
      assert (a + b)[1..] == a[1..] + b;
      TotalConcat(a[1..], b);
    }
  }

  lemma {:induction false} TotalInsert<R>(s: seq<Tree<R>>, i: nat, x: Tree<R>)
    requires i <= |s|
    ensures Total(InsertAt(s, i, x)) == Total(s) + |InOrder(x)|
  {
    TotalConcat(s[..i] + [x], s[i..]);
    TotalConcat(s[..i], [x]);
    TotalConcat(s[..i], s[i..]);
    assert [x][1..] == [] && s == s[..i] + s[i..];
  }

  lemma {:induction false} WeaveSize<R>(kids: seq<Tree<R>>, keys: seq<Key>)
    requires |kids| == |keys| + 1
    ensures |Weave(kids, keys)| == Total(kids) + |keys|
    decreases |keys|
  {
    if keys != [] {
      WeaveSize(kids[1..], keys[1..]);
    } else {
      assert kids[1..] == [];
    }
  }

  lemma {:induction false} WeaveSizes<R>(a: Tree<R>, b: Tree<R>)
    requires a.Inner? && b.Inner? && Arity(a) && Arity(b)
    ensures |InOrder(a)| == Total(a.kids) + |a.keys| && |InOrder(b)| == Total(b.kids) + |b.keys|
  {
    WeaveSize(a.kids, a.keys);
    WeaveSize(b.kids, b.keys);
  }

  lemma {:induction false} LeadSize<R>(kids: seq<Tree<R>>, keys: seq<Key>)
    requires |kids| == |keys|
    ensures |Lead(kids, keys)| == |Tail(keys, kids)| == Total(kids) + |keys|
    decreases |keys|
  {
    if kids != [] {
      LeadSize(kids[1..], keys[1..]);
    }
  }

  /** A resting node below the root: kMinInnerKeys - 1, because Split can leave that many. */
  ghost predicate Filled<R>(t: Tree<R>) {
    |t.keys| >= if t.Leaf? then MIN_LEAF_KEYS else MIN_INNER_KEYS - 1
  }

  ghost function FreeSlots<R>(t: Tree<R>): int {
    (if t.Leaf? then MAX_LEAF_KEYS else MAX_INNER_KEYS) - |t.keys|
  }

  /** How far an inner node's stored count exceeds its content. */
  ghost function Surplus<R>(t: Tree<R>): int {
    if t.Leaf? then 0 else t.cnt - |InOrder(t)|
  }

  /** Shape, capacity and the children's own well-formedness; t's stored count is free. */
  ghost predicate Body<R>(t: Tree<R>, h: int)
    decreases t, 0
  {
    match t
    case Leaf(_, keys) => h == 1 && |keys| <= MAX_LEAF_KEYS
    case Inner(_, keys, kids, _) =>
      h > 1 && |kids| == |keys| + 1 && |keys| <= MAX_INNER_KEYS && OkS(kids, h - 1)
  }

  ghost predicate Ok<R>(t: Tree<R>, h: int)
    decreases t, 1
  {
    Body(t, h) && (t.Inner? ==> t.cnt == |InOrder(t)|)
  }

  ghost predicate OkS<R>(kids: seq<Tree<R>>, h: int)
    decreases kids
  {
    forall i :: 0 <= i < |kids| ==> Ok(kids[i], h) && Filled(kids[i])
  }

  /** The children's stored counts are exact. */
  ghost predicate CountedS<R>(kids: seq<Tree<R>>) {
    forall i :: 0 <= i < |kids| && kids[i].Inner? ==> kids[i].cnt == |InOrder(kids[i])|
  }

  lemma {:induction false} OkConcat<R>(a: seq<Tree<R>>, b: seq<Tree<R>>, h: int)
    ensures OkS(a + b, h) <==> OkS(a, h) && OkS(b, h)
  {
    hide Ok, Filled;
    if OkS(a, h) && OkS(b, h) {
      forall i | 0 <= i < |a + b| ensures Ok((a + b)[i], h) && Filled((a + b)[i]) {
        if i < |a| { assert (a + b)[i] == a[i]; } else { assert (a + b)[i] == b[i - |a|]; }
      }
    }
    if OkS(a + b, h) {
      forall i | 0 <= i < |a| ensures Ok(a[i], h) && Filled(a[i]) { assert (a + b)[i] == a[i]; }
      forall i | 0 <= i < |b| ensures Ok(b[i], h) && Filled(b[i]) { assert (a + b)[|a| + i] == b[i]; }
    }
  }

  /** Child list of a well-formed node. */
  lemma {:induction false} BodyKids<R>(t: Tree<R>, h: int)
    requires Body(t, h)
    ensures OkS(Kids(t), h - 1)
  {
  }
}
