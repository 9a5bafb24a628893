/** Moving keys between two adjacent children, and merging them. */
module Siblings {
  import opened Keys
  import opened Sequences
  import opened Shape

  /** A sibling with other keys and children, its stored count changed by d. */
  ghost function With<R>(t: Tree<R>, keys: seq<Key>, kids: seq<Tree<R>>, d: int): Tree<R> {
    if t.Leaf? then Leaf(t.id, keys) else Inner(t.id, keys, kids, t.cnt + d)
  }

  ghost predicate Pair<R>(p: Tree<R>, k: nat) {
    && p.Inner? && k < |p.keys| && |p.kids| == |p.keys| + 1
    && p.kids[k].Leaf? == p.kids[k+1].Leaf?
    && Arity(p.kids[k]) && Arity(p.kids[k+1])
  }

  /** p after m keys moved from child k+1 to child k. */
  ghost function MovedLeft<R>(p: Tree<R>, k: nat, m: nat): Tree<R>
    requires Pair(p, k) && 1 <= m <= |p.kids[k+1].keys|
  {
    var a, b := p.kids[k], p.kids[k+1];
    var kids := Kids(b)[..if b.Leaf? then 0 else m];
    var a' := With(a, a.keys + [p.keys[k]] + b.keys[..m-1], Kids(a) + kids, Total(kids) + m);
    var b' := With(b, b.keys[m..], Kids(b)[|kids|..], -Total(kids) - m);
    Inner(p.id, p.keys[k := b.keys[m-1]], p.kids[k := a'][k+1 := b'], p.cnt)
  }

  /** p after m keys moved from child k to child k+1. */
  ghost function MovedRight<R>(p: Tree<R>, k: nat, m: nat): Tree<R>
    requires Pair(p, k) && 1 <= m <= |p.kids[k].keys|
  {
    var a, b := p.kids[k], p.kids[k+1];
    var n := |a.keys| - m;
    var kids := Kids(a)[if a.Leaf? then 0 else n + 1..];
    var a' := With(a, a.keys[..n], Kids(a)[..|Kids(a)| - |kids|], -Total(kids) - m);
    var b' := With(b, a.keys[n+1..] + ([p.keys[k]] + b.keys), kids + Kids(b), Total(kids) + m);
    Inner(p.id, p.keys[k := a.keys[n]], p.kids[k := a'][k+1 := b'], p.cnt)
  }

  /** q is p with the boundary between children k and k+1 elsewhere. */
  ghost predicate RecutShape<R>(p: Tree<R>, q: Tree<R>, k: nat) {
    && Pair(p, k) && Pair(q, k) && p.id == q.id && |p.kids| == |q.kids|
    && q.keys == p.keys[k := q.keys[k]]
    && (var a, b, a', b' := p.kids[k], p.kids[k+1], q.kids[k], q.kids[k+1];
        && q.kids == p.kids[k := a'][k+1 := b']
        && a'.id == a.id && b'.id == b.id && a'.Leaf? == a.Leaf?
        && a'.keys + [q.keys[k]] + b'.keys == a.keys + [p.keys[k]] + b.keys
        && Kids(a') + Kids(b') == Kids(a) + Kids(b))
  }

  /** The same, with the parent's count and the children's count errors kept. */
  ghost predicate Recut<R>(p: Tree<R>, q: Tree<R>, k: nat) {
    && RecutShape(p, q, k) && p.cnt == q.cnt
    && (p.kids[k].Inner? ==> Surplus(q.kids[k]) == Surplus(p.kids[k]) && Surplus(q.kids[k+1]) == Surplus(p.kids[k+1]))
  }

  lemma {:induction false} MovedLeftRecut<R>(p: Tree<R>, k: nat, m: nat)
    requires Pair(p, k) && 1 <= m <= |p.kids[k+1].keys|
    ensures Recut(p, MovedLeft(p, k, m), k)
  {
    var a, b, q := p.kids[k], p.kids[k+1], MovedLeft(p, k, m);
    Cut(a.keys + [p.keys[k]], b.keys, m - 1);
    if a.Inner? {
      Slice(a.kids, b.kids, m);
      TotalConcat(b.kids[..m], b.kids[m..]);
      TotalConcat(a.kids, b.kids[..m]);
      WeaveSizes(a, b);
      WeaveSizes(q.kids[k], q.kids[k+1]);
    }
  }

  lemma {:induction false} MovedRightRecut<R>(p: Tree<R>, k: nat, m: nat)
    requires Pair(p, k) && 1 <= m <= |p.kids[k].keys|
    ensures Recut(p, MovedRight(p, k, m), k)
  {
    var a, b, q := p.kids[k], p.kids[k+1], MovedRight(p, k, m);
    var n := |a.keys| - m;
    CutAt(a.keys, n, [p.keys[k]] + b.keys);
    if a.Inner? {
      Slice([], a.kids, n + 1);
      CutFront(a.kids, n + 1, b.kids);
      TotalConcat(a.kids[..n+1], a.kids[n+1..]);
      TotalConcat(a.kids[n+1..], b.kids);
      WeaveSizes(a, b);
      WeaveSizes(q.kids[k], q.kids[k+1]);
    }
  }

  lemma {:induction false} MovedLeftFields<R>(p: Tree<R>, k: nat, m: nat)
    requires Pair(p, k) && 1 <= m <= |p.kids[k+1].keys|
    ensures var q, a, b := MovedLeft(p, k, m), p.kids[k], p.kids[k+1];
      && q.Inner? && |q.kids| == |p.kids| && (forall i :: 0 <= i < |p.kids| ==> q.kids[i].id == p.kids[i].id)
      && (a.Inner? ==> b.Inner? && q.kids[k].Inner? && q.kids[k+1].Inner? && m <= |b.kids|)
      && (a.Inner? ==> q.kids[k].kids == a.kids + b.kids[..m] && q.kids[k+1].kids == b.kids[m..])
  {
  }

  lemma {:induction false} MovedRightFields<R>(p: Tree<R>, k: nat, m: nat)
    requires Pair(p, k) && 1 <= m <= |p.kids[k].keys|
    ensures var q, a, b := MovedRight(p, k, m), p.kids[k], p.kids[k+1];
      && q.Inner? && |q.kids| == |p.kids| && (forall i :: 0 <= i < |p.kids| ==> q.kids[i].id == p.kids[i].id)
      && (a.Inner? ==> b.Inner? && q.kids[k].Inner? && q.kids[k+1].Inner? && m <= |a.kids|)
      && (a.Inner? ==> q.kids[k].kids == a.kids[..|a.kids|-m] && q.kids[k+1].kids == a.kids[|a.kids|-m..] + b.kids)
  {
  }

  /** Moving a boundary changes neither the in-order sequence nor the set of nodes. */
  lemma {:induction false} RecutSame<R>(p: Tree<R>, q: Tree<R>, k: nat)
    requires RecutShape(p, q, k)
    ensures InOrder(q) == InOrder(p) && Nodes(q) == Nodes(p)
  {
    RecutSameKeys(p, q, k);
    RecutSameNodes(p, q, k);
  }

  /** p, read around its children k and k+1. */
  lemma {:induction false} InOrderAtPair<R>(p: Tree<R>, k: nat)
    requires Pair(p, k)
    ensures InOrder(p) == Lead(p.kids[..k], p.keys[..k])
                        + (InOrder(p.kids[k]) + [p.keys[k]] + InOrder(p.kids[k+1]))
                        + Tail(p.keys[k+1..], p.kids[k+2..])
  {
    PairView(p.kids, k);
    Cut([], p.keys, k);
    WeavePair(p.kids[..k], p.keys[..k], p.kids[k], p.keys[k], p.kids[k+1], p.keys[k+1..], p.kids[k+2..]);
  }

  lemma {:induction false} RecutSameKeys<R>(p: Tree<R>, q: Tree<R>, k: nat)
    requires RecutShape(p, q, k)
    ensures InOrder(q) == InOrder(p)
  {
    assert q.keys[..k] == p.keys[..k] && q.keys[k+1..] == p.keys[k+1..];
    assert q.kids[..k] == p.kids[..k] && q.kids[k+2..] == p.kids[k+2..];
    InOrderAtPair(p, k);
    InOrderAtPair(q, k);
    RecutInOrder(p.kids[k], p.keys[k], p.kids[k+1], q.kids[k], q.keys[k], q.kids[k+1]);
  }

  lemma {:induction false} RecutSameNodes<R>(p: Tree<R>, q: Tree<R>, k: nat)
    requires RecutShape(p, q, k)
    ensures Nodes(q) == Nodes(p)
  {
    var l, r := p.kids[..k], p.kids[k+2..];
    assert p.kids == l + [p.kids[k], p.kids[k+1]] + r;
    assert q.kids == l + [q.kids[k], q.kids[k+1]] + r;
    PairNodes(l, p.kids[k], p.kids[k+1], r);
    PairNodes(l, q.kids[k], q.kids[k+1], r);
    NodesUnfold(p.kids[k], p.kids[k+1]);
    NodesUnfold(q.kids[k], q.kids[k+1]);
  }

  /** The nodes around and below children k and k+1 of p. */
  ghost function RestNodes<R>(p: Tree<R>, k: nat): multiset<R>
    requires Pair(p, k)
  {
    NodesS(p.kids[..k]) + NodesS(p.kids[k+2..]) + NodesS(Kids(p.kids[k])) + NodesS(Kids(p.kids[k+1]))
  }

  /** The nodes of a sibling pair and its parent lie outside the rest of the tree below p. */
  ghost predicate PairApart<R>(p: Tree<R>, k: nat)
    requires Pair(p, k)
  {
    var a, b := p.kids[k], p.kids[k+1];
    && p.id != a.id && p.id != b.id && a.id != b.id
    && p.id !in RestNodes(p, k) && a.id !in RestNodes(p, k) && b.id !in RestNodes(p, k)
  }

  lemma {:induction false} DistinctPair<R>(p: Tree<R>, k: nat)
    requires Pair(p, k) && Distinct(Nodes(p))
    ensures PairApart(p, k)
  {
    var a, b, l, r := p.kids[k], p.kids[k+1], p.kids[..k], p.kids[k+2..];
    PairView(p.kids, k);
    PairNodes(l, a, b, r);
    NodesUnfold(a, b);
    NodesConcat(Kids(a), Kids(b));
    ApartMultiset(p.id, a.id, b.id, NodesS(l), NodesS(Kids(a)), NodesS(Kids(b)), NodesS(r), Nodes(p));
  }

  lemma {:induction false} RecutBody<R>(p: Tree<R>, q: Tree<R>, k: nat, h: int)
    requires RecutShape(p, q, k) && Body(p.kids[k], h) && Body(p.kids[k+1], h)
    requires FreeSlots(q.kids[k]) >= 0 && FreeSlots(q.kids[k+1]) >= 0
    ensures Body(q.kids[k], h) && Body(q.kids[k+1], h)
  {
    var a, b, a', b' := p.kids[k], p.kids[k+1], q.kids[k], q.kids[k+1];
    BodyKids(a, h);
    BodyKids(b, h);
    OkConcat(Kids(a), Kids(b), h - 1);
    OkConcat(Kids(a'), Kids(b'), h - 1);
  }

  ghost function Merged<R>(p: Tree<R>, k: nat): Tree<R>
    requires Pair(p, k)
  {
    var a, b := p.kids[k], p.kids[k+1];
    var m := With(a, a.keys + [p.keys[k]] + b.keys, Kids(a) + Kids(b), (if b.Leaf? then 0 else b.cnt) + 1);
    Inner(p.id, p.keys[..k] + p.keys[k+1..], p.kids[..k] + [m] + p.kids[k+2..], p.cnt)
  }

  /** Merging drops one node and no key. */
  lemma {:induction false} MergedSame<R>(p: Tree<R>, k: nat)
    requires Pair(p, k)
    ensures InOrder(Merged(p, k)) == InOrder(p)
    ensures Nodes(p) == Nodes(Merged(p, k)) + multiset{p.kids[k+1].id}
  {
    MergedSameKeys(p, k);
    MergedNodes(p, k);
  }

  lemma {:induction false} MergedSameKeys<R>(p: Tree<R>, k: nat)
    requires Pair(p, k)
    ensures InOrder(Merged(p, k)) == InOrder(p)
  {
    var q := Merged(p, k);
    var m := q.kids[k];
    assert m == (p.kids[..k] + [m])[k];
    InOrderAtPair(p, k);
    WeaveFocus(p.kids[..k], p.keys[..k], m, p.keys[k+1..], p.kids[k+2..]);
    MergeInOrder(p.kids[k], p.keys[k], p.kids[k+1], m);
  }

  lemma {:induction false} MergedNodes<R>(p: Tree<R>, k: nat)
    requires Pair(p, k)
    ensures Nodes(p) == Nodes(Merged(p, k)) + multiset{p.kids[k+1].id}
  {
    var a, b, l, r := p.kids[k], p.kids[k+1], p.kids[..k], p.kids[k+2..];
    var m := Merged(p, k).kids[k];
    assert m == (l + [m])[k];
    PairView(p.kids, k);
    PairNodes(l, a, b, r);
    NodesUnfold(a, b);
    FocusNodes(l, m, r);
    DropOne(p.id, a.id, b.id, NodesS(l), NodesS(Kids(a) + Kids(b)), NodesS(r));
  }

  /** The size of a non-root node that fell below its MinItems by one deletion or merge. */
  ghost predicate Low<R>(t: Tree<R>) {
    if t.Leaf? then |t.keys| == MIN_LEAF_KEYS - 1 else MIN_INNER_KEYS - 2 <= |t.keys| < MIN_INNER_KEYS
  }

  /** p is well-formed at height h but for its child pos, which is low. */
  ghost predicate LowAt<R>(p: Tree<R>, h: int, pos: nat) {
    && p.Inner? && h > 1 && pos < |p.kids| == |p.keys| + 1 && 1 <= |p.keys| <= MAX_INNER_KEYS
    && (forall i :: 0 <= i < |p.kids| ==> Ok(p.kids[i], h - 1))
    && (forall i :: 0 <= i < |p.kids| && i != pos ==> Filled(p.kids[i]))
    && Low(p.kids[pos])
  }

  lemma {:induction false} LowPair<R>(p: Tree<R>, h: int, pos: nat, k: nat)
    requires LowAt(p, h, pos) && k + 1 < |p.kids|
    ensures Pair(p, k) && Body(p.kids[k], h - 1) && Body(p.kids[k+1], h - 1)
    ensures p.kids[k].Leaf? <==> h == 2
  {
    assert Ok(p.kids[k], h - 1) && Ok(p.kids[k+1], h - 1);
    assert Body(p.kids[k], h - 1) && Body(p.kids[k+1], h - 1);
  }

  /** How full the pair is after half the difference moved from the right sibling. */
  lemma {:induction false} LowLeftSizes<R>(p: Tree<R>, h: int, pos: nat)
    requires LowAt(p, h, pos) && pos + 1 < |p.kids|
    requires FreeSlots(p.kids[pos+1]) < |p.kids[pos].keys| + 1
    ensures var m := (|p.kids[pos+1].keys| - |p.kids[pos].keys|) / 2;
      && Pair(p, pos) && 1 <= m <= |p.kids[pos+1].keys| && m <= FreeSlots(p.kids[pos])
      && var q := MovedLeft(p, pos, m);
      && q.Inner? && |q.kids| == |p.kids| && FreeSlots(q.kids[pos]) >= 0 && FreeSlots(q.kids[pos+1]) >= 0
      && Filled(q.kids[pos]) && Filled(q.kids[pos+1])
  {
    LowPair(p, h, pos, pos);
    hide Ok, InOrder, Total;
  }

  lemma {:induction false} LowRightSizes<R>(p: Tree<R>, h: int, pos: nat)
    requires LowAt(p, h, pos) && pos + 1 == |p.kids|
    requires FreeSlots(p.kids[pos-1]) < |p.kids[pos].keys| + 1
    ensures var m := (|p.kids[pos-1].keys| - |p.kids[pos].keys|) / 2;
      && Pair(p, pos - 1) && 1 <= m <= |p.kids[pos-1].keys| && m <= FreeSlots(p.kids[pos])
      && var q := MovedRight(p, pos - 1, m);
      && q.Inner? && |q.kids| == |p.kids| && FreeSlots(q.kids[pos-1]) >= 0 && FreeSlots(q.kids[pos]) >= 0
      && Filled(q.kids[pos-1]) && Filled(q.kids[pos])
  {
    LowPair(p, h, pos, pos - 1);
    hide Ok, InOrder, Total;
  }

  /** All children are well-formed again once q differs from p in children k and k+1 only. */
  lemma {:induction false} RecutOkS<R>(p: Tree<R>, q: Tree<R>, h: int, pos: nat, k: nat)
    requires LowAt(p, h, pos) && k <= pos <= k + 1 && Recut(p, q, k)
    requires FreeSlots(q.kids[k]) >= 0 && FreeSlots(q.kids[k+1]) >= 0 && Filled(q.kids[k])
    requires Filled(q.kids[k+1])
    ensures OkS(q.kids, h - 1)
  {
    LowPair(p, h, pos, k);
    RecutBody(p, q, k, h - 1);
    assert Ok(p.kids[k], h - 1) && Ok(p.kids[k+1], h - 1);
    assert Ok(q.kids[k], h - 1) && Ok(q.kids[k+1], h - 1);
    forall i | 0 <= i < |q.kids| ensures Ok(q.kids[i], h - 1) && Filled(q.kids[i]) {
      if i != k && i != k + 1 { assert q.kids[i] == p.kids[i]; }
    }
  }

  lemma {:induction false} MergedOkS<R>(p: Tree<R>, h: int, pos: nat, k: nat)
    requires LowAt(p, h, pos) && k <= pos <= k + 1 && k + 1 < |p.kids|
    requires Pair(p, k)
    requires |p.kids[k].keys| + 1 + |p.kids[k+1].keys| <= if p.kids[k].Leaf? then MAX_LEAF_KEYS else MAX_INNER_KEYS
    ensures OkS(Merged(p, k).kids, h - 1)
  {
    var a, b, q := p.kids[k], p.kids[k+1], Merged(p, k);
    LowPair(p, h, pos, k);
    BodyKids(a, h - 1);
    BodyKids(b, h - 1);
    OkConcat(Kids(a), Kids(b), h - 2);
    var m := q.kids[k];
    assert m == (p.kids[..k] + [m])[k];
    MergeInOrder(a, p.keys[k], b, m);
    assert Ok(a, h - 1) && Ok(b, h - 1) && Ok(m, h - 1) && Filled(m);
    forall i | 0 <= i < |q.kids| ensures Ok(q.kids[i], h - 1) && Filled(q.kids[i]) {
      if i < k { assert q.kids[i] == p.kids[i]; }
      if i > k { assert q.kids[i] == p.kids[i+1]; }
    }
  }

  // ---------- the place of a pending insertion ----------

  /** Position i in child j of p, counted along children k and k+1 and the separator between them. */
  ghost function PairPos<R>(p: Tree<R>, k: nat, j: nat, i: nat): nat
    requires Pair(p, k)
  {
    if j == k then i else |p.kids[k].keys| + 1 + i
  }

  /** The number of items RebalanceChild moves into a sibling with free slots, 0 for none. */
  function ToMove(free: nat, atEnd: bool): nat {
    if free == 0 then 0 else if atEnd then free else if free > 1 then free / 2 else 0
  }

  /** Nothing is moved iff there is no free slot, or a single one that the item is not next to. */
  lemma {:induction false} MovesRoom(free: nat, atEnd: bool)
    ensures var m := ToMove(free, atEnd);
      && (m == 0 <==> free == 0 || (free == 1 && !atEnd))
      && (if atEnd then m == free else 2 * m <= free && (free > 1 ==> free < 2 * m + 2))
  {
  }

  ghost function LeftMove<R>(p: Tree<R>, pos: nat, insertPos: nat): nat
    requires p.Inner? && pos < |p.kids| && (pos > 0 ==> FreeSlots(p.kids[pos-1]) >= 0)
  {
    if pos == 0 then 0 else ToMove(FreeSlots(p.kids[pos-1]), insertPos == |p.kids[pos].keys|)
  }

  ghost function RightMove<R>(p: Tree<R>, pos: nat, insertPos: nat): nat
    requires p.Inner? && pos < |p.kids| && (pos + 1 < |p.kids| ==> FreeSlots(p.kids[pos+1]) >= 0)
  {
    if pos + 1 == |p.kids| then 0 else ToMove(FreeSlots(p.kids[pos+1]), insertPos == 0)
  }

  /** The place (child j of q, position i) stands for position insertPos of child pos in p. */
  ghost predicate SamePlace<R>(p: Tree<R>, pos: nat, insertPos: nat, q: Tree<R>, k: nat, j: nat, i: nat) {
    && RecutShape(p, q, k) && k <= pos <= k + 1 && k <= j <= k + 1
    && i <= |q.kids[j].keys| && FreeSlots(q.kids[j]) > 0
    && Filled(q.kids[k]) && Filled(q.kids[k+1])
    && FreeSlots(q.kids[k]) >= 0 && FreeSlots(q.kids[k+1]) >= 0
    && PairPos(q, k, j, i) == PairPos(p, k, pos, insertPos)
  }

  /** t with key x inserted at i, for an inner node the child rt after it, and its count changed by d. */
  ghost function Grown<R>(t: Tree<R>, i: nat, x: Key, rt: Tree<R>, d: int): Tree<R>
    requires Arity(t) && i <= |t.keys|
  {
    With(t, InsertAt(t.keys, i, x), if t.Leaf? then [] else InsertAt(t.kids, i + 1, rt), d)
  }

  ghost function GrownAt<R>(p: Tree<R>, j: nat, i: nat, x: Key, rt: Tree<R>, d: int): Tree<R>
    requires p.Inner? && j < |p.kids| && Arity(p.kids[j]) && i <= |p.kids[j].keys|
  {
    Inner(p.id, p.keys, p.kids[j := Grown(p.kids[j], i, x, rt, d)], p.cnt)
  }

  /** The pair's keys and children, read across, with x and rt inserted at the pair position. */
  lemma {:induction false} GrownPair<R>(p: Tree<R>, k: nat, j: nat, i: nat, x: Key, rt: Tree<R>, d: int)
    requires Pair(p, k) && k <= j <= k + 1 && i <= |p.kids[j].keys|
    ensures var P, a, b := GrownAt(p, j, i, x, rt, d), p.kids[k], p.kids[k+1]; var J := PairPos(p, k, j, i);
      && Pair(P, k) && J <= |a.keys| + 1 + |b.keys|
      && P.kids[k].id == a.id && P.kids[k+1].id == b.id && P.kids[k].Leaf? == a.Leaf?
      && P.kids[k].keys + [P.keys[k]] + P.kids[k+1].keys == InsertAt(a.keys + [p.keys[k]] + b.keys, J, x)
      && (a.Leaf? ==> Kids(P.kids[k]) + Kids(P.kids[k+1]) == [])
      && (a.Inner? ==> J + 1 <= |a.kids + b.kids|)
      && (a.Inner? ==> Kids(P.kids[k]) + Kids(P.kids[k+1]) == InsertAt(a.kids + b.kids, J + 1, rt))
  {
    hide *;
    PairFacts(p, k);
    var P, a, b, J := GrownAt(p, j, i, x, rt, d), p.kids[k], p.kids[k+1], PairPos(p, k, j, i);
    PairPosOf(p, k, j, i);
    GrownAtFields(p, j, i, x, rt, d);
    GrownFields(p.kids[j], i, x, rt, d);
    KidsOf(a);
    KidsOf(b);
    KidsOf(P.kids[k]);
    KidsOf(P.kids[k+1]);
    PairFacts(P, k);
    InsertInPair(a.keys, p.keys[k], b.keys, J, x);
    if a.Inner? {
      InsertInTwo(a.kids, b.kids, J + 1, rt);
    }
  }

  lemma {:induction false} PairFacts<R>(p: Tree<R>, k: nat)
    ensures Pair(p, k) <==>
      && p.Inner? && k < |p.keys| && |p.kids| == |p.keys| + 1 && p.kids[k].Leaf? == p.kids[k+1].Leaf?
      && Arity(p.kids[k]) && Arity(p.kids[k+1])
  {
  }

  lemma {:induction false} PairPosOf<R>(p: Tree<R>, k: nat, j: nat, i: nat)
    requires Pair(p, k)
    ensures PairPos(p, k, j, i) == if j == k then i else |p.kids[k].keys| + 1 + i
  {
  }

  lemma {:induction false} KidsOf<R>(t: Tree<R>)
    ensures t.Inner? ==> Kids(t) == t.kids
    ensures Arity(t) && t.Inner? ==> |t.kids| == |t.keys| + 1
    ensures t.Leaf? ==> Kids(t) == []
  {
  }

  lemma {:induction false} GrownAtFields<R>(p: Tree<R>, j: nat, i: nat, x: Key, rt: Tree<R>, d: int)
    requires p.Inner? && j < |p.kids| && Arity(p.kids[j]) && i <= |p.kids[j].keys|
    ensures var P := GrownAt(p, j, i, x, rt, d);
      && P.Inner? && P.keys == p.keys && |P.kids| == |p.kids| && P.kids[j] == Grown(p.kids[j], i, x, rt, d)
      && forall n :: 0 <= n < |p.kids| && n != j ==> P.kids[n] == p.kids[n]
  {
  }

  lemma {:induction false} GrownFields<R>(t: Tree<R>, i: nat, x: Key, rt: Tree<R>, d: int)
    requires Arity(t) && i <= |t.keys|
    ensures var g := Grown(t, i, x, rt, d);
      && Arity(g) && g.Leaf? == t.Leaf? && g.id == t.id && g.keys == InsertAt(t.keys, i, x)
      && Kids(g) == if t.Leaf? then [] else InsertAt(t.kids, i + 1, rt)
  {
  }

  /** Inserting at the place found by a rebalancing is rebalancing after the insertion. */
  lemma {:induction false} GrownRecut<R>(p: Tree<R>, pos: nat, ip: nat, q: Tree<R>, k: nat, j: nat, i: nat,
                                         x: Key, rt: Tree<R>, d: int, d': int)
    requires SamePlace(p, pos, ip, q, k, j, i) && ip <= |p.kids[pos].keys|
    ensures RecutShape(GrownAt(p, pos, ip, x, rt, d), GrownAt(q, j, i, x, rt, d'), k)
  {
    hide InsertAt, Grown, InOrder, Filled;
    GrownPair(p, k, pos, ip, x, rt, d);
    GrownPair(q, k, j, i, x, rt, d');
    TwoUpdates(p.kids, q.kids, k, pos, GrownAt(p, pos, ip, x, rt, d).kids[pos], j, GrownAt(q, j, i, x, rt,
        d').kids[j]);
    hide PairPos, Pair;
  }

  /** The child's stored count changed by d. */
  ghost function Recount<R>(t: Tree<R>, d: int): Tree<R> {
    With(t, t.keys, Kids(t), d)
  }

  ghost function RecountAt<R>(p: Tree<R>, j: nat, d: int): Tree<R>
    requires p.Inner? && j < |p.kids|
  {
    Inner(p.id, p.keys, p.kids[j := Recount(p.kids[j], d)], p.cnt)
  }

  ghost function Weight<R>(t: Tree<R>, rt: Tree<R>): int {
    if t.Leaf? then 0 else |InOrder(rt)|
  }

  /**
   q after (x, rt) went to position i of child j, when the rebalanced child was number pos:
   rt's keys, which child pos already counted, are moved to the count of child j.
   */
  ghost function Settled<R>(q: Tree<R>, pos: nat, j: nat, i: nat, x: Key, rt: Tree<R>): Tree<R>
    requires q.Inner? && pos < |q.kids| && j < |q.kids| && Arity(q.kids[j]) && i <= |q.kids[j].keys|
  {
    var w := Weight(q.kids[j], rt);
    if j == pos then GrownAt(q, j, i, x, rt, 1) else GrownAt(RecountAt(q, pos, -w), j, i, x, rt, w + 1)
  }

  lemma {:induction false} SettledRecut<R>(p: Tree<R>, pos: nat, ip: nat, q: Tree<R>, k: nat, j: nat, i: nat,
                                           x: Key, rt: Tree<R>, d: int)
    requires SamePlace(p, pos, ip, q, k, j, i) && ip <= |p.kids[pos].keys|
    ensures RecutShape(GrownAt(p, pos, ip, x, rt, d), Settled(q, pos, j, i, x, rt), k)
  {
    hide *;
    SamePlaceFields(p, pos, ip, q, k, j, i);
    var r := Settled(q, pos, j, i, x, rt);
    SettledCases(q, pos, j, i, x, rt);
    if j == pos {
      GrownRecutAs(p, pos, ip, q, k, j, i, x, rt, d, 1, r);
    } else {
      var w := Weight(q.kids[j], rt);
      RecountSame(p, pos, ip, q, k, j, i, -w);
      GrownRecutAs(p, pos, ip, RecountAt(q, pos, -w), k, j, i, x, rt, d, w + 1, r);
    }
  }

  lemma {:induction false} GrownRecutAs<R>(p: Tree<R>, pos: nat, ip: nat, q: Tree<R>, k: nat, j: nat, i: nat,
                                           x: Key, rt: Tree<R>, d: int, d': int, r: Tree<R>)
    requires SamePlace(p, pos, ip, q, k, j, i) && ip <= |p.kids[pos].keys| && r == GrownAt(q, j, i, x, rt, d')
    ensures RecutShape(GrownAt(p, pos, ip, x, rt, d), r, k)
  {
    GrownRecut(p, pos, ip, q, k, j, i, x, rt, d, d');
  }

  lemma {:induction false} SettledCases<R>(q: Tree<R>, pos: nat, j: nat, i: nat, x: Key, rt: Tree<R>)
    requires q.Inner? && pos < |q.kids| && j < |q.kids| && Arity(q.kids[j]) && i <= |q.kids[j].keys|
    ensures var w := Weight(q.kids[j], rt); var u := RecountAt(q, pos, -w);
      && (j == pos ==> Settled(q, pos, j, i, x, rt) == GrownAt(q, j, i, x, rt, 1))
      && (j != pos ==> u.Inner? && j < |u.kids| && Arity(u.kids[j]) && i <= |u.kids[j].keys|
                       && Settled(q, pos, j, i, x, rt) == GrownAt(u, j, i, x, rt, w + 1))
  {
  }

  lemma {:induction false} SettledKids<R>(q: Tree<R>, pos: nat, j: nat, i: nat, x: Key, rt: Tree<R>)
    requires q.Inner? && pos < |q.kids| && j < |q.kids| && Arity(q.kids[j]) && i <= |q.kids[j].keys|
    ensures var w, r := Weight(q.kids[j], rt), Settled(q, pos, j, i, x, rt);
      && r.Inner? && r.keys == q.keys && |r.kids| == |q.kids|
      && r.kids[j] == Grown(q.kids[j], i, x, rt, if j == pos then 1 else w + 1)
      && (j != pos ==> r.kids[pos] == Recount(q.kids[pos], -w))
      && forall n :: 0 <= n < |q.kids| && n != j && n != pos ==> r.kids[n] == q.kids[n]
  {
  }

  lemma {:induction false} RecountFields<R>(t: Tree<R>, d: int)
    ensures var r := Recount(t, d); r.Leaf? == t.Leaf? && Kids(r) == Kids(t) && (Arity(t) ==> Arity(r))
  {
  }

  lemma {:induction false} SamePlaceFields<R>(p: Tree<R>, pos: nat, ip: nat, q: Tree<R>, k: nat, j: nat, i: nat)
    requires SamePlace(p, pos, ip, q, k, j, i)
    ensures p.Inner? && q.Inner? && k + 1 < |p.kids| == |q.kids| && k <= pos <= k + 1 && k <= j <= k + 1
    ensures Arity(q.kids[j]) && Arity(p.kids[pos]) && Arity(q.kids[pos]) && i <= |q.kids[j].keys|
    ensures q.kids[k].Leaf? == q.kids[k+1].Leaf? == p.kids[k].Leaf? == p.kids[k+1].Leaf?
    ensures RecutShape(p, q, k) && FreeSlots(q.kids[k]) >= 0 && FreeSlots(q.kids[k+1]) >= 0
    ensures FreeSlots(q.kids[j]) > 0
    ensures Filled(q.kids[k]) && Filled(q.kids[k+1])
    ensures forall n :: 0 <= n < |p.kids| && n != k && n != k + 1 ==> q.kids[n] == p.kids[n]
  {
  }

  lemma {:induction false} RecountSame<R>(p: Tree<R>, pos: nat, ip: nat, q: Tree<R>, k: nat, j: nat, i: nat, d: int)
    requires SamePlace(p, pos, ip, q, k, j, i) && j != pos
    ensures SamePlace(p, pos, ip, RecountAt(q, pos, d), k, j, i)
  {
    hide InOrder;
    TwoUpdates(p.kids, q.kids, k, pos, p.kids[pos], pos, Recount(q.kids[pos], d));
  }

  lemma {:induction false} GrownBody<R>(t: Tree<R>, i: nat, x: Key, rt: Tree<R>, d: int, h: int)
    requires Body(t, h) && Arity(t) && i <= |t.keys| && FreeSlots(t) > 0 && Filled(t)
    requires t.Inner? ==> Ok(rt, h - 1) && Filled(rt)
    ensures var g := Grown(t, i, x, rt, d);
      Body(g, h) && Filled(g) && Surplus(g) == (if t.Leaf? then 0 else Surplus(t) + d - 1 - |InOrder(rt)|)
  {
    var g := Grown(t, i, x, rt, d);
    if t.Inner? {
      var c := t.kids;
      assert c == c[..i+1] + c[i+1..];
      OkConcat(c[..i+1], c[i+1..], h - 1);
      OkConcat(c[..i+1] + [rt], c[i+1..], h - 1);
      OkConcat(c[..i+1], [rt], h - 1);
      TotalInsert(c, i + 1, rt);
      hide Ok, OkS, InOrder, Total;
      WeaveSizes(t, g);
    }
  }

  lemma {:induction false} RecountBody<R>(t: Tree<R>, d: int, h: int)
    requires Body(t, h)
    ensures Body(Recount(t, d), h) && Surplus(Recount(t, d)) == (if t.Leaf? then 0 else Surplus(t) + d)
    ensures Filled(Recount(t, d)) == Filled(t)
  {
  }

  lemma {:induction false} OkOf<R>(t: Tree<R>, h: int)
    requires Body(t, h) && Surplus(t) == 0
    ensures Ok(t, h)
  {
  }

  /** What is known of the children k and k+1 between the rebalancing and the insertion. */
  ghost predicate Unsettled<R>(p: Tree<R>, pos: nat, k: nat, rt: Tree<R>, h: int) {
    && p.Inner? && k <= pos <= k + 1 && k + 1 < |p.kids| && Body(p.kids[k], h) && Body(p.kids[k+1], h)
    && (p.kids[pos].Inner? ==> Ok(rt, h - 1) && Filled(rt))
    && (forall i :: k <= i <= k + 1 ==> Surplus(p.kids[i]) == if i == pos then Weight(p.kids[pos], rt) else 0)
    && (forall i :: 0 <= i < |p.kids| && i != pos ==> Ok(p.kids[i], h) && Filled(p.kids[i]))
  }

  lemma {:induction false} SettledOk<R>(p: Tree<R>, pos: nat, ip: nat, q: Tree<R>, k: nat, j: nat, i: nat,
                                        x: Key, rt: Tree<R>, h: int)
    requires SamePlace(p, pos, ip, q, k, j, i) && Recut(p, q, k) && Unsettled(p, pos, k, rt, h)
    ensures OkS(Settled(q, pos, j, i, x, rt).kids, h)
  {
    hide *;
    SamePlaceFields(p, pos, ip, q, k, j, i);
    var r := Settled(q, pos, j, i, x, rt);
    UnsettledFields(p, pos, k, rt, h);
    RecutBody(p, q, k, h);
    RecutSurplus(p, q, k);
    var w := Weight(q.kids[j], rt);
    WeightOf(q.kids[j], rt);
    GrownBody(q.kids[j], i, x, rt, if j == pos then 1 else w + 1, h);
    RecountBody(q.kids[pos], -w, h);
    SettledKids(q, pos, j, i, x, rt);
    forall n | 0 <= n < |r.kids| ensures Ok(r.kids[n], h) && Filled(r.kids[n]) {
      if n == k || n == k + 1 {
        assert Surplus(r.kids[n]) == 0;
        OkOf(r.kids[n], h);
      }
    }
    OkSOf(r.kids, h);
  }

  lemma {:induction false} OkSOf<R>(kids: seq<Tree<R>>, h: int)
    requires forall n :: 0 <= n < |kids| ==> Ok(kids[n], h) && Filled(kids[n])
    ensures OkS(kids, h)
  {
  }

  lemma {:induction false} WeightOf<R>(t: Tree<R>, rt: Tree<R>)
    ensures Weight(t, rt) == if t.Leaf? then 0 else |InOrder(rt)|
  {
  }

  lemma {:induction false} UnsettledFields<R>(p: Tree<R>, pos: nat, k: nat, rt: Tree<R>, h: int)
    requires Unsettled(p, pos, k, rt, h)
    ensures p.Inner? && k <= pos <= k + 1 && k + 1 < |p.kids| && Body(p.kids[k], h) && Body(p.kids[k+1], h)
    ensures p.kids[pos].Inner? ==> Ok(rt, h - 1) && Filled(rt)
    ensures forall i :: k <= i <= k + 1 ==>
      Surplus(p.kids[i]) == if i != pos || p.kids[pos].Leaf? then 0 else |InOrder(rt)|
    ensures forall i :: 0 <= i < |p.kids| && i != pos ==> Ok(p.kids[i], h) && Filled(p.kids[i])
  {
  }

  lemma {:induction false} RecutSurplus<R>(p: Tree<R>, q: Tree<R>, k: nat)
    requires Recut(p, q, k)
    ensures Surplus(q.kids[k]) == Surplus(p.kids[k]) && Surplus(q.kids[k+1]) == Surplus(p.kids[k+1])
  {
  }
}
