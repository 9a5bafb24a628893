/** What holds between the steps of a deletion (src/zset/bplustree.hpp:541-614). */
module Deletion {
  import opened Keys
  import opened Sequences
  import opened Shape
  import opened Siblings
  import opened Contexts
  import opened Order
  import opened BPNode
  import opened Paths
  import opened Cursors
  import opened Ancestors

  function RemoveAt<T>(s: seq<T>, i: nat): seq<T>
    requires i < |s|
  {
    s[..i] + s[i+1..]
  }

  /** A key is gone from below t, which may be one short; the counts in c still include it. */
  ghost predicate Lowered(c: Ctx<Node>, t: Tree<Node>, h: int, target: seq<Key>) {
    && OkCtx(c, h, |InOrder(t)| + 1) && CtxArity(c) && Ok(t, h) && (c != [] ==> Filled(t) || Low(t))
    && LeftOf(c) + InOrder(t) + RightOf(c) == target && |target| < U32_LIMIT
  }

  lemma {:induction false} LoweredParts(c: Ctx<Node>, t: Tree<Node>, h: int, target: seq<Key>)
    requires Lowered(c, t, h, target)
    ensures OkCtx(c, h, |InOrder(t)| + 1) && CtxArity(c) && Ok(t, h) && (c != [] ==> Filled(t) || Low(t))
    ensures LeftOf(c) + InOrder(t) + RightOf(c) == target && |target| < U32_LIMIT
  {
  }

  lemma {:induction false} LoweredOf(c: Ctx<Node>, t: Tree<Node>, h: int, target: seq<Key>)
    requires OkCtx(c, h, |InOrder(t)| + 1) && CtxArity(c) && Ok(t, h) && (c != [] ==> Filled(t) || Low(t))
    requires LeftOf(c) + InOrder(t) + RightOf(c) == target && |target| < U32_LIMIT
    ensures Lowered(c, t, h, target)
  {
  }

  // ---------- the key leaves a leaf ----------

  lemma {:induction false} LeafLowered(s: Tree<Node>, c: Ctx<Node>, t: Tree<Node>, h: int, p: nat)
    requires Focus(s, c, t, h) && t.Leaf? && p < |t.keys| && |InOrder(s)| < U32_LIMIT
    ensures CtxArity(c) && |LeftOf(c)| + p < |InOrder(s)| && h == |c| + 1
    ensures Lowered(c, Leaf(t.id, RemoveAt(t.keys, p)), 1, RemoveAt(InOrder(s), |LeftOf(c)| + p))
  {
    hide *;
    FocusParts(s, c, t, h);
    PlugInOrder(c, t);
    RemoveInside(LeftOf(c), t.keys, RightOf(c), p);
    var u := Leaf(t.id, RemoveAt(t.keys, p));
    LeafShort(t, p, c == []);
    LoweredOf(c, u, 1, RemoveAt(InOrder(s), |LeftOf(c)| + p));
  }

  lemma {:induction false} RemoveInside(l: seq<Key>, k: seq<Key>, r: seq<Key>, p: nat)
    requires p < |k|
    ensures |l| + p < |l + k + r| && RemoveAt(l + k + r, |l| + p) == l + RemoveAt(k, p) + r
    ensures |RemoveAt(l + k + r, |l| + p)| == |l + k + r| - 1
  {
  }

  lemma {:induction false} LeafShort(t: Tree<Node>, p: nat, top: bool)
    requires t.Leaf? && p < |t.keys| && |t.keys| <= MAX_LEAF_KEYS && (!top ==> Filled(t))
    ensures var u := Leaf(t.id, RemoveAt(t.keys, p));
      && Ok(u, 1) && InOrder(u) == RemoveAt(t.keys, p) && |InOrder(u)| == |t.keys| - 1
      && (!top ==> Filled(u) || Low(u))
      && Nodes(u) == Nodes(t)
  {
  }

  // ---------- a separator is replaced by its predecessor ----------

  /** d with the key right after the hole of frame n replaced. */
  ghost function Swapped(d: Ctx<Node>, n: nat, x: Key): Ctx<Node>
    requires n < |d| && |d[n].left| < |d[n].keys|
  {
    d[n := d[n].(keys := d[n].keys[|d[n].left| := x])]
  }

  lemma {:induction false} SwappedFrame(f: Frame<Node>, x: Key)
    requires FrameArity(f) && |f.left| < |f.keys|
    ensures var g := f.(keys := f.keys[|f.left| := x]);
      && FrameArity(g) && FrameLeft(g) == FrameLeft(f) && FrameNodes(g) == FrameNodes(f)
      && |g.keys| == |f.keys|
      && FrameRight(f) != [] && FrameRight(g) == [x] + FrameRight(f)[1..]
  {
    var g := f.(keys := f.keys[|f.left| := x]);
    var n := |f.left|;
    assert g.keys[..n] == f.keys[..n];
    assert g.keys[n..] == [x] + f.keys[n+1..] && f.keys[n..] == [f.keys[n]] + f.keys[n+1..];
  }

  /** The key that follows the hole is the separator of frame n, as every later frame was entered by its last child. */
  lemma {:induction false} SwappedOrder(d: Ctx<Node>, n: nat, x: Key, h: int, sz: int)
    requires CtxArity(d) && Dug(d, n) && |d[n].left| < |d[n].keys| && OkCtx(d, h, sz)
    ensures var e := Swapped(d, n, x);
      && CtxArity(e) && LeftOf(e) == LeftOf(d) && RightOf(d) != [] && RightOf(e) == [x] + RightOf(d)[1..]
      && OkCtx(e, h, sz) && |e| == |d|
    decreases |d|
  {
    hide *;
    DugIn(d, n);
    UpParts(d, h, sz);
    var d', f, g := Up(d), Top(d), d[n].(keys := d[n].keys[|d[n].left| := x]);
    if n == |d| - 1 {
      TopOf(d);
      SwappedFrame(f, x);
      SwappedLast(d, x);
      FrameSwapped(f, h, sz, x);
      CtxOf(d', g, h, sz);
      Prepend(x, FrameRight(f), RightOf(d'));
    } else {
      DugUp(d, n);
      SwappedOrder(d', n, x, h + 1, f.cnt);
      SwappedUp(d, n, x);
      CtxOf(Swapped(d', n, x), f, h, sz);
    }
  }

  lemma {:induction false} Prepend(x: Key, a: seq<Key>, b: seq<Key>)
    requires a != []
    ensures [x] + a[1..] + b == [x] + (a + b)[1..]
  {
  }

  lemma {:induction false} FrameSwapped(f: Frame<Node>, h: int, sz: int, x: Key)
    requires OkFrame(f, h, sz) && |f.left| < |f.keys|
    ensures OkFrame(f.(keys := f.keys[|f.left| := x]), h, sz)
  {
    SwappedFrame(f, x);
  }

  /** One more frame around a hole. */
  lemma {:induction false} CtxOf(c: Ctx<Node>, f: Frame<Node>, h: int, sz: int)
    requires OkFrame(f, h, sz) && CtxArity(c) && OkCtx(c, h + 1, f.cnt)
    requires c != [] ==> |f.keys| >= MIN_INNER_KEYS - 1
    ensures var d := c + [f];
      && OkCtx(d, h, sz) && CtxArity(d) && FrameArity(f)
      && LeftOf(d) == LeftOf(c) + FrameLeft(f) && RightOf(d) == FrameRight(f) + RightOf(c)
  {
    assert (c + [f])[..|c|] == c;
  }

  lemma {:induction false} SwappedLast(d: Ctx<Node>, x: Key)
    requires d != [] && |Top(d).left| < |Top(d).keys|
    ensures Swapped(d, |d| - 1, x) == Up(d) + [Top(d).(keys := Top(d).keys[|Top(d).left| := x])]
    ensures Top(d) == d[|d|-1]
  {
  }

  lemma {:induction false} SwappedUp(d: Ctx<Node>, n: nat, x: Key)
    requires n + 1 < |d| && |d[n].left| < |d[n].keys|
    ensures Up(d)[n] == d[n] && Swapped(d, n, x) == Swapped(Up(d), n, x) + [Top(d)]
    ensures |Swapped(d, n, x)| == |d|
    ensures |Swapped(Up(d), n, x)| == |Up(d)|
  {
  }

  lemma {:induction false} DugUp(d: Ctx<Node>, n: nat)
    requires Dug(d, n) && n + 1 < |d| && CtxArity(d)
    ensures Dug(Up(d), n) && |Up(d)| < |d| && Up(d)[n] == d[n] && CtxArity(Up(d)) && FrameArity(Top(d))
    ensures FrameRight(Top(d)) == []
  {
    LastFrame(Top(d));
  }

  lemma {:induction false} DugIn(d: Ctx<Node>, n: nat)
    requires Dug(d, n)
    ensures n < |d| && d != []
  {
  }

  lemma {:induction false} LastFrame(f: Frame<Node>)
    requires FrameArity(f) && f.right == []
    ensures FrameRight(f) == []
  {
  }

  lemma {:induction false} SwappedSame(d: Ctx<Node>, n: nat, x: Key)
    requires CtxArity(d) && n < |d| && |d[n].left| < |d[n].keys|
    ensures var e := Swapped(d, n, x); NodesC(e) == NodesC(d) && Records(e) == Records(d)
  {
    var e := Swapped(d, n, x);
    SwappedFrame(d[n], x);
    forall j | 0 <= j < |d| ensures FrameNodes(e[j]) == FrameNodes(d[j]) { }
    hide FrameNodes;
    SameNodesC(e, d);
  }

  lemma {:induction false} SwapOut(l: seq<Key>, k: seq<Key>, r: seq<Key>)
    requires k != [] && r != []
    ensures |l| + |k| < |l + k + r|
    ensures RemoveAt(l + k + r, |l| + |k|) == l + RemoveAt(k, |k| - 1) + ([k[|k|-1]] + r[1..])
    ensures |RemoveAt(l + k + r, |l| + |k|)| == |l + k + r| - 1 && RemoveAt(k, |k| - 1) == k[..|k|-1]
  {
    var n := |k| - 1;
    assert k == k[..n] + [k[n]];
  }

  /** Key i of inner node t goes: the last key of leaf v, reached by DigRight, takes its place. */
  lemma {:induction false} SeparatorLowered(s: Tree<Node>, c: Ctx<Node>, t: Tree<Node>, h: int, i: nat,
                                            d: Ctx<Node>, v: Tree<Node>)
    requires Focus(s, c, t, h) && t.Inner? && i < |t.keys| && Focus(s, d, v, h) && v.Leaf?
    requires |InOrder(s)| < U32_LIMIT
    requires CtxArity(c) && CtxArity(d) && Arity(t) && |LeftOf(d)| + |v.keys| == |LeftOf(c)| + KeyOffset(t, i)
    requires Dug(d, |c|) && d[|c|] == FrameAt(t, i)
    ensures |v.keys| > 0 && |d[|c|].left| == i < |d[|c|].keys| && h == |d| + 1
    ensures var r, n := |LeftOf(c)| + KeyOffset(t, i), |v.keys| - 1;
      && 0 <= r < |InOrder(s)| && RemoveAt(v.keys, n) == v.keys[..n]
      && Lowered(Swapped(d, |c|, v.keys[n]), Leaf(v.id, v.keys[..n]), 1, RemoveAt(InOrder(s), r))
  {
    hide *;
    FocusParts(s, d, v, h);
    DugIn(d, |c|);
    var n := |v.keys| - 1;
    var x, u := v.keys[n], Leaf(v.id, v.keys[..n]);
    FocusParts(s, c, t, h);
    FrameAtFields(t, i);
    PlugInOrder(d, v);
    SwappedOrder(d, |c|, x, 1, |v.keys|);
    SwapOut(LeftOf(d), v.keys, RightOf(d));
    LeafShort(v, n, false);
    LoweredOf(Swapped(d, |c|, x), u, 1, RemoveAt(InOrder(s), |LeftOf(c)| + KeyOffset(t, i)));
  }

  /** The memory of a position and its surroundings. */
  lemma {:induction false} FocusMem(s: Tree<Node>, c: Ctx<Node>, t: Tree<Node>, h: int)
    requires Focus(s, c, t, h) && Rep(s) && Distinct(Nodes(s))
    ensures PendingMem(c, t) && NodesC(c) + Nodes(t) == Nodes(s) && RootId(c, t.id) == s.id
  {
    hide *;
    FocusParts(s, c, t, h);
    PlugRep(c, t);
    PlugNodes(c, t);
    PlugRoot(c, t);
    PendingMemOf(c, t);
  }

  /** Removes key pos of a leaf. */
  method RemoveFromLeaf(node: Node, pos: nat, ghost s: Tree<Node>, ghost h: int, ghost c: Ctx<Node>,
                        ghost t: Tree<Node>)
    returns (ghost u: Tree<Node>)
    requires Focus(s, c, t, h) && Rep(s) && Distinct(Nodes(s)) && t.Leaf? && node == t.id && pos < |t.keys|
    requires |InOrder(s)| < U32_LIMIT
    modifies node
    ensures CtxArity(c) && |LeftOf(c)| + pos < |InOrder(s)| && h == |c| + 1
    ensures Lowered(c, u, 1, RemoveAt(InOrder(s), |LeftOf(c)| + pos)) && PendingMem(c, u) && u.Leaf?
    ensures u.id == node
    ensures NodesC(c) + Nodes(u) == Nodes(s) && RootId(c, u.id) == s.id
  {
    hide *;
    LeafLowered(s, c, t, h, pos);
    FocusParts(s, c, t, h);
    FocusRep(s, c, t, h);
    FocusMem(s, c, t, h);
    PendingMemParts(c, t);
    AllocAll(c, t, t);
    IdApart(c, t);
    LeafShort(t, pos, true);
    node.ShiftLeft(pos, false, t.keys, []);
    u := Leaf(t.id, RemoveAt(t.keys, pos));
    LeafRep(u, t.keys, pos);
    PendingMemOf(c, u);
  }

  lemma {:induction false} LeafRep(u: Tree<Node>, keys: seq<Key>, pos: nat)
    requires pos < |keys| && u.Leaf? && u.keys == RemoveAt(keys, pos) && u.id.leaf
    requires HoldsKeys(u.id, keys[..pos] + keys[pos+1..])
    ensures Rep(u)
  {
  }

  lemma {:induction false} IdApart(c: Ctx<Node>, t: Tree<Node>)
    requires Distinct(NodesC(c) + Nodes(t))
    ensures t.id !in NodesC(c) && t.id in Nodes(t)
    ensures forall i :: 0 <= i < |c| ==> c[i].id !in Nodes(t) && c[i].id in NodesC(c)
  {
    hide NodesC;
    DistinctTwo(NodesC(c), Nodes(t));
    CtxIdsIn(c);
    assert forall i :: 0 <= i < |c| ==> c[i].id in CtxIds(c);
  }

  /** Puts the last key of leaf in place of key pos of the inner node. */
  method RemoveSeparator(node: Node, pos: nat, leaf: Node, ghost s: Tree<Node>, ghost h: int, ghost c: Ctx<Node>,
                         ghost t: Tree<Node>, ghost d: Ctx<Node>, ghost v: Tree<Node>)
    returns (ghost e: Ctx<Node>, ghost u: Tree<Node>)
    requires Focus(s, c, t, h) && t.Inner? && pos < |t.keys| && Focus(s, d, v, h) && v.Leaf?
    requires |InOrder(s)| < U32_LIMIT
    requires CtxArity(c) && CtxArity(d) && Arity(t)
    requires |LeftOf(d)| + |v.keys| == |LeftOf(c)| + KeyOffset(t, pos)
    requires Dug(d, |c|) && d[|c|] == FrameAt(t, pos) && node == t.id && leaf == v.id && Rep(s)
    requires Distinct(Nodes(s))
    modifies node, leaf
    ensures var r := |LeftOf(c)| + KeyOffset(t, pos);
      0 <= r < |InOrder(s)| && Lowered(e, u, 1, RemoveAt(InOrder(s), r))
    ensures PendingMem(e, u) && u.Leaf? && u.id == leaf && Records(e) == Records(d) && |e| == |d|
    ensures h == |e| + 1
    ensures NodesC(e) + Nodes(u) == Nodes(s) && RootId(e, u.id) == s.id
  {
    hide *;
    SeparatorLowered(s, c, t, h, pos, d, v);
    ghost var n := |v.keys| - 1;
    ghost var x := v.keys[n];
    FocusParts(s, d, v, h);
    FocusRep(s, d, v, h);
    FocusMem(s, d, v, h);
    PendingMemParts(d, v);
    AllocAll(d, v, v);
    IdApart(d, v);
    DistinctTwo(NodesC(d), Nodes(v));
    FocusParts(s, c, t, h);
    DugIn(d, |c|);
    FrameAtFields(t, pos);
    SwappedSame(d, |c|, x);
    LeafKeys(v);
    LeafShort(v, n, false);
    SwappedRoot(d, |c|, x, v.id);
    SetKeyAt(node, pos, leaf.keySlots[leaf.numItems-1], d, |c|, v.id);
    e, u := Swapped(d, |c|, x), Leaf(v.id, v.keys[..n]);
    SwappedIs(d, |c|, x, pos);
    AllocAll(e, u, u);
    leaf.LeafEraseRight(v.keys);
    ErasedRep(u, v.keys);
    PendingMemOf(e, u);
  }

  lemma {:induction false} SwappedIs(d: Ctx<Node>, n: nat, x: Key, pos: nat)
    requires n < |d| && pos == |d[n].left| < |d[n].keys|
    ensures Swapped(d, n, x) == d[n := d[n].(keys := d[n].keys[pos := x])]
  {
  }

  lemma {:induction false} SwappedRoot(d: Ctx<Node>, n: nat, x: Key, hole: Node)
    requires n < |d| && |d[n].left| < |d[n].keys|
    ensures RootId(Swapped(d, n, x), hole) == RootId(d, hole)
  {
  }

  lemma {:induction false} ErasedRep(u: Tree<Node>, keys: seq<Key>)
    requires u.Leaf? && keys != [] && u.keys == keys[..|keys|-1] && u.id.leaf
    requires HoldsKeys(u.id, keys[..|keys|-1])
    ensures Rep(u)
  {
  }

  /** The first half of Delete: the key of rank r is out, and the path leads to the leaf that is shorter now. */
  method RemoveKey(path: Path, ghost s: Tree<Node>, ghost h: int,
                   ghost r: nat) returns (ghost c: Ctx<Node>, ghost t: Tree<Node>)
    requires Rep(s) && Distinct(Nodes(s)) && Ok(s, h) && |s.keys| >= 1 && r < |InOrder(s)| < U32_LIMIT
    requires h <= MAX_DEPTH
    requires path.record == PathTo(s, r)
    modifies path, set n | n in Nodes(s)
    ensures Lowered(c, t, 1, RemoveAt(InOrder(s), r)) && PendingMem(c, t) && t.Leaf?
    ensures NodesC(c) + Nodes(t) == Nodes(s) && RootId(c, t.id) == s.id && h == |c| + 1
    ensures |path.record| == |c| + 1 && path.record[..|c|] == Records(c) && path.record[|c|].node == t.id
  {
    hide *;
    ghost var p;
    c, t, p := PathAt(s, h, r);
    AtParts(path.record, s, c, t, h, p);
    FocusRep(s, c, t, h);
    FocusIn(s, c, t, h);
    AllocT(s);
    var node, keyPos := path.record[|path.record|-1].node, path.record[|path.record|-1].pos;
    if node.leaf {
      LeafRank(c, t, p);
      t := RemoveFromLeaf(node, keyPos, s, h, c, t);
    } else {
      RankInner(c, t, p);
      ghost var d, v := path.DigRight(s, h, c, t, p);
      RecordsLen(d);
      FocusIn(s, d, v, h);
      c, t := RemoveSeparator(node, keyPos, path.record[|path.record|-1].node, s, h, c, t, d, v);
    }
  }

  lemma {:induction false} FocusIn(s: Tree<Node>, c: Ctx<Node>, t: Tree<Node>, h: int)
    requires Focus(s, c, t, h)
    ensures t.id in Nodes(s)
  {
    hide Nodes, NodesC;
    PlugNodes(c, t);
    IdIn(t);
    assert t.id in NodesC(c) + Nodes(t);
  }

  // ---------- a short node is repaired through its parent ----------

  lemma {:induction false} ParentMem(c: Ctx<Node>, t: Tree<Node>)
    requires c != [] && PendingMem(c, t)
    ensures var p := Fill(Top(c), t);
      && Rep(p) && RepC(Up(c), p.id) && Distinct(Nodes(p)) && NodesC(Up(c)) !! Nodes(p)
      && NodesC(Up(c)) + Nodes(p) == NodesC(c) + Nodes(t) && Distinct(NodesC(c) + Nodes(t))
  {
    hide *;
    PendingMemParts(c, t);
    var f := Top(c);
    TopOf(c);
    FillRep(f, t);
    RepCLast(c, t.id);
    NodesCLast(Up(c), f);
    FillNodes(f, t);
    MultisetAssoc(NodesC(Up(c)), FrameNodes(f), Nodes(t));
    DistinctTwo(NodesC(Up(c)), Nodes(Fill(f, t)));
  }

  lemma {:induction false} LoweredRepair(c: Ctx<Node>, t: Tree<Node>, h: int, target: seq<Key>)
    requires Lowered(c, t, h, target) && Low(t) && c != [] && PendingMem(c, t)
    ensures CanRepair(Fill(Top(c), t), h + 1, |Top(c).left|)
  {
    hide *;
    LoweredParts(c, t, h, target);
    UpParts(c, h, |InOrder(t)| + 1);
    var f := Top(c);
    FrameParts(f, h, |InOrder(t)| + 1);
    ParentMem(c, t);
    FillFields(f, t);
    FillKids(f, t);
    FillInOrder(f, t);
    LowKids(f, t, h);
    CanRepairOf(Fill(f, t), h + 1, |f.left|);
  }

  lemma {:induction false} LowKids(f: Frame<Node>, t: Tree<Node>, h: int)
    requires OkS(f.left, h) && OkS(f.right, h) && Ok(t, h)
    ensures var p := Fill(f, t);
      && (forall i :: 0 <= i < |p.kids| ==> Ok(p.kids[i], h))
      && (forall i :: 0 <= i < |p.kids| && i != |f.left| ==> Filled(p.kids[i]))
  {
    FillKids(f, t);
    hide Ok, Filled;
  }

  lemma {:induction false} CanRepairOf(p: Tree<Node>, h: int, pos: nat)
    requires p.Inner? && h > 1 && pos < |p.kids| == |p.keys| + 1 && 1 <= |p.keys| <= MAX_INNER_KEYS
    requires forall i :: 0 <= i < |p.kids| ==> Ok(p.kids[i], h - 1)
    requires forall i :: 0 <= i < |p.kids| && i != pos ==> Filled(p.kids[i])
    requires Low(p.kids[pos]) && Rep(p) && Distinct(Nodes(p)) && |InOrder(p)| < U32_LIMIT
    ensures CanRepair(p, h, pos)
  {
  }

  ghost function Gone(retired: Node?): multiset<Node> {
    if retired == null then multiset{} else multiset{retired}
  }

  /** q with one key less in its count. */
  ghost function OneLess(q: Tree<Node>): Tree<Node>
    requires q.Inner?
  {
    Inner(q.id, q.keys, q.kids, q.cnt - 1)
  }

  /** Once the child is repaired and the parent's count adjusted, the parent is what may be short. */
  lemma {:induction false} RepairedLowered(c: Ctx<Node>, t: Tree<Node>, h: int, target: seq<Key>,
                                           q: Tree<Node>, retired: Node?)
    requires Lowered(c, t, h, target) && c != [] && Repaired(Fill(Top(c), t), q, h + 1, retired)
    ensures q.Inner? && q.id == Top(c).id && Lowered(Up(c), OneLess(q), h + 1, target) && 0 < q.cnt
    ensures retired == null ==> |OneLess(q).keys| >= 1 && (Up(c) != [] ==> Filled(OneLess(q)))
    ensures OneLess(q).id == q.id
    ensures Nodes(OneLess(q)) == Nodes(q)
    ensures Nodes(Fill(Top(c), t)) == Nodes(q) + Gone(retired)
  {
    hide *;
    LoweredParts(c, t, h, target);
    var f, p := Top(c), Fill(Top(c), t);
    UpParts(c, h, |InOrder(t)| + 1);
    FrameParts(f, h, |InOrder(t)| + 1);
    FillFields(f, t);
    FillInOrder(f, t);
    RepairedParts(p, q, h + 1, retired);
    var u := OneLess(q);
    OneLessOf(q, h + 1, Up(c) == []);
    Assoc5(LeftOf(Up(c)), FrameLeft(f), InOrder(t), FrameRight(f), RightOf(Up(c)));
    LoweredOf(Up(c), u, h + 1, target);
  }

  lemma {:induction false} RepairedParts(p: Tree<Node>, q: Tree<Node>, h: int, retired: Node?)
    requires Repaired(p, q, h, retired)
    ensures q.Inner? && q.id == p.id && q.cnt == p.cnt && InOrder(q) == InOrder(p) && |q.kids| == |q.keys| + 1
    ensures OkS(q.kids, h - 1)
    ensures |q.keys| == |p.keys| - if retired == null then 0 else 1
    ensures Nodes(p) == Nodes(q) + Gone(retired)
    ensures MIN_INNER_KEYS == 5 && MAX_INNER_KEYS == 10
  {
  }

  lemma {:induction false} OneLessOf(q: Tree<Node>, h: int, top: bool)
    requires q.Inner? && h > 1 && |q.kids| == |q.keys| + 1 && OkS(q.kids, h - 1) && |q.keys| <= 10
    requires q.cnt == |InOrder(q)| + 1
    ensures var u := OneLess(q);
      && u.Inner? && u.id == q.id && u.keys == q.keys && Ok(u, h) && InOrder(u) == InOrder(q)
      && Nodes(u) == Nodes(q)
      && (|q.keys| >= 3 ==> Filled(u) || Low(u)) && (|q.keys| >= 4 ==> Filled(u))
  {
  }

  /** MergeOrRebalanceChild and the parent's own count. */
  method RepairStep(parent: Node, pos: nat, ghost c: Ctx<Node>, ghost t: Tree<Node>, ghost h: int,
                    ghost target: seq<Key>)
    returns (retired: Node?, ghost u: Tree<Node>)
    requires Lowered(c, t, h, target) && Low(t) && c != [] && PendingMem(c, t) && parent == Top(c).id
    requires pos == |Top(c).left|
    modifies set r | r in NodesC(c) + Nodes(t)
    ensures Lowered(Up(c), u, h + 1, target) && PendingMem(Up(c), u) && u.id == parent
    ensures retired == null ==> |u.keys| >= 1 && (Up(c) != [] ==> Filled(u))
    ensures NodesC(c) + Nodes(t) == NodesC(Up(c)) + Nodes(u) + Gone(retired)
  {
    hide *;
    ghost var q;
    ParentMem(c, t);
    NodesParts(c, t);
    retired, q := RepairChild(parent, pos, c, t, h, target);
    RepairedLowered(c, t, h, target, q, retired);
    u := OneLess(q);
    Retire(NodesC(Up(c)), Nodes(Fill(Top(c), t)), Nodes(q), Gone(retired), NodesC(c) + Nodes(t));
    LowerCount(parent, Up(c), q);
  }

  method RepairChild(parent: Node, pos: nat, ghost c: Ctx<Node>, ghost t: Tree<Node>, ghost h: int,
                     ghost target: seq<Key>)
    returns (retired: Node?, ghost q: Tree<Node>)
    requires Lowered(c, t, h, target) && Low(t) && c != [] && PendingMem(c, t) && parent == Top(c).id
    requires pos == |Top(c).left|
    modifies set r | r in NodesC(c) + Nodes(t)
    ensures Repaired(Fill(Top(c), t), q, h + 1, retired) && Rep(q) && RepC(Up(c), parent)
  {
    hide *;
    ghost var p := Fill(Top(c), t);
    LoweredRepair(c, t, h, target);
    ParentMem(c, t);
    AllocAll(c, t, p);
    FillFieldsOf(Top(c), t);
    KidIds(p);
    PartOf(NodesC(Up(c)), Nodes(p), NodesC(c) + Nodes(t));
    retired, q := parent.MergeOrRebalanceChild(pos, p, h + 1);
  }

  /** One key less in the count of q's node. */
  method LowerCount(node: Node, ghost d: Ctx<Node>, ghost q: Tree<Node>)
    requires q.Inner? && node == q.id && Rep(q) && RepC(d, q.id) && Distinct(NodesC(d) + Nodes(q))
    requires 0 < q.cnt
    requires Nodes(OneLess(q)) == Nodes(q)
    modifies node`treeCount
    ensures PendingMem(d, OneLess(q))
  {
    hide *;
    DistinctTwo(NodesC(d), Nodes(q));
    RepairedFields(q);
    AllocAll(d, q, q);
    node.IncreaseTreeCount(-1);
    OneLessRep(q);
    OneLessId(q);
    PendingMemOf(d, OneLess(q));
  }

  lemma {:induction false} OneLessId(q: Tree<Node>)
    requires q.Inner?
    ensures OneLess(q).id == q.id
  {
  }

  lemma {:induction false} NodesParts(c: Ctx<Node>, t: Tree<Node>)
    requires c != []
    ensures Top(c).id in NodesC(c)
  {
    CtxIdsIn(c);
    assert c[|c|-1].id in CtxIds(c);
  }

  lemma {:induction false} FillFieldsOf(f: Frame<Node>, t: Tree<Node>)
    ensures Fill(f, t).Inner? && Fill(f, t).id == f.id
  {
  }

  lemma {:induction false} PartOf<R>(a: multiset<R>, b: multiset<R>, m: multiset<R>)
    requires a + b == m
    ensures forall r :: r in b ==> r in m
    ensures forall r :: r in a ==> r in m
  {
  }

  lemma {:induction false} Retire<R>(a: multiset<R>, p: multiset<R>, q: multiset<R>, gone: multiset<R>,
                                     all: multiset<R>)
    requires a + p == all && p == q + gone && Distinct(all)
    ensures a + q + gone == all && Distinct(a + q) && a !! q && Distinct(q) && forall r :: r in q ==> r in all
  {
    assert a + q + gone == all;
    DistinctPart(a, q, gone);
  }

  /** What the new count of q's node leaves alone. */
  ghost predicate HoldsRest(q: Tree<Node>)
    reads q.id`keySlots, q.id`numItems, q.id`kidSlots, NodesS(Kids(q))
  {
    q.Inner? && !q.id.leaf && HoldsKeys(q.id, q.keys) && HoldsKids(q.id, Ids(q.kids)) && RepS(q.kids)
  }

  lemma {:induction false} RepairedFields(q: Tree<Node>)
    requires q.Inner? && Rep(q) && Distinct(Nodes(q))
    ensures HoldsRest(q) && q.id.treeCount == q.cnt && q.id in Nodes(q) && q.id !in NodesS(q.kids)
    ensures forall r :: r in NodesS(q.kids) ==> allocated(r)
    ensures Kids(q) == q.kids
  {
    AllocS(q.kids);
    assert Nodes(q)[q.id] == 1;
  }

  lemma {:induction false} OneLessRep(q: Tree<Node>)
    requires q.Inner? && HoldsRest(q) && q.id.treeCount == q.cnt - 1
    ensures Rep(OneLess(q))
  {
  }
}
