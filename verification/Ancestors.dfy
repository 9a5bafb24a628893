/** Completing an update: the subtree counts along the path (src/zset/bplustree.hpp:415-421). */
module Ancestors {
  import opened Keys
  import opened Sequences
  import opened Shape
  import opened Siblings
  import opened Contexts
  import opened BPNode
  import opened Paths
  import opened Cursors

  /** The tree is whole over the target keys but for the counts in c, which are off by d. */
  ghost predicate Due(c: Ctx<Node>, q: Tree<Node>, h: int, d: int, target: seq<Key>) {
    && OkCtx(c, h, |InOrder(q)| - d) && CtxArity(c) && Ok(q, h) && (c != [] ==> Filled(q)) && |q.keys| >= 1
    && LeftOf(c) + InOrder(q) + RightOf(c) == target
  }

  ghost predicate PendingMem(c: Ctx<Node>, q: Tree<Node>)
    reads NodesC(c), Nodes(q)
  {
    RepC(c, q.id) && Rep(q) && Distinct(NodesC(c) + Nodes(q))
  }

  lemma {:induction false} PendingMemParts(c: Ctx<Node>, q: Tree<Node>)
    requires PendingMem(c, q)
    ensures RepC(c, q.id) && Rep(q) && Distinct(NodesC(c) + Nodes(q))
  {
  }

  lemma {:induction false} PendingMemOf(c: Ctx<Node>, q: Tree<Node>)
    requires RepC(c, q.id) && Rep(q) && Distinct(NodesC(c) + Nodes(q))
    ensures PendingMem(c, q)
  {
  }

  lemma {:induction false} DistinctPart<R>(a: multiset<R>, b: multiset<R>, c: multiset<R>)
    requires Distinct(a + b + c)
    ensures Distinct(a) && Distinct(b) && Distinct(c) && Distinct(a + b) && Distinct(b + c) && a !! b
    ensures a !! c && b !! c
  {
    var m := a + b + c;
    assert forall r :: r in m ==> m[r] == a[r] + b[r] + c[r];
    assert forall r :: r in a ==> r in m;
    assert forall r :: r in b ==> r in m;
    assert forall r :: r in c ==> r in m;
  }

  /** Every object of a tree state that a call may touch or must leave alone is allocated. */
  lemma {:induction false} AllocAll(c: Ctx<Node>, u: Tree<Node>, rt: Tree<Node>)
    ensures forall r :: r in NodesC(c) ==> allocated(r)
    ensures forall r :: r in Nodes(u) ==> allocated(r)
    ensures forall r :: r in Nodes(rt) ==> allocated(r)
    ensures c != [] ==> forall r :: r in NodesC(Up(c)) ==> allocated(r)
  {
    AllocC(c);
    AllocT(u);
    AllocT(rt);
    if c != [] {
      AllocC(Up(c));
    }
  }

  /** Adds delta to the counts of the first |c| nodes of the path. */
  method IncreaseSubtreeCounts(path: Path, depth: int, delta: int, ghost c: Ctx<Node>, ghost hole: Node)
    requires depth == |c| - 1 && |c| <= |path.record| && path.record[..|c|] == Records(c)
    requires RepC(c, hole) && Distinct(NodesC(c))
    requires forall i :: 0 <= i < |c| ==> 0 <= c[i].cnt + delta < U32_LIMIT
    modifies CtxIds(c)
    ensures RepC(Bump(c, delta), hole)
  {
    hide RepC, NodesC, Distinct, FrameNodes;
    var i := depth;
    BumpNone(c, delta);
    while i >= 0
      invariant -1 <= i < |c| && RepC(BumpFrom(c, i + 1, delta), hole)
    {
      var node := path.record[i].node;
      assert path.record[i] == path.record[..|c|][i] == Records(c)[i];
      BumpNodes(c, i + 1, delta);
      BumpOne(node, delta, BumpFrom(c, i + 1, delta), i, hole);
      BumpNext(c, i, delta);
      i := i - 1;
    }
  }

  lemma {:induction false} BumpNone(c: Ctx<Node>, delta: int)
    ensures BumpFrom(c, |c|, delta) == c
  {
  }

  lemma {:induction false} BumpNext(c: Ctx<Node>, i: int, delta: int)
    requires 0 <= i < |c|
    ensures var b := BumpFrom(c, i + 1, delta);
      && b[i] == c[i] && b[i := b[i].(cnt := b[i].cnt + delta)] == BumpFrom(c, i, delta)
  {
  }

  lemma {:induction false} CtxIdsIn(c: Ctx<Node>)
    ensures forall n :: n in CtxIds(c) ==> n in NodesC(c)
  {
    forall i | 0 <= i < |c| ensures c[i].id in NodesC(c) {
      FrameNodesIn(c, i);
      assert c[i].id in FrameNodes(c[i]);
    }
  }

  /** A complete tree over the target keys. */
  ghost predicate Whole(t: Tree<Node>, h: int, target: seq<Key>)
    reads Nodes(t)
  {
    Rep(t) && Distinct(Nodes(t)) && Ok(t, h) && |t.keys| >= 1 && InOrder(t) == target
  }

  ghost function RootId(c: Ctx<Node>, hole: Node): Node {
    if c == [] then hole else c[0].id
  }

  lemma {:induction false} EmptyCtx(hole: Node)
    ensures RootId([], hole) == hole && NodesC<Node>([]) == multiset{} && CtxArity<Node>([])
    ensures LeftOf<Node>([]) == [] && RightOf<Node>([]) == []
  {
  }

  lemma {:induction false} PlugRoot(c: Ctx<Node>, t: Tree<Node>)
    ensures Plug(c, t).id == RootId(c, t.id)
    decreases |c|
  {
    if c != [] {
      PlugRoot(c[..|c|-1], Fill(c[|c|-1], t));
    }
  }

  /** Stored counts lie between the hole's size and that of the whole tree. */
  lemma {:induction false} CtxCounts(c: Ctx<Node>, h: int, sz: int)
    requires OkCtx(c, h, sz) && CtxArity(c)
    ensures forall i :: 0 <= i < |c| ==> sz < c[i].cnt <= |LeftOf(c)| + sz + |RightOf(c)|
    decreases |c|
  {
    if c != [] {
      hide *;
      UpParts(c, h, sz);
      TopOf(c);
      var f := Top(c);
      FrameSize(f, h, sz);
      CtxCounts(Up(c), h + 1, f.cnt);
      forall i | 0 <= i < |c| ensures sz < c[i].cnt <= |LeftOf(c)| + sz + |RightOf(c)| {
        if i < |c| - 1 { assert c[i] == Up(c)[i]; }
      }
    }
  }

  lemma {:induction false} FrameSize(f: Frame<Node>, h: int, sz: int)
    requires OkFrame(f, h, sz)
    ensures f.cnt == |FrameLeft(f)| + sz + |FrameRight(f)| > sz
  {
    LeadSize(f.left, f.keys[..|f.left|]);
    LeadSize(f.right, f.keys[|f.left|..]);
    TotalNat(f.left);
    TotalNat(f.right);
  }

  lemma {:induction false} DueParts(c: Ctx<Node>, q: Tree<Node>, h: int, d: int, target: seq<Key>)
    requires Due(c, q, h, d, target)
    ensures OkCtx(c, h, |InOrder(q)| - d) && CtxArity(c) && Ok(q, h) && (c != [] ==> Filled(q))
    ensures |q.keys| >= 1
    ensures LeftOf(c) + InOrder(q) + RightOf(c) == target
  {
  }

  lemma {:induction false} WholeOf(t: Tree<Node>, h: int, target: seq<Key>)
    requires Rep(t) && Distinct(Nodes(t)) && Ok(t, h) && |t.keys| >= 1 && InOrder(t) == target
    ensures Whole(t, h, target)
  {
  }

  lemma {:induction false} DueWhole(c: Ctx<Node>, q: Tree<Node>, h: int, d: int, target: seq<Key>)
    requires Due(c, q, h, d, target)
    requires RepC(Bump(c, d), q.id) && Rep(q) && Distinct(NodesC(c) + Nodes(q))
    ensures var s := Plug(Bump(c, d), q);
      Whole(s, h + |c|, target) && Nodes(s) == NodesC(c) + Nodes(q) && s.id == RootId(c, q.id)
  {
    hide *;
    DueParts(c, q, h, d, target);
    var b := Bump(c, d);
    BumpOk(c, h, |InOrder(q)| - d, d);
    BumpSame(c, d);
    PlugOk(b, q, h);
    PlugRep(b, q);
    PlugInOrder(b, q);
    PlugNodes(b, q);
    PlugRoot(b, q);
    RootIdOf(b, c, q.id);
    WholeOf(Plug(b, q), h + |c|, target);
  }

  lemma {:induction false} BumpSame(c: Ctx<Node>, d: int)
    ensures NodesC(Bump(c, d)) == NodesC(c) && |Bump(c, d)| == |c| && Bump(c, d) == BumpFrom(c, 0, d)
    ensures forall i :: 0 <= i < |c| ==> Bump(c, d)[i].id == c[i].id
  {
    BumpNodes(c, 0, d);
  }

  lemma {:induction false} RootIdOf(b: Ctx<Node>, c: Ctx<Node>, hole: Node)
    requires |b| == |c| && forall i :: 0 <= i < |c| ==> b[i].id == c[i].id
    ensures RootId(b, hole) == RootId(c, hole)
  {
  }

  /** The last step of an update: d more keys below each of the first level nodes of the path. */
  method FinishCounts(path: Path, level: nat, d: int, ghost c: Ctx<Node>, ghost q: Tree<Node>, ghost h: int,
                      ghost target: seq<Key>)
    returns (ghost s: Tree<Node>)
    requires Due(c, q, h, d, target) && PendingMem(c, q) && |target| < U32_LIMIT
    requires level == |c| <= |path.record| && path.record[..level] == Records(c)
    modifies CtxIds(c)
    ensures Whole(s, h + |c|, target) && Nodes(s) == NodesC(c) + Nodes(q) && s.id == RootId(c, q.id)
  {
    hide *;
    DueParts(c, q, h, d, target);
    PendingMemParts(c, q);
    CtxIdsIn(c);
    AllocAll(c, q, q);
    DistinctTwo(NodesC(c), Nodes(q));
    CtxCounts(c, h, |InOrder(q)| - d);
    U32Value();
    if level > 0 {
      IncreaseSubtreeCounts(path, level - 1, d, c, q.id);
    } else {
      BumpSame(c, d);
      assert Bump(c, d) == c;
    }
    DueWhole(c, q, h, d, target);
    s := Plug(Bump(c, d), q);
  }

  lemma {:induction false} U32Value()
    ensures U32_LIMIT == 0x1_0000_0000
  {
  }

  lemma {:induction false} DistinctTwo<R>(a: multiset<R>, b: multiset<R>)
    requires Distinct(a + b)
    ensures Distinct(a) && Distinct(b) && a !! b
  {
    assert a + b + multiset{} == a + b;
    DistinctPart(a, b, multiset{});
  }
}
