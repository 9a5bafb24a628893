/** What holds between the steps of an insertion (src/zset/bplustree.hpp:278-412). */
module Insertion {
  import opened Keys
  import opened Sequences
  import opened Shape
  import opened Siblings
  import opened Contexts
  import opened BPNode
  import opened Paths
  import opened Cursors
  import opened Ancestors

  /**
   The node in the hole was split into t and rt, and the separator med and rt still have to be
   added to the parent.  The counts in c know all of t and rt but not med.
   */
  ghost predicate Splitting(c: Ctx<Node>, t: Tree<Node>, med: Key, rt: Tree<Node>, h: int, target: seq<Key>) {
    && OkCtx(c, h, |InOrder(t)| + |InOrder(rt)|) && CtxArity(c)
    && Ok(t, h) && Ok(rt, h) && Filled(t) && Filled(rt)
    && LeftOf(c) + (InOrder(t) + [med] + InOrder(rt)) + RightOf(c) == target && |target| < U32_LIMIT
  }

  ghost predicate SplittingMem(c: Ctx<Node>, t: Tree<Node>, rt: Tree<Node>)
    reads NodesC(c), Nodes(t), Nodes(rt)
  {
    RepC(c, t.id) && Rep(t) && Rep(rt) && Distinct(NodesC(c) + Nodes(t) + Nodes(rt))
  }

  // ---------- the parent has a free slot ----------

  lemma {:induction false} AddPending(c: Ctx<Node>, t: Tree<Node>, med: Key, rt: Tree<Node>, h: int, target: seq<Key>)
    requires Splitting(c, t, med, rt, h, target) && c != [] && |Top(c).keys| < MAX_INNER_KEYS
    ensures FrameArity(Top(c)) && Due(Up(c), AddKid(Top(c), t, med, rt), h + 1, 1, target)
    ensures NodesC(Up(c)) + Nodes(AddKid(Top(c), t, med, rt)) == NodesC(c) + Nodes(t) + Nodes(rt)
  {
    hide *;
    var sz := |InOrder(t)| + |InOrder(rt)|;
    SplittingParts(c, t, med, rt, h, target);
    UpParts(c, h, sz);
    var f := Top(c);
    FrameParts(f, h, sz);
    AddKidInOrder(f, t, med, rt);
    AddKidOk(f, t, med, rt, h);
    MultisetRegroup(NodesC(Up(c)), FrameNodes(f), Nodes(t), Nodes(rt));
    Assoc5(LeftOf(Up(c)), FrameLeft(f), InOrder(t) + [med] + InOrder(rt), FrameRight(f), RightOf(Up(c)));
    PendingOf(Up(c), AddKid(f, t, med, rt), h + 1, target);
  }

  lemma {:induction false} SplittingParts(c: Ctx<Node>, t: Tree<Node>, med: Key, rt: Tree<Node>, h: int,
                                          target: seq<Key>)
    requires Splitting(c, t, med, rt, h, target)
    ensures OkCtx(c, h, |InOrder(t)| + |InOrder(rt)|) && CtxArity(c)
    ensures Ok(t, h) && Ok(rt, h) && Filled(t) && Filled(rt)
    ensures LeftOf(c) + (InOrder(t) + [med] + InOrder(rt)) + RightOf(c) == target && |target| < U32_LIMIT
  {
  }

  lemma {:induction false} PendingOf(c: Ctx<Node>, q: Tree<Node>, h: int, target: seq<Key>)
    requires OkCtx(c, h, |InOrder(q)| - 1) && CtxArity(c) && Ok(q, h) && (c != [] ==> Filled(q))
    requires |q.keys| >= 1
    requires LeftOf(c) + InOrder(q) + RightOf(c) == target
    ensures Due(c, q, h, 1, target)
  {
  }

  lemma {:induction false} AddKidOk(f: Frame<Node>, t: Tree<Node>, med: Key, rt: Tree<Node>, h: int)
    requires OkFrame(f, h, |InOrder(t)| + |InOrder(rt)|) && Ok(t, h) && Ok(rt, h) && Filled(t) && Filled(rt)
    ensures var q := AddKid(f, t, med, rt);
      && OkS(q.kids, h) && q.cnt == |InOrder(q)| && |q.keys| == |f.keys| + 1 && f.cnt == |InOrder(q)| - 1
      && (|f.keys| < MAX_INNER_KEYS ==> Ok(q, h + 1)) && (|f.keys| >= MIN_INNER_KEYS - 1 ==> Filled(q))
  {
    hide *;
    FrameParts(f, h, |InOrder(t)| + |InOrder(rt)|);
    var q := AddKid(f, t, med, rt);
    AddKidFields(f, t, med, rt);
    OkTwo(t, rt, h);
    OkConcat(f.left + [t, rt], f.right, h);
    OkConcat(f.left, [t, rt], h);
    AddKidInOrder(f, t, med, rt);
    if |f.keys| < MAX_INNER_KEYS { OkInner(q, h + 1); }
  }

  lemma {:induction false} AddKidFields(f: Frame<Node>, t: Tree<Node>, med: Key, rt: Tree<Node>)
    requires FrameArity(f)
    ensures var q := AddKid(f, t, med, rt);
      && q.Inner? && q.id == f.id && q.kids == f.left + [t, rt] + f.right && q.cnt == f.cnt + 1
      && |q.keys| == |f.keys| + 1 && |q.kids| == |q.keys| + 1
      && (|f.keys| >= MIN_INNER_KEYS - 1 ==> Filled(q))
    ensures MAX_INNER_KEYS == 10
  {
  }

  lemma {:induction false} OkTwo(t: Tree<Node>, rt: Tree<Node>, h: int)
    requires Ok(t, h) && Ok(rt, h) && Filled(t) && Filled(rt)
    ensures OkS([t, rt], h)
  {
  }

  lemma {:induction false} OkInner(q: Tree<Node>, h: int)
    requires q.Inner? && h > 1 && |q.kids| == |q.keys| + 1 && |q.keys| <= MAX_INNER_KEYS && OkS(q.kids, h - 1)
    requires q.cnt == |InOrder(q)|
    ensures Ok(q, h)
  {
  }

  lemma {:induction false} MultisetRegroup<R>(a: multiset<R>, b: multiset<R>, c: multiset<R>, d: multiset<R>)
    ensures a + (b + c + d) == a + b + c + d
  {
  }

  // ---------- a full node is rebalanced with a sibling ----------

  ghost function RtNodes(u: Tree<Node>, rt: Tree<Node>): multiset<Node> {
    if u.Leaf? then multiset{} else Nodes(rt)
  }

  /** The full node u is to take key x at position ip, an inner one also the child rt, which its count knows already. */
  ghost predicate Overfull(c: Ctx<Node>, u: Tree<Node>, ip: nat, x: Key, rt: Tree<Node>, h: int, target: seq<Key>) {
    && c != [] && Body(u, h) && Arity(u) && FreeSlots(u) == 0 && ip <= |u.keys| && Surplus(u) == Weight(u, rt)
    && (u.Inner? ==> Ok(rt, h - 1) && Filled(rt))
    && OkCtx(c, h, |InOrder(Grown(u, ip, x, rt, 1))| - 1) && CtxArity(c)
    && LeftOf(c) + InOrder(Grown(u, ip, x, rt, 1)) + RightOf(c) == target && |target| < U32_LIMIT
  }

  ghost predicate OverfullMem(c: Ctx<Node>, u: Tree<Node>, rt: Tree<Node>)
    reads NodesC(c), Nodes(u), Nodes(rt)
  {
    && RepC(c, u.id) && Rep(u) && (u.Inner? ==> Rep(rt)) && Distinct(NodesC(c) + Nodes(u) + RtNodes(u, rt))
  }

  lemma {:induction false} OverfullParts(c: Ctx<Node>, u: Tree<Node>, ip: nat, x: Key, rt: Tree<Node>, h: int,
                                         target: seq<Key>)
    requires Overfull(c, u, ip, x, rt, h, target)
    ensures c != [] && Body(u, h) && Arity(u) && FreeSlots(u) == 0 && ip <= |u.keys|
    ensures u.Inner? ==> Ok(rt, h - 1) && Filled(rt) && u.cnt == |InOrder(u)| + |InOrder(rt)|
    ensures Surplus(u) == Weight(u, rt) == (if u.Leaf? then 0 else |InOrder(rt)|)
    ensures OkCtx(c, h, |InOrder(Grown(u, ip, x, rt, 1))| - 1) && CtxArity(c)
    ensures LeftOf(c) + InOrder(Grown(u, ip, x, rt, 1)) + RightOf(c) == target && |target| < U32_LIMIT
    ensures |InOrder(Grown(u, ip, x, rt, 1))| == |InOrder(u)| + (if u.Leaf? then 0 else |InOrder(rt)|) + 1
  {
    GrownSize(u, ip, x, rt);
  }

  lemma {:induction false} GrownSize(u: Tree<Node>, ip: nat, x: Key, rt: Tree<Node>)
    requires Arity(u) && ip <= |u.keys|
    ensures |InOrder(Grown(u, ip, x, rt, 1))| == |InOrder(u)| + (if u.Leaf? then 0 else |InOrder(rt)|) + 1
  {
    if u.Inner? {
      TotalInsert(u.kids, ip + 1, rt);
      WeaveSizes(u, Grown(u, ip, x, rt, 1));
    }
  }

  /** A sibling's keys are among those around the hole. */
  lemma {:induction false} SiblingSize(f: Frame<Node>, i: nat)
    requires FrameArity(f)
    ensures i < |f.left| ==> |InOrder(f.left[i])| < |FrameLeft(f)|
    ensures i < |f.right| ==> |InOrder(f.right[i])| < |FrameRight(f)|
  {
    if i < |f.left| {
      LeadSize(f.left, f.keys[..|f.left|]);
      TotalMember(f.left, i);
    }
    if i < |f.right| {
      LeadSize(f.right, f.keys[|f.left|..]);
      TotalMember(f.right, i);
    }
  }

  lemma {:induction false} TotalMember(c: seq<Tree<Node>>, i: nat)
    requires i < |c|
    ensures |InOrder(c[i])| <= Total(c)
  {
    TotalNat(c[1..]);
    if i > 0 {
      TotalMember(c[1..], i - 1);
    }
  }

  /** The memory of an overfull child and its parent. */
  lemma {:induction false} OverfullMemParts(c: Ctx<Node>, u: Tree<Node>, rt: Tree<Node>)
    requires c != [] && OverfullMem(c, u, rt)
    ensures var p := Fill(Top(c), u);
      && Rep(p) && RepC(Up(c), p.id) && Distinct(Nodes(p)) && (u.Inner? ==> Rep(rt))
      && NodesC(Up(c)) !! Nodes(p) && RtNodes(u, rt) !! Nodes(p)
      && NodesC(Up(c)) + Nodes(p) == NodesC(c) + Nodes(u)
  {
    hide *;
    OverfullMemOf(c, u, rt);
    var f := Top(c);
    TopOf(c);
    FillRep(f, u);
    RepCLast(c, u.id);
    NodesCLast(Up(c), f);
    FillNodes(f, u);
    MultisetAssoc(NodesC(Up(c)), FrameNodes(f), Nodes(u));
    DistinctPart(NodesC(Up(c)), Nodes(Fill(f, u)), RtNodes(u, rt));
  }

  lemma {:induction false} OverfullMemOf(c: Ctx<Node>, u: Tree<Node>, rt: Tree<Node>)
    requires OverfullMem(c, u, rt)
    ensures RepC(c, u.id) && Rep(u) && (u.Inner? ==> Rep(rt))
    ensures Distinct(NodesC(c) + Nodes(u) + RtNodes(u, rt))
  {
  }

  lemma {:induction false} OverfullPair(c: Ctx<Node>, u: Tree<Node>, ip: nat, x: Key, rt: Tree<Node>, h: int,
                                        target: seq<Key>, k: nat)
    requires Overfull(c, u, ip, x, rt, h, target) && OverfullMem(c, u, rt)
    requires FrameArity(Top(c)) && k <= |Top(c).left| <= k + 1 && k + 1 <= |Top(c).keys|
    ensures CanMove(Fill(Top(c), u), k) && Unsettled(Fill(Top(c), u), |Top(c).left|, k, rt, h)
    ensures forall i :: k <= i <= k + 1 && i != |Top(c).left| ==>
      Filled(Fill(Top(c), u).kids[i]) && FreeSlots(Fill(Top(c), u).kids[i]) >= 0
  {
    hide *;
    OverfullParts(c, u, ip, x, rt, h, target);
    OverfullMemParts(c, u, rt);
    var f := Top(c);
    UpParts(c, h, |InOrder(Grown(u, ip, x, rt, 1))| - 1);
    FrameParts(f, h, |InOrder(Grown(u, ip, x, rt, 1))| - 1);
    OverfullKids(f, u, rt, h, k);
    SiblingSize(f, k);
    SiblingSize(f, 0);
    FillKids(f, u);
    CanMoveOf(Fill(f, u), k, h);
  }

  lemma {:induction false} OverfullKids(f: Frame<Node>, u: Tree<Node>, rt: Tree<Node>, h: int, k: nat)
    requires FrameArity(f) && OkS(f.left, h) && OkS(f.right, h) && Body(u, h) && Arity(u)
    requires Surplus(u) == Weight(u, rt)
    requires u.Inner? ==> Ok(rt, h - 1) && Filled(rt)
    requires k <= |f.left| <= k + 1 && k + 1 <= |f.keys|
    ensures var p, pos := Fill(f, u), |f.left|;
      && Pair(p, k) && p.Inner? && k + 1 < |p.kids| && Body(p.kids[k], h) && Body(p.kids[k+1], h)
      && Unsettled(p, pos, k, rt, h)
      && Surplus(p.kids[k]) >= 0 && Surplus(p.kids[k+1]) >= 0
      && (var o := if k == pos then k + 1 else k;
          && Filled(p.kids[o]) && FreeSlots(p.kids[o]) >= 0 && p.kids[o].Leaf? == u.Leaf?
          && (u.Inner? ==> p.kids[o].cnt == |InOrder(p.kids[o])| && u.cnt == |InOrder(u)| + |InOrder(rt)|))
  {
    var p, pos := Fill(f, u), |f.left|;
    FillKids(f, u);
    forall i | 0 <= i < |p.kids| && i != pos ensures Ok(p.kids[i], h) && Filled(p.kids[i]) {
    }
    var o := if k == pos then k + 1 else k;
    OkFields(p.kids[o], h);
    BodyFields(u, h);
    hide Ok, OkS, Body, InOrder, Fill;
  }

  lemma {:induction false} OkFields(t: Tree<Node>, h: int)
    requires Ok(t, h)
    ensures h >= 1 && Body(t, h) && Surplus(t) == 0 && Arity(t) && FreeSlots(t) >= 0 && (t.Leaf? <==> h == 1)
    ensures t.Inner? ==> t.cnt == |InOrder(t)|
  {
  }

  lemma {:induction false} BodyFields(t: Tree<Node>, h: int)
    requires Body(t, h)
    ensures Arity(t) && FreeSlots(t) >= 0 && (t.Leaf? <==> h == 1)
  {
  }

  lemma {:induction false} CanMoveOf(p: Tree<Node>, k: nat, h: int)
    requires Pair(p, k) && Rep(p) && Distinct(Nodes(p)) && Body(p.kids[k], h) && Body(p.kids[k+1], h)
    requires Surplus(p.kids[k]) >= 0 && Surplus(p.kids[k+1]) >= 0
    requires p.kids[k].Inner? ==> p.kids[k].cnt + p.kids[k+1].cnt < U32_LIMIT
    ensures CanMove(p, k)
  {
    BodyCounted(p.kids[k], h);
    BodyCounted(p.kids[k+1], h);
  }

  lemma {:induction false} OverfullRebalance(c: Ctx<Node>, u: Tree<Node>, ip: nat, x: Key, rt: Tree<Node>,
                                             h: int, target: seq<Key>)
    requires Overfull(c, u, ip, x, rt, h, target) && OverfullMem(c, u, rt)
    ensures FrameArity(Top(c)) && |Top(c).left| <= |Top(c).keys|
    ensures CanRebalance(Fill(Top(c), u), |Top(c).left|)
  {
    hide *;
    OverfullParts(c, u, ip, x, rt, h, target);
    OverfullMemParts(c, u, rt);
    UpParts(c, h, |InOrder(Grown(u, ip, x, rt, 1))| - 1);
    var f := Top(c);
    FillKids(f, u);
    FillFields(f, u);
    var pos := |f.left|;
    if pos > 0 { OverfullPair(c, u, ip, x, rt, h, target, pos - 1); }
    if pos < |f.keys| { OverfullPair(c, u, ip, x, rt, h, target, pos); }
    CanRebalanceOf(Fill(f, u), pos);
  }

  lemma {:induction false} CanRebalanceOf(p: Tree<Node>, pos: nat)
    requires p.Inner? && pos < |p.kids| == |p.keys| + 1 && FreeSlots(p.kids[pos]) == 0 && Rep(p)
    requires pos > 0 ==> CanMove(p, pos - 1) && Filled(p.kids[pos-1]) && FreeSlots(p.kids[pos-1]) >= 0
    requires pos + 1 < |p.kids| ==> CanMove(p, pos) && Filled(p.kids[pos+1]) && FreeSlots(p.kids[pos+1]) >= 0
    ensures CanRebalance(p, pos)
  {
  }

  /** The rebalanced pair can take (x, rt) at the place that was found. */
  lemma {:induction false} OverfullSettle(c: Ctx<Node>, u: Tree<Node>, ip: nat, x: Key, rt: Tree<Node>, h: int,
                                          target: seq<Key>, q: Tree<Node>, k: nat, j: nat, i: nat)
    requires Overfull(c, u, ip, x, rt, h, target) && FrameArity(Top(c))
    requires Distinct(Nodes(Fill(Top(c), u))) && RtNodes(u, rt) !! Nodes(Fill(Top(c), u))
    requires u.Inner? ==> Rep(rt)
    requires Rep(q) && Recut(Fill(Top(c), u), q, k)
    requires SamePlace(Fill(Top(c), u), |Top(c).left|, ip, q, k, j, i)
    requires Unsettled(Fill(Top(c), u), |Top(c).left|, k, rt, h)
    ensures CanSettle(q, k, |Top(c).left|, j, i, rt)
  {
    hide *;
    OverfullParts(c, u, ip, x, rt, h, target);
    UpParts(c, h, |InOrder(Grown(u, ip, x, rt, 1))| - 1);
    var f, pos := Top(c), |Top(c).left|;
    var p := Fill(f, u);
    FillKids(f, u);
    FillFields(f, u);
    SamePlaceFields(p, pos, ip, q, k, j, i);
    RecutShapeFields(p, q, k);
    RecutSame(p, q, k);
    UnsettledFields(p, pos, k, rt, h);
    RecutSurplus(p, q, k);
    if u.Inner? {
      SurplusOf(q.kids[j]);
      SurplusOf(q.kids[pos]);
      InOrderAtPair(q, k);
      FillInOrder(f, u);
      RepCount(rt, h - 1);
      RtNodesOf(u, rt);
      KidNodes(q, k);
    }
    CanSettleOf(q, k, pos, j, i, rt);
  }

  lemma {:induction false} RecutShapeFields(p: Tree<Node>, q: Tree<Node>, k: nat)
    requires RecutShape(p, q, k)
    ensures Pair(q, k) && Pair(p, k) && q.Inner? && |q.kids| == |q.keys| + 1 && k + 1 < |q.kids|
    ensures |q.keys| == |p.keys| && q.id == p.id
  {
  }

  lemma {:induction false} SurplusOf(t: Tree<Node>)
    ensures t.Inner? ==> t.cnt == |InOrder(t)| + Surplus(t)
  {
  }

  lemma {:induction false} RtNodesOf(u: Tree<Node>, rt: Tree<Node>)
    ensures u.Inner? ==> RtNodes(u, rt) == Nodes(rt)
    ensures u.Leaf? ==> RtNodes(u, rt) == multiset{}
  {
  }

  lemma {:induction false} KidNodes(q: Tree<Node>, k: nat)
    requires Pair(q, k)
    ensures q.kids[k].id in Nodes(q) && q.kids[k+1].id in Nodes(q)
  {
    NodesIn(q.kids, k);
    NodesIn(q.kids, k + 1);
    assert q.kids[k].id in Nodes(q.kids[k]) && q.kids[k+1].id in Nodes(q.kids[k+1]);
  }

  lemma {:induction false} CanSettleOf(q: Tree<Node>, k: nat, pos: nat, j: nat, i: nat, rt: Tree<Node>)
    requires Pair(q, k) && k <= pos <= k + 1 && k <= j <= k + 1 && i <= |q.kids[j].keys|
    requires FreeSlots(q.kids[j]) > 0
    requires Rep(q) && Distinct(Nodes(q))
    requires q.kids[j].Inner? ==>
      && Rep(rt) && rt.id.TreeCount() == |InOrder(rt)| && q.kids[k].id !in Nodes(rt)
      && q.kids[k+1].id !in Nodes(rt)
      && q.kids[j].cnt + (if j == pos then 1 else |InOrder(rt)| + 1) < U32_LIMIT
      && |InOrder(rt)| <= q.kids[pos].cnt
    ensures CanSettle(q, k, pos, j, i, rt)
  {
  }

  /** Reading the parent s around its child pos again. */
  lemma {:induction false} Reframe(c: Ctx<Node>, s: Tree<Node>, pos: nat, h: int, target: seq<Key>)
    requires s.Inner? && CtxArity(c) && OkCtx(c, h + 1, s.cnt) && h >= 1
    requires pos < |s.kids| == |s.keys| + 1 && 1 <= |s.keys| <= MAX_INNER_KEYS
    requires c != [] ==> |s.keys| >= MIN_INNER_KEYS - 1
    requires OkS(s.kids, h) && s.cnt == |InOrder(s)| - 1 && LeftOf(c) + InOrder(s) + RightOf(c) == target
    ensures Due(c + [FrameAt(s, pos)], s.kids[pos], h, 1, target)
    ensures NodesC(c + [FrameAt(s, pos)]) + Nodes(s.kids[pos]) == NodesC(c) + Nodes(s)
  {
    hide *;
    var f, t := FrameAt(s, pos), s.kids[pos];
    var d := c + [f];
    FrameAtFields(s, pos);
    PlugStep(c, s, pos);
    FillInOrder(f, t);
    FillNodes(f, t);
    NodesCLast(c, f);
    MultisetAssoc(NodesC(c), FrameNodes(f), Nodes(t));
    OkKid(s.kids, pos, h);
    FrameOk(s, pos, h);
    OkCtxPush(c, f, h, |InOrder(t)| - 1);
    Assoc5(LeftOf(c), FrameLeft(f), InOrder(t), FrameRight(f), RightOf(c));
    PendingOf(d, t, h, target);
  }

  lemma {:induction false} OkKid(kids: seq<Tree<Node>>, i: nat, h: int)
    requires OkS(kids, h) && i < |kids|
    ensures Ok(kids[i], h) && Filled(kids[i]) && |kids[i].keys| >= 1
  {
  }

  lemma {:induction false} FrameOk(s: Tree<Node>, pos: nat, h: int)
    requires s.Inner? && pos < |s.kids| == |s.keys| + 1 && 1 <= |s.keys| <= MAX_INNER_KEYS && OkS(s.kids, h)
    requires h >= 1
    requires s.cnt == |InOrder(s)| - 1
    ensures OkFrame(FrameAt(s, pos), h, |InOrder(s.kids[pos])| - 1)
  {
    var f := FrameAt(s, pos);
    PlugStep([], s, pos);
    FillInOrder(f, s.kids[pos]);
    hide Ok, Filled, InOrder, FrameLeft, FrameRight;
  }

  lemma {:induction false} OkCtxPush(c: Ctx<Node>, f: Frame<Node>, h: int, sz: int)
    requires OkCtx(c, h + 1, f.cnt) && OkFrame(f, h, sz) && (c != [] ==> |f.keys| >= MIN_INNER_KEYS - 1)
    requires CtxArity(c)
    ensures OkCtx(c + [f], h, sz) && CtxArity(c + [f])
    ensures LeftOf(c + [f]) == LeftOf(c) + FrameLeft(f) && RightOf(c + [f]) == FrameRight(f) + RightOf(c)
  {
    assert (c + [f])[..|c|] == c;
  }

  lemma {:induction false} ReframeMem(c: Ctx<Node>, s: Tree<Node>, pos: nat)
    requires s.Inner? && pos < |s.kids| == |s.keys| + 1 && Rep(s) && RepC(c, s.id)
    requires Distinct(NodesC(c) + Nodes(s))
    requires NodesC(c + [FrameAt(s, pos)]) + Nodes(s.kids[pos]) == NodesC(c) + Nodes(s)
    ensures PendingMem(c + [FrameAt(s, pos)], s.kids[pos])
  {
    hide *;
    var f := FrameAt(s, pos);
    var d := c + [f];
    FrameAtFields(s, pos);
    PlugStep(c, s, pos);
    FillRep(f, s.kids[pos]);
    assert d[..|d|-1] == c && d[|d|-1] == f;
    RepCLast(d, s.kids[pos].id);
    PendingMemOf(d, s.kids[pos]);
  }

  /** After the rebalancing and the insertion the parent holds the target keys, all children resting. */
  lemma {:induction false} SettledPending(c: Ctx<Node>, u: Tree<Node>, ip: nat, x: Key, rt: Tree<Node>, h: int,
                                          target: seq<Key>, q: Tree<Node>, k: nat, j: nat, i: nat)
    requires Overfull(c, u, ip, x, rt, h, target) && FrameArity(Top(c))
    requires Recut(Fill(Top(c), u), q, k) && SamePlace(Fill(Top(c), u), |Top(c).left|, ip, q, k, j, i)
    requires Unsettled(Fill(Top(c), u), |Top(c).left|, k, rt, h)
    ensures var pos := |Top(c).left|;
      && q.Inner? && pos < |q.kids| && j < |q.kids| && Arity(q.kids[j]) && i <= |q.kids[j].keys|
      && var s := Settled(q, pos, j, i, x, rt);
      && s.Inner? && s.id == Top(c).id && pos < |s.kids| == |s.keys| + 1
      && Due(Up(c) + [FrameAt(s, pos)], s.kids[pos], h, 1, target)
      && NodesC(Up(c) + [FrameAt(s, pos)]) + Nodes(s.kids[pos]) == NodesC(Up(c)) + Nodes(s)
      && NodesC(Up(c)) + Nodes(s) == NodesC(c) + Nodes(u) + RtNodes(u, rt)
  {
    hide *;
    OverfullParts(c, u, ip, x, rt, h, target);
    var full := Grown(u, ip, x, rt, 1);
    UpParts(c, h, |InOrder(full)| - 1);
    var f, pos := Top(c), |Top(c).left|;
    var p := Fill(f, u);
    FrameParts(f, h, |InOrder(full)| - 1);
    FillFields(f, u);
    FillKids(f, u);
    SamePlaceFields(p, pos, ip, q, k, j, i);
    RecutShapeFields(p, q, k);
    var s := Settled(q, pos, j, i, x, rt);
    SettledRecut(p, pos, ip, q, k, j, i, x, rt, 1);
    GrownFill(f, u, ip, x, rt);
    RecutShapeFields(Fill(f, full), s, k);
    RecutSame(Fill(f, full), s, k);
    FillInOrder(f, full);
    FillNodes(f, full);
    SettledOk(p, pos, ip, q, k, j, i, x, rt, h);
    SettledFields(q, pos, j, i, x, rt);
    RecutCnt(p, q, k);
    GrownNodes(u, ip, x, rt);
    FillFields(f, full);
    Assoc5(LeftOf(Up(c)), FrameLeft(f), InOrder(full), FrameRight(f), RightOf(Up(c)));
    MultisetFour(NodesC(Up(c)), FrameNodes(f), Nodes(u), RtNodes(u, rt));
    Reframe(Up(c), s, pos, h, target);
  }

  lemma {:induction false} RecutCnt(p: Tree<Node>, q: Tree<Node>, k: nat)
    requires Recut(p, q, k)
    ensures p.Inner? && q.Inner? && q.cnt == p.cnt
  {
  }

  lemma {:induction false} SettledFields(q: Tree<Node>, pos: nat, j: nat, i: nat, x: Key, rt: Tree<Node>)
    requires q.Inner? && pos < |q.kids| && j < |q.kids| && Arity(q.kids[j]) && i <= |q.kids[j].keys|
    ensures var s := Settled(q, pos, j, i, x, rt);
      s.Inner? && s.id == q.id && s.keys == q.keys && s.cnt == q.cnt && |s.kids| == |q.kids|
  {
  }

  lemma {:induction false} GrownFill(f: Frame<Node>, u: Tree<Node>, ip: nat, x: Key, rt: Tree<Node>)
    requires FrameArity(f) && Arity(u) && ip <= |u.keys|
    ensures var p := Fill(f, u);
      && p.Inner? && |f.left| < |p.kids| && p.kids[|f.left|] == u
      && GrownAt(p, |f.left|, ip, x, rt, 1) == Fill(f, Grown(u, ip, x, rt, 1))
  {
  }

  lemma {:induction false} GrownNodes(u: Tree<Node>, ip: nat, x: Key, rt: Tree<Node>)
    requires Arity(u) && ip <= |u.keys|
    ensures Nodes(Grown(u, ip, x, rt, 1)) == Nodes(u) + RtNodes(u, rt)
  {
    hide *;
    var g := Grown(u, ip, x, rt, 1);
    GrownFields(u, ip, x, rt, 1);
    NodesOf(u);
    NodesOf(g);
    KidsOf(u);
    RtNodesOf(u, rt);
    if u.Inner? {
      NodesInsert(u.kids, ip + 1, rt);
      MultisetAssoc(multiset{u.id}, NodesS(u.kids), Nodes(rt));
    }
  }

  lemma {:induction false} NodesOf(t: Tree<Node>)
    ensures Nodes(t) == multiset{t.id} + NodesS(Kids(t))
  {
  }

  lemma {:induction false} NodesInsert(c: seq<Tree<Node>>, i: nat, rt: Tree<Node>)
    requires i <= |c|
    ensures NodesS(InsertAt(c, i, rt)) == NodesS(c) + Nodes(rt)
  {
    hide Nodes, NodesS;
    FocusNodes(c[..i], rt, c[i..]);
    NodesConcat(c[..i], c[i..]);
    assert c == c[..i] + c[i..];
    MultisetSwap(NodesS(c[..i]), Nodes(rt), NodesS(c[i..]));
  }

  lemma {:induction false} MultisetSwap<R>(a: multiset<R>, b: multiset<R>, c: multiset<R>)
    ensures a + b + c == (a + c) + b
  {
  }

  lemma {:induction false} MultisetFour<R>(a: multiset<R>, b: multiset<R>, c: multiset<R>, d: multiset<R>)
    ensures a + (b + (c + d)) == (a + b) + c + d
  {
  }

  lemma {:induction false} PairIds(p: Tree<Node>, q: Tree<Node>, k: nat)
    requires RecutShape(p, q, k)
    ensures p.Inner? && q.Inner? && k + 1 < |p.kids| && k + 1 < |q.kids|
    ensures q.kids[k].id == p.kids[k].id && q.kids[k+1].id == p.kids[k+1].id
    ensures q.kids[k].Leaf? == q.kids[k+1].Leaf? == p.kids[k].Leaf? == p.kids[k+1].Leaf?
  {
  }

  /** RebalanceChild, then the insertion where it says; false if no sibling had room. */
  method RebalanceAndInsert(parent: Node, pos: nat, insertPos: nat, x: Key, right: Node?, ghost c: Ctx<Node>,
                            ghost u: Tree<Node>, ghost rt: Tree<Node>, ghost h: int, ghost target: seq<Key>)
    returns (done: bool, ghost d: Ctx<Node>, ghost v: Tree<Node>)
    requires Overfull(c, u, insertPos, x, rt, h, target) && OverfullMem(c, u, rt)
    requires parent == Top(c).id && pos == |Top(c).left| && (u.Inner? ==> right == rt.id)
    modifies parent, set t | t in Fill(Top(c), u).kids :: t.id
    ensures !done ==> OverfullMem(c, u, rt)
    ensures done ==> Due(d, v, h, 1, target) && PendingMem(d, v) && Records(d) == Records(c)
    ensures done ==> NodesC(d) + Nodes(v) == NodesC(c) + Nodes(u) + RtNodes(u, rt)
  {
    hide *;
    OverfullParts(c, u, insertPos, x, rt, h, target);
    ghost var p := Fill(Top(c), u);
    OverfullRebalance(c, u, insertPos, x, rt, h, target);
    OverfullMemParts(c, u, rt);
    OverfullMemOf(c, u, rt);
    RtNodesOf(u, rt);
    FillKids(Top(c), u);
    FillFields(Top(c), u);
    KidIds(p);
    RebalanceFields(p, pos);
    if pos > 0 { OverfullPair(c, u, insertPos, x, rt, h, target, pos - 1); }
    if pos < |p.keys| { OverfullPair(c, u, insertPos, x, rt, h, target, pos); }
    AllocAll(c, u, rt);
    var node := parent.kidSlots[pos];
    var newNode, newPos, q, k, j := parent.RebalanceChild(pos, insertPos, p);
    if newNode == null {
      return false, c, u;
    }
    SamePlaceFields(p, pos, insertPos, q, k, j, newPos);
    PairIds(p, q, k);
    OverfullSettle(c, u, insertPos, x, rt, h, target, q, k, j, newPos);
    SettleInsert(node, newNode, newPos, x, right, q, k, pos, j, rt);
    SettledPending(c, u, insertPos, x, rt, h, target, q, k, j, newPos);
    ghost var s := Settled(q, pos, j, newPos, x, rt);
    ReframeMem(Up(c), s, pos);
    RecordsTop(c, s, pos);
    return true, Up(c) + [FrameAt(s, pos)], s.kids[pos];
  }

  lemma {:induction false} RecordsTop(c: Ctx<Node>, s: Tree<Node>, pos: nat)
    requires c != [] && s.Inner? && pos < |s.kids| == |s.keys| + 1 && s.id == Top(c).id
    requires pos == |Top(c).left|
    ensures Records(Up(c) + [FrameAt(s, pos)]) == Records(c)
  {
  }

  // ---------- the steps of the split loop ----------

  lemma {:induction false} SplittingMemOf(c: Ctx<Node>, t: Tree<Node>, rt: Tree<Node>)
    requires SplittingMem(c, t, rt)
    ensures RepC(c, t.id) && Rep(t) && Rep(rt) && Distinct(NodesC(c) + Nodes(t) + Nodes(rt))
  {
  }

  lemma {:induction false} SplittingMemMake(c: Ctx<Node>, t: Tree<Node>, rt: Tree<Node>)
    requires RepC(c, t.id) && Rep(t) && Rep(rt) && Distinct(NodesC(c) + Nodes(t) + Nodes(rt))
    ensures SplittingMem(c, t, rt)
  {
  }

  lemma {:induction false} SplittingMake(c: Ctx<Node>, t: Tree<Node>, med: Key, rt: Tree<Node>, h: int,
                                         target: seq<Key>)
    requires OkCtx(c, h, |InOrder(t)| + |InOrder(rt)|) && CtxArity(c)
    requires Ok(t, h) && Ok(rt, h) && Filled(t) && Filled(rt)
    requires LeftOf(c) + (InOrder(t) + [med] + InOrder(rt)) + RightOf(c) == target && |target| < U32_LIMIT
    ensures Splitting(c, t, med, rt, h, target)
  {
  }

  /** The parent of a split child, ready for AddChild or SplitChild. */
  lemma {:induction false} SplittingCanAdd(c: Ctx<Node>, t: Tree<Node>, med: Key, rt: Tree<Node>, h: int,
                                           target: seq<Key>)
    requires Splitting(c, t, med, rt, h, target) && SplittingMem(c, t, rt) && c != []
    ensures var f := Top(c);
      && CanAdd(f, t, rt, h) && RepC(Up(c), f.id) && f.id !in NodesC(Up(c)) && f.id.numItems == |f.keys|
      && f.id in NodesC(c) && |f.left| <= |f.keys| <= MAX_INNER_KEYS
      && OkFrame(f, h, |InOrder(t)| + |InOrder(rt)|)
  {
    hide *;
    SplittingParts(c, t, med, rt, h, target);
    SplittingMemOf(c, t, rt);
    UpParts(c, h, |InOrder(t)| + |InOrder(rt)|);
    var f := Top(c);
    FrameParts(f, h, |InOrder(t)| + |InOrder(rt)|);
    TopOf(c);
    RepCLast(c, t.id);
    RepFrameKeys(f, t.id);
    FillRep(f, t);
    FillFields(f, t);
    FillNodes(f, t);
    MultisetAssoc(NodesC(Up(c)), FrameNodes(f), Nodes(t));
    DistinctPart(NodesC(Up(c)), Nodes(Fill(f, t)), Nodes(rt));
    IdIn(Fill(f, t));
    FrameIn(f);
    CanAddCount(f, t, rt, h);
    CanAddOf(f, t, rt, h);
  }

  lemma {:induction false} FrameIn(f: Frame<Node>)
    ensures f.id in FrameNodes(f)
  {
  }

  lemma {:induction false} RepFrameKeys(f: Frame<Node>, hole: Node)
    requires RepFrame(f, hole)
    ensures f.id.numItems == |f.keys| && !f.id.leaf && HoldsKeys(f.id, f.keys)
  {
  }

  lemma {:induction false} CanAddCount(f: Frame<Node>, t: Tree<Node>, rt: Tree<Node>, h: int)
    requires OkFrame(f, h, |InOrder(t)| + |InOrder(rt)|) && Ok(t, h) && Filled(t)
    ensures f.cnt == Total(f.left + [t] + f.right) + |InOrder(rt)| + |f.keys|
    ensures OkS(f.left + [t] + f.right, h)
  {
    FillInOrder(f, t);
    WeaveSize(f.left + [t] + f.right, f.keys);
    OkConcat(f.left + [t], f.right, h);
    OkConcat(f.left, [t], h);
    assert OkS([t], h);
  }

  lemma {:induction false} CanAddOf(f: Frame<Node>, t: Tree<Node>, rt: Tree<Node>, h: int)
    requires FrameArity(f) && |f.keys| <= MAX_INNER_KEYS && OkS(f.left + [t] + f.right, h) && Ok(rt, h)
    requires Filled(rt)
    requires Rep(Fill(f, t)) && Rep(rt) && Distinct(Nodes(Fill(f, t)) + Nodes(rt))
    requires f.cnt == Total(f.left + [t] + f.right) + |InOrder(rt)| + |f.keys| && f.cnt + 1 < U32_LIMIT
    ensures CanAdd(f, t, rt, h)
  {
  }

  /** The terminal step: the parent has room. */
  method AddStep(node: Node, pos: nat, median: Key, right: Node,
                 ghost c: Ctx<Node>, ghost t: Tree<Node>, ghost rt: Tree<Node>, ghost h: int, ghost target: seq<Key>)
    requires Splitting(c, t, median, rt, h, target) && SplittingMem(c, t, rt) && c != []
    requires node == Top(c).id && pos == |Top(c).left| && right == rt.id && |Top(c).keys| < MAX_INNER_KEYS
    modifies node
    ensures FrameArity(Top(c)) && var q := AddKid(Top(c), t, median, rt);
      && Due(Up(c), q, h + 1, 1, target) && PendingMem(Up(c), q)
      && NodesC(Up(c)) + Nodes(q) == NodesC(c) + Nodes(t) + Nodes(rt)
  {
    hide *;
    SplittingCanAdd(c, t, median, rt, h, target);
    SplittingMemOf(c, t, rt);
    AddPending(c, t, median, rt, h, target);
    AllocAll(c, t, rt);
    node.AddChild(pos, median, right, Top(c), t, rt, h);
    AddKidFields(Top(c), t, median, rt);
    PendingMemOf(Up(c), AddKid(Top(c), t, median, rt));
  }

  /** The propagating step: the full parent is split, too. */
  method SplitStep(node: Node, pos: nat, median: Key, right: Node, nextRight: Node, ghost c: Ctx<Node>,
                   ghost t: Tree<Node>, ghost rt: Tree<Node>, ghost h: int, ghost target: seq<Key>)
    returns (nextMedian: Key, ghost l: Tree<Node>, ghost r: Tree<Node>)
    requires Splitting(c, t, median, rt, h, target) && SplittingMem(c, t, rt) && c != []
    requires node == Top(c).id && pos == |Top(c).left| && right == rt.id && |Top(c).keys| == MAX_INNER_KEYS
    requires nextRight !in NodesC(c) + Nodes(t) + Nodes(rt) && !nextRight.leaf
    requires HoldsKeys(nextRight, []) && |nextRight.kidSlots| == MAX_INNER_KEYS + 1
    modifies node, nextRight
    ensures Splitting(Up(c), l, nextMedian, r, h + 1, target) && SplittingMem(Up(c), l, r)
    ensures r.id == nextRight && l.id == node
    ensures NodesC(Up(c)) + Nodes(l) + Nodes(r) == NodesC(c) + Nodes(t) + Nodes(rt) + multiset{nextRight}
  {
    hide *;
    SplittingCanAdd(c, t, median, rt, h, target);
    SplittingMemOf(c, t, rt);
    SplitPure(c, t, median, rt, h, target, nextRight);
    AllocAll(c, t, rt);
    MaxInner();
    ghost var f := Top(c);
    nextMedian := node.SplitChild(pos, median, right, nextRight, f, t, rt, h);
    l, r := LowHalf(f, t, median, rt, 5), HighHalf(f, t, median, rt, 5, nextRight);
    SplittingMemMake(Up(c), l, r);
  }

  lemma {:induction false} SplitPure(c: Ctx<Node>, t: Tree<Node>, med: Key, rt: Tree<Node>, h: int,
                                     target: seq<Key>, next: Node)
    requires Splitting(c, t, med, rt, h, target) && c != []
    requires OkFrame(Top(c), h, |InOrder(t)| + |InOrder(rt)|)
    requires |Top(c).keys| == MAX_INNER_KEYS && Distinct(NodesC(c) + Nodes(t) + Nodes(rt))
    requires next !in NodesC(c) + Nodes(t) + Nodes(rt)
    ensures var f := Top(c);
      && FrameArity(f) && var l, r := LowHalf(f, t, med, rt, 5), HighHalf(f, t, med, rt, 5, next);
      && l.id == f.id && r.id == next && Splitting(Up(c), l, f.keys[5], r, h + 1, target)
      && NodesC(Up(c)) + Nodes(l) + Nodes(r) == NodesC(c) + Nodes(t) + Nodes(rt) + multiset{next}
      && Distinct(NodesC(Up(c)) + Nodes(l) + Nodes(r)) && next !in Nodes(Fill(f, t)) + Nodes(rt)
      && next !in NodesC(Up(c))
  {
    hide *;
    SplittingParts(c, t, med, rt, h, target);
    UpParts(c, h, |InOrder(t)| + |InOrder(rt)|);
    var f := Top(c);
    FrameParts(f, h, |InOrder(t)| + |InOrder(rt)|);
    MaxInner();
    var full, l, r := AddKid(f, t, med, rt), LowHalf(f, t, med, rt, 5), HighHalf(f, t, med, rt, 5, next);
    InnerHalves(f, t, med, rt, next);
    AddKidInOrder(f, t, med, rt);
    AddKidOk(f, t, med, rt, h);
    AddKidFields(f, t, med, rt);
    HalvesIds(f, t, med, rt, next);
    HalvesOk(full, l, f.keys[5], r, h + 1);
    Assoc5(LeftOf(Up(c)), FrameLeft(f), InOrder(t) + [med] + InOrder(rt), FrameRight(f), RightOf(Up(c)));
    SplittingMake(Up(c), l, f.keys[5], r, h + 1, target);
    FillNodes(f, t);
    SplitNodes(NodesC(Up(c)), FrameNodes(f), Nodes(t), Nodes(rt), Nodes(l), Nodes(r), next);
  }

  lemma {:induction false} HalvesIds(f: Frame<Node>, t: Tree<Node>, med: Key, rt: Tree<Node>, next: Node)
    requires FrameArity(f) && |f.keys| == 10
    ensures LowHalf(f, t, med, rt, 5).id == f.id && HighHalf(f, t, med, rt, 5, next).id == next
  {
  }

  lemma {:induction false} SplitNodes<R>(u: multiset<R>, f: multiset<R>, t: multiset<R>, rt: multiset<R>,
                                         l: multiset<R>, r: multiset<R>, next: R)
    requires l + r == (f + t + rt) + multiset{next} && Distinct(u + f + t + rt) && next !in u + f + t + rt
    ensures u + l + r == u + f + t + rt + multiset{next} && Distinct(u + l + r) && next !in f + t + rt
    ensures next !in u
  {
    var m := u + f + t + rt;
    assert u + l + r == u + (l + r);
    assert u + ((f + t + rt) + multiset{next}) == m + multiset{next};
    assert m[next] == 0;
    forall x | x in m + multiset{next} ensures (m + multiset{next})[x] == 1 {
      if x != next { assert x in m; }
    }
  }

  // ---------- the inner rebalancing step ----------

  lemma {:induction false} SplittingOverfull(c: Ctx<Node>, t: Tree<Node>, med: Key, rt: Tree<Node>, h: int,
                                             target: seq<Key>)
    requires Splitting(c, t, med, rt, h, target) && SplittingMem(c, t, rt) && c != [] && Up(c) != []
    requires |Top(c).keys| == MAX_INNER_KEYS
    ensures var u := Fill(Top(c), t);
      && Overfull(Up(c), u, |Top(c).left|, med, rt, h + 1, target) && OverfullMem(Up(c), u, rt) && u.Inner?
      && NodesC(Up(c)) + Nodes(u) + RtNodes(u, rt) == NodesC(c) + Nodes(t) + Nodes(rt)
  {
    hide *;
    SplittingParts(c, t, med, rt, h, target);
    SplittingMemOf(c, t, rt);
    UpParts(c, h, |InOrder(t)| + |InOrder(rt)|);
    var f := Top(c);
    var u := Fill(f, t);
    FrameParts(f, h, |InOrder(t)| + |InOrder(rt)|);
    TopOf(c);
    RepCLast(c, t.id);
    FillRep(f, t);
    FillFields(f, t);
    FillNodes(f, t);
    RtNodesOf(u, rt);
    WeightOf(u, rt);
    MultisetAssoc(NodesC(Up(c)), FrameNodes(f), Nodes(t));
    AddKidOk(f, t, med, rt, h);
    AddKidInOrder(f, t, med, rt);
    AddKidGrown(f, t, med, rt);
    FillBody(f, t, rt, h);
    Assoc5(LeftOf(Up(c)), FrameLeft(f), InOrder(t) + [med] + InOrder(rt), FrameRight(f), RightOf(Up(c)));
    OverfullMake(Up(c), u, |f.left|, med, rt, h + 1, target);
    OverfullMemMake(Up(c), u, rt);
  }

  lemma {:induction false} AddKidGrown(f: Frame<Node>, t: Tree<Node>, med: Key, rt: Tree<Node>)
    requires FrameArity(f)
    ensures Arity(Fill(f, t)) && Grown(Fill(f, t), |f.left|, med, rt, 1) == AddKid(f, t, med, rt)
  {
    AddKidKids(f, t, rt);
  }

  lemma {:induction false} FillBody(f: Frame<Node>, t: Tree<Node>, rt: Tree<Node>, h: int)
    requires OkFrame(f, h, |InOrder(t)| + |InOrder(rt)|) && Ok(t, h) && Filled(t)
    ensures Body(Fill(f, t), h + 1) && Surplus(Fill(f, t)) == |InOrder(rt)|
    ensures |f.keys| == MAX_INNER_KEYS ==> FreeSlots(Fill(f, t)) == 0
  {
    FillInOrder(f, t);
    CanAddCount(f, t, rt, h);
    hide InOrder, FrameLeft, FrameRight, Ok, OkS, Total;
  }

  lemma {:induction false} OverfullMake(c: Ctx<Node>, u: Tree<Node>, ip: nat, x: Key, rt: Tree<Node>, h: int,
                                        target: seq<Key>)
    requires c != [] && Body(u, h) && Arity(u) && FreeSlots(u) == 0 && ip <= |u.keys|
    requires Surplus(u) == Weight(u, rt)
    requires u.Inner? ==> Ok(rt, h - 1) && Filled(rt)
    requires OkCtx(c, h, |InOrder(Grown(u, ip, x, rt, 1))| - 1) && CtxArity(c)
    requires LeftOf(c) + InOrder(Grown(u, ip, x, rt, 1)) + RightOf(c) == target && |target| < U32_LIMIT
    ensures Overfull(c, u, ip, x, rt, h, target)
  {
  }

  lemma {:induction false} OverfullMemMake(c: Ctx<Node>, u: Tree<Node>, rt: Tree<Node>)
    requires RepC(c, u.id) && Rep(u) && (u.Inner? ==> Rep(rt))
    requires Distinct(NodesC(c) + Nodes(u) + RtNodes(u, rt))
    ensures OverfullMem(c, u, rt)
  {
  }

  method RebalanceStep(parent: Node, parentPos: nat, pos: nat, median: Key, right: Node, ghost c: Ctx<Node>,
                       ghost t: Tree<Node>, ghost rt: Tree<Node>, ghost h: int, ghost target: seq<Key>)
    returns (done: bool, ghost d: Ctx<Node>, ghost v: Tree<Node>)
    requires Splitting(c, t, median, rt, h, target) && SplittingMem(c, t, rt) && c != [] && Up(c) != []
    requires |Top(c).keys| == MAX_INNER_KEYS && right == rt.id && pos == |Top(c).left|
    requires parent == Top(Up(c)).id && parentPos == |Top(Up(c)).left|
    modifies set r | r in NodesC(c)
    ensures !done ==> SplittingMem(c, t, rt)
    ensures done ==> Due(d, v, h + 1, 1, target) && PendingMem(d, v) && Records(d) == Records(Up(c))
    ensures done ==> NodesC(d) + Nodes(v) == NodesC(c) + Nodes(t) + Nodes(rt)
  {
    hide *;
    SplittingOverfull(c, t, median, rt, h, target);
    SplittingMemOf(c, t, rt);
    ghost var u := Fill(Top(c), t);
    TopOf(c);
    GrandKids(c, u);
    AllocAll(c, t, rt);
    done, d, v := RebalanceAndInsert(parent, parentPos, pos, median, right, Up(c), u, rt, h + 1, target);
    if !done {
      OverfullMemOf(Up(c), u, rt);
      RepCLast(c, t.id);
      FillRep(Top(c), t);
      SplittingMemMake(c, t, rt);
    }
  }

  /** The children of the grandparent's node: all of them nodes of the context. */
  lemma {:induction false} GrandKids(c: Ctx<Node>, u: Tree<Node>)
    requires c != [] && Up(c) != [] && u.id == Top(c).id
    ensures Top(Up(c)).id in NodesC(c)
    ensures forall t :: t in Fill(Top(Up(c)), u).kids ==> t.id in NodesC(c)
  {
    hide *;
    TopOf(c);
    TopOf(Up(c));
    var g, f := Top(Up(c)), Top(c);
    FrameNodesIn(c, |c| - 1);
    FrameNodesIn(c, |c| - 2);
    FrameIn(g);
    FrameIn(f);
    KidIdsIn(g.left);
    KidIdsIn(g.right);
    SubFrame(g);
    FillMembers(g, u);
  }

  lemma {:induction false} TopKids(c: Ctx<Node>, u: Tree<Node>)
    requires c != []
    ensures Top(c).id in NodesC(c) && u.id in Nodes(u)
    ensures forall t :: t in Fill(Top(c), u).kids ==> t.id in NodesC(c) || t.id == u.id
  {
    hide *;
    TopOf(c);
    FrameNodesIn(c, |c| - 1);
    var f := Top(c);
    FrameIn(f);
    IdIn(u);
    KidIdsIn(f.left);
    KidIdsIn(f.right);
    SubFrame(f);
    FillMembers(f, u);
  }

  lemma {:induction false} SameRoot(d: Ctx<Node>, v: Tree<Node>, c: Ctx<Node>, t: Tree<Node>)
    requires Records(d) == Records(c) && c != []
    ensures d != [] && |d| == |c| && RootId(d, v.id) == RootId(c, t.id)
  {
    assert Records(d)[0] == Records(c)[0];
  }

  lemma {:induction false} OverfullLeafMem(c: Ctx<Node>, t: Tree<Node>)
    requires OverfullMem(c, t, t) && t.Leaf?
    ensures PendingMem(c, t)
  {
    assert NodesC(c) + Nodes(t) + RtNodes(t, t) == NodesC(c) + Nodes(t);
  }

  lemma {:induction false} FillMembers(g: Frame<Node>, u: Tree<Node>)
    ensures forall t :: t in Fill(g, u).kids ==> t == u || t in g.left || t in g.right
  {
  }

  lemma {:induction false} SubFrame(g: Frame<Node>)
    ensures NodesS(g.left) <= FrameNodes(g) && NodesS(g.right) <= FrameNodes(g)
  {
  }

  lemma {:induction false} KidIdsIn(kids: seq<Tree<Node>>)
    ensures forall t :: t in kids ==> t.id in NodesS(kids)
  {
    forall t | t in kids ensures t.id in NodesS(kids) {
      var i :| 0 <= i < |kids| && kids[i] == t;
      NodesIn(kids, i);
      assert t.id in Nodes(t);
    }
  }

  // ---------- leaves ----------

  ghost function Leafed(t: Tree<Node>, ip: nat, x: Key): Tree<Node>
    requires t.Leaf? && ip <= |t.keys|
  {
    Leaf(t.id, InsertAt(t.keys, ip, x))
  }

  /** The slot found for x in leaf t, and the keys the tree is to hold. */
  ghost predicate AtLeaf(c: Ctx<Node>, t: Tree<Node>, ip: nat, x: Key, target: seq<Key>) {
    && t.Leaf? && ip <= |t.keys| && Ok(t, 1) && (c != [] ==> Filled(t)) && OkCtx(c, 1, |t.keys|)
    && CtxArity(c)
    && LeftOf(c) + InsertAt(t.keys, ip, x) + RightOf(c) == target && |target| < U32_LIMIT
  }

  lemma {:induction false} LeafPending(c: Ctx<Node>, t: Tree<Node>, ip: nat, x: Key, target: seq<Key>)
    requires AtLeaf(c, t, ip, x, target) && |t.keys| < MAX_LEAF_KEYS
    ensures Due(c, Leafed(t, ip, x), 1, 1, target) && Nodes(Leafed(t, ip, x)) == Nodes(t)
  {
    LeafedOk(t, ip, x);
    hide OkCtx, CtxArity, LeftOf, RightOf, Ok, Filled, InOrder, Nodes, InsertAt, Leafed;
  }

  lemma {:induction false} LeafedOk(t: Tree<Node>, ip: nat, x: Key)
    requires t.Leaf? && ip <= |t.keys| < MAX_LEAF_KEYS && Ok(t, 1)
    ensures var q := Leafed(t, ip, x);
      && Ok(q, 1) && (Filled(t) ==> Filled(q)) && q.Leaf? && |q.keys| == |t.keys| + 1
      && InOrder(q) == InsertAt(t.keys, ip, x) && Nodes(q) == Nodes(t)
  {
  }

  method LeafStep(leaf: Node, pos: nat, item: Key, ghost c: Ctx<Node>, ghost t: Tree<Node>, ghost target: seq<Key>)
    requires AtLeaf(c, t, pos, item, target) && PendingMem(c, t) && leaf == t.id && |t.keys| < MAX_LEAF_KEYS
    modifies leaf
    ensures Due(c, Leafed(t, pos, item), 1, 1, target) && PendingMem(c, Leafed(t, pos, item))
  {
    hide RepC, Nodes, NodesC, Distinct, Due, AtLeaf;
    LeafPending(c, t, pos, item, target);
    LeafFields(c, t, pos, item, target);
    AllocAll(c, t, t);
    leaf.LeafInsert(pos, item, t.keys);
  }

  lemma {:induction false} LeafFields(c: Ctx<Node>, t: Tree<Node>, pos: nat, item: Key, target: seq<Key>)
    requires AtLeaf(c, t, pos, item, target) && PendingMem(c, t)
    ensures t.Leaf? && pos <= |t.keys| <= MAX_LEAF_KEYS && t.id.leaf && HoldsKeys(t.id, t.keys)
    ensures t.id !in NodesC(c)
  {
    hide NodesC, RepC, OkCtx, CtxArity, LeftOf, RightOf;
    assert t.id in Nodes(t);
    OneOf(Nodes(t), NodesC(c), NodesC(c) + Nodes(t), t.id);
  }

  lemma {:induction false} LeafOverfull(c: Ctx<Node>, t: Tree<Node>, ip: nat, x: Key, target: seq<Key>)
    requires AtLeaf(c, t, ip, x, target) && PendingMem(c, t) && |t.keys| == MAX_LEAF_KEYS && c != []
    ensures Overfull(c, t, ip, x, t, 1, target) && OverfullMem(c, t, t)
    ensures NodesC(c) + Nodes(t) + RtNodes(t, t) == NodesC(c) + Nodes(t)
  {
    assert NodesC(c) + Nodes(t) + RtNodes(t, t) == NodesC(c) + Nodes(t);
  }

  /** A full leaf is split and x goes to one of the halves (bplustree.hpp:295-307). */
  method SplitLeafStep(node: Node, right: Node, insertPos: nat, item: Key, ghost c: Ctx<Node>,
                       ghost t: Tree<Node>, ghost target: seq<Key>)
    returns (median: Key, ghost l: Tree<Node>, ghost r: Tree<Node>)
    requires AtLeaf(c, t, insertPos, item, target) && PendingMem(c, t) && |t.keys| == MAX_LEAF_KEYS
    requires node == t.id
    requires right !in NodesC(c) + Nodes(t) && right.leaf && HoldsKeys(right, [])
    modifies node, right
    ensures Splitting(c, l, median, r, 1, target) && SplittingMem(c, l, r) && r.id == right && l.id == node
    ensures NodesC(c) + Nodes(l) + Nodes(r) == NodesC(c) + Nodes(t) + multiset{right}
  {
    hide Rep, RepC, Nodes, NodesC, Distinct, PendingMem, AtLeaf, Splitting, SplittingMem, LowLeaf, HighLeaf;
    LeafFields(c, t, insertPos, item, target);
    LeafHalves(c, t, insertPos, item, target, right);
    AllocAll(c, t, t);
    PendingMemParts(c, t);
    LeafMax();
    ghost var K := t.keys;
    median := node.Split(right, K, []);
    if insertPos <= node.numItems {
      node.LeafInsert(insertPos, item, K[..7]);
    } else {
      right.LeafInsert(insertPos - node.numItems - 1, item, K[8..]);
    }
    l, r := LowLeaf(t, insertPos, item), HighLeaf(t, insertPos, item, right);
    LeafHalvesRep(t, insertPos, item, right);
    SplittingMemMake(c, l, r);
  }

  lemma {:induction false} LeafMax()
    ensures MAX_LEAF_KEYS == 15
  {
  }

  ghost function LowLeaf(t: Tree<Node>, ip: nat, x: Key): Tree<Node>
    requires t.Leaf? && ip <= |t.keys| == 15
  {
    Leaf(t.id, if ip <= 7 then InsertAt(t.keys[..7], ip, x) else t.keys[..7])
  }

  ghost function HighLeaf(t: Tree<Node>, ip: nat, x: Key, id: Node): Tree<Node>
    requires t.Leaf? && ip <= |t.keys| == 15
  {
    Leaf(id, if ip <= 7 then t.keys[8..] else InsertAt(t.keys[8..], ip - 8, x))
  }

  lemma {:induction false} LeafHalvesRep(t: Tree<Node>, ip: nat, x: Key, right: Node)
    requires t.Leaf? && ip <= |t.keys| == 15 && t.id.leaf && right.leaf
    requires HoldsKeys(t.id, if ip <= 7 then t.keys[..7][..ip] + [x] + t.keys[..7][ip..] else t.keys[..7])
    requires HoldsKeys(right, if ip <= 7 then t.keys[8..] else t.keys[8..][..ip-8] + [x] + t.keys[8..][ip-8..])
    ensures Rep(LowLeaf(t, ip, x)) && Rep(HighLeaf(t, ip, x, right))
  {
  }

  lemma {:induction false} LeafHalves(c: Ctx<Node>, t: Tree<Node>, ip: nat, x: Key, target: seq<Key>, right: Node)
    requires AtLeaf(c, t, ip, x, target) && |t.keys| == MAX_LEAF_KEYS && PendingMem(c, t)
    requires right !in NodesC(c) + Nodes(t)
    ensures MAX_LEAF_KEYS == 15 && t.Leaf? && ip <= |t.keys|
    ensures var l, r := LowLeaf(t, ip, x), HighLeaf(t, ip, x, right);
      && l.id == t.id && r.id == right && Splitting(c, l, t.keys[7], r, 1, target)
      && NodesC(c) + Nodes(l) + Nodes(r) == NodesC(c) + Nodes(t) + multiset{right}
      && Distinct(NodesC(c) + Nodes(l) + Nodes(r)) && right != t.id && right !in NodesC(c)
      && right !in Nodes(t)
  {
    var l, r := LowLeaf(t, ip, x), HighLeaf(t, ip, x, right);
    LeafHalvesShape(t, ip, x, right);
    assert t.id in Nodes(t) && Nodes(t) == multiset{t.id} && Nodes(l) == multiset{t.id} && Nodes(r) == multiset{right};
    hide Nodes, NodesC, OkCtx, CtxArity, LeftOf, RightOf, LowLeaf, HighLeaf, RepC, Rep;
    NewNode(NodesC(c), Nodes(t), right);
    SplittingMake(c, l, t.keys[7], r, 1, target);
  }

  lemma {:induction false} LeafHalvesShape(t: Tree<Node>, ip: nat, x: Key, right: Node)
    requires t.Leaf? && ip <= |t.keys| == 15
    ensures var l, r := LowLeaf(t, ip, x), HighLeaf(t, ip, x, right);
      && Ok(l, 1) && Ok(r, 1) && Filled(l) && Filled(r)
      && InOrder(l) + [t.keys[7]] + InOrder(r) == InsertAt(t.keys, ip, x)
      && |InOrder(l)| + |InOrder(r)| == 15
  {
    if ip <= 7 {
      InsertLow(t.keys, 7, ip, x);
    } else {
      InsertHigh(t.keys, 7, ip, x);
    }
    assert |t.keys[..7]| == 7 && |t.keys[8..]| == 7;
  }

  lemma {:induction false} NewNode<R>(c: multiset<R>, t: multiset<R>, n: R)
    requires Distinct(c + t) && n !in c + t
    ensures c + t + multiset{n} == c + (t + multiset{n}) && Distinct(c + t + multiset{n})
  {
    forall x | x in c + t + multiset{n} ensures (c + t + multiset{n})[x] == 1 {
      if x != n { assert x in c + t; }
    }
  }

  // ---------- a new root ----------

  ghost function NewRoot(id: Node, t: Tree<Node>, med: Key, rt: Tree<Node>): Tree<Node> {
    Inner(id, [med], [t, rt], |InOrder(t)| + |InOrder(rt)| + 1)
  }

  lemma {:induction false} NewRootShape(id: Node, t: Tree<Node>, med: Key, rt: Tree<Node>, h: int)
    requires Ok(t, h) && Ok(rt, h) && Filled(t) && Filled(rt)
    ensures var s := NewRoot(id, t, med, rt);
      && s.id == id && |s.keys| >= 1 && Ok(s, h + 1) && InOrder(s) == InOrder(t) + [med] + InOrder(rt)
      && Nodes(s) == multiset{id} + Nodes(t) + Nodes(rt)
  {
    hide *;
    var s, f := NewRoot(id, t, med, rt), RootFrame(id, t, rt);
    RootFrameOf(id, t, med, rt);
    AddKidInOrder(f, t, med, rt);
    OkTwo(t, rt, h);
    OkFields(t, h);
    OkInner(s, h + 1);
  }

  /** The new root before it has children. */
  ghost function RootFrame(id: Node, t: Tree<Node>, rt: Tree<Node>): Frame<Node> {
    Frame(id, [], [], [], |InOrder(t)| + |InOrder(rt)|)
  }

  lemma {:induction false} RootFrameOf(id: Node, t: Tree<Node>, med: Key, rt: Tree<Node>)
    ensures var f, s := RootFrame(id, t, rt), NewRoot(id, t, med, rt);
      && FrameArity(f) && AddKid(f, t, med, rt) == s && s.Inner? && s.id == id && s.kids == [t, rt]
      && |s.keys| == 1
      && s.cnt == |InOrder(t)| + |InOrder(rt)| + 1 && FrameLeft(f) == [] && FrameRight(f) == []
      && FrameNodes(f) == multiset{id}
      && MAX_INNER_KEYS == 10
  {
  }

  /** The root was split: a node over the two halves becomes the root (bplustree.hpp:382-390). */
  method RootStep(newRoot: Node, median: Key, left: Node, right: Node,
                  ghost t: Tree<Node>, ghost rt: Tree<Node>, ghost h: int, ghost target: seq<Key>)
    requires Splitting([], t, median, rt, h, target) && SplittingMem([], t, rt) && left == t.id
    requires right == rt.id
    requires newRoot !in Nodes(t) + Nodes(rt) && !newRoot.leaf && HoldsKeys(newRoot, [])
    requires |newRoot.kidSlots| == MAX_INNER_KEYS + 1
    modifies newRoot
    ensures Whole(NewRoot(newRoot, t, median, rt), h + 1, target)
    ensures Nodes(NewRoot(newRoot, t, median, rt)) == Nodes(t) + Nodes(rt) + multiset{newRoot}
  {
    hide Rep, Nodes, Splitting, SplittingMem, Distinct, Whole, Ok, Filled, InOrder, OkCtx, CtxArity;
    SplittingParts([], t, median, rt, h, target);
    SplittingMemOf([], t, rt);
    AllocAll([], t, rt);
    RepCount(t, h);
    RepCount(rt, h);
    NewRootShape(newRoot, t, median, rt, h);
    EmptyCtx(t.id);
    assert [] + (InOrder(t) + [median] + InOrder(rt)) + [] == InOrder(t) + [median] + InOrder(rt);
    RootNodes(newRoot, Nodes(t), Nodes(rt));
    newRoot.InitSingle(median);
    newRoot.kidSlots := newRoot.kidSlots[0 := left];
    newRoot.kidSlots := newRoot.kidSlots[1 := right];
    newRoot.treeCount := left.TreeCount() + right.TreeCount() + 1;
    RootRep(newRoot, t, median, rt);
    WholeOf(NewRoot(newRoot, t, median, rt), h + 1, target);
  }

  lemma {:induction false} RootNodes<R>(n: R, a: multiset<R>, b: multiset<R>)
    requires Distinct(NodesC<R>([]) + a + b) && n !in a + b
    ensures Distinct(multiset{n} + a + b) && multiset{n} + a + b == a + b + multiset{n}
  {
    assert NodesC<R>([]) + a + b == a + b;
    forall x | x in multiset{n} + a + b ensures (multiset{n} + a + b)[x] == 1 {
      if x != n { assert x in a + b; }
    }
  }

  lemma {:induction false} RootRep(n: Node, t: Tree<Node>, med: Key, rt: Tree<Node>)
    requires !n.leaf && Rep(t) && Rep(rt) && HoldsKeys(n, [med]) && |n.kidSlots| == MAX_INNER_KEYS + 1
    requires n.kidSlots[0] == t.id && n.kidSlots[1] == rt.id
    requires n.treeCount == |InOrder(t)| + |InOrder(rt)| + 1
    ensures Rep(NewRoot(n, t, med, rt))
  {
    assert [t, rt][1..] == [rt] && [rt][1..] == [];
    assert RepS([rt]);
    assert RepS([t, rt]);
  }
}
