/**
 A context is the tree around one node, as a stack of frames, root first; a BPTreePath
 records it.  The second half is about a child that was split and its parent.
 */
module Contexts {
  import opened Keys
  import opened Sequences
  import opened Shape

  /** One path record: node id, whose child number |left| is the hole. */
  datatype Frame<R> = Frame(id: R, keys: seq<Key>, left: seq<Tree<R>>, right: seq<Tree<R>>, cnt: int)

  type Ctx<R> = seq<Frame<R>>

  ghost predicate FrameArity<R>(f: Frame<R>) {
    |f.keys| == |f.left| + |f.right|
  }

  ghost predicate CtxArity<R>(c: Ctx<R>) {
    forall i :: 0 <= i < |c| ==> FrameArity(c[i])
  }

  ghost function Fill<R>(f: Frame<R>, t: Tree<R>): Tree<R> {
    Inner(f.id, f.keys, f.left + [t] + f.right, f.cnt)
  }

  /** The frame of t's child number i. */
  ghost function FrameAt<R>(t: Tree<R>, i: nat): Frame<R>
    requires t.Inner? && i < |t.kids|
  {
    Frame(t.id, t.keys, t.kids[..i], t.kids[i+1..], t.cnt)
  }

  ghost function Plug<R>(c: Ctx<R>, t: Tree<R>): Tree<R>
    decreases |c|
  {
    if c == [] then t else Plug(c[..|c|-1], Fill(c[|c|-1], t))
  }

  ghost function FrameLeft<R>(f: Frame<R>): seq<Key>
    requires FrameArity(f)
  {
    Lead(f.left, f.keys[..|f.left|])
  }

  ghost function FrameRight<R>(f: Frame<R>): seq<Key>
    requires FrameArity(f)
  {
    Tail(f.keys[|f.left|..], f.right)
  }

  /** The keys before, and after, the hole. */
  ghost function LeftOf<R>(c: Ctx<R>): seq<Key>
    requires CtxArity(c)
    decreases |c|
  {
    if c == [] then [] else LeftOf(c[..|c|-1]) + FrameLeft(c[|c|-1])
  }

  ghost function RightOf<R>(c: Ctx<R>): seq<Key>
    requires CtxArity(c)
    decreases |c|
  {
    if c == [] then [] else FrameRight(c[|c|-1]) + RightOf(c[..|c|-1])
  }

  lemma {:induction false} FillInOrder<R>(f: Frame<R>, t: Tree<R>)
    requires FrameArity(f)
    ensures InOrder(Fill(f, t)) == FrameLeft(f) + InOrder(t) + FrameRight(f)
  {
    var p := |f.left|;
    assert f.keys == f.keys[..p] + f.keys[p..];
    WeaveFocus(f.left, f.keys[..p], t, f.keys[p..], f.right);
  }

  lemma {:induction false} PlugInOrder<R>(c: Ctx<R>, t: Tree<R>)
    requires CtxArity(c)
    ensures InOrder(Plug(c, t)) == LeftOf(c) + InOrder(t) + RightOf(c)
    decreases |c|
  {
    if c != [] {
      var c', f := c[..|c|-1], c[|c|-1];
      PlugInOrder(c', Fill(f, t));
      FillInOrder(f, t);
      Assoc5(LeftOf(c'), FrameLeft(f), InOrder(t), FrameRight(f), RightOf(c'));
    }
  }

  ghost function FrameNodes<R>(f: Frame<R>): multiset<R> {
    multiset{f.id} + NodesS(f.left) + NodesS(f.right)
  }

  ghost function NodesC<R>(c: Ctx<R>): multiset<R>
    decreases |c|
  {
    if c == [] then multiset{} else FrameNodes(c[0]) + NodesC(c[1..])
  }

  lemma {:induction false} FrameNodesIn<R>(c: Ctx<R>, i: nat)
    requires i < |c|
    ensures FrameNodes(c[i]) <= NodesC(c)
    decreases |c|
  {
    hide FrameNodes;
    if i > 0 {
      FrameNodesIn(c[1..], i - 1);
    }
  }

  lemma {:induction false} NodesCLast<R>(c: Ctx<R>, f: Frame<R>)
    ensures NodesC(c + [f]) == NodesC(c) + FrameNodes(f)
    decreases |c|
  {
    hide FrameNodes;
    if c != [] {
      assert (c + [f])[1..] == c[1..] + [f];
      NodesCLast(c[1..], f);
    }
  }

  lemma {:induction false} FillNodes<R>(f: Frame<R>, t: Tree<R>)
    ensures Nodes(Fill(f, t)) == FrameNodes(f) + Nodes(t)
  {
    NodesConcat(f.left + [t], f.right);
    NodesConcat(f.left, [t]);
    assert [t][1..] == [];
  }

  lemma {:induction false} PlugNodes<R>(c: Ctx<R>, t: Tree<R>)
    ensures Nodes(Plug(c, t)) == NodesC(c) + Nodes(t)
    decreases |c|
  {
    if c != [] {
      var c', f := c[..|c|-1], c[|c|-1];
      assert c == c' + [f];
      calc {
        Nodes(Plug(c, t));
        { PlugNodes(c', Fill(f, t)); }
        NodesC(c') + Nodes(Fill(f, t));
        { FillNodes(f, t); }
        NodesC(c') + (FrameNodes(f) + Nodes(t));
        { MultisetAssoc(NodesC(c'), FrameNodes(f), Nodes(t)); }
        NodesC(c') + FrameNodes(f) + Nodes(t);
        { NodesCLast(c', f); }
        NodesC(c) + Nodes(t);
      }
    }
  }

  /**
   Well-formed surroundings of a hole of height h.  The stored counts are exact for a hole
   that holds sz keys, whatever the hole holds now.
   */
  ghost predicate OkCtx<R>(c: Ctx<R>, h: int, sz: int)
    decreases |c|
  {
    c == [] ||
    var f := c[|c|-1];
    && OkFrame(f, h, sz)
    && (|c| > 1 ==> |f.keys| >= MIN_INNER_KEYS - 1)
    && OkCtx(c[..|c|-1], h + 1, f.cnt)
  }

  ghost predicate OkFrame<R>(f: Frame<R>, h: int, sz: int) {
    && FrameArity(f) && 1 <= |f.keys| <= MAX_INNER_KEYS && h >= 1
    && OkS(f.left, h) && OkS(f.right, h)
    && f.cnt == |FrameLeft(f)| + sz + |FrameRight(f)|
  }

  lemma {:induction false} OkCtxArity<R>(c: Ctx<R>, h: int, sz: int)
    requires OkCtx(c, h, sz)
    ensures CtxArity(c)
    decreases |c|
  {
    if c != [] {
      OkCtxArity(c[..|c|-1], h + 1, c[|c|-1].cnt);
      assert forall i :: 0 <= i < |c| - 1 ==> c[i] == c[..|c|-1][i];
    }
  }

  lemma {:induction false} FillOk<R>(f: Frame<R>, t: Tree<R>, h: int)
    requires OkFrame(f, h, |InOrder(t)|) && Ok(t, h) && Filled(t)
    ensures Ok(Fill(f, t), h + 1)
  {
    FillInOrder(f, t);
    var k := f.left + [t] + f.right;
    assert OkS(k, h) by {
      forall i | 0 <= i < |k| ensures Ok(k[i], h) && Filled(k[i]) {
        if i < |f.left| { assert k[i] == f.left[i]; }
        else if i > |f.left| { assert k[i] == f.right[i - |f.left| - 1]; }
      }
    }
  }

  lemma {:induction false} PlugOk<R>(c: Ctx<R>, t: Tree<R>, h: int)
    requires OkCtx(c, h, |InOrder(t)|) && Ok(t, h) && (c != [] ==> Filled(t))
    ensures Ok(Plug(c, t), h + |c|)
    ensures c != [] ==> |Plug(c, t).keys| >= 1
    ensures c == [] ==> Plug(c, t) == t
    decreases |c|
  {
    if c != [] {
      var f := c[|c|-1];
      FillOk(f, t, h);
      FillInOrder(f, t);
      PlugOk(c[..|c|-1], Fill(f, t), h + 1);
    }
  }

  /** Stepping down from t into its child number i. */
  lemma {:induction false} PlugStep<R>(c: Ctx<R>, t: Tree<R>, i: nat)
    requires t.Inner? && i < |t.kids|
    ensures Plug(c + [FrameAt(t, i)], t.kids[i]) == Plug(c, t)
    ensures Fill(FrameAt(t, i), t.kids[i]) == t
  {
    assert t.kids[..i] + [t.kids[i]] + t.kids[i+1..] == t.kids;
    assert (c + [FrameAt(t, i)])[..|c|] == c;
  }

  lemma {:induction false} OkCtxStep<R>(c: Ctx<R>, t: Tree<R>, h: int, i: nat)
    requires OkCtx(c, h, |InOrder(t)|) && Ok(t, h) && t.Inner? && i < |t.kids|
    requires |t.keys| >= 1 && (c != [] ==> Filled(t))
    ensures OkCtx(c + [FrameAt(t, i)], h - 1, |InOrder(t.kids[i])|)
    ensures Ok(t.kids[i], h - 1) && Filled(t.kids[i])
  {
    var f := FrameAt(t, i);
    assert Body(t, h) && OkS(t.kids, h - 1);
    PlugStep(c, t, i);
    FillInOrder(f, t.kids[i]);
    assert (c + [f])[..|c|] == c;
  }

  /** Every stored count of the context changed by d. */
  ghost function Bump<R>(c: Ctx<R>, d: int): Ctx<R> {
    BumpFrom(c, 0, d)
  }

  ghost function BumpFrom<R>(c: Ctx<R>, i: int, d: int): (r: Ctx<R>)
    ensures |r| == |c|
    ensures forall j :: 0 <= j < |c| ==> r[j] == if j < i then c[j] else c[j].(cnt := c[j].cnt + d)
  {
    seq(|c|, j requires 0 <= j < |c| => if j < i then c[j] else c[j].(cnt := c[j].cnt + d))
  }

  lemma {:induction false} BumpFrame<R>(f: Frame<R>, d: int)
    requires FrameArity(f)
    ensures FrameLeft(f.(cnt := f.cnt + d)) == FrameLeft(f)
    ensures FrameRight(f.(cnt := f.cnt + d)) == FrameRight(f)
  {
  }

  /** Bumping the counts adapts the context to a hole whose size changed by d. */
  lemma {:induction false} BumpOk<R>(c: Ctx<R>, h: int, sz: int, d: int)
    requires OkCtx(c, h, sz)
    ensures OkCtx(Bump(c, d), h, sz + d)
    ensures CtxArity(c) && CtxArity(Bump(c, d))
    ensures LeftOf(Bump(c, d)) == LeftOf(c) && RightOf(Bump(c, d)) == RightOf(c)
    decreases |c|
  {
    hide BumpFrom, FrameLeft, FrameRight, OkS;
    OkCtxArity(c, h, sz);
    if c != [] {
      var c', f := c[..|c|-1], c[|c|-1];
      BumpOk(c', h + 1, f.cnt, d);
      assert Bump(c, d)[..|c|-1] == Bump(c', d);
      BumpFrame(f, d);
    }
  }

  lemma {:induction false} SameNodesC<R>(b: Ctx<R>, c: Ctx<R>)
    requires |b| == |c| && forall j :: 0 <= j < |c| ==> FrameNodes(b[j]) == FrameNodes(c[j])
    ensures NodesC(b) == NodesC(c)
    decreases |c|
  {
    hide FrameNodes;
    if c != [] {
      SameNodesC(b[1..], c[1..]);
    }
  }

  lemma {:induction false} BumpNodes<R>(c: Ctx<R>, i: int, d: int)
    ensures NodesC(BumpFrom(c, i, d)) == NodesC(c)
  {
    var b := BumpFrom(c, i, d);
    forall j | 0 <= j < |c| ensures FrameNodes(b[j]) == FrameNodes(c[j]) { }
    hide FrameNodes;
    SameNodesC(b, c);
  }

  /** The frame's node with child t in the hole, then the separator med and the new child rt. */
  ghost function AddKid<R>(f: Frame<R>, t: Tree<R>, med: Key, rt: Tree<R>): Tree<R>
    requires FrameArity(f)
  {
    Inner(f.id, InsertAt(f.keys, |f.left|, med), f.left + [t, rt] + f.right, f.cnt + 1)
  }

  lemma {:induction false} AddKidInOrder<R>(f: Frame<R>, t: Tree<R>, med: Key, rt: Tree<R>)
    requires FrameArity(f)
    ensures InOrder(AddKid(f, t, med, rt)) == FrameLeft(f) + (InOrder(t) + [med] + InOrder(rt)) + FrameRight(f)
    ensures Nodes(AddKid(f, t, med, rt)) == FrameNodes(f) + Nodes(t) + Nodes(rt)
  {
    var p := |f.left|;
    WeavePair(f.left, f.keys[..p], t, med, rt, f.keys[p..], f.right);
    PairNodes(f.left, t, rt, f.right);
    AddNodes(f.id, NodesS(f.left), Nodes(t), Nodes(rt), NodesS(f.right));
  }

  /** l, m, r are the two halves of the overfull node and their separator. */
  ghost predicate Halves<R>(full: Tree<R>, l: Tree<R>, m: Key, r: Tree<R>) {
    && l.id == full.id && l.Leaf? == r.Leaf? == full.Leaf? && Arity(l) && Arity(r)
    && full.keys == l.keys + [m] + r.keys && Kids(full) == Kids(l) + Kids(r)
    && Filled(l) && Filled(r) && FreeSlots(l) >= 0 && FreeSlots(r) >= 0
    && (l.Inner? ==> l.cnt == |InOrder(l)| && r.cnt == |InOrder(r)|)
  }

  lemma {:induction false} HalvesOk<R>(full: Tree<R>, l: Tree<R>, m: Key, r: Tree<R>, h: int)
    requires Halves(full, l, m, r) && (full.Leaf? ==> h == 1)
    requires full.Inner? ==> h > 1 && OkS(full.kids, h - 1)
    ensures Ok(l, h) && Ok(r, h) && Filled(l) && Filled(r)
    ensures InOrder(full) == InOrder(l) + [m] + InOrder(r)
    ensures Nodes(l) + Nodes(r) == Nodes(full) + multiset{r.id}
  {
    MergeInOrder(l, m, r, full);
    HalvesNodes(full, l, r);
    OkConcat(Kids(l), Kids(r), h - 1);
    hide InOrder, Nodes, OkS;
    assert Body(l, h) && Body(r, h);
  }

  lemma {:induction false} HalvesNodes<R>(full: Tree<R>, l: Tree<R>, r: Tree<R>)
    requires l.id == full.id && Kids(full) == Kids(l) + Kids(r)
    ensures Nodes(l) + Nodes(r) == Nodes(full) + multiset{r.id}
  {
    NodesUnfold(l, r);
    assert Nodes(full) == multiset{full.id} + NodesS(Kids(full));
  }

  /** The halves of an inner node that was split at mid, with (med, rt) then added to one of them. */
  ghost function LowHalf<R>(f: Frame<R>, t: Tree<R>, med: Key, rt: Tree<R>, mid: nat): Tree<R>
    requires FrameArity(f) && mid < |f.keys|
  {
    var p, c := |f.left|, f.left + [t] + f.right;
    var keys := if p <= mid then InsertAt(f.keys[..mid], p, med) else f.keys[..mid];
    var kids := if p <= mid then InsertAt(c[..mid+1], p + 1, rt) else c[..mid+1];
    Inner(f.id, keys, kids, Total(kids) + |keys|)
  }

  ghost function HighHalf<R>(f: Frame<R>, t: Tree<R>, med: Key, rt: Tree<R>, mid: nat, id: R): Tree<R>
    requires FrameArity(f) && mid < |f.keys|
  {
    var p, c := |f.left|, f.left + [t] + f.right;
    var keys := if p <= mid then f.keys[mid+1..] else InsertAt(f.keys[mid+1..], p - mid - 1, med);
    var kids := if p <= mid then c[mid+1..] else InsertAt(c[mid+1..], p - mid, rt);
    Inner(id, keys, kids, Total(kids) + |keys|)
  }

  /** The right half is one key below the minimum iff the new child does not fall into it. */
  lemma {:induction false} InnerHalves<R>(f: Frame<R>, t: Tree<R>, med: Key, rt: Tree<R>, id: R)
    requires FrameArity(f) && |f.keys| == MAX_INNER_KEYS
    ensures Halves(AddKid(f, t, med, rt), LowHalf(f, t, med, rt, 5), f.keys[5], HighHalf(f, t, med, rt, 5, id))
    ensures |HighHalf(f, t, med, rt, 5, id).keys| == MIN_INNER_KEYS - 1 <==> |f.left| <= 5
    ensures |LowHalf(f, t, med, rt, 5).keys| >= MIN_INNER_KEYS
  {
    var l, r := LowHalf(f, t, med, rt, 5), HighHalf(f, t, med, rt, 5, id);
    HalvesConcat(f, t, med, rt, id);
    HalvesSizes(f.keys, f.left + [t] + f.right, |f.left|, med, rt);
    hide InsertAt, InOrder, Total;
    WeaveSizes(l, r);
  }

  lemma {:induction false} HalvesConcat<R>(f: Frame<R>, t: Tree<R>, med: Key, rt: Tree<R>, id: R)
    requires FrameArity(f) && |f.keys| == MAX_INNER_KEYS
    ensures var full, l, r := AddKid(f, t, med, rt), LowHalf(f, t, med, rt, 5), HighHalf(f, t, med, rt, 5, id);
      full.keys == l.keys + [f.keys[5]] + r.keys && full.kids == l.kids + r.kids
  {
    hide InsertAt, InOrder, Total;
    var p, c := |f.left|, f.left + [t] + f.right;
    AddKidKids(f, t, rt);
    if p <= 5 {
      InsertLow(f.keys, 5, p, med);
      InsertLowKid(c, 6, p + 1, rt);
    } else {
      InsertHigh(f.keys, 5, p, med);
      InsertHighKid(c, 6, p + 1, rt);
    }
  }

  lemma {:induction false} HalvesSizes<R>(k: seq<Key>, c: seq<Tree<R>>, p: nat, med: Key, rt: Tree<R>)
    requires |k| == 10 && |c| == 11 && p <= 10
    ensures |k[..5]| == 5 && |k[6..]| == 4 && |c[..6]| == 6 && |c[6..]| == 5
    ensures p <= 5 ==> |InsertAt(k[..5], p, med)| == 6 && |InsertAt(c[..6], p + 1, rt)| == 7
    ensures p > 5 ==> |InsertAt(k[6..], p - 6, med)| == 5 && |InsertAt(c[6..], p - 5, rt)| == 6
  {
  }

  lemma {:induction false} AddKidKids<R>(f: Frame<R>, t: Tree<R>, rt: Tree<R>)
    ensures f.left + [t, rt] + f.right == InsertAt(f.left + [t] + f.right, |f.left| + 1, rt)
  {
  }
}
