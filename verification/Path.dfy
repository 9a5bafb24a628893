/** The path of (node, position) records that stands in for parent pointers (BPTreePath). */
module Paths {
  import opened Keys
  import opened Sequences
  import opened Shape
  import opened Siblings
  import opened Contexts
  import opened BPNode

  const MAX_DEPTH: int := 16

  datatype Record = Record(node: Node, pos: nat)

  /** The records of a context, root first. */
  ghost function Records(c: Ctx<Node>): (r: seq<Record>)
    ensures |r| == |c| && forall i :: 0 <= i < |c| ==> r[i] == Record(c[i].id, |c[i].left|)
  {
    seq(|c|, i requires 0 <= i < |c| => Record(c[i].id, |c[i].left|))
  }

  /** The nodes that the records name. */
  ghost function CtxIds(c: Ctx<Node>): set<Node> {
    set i | 0 <= i < |c| :: c[i].id
  }

  // ---------- contexts in memory ----------

  /** The node of frame f, with the node hole as its child number |f.left|. */
  ghost predicate RepFrame(f: Frame<Node>, hole: Node)
    reads FrameNodes(f)
  {
    && !f.id.leaf && HoldsKeys(f.id, f.keys) && f.id.treeCount == f.cnt
    && HoldsKids(f.id, Ids(f.left) + [hole] + Ids(f.right)) && RepS(f.left) && RepS(f.right)
  }

  ghost function HoleAt(c: Ctx<Node>, i: nat, hole: Node): Node
    requires i < |c|
  {
    if i + 1 < |c| then c[i+1].id else hole
  }

  ghost predicate RepC(c: Ctx<Node>, hole: Node)
    reads NodesC(c)
  {
    forall i :: 0 <= i < |c| ==> (FrameNodesIn(c, i); RepFrame(c[i], HoleAt(c, i, hole)))
  }

  lemma {:induction false} FillRep(f: Frame<Node>, t: Tree<Node>)
    ensures Rep(Fill(f, t)) <==> RepFrame(f, t.id) && Rep(t)
  {
    RepFocus(f.left, t, f.right);
    IdsConcat(f.left + [t], f.right);
    IdsConcat(f.left, [t]);
    assert Ids([t]) == [t.id];
    hide RepS, Ids;
  }

  lemma {:induction false} RepCLast(c: Ctx<Node>, hole: Node)
    requires c != []
    ensures RepC(c, hole) <==> RepC(c[..|c|-1], c[|c|-1].id) && RepFrame(c[|c|-1], hole)
  {
    var c', f := c[..|c|-1], c[|c|-1];
    assert forall i :: 0 <= i < |c'| ==> c'[i] == c[i] && HoleAt(c', i, f.id) == HoleAt(c, i, hole);
    hide RepFrame;
    if RepC(c', f.id) && RepFrame(f, hole) {
      forall i | 0 <= i < |c| ensures RepFrame(c[i], HoleAt(c, i, hole)) {
        if i < |c'| { assert RepFrame(c'[i], HoleAt(c', i, f.id)); }
      }
    }
    if RepC(c, hole) {
      forall i | 0 <= i < |c'| ensures RepFrame(c'[i], HoleAt(c', i, f.id)) {
        assert RepFrame(c[i], HoleAt(c, i, hole));
      }
      assert RepFrame(c[|c|-1], HoleAt(c, |c|-1, hole));
    }
  }

  lemma {:induction false} PlugRep(c: Ctx<Node>, t: Tree<Node>)
    ensures Rep(Plug(c, t)) <==> RepC(c, t.id) && Rep(t)
    decreases |c|
  {
    hide Rep, RepFrame;
    if c != [] {
      hide RepC;
      var c', f := c[..|c|-1], c[|c|-1];
      PlugRep(c', Fill(f, t));
      FillRep(f, t);
      RepCLast(c, t.id);
    }
  }

  lemma {:induction false} AllocC(c: Ctx<Node>)
    ensures forall r :: r in NodesC(c) ==> allocated(r)
    decreases |c|
  {
    if c != [] {
      AllocS(c[0].left);
      AllocS(c[0].right);
      AllocC(c[1..]);
    }
  }

  lemma {:induction false} TwoFramesIn(c: Ctx<Node>, i: nat, j: nat)
    requires i < j < |c|
    ensures FrameNodes(c[i]) + FrameNodes(c[j]) <= NodesC(c)
    decreases |c|
  {
    hide FrameNodes;
    if i > 0 {
      TwoFramesIn(c[1..], i - 1, j - 1);
    } else {
      FrameNodesIn(c[1..], j - 1);
    }
  }

  /** A frame's node is in no other part of the context. */
  lemma {:induction false} FrameApart(c: Ctx<Node>, i: nat)
    requires i < |c| && Distinct(NodesC(c))
    ensures c[i].id !in NodesS(c[i].left) && c[i].id !in NodesS(c[i].right)
    ensures forall j :: 0 <= j < |c| && j != i ==> c[i].id !in FrameNodes(c[j])
  {
    var m := NodesC(c);
    FrameNodesIn(c, i);
    assert c[i].id in m && m[c[i].id] == 1;
    assert FrameNodes(c[i])[c[i].id] == 1 + NodesS(c[i].left)[c[i].id] + NodesS(c[i].right)[c[i].id];
    forall j | 0 <= j < |c| && j != i ensures c[i].id !in FrameNodes(c[j]) {
      if i < j { TwoFramesIn(c, i, j); } else { TwoFramesIn(c, j, i); }
      OneOf(FrameNodes(c[i]), FrameNodes(c[j]), m, c[i].id);
    }
  }

  lemma {:induction false} OneOf<R>(a: multiset<R>, b: multiset<R>, m: multiset<R>, r: R)
    requires a + b <= m && r in a && m[r] == 1
    ensures r !in b
  {
    assert (a + b)[r] <= m[r];
  }

  lemma {:induction false} AllocF(f: Frame<Node>)
    ensures forall r :: r in FrameNodes(f) ==> allocated(r)
  {
    AllocS(f.left);
    AllocS(f.right);
  }

  lemma {:induction false} RepCFrame(c: Ctx<Node>, hole: Node, i: nat)
    requires RepC(c, hole) && i < |c|
    ensures RepFrame(c[i], HoleAt(c, i, hole))
  {
  }

  /** IncreaseTreeCount on the node of frame i. */
  method BumpOne(node: Node, delta: int, ghost c: Ctx<Node>, ghost i: nat, ghost hole: Node)
    requires i < |c| && node == c[i].id && RepC(c, hole) && Distinct(NodesC(c))
    requires 0 <= c[i].cnt + delta < U32_LIMIT
    modifies node`treeCount
    ensures RepC(c[i := c[i].(cnt := c[i].cnt + delta)], hole)
  {
    hide RepC, FrameNodes, NodesC, HoleAt, Distinct, RepS, NodesS;
    ghost var d := c[i := c[i].(cnt := c[i].cnt + delta)];
    FrameApart(c, i);
    RepCFrame(c, hole, i);
    ghost var hole' := HoleAt(c, i, hole);
    AllocS(c[i].left);
    AllocS(c[i].right);
    AllocFrames(c);
    RepCOthers(c, hole, i);
    node.IncreaseTreeCount(delta);
    assert RepFrame(d[i], hole');
    hide RepFrame;
    RepCUpdate(c, d, hole, i);
  }

  /** SetKey on the node of frame i. */
  method SetKeyAt(node: Node, pos: nat, key: Key, ghost c: Ctx<Node>, ghost i: nat, ghost hole: Node)
    requires i < |c| && node == c[i].id && RepC(c, hole) && Distinct(NodesC(c)) && pos < |c[i].keys|
    modifies node`keySlots
    ensures RepC(c[i := c[i].(keys := c[i].keys[pos := key])], hole)
  {
    hide RepC, FrameNodes, NodesC, HoleAt, Distinct, RepS, NodesS;
    ghost var d := c[i := c[i].(keys := c[i].keys[pos := key])];
    FrameApart(c, i);
    RepCFrame(c, hole, i);
    ghost var hole' := HoleAt(c, i, hole);
    AllocS(c[i].left);
    AllocS(c[i].right);
    AllocFrames(c);
    RepCOthers(c, hole, i);
    node.keySlots := node.keySlots[pos := key];
    assert RepFrame(d[i], hole');
    hide RepFrame;
    RepCUpdate(c, d, hole, i);
  }

  lemma {:induction false} AllocFrames(c: Ctx<Node>)
    ensures forall j, r :: 0 <= j < |c| && r in FrameNodes(c[j]) ==> allocated(r)
  {
    forall j | 0 <= j < |c| ensures forall r :: r in FrameNodes(c[j]) ==> allocated(r) {
      AllocF(c[j]);
    }
  }

  /** The frames other than number i. */
  ghost predicate OtherFrames(c: Ctx<Node>, hole: Node, i: nat)
    reads set j, r | 0 <= j < |c| && j != i && r in FrameNodes(c[j]) :: r
  {
    forall j :: 0 <= j < |c| && j != i ==> RepFrame(c[j], HoleAt(c, j, hole))
  }

  lemma {:induction false} RepCOthers(c: Ctx<Node>, hole: Node, i: nat)
    requires RepC(c, hole)
    ensures OtherFrames(c, hole, i)
  {
  }

  lemma {:induction false} RepCUpdate(c: Ctx<Node>, d: Ctx<Node>, hole: Node, i: nat)
    requires i < |c| == |d| && d == c[i := d[i]] && d[i].id == c[i].id && OtherFrames(c, hole, i)
    requires RepFrame(d[i], HoleAt(c, i, hole))
    ensures RepC(d, hole)
  {
    hide RepFrame;
    forall j | 0 <= j < |d| ensures RepFrame(d[j], HoleAt(d, j, hole)) {
      assert HoleAt(d, j, hole) == HoleAt(c, j, hole);
    }
  }

  // ---------- the innermost frame ----------

  ghost function Up(c: Ctx<Node>): Ctx<Node>
    requires c != []
  {
    c[..|c|-1]
  }

  ghost function Top(c: Ctx<Node>): Frame<Node>
    requires c != []
  {
    c[|c|-1]
  }

  lemma {:induction false} UpParts(c: Ctx<Node>, h: int, sz: int)
    requires c != [] && OkCtx(c, h, sz) && CtxArity(c)
    ensures OkFrame(Top(c), h, sz) && FrameArity(Top(c)) && OkCtx(Up(c), h + 1, Top(c).cnt) && CtxArity(Up(c))
    ensures Up(c) != [] ==> |Top(c).keys| >= MIN_INNER_KEYS - 1
    ensures LeftOf(c) == LeftOf(Up(c)) + FrameLeft(Top(c))
    ensures RightOf(c) == FrameRight(Top(c)) + RightOf(Up(c))
    ensures NodesC(c) == NodesC(Up(c)) + FrameNodes(Top(c))
  {
    hide *;
    TopOf(c);
    UpOk(c, h, sz);
    UpArity(c);
    UpKeys(c);
    NodesCLast(Up(c), Top(c));
  }

  lemma {:induction false} UpOk(c: Ctx<Node>, h: int, sz: int)
    requires c != [] && OkCtx(c, h, sz)
    ensures OkFrame(Top(c), h, sz) && OkCtx(Up(c), h + 1, Top(c).cnt)
    ensures Up(c) != [] ==> |Top(c).keys| >= MIN_INNER_KEYS - 1
  {
    hide OkFrame;
  }

  lemma {:induction false} UpArity(c: Ctx<Node>)
    requires c != [] && CtxArity(c)
    ensures FrameArity(Top(c)) && CtxArity(Up(c))
  {
    hide FrameArity;
  }

  lemma {:induction false} UpKeys(c: Ctx<Node>)
    requires c != [] && CtxArity(c)
    ensures CtxArity(Up(c)) && FrameArity(Top(c))
    ensures LeftOf(c) == LeftOf(Up(c)) + FrameLeft(Top(c))
    ensures RightOf(c) == FrameRight(Top(c)) + RightOf(Up(c))
  {
    hide FrameArity, FrameLeft, FrameRight;
  }

  lemma {:induction false} FrameParts(f: Frame<Node>, h: int, sz: int)
    requires OkFrame(f, h, sz)
    ensures FrameArity(f) && 1 <= |f.keys| <= MAX_INNER_KEYS && h >= 1 && OkS(f.left, h) && OkS(f.right, h)
    ensures f.cnt == |FrameLeft(f)| + sz + |FrameRight(f)|
  {
  }

  lemma {:induction false} TopOf(c: Ctx<Node>)
    requires c != []
    ensures c == Up(c) + [Top(c)] && Top(c) == c[|c|-1] && Up(c) == c[..|c|-1]
    ensures forall u :: Fill(Top(c), u).id == Top(c).id
  {
  }

  lemma {:induction false} RepCount(t: Tree<Node>, h: int)
    requires Rep(t) && Ok(t, h)
    ensures t.id.TreeCount() == |InOrder(t)|
  {
  }

  lemma {:induction false} IdIn(t: Tree<Node>)
    ensures t.id in Nodes(t)
  {
  }

  lemma {:induction false} FillKids(f: Frame<Node>, u: Tree<Node>)
    ensures var p := Fill(f, u);
      && |p.kids| == |f.left| + 1 + |f.right| && p.kids[|f.left|] == u
      && (forall i :: 0 <= i < |f.left| ==> p.kids[i] == f.left[i])
      && (forall i :: |f.left| < i < |p.kids| ==> p.kids[i] == f.right[i-|f.left|-1])
  {
  }

  lemma {:induction false} FillFields(f: Frame<Node>, u: Tree<Node>)
    requires FrameArity(f)
    ensures var p := Fill(f, u);
      p.Inner? && p.id == f.id && p.keys == f.keys && p.cnt == f.cnt && |p.kids| == |p.keys| + 1
    ensures |f.left| <= |f.keys| && |f.keys| == |f.left| + |f.right|
  {
  }

  lemma {:induction false} KidIds(p: Tree<Node>)
    requires p.Inner?
    ensures p.id in Nodes(p) && forall t :: t in p.kids ==> t.id in Nodes(p)
  {
    forall t | t in p.kids ensures t.id in Nodes(p) {
      var i :| 0 <= i < |p.kids| && p.kids[i] == t;
      NodesIn(p.kids, i);
      assert t.id in Nodes(t);
    }
  }
}
