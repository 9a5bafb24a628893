/** Giving back every node, children before their parent (src/zset/bplustree.hpp:159-190). */
module Clearing {
  import opened Keys
  import opened Sequences
  import opened Shape
  import opened Siblings
  import opened Contexts
  import opened BPNode
  import opened Paths
  import opened Cursors
  import opened Ancestors

  ghost function PostOrder(t: Tree<Node>): seq<Node>
    decreases t
  {
    (if t.Leaf? then [] else PostOrderS(t.kids)) + [t.id]
  }

  ghost function PostOrderS(kids: seq<Tree<Node>>): seq<Node>
    decreases kids
  {
    if kids == [] then [] else PostOrder(kids[0]) + PostOrderS(kids[1..])
  }

  /** Every node of the tree occurs in the post-order, as often as in the tree. */
  lemma {:induction false} PostOrderNodes(t: Tree<Node>)
    ensures multiset(PostOrder(t)) == Nodes(t)
    decreases t
  {
    if t.Inner? { PostOrderNodesS(t.kids); }
  }

  lemma {:induction false} PostOrderNodesS(kids: seq<Tree<Node>>)
    ensures multiset(PostOrderS(kids)) == NodesS(kids)
    decreases kids
  {
    if kids != [] {
      PostOrderNodes(kids[0]);
      PostOrderNodesS(kids[1..]);
    }
  }

  lemma {:induction false} PostOrderConcat(a: seq<Tree<Node>>, b: seq<Tree<Node>>)
    ensures PostOrderS(a + b) == PostOrderS(a) + PostOrderS(b)
  {
    if a == [] {
      assert a + b == b;
    } else {
      assert (a + b)[1..] == a[1..] + b;
      PostOrderConcat(a[1..], b);
    }
  }

  /** The nodes left of the path, and those on it and right of it. */
  ghost function Freed(c: Ctx<Node>): seq<Node>
    decreases |c|
  {
    if c == [] then [] else Freed(c[..|c|-1]) + PostOrderS(c[|c|-1].left)
  }

  ghost function Rest(c: Ctx<Node>): seq<Node>
    decreases |c|
  {
    if c == [] then [] else PostOrderS(c[|c|-1].right) + [c[|c|-1].id] + Rest(c[..|c|-1])
  }

  lemma {:induction false} FillPost(f: Frame<Node>, t: Tree<Node>)
    ensures PostOrder(Fill(f, t)) == PostOrderS(f.left) + PostOrder(t) + PostOrderS(f.right) + [f.id]
    ensures PostOrderS(f.left + [t]) == PostOrderS(f.left) + PostOrder(t)
  {
    PostOrderConcat(f.left + [t], f.right);
    PostOrderConcat(f.left, [t]);
    assert [t][1..] == [];
  }

  lemma {:induction false} PlugPost(c: Ctx<Node>, t: Tree<Node>)
    ensures PostOrder(Plug(c, t)) == Freed(c) + PostOrder(t) + Rest(c)
    decreases |c|
  {
    if c != [] {
      var c', f := c[..|c|-1], c[|c|-1];
      PlugPost(c', Fill(f, t));
      FillPost(f, t);
      RegroupPost(Freed(c'), PostOrderS(f.left), PostOrder(t), PostOrderS(f.right), [f.id], Rest(c'));
    }
  }

  lemma {:induction false} RegroupPost<T>(a: seq<T>, b: seq<T>, c: seq<T>, d: seq<T>, e: seq<T>, f: seq<T>)
    ensures a + (b + c + d + e) + f == (a + b) + c + (d + e + f)
  {
  }

  /** In the post-order of the whole tree every node comes after its children. */
  lemma {:induction false} ChildrenFirst(c: Ctx<Node>, t: Tree<Node>, kid: nat, i: nat, j: nat)
    requires t.Inner? && kid < |t.kids| && Distinct(Nodes(Plug(c, t)))
    requires var all := PostOrder(Plug(c, t)); i < |all| && j < |all| && all[i] == t.kids[kid].id && all[j] == t.id
    ensures i < j
  {
    hide *;
    var s := Plug(c, t);
    var all, a, b := PostOrder(s), Freed(c), PostOrderS(t.kids);
    PlugPost(c, t);
    PostOrderNodes(s);
    InnerPost(t);
    Indices(a, b, t.id, Rest(c));
    KidPlace(t.kids, kid);
    var k :| 0 <= k < |b| && b[k] == t.kids[kid].id;
    Once(all, i, |a| + k);
    Once(all, j, |a| + |b|);
  }

  lemma {:induction false} InnerPost(t: Tree<Node>)
    requires t.Inner?
    ensures PostOrder(t) == PostOrderS(t.kids) + [t.id]
  {
  }

  lemma {:induction false} Indices<T>(a: seq<T>, b: seq<T>, x: T, d: seq<T>)
    ensures var s := a + (b + [x]) + d;
      |a| + |b| < |s| && s[|a|+|b|] == x && forall k :: 0 <= k < |b| ==> s[|a|+k] == b[k]
  {
  }

  lemma {:induction false} KidPlace(kids: seq<Tree<Node>>, kid: nat)
    requires kid < |kids|
    ensures exists k :: 0 <= k < |PostOrderS(kids)| && PostOrderS(kids)[k] == kids[kid].id
  {
    PostOrderNodesS(kids);
    NodesIn(kids, kid);
    assert kids[kid].id in multiset(PostOrderS(kids));
  }

  lemma {:induction false} Twice<T>(s: seq<T>, i: nat, j: nat)
    requires i < j < |s| && s[i] == s[j]
    ensures multiset(s)[s[i]] >= 2
  {
    var a, b := s[..i+1], s[i+1..];
    assert s == a + b && a[i] == s[i] && b[j-i-1] == s[i];
  }

  /** An element that occurs once has one index. */
  lemma {:induction false} Once<T>(s: seq<T>, i: nat, j: nat)
    requires i < |s| && j < |s| && s[i] == s[j] && Distinct(multiset(s))
    ensures i == j
  {
    assert s[i] in multiset(s);
    if i < j { Twice(s, i, j); }
    if j < i { Twice(s, j, i); }
  }

  // ---------- the memory that is still there ----------

  /** The frame's node and the children after the hole; those before it are gone. */
  ghost predicate RepFrameRight(f: Frame<Node>, hole: Node)
    reads f.id, NodesS(f.right)
  {
    && !f.id.leaf && HoldsKeys(f.id, f.keys) && HoldsKids(f.id, Ids(f.left) + [hole] + Ids(f.right))
    && RepS(f.right)
  }

  ghost predicate RepRight(c: Ctx<Node>, hole: Node)
    reads NodesC(c)
  {
    forall i :: 0 <= i < |c| ==> (FrameNodesIn(c, i); RepFrameRight(c[i], HoleAt(c, i, hole)))
  }

  lemma {:induction false} RepRightLast(c: Ctx<Node>, hole: Node)
    requires c != []
    ensures RepRight(c, hole) <==> RepRight(Up(c), Top(c).id) && RepFrameRight(Top(c), hole)
  {
    var c', f := Up(c), Top(c);
    assert forall i :: 0 <= i < |c'| ==> c'[i] == c[i] && HoleAt(c', i, f.id) == HoleAt(c, i, hole);
    hide RepFrameRight;
    if RepRight(c', f.id) && RepFrameRight(f, hole) {
      forall i | 0 <= i < |c| ensures RepFrameRight(c[i], HoleAt(c, i, hole)) {
        if i < |c'| { assert RepFrameRight(c'[i], HoleAt(c', i, f.id)); }
      }
    }
    if RepRight(c, hole) {
      forall i | 0 <= i < |c'| ensures RepFrameRight(c'[i], HoleAt(c', i, f.id)) {
        assert RepFrameRight(c[i], HoleAt(c, i, hole));
      }
      assert RepFrameRight(c[|c|-1], HoleAt(c, |c|-1, hole));
    }
  }

  /** An inner node whose children from number pos on are still there. */
  ghost predicate HoldsFrom(t: Tree<Node>, pos: nat)
    reads t.id, if t.Inner? && pos <= |t.kids| then NodesS(t.kids[pos..]) else multiset{}
  {
    && t.Inner? && pos <= |t.kids| && !t.id.leaf && HoldsKeys(t.id, t.keys) && HoldsKids(t.id, Ids(t.kids))
    && RepS(t.kids[pos..])
  }

  lemma {:induction false} HoldsAll(t: Tree<Node>)
    requires Rep(t) && t.Inner?
    ensures HoldsFrom(t, 0)
  {
    assert t.kids[0..] == t.kids;
  }

  /** Entering child pos. */
  lemma {:induction false} EnterKid(t: Tree<Node>, pos: nat)
    requires HoldsFrom(t, pos) && pos < |t.kids|
    ensures Rep(t.kids[pos]) && RepFrameRight(FrameAt(t, pos), t.kids[pos].id)
    ensures pos < |t.id.kidSlots| && t.id.kidSlots[pos] == t.kids[pos].id
    ensures t.kids[pos].id.leaf == t.kids[pos].Leaf?
  {
    var k := t.kids[pos..];
    assert k[0] == t.kids[pos] && k[1..] == t.kids[pos+1..];
    assert Ids(t.kids)[pos] == t.kids[pos].id;
    assert Ids(t.kids) == Ids(t.kids[..pos]) + [t.kids[pos].id] + Ids(t.kids[pos+1..]);
  }

  /** Back in the parent, the children after the hole are there. */
  lemma {:induction false} LeaveKid(f: Frame<Node>, u: Tree<Node>)
    requires RepFrameRight(f, u.id) && FrameArity(f)
    ensures f.id.numItems == |f.keys| && HoldsFrom(Fill(f, u), |f.left| + 1)
  {
    var p := Fill(f, u);
    assert p.kids[|f.left|+1..] == f.right;
    IdsConcat(f.left + [u], f.right);
    IdsConcat(f.left, [u]);
    assert Ids([u]) == [u.id];
  }

  lemma {:induction false} FreedDown(c: Ctx<Node>, t: Tree<Node>, pos: nat)
    requires t.Inner? && pos < |t.kids|
    ensures var d := c + [FrameAt(t, pos)];
      && Freed(d) == Freed(c) + PostOrderS(t.kids[..pos]) && Up(d) == c && Top(d) == FrameAt(t, pos)
      && d != [] && Top(d).id == t.id
    ensures PostOrderS(t.kids[..0]) == []
  {
    assert (c + [FrameAt(t, pos)])[..|c|] == c;
  }

  /** After the hole is gone, too: the parent's next child, or the parent itself. */
  lemma {:induction false} FreedUp(c: Ctx<Node>, u: Tree<Node>)
    requires c != []
    ensures var f, p := Top(c), Fill(Top(c), u);
      && Freed(c) + PostOrder(u) == Freed(Up(c)) + PostOrderS(p.kids[..|f.left|+1])
      && |p.kids| == |f.left| + 1 + |f.right| && p.Inner? && p.id == f.id
      && (f.right == [] ==> p.kids[..|f.left|+1] == Kids(p))
  {
    var f := Top(c);
    FillPost(f, u);
    assert Fill(f, u).kids[..|f.left|+1] == f.left + [u];
  }

  /** What is left to do. */
  lemma {:induction false} FreedBound(c: Ctx<Node>, u: Tree<Node>, s: Tree<Node>)
    requires Plug(c, u) == s
    ensures Freed(c) + PostOrderS(Kids(u)) + [u.id] == Freed(c) + PostOrder(u)
    ensures |Freed(c) + PostOrderS(Kids(u))| < |PostOrder(s)| == |Nodes(s)|
    ensures c == [] ==> Freed(c) + PostOrder(u) == PostOrder(s)
  {
    hide *;
    PlugPost(c, u);
    PostOrderSize(s);
    LastOf(u);
    NoFreed(c);
  }

  lemma {:induction false} LastOf(u: Tree<Node>)
    ensures PostOrder(u) == PostOrderS(Kids(u)) + [u.id]
  {
  }

  lemma {:induction false} NoFreed(c: Ctx<Node>)
    ensures c == [] ==> Rest(c) == []
  {
  }

  lemma {:induction false} PostOrderSize(s: Tree<Node>)
    ensures |PostOrder(s)| == |Nodes(s)|
  {
    PostOrderNodes(s);
    hide PostOrder, Nodes;
    assert |multiset(PostOrder(s))| == |PostOrder(s)|;
  }

  lemma {:induction false} NoKidsFreed(u: Tree<Node>)
    ensures u.Leaf? ==> PostOrderS(Kids(u)) == []
    ensures u.Inner? ==> PostOrderS(u.kids[..0]) == []
  {
  }
}
