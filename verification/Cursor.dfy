/** Positions in the tree by rank, and the path that walks over them (BPTreePath). */
module Cursors {
  import opened Keys
  import opened Sequences
  import opened Shape
  import opened Siblings
  import opened Contexts
  import opened Order
  import opened BPNode
  import opened Paths

  // ---------- the reference: the path of a rank ----------

  /** The child that rank r falls into, or whose separator it is. */
  ghost function Pick(kids: seq<Tree<Node>>, r: int): nat {
    if kids == [] || r <= |InOrder(kids[0])| then 0 else 1 + Pick(kids[1..], r - |InOrder(kids[0])| - 1)
  }

  /** The path to the key of rank r. */
  ghost function PathTo(t: Tree<Node>, r: nat): seq<Record>
    decreases t
  {
    match t
    case Leaf(id, _) => [Record(id, r)]
    case Inner(id, _, kids, _) =>
      var i := Pick(kids, r);
      if i >= |kids| then [] else
      var below := r - Total(kids[..i]) - i;
      if below < 0 || below == |InOrder(kids[i])| then [Record(id, i)] else [Record(id, i)] + PathTo(kids[i], below)
  }

  /** The keys of t before its child i, or before its slot i. */
  ghost function Before(t: Tree<Node>, i: nat): int
    requires Arity(t) && i <= |t.keys|
  {
    if t.Leaf? then i else Total(t.kids[..i]) + i
  }

  lemma {:induction false} KeyOffsetBefore(t: Tree<Node>, i: nat)
    requires Arity(t) && i < |t.keys|
    ensures t.Leaf? ==> KeyOffset(t, i) == i == Before(t, i)
    ensures t.Inner? ==> KeyOffset(t, i) == Before(t, i) + |InOrder(t.kids[i])|
    ensures Before(t, i + 1) == KeyOffset(t, i) + 1
  {
    if t.Inner? {
      assert t.kids[..i+1] == t.kids[..i] + [t.kids[i]];
      TotalConcat(t.kids[..i], [t.kids[i]]);
    }
  }

  lemma {:induction false} PickAt(kids: seq<Tree<Node>>, i: nat, r: nat)
    requires i < |kids| && r <= |InOrder(kids[i])|
    ensures Pick(kids, Total(kids[..i]) + i + r) == i
    decreases i
  {
    TotalNat(kids[..i]);
    if i > 0 {
      assert kids[..i][1..] == kids[1..][..i-1];
      TotalNat(kids[1..][..i-1]);
      PickAt(kids[1..], i - 1, r);
    }
  }

  lemma {:induction false} PathDown(f: Frame<Node>, t: Tree<Node>, r: nat)
    requires FrameArity(f) && r < |InOrder(t)|
    ensures PathTo(Fill(f, t), |FrameLeft(f)| + r) == [Record(f.id, |f.left|)] + PathTo(t, r)
  {
    var k := f.left + [t] + f.right;
    assert k[..|f.left|] == f.left && k[|f.left|] == t;
    LeadSize(f.left, f.keys[..|f.left|]);
    PickAt(k, |f.left|, r);
  }

  lemma {:induction false} PathThrough(c: Ctx<Node>, t: Tree<Node>, r: nat)
    requires CtxArity(c) && r < |InOrder(t)|
    ensures PathTo(Plug(c, t), |LeftOf(c)| + r) == Records(c) + PathTo(t, r)
    decreases |c|
  {
    hide PathTo, FrameLeft, FrameRight;
    if c != [] {
      var c', f := c[..|c|-1], c[|c|-1];
      PathDown(f, t, r);
      FillInOrder(f, t);
      PathThrough(c', Fill(f, t), |FrameLeft(f)| + r);
      assert Records(c) == Records(c') + [Record(f.id, |f.left|)];
    } else {
      assert Records(c) == [];
    }
  }

  lemma {:induction false} PathHere(t: Tree<Node>, pos: nat)
    requires Arity(t) && pos < |t.keys|
    ensures KeyOffset(t, pos) >= 0 && PathTo(t, KeyOffset(t, pos)) == [Record(t.id, pos)]
  {
    KeyAt(t, pos);
    if t.Inner? {
      KeyOffsetBefore(t, pos);
      PickAt(t.kids, pos, |InOrder(t.kids[pos])|);
    }
  }

  /** A path names one rank. */
  lemma {:induction false} PathNamesRank(t: Tree<Node>, h: int, r: nat, q: nat)
    requires Ok(t, h) && |t.keys| >= 1 && r < |InOrder(t)| && q < |InOrder(t)| && PathTo(t, r) == PathTo(t, q)
    ensures r == q
    decreases t
  {
    hide *;
    if t.Leaf? {
      LeafPath(t, r);
      LeafPath(t, q);
    } else {
      NodeArity(t, h);
      var i := ChildOf(t, r);
      var j := ChildOf(t, q);
      PathFrom(t, i, r);
      PathFrom(t, j, q);
      assert PathTo(t, r)[0] == Record(t.id, i) && PathTo(t, q)[0] == Record(t.id, j);
      KidOk(t, h, i);
      var k, x, y := t.kids[i], r - Before(t, i), q - Before(t, i);
      if x < |InOrder(k)| { PathSome(k, x); }
      if y < |InOrder(k)| { PathSome(k, y); }
      if x < |InOrder(k)| && y < |InOrder(k)| {
        Unprefixed([Record(t.id, i)], PathTo(k, x), PathTo(k, y));
        PathNamesRank(k, h - 1, x, y);
      }
    }
  }

  lemma {:induction false} Unprefixed(a: seq<Record>, x: seq<Record>, y: seq<Record>)
    requires a + x == a + y
    ensures x == y
  {
    assert (a + x)[|a|..] == x && (a + y)[|a|..] == y;
  }

  lemma {:induction false} LeafPath(t: Tree<Node>, r: nat)
    requires t.Leaf?
    ensures PathTo(t, r) == [Record(t.id, r)]
  {
  }

  lemma {:induction false} NodeArity(t: Tree<Node>, h: int)
    requires Ok(t, h)
    ensures Arity(t) && (t.Inner? ==> |t.kids| == |t.keys| + 1)
  {
    assert Body(t, h);
  }

  lemma {:induction false} KidOk(t: Tree<Node>, h: int, i: nat)
    requires Ok(t, h) && t.Inner? && i < |t.kids|
    ensures var k := t.kids[i]; Ok(k, h - 1) && |k.keys| >= 1 && (k.Inner? ==> |k.kids| == |k.keys| + 1)
  {
    assert Body(t, h) && OkS(t.kids, h - 1);
    assert Ok(t.kids[i], h - 1) && Filled(t.kids[i]);
    NodeArity(t.kids[i], h - 1);
  }

  /** The first record of a path. */
  lemma {:induction false} PathFrom(t: Tree<Node>, i: nat, r: nat)
    requires t.Inner? && |t.kids| == |t.keys| + 1 && i < |t.kids|
    requires Before(t, i) <= r <= Before(t, i) + |InOrder(t.kids[i])|
    ensures var x := r - Before(t, i);
      PathTo(t, r) ==
        if x == |InOrder(t.kids[i])| then [Record(t.id, i)] else [Record(t.id, i)] + PathTo(t.kids[i], x)
  {
    PickAt(t.kids, i, r - Before(t, i));
  }

  lemma {:induction false} PathSome(t: Tree<Node>, r: nat)
    requires r < |InOrder(t)| && (t.Inner? ==> |t.kids| == |t.keys| + 1)
    ensures PathTo(t, r) != []
  {
    if t.Inner? {
      var i := ChildOf(t, r);
      PathFrom(t, i, r);
    }
  }

  // ---------- positions ----------

  /** t is the subtree of s in the surroundings c. */
  ghost predicate Focus(s: Tree<Node>, c: Ctx<Node>, t: Tree<Node>, h: int) {
    && Plug(c, t) == s && OkCtx(c, h - |c|, |InOrder(t)|) && CtxArity(c) && Ok(t, h - |c|)
    && (c != [] ==> Filled(t))
    && |t.keys| >= 1
  }

  lemma {:induction false} FocusParts(s: Tree<Node>, c: Ctx<Node>, t: Tree<Node>, h: int)
    requires Focus(s, c, t, h)
    ensures Plug(c, t) == s && OkCtx(c, h - |c|, |InOrder(t)|) && CtxArity(c) && Ok(t, h - |c|)
    ensures c != [] ==> Filled(t)
    ensures |t.keys| >= 1 && Arity(t) && |c| < h && (t.Leaf? <==> |c| == h - 1)
    ensures t.Inner? ==> |t.kids| == |t.keys| + 1
    ensures t.Leaf? ==> InOrder(t) == t.keys && |t.keys| <= MAX_LEAF_KEYS
    ensures |InOrder(t)| > 0
  {
    assert Body(t, h - |c|);
    KeyAt(t, 0);
  }

  lemma {:induction false} FocusOf(s: Tree<Node>, c: Ctx<Node>, t: Tree<Node>, h: int)
    requires Plug(c, t) == s && OkCtx(c, h - |c|, |InOrder(t)|) && CtxArity(c) && Ok(t, h - |c|)
    requires (c != [] ==> Filled(t)) && |t.keys| >= 1
    ensures Focus(s, c, t, h)
  {
  }

  lemma {:induction false} FocusRoot(s: Tree<Node>, h: int)
    requires Ok(s, h) && |s.keys| >= 1
    ensures Focus(s, [], s, h) && LeftOf<Node>([]) == [] && Records([]) == []
  {
  }

  lemma {:induction false} FrameAtFields(t: Tree<Node>, i: nat)
    requires t.Inner? && i < |t.kids|
    ensures var f := FrameAt(t, i);
      && f.id == t.id && f.keys == t.keys && f.cnt == t.cnt && |f.left| == i
      && f.left == t.kids[..i] && f.right == t.kids[i+1..] && (|t.kids| == |t.keys| + 1 ==> FrameArity(f))
  {
  }

  /** One step down. */
  lemma {:induction false} FocusDown(s: Tree<Node>, c: Ctx<Node>, t: Tree<Node>, h: int, i: nat)
    requires Focus(s, c, t, h) && t.Inner? && i < |t.kids|
    ensures Arity(t) && |t.kids| == |t.keys| + 1
    ensures var d := c + [FrameAt(t, i)];
      && Focus(s, d, t.kids[i], h) && Records(d) == Records(c) + [Record(t.id, i)]
      && |LeftOf(d)| == |LeftOf(c)| + Before(t, i)
  {
    hide *;
    FocusParts(s, c, t, h);
    var d, u := c + [FrameAt(t, i)], t.kids[i];
    PlugStep(c, t, i);
    OkCtxStep(c, t, h - |c|, i);
    FilledKeys(u);
    OkCtxArity(d, h - |d|, |InOrder(u)|);
    FocusOf(s, d, u, h);
    RecordsDown(c, t, i);
    LeftDown(c, t, i);
  }

  lemma {:induction false} FilledKeys(t: Tree<Node>)
    requires Filled(t)
    ensures |t.keys| >= 1
  {
  }

  lemma {:induction false} RecordsDown(c: Ctx<Node>, t: Tree<Node>, i: nat)
    requires t.Inner? && i < |t.kids|
    ensures Records(c + [FrameAt(t, i)]) == Records(c) + [Record(t.id, i)]
  {
  }

  lemma {:induction false} LeftDown(c: Ctx<Node>, t: Tree<Node>, i: nat)
    requires CtxArity(c) && t.Inner? && i < |t.kids| == |t.keys| + 1 && CtxArity(c + [FrameAt(t, i)])
    ensures LeftOf(c + [FrameAt(t, i)]) == LeftOf(c) + FrameLeft(FrameAt(t, i))
    ensures |LeftOf(c + [FrameAt(t, i)])| == |LeftOf(c)| + Before(t, i)
  {
    var f := FrameAt(t, i);
    assert (c + [f])[..|c|] == c;
    LeadSize(t.kids[..i], t.keys[..i]);
  }

  /** One step up. */
  lemma {:induction false} FocusUp(s: Tree<Node>, c: Ctx<Node>, t: Tree<Node>, h: int)
    requires Focus(s, c, t, h) && c != []
    ensures FrameArity(Top(c)) && Focus(s, Up(c), Fill(Top(c), t), h)
    ensures Records(c) == Records(Up(c)) + [Record(Top(c).id, |Top(c).left|)]
    ensures |LeftOf(c)| == |LeftOf(Up(c))| + Before(Fill(Top(c), t), |Top(c).left|)
    ensures |InOrder(Fill(Top(c), t))| == Before(Fill(Top(c), t), |Top(c).left|) + |InOrder(t)| + |FrameRight(Top(c))|
  {
    hide *;
    FocusParts(s, c, t, h);
    var f := Top(c);
    TopOf(c);
    UpParts(c, h - |c|, |InOrder(t)|);
    FrameParts(f, h - |c|, |InOrder(t)|);
    FillOk(f, t, h - |c|);
    FillInOrder(f, t);
    FillArity(f, t);
    PlugUp(c, t);
    FocusOf(s, Up(c), Fill(f, t), h);
    RecordsUp(c);
  }

  lemma {:induction false} FillArity(f: Frame<Node>, t: Tree<Node>)
    requires FrameArity(f)
    ensures var p := Fill(f, t);
      && p.Inner? && p.id == f.id && p.keys == f.keys && |p.kids| == |p.keys| + 1 && Arity(p)
      && |f.left| <= |p.keys|
      && |FrameLeft(f)| == Before(p, |f.left|) && p.kids[|f.left|] == t
      && (|p.keys| >= MIN_INNER_KEYS - 1 ==> Filled(p))
      && (|f.left| == |f.keys| ==> FrameRight(f) == [])
  {
    var p := Fill(f, t);
    assert p.kids[..|f.left|] == f.left;
    LeadSize(f.left, f.keys[..|f.left|]);
  }

  lemma {:induction false} PlugUp(c: Ctx<Node>, t: Tree<Node>)
    requires c != []
    ensures Plug(Up(c), Fill(Top(c), t)) == Plug(c, t)
  {
  }

  lemma {:induction false} RecordsUp(c: Ctx<Node>)
    requires c != []
    ensures Records(c) == Records(Up(c)) + [Record(Top(c).id, |Top(c).left|)] && |Records(c)| == |c|
  {
  }

  /** The rank of key pos of a focused node, and its path. */
  lemma {:induction false} CursorPath(s: Tree<Node>, c: Ctx<Node>, t: Tree<Node>, h: int, pos: nat)
    requires Focus(s, c, t, h) && pos < |t.keys|
    ensures CtxArity(c) && Arity(t)
    ensures var r := |LeftOf(c)| + KeyOffset(t, pos);
      && 0 <= r < |InOrder(s)| && InOrder(s)[r] == t.keys[pos]
      && PathTo(s, r) == Records(c) + [Record(t.id, pos)]
  {
    hide *;
    FocusParts(s, c, t, h);
    KeyAt(t, pos);
    PathHere(t, pos);
    PathThrough(c, t, KeyOffset(t, pos));
    PlugInOrder(c, t);
  }

  /** Every rank has a position. */
  lemma {:induction false} CursorOf(s: Tree<Node>, c: Ctx<Node>, t: Tree<Node>, h: int, r: nat)
    returns (d: Ctx<Node>, u: Tree<Node>, pos: nat)
    requires Focus(s, c, t, h) && r < |InOrder(t)|
    ensures Focus(s, d, u, h) && pos < |u.keys| && CtxArity(c) && CtxArity(d) && Arity(u)
    ensures |LeftOf(d)| + KeyOffset(u, pos) == |LeftOf(c)| + r
    decreases t
  {
    hide *;
    FocusParts(s, c, t, h);
    if t.Leaf? {
      d, u, pos := c, t, r;
      KeyOffsetBefore(t, r);
    } else {
      var i := ChildOf(t, r);
      if i < |t.keys| { KeyOffsetBefore(t, i); }
      if r == Before(t, i) + |InOrder(t.kids[i])| {
        d, u, pos := c, t, i;
      } else {
        FocusDown(s, c, t, h, i);
        d, u, pos := CursorOf(s, c + [FrameAt(t, i)], t.kids[i], h, r - Before(t, i));
      }
    }
  }

  lemma {:induction false} ChildOf(t: Tree<Node>, r: nat) returns (i: nat)
    requires t.Inner? && |t.kids| == |t.keys| + 1 && r < |InOrder(t)|
    ensures i < |t.kids| && Before(t, i) <= r <= Before(t, i) + |InOrder(t.kids[i])|
    ensures r == Before(t, i) + |InOrder(t.kids[i])| ==> i < |t.keys|
  {
    hide InOrder;
    i := 0;
    while i < |t.keys| && r > Before(t, i) + |InOrder(t.kids[i])|
      invariant i <= |t.keys| && Before(t, i) <= r
    {
      KeyOffsetBefore(t, i);
      i := i + 1;
    }
    LastChild(t);
  }

  lemma {:induction false} LastChild(t: Tree<Node>)
    requires t.Inner? && |t.kids| == |t.keys| + 1
    ensures |InOrder(t)| == Before(t, |t.keys|) + |InOrder(t.kids[|t.keys|])|
  {
    var n := |t.keys|;
    WeaveSize(t.kids, t.keys);
    assert t.kids == t.kids[..n] + [t.kids[n]];
    TotalConcat(t.kids[..n], [t.kids[n]]);
  }

  /** The memory at a position. */
  lemma {:induction false} FocusRep(s: Tree<Node>, c: Ctx<Node>, t: Tree<Node>, h: int)
    requires Focus(s, c, t, h) && Rep(s)
    ensures Rep(t) && RepC(c, t.id)
    ensures t.id.leaf == t.Leaf? && t.id.numItems == |t.keys| && HoldsKeys(t.id, t.keys)
    ensures t.Inner? ==> |t.kids| == |t.keys| + 1 <= |t.id.kidSlots|
    ensures t.Inner? ==>
      forall i :: 0 <= i < |t.kids| ==>
        t.id.kidSlots[i] == t.kids[i].id && t.kids[i].id.TreeCount() == |InOrder(t.kids[i])|
  {
    hide *;
    FocusParts(s, c, t, h);
    PlugRep(c, t);
    RepNode(t);
    if t.Inner? {
      OkKids(t, h - |c|);
      KidCounts(t, h - |c|);
    }
  }

  lemma {:induction false} RepNode(t: Tree<Node>)
    requires Rep(t)
    ensures t.id.leaf == t.Leaf? && t.id.numItems == |t.keys| && HoldsKeys(t.id, t.keys)
  {
  }

  lemma {:induction false} OkKids(t: Tree<Node>, h: int)
    requires Ok(t, h) && t.Inner?
    ensures OkS(t.kids, h - 1)
  {
    assert Body(t, h);
  }

  lemma {:induction false} KidCounts(t: Tree<Node>, h: int)
    requires Rep(t) && t.Inner? && OkS(t.kids, h - 1)
    ensures |t.kids| <= |t.id.kidSlots|
    ensures forall i :: 0 <= i < |t.kids| ==>
      t.id.kidSlots[i] == t.kids[i].id && t.kids[i].id.TreeCount() == |InOrder(t.kids[i])|
  {
    forall i | 0 <= i < |t.kids|
      ensures t.id.kidSlots[i] == t.kids[i].id && t.kids[i].id.TreeCount() == |InOrder(t.kids[i])|
    {
      assert Ids(t.kids)[i] == t.kids[i].id;
      RepAt(t.kids, i);
      assert Ok(t.kids[i], h - 1);
      RepCount(t.kids[i], h - 1);
    }
  }

  /** One step down to child i. */
  lemma {:induction false} ChildDown(s: Tree<Node>, h: int, c: Ctx<Node>, t: Tree<Node>, i: nat)
    returns (d: Ctx<Node>, u: Tree<Node>)
    requires Focus(s, c, t, h) && Rep(s) && t.Inner? && i <= |t.keys|
    ensures |t.kids| == |t.keys| + 1 && Arity(t) && u == t.kids[i] && d == c + [FrameAt(t, i)]
    ensures Arity(u) && |u.keys| > 0 && u.id.numItems == |u.keys| && (u.Inner? ==> |u.kids| == |u.keys| + 1)
    ensures |d| < h && (u.Leaf? ==> InOrder(u) == u.keys)
    ensures i < |t.id.kidSlots| && t.id.kidSlots[i] == u.id && u.id.leaf == u.Leaf?
    ensures Records(d) == Records(c) + [Record(t.id, i)]
    ensures Focus(s, d, u, h) && CtxArity(c) && CtxArity(d) && |LeftOf(d)| == |LeftOf(c)| + Before(t, i)
    ensures |c| < h
  {
    hide *;
    FocusParts(s, c, t, h);
    FocusRep(s, c, t, h);
    FocusDown(s, c, t, h, i);
    d, u := c + [FrameAt(t, i)], t.kids[i];
    FocusParts(s, d, u, h);
    FocusRep(s, d, u, h);
  }

  // ---------- the path ----------

  /** record leads to gap or key p of t: slot p of a leaf, perhaps past its last key, or key p of an inner node. */
  ghost predicate At(record: seq<Record>, s: Tree<Node>, c: Ctx<Node>, t: Tree<Node>, h: int, p: nat) {
    Focus(s, c, t, h) && record == Records(c) + [Record(t.id, p)] && p <= |t.keys| && (t.Inner? ==> p < |t.keys|)
  }

  /** The keys before the one at p. */
  ghost function RankAt(c: Ctx<Node>, t: Tree<Node>, p: nat): int
    requires CtxArity(c) && Arity(t) && p <= |t.keys| && (t.Inner? ==> p < |t.keys|)
  {
    |LeftOf(c)| + if t.Leaf? then p else KeyOffset(t, p)
  }

  lemma {:induction false} AtParts(record: seq<Record>, s: Tree<Node>, c: Ctx<Node>, t: Tree<Node>, h: int, p: nat)
    requires At(record, s, c, t, h, p)
    ensures Focus(s, c, t, h) && record == Records(c) + [Record(t.id, p)] && p <= |t.keys|
    ensures t.Inner? ==> p < |t.keys|
    ensures |record| == |c| + 1 && record[|c|] == Record(t.id, p) && record[..|c|] == Records(c) && |c| < h
    ensures CtxArity(c) && Arity(t) && (t.Inner? ==> |t.kids| == |t.keys| + 1)
    ensures RankAt(c, t, p) == |LeftOf(c)| + if t.Leaf? then p else Before(t, p) + |InOrder(t.kids[p])|
  {
    FocusParts(s, c, t, h);
    hide Focus, Before, InOrder;
    if p < |t.keys| { KeyOffsetBefore(t, p); }
  }

  /** A path of rank r leads to a position. */
  lemma {:induction false} PathAt(s: Tree<Node>, h: int, r: nat) returns (c: Ctx<Node>, t: Tree<Node>, p: nat)
    requires Ok(s, h) && |s.keys| >= 1 && r < |InOrder(s)|
    ensures At(PathTo(s, r), s, c, t, h, p) && p < |t.keys|
    ensures CtxArity(c) && Arity(t) && RankAt(c, t, p) == r && t.keys[p] == InOrder(s)[r]
  {
    hide *;
    FocusRoot(s, h);
    c, t, p := CursorOf(s, [], s, h, r);
    CursorPath(s, c, t, h, p);
    AtOf(PathTo(s, r), s, c, t, h, p);
  }

  lemma {:induction false} AtOf(record: seq<Record>, s: Tree<Node>, c: Ctx<Node>, t: Tree<Node>, h: int, p: nat)
    requires Focus(s, c, t, h) && record == Records(c) + [Record(t.id, p)] && p <= |t.keys|
    requires t.Inner? ==> p < |t.keys|
    ensures At(record, s, c, t, h, p) && CtxArity(c) && Arity(t)
    ensures RankAt(c, t, p) == |LeftOf(c)| + if p < |t.keys| then KeyOffset(t, p) else |t.keys|
  {
    FocusParts(s, c, t, h);
  }

  class Path {
    var record: seq<Record>     // the first depth_ entries of the 16-entry array

    constructor ()
      ensures record == []
    {
      record := [];
    }

    function Depth(): nat
      reads this
    {
      |record|
    }

    method Push(node: Node, pos: nat)
      requires |record| < MAX_DEPTH
      modifies this
      ensures record == old(record) + [Record(node, pos)]
    {
      record := record + [Record(node, pos)];
    }

    method Pop()
      requires record != []
      modifies this
      ensures record == old(record)[..|old(record)|-1]
    {
      record := record[..|record|-1];
    }

    function Last(): Record
      requires record != []
      reads this
    {
      record[|record|-1]
    }

    method Terminal(ghost s: Tree<Node>, ghost h: int, ghost r: nat) returns (key: Key)
      requires Rep(s) && Ok(s, h) && |s.keys| >= 1 && r < |InOrder(s)| && record == PathTo(s, r)
      ensures key == InOrder(s)[r]
    {
      hide *;
      ghost var c, t, p := PathAt(s, h, r);
      AtParts(record, s, c, t, h, p);
      FocusRep(s, c, t, h);
      LeafKeys(t);
      key := record[|record|-1].node.keySlots[record[|record|-1].pos];
    }

    /** Moves to the next key; false, and an empty path, at the end. */
    method Next(ghost s: Tree<Node>, ghost h: int, ghost c: Ctx<Node>, ghost t: Tree<Node>,
                ghost p: nat) returns (ok: bool)
      requires At(record, s, c, t, h, p) && Rep(s) && h <= MAX_DEPTH
      modifies this
      ensures CtxArity(c) && Arity(t)
      ensures var g := RankAt(c, t, p) + (if p < |t.keys| then 1 else 0);
        0 <= g <= |InOrder(s)| && ok == (g < |InOrder(s)|) && record == if ok then PathTo(s, g) else []
    {
      hide *;
      AtParts(record, s, c, t, h, p);
      FocusParts(s, c, t, h);
      FocusRep(s, c, t, h);
      AllocT(s);
      var n := |record| - 1;
      var node, pos := record[n].node, record[n].pos;
      if node.leaf {
        record := record[..n] + [Record(node, pos + 1)];
        LeafSteps(s, c, t, h, p);
        if pos + 1 < node.numItems {
          return true;
        }
        ok := AscendRight(s, h, c, t);
      } else {
        record := record[..n] + [Record(node, pos + 1)];
        KeyOffsetBefore(t, pos);
        DigLeft(s, h, c, t, pos + 1);
        ok := true;
      }
    }

    /** Leaves nodes upwards until there is a key on the right. */
    method AscendRight(ghost s: Tree<Node>, ghost h: int, ghost c: Ctx<Node>, ghost t: Tree<Node>)
      returns (ok: bool)
      requires Focus(s, c, t, h) && Rep(s) && |record| == |c| + 1 && record[..|c|] == Records(c)
      modifies this
      ensures CtxArity(c)
      ensures var g := |LeftOf(c)| + |InOrder(t)|;
        0 <= g <= |InOrder(s)| && ok == (g < |InOrder(s)|) && record == if ok then PathTo(s, g) else []
    {
      hide *;
      ghost var d, v := c, t;
      AllocT(s);
      FocusParts(s, d, v, h);
      Pop();
      TopHolds(s, d, v, h);
      while record != [] && record[|record|-1].pos == record[|record|-1].node.numItems
        invariant Rep(s) && Focus(s, d, v, h) && record == Records(d) && CtxArity(d)
        invariant |LeftOf(d)| + |InOrder(v)| == |LeftOf(c)| + |InOrder(t)|
        invariant TopRecord(record, d)
        decreases |record|
      {
        TopRecordParts(record, d);
        ghost var u := RightmostParent(s, d, v, h);
        d, v := Up(d), u;
        Pop();
        TopHolds(s, d, v, h);
      }
      TopRecordParts(record, d);
      RightKey(s, d, v, h);
      ok := record != [];
    }

    /** Enters child pos of the last node and follows leftmost children to a leaf. */
    method DigLeft(ghost s: Tree<Node>, ghost h: int, ghost c: Ctx<Node>, ghost t: Tree<Node>, ghost i: nat)
      requires Focus(s, c, t, h) && Rep(s) && t.Inner? && i <= |t.keys|
      requires record == Records(c) + [Record(t.id, i)] && h <= MAX_DEPTH
      modifies this
      ensures CtxArity(c) && Arity(t)
      ensures var g := |LeftOf(c)| + Before(t, i); 0 <= g < |InOrder(s)| && record == PathTo(s, g)
    {
      hide *;
      ghost var d, v, j: nat := c, t, i;
      FocusParts(s, c, t, h);
      AllocT(s);
      var node := record[|record|-1].node;
      while true
        invariant Rep(s) && Focus(s, d, v, h) && v.Inner? && j <= |v.keys|
        invariant record == Records(d) + [Record(v.id, j)] && node == v.id
        invariant CtxArity(d) && Arity(v) && |LeftOf(d)| + Before(v, j) == |LeftOf(c)| + Before(t, i)
        decreases v
      {
        ghost var e, u := ChildDown(s, h, d, v, j);
        node := node.kidSlots[record[|record|-1].pos];
        Push(node, 0);
        d, v, j := e, u, 0;
        BeforeNone(v);
        if node.leaf {
          break;
        }
      }
      KeyOffsetBefore(v, 0);
      CursorPath(s, d, v, h, 0);
    }

    /** Enters child pos of the last node and follows rightmost children to a leaf and its last key. */
    method DigRight(ghost s: Tree<Node>, ghost h: int, ghost c: Ctx<Node>, ghost t: Tree<Node>, ghost i: nat)
      returns (ghost d: Ctx<Node>, ghost v: Tree<Node>)
      requires Focus(s, c, t, h) && Rep(s) && t.Inner? && i < |t.keys|
      requires record == Records(c) + [Record(t.id, i)] && h <= MAX_DEPTH
      modifies this
      ensures CtxArity(c) && Arity(t)
      ensures Focus(s, d, v, h) && v.Leaf? && CtxArity(d)
      ensures record == Records(d) + [Record(v.id, |v.keys| - 1)]
      ensures |LeftOf(d)| + |v.keys| == |LeftOf(c)| + KeyOffset(t, i)
      ensures Dug(d, |c|) && d[|c|] == FrameAt(t, i) && d[..|c|] == c
    {
      hide *;
      d, v := c, t;
      ghost var j: nat := i;
      DigNone(c, t, i);
      FocusParts(s, c, t, h);
      KeyOffsetBefore(t, i);
      AllocT(s);
      var node := record[|record|-1].node;
      while true
        invariant Rep(s) && Focus(s, d, v, h) && v.Inner? && j <= |v.keys| < |v.kids|
        invariant record == Records(d) + [Record(v.id, j)] && node == v.id
        invariant CtxArity(d) && Arity(v)
        invariant |LeftOf(d)| + Before(v, j) + |InOrder(v.kids[j])| == |LeftOf(c)| + KeyOffset(t, i)
        invariant Digging(d, v, j, c, t, i)
        decreases v
      {
        ghost var e, u := ChildDown(s, h, d, v, j);
        DigStep(d, v, j, c, t, i);
        node := node.kidSlots[record[|record|-1].pos];
        Push(node, node.numItems);
        d, v, j := e, u, |u.keys|;
        if node.leaf {
          break;
        }
        LastChild(v);
      }
      DugOf(d, v, j, c, t, i);
      var n := |record| - 1;
      record := record[..n] + [Record(record[n].node, record[n].pos - 1)];
    }

    /** Moves to the key before; false, and an empty path, at the start. */
    method Prev(ghost s: Tree<Node>, ghost h: int, ghost c: Ctx<Node>, ghost t: Tree<Node>,
                ghost p: nat) returns (ok: bool)
      requires At(record, s, c, t, h, p) && Rep(s) && h <= MAX_DEPTH
      modifies this
      ensures CtxArity(c) && Arity(t)
      ensures var g := RankAt(c, t, p);
        0 <= g <= |InOrder(s)| && ok == (g > 0) && record == if ok then PathTo(s, g - 1) else []
    {
      hide *;
      AtParts(record, s, c, t, h, p);
      FocusParts(s, c, t, h);
      FocusRep(s, c, t, h);
      PlugSize(s, c, t);
      AllocT(s);
      if record[|record|-1].node.leaf {
        ghost var d, v, j: nat := c, t, p;
        LeafBefore(t, p);
        while record[|record|-1].pos == 0
          invariant Rep(s) && Focus(s, d, v, h) && record == Records(d) + [Record(v.id, j)] && j <= |v.keys|
          invariant CtxArity(d) && Arity(v) && |LeftOf(d)| + Before(v, j) == RankAt(c, t, p)
          decreases |record|
        {
          BeforeNone(v);
          Pop();
          if record == [] {
            RootLeft(d);
            return false;
          }
          FocusUp(s, d, v, h);
          j := |Top(d).left|;
          FillArity(Top(d), v);
          d, v := Up(d), Fill(Top(d), v);
          FocusParts(s, d, v, h);
        }
        var n := |record| - 1;
        record := record[..n] + [Record(record[n].node, record[n].pos - 1)];
        CursorPath(s, d, v, h, j - 1);
        KeyOffsetBefore(v, j - 1);
        return true;
      }
      ghost var d, v := DigRight(s, h, c, t, p);
      FocusParts(s, d, v, h);
      CursorPath(s, d, v, h, |v.keys| - 1);
      KeyOffsetBefore(v, |v.keys| - 1);
      RankInner(c, t, p);
      ok := true;
    }

    /** The rank of the key the path leads to: for each level, the keys left of the path. */
    method Rank(ghost s: Tree<Node>, ghost h: int, ghost r: nat) returns (rank: int)
      requires Rep(s) && Ok(s, h) && |s.keys| >= 1 && r < |InOrder(s)| && record == PathTo(s, r)
      ensures rank == r
    {
      hide *;
      ghost var c, t, p := PathAt(s, h, r);
      AtParts(record, s, c, t, h, p);
      rank := 0;
      var bound := |record|;
      var i := 0;
      LeftNone(c);
      AllocT(s);
      while i < bound
        invariant Rep(s)
        invariant 0 <= i <= bound && (i <= |c| ==> CtxArity(c[..i]))
        invariant rank == if i <= |c| then |LeftOf(c[..i])| else r
      {
        var node, pos := record[i].node, record[i].pos;
        ghost var u, q := LevelOf(s, h, c, t, p, i);
        RankStep(c, t, p, u, q, i);
        if !node.leaf {
          var delta := if i == bound - 1 then 1 else 0;
          for j := 0 to pos + delta
            invariant rank == |LeftOf(c[..i])| + Total(u.kids[..j])
          {
            OneMore(u.kids, j);
            rank := rank + node.kidSlots[j].TreeCount();
          }
        }
        rank := rank + pos;
        i := i + 1;
      }
    }
  }

  /** The last record of the path of context d, and its node's size in memory. */
  ghost predicate TopRecord(record: seq<Record>, d: Ctx<Node>)
    reads if d == [] then {} else {Top(d).id}
  {
    && |record| == |d|
    && (d != [] ==>
      var f := Top(d); record[|d|-1] == Record(f.id, |f.left|) && f.id.numItems == |f.keys| && FrameArity(f))
  }

  lemma {:induction false} TopRecordParts(record: seq<Record>, d: Ctx<Node>)
    requires TopRecord(record, d)
    ensures record == [] <==> d == []
    ensures d != [] ==> var f := Top(d);
      record[|record|-1] == Record(f.id,
                                   |f.left|) && f.id.numItems == |f.keys| && FrameArity(f) && |f.left| <= |f.keys|
  {
  }

  lemma {:induction false} TopHolds(s: Tree<Node>, d: Ctx<Node>, v: Tree<Node>, h: int)
    requires Focus(s, d, v, h) && Rep(s)
    ensures TopRecord(Records(d), d)
    ensures d != [] ==> Records(d)[..|d|-1] == Records(Up(d))
  {
    if d != [] {
      hide *;
      FocusUp(s, d, v, h);
      FocusRep(s, Up(d), Fill(Top(d), v), h);
      FillArity(Top(d), v);
      RecordsUp(d);
      TopRecordOf(d);
    }
  }

  lemma {:induction false} TopRecordOf(d: Ctx<Node>)
    requires d != [] && FrameArity(Top(d)) && Top(d).id.numItems == |Top(d).keys|
    ensures TopRecord(Records(d), d)
  {
  }

  lemma {:induction false} LeafKeys(t: Tree<Node>)
    ensures forall p :: 0 <= p < |t.keys| ==>
      HoldsKeys(t.id, t.keys) ==> p < |t.id.keySlots| && t.id.keySlots[p] == t.keys[p]
  {
  }

  lemma {:induction false} LeafRank(c: Ctx<Node>, t: Tree<Node>, p: nat)
    requires CtxArity(c) && t.Leaf? && p <= |t.keys|
    ensures RankAt(c, t, p) == |LeftOf(c)| + p
  {
  }

  /** Moving on inside a leaf. */
  lemma {:induction false} LeafSteps(s: Tree<Node>, c: Ctx<Node>, t: Tree<Node>, h: int, p: nat)
    requires Focus(s, c, t, h) && t.Leaf? && p <= |t.keys|
    ensures CtxArity(c) && Arity(t) && |InOrder(t)| == |t.keys| && RankAt(c, t, p) == |LeftOf(c)| + p
    ensures p + 1 < |t.keys| ==>
      |LeftOf(c)| + p + 1 < |InOrder(s)| && PathTo(s, |LeftOf(c)| + p + 1) == Records(c) + [Record(t.id, p + 1)]
  {
    hide *;
    FocusParts(s, c, t, h);
    LeafRank(c, t, p);
    if p + 1 < |t.keys| {
      CursorPath(s, c, t, h, p + 1);
      KeyOffsetBefore(t, p + 1);
    }
  }

  /** A rightmost child ends where its parent does. */
  lemma {:induction false} RightmostUp(d: Ctx<Node>, v: Tree<Node>)
    requires d != [] && FrameArity(Top(d)) && |Top(d).left| == |Top(d).keys| && CtxArity(d) && CtxArity(Up(d))
    ensures |LeftOf(Up(d))| + |InOrder(Fill(Top(d), v))| == |LeftOf(d)| + |InOrder(v)|
  {
    FillInOrder(Top(d), v);
  }

  lemma {:induction false} RightmostParent(s: Tree<Node>, d: Ctx<Node>, v: Tree<Node>, h: int)
    returns (u: Tree<Node>)
    requires Focus(s, d, v, h) && d != [] && |Top(d).left| == |Top(d).keys| && CtxArity(d)
    ensures Focus(s, Up(d), u, h) && CtxArity(Up(d))
    ensures |LeftOf(Up(d))| + |InOrder(u)| == |LeftOf(d)| + |InOrder(v)|
    ensures Records(d)[..|Records(d)|-1] == Records(Up(d))
  {
    hide *;
    FocusUp(s, d, v, h);
    u := Fill(Top(d), v);
    FocusParts(s, Up(d), u, h);
    RightmostUp(d, v);
    assert |Records(d)| == |Records(Up(d))| + 1;
  }

  /** The key after a finished subtree is the separator after it, or there is none. */
  lemma {:induction false} RightKey(s: Tree<Node>, d: Ctx<Node>, v: Tree<Node>, h: int)
    requires Focus(s, d, v, h)
    ensures CtxArity(d) && (d != [] ==> FrameArity(Top(d)))
    ensures var g := |LeftOf(d)| + |InOrder(v)|;
      && 0 <= g <= |InOrder(s)| && (d == [] ==> g == |InOrder(s)|)
      && (d != [] && |Top(d).left| < |Top(d).keys| ==> g < |InOrder(s)| && PathTo(s, g) == Records(d))
  {
    hide *;
    FocusParts(s, d, v, h);
    PlugSize(s, d, v);
    if d != [] {
      FocusUp(s, d, v, h);
      var u := Fill(Top(d), v);
      FillArity(Top(d), v);
      if |Top(d).left| < |Top(d).keys| {
        CursorPath(s, Up(d), u, h, |Top(d).left|);
        KeyOffsetBefore(u, |Top(d).left|);
      }
    } else {
      RootSize(s, d, v);
    }
  }

  lemma {:induction false} PlugSize(s: Tree<Node>, d: Ctx<Node>, v: Tree<Node>)
    requires CtxArity(d) && Plug(d, v) == s
    ensures |InOrder(s)| == |LeftOf(d)| + |InOrder(v)| + |RightOf(d)|
  {
    PlugInOrder(d, v);
  }

  lemma {:induction false} RootSize(s: Tree<Node>, d: Ctx<Node>, v: Tree<Node>)
    requires d == [] && Plug(d, v) == s
    ensures |LeftOf(d)| + |InOrder(v)| == |InOrder(s)|
  {
  }

  lemma {:induction false} BeforeNone(t: Tree<Node>)
    requires Arity(t)
    ensures Before(t, 0) == 0
  {
  }

  /** The frames after number n were entered by their rightmost child. */
  ghost predicate Dug(d: Ctx<Node>, n: nat) {
    n < |d| && forall k :: n < k < |d| ==> d[k].right == [] && FrameArity(d[k])
  }

  ghost predicate Digging(d: Ctx<Node>, v: Tree<Node>, j: nat, c: Ctx<Node>, t: Tree<Node>, i: nat)
  {
    if d == c then v == t && j == i
    else j == |v.keys| && t.Inner? && i < |t.kids| && Dug(d, |c|) && d[|c|] == FrameAt(t, i) && d[..|c|] == c
  }

  lemma {:induction false} DigNone(c: Ctx<Node>, t: Tree<Node>, i: nat)
    ensures Digging(c, t, i, c, t, i)
  {
  }

  lemma {:induction false} DigStep(d: Ctx<Node>, v: Tree<Node>, j: nat, c: Ctx<Node>, t: Tree<Node>, i: nat)
    requires Digging(d, v, j, c, t, i) && v.Inner? && j < |v.kids| == |v.keys| + 1 && t.Inner? && i < |t.kids|
    ensures var e, u := d + [FrameAt(v, j)], v.kids[j]; Digging(e, u, |u.keys|, c, t, i)
  {
    var e := d + [FrameAt(v, j)];
    if d != c {
      assert e[|c|] == d[|c|] && e[..|c|] == d[..|c|];
    }
  }

  lemma {:induction false} DugOf(d: Ctx<Node>, v: Tree<Node>, j: nat, c: Ctx<Node>, t: Tree<Node>, i: nat)
    requires Digging(d, v, j, c, t, i) && v.Leaf? && t.Inner?
    ensures j == |v.keys| && i < |t.kids| && Dug(d, |c|) && d[|c|] == FrameAt(t, i) && d[..|c|] == c
  {
  }

  lemma {:induction false} LeafBefore(t: Tree<Node>, p: nat)
    requires Arity(t) && p <= |t.keys|
    ensures t.Leaf? ==> Before(t, p) == p
  {
  }

  lemma {:induction false} RootLeft(d: Ctx<Node>)
    requires Records(d) == []
    ensures d == [] && CtxArity(d) && LeftOf(d) == []
  {
    assert |Records(d)| == |d|;
  }

  lemma {:induction false} RankInner(c: Ctx<Node>, t: Tree<Node>, p: nat)
    requires CtxArity(c) && Arity(t) && t.Inner? && p < |t.keys|
    ensures RankAt(c, t, p) == |LeftOf(c)| + KeyOffset(t, p)
  {
  }

  /** The node of frame number i, in its place. */
  lemma {:induction false} FrameLevel(s: Tree<Node>, h: int, c: Ctx<Node>, t: Tree<Node>, i: nat)
    returns (u: Tree<Node>)
    requires Focus(s, c, t, h) && i < |c|
    ensures Focus(s, c[..i], u, h) && u.Inner? && u.id == c[i].id && Arity(u) && |u.kids| == |u.keys| + 1
    ensures |c[i].left| <= |u.keys|
    ensures CtxArity(c[..i]) && CtxArity(c[..i+1])
    ensures |LeftOf(c[..i+1])| == |LeftOf(c[..i])| + Before(u, |c[i].left|)
    decreases |c|
  {
    hide *;
    FocusParts(s, c, t, h);
    FocusUp(s, c, t, h);
    var v := Fill(Top(c), t);
    FillArity(Top(c), t);
    FocusParts(s, Up(c), v, h);
    TopOf(c);
    if i == |c| - 1 {
      assert c[..i+1] == c;
      u := v;
    } else {
      u := FrameLevel(s, h, Up(c), v, i);
      assert Up(c)[..i] == c[..i] && Up(c)[..i+1] == c[..i+1] && Up(c)[i] == c[i];
    }
  }

  /** Level i of a position: the node there and the child or key taken. */
  lemma {:induction false} LevelOf(s: Tree<Node>, h: int, c: Ctx<Node>, t: Tree<Node>, p: nat, i: nat)
    returns (u: Tree<Node>, q: nat)
    requires Focus(s, c, t, h) && Rep(s) && i <= |c| && p < |t.keys|
    ensures CtxArity(c) && CtxArity(c[..i]) && Arity(u) && q <= |u.keys|
    ensures var rec := Records(c) + [Record(t.id, p)]; |rec| == |c| + 1 && rec[i] == Record(u.id, q)
    ensures Focus(s, c[..i], u, h) && u.id.leaf == u.Leaf?
    ensures i < |c| ==> u.Inner? && CtxArity(c[..i+1]) && |LeftOf(c[..i+1])| == |LeftOf(c[..i])| + Before(u, q)
    ensures i == |c| ==> u == t && q == p && c[..i] == c
    ensures u.Inner? ==> |u.kids| == |u.keys| + 1 <= |u.id.kidSlots|
    ensures u.Inner? ==>
      forall k :: 0 <= k < |u.kids| ==>
        u.id.kidSlots[k] == u.kids[k].id && u.kids[k].id.TreeCount() == |InOrder(u.kids[k])|
  {
    hide *;
    FocusParts(s, c, t, h);
    if i == |c| {
      u, q := t, p;
      assert c[..i] == c;
    } else {
      u := FrameLevel(s, h, c, t, i);
      q := |c[i].left|;
    }
    FocusRep(s, c[..i], u, h);
  }

  lemma {:induction false} OneMore(kids: seq<Tree<Node>>, j: nat)
    requires j < |kids|
    ensures Total(kids[..j+1]) == Total(kids[..j]) + |InOrder(kids[j])|
    ensures Total(kids[..0]) == 0
  {
    assert kids[..j+1] == kids[..j] + [kids[j]];
    TotalConcat(kids[..j], [kids[j]]);
  }

  lemma {:induction false} LeftNone(c: Ctx<Node>)
    requires CtxArity(c)
    ensures c[..0] == [] && CtxArity(c[..0]) && LeftOf(c[..0]) == []
  {
  }

  /** What Rank adds at level i. */
  lemma {:induction false} RankStep(c: Ctx<Node>, t: Tree<Node>, p: nat, u: Tree<Node>, q: nat, i: nat)
    requires i <= |c| && CtxArity(c) && Arity(t) && Arity(u) && p < |t.keys| && q <= |u.keys|
    requires i == |c| ==> u == t && q == p
    ensures u.Inner? ==> Before(u, q) == Total(u.kids[..q]) + q && u.kids[..0] == [] && Total(u.kids[..0]) == 0
    ensures i == |c| ==> RankAt(c, t, p) == |LeftOf(c)| + if u.Leaf? then q else Total(u.kids[..q+1]) + q
  {
  }

  lemma {:induction false} RecordsLen(c: Ctx<Node>)
    ensures |Records(c)| == |c|
  {
  }

  /** Next and Prev undo each other, except at the ends. */
  method ThereAndBack(path: Path, back: bool, ghost s: Tree<Node>, ghost h: int, ghost r: nat)
    requires Rep(s) && Ok(s, h) && |s.keys| >= 1 && h <= MAX_DEPTH && path.record == PathTo(s, r)
    requires if back then 0 < r < |InOrder(s)| else r + 1 < |InOrder(s)|
    modifies path
    ensures path.record == PathTo(s, r)
  {
    hide *;
    ghost var c, t, p := PathAt(s, h, r);
    AllocT(s);
    var ok;
    if back {
      ok := path.Prev(s, h, c, t, p);
      c, t, p := PathAt(s, h, r - 1);
      ok := path.Next(s, h, c, t, p);
    } else {
      ok := path.Next(s, h, c, t, p);
      c, t, p := PathAt(s, h, r + 1);
      ok := path.Prev(s, h, c, t, p);
    }
  }
}
