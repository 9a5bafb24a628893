/** The counted B-tree (src/zset/bplustree.hpp). */
module BTree {
  import opened Keys
  import opened Sequences
  import opened Shape
  import opened Siblings
  import opened Contexts
  import opened Order
  import opened BPNode
  import opened Paths
  import opened Cursors
  import opened Ancestors
  import opened Insertion
  import opened Deletion
  import opened Clearing
  import Height

  /** A resting tree: linked as t says, no node shared, exact counts, equal leaf depth, occupancy, order. */
  ghost predicate Good(t: Tree<Node>, h: int)
    reads Nodes(t)
  {
    Rep(t) && Distinct(Nodes(t)) && Ok(t, h) && |t.keys| >= 1 && Sorted(InOrder(t)) && |InOrder(t)| < U32_LIMIT
  }

  /** A search for q has come down through c to t. */
  ghost predicate Descending(s: Tree<Node>, c: Ctx<Node>, t: Tree<Node>, h: int, q: Key) {
    Focus(s, c, t, h) && Sorted(InOrder(t)) && Below(LeftOf(c), q) && Above(q, RightOf(c))
  }

  /** Where a search for q ends: at q, or at the slot of a leaf where q belongs. */
  ghost predicate Found(t: Tree<Node>, pos: nat, q: Key, found: bool) {
    && (found ==> pos < |t.keys| && t.keys[pos] == q)
    && (!found ==> t.Leaf? && pos <= |t.keys| && Below(t.keys[..pos], q) && Above(q, t.keys[pos..]))
  }

  lemma {:induction false} DescendStart(s: Tree<Node>, h: int, q: Key)
    requires Good(s, h)
    ensures Descending(s, [], s, h, q) && Rep(s) && 1 <= h <= 14
  {
    Height.HeightBound(s, h);
  }

  lemma {:induction false} DescendFields(s: Tree<Node>, c: Ctx<Node>, t: Tree<Node>, h: int, q: Key)
    requires Descending(s, c, t, h, q) && Rep(t)
    ensures HoldsKeys(t.id, t.keys) && t.id.leaf == t.Leaf? && Sorted(t.keys) && t.keys != [] && |c| < h
    ensures t.Inner? ==> |t.kids| == |t.keys| + 1 <= |t.id.kidSlots|
    ensures t.Inner? ==> forall i :: 0 <= i < |t.kids| ==> t.id.kidSlots[i] == t.kids[i].id
  {
    assert Body(t, h - |c|);
    KeysSorted(t);
    if t.Inner? {
      assert forall i :: 0 <= i < |t.kids| ==> Ids(t.kids)[i] == t.kids[i].id;
    }
  }

  lemma {:induction false} DescendStep(s: Tree<Node>, c: Ctx<Node>, t: Tree<Node>, h: int, q: Key, i: nat)
    requires Descending(s, c, t, h, q) && Rep(t) && t.Inner? && i <= |t.keys| && i < |t.kids|
    requires Below(t.keys[..i], q) && Above(q, t.keys[i..])
    ensures Descending(s, c + [FrameAt(t, i)], t.kids[i], h, q) && Rep(t.kids[i])
  {
    hide *;
    DescendParts(s, c, t, h, q);
    RepKid(t, i);
    var d, u := c + [FrameAt(t, i)], t.kids[i];
    PlugStep(c, t, i);
    OkCtxStep(c, t, h - |c|, i);
    FilledKeys(u);
    DescendOrder(c, t, h - |c|, q, i);
    DescendMake(s, d, u, h, q);
  }

  lemma {:induction false} DescendParts(s: Tree<Node>, c: Ctx<Node>, t: Tree<Node>, h: int, q: Key)
    requires Descending(s, c, t, h, q)
    ensures Plug(c, t) == s && OkCtx(c, h - |c|, |InOrder(t)|) && CtxArity(c) && Ok(t, h - |c|)
    ensures c != [] ==> Filled(t)
    ensures |t.keys| >= 1 && Sorted(InOrder(t)) && Below(LeftOf(c), q) && Above(q, RightOf(c))
    ensures Body(t, h - |c|)
  {
  }

  lemma {:induction false} DescendMake(s: Tree<Node>, c: Ctx<Node>, t: Tree<Node>, h: int, q: Key)
    requires Plug(c, t) == s && OkCtx(c, h - |c|, |InOrder(t)|) && CtxArity(c) && Ok(t, h - |c|)
    requires c != [] ==> Filled(t)
    requires |t.keys| >= 1 && Sorted(InOrder(t)) && Below(LeftOf(c), q) && Above(q, RightOf(c))
    ensures Descending(s, c, t, h, q)
  {
  }

  lemma {:induction false} RepKid(t: Tree<Node>, i: nat)
    requires Rep(t) && t.Inner? && i < |t.kids|
    ensures Rep(t.kids[i])
  {
    RepAt(t.kids, i);
  }

  lemma {:induction false} DescendOrder(c: Ctx<Node>, t: Tree<Node>, h: int, q: Key, i: nat)
    requires CtxArity(c) && Body(t, h) && t.Inner? && i <= |t.keys| && i < |t.kids|
    requires Sorted(InOrder(t)) && Below(LeftOf(c), q) && Above(q, RightOf(c))
    requires Below(t.keys[..i], q) && Above(q, t.keys[i..])
    ensures var d := c + [FrameAt(t, i)];
      CtxArity(d) && Below(LeftOf(d), q) && Above(q, RightOf(d)) && Sorted(InOrder(t.kids[i]))
  {
    var f := FrameAt(t, i);
    var d := c + [f];
    SearchStep(t, i, q);
    assert d[..|c|] == c && d[|c|] == f;
    hide FrameLeft, FrameRight;
    BelowConcat(LeftOf(c), FrameLeft(f), q);
    AboveConcat(q, FrameRight(f), RightOf(c));
  }

  lemma {:induction false} BelowConcat(a: seq<Key>, b: seq<Key>, q: Key)
    ensures Below(a + b, q) <==> Below(a, q) && Below(b, q)
  {
    assert forall i :: 0 <= i < |a| ==> (a + b)[i] == a[i];
    assert forall i :: 0 <= i < |b| ==> (a + b)[|a| + i] == b[i];
  }

  lemma {:induction false} AboveConcat(q: Key, a: seq<Key>, b: seq<Key>)
    ensures Above(q, a + b) <==> Above(q, a) && Above(q, b)
  {
    assert forall i :: 0 <= i < |a| ==> (a + b)[i] == a[i];
    assert forall i :: 0 <= i < |b| ==> (a + b)[|a| + i] == b[i];
  }

  class BPTree {
    var root: Node?
    var count: u32
    var height: int
    var numNodes: int
    ghost var shape: Option<Tree<Node>>
    ghost var freed: seq<Node>    // the nodes given back so far: only DestroyNode adds to it

    constructor ()
      ensures Valid() && Contents() == [] && Repr() == multiset{} && freed == []
    {
      root, count, height, numNodes := null, 0, 0, 0;
      shape, freed := None, [];
    }

    ghost function Repr(): multiset<Node>
      reads this
    {
      if shape.Some? then Nodes(shape.value) else multiset{}
    }

    ghost predicate Valid()
      reads this, Repr()
    {
      match shape
      case None => root == null && count == 0 && height == 0 && numNodes == 0
      case Some(t) => root == t.id && Good(t, height) && count == |InOrder(t)| && numNodes == |Nodes(t)|
    }

    /** The keys of the tree, in order. */
    ghost function Contents(): seq<Key>
      reads this
    {
      if shape.Some? then InOrder(shape.value) else []
    }

    method Locate(q: Key, path: Path) returns (found: bool, ghost c: Ctx<Node>, ghost t: Tree<Node>)
      requires Valid() && root != null && path.record == []
      modifies path
      ensures shape.Some? && Descending(shape.value, c, t, height, q) && |c| < height <= 14
      ensures path.record != [] && path.record == Records(c) + [Record(t.id, path.Last().pos)]
      ensures Found(t, path.Last().pos, q, found)
    {
      hide Rep, Good, Descending, Records, Nodes, InOrder, FrameAt, Ok, Distinct;
      ghost var s := shape.value;
      DescendStart(s, height, q);
      var node := root;
      c, t := [], s;
      assert Records([]) == [];
      while true
        invariant node == t.id && Rep(t) && Descending(s, c, t, height, q)
        invariant path.record == Records(c)
        decreases t
      {
        AllocT(t);
        DescendFields(s, c, t, height, q);
        var index, found := node.BSearch(q, t.keys);
        path.Push(node, index);
        if found {
          return true, c, t;
        }
        if node.leaf {
          return false, c, t;
        }
        node := node.kidSlots[index];
        DescendStep(s, c, t, height, q, index);
        RecordsDown(c, t, index);
        c, t := c + [FrameAt(t, index)], t.kids[index];
      }
    }

    /** Only for a tree that is not empty: Locate asserts that there is a root. */
    method Contains(item: Key) returns (found: bool)
      requires Valid() && root != null
      ensures found == (item in Contents())
    {
      hide *;
      ValidParts();
      ghost var s := shape.value;
      var path := new Path();
      ValidOf(s);
      ghost var c, t;
      found, c, t := Locate(item, path);
      Located(s, c, t, height, item, path.record, found);
    }

    method GetRank(item: Key, reverse: bool) returns (rank: Option<int>)
      requires Valid()
      ensures rank.Some? <==> item in Contents()
      ensures rank.Some? ==>
        && 0 <= rank.value < |Contents()|
        && Contents()[if reverse then |Contents()| - 1 - rank.value else rank.value] == item
    {
      hide *;
      ValidParts();
      if root == null {
        return None;
      }
      ghost var s := shape.value;
      var path := new Path();
      ValidOf(s);
      var found, c, t := Locate(item, path);
      Located(s, c, t, height, item, path.record, found);
      if !found {
        return None;
      }
      GoodParts(s, height);
      var forward := path.Rank(s, height, LowerBound(Contents(), item));
      return Some(if reverse then count - forward - 1 else forward);
    }

    /** The path to the key of the given rank. */
    method ToRank(rank: u32, path: Path)
      requires Valid() && rank < count && path.record == []
      modifies path
      ensures shape.Some? && path.record == PathTo(shape.value, rank)
    {
      hide *;
      ValidParts();
      ghost var s := shape.value;
      DescendRoot(s, height);
      if rank + 1 == count {
        ToLast(path);
        return;
      }
      var node, left: int := root, rank;
      ghost var c, t := [], s;
      AllocT(s);
      while !node.leaf
        invariant node == t.id && node.leaf == t.Leaf? && Rep(s) && Focus(s, c, t, height)
        invariant path.record == Records(c) && CtxArity(c)
        invariant 0 <= left < |InOrder(t)| && |LeftOf(c)| + left == rank
        decreases t
      {
        var i, rest, separator := 0, 0, false;
        if left > 0 {
          i, rest, separator := PickChild(node, left, s, c, t);
        } else {
          FirstChild(s, height, c, t);
        }
        ghost var d, u := ChildDown(s, height, c, t, i);
        path.Push(node, i);
        if separator {
          CursorPath(s, c, t, height, i);
          return;
        }
        left := rest;
        node := node.kidSlots[i];
        c, t := d, u;
      }
      FocusParts(s, c, t, height);
      CursorPath(s, c, t, height, left);
      KeyOffsetBefore(t, left);
      path.Push(node, left);
    }

    /** The child of an inner node that rank falls into, or the separator that has it (bplustree.hpp:479-493). */
    method PickChild(node: Node, rank: int, ghost s: Tree<Node>, ghost c: Ctx<Node>, ghost t: Tree<Node>)
      returns (i: nat, rest: int, separator: bool)
      requires node == t.id && Rep(s) && Focus(s, c, t, height) && t.Inner? && 0 < rank < |InOrder(t)|
      ensures Arity(t) && i <= |t.keys| && |t.kids| == |t.keys| + 1
      ensures separator ==> i < |t.keys| && KeyOffset(t, i) == rank
      ensures !separator ==> 0 <= rest < |InOrder(t.kids[i])| && Before(t, i) + rest == rank
    {
      hide *;
      FocusParts(s, c, t, height);
      FocusRep(s, c, t, height);
      LastChild(t);
      BeforeNone(t);
      i, rest, separator := 0, rank, false;
      while true
        invariant i <= |t.keys| && 0 <= rest && Before(t, i) + rest == rank
        decreases |t.keys| - i
      {
        var subtreeCnt := node.kidSlots[i].TreeCount();
        if subtreeCnt > rest {
          return;
        }
        KeyOffsetBefore(t, i);
        rest := rest - subtreeCnt;
        if rest == 0 {
          separator := true;
          return;
        }
        rest := rest - 1;
        i := i + 1;
      }
    }

    /** The last key, without counting. */
    method ToLast(path: Path)
      requires Valid() && root != null && path.record == []
      modifies path
      ensures shape.Some? && InOrder(shape.value) != []
      ensures path.record == PathTo(shape.value, |InOrder(shape.value)| - 1)
    {
      hide *;
      ValidParts();
      ghost var s := shape.value;
      DescendRoot(s, height);
      var node := root;
      ghost var c, t := [], s;
      AllocT(s);
      while !node.leaf
        invariant node == t.id && node.leaf == t.Leaf? && Rep(s) && Focus(s, c, t, height)
        invariant path.record == Records(c) && CtxArity(c)
        invariant |LeftOf(c)| + |InOrder(t)| == |InOrder(s)|
        decreases t
      {
        ghost var d, u := LastDown(s, height, c, t);
        path.Push(node, node.numItems);
        node := node.kidSlots[node.numItems];
        c, t := d, u;
      }
      FocusParts(s, c, t, height);
      FocusRep(s, c, t, height);
      CursorPath(s, c, t, height, |t.keys| - 1);
      KeyOffsetBefore(t, |t.keys| - 1);
      path.Push(node, node.numItems - 1);
    }

    method FromRank(rank: u32) returns (path: Path)
      requires Valid() && rank < count
      ensures fresh(path) && shape.Some? && path.record == PathTo(shape.value, rank)
    {
      hide *;
      ValidParts();
      path := new Path();
      if shape.Some? { ValidOf(shape.value); }
      ToRank(rank, path);
    }

    /** The path to the least key that is at least q; empty if there is none. */
    method GEQ(q: Key) returns (path: Path)
      requires Valid() && root != null
      ensures fresh(path) && shape.Some?
      ensures var i := LowerBound(Contents(), q);
        path.record == if i < |Contents()| then PathTo(shape.value, i) else []
    {
      hide *;
      ValidParts();
      ghost var s := shape.value;
      path := new Path();
      ValidOf(s);
      var res, c, t := Locate(q, path);
      Located(s, c, t, height, q, path.record, res);
      GoodParts(s, height);
      ghost var p := path.record[|path.record|-1].pos;
      AtParts(path.record, s, c, t, height, p);
      FocusRep(s, c, t, height);
      MaxDepth();
      var last := path.record[|path.record|-1];
      if !res && last.pos >= last.node.numItems {
        res := path.Next(s, height, c, t, p);
      } else {
        AtRank(path.record, s, c, t, height, p);
      }
    }

    /** The path to the greatest key that is at most q; empty if there is none. */
    method LEQ(q: Key) returns (path: Path)
      requires Valid() && root != null
      ensures fresh(path) && shape.Some?
      ensures var i := LowerBound(Contents(), q) - if q in Contents() then 0 else 1;
        path.record == if i >= 0 then PathTo(shape.value, i) else []
    {
      hide *;
      ValidParts();
      ghost var s := shape.value;
      path := new Path();
      ValidOf(s);
      var res, c, t := Locate(q, path);
      Located(s, c, t, height, q, path.record, res);
      GoodParts(s, height);
      ghost var p := path.record[|path.record|-1].pos;
      AtParts(path.record, s, c, t, height, p);
      MaxDepth();
      if !res {
        res := path.Prev(s, height, c, t, p);
      } else {
        AtRank(path.record, s, c, t, height, p);
      }
    }

    /** Hands the keys of ranks rankStart to rankEnd to cb until it refuses one; visited are the keys handed over. */
    method Iterate(rankStart: u32, rankEnd: u32, cb: Key -> bool) returns (ok: bool, visited: seq<Key>)
      requires Valid() && (rankStart < count ==> rankStart <= rankEnd)
      ensures Handed(Range(Contents(), rankStart, rankEnd), cb, visited, ok)
    {
      hide *;
      ValidParts();
      ghost var all := Range(Contents(), rankStart, rankEnd);
      RangeParts(Contents(), rankStart, rankEnd);
      HandingNone(all, cb);
      visited := [];
      if rankStart >= count {
        HandedAll(all, cb, visited);
        return true, visited;
      }
      ghost var s := shape.value;
      DescendRoot(s, height);
      MaxDepth();
      var path := FromRank(rankStart);
      AllocT(s);
      var i: int := rankStart;
      while i <= rankEnd
        invariant Rep(s) && rankStart <= i <= rankEnd + 1 && Handing(all, i - rankStart, cb, visited)
        invariant i <= rankEnd ==> i < |InOrder(s)| && path.record == PathTo(s, i)
        invariant i > rankEnd ==> i - rankStart == |all|
      {
        ghost var c, t, p := PathAt(s, height, i);
        var key := path.Terminal(s, height, i);
        HandingStep(all, i - rankStart, cb, visited);
        visited := visited + [key];
        if !cb(key) {
          return false, visited;
        }
        var more := path.Next(s, height, c, t, p);
        if !more {
          HandedAll(all, cb, visited);
          return true, visited;
        }
        i := i + 1;
      }
      HandedAll(all, cb, visited);
      return true, visited;
    }

    /** The same from the other end. */
    method IterateReverse(rankStart: u32, rankEnd: u32, cb: Key -> bool) returns (ok: bool, visited: seq<Key>)
      requires Valid() && rankStart <= rankEnd < count
      ensures Handed(RangeReverse(Contents(), rankStart, rankEnd), cb, visited, ok)
    {
      hide *;
      ValidParts();
      ghost var all := RangeReverse(Contents(), rankStart, rankEnd);
      RangeReverseParts(Contents(), rankStart, rankEnd);
      HandingNone(all, cb);
      visited := [];
      ghost var s := shape.value;
      DescendRoot(s, height);
      MaxDepth();
      var path := FromRank(count - 1 - rankStart);
      AllocT(s);
      var i: int := rankStart;
      while i <= rankEnd
        invariant Rep(s) && rankStart <= i <= rankEnd + 1 && Handing(all, i - rankStart, cb, visited)
        invariant i < count ==> path.record == PathTo(s, count - 1 - i)
      {
        ghost var r := count - 1 - i;
        ghost var c, t, p := PathAt(s, height, r);
        var key := path.Terminal(s, height, r);
        HandingStep(all, i - rankStart, cb, visited);
        visited := visited + [key];
        if !cb(key) {
          return false, visited;
        }
        var more := path.Prev(s, height, c, t, p);
        i := i + 1;
      }
      HandedAll(all, cb, visited);
      return true, visited;
    }

    method CreateNode(leaf: bool) returns (node: Node)
      modifies this`numNodes
      ensures fresh(node) && node.leaf == leaf && HoldsKeys(node, []) && |node.kidSlots| == MAX_INNER_KEYS + 1
      ensures numNodes == old(numNodes) + 1
    {
      numNodes := numNodes + 1;
      node := new Node(leaf);
    }

    /** Adds item unless it is there already. */
    method Insert(item: Key) returns (inserted: bool)
      requires Valid() && |Contents()| + 1 < U32_LIMIT
      modifies this, set n | n in Repr()
      ensures Valid() && forall n :: n in Repr() ==> n in old(Repr()) || fresh(n)
      ensures inserted == (item !in old(Contents())) && freed == old(freed) && old(Repr()) <= Repr()
      ensures Contents() ==
        if inserted then InsertAt(old(Contents()), LowerBound(old(Contents()), item), item) else old(Contents())
    {
      hide *;
      ValidParts();
      if root == null {
        InsertFirst(item);
        return true;
      }
      ghost var s := shape.value;
      var path := new Path();
      ValidOf(s);
      var found, c, t := Locate(item, path);
      ghost var pos := path.Last().pos;
      if found {
        FoundIn(s, c, t, height, item, pos);
        return false;
      }
      ghost var target := InsertAt(Contents(), LowerBound(Contents(), item), item);
      LocatedLeaf(s, c, t, height, item, pos);
      ghost var whole, news := InsertAtLeaf(item, path, c, t, pos, target);
      shape := Some(whole);
      count := count + 1;
      GoodOf(whole, height, target);
      ValidOf(whole);
      return true;
    }

    /** What Valid says, with the facts needed to frame it. */
    lemma {:induction false} ValidParts()
      requires Valid()
      ensures root == null <==> shape.None?
      ensures root == null ==> Contents() == [] && Repr() == multiset{} && count == 0 && height == 0 && numNodes == 0
      ensures root != null ==>
        var t := shape.value;
        && root == t.id && Good(t, height) && count == |InOrder(t)| && numNodes == |Nodes(t)|
        && Contents() == InOrder(t) && Repr() == Nodes(t)
      ensures |Contents()| == count < U32_LIMIT && (count == 0 <==> root == null)
      ensures forall n :: n in Repr() ==> allocated(n)
    {
      if shape.Some? {
        AllocT(shape.value);
        DescendRoot(shape.value, height);
      }
    }

    lemma {:induction false} NoTree()
      requires shape.None? && root == null && count == 0 && height == 0 && numNodes == 0
      ensures Valid() && Contents() == [] && Repr() == multiset{}
    {
    }

    lemma {:induction false} ValidOf(t: Tree<Node>)
      requires shape == Some(t) && root == t.id && Good(t, height) && count == |InOrder(t)|
      requires numNodes == |Nodes(t)|
      ensures Valid() && Contents() == InOrder(t) && Repr() == Nodes(t)
    {
    }

    /** The node's memory is given back: nothing is known about it afterwards. */
    method DestroyNode(node: Node)
      modifies node, this`numNodes, this`freed
      ensures numNodes == old(numNodes) - 1 && freed == old(freed) + [node]
    {
      freed := freed + [node];
      node.numItems, node.keySlots, node.kidSlots, node.treeCount := *, *, *, *;
      numNodes := numNodes - 1;
    }

    /** Removes item if it is there. */
    method Delete(item: Key) returns (deleted: bool)
      requires Valid()
      modifies this, set n | n in Repr()
      ensures Valid() && forall n :: n in Repr() ==> n in old(Repr())
      ensures GaveBack(old(freed), freed, old(Repr()), Repr())
      ensures deleted == (item in old(Contents()))
      ensures deleted ==> LowerBound(old(Contents()), item) < |old(Contents())|
      ensures Contents() ==
        if deleted then RemoveAt(old(Contents()), LowerBound(old(Contents()), item)) else old(Contents())
    {
      hide *;
      ValidParts();
      GaveBackNone(freed, Repr());
      if root == null {
        return false;
      }
      ghost var s := shape.value;
      var path := new Path();
      ValidOf(s);
      var found, c, t := Locate(item, path);
      Located(s, c, t, height, item, path.record, found);
      if !found {
        return false;
      }
      DeletePath(path, LowerBound(InOrder(s), item));
      return true;
    }

    /** Removes the key that path leads to. */
    method DeletePath(path: Path, ghost r: nat)
      requires Valid() && shape.Some? && r < |Contents()| && path.record == PathTo(shape.value, r)
      modifies this, path, set n | n in Repr()
      ensures Valid() && Contents() == RemoveAt(old(Contents()), r)
      ensures forall n :: n in Repr() ==> n in old(Repr())
      ensures GaveBack(old(freed), freed, old(Repr()), Repr())
    {
      hide *;
      ValidParts();
      ghost var s := shape.value;
      DescendRoot(s, height);
      GoodParts(s, height);
      MaxDepth();
      ghost var c, t := RemoveKey(path, s, height, r);
      Removed(InOrder(s), r);
      count := count - 1;
      shape := RepairUp(path, c, t, RemoveAt(InOrder(s), r), Nodes(s));
      if shape.None? {
        NoTree();
        NodesOfSome(s);
      } else {
        NodesOfSome(shape.value);
        GoodOf(shape.value, height, RemoveAt(InOrder(s), r));
        ValidOf(shape.value);
      }
    }

    /** Up the path, while the node is short: merge or rebalance it through its parent. */
    method RepairUp(path: Path, ghost c: Ctx<Node>, ghost leaf: Tree<Node>, ghost target: seq<Key>,
                    ghost nodes: multiset<Node>)
      returns (ghost s: Option<Tree<Node>>)
      requires Lowered(c, leaf, 1, target) && PendingMem(c, leaf) && leaf.Leaf?
      requires |path.record| == |c| + 1 && path.record[..|c|] == Records(c)
      requires path.record[|c|].node == leaf.id
      requires root == RootId(c, leaf.id) && height == |c| + 1
      requires NodesC(c) + Nodes(leaf) == nodes && numNodes == |nodes|
      modifies this`root, this`height, this`numNodes, this`freed, path, set n | n in nodes
      ensures s.None? ==> target == [] && root == null && height == 0 && numNodes == 0
      ensures s.Some? ==> Whole(s.value, height, target) && root == s.value.id && numNodes == |Nodes(s.value)|
      ensures s.Some? ==> forall n :: n in Nodes(s.value) ==> n in nodes
      ensures GaveBack(old(freed), freed, nodes, NodesOf(s))
    {
      hide *;
      var node := path.record[|path.record|-1].node;
      ghost var d, t, h := c, leaf, 1;
      GaveBackNone(freed, nodes);
      while node.numItems < node.MinItems()
        invariant node == t.id && Lowered(d, t, h, target) && PendingMem(d, t)
        invariant |path.record| == |d| + 1 && path.record[..|d|] == Records(d)
        invariant path.record[|d|].node == t.id
        invariant root == RootId(d, t.id) && height == |d| + h
        invariant numNodes == |NodesC(d) + Nodes(t)| && forall n :: n in NodesC(d) + Nodes(t) ==> n in nodes
        invariant GaveBack(old(freed), freed, nodes, NodesC(d) + Nodes(t))
        decreases |d|
      {
        ShortParts(d, t, h, target);
        TopOnly(d, t);
        if node == root {
          ghost var given := freed;
          s := CollapseRoot(node, t, h, target, nodes);
          GaveBackBoth(old(freed), given, freed, nodes, Nodes(t), NodesOf(s));
          return;
        }
        ghost var given := freed;
        var retired, u := RepairNext(path, d, t, h, target, nodes);
        GaveBackBoth(old(freed), given, freed, nodes, NodesC(d) + Nodes(t), NodesC(Up(d)) + Nodes(u));
        d, t, h := Up(d), u, h + 1;
        if retired == null {
          break;
        }
        node := path.record[|path.record|-1].node;
      }
      ShortParts(d, t, h, target);
      ghost var whole := FinishDelete(path, d, t, h, target, nodes);
      s := Some(whole);
      NodesOfSome(whole);
    }

    ghost function NodesOf(s: Option<Tree<Node>>): multiset<Node> {
      if s.Some? then Nodes(s.value) else multiset{}
    }

    lemma {:induction false} NodesOfSome(t: Tree<Node>)
      ensures NodesOf(Some(t)) == Nodes(t) && NodesOf(None) == multiset{}
    {
    }

    /** The last step of Delete: one key less below each node above t. */
    method FinishDelete(path: Path, ghost c: Ctx<Node>, ghost t: Tree<Node>, ghost h: int,
                        ghost target: seq<Key>, ghost nodes: multiset<Node>)
      returns (ghost s: Tree<Node>)
      requires Lowered(c, t, h, target) && PendingMem(c, t) && (c != [] ==> Filled(t)) && |t.keys| >= 1
      requires |path.record| == |c| + 1 && path.record[..|c|] == Records(c) && root == RootId(c, t.id)
      requires height == |c| + h
      requires numNodes == |NodesC(c) + Nodes(t)| && forall n :: n in NodesC(c) + Nodes(t) ==> n in nodes
      modifies set n | n in nodes
      ensures Whole(s, height, target) && root == s.id && numNodes == |Nodes(s)|
      ensures Nodes(s) == NodesC(c) + Nodes(t) && forall n :: n in Nodes(s) ==> n in nodes
    {
      hide *;
      LoweredDue(c, t, h, target);
      CtxIdsIn(c);
      PartOf(NodesC(c), Nodes(t), NodesC(c) + Nodes(t));
      s := FinishCounts(path, |path.record| - 1, -1, c, t, h, target);
    }

    /** The root is short: if it is empty, the tree shrinks. */
    method CollapseRoot(node: Node, ghost t: Tree<Node>, ghost h: int, ghost target: seq<Key>,
                        ghost nodes: multiset<Node>)
      returns (ghost s: Option<Tree<Node>>)
      requires Lowered([], t, h, target) && PendingMem([], t) && node == t.id == root && height == h
      requires numNodes == |Nodes(t)| && forall n :: n in Nodes(t) ==> n in nodes
      modifies this`root, this`height, this`numNodes, this`freed, set n | n in nodes
      ensures s.None? ==> target == [] && root == null && height == 0 && numNodes == 0
      ensures s.Some? ==> Whole(s.value, height, target) && root == s.value.id && numNodes == |Nodes(s.value)|
      ensures s.Some? ==> forall n :: n in Nodes(s.value) ==> n in nodes
      ensures GaveBack(old(freed), freed, Nodes(t), NodesOf(s))
    {
      hide *;
      NodesOfSome(t);
      GaveBackNone(freed, Nodes(t));
      GaveBackRoot(freed, t.id, multiset{});
      RootParts(t, h, target);
      AllocT(t);
      IdIn(t);
      s := Some(t);
      if node.numItems == 0 {
        if node.leaf {
          root := null;
          s := None;
        } else {
          root := root.kidSlots[0];
          s := Some(t.kids[0]);
          AllocT(t.kids[0]);
          NodesOfSome(t.kids[0]);
          GaveBackRoot(freed, t.id, Nodes(t.kids[0]));
        }
        height := height - 1;
        DestroyNode(node);
      }
    }

    /** One round of the loop. */
    method RepairNext(path: Path, ghost c: Ctx<Node>, ghost t: Tree<Node>, ghost h: int, ghost target: seq<Key>,
                      ghost nodes: multiset<Node>)
      returns (retired: Node?, ghost u: Tree<Node>)
      requires Lowered(c, t, h, target) && Low(t) && c != [] && PendingMem(c, t)
      requires |path.record| == |c| + 1 && path.record[..|c|] == Records(c)
      requires numNodes == |NodesC(c) + Nodes(t)| && forall n :: n in NodesC(c) + Nodes(t) ==> n in nodes
      modifies this`numNodes, this`freed, path, set n | n in nodes
      ensures Lowered(Up(c), u, h + 1, target) && PendingMem(Up(c), u) && RootId(Up(c), u.id) == RootId(c, t.id)
      ensures retired == null ==> |u.keys| >= 1 && (Up(c) != [] ==> Filled(u))
      ensures numNodes == |NodesC(Up(c)) + Nodes(u)| && forall n :: n in NodesC(Up(c)) + Nodes(u) ==> n in nodes
      ensures GaveBack(old(freed), freed, NodesC(c) + Nodes(t), NodesC(Up(c)) + Nodes(u))
      ensures |Up(c)| == |c| - 1 && |path.record| == |c| && path.record[..|c|-1] == Records(Up(c))
      ensures path.record[|c|-1].node == u.id
    {
      hide *;
      AllocAll(c, t, t);
      path.Pop();
      PathTop(path.record, c);
      retired, u := RepairLevel(path, c, t, h, target, nodes);
    }

    /** Repairs the short node t through its parent, and frees the node that a merge emptied. */
    method RepairLevel(path: Path, ghost c: Ctx<Node>, ghost t: Tree<Node>, ghost h: int,
                       ghost target: seq<Key>, ghost nodes: multiset<Node>)
      returns (retired: Node?, ghost u: Tree<Node>)
      requires Lowered(c, t, h, target) && Low(t) && c != [] && PendingMem(c, t)
      requires |path.record| == |c| && path.record[|c|-1] == Record(Top(c).id, |Top(c).left|)
      requires numNodes == |NodesC(c) + Nodes(t)| && forall n :: n in NodesC(c) + Nodes(t) ==> n in nodes
      modifies this`numNodes, this`freed, set n | n in nodes
      ensures Lowered(Up(c), u, h + 1, target) && PendingMem(Up(c), u) && u.id == Top(c).id
      ensures RootId(Up(c), u.id) == RootId(c, t.id)
      ensures retired == null ==> |u.keys| >= 1 && (Up(c) != [] ==> Filled(u))
      ensures numNodes == |NodesC(Up(c)) + Nodes(u)|
      ensures forall n :: n in NodesC(Up(c)) + Nodes(u) ==> n in nodes
      ensures GaveBack(old(freed), freed, NodesC(c) + Nodes(t), NodesC(Up(c)) + Nodes(u))
    {
      hide *;
      var parent, pos := path.record[|path.record|-1].node, path.record[|path.record|-1].pos;
      PendingMemParts(c, t);
      retired, u := RepairStep(parent, pos, c, t, h, target);
      RootUp(c, t.id, u.id);
      ParentGone(c, t, u, retired, nodes);
      GaveBackOne(freed, NodesC(c) + Nodes(t), NodesC(Up(c)) + Nodes(u), retired);
      if retired != null {
        AllocAll(Up(c), u, u);
        PendingMemParts(Up(c), u);
        DestroyNode(retired);
        PendingMemOf(Up(c), u);
      }
    }

    /** Gives back every node once, in post-order; a node that is gone is never read. */
    method Clear()
      requires Valid()
      modifies this, set n | n in Repr()
      ensures Valid() && Contents() == [] && numNodes == 0
      ensures freed == old(freed) + match old(shape) case None => [] case Some(s) => PostOrder(s)
    {
      hide *;
      ValidParts();
      if root == null {
        return;
      }
      ghost var s, h := shape.value, height;
      DescendRoot(s, h);
      GoodParts(s, h);
      AllocT(s);
      var path := new Path();
      var node := root;
      ghost var c, u := [], s;
      NoFrames(s);
      FocusParts(s, c, u, h);
      if !root.leaf {
        HoldsAll(s);
        node, c, u := DeepLeft(path, root, 0, s, h, [], s);
      }
      ClearNodes(path, node, s, h, c, u);
      root := null;
      height, count := 0, 0;
      shape := None;
      NoTree();
    }

    /** The loop of Clear: from the first leaf to the root. */
    method ClearNodes(path: Path, first: Node, ghost s: Tree<Node>, ghost h: int, ghost c0: Ctx<Node>,
                      ghost u0: Tree<Node>)
      requires first == u0.id && Focus(s, c0, u0, h) && path.record == Records(c0) && RepRight(c0, u0.id)
      requires Freed(c0) + PostOrderS(Kids(u0)) == [] && Distinct(Nodes(s)) && h < MAX_DEPTH
      modifies path, this`numNodes, this`freed, set n | n in Nodes(s)
      ensures freed == old(freed) + PostOrder(s) && numNodes == old(numNodes) - |Nodes(s)|
    {
      hide *;
      var node := first;
      ghost var c, u := c0, u0;
      ghost var order: seq<Node> := [];    // what is freed here
      while true
        invariant node == u.id && Focus(s, c, u, h) && path.record == Records(c) && RepRight(c, u.id)
        invariant freed == old(freed) + order && order == Freed(c) + PostOrderS(Kids(u))
        invariant numNodes == old(numNodes) - |order|
        decreases |Nodes(s)| - |order|
      {
        FocusParts(s, c, u, h);
        FocusApart(s, c, u, h);
        FreedBound(c, u, s);
        AllocAll(c, s, s);
        DestroyNode(node);
        order := order + [node];
        if path.record == [] {
          break;
        }
        ParentOf(s, h, c, u);
        node := path.record[|path.record|-1].node;
        var pos := path.record[|path.record|-1].pos;
        path.Pop();
        RepRightLast(c, u.id);
        LeaveKid(Top(c), u);
        ghost var p := Fill(Top(c), u);
        if pos < node.numItems {
          node, c, u := DeepLeft(path, node, pos + 1, s, h, Up(c), p);
        } else {
          c, u := Up(c), p;
        }
      }
      PostOrderSize(s);
    }

    /** Enters child pos and goes on to its leftmost leaf. */
    method DeepLeft(path: Path, start: Node, startPos: nat, ghost s: Tree<Node>, ghost h: int,
                    ghost c: Ctx<Node>, ghost t: Tree<Node>)
      returns (node: Node, ghost d: Ctx<Node>, ghost u: Tree<Node>)
      requires Focus(s, c, t, h) && h < MAX_DEPTH && start == t.id && path.record == Records(c)
      requires t.Inner? && HoldsFrom(t, startPos) && startPos < |t.kids| && RepRight(c, t.id)
      modifies path
      ensures Focus(s, d, u, h) && node == u.id && path.record == Records(d) && RepRight(d, u.id)
      ensures Freed(d) + PostOrderS(Kids(u)) == Freed(c) + PostOrderS(t.kids[..startPos])
    {
      hide *;
      node, d, u := start, c, t;
      var pos: nat := startPos;
      while true
        invariant node == u.id && Focus(s, d, u, h) && path.record == Records(d) && u.Inner? && pos < |u.kids|
        invariant HoldsFrom(u, pos) && RepRight(d, u.id)
        invariant Freed(d) + PostOrderS(u.kids[..pos]) == Freed(c) + PostOrderS(t.kids[..startPos])
        decreases u
      {
        node, d, u := EnterChild(path, node, pos, s, h, d, u);
        pos := 0;
        NoKidsFreed(u);
        if node.leaf {
          break;
        }
        HoldsAll(u);
      }
    }

    /** One step down. */
    method EnterChild(path: Path, node: Node, pos: nat, ghost s: Tree<Node>, ghost h: int, ghost c: Ctx<Node>,
                      ghost t: Tree<Node>)
      returns (child: Node, ghost d: Ctx<Node>, ghost u: Tree<Node>)
      requires Focus(s, c, t, h) && h < MAX_DEPTH && node == t.id && path.record == Records(c)
      requires t.Inner? && HoldsFrom(t, pos) && pos < |t.kids| && RepRight(c, t.id)
      modifies path
      ensures u == t.kids[pos] && Focus(s, d, u, h) && Rep(u) && child == u.id && child.leaf == u.Leaf?
      ensures path.record == Records(d) && RepRight(d, u.id) && (u.Inner? ==> |u.kids| > 0)
      ensures Freed(d) == Freed(c) + PostOrderS(t.kids[..pos])
    {
      hide *;
      FocusParts(s, c, t, h);
      FocusDown(s, c, t, h, pos);
      FreedDown(c, t, pos);
      d, u := c + [FrameAt(t, pos)], t.kids[pos];
      FocusParts(s, d, u, h);
      AllocC(d);
      AllocT(u);
      EnterKid(t, pos);
      RepRightLast(d, u.id);
      path.Push(node, pos);
      child := node.kidSlots[pos];
    }

    /** The first key of a tree (bplustree.hpp:194-200). */
    method InsertFirst(item: Key)
      requires Valid() && root == null
      modifies this
      ensures Valid() && freed == old(freed) && forall n :: n in Repr() ==> fresh(n)
      ensures LowerBound([], item) == 0 && Contents() == InsertAt([], 0, item)
    {
      hide *;
      ValidParts();
      root := CreateNode(true);
      root.InitSingle(item);
      U32Value();
      count, height := 1, 1;
      shape := Some(Leaf(root, [item]));
      SingleLeaf(root, item);
      ValidOf(Leaf(root, [item]));
      NoKeys(item);
    }

    /** The second half of Insert: item goes to slot pos of the leaf t (bplustree.hpp:205-222). */
    method InsertAtLeaf(item: Key, path: Path, ghost c: Ctx<Node>, ghost t: Tree<Node>, ghost pos: nat,
                        ghost target: seq<Key>)
      returns (ghost s: Tree<Node>, ghost news: multiset<Node>)
      requires AtLeaf(c, t, pos, item, target) && PendingMem(c, t)
      requires path.record == Records(c) + [Record(t.id, pos)]
      requires root == RootId(c, t.id) && height == |c| + 1
      modifies this`root, this`height, this`numNodes, set r | r in NodesC(c) + Nodes(t)
      ensures Whole(s, height, target) && root == s.id
      ensures Nodes(s) == NodesC(c) + Nodes(t) + news && numNodes == old(numNodes) + |news|
      ensures forall r :: r in news ==> fresh(r)
    {
      hide RepC, Nodes, NodesC, PendingMem, AtLeaf, Due, Whole, Records;
      PathFields(path.record, c, Record(t.id, pos));
      LeafFields(c, t, pos, item, target);
      CtxIdsIn(c);
      IdIn(t);
      var leaf := path.Last().node;
      if leaf.numItems == MAX_LEAF_KEYS {
        s, news := InsertToFullLeaf(item, path, c, t, pos, target);
      } else {
        LeafStep(leaf, path.Last().pos, item, c, t, target);
        LeafPending(c, t, pos, item, target);
        AtLeafSize(c, t, pos, item, target);
        s := FinishCounts(path, path.Depth() - 1, 1, c, Leafed(t, pos, item), 1, target);
        news := multiset{};
      }
    }

    /** Makes room for item in the full leaf t: by a sibling, or by splits up the path. */
    method InsertToFullLeaf(item: Key, path: Path, ghost c: Ctx<Node>, ghost t: Tree<Node>,
                            ghost insertPos: nat, ghost target: seq<Key>)
      returns (ghost s: Tree<Node>, ghost news: multiset<Node>)
      requires AtLeaf(c, t, insertPos, item, target) && PendingMem(c, t) && |t.keys| == MAX_LEAF_KEYS
      requires path.record == Records(c) + [Record(t.id, insertPos)]
      requires root == RootId(c, t.id) && height == |c| + 1
      modifies this`root, this`height, this`numNodes, set r | r in NodesC(c) + Nodes(t)
      ensures Whole(s, height, target) && root == s.id
      ensures Nodes(s) == NodesC(c) + Nodes(t) + news && numNodes == old(numNodes) + |news|
      ensures forall r :: r in news ==> fresh(r)
    {
      hide *;
      LeafFields(c, t, insertPos, item, target);
      PendingMemParts(c, t);
      AllocAll(c, t, t);
      PathFields(path.record, c, Record(t.id, insertPos));
      var level := |path.record| - 1;
      var node, pos := path.record[level].node, path.record[level].pos;
      if level > 0 {
        LeafOverfull(c, t, insertPos, item, target);
        TopKids(c, t);
        var done, d, v := RebalanceAndInsert(path.record[level-1].node, path.record[level-1].pos, pos, item, null, c,
                                             t, t, 1, target);
        if done {
          SameRoot(d, v, c, t);
          SameIdsC(d, c);
          CtxIdsIn(c);
          s := FinishCounts(path, level, 1, d, v, 1, target);
          return s, multiset{};
        }
        OverfullLeafMem(c, t);
      }
      AllocAll(c, t, t);
      var right := CreateNode(true);
      var median, l, r := SplitLeafStep(node, right, pos, item, c, t, target);
      s, news := PropagateSplit(path, level, median, right, c, l, r, target, NodesC(c) + Nodes(t), multiset{right});
    }

    /** One round of the split loop: (median, right) goes to path node number level (bplustree.hpp:311-380). */
    method PropagateOnce(path: Path, level: nat, median: Key, right: Node, ghost c: Ctx<Node>, ghost t: Tree<Node>,
                         ghost rt: Tree<Node>, ghost h: int, ghost target: seq<Key>)
      returns (finished: bool, nextMedian: Key, nextRight: Node, ghost s: Tree<Node>, ghost nl: Tree<Node>,
               ghost nr: Tree<Node>)
      requires Splitting(c, t, median, rt, h, target) && SplittingMem(c, t, rt) && right == rt.id
      requires level + 1 == |c| < |path.record| && path.record[..level+1] == Records(c)
      modifies this`numNodes, set n | n in NodesC(c)
      ensures finished ==> Whole(s, h + |c|, target) && s.id == RootId(c, t.id) && numNodes == old(numNodes)
      ensures finished ==> Nodes(s) == NodesC(c) + Nodes(t) + Nodes(rt)
      ensures !finished ==> Splitting(Up(c), nl, nextMedian, nr, h + 1, target) && SplittingMem(Up(c), nl, nr)
      ensures !finished ==> nextRight == nr.id && fresh(nextRight) && numNodes == old(numNodes) + 1
      ensures !finished ==>
        NodesC(Up(c)) + Nodes(nl) + Nodes(nr) == NodesC(c) + Nodes(t) + Nodes(rt) + multiset{nextRight}
      ensures !finished ==> RootId(Up(c), nl.id) == RootId(c, t.id)
    {
      hide *;
      SplittingParts(c, t, median, rt, h, target);
      SplittingCanAdd(c, t, median, rt, h, target);
      PathTop(path.record, c);
      MaxInner();
      finished, nextMedian, nextRight, s, nl, nr := false, median, right, t, t, rt;
      var node, pos := path.record[level].node, path.record[level].pos;
      if node.numItems < MAX_INNER_KEYS {
        AddStep(node, pos, median, right, c, t, rt, h, target);
        ghost var q := AddKid(Top(c), t, median, rt);
        CtxIdsIn(Up(c));
        UpNodesIn(c);
        RootUp(c, t.id, q.id);
        AddKidFields(Top(c), t, median, rt);
        s := FinishCounts(path, level, 1, Up(c), q, h + 1, target);
        finished := true;
        return;
      }
      if level > 0 {
        var done, e, v := RebalanceStep(path.record[level-1].node, path.record[level-1].pos, pos, median, right, c, t,
                                        rt, h, target);
        if done {
          SameIdsC(e, Up(c));
          CtxIdsIn(Up(c));
          UpNodesIn(c);
          RootUp(c, t.id, t.id);
          SameRoot(e, v, Up(c), t);
          s := FinishCounts(path, level, 1, e, v, h + 1, target);
          finished := true;
          return;
        }
      }
      AllocAll(c, t, rt);
      nextRight := CreateNode(false);
      nextMedian, nl, nr := SplitStep(node, pos, median, right, nextRight, c, t, rt, h, target);
      RootUp(c, t.id, nl.id);
    }

    /** The split loop, and the new root if the old one was split. */
    method PropagateSplit(path: Path, depth: nat, firstMedian: Key, firstRight: Node, ghost c: Ctx<Node>,
                          ghost l: Tree<Node>, ghost r: Tree<Node>, ghost target: seq<Key>,
                          ghost nodes: multiset<Node>, ghost first: multiset<Node>)
      returns (ghost s: Tree<Node>, ghost news: multiset<Node>)
      requires Splitting(c, l, firstMedian, r, 1, target) && SplittingMem(c, l, r) && firstRight == r.id
      requires depth == |c| < |path.record| && path.record[..depth] == Records(c)
      requires NodesC(c) + Nodes(l) + Nodes(r) == nodes + first
      requires root == RootId(c, l.id) && height == |c| + 1
      modifies this`root, this`height, this`numNodes, set n | n in nodes + first
      ensures Whole(s, height, target) && root == s.id
      ensures Nodes(s) == nodes + news && numNodes == old(numNodes) + |news| - |first|
      ensures forall n :: n in news ==> n in first || fresh(n)
    {
      hide *;
      var level: nat, median, right := depth, firstMedian, firstRight;
      ghost var d, t, rt, h := c, l, r, 1;
      news := first;
      while level > 0
        invariant level <= |c| && d == c[..level] && h == 1 + |c| - level
        invariant Splitting(d, t, median, rt, h, target) && SplittingMem(d, t, rt) && right == rt.id
        invariant NodesC(d) + Nodes(t) + Nodes(rt) == nodes + news
        invariant numNodes == old(numNodes) + |news| - |first|
        invariant forall n :: n in news ==> n in first || fresh(n)
        invariant root == RootId(d, t.id) && height == |c| + 1
      {
        PathPrefix(path.record, c, level);
        Members(NodesC(d), Nodes(t) + Nodes(rt), nodes, news);
        MultisetAssoc(NodesC(d), Nodes(t), Nodes(rt));
        TopIs(c, level);
        level := level - 1;
        var finished, nextMedian, nextRight, whole, nl, nr :=
          PropagateOnce(path, level, median, right, d, t, rt, h, target);
        if finished {
          return whole, news;
        }
        MultisetAssoc(nodes, news, multiset{nextRight});
        news := news + multiset{nextRight};
        right, median := nextRight, nextMedian;
        d, t, rt, h := Up(d), nl, nr, h + 1;
      }
      assert d == [];
      ghost var newRoot;
      s, newRoot := GrowRoot(median, right, t, rt, h, target);
      MultisetAssoc(nodes, news, multiset{newRoot});
      news := news + multiset{newRoot};
    }

    /** The root itself was split: a new root above its halves. */
    method GrowRoot(median: Key, right: Node, ghost t: Tree<Node>, ghost rt: Tree<Node>, ghost h: int,
                    ghost target: seq<Key>)
      returns (ghost s: Tree<Node>, ghost id: Node)
      requires Splitting([], t, median, rt, h, target) && SplittingMem([], t, rt) && right == rt.id
      requires root == RootId([], t.id)
      modifies this`root, this`height, this`numNodes
      ensures Whole(s, h + 1, target) && root == s.id && fresh(id) && height == old(height) + 1
      ensures numNodes == old(numNodes) + 1
      ensures Nodes(s) == NodesC<Node>([]) + Nodes(t) + Nodes(rt) + multiset{id}
    {
      hide *;
      EmptyCtx(t.id);
      assert multiset{} + Nodes(t) + Nodes(rt) == Nodes(t) + Nodes(rt);
      AllocAll([], t, rt);
      var newRoot := CreateNode(false);
      RootStep(newRoot, median, root, right, t, rt, h, target);
      s, id := NewRoot(newRoot, t, median, rt), newRoot;
      RootFrameOf(newRoot, t, median, rt);
      root := newRoot;
      height := height + 1;
    }
  }

  /** The keys of ranks a to b, as far as there are any. */
  ghost function Range(s: seq<Key>, a: nat, b: nat): seq<Key>
    requires a < |s| ==> a <= b
  {
    if a >= |s| then [] else s[a..if b < |s| then b + 1 else |s|]
  }

  /** The keys of ranks a to b, counted from the end. */
  ghost function RangeReverse(s: seq<Key>, a: nat, b: nat): seq<Key>
    requires a <= b < |s|
  {
    seq(b + 1 - a, i requires 0 <= i < b + 1 - a => s[|s|-1-a-i])
  }

  lemma {:induction false} RangeParts(s: seq<Key>, a: nat, b: nat)
    requires a < |s| ==> a <= b
    ensures |Range(s, a, b)| == if a >= |s| then 0 else (if b < |s| then b + 1 else |s|) - a
    ensures forall i :: 0 <= i < |Range(s, a, b)| ==> Range(s, a, b)[i] == s[a+i]
  {
  }

  lemma {:induction false} RangeReverseParts(s: seq<Key>, a: nat, b: nat)
    requires a <= b < |s|
    ensures |RangeReverse(s, a, b)| == b + 1 - a
    ensures forall i :: 0 <= i < b + 1 - a ==> RangeReverse(s, a, b)[i] == s[|s|-1-a-i]
  {
  }

  /** cb was given all in order, up to the first key it refused. */
  ghost predicate Handed(all: seq<Key>, cb: Key -> bool, visited: seq<Key>, ok: bool) {
    && visited <= all && (forall i :: 0 <= i < |visited| - 1 ==> cb(visited[i]))
    && (ok ==> visited == all && (visited != [] ==> cb(visited[|visited|-1])))
    && (!ok ==> visited != [] && !cb(visited[|visited|-1]))
  }

  /** cb has accepted the first n of all. */
  ghost predicate Handing(all: seq<Key>, n: int, cb: Key -> bool, visited: seq<Key>) {
    0 <= n <= |all| && visited == all[..n] && forall i :: 0 <= i < n ==> cb(visited[i])
  }

  lemma {:induction false} HandingNone(all: seq<Key>, cb: Key -> bool)
    ensures Handing(all, 0, cb, [])
  {
  }

  lemma {:induction false} HandingStep(all: seq<Key>, n: int, cb: Key -> bool, visited: seq<Key>)
    requires Handing(all, n, cb, visited) && n < |all|
    ensures cb(all[n]) ==> Handing(all, n + 1, cb, visited + [all[n]])
    ensures !cb(all[n]) ==> Handed(all, cb, visited + [all[n]], false)
  {
    assert all[..n] + [all[n]] == all[..n+1];
  }

  lemma {:induction false} HandedAll(all: seq<Key>, cb: Key -> bool, visited: seq<Key>)
    requires Handing(all, |all|, cb, visited)
    ensures Handed(all, cb, visited, true)
  {
  }

  lemma {:induction false} ParentGone(c: Ctx<Node>, t: Tree<Node>, u: Tree<Node>, retired: Node?, nodes: multiset<Node>)
    requires c != [] && NodesC(c) + Nodes(t) == NodesC(Up(c)) + Nodes(u) + Gone(retired)
    requires Distinct(NodesC(c) + Nodes(t)) && forall n :: n in NodesC(c) + Nodes(t) ==> n in nodes
    ensures forall n :: n in NodesC(Up(c)) + Nodes(u) ==> n in nodes
    ensures |NodesC(c) + Nodes(t)| == |NodesC(Up(c)) + Nodes(u)| + if retired == null then 0 else 1
    ensures retired != null ==> retired in nodes && retired !in NodesC(Up(c)) && retired !in Nodes(u)
  {
    var a, b, g := NodesC(Up(c)), Nodes(u), Gone(retired);
    hide NodesC, Nodes;
    DistinctPart(a, b, g);
    assert forall n :: n in a + b ==> n in a + b + g;
    if retired != null { assert retired in a + b + g; }
  }

  /** How full a node on the way up is, in memory. */
  lemma {:induction false} ShortParts(c: Ctx<Node>, t: Tree<Node>, h: int, target: seq<Key>)
    requires Lowered(c, t, h, target) && PendingMem(c, t)
    ensures t.id.numItems < t.id.MinItems() ==> c != [] ==> Low(t)
    ensures t.id.numItems >= t.id.MinItems() ==> |t.keys| >= 1 && Filled(t)
  {
    hide OkCtx, CtxArity, RepC, InOrder, LeftOf, RightOf, RepS, OkS;
    assert Rep(t);
  }

  /** From a tree of nodes a there is a tree of nodes b left; the others were given back, and no more. */
  ghost predicate GaveBack(before: seq<Node>, now: seq<Node>, a: multiset<Node>, b: multiset<Node>) {
    before <= now && multiset(now) + b == multiset(before) + a
  }

  lemma {:induction false} GaveBackNone(f: seq<Node>, a: multiset<Node>)
    ensures GaveBack(f, f, a, a)
  {
  }

  lemma {:induction false} GaveBackOne(f: seq<Node>, a: multiset<Node>, b: multiset<Node>, retired: Node?)
    requires a == b + Gone(retired)
    ensures GaveBack(f, if retired == null then f else f + [retired], a, b)
  {
  }

  lemma {:induction false} GaveBackRoot(f: seq<Node>, n: Node, b: multiset<Node>)
    ensures GaveBack(f, f + [n], b + multiset{n}, b) && multiset{} + multiset{n} == multiset{n}
  {
  }

  lemma {:induction false} GaveBackBoth(f: seq<Node>, g: seq<Node>, h: seq<Node>, a: multiset<Node>, b: multiset<Node>,
                                        c: multiset<Node>)
    requires GaveBack(f, g, a, b) && GaveBack(g, h, b, c)
    ensures GaveBack(f, h, a, c)
  {
    assert multiset(h) + c + b == multiset(f) + a + b;
  }

  lemma {:induction false} TopOnly(c: Ctx<Node>, t: Tree<Node>)
    requires PendingMem(c, t)
    ensures RootId(c, t.id) == t.id <==> c == []
    ensures c == [] ==> NodesC(c) + Nodes(t) == Nodes(t)
  {
    PendingMemParts(c, t);
    IdApart(c, t);
    hide Nodes, PendingMem, RepC, Rep;
    if c != [] { assert c[0].id in NodesC(c); }
  }

  lemma {:induction false} LoweredDue(c: Ctx<Node>, t: Tree<Node>, h: int, target: seq<Key>)
    requires Lowered(c, t, h, target) && (c != [] ==> Filled(t)) && |t.keys| >= 1
    ensures Due(c, t, h, -1, target) && |target| < U32_LIMIT
  {
  }

  /** An empty root has one child or none. */
  lemma {:induction false} RootParts(t: Tree<Node>, h: int, target: seq<Key>)
    requires Lowered([], t, h, target) && PendingMem([], t)
    ensures t.id.numItems == |t.keys| && t.id.leaf == t.Leaf?
    ensures |t.keys| > 0 ==> Whole(t, h, target)
    ensures |t.keys| == 0 && t.Leaf? ==> target == [] && h == 1 && Nodes(t) == multiset{t.id}
    ensures |t.keys| == 0 && t.Inner? ==>
      && |t.kids| == 1 <= |t.id.kidSlots| && t.id.kidSlots[0] == t.kids[0].id
      && Whole(t.kids[0], h - 1, target)
      && t.id !in Nodes(t.kids[0]) && Nodes(t) == Nodes(t.kids[0]) + multiset{t.id}
      && forall n :: n in Nodes(t.kids[0]) ==> n in Nodes(t)
  {
    hide *;
    LoweredParts([], t, h, target);
    PendingMemParts([], t);
    EmptyCtx(t.id);
    assert [] + InOrder(t) + [] == InOrder(t) && multiset{} + Nodes(t) == Nodes(t);
    RootNode(t, h);
    if |t.keys| > 0 {
      WholeOf(t, h, target);
    } else if t.Inner? {
      OnlyChild(t, h);
      WholeOf(t.kids[0], h - 1, target);
    }
  }

  lemma {:induction false} RootNode(t: Tree<Node>, h: int)
    requires Rep(t) && Ok(t, h)
    ensures t.id.numItems == |t.keys| && t.id.leaf == t.Leaf? && (t.Inner? ==> |t.kids| == |t.keys| + 1)
    ensures t.Leaf? && |t.keys| == 0 ==> InOrder(t) == [] && h == 1 && Nodes(t) == multiset{t.id}
  {
  }

  lemma {:induction false} OnlyChild(t: Tree<Node>, h: int)
    requires Rep(t) && Ok(t, h) && Distinct(Nodes(t)) && t.Inner? && |t.keys| == 0
    ensures |t.kids| == 1 <= |t.id.kidSlots|
    ensures var u := t.kids[0];
      && t.id.kidSlots[0] == u.id && Rep(u) && Distinct(Nodes(u)) && Ok(u, h - 1) && |u.keys| >= 1
      && InOrder(u) == InOrder(t)
      && t.id !in Nodes(u) && Nodes(t) == Nodes(u) + multiset{t.id} && forall n :: n in Nodes(u) ==> n in Nodes(t)
  {
    var u := t.kids[0];
    assert t.kids == [u];
    assert Body(t, h) && OkS(t.kids, h - 1);
    assert Ok(u, h - 1) && Filled(u);
    RepAt(t.kids, 0);
    assert Ids(t.kids)[0] == u.id;
    NodesOne(u);
    assert Nodes(t) == multiset{t.id} + Nodes(u);
    hide Nodes, Ok, Rep;
    DistinctTwo(multiset{t.id}, Nodes(u));
  }

  /** The parent of a finished subtree: on to its next child, or it is finished, too. */
  lemma {:induction false} ParentOf(s: Tree<Node>, h: int, c: Ctx<Node>, u: Tree<Node>)
    requires Focus(s, c, u, h) && c != []
    ensures var f, p := Top(c), Fill(Top(c), u);
      && FrameArity(f) && Focus(s, Up(c), p, h) && Records(c) == Records(Up(c)) + [Record(f.id, |f.left|)]
      && p.Inner? && p.id == f.id && |p.kids| == |f.keys| + 1 && |f.left| <= |f.keys|
      && Freed(c) + PostOrder(u) == Freed(Up(c)) + PostOrderS(p.kids[..|f.left|+1])
      && (|f.left| == |f.keys| ==> p.kids[..|f.left|+1] == Kids(p))
  {
    hide *;
    FocusUp(s, c, u, h);
    FreedUp(c, u);
    FillArity(Top(c), u);
    ArityRight(Top(c));
  }

  lemma {:induction false} ArityRight(f: Frame<Node>)
    requires FrameArity(f)
    ensures |f.keys| == |f.left| + |f.right| && (|f.left| == |f.keys| ==> f.right == [])
  {
  }

  lemma {:induction false} NoFrames(s: Tree<Node>)
    ensures RepRight([], s.id) && Freed([]) == [] && PostOrderS([]) == [] && (s.Leaf? ==> Kids(s) == [])
  {
  }

  lemma {:induction false} FocusApart(s: Tree<Node>, c: Ctx<Node>, u: Tree<Node>, h: int)
    requires Focus(s, c, u, h) && Distinct(Nodes(s))
    ensures u.id !in NodesC(c) && u.id in Nodes(s)
  {
    hide Nodes, NodesC;
    PlugNodes(c, u);
    IdApart(c, u);
    FocusIn(s, c, u, h);
  }

  lemma {:induction false} DescendRoot(s: Tree<Node>, h: int)
    requires Good(s, h)
    ensures Rep(s) && 1 <= h <= 14 < MAX_DEPTH && Ok(s, h) && |s.keys| >= 1 && s.id.leaf == s.Leaf?
    ensures Focus(s, [], s, h) && LeftOf<Node>([]) == [] && Records([]) == [] && CtxArity<Node>([])
    ensures |InOrder(s)| > 0
  {
    Height.HeightBound(s, h);
    assert Body(s, h);
    KeyAt(s, 0);
  }

  /** One step down to the last child. */
  lemma {:induction false} LastDown(s: Tree<Node>, h: int, c: Ctx<Node>, t: Tree<Node>)
    returns (d: Ctx<Node>, u: Tree<Node>)
    requires Focus(s, c, t, h) && Rep(s) && t.Inner?
    ensures var n := t.id.numItems;
      && n < |t.id.kidSlots| && t.id.kidSlots[n] == u.id && u.id.leaf == u.Leaf?
      && Records(d) == Records(c) + [Record(t.id, n)]
    ensures Focus(s, d, u, h) && CtxArity(c) && CtxArity(d)
    ensures |LeftOf(d)| + |InOrder(u)| == |LeftOf(c)| + |InOrder(t)| && |c| < h
    ensures u in t.kids
  {
    hide *;
    FocusParts(s, c, t, h);
    FocusRep(s, c, t, h);
    LastChild(t);
    d, u := ChildDown(s, h, c, t, |t.keys|);
  }

  lemma {:induction false} FirstChild(s: Tree<Node>, h: int, c: Ctx<Node>, t: Tree<Node>)
    requires Focus(s, c, t, h) && t.Inner?
    ensures Arity(t) && 0 < |t.kids| == |t.keys| + 1 && Before(t, 0) == 0 < |InOrder(t.kids[0])|
  {
    hide *;
    FocusParts(s, c, t, h);
    BeforeNone(t);
    FocusDown(s, c, t, h, 0);
    FocusParts(s, c + [FrameAt(t, 0)], t.kids[0], h);
  }

  /** Ranks from the front and from the back of one key add up to the last index. */
  lemma {:induction false} RanksAddUp(s: seq<Key>, item: Key, forward: nat, backward: nat)
    requires Sorted(s) && forward < |s| && s[forward] == item && backward < |s| && s[|s|-1-backward] == item
    ensures forward + backward == |s| - 1
  {
  }

  lemma {:induction false} MaxDepth()
    ensures MAX_DEPTH == 16
  {
  }

  /** A path that ends at a key is the path of that key's rank. */
  lemma {:induction false} AtRank(record: seq<Record>, s: Tree<Node>, c: Ctx<Node>, t: Tree<Node>, h: int, p: nat)
    requires At(record, s, c, t, h, p) && p < |t.keys|
    ensures CtxArity(c) && Arity(t)
    ensures var r := RankAt(c, t, p); 0 <= r < |InOrder(s)| && record == PathTo(s, r)
  {
    hide *;
    AtParts(record, s, c, t, h, p);
    CursorPath(s, c, t, h, p);
    AtOf(record, s, c, t, h, p);
  }

  /** The search ends at the lower bound of q. */
  lemma {:induction false} Located(s: Tree<Node>, c: Ctx<Node>, t: Tree<Node>, h: int, q: Key,
                                   record: seq<Record>, found: bool)
    requires Good(s, h) && Descending(s, c, t, h, q) && record != []
    requires record == Records(c) + [Record(t.id, record[|record|-1].pos)]
    requires Found(t, record[|record|-1].pos, q, found)
    ensures var p := record[|record|-1].pos;
      && At(record, s, c, t, h, p) && CtxArity(c) && Arity(t)
      && RankAt(c, t, p) == LowerBound(InOrder(s), q) <= |InOrder(s)|
      && found == (q in InOrder(s)) && (!found ==> t.Leaf?) && (found ==> p < |t.keys|)
    ensures var i := LowerBound(InOrder(s), q); found ==>
      i < |InOrder(s)| && InOrder(s)[i] == q && record == PathTo(s, i)
  {
    hide *;
    var p := record[|record|-1].pos;
    GoodParts(s, h);
    DescendParts(s, c, t, h, q);
    DescendFocus(s, c, t, h, q);
    FocusParts(s, c, t, h);
    FoundPlace(t, p, q, found);
    AtOf(record, s, c, t, h, p);
    AtParts(record, s, c, t, h, p);
    PlugInOrder(c, t);
    if found {
      CursorPath(s, c, t, h, p);
      KeyOffsetBefore(t, p);
      BoundIs(InOrder(s), RankAt(c, t, p), q);
    } else {
      GapBound(LeftOf(c), t.keys, p, RightOf(c), q);
    }
  }

  lemma {:induction false} DescendFocus(s: Tree<Node>, c: Ctx<Node>, t: Tree<Node>, h: int, q: Key)
    requires Descending(s, c, t, h, q)
    ensures Focus(s, c, t, h)
  {
  }

  lemma {:induction false} FoundPlace(t: Tree<Node>, pos: nat, q: Key, found: bool)
    requires Found(t, pos, q, found)
    ensures found ==> pos < |t.keys| && t.keys[pos] == q
    ensures !found ==> t.Leaf? && pos <= |t.keys| && Below(t.keys[..pos], q) && Above(q, t.keys[pos..])
  {
  }

  /** The lower bound of a key that is there is its index. */
  lemma {:induction false} BoundIs(s: seq<Key>, r: nat, q: Key)
    requires Sorted(s) && r < |s| && s[r] == q
    ensures LowerBound(s, q) == r && q in s
  {
    LowerBoundSplits(s, q);
    var i := LowerBound(s, q);
    assert i < |s| && s[i] == q;
  }

  lemma {:induction false} GapBound(l: seq<Key>, k: seq<Key>, pos: nat, r: seq<Key>, q: Key)
    requires Sorted(l + k + r) && Below(l, q) && Above(q, r) && pos <= |k| && Below(k[..pos], q)
    requires Above(q, k[pos..])
    ensures LowerBound(l + k + r, q) == |l| + pos && q !in l + k + r
    ensures l + k + r == (l + k[..pos]) + (k[pos..] + r) && Below(l + k[..pos], q) && Above(q, k[pos..] + r)
  {
    hide Lt, Sorted, Below, Above, LowerBound;
    var a, b := l + k[..pos], k[pos..] + r;
    assert l + k + r == a + b by { assert k == k[..pos] + k[pos..]; }
    BelowConcat(l, k[..pos], q);
    AboveConcat(q, k[pos..], r);
    AboveNotLess(q, b);
    LowerBoundAt(a, b, q);
    NotIn(a, q, b);
  }

  lemma {:induction false} AtLeafSize(c: Ctx<Node>, t: Tree<Node>, ip: nat, x: Key, target: seq<Key>)
    requires AtLeaf(c, t, ip, x, target)
    ensures |target| < U32_LIMIT
  {
  }

  lemma {:induction false} NoKeys(item: Key)
    ensures LowerBound([], item) == 0 && InsertAt([], 0, item) == [item]
  {
  }

  lemma {:induction false} SingleLeaf(n: Node, item: Key)
    requires n.leaf && HoldsKeys(n, [item])
    ensures Good(Leaf(n, [item]), 1) && InOrder(Leaf(n, [item])) == [item]
    ensures Nodes(Leaf(n, [item])) == multiset{n}
  {
  }

  lemma {:induction false} Removed(s: seq<Key>, r: nat)
    requires r < |s|
    ensures |RemoveAt(s, r)| == |s| - 1 && (Sorted(s) ==> Sorted(RemoveAt(s, r)))
  {
    assert forall i :: 0 <= i < |s| - 1 ==> RemoveAt(s, r)[i] == s[if i < r then i else i + 1];
  }

  lemma {:induction false} GoodOf(s: Tree<Node>, h: int, target: seq<Key>)
    requires Whole(s, h, target) && Sorted(target) && |target| < U32_LIMIT
    ensures Good(s, h) && InOrder(s) == target
  {
  }

  lemma {:induction false} GoodParts(s: Tree<Node>, h: int)
    requires Good(s, h)
    ensures Rep(s) && Distinct(Nodes(s)) && Ok(s, h) && |s.keys| >= 1 && Sorted(InOrder(s))
    ensures |InOrder(s)| < U32_LIMIT
  {
  }

  /** The state in which Insert leaves the search. */
  lemma {:induction false} LocatedLeaf(s: Tree<Node>, c: Ctx<Node>, t: Tree<Node>, h: int, q: Key, pos: nat)
    requires Good(s, h) && Descending(s, c, t, h, q) && Found(t, pos, q, false)
    requires |InOrder(s)| + 1 < U32_LIMIT
    ensures var target := InsertAt(InOrder(s), LowerBound(InOrder(s), q), q);
      && AtLeaf(c, t, pos, q, target) && PendingMem(c, t) && h == |c| + 1 && Sorted(target)
      && |target| == |InOrder(s)| + 1
      && NodesC(c) + Nodes(t) == Nodes(s) && s.id == RootId(c, t.id) && q !in InOrder(s)
  {
    hide *;
    GoodParts(s, h);
    DescendParts(s, c, t, h, q);
    FoundParts(t, pos, q);
    PlugRep(c, t);
    PlugNodes(c, t);
    PlugInOrder(c, t);
    PlugRoot(c, t);
    LeafOk(t, h - |c|);
    TargetAt(LeftOf(c), t.keys, pos, RightOf(c), q);
    AtLeafOf(c, t, pos, q, InsertAt(InOrder(s), LowerBound(InOrder(s), q), q));
    PendingMemOf(c, t);
  }

  lemma {:induction false} LeafOk(t: Tree<Node>, h: int)
    requires t.Leaf? && Ok(t, h)
    ensures h == 1 && InOrder(t) == t.keys
  {
  }

  lemma {:induction false} FoundParts(t: Tree<Node>, pos: nat, q: Key)
    requires Found(t, pos, q, false)
    ensures t.Leaf? && pos <= |t.keys| && Below(t.keys[..pos], q) && Above(q, t.keys[pos..])
  {
  }

  lemma {:induction false} AtLeafOf(c: Ctx<Node>, t: Tree<Node>, ip: nat, x: Key, target: seq<Key>)
    requires t.Leaf? && ip <= |t.keys| && Ok(t, 1) && (c != [] ==> Filled(t)) && OkCtx(c, 1, |InOrder(t)|)
    requires CtxArity(c)
    requires LeftOf(c) + InsertAt(t.keys, ip, x) + RightOf(c) == target && |target| < U32_LIMIT
    ensures AtLeaf(c, t, ip, x, target)
  {
  }

  /** Inserting q at its slot of the leaf is inserting it at its lower bound in the whole sequence. */
  lemma {:induction false} TargetAt(l: seq<Key>, k: seq<Key>, pos: nat, r: seq<Key>, q: Key)
    requires Sorted(l + k + r) && Below(l, q) && Above(q, r) && pos <= |k| && Below(k[..pos], q)
    requires Above(q, k[pos..])
    ensures var s := l + k + r; var target := InsertAt(s, LowerBound(s, q), q);
      && target == l + InsertAt(k, pos, q) + r && Sorted(target) && q !in s && |target| == |s| + 1
  {
    hide Lt, Sorted, Below, Above, LowerBound;
    var a, b := l + k[..pos], k[pos..] + r;
    GapBound(l, k, pos, r, q);
    SortedInsert(a, q, b);
    assert InsertAt(a + b, |a|, q) == a + [q] + b;
    assert a + [q] + b == l + InsertAt(k, pos, q) + r;
  }

  lemma {:induction false} AboveNotLess(q: Key, s: seq<Key>)
    requires Above(q, s)
    ensures s != [] ==> !Lt(s[0], q)
  {
  }

  /** A search that succeeds has come upon a key of the tree. */
  lemma {:induction false} FoundIn(s: Tree<Node>, c: Ctx<Node>, t: Tree<Node>, h: int, q: Key, pos: nat)
    requires Descending(s, c, t, h, q) && Found(t, pos, q, true)
    ensures q in InOrder(s)
  {
    DescendParts(s, c, t, h, q);
    BodyFields(t, h - |c|);
    KeyAt(t, pos);
    hide Ok, OkCtx, Body;
    PlugInOrder(c, t);
    assert q in InOrder(t);
  }

  lemma {:induction false} Members<R>(a: multiset<R>, b: multiset<R>, x: multiset<R>, y: multiset<R>)
    ensures a + b == x + y ==> forall n :: n in a ==> n in x || n in y
  {
    if a + b == x + y {
      forall n | n in a ensures n in x || n in y {
        assert n in a + b;
      }
    }
  }

  /** The root is the same seen from one level up. */
  lemma {:induction false} RootUp(c: Ctx<Node>, hole: Node, up: Node)
    requires c != []
    ensures |c| == 1 ==> up == Top(c).id ==> RootId(Up(c), up) == RootId(c, hole)
    ensures |c| > 1 ==> RootId(Up(c), up) == RootId(c, hole)
  {
  }

  lemma {:induction false} PathFields(rec: seq<Record>, c: Ctx<Node>, last: Record)
    requires rec == Records(c) + [last]
    ensures |rec| == |c| + 1 && rec[|c|] == last && rec[..|c|] == Records(c)
    ensures c != [] ==> rec[|c|-1] == Record(Top(c).id, |Top(c).left|)
  {
  }

  lemma {:induction false} PathTop(rec: seq<Record>, c: Ctx<Node>)
    requires |c| <= |rec| && rec[..|c|] == Records(c) && c != []
    ensures rec[|c|-1] == Record(Top(c).id, |Top(c).left|) && rec[..|c|-1] == Records(Up(c))
    ensures |Up(c)| == |c| - 1
    ensures |c| > 1 ==> Up(c) != [] && rec[|c|-2] == Record(Top(Up(c)).id, |Top(Up(c)).left|)
  {
    assert rec[|c|-1] == rec[..|c|][|c|-1];
    if |c| > 1 { assert rec[|c|-2] == rec[..|c|][|c|-2]; }
  }

  lemma {:induction false} SameIdsC(d: Ctx<Node>, c: Ctx<Node>)
    requires Records(d) == Records(c)
    ensures |d| == |c| && CtxIds(d) == CtxIds(c)
  {
    assert |Records(d)| == |Records(c)|;
    forall i | 0 <= i < |c| ensures d[i].id == c[i].id {
      assert Records(d)[i] == Records(c)[i];
    }
  }

  lemma {:induction false} UpNodesIn(c: Ctx<Node>)
    requires c != []
    ensures forall n :: n in NodesC(Up(c)) ==> n in NodesC(c)
  {
    UpNodes(c);
    hide NodesC;
  }

  lemma {:induction false} UpNodes(c: Ctx<Node>)
    requires c != []
    ensures NodesC(c) == NodesC(Up(c)) + FrameNodes(Top(c))
  {
    TopOf(c);
    NodesCLast(Up(c), Top(c));
  }

  lemma {:induction false} PathPrefix(rec: seq<Record>, c: Ctx<Node>, k: nat)
    requires |c| <= |rec| && rec[..|c|] == Records(c) && 0 < k <= |c|
    ensures rec[..k-1] == Records(c[..k-1]) && rec[k-1] == Record(c[k-1].id, |c[k-1].left|)
    ensures k > 1 ==> rec[k-2] == Record(c[k-2].id, |c[k-2].left|)
  {
    assert rec[k-1] == rec[..|c|][k-1];
    if k > 1 { assert rec[k-2] == rec[..|c|][k-2]; }
  }

  lemma {:induction false} TopIs(c: Ctx<Node>, k: nat)
    requires 0 < k <= |c|
    ensures c[..k] != [] && Top(c[..k]) == c[k-1] && Up(c[..k]) == c[..k-1]
    ensures k > 1 ==> Up(c[..k]) != [] && Top(Up(c[..k])) == c[k-2]
  {
  }
}
