/** B-tree nodes in memory and the moves between siblings (src/zset/bplustree_internal.hpp). */
module BPNode {
  import opened Keys
  import opened Order
  import opened Sequences
  import opened Shape
  import opened Siblings
  import opened Contexts
  import Slots

  class Node {
    const leaf: bool
    var numItems: nat
    var keySlots: seq<Key>      // the key area of the 256-byte block
    var kidSlots: seq<Node?>    // the child area, used by inner nodes
    var treeCount: u32          // keys in this subtree, used by inner nodes

    function MaxItems(): nat {
      if leaf then MAX_LEAF_KEYS else MAX_INNER_KEYS
    }

    function MinItems(): nat {
      if leaf then MIN_LEAF_KEYS else MIN_INNER_KEYS
    }

    constructor (leaf: bool)
      ensures this.leaf == leaf && HoldsKeys(this, []) && |kidSlots| == MAX_INNER_KEYS + 1
    {
      this.leaf := leaf;
      numItems := 0;
      keySlots := seq(if leaf then MAX_LEAF_KEYS else MAX_INNER_KEYS, _ => Key(0.0, 0));
      kidSlots := seq(MAX_INNER_KEYS + 1, _ => null);
      treeCount := 0;
    }

    function TreeCount(): int
      reads this
    {
      if leaf then numItems else treeCount
    }

    method RebalanceChildToLeft(childPos: nat, count: nat, ghost p: Tree<Node>)
      requires this == p.id && childPos > 0 && CanMove(p, childPos - 1)
      requires 1 <= count <= |p.kids[childPos].keys|
      requires |p.kids[childPos-1].keys| + count <= p.kids[childPos-1].id.MaxItems()
      modifies this, p.kids[childPos-1].id, p.kids[childPos].id
      ensures Rep(MovedLeft(p, childPos - 1, count))
      ensures Recut(p, MovedLeft(p, childPos - 1, count), childPos - 1)
    {
      hide *;
      ghost var k := childPos - 1;
      ghost var q, a, b := MovedLeft(p, k, count), p.kids[k], p.kids[k+1];
      PrepareMove(p, k);
      PairFields(p, k);
      var src, dest := kidSlots[childPos], kidSlots[childPos-1];
      var moved := 0;
      if !src.leaf {
        MoveLeftBounds(p, k, count);
        moved := CountKids(src, 0, count, b.kids);
      }
      ghost var X, Y := if a.Leaf? then [] else Ids(a.kids), if b.Leaf? then [] else Ids(b.kids);
      MovePairLeft(this, dest, src, childPos - 1, count, moved, p.keys, a.keys, b.keys, X, Y);
      MovedLeftHolds(p, k, count);
      MovedLeftRecut(p, k, count);
      FinishMove(p, q, k);
    }

    method RebalanceChildToRight(childPos: nat, count: nat, ghost p: Tree<Node>)
      requires this == p.id && CanMove(p, childPos)
      requires 1 <= count <= |p.kids[childPos].keys|
      requires |p.kids[childPos+1].keys| + count <= p.kids[childPos+1].id.MaxItems()
      modifies this, p.kids[childPos].id, p.kids[childPos+1].id
      ensures Rep(MovedRight(p, childPos, count))
      ensures Recut(p, MovedRight(p, childPos, count), childPos)
    {
      hide *;
      ghost var k := childPos;
      ghost var q, a, b := MovedRight(p, k, count), p.kids[k], p.kids[k+1];
      PrepareMove(p, k);
      PairFields(p, k);
      var src, dest := kidSlots[childPos], kidSlots[childPos+1];
      var moved := CountMovedRight(src, count, p, k);
      ghost var X, Y := if a.Leaf? then [] else Ids(a.kids), if b.Leaf? then [] else Ids(b.kids);
      MovePairRight(this, src, dest, childPos, count, moved, p.keys, a.keys, b.keys, X, Y);
      MovedRightHolds(p, k, count);
      MovedRightRecut(p, k, count);
      FinishMove(p, q, k);
    }

    /** Lower bound of q among the node's keys; the last key is looked at first. */
    method BSearch(q: Key, ghost K: seq<Key>) returns (index: nat, found: bool)
      requires HoldsKeys(this, K) && Sorted(K) && K != []
      ensures index <= |K| && Below(K[..index], q)
      ensures found ==> index < |K| && K[index] == q
      ensures !found ==> Above(q, K[index..])
    {
      var lo, hi := 0, numItems;
      var cmpRes := Compare(q, keySlots[hi-1]);
      if cmpRes >= 0 {
        return if cmpRes > 0 then hi else hi - 1, cmpRes == 0;
      }
      hi := hi - 1;
      while lo < hi
        invariant 0 <= lo <= hi < |K|
        invariant Below(K[..lo], q) && Above(q, K[hi..])
      {
        var mid := (lo + hi) / 2;
        cmpRes := Compare(q, keySlots[mid]);
        if cmpRes == 0 {
          return mid, true;
        }
        if cmpRes < 0 {
          hi := mid;
        } else {
          lo := mid + 1;
        }
      }
      return hi, false;
    }

    /** Opens slot index; an inner node's children after child index step right. */
    method ShiftRight(index: nat, ghost K: seq<Key>, ghost X: seq<Node>)
      requires HoldsKeys(this, K) && index <= |K| < MaxItems()
      requires !leaf ==> HoldsKids(this, X) && |X| == |K| + 1
      modifies this`keySlots, this`kidSlots, this`numItems
      ensures |keySlots| == MaxItems() && numItems == |K| + 1 && K[..index] <= keySlots
      ensures K[index..] == keySlots[index+1..|K|+1]
      ensures !leaf ==>
        |kidSlots| == MAX_INNER_KEYS + 1 && X[..index+1] <= kidSlots && X[index+1..] == kidSlots[index+2..|X|+1]
    {
      var n := numItems - index;
      if n > 0 {
        keySlots := Slots.Memmove(keySlots, index + 1, index, n);
        if !leaf {
          kidSlots := Slots.Memmove(kidSlots, index + 1, index, n + 1);
        }
      }
      numItems := numItems + 1;
    }

    /** Closes slot index, and in an inner node the child slot after the key, or else the one before it. */
    method ShiftLeft(index: nat, childStepRight: bool, ghost K: seq<Key>, ghost X: seq<Node>)
      requires HoldsKeys(this, K) && index < |K| && (!leaf ==> HoldsKids(this, X) && |X| == |K| + 1)
      modifies this`keySlots, this`kidSlots, this`numItems
      ensures HoldsKeys(this, K[..index] + K[index+1..])
      ensures !leaf && (childStepRight || index == |K| - 1) ==> HoldsKids(this, X[..index+1] + X[index+2..])
      ensures !leaf && !childStepRight && index < |K| - 1 ==> HoldsKids(this, X[..index] + X[index+1..])
    {
      hide Slots.Memmove;
      var n := numItems - index - 1;
      Slots.Closes(keySlots, K, index);
      if n > 0 {
        keySlots := Slots.Memmove(keySlots, index, index + 1, n);
        if !leaf {
          var i := index + if childStepRight then 1 else 0;
          Slots.Closes(kidSlots, X, i);
          n := numItems - i;
          if n > 0 {
            kidSlots := Slots.Memmove(kidSlots, i, i + 1, n);
          }
        }
      }
      numItems := numItems - 1;
    }

    method InitSingle(key: Key)
      requires HoldsKeys(this, [])
      modifies this`keySlots, this`numItems
      ensures HoldsKeys(this, [key])
    {
      keySlots := keySlots[0 := key];
      numItems := 1;
    }

    method LeafInsert(index: nat, item: Key, ghost K: seq<Key>)
      requires leaf && HoldsKeys(this, K) && index <= |K| < MaxItems()
      modifies this`keySlots, this`kidSlots, this`numItems
      ensures HoldsKeys(this, K[..index] + [item] + K[index..])
    {
      ShiftRight(index, K, []);
      keySlots := keySlots[index := item];
    }

    method LeafEraseRight(ghost K: seq<Key>)
      requires leaf && HoldsKeys(this, K) && K != []
      modifies this`numItems
      ensures HoldsKeys(this, K[..|K|-1])
    {
      numItems := numItems - 1;
    }

    method InnerInsert(index: nat, item: Key, child: Node, ghost K: seq<Key>, ghost X: seq<Node>)
      requires !leaf && HoldsKeys(this, K) && HoldsKids(this, X) && |X| == |K| + 1
      requires index <= |K| < MaxItems()
      modifies this`keySlots, this`kidSlots, this`numItems
      ensures HoldsKeys(this, K[..index] + [item] + K[index..])
      ensures HoldsKids(this, X[..index+1] + [child] + X[index+1..])
    {
      ShiftRight(index, K, X);
      keySlots := keySlots[index := item];
      kidSlots := kidSlots[index + 1 := child];
    }

    method MergeFromRight(key: Key, right: Node, ghost A: seq<Key>, ghost B: seq<Key>, ghost X: seq<Node>,
                          ghost Y: seq<Node>)
      requires this != right && leaf == right.leaf && HoldsKeys(this, A) && HoldsKeys(right, B)
      requires |A| + 1 + |B| <= MaxItems()
      requires !leaf ==> HoldsKids(this, X) && HoldsKids(right, Y) && |X| == |A| + 1 && |Y| == |B| + 1
      requires !leaf ==> treeCount + right.treeCount + 1 < U32_LIMIT
      modifies this, right`numItems
      ensures HoldsKeys(this, A + [key] + B)
      ensures !leaf ==> HoldsKids(this, X + Y) && treeCount == old(treeCount) + right.treeCount + 1
    {
      var destItems := numItems;
      keySlots := Slots.AppendWith(keySlots, destItems, key, right.keySlots, right.numItems, A, B);
      if !leaf {
        kidSlots := Slots.Append(kidSlots, destItems + 1, right.kidSlots, right.numItems + 1, X, Y);
        treeCount := treeCount + right.treeCount + 1;
      }
      numItems := numItems + 1 + right.numItems;
      right.numItems := 0;
    }

    /** Merges child k+1 into child k and drops it from this node (bplustree_internal.hpp:654-655, 663-664). */
    method MergeChildren(k: nat, ghost p: Tree<Node>)
      requires this == p.id && CanMove(p, k)
      requires |p.kids[k].keys| + 1 + |p.kids[k+1].keys| <= p.kids[k].id.MaxItems()
      requires p.kids[k].Inner? ==> p.kids[k].cnt + p.kids[k+1].cnt + 1 < U32_LIMIT
      modifies this, p.kids[k].id, p.kids[k+1].id
      ensures Rep(Merged(p, k))
    {
      hide *;
      ghost var a, b := p.kids[k], p.kids[k+1];
      PrepareMove(p, k);
      PairFields(p, k);
      var left, right := kidSlots[k], kidSlots[k+1];
      var key := keySlots[k];
      ghost var X, Y := if a.Leaf? then [] else Ids(a.kids), if b.Leaf? then [] else Ids(b.kids);
      left.MergeFromRight(key, right, a.keys, b.keys, X, Y);
      ShiftLeft(k, true, p.keys, Ids(p.kids));
      MergedHolds(p, k);
    }

    /** Repairs the low child pos; returns the node that a merge retired. */
    method MergeOrRebalanceChild(pos: nat, ghost p: Tree<Node>, ghost h: int)
      returns (retired: Node?, ghost q: Tree<Node>)
      requires this == p.id && CanRepair(p, h, pos)
      modifies this, set t | t in p.kids :: t.id
      ensures Rep(q) && Repaired(p, q, h, retired)
      ensures retired != null <==> CanMerge(p, h, pos)
    {
      hide Rep, CanMove, CanRepair, Repaired, LowAt, Pair, Merged, MovedLeft, MovedRight;
      RepairFields(p, h, pos);
      var node := kidSlots[pos];
      var left: Node? := null;
      if pos > 0 {
        left := kidSlots[pos-1];
        if left.numItems + 1 + node.numItems <= left.MaxItems() {
          MergeRepairs(p, h, pos, pos - 1);
          MergeChildren(pos - 1, p);
          return node, Merged(p, pos - 1);
        }
      }
      if pos < numItems {
        var right := kidSlots[pos+1];
        if node.numItems + 1 + right.numItems <= right.MaxItems() {
          MergeRepairs(p, h, pos, pos);
          MergeChildren(pos, p);
          return right, Merged(p, pos);
        }
        var toMove := (right.numItems - node.numItems) / 2;
        MoveLeftRepairs(p, h, pos);
        RebalanceChildToLeft(pos + 1, toMove, p);
        return null, MovedLeft(p, pos, toMove);
      }
      var toMove := (left.numItems - node.numItems) / 2;
      MoveRightRepairs(p, h, pos);
      RebalanceChildToRight(pos - 1, toMove, p);
      return null, MovedRight(p, pos - 1, toMove);
    }

    /** The stored count never wraps: the sum stays in range. */
    method IncreaseTreeCount(delta: int)
      requires 0 <= treeCount + delta < U32_LIMIT
      modifies this`treeCount
      ensures treeCount == old(treeCount) + delta
    {
      treeCount := treeCount + delta;
    }

    /** Moves the upper half of the items to the empty node right. */
    method Split(right: Node, ghost K: seq<Key>, ghost kids: seq<Tree<Node>>) returns (median: Key)
      requires this != right && leaf == right.leaf && HoldsKeys(this, K) && HoldsKeys(right, []) && K != []
      requires !leaf ==> HoldsKids(this, Ids(kids)) && |kids| == |K| + 1 && |right.kidSlots| == MAX_INNER_KEYS + 1
      requires !leaf ==> RepS(kids) && CountedS(kids) && Total(kids) + |K| <= treeCount
      modifies this, right
      ensures var mid := |K| / 2;
        && HoldsKeys(this, K[..mid]) && HoldsKeys(right, K[mid+1..]) && median == K[mid]
        && (!leaf ==> HoldsKids(this, Ids(kids)[..mid+1]) && HoldsKids(right, Ids(kids)[mid+1..]))
        && (!leaf ==> right.treeCount == Total(kids[mid+1..]) + |K| - mid - 1)
        && (!leaf ==> treeCount == old(treeCount) - right.treeCount - 1)
    {
      hide Rep, RepS, CountedS, Total, Ids;
      var mid := numItems / 2;
      median := keySlots[mid];
      var n := numItems - (mid + 1);
      var count := 0;
      if !leaf {
        count := CountKids(this, mid + 1, n + 1, kids);
        SplitBounds(kids, mid + 1);
      }
      right.numItems := n;
      right.keySlots := Slots.Extract(keySlots, mid + 1, right.keySlots, n, K);
      if !leaf {
        var rightSubtreeCount := n + count;
        right.kidSlots := Slots.Extract(kidSlots, mid + 1, right.kidSlots, n + 1, Ids(kids));
        right.treeCount := rightSubtreeCount;
        IncreaseTreeCount(-(rightSubtreeCount + 1));
      }
      numItems := mid;
    }

    /** Adds (median, right) after child pos of a node with a free slot (bplustree.hpp:322-329). */
    method AddChild(pos: nat, median: Key, right: Node, ghost f: Frame<Node>, ghost t: Tree<Node>,
                    ghost rt: Tree<Node>, ghost h: int)
      requires this == f.id && pos == |f.left| && right == rt.id && CanAdd(f, t, rt, h)
      requires |f.keys| < MAX_INNER_KEYS
      modifies this
      ensures Rep(AddKid(f, t, median, rt))
    {
      hide Rep, RepS, Nodes, NodesS, CanAdd, AddKid, LowHalf, HighHalf, Ids, InOrder, Total, Distinct, Fill;
      AddFields(f, t, rt, h);
      InnerInsert(pos, median, right, f.keys, Ids(f.left + [t] + f.right));
      IncreaseTreeCount(1);
      AddedHolds(f, t, median, rt);
    }

    /** The choice of the half, and the counts, after an inner split (bplustree.hpp:364-377). */
    method AddToHalf(pos: nat, median: Key, right: Node, nextRight: Node, size: int, ghost K: seq<Key>,
                     ghost X: seq<Node>)
      requires this != nextRight && !leaf && !nextRight.leaf && pos <= |K| == MAX_INNER_KEYS && |X| == |K| + 1
      requires HoldsKeys(this, K[..5]) && HoldsKids(this, X[..6])
      requires HoldsKeys(nextRight, K[6..]) && HoldsKids(nextRight, X[6..])
      requires 0 <= size && treeCount + 1 < U32_LIMIT && nextRight.treeCount + size + 1 < U32_LIMIT
      requires pos > 5 ==> size <= treeCount
      modifies this, nextRight
      ensures HoldsKeys(this, if pos <= 5 then K[..5][..pos] + [median] + K[..5][pos..] else K[..5])
      ensures HoldsKids(this, if pos <= 5 then X[..6][..pos+1] + [right] + X[..6][pos+1..] else X[..6])
      ensures treeCount == old(treeCount) + if pos <= 5 then 1 else -size
      ensures HoldsKeys(nextRight, if pos <= 5 then K[6..] else K[6..][..pos-6] + [median] + K[6..][pos-6..])
      ensures HoldsKids(nextRight, if pos <= 5 then X[6..] else X[6..][..pos-5] + [right] + X[6..][pos-5..])
      ensures nextRight.treeCount == old(nextRight.treeCount) + if pos <= 5 then 0 else size + 1
    {
      if pos <= numItems {
        InnerInsert(pos, median, right, K[..5], X[..6]);
        IncreaseTreeCount(1);
      } else {
        nextRight.InnerInsert(pos - numItems - 1, median, right, K[6..], X[6..]);
        IncreaseTreeCount(-size);
        nextRight.IncreaseTreeCount(size + 1);
      }
    }

    /** Splits a full node and adds (median, right) to one of the halves (bplustree.hpp:359-379). */
    method SplitChild(pos: nat, median: Key, right: Node, nextRight: Node,
                      ghost f: Frame<Node>, ghost t: Tree<Node>, ghost rt: Tree<Node>, ghost h: int)
      returns (nextMedian: Key)
      requires this == f.id && pos == |f.left| && right == rt.id && CanAdd(f, t, rt, h)
      requires |f.keys| == MAX_INNER_KEYS
      requires nextRight !in Nodes(Fill(f, t)) + Nodes(rt) && !nextRight.leaf
      requires HoldsKeys(nextRight, []) && |nextRight.kidSlots| == MAX_INNER_KEYS + 1
      modifies this, nextRight
      ensures Rep(LowHalf(f, t, median, rt, 5)) && Rep(HighHalf(f, t, median, rt, 5, nextRight))
      ensures nextMedian == f.keys[5]
    {
      hide *;
      ghost var c := f.left + [t] + f.right;
      AddFields(f, t, rt, h);
      MaxInner();
      NextApart(nextRight, Fill(f, t), rt);
      var size := right.TreeCount();
      nextMedian := Split(nextRight, f.keys, c);
      HalfSizes(f, t, rt, h);
      AddToHalf(pos, median, right, nextRight, size, f.keys, Ids(c));
      LowHolds(f, t, median, rt);
      HighHolds(f, t, median, rt, nextRight);
    }

    /** The left half of RebalanceChild (bplustree_internal.hpp:478-511). */
    method RebalanceWithLeft(pos: nat, insertPos: nat, ghost p: Tree<Node>)
      returns (newNode: Node?, newPos: nat, ghost q: Tree<Node>, ghost k: nat, ghost j: nat)
      requires this == p.id && CanRebalance(p, pos) && insertPos <= |p.kids[pos].keys| && pos > 0
      modifies this, p.kids[pos-1].id, p.kids[pos].id
      ensures newNode == null <==> LeftMove(p, pos, insertPos) == 0
      ensures newNode == null ==> unchanged(this, p.kids[pos-1].id, p.kids[pos].id)
      ensures newNode != null ==>
        Rep(q) && SamePlace(p, pos, insertPos, q, k, j, newPos) && Recut(p, q, k) && newNode == q.kids[j].id
    {
      hide Rep, CanRebalance, CanMove, Recut, SamePlace, Nodes, MovedLeft, Pair, HoldsKeys;
      RebalanceFields(p, pos);
      var node, left := kidSlots[pos], kidSlots[pos-1];
      var toMove := ToMove(left.MaxItems() - left.numItems, insertPos == node.numItems);
      if toMove == 0 {
        return null, 0, p, 0, 0;
      }
      var destOldCount := left.numItems;
      LeftPlace(p, pos, insertPos);
      RebalanceChildToLeft(pos, toMove, p);
      q, k := MovedLeft(p, pos - 1, toMove), pos - 1;
      if insertPos < toMove {
        return left, destOldCount + insertPos + 1, q, k, pos - 1;
      } else {
        return node, insertPos - toMove, q, k, pos;
      }
    }

    /** The right half of RebalanceChild (bplustree_internal.hpp:513-532). */
    method RebalanceWithRight(pos: nat, insertPos: nat, ghost p: Tree<Node>)
      returns (newNode: Node?, newPos: nat, ghost q: Tree<Node>, ghost k: nat, ghost j: nat)
      requires this == p.id && CanRebalance(p, pos) && insertPos <= |p.kids[pos].keys| && pos + 1 < |p.kids|
      modifies this, p.kids[pos].id, p.kids[pos+1].id
      ensures newNode == null <==> RightMove(p, pos, insertPos) == 0
      ensures newNode == null ==> unchanged(this, p.kids[pos].id, p.kids[pos+1].id)
      ensures newNode != null ==>
        Rep(q) && SamePlace(p, pos, insertPos, q, k, j, newPos) && Recut(p, q, k) && newNode == q.kids[j].id
    {
      hide Rep, CanRebalance, CanMove, Recut, SamePlace, Nodes, MovedRight, Pair, HoldsKeys;
      RebalanceFields(p, pos);
      var node, right := kidSlots[pos], kidSlots[pos+1];
      var toMove := ToMove(right.MaxItems() - right.numItems, insertPos == 0);
      if toMove == 0 {
        return null, 0, p, 0, 0;
      }
      RightPlace(p, pos, insertPos);
      RebalanceChildToRight(pos, toMove, p);
      q, k := MovedRight(p, pos, toMove), pos;
      KidFields(q, pos);
      if insertPos > node.numItems {
        return right, insertPos - (node.numItems + 1), q, k, pos + 1;
      } else {
        return node, insertPos, q, k, pos;
      }
    }

    /** Moves items out of the full child pos; the result names the place of insertPos after the move. */
    method RebalanceChild(pos: nat, insertPos: nat, ghost p: Tree<Node>)
      returns (newNode: Node?, newPos: nat, ghost q: Tree<Node>, ghost k: nat, ghost j: nat)
      requires this == p.id && CanRebalance(p, pos) && insertPos <= |p.kids[pos].keys|
      modifies this, set t | t in p.kids :: t.id
      ensures newNode == null <==> LeftMove(p, pos, insertPos) == RightMove(p, pos, insertPos) == 0
      ensures newNode == null ==> unchanged(this, set t | t in p.kids :: t.id)
      ensures newNode != null ==>
        Rep(q) && SamePlace(p, pos, insertPos, q, k, j, newPos) && Recut(p, q, k) && newNode == q.kids[j].id
    {
      hide Rep, CanRebalance, CanMove, SamePlace, Nodes;
      RebalanceFields(p, pos);
      AllocT(p);
      newNode, newPos, q, k, j := null, 0, p, 0, 0;
      if pos > 0 {
        newNode, newPos, q, k, j := RebalanceWithLeft(pos, insertPos, p);
      }
      if newNode == null && pos < numItems {
        newNode, newPos, q, k, j := RebalanceWithRight(pos, insertPos, p);
      }
    }
  }

  /** n's first |keys| key slots hold keys. */
  ghost predicate HoldsKeys(n: Node, keys: seq<Key>)
    reads n`keySlots, n`numItems
  {
    |n.keySlots| == n.MaxItems() && n.numItems == |keys| && keys <= n.keySlots
  }

  /** n's first |ids| child slots hold ids. */
  ghost predicate HoldsKids(n: Node, ids: seq<Node>)
    reads n`kidSlots
  {
    |n.kidSlots| == MAX_INNER_KEYS + 1 && ids <= n.kidSlots
  }

  ghost function Ids(kids: seq<Tree<Node>>): (r: seq<Node>)
    ensures |r| == |kids| && forall i :: 0 <= i < |r| ==> r[i] == kids[i].id
  {
    seq(|kids|, i requires 0 <= i < |kids| => kids[i].id)
  }

  lemma {:induction false} IdsSlice(a: seq<Tree<Node>>, n: nat)
    requires n <= |a|
    ensures Ids(a[..n]) == Ids(a)[..n] && Ids(a[n..]) == Ids(a)[n..]
  {
  }

  lemma {:induction false} IdsConcat(a: seq<Tree<Node>>, b: seq<Tree<Node>>)
    ensures Ids(a + b) == Ids(a) + Ids(b)
  {
  }

  /** The memory below t.id is the tree t. */
  ghost predicate Rep(t: Tree<Node>)
    reads Nodes(t)
    decreases t
  {
    && t.id.leaf == t.Leaf? && HoldsKeys(t.id, t.keys)
    && (t.Inner? ==> HoldsKids(t.id, Ids(t.kids)) && t.id.treeCount == t.cnt && RepS(t.kids))
  }

  ghost predicate RepS(kids: seq<Tree<Node>>)
    reads NodesS(kids)
    decreases kids
  {
    kids == [] || (Rep(kids[0]) && RepS(kids[1..]))
  }

  lemma {:induction false} RepConcat(a: seq<Tree<Node>>, b: seq<Tree<Node>>)
    ensures RepS(a + b) <==> RepS(a) && RepS(b)
  {
    if a == [] {
      assert a + b == b;
    } else {
      assert (a + b)[1..] == a[1..] + b;
      RepConcat(a[1..], b);
    }
  }

  lemma {:induction false} RepAt(kids: seq<Tree<Node>>, i: nat)
    requires RepS(kids) && i < |kids|
    ensures Rep(kids[i])
  {
    if i > 0 {
      RepAt(kids[1..], i - 1);
    }
  }

  /** t's own node, leaving its children aside. */
  ghost predicate HoldsNode(t: Tree<Node>)
    reads t.id
  {
    && t.id.leaf == t.Leaf? && HoldsKeys(t.id, t.keys)
    && (t.Inner? ==> HoldsKids(t.id, Ids(t.kids)) && t.id.treeCount == t.cnt)
  }

  /** p's own node and those of its children k and k+1. */
  ghost predicate HoldsPair(p: Tree<Node>, k: nat)
    requires Pair(p, k)
    reads p.id, p.kids[k].id, p.kids[k+1].id
  {
    HoldsNode(p) && HoldsNode(p.kids[k]) && HoldsNode(p.kids[k+1])
  }

  /** The subtrees around and below children k and k+1. */
  ghost predicate RepRest(p: Tree<Node>, k: nat)
    requires Pair(p, k)
    reads RestNodes(p, k)
  {
    RepS(p.kids[..k]) && RepS(p.kids[k+2..]) && RepS(Kids(p.kids[k])) && RepS(Kids(p.kids[k+1]))
  }

  /** Inserts (x, right) at the place RebalanceChild found, and moves right's keys to the node that now holds them. */
  method SettleInsert(node: Node, newNode: Node, newPos: nat, x: Key, right: Node?,
                      ghost q: Tree<Node>, ghost k: nat, ghost pos: nat, ghost j: nat, ghost rt: Tree<Node>)
    requires CanSettle(q, k, pos, j, newPos, rt) && node == q.kids[pos].id && newNode == q.kids[j].id
    requires q.kids[j].Inner? ==> right == rt.id
    modifies node, newNode
    ensures Rep(Settled(q, pos, j, newPos, x, rt))
  {
    hide *;
    SettleFields(q, k, pos, j, newPos, rt);
    SettleKid(q, k, pos, j, newPos, rt);
    ghost var t := q.kids[j];
    WeightOf(t, rt);
    if newNode.leaf {
      newNode.LeafInsert(newPos, x, t.keys);
    } else {
      var size := right.TreeCount();
      newNode.InnerInsert(newPos, x, right, t.keys, Ids(t.kids));
      if newNode != node {
        node.treeCount := node.treeCount - size;
        newNode.treeCount := newNode.treeCount + size + 1;
      } else {
        node.treeCount := node.treeCount + 1;
      }
    }
    GrownHolds(t, newPos, x, rt, if j == pos then 1 else Weight(t, rt) + 1);
    if j != pos { RecountHolds(q.kids[pos], -Weight(t, rt)); }
    SettledRep(q, k, pos, j, newPos, x, rt);
  }

  lemma {:induction false} KidFields(p: Tree<Node>, i: nat)
    requires Rep(p) && p.Inner? && i < |p.kids| == |p.keys| + 1
    ensures !p.id.leaf && p.id.numItems == |p.keys| && |p.id.kidSlots| == MAX_INNER_KEYS + 1
    ensures |p.kids| <= |p.id.kidSlots|
    ensures var t := p.kids[i];
      p.id.kidSlots[i] == t.id && t.id.leaf == t.Leaf? && t.id.numItems == |t.keys| && HoldsKeys(t.id, t.keys)
  {
    RepAt(p.kids, i);
    assert Ids(p.kids)[i] == p.kids[i].id;
  }

  lemma {:induction false} RepPair(p: Tree<Node>, k: nat)
    requires Pair(p, k)
    ensures RepS(p.kids) <==> RepS(p.kids[..k]) && Rep(p.kids[k]) && Rep(p.kids[k+1]) && RepS(p.kids[k+2..])
  {
    var a, b := p.kids[k], p.kids[k+1];
    PairView(p.kids, k);
    RepConcat(p.kids[..k] + [a, b], p.kids[k+2..]);
    RepConcat(p.kids[..k], [a, b]);
    assert [a, b] == [a] + [b] && [a][1..] == [] && [b][1..] == [];
    RepConcat([a], [b]);
  }

  lemma {:induction false} RepParts(p: Tree<Node>, k: nat)
    requires Pair(p, k)
    ensures Rep(p) <==> HoldsPair(p, k) && RepRest(p, k)
  {
    RepPair(p, k);
  }

  lemma {:induction false} AllocT(t: Tree<Node>)
    ensures forall r :: r in Nodes(t) ==> allocated(r)
    decreases t
  {
    if t.Inner? {
      AllocS(t.kids);
    }
  }

  lemma {:induction false} AllocS(kids: seq<Tree<Node>>)
    ensures forall r :: r in NodesS(kids) ==> allocated(r)
    decreases kids
  {
    if kids != [] {
      AllocT(kids[0]);
      AllocS(kids[1..]);
    }
  }

  lemma {:induction false} RecutRest(p: Tree<Node>, q: Tree<Node>, k: nat)
    requires Recut(p, q, k) && RepRest(p, k)
    ensures RepRest(q, k)
  {
    assert q.kids[..k] == p.kids[..k] && q.kids[k+2..] == p.kids[k+2..];
    RepConcat(Kids(p.kids[k]), Kids(p.kids[k+1]));
    RepConcat(Kids(q.kids[k]), Kids(q.kids[k+1]));
  }

  /** The keys of a sibling pair's left-ward move (bplustree_internal.hpp:546-561). */
  method MoveKeysLeft(parent: Node, sep: nat, dest: Node, src: Node, count: nat,
                      ghost K: seq<Key>, ghost A: seq<Key>, ghost B: seq<Key>)
    requires HoldsKeys(parent, K) && HoldsKeys(dest, A) && HoldsKeys(src, B)
    requires parent != dest && parent != src && dest != src && sep < |K|
    requires 1 <= count <= |B| && |A| + count <= dest.MaxItems()
    modifies parent`keySlots, dest`keySlots, src`keySlots
    ensures HoldsKeys(parent, K[sep := B[count-1]])
    ensures |dest.keySlots| == dest.MaxItems() && A + [K[sep]] + B[..count-1] <= dest.keySlots
    ensures |src.keySlots| == src.MaxItems() && B[count..] <= src.keySlots
  {
    var k := Slots.AppendWith(dest.keySlots, dest.numItems, parent.keySlots[sep], src.keySlots, count - 1, A, B);
    dest.keySlots := k;
    parent.keySlots := parent.keySlots[sep := src.keySlots[count-1]];
    k := Slots.MoveDown(src.keySlots, count, src.numItems, B);
    src.keySlots := k;
  }

  method MoveKidsLeft(dest: Node, src: Node, count: nat, ghost X: seq<Node>, ghost Y: seq<Node>)
    requires HoldsKids(dest, X) && HoldsKids(src, Y) && dest != src
    requires |X| == dest.numItems + 1 && |Y| == src.numItems + 1
    requires 1 <= count < |Y| && |X| + count <= MAX_INNER_KEYS + 1
    modifies dest`kidSlots, src`kidSlots
    ensures HoldsKids(dest, X + Y[..count]) && HoldsKids(src, Y[count..])
  {
    var k := Slots.Append(dest.kidSlots, 1 + dest.numItems, src.kidSlots, count, X, Y);
    dest.kidSlots := k;
    k := Slots.MoveDownClear(src.kidSlots, count, src.numItems + 1, null, Y);
    src.kidSlots := k;
  }

  /** Adds up the counts of n children from child a on. */
  method CountKids(node: Node, a: nat, n: nat, ghost kids: seq<Tree<Node>>) returns (c: int)
    requires HoldsKids(node, Ids(kids)) && RepS(kids) && CountedS(kids) && a + n <= |kids|
    ensures c == Total(kids[a..a+n])
  {
    c := 0;
    for i := 0 to n
      invariant RepS(kids) && HoldsKids(node, Ids(kids)) && c == Total(kids[a..a+i])
    {
      RepAt(kids, a + i);
      assert kids[a..a+i+1] == kids[a..a+i] + [kids[a+i]];
      TotalConcat(kids[a..a+i], [kids[a+i]]);
      assert node.kidSlots[a+i] == Ids(kids)[a+i];
      c := c + node.kidSlots[a+i].TreeCount();
    }
  }

  /** The memory of a sibling pair and its parent, moved by count to the left. */
  method MovePairLeft(parent: Node, dest: Node, src: Node, sep: nat, count: nat, moved: int,
                      ghost K: seq<Key>, ghost A: seq<Key>, ghost B: seq<Key>, ghost X: seq<Node>, ghost Y: seq<Node>)
    requires HoldsKeys(parent, K) && HoldsKeys(dest, A) && HoldsKeys(src, B)
    requires dest.leaf == src.leaf && parent != dest && parent != src && dest != src && sep < |K|
    requires 1 <= count <= |B| && |A| + count <= dest.MaxItems()
    requires !dest.leaf ==> HoldsKids(dest, X) && HoldsKids(src, Y) && |X| == |A| + 1 && |Y| == |B| + 1
    requires !dest.leaf ==>
      0 <= moved && dest.treeCount + moved + count < U32_LIMIT && 0 <= src.treeCount - moved - count
    modifies parent`keySlots, dest, src
    ensures HoldsKeys(parent, K[sep := B[count-1]])
    ensures HoldsKeys(dest, A + [K[sep]] + B[..count-1]) && HoldsKeys(src, B[count..])
    ensures !dest.leaf ==> HoldsKids(dest, X + Y[..count]) && HoldsKids(src, Y[count..])
    ensures !dest.leaf ==> dest.treeCount == old(dest.treeCount) + moved + count
    ensures !dest.leaf ==> src.treeCount == old(src.treeCount) - moved - count
  {
    MoveKeysLeft(parent, sep, dest, src, count, K, A, B);
    if !src.leaf {
      MoveKidsLeft(dest, src, count, X, Y);
      dest.treeCount := dest.treeCount + moved + count;
      src.treeCount := src.treeCount - moved - count;
    }
    dest.numItems := dest.numItems + count;
    src.numItems := src.numItems - count;
  }

  lemma {:induction false} SameIds(a: seq<Tree<Node>>, b: seq<Tree<Node>>)
    requires |a| == |b| && forall i :: 0 <= i < |a| ==> a[i].id == b[i].id
    ensures Ids(a) == Ids(b)
  {
  }

  lemma {:induction false} MovedLeftIds(p: Tree<Node>, k: nat, m: nat)
    requires Pair(p, k) && 1 <= m <= |p.kids[k+1].keys|
    ensures var q, a, b := MovedLeft(p, k, m), p.kids[k], p.kids[k+1];
      && Ids(q.kids) == Ids(p.kids)
      && (a.Inner? ==>
        Ids(q.kids[k].kids) == Ids(a.kids) + Ids(b.kids)[..m] && Ids(q.kids[k+1].kids) == Ids(b.kids)[m..])
  {
    hide *;
    PairFacts(p, k);
    var q, a, b := MovedLeft(p, k, m), p.kids[k], p.kids[k+1];
    MovedLeftFields(p, k, m);
    KidsOf(b);
    SameIds(q.kids, p.kids);
    if a.Inner? {
      IdsSlice(b.kids, m);
      IdsConcat(a.kids, b.kids[..m]);
    }
  }

  /** An inner node whose stored count is at least its content. */
  ghost predicate Covers(t: Tree<Node>) {
    t.Inner? && |InOrder(t)| <= t.cnt
  }

  /** What RebalanceChildToLeft and RebalanceChildToRight need of the parent's tree. */
  ghost predicate CanMove(p: Tree<Node>, k: nat)
    reads Nodes(p)
    ensures CanMove(p, k) ==> Pair(p, k) && p.Inner? && k < |p.keys| && |p.kids| == |p.keys| + 1
  {
    && Pair(p, k) && Rep(p) && Distinct(Nodes(p))
    && CountedS(Kids(p.kids[k])) && CountedS(Kids(p.kids[k+1]))
    && (p.kids[k].Inner? ==> Covers(p.kids[k]) && Covers(p.kids[k+1]) && p.kids[k].cnt + p.kids[k+1].cnt < U32_LIMIT)
  }

  lemma {:induction false} PrepareMove(p: Tree<Node>, k: nat)
    requires CanMove(p, k)
    ensures HoldsPair(p, k) && RepRest(p, k)
    ensures p.id != p.kids[k].id && p.id != p.kids[k+1].id && p.kids[k].id != p.kids[k+1].id
    ensures p.id !in RestNodes(p, k) && p.kids[k].id !in RestNodes(p, k) && p.kids[k+1].id !in RestNodes(p, k)
    ensures p.kids[k].Inner? ==> RepS(p.kids[k].kids) && CountedS(p.kids[k].kids)
    ensures p.kids[k+1].Inner? ==> RepS(p.kids[k+1].kids) && CountedS(p.kids[k+1].kids)
    ensures forall r :: r in RestNodes(p, k) ==> allocated(r)
  {
    RepParts(p, k);
    DistinctPair(p, k);
    AllocS(p.kids[..k]);
    AllocS(p.kids[k+2..]);
    AllocS(Kids(p.kids[k]));
    AllocS(Kids(p.kids[k+1]));
  }

  lemma {:induction false} FinishMove(p: Tree<Node>, q: Tree<Node>, k: nat)
    requires Recut(p, q, k) && HoldsPair(q, k) && RepRest(p, k)
    ensures Rep(q)
  {
    RecutRest(p, q, k);
    RepParts(q, k);
  }

  /** The keys of a sibling pair's right-ward move (bplustree_internal.hpp:601-615). */
  method MoveKeysRight(parent: Node, sep: nat, src: Node, dest: Node, count: nat,
                       ghost K: seq<Key>, ghost A: seq<Key>, ghost B: seq<Key>)
    requires HoldsKeys(parent, K) && HoldsKeys(src, A) && HoldsKeys(dest, B)
    requires parent != dest && parent != src && dest != src && sep < |K|
    requires 1 <= count <= |A| && |B| + count <= dest.MaxItems()
    modifies parent`keySlots, dest`keySlots
    ensures HoldsKeys(parent, K[sep := A[|A|-count]])
    ensures |dest.keySlots| == dest.MaxItems() && A[|A|-count+1..] + ([K[sep]] + B) <= dest.keySlots
  {
    var delim := src.keySlots[src.numItems - count];
    var k := Slots.PrependWith(dest.keySlots, dest.numItems, parent.keySlots[sep], src.keySlots, src.numItems,
                               count - 1, B, A);
    dest.keySlots := k;
    parent.keySlots := parent.keySlots[sep := delim];
  }

  method MoveKidsRight(src: Node, dest: Node, count: nat, ghost X: seq<Node>, ghost Y: seq<Node>)
    requires HoldsKids(src, X) && HoldsKids(dest, Y) && dest != src
    requires |X| == src.numItems + 1 && |Y| == dest.numItems + 1
    requires 1 <= count < |X| && |Y| + count <= MAX_INNER_KEYS + 1
    modifies dest`kidSlots, src`kidSlots
    ensures HoldsKids(src, X[..|X|-count]) && HoldsKids(dest, X[|X|-count..] + Y)
  {
    var k := Slots.Prepend(dest.kidSlots, dest.numItems + 1, src.kidSlots, src.numItems + 1, count, Y, X);
    dest.kidSlots := k;
    k := Slots.Clear(src.kidSlots, src.numItems - (count - 1), count, null, X);
    src.kidSlots := k;
  }

  /** The memory of a sibling pair and its parent, moved by count to the right. */
  method MovePairRight(parent: Node, src: Node, dest: Node, sep: nat, count: nat, moved: int, ghost K: seq<Key>,
                       ghost A: seq<Key>, ghost B: seq<Key>, ghost X: seq<Node>, ghost Y: seq<Node>)
    requires HoldsKeys(parent, K) && HoldsKeys(src, A) && HoldsKeys(dest, B)
    requires dest.leaf == src.leaf && parent != dest && parent != src && dest != src && sep < |K|
    requires 1 <= count <= |A| && |B| + count <= dest.MaxItems()
    requires !dest.leaf ==> HoldsKids(src, X) && HoldsKids(dest, Y) && |X| == |A| + 1 && |Y| == |B| + 1
    requires !dest.leaf ==>
      0 <= moved && dest.treeCount + moved + count < U32_LIMIT && 0 <= src.treeCount - moved - count
    modifies parent`keySlots, dest, src
    ensures HoldsKeys(parent, K[sep := A[|A|-count]])
    ensures HoldsKeys(src, A[..|A|-count]) && HoldsKeys(dest, A[|A|-count+1..] + ([K[sep]] + B))
    ensures !dest.leaf ==> HoldsKids(src, X[..|X|-count]) && HoldsKids(dest, X[|X|-count..] + Y)
    ensures !dest.leaf ==> dest.treeCount == old(dest.treeCount) + moved + count
    ensures !dest.leaf ==> src.treeCount == old(src.treeCount) - moved - count
  {
    MoveKeysRight(parent, sep, src, dest, count, K, A, B);
    if !src.leaf {
      MoveKidsRight(src, dest, count, X, Y);
      dest.treeCount := dest.treeCount + moved + count;
      src.treeCount := src.treeCount - moved - count;
    }
    dest.numItems := dest.numItems + count;
    src.numItems := src.numItems - count;
  }

  lemma {:induction false} MovedRightIds(p: Tree<Node>, k: nat, m: nat)
    requires Pair(p, k) && 1 <= m <= |p.kids[k].keys|
    ensures var q, a, b := MovedRight(p, k, m), p.kids[k], p.kids[k+1];
      && Ids(q.kids) == Ids(p.kids)
      && (a.Inner? ==> Ids(q.kids[k].kids) == Ids(a.kids)[..|a.kids|-m]
                       && Ids(q.kids[k+1].kids) == Ids(a.kids)[|a.kids|-m..] + Ids(b.kids))
  {
    hide *;
    PairFacts(p, k);
    var q, a, b := MovedRight(p, k, m), p.kids[k], p.kids[k+1];
    MovedRightFields(p, k, m);
    KidsOf(a);
    SameIds(q.kids, p.kids);
    if a.Inner? {
      IdsSlice(a.kids, |a.kids| - m);
      IdsConcat(a.kids[|a.kids|-m..], b.kids);
    }
  }

  lemma {:induction false} MoveRightBounds(p: Tree<Node>, k: nat, m: nat)
    requires CanMove(p, k) && p.kids[k].Inner? && 1 <= m <= |p.kids[k].keys|
    ensures var a, b := p.kids[k], p.kids[k+1]; var moved := Total(a.kids[|a.kids|-m..]);
       && 0 <= moved && b.cnt + moved + m < U32_LIMIT && 0 <= a.cnt - moved - m
       && a.kids[|a.keys|-(m-1)..|a.keys|-(m-1)+m] == a.kids[|a.kids|-m..]
  {
    var a, b := p.kids[k], p.kids[k+1];
    WeaveSizes(a, b);
    var n := |a.kids| - m;
    assert a.kids == a.kids[..n] + a.kids[n..];
    TotalConcat(a.kids[..n], a.kids[n..]);
    TotalNat(a.kids[..n]);
    TotalNat(a.kids[n..]);
  }

  lemma {:induction false} MovedRightHolds(p: Tree<Node>, k: nat, m: nat)
    requires Pair(p, k) && 1 <= m <= |p.kids[k].keys|
    requires var a, b := p.kids[k], p.kids[k+1];
      && !p.id.leaf && a.id.leaf == b.id.leaf == a.Leaf? == b.Leaf?
      && HoldsKeys(p.id, p.keys[k := a.keys[|a.keys|-m]]) && HoldsKids(p.id, Ids(p.kids))
      && p.id.treeCount == p.cnt
      && HoldsKeys(a.id, a.keys[..|a.keys|-m])
      && HoldsKeys(b.id, a.keys[|a.keys|-m+1..] + ([p.keys[k]] + b.keys))
      && (a.Inner? ==>
        HoldsKids(a.id, Ids(a.kids)[..|a.kids|-m]) && HoldsKids(b.id, Ids(a.kids)[|a.kids|-m..] + Ids(b.kids))
                       && a.id.treeCount == a.cnt - Total(a.kids[|a.kids|-m..]) - m
                       && b.id.treeCount == b.cnt + Total(a.kids[|a.kids|-m..]) + m)
    ensures HoldsPair(MovedRight(p, k, m), k)
  {
    MovedRightIds(p, k, m);
  }

  /** src_move_count of RebalanceChildToRight. */
  method CountMovedRight(src: Node, count: nat, ghost p: Tree<Node>, ghost k: nat) returns (moved: int)
    requires CanMove(p, k) && src == p.kids[k].id && 1 <= count <= |p.kids[k].keys|
    ensures p.kids[k].Inner? ==> var a, b := p.kids[k], p.kids[k+1];
      count <= |a.kids| && moved == Total(a.kids[|a.kids|-count..]) &&
      0 <= moved && b.cnt + moved + count < U32_LIMIT && 0 <= a.cnt - moved - count
  {
    hide *;
    PrepareMove(p, k);
    PairFields(p, k);
    moved := 0;
    if !src.leaf {
      MoveRightBounds(p, k, count);
      moved := CountKids(src, src.numItems - (count - 1), count, p.kids[k].kids);
    }
  }

  /** The local state that MovePairLeft and MovePairRight start from. */
  lemma {:induction false} PairFields(p: Tree<Node>, k: nat)
    requires Pair(p, k) && HoldsPair(p, k)
    ensures var a, b := p.kids[k], p.kids[k+1];
      && !p.id.leaf && HoldsKids(p.id, Ids(p.kids)) && p.id.treeCount == p.cnt
      && HoldsKeys(p.id, p.keys) && HoldsKeys(a.id, a.keys) && HoldsKeys(b.id, b.keys)
      && a.id.leaf == b.id.leaf == a.Leaf? == b.Leaf?
      && |p.id.kidSlots| > k + 1 && p.id.kidSlots[k] == a.id && p.id.kidSlots[k+1] == b.id
      && (a.Inner? ==> HoldsKids(a.id, Ids(a.kids)) && HoldsKids(b.id, Ids(b.kids))
                       && |a.kids| == |a.keys| + 1 && |b.kids| == |b.keys| + 1
                       && a.id.treeCount == a.cnt && b.id.treeCount == b.cnt)
  {
    var a, b := p.kids[k], p.kids[k+1];
    assert Ids(p.kids)[k] == a.id && Ids(p.kids)[k+1] == b.id;
  }

  lemma {:induction false} MoveLeftBounds(p: Tree<Node>, k: nat, m: nat)
    requires CanMove(p, k) && p.kids[k].Inner? && 1 <= m <= |p.kids[k+1].keys|
    ensures var moved, a, b := Total(p.kids[k+1].kids[..m]), p.kids[k], p.kids[k+1];
       0 <= moved && moved + m <= |InOrder(b)| <= b.cnt && a.cnt + moved + m < U32_LIMIT && 0 <= b.cnt - moved - m
  {
    var a, b := p.kids[k], p.kids[k+1];
    WeaveSizes(a, b);
    assert b.kids == b.kids[..m] + b.kids[m..];
    TotalConcat(b.kids[..m], b.kids[m..]);
    TotalNat(b.kids[..m]);
    TotalNat(b.kids[m..]);
  }

  lemma {:induction false} MovedLeftHolds(p: Tree<Node>, k: nat, m: nat)
    requires Pair(p, k) && 1 <= m <= |p.kids[k+1].keys|
    requires var a, b := p.kids[k], p.kids[k+1];
      && !p.id.leaf && a.id.leaf == b.id.leaf == a.Leaf? == b.Leaf?
      && HoldsKeys(p.id, p.keys[k := b.keys[m-1]]) && HoldsKids(p.id, Ids(p.kids)) && p.id.treeCount == p.cnt
      && HoldsKeys(a.id, a.keys + [p.keys[k]] + b.keys[..m-1]) && HoldsKeys(b.id, b.keys[m..])
      && (a.Inner? ==> HoldsKids(a.id, Ids(a.kids) + Ids(b.kids)[..m]) && HoldsKids(b.id, Ids(b.kids)[m..])
                       && a.id.treeCount == a.cnt + Total(b.kids[..m]) + m
                       && b.id.treeCount == b.cnt - Total(b.kids[..m]) - m)
    ensures HoldsPair(MovedLeft(p, k, m), k)
  {
    MovedLeftIds(p, k, m);
  }

  /** What RebalanceChild needs: child pos is full, and it may be paired with either sibling. */
  ghost predicate CanRebalance(p: Tree<Node>, pos: nat)
    reads Nodes(p)
    ensures CanRebalance(p, pos) ==> p.Inner? && pos < |p.kids| == |p.keys| + 1
  {
    && p.Inner? && pos < |p.kids| == |p.keys| + 1 && FreeSlots(p.kids[pos]) == 0 && Rep(p)
    && (pos > 0 ==> CanMove(p, pos - 1) && Filled(p.kids[pos-1]) && FreeSlots(p.kids[pos-1]) >= 0)
    && (pos + 1 < |p.kids| ==> CanMove(p, pos) && Filled(p.kids[pos+1]) && FreeSlots(p.kids[pos+1]) >= 0)
  }

  lemma {:induction false} RebalanceFields(p: Tree<Node>, pos: nat)
    requires CanRebalance(p, pos)
    ensures Rep(p) && FreeSlots(p.kids[pos]) == 0
    ensures p.id.numItems == |p.keys| && |p.kids| <= |p.id.kidSlots|
    ensures forall i :: pos - 1 <= i <= pos + 1 && 0 <= i < |p.kids| ==>
      var t := p.kids[i];
      p.id.kidSlots[i] == t.id && t.id.leaf == t.Leaf? && t.id.numItems == |t.keys| && FreeSlots(t) >= 0
  {
    forall i | pos - 1 <= i <= pos + 1 && 0 <= i < |p.kids|
      ensures var t := p.kids[i]; p.id.kidSlots[i] == t.id && t.id.leaf == t.Leaf? && t.id.numItems == |t.keys|
    {
      KidFields(p, i);
    }
  }

  lemma {:induction false} LeftPlace(p: Tree<Node>, pos: nat, insertPos: nat)
    requires CanRebalance(p, pos) && insertPos <= |p.kids[pos].keys| && LeftMove(p, pos, insertPos) > 0
    ensures var m := LeftMove(p, pos, insertPos);
      && CanMove(p, pos - 1) && Pair(p, pos - 1) && m <= |p.kids[pos].keys| && m <= FreeSlots(p.kids[pos-1])
      && var q := MovedLeft(p, pos - 1, m);
      && |q.kids| == |p.kids| && q.Inner? && q.kids[pos-1].id == p.kids[pos-1].id
      && q.kids[pos].id == p.kids[pos].id
      && SamePlace(p, pos, insertPos, q, pos - 1,
                   if insertPos < m then pos - 1 else pos,
                   if insertPos < m then |p.kids[pos-1].keys| + insertPos + 1 else insertPos - m)
  {
    MovedLeftRecut(p, pos - 1, LeftMove(p, pos, insertPos));
    hide Recut;
  }

  lemma {:induction false} RightPlace(p: Tree<Node>, pos: nat, insertPos: nat)
    requires CanRebalance(p, pos) && insertPos <= |p.kids[pos].keys| && RightMove(p, pos, insertPos) > 0
    ensures var m := RightMove(p, pos, insertPos);
      && CanMove(p, pos) && Pair(p, pos) && m <= |p.kids[pos].keys| && m <= FreeSlots(p.kids[pos+1])
      && var q, n := MovedRight(p, pos, m), |p.kids[pos].keys| - m;
      && q.Inner? && |q.kids| == |p.kids| && |q.kids| == |q.keys| + 1 && |q.kids[pos].keys| == n
      && q.kids[pos].id == p.kids[pos].id && q.kids[pos+1].id == p.kids[pos+1].id
      && SamePlace(p, pos, insertPos, q, pos,
                   if insertPos > n then pos + 1 else pos,
                   if insertPos > n then insertPos - (n + 1) else insertPos)
  {
    MovedRightRecut(p, pos, RightMove(p, pos, insertPos));
    hide Recut;
  }

  lemma {:induction false} MergedHolds(p: Tree<Node>, k: nat)
    requires Pair(p, k) && RepRest(p, k)
    requires var a, b := p.kids[k], p.kids[k+1];
      && !p.id.leaf && a.id.leaf == a.Leaf? == b.Leaf?
      && HoldsKeys(p.id, p.keys[..k] + p.keys[k+1..])
      && HoldsKids(p.id, Ids(p.kids)[..k+1] + Ids(p.kids)[k+2..]) && p.id.treeCount == p.cnt
      && HoldsKeys(a.id, a.keys + [p.keys[k]] + b.keys)
      && (a.Inner? ==> HoldsKids(a.id, Ids(a.kids) + Ids(b.kids)) && a.id.treeCount == a.cnt + b.cnt + 1)
    ensures Rep(Merged(p, k))
  {
    var a, b, q, l, r := p.kids[k], p.kids[k+1], Merged(p, k), p.kids[..k], p.kids[k+2..];
    var m := q.kids[k];
    assert m == (l + [m])[k];
    MergedIds(p, k);
    RepConcat(Kids(a), Kids(b));
    assert Rep(m) by {
      hide RepS;
    }
    RepFocus(l, m, r);
    hide RepS, Ids;
  }

  lemma {:induction false} RepFocus(l: seq<Tree<Node>>, t: Tree<Node>, r: seq<Tree<Node>>)
    ensures RepS(l + [t] + r) <==> RepS(l) && Rep(t) && RepS(r)
  {
    RepConcat(l + [t], r);
    RepConcat(l, [t]);
    assert [t][1..] == [];
  }

  lemma {:induction false} MergedIds(p: Tree<Node>, k: nat)
    requires Pair(p, k)
    ensures Ids(Merged(p, k).kids) == Ids(p.kids)[..k+1] + Ids(p.kids)[k+2..]
    ensures p.kids[k].Inner? ==> Ids(Merged(p, k).kids[k].kids) == Ids(p.kids[k].kids) + Ids(p.kids[k+1].kids)
  {
    hide Ids;
    var l, r, m := p.kids[..k], p.kids[k+2..], Merged(p, k).kids[k];
    assert m == (l + [m])[k];
    if m.Inner? {
      IdsConcat(p.kids[k].kids, p.kids[k+1].kids);
    }
    SameIds(l + [m], p.kids[..k+1]);
    IdsSlice(p.kids, k + 1);
    IdsSlice(p.kids, k + 2);
    IdsConcat(l + [m], r);
  }

  // ---------- repairing a low child ----------

  ghost predicate CanRepair(p: Tree<Node>, h: int, pos: nat)
    reads Nodes(p)
    ensures CanRepair(p, h, pos) ==> p.Inner? && pos < |p.kids| == |p.keys| + 1 && |p.keys| >= 1
  {
    LowAt(p, h, pos) && Rep(p) && Distinct(Nodes(p)) && |InOrder(p)| < U32_LIMIT
  }

  /** q holds p's keys in order with every child well-formed; a merge took one key and one node out of p. */
  /** The child at pos and one of its siblings fit into one node with the separator between them. */
  ghost predicate CanMerge(p: Tree<Node>, h: int, pos: nat)
    requires p.Inner? && pos < |p.kids|
  {
    var n, max := |p.kids[pos].keys| + 1, if h == 2 then MAX_LEAF_KEYS else MAX_INNER_KEYS;
    || (pos > 0 && |p.kids[pos-1].keys| + n <= max)
    || (pos + 1 < |p.kids| && |p.kids[pos+1].keys| + n <= max)
  }

  ghost predicate Repaired(p: Tree<Node>, q: Tree<Node>, h: int, retired: Node?) {
    && p.Inner? && q.Inner? && q.id == p.id && q.cnt == p.cnt && InOrder(q) == InOrder(p)
    && |q.kids| == |q.keys| + 1 && OkS(q.kids, h - 1)
    && (retired == null ==> |q.keys| == |p.keys| && Nodes(q) == Nodes(p))
    && (retired != null ==> |q.keys| == |p.keys| - 1 && Nodes(p) == Nodes(q) + multiset{retired})
  }

  lemma {:induction false} RepairFields(p: Tree<Node>, h: int, pos: nat)
    requires CanRepair(p, h, pos)
    ensures p.id.numItems == |p.keys| && |p.kids| <= |p.id.kidSlots|
    ensures forall i :: pos - 1 <= i <= pos + 1 && 0 <= i < |p.kids| ==>
      var t := p.kids[i];
      p.id.kidSlots[i] == t.id && t.id.leaf == t.Leaf? == (h == 2) && t.id.numItems == |t.keys|
  {
    forall i | pos - 1 <= i <= pos + 1 && 0 <= i < |p.kids|
      ensures var t := p.kids[i];
        p.id.kidSlots[i] == t.id && t.id.leaf == t.Leaf? == (h == 2) && t.id.numItems == |t.keys|
    {
      KidFields(p, i);
      assert Ok(p.kids[i], h - 1) && Body(p.kids[i], h - 1);
    }
  }

  lemma {:induction false} RepairMoves(p: Tree<Node>, h: int, pos: nat, k: nat)
    requires CanRepair(p, h, pos) && k + 1 < |p.kids|
    ensures CanMove(p, k) && (p.kids[k].Inner? ==> p.kids[k].cnt + p.kids[k+1].cnt + 1 < U32_LIMIT)
  {
    LowPair(p, h, pos, k);
    InOrderAtPair(p, k);
    assert Ok(p.kids[k], h - 1) && Ok(p.kids[k+1], h - 1);
    BodyCounted(p.kids[k], h - 1);
    BodyCounted(p.kids[k+1], h - 1);
  }

  lemma {:induction false} BodyCounted(t: Tree<Node>, h: int)
    requires Body(t, h)
    ensures CountedS(Kids(t))
  {
    BodyKids(t, h);
    forall i | 0 <= i < |Kids(t)| ensures Kids(t)[i].Inner? ==> Kids(t)[i].cnt == |InOrder(Kids(t)[i])| {
      assert Ok(Kids(t)[i], h - 1);
    }
  }

  lemma {:induction false} MergeRepairs(p: Tree<Node>, h: int, pos: nat, k: nat)
    requires CanRepair(p, h, pos) && k <= pos <= k + 1 && k + 1 < |p.kids|
    requires |p.kids[k].keys| + 1 + |p.kids[k+1].keys| <= if p.kids[k].Leaf? then MAX_LEAF_KEYS else MAX_INNER_KEYS
    ensures CanMove(p, k) && (p.kids[k].Inner? ==> p.kids[k].cnt + p.kids[k+1].cnt + 1 < U32_LIMIT)
    ensures Repaired(p, Merged(p, k), h, p.kids[k+1].id)
  {
    RepairMoves(p, h, pos, k);
    MergedSame(p, k);
    MergedOkS(p, h, pos, k);
  }

  lemma {:induction false} MoveLeftRepairs(p: Tree<Node>, h: int, pos: nat)
    requires CanRepair(p, h, pos) && pos + 1 < |p.kids|
    requires |p.kids[pos].keys| + 1 + |p.kids[pos+1].keys| >
      if p.kids[pos+1].Leaf? then MAX_LEAF_KEYS else MAX_INNER_KEYS
    ensures var m := (|p.kids[pos+1].keys| - |p.kids[pos].keys|) / 2;
      && CanMove(p, pos) && 1 <= m <= |p.kids[pos+1].keys| && m <= FreeSlots(p.kids[pos])
      && Repaired(p, MovedLeft(p, pos, m), h, null)
  {
    RepairMoves(p, h, pos, pos);
    LowLeftSizes(p, h, pos);
    hide *;
    var m := (|p.kids[pos+1].keys| - |p.kids[pos].keys|) / 2;
    MovedLeftRecut(p, pos, m);
    RepairedBy(p, MovedLeft(p, pos, m), h, pos, pos);
  }

  lemma {:induction false} MoveRightRepairs(p: Tree<Node>, h: int, pos: nat)
    requires CanRepair(p, h, pos) && pos + 1 == |p.kids|
    requires |p.kids[pos-1].keys| + 1 + |p.kids[pos].keys| >
      if p.kids[pos-1].Leaf? then MAX_LEAF_KEYS else MAX_INNER_KEYS
    ensures var m := (|p.kids[pos-1].keys| - |p.kids[pos].keys|) / 2;
      && CanMove(p, pos - 1) && 1 <= m <= |p.kids[pos-1].keys| && m <= FreeSlots(p.kids[pos])
      && Repaired(p, MovedRight(p, pos - 1, m), h, null)
  {
    RepairMoves(p, h, pos, pos - 1);
    LowRightSizes(p, h, pos);
    hide *;
    var m := (|p.kids[pos-1].keys| - |p.kids[pos].keys|) / 2;
    MovedRightRecut(p, pos - 1, m);
    RepairedBy(p, MovedRight(p, pos - 1, m), h, pos, pos - 1);
  }

  lemma {:induction false} RepairedBy(p: Tree<Node>, q: Tree<Node>, h: int, pos: nat, k: nat)
    requires LowAt(p, h, pos) && k <= pos <= k + 1 && Recut(p, q, k)
    requires FreeSlots(q.kids[k]) >= 0 && FreeSlots(q.kids[k+1]) >= 0 && Filled(q.kids[k])
    requires Filled(q.kids[k+1])
    ensures Repaired(p, q, h, null)
  {
    RecutSame(p, q, k);
    RecutOkS(p, q, h, pos, k);
    hide OkS, InOrder, Nodes, LowAt, Filled, FreeSlots;
  }

  // ---------- adding a child ----------

  lemma {:induction false} SplitBounds(kids: seq<Tree<Node>>, n: nat)
    requires n <= |kids|
    ensures 0 <= Total(kids[n..]) <= Total(kids) && kids[n..] == kids[n..n+(|kids|-n)]
  {
    assert kids == kids[..n] + kids[n..];
    TotalConcat(kids[..n], kids[n..]);
    TotalNat(kids[..n]);
    TotalNat(kids[n..]);
  }

  /** A full or roomy node f.id whose child t was just split into t and rt; its count already covers rt. */
  ghost predicate CanAdd(f: Frame<Node>, t: Tree<Node>, rt: Tree<Node>, h: int)
    reads Nodes(Fill(f, t)), Nodes(rt)
    ensures CanAdd(f, t, rt, h) ==> FrameArity(f) && |f.keys| == |f.left| + |f.right|
  {
    && FrameArity(f) && |f.keys| <= MAX_INNER_KEYS && OkS(f.left + [t] + f.right, h) && Ok(rt, h)
    && Filled(rt)
    && Rep(Fill(f, t)) && Rep(rt) && Distinct(Nodes(Fill(f, t)) + Nodes(rt))
    && f.cnt == Total(f.left + [t] + f.right) + |InOrder(rt)| + |f.keys| && f.cnt + 1 < U32_LIMIT
  }

  lemma {:induction false} AddFields(f: Frame<Node>, t: Tree<Node>, rt: Tree<Node>, h: int)
    requires CanAdd(f, t, rt, h)
    ensures var c := f.left + [t] + f.right;
      && HoldsKeys(f.id, f.keys) && !f.id.leaf && HoldsKids(f.id, Ids(c)) && |Ids(c)| == |c| == |f.keys| + 1
      && |f.keys| <= f.id.MaxItems() == MAX_INNER_KEYS
      && f.id.treeCount == f.cnt == Total(c) + |InOrder(rt)| + |f.keys| && f.cnt + 1 < U32_LIMIT
      && RepS(c) && CountedS(c) && Rep(rt) && rt.id.TreeCount() == |InOrder(rt)| && rt.id != f.id
      && f.id !in NodesS(c) && f.id !in Nodes(rt) && f.id in Nodes(Fill(f, t))
      && (forall r :: r in NodesS(c) ==> r in Nodes(Fill(f, t)))
      && (forall r :: r in NodesS(c) ==> allocated(r)) && (forall r :: r in Nodes(rt) ==> allocated(r))
  {
    var c := f.left + [t] + f.right;
    assert Nodes(Fill(f, t)) == multiset{f.id} + NodesS(c);
    AllocS(c);
    AllocT(rt);
    assert rt.id in Nodes(rt);
    var all := Nodes(Fill(f, t)) + Nodes(rt);
    assert all[f.id] == 1;
    forall i | 0 <= i < |c| ensures c[i].Inner? ==> c[i].cnt == |InOrder(c[i])| {
      assert Ok(c[i], h);
    }
    assert Body(rt, h);
  }

  lemma {:induction false} AddedHolds(f: Frame<Node>, t: Tree<Node>, med: Key, rt: Tree<Node>)
    requires FrameArity(f)
    requires var c, p := f.left + [t] + f.right, |f.left|;
      && !f.id.leaf && HoldsKeys(f.id, f.keys[..p] + [med] + f.keys[p..]) && f.id.treeCount == f.cnt + 1
      && HoldsKids(f.id, Ids(c)[..p+1] + [rt.id] + Ids(c)[p+1..]) && RepS(c) && Rep(rt)
    ensures Rep(AddKid(f, t, med, rt))
  {
    var c := f.left + [t] + f.right;
    AddKidKids(f, t, rt);
    RepInsert(c, |f.left| + 1, rt);
    hide RepS, Ids;
  }

  /** Inserting a subtree into a child list. */
  lemma {:induction false} RepInsert(c: seq<Tree<Node>>, i: nat, t: Tree<Node>)
    requires i <= |c|
    ensures RepS(InsertAt(c, i, t)) <==> RepS(c) && Rep(t)
    ensures Ids(InsertAt(c, i, t)) == Ids(c)[..i] + [t.id] + Ids(c)[i..]
  {
    RepInsertS(c, i, t);
    IdsInsert(c, i, t);
  }

  lemma {:induction false} RepInsertS(c: seq<Tree<Node>>, i: nat, t: Tree<Node>)
    requires i <= |c|
    ensures RepS(InsertAt(c, i, t)) <==> RepS(c) && Rep(t)
  {
    hide Rep, RepS;
    RepFocus(c[..i], t, c[i..]);
    RepCut(c, i);
  }

  lemma {:induction false} IdsInsert(c: seq<Tree<Node>>, i: nat, t: Tree<Node>)
    requires i <= |c|
    ensures Ids(InsertAt(c, i, t)) == Ids(c)[..i] + [t.id] + Ids(c)[i..]
  {
    hide Ids;
    IdsConcat(c[..i] + [t], c[i..]);
    IdsConcat(c[..i], [t]);
    IdsOne(t);
    IdsSlice(c, i);
  }

  lemma {:induction false} IdsOne(t: Tree<Node>)
    ensures Ids([t]) == [t.id]
  {
  }

  lemma {:induction false} NextApart(n: Node, p: Tree<Node>, rt: Tree<Node>)
    requires n !in Nodes(p) + Nodes(rt)
    ensures n != p.id && n !in Nodes(p) && n !in Nodes(rt)
  {
  }

  lemma {:induction false} HalfSizes(f: Frame<Node>, t: Tree<Node>, rt: Tree<Node>, h: int)
    requires FrameArity(f) && |f.keys| == MAX_INNER_KEYS
    ensures var c := f.left + [t] + f.right;
      && |c| == MAX_INNER_KEYS + 1 && Total(c) == Total(c[..6]) + Total(c[6..]) && 0 <= Total(c[..6])
      && 0 <= Total(c[6..])
  {
    var c := f.left + [t] + f.right;
    assert c == c[..6] + c[6..];
    TotalConcat(c[..6], c[6..]);
    TotalNat(c[..6]);
    TotalNat(c[6..]);
  }

  lemma {:induction false} LowHolds(f: Frame<Node>, t: Tree<Node>, med: Key, rt: Tree<Node>)
    requires FrameArity(f) && |f.keys| == MAX_INNER_KEYS && !f.id.leaf
    requires var c, p := f.left + [t] + f.right, |f.left|;
      && RepS(c) && Rep(rt)
      && HoldsKeys(f.id, if p <= 5 then f.keys[..5][..p] + [med] + f.keys[..5][p..] else f.keys[..5])
      && HoldsKids(f.id, if p <= 5 then Ids(c)[..6][..p+1] + [rt.id] + Ids(c)[..6][p+1..] else Ids(c)[..6])
      && f.id.treeCount == Total(c[..6]) + 5 + (if p <= 5 then |InOrder(rt)| + 1 else 0)
    ensures Rep(LowHalf(f, t, med, rt, 5))
  {
    var c, p := f.left + [t] + f.right, |f.left|;
    hide RepS, Ids, Total, InOrder;
    RepCut(c, 6);
    IdsSlice(c, 6);
    if p <= 5 {
      RepInsert(c[..6], p + 1, rt);
      TotalInsert(c[..6], p + 1, rt);
    }
  }

  lemma {:induction false} HighHolds(f: Frame<Node>, t: Tree<Node>, med: Key, rt: Tree<Node>, next: Node)
    requires FrameArity(f) && |f.keys| == MAX_INNER_KEYS && !next.leaf
    requires var c, p := f.left + [t] + f.right, |f.left|;
      && RepS(c) && Rep(rt)
      && HoldsKeys(next, if p <= 5 then f.keys[6..] else f.keys[6..][..p-6] + [med] + f.keys[6..][p-6..])
      && HoldsKids(next, if p <= 5 then Ids(c)[6..] else Ids(c)[6..][..p-5] + [rt.id] + Ids(c)[6..][p-5..])
      && next.treeCount == Total(c[6..]) + 4 + (if p <= 5 then 0 else |InOrder(rt)| + 1)
    ensures Rep(HighHalf(f, t, med, rt, 5, next))
  {
    var c, p := f.left + [t] + f.right, |f.left|;
    hide RepS, Ids, Total, InOrder;
    RepCut(c, 6);
    IdsSlice(c, 6);
    if p > 5 {
      RepInsert(c[6..], p - 5, rt);
      TotalInsert(c[6..], p - 5, rt);
    }
  }

  lemma {:induction false} RepCut(c: seq<Tree<Node>>, n: nat)
    requires n <= |c|
    ensures RepS(c) <==> RepS(c[..n]) && RepS(c[n..])
  {
    RepConcat(c[..n], c[n..]);
    assert c == c[..n] + c[n..];
  }

  // ---------- inserting after a rebalancing ----------

  /** q is in memory with room for (x, rt) at position i of child j; pos is the child that counts rt. */
  ghost predicate CanSettle(q: Tree<Node>, k: nat, pos: nat, j: nat, i: nat, rt: Tree<Node>)
    reads Nodes(q), Nodes(rt)
  {
    && Pair(q, k) && k <= pos <= k + 1 && k <= j <= k + 1 && i <= |q.kids[j].keys| && FreeSlots(q.kids[j]) > 0
    && Rep(q) && Distinct(Nodes(q))
    && (q.kids[j].Inner? ==>
         && Rep(rt) && rt.id.TreeCount() == |InOrder(rt)| && q.kids[k].id !in Nodes(rt)
         && q.kids[k+1].id !in Nodes(rt)
         && q.kids[j].cnt + (if j == pos then 1 else |InOrder(rt)| + 1) < U32_LIMIT
         && |InOrder(rt)| <= q.kids[pos].cnt)
  }

  lemma {:induction false} SettleFields(q: Tree<Node>, k: nat, pos: nat, j: nat, i: nat, rt: Tree<Node>)
    requires CanSettle(q, k, pos, j, i, rt)
    ensures Pair(q, k) && q.Inner? && k + 1 < |q.kids| && k <= pos <= k + 1 && k <= j <= k + 1
    ensures HoldsNode(q) && HoldsNode(q.kids[k]) && HoldsNode(q.kids[k+1]) && RepRest(q, k)
    ensures forall r :: r in RestNodes(q, k) ==> allocated(r)
    ensures q.id != q.kids[k].id && q.id != q.kids[k+1].id && q.kids[k].id != q.kids[k+1].id
    ensures q.kids[k].id !in RestNodes(q, k) && q.kids[k+1].id !in RestNodes(q, k)
  {
    hide Rep, Distinct, Nodes, InOrder, RestNodes, FreeSlots;
    RepParts(q, k);
    DistinctPair(q, k);
    AllocRest(q, k);
  }

  lemma {:induction false} AllocRest(q: Tree<Node>, k: nat)
    requires Pair(q, k)
    ensures forall r :: r in RestNodes(q, k) ==> allocated(r)
  {
    AllocS(q.kids[..k]);
    AllocS(q.kids[k+2..]);
    AllocS(Kids(q.kids[k]));
    AllocS(Kids(q.kids[k+1]));
  }

  lemma {:induction false} SettleKid(q: Tree<Node>, k: nat, pos: nat, j: nat, i: nat, rt: Tree<Node>)
    requires CanSettle(q, k, pos, j, i, rt)
    ensures Pair(q, k) && q.Inner? && pos < |q.kids| && j < |q.kids|
    ensures var t := q.kids[j];
      && t.id.leaf == t.Leaf? == q.kids[pos].Leaf? == q.kids[pos].id.leaf
      && HoldsKeys(t.id, t.keys) && HoldsKeys(q.kids[pos].id, q.kids[pos].keys)
      && i <= |t.keys| < t.id.MaxItems() && Arity(t)
    ensures var t, u := q.kids[j], q.kids[pos]; t.Inner? ==>
      && |t.kids| == |t.keys| + 1 && HoldsKids(t.id, Ids(t.kids)) && |Ids(t.kids)| == |t.kids|
      && HoldsKids(u.id, Ids(u.kids)) && t.id.treeCount == t.cnt && u.id.treeCount == u.cnt
      && Rep(rt) && rt.id.TreeCount() == |InOrder(rt)| && q.kids[k].id !in Nodes(rt)
      && q.kids[k+1].id !in Nodes(rt)
      && t.cnt + (if j == pos then 1 else |InOrder(rt)| + 1) < U32_LIMIT && |InOrder(rt)| <= u.cnt
    ensures forall r :: r in Nodes(rt) ==> allocated(r)
  {
    hide Nodes, InOrder, Distinct, RepS;
    RepParts(q, k);
    AllocT(rt);
  }

  lemma {:induction false} GrownHolds(t: Tree<Node>, i: nat, x: Key, rt: Tree<Node>, d: int)
    requires Arity(t) && i <= |t.keys| && t.id.leaf == t.Leaf?
    requires HoldsKeys(t.id, t.keys[..i] + [x] + t.keys[i..])
    requires t.Inner? ==>
      HoldsKids(t.id, Ids(t.kids)[..i+1] + [rt.id] + Ids(t.kids)[i+1..]) && t.id.treeCount == t.cnt + d
    ensures HoldsNode(Grown(t, i, x, rt, d))
  {
    if t.Inner? {
      RepInsert(t.kids, i + 1, rt);
    }
    hide Ids;
  }

  lemma {:induction false} RecountHolds(t: Tree<Node>, d: int)
    requires t.id.leaf == t.Leaf? && HoldsKeys(t.id, t.keys)
    requires t.Inner? ==> HoldsKids(t.id, Ids(t.kids)) && t.id.treeCount == t.cnt + d
    ensures HoldsNode(Recount(t, d))
  {
  }

  lemma {:induction false} SettledRep(q: Tree<Node>, k: nat, pos: nat, j: nat, i: nat, x: Key, rt: Tree<Node>)
    requires Pair(q, k) && k <= pos <= k + 1 && k <= j <= k + 1 && i <= |q.kids[j].keys|
    requires HoldsNode(q) && RepRest(q, k) && (q.kids[j].Inner? ==> Rep(rt))
    requires HoldsNode(Grown(q.kids[j], i, x, rt, if j == pos then 1 else Weight(q.kids[j], rt) + 1))
    requires var o := if j == k then k + 1 else k;
      HoldsNode(if j == pos then q.kids[o] else Recount(q.kids[o], -Weight(q.kids[j], rt)))
    ensures Rep(Settled(q, pos, j, i, x, rt))
  {
    hide *;
    PairFacts(q, k);
    var s := Settled(q, pos, j, i, x, rt);
    SettledKids(q, pos, j, i, x, rt);
    SettledRest(q, k, pos, j, i, x, rt);
    SettledParent(q, pos, j, i, x, rt);
    HoldsPairOf(s, k);
    RepParts(s, k);
  }

  lemma {:induction false} HoldsPairOf(q: Tree<Node>, k: nat)
    requires Pair(q, k) && HoldsNode(q) && HoldsNode(q.kids[k]) && HoldsNode(q.kids[k+1])
    ensures HoldsPair(q, k)
  {
  }

  lemma {:induction false} SettledParent(q: Tree<Node>, pos: nat, j: nat, i: nat, x: Key, rt: Tree<Node>)
    requires q.Inner? && pos < |q.kids| && j < |q.kids| && Arity(q.kids[j]) && i <= |q.kids[j].keys|
    requires HoldsNode(q)
    ensures HoldsNode(Settled(q, pos, j, i, x, rt))
  {
    SameIds(Settled(q, pos, j, i, x, rt).kids, q.kids);
  }

  lemma {:induction false} SettledRest(q: Tree<Node>, k: nat, pos: nat, j: nat, i: nat, x: Key, rt: Tree<Node>)
    requires Pair(q, k) && k <= pos <= k + 1 && k <= j <= k + 1 && i <= |q.kids[j].keys|
    requires RepRest(q, k) && (q.kids[j].Inner? ==> Rep(rt))
    ensures Pair(Settled(q, pos, j, i, x, rt), k) && RepRest(Settled(q, pos, j, i, x, rt), k)
  {
    hide *;
    PairFacts(q, k);
    var s, w := Settled(q, pos, j, i, x, rt), Weight(q.kids[j], rt);
    SettledKids(q, pos, j, i, x, rt);
    GrownFields(q.kids[j], i, x, rt, if j == pos then 1 else w + 1);
    RecountFields(q.kids[pos], -w);
    KidsOf(q.kids[j]);
    if q.kids[j].Inner? {
      RepInsert(q.kids[j].kids, i + 1, rt);
    }
    PairFacts(s, k);
    assert s.kids[..k] == q.kids[..k] && s.kids[k+2..] == q.kids[k+2..];
    RestParts(q, k);
    RestParts(s, k);
    assert RepS([]) by { NoReps(); }
  }

  lemma {:induction false} NoReps()
    ensures RepS([])
  {
  }

  lemma {:induction false} RestParts(p: Tree<Node>, k: nat)
    requires Pair(p, k)
    ensures p.Inner? && k + 1 < |p.kids|
    ensures RepRest(p, k) <==>
      RepS(p.kids[..k]) && RepS(p.kids[k+2..]) && RepS(Kids(p.kids[k])) && RepS(Kids(p.kids[k+1]))
  {
  }
}
