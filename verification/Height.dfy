/** How many keys a tree of a given height holds, so how deep a path can be. */
module Height {
  import opened Keys
  import opened Sequences
  import opened Shape
  import opened Siblings
  import opened Contexts

  function Pow5(n: nat): (r: int)
    ensures r >= 1
  {
    if n == 0 then 1 else 5 * Pow5(n - 1)
  }

  lemma {:induction false} TotalAtLeast<R>(kids: seq<Tree<R>>, m: int)
    requires forall i :: 0 <= i < |kids| ==> |InOrder(kids[i])| >= m
    ensures Total(kids) >= |kids| * m
  {
    if kids != [] {
      TotalAtLeast(kids[1..], m);
      assert |kids| * m == |kids[1..]| * m + m;
    }
  }

  /** A resting subtree below the root holds at least 8 * 5^(h-1) - 1 keys. */
  lemma {:induction false} SubtreeSize<R>(t: Tree<R>, h: int)
    requires Ok(t, h) && Filled(t)
    ensures h >= 1 && |InOrder(t)| >= 8 * Pow5(h - 1) - 1
    decreases t
  {
    assert Body(t, h);
    if t.Inner? {
      var m := 8 * Pow5(h - 2) - 1;
      assert OkS(t.kids, h - 1);
      forall i | 0 <= i < |t.kids| ensures |InOrder(t.kids[i])| >= m {
        assert Ok(t.kids[i], h - 1) && Filled(t.kids[i]);
        SubtreeSize(t.kids[i], h - 1);
      }
      TotalAtLeast(t.kids, m);
      WeaveSize(t.kids, t.keys);
      Times(|t.kids|, 5, m);
    }
  }

  lemma {:induction false} Times(n: int, k: int, m: int)
    requires n >= k && m >= 0
    ensures n * m >= k * m
  {
  }

  /** A tree of height h >= 2 holds at least 16 * 5^(h-2) - 1 keys. */
  lemma {:induction false} TreeSize<R>(t: Tree<R>, h: int)
    requires Ok(t, h) && |t.keys| >= 1 && h >= 2
    ensures |InOrder(t)| >= 16 * Pow5(h - 2) - 1
  {
    assert Body(t, h) && OkS(t.kids, h - 1);
    var m := 8 * Pow5(h - 2) - 1;
    forall i | 0 <= i < |t.kids| ensures |InOrder(t.kids[i])| >= m {
      assert Ok(t.kids[i], h - 1) && Filled(t.kids[i]);
      SubtreeSize(t.kids[i], h - 1);
    }
    TotalAtLeast(t.kids, m);
    WeaveSize(t.kids, t.keys);
    Times(|t.kids|, 2, m);
  }

  lemma {:induction false} Pow5Increases(a: nat, b: nat)
    requires a <= b
    ensures Pow5(a) <= Pow5(b)
  {
    if a < b {
      Pow5Increases(a, b - 1);
    }
  }

  /** With a 32-bit count a path has at most 14 records. */
  lemma {:induction false} HeightBound<R>(t: Tree<R>, h: int)
    requires Ok(t, h) && |t.keys| >= 1 && |InOrder(t)| < U32_LIMIT
    ensures 1 <= h <= 14
  {
    assert Body(t, h);
    Pow5Values();
    if h > 14 {
      TreeSize(t, h);
      Pow5Increases(13, h - 2);
      assert false;
    }
  }

  lemma {:induction false} Pow5Values()
    ensures Pow5(12) == 244140625 && Pow5(13) == 1220703125
  {
    assert Pow5(4) == 625;
    assert Pow5(8) == 390625;
  }

  /** Every node holds a key of its own, so there are no more nodes than keys. */
  lemma {:induction false} NodeCount<R>(t: Tree<R>, h: int)
    requires Ok(t, h) && |t.keys| >= 1
    ensures |Nodes(t)| <= |InOrder(t)|
    decreases t, 1
  {
    assert Body(t, h);
    if t.Inner? {
      NodeCountS(t.kids, h - 1);
      WeaveSize(t.kids, t.keys);
    }
  }

  lemma {:induction false} NodeCountS<R>(kids: seq<Tree<R>>, h: int)
    requires OkS(kids, h)
    ensures |NodesS(kids)| <= Total(kids)
    decreases kids
  {
    if kids != [] {
      assert Ok(kids[0], h) && Filled(kids[0]);
      NodeCount(kids[0], h);
      NodeCountS(kids[1..], h);
    }
  }
}
