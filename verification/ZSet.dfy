/** The sorted set: a tree of (score, hash) keys and two maps (src/zset/bplustree_zset.cpp). */
module ZSet {
  import opened Keys
  import opened Sequences
  import opened Shape
  import opened Order
  import opened BPNode
  import opened Paths
  import opened Cursors
  import opened Deletion
  import opened BTree

  type Member = Bytes

  /** The keys k, the score map and the reverse map describe the same members. */
  ghost predicate Agree(hash: Member -> u64, k: seq<Key>, scores: map<Member, real>, names: map<u64, Member>) {
    Sorted(k) && |k| == |scores| && Listed(hash, k, scores, names) && Mapped(hash, scores, names)
  }

  /** k holds the key of every member, and nothing else. */
  ghost predicate Listed(hash: Member -> u64, k: seq<Key>, scores: map<Member, real>, names: map<u64, Member>) {
    && (forall m :: m in scores ==> Key(scores[m], hash(m)) in k)
    && (forall e :: e in k ==> Named(hash, e, scores, names))
  }

  /** The reverse map leads from the key's hash to the member it stands for. */
  ghost predicate Named(hash: Member -> u64, e: Key, scores: map<Member, real>, names: map<u64, Member>) {
    e.hash in names && names[e.hash] in scores && e == Key(scores[names[e.hash]], hash(names[e.hash]))
  }

  /** The reverse map is the inverse of the hash on the members. */
  ghost predicate Mapped(hash: Member -> u64, scores: map<Member, real>, names: map<u64, Member>) {
    && (forall m :: m in scores ==> hash(m) in names && names[hash(m)] == m)
    && (forall h :: h in names ==> names[h] in scores && hash(names[h]) == h)
  }

  /** No other member has this member's hash. */
  ghost predicate NoCollision(hash: Member -> u64, scores: map<Member, real>, member: Member) {
    forall m :: m in scores && hash(m) == hash(member) ==> m == member
  }

  lemma {:induction false} AgreeAdd(hash: Member -> u64, k: seq<Key>, scores: map<Member, real>,
                                    names: map<u64, Member>, member: Member, score: real)
    requires Agree(hash, k, scores, names) && member !in scores && NoCollision(hash, scores, member)
    ensures var e := Key(score, hash(member));
      && e !in k && LowerBound(k, e) <= |k|
      && Agree(hash, InsertAt(k, LowerBound(k, e), e), scores[member := score], names[hash(member) := member])
  {
    var e := Key(score, hash(member));
    NotListed(hash, k, scores, names, member, score);
    var i := LowerBound(k, e);
    InsertSorted(k, e);
    InsertIn(k, i, e);
    hide Sorted, Lt, LowerBound, InsertAt;
    ListedAdd(hash, k, InsertAt(k, i, e), scores, names, member, score);
    hide Listed, Mapped;
    MappedAdd(hash, scores, names, member, score);
  }

  lemma {:induction false} NotListed(hash: Member -> u64, k: seq<Key>, scores: map<Member, real>,
                                     names: map<u64, Member>, member: Member, score: real)
    requires Listed(hash, k, scores, names) && member !in scores && NoCollision(hash, scores, member)
    ensures Key(score, hash(member)) !in k
  {
  }

  lemma {:induction false} ListedAdd(hash: Member -> u64, k: seq<Key>, k': seq<Key>, scores: map<Member, real>,
                                     names: map<u64, Member>, member: Member, score: real)
    requires Listed(hash, k, scores, names) && member !in scores && NoCollision(hash, scores, member)
    requires forall x :: x in k' <==> x in k || x == Key(score, hash(member))
    ensures Listed(hash, k', scores[member := score], names[hash(member) := member])
  {
    var scores', names' := scores[member := score], names[hash(member) := member];
    forall x | x in k' ensures Named(hash, x, scores', names') {
      if x != Key(score, hash(member)) { assert Named(hash, x, scores, names); }
    }
  }

  lemma {:induction false} MappedAdd(hash: Member -> u64, scores: map<Member, real>, names: map<u64, Member>,
                                     member: Member, score: real)
    requires Mapped(hash, scores, names) && member !in scores && NoCollision(hash, scores, member)
    ensures Mapped(hash, scores[member := score], names[hash(member) := member])
  {
  }

  /** With a second member of the same hash the maps cannot agree, whatever the tree holds. */
  lemma {:induction false} AgreeCollides(hash: Member -> u64, k: seq<Key>, scores: map<Member, real>,
                                         names: map<u64, Member>, member: Member, score: real)
    requires !NoCollision(hash, scores, member)
    ensures !Agree(hash, k, scores[member := score], names[hash(member) := member])
  {
    var m :| m in scores && hash(m) == hash(member) && m != member;
    assert m in scores[member := score];
  }

  /** Two members that collide: tree and maps agree with the first, and with no tree once the second is added. */
  lemma {:induction false} CollidingPair(k: seq<Key>)
    ensures var hash := (m: Member) => 0 as u64; var scores, names := map["a" := 1.0], map[0 as u64 := "a"];
      Agree(hash, [Key(1.0, 0)], scores, names) && !Agree(hash, k, scores["b" := 2.0], names[hash("b") := "b"])
  {
    var hash := (m: Member) => 0 as u64;
    var scores: map<Member, real>, names: map<u64, Member> := map["a" := 1.0], map[0 := "a"];
    var a: Member, b: Member := "a", "b";
    assert a in scores && hash(a) == hash(b) && a != b;
    AgreeCollides(hash, k, scores, names, b, 2.0);
  }

  lemma {:induction false} AgreeRemove(hash: Member -> u64, k: seq<Key>, scores: map<Member, real>,
                                       names: map<u64, Member>, member: Member)
    requires Agree(hash, k, scores, names) && member in scores
    ensures var e := Key(scores[member], hash(member));
      && e in k && LowerBound(k, e) < |k|
      && Agree(hash, RemoveAt(k, LowerBound(k, e)), scores - {member}, names - {hash(member)})
      && NoCollision(hash, scores - {member}, member) && hash(member) in names
  {
    var e := Key(scores[member], hash(member));
    var i := LowerBound(k, e);
    LowerBoundSplits(k, e);
    Removed(k, i);
    RemoveIn(k, i);
    hide Sorted, Lt, LowerBound, RemoveAt;
    MapSize(scores, member);
    ListedRemove(hash, k, RemoveAt(k, i), scores, names, member);
    hide Listed;
    MappedRemove(hash, scores, names, member);
  }

  lemma {:induction false} MapSize<K, V>(m: map<K, V>, x: K)
    requires x in m
    ensures |m - {x}| == |m| - 1
  {
    assert m == (m - {x})[x := m[x]];
  }

  lemma {:induction false} ListedRemove(hash: Member -> u64, k: seq<Key>, k': seq<Key>, scores: map<Member, real>,
                                        names: map<u64, Member>, member: Member)
    requires Listed(hash, k, scores, names) && Mapped(hash, scores, names) && member in scores
    requires forall x :: x in k' <==> x in k && x != Key(scores[member], hash(member))
    ensures Listed(hash, k', scores - {member}, names - {hash(member)})
  {
    var scores', names' := scores - {member}, names - {hash(member)};
    forall m | m in scores' ensures Key(scores'[m], hash(m)) in k' {
      assert names[hash(m)] == m;
    }
    forall x | x in k' ensures Named(hash, x, scores', names') {
      assert Named(hash, x, scores, names);
    }
  }

  lemma {:induction false} MappedRemove(hash: Member -> u64, scores: map<Member, real>, names: map<u64, Member>,
                                        member: Member)
    requires Mapped(hash, scores, names) && member in scores
    ensures Mapped(hash, scores - {member}, names - {hash(member)})
    ensures NoCollision(hash, scores - {member}, member) && hash(member) in names
  {
    assert names[hash(member)] == member;
  }

  lemma {:induction false} InsertSorted(k: seq<Key>, e: Key)
    requires Sorted(k) && e !in k
    ensures Sorted(InsertAt(k, LowerBound(k, e), e))
  {
    hide *;
    LowerBoundSplits(k, e);
    var i := LowerBound(k, e);
    LowerBoundFits(k, e);
    assert k == k[..i] + k[i..];
    forall j | 0 <= j < |k[i..]| ensures Lt(e, k[i..][j]) {
      LtTotal(e, k[i+j]);
      assert k[i+j] in k;
    }
    AboveOf(e, k[i..]);
    SortedInsert(k[..i], e, k[i..]);
    InsertIs(k, i, e);
  }

  lemma {:induction false} LtTotal(a: Key, b: Key)
    ensures Lt(a, b) || Lt(b, a) || a == b
  {
  }

  lemma {:induction false} AboveOf(e: Key, s: seq<Key>)
    requires forall j :: 0 <= j < |s| ==> Lt(e, s[j])
    ensures Above(e, s)
  {
  }

  lemma {:induction false} InsertIs(k: seq<Key>, i: nat, e: Key)
    requires i <= |k|
    ensures InsertAt(k, i, e) == k[..i] + [e] + k[i..]
  {
  }

  lemma {:induction false} InsertIn(k: seq<Key>, i: nat, e: Key)
    requires i <= |k|
    ensures forall x :: x in InsertAt(k, i, e) <==> x in k || x == e
  {
    assert k == k[..i] + k[i..];
  }

  lemma {:induction false} RemoveIn(k: seq<Key>, i: nat)
    requires i < |k| && Sorted(k)
    ensures forall x :: x in RemoveAt(k, i) <==> x in k && x != k[i]
  {
    assert k == k[..i] + [k[i]] + k[i+1..];
  }

  lemma {:induction false} Known(hash: Member -> u64, k: seq<Key>, scores: map<Member, real>, names: map<u64, Member>,
                                 member: Member)
    requires Agree(hash, k, scores, names) && member in scores
    ensures NoCollision(hash, scores, member) && scores[member := scores[member]] == scores
  {
    assert forall m :: m in scores && hash(m) == hash(member) ==> names[hash(m)] == m;
  }

  lemma {:induction false} MapBack<K, V>(m: map<K, V>, x: K, y: V)
    requires x in m
    ensures (m - {x})[x := y] == m[x := y] && |m - {x}| + 1 == |m| && x !in m - {x}
  {
    MapSize(m, x);
  }

  /** Taking the old key out and putting the new one in. */
  lemma {:induction false} AgreeRescore(hash: Member -> u64, k: seq<Key>, scores: map<Member, real>,
                                        names: map<u64, Member>, member: Member, score: real)
    requires Agree(hash, k, scores, names) && member in scores
    ensures var d, e := Key(scores[member], hash(member)), Key(score, hash(member));
      && d in k && LowerBound(k, d) < |k|
      && var l := RemoveAt(k, LowerBound(k, d));
      && |l| + 1 == |k| && e !in l && LowerBound(l, e) <= |l|
      && Agree(hash, InsertAt(l, LowerBound(l, e), e), scores[member := score], names[hash(member) := member])
  {
    hide *;
    AgreeRemove(hash, k, scores, names, member);
    var l := RemoveAt(k, LowerBound(k, Key(scores[member], hash(member))));
    var scores', names' := scores - {member}, names - {hash(member)};
    AgreeListed(hash, k, scores, names);
    AgreeListed(hash, l, scores', names');
    MapBack(scores, member, score);
    MapBack(names, hash(member), member);
    AgreeAdd(hash, l, scores', names', member, score);
  }

  // ---------- the members in order ----------

  /** The members as the tree orders them. */
  ghost function Listing(k: seq<Key>, names: map<u64, Member>): (r: seq<Member>)
    requires forall e :: e in k ==> e.hash in names
    ensures |r| == |k| && forall i :: 0 <= i < |k| ==> r[i] == names[k[i].hash]
  {
    seq(|k|, i requires 0 <= i < |k| => names[k[i].hash])
  }

  lemma {:induction false} AgreeListed(hash: Member -> u64, k: seq<Key>, scores: map<Member, real>,
                                       names: map<u64, Member>)
    requires Agree(hash, k, scores, names)
    ensures forall e :: e in k ==> e.hash in names
    ensures Sorted(k) && |k| == |scores|
  {
    assert forall e :: e in k ==> Named(hash, e, scores, names);
  }

  /** The listing holds every member once, by score and then by hash. */
  lemma {:induction false} ListingOrdered(hash: Member -> u64, k: seq<Key>, scores: map<Member, real>,
                                          names: map<u64, Member>)
    requires Agree(hash, k, scores, names)
    ensures forall e :: e in k ==> e.hash in names
    ensures var l := Listing(k, names);
      && |l| == |scores| && (forall m :: m in l <==> m in scores)
      && (forall i :: 0 <= i < |l| ==> k[i] == Key(scores[l[i]], hash(l[i])))
      && (forall i, j :: 0 <= i < j < |l| ==>
          Lt(Key(scores[l[i]], hash(l[i])), Key(scores[l[j]], hash(l[j]))) && l[i] != l[j])
  {
    AgreeListed(hash, k, scores, names);
    var l := Listing(k, names);
    forall i | 0 <= i < |l| ensures l[i] in scores && k[i] == Key(scores[l[i]], hash(l[i])) {
      assert Named(hash, k[i], scores, names);
    }
    forall m | m in scores ensures m in l {
      var i :| 0 <= i < |k| && k[i] == Key(scores[m], hash(m));
      assert l[i] == m;
    }
  }

  /** Both hashes put members of equal score in the same order. */
  ghost predicate SameTies(hash: Member -> u64, other: Member -> u64, scores: map<Member, real>) {
    forall a, b :: a in scores && b in scores && scores[a] == scores[b] ==>
      (hash(a) < hash(b) <==> other(a) < other(b))
  }

  /** The key that a hash makes of the member at a place. */
  ghost function KeyOf(hash: Member -> u64, scores: map<Member, real>, m: Member): Key
    requires m in scores
  {
    Key(scores[m], hash(m))
  }

  /** l lists every member once, by score and then by hash. */
  ghost predicate Ordered(hash: Member -> u64, scores: map<Member, real>, l: seq<Member>) {
    && |l| == |scores| && (forall m :: m in l <==> m in scores)
    && (forall i, j :: 0 <= i < j < |l| ==> Lt(KeyOf(hash, scores, l[i]), KeyOf(hash, scores, l[j])) && l[i] != l[j])
  }

  lemma {:induction false} OrderedAt(hash: Member -> u64, scores: map<Member, real>, l: seq<Member>, i: nat, j: nat)
    requires Ordered(hash, scores, l) && i < |l| && j < |l|
    ensures |l| == |scores| && l[i] in scores && l[j] in scores && (l[i] == l[j] <==> i == j)
    ensures i < j ==> Lt(KeyOf(hash, scores, l[i]), KeyOf(hash, scores, l[j]))
  {
    hide Lt;
  }

  lemma {:induction false} PlaceOf(hash: Member -> u64, scores: map<Member, real>, l: seq<Member>, m: Member)
    returns (i: nat)
    requires Ordered(hash, scores, l) && m in scores
    ensures i < |l| && l[i] == m
  {
    assert m in l;
    i :| 0 <= i < |l| && l[i] == m;
  }

  lemma {:induction false} SameSize(hash: Member -> u64, other: Member -> u64, scores: map<Member, real>,
                                    l: seq<Member>, r: seq<Member>)
    requires Ordered(hash, scores, l) && Ordered(other, scores, r)
    ensures |l| == |r| && (forall m :: m in l <==> m in r) && forall m :: m in l <==> m in scores
  {
  }

  /** The members at a place of two listings of the same scores may differ, but their scores are the same. */
  lemma {:induction false} SameScores(hash: Member -> u64, other: Member -> u64, scores: map<Member, real>,
                                      l: seq<Member>, r: seq<Member>, i: nat)
    requires Ordered(hash, scores, l) && Ordered(other, scores, r) && i < |l|
    ensures i < |r| && l[i] in scores && r[i] in scores && scores[l[i]] == scores[r[i]]
  {
    SameSize(hash, other, scores, l, r);
    hide Ordered;
    TooMany(hash, other, scores, l, r, i);
    TooMany(other, hash, scores, r, l, i);
  }

  /** Otherwise the i + 1 members up to l[i] would all be among the first i of r. */
  lemma {:induction false} TooMany(hash: Member -> u64, other: Member -> u64, scores: map<Member, real>,
                                   l: seq<Member>, r: seq<Member>, i: nat)
    requires Ordered(hash, scores, l) && Ordered(other, scores, r) && i < |l|
    ensures i < |r| && l[i] in scores && r[i] in scores && scores[l[i]] >= scores[r[i]]
  {
    SameSize(hash, other, scores, l, r);
    hide Ordered;
    var a, b := l[..i+1], r[..i];
    if scores[l[i]] < scores[r[i]] {
      forall m | m in a ensures m in b {
        var j :| 0 <= j <= i && l[j] == m;
        OrderedAt(hash, scores, l, j, i);
        var k := PlaceOf(other, scores, r, m);
        OrderedAt(other, scores, r, i, k);
        assert b[k] == m;
      }
      forall x, y | 0 <= x < y < |a| ensures a[x] != a[y] { OrderedAt(hash, scores, l, x, y); }
      AllAmong(a, b);
    }
  }

  lemma {:induction false} AllAmong(a: seq<Member>, b: seq<Member>)
    requires forall i, j :: 0 <= i < j < |a| ==> a[i] != a[j]
    requires forall m :: m in a ==> m in b
    ensures |a| <= |b|
  {
    SetSize(a);
    SetSize(b);
    assert (set m | m in b) == (set m | m in a) + ((set m | m in b) - (set m | m in a));
  }

  lemma {:induction false} SetSize(l: seq<Member>)
    ensures |set m | m in l| <= |l|
    ensures (forall i, j :: 0 <= i < j < |l| ==> l[i] != l[j]) ==> |set m | m in l| == |l|
  {
    if l != [] {
      var n := |l| - 1;
      SetSize(l[..n]);
      assert (set m | m in l) == (set m | m in l[..n]) + {l[n]};
    }
  }

  /** Two listings of the same scores are equal iff both hashes order members of equal score alike. */
  lemma {:induction false} SameListing(hash: Member -> u64, other: Member -> u64, scores: map<Member, real>,
                                       l: seq<Member>, r: seq<Member>)
    requires Ordered(hash, scores, l) && Ordered(other, scores, r)
    ensures l == r <==> SameTies(hash, other, scores)
  {
    if SameTies(hash, other, scores) {
      OrderedToo(hash, other, scores, r);
      OrderedUnique(hash, scores, l, r);
    }
    hide Ordered;
    if l == r {
      forall a, b | a in scores && b in scores && scores[a] == scores[b]
        ensures hash(a) < hash(b) <==> other(a) < other(b)
      {
        var i := PlaceOf(hash, scores, l, a);
        var j := PlaceOf(hash, scores, l, b);
        OrderedAt(hash, scores, l, i, j);
        OrderedAt(hash, scores, l, j, i);
        OrderedAt(other, scores, l, i, j);
        OrderedAt(other, scores, l, j, i);
      }
    }
  }

  lemma {:induction false} OrderedToo(hash: Member -> u64, other: Member -> u64, scores: map<Member, real>,
                                      l: seq<Member>)
    requires Ordered(other, scores, l) && SameTies(hash, other, scores)
    ensures Ordered(hash, scores, l)
  {
  }

  lemma {:induction false} OrderedUnique(hash: Member -> u64, scores: map<Member, real>, l: seq<Member>, r: seq<Member>)
    requires Ordered(hash, scores, l) && Ordered(hash, scores, r)
    ensures l == r
  {
    SameSize(hash, hash, scores, l, r);
    KeysListed(hash, scores, l);
    KeysListed(hash, scores, r);
    hide Ordered, IsKey;
    var k, k' := KeysOf(hash, scores, l), KeysOf(hash, scores, r);
    SortedUnique(k, k');
    forall i | 0 <= i < |l| ensures l[i] == r[i] {
      var j := PlaceOf(hash, scores, l, r[i]);
      assert k[j] == k'[i] == k[i];
    }
  }

  ghost function KeysOf(hash: Member -> u64, scores: map<Member, real>, l: seq<Member>): seq<Key>
    requires forall m :: m in l ==> m in scores
  {
    seq(|l|, i requires 0 <= i < |l| => KeyOf(hash, scores, l[i]))
  }

  ghost predicate IsKey(hash: Member -> u64, scores: map<Member, real>, e: Key) {
    exists m :: m in scores && e == KeyOf(hash, scores, m)
  }

  lemma {:induction false} KeysListed(hash: Member -> u64, scores: map<Member, real>, l: seq<Member>)
    requires Ordered(hash, scores, l)
    ensures (forall m :: m in l ==> m in scores) && Sorted(KeysOf(hash, scores, l))
    ensures forall e :: e in KeysOf(hash, scores, l) <==> IsKey(hash, scores, e)
  {
    var k := KeysOf(hash, scores, l);
    forall e ensures e in k <==> IsKey(hash, scores, e) {
      if IsKey(hash, scores, e) {
        var m :| m in scores && e == KeyOf(hash, scores, m);
        var i := PlaceOf(hash, scores, l, m);
        assert k[i] == e;
      }
    }
  }

  lemma {:induction false} ListingIs(hash: Member -> u64, k: seq<Key>, scores: map<Member, real>,
                                     names: map<u64, Member>)
    requires Agree(hash, k, scores, names)
    ensures (forall e :: e in k ==> e.hash in names) && Ordered(hash, scores, Listing(k, names))
  {
    ListingOrdered(hash, k, scores, names);
    hide Agree, Lt;
  }

  /** With another hash two members of equal score can change places. */
  lemma {:induction false} SwappedTie()
    ensures var scores := map["a" := 1.0, "b" := 1.0];
      var hash := (m: Member) => if m == "a" then 0 else 1 as u64;
      var other := (m: Member) => if m == "a" then 1 else 0 as u64;
      Ordered(hash, scores, ["a", "b"]) && Ordered(other, scores, ["b", "a"])
  {
  }

  lemma {:induction false} AgreeNone(hash: Member -> u64)
    ensures Agree(hash, [], map[], map[])
  {
  }

  /** The key of a member stands where the member is listed. */
  lemma {:induction false} MemberKey(hash: Member -> u64, k: seq<Key>, scores: map<Member, real>,
                                     names: map<u64, Member>, member: Member)
    requires Agree(hash, k, scores, names) && member in scores
    ensures Key(scores[member], hash(member)) in k
    ensures forall i :: 0 <= i < |k| && k[i] == Key(scores[member], hash(member)) ==>
      hash(member) in names && names[k[i].hash] == member
  {
  }

  /** The members of l with a score from min to max. */
  ghost function InScores(l: seq<Member>, scores: map<Member, real>, min: real, max: real): seq<Member> {
    if l == [] then []
    else (if l[0] in scores && min <= scores[l[0]] <= max then [l[0]] else []) + InScores(l[1..], scores, min, max)
  }

  /** The members in range are those numbered a to b - 1. */
  ghost predicate Banded(l: seq<Member>, scores: map<Member, real>, min: real, max: real, a: int, b: int) {
    forall i :: 0 <= i < |l| ==> l[i] in scores && (min <= scores[l[i]] <= max <==> a <= i < b)
  }

  lemma {:induction false} InScoresAt(l: seq<Member>, scores: map<Member, real>, min: real, max: real, a: nat, b: nat)
    requires a <= b <= |l| && Banded(l, scores, min, max, a, b)
    ensures InScores(l, scores, min, max) == l[a..b]
  {
    if l != [] {
      var t, a', b' := l[1..], if a > 0 then a - 1 else 0, if b > 0 then b - 1 else 0;
      assert Banded(t, scores, min, max, a', b') by {
        forall i | 0 <= i < |t| ensures t[i] in scores && (min <= scores[t[i]] <= max <==> a' <= i < b') {
          assert t[i] == l[i+1];
        }
      }
      InScoresAt(t, scores, min, max, a', b');
      TailSlice(l, a, b);
    }
  }

  /** Exactly the members with such a score, in the order of the listing. */
  lemma {:induction false} RangeMembers(hash: Member -> u64, scores: map<Member, real>, l: seq<Member>, min: real,
                                        max: real)
    requires Ordered(hash, scores, l)
    ensures var r := InScores(l, scores, min, max);
      && (forall m :: m in r <==> m in scores && min <= scores[m] <= max)
      && (forall i, j :: 0 <= i < j < |r| ==> Lt(KeyOf(hash, scores, r[i]), KeyOf(hash, scores, r[j])))
  {
    hide Lt;
    InScoresRising(hash, scores, l, min, max);
  }

  lemma {:induction false} InScoresRising(hash: Member -> u64, scores: map<Member, real>, l: seq<Member>, min: real,
                                          max: real)
    requires forall m :: m in l ==> m in scores
    requires forall i, j :: 0 <= i < j < |l| ==> Lt(KeyOf(hash, scores, l[i]), KeyOf(hash, scores, l[j]))
    ensures var r := InScores(l, scores, min, max);
      && (forall m :: m in r <==> m in l && min <= scores[m] <= max)
      && (forall i, j :: 0 <= i < j < |r| ==> Lt(KeyOf(hash, scores, r[i]), KeyOf(hash, scores, r[j])))
  {
    hide Lt;
    if l != [] {
      var t := l[1..];
      assert forall m :: m in l <==> m == l[0] || m in t;
      assert forall i :: 0 <= i < |t| ==> t[i] == l[i+1];
      InScoresRising(hash, scores, t, min, max);
      var u := InScores(t, scores, min, max);
      forall i | 0 <= i < |u| ensures Lt(KeyOf(hash, scores, l[0]), KeyOf(hash, scores, u[i])) {
        assert u[i] in t;
        var j :| 0 <= j < |t| && t[j] == u[i];
        assert l[j+1] == u[i];
      }
    }
  }

  lemma {:induction false} TailSlice<T>(l: seq<T>, a: nat, b: nat)
    requires a <= b <= |l| && l != []
    ensures var s := l[1..][if a > 0 then a - 1 else 0 .. if b > 0 then b - 1 else 0];
      l[a..b] == if a == 0 < b then [l[0]] + s else s
  {
  }

  /** The members numbered start to stop, counted from the front or from the back. */
  ghost function InRanks(l: seq<Member>, start: nat, stop: nat, reverse: bool): seq<Member> {
    var n := if stop < |l| then stop + 1 else |l|;
    if start >= n then []
    else seq(n - start, i requires 0 <= i < n - start => if reverse then l[|l|-1-start-i] else l[start+i])
  }

  /** The entry of a member in a reply; its score is 0.0 unless asked for. */
  function Entry(m: Member, scores: map<Member, real>, withScores: bool): (Member, real) {
    (m, if withScores && m in scores then scores[m] else 0.0)
  }

  ghost function Entries(l: seq<Member>, scores: map<Member, real>, withScores: bool): (r: seq<(Member, real)>)
    ensures |r| == |l| && forall i :: 0 <= i < |l| ==> r[i] == Entry(l[i], scores, withScores)
  {
    seq(|l|, i requires 0 <= i < |l| => Entry(l[i], scores, withScores))
  }

  /** What a reply to a range of ranks holds: the members of ranks start to stop, as far as there are any. */
  lemma {:induction false} RankedEntries(l: seq<Member>, scores: map<Member, real>, start: nat, stop: nat,
                                         reverse: bool, withScores: bool)
    ensures var r, last := Entries(InRanks(l, start, stop, reverse), scores, withScores),
        if stop < |l| then stop else |l| - 1;
      && |r| == (if start > last then 0 else last - start + 1)
      && forall i :: 0 <= i < |r| ==> RankedEntry(r[i], l, scores, start + i, reverse, withScores)
  {
    InRanksSize(l, start, stop, reverse);
    var w := InRanks(l, start, stop, reverse);
    forall i | 0 <= i < |w|
      ensures RankedEntry(Entry(w[i], scores, withScores), l, scores, start + i, reverse, withScores)
    {
      InRanksAt(l, start, stop, reverse, i);
    }
    hide InRanks, RankedEntry;
  }

  /** The member of this rank, from the front or the back, and its score if it was asked for. */
  ghost predicate RankedEntry(e: (Member, real), l: seq<Member>, scores: map<Member, real>, rank: nat, reverse: bool,
                              withScores: bool)
  {
    && rank < |l| && e.0 == l[if reverse then |l| - 1 - rank else rank]
    && (e.0 in scores ==> e.1 == if withScores then scores[e.0] else 0.0)
  }

  lemma {:induction false} EntryOf(m: Member, scores: map<Member, real>, withScores: bool)
    ensures m in scores ==> Entry(m, scores, withScores) == (m, if withScores then scores[m] else 0.0)
  {
  }

  lemma {:induction false} U64Zero()
    ensures 0 < U64_LIMIT
  {
  }

  lemma {:induction false} RangeBound(k: seq<Key>, min: real)
    ensures LowerBound(k, Key(min, 0)) <= |k|
  {
  }

  lemma {:induction false} EntriesNone(l: seq<Member>, scores: map<Member, real>, withScores: bool)
    ensures Entries(l[..0], scores, withScores) == [] && (l == [] ==> Entries(l, scores, withScores) == [])
  {
  }

  lemma {:induction false} EntriesAll(l: seq<Member>, n: nat, scores: map<Member, real>, withScores: bool)
    requires n <= |l|
    ensures n == |l| ==> Entries(l[..n], scores, withScores) == Entries(l, scores, withScores)
  {
    if n == |l| { assert l[..n] == l; }
  }

  lemma {:induction false} InRanksSize(l: seq<Member>, start: nat, stop: nat, reverse: bool)
    ensures var n := if stop < |l| then stop + 1 else |l|;
      |InRanks(l, start, stop, reverse)| == if start < n then n - start else 0
  {
  }

  lemma {:induction false} InRanksAt(l: seq<Member>, start: nat, stop: nat, reverse: bool, i: nat)
    requires i < |InRanks(l, start, stop, reverse)|
    ensures start + i < |l|
    ensures InRanks(l, start, stop, reverse)[i] == if reverse then l[|l|-1-start-i] else l[start+i]
  {
  }

  lemma {:induction false} PrefixNext(l: seq<Member>, r: nat, scores: map<Member, real>, withScores: bool,
                                      result: seq<(Member, real)>)
    requires r < |l| && result == Entries(l[..r], scores, withScores)
    ensures result + [Entry(l[r], scores, withScores)] == Entries(l[..r+1], scores, withScores)
  {
  }

  lemma {:induction false} EntriesNext(l: seq<Member>, a: nat, r: nat, scores: map<Member, real>,
                                       withScores: bool, result: seq<(Member, real)>)
    requires a <= r < |l| && result == Entries(l[a..r], scores, withScores)
    ensures result + [Entry(l[r], scores, withScores)] == Entries(l[a..r+1], scores, withScores)
  {
  }

  /** In a sorted list the keys from the lower bound of (min, 0) on are those with a score of at least min. */
  lemma {:induction false} RangeStart(k: seq<Key>, min: real)
    requires Sorted(k)
    ensures var a := LowerBound(k, Key(min, 0)); a <= |k| && forall i :: 0 <= i < |k| ==>
      (min <= k[i].score <==> a <= i)
  {
    LowerBoundSplits(k, Key(min, 0));
    var a := LowerBound(k, Key(min, 0));
    assert forall i :: 0 <= i < a ==> k[i] == k[..a][i];
  }

  /** The walk over a score range has seen the members a to r - 1 and no more are in range. */
  lemma {:induction false} RangeDone(k: seq<Key>, l: seq<Member>, scores: map<Member, real>,
                                     hash: Member -> u64, min: real, max: real, a: nat, r: nat)
    requires Sorted(k) && |l| == |k| && a == LowerBound(k, Key(min, 0)) && a <= r <= |k|
    requires forall i :: 0 <= i < |l| ==> l[i] in scores && k[i] == Key(scores[l[i]], hash(l[i]))
    requires (forall i :: a <= i < r ==> k[i].score <= max) && (r < |k| ==> k[r].score > max)
    ensures InScores(l, scores, min, max) == l[a..r]
  {
    RangeStart(k, min);
    InScoresAt(l, scores, min, max, a, r);
  }

  lemma {:induction false} RemovedSize(k: seq<Key>, i: nat)
    ensures i < |k| ==> |RemoveAt(k, i)| == |k| - 1
  {
  }

  lemma {:induction false} LowerBoundFits(k: seq<Key>, e: Key)
    ensures LowerBound(k, e) <= |k| && |InsertAt(k, LowerBound(k, e), e)| == |k| + 1
  {
  }

  lemma {:induction false} SameScore(scores: map<Member, real>, m: Member)
    ensures m in scores ==> scores[m := scores[m]] == scores
  {
  }

  class ZSetBPlus {
    const hash: Member -> u64
    const orderedSet: BPTree
    var memberToScore: map<Member, real>
    var hashToMember: map<u64, Member>

    ghost predicate Valid()
      reads this, orderedSet, set n | n in orderedSet.Repr()
    {
      orderedSet.Valid() && Agree(hash, orderedSet.Contents(), memberToScore, hashToMember)
    }

    /** The members in the order of the set. */
    ghost function Members(): (l: seq<Member>)
      requires Valid()
      reads this, orderedSet, set n | n in orderedSet.Repr()
    {
      AgreeListed(hash, orderedSet.Contents(), memberToScore, hashToMember);
      Listing(orderedSet.Contents(), hashToMember)
    }

    constructor (hash: Member -> u64)
      ensures Valid() && memberToScore == map[] && this.hash == hash && fresh(orderedSet)
      ensures orderedSet.Repr() == multiset{}
    {
      this.hash := hash;
      orderedSet := new BPTree();
      memberToScore := map[];
      hashToMember := map[];
    }

    function MakeElement(member: Member, score: real): Key {
      Key(score, hash(member))
    }

    lemma {:induction false} MakeElementOf(member: Member, score: real)
      ensures MakeElement(member, score) == Key(score, hash(member))
    {
    }

    lemma {:induction false} ValidParts()
      requires Valid()
      ensures orderedSet.Valid() && Agree(hash, orderedSet.Contents(), memberToScore, hashToMember)
      ensures forall n :: n in orderedSet.Repr() ==> allocated(n)
      ensures |orderedSet.Contents()| == |memberToScore| == orderedSet.count < U32_LIMIT
    {
      orderedSet.ValidParts();
    }

    /** The order of the set: every member once, by score and then by hash. */
    lemma {:induction false} MembersParts()
      requires Valid()
      ensures var k, l := orderedSet.Contents(), Members();
        && |l| == |k| == |memberToScore| && (forall m :: m in l <==> m in memberToScore) && Sorted(k)
        && (forall i :: 0 <= i < |l| ==> k[i].hash in hashToMember && l[i] == hashToMember[k[i].hash])
        && (forall i :: 0 <= i < |l| ==> l[i] in memberToScore && k[i] == Key(memberToScore[l[i]], hash(l[i])))
        && (forall i, j :: 0 <= i < j < |l| ==> Lt(k[i], k[j]) && l[i] != l[j])
    {
      ListingOrdered(hash, orderedSet.Contents(), memberToScore, hashToMember);
    }

    lemma {:induction false} ValidOf()
      requires orderedSet.Valid()
      ensures Valid() <==> Agree(hash, orderedSet.Contents(), memberToScore, hashToMember)
    {
    }

    /** Moves a member to its new score (bplustree_zset.cpp:18-30). */
    method Rescore(member: Member, oldScore: real, score: real)
      requires orderedSet.Valid() && member in memberToScore && memberToScore[member] == oldScore
      requires Valid() || |orderedSet.Contents()| + 1 < U32_LIMIT
      modifies this, orderedSet, set n | n in orderedSet.Repr()
      ensures orderedSet.Valid() && |orderedSet.Contents()| <= |old(orderedSet.Contents())| + 1
      ensures old(Valid()) ==> Valid()
      ensures memberToScore == old(memberToScore)[member := score]
      ensures forall n :: n in orderedSet.Repr() ==> n in old(orderedSet.Repr()) || fresh(n)
    {
      hide *;
      orderedSet.ValidParts();
      ghost var sound, k, scores, names := Valid(), orderedSet.Contents(), memberToScore, hashToMember;
      if sound {
        ValidParts();
        AgreeRescore(hash, k, scores, names, member, score);
      }
      MakeElementOf(member, oldScore);
      MakeElementOf(member, score);
      MoveElement(MakeElement(member, oldScore), MakeElement(member, score));
      orderedSet.ValidParts();
      memberToScore := memberToScore[member := score];
      hashToMember := hashToMember[hash(member) := member];
      ValidOf();
    }

    /** Takes one key out of the tree and puts another in. */
    method MoveElement(from: Key, to: Key)
      requires orderedSet.Valid()
      requires from in orderedSet.Contents() || |orderedSet.Contents()| + 1 < U32_LIMIT
      modifies orderedSet, set n | n in orderedSet.Repr()
      ensures orderedSet.Valid() && |orderedSet.Contents()| <= |old(orderedSet.Contents())| + 1
      ensures var k := old(orderedSet.Contents());
        from in k ==> LowerBound(k, from) < |k| && var l := RemoveAt(k, LowerBound(k, from));
          LowerBound(l, to) <= |l| && orderedSet.Contents() == if to in l then l else InsertAt(l, LowerBound(l, to), to)
      ensures forall n :: n in orderedSet.Repr() ==> n in old(orderedSet.Repr()) || fresh(n)
    {
      hide *;
      orderedSet.ValidParts();
      ghost var k := orderedSet.Contents();
      var deleted := orderedSet.Delete(from);
      orderedSet.ValidParts();
      RemovedSize(k, LowerBound(k, from));
      LowerBoundFits(orderedSet.Contents(), to);
      var inserted := orderedSet.Insert(to);
    }

    /** Adds member or changes its score.  A sound set stays so exactly if no other member has the same hash. */
    method Add(member: Member, score: real) returns (added: bool)
      requires orderedSet.Valid() && |orderedSet.Contents()| + 1 < U32_LIMIT
      modifies this, orderedSet, set n | n in orderedSet.Repr()
      ensures memberToScore == old(memberToScore)[member := score] && added == (member !in old(memberToScore))
      ensures orderedSet.Valid() && |orderedSet.Contents()| <= |old(orderedSet.Contents())| + 1
      ensures old(Valid()) ==> (Valid() <==> NoCollision(hash, old(memberToScore), member))
      ensures forall n :: n in orderedSet.Repr() ==> n in old(orderedSet.Repr()) || fresh(n)
    {
      hide *;
      orderedSet.ValidParts();
      ghost var sound, k, scores, names := Valid(), orderedSet.Contents(), memberToScore, hashToMember;
      if sound { ValidParts(); }
      if member in memberToScore {
        var oldScore := memberToScore[member];
        if sound { Known(hash, k, scores, names, member); }
        if oldScore != score {
          Rescore(member, oldScore, score);
        }
        SameScore(scores, member);
        added := false;
      } else {
        if sound && NoCollision(hash, scores, member) { AgreeAdd(hash, k, scores, names, member, score); }
        MakeElementOf(member, score);
        LowerBoundFits(k, Key(score, hash(member)));
        var inserted := orderedSet.Insert(MakeElement(member, score));
        orderedSet.ValidParts();
        memberToScore := memberToScore[member := score];
        hashToMember := hashToMember[hash(member) := member];
        if !NoCollision(hash, scores, member) {
          AgreeCollides(hash, orderedSet.Contents(), scores, names, member, score);
        }
        ValidOf();
        added := true;
      }
    }

    method Remove(member: Member) returns (removed: bool)
      requires orderedSet.Valid()
      modifies this, orderedSet, set n | n in orderedSet.Repr()
      ensures orderedSet.Valid() && (old(Valid()) ==> Valid()) && removed == (member in old(memberToScore))
      ensures memberToScore == old(memberToScore) - {member}
      ensures forall n :: n in orderedSet.Repr() ==> n in old(orderedSet.Repr())
    {
      hide *;
      orderedSet.ValidParts();
      if member in memberToScore {
        ghost var sound, k, scores, names := Valid(), orderedSet.Contents(), memberToScore, hashToMember;
        var score := memberToScore[member];
        if sound {
          ValidParts();
          AgreeRemove(hash, k, scores, names, member);
        }
        MakeElementOf(member, score);
        var deleted := orderedSet.Delete(MakeElement(member, score));
        orderedSet.ValidParts();
        memberToScore := memberToScore - {member};
        hashToMember := hashToMember - {hash(member)};
        ValidOf();
        return true;
      }
      return false;
    }

    /** After a collision, too, the set is sound again once it is cleared. */
    method Clear()
      requires orderedSet.Valid()
      modifies this, orderedSet, set n | n in orderedSet.Repr()
      ensures Valid() && memberToScore == map[] && orderedSet.Repr() == multiset{}
    {
      hide Agree, BPTree.Valid, BPTree.Contents, BPTree.Repr;
      orderedSet.ValidParts();
      orderedSet.Clear();
      orderedSet.ValidParts();
      memberToScore := map[];
      hashToMember := map[];
      AgreeNone(hash);
    }

    method Size() returns (n: int)
      requires Valid()
      ensures n == |memberToScore|
    {
      hide *;
      ValidParts();
      n := orderedSet.count;
    }

    method FindMemberByHash(h: u64) returns (member: Option<Member>)
      ensures member == if h in hashToMember then Some(hashToMember[h]) else None
    {
      if h in hashToMember {
        return Some(hashToMember[h]);
      }
      return None;
    }

    method GetScore(member: Member) returns (score: Option<real>)
      ensures score == if member in memberToScore then Some(memberToScore[member]) else None
    {
      if member in memberToScore {
        return Some(memberToScore[member]);
      }
      return None;
    }

    /** The member's index in the order of the set, or from its end. */
    method GetRank(member: Member, reverse: bool) returns (rank: Option<int>)
      requires Valid()
      ensures Valid() && (rank.Some? <==> member in memberToScore)
      ensures rank.Some? ==>
        && 0 <= rank.value < |Members()|
        && Members()[if reverse then |Members()| - 1 - rank.value else rank.value] == member
    {
      hide *;
      ValidParts();
      if member !in memberToScore {
        return None;
      }
      MembersParts();
      MemberKey(hash, orderedSet.Contents(), memberToScore, hashToMember, member);
      MakeElementOf(member, memberToScore[member]);
      rank := orderedSet.GetRank(MakeElement(member, memberToScore[member]), reverse);
    }

    /** What a walk along the tree's keys needs. */
    lemma {:induction false} WalkParts(a: nat)
      requires Valid() && orderedSet.count > 0
      ensures orderedSet.Valid() && orderedSet.root != null && orderedSet.shape.Some?
      ensures var s, h := orderedSet.shape.value, orderedSet.height;
        && Rep(s) && Ok(s, h) && |s.keys| >= 1 && h <= MAX_DEPTH && InOrder(s) == orderedSet.Contents()
        && (forall n :: n in Nodes(s) ==> allocated(n)) && (a < |InOrder(s)| ==> PathTo(s, a) != [])
    {
      hide *;
      ValidParts();
      orderedSet.ValidParts();
      var s, h := orderedSet.shape.value, orderedSet.height;
      DescendRoot(s, h);
      MaxDepth();
      AllocT(s);
      NodeArity(s, h);
      if a < |InOrder(s)| { PathSome(s, a); }
    }

    /** The members with a score from min to max, in order. */
    method GetRangeByScore(min: real, max: real, withScores: bool) returns (result: seq<(Member, real)>)
      requires Valid()
      ensures Valid()
      ensures result == Entries(InScores(Members(), memberToScore, min, max), memberToScore, withScores)
    {
      hide *;
      ValidParts();
      MembersParts();
      U64Zero();
      result := [];
      ghost var k, l := orderedSet.Contents(), Members();
      RangeBound(k, min);
      ghost var r := LowerBound(k, Key(min, 0));
      if orderedSet.count > 0 {
        WalkParts(r);
        var path := orderedSet.GEQ(Key(min, 0));
        if path.record != [] {
          result, r := CollectScores(path, max, withScores, orderedSet.shape.value, orderedSet.height, k, l, r);
        }
      }
      RangeDone(k, l, memberToScore, hash, min, max, LowerBound(k, Key(min, 0)), r);
    }

    /** The loop of GetRangeByScore. */
    method CollectScores(path: Path, max: real, withScores: bool, ghost s: Tree<Node>, ghost h: int,
                         ghost k: seq<Key>, ghost l: seq<Member>, ghost a: nat)
      returns (result: seq<(Member, real)>, ghost r: nat)
      requires Rep(s) && Ok(s, h) && |s.keys| >= 1 && h <= MAX_DEPTH && InOrder(s) == k && |l| == |k|
      requires a < |k| && path.record == PathTo(s, a)
      requires forall i :: 0 <= i < |l| ==> k[i].hash in hashToMember && l[i] == hashToMember[k[i].hash]
      requires forall i :: 0 <= i < |l| ==> l[i] in memberToScore && k[i].score == memberToScore[l[i]]
      modifies path
      ensures a <= r <= |k| && result == Entries(l[a..r], memberToScore, withScores)
      ensures (forall i :: a <= i < r ==> k[i].score <= max) && (r < |k| ==> k[r].score > max)
    {
      hide *;
      AllocT(s);
      result, r := [], a;
      while true
        invariant Rep(s) && a <= r < |k| && path.record == PathTo(s, r)
        invariant result == Entries(l[a..r], memberToScore, withScores)
        invariant forall i :: a <= i < r ==> k[i].score <= max
        decreases |k| - r
      {
        ghost var c, t, p := PathAt(s, h, r);
        var elem := path.Terminal(s, h, r);
        if elem.score > max {
          return;
        }
        var member := FindMemberByHash(elem.hash);
        if member.Some? {
          EntriesNext(l, a, r, memberToScore, withScores, result);
          EntryOf(member.value, memberToScore, withScores);
          result := result + [(member.value, if withScores then elem.score else 0.0)];
        }
        var more := path.Next(s, h, c, t, p);
        r := r + 1;
        if !more {
          return;
        }
      }
    }

    /** CountRange is the length of that range. */
    method CountRange(min: real, max: real) returns (n: int)
      requires Valid()
      ensures Valid() && n == |InScores(Members(), memberToScore, min, max)|
    {
      hide *;
      ValidParts();
      MembersParts();
      U64Zero();
      n := 0;
      ghost var k, l := orderedSet.Contents(), Members();
      RangeBound(k, min);
      ghost var a := LowerBound(k, Key(min, 0));
      if orderedSet.count > 0 {
        WalkParts(a);
        var path := orderedSet.GEQ(Key(min, 0));
        if path.record != [] {
          n := CountScores(path, max, orderedSet.shape.value, orderedSet.height, k, a);
        }
      }
      RangeDone(k, l, memberToScore, hash, min, max, a, a + n);
    }

    /** The loop of CountRange. */
    method CountScores(path: Path, max: real, ghost s: Tree<Node>, ghost h: int, ghost k: seq<Key>, ghost a: nat)
      returns (count: int)
      requires Rep(s) && Ok(s, h) && |s.keys| >= 1 && h <= MAX_DEPTH && InOrder(s) == k && a < |k|
      requires path.record == PathTo(s, a)
      modifies path
      ensures 0 <= count <= |k| - a
      ensures forall i :: a <= i < a + count ==> k[i].score <= max
      ensures a + count < |k| ==> k[a + count].score > max
    {
      hide *;
      AllocT(s);
      count := 0;
      while true
        invariant Rep(s) && 0 <= count < |k| - a && path.record == PathTo(s, a + count)
        invariant forall i :: a <= i < a + count ==> k[i].score <= max
        decreases |k| - count
      {
        ghost var c, t, p := PathAt(s, h, a + count);
        var elem := path.Terminal(s, h, a + count);
        if elem.score > max {
          return;
        }
        count := count + 1;
        var more := path.Next(s, h, c, t, p);
        if !more {
          return;
        }
      }
    }

    /** The members of ranks start to stop, in order or from the end. */
    method GetRangeByRank(start: u64, stop: u64, reverse: bool, withScores: bool)
      returns (result: seq<(Member, real)>)
      requires Valid()
      ensures Valid()
      ensures result == Entries(InRanks(Members(), start, stop, reverse), memberToScore, withScores)
    {
      hide *;
      result := [];
      ghost var l := Members();
      ghost var w := InRanks(l, start, stop, reverse);
      MembersSize();
      InRanksSize(l, start, stop, reverse);
      EntriesNone(w, memberToScore, withScores);
      var size := orderedSet.count;
      if start >= size {
        return;
      }
      var last: int := if stop < size - 1 then stop else size - 1;
      var i: int := start;
      while i <= last
        invariant Valid() && Members() == l && start <= i && (i <= last + 1 || w == [])
        invariant i - start <= |w| && result == Entries(w[..i - start], memberToScore, withScores)
      {
        var rank := if reverse then size - 1 - i else i;
        ValidParts();
        var entry := EntryAt(rank, withScores);
        InRanksAt(l, start, stop, reverse, i - start);
        if entry.Some? {
          PrefixNext(w, i - start, memberToScore, withScores, result);
          result := result + [entry.value];
        }
        i := i + 1;
      }
      EntriesAll(w, i - start, memberToScore, withScores);
    }

    lemma {:induction false} MembersSize()
      requires Valid()
      ensures |Members()| == orderedSet.count < U32_LIMIT
    {
      hide *;
      ValidParts();
      MembersParts();
    }

    /** One round of GetRangeByRank: the entry of the member of the given rank. */
    method EntryAt(rank: u32, withScores: bool) returns (entry: Option<(Member, real)>)
      requires Valid() && rank < orderedSet.count
      ensures Valid() && rank < |Members()|
      ensures entry == Some(Entry(Members()[rank], memberToScore, withScores))
    {
      hide *;
      ValidParts();
      MembersParts();
      WalkParts(rank);
      ghost var s, h := orderedSet.shape.value, orderedSet.height;
      var path := orderedSet.FromRank(rank);
      var elem := path.Terminal(s, h, rank);
      var member := FindMemberByHash(elem.hash);
      if member.None? {
        return None;
      }
      EntryOf(member.value, memberToScore, withScores);
      return Some((member.value, if withScores then elem.score else 0.0));
    }
  }
}
