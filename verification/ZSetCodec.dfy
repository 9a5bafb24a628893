/** Loading a stored sorted set (src/engine.cpp:32-49): an Add of every stored member. */
module ZSetCodec {
  import opened Keys
  import opened Order
  import opened BTree
  import opened Codec
  import opened Readers
  import opened Serialize
  import opened Deserialize
  import opened ZSet

  /** No two of the members have the same hash. */
  ghost predicate NoClash(hash: Member -> u64, members: set<Member>) {
    forall a, b :: a in members && b in members && hash(a) == hash(b) ==> a == b
  }

  /** What is done is the beginning of what will be loaded. */
  lemma {:induction false} LoadingPrefix(l: Layout, data: Bytes, count: nat, i: nat, p: nat, done: seq<Rec>)
    requires l != [] && l[0].Blob? && |data| >= 4 && count == FromU32(data)
    requires Loading(l, data, 4, count, i, p, done)
    ensures done <= Loaded(l, data) && |done| == i && p <= |data|
  {
    hide ReadRecs, ReadAll, FromU32;
  }

  /** toScore makes a score of its 8 bytes.  A sound set stays so iff no two of its members then have one hash. */
  method DeserializeZset(data: Bytes, zs: ZSetBPlus, toScore: Bytes -> real) returns (ok: bool)
    requires zs.orderedSet.Valid() && |zs.orderedSet.Contents()| + |Loaded(SCORED, data)| < U32_LIMIT
    modifies zs, zs.orderedSet, set n | n in zs.orderedSet.Repr()
    ensures ok <==> Decode(SCORED, data).Parsed?
    ensures zs.memberToScore == Inserted(old(zs.memberToScore), Loaded(SCORED, data), toScore)
    ensures zs.orderedSet.Valid()
    ensures old(zs.Valid()) ==> (zs.Valid() <==> NoClash(zs.hash, zs.memberToScore.Keys))
    ensures forall n :: n in zs.orderedSet.Repr() ==> n in old(zs.orderedSet.Repr()) || fresh(n)
  {
    hide *;
    Layouts();
    ghost var h, size := zs.memberToScore, |zs.orderedSet.Contents()|;
    ghost var sound := zs.Valid();
    if sound { SoundNow(zs); }
    InsertedNext(h, [], toScore, [], []);
    if |data| < 4 {
      Incomplete(data);
      return false;
    }
    CountAt(data);
    var count := U32At(data, 0);
    var ptr: nat := 4;
    ghost var done: seq<Rec> := [];
    LoadingStart(SCORED, data, 4, count);
    LoadingPrefix(SCORED, data, count, 0, ptr, done);
    for i := 0 to count
      invariant ptr <= |data| && Loading(SCORED, data, 4, count, i, ptr, done)
      invariant zs.memberToScore == Inserted(h, done, toScore) && (sound ==> SoundIff(zs))
      invariant zs.orderedSet.Valid() && |zs.orderedSet.Contents()| <= size + i
      invariant forall n :: n in zs.orderedSet.Repr() ==> n in old(zs.orderedSet.Repr()) || fresh(n)
    {
      ScoredAt(data, ptr);
      ghost var start := ptr;
      if ptr + 4 > |data| {
        LoadingFails(SCORED, data, 4, count, i, start, done);
        FailedOf(data, count, done);
        SoundOf(zs);
        return false;
      }
      var mlen := U32At(data, ptr);
      ptr := ptr + 4;
      if ptr + mlen + 8 > |data| {
        LoadingFails(SCORED, data, 4, count, i, start, done);
        FailedOf(data, count, done);
        SoundOf(zs);
        return false;
      }
      var member := data[ptr..ptr+mlen];
      ptr := ptr + mlen;
      var score := data[ptr..ptr+8];
      ptr := ptr + 8;
      LoadingStep(SCORED, data, 4, count, i, start, done, [member, score], ptr);
      InsertedNext(h, done, toScore, member, score);
      done := done + [[member, score]];
      LoadingPrefix(SCORED, data, count, i + 1, ptr, done);
      AddRecord(zs, member, toScore(score));
    }
    LoadingEnds(SCORED, data, 4, count, ptr, done);
    LoadedOf(data, count, done, data[ptr..]);
    SoundOf(zs);
    return true;
  }

  ghost predicate SoundIff(zs: ZSetBPlus)
    reads zs, zs.orderedSet, set n | n in zs.orderedSet.Repr()
  {
    zs.Valid() <==> NoClash(zs.hash, zs.memberToScore.Keys)
  }

  lemma {:induction false} SoundOf(zs: ZSetBPlus)
    ensures SoundIff(zs) ==> (zs.Valid() <==> NoClash(zs.hash, zs.memberToScore.Keys))
  {
  }

  lemma {:induction false} SoundNow(zs: ZSetBPlus)
    requires zs.Valid()
    ensures SoundIff(zs) && NoClash(zs.hash, zs.memberToScore.Keys)
  {
    Unclashed(zs.hash, zs.orderedSet.Contents(), zs.memberToScore, zs.hashToMember);
  }

  lemma {:induction false} ClashNext(hash: Member -> u64, h: map<Member, real>, m: Member, score: real)
    ensures NoClash(hash, h[m := score].Keys) <==> NoClash(hash, h.Keys) && NoCollision(hash, h, m)
  {
    var k := h[m := score].Keys;
    assert forall x :: x in k <==> x in h || x == m;
  }

  /** One Add of the loop. */
  method AddRecord(zs: ZSetBPlus, member: Member, score: real)
    requires zs.orderedSet.Valid() && |zs.orderedSet.Contents()| + 1 < U32_LIMIT
    modifies zs, zs.orderedSet, set n | n in zs.orderedSet.Repr()
    ensures zs.orderedSet.Valid() && |zs.orderedSet.Contents()| <= |old(zs.orderedSet.Contents())| + 1
    ensures zs.memberToScore == old(zs.memberToScore)[member := score]
    ensures old(SoundIff(zs)) ==> SoundIff(zs)
    ensures forall n :: n in zs.orderedSet.Repr() ==> n in old(zs.orderedSet.Repr()) || fresh(n)
  {
    hide *;
    SoundOf(zs);
    ghost var h := zs.memberToScore;
    var added := zs.Add(member, score);
    ClashNext(zs.hash, h, member, score);
    if zs.Valid() { SoundNow(zs); }
    SoundMake(zs);
  }

  lemma {:induction false} SoundMake(zs: ZSetBPlus)
    ensures (zs.Valid() <==> NoClash(zs.hash, zs.memberToScore.Keys)) ==> SoundIff(zs)
  {
  }

  /** Reading failed after done, or ended with it. */
  lemma {:induction false} FailedOf(data: Bytes, count: nat, done: seq<Rec>)
    requires |data| >= 4 && count == FromU32(data) && ReadRecs(SCORED, count, data[4..]).TooShort?
    requires ReadAll(SCORED, data[4..]) == done
    ensures Decode(SCORED, data).TooShort? && Loaded(SCORED, data) == done
  {
    hide ReadRecs, ReadAll, FromU32;
  }

  lemma {:induction false} LoadedOf(data: Bytes, count: nat, done: seq<Rec>, rest: Bytes)
    requires |data| >= 4 && count == FromU32(data) && ReadRecs(SCORED, count, data[4..]) == Parsed(done, rest)
    ensures Decode(SCORED, data).Parsed? && Loaded(SCORED, data) == done
  {
    hide ReadRecs, ReadAll, FromU32;
  }

  lemma {:induction false} Incomplete(data: Bytes)
    requires |data| < 4
    ensures Loaded(SCORED, data) == [] && Decode(SCORED, data).TooShort?
  {
  }

  lemma {:induction false} Layouts()
    ensures SCORED != [] && SCORED[0].Blob?
  {
  }

  lemma {:induction false} Unclashed(hash: Member -> u64, k: seq<Key>, scores: map<Member, real>,
                                     names: map<u64, Member>)
    requires Agree(hash, k, scores, names)
    ensures NoClash(hash, scores.Keys)
  {
    assert forall m :: m in scores ==> names[hash(m)] == m;
  }

  /** A shorter buffer yields no other records. */
  lemma {:induction false} ReadAllMore(l: Layout, b: Bytes, more: Bytes)
    requires l != [] && l[0].Blob?
    ensures ReadAll(l, b) <= ReadAll(l, b + more)
    decreases |b|
  {
    hide ReadRec;
    var p := ReadRec(l, b);
    if p.Parsed? {
      RecMore(l, b, more);
      ReadAllMore(l, p.rest, more);
    }
  }

  /** What the stored bytes load as, whole and cut. */
  lemma {:induction false} StoredLoads(all: seq<(Bytes, Bytes)>, data: Bytes, cut: nat)
    requires FitsAll(SCORED, Pairs(all)) && |all| < U32_LIMIT && data == Encode(SCORED, Pairs(all))
    ensures Decode(SCORED, data).Parsed? && Loaded(SCORED, data) == Pairs(all)
    ensures cut < |data| ==> Decode(SCORED, data[..cut]).TooShort? && Loaded(SCORED, data[..cut]) <= Pairs(all)
  {
    hide ReadRecs, ReadAll, WriteRecs, FitsAll, FromU32, U32;
    RoundTrip(SCORED, Pairs(all), []);
    assert data + [] == data;
    if cut < |data| {
      PrefixRejected(SCORED, Pairs(all), cut);
      if cut >= 4 {
        assert data[..cut][4..] + data[cut..] == data[4..];
        assert data[4..] == WriteRecs(SCORED, Pairs(all));
        ReadAllMore(SCORED, data[..cut][4..], data[cut..]);
        AllBack(SCORED, Pairs(all));
      }
    }
  }

  /** Two sound sets with the same scores. */
  lemma {:induction false} SameMembers(zs: ZSetBPlus, t: ZSetBPlus)
    requires zs.Valid() && t.Valid() && t.memberToScore == zs.memberToScore
    ensures |t.Members()| == |zs.Members()| && forall m :: m in t.Members() <==> m in zs.Members()
    ensures forall i :: 0 <= i < |t.Members()| ==> SameScoreAt(zs.memberToScore, t.Members(), zs.Members(), i)
    ensures t.Members() == zs.Members() <==> SameTies(zs.hash, t.hash, zs.memberToScore)
  {
    hide *;
    var l := MembersOrdered(zs);
    var r := MembersOrdered(t);
    SameListing(zs.hash, t.hash, zs.memberToScore, l, r);
    SameSize(zs.hash, t.hash, zs.memberToScore, l, r);
    forall i | 0 <= i < |r| ensures SameScoreAt(zs.memberToScore, r, l, i) {
      SameScores(zs.hash, t.hash, zs.memberToScore, l, r, i);
      SameScoreOf(zs.memberToScore, r, l, i);
    }
  }

  /** The members at place i of both lists have the same score. */
  ghost predicate SameScoreAt(scores: map<Member, real>, l: seq<Member>, r: seq<Member>, i: nat) {
    i < |l| && i < |r| && l[i] in scores && r[i] in scores && scores[l[i]] == scores[r[i]]
  }

  lemma {:induction false} SameScoreOf(scores: map<Member, real>, l: seq<Member>, r: seq<Member>, i: nat)
    requires i < |l| && i < |r| && l[i] in scores && r[i] in scores && scores[l[i]] == scores[r[i]]
    ensures SameScoreAt(scores, l, r, i)
  {
  }

  lemma {:induction false} MembersOrdered(zs: ZSetBPlus) returns (l: seq<Member>)
    requires zs.Valid()
    ensures l == zs.Members() && Ordered(zs.hash, zs.memberToScore, l)
  {
    hide Agree, Ordered, BPTree.Valid, BPTree.Contents, BPTree.Repr;
    l := zs.Members();
    ListingIs(zs.hash, zs.orderedSet.Contents(), zs.memberToScore, zs.hashToMember);
  }

  /**
   A sorted set is stored, and loaded into an empty one whose hash may be another, as after a restart; all are its
   entries, in whatever order the hash table yields them.  The scores are the same again, at every place of the order;
   so is the order of members of equal score iff the hashes agree on it.  A cut buffer is refused.
   */
  method StoreAndLoadZset(zs: ZSetBPlus, all: seq<(Bytes, Bytes)>, toScore: Bytes -> real, hash: Member -> u64,
                          cut: nat)
    returns (ok: bool, t: ZSetBPlus, short: bool)
    requires zs.Valid() && Lists(all, zs.memberToScore, toScore) && SmallScored(all) && |all| < U32_LIMIT
    ensures ok && !short && zs.Valid() && t.hash == hash && t.memberToScore == zs.memberToScore
    ensures t.Valid() <==> NoClash(hash, zs.memberToScore.Keys)
    ensures t.Valid() ==> |t.Members()| == |zs.Members()| && forall m :: m in t.Members() <==> m in zs.Members()
    ensures t.Valid() ==>
      forall i :: 0 <= i < |t.Members()| ==> SameScoreAt(zs.memberToScore, t.Members(), zs.Members(), i)
    ensures t.Valid() ==> (t.Members() == zs.Members() <==> SameTies(zs.hash, hash, zs.memberToScore))
  {
    hide *;
    Layouts();
    zs.ValidParts();
    InsertedAll(all, zs.memberToScore, toScore);
    var data := SerializeZset(all);
    StoredLoads(all, data, cut);
    PairsSize(all);
    short := false;
    if cut < |data| {
      var u;
      short, u := LoadNew(data[..cut], hash, toScore);
    }
    ok, t := LoadNew(data, hash, toScore);
    if t.Valid() { SameMembers(zs, t); }
  }

  lemma {:induction false} PairsSize(all: seq<(Bytes, Bytes)>)
    ensures |Pairs(all)| == |all|
  {
  }

  method LoadNew(data: Bytes, hash: Member -> u64, toScore: Bytes -> real) returns (ok: bool, t: ZSetBPlus)
    requires |Loaded(SCORED, data)| < U32_LIMIT
    ensures ok <==> Decode(SCORED, data).Parsed?
    ensures t.hash == hash && t.memberToScore == Inserted(map[], Loaded(SCORED, data), toScore)
    ensures t.Valid() <==> NoClash(hash, t.memberToScore.Keys)
  {
    hide *;
    t := new ZSetBPlus(hash);
    t.ValidParts();
    ok := DeserializeZset(data, t, toScore);
  }

  /** With the same hash the listing comes back as it was. */
  lemma {:induction false} SameHash(zs: ZSetBPlus, t: ZSetBPlus)
    requires zs.Valid() && t.hash == zs.hash && t.memberToScore == zs.memberToScore && SoundIff(t)
    ensures t.Valid() && t.Members() == zs.Members()
  {
    hide BPTree.Valid, BPTree.Contents, BPTree.Repr, ZSetBPlus.Valid, ZSetBPlus.Members;
    SoundNow(zs);
    SameMembers(zs, t);
  }
}
