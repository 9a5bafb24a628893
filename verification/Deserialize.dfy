/** The deserialisers of the engine (src/engine.cpp:32-162, 206-266). */
module Deserialize {
  import opened Keys
  import opened Codec
  import opened Readers
  import opened Serialize
  import opened Streams

  /** count records were promised at position base; the first i of them are done, and the reading stands at p. */
  ghost predicate Loading(l: Layout, data: Bytes, base: nat, count: nat, i: nat, p: nat, done: seq<Rec>)
    requires l != [] && l[0].Blob?
  {
    && base <= p <= |data| && |done| == i <= count
    && ReadRecs(l, count, data[base..]) == Resumed(done, ReadRecs(l, count - i, data[p..]))
    && ReadAll(l, data[base..]) == done + ReadAll(l, data[p..])
  }

  ghost function Resumed(done: seq<Rec>, p: Parsed<seq<Rec>>): Parsed<seq<Rec>> {
    match p
    case TooShort => TooShort
    case Parsed(rs, rest) => Parsed(done + rs, rest)
  }

  /** The records that get into the container: all of them, or those before the first incomplete one. */
  ghost function Loaded(l: Layout, data: Bytes): seq<Rec>
    requires l != [] && l[0].Blob?
  {
    match Decode(l, data)
    case Parsed(rs, _) => rs
    case TooShort => if |data| < 4 then [] else ReadAll(l, data[4..])
  }

  /** As many records as are promised, and no more than are complete. */
  lemma {:induction false} LoadedFirst(l: Layout, data: Bytes)
    requires |data| >= 4 && l != [] && l[0].Blob?
    ensures var all, n := ReadAll(l, data[4..]), Le(data[..4]);
      && Loaded(l, data) == all[..if n < |all| then n else |all|]
      && (Decode(l, data).Parsed? <==> n <= |all|)
  {
    LittleEndian(0, data);
    FirstRecs(l, FromU32(data), data[4..]);
  }

  lemma {:induction false} FirstRecs(l: Layout, n: nat, b: Bytes)
    requires l != [] && l[0].Blob?
    ensures var p, all := ReadRecs(l, n, b), ReadAll(l, b);
      && (p.Parsed? <==> n <= |all|) && (p.Parsed? ==> p.value == all[..n])
  {
    hide ReadRec;
    if n > 0 && ReadRec(l, b).Parsed? {
      var rest := ReadRec(l, b).rest;
      FirstRecs(l, n - 1, rest);
      assert ReadAll(l, b)[1..] == ReadAll(l, rest);
    }
  }

  lemma {:induction false} LoadingStart(l: Layout, data: Bytes, base: nat, count: nat)
    requires base <= |data| && l != [] && l[0].Blob?
    ensures Loading(l, data, base, count, 0, base, [])
  {
    var p := ReadRecs(l, count, data[base..]);
    if p.Parsed? { assert [] + p.value == p.value; }
  }

  lemma {:induction false} LoadingStep(l: Layout, data: Bytes, base: nat, count: nat, i: nat, p: nat,
                                       done: seq<Rec>, r: Rec, q: nat)
    requires l != [] && l[0].Blob? && Loading(l, data, base, count, i, p, done) && i < count
    requires p <= q <= |data| && ReadRec(l, data[p..]) == Parsed(r, data[q..])
    ensures Loading(l, data, base, count, i + 1, q, done + [r])
  {
    hide ReadRec;
    ReadNext(l, count - i, data[p..], r, data[q..]);
    var t := ReadRecs(l, count - i - 1, data[q..]);
    hide ReadRecs, ReadAll;
    if t.Parsed? { Regrouped(done, r, t.value); }
    Regrouped(done, r, ReadAll(l, data[q..]));
  }

  lemma {:induction false} Regrouped(a: seq<Rec>, r: Rec, b: seq<Rec>)
    ensures a + ([r] + b) == a + [r] + b
  {
  }

  lemma {:induction false} ReadNext(l: Layout, n: nat, b: Bytes, r: Rec, rest: Bytes)
    requires l != [] && l[0].Blob? && n > 0 && ReadRec(l, b) == Parsed(r, rest)
    ensures ReadAll(l, b) == [r] + ReadAll(l, rest)
    ensures var t := ReadRecs(l, n - 1, rest);
      ReadRecs(l, n, b) == if t.TooShort? then TooShort else Parsed([r] + t.value, t.rest)
  {
    hide ReadRec;
  }

  lemma {:induction false} LoadingFails(l: Layout, data: Bytes, base: nat, count: nat, i: nat, p: nat, done: seq<Rec>)
    requires l != [] && l[0].Blob? && Loading(l, data, base, count, i, p, done) && i < count
    requires ReadRec(l, data[p..]).TooShort?
    ensures ReadRecs(l, count, data[base..]).TooShort? && ReadAll(l, data[base..]) == done
  {
  }

  lemma {:induction false} LoadingEnds(l: Layout, data: Bytes, base: nat, count: nat, p: nat, done: seq<Rec>)
    requires l != [] && l[0].Blob? && Loading(l, data, base, count, count, p, done)
    ensures ReadRecs(l, count, data[base..]) == Parsed(done, data[p..])
  {
    assert done + [] == done;
  }

  lemma {:induction false} CountAt(data: Bytes)
    requires |data| >= 4
    ensures U32At(data, 0) == FromU32(data)
  {
    assert data[0..4][0] == data[0] && data[0..4][1] == data[1] && data[0..4][2] == data[2] && data[0..4][3] == data[3];
  }

  /** What the records put into a map, one after the other; f makes a value of the second field. */
  ghost function Inserted<V>(m: map<Bytes, V>, rs: seq<Rec>, f: Bytes -> V): map<Bytes, V> {
    if rs == [] then m
    else
      var r := rs[|rs|-1];
      var before := Inserted(m, rs[..|rs|-1], f);
      if |r| == 2 then before[r[0] := f(r[1])] else before
  }

  /** The value of a hash field is the bytes themselves. */
  function Same(x: Bytes): Bytes {
    x
  }

  lemma {:induction false} InsertedNext<V>(m: map<Bytes, V>, rs: seq<Rec>, f: Bytes -> V, x: Bytes, y: Bytes)
    ensures Inserted(m, rs + [[x, y]], f) == Inserted(m, rs, f)[x := f(y)] && Inserted(m, [], f) == m
  {
    assert (rs + [[x, y]])[..|rs|] == rs;
  }

  /** No record from number i on has this key. */
  ghost predicate NoneFrom(rs: seq<Rec>, i: nat, k: Bytes) {
    forall j :: i <= j < |rs| && |rs[j]| == 2 ==> rs[j][0] != k
  }

  /** The last record of a key counts. */
  lemma {:induction false} LastCounts<V>(m: map<Bytes, V>, rs: seq<Rec>, f: Bytes -> V, i: nat)
    requires i < |rs| && |rs[i]| == 2 && NoneFrom(rs, i + 1, rs[i][0])
    ensures var h := Inserted(m, rs, f); rs[i][0] in h && h[rs[i][0]] == f(rs[i][1])
    decreases |rs|
  {
    var n := |rs| - 1;
    if i < n {
      LastCounts(m, rs[..n], f, i);
    }
  }

  /** A key without a record stays as it is. */
  lemma {:induction false} OthersStay<V>(m: map<Bytes, V>, rs: seq<Rec>, f: Bytes -> V, k: Bytes)
    requires NoneFrom(rs, 0, k)
    ensures var h := Inserted(m, rs, f); (k in h <==> k in m) && (k in m ==> h[k] == m[k])
    decreases |rs|
  {
    if rs != [] {
      OthersStay(m, rs[..|rs|-1], f, k);
    }
  }

  /** all names every entry of m, in any order, with values that f makes of the second parts. */
  ghost predicate Lists<V(!new)>(all: seq<(Bytes, Bytes)>, m: map<Bytes, V>, f: Bytes -> V) {
    && (forall x :: x in all ==> x.0 in m && m[x.0] == f(x.1))
    && (forall k :: k in m ==> exists x :: x in all && x.0 == k)
  }

  lemma {:induction false} InsertedHas<V(!new)>(all: seq<(Bytes, Bytes)>, m: map<Bytes, V>, f: Bytes -> V)
    requires forall x :: x in all ==> x.0 in m && m[x.0] == f(x.1)
    ensures var h := Inserted(map[], Pairs(all), f);
      && (forall k :: k in h ==> k in m && h[k] == m[k]) && (forall x :: x in all ==> x.0 in h)
    decreases |all|
  {
    if all != [] {
      hide *;
      var n := |all| - 1;
      assert all == all[..n] + [all[n]];
      InsertedHas(all[..n], m, f);
      PairsNext(all[..n], all[n]);
      var before := Inserted(map[], Pairs(all[..n]), f);
      InsertedNext(map[], Pairs(all[..n]), f, all[n].0, all[n].1);
      assert Inserted(map[], Pairs(all), f) == before[all[n].0 := f(all[n].1)];
    }
  }

  /** Loading the entries of a map restores it, whatever order they were stored in. */
  lemma {:induction false} InsertedAll<V(!new)>(all: seq<(Bytes, Bytes)>, m: map<Bytes, V>, f: Bytes -> V)
    requires Lists(all, m, f)
    ensures Inserted(map[], Pairs(all), f) == m
  {
    InsertedHas(all, m, f);
  }

  method DeserializeList(data: Bytes, lst: seq<Bytes>) returns (ok: bool, lst': seq<Bytes>)
    ensures ok <==> Decode(MEMBERS, data).Parsed?
    ensures Singles(lst') == Singles(lst) + Loaded(MEMBERS, data)
  {
    hide ReadRec, ReadRecs, ReadAll, FromU32;
    lst' := lst;
    if |data| < 4 {
      return false, lst';
    }
    CountAt(data);
    var count := U32At(data, 0);
    var ptr := 4;
    ghost var done: seq<Rec> := [];
    LoadingStart(MEMBERS, data, 4, count);
    for i := 0 to count
      invariant 4 <= ptr && Loading(MEMBERS, data, 4, count, i, ptr, done)
      invariant Singles(lst') == Singles(lst) + done
    {
      MemberAt(data, ptr);
      ghost var start := ptr;
      if ptr + 4 > |data| {
        LoadingFails(MEMBERS, data, 4, count, i, start, done);
        return false, lst';
      }
      var ilen := U32At(data, ptr);
      ptr := ptr + 4;
      if ptr + ilen > |data| {
        LoadingFails(MEMBERS, data, 4, count, i, start, done);
        return false, lst';
      }
      var item := data[ptr..ptr+ilen];
      ptr := ptr + ilen;
      SinglesNext(lst', item);
      LoadingStep(MEMBERS, data, 4, count, i, start, done, [item], ptr);
      done := done + [[item]];
      lst' := lst' + [item];
    }
    LoadingEnds(MEMBERS, data, 4, count, ptr, done);
    return true, lst';
  }

  method DeserializeSet(data: Bytes, s: set<Bytes>) returns (ok: bool, s': set<Bytes>)
    ensures ok <==> Decode(MEMBERS, data).Parsed?
    ensures forall m :: m in s' <==> m in s || [m] in Loaded(MEMBERS, data)
  {
    hide ReadRec, ReadRecs, ReadAll, FromU32;
    s' := s;
    if |data| < 4 {
      return false, s';
    }
    CountAt(data);
    var count := U32At(data, 0);
    var ptr := 4;
    ghost var done: seq<Rec> := [];
    LoadingStart(MEMBERS, data, 4, count);
    for i := 0 to count
      invariant 4 <= ptr && Loading(MEMBERS, data, 4, count, i, ptr, done) && forall m :: m in s' <==>
        m in s || [m] in done
    {
      MemberAt(data, ptr);
      ghost var start := ptr;
      if ptr + 4 > |data| {
        LoadingFails(MEMBERS, data, 4, count, i, start, done);
        return false, s';
      }
      var mlen := U32At(data, ptr);
      ptr := ptr + 4;
      if ptr + mlen > |data| {
        LoadingFails(MEMBERS, data, 4, count, i, start, done);
        return false, s';
      }
      var member := data[ptr..ptr+mlen];
      ptr := ptr + mlen;
      LoadingStep(MEMBERS, data, 4, count, i, start, done, [member], ptr);
      OneMember(done, member);
      done := done + [[member]];
      s' := s' + {member};
    }
    LoadingEnds(MEMBERS, data, 4, count, ptr, done);
    return true, s';
  }

  lemma {:induction false} OneMember(done: seq<Rec>, x: Bytes)
    ensures forall m: Bytes :: [m] in done + [[x]] <==> [m] in done || m == x
  {
    forall m: Bytes ensures [m] in done + [[x]] <==> [m] in done || m == x {
      if [m] in done + [[x]] && [m] !in done {
        var a: Rec, b: Rec := [m], [x];
        assert a == b && a[0] == b[0];
      }
    }
  }

  method DeserializeHash(data: Bytes, h: map<Bytes, Bytes>) returns (ok: bool, h': map<Bytes, Bytes>)
    ensures ok <==> Decode(PAIRS, data).Parsed?
    ensures h' == Inserted(h, Loaded(PAIRS, data), Same)
  {
    hide ReadRec, ReadRecs, ReadAll, FromU32, Inserted;
    h' := h;
    InsertedNext(h, [], Same, [], []);
    if |data| < 4 {
      return false, h';
    }
    CountAt(data);
    var count := U32At(data, 0);
    var ptr := 4;
    ghost var done: seq<Rec> := [];
    LoadingStart(PAIRS, data, 4, count);
    for i := 0 to count
      invariant 4 <= ptr && Loading(PAIRS, data, 4, count, i, ptr, done) && h' == Inserted(h, done, Same)
    {
      PairAt(data, ptr);
      ghost var start := ptr;
      if ptr + 4 > |data| {
        LoadingFails(PAIRS, data, 4, count, i, start, done);
        return false, h';
      }
      var flen := U32At(data, ptr);
      ptr := ptr + 4;
      if ptr + flen > |data| {
        LoadingFails(PAIRS, data, 4, count, i, start, done);
        return false, h';
      }
      var field := data[ptr..ptr+flen];
      ptr := ptr + flen;
      if ptr + 4 > |data| {
        LoadingFails(PAIRS, data, 4, count, i, start, done);
        return false, h';
      }
      var vlen := U32At(data, ptr);
      ptr := ptr + 4;
      if ptr + vlen > |data| {
        LoadingFails(PAIRS, data, 4, count, i, start, done);
        return false, h';
      }
      var value := data[ptr..ptr+vlen];
      ptr := ptr + vlen;
      LoadingStep(PAIRS, data, 4, count, i, start, done, [field, value], ptr);
      InsertedNext(h, done, Same, field, value);
      done := done + [[field, value]];
      h' := h'[field := value];
    }
    LoadingEnds(PAIRS, data, 4, count, ptr, done);
    return true, h';
  }

  /** A stored hash loads as the same map, and no shorter buffer loads at all. */
  method StoreAndLoadHash(all: seq<(Bytes, Bytes)>, h: map<Bytes, Bytes>, cut: nat)
    returns (ok: bool, h': map<Bytes, Bytes>, short: bool)
    requires Lists(all, h, Same) && |all| < U32_LIMIT && SmallPairs(all)
    ensures ok && h' == h && !short
  {
    hide ReadRecs, WriteRecs, Inserted;
    InsertedAll(all, h, Same);
    var data := SerializeHash(all);
    RoundTrip(PAIRS, Pairs(all), []);
    assert data + [] == data;
    ok, h' := DeserializeHash(data, map[]);
    short := false;
    if cut < |data| {
      PrefixRejected(PAIRS, Pairs(all), cut);
      var none;
      short, none := DeserializeHash(data[..cut], map[]);
    }
  }

  /** A stored list or set loads as the same, and no shorter buffer loads at all. */
  method StoreAndLoadMembers(all: seq<Bytes>, cut: nat)
    returns (okList: bool, lst: seq<Bytes>, okSet: bool, s: set<Bytes>, shortList: bool, shortSet: bool)
    requires SmallMembers(all) && |all| < U32_LIMIT
    ensures okList && lst == all && okSet && (forall m :: m in s <==> m in all) && !shortList && !shortSet
  {
    hide ReadRecs, WriteRecs;
    var data := SerializeMembers(all);
    RoundTrip(MEMBERS, Singles(all), []);
    assert data + [] == data;
    okList, lst := DeserializeList(data, []);
    assert Singles([]) + Singles(all) == Singles(all);
    SinglesSame(lst, all);
    okSet, s := DeserializeSet(data, {});
    SinglesIn(all);
    shortList, shortSet := false, false;
    if cut < |data| {
      PrefixRejected(MEMBERS, Singles(all), cut);
      var none, nothing;
      shortList, none := DeserializeList(data[..cut], []);
      shortSet, nothing := DeserializeSet(data[..cut], {});
    }
  }

  lemma {:induction false} SinglesIn(s: seq<Bytes>)
    ensures forall m: Bytes :: [m] in Singles(s) <==> m in s
  {
    forall m: Bytes ensures [m] in Singles(s) <==> m in s {
      if [m] in Singles(s) {
        var i :| 0 <= i < |s| && Singles(s)[i] == [m];
        var x: Rec, y: Rec := [s[i]], [m];
        assert x == y && x[0] == y[0];
      }
      if m in s {
        var i :| 0 <= i < |s| && s[i] == m;
        assert Singles(s)[i] == [m];
      }
    }
  }
}
