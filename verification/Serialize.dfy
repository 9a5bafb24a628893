/** The serialisers of the engine (src/engine.cpp:13-162, 206-266) and the packers of the C interface. */
module Serialize {
  import opened Keys
  import opened Codec
  import opened Readers
  import opened Streams

  /** std::memcpy to position ptr; returns the position after it. */
  method Memcpy(out: array<byte>, ptr: nat, x: Bytes) returns (next: nat)
    requires ptr + |x| <= out.Length
    modifies out
    ensures next == ptr + |x| && out[..next] == old(out[..ptr]) + x
  {
    for i := 0 to |x|
      invariant out[..ptr+i] == old(out[..ptr]) + x[..i]
    {
      out[ptr+i] := x[i];
      assert out[..ptr+i+1] == out[..ptr+i] + [x[i]];
    }
    assert x[..|x|] == x;
    next := ptr + |x|;
  }

  // ---------- one more record ----------

  lemma {:induction false} WriteConcat(l: Layout, a: seq<Rec>, b: seq<Rec>)
    requires FitsAll(l, a) && FitsAll(l, b)
    ensures FitsAll(l, a + b) && WriteRecs(l, a + b) == WriteRecs(l, a) + WriteRecs(l, b)
  {
    if a == [] {
      assert a + b == b;
    } else {
      assert (a + b)[1..] == a[1..] + b;
      WriteConcat(l, a[1..], b);
    }
  }

  lemma {:induction false} OneRec(l: Layout, r: Rec)
    requires Fits(l, r)
    ensures FitsAll(l, [r]) && WriteRecs(l, [r]) == WriteRec(l, r)
  {
    var one: seq<Rec> := [r];
    assert |one[1..]| == 0;
  }

  /** The first i + 1 records, and what they leave room for. */
  lemma {:induction false} WriteNext(l: Layout, rs: seq<Rec>, i: nat)
    requires FitsAll(l, rs) && i < |rs|
    ensures Fits(l, rs[i]) && FitsAll(l, rs[..i]) && FitsAll(l, rs[..i+1])
    ensures WriteRecs(l, rs[..i+1]) == WriteRecs(l, rs[..i]) + WriteRec(l, rs[i])
    ensures |WriteRecs(l, rs[..i+1])| <= |WriteRecs(l, rs)|
  {
    assert rs[i] in rs;
    assert rs[..i+1] == rs[..i] + [rs[i]] && rs == rs[..i+1] + rs[i+1..];
    WriteConcat(l, rs[..i], [rs[i]]);
    WriteConcat(l, rs[..i+1], rs[i+1..]);
    OneRec(l, rs[i]);
  }

  lemma {:induction false} WriteStart(l: Layout, rs: seq<Rec>)
    ensures FitsAll(l, rs[..0]) && WriteRecs(l, rs[..0]) == [] && rs[..|rs|] == rs
  {
  }

  lemma {:induction false} MemberBytes(m: Bytes)
    requires |m| < U32_LIMIT
    ensures Fits(MEMBERS, [m]) && WriteRec(MEMBERS, [m]) == U32(|m|) + m
  {
    assert MEMBERS[1..] == [] && [m][1..] == [];
    assert WriteRec([], []) == [];
  }

  lemma {:induction false} PairBytes(f: Bytes, v: Bytes)
    requires |f| < U32_LIMIT && |v| < U32_LIMIT
    ensures Fits(PAIRS, [f, v]) && WriteRec(PAIRS, [f, v]) == U32(|f|) + f + U32(|v|) + v
  {
    MemberBytes(v);
    assert PAIRS[1..] == MEMBERS && [f, v][1..] == [v];
    assert U32(|f|) + f + (U32(|v|) + v) == U32(|f|) + f + U32(|v|) + v;
  }

  lemma {:induction false} ScoredBytes(m: Bytes, score: Bytes)
    requires |m| < U32_LIMIT && |score| == 8
    ensures Fits(SCORED, [m, score]) && WriteRec(SCORED, [m, score]) == U32(|m|) + m + score
  {
    assert SCORED[1..] == [Fixed(8)] && [m, score][1..] == [score] && [Fixed(8)][1..] == [] && [score][1..] == [];
    assert WriteRec([Fixed(8)], [score]) == score + WriteRec([], []) == score;
  }

  // ---------- the formats, byte by byte ----------

  /** Four bytes that stand for the length of x, the least significant one first. */
  predicate LengthOf(n: Bytes, x: Bytes) {
    |n| == 4 && Le(n) == |x| < U32_LIMIT
  }

  lemma {:induction false} LengthIs(n: Bytes, x: Bytes)
    requires LengthOf(n, x)
    ensures n == U32(|x|)
  {
    LittleEndian(|x|, n);
    assert n[..4] == n;
  }

  /** A set member or list item is its length and its bytes. */
  lemma {:induction false} MemberForm(n: Bytes, m: Bytes, rest: Bytes)
    requires LengthOf(n, m)
    ensures Fits(MEMBERS, [m]) && WriteRec(MEMBERS, [m]) == n + m
    ensures ReadRec(MEMBERS, n + m + rest) == Parsed([m], rest)
  {
    LengthIs(n, m);
    MemberBytes(m);
    RecBack(MEMBERS, [m], rest);
  }

  /** A pair is the length and the bytes of its field, then of its value. */
  lemma {:induction false} PairForm(n: Bytes, f: Bytes, k: Bytes, v: Bytes, rest: Bytes)
    requires LengthOf(n, f) && LengthOf(k, v)
    ensures Fits(PAIRS, [f, v]) && WriteRec(PAIRS, [f, v]) == n + f + k + v
    ensures ReadRec(PAIRS, n + f + k + v + rest) == Parsed([f, v], rest)
  {
    LengthIs(n, f);
    LengthIs(k, v);
    PairBytes(f, v);
    RecBack(PAIRS, [f, v], rest);
  }

  /** A member of a sorted set is its length and its bytes, then the 8 bytes of its score. */
  lemma {:induction false} ScoredForm(n: Bytes, m: Bytes, score: Bytes, rest: Bytes)
    requires LengthOf(n, m) && |score| == 8
    ensures Fits(SCORED, [m, score]) && WriteRec(SCORED, [m, score]) == n + m + score
    ensures ReadRec(SCORED, n + m + score + rest) == Parsed([m, score], rest)
  {
    LengthIs(n, m);
    ScoredBytes(m, score);
    RecBack(SCORED, [m, score], rest);
  }

  /** The records follow each other, after their number if the engine stores them. */
  lemma {:induction false} WholeForm(l: Layout, rs: seq<Rec>, n: Bytes, r: Rec)
    requires FitsAll(l, rs) && |rs| < U32_LIMIT && |n| == 4 && Le(n) == |rs| && Fits(l, r)
    ensures Encode(l, rs) == n + WriteRecs(l, rs)
    ensures WriteRecs(l, []) == []
    ensures FitsAll(l, rs + [r]) && WriteRecs(l, rs + [r]) == WriteRecs(l, rs) + WriteRec(l, r)
  {
    LittleEndian(|rs|, n);
    assert n[..4] == n;
    WriteConcat(l, rs, [r]);
    OneRec(l, r);
  }

  lemma {:induction false} SingleRecord(l: Layout, b: Bytes, r: Rec)
    requires l != [] && l[0].Blob? && ReadRec(l, b + []) == Parsed(r, [])
    ensures ReadAll(l, b) == [r]
  {
    assert b + [] == b;
    AllBack(l, []);
  }

  /** A buffer of one record of two letters. */
  lemma {:induction false} OnePair()
    ensures var n: Bytes := [1 as char, 0 as char, 0 as char, 0 as char];
      var b := n + ['f'] + n + ['v'];
      ReadAll(PAIRS, b) == [[['f'], ['v']]] && Fits(PAIRS, [['f'], ['v']]) && WriteRec(PAIRS, [['f'], ['v']]) == b
  {
    hide *;
    var n: Bytes := [1 as char, 0 as char, 0 as char, 0 as char];
    var f: Bytes, v: Bytes := ['f'], ['v'];
    LeFour(n);
    PairsLayout();
    OneByte(n, f);
    OneByte(n, v);
    PairForm(n, f, n, v, []);
    SingleRecord(PAIRS, n + f + n + v, [f, v]);
  }

  lemma {:induction false} OneByte(n: Bytes, x: Bytes)
    requires |n| == 4 && Le(n) == 1 == |x|
    ensures LengthOf(n, x)
  {
  }

  lemma {:induction false} PairsLayout()
    ensures PAIRS != [] && PAIRS[0].Blob?
  {
  }

  ghost predicate SmallPairs(s: seq<(Bytes, Bytes)>) {
    forall x :: x in s ==> |x.0| < U32_LIMIT && |x.1| < U32_LIMIT
  }

  ghost predicate SmallScored(s: seq<(Bytes, Bytes)>) {
    forall x :: x in s ==> |x.0| < U32_LIMIT && |x.1| == 8
  }

  ghost predicate SmallMembers(s: seq<Bytes>) {
    forall x :: x in s ==> |x| < U32_LIMIT
  }

  lemma {:induction false} PairsFit(s: seq<(Bytes, Bytes)>)
    ensures SmallPairs(s) ==> FitsAll(PAIRS, Pairs(s))
    ensures SmallScored(s) ==> FitsAll(SCORED, Pairs(s))
  {
    forall i | 0 <= i < |s|
      ensures SmallPairs(s) ==> Fits(PAIRS, Pairs(s)[i])
      ensures SmallScored(s) ==> Fits(SCORED, Pairs(s)[i])
    {
      assert s[i] in s;
    }
  }

  lemma {:induction false} SinglesFit(s: seq<Bytes>)
    requires SmallMembers(s)
    ensures FitsAll(MEMBERS, Singles(s))
  {
    forall i | 0 <= i < |s| ensures Fits(MEMBERS, Singles(s)[i]) {
      assert s[i] in s;
    }
  }

  // ---------- serialisers ----------

  /** A length and as many bytes. */
  method PutBlob(out: array<byte>, ptr: nat, x: Bytes) returns (next: nat)
    requires |x| < U32_LIMIT && ptr + 4 + |x| <= out.Length
    modifies out
    ensures next == ptr + 4 + |x| && out[..next] == old(out[..ptr]) + (U32(|x|) + x)
  {
    next := Memcpy(out, ptr, U32(|x|));
    next := Memcpy(out, next, x);
  }

  /** The first n records are written, after what was there before. */
  ghost predicate Written(out: Bytes, head: Bytes, l: Layout, rs: seq<Rec>, n: nat) {
    n <= |rs| && FitsAll(l, rs[..n]) && out == head + WriteRecs(l, rs[..n])
  }

  lemma {:induction false} WrittenStart(head: Bytes, l: Layout, rs: seq<Rec>)
    ensures Written(head, head, l, rs, 0)
  {
    WriteStart(l, rs);
  }

  lemma {:induction false} WrittenNext(out: Bytes, head: Bytes, l: Layout, rs: seq<Rec>, n: nat)
    requires Written(out, head, l, rs, n) && FitsAll(l, rs) && n < |rs|
    ensures Fits(l, rs[n]) && |out| + |WriteRec(l, rs[n])| <= |head| + |WriteRecs(l, rs)|
    ensures Written(out + WriteRec(l, rs[n]), head, l, rs, n + 1)
  {
    WriteNext(l, rs, n);
    assert head + (WriteRecs(l, rs[..n]) + WriteRec(l, rs[n])) == head + WriteRecs(l, rs[..n]) + WriteRec(l, rs[n]);
  }

  lemma {:induction false} WrittenAll(out: Bytes, head: Bytes, l: Layout, rs: seq<Rec>)
    requires Written(out, head, l, rs, |rs|) && FitsAll(l, rs)
    ensures out == head + WriteRecs(l, rs)
  {
    WriteStart(l, rs);
  }

  /** Lists and sets. */
  method SerializeMembers(all: seq<Bytes>) returns (data: Bytes)
    requires SmallMembers(all) && |all| < U32_LIMIT
    ensures FitsAll(MEMBERS, Singles(all)) && data == Encode(MEMBERS, Singles(all))
  {
    hide WriteRec, WriteRecs, U32, FitsAll, Fits, Written;
    ghost var rs, head := Singles(all), U32(|all|);
    SinglesFit(all);
    ghost var done: Bytes := head;
    WrittenStart(head, MEMBERS, rs);
    var total := 4;
    for i := 0 to |all|
      invariant Written(done, head, MEMBERS, rs, i) && total == |done|
    {
      WrittenNext(done, head, MEMBERS, rs, i);
      MemberBytes(all[i]);
      done := done + WriteRec(MEMBERS, rs[i]);
      total := total + 4 + |all[i]|;
    }
    WrittenAll(done, head, MEMBERS, rs);
    var out := new byte[total](_ => 0 as char);
    var ptr: nat := Memcpy(out, 0, U32(|all|));
    assert out[..ptr] == head;
    WrittenStart(head, MEMBERS, rs);
    for i := 0 to |all|
      invariant ptr <= out.Length && Written(out[..ptr], head, MEMBERS, rs, i)
    {
      WrittenNext(out[..ptr], head, MEMBERS, rs, i);
      MemberBytes(all[i]);
      ptr := PutBlob(out, ptr, all[i]);
    }
    WrittenAll(out[..ptr], head, MEMBERS, rs);
    data := out[..];
  }

  method SerializeHash(all: seq<(Bytes, Bytes)>) returns (data: Bytes)
    requires SmallPairs(all) && |all| < U32_LIMIT
    ensures FitsAll(PAIRS, Pairs(all)) && data == Encode(PAIRS, Pairs(all))
  {
    hide WriteRec, WriteRecs, U32, FitsAll, Fits, Written;
    ghost var rs, head := Pairs(all), U32(|all|);
    PairsFit(all);
    ghost var done: Bytes := head;
    WrittenStart(head, PAIRS, rs);
    var total := 4;
    for i := 0 to |all|
      invariant Written(done, head, PAIRS, rs, i) && total == |done|
    {
      WrittenNext(done, head, PAIRS, rs, i);
      PairBytes(all[i].0, all[i].1);
      done := done + WriteRec(PAIRS, rs[i]);
      total := total + 4 + |all[i].0| + 4 + |all[i].1|;
    }
    WrittenAll(done, head, PAIRS, rs);
    var out := new byte[total](_ => 0 as char);
    var ptr: nat := Memcpy(out, 0, U32(|all|));
    assert out[..ptr] == head;
    WrittenStart(head, PAIRS, rs);
    for i := 0 to |all|
      invariant ptr <= out.Length && Written(out[..ptr], head, PAIRS, rs, i)
    {
      WrittenNext(out[..ptr], head, PAIRS, rs, i);
      PairBytes(all[i].0, all[i].1);
      ghost var before := out[..ptr];
      ptr := PutBlob(out, ptr, all[i].0);
      ptr := PutBlob(out, ptr, all[i].1);
      PairGroup(before, U32(|all[i].0|), all[i].0, U32(|all[i].1|), all[i].1);
    }
    WrittenAll(out[..ptr], head, PAIRS, rs);
    data := out[..];
  }

  lemma {:induction false} PairGroup(a: Bytes, b: Bytes, c: Bytes, d: Bytes, e: Bytes)
    ensures a + (b + c) + (d + e) == a + (b + c + d + e)
  {
  }

  /** The packing loop of astrakv_zrange, and, after the count, that of serialize_zset; a score is its 8 bytes. */
  method PackScored(out: array<byte>, start: nat, all: seq<(Bytes, Bytes)>)
    requires SmallScored(all) && FitsAll(SCORED, Pairs(all))
    requires out.Length == start + |WriteRecs(SCORED, Pairs(all))|
    modifies out
    ensures out[..] == old(out[..start]) + WriteRecs(SCORED, Pairs(all))
  {
    hide WriteRec, WriteRecs, U32, FitsAll, Fits, Written;
    ghost var rs, head := Pairs(all), out[..start];
    var ptr: nat := start;
    WrittenStart(head, SCORED, rs);
    for i := 0 to |all|
      invariant ptr <= out.Length && Written(out[..ptr], head, SCORED, rs, i)
    {
      WrittenNext(out[..ptr], head, SCORED, rs, i);
      assert all[i] in all;
      ScoredBytes(all[i].0, all[i].1);
      ghost var before := out[..ptr];
      ptr := PutBlob(out, ptr, all[i].0);
      ptr := Memcpy(out, ptr, all[i].1);
      assert before + (U32(|all[i].0|) + all[i].0) + all[i].1 == before + (U32(|all[i].0|) + all[i].0 + all[i].1);
    }
    WrittenAll(out[..ptr], head, SCORED, rs);
    assert out[..] == out[..ptr];
  }

  /** The sizes of the packed entries, added up. */
  method ScoredSize(all: seq<(Bytes, Bytes)>) returns (total: nat)
    requires SmallScored(all)
    ensures FitsAll(SCORED, Pairs(all)) && total == |WriteRecs(SCORED, Pairs(all))|
  {
    hide WriteRec, WriteRecs, U32, FitsAll, Fits, Written;
    ghost var rs := Pairs(all);
    PairsFit(all);
    ghost var done: Bytes := [];
    WrittenStart([], SCORED, rs);
    total := 0;
    for i := 0 to |all|
      invariant Written(done, [], SCORED, rs, i) && total == |done|
    {
      WrittenNext(done, [], SCORED, rs, i);
      assert all[i] in all;
      ScoredBytes(all[i].0, all[i].1);
      done := done + WriteRec(SCORED, rs[i]);
      total := total + 4 + |all[i].0| + 8;
    }
    WrittenAll(done, [], SCORED, rs);
  }

  method SerializeZset(all: seq<(Bytes, Bytes)>) returns (data: Bytes)
    requires SmallScored(all) && |all| < U32_LIMIT
    ensures FitsAll(SCORED, Pairs(all)) && data == Encode(SCORED, Pairs(all))
  {
    hide WriteRecs, U32, FitsAll;
    var total := ScoredSize(all);
    var out := new byte[4 + total](_ => 0 as char);
    var ptr: nat := Memcpy(out, 0, U32(|all|));
    assert out[..ptr] == U32(|all|);
    PackScored(out, ptr, all);
    data := out[..];
  }

  /** astrakv_zrange: nothing at all for no entries. */
  method PackZrange(all: seq<(Bytes, Bytes)>) returns (data: Bytes)
    requires SmallScored(all)
    ensures FitsAll(SCORED, Pairs(all)) && data == WriteRecs(SCORED, Pairs(all))
  {
    hide WriteRecs, FitsAll;
    var total := ScoredSize(all);
    if all == [] {
      NoRecs(SCORED, Pairs(all));
      return [];
    }
    var out := new byte[total](_ => 0 as char);
    PackScored(out, 0, all);
    data := out[..];
  }

  lemma {:induction false} NoRecs(l: Layout, rs: seq<Rec>)
    ensures rs == [] ==> FitsAll(l, rs) && WriteRecs(l, rs) == []
  {
  }

  /** astrakv_hgetall appends field after field to a buffer. */
  method PackHash(all: seq<(Bytes, Bytes)>) returns (buf: Bytes)
    requires SmallPairs(all)
    ensures FitsAll(PAIRS, Pairs(all)) && buf == WriteRecs(PAIRS, Pairs(all))
  {
    hide WriteRec, WriteRecs, U32, FitsAll, Fits, Written;
    ghost var rs := Pairs(all);
    PairsFit(all);
    WrittenStart([], PAIRS, rs);
    buf := [];
    for i := 0 to |all|
      invariant Written(buf, [], PAIRS, rs, i)
    {
      WrittenNext(buf, [], PAIRS, rs, i);
      PairBytes(all[i].0, all[i].1);
      PairGroup(buf, U32(|all[i].0|), all[i].0, U32(|all[i].1|), all[i].1);
      buf := buf + (U32(|all[i].0|) + all[i].0) + (U32(|all[i].1|) + all[i].1);
    }
    WrittenAll(buf, [], PAIRS, rs);
  }

  method PackMembers(all: seq<Bytes>) returns (buf: Bytes)
    requires SmallMembers(all)
    ensures FitsAll(MEMBERS, Singles(all)) && buf == WriteRecs(MEMBERS, Singles(all))
  {
    hide WriteRec, WriteRecs, U32, FitsAll, Fits, Written;
    ghost var rs := Singles(all);
    SinglesFit(all);
    WrittenStart([], MEMBERS, rs);
    buf := [];
    for i := 0 to |all|
      invariant Written(buf, [], MEMBERS, rs, i)
    {
      WrittenNext(buf, [], MEMBERS, rs, i);
      MemberBytes(all[i]);
      buf := buf + (U32(|all[i]|) + all[i]);
    }
    WrittenAll(buf, [], MEMBERS, rs);
  }

  /** The Rust readers and astrakv_xadd get back exactly what the C interface packed. */
  method PackAndParse(scored: seq<(Bytes, Bytes)>, pairs: seq<(Bytes, Bytes)>, members: seq<Bytes>,
                      lossy: Bytes -> Bytes)
    returns (scored': seq<(Bytes, Bytes)>, pairs': seq<(Bytes, Bytes)>, fields: seq<(Bytes, Bytes)>,
             members': seq<Bytes>)
    requires SmallScored(scored) && SmallPairs(pairs) && SmallMembers(members)
    ensures scored' == Decoded(scored, lossy) && pairs' == fields == pairs && members' == members
  {
    hide WriteRecs, FitsAll, ReadAll;
    var a := PackZrange(scored);
    ghost var raw;
    scored', raw := ParseZsetEntries(a, lossy);
    AllBack(SCORED, Pairs(scored));
    PairsSame(raw, scored);
    var b := PackHash(pairs);
    pairs' := ParseHashEntries(b);
    fields := ParseFields(b);
    AllBack(PAIRS, Pairs(pairs));
    PairsSame(pairs', pairs);
    PairsSame(fields, pairs);
    var c := PackMembers(members);
    members' := ParseSetMembers(c);
    AllBack(MEMBERS, Singles(members));
    SinglesSame(members', members);
  }
}
