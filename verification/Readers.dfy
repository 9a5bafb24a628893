/** Readers and packers of the headerless buffers (rust/src/lib.rs:33-122, 582-645; src/kv_impl.cpp). */
module Readers {
  import opened Keys
  import opened Codec

  /** u32::from_le_bytes at position p. */
  function U32At(b: Bytes, p: nat): u32
    requires p + 4 <= |b|
  {
    FromU32(b[p..p+4])
  }

  lemma {:induction false} BlobAt(b: Bytes, p: nat)
    requires p <= |b|
    ensures ReadField(Blob, b[p..]) ==
      if p + 4 > |b| || p + 4 + U32At(b, p) > |b| then TooShort
      else Parsed(b[p+4..p+4+U32At(b, p)], b[p+4+U32At(b, p)..])
  {
    if p + 4 <= |b| {
      var s, n := b[p..], U32At(b, p);
      assert s[0] == b[p..p+4][0] && s[1] == b[p..p+4][1] && s[2] == b[p..p+4][2] && s[3] == b[p..p+4][3];
      assert FromU32(s) == n;
      if p + 4 + n <= |b| {
        assert s[4..4+n] == b[p+4..p+4+n] && s[4+n..] == b[p+4+n..];
      }
    }
  }

  lemma {:induction false} ReadOne(f: Field, b: Bytes)
    ensures ReadRec([f], b) == match ReadField(f, b) case TooShort => TooShort case Parsed(x, rest) => Parsed([x],
        rest)
  {
    assert [f][1..] == [];
    var p := ReadField(f, b);
    if p.Parsed? {
      assert ReadRec([], p.rest) == Parsed([], p.rest);
      assert [p.value] + [] == [p.value];
    }
  }

  lemma {:induction false} ReadTwo(f: Field, g: Field, b: Bytes)
    ensures ReadField(f, b).TooShort? ==> ReadRec([f, g], b).TooShort?
    ensures ReadField(f, b).Parsed? ==>
      var p := ReadField(f, b); var q := ReadField(g, p.rest);
      ReadRec([f, g], b) == if q.TooShort? then TooShort else Parsed([p.value, q.value], q.rest)
  {
    hide ReadField;
    assert [f, g][1..] == [g];
    var p := ReadField(f, b);
    if p.Parsed? {
      ReadOne(g, p.rest);
      var q := ReadField(g, p.rest);
      if q.Parsed? { assert [p.value] + [q.value] == [p.value, q.value]; }
    }
  }

  /** Reading one set member at p. */
  lemma {:induction false} MemberAt(b: Bytes, p: nat)
    requires p <= |b|
    ensures ReadRec(MEMBERS, b[p..]) ==
      if p + 4 > |b| || p + 4 + U32At(b, p) > |b| then TooShort
      else Parsed([b[p+4..p+4+U32At(b, p)]], b[p+4+U32At(b, p)..])
  {
    hide ReadField, ReadRec;
    BlobAt(b, p);
    ReadOne(Blob, b[p..]);
  }

  /** Reading one hash entry at p: the field ends at q. */
  lemma {:induction false} PairAt(b: Bytes, p: nat)
    requires p <= |b|
    ensures p + 4 > |b| || p + 4 + U32At(b, p) + 4 > |b| ==> ReadRec(PAIRS, b[p..]) == TooShort
    ensures p + 4 <= |b| && p + 4 + U32At(b, p) + 4 <= |b| ==>
      var q := p + 4 + U32At(b, p); var r := q + 4 + U32At(b, q);
      ReadRec(PAIRS, b[p..]) == if r > |b| then TooShort else Parsed([b[p+4..q], b[q+4..r]], b[r..])
  {
    hide ReadField, ReadRec;
    BlobAt(b, p);
    ReadTwo(Blob, Blob, b[p..]);
    if p + 4 <= |b| && p + 4 + U32At(b, p) <= |b| {
      BlobAt(b, p + 4 + U32At(b, p));
    }
  }

  /** Reading one sorted-set entry at p. */
  lemma {:induction false} ScoredAt(b: Bytes, p: nat)
    requires p <= |b|
    ensures p + 4 > |b| || p + 4 + U32At(b, p) + 8 > |b| ==> ReadRec(SCORED, b[p..]) == TooShort
    ensures p + 4 <= |b| && p + 4 + U32At(b, p) + 8 <= |b| ==>
      var q := p + 4 + U32At(b, p);
      ReadRec(SCORED, b[p..]) == Parsed([b[p+4..q], b[q..q+8]], b[q+8..])
  {
    hide ReadField, ReadRec;
    BlobAt(b, p);
    ReadTwo(Blob, Fixed(8), b[p..]);
    if p + 4 <= |b| && p + 4 + U32At(b, p) <= |b| {
      FixedAt(b, p + 4 + U32At(b, p), 8);
    }
  }

  lemma {:induction false} FixedAt(b: Bytes, p: nat, n: nat)
    requires p <= |b|
    ensures ReadField(Fixed(n), b[p..]) == if p + n > |b| then TooShort else Parsed(b[p..p+n], b[p+n..])
  {
    if p + n <= |b| { assert b[p..][..n] == b[p..p+n] && b[p..][n..] == b[p+n..]; }
  }

  /** The unread part of a buffer yields the rest of the records. */
  ghost predicate Reading(l: Layout, b: Bytes, p: nat, done: seq<Rec>)
    requires l != [] && l[0].Blob?
  {
    p <= |b| && ReadAll(l, b) == done + ReadAll(l, b[p..])
  }

  lemma {:induction false} ReadingStart(l: Layout, b: Bytes)
    requires l != [] && l[0].Blob?
    ensures Reading(l, b, 0, [])
  {
    assert b[0..] == b;
  }

  lemma {:induction false} ReadingStep(l: Layout, b: Bytes, p: nat, done: seq<Rec>, r: Rec, q: nat)
    requires l != [] && l[0].Blob? && Reading(l, b, p, done) && q <= |b|
    requires ReadRec(l, b[p..]) == Parsed(r, b[q..])
    ensures Reading(l, b, q, done + [r])
  {
    assert done + ([r] + ReadAll(l, b[q..])) == done + [r] + ReadAll(l, b[q..]);
  }

  lemma {:induction false} ReadingEnd(l: Layout, b: Bytes, p: nat, done: seq<Rec>)
    requires l != [] && l[0].Blob? && Reading(l, b, p, done) && ReadRec(l, b[p..]).TooShort?
    ensures ReadAll(l, b) == done
  {
  }

  // ---------- where an iterator stands ----------

  /** Where next() leaves the iterator when there is no record at p: it has consumed the lengths it could read. */
  function StopPos(l: Layout, b: Bytes, p: nat): (q: nat)
    requires p <= |b|
    ensures p <= q <= |b| && (p + 4 <= |b| ==> p < q)
  {
    if p + 4 > |b| then p
    else if l == MEMBERS || p + 4 + U32At(b, p) + 4 > |b| then p + 4
    else p + 4 + U32At(b, p) + 4
  }

  /** Where next() leaves the iterator. */
  function NextPos(l: Layout, b: Bytes, p: nat): (q: nat)
    requires p <= |b|
    ensures q <= |b|
  {
    match ReadRec(l, b[p..])
    case Parsed(_, rest) => |b| - |rest|
    case TooShort => StopPos(l, b, p)
  }

  /** The position after n calls of next(). */
  function PosAfter(l: Layout, b: Bytes, p: nat, n: nat): (q: nat)
    requires p <= |b|
    ensures q <= |b|
    decreases n
  {
    if n == 0 then p else PosAfter(l, b, NextPos(l, b, p), n - 1)
  }

  /** Every call of next() from p on returns None. */
  ghost predicate Silent(l: Layout, b: Bytes, p: nat)
    requires p <= |b|
  {
    forall n: nat :: ReadRec(l, b[PosAfter(l, b, p, n)..]).TooShort?
  }

  /** No record starts at p, nor at any place where a failed next() leaves the iterator from there on. */
  predicate NoneAhead(l: Layout, b: Bytes, p: nat)
    requires p <= |b|
    decreases |b| - p
  {
    ReadRec(l, b[p..]).TooShort? && (p + 4 <= |b| ==> NoneAhead(l, b, StopPos(l, b, p)))
  }

  lemma {:induction false} SilentNext(l: Layout, b: Bytes, p: nat)
    requires p <= |b|
    ensures Silent(l, b, p) <==> ReadRec(l, b[p..]).TooShort? && Silent(l, b, NextPos(l, b, p))
  {
    hide ReadRec, NextPos;
    var q := NextPos(l, b, p);
    if Silent(l, b, p) {
      assert PosAfter(l, b, p, 0) == p;
      forall n: nat ensures ReadRec(l, b[PosAfter(l, b, q, n)..]).TooShort? {
        assert PosAfter(l, b, p, n + 1) == PosAfter(l, b, q, n);
      }
    }
    if ReadRec(l, b[p..]).TooShort? && Silent(l, b, q) {
      forall n: nat ensures ReadRec(l, b[PosAfter(l, b, p, n)..]).TooShort? {
        if n > 0 { assert PosAfter(l, b, p, n) == PosAfter(l, b, q, n - 1); }
      }
    }
  }

  /** At the end of the buffer nothing more comes. */
  lemma {:induction false} SilentAtEnd(l: Layout, b: Bytes, p: nat, n: nat)
    requires p <= |b| < p + 4 && ReadRec(l, b[p..]).TooShort?
    ensures PosAfter(l, b, p, n) == p
  {
    if n > 0 { SilentAtEnd(l, b, p, n - 1); }
  }

  /** From p on the iterator returns None for ever, iff no record starts at any of the places it can come to. */
  lemma {:induction false} SilentIff(l: Layout, b: Bytes, p: nat)
    requires p <= |b|
    ensures Silent(l, b, p) <==> NoneAhead(l, b, p)
    decreases |b| - p
  {
    SilentNext(l, b, p);
    if ReadRec(l, b[p..]).TooShort? {
      if p + 4 <= |b| {
        SilentIff(l, b, StopPos(l, b, p));
      } else {
        forall n: nat ensures ReadRec(l, b[PosAfter(l, b, p, n)..]).TooShort? {
          SilentAtEnd(l, b, p, n);
        }
      }
    }
  }

  /** For set members these are the places p, p + 4, p + 8, ... */
  lemma {:induction false} MembersAhead(b: Bytes, p: nat)
    requires p <= |b|
    ensures NoneAhead(MEMBERS, b, p) <==> forall k: nat :: p + 4 * k <= |b| ==>
      ReadRec(MEMBERS, b[p + 4 * k..]).TooShort?
    decreases |b| - p
  {
    hide ReadRec;
    assert p + 4 * 0 == p;
    if p + 4 <= |b| {
      var q := p + 4;
      MembersAhead(b, q);
      assert forall k: nat :: q + 4 * k == p + 4 * (k + 1);
      if forall k: nat :: q + 4 * k <= |b| ==> ReadRec(MEMBERS, b[q + 4 * k..]).TooShort? {
        forall k: nat | k > 0 && p + 4 * k <= |b| ensures ReadRec(MEMBERS, b[p + 4 * k..]).TooShort? {
          assert q + 4 * (k - 1) == p + 4 * k;
        }
      }
      if forall k: nat :: p + 4 * k <= |b| ==> ReadRec(MEMBERS, b[p + 4 * k..]).TooShort? {
        forall k: nat | q + 4 * k <= |b| ensures ReadRec(MEMBERS, b[q + 4 * k..]).TooShort? {
          assert p + 4 * (k + 1) == q + 4 * k;
        }
      }
    }
  }

  lemma {:induction false} MemberNext(b: Bytes, p: nat)
    requires p <= |b|
    ensures p + 4 > |b| ==> NextPos(MEMBERS, b, p) == p
    ensures p + 4 <= |b| ==>
      var q := p + 4 + U32At(b, p); NextPos(MEMBERS, b, p) == if q > |b| then p + 4 else q
  {
    MemberAt(b, p);
    hide ReadRec, U32At;
  }

  lemma {:induction false} PairNext(b: Bytes, p: nat)
    requires p <= |b|
    ensures p + 4 > |b| ==> NextPos(PAIRS, b, p) == p
    ensures p + 4 <= |b| < p + 4 + U32At(b, p) + 4 ==> NextPos(PAIRS, b, p) == p + 4
    ensures p + 4 <= |b| && p + 4 + U32At(b, p) + 4 <= |b| ==>
      var q := p + 4 + U32At(b, p); var r := q + 4 + U32At(b, q);
      NextPos(PAIRS, b, p) == if r > |b| then q + 4 else r
  {
    PairAt(b, p);
    hide ReadRec, U32At;
    assert |PAIRS| != |MEMBERS|;
  }

  class HashEntries {
    const buf: Bytes

    constructor (buf: Bytes)
      ensures this.buf == buf
    {
      this.buf := buf;
    }

    method Len() returns (count: nat)
      ensures count == |ReadAll(PAIRS, buf)|
    {
      hide ReadRec, ReadAll;
      count := 0;
      var pos := 0;
      ghost var done: seq<Rec> := [];
      ReadingStart(PAIRS, buf);
      PairAt(buf, 0);
      while pos + 4 <= |buf|
        invariant pos <= |buf| && Reading(PAIRS, buf, pos, done) && count == |done|
        decreases |buf| - pos
      {
        ghost var start := pos;
        PairAt(buf, pos);
        var flen := U32At(buf, pos);
        pos := pos + 4;
        if pos + flen + 4 > |buf| {
          ReadingEnd(PAIRS, buf, start, done);
          return;
        }
        pos := pos + flen;
        var vlen := U32At(buf, pos);
        pos := pos + 4;
        if pos + vlen > |buf| {
          ReadingEnd(PAIRS, buf, start, done);
          return;
        }
        pos := pos + vlen;
        count := count + 1;
        ghost var r := ReadRec(PAIRS, buf[start..]).value;
        ReadingStep(PAIRS, buf, start, done, r, pos);
        done := done + [r];
      }
      PairAt(buf, pos);
      ReadingEnd(PAIRS, buf, pos, done);
    }

    method Iter() returns (it: HashEntriesIter)
      ensures fresh(it) && it.buf == buf && it.pos == 0
    {
      it := new HashEntriesIter(buf);
    }
  }

  class HashEntriesIter {
    const buf: Bytes
    var pos: nat

    constructor (buf: Bytes)
      ensures this.buf == buf && pos == 0
    {
      this.buf := buf;
      pos := 0;
    }

    /** The record at pos, or None; where the iterator stands afterwards. */
    method Next() returns (item: Option<(Bytes, Bytes)>)
      requires pos <= |buf|
      modifies this
      ensures pos <= |buf|
      ensures match ReadRec(PAIRS, old(buf[pos..]))
              case TooShort => item == None
              case Parsed(r, rest) => |r| == 2 && item == Some((r[0], r[1])) && buf[pos..] == rest
      ensures pos == NextPos(PAIRS, buf, old(pos))
    {
      hide *;
      PairAt(buf, pos);
      PairNext(buf, pos);
      if pos + 4 > |buf| {
        return None;
      }
      var flen := U32At(buf, pos);
      pos := pos + 4;
      if pos + flen + 4 > |buf| {
        return None;
      }
      var field := buf[pos..pos+flen];
      pos := pos + flen;
      var vlen := U32At(buf, pos);
      pos := pos + 4;
      if pos + vlen > |buf| {
        return None;
      }
      var value := buf[pos..pos+vlen];
      pos := pos + vlen;
      return Some((field, value));
    }
  }

  class SetMembers {
    const buf: Bytes

    constructor (buf: Bytes)
      ensures this.buf == buf
    {
      this.buf := buf;
    }

    method Len() returns (count: nat)
      ensures count == |ReadAll(MEMBERS, buf)|
    {
      hide ReadRec, ReadAll;
      count := 0;
      var pos := 0;
      ghost var done: seq<Rec> := [];
      ReadingStart(MEMBERS, buf);
      while pos + 4 <= |buf|
        invariant pos <= |buf| && Reading(MEMBERS, buf, pos, done) && count == |done|
        decreases |buf| - pos
      {
        ghost var start := pos;
        MemberAt(buf, pos);
        var mlen := U32At(buf, pos);
        pos := pos + 4;
        if pos + mlen > |buf| {
          ReadingEnd(MEMBERS, buf, start, done);
          return;
        }
        pos := pos + mlen;
        count := count + 1;
        ghost var r := ReadRec(MEMBERS, buf[start..]).value;
        ReadingStep(MEMBERS, buf, start, done, r, pos);
        done := done + [r];
      }
      MemberAt(buf, pos);
      ReadingEnd(MEMBERS, buf, pos, done);
    }

    method Iter() returns (it: SetMembersIter)
      ensures fresh(it) && it.buf == buf && it.pos == 0
    {
      it := new SetMembersIter(buf);
    }
  }

  class SetMembersIter {
    const buf: Bytes
    var pos: nat

    constructor (buf: Bytes)
      ensures this.buf == buf && pos == 0
    {
      this.buf := buf;
      pos := 0;
    }

    method Next() returns (item: Option<Bytes>)
      requires pos <= |buf|
      modifies this
      ensures pos <= |buf|
      ensures match ReadRec(MEMBERS, old(buf[pos..]))
              case TooShort => item == None
              case Parsed(r, rest) => |r| == 1 && item == Some(r[0]) && buf[pos..] == rest
      ensures pos == NextPos(MEMBERS, buf, old(pos))
    {
      MemberAt(buf, pos);
      hide ReadRec;
      if pos + 4 > |buf| {
        return None;
      }
      var mlen := U32At(buf, pos);
      pos := pos + 4;
      if pos + mlen > |buf| {
        return None;
      }
      var member := buf[pos..pos+mlen];
      pos := pos + mlen;
      return Some(member);
    }
  }

  /** A for loop over the iterator yields exactly Len() items on every buffer, malformed or not. */
  method CollectPairs(entries: HashEntries) returns (items: seq<(Bytes, Bytes)>)
    ensures |items| == |ReadAll(PAIRS, entries.buf)|
    ensures forall i :: 0 <= i < |items| ==> [items[i].0, items[i].1] == ReadAll(PAIRS, entries.buf)[i]
  {
    hide ReadRec, ReadAll;
    var it := entries.Iter();
    items := [];
    ghost var done: seq<Rec> := [];
    ReadingStart(PAIRS, it.buf);
    while true
      invariant it.buf == entries.buf && Reading(PAIRS, it.buf, it.pos, done)
      invariant |items| == |done| && forall i :: 0 <= i < |items| ==> [items[i].0, items[i].1] == done[i]
      decreases |it.buf| - it.pos
    {
      ghost var start := it.pos;
      PairAt(it.buf, start);
      var item := it.Next();
      if item.None? {
        ReadingEnd(PAIRS, it.buf, start, done);
        return;
      }
      ReadingStep(PAIRS, it.buf, start, done, ReadRec(PAIRS, it.buf[start..]).value, it.pos);
      done := done + [ReadRec(PAIRS, it.buf[start..]).value];
      items := items + [item.value];
    }
  }

  method CollectMembers(members: SetMembers) returns (items: seq<Bytes>)
    ensures |items| == |ReadAll(MEMBERS, members.buf)|
    ensures forall i :: 0 <= i < |items| ==> [items[i]] == ReadAll(MEMBERS, members.buf)[i]
  {
    hide ReadRec, ReadAll;
    var it := members.Iter();
    items := [];
    ghost var done: seq<Rec> := [];
    ReadingStart(MEMBERS, it.buf);
    while true
      invariant it.buf == members.buf && Reading(MEMBERS, it.buf, it.pos, done)
      invariant |items| == |done| && forall i :: 0 <= i < |items| ==> [items[i]] == done[i]
      decreases |it.buf| - it.pos
    {
      ghost var start := it.pos;
      MemberAt(it.buf, start);
      var item := it.Next();
      if item.None? {
        ReadingEnd(MEMBERS, it.buf, start, done);
        return;
      }
      ReadingStep(MEMBERS, it.buf, start, done, ReadRec(MEMBERS, it.buf[start..]).value, it.pos);
      done := done + [ReadRec(MEMBERS, it.buf[start..]).value];
      items := items + [item.value];
    }
  }

  /** raw are the complete records; a member is decoded by lossy, which stands for from_utf8_lossy. */
  method ParseZsetEntries(buf: Bytes, lossy: Bytes -> Bytes)
    returns (entries: seq<(Bytes, Bytes)>, ghost raw: seq<(Bytes, Bytes)>)
    ensures Pairs(raw) == ReadAll(SCORED, buf) && entries == Decoded(raw, lossy)
  {
    hide ReadRec, ReadAll;
    entries, raw := [], [];
    var pos := 0;
    ReadingStart(SCORED, buf);
    while pos + 4 <= |buf|
      invariant pos <= |buf| && Reading(SCORED, buf, pos, Pairs(raw)) && entries == Decoded(raw, lossy)
      decreases |buf| - pos
    {
      ghost var start := pos;
      ScoredAt(buf, pos);
      var mlen := U32At(buf, pos);
      pos := pos + 4;
      if pos + mlen + 8 > |buf| {
        ReadingEnd(SCORED, buf, start, Pairs(raw));
        return;
      }
      var bytes := buf[pos..pos+mlen];
      var member := lossy(bytes);
      pos := pos + mlen;
      var score := buf[pos..pos+8];
      pos := pos + 8;
      ReadingStep(SCORED, buf, start, Pairs(raw), [bytes, score], pos);
      PairsNext(raw, (bytes, score));
      raw := raw + [(bytes, score)];
      entries := entries + [(member, score)];
    }
    ScoredAt(buf, pos);
    ReadingEnd(SCORED, buf, pos, Pairs(raw));
  }

  method ParseHashEntries(buf: Bytes) returns (entries: seq<(Bytes, Bytes)>)
    ensures Pairs(entries) == ReadAll(PAIRS, buf)
  {
    hide ReadRec, ReadAll;
    entries := [];
    var pos := 0;
    ReadingStart(PAIRS, buf);
    while pos + 4 <= |buf|
      invariant pos <= |buf| && Reading(PAIRS, buf, pos, Pairs(entries))
      decreases |buf| - pos
    {
      ghost var start := pos;
      PairAt(buf, pos);
      var flen := U32At(buf, pos);
      pos := pos + 4;
      if pos + flen + 4 > |buf| {
        ReadingEnd(PAIRS, buf, start, Pairs(entries));
        return;
      }
      var field := buf[pos..pos+flen];
      pos := pos + flen;
      var vlen := U32At(buf, pos);
      pos := pos + 4;
      if pos + vlen > |buf| {
        ReadingEnd(PAIRS, buf, start, Pairs(entries));
        return;
      }
      var value := buf[pos..pos+vlen];
      pos := pos + vlen;
      ReadingStep(PAIRS, buf, start, Pairs(entries), [field, value], pos);
      PairsNext(entries, (field, value));
      entries := entries + [(field, value)];
    }
    PairAt(buf, pos);
    ReadingEnd(PAIRS, buf, pos, Pairs(entries));
  }

  method ParseSetMembers(buf: Bytes) returns (members: seq<Bytes>)
    ensures Singles(members) == ReadAll(MEMBERS, buf)
  {
    hide ReadRec, ReadAll;
    members := [];
    var pos := 0;
    ReadingStart(MEMBERS, buf);
    while pos + 4 <= |buf|
      invariant pos <= |buf| && Reading(MEMBERS, buf, pos, Singles(members))
      decreases |buf| - pos
    {
      ghost var start := pos;
      MemberAt(buf, pos);
      var mlen := U32At(buf, pos);
      pos := pos + 4;
      if pos + mlen > |buf| {
        ReadingEnd(MEMBERS, buf, start, Singles(members));
        return;
      }
      var member := buf[pos..pos+mlen];
      pos := pos + mlen;
      ReadingStep(MEMBERS, buf, start, Singles(members), [member], pos);
      SinglesNext(members, member);
      members := members + [member];
    }
    MemberAt(buf, pos);
    ReadingEnd(MEMBERS, buf, pos, Singles(members));
  }

  /** The field parser of astrakv_xadd: other checks, the same records. */
  method ParseFields(fields: Bytes) returns (fvec: seq<(Bytes, Bytes)>)
    ensures Pairs(fvec) == ReadAll(PAIRS, fields)
  {
    hide ReadRec, ReadAll;
    fvec := [];
    var ptr, end := 0, |fields|;
    ReadingStart(PAIRS, fields);
    while ptr + 4 <= end
      invariant ptr <= end && Reading(PAIRS, fields, ptr, Pairs(fvec))
      decreases end - ptr
    {
      ghost var start := ptr;
      PairAt(fields, ptr);
      var flen := U32At(fields, ptr);
      ptr := ptr + 4;
      if ptr + flen > end {
        ReadingEnd(PAIRS, fields, start, Pairs(fvec));
        return;
      }
      var field := fields[ptr..ptr+flen];
      ptr := ptr + flen;
      if ptr + 4 > end {
        ReadingEnd(PAIRS, fields, start, Pairs(fvec));
        return;
      }
      var vlen := U32At(fields, ptr);
      ptr := ptr + 4;
      if ptr + vlen > end {
        ReadingEnd(PAIRS, fields, start, Pairs(fvec));
        return;
      }
      var value := fields[ptr..ptr+vlen];
      ptr := ptr + vlen;
      ReadingStep(PAIRS, fields, start, Pairs(fvec), [field, value], ptr);
      PairsNext(fvec, (field, value));
      fvec := fvec + [(field, value)];
    }
    PairAt(fields, ptr);
    ReadingEnd(PAIRS, fields, ptr, Pairs(fvec));
  }

  /** Entries with their members decoded. */
  ghost function Decoded(raw: seq<(Bytes, Bytes)>, lossy: Bytes -> Bytes): seq<(Bytes, Bytes)> {
    seq(|raw|, i requires 0 <= i < |raw| => (lossy(raw[i].0), raw[i].1))
  }

  /** Records of two fields, and of one. */
  ghost function Pairs(s: seq<(Bytes, Bytes)>): (r: seq<Rec>)
    ensures |r| == |s| && forall i :: 0 <= i < |s| ==> r[i] == [s[i].0, s[i].1]
  {
    seq(|s|, i requires 0 <= i < |s| => [s[i].0, s[i].1])
  }

  ghost function Singles(s: seq<Bytes>): (r: seq<Rec>)
    ensures |r| == |s| && forall i :: 0 <= i < |s| ==> r[i] == [s[i]]
  {
    seq(|s|, i requires 0 <= i < |s| => [s[i]])
  }

  lemma {:induction false} PairsNext(s: seq<(Bytes, Bytes)>, x: (Bytes, Bytes))
    ensures Pairs(s + [x]) == Pairs(s) + [[x.0, x.1]] && Pairs([]) == []
  {
  }

  lemma {:induction false} SinglesNext(s: seq<Bytes>, x: Bytes)
    ensures Singles(s + [x]) == Singles(s) + [[x]] && Singles([]) == []
  {
  }

  /** Different entries make different records. */
  lemma {:induction false} PairsSame(s: seq<(Bytes, Bytes)>, t: seq<(Bytes, Bytes)>)
    requires Pairs(s) == Pairs(t)
    ensures s == t
  {
    assert |Pairs(s)| == |Pairs(t)|;
    forall i | 0 <= i < |s| ensures s[i] == t[i] {
      assert Pairs(s)[i] == Pairs(t)[i];
      assert [s[i].0, s[i].1] == [t[i].0, t[i].1];
      assert [s[i].0, s[i].1][0] == [t[i].0, t[i].1][0] && [s[i].0, s[i].1][1] == [t[i].0, t[i].1][1];
    }
  }

  lemma {:induction false} SinglesSame(s: seq<Bytes>, t: seq<Bytes>)
    requires Singles(s) == Singles(t)
    ensures s == t
  {
    assert |Singles(s)| == |Singles(t)|;
    forall i | 0 <= i < |s| ensures s[i] == t[i] {
      assert Singles(s)[i] == Singles(t)[i];
      var x: Rec, y: Rec := [s[i]], [t[i]];
      assert x == y && x[0] == y[0];
    }
  }

  /** An iterator that has returned None may go on: it has consumed the length it could not satisfy. */
  method NotFused() returns (first: Option<Bytes>, second: Option<Bytes>)
    ensures first == None && second == Some([])
  {
    var buf: Bytes := [5 as char, 0 as char, 0 as char, 0 as char, 0 as char, 0 as char, 0 as char, 0 as char];
    var it := new SetMembersIter(buf);
    MemberAt(buf, 0);
    MemberAt(buf, 4);
    assert U32At(buf, 0) == 5 && U32At(buf, 4) == 0;
    assert buf[0..] == buf;
    hide ReadRec, U32At;
    first := it.Next();
    second := it.Next();
  }
}
