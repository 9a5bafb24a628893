/** Storing and reloading a stream (src/engine.cpp:206-266). */
module StreamCodec {
  import opened Keys
  import opened Codec
  import opened Readers
  import opened Serialize
  import opened Deserialize
  import opened Streams

  ghost predicate SmallEntry(e: Entry) {
    |e.id| < U32_LIMIT && |e.fields| < U32_LIMIT && SmallPairs(e.fields)
  }

  ghost predicate SmallEntries(es: seq<Entry>) {
    forall e :: e in es ==> SmallEntry(e)
  }

  /** The id as a blob, then the fields as a hash is stored. */
  ghost function WriteEntry(e: Entry): Bytes
    requires SmallEntry(e)
  {
    PairsFit(e.fields);
    U32(|e.id|) + e.id + Encode(PAIRS, Pairs(e.fields))
  }

  ghost function WriteEntries(es: seq<Entry>): Bytes
    requires SmallEntries(es)
  {
    if es == [] then [] else WriteEntry(es[0]) + WriteEntries(es[1..])
  }

  ghost function EncodeStream(es: seq<Entry>): Bytes
    requires SmallEntries(es) && |es| < U32_LIMIT
  {
    U32(|es|) + WriteEntries(es)
  }

  /** The pairs that records of two fields stand for. */
  ghost function FieldPairs(rs: seq<Rec>): (s: seq<(Bytes, Bytes)>)
    ensures |s| == |rs|
  {
    seq(|rs|, i requires 0 <= i < |rs| => if |rs[i]| == 2 then (rs[i][0], rs[i][1]) else ([], []))
  }

  ghost function ReadEntry(b: Bytes): (p: Parsed<Entry>)
    ensures p.Parsed? ==> |p.rest| < |b|
  {
    match ReadField(Blob, b)
    case TooShort => TooShort
    case Parsed(id, rest) =>
      DecodeShrinks(PAIRS, rest);
      match Decode(PAIRS, rest)
      case TooShort => TooShort
      case Parsed(rs, rest') => Parsed(Entry(id, FieldPairs(rs)), rest')
  }

  lemma {:induction false} RecsShrink(l: Layout, n: nat, b: Bytes)
    ensures ReadRecs(l, n, b).Parsed? ==> |ReadRecs(l, n, b).rest| <= |b|
  {
    if n > 0 && ReadRec(l, b).Parsed? {
      RecsShrink(l, n - 1, ReadRec(l, b).rest);
    }
  }

  lemma {:induction false} DecodeShrinks(l: Layout, b: Bytes)
    ensures Decode(l, b).Parsed? ==> |Decode(l, b).rest| <= |b|
  {
    if |b| >= 4 { RecsShrink(l, FromU32(b), b[4..]); }
  }

  ghost function ReadEntries(n: nat, b: Bytes): Parsed<seq<Entry>> {
    if n == 0 then Parsed([], b)
    else
      match ReadEntry(b)
      case TooShort => TooShort
      case Parsed(e, rest) =>
        match ReadEntries(n - 1, rest)
        case TooShort => TooShort
        case Parsed(es, rest') => Parsed([e] + es, rest')
  }

  ghost function DecodeStream(data: Bytes): Parsed<seq<Entry>> {
    if |data| < 4 then TooShort else ReadEntries(FromU32(data), data[4..])
  }

  lemma {:induction false} FieldPairsBack(s: seq<(Bytes, Bytes)>)
    ensures FieldPairs(Pairs(s)) == s
  {
  }

  lemma {:induction false} EntryBack(e: Entry, rest: Bytes)
    requires SmallEntry(e)
    ensures ReadEntry(WriteEntry(e) + rest) == Parsed(e, rest)
  {
    PairsFit(e.fields);
    var tail := Encode(PAIRS, Pairs(e.fields));
    assert WriteEntry(e) + rest == WriteField(Blob, e.id) + (tail + rest);
    FieldBack(Blob, e.id, tail + rest);
    RoundTrip(PAIRS, Pairs(e.fields), rest);
    FieldPairsBack(e.fields);
  }

  lemma {:induction false} EntriesBack(es: seq<Entry>, rest: Bytes)
    requires SmallEntries(es)
    ensures ReadEntries(|es|, WriteEntries(es) + rest) == Parsed(es, rest)
  {
    hide WriteEntry, ReadEntry;
    if es != [] {
      var x, tail := WriteEntry(es[0]), WriteEntries(es[1..]);
      assert x + tail + rest == x + (tail + rest);
      EntryBack(es[0], tail + rest);
      EntriesBack(es[1..], rest);
      assert [es[0]] + es[1..] == es;
    }
  }

  lemma {:induction false} EntryMore(b: Bytes, more: Bytes)
    requires ReadEntry(b).Parsed?
    ensures ReadEntry(b + more) == ReadEntry(b).(rest := ReadEntry(b).rest + more)
  {
    FieldMore(Blob, b, more);
    DecodeMore(PAIRS, ReadField(Blob, b).rest, more);
  }

  lemma {:induction false} EntriesMore(n: nat, b: Bytes, more: Bytes)
    requires ReadEntries(n, b).Parsed?
    ensures ReadEntries(n, b + more) == ReadEntries(n, b).(rest := ReadEntries(n, b).rest + more)
  {
    hide ReadEntry;
    if n > 0 {
      EntryMore(b, more);
      EntriesMore(n - 1, ReadEntry(b).rest, more);
    }
  }

  lemma {:induction false} StreamRoundTrip(es: seq<Entry>, rest: Bytes)
    requires SmallEntries(es) && |es| < U32_LIMIT
    ensures DecodeStream(EncodeStream(es) + rest) == Parsed(es, rest)
  {
    var b := EncodeStream(es) + rest;
    assert b == U32(|es|) + (WriteEntries(es) + rest);
    U32Back(|es|, WriteEntries(es) + rest);
    EntriesBack(es, rest);
  }

  lemma {:induction false} StreamMore(b: Bytes, more: Bytes)
    requires DecodeStream(b).Parsed?
    ensures DecodeStream(b + more) == DecodeStream(b).(rest := DecodeStream(b).rest + more)
  {
    assert (b + more)[0] == b[0] && (b + more)[1] == b[1] && (b + more)[2] == b[2] && (b + more)[3] == b[3];
    assert FromU32(b + more) == FromU32(b) && (b + more)[4..] == b[4..] + more;
    EntriesMore(FromU32(b), b[4..], more);
  }

  lemma {:induction false} StreamPrefixRejected(es: seq<Entry>, n: nat)
    requires SmallEntries(es) && |es| < U32_LIMIT && n < |EncodeStream(es)|
    ensures DecodeStream(EncodeStream(es)[..n]).TooShort?
  {
    var b := EncodeStream(es);
    var p, q := b[..n], b[n..];
    assert p + q == b == b + [];
    StreamRoundTrip(es, []);
    hide DecodeStream;
    if DecodeStream(p).Parsed? {
      NotEmpty(DecodeStream(p).rest, q);
      StreamMore(p, q);
    }
  }

  /** An entry is the length and the bytes of its id, the number of its fields, and these pairs. */
  lemma {:induction false} EntryForm(n: Bytes, e: Entry, k: Bytes, rest: Bytes)
    requires LengthOf(n, e.id) && SmallEntry(e) && |k| == 4 && Le(k) == |e.fields|
    ensures FitsAll(PAIRS, Pairs(e.fields)) && WriteEntry(e) == n + e.id + (k + WriteRecs(PAIRS, Pairs(e.fields)))
    ensures ReadEntry(n + e.id + (k + WriteRecs(PAIRS, Pairs(e.fields))) + rest) == Parsed(e, rest)
  {
    PairsFit(e.fields);
    LengthIs(n, e.id);
    LittleEndian(|e.fields|, k);
    assert k[..4] == k;
    EntryBack(e, rest);
  }

  /** The entries follow each other, after their number. */
  lemma {:induction false} StreamForm(es: seq<Entry>, n: Bytes, e: Entry)
    requires SmallEntries(es) && |es| < U32_LIMIT && |n| == 4 && Le(n) == |es| && SmallEntry(e)
    ensures EncodeStream(es) == n + WriteEntries(es) && WriteEntries([]) == []
    ensures SmallEntries(es + [e]) && WriteEntries(es + [e]) == WriteEntries(es) + WriteEntry(e)
  {
    LittleEndian(|es|, n);
    assert n[..4] == n;
    OneEntry(e);
    EntriesConcat(es, [e]);
  }

  // ---------- the loops ----------

  lemma {:induction false} EntriesConcat(a: seq<Entry>, b: seq<Entry>)
    requires SmallEntries(a) && SmallEntries(b)
    ensures SmallEntries(a + b) && WriteEntries(a + b) == WriteEntries(a) + WriteEntries(b)
  {
    hide WriteEntry, SmallEntry;
    if a == [] {
      assert a + b == b;
    } else {
      assert (a + b)[1..] == a[1..] + b;
      EntriesConcat(a[1..], b);
    }
  }

  lemma {:induction false} EntriesNext(es: seq<Entry>, i: nat)
    requires SmallEntries(es) && i < |es|
    ensures SmallEntry(es[i]) && SmallEntries(es[..i]) && SmallEntries(es[..i+1])
    ensures WriteEntries(es[..i+1]) == WriteEntries(es[..i]) + WriteEntry(es[i])
    ensures |WriteEntries(es[..i])| + |WriteEntry(es[i])| <= |WriteEntries(es)|
  {
    assert es[..i+1] == es[..i] + [es[i]] && es == es[..i+1] + es[i+1..];
    hide WriteEntry, SmallEntry;
    assert es[i] in es;
    EntriesConcat(es[..i], [es[i]]);
    EntriesConcat(es[..i+1], es[i+1..]);
    OneEntry(es[i]);
  }

  lemma {:induction false} OneEntry(e: Entry)
    requires SmallEntry(e)
    ensures SmallEntries([e]) && WriteEntries([e]) == WriteEntry(e)
  {
    var one: seq<Entry> := [e];
    assert |one[1..]| == 0;
  }

  lemma {:induction false} NoEntries(es: seq<Entry>)
    ensures SmallEntries(es[..0]) && WriteEntries(es[..0]) == [] && es[..|es|] == es
  {
  }

  /** Writes one entry: its id, its fields. */
  method PutEntry(out: array<byte>, start: nat, e: Entry) returns (ptr: nat)
    requires SmallEntry(e) && start + |WriteEntry(e)| <= out.Length
    modifies out
    ensures ptr == start + |WriteEntry(e)| && out[..ptr] == old(out[..start]) + WriteEntry(e)
  {
    hide WriteRec, WriteRecs, U32, FitsAll, Fits, Written;
    ghost var before, rs := out[..start], Pairs(e.fields);
    PairsFit(e.fields);
    ghost var head := before + (U32(|e.id|) + e.id) + U32(|e.fields|);
    ptr := PutBlob(out, start, e.id);
    ptr := Memcpy(out, ptr, U32(|e.fields|));
    WrittenStart(head, PAIRS, rs);
    for i := 0 to |e.fields|
      invariant ptr <= out.Length && Written(out[..ptr], head, PAIRS, rs, i)
    {
      WrittenNext(out[..ptr], head, PAIRS, rs, i);
      PairBytes(e.fields[i].0, e.fields[i].1);
      ghost var o := out[..ptr];
      ptr := PutBlob(out, ptr, e.fields[i].0);
      ptr := PutBlob(out, ptr, e.fields[i].1);
      PairGroup(o, U32(|e.fields[i].0|), e.fields[i].0, U32(|e.fields[i].1|), e.fields[i].1);
    }
    WrittenAll(out[..ptr], head, PAIRS, rs);
    EntryGroup(before, U32(|e.id|) + e.id, U32(|e.fields|), WriteRecs(PAIRS, rs));
  }

  lemma {:induction false} EntryGroup(a: Bytes, b: Bytes, c: Bytes, d: Bytes)
    ensures a + b + c + d == a + (b + (c + d))
  {
  }

  /** The bytes an entry takes. */
  method EntrySize(e: Entry) returns (n: nat)
    requires SmallEntry(e)
    ensures n == |WriteEntry(e)|
  {
    hide WriteRec, WriteRecs, U32, FitsAll, Fits, Written;
    ghost var rs := Pairs(e.fields);
    PairsFit(e.fields);
    ghost var done: Bytes := [];
    WrittenStart([], PAIRS, rs);
    n := 4 + |e.id| + 4;
    for i := 0 to |e.fields|
      invariant Written(done, [], PAIRS, rs, i) && n == 4 + |e.id| + 4 + |done|
    {
      WrittenNext(done, [], PAIRS, rs, i);
      PairBytes(e.fields[i].0, e.fields[i].1);
      done := done + WriteRec(PAIRS, rs[i]);
      n := n + 4 + |e.fields[i].0| + 4 + |e.fields[i].1|;
    }
    WrittenAll(done, [], PAIRS, rs);
  }

  method SerializeStream(s: StreamData) returns (data: Bytes)
    requires SmallEntries(s.entries) && |s.entries| < U32_LIMIT
    ensures data == EncodeStream(s.entries)
  {
    hide WriteEntry, SmallEntry, SmallEntries, WriteEntries, U32;
    var all := s.entries;
    NoEntries(all);
    var total := 4;
    for i := 0 to |all|
      invariant SmallEntries(all[..i]) && total == 4 + |WriteEntries(all[..i])|
    {
      EntriesNext(all, i);
      var n := EntrySize(all[i]);
      total := total + n;
    }
    var out := new byte[total](_ => 0 as char);
    var ptr: nat := Memcpy(out, 0, U32(|all|));
    assert out[..ptr] == U32(|all|) + WriteEntries(all[..0]);
    for i := 0 to |all|
      invariant SmallEntries(all[..i]) && ptr == 4 + |WriteEntries(all[..i])| <= out.Length
      invariant out[..ptr] == U32(|all|) + WriteEntries(all[..i])
    {
      EntriesNext(all, i);
      EntryGroup(U32(|all|), WriteEntries(all[..i]), WriteEntry(all[i]), []);
      ptr := PutEntry(out, ptr, all[i]);
    }
    data := out[..];
  }

  // ---------- reading entry by entry ----------

  lemma {:induction false} ReadEntriesNext(n: nat, b: Bytes)
    requires ReadEntries(n, b).Parsed? && ReadEntry(ReadEntries(n, b).rest).Parsed?
    ensures var p := ReadEntries(n, b); var q := ReadEntry(p.rest);
      ReadEntries(n + 1, b) == Parsed(p.value + [q.value], q.rest)
  {
    hide ReadEntry;
    if n > 0 {
      var e := ReadEntry(b);
      ReadEntriesNext(n - 1, e.rest);
      var p := ReadEntries(n - 1, e.rest);
      assert [e.value] + (p.value + [ReadEntry(p.rest).value]) == ([e.value] + p.value) + [ReadEntry(p.rest).value];
    } else {
      var e := ReadEntry(b);
      assert ReadEntries(0, e.rest) == Parsed([], e.rest);
      assert [e.value] + [] == [] + [e.value];
    }
  }

  /** As many entries as are complete. */
  ghost function ReadAllEntries(b: Bytes): seq<Entry>
    decreases |b|
  {
    match ReadEntry(b)
    case TooShort => []
    case Parsed(e, rest) => [e] + ReadAllEntries(rest)
  }

  /** The entries that are replayed: all of them, or those before the first incomplete one. */
  ghost function LoadedEntries(data: Bytes): seq<Entry> {
    match DecodeStream(data)
    case Parsed(es, _) => es
    case TooShort => if |data| < 4 then [] else ReadAllEntries(data[4..])
  }

  /** As many entries as are promised, and no more than are complete. */
  lemma {:induction false} LoadedFirst(data: Bytes)
    requires |data| >= 4
    ensures var all, n := ReadAllEntries(data[4..]), Le(data[..4]);
      && LoadedEntries(data) == all[..if n < |all| then n else |all|]
      && (DecodeStream(data).Parsed? <==> n <= |all|)
  {
    LittleEndian(0, data);
    FirstEntries(FromU32(data), data[4..]);
  }

  lemma {:induction false} FirstEntries(n: nat, b: Bytes)
    ensures var p, all := ReadEntries(n, b), ReadAllEntries(b);
      && (p.Parsed? <==> n <= |all|) && (p.Parsed? ==> p.value == all[..n])
  {
    hide ReadEntry;
    if n > 0 && ReadEntry(b).Parsed? {
      var rest := ReadEntry(b).rest;
      FirstEntries(n - 1, rest);
      assert ReadAllEntries(b)[1..] == ReadAllEntries(rest);
    }
  }

  lemma {:induction false} ReadEntriesFails(n: nat, m: nat, b: Bytes)
    requires n < m && ReadEntries(n, b).Parsed? && ReadEntry(ReadEntries(n, b).rest).TooShort?
    ensures ReadEntries(m, b).TooShort? && ReadEntries(n, b).value == ReadAllEntries(b)
  {
    hide ReadEntry;
    if n > 0 {
      ReadEntriesFails(n - 1, m - 1, ReadEntry(b).rest);
    }
  }

  /** The fields of one entry: fc of them from ptr on. */
  method ReadFields(data: Bytes, start: nat, fc: u32)
    returns (ok: bool, fields: seq<(Bytes, Bytes)>, ptr: nat)
    requires start <= |data|
    ensures start <= ptr
    ensures match ReadRecs(PAIRS, fc, data[start..])
            case TooShort => !ok
            case Parsed(rs, rest) => ok && Pairs(fields) == rs && ptr <= |data| && rest == data[ptr..]
  {
    hide ReadRec, ReadRecs, ReadAll, FromU32;
    fields, ptr := [], start;
    ghost var done: seq<Rec> := [];
    LoadingStart(PAIRS, data, start, fc);
    for j := 0 to fc
      invariant start <= ptr && Loading(PAIRS, data, start, fc, j, ptr, done) && Pairs(fields) == done
    {
      PairAt(data, ptr);
      ghost var from := ptr;
      if ptr + 4 > |data| {
        LoadingFails(PAIRS, data, start, fc, j, from, done);
        return false, fields, ptr;
      }
      var fl := U32At(data, ptr);
      ptr := ptr + 4;
      if ptr + fl + 4 > |data| {
        LoadingFails(PAIRS, data, start, fc, j, from, done);
        return false, fields, ptr;
      }
      var f := data[ptr..ptr+fl];
      ptr := ptr + fl;
      var vl := U32At(data, ptr);
      ptr := ptr + 4;
      if ptr + vl > |data| {
        LoadingFails(PAIRS, data, start, fc, j, from, done);
        return false, fields, ptr;
      }
      var v := data[ptr..ptr+vl];
      ptr := ptr + vl;
      LoadingStep(PAIRS, data, start, fc, j, from, done, [f, v], ptr);
      PairsNext(fields, (f, v));
      done := done + [[f, v]];
      fields := fields + [(f, v)];
    }
    LoadingEnds(PAIRS, data, start, fc, ptr, done);
    ok := true;
  }

  /** Reading one entry at p. */
  lemma {:induction false} EntryAt(b: Bytes, p: nat)
    requires p <= |b|
    ensures p + 4 > |b| || p + 4 + U32At(b, p) + 4 > |b| ==> ReadEntry(b[p..]).TooShort?
    ensures p + 4 <= |b| && p + 4 + U32At(b, p) + 4 <= |b| ==>
      var q := p + 4 + U32At(b, p); var t := ReadRecs(PAIRS, U32At(b, q), b[q+4..]);
      ReadEntry(b[p..]) == if t.TooShort? then TooShort else Parsed(Entry(b[p+4..q], FieldPairs(t.value)), t.rest)
  {
    hide ReadField, ReadRecs, FieldPairs;
    BlobAt(b, p);
    if p + 4 <= |b| && p + 4 + U32At(b, p) + 4 <= |b| {
      var q := p + 4 + U32At(b, p);
      assert b[q..][4..] == b[q+4..];
      assert b[q..q+4][0] == b[q..][0] && b[q..q+4][1] == b[q..][1];
      assert b[q..q+4][2] == b[q..][2] && b[q..q+4][3] == b[q..][3];
      assert FromU32(b[q..]) == U32At(b, q);
    }
  }

  /** Replays the stored entries through XAdd, up to the first incomplete one. */
  method DeserializeStream(data: Bytes, s: StreamData, clock: u64) returns (ok: bool)
    modifies s
    ensures ok <==> DecodeStream(data).Parsed?
    ensures s.State() == Reload(old(s.State()), LoadedEntries(data), clock)
  {
    hide ReadEntry, ReadEntries, ReadAllEntries, ReadRecs, FromU32, U32At, Add, Format;
    ghost var done: seq<Entry> := [];
    ReloadNone(s.State(), clock);
    if |data| < 4 {
      return false;
    }
    CountAt(data);
    var count := U32At(data, 0);
    var ptr: nat := 4;
    ReadNone(data[4..]);
    for i := 0 to count
      invariant 4 <= ptr <= |data| && ReadEntries(i, data[4..]) == Parsed(done, data[ptr..])
      invariant s.State() == Reload(old(s.State()), done, clock)
    {
      EntryAt(data, ptr);
      if ReadEntry(data[ptr..]).TooShort? {
        ReadEntriesFails(i, count, data[4..]);
      } else {
        ReadEntriesNext(i, data[4..]);
      }
      if ptr + 4 > |data| {
        return false;
      }
      var ilen := U32At(data, ptr);
      ptr := ptr + 4;
      if ptr + ilen + 4 > |data| {
        return false;
      }
      var id := data[ptr..ptr+ilen];
      ptr := ptr + ilen;
      var fc := U32At(data, ptr);
      var good, fields, next := ReadFields(data, ptr + 4, fc);
      if !good {
        return false;
      }
      FieldPairsBack(fields);
      ReloadNext(old(s.State()), done, Entry(id, fields), clock);
      var newId := s.XAdd(id, fields, clock);
      done := done + [Entry(id, fields)];
      ptr := next;
    }
    return true;
  }

  lemma {:induction false} ReadNone(b: Bytes)
    ensures ReadEntries(0, b) == Parsed([], b)
  {
  }

  lemma {:induction false} ReloadNone(s: Stream, clock: u64)
    ensures Reload(s, [], clock) == s
  {
  }

  lemma {:induction false} ReloadNext(s: Stream, es: seq<Entry>, e: Entry, clock: u64)
    ensures Reload(s, es + [e], clock) == Add(Reload(s, es, clock), e.id, e.fields, clock).0
    decreases |es|
  {
    hide Add;
    if es == [] {
      assert es + [e] == [e] && [e][1..] == [];
    } else {
      assert (es + [e])[1..] == es[1..] + [e];
      ReloadNext(Add(s, es[0].id, es[0].fields, clock).0, es[1..], e, clock);
    }
  }

  /**
   A stream that is stored and loaded into an empty one has the same entries iff their ids increase;
   a cut buffer is refused.  No reachable stream has an entry "*" (ReloadSame).
   */
  method StoreAndLoadStream(s: StreamData, clock: u64, cut: nat)
    returns (ok: bool, t: StreamData, short: bool)
    requires NoStar(s.entries) && SmallEntries(s.entries) && |s.entries| < U32_LIMIT
    ensures ok && (t.entries == s.entries <==> Increasing(s.entries)) && !short
  {
    hide NoStar, Increasing, SmallEntries, Reload, DecodeStream, EncodeStream, LoadedEntries;
    var data := SerializeStream(s);
    t := new StreamData();
    Reloaded(s.entries, data, clock);
    ok := DeserializeStream(data, t, clock);
    short := false;
    if cut < |data| {
      StreamPrefixRejected(s.entries, cut);
      var u := new StreamData();
      short := DeserializeStream(data[..cut], u, clock);
    }
  }

  lemma {:induction false} Reloaded(es: seq<Entry>, data: Bytes, clock: u64)
    requires NoStar(es) && SmallEntries(es) && |es| < U32_LIMIT && data == EncodeStream(es)
    ensures DecodeStream(data) == Parsed(es, []) && LoadedEntries(data) == es
    ensures Reload(EMPTY, es, clock).entries == es <==> Increasing(es)
  {
    StreamRoundTrip(es, []);
    assert data + [] == data && EMPTY.entries + es == es;
    ReloadAppends(EMPTY, es, clock);
  }
}
