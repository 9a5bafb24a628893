/** The stream: an append-only log under increasing ids (src/stream_data.cpp). */
module Streams {
  import opened Keys
  import opened Decimals

  datatype Id = Id(ms: u64, seqNo: u64)

  datatype Entry = Entry(id: Bytes, fields: seq<(Bytes, Bytes)>)

  /** entries_, last_ms_ and last_seq_. */
  datatype Stream = Stream(entries: seq<Entry>, last: Id)

  const EMPTY := Stream([], Id(0, 0))
  const LAST_SEQ: u64 := U64_LIMIT - 1

  predicate IdLt(a: Id, b: Id) {
    a.ms < b.ms || (a.ms == b.ms && a.seqNo < b.seqNo)
  }

  /** Ids are ordered like these 128-bit numbers. */
  function Place(id: Id): nat {
    id.ms * U64_LIMIT + id.seqNo
  }

  lemma {:induction false} IdOrder(a: Id, b: Id)
    ensures (IdLt(a, b) <==> Place(a) < Place(b)) && (Place(a) == Place(b) <==> a == b)
  {
  }

  /** The position of the first dash, or the length. */
  function Dash(s: Bytes): (i: nat)
    ensures i <= |s| && (i < |s| ==> s[i] == '-') && forall j :: 0 <= j < i ==> s[j] != '-'
  {
    if s == [] || s[0] == '-' then 0 else 1 + Dash(s[1..])
  }

  function Parse(s: Bytes): Id {
    var dash := Dash(s);
    if dash == |s| then Id(0, 0) else Id(ToNumber(s), ToNumber(s[dash+1..]))
  }

  function Format(id: Id): Bytes {
    ToString(id.ms) + "-" + ToString(id.seqNo)
  }

  function CompareIds(a: Bytes, b: Bytes): int {
    var x, y := Parse(a), Parse(b);
    if IdLt(x, y) then -1 else if IdLt(y, x) then 1 else 0
  }

  /** The number of the id that a string stands for. */
  function IdNumber(s: Bytes): nat {
    Place(Parse(s))
  }

  /** The sign of the comparison. */
  lemma {:induction false} CompareMeans(a: Bytes, b: Bytes)
    ensures CompareIds(a, b) < 0 <==> IdNumber(a) < IdNumber(b)
    ensures CompareIds(a, b) > 0 <==> IdNumber(a) > IdNumber(b)
  {
    hide Parse;
    IdOrder(Parse(a), Parse(b));
    IdOrder(Parse(b), Parse(a));
  }

  /** An id is two numbers with a dash between them (without one it is 0-0, by NoDash). */
  lemma {:induction false} ParseReads(ms: Bytes, seqNo: Bytes)
    requires ms != [] && (forall i :: 0 <= i < |ms| ==> IsDigit(ms[i]))
    requires seqNo != [] && (forall i :: 0 <= i < |seqNo| ==> IsDigit(seqNo[i]))
    ensures Parse(ms + "-" + seqNo) == Id(Clamped(Number(ms)), Clamped(Number(seqNo)))
  {
    var rest := "-" + seqNo;
    DashAfter(ms, rest);
    ReadsDigits(ms, rest);
    ReadsDigits(seqNo, []);
    hide ToNumber, Number, Dash, IsDigit, Clamped;
    assert ms + "-" + seqNo == ms + rest && (ms + rest)[|ms|+1..] == seqNo && seqNo + [] == seqNo;
  }

  lemma {:induction false} DashAfter(d: Bytes, rest: Bytes)
    requires (forall i :: 0 <= i < |d| ==> IsDigit(d[i])) && rest != [] && rest[0] == '-'
    ensures Dash(d + rest) == |d|
  {
    if d == [] {
      assert d + rest == rest;
    } else {
      assert (d + rest)[1..] == d[1..] + rest;
      DashAfter(d[1..], rest);
    }
  }

  /** A generated id reads back as the pair it was made of. */
  lemma {:induction false} FormatParses(id: Id)
    ensures Parse(Format(id)) == id && Format(id) != "*"
  {
    var d, rest := ToString(id.ms), "-" + ToString(id.seqNo);
    assert Format(id) == d + rest;
    ToStringDigits(id.ms);
    DashAfter(d, rest);
    RoundTrip(id.ms, rest);
    assert (d + rest)[|d|+1..] == ToString(id.seqNo) + [];
    RoundTrip(id.seqNo, []);
    assert Format(id)[|d|] == '-' && |Format(id)| > 1;
  }

  // ---------- what an operation does to the state ----------

  /** The next generated id: never before the last one's clock. */
  function NextId(last: Id, now: u64): Id {
    if now <= last.ms then Id(last.ms, (last.seqNo + 1) % U64_LIMIT) else Id(now, 0)
  }

  function Add(s: Stream, id: Bytes, fields: seq<(Bytes, Bytes)>, now: u64): (Stream, Bytes) {
    if id == "*" then
      var next := NextId(s.last, now);
      (Stream(s.entries + [Entry(Format(next), fields)], next), Format(next))
    else if s.entries != [] && IdNumber(id) <= IdNumber(s.entries[|s.entries|-1].id) then
      (s, "")
    else
      (Stream(s.entries + [Entry(id, fields)], if Dash(id) < |id| then Parse(id) else s.last), id)
  }

  function Delete(s: seq<Entry>, id: Bytes): seq<Entry> {
    if s == [] then [] else if s[0].id == id then s[1..] else [s[0]] + Delete(s[1..], id)
  }

  function Trim(s: seq<Entry>, maxlen: int): seq<Entry> {
    if |s| <= maxlen then s else if maxlen <= 0 then [] else s[|s|-maxlen..]
  }

  // ---------- the run invariant ----------

  ghost predicate Increasing(s: seq<Entry>) {
    forall i, j :: 0 <= i < j < |s| ==> IdLt(Parse(s[i].id), Parse(s[j].id))
  }

  /** Ids increase, the last id given is not before the last entry's, and no entry is called "*". */
  ghost predicate Inv(s: Stream) {
    && Increasing(s.entries)
    && (s.entries != [] ==> !IdLt(s.last, Parse(s.entries[|s.entries|-1].id)))
    && NoStar(s.entries)
  }

  /** The sequence number is used up, and the last entry was made in the same millisecond. */
  predicate Exhausted(s: Stream, id: Bytes, now: u64) {
    && id == "*" && now <= s.last.ms && s.last.seqNo == LAST_SEQ
    && s.entries != [] && Parse(s.entries[|s.entries|-1].id).ms == s.last.ms
  }

  lemma {:induction false} IncreasingAppend(s: seq<Entry>, e: Entry)
    requires Increasing(s)
    ensures Increasing(s + [e]) <==> s == [] || IdLt(Parse(s[|s|-1].id), Parse(e.id))
  {
    hide Parse;
    var t, n := s + [e], |s|;
    assert t[..n] == s && t[n] == e;
    if n > 0 {
      assert t[n-1] == s[n-1];
      if IdLt(Parse(s[n-1].id), Parse(e.id)) {
        forall i, j | 0 <= i < j < |t| ensures IdLt(Parse(t[i].id), Parse(t[j].id)) {
          assert t[i] == s[i];
          if j == n { assert i == n - 1 || IdLt(Parse(s[i].id), Parse(s[n-1].id)); } else { assert t[j] == s[j]; }
        }
      }
    }
  }

  /** A generated id is after the last one unless the sequence number is used up. */
  lemma {:induction false} NextIdLater(last: Id, now: u64, y: Id)
    requires !IdLt(last, y)
    ensures IdLt(y, NextId(last, now)) <==> !(now <= last.ms && last.seqNo == LAST_SEQ && y.ms == last.ms)
  {
  }

  /** The next id is the first one after the last id and not before the clock, unless the sequence number wraps. */
  lemma {:induction false} NextIs(last: Id, now: u64)
    ensures var wraps := now <= last.ms && last.seqNo == LAST_SEQ;
      && (wraps ==> NextId(last, now) == Id(last.ms, 0))
      && (!wraps ==> Place(NextId(last, now)) == if Place(last) + 1 >= now * U64_LIMIT then Place(last) + 1
          else now * U64_LIMIT)
  {
  }

  /** What XAdd returns and what becomes of the last id; an id "" is not told from a refusal. */
  lemma {:induction false} AddReturns(s: Stream, id: Bytes, fields: seq<(Bytes, Bytes)>, now: u64)
    ensures var (t, x) := Add(s, id, fields, now); var n := |s.entries|;
      var refused := id != "*" && n > 0 && IdNumber(id) <= IdNumber(s.entries[n-1].id);
      && (refused ==> t == s && x == "")
      && (!refused ==>
          && t.entries == s.entries + [Entry(x, fields)] && (id != "" ==> x != "")
          && (if id == "*" then Parse(x) == t.last == NextId(s.last, now) else x == id)
          && (id != "*" ==> t.last == if '-' in id then Parse(id) else s.last))
      && NewId(s, XAdd(id, fields, now)) == if refused then None else Some(Parse(x))
  {
    hide Parse, Format, NextId, IdNumber;
    FormatParses(NextId(s.last, now));
    FormatHasDash(NextId(s.last, now));
  }

  /** XAdd keeps the invariant exactly if the sequence number does not run out. */
  lemma {:induction false} AddKeeps(s: Stream, id: Bytes, fields: seq<(Bytes, Bytes)>, now: u64)
    requires Inv(s)
    ensures Inv(Add(s, id, fields, now).0) <==> !Exhausted(s, id, now)
  {
    hide Parse, Increasing, Format, NextId, LAST_SEQ;
    var next := NextId(s.last, now);
    FormatParses(next);
    IncreasingAppend(s.entries, Entry(Format(next), fields));
    if s.entries != [] { NextIdLater(s.last, now, Parse(s.entries[|s.entries|-1].id)); }
    IncreasingAppend(s.entries, Entry(id, fields));
    if Dash(id) == |id| { NoDash(id); }
  }

  lemma {:induction false} NoDash(id: Bytes)
    requires Dash(id) == |id|
    ensures Parse(id) == Id(0, 0)
  {
    hide ToNumber, Dash;
  }

  lemma {:induction false} DeleteIn(s: seq<Entry>, id: Bytes)
    ensures forall e :: e in Delete(s, id) ==> e in s
  {
    if s != [] && s[0].id != id {
      DeleteIn(s[1..], id);
    }
  }

  lemma {:induction false} DeleteSize(s: seq<Entry>, id: Bytes)
    ensures |Delete(s, id)| == |s| - if exists e :: e in s && e.id == id then 1 else 0
  {
    if s != [] && s[0].id != id {
      DeleteSize(s[1..], id);
      assert forall e :: e in s <==> e == s[0] || e in s[1..];
    }
  }

  lemma {:induction false} IncreasingTail(s: seq<Entry>)
    requires Increasing(s) && s != []
    ensures Increasing(s[1..])
    ensures forall e :: e in s[1..] ==> IdLt(Parse(s[0].id), Parse(e.id)) && e.id != s[0].id
  {
    hide Parse;
    assert forall i :: 0 <= i < |s| - 1 ==> s[1..][i] == s[i+1];
  }

  lemma {:induction false} IncreasingHead(e: Entry, s: seq<Entry>)
    requires Increasing(s) && forall x :: x in s ==> IdLt(Parse(e.id), Parse(x.id))
    ensures Increasing([e] + s)
  {
    hide Parse;
  }

  /** Deleting keeps the order, and takes out exactly the entry of that id. */
  lemma {:induction false} DeleteKeeps(s: seq<Entry>, id: Bytes)
    requires Increasing(s)
    ensures Increasing(Delete(s, id)) && forall e :: e in Delete(s, id) <==> e in s && e.id != id
  {
    hide Parse, Increasing;
    if s != [] {
      IncreasingTail(s);
      assert forall e :: e in s <==> e == s[0] || e in s[1..];
      if s[0].id != id {
        DeleteKeeps(s[1..], id);
        IncreasingHead(s[0], Delete(s[1..], id));
      }
    }
  }

  lemma {:induction false} DeleteInv(s: Stream, id: Bytes)
    requires Inv(s)
    ensures Inv(Stream(Delete(s.entries, id), s.last))
  {
    DeleteKeeps(s.entries, id);
    LastIn(s, Delete(s.entries, id));
  }

  /** No entry is after the last id given. */
  lemma {:induction false} LastIn(s: Stream, d: seq<Entry>)
    requires Inv(s) && forall e :: e in d ==> e in s.entries
    ensures d != [] ==> !IdLt(s.last, Parse(d[|d|-1].id))
  {
    hide Parse;
    if d != [] {
      assert d[|d|-1] in s.entries;
    }
  }

  lemma {:induction false} IncreasingSuffix(s: seq<Entry>, k: nat)
    requires Increasing(s) && k <= |s|
    ensures Increasing(s[k..])
  {
    hide Parse;
  }

  lemma {:induction false} TrimInv(s: Stream, maxlen: int)
    requires Inv(s)
    ensures Inv(Stream(Trim(s.entries, maxlen), s.last))
  {
    hide Parse, Increasing;
    var d := Trim(s.entries, maxlen);
    IncreasingSuffix(s.entries, |s.entries| - |d|);
    assert d == s.entries[|s.entries|-|d|..];
    LastIn(s, d);
  }

  // ---------- runs ----------

  datatype Event =
    | XAdd(id: Bytes, fields: seq<(Bytes, Bytes)>, now: u64)
    | XDel(gone: Bytes)
    | XTrim(maxlen: int)

  function Step(s: Stream, e: Event): Stream {
    match e
    case XAdd(id, fields, now) => Add(s, id, fields, now).0
    case XDel(id) => Stream(Delete(s.entries, id), s.last)
    case XTrim(maxlen) => Stream(Trim(s.entries, maxlen), s.last)
  }

  function Run(s: Stream, es: seq<Event>): Stream
    decreases |es|
  {
    if es == [] then s else Run(Step(s, es[0]), es[1..])
  }

  /** No XAdd of the run finds the sequence number exhausted. */
  predicate NeverExhausted(s: Stream, es: seq<Event>)
    decreases |es|
  {
    es == [] || ((es[0].XAdd? ==> !Exhausted(s, es[0].id, es[0].now)) && NeverExhausted(Step(s, es[0]), es[1..]))
  }

  /** The invariant holds after every prefix of the run. */
  ghost predicate AlwaysInv(s: Stream, es: seq<Event>) {
    forall n :: 0 <= n <= |es| ==> Inv(Run(s, es[..n]))
  }

  lemma {:induction false} AlwaysFirst(s: Stream, es: seq<Event>)
    requires es != []
    ensures AlwaysInv(s, es) <==> Inv(s) && AlwaysInv(Step(s, es[0]), es[1..])
  {
    hide Inv, Step;
    var t := es[1..];
    assert es[..0] == [];
    assert forall n :: 0 <= n < |es| ==> es[..n+1] == [es[0]] + t[..n];
    forall n | 0 <= n < |es| ensures Run(s, es[..n+1]) == Run(Step(s, es[0]), t[..n]) {
      assert ([es[0]] + t[..n])[1..] == t[..n];
    }
    if Inv(s) && AlwaysInv(Step(s, es[0]), t) {
      forall n | 0 <= n <= |es| ensures Inv(Run(s, es[..n])) {
        if n > 0 { assert Inv(Run(Step(s, es[0]), t[..n-1])); }
      }
    }
    if AlwaysInv(s, es) {
      assert Inv(Run(s, es[..0]));
      forall n | 0 <= n <= |t| ensures Inv(Run(Step(s, es[0]), t[..n])) {
        assert Inv(Run(s, es[..n+1]));
      }
    }
  }

  /** Whatever the clock reads, a run keeps the invariant throughout iff no millisecond runs out of numbers. */
  lemma {:induction false} RunKeeps(s: Stream, es: seq<Event>)
    requires Inv(s)
    ensures AlwaysInv(s, es) <==> NeverExhausted(s, es)
    decreases |es|
  {
    hide Inv, Exhausted, AlwaysInv;
    if es == [] {
      NoEvents(s);
    } else {
      var t := Step(s, es[0]);
      AlwaysFirst(s, es);
      match es[0] {
        case XAdd(id, fields, now) => AddKeeps(s, id, fields, now);
        case XDel(id) => DeleteInv(s, id);
        case XTrim(maxlen) => TrimInv(s, maxlen);
      }
      if Inv(t) {
        RunKeeps(t, es[1..]);
      } else {
        NotAlways(t, es[1..]);
      }
    }
  }

  lemma {:induction false} NoEvents(s: Stream)
    ensures AlwaysInv(s, []) <==> Inv(s)
  {
    hide Inv;
    var none: seq<Event> := [];
    assert none[..0] == none;
  }

  lemma {:induction false} NotAlways(s: Stream, es: seq<Event>)
    requires !Inv(s)
    ensures !AlwaysInv(s, es)
  {
    hide Inv;
    assert es[..0] == [];
    assert Run(s, es[..0]) == s;
  }

  /** A run that breaks the order: the largest sequence number by hand, then a generated id. */
  lemma {:induction false} ExhaustedRun(fields: seq<(Bytes, Bytes)>)
    ensures var es := [XAdd(Format(Id(5, LAST_SEQ)), fields, 0), XAdd("*", fields, 5)]; !Inv(Run(EMPTY, es))
  {
    ExhaustedState(fields);
    hide Parse, Format, Run;
    var s := Run(EMPTY, [XAdd(Format(Id(5, LAST_SEQ)), fields, 0), XAdd("*", fields, 5)]).entries;
    assert !IdLt(Parse(s[0].id), Parse(s[1].id));
  }

  /** The state that it leads to. */
  lemma {:induction false} ExhaustedState(fields: seq<(Bytes, Bytes)>)
    ensures var x, y := Format(Id(5, LAST_SEQ)), Format(Id(5, 0));
      && Run(EMPTY, [XAdd(x, fields, 0), XAdd("*", fields, 5)])
        == Stream([Entry(x, fields), Entry(y, fields)], Id(5, 0))
      && Parse(x) == Id(5, LAST_SEQ) && Parse(y) == Id(5, 0) && x != y
  {
    hide *;
    NothingYet();
    NextWraps();
    var x := Format(Id(5, LAST_SEQ));
    var a, b := XAdd(x, fields, 0), XAdd("*", fields, 5);
    var s := Stream([Entry(x, fields)], Id(5, LAST_SEQ));
    FormatParses(Id(5, LAST_SEQ));
    FormatParses(Id(5, 0));
    AddToEmpty(EMPTY, Id(5, LAST_SEQ), fields, 0);
    AddGenerated(s, fields, 5);
    RunTwo(EMPTY, a, b);
  }

  lemma {:induction false} NextWraps()
    ensures NextId(Id(5, LAST_SEQ), 5) == Id(5, 0) && LAST_SEQ > 0
  {
  }

  lemma {:induction false} RunTwo(s: Stream, a: Event, b: Event)
    ensures Run(s, [a, b]) == Step(Step(s, a), b)
  {
    RunOne(Step(s, a), b);
    assert [a, b][1..] == [b];
  }

  /** There XRange misses an entry that is the only one of its range. */
  lemma {:induction false} MissedEntry(fields: seq<(Bytes, Bytes)>)
    ensures var x, y := Format(Id(5, LAST_SEQ)), Format(Id(5, 0));
      var s := Run(EMPTY, [XAdd(x, fields, 0), XAdd("*", fields, 5)]).entries;
      Scan(s, y, y) == [] && Between(s, y, y) == [Entry(y, fields)]
  {
    ExhaustedState(fields);
    hide Parse, Format, Run;
    var x, y := Format(Id(5, LAST_SEQ)), Format(Id(5, 0));
    var s := [Entry(x, fields), Entry(y, fields)];
    assert s[1..] == [Entry(y, fields)] && s[1..][1..] == [];
    assert Between(s[1..], y, y) == [Entry(y, fields)];
  }

  /** The order of the ids can outlive the invariant: here every range is returned in full. */
  lemma {:induction false} OrderedAgain(fields: seq<(Bytes, Bytes)>)
    ensures var x, y := Format(Id(5, LAST_SEQ)), Format(Id(5, 0));
      var s := Step(Run(EMPTY, [XAdd(x, fields, 0), XAdd("*", fields, 5)]), XDel(y));
      !Inv(s) && Ascending(s.entries) && |s.entries| == 1
  {
    ExhaustedState(fields);
    hide Parse, Format, Run;
    var x, y := Format(Id(5, LAST_SEQ)), Format(Id(5, 0));
    var e := Entry(y, fields);
    assert [Entry(x, fields), e][1..] == [e] && [e][1..] == [];
    assert Delete([e], y) == [];
  }

  lemma {:induction false} RunOne(s: Stream, e: Event)
    ensures Run(s, [e]) == Step(s, e)
  {
    assert [e][1..] == [];
  }

  lemma {:induction false} FormatHasDash(id: Id)
    ensures Dash(Format(id)) < |Format(id)|
  {
    var d, rest := ToString(id.ms), "-" + ToString(id.seqNo);
    assert Format(id) == d + rest;
    ToStringDigits(id.ms);
    DashAfter(d, rest);
  }

  // ---------- all the ids a stream has given ----------

  /** The id that an event gives to a new entry, if it adds one. */
  function NewId(s: Stream, e: Event): Option<Id> {
    if !e.XAdd? then None
    else if e.id == "*" then Some(NextId(s.last, e.now))
    else if s.entries != [] && IdNumber(e.id) <= IdNumber(s.entries[|s.entries|-1].id) then None
    else Some(Parse(e.id))
  }

  /** The ids given in a run, those of entries deleted since included. */
  function Given(s: Stream, es: seq<Event>): seq<Id>
    decreases |es|
  {
    if es == [] then []
    else (match NewId(s, es[0]) case None => [] case Some(x) => [x]) + Given(Step(s, es[0]), es[1..])
  }

  ghost predicate Rising(ids: seq<Id>) {
    forall i, j :: 0 <= i < j < |ids| ==> IdLt(ids[i], ids[j])
  }

  /** A new id is generated without a wrap, or it is explicit and after the last id. */
  predicate Later(s: Stream, e: Event)
    requires e.XAdd?
  {
    if e.id == "*" then !(e.now <= s.last.ms && s.last.seqNo == LAST_SEQ) else IdLt(s.last, Parse(e.id))
  }

  /** So is every new id of the run, the very first excepted. */
  predicate AlwaysLater(s: Stream, started: bool, es: seq<Event>)
    decreases |es|
  {
    es == []
    || ((NewId(s, es[0]).Some? && (started || es[0].id == "*") ==> Later(s, es[0]))
        && AlwaysLater(Step(s, es[0]), started || NewId(s, es[0]).Some?, es[1..]))
  }

  lemma {:induction false} RisingAppend(ids: seq<Id>, x: Id)
    requires Rising(ids)
    ensures Rising(ids + [x]) <==> ids == [] || IdLt(ids[|ids|-1], x)
  {
    var t, n := ids + [x], |ids|;
    if n > 0 {
      assert t[n-1] == ids[n-1] && t[n] == x;
    }
  }

  lemma {:induction false} RisingPrefix(a: seq<Id>, b: seq<Id>)
    requires Rising(a + b)
    ensures Rising(a)
  {
    assert forall i :: 0 <= i < |a| ==> (a + b)[i] == a[i];
  }

  /** The last id is that of the newest entry ever added. */
  ghost predicate Current(s: Stream, given: seq<Id>) {
    s.last == if given == [] then Id(0, 0) else given[|given|-1]
  }

  /** What one event does to the ids given. */
  lemma {:induction false} GivenStep(s: Stream, given: seq<Id>, e: Event)
    requires Current(s, given) && Rising(given)
    ensures NewId(s, e).None? ==> Step(s, e).last == s.last
    ensures NewId(s, e).Some? ==>
      var x := NewId(s, e).value;
      && (Rising(given + [x]) <==> ((given != [] || e.id == "*") ==> Later(s, e)))
      && (Rising(given + [x]) ==> Current(Step(s, e), given + [x]))
  {
    hide Parse, Rising, Format, NextId;
    if NewId(s, e).Some? {
      RisingAppend(given, NewId(s, e).value);
      NextIdLater(s.last, e.now, s.last);
      if Dash(e.id) == |e.id| { NoDash(e.id); }
    }
  }

  /** The ids given are increasing iff every new one is generated without a wrap, or explicit and after the last. */
  lemma {:induction false} GivenRising(s: Stream, given: seq<Id>, es: seq<Event>)
    requires Current(s, given) && Rising(given)
    ensures Rising(given + Given(s, es)) <==> AlwaysLater(s, given != [], es)
    decreases |es|
  {
    hide Rising, Current, Later, NewId, Step;
    if es == [] {
      assert given + [] == given;
    } else {
      var e, t := es[0], Step(s, es[0]);
      GivenStep(s, given, e);
      match NewId(s, e) {
        case None =>
          SameLast(s, t, given);
          GivenRising(t, given, es[1..]);
          assert given + ([] + Given(t, es[1..])) == given + Given(t, es[1..]);
        case Some(x) =>
          assert given + ([x] + Given(t, es[1..])) == given + [x] + Given(t, es[1..]);
          if Rising(given + [x]) {
            GivenRising(t, given + [x], es[1..]);
          } else if Rising(given + [x] + Given(t, es[1..])) {
            RisingPrefix(given + [x], Given(t, es[1..]));
          }
      }
    }
  }

  lemma {:induction false} SameLast(s: Stream, t: Stream, given: seq<Id>)
    requires Current(s, given) && t.last == s.last
    ensures Current(t, given)
  {
  }

  /** For a stream from its creation on. */
  lemma {:induction false} RunGives(es: seq<Event>)
    ensures Rising(Given(EMPTY, es)) <==> AlwaysLater(EMPTY, false, es)
  {
    GivenRising(EMPTY, [], es);
    assert [] + Given(EMPTY, es) == Given(EMPTY, es);
  }

  /** A run that keeps the invariant and gives an id twice: an explicit id may go back once the stream is empty. */
  lemma {:induction false} LoweredRun(fields: seq<(Bytes, Bytes)>)
    ensures var a, b := XAdd("*", fields, 7), XAdd(Format(Id(6, 0)), fields, 7);
      var es := [a, XDel(Format(Id(7, 0))), b, a];
      NeverExhausted(EMPTY, es) && AlwaysInv(EMPTY, es) && Given(EMPTY, es) == [Id(7, 0), Id(6, 0), Id(7, 0)]
  {
    hide *;
    NothingYet();
    var x, y := Format(Id(7, 0)), Format(Id(6, 0));
    var a, d, b := XAdd("*", fields, 7), XDel(x), XAdd(y, fields, 7);
    var s2, s3 := Stream([], Id(7, 0)), Stream([Entry(y, fields)], Id(6, 0));
    AddGenerated(EMPTY, fields, 7);
    assert [] + [Entry(x, fields)] == [Entry(x, fields)];
    DeleteOnly(Entry(x, fields), Id(7, 0));
    AddToEmpty(s2, Id(6, 0), fields, 7);
    AddGenerated(s3, fields, 7);
    GivenNext(s3, a, []);
    GivenNext(s2, b, [a]);
    GivenNext(Step(EMPTY, a), d, [b, a]);
    GivenNext(EMPTY, a, [d, b, a]);
    assert [a] + [d, b, a] == [a, d, b, a];
    assert [d] + [b, a] == [d, b, a];
    assert [b] + [a] == [b, a];
    assert [a] + [] == [a];
    RunKeeps(EMPTY, [a, d, b, a]);
    var p, q := [Id(7, 0)], [Id(6, 0)];
    assert p + ([] + (q + (p + []))) == [Id(7, 0), Id(6, 0), Id(7, 0)];
  }

  lemma {:induction false} NothingYet()
    ensures U64_LIMIT > 7 && EMPTY == Stream([], Id(0, 0)) && Inv(EMPTY)
  {
  }

  lemma {:induction false} DeleteOnly(e: Entry, last: Id)
    ensures var s, d := Stream([e], last), XDel(e.id); Step(s, d) == Stream([], last) && NewId(s, d) == None
  {
  }

  lemma {:induction false} AddGenerated(s: Stream, fields: seq<(Bytes, Bytes)>, now: u64)
    ensures var x, e := NextId(s.last, now), XAdd("*", fields, now);
      && NewId(s, e) == Some(x) && Step(s, e) == Stream(s.entries + [Entry(Format(x), fields)], x)
      && (s.last.ms < now ==> x == Id(now, 0) && !Exhausted(s, "*", now))
  {
    hide Format, Parse;
  }

  lemma {:induction false} AddToEmpty(s: Stream, x: Id, fields: seq<(Bytes, Bytes)>, now: u64)
    requires s.entries == []
    ensures var e := XAdd(Format(x), fields, now);
      && NewId(s, e) == Some(x) && Step(s, e) == Stream([Entry(Format(x), fields)], x)
      && !Exhausted(s, e.id, now)
  {
    FormatParses(x);
    FormatHasDash(x);
    hide Format, Parse, Dash;
    assert [] + [Entry(Format(x), fields)] == [Entry(Format(x), fields)];
  }

  lemma {:induction false} GivenNext(s: Stream, e: Event, es: seq<Event>)
    ensures var all, t := [e] + es, Step(s, e);
      && Given(s, all) == (match NewId(s, e) case None => [] case Some(x) => [x]) + Given(t, es)
      && (NeverExhausted(s, all) <==> (e.XAdd? ==> !Exhausted(s, e.id, e.now)) && NeverExhausted(t, es))
      && Given(t, []) == [] && NeverExhausted(t, [])
  {
    hide Step, NewId, Exhausted;
    assert ([e] + es)[1..] == es;
  }

  // ---------- reloading ----------

  /** Loading stored entries: an XAdd of each. */
  function Reload(s: Stream, entries: seq<Entry>, now: u64): Stream
    decreases |entries|
  {
    if entries == [] then s else Reload(Add(s, entries[0].id, entries[0].fields, now).0, entries[1..], now)
  }

  lemma {:induction false} ReloadSize(s: Stream, entries: seq<Entry>, now: u64)
    ensures |Reload(s, entries, now).entries| <= |s.entries| + |entries|
    decreases |entries|
  {
    if entries != [] {
      ReloadSize(Add(s, entries[0].id, entries[0].fields, now).0, entries[1..], now);
    }
  }

  ghost predicate NoStar(entries: seq<Entry>) {
    forall e :: e in entries ==> e.id != "*"
  }

  lemma {:induction false} AddExplicit(s: Stream, e: Entry, now: u64)
    requires Increasing(s.entries) && e.id != "*"
    ensures var t := Add(s, e.id, e.fields, now).0;
      if Increasing(s.entries + [e]) then t.entries == s.entries + [e] else t == s
  {
    hide Parse, Increasing;
    IncreasingAppend(s.entries, e);
  }

  /** Replaying entries through XAdd keeps them all iff their ids increase. */
  lemma {:induction false} ReloadAppends(s: Stream, entries: seq<Entry>, now: u64)
    requires Increasing(s.entries) && NoStar(entries)
    ensures Reload(s, entries, now).entries == s.entries + entries <==> Increasing(s.entries + entries)
    decreases |entries|
  {
    hide Parse, Add, Increasing;
    if entries == [] {
      assert s.entries + [] == s.entries;
    } else {
      var e, rest := entries[0], entries[1..];
      var t := Add(s, e.id, e.fields, now).0;
      AddExplicit(s, e, now);
      assert s.entries + entries == s.entries + [e] + rest;
      if Increasing(s.entries + [e]) {
        ReloadAppends(t, rest, now);
      } else {
        ReloadSize(s, rest, now);
        IncreasingPrefix(s.entries + [e], rest);
      }
    }
  }

  lemma {:induction false} IncreasingPrefix(a: seq<Entry>, b: seq<Entry>)
    ensures Increasing(a + b) ==> Increasing(a)
  {
    hide Parse;
    assert forall i :: 0 <= i < |a| ==> (a + b)[i] == a[i];
  }

  lemma {:induction false} StepNoStar(s: Stream, e: Event)
    requires NoStar(s.entries)
    ensures NoStar(Step(s, e).entries)
  {
    hide Parse, Format, IdNumber;
    match e {
      case XAdd(id, fields, now) => FormatParses(NextId(s.last, now));
      case XDel(id) => DeleteIn(s.entries, id);
      case XTrim(maxlen) =>
    }
  }

  lemma {:induction false} RunNoStar(s: Stream, es: seq<Event>)
    requires NoStar(s.entries)
    ensures NoStar(Run(s, es).entries)
    decreases |es|
  {
    hide Step;
    if es != [] {
      StepNoStar(s, es[0]);
      RunNoStar(Step(s, es[0]), es[1..]);
    }
  }

  /** Reloading a reachable stream reproduces its entries iff their ids increase. */
  lemma {:induction false} ReloadSame(es: seq<Event>, now: u64)
    ensures var s := Run(EMPTY, es);
      NoStar(s.entries) && (Reload(EMPTY, s.entries, now).entries == s.entries <==> Increasing(s.entries))
  {
    var s := Run(EMPTY, es);
    RunNoStar(EMPTY, es);
    assert EMPTY.entries + s.entries == s.entries;
    ReloadAppends(EMPTY, s.entries, now);
  }

  /** What a reload makes of the last id: the newest entry's, whatever was deleted since. */
  lemma {:induction false} ReloadLast(s: Stream, entries: seq<Entry>, now: u64)
    requires Increasing(s.entries + entries) && NoStar(entries)
    requires s.entries == [] ==> s.last == Id(0, 0)
    ensures Reload(s, entries, now).last == if entries == [] then s.last else Parse(entries[|entries|-1].id)
    decreases |entries|
  {
    if entries != [] {
      hide Parse, Add, Increasing;
      var e, rest := entries[0], entries[1..];
      var t := Add(s, e.id, e.fields, now).0;
      assert s.entries + entries == s.entries + [e] + rest;
      IncreasingPrefix(s.entries + [e], rest);
      IncreasingPrefix(s.entries, [e]);
      AddLast(s, e, now);
      ReloadLast(t, rest, now);
    }
  }

  lemma {:induction false} AddLast(s: Stream, e: Entry, now: u64)
    requires Increasing(s.entries) && Increasing(s.entries + [e]) && e.id != "*"
    requires s.entries == [] ==> s.last == Id(0, 0)
    ensures var t := Add(s, e.id, e.fields, now).0; t.entries == s.entries + [e] && t.last == Parse(e.id)
  {
    hide Parse, Increasing;
    IncreasingAppend(s.entries, e);
    if s.entries != [] { IdOrder(Parse(s.entries[|s.entries|-1].id), Parse(e.id)); }
    if Dash(e.id) == |e.id| { NoDash(e.id); }
  }

  /** A reload restores the whole stream iff its ids increase and its last id is still that of its newest entry. */
  lemma {:induction false} ReloadExact(s: Stream, now: u64)
    requires NoStar(s.entries)
    ensures Reload(EMPTY, s.entries, now) == s <==>
      Increasing(s.entries) && s.last == if s.entries == [] then Id(0, 0) else Parse(s.entries[|s.entries|-1].id)
  {
    assert EMPTY.entries + s.entries == s.entries;
    ReloadAppends(EMPTY, s.entries, now);
    if Increasing(s.entries) { ReloadLast(EMPTY, s.entries, now); }
  }

  /** After the newest entry was deleted, a reloaded stream can give its id a second time. */
  lemma {:induction false} ReusedId(fields: seq<(Bytes, Bytes)>)
    ensures var s := Run(EMPTY, [XAdd("*", fields, 7)]);
      && s.entries == [Entry(Format(Id(7, 0)), fields)]
      && var t := Run(s, [XDel(Format(Id(7, 0)))]);
      && Add(t, "*", fields, 7).1 == Format(Id(7, 1))
      && Add(Reload(EMPTY, t.entries, 7), "*", fields, 7).1 == Format(Id(7, 0))
  {
    hide Format;
    var add, del := XAdd("*", fields, 7), XDel(Format(Id(7, 0)));
    RunOne(EMPTY, add);
    var s := Run(EMPTY, [add]);
    assert s == Stream([Entry(Format(Id(7, 0)), fields)], Id(7, 0)) by {
      assert [] + [Entry(Format(Id(7, 0)), fields)] == [Entry(Format(Id(7, 0)), fields)];
    }
    RunOne(s, del);
    assert Run(s, [del]) == Stream([], Id(7, 0));
  }

  // ---------- reading ----------

  predicate InRange(e: Entry, start: Bytes, end: Bytes) {
    IdNumber(start) <= IdNumber(e.id) <= IdNumber(end)
  }

  /** The entries whose ids lie from start to end. */
  function Between(s: seq<Entry>, start: Bytes, end: Bytes): seq<Entry> {
    if s == [] then []
    else (if InRange(s[0], start, end) then [s[0]] else []) + Between(s[1..], start, end)
  }

  /** The entries after start. */
  function After(s: seq<Entry>, start: Bytes): seq<Entry> {
    if s == [] then [] else (if IdNumber(s[0].id) > IdNumber(start) then [s[0]] else []) + After(s[1..], start)
  }

  /** The first count of s; a count of zero or less means all. */
  function Limit(s: seq<Entry>, count: int): seq<Entry> {
    if 0 < count < |s| then s[..count] else s
  }

  lemma {:induction false} AfterConcat(a: seq<Entry>, b: seq<Entry>, start: Bytes)
    ensures After(a + b, start) == After(a, start) + After(b, start)
  {
    hide IdNumber;
    if a == [] {
      assert a + b == b;
    } else {
      assert (a + b)[1..] == a[1..] + b;
      AfterConcat(a[1..], b, start);
    }
  }

  lemma {:induction false} LimitIs(s: seq<Entry>, count: int)
    ensures Limit(s, count) <= s && |Limit(s, count)| == if 0 < count < |s| then count else |s|
  {
  }

  // ---------- what XRange returns ----------

  /** Here the loop of XRange stops. */
  predicate Past(e: Entry, start: Bytes, end: Bytes) {
    IdNumber(e.id) >= IdNumber(start) && IdNumber(e.id) > IdNumber(end)
  }

  /** What the loop collects, the count aside. */
  function Scan(s: seq<Entry>, start: Bytes, end: Bytes): seq<Entry> {
    if s == [] || Past(s[0], start, end) then []
    else (if InRange(s[0], start, end) then [s[0]] else []) + Scan(s[1..], start, end)
  }

  /** No entry of the range stands behind one past its end. */
  ghost predicate NoneBehind(s: seq<Entry>, start: Bytes, end: Bytes) {
    forall i, j :: 0 <= i < j < |s| && Past(s[i], start, end) ==> !InRange(s[j], start, end)
  }

  /** The ids do not go down. */
  ghost predicate Ascending(s: seq<Entry>) {
    forall i, j :: 0 <= i < j < |s| ==> IdNumber(s[i].id) <= IdNumber(s[j].id)
  }

  lemma {:induction false} BetweenNone(s: seq<Entry>, start: Bytes, end: Bytes)
    ensures Between(s, start, end) == [] <==> forall i :: 0 <= i < |s| ==> !InRange(s[i], start, end)
  {
    hide IdNumber;
    if s != [] {
      BetweenNone(s[1..], start, end);
      assert forall i :: 0 < i < |s| ==> s[i] == s[1..][i-1];
    }
  }

  lemma {:induction false} NoneBehindFirst(s: seq<Entry>, start: Bytes, end: Bytes)
    requires s != []
    ensures NoneBehind(s, start, end) <==>
      && NoneBehind(s[1..], start, end)
      && (Past(s[0], start, end) ==> forall j :: 0 <= j < |s[1..]| ==> !InRange(s[1..][j], start, end))
  {
    hide Past, InRange;
    var t := s[1..];
    assert forall i :: 0 <= i < |t| ==> t[i] == s[i+1];
    if NoneBehind(s, start, end) {
      assert forall i, j :: 0 <= i < j < |t| ==> t[i] == s[i+1] && t[j] == s[j+1];
    }
    if NoneBehind(t, start, end) {
      assert forall i :: 0 < i < |s| ==> s[i] == t[i-1];
    }
  }

  /** The loop never returns too much; it misses nothing iff no entry of the range is behind one past its end. */
  lemma {:induction false} ScanExact(s: seq<Entry>, start: Bytes, end: Bytes)
    ensures Scan(s, start, end) <= Between(s, start, end)
    ensures Scan(s, start, end) == Between(s, start, end) <==> NoneBehind(s, start, end)
  {
    hide IdNumber;
    if s != [] {
      var t := s[1..];
      ScanExact(t, start, end);
      NoneBehindFirst(s, start, end);
      BetweenNone(t, start, end);
      hide NoneBehind;
      if InRange(s[0], start, end) {
        assert Scan(s, start, end) == [s[0]] + Scan(t, start, end);
        assert Between(s, start, end) == [s[0]] + Between(t, start, end);
        assert Scan(s, start, end)[1..] == Scan(t, start, end) && Between(s, start, end)[1..] == Between(t, start, end);
      } else {
        assert Between(s, start, end) == Between(t, start, end);
      }
    }
  }

  /** at are the places of r in s, which are those of the entries to be kept. */
  ghost predicate Picks(r: seq<Entry>, s: seq<Entry>, at: seq<nat>, keep: Entry -> bool) {
    StandsAt(r, s, at) && forall k: nat :: k in at <==> k < |s| && keep(s[k])
  }

  /** The entries of r stand in s at these places, one after the other. */
  ghost predicate StandsAt(r: seq<Entry>, s: seq<Entry>, at: seq<nat>) {
    && |at| == |r| && (forall i, j :: 0 <= i < j < |at| ==> at[i] < at[j])
    && (forall i :: 0 <= i < |at| ==> at[i] < |s| && r[i] == s[at[i]])
  }

  lemma {:induction false} StandsNext(r: seq<Entry>, s: seq<Entry>, at: seq<nat>, up: seq<nat>)
    requires s != [] && StandsAt(r, s[1..], at) && |up| == |at|
    requires forall i :: 0 <= i < |at| ==> up[i] == at[i] + 1
    ensures StandsAt(r, s, up) && StandsAt([s[0]] + r, s, [0] + up)
  {
    assert forall i :: 0 <= i < |at| ==> s[1..][at[i]] == s[at[i] + 1];
  }

  lemma {:induction false} PicksNext(r: seq<Entry>, s: seq<Entry>, at: seq<nat>, keep: Entry -> bool)
    returns (next: seq<nat>)
    requires s != [] && Picks(r, s[1..], at, keep)
    ensures Picks((if keep(s[0]) then [s[0]] else []) + r, s, next, keep)
  {
    var up := seq(|at|, i requires 0 <= i < |at| => at[i] + 1);
    StandsNext(r, s, at, up);
    hide StandsAt;
    assert [] + r == r;
    next := if keep(s[0]) then [0] + up else up;
    forall k: nat ensures k in next <==> k < |s| && keep(s[k]) {
      ShiftedIn(at, up, k);
      if 0 < k < |s| { assert s[1..][k-1] == s[k]; }
    }
  }

  lemma {:induction false} ShiftedIn(at: seq<nat>, up: seq<nat>, k: nat)
    requires |up| == |at| && forall i :: 0 <= i < |at| ==> up[i] == at[i] + 1
    ensures k in up <==> k > 0 && (k - 1) as nat in at
  {
    if k in up { assert at[IndexOf(up, k)] == k - 1; }
    if k > 0 && k - 1 in at { assert up[IndexOf(at, k - 1)] == k; }
  }

  ghost function IndexOf(at: seq<nat>, k: nat): (i: nat)
    requires k in at
    ensures i < |at| && at[i] == k
  {
    var i :| 0 <= i < |at| && at[i] == k; i
  }

  /** A range is the entries of these ids, in the order of the stream. */
  lemma {:induction false} BetweenPicks(s: seq<Entry>, start: Bytes, end: Bytes) returns (at: seq<nat>)
    ensures Picks(Between(s, start, end), s, at, (e: Entry) => IdNumber(start) <= IdNumber(e.id) <= IdNumber(end))
  {
    hide IdNumber, Picks;
    var keep := (e: Entry) => IdNumber(start) <= IdNumber(e.id) <= IdNumber(end);
    if s == [] {
      at := [];
      PicksNone(keep);
    } else {
      at := BetweenPicks(s[1..], start, end);
      at := PicksNext(Between(s[1..], start, end), s, at, keep);
    }
  }

  /** So are the entries after an id. */
  lemma {:induction false} AfterPicks(s: seq<Entry>, start: Bytes) returns (at: seq<nat>)
    ensures Picks(After(s, start), s, at, (e: Entry) => IdNumber(e.id) > IdNumber(start))
  {
    hide IdNumber, Picks;
    var keep := (e: Entry) => IdNumber(e.id) > IdNumber(start);
    if s == [] {
      at := [];
      PicksNone(keep);
    } else {
      at := AfterPicks(s[1..], start);
      at := PicksNext(After(s[1..], start), s, at, keep);
    }
  }

  lemma {:induction false} PicksNone(keep: Entry -> bool)
    ensures Picks([], [], [], keep)
  {
  }

  lemma {:induction false} PickedIn(r: seq<Entry>, s: seq<Entry>, at: seq<nat>, keep: Entry -> bool)
    requires Picks(r, s, at, keep)
    ensures forall e :: e in r <==> e in s && keep(e)
  {
    forall e | e in s && keep(e) ensures e in r {
      var k :| 0 <= k < |s| && s[k] == e;
      assert r[IndexOf(at, k)] == e;
    }
    forall e | e in r ensures e in s && keep(e) {
      var i :| 0 <= i < |r| && r[i] == e;
      assert at[i] in at;
    }
  }

  /** The loop stops at the first entry past the end. */
  lemma {:induction false} ScanStops(s: seq<Entry>, i: nat, start: Bytes, end: Bytes)
    requires i <= |s| && (i < |s| ==> Past(s[i], start, end)) && forall j :: 0 <= j < i ==> !Past(s[j], start, end)
    ensures Scan(s, start, end) == Between(s[..i], start, end)
  {
    hide IdNumber;
    if i > 0 {
      ScanStops(s[1..], i - 1, start, end);
      assert s[1..][..i-1] == s[..i][1..];
    }
  }

  /** Every range of a stream is returned in full iff its ids do not go down. */
  lemma {:induction false} RangesExact(s: seq<Entry>)
    ensures (forall start, end :: Scan(s, start, end) == Between(s, start, end)) <==> Ascending(s)
  {
    hide Parse, Scan, Between;
    if Ascending(s) {
      forall start, end ensures Scan(s, start, end) == Between(s, start, end) {
        ScanExact(s, start, end);
      }
    } else {
      var i, j :| 0 <= i < j < |s| && IdNumber(s[i].id) > IdNumber(s[j].id);
      var x := s[j].id;
      ScanExact(s, x, x);
      assert Past(s[i], x, x) && InRange(s[j], x, x);
    }
  }

  /** In a stream that keeps its invariant they do not. */
  lemma {:induction false} IncreasingAscends(s: seq<Entry>)
    requires Increasing(s)
    ensures Ascending(s)
  {
    hide Parse;
  }

  lemma {:induction false} ScanStep(s: seq<Entry>, i: nat, start: Bytes, end: Bytes)
    requires i < |s|
    ensures Scan(s[i..], start, end) ==
      if IdNumber(s[i].id) < IdNumber(start) then Scan(s[i+1..], start, end)
      else if IdNumber(s[i].id) > IdNumber(end) then []
      else [s[i]] + Scan(s[i+1..], start, end)
  {
    hide IdNumber;
    assert s[i..][1..] == s[i+1..];
  }

  lemma {:induction false} ScanEnds(s: seq<Entry>, start: Bytes, end: Bytes)
    ensures s[0..] == s && Scan(s[|s|..], start, end) == []
  {
  }

  lemma {:induction false} LimitFound(found: seq<Entry>, rest: seq<Entry>, count: int)
    requires if count > 0 && |found| >= count then |found| == count else rest == []
    ensures Limit(found + rest, count) == found
  {
  }

  /** The same with a count: what is missing may lie behind the first count entries. */
  lemma {:induction false} LimitExact(s: seq<Entry>, start: Bytes, end: Bytes, count: int)
    ensures var r := Limit(Scan(s, start, end), count);
      r == Limit(Between(s, start, end), count) <==> NoneBehind(s, start, end) || 0 < count <= |r|
  {
    ScanExact(s, start, end);
    hide Scan, Between, NoneBehind;
  }

  lemma {:induction false} AfterStep(s: seq<Entry>, i: nat, start: Bytes)
    requires i < |s|
    ensures After(s[..i+1], start) == After(s[..i], start) + if IdNumber(s[i].id) > IdNumber(start) then [s[i]] else []
    ensures After(s[..i+1], start) <= After(s, start)
  {
    assert s[..i+1] == s[..i] + [s[i]] && s == s[..i+1] + s[i+1..];
    AfterConcat(s[..i], [s[i]], start);
    AfterConcat(s[..i+1], s[i+1..], start);
    assert [s[i]][1..] == [];
  }

  lemma {:induction false} AfterMembers(s: seq<Entry>, start: Bytes, count: int)
    ensures forall e :: e in Limit(After(s, start), count) ==> e in s && IdNumber(e.id) > IdNumber(start)
    ensures count <= 0 ==> forall e :: e in s && IdNumber(e.id) > IdNumber(start) ==> e in Limit(After(s, start), count)
  {
    var at := AfterPicks(s, start);
    PickedIn(After(s, start), s, at, (e: Entry) => IdNumber(e.id) > IdNumber(start));
    hide *;
    LimitIs(After(s, start), count);
  }

  lemma {:induction false} BetweenMembers(s: seq<Entry>, start: Bytes, end: Bytes)
    ensures forall e :: e in Between(s, start, end) <==>
      e in s && IdNumber(start) <= IdNumber(e.id) <= IdNumber(end)
  {
    var at := BetweenPicks(s, start, end);
    PickedIn(Between(s, start, end), s, at, (e: Entry) => IdNumber(start) <= IdNumber(e.id) <= IdNumber(end));
  }

  lemma {:induction false} ScanMembers(s: seq<Entry>, start: Bytes, end: Bytes, count: int)
    ensures var r := Limit(Scan(s, start, end), count);
      && (forall e :: e in r ==> e in s && IdNumber(start) <= IdNumber(e.id) <= IdNumber(end))
      && (count <= 0 && Ascending(s) ==>
          forall e :: e in s && IdNumber(start) <= IdNumber(e.id) <= IdNumber(end) ==> e in r)
  {
    hide *;
    BetweenMembers(s, start, end);
    ScanExact(s, start, end);
    RangesExact(s);
    LimitIs(Scan(s, start, end), count);
  }

  class StreamData {
    var entries: seq<Entry>
    var lastMs: u64
    var lastSeq: u64

    ghost function State(): Stream
      reads this
    {
      Stream(entries, Id(lastMs, lastSeq))
    }

    constructor ()
      ensures State() == EMPTY
    {
      entries, lastMs, lastSeq := [], 0, 0;
    }

    /** nowMs is the reading of the clock. */
    method AutoGenerateId(clock: u64) returns (id: Bytes)
      modifies this`lastMs, this`lastSeq
      ensures id == Format(NextId(old(State()).last, clock))
      ensures State() == old(State()).(last := NextId(old(State()).last, clock))
    {
      var nowMs := clock;
      if nowMs < lastMs {
        nowMs := lastMs;
      }
      if nowMs == lastMs {
        lastSeq := (lastSeq + 1) % U64_LIMIT;
      } else {
        lastMs := nowMs;
        lastSeq := 0;
      }
      return ToString(lastMs) + "-" + ToString(lastSeq);
    }

    /** Returns the new entry's id, "" if id is not after the last entry's. */
    method XAdd(id: Bytes, fields: seq<(Bytes, Bytes)>, clock: u64) returns (newId: Bytes)
      modifies this
      ensures (State(), newId) == Add(old(State()), id, fields, clock)
      ensures id != "" ==> (newId == "" <==> entries == old(entries))
      ensures entries != old(entries) ==>
        entries == old(entries) + [Entry(newId, fields)] && (id != "*" ==> newId == id)
    {
      AddReturns(State(), id, fields, clock);
      hide Parse, Format, NextId, CompareIds, IdNumber;
      if id == "*" {
        newId := AutoGenerateId(clock);
      } else {
        if entries != [] {
          CompareMeans(id, entries[|entries|-1].id);
          if CompareIds(id, entries[|entries|-1].id) <= 0 {
            return "";
          }
        }
        newId := id;
        var dash := Dash(id);
        if dash < |id| {
          lastMs := ToNumber(id);
          lastSeq := ToNumber(id[dash+1..]);
          DashParses(id);
        }
      }
      entries := entries + [Entry(newId, fields)];
    }

    method XRead(startId: Bytes, count: int) returns (result: seq<Entry>)
      ensures result == Limit(After(entries, startId), count)
      ensures forall e :: e in result ==> e in entries && IdNumber(e.id) > IdNumber(startId)
      ensures count <= 0 ==> forall e :: e in entries && IdNumber(e.id) > IdNumber(startId) ==> e in result
    {
      AfterMembers(entries, startId, count);
      hide IdNumber;
      result := [];
      assert entries[..0] == [];
      for i := 0 to |entries|
        invariant result == After(entries[..i], startId) && (count > 0 ==> |result| < count)
      {
        AfterStep(entries, i, startId);
        CompareMeans(entries[i].id, startId);
        if CompareIds(entries[i].id, startId) > 0 {
          result := result + [entries[i]];
          if count > 0 && |result| >= count {
            return;
          }
        }
      }
      assert entries[..|entries|] == entries;
    }

    /** The first count entries of the range, unless one of them is behind an entry past its end. */
    method XRange(startId: Bytes, endId: Bytes, count: int) returns (result: seq<Entry>)
      ensures result == Limit(Scan(entries, startId, endId), count)
      ensures result == Limit(Between(entries, startId, endId), count) <==>
        NoneBehind(entries, startId, endId) || 0 < count <= |result|
      ensures forall e :: e in result ==>
        e in entries && IdNumber(startId) <= IdNumber(e.id) <= IdNumber(endId)
      ensures count <= 0 && Ascending(entries) ==>
        forall e :: e in entries && IdNumber(startId) <= IdNumber(e.id) <= IdNumber(endId) ==> e in result
    {
      hide *;
      ScanMembers(entries, startId, endId, count);
      LimitExact(entries, startId, endId, count);
      ScanEnds(entries, startId, endId);
      result := [];
      for i := 0 to |entries|
        invariant Scan(entries, startId, endId) == result + Scan(entries[i..], startId, endId)
        invariant count > 0 ==> |result| < count
      {
        ScanStep(entries, i, startId, endId);
        CompareMeans(entries[i].id, startId);
        CompareMeans(entries[i].id, endId);
        if CompareIds(entries[i].id, startId) < 0 {
          continue;
        }
        if CompareIds(entries[i].id, endId) > 0 {
          LimitFound(result, [], count);
          return;
        }
        result := result + [entries[i]];
        assert Scan(entries, startId, endId) == result + Scan(entries[i+1..], startId, endId);
        if count > 0 && |result| >= count {
          LimitFound(result, Scan(entries[i+1..], startId, endId), count);
          return;
        }
      }
      LimitFound(result, [], count);
    }

    method XLen() returns (n: int)
      ensures n == |entries|
    {
      n := |entries|;
    }

    method XDel(id: Bytes) returns (deleted: bool)
      modifies this`entries
      ensures deleted ==>
        exists i: nat :: FirstOf(old(entries), i, id) && entries == old(entries)[..i] + old(entries)[i+1..]
      ensures !deleted ==> entries == old(entries) && forall e :: e in entries ==> e.id != id
      ensures entries == Delete(old(entries), id) && deleted == exists e :: e in old(entries) && e.id == id
    {
      for i := 0 to |entries|
        invariant entries == old(entries) && forall j :: 0 <= j < i ==> entries[j].id != id
      {
        if entries[i].id == id {
          DeleteAt(entries, i, id);
          entries := entries[..i] + entries[i+1..];
          return true;
        }
      }
      DeleteNone(entries, id);
      return false;
    }

    method XTrim(maxlen: int) returns (removed: int)
      modifies this`entries
      ensures entries == Trim(old(entries), maxlen) && removed == |old(entries)| - |entries|
      ensures old(entries) == old(entries)[..removed] + entries
      ensures |entries| <= maxlen || entries == []
      ensures removed > 0 ==> |entries| >= maxlen
    {
      removed := 0;
      while |entries| > maxlen && entries != []
        invariant 0 <= removed <= |old(entries)| && entries == old(entries)[removed..]
        invariant removed > 0 ==> |entries| >= maxlen
        decreases |entries|
      {
        entries := entries[1..];
        removed := removed + 1;
      }
    }
  }

  /** Carries an event out: what is said about runs is said about the stream. */
  method Perform(s: StreamData, e: Event)
    modifies s
    ensures s.State() == Step(old(s.State()), e)
  {
    match e
    case XAdd(id, fields, now) =>
      var newId := s.XAdd(id, fields, now);
    case XDel(gone) =>
      var deleted := s.XDel(gone);
    case XTrim(maxlen) =>
      var removed := s.XTrim(maxlen);
  }

  ghost predicate FirstOf(s: seq<Entry>, i: nat, id: Bytes) {
    i < |s| && s[i].id == id && forall j :: 0 <= j < i ==> s[j].id != id
  }

  lemma {:induction false} DashParses(id: Bytes)
    requires Dash(id) < |id|
    ensures Parse(id) == Id(ToNumber(id), ToNumber(id[Dash(id)+1..]))
  {
    hide ToNumber, Dash;
  }

  lemma {:induction false} DeleteAt(s: seq<Entry>, i: nat, id: Bytes)
    requires i < |s| && s[i].id == id && forall j :: 0 <= j < i ==> s[j].id != id
    ensures Delete(s, id) == s[..i] + s[i+1..] && s[i] in s
  {
    if i > 0 {
      DeleteAt(s[1..], i - 1, id);
    }
  }

  lemma {:induction false} DeleteNone(s: seq<Entry>, id: Bytes)
    requires forall j :: 0 <= j < |s| ==> s[j].id != id
    ensures Delete(s, id) == s
  {
    if s != [] {
      DeleteNone(s[1..], id);
    }
  }
}
