/** The 2Q eviction policy: a FIFO of keys seen once and an LRU of keys seen again (src/eviction_2q.cpp). */
module Eviction {
  import opened Keys

  datatype State = Probationary | Protected

  /** The two queues, oldest first. */
  datatype Queues = Queues(probationary: seq<string>, protected: seq<string>)

  // ---------- queues ----------

  ghost predicate NoDup(s: seq<string>) {
    forall i, j :: 0 <= i < j < |s| ==> s[i] != s[j]
  }

  /** s without the first occurrence of key. */
  function Without(s: seq<string>, key: string): seq<string> {
    if s == [] then [] else if s[0] == key then s[1..] else [s[0]] + Without(s[1..], key)
  }

  lemma {:induction false} WithoutAt(s: seq<string>, i: nat, key: string)
    requires i < |s| && s[i] == key && forall j :: 0 <= j < i ==> s[j] != key
    ensures Without(s, key) == s[..i] + s[i+1..]
  {
    if i > 0 {
      WithoutAt(s[1..], i - 1, key);
    }
  }

  lemma {:induction false} WithoutIn(s: seq<string>, key: string)
    requires key in s
    ensures multiset(s) == multiset(Without(s, key)) + multiset{key}
  {
    assert s == [s[0]] + s[1..];
    if s[0] != key {
      WithoutIn(s[1..], key);
    }
  }

  /** A key that occurs once is gone, and the others keep their order. */
  lemma {:induction false} WithoutOrder(s: seq<string>, key: string)
    requires NoDup(s) && key in s
    ensures NoDup(Without(s, key)) && |Without(s, key)| == |s| - 1
    ensures forall k :: k in Without(s, key) <==> k in s && k != key
  {
    var i :| 0 <= i < |s| && s[i] == key;
    WithoutAt(s, i, key);
    var w := Without(s, key);
    assert forall j :: 0 <= j < |w| ==> w[j] == s[if j < i then j else j + 1];
    forall k | k in s && k != key ensures k in w {
      var j :| 0 <= j < |s| && s[j] == k;
      assert w[if j < i then j else j - 1] == k;
    }
  }

  // ---------- what an access does ----------

  /** share(n) is the value in double of n * (1.0 - probationary_ratio), however it is rounded. */
  type Share = nat -> real

  ghost predicate IsShare(share: Share) {
    forall n: nat :: 0.0 <= share(n)
  }

  /** The size that a promotion leaves the protected queue before the promoted key joins it. */
  function MaxProtected(total: nat, share: Share): nat
    requires IsShare(share)
  {
    share(total).Floor
  }

  function Tracked(q: Queues): set<string> {
    (set k | k in q.probationary) + (set k | k in q.protected)
  }

  function Access(q: Queues, key: string, share: Share): Queues
    requires IsShare(share)
  {
    if key in q.probationary then Promote(q, key, share)
    else if key in q.protected then Queues(q.probationary, Without(q.protected, key) + [key])
    else Queues(q.probationary + [key], q.protected)
  }

  /** The number of keys that the promotion of key demotes. */
  function Surplus(q: Queues, key: string, share: Share): (d: nat)
    requires IsShare(share)
    ensures d <= |q.protected|
  {
    var m := MaxProtected(|Without(q.probationary, key)| + |q.protected|, share);
    if |q.protected| > m then |q.protected| - m else 0
  }

  /** The surplus of the protected queue is demoted, least recently used first, and key joins its end. */
  function Promote(q: Queues, key: string, share: Share): Queues
    requires IsShare(share)
  {
    var d := Surplus(q, key, share);
    Queues(Without(q.probationary, key) + q.protected[..d], q.protected[d..] + [key])
  }

  function Forget(q: Queues, key: string): Queues {
    if key in q.probationary then Queues(Without(q.probationary, key), q.protected)
    else Queues(q.probationary, Without(q.protected, key))
  }

  /** The queues after the next victim is taken. */
  function Evict(q: Queues): Queues {
    if q.probationary != [] then Queues(q.probationary[1..], q.protected)
    else if q.protected != [] then Queues([], q.protected[1..])
    else q
  }

  // ---------- the invariant ----------

  /** No key is queued twice. */
  ghost predicate Apart(q: Queues) {
    NoDup(q.probationary) && NoDup(q.protected) && forall k :: k in q.probationary ==> k !in q.protected
  }

  /** The state map knows the queued keys and which queue each is in. */
  ghost predicate Tells(m: map<string, State>, q: Queues) {
    && (forall k :: k in m <==> k in Tracked(q))
    && (forall k :: k in m ==> (m[k] == Probationary <==> k in q.probationary))
  }

  lemma {:induction false} TellsForget(m: map<string, State>, q: Queues, key: string)
    requires Tells(m, q) && Apart(q) && key in m
    ensures Tells(m - {key}, Forget(q, key)) && key in Tracked(q)
    ensures m[key] == Probationary <==> key in q.probationary
  {
    if key in q.probationary {
      WithoutOrder(q.probationary, key);
    } else {
      WithoutOrder(q.protected, key);
    }
    hide Without;
  }

  lemma {:induction false} TellsEvict(m: map<string, State>, q: Queues)
    requires Tells(m, q) && Apart(q) && Tracked(q) != {}
    ensures var all := q.probationary + q.protected; all != [] && Tells(m - {all[0]}, Evict(q))
  {
    if q.probationary != [] {
      assert q.probationary == [q.probationary[0]] + q.probationary[1..];
    } else {
      assert q.protected == [q.protected[0]] + q.protected[1..];
    }
  }

  /** A key is new to the map, or the map says where it is and another access leaves it there or moves it up. */
  lemma {:induction false} TellsAccess(m: map<string, State>, q: Queues, key: string)
    requires Tells(m, q) && Apart(q)
    ensures key !in m ==>
      key !in q.probationary && key !in q.protected && Tells(m[key := Probationary], Queues(q.probationary + [key],
          q.protected))
    ensures key in m && m[key] == Probationary ==> key in q.probationary
    ensures key in m && m[key] == Protected ==>
      key !in q.probationary && key in q.protected && Tells(m, Queues(q.probationary, Without(q.protected,
          key) + [key]))
  {
    if key in q.protected {
      WithoutOrder(q.protected, key);
    }
    hide Without;
  }

  /** The same, while key is on its way from one queue to the other. */
  ghost predicate TellsBut(m: map<string, State>, q: Queues, key: string) {
    && (forall k :: k in m <==> k == key || k in Tracked(q))
    && (forall k :: k in m && k != key ==> (m[k] == Probationary <==> k in q.probationary))
  }

  lemma {:induction false} TellsPromote(m: map<string, State>, q: Queues, key: string)
    requires Tells(m, q) && Apart(q) && key in q.probationary
    ensures var p := Without(q.probationary, key);
      TellsBut(m, Queues(p, q.protected), key) && key !in p && key !in q.protected
  {
    WithoutOrder(q.probationary, key);
    hide Without;
  }

  lemma {:induction false} TellsDemote(m: map<string, State>, q: Queues, key: string)
    requires TellsBut(m, q, key) && q.protected != []
    ensures var x := q.protected[0];
      TellsBut(m[x := Probationary], Queues(q.probationary + [x], q.protected[1..]), key)
  {
    assert q.protected == [q.protected[0]] + q.protected[1..];
  }

  lemma {:induction false} TellsPromoted(m: map<string, State>, q: Queues, key: string)
    requires TellsBut(m, q, key) && key !in q.probationary
    ensures Tells(m[key := Protected], Queues(q.probationary, q.protected + [key]))
  {
  }

  lemma {:induction false} PromoteIs(q: Queues, key: string, share: Share, d: nat)
    requires IsShare(share) && d <= |q.protected|
    requires var m := MaxProtected(|Without(q.probationary, key)| + |q.protected|, share);
      |q.protected| - d <= m && (d > 0 ==> |q.protected| - d >= m)
    ensures Promote(q, key, share) == Queues(Without(q.probationary, key) + q.protected[..d],
                                                     q.protected[d..] + [key])
  {
    hide MaxProtected, Without;
  }

  lemma {:induction false} DemotedApart(p: seq<string>, h: seq<string>, d: nat, key: string)
    requires d <= |h| && key !in p && key !in h
    ensures key !in p + h[..d]
  {
  }

  // ---------- the log ----------

  /** A key was accessed, went back to the probationary queue, or was evicted or removed. */
  datatype Event = Used(key: string) | Demoted(key: string) | Dropped(key: string)

  /** The number of the last event that concerns key; -1 if there is none. */
  ghost function LastAt(log: seq<Event>, key: string): (i: int)
    ensures -1 <= i < |log| && (i >= 0 ==> log[i].key == key) && forall j :: i < j < |log| ==> log[j].key != key
  {
    if log == [] then -1
    else if log[|log|-1].key == key then |log| - 1
    else LastAt(log[..|log|-1], key)
  }

  /** How often key was accessed since it became tracked. */
  ghost function Uses(log: seq<Event>, key: string): nat {
    if log == [] then 0
    else
      var n := Uses(log[..|log|-1], key);
      match log[|log|-1]
      case Used(k) => if k == key then n + 1 else n
      case Demoted(_) => n
      case Dropped(k) => if k == key then 0 else n
  }

  /** The queue in which the events leave key. */
  ghost function Where(log: seq<Event>, key: string): Option<State> {
    if log == [] then None
    else
      var e, before := log[|log|-1], Where(log[..|log|-1], key);
      if e.key != key then before else Goes(before, e)
  }

  /** An access of a key that is tracked takes it to the protected queue. */
  ghost function Goes(before: Option<State>, e: Event): Option<State> {
    match e
    case Used(_) => Some(if before == None then Probationary else Protected)
    case Demoted(_) => Some(Probationary)
    case Dropped(_) => None
  }

  /** Only protected keys are demoted. */
  ghost predicate Legal(log: seq<Event>) {
    forall i :: 0 <= i < |log| && log[i].Demoted? ==> Where(log[..i], log[i].key) == Some(Protected)
  }

  lemma {:induction false} LegalNext(log: seq<Event>, e: Event)
    requires Legal(log) && (e.Demoted? ==> Where(log, e.key) == Some(Protected))
    ensures Legal(log + [e])
  {
    var t := log + [e];
    assert t[..|log|] == log;
    forall i | 0 <= i < |t| && t[i].Demoted? ensures Where(t[..i], t[i].key) == Some(Protected) {
      if i < |log| { assert t[..i] == log[..i]; }
    }
  }

  lemma {:induction false} LegalPrefix(log: seq<Event>)
    requires Legal(log) && log != []
    ensures Legal(log[..|log|-1])
  {
    var t := log[..|log|-1];
    assert forall i :: 0 <= i < |t| ==> t[..i] == log[..i];
  }

  /** A tracked key was accessed since; one that was accessed once only is probationary. */
  lemma {:induction false} UsesTell(log: seq<Event>, key: string)
    requires Legal(log)
    ensures Uses(log, key) == 0 <==> Where(log, key) == None
    ensures Uses(log, key) == 1 ==> Where(log, key) == Some(Probationary)
    ensures Uses(log, key) == 1 || Where(log, key) == Some(Protected) ==>
      LastAt(log, key) >= 0 && log[LastAt(log, key)] == Used(key)
    decreases |log|
  {
    if log != [] {
      var n := |log| - 1;
      LegalPrefix(log);
      UsesTell(log[..n], key);
      assert log[n].Demoted? ==> Where(log[..n], log[n].key) == Some(Protected);
    }
  }

  /** For a key that was never dropped that is the number of its accesses. */
  lemma {:induction false} UsesAre(log: seq<Event>, key: string)
    ensures Dropped(key) !in log ==> Uses(log, key) == multiset(log)[Used(key)]
    ensures Uses(log + [Dropped(key)], key) == 0
    decreases |log|
  {
    assert (log + [Dropped(key)])[..|log|] == log;
    if log != [] {
      var n := |log| - 1;
      assert log == log[..n] + [log[n]];
      UsesAre(log[..n], key);
    }
  }

  /** The queue is in the order of the last events of its keys. */
  ghost predicate ByAge(q: seq<string>, log: seq<Event>) {
    forall i, j :: 0 <= i < j < |q| ==> LastAt(log, q[i]) < LastAt(log, q[j])
  }

  /** A queue holds the keys that the log puts into it, in the order of their last events. */
  ghost predicate Queued(s: seq<string>, st: State, log: seq<Event>) {
    ByAge(s, log) && forall k :: k in s <==> Where(log, k) == Some(st)
  }

  /** The log says which queue each key is in, and at which place. */
  ghost predicate Explained(q: Queues, log: seq<Event>) {
    Legal(log) && Queued(q.probationary, Probationary, log) && Queued(q.protected, Protected, log)
  }

  lemma {:induction false} ExplainedParts(q: Queues, log: seq<Event>)
    requires Explained(q, log)
    ensures Apart(q) && Legal(log)
    ensures Queued(q.probationary, Probationary, log) && Queued(q.protected, Protected, log)
    ensures forall k :: k in q.probationary <==> Where(log, k) == Some(Probationary)
    ensures forall k :: k in q.protected <==> Where(log, k) == Some(Protected)
  {
    hide LastAt, Where, Legal;
    AgedApart(q.probationary, log);
    AgedApart(q.protected, log);
  }

  lemma {:induction false} AgedApart(s: seq<string>, log: seq<Event>)
    requires ByAge(s, log)
    ensures NoDup(s)
  {
  }

  lemma {:induction false} LogNext(log: seq<Event>, e: Event, k: string)
    ensures LastAt(log + [e], k) == if k == e.key then |log| else LastAt(log, k)
    ensures Where(log + [e], k) == if k == e.key then Goes(Where(log, k), e) else Where(log, k)
  {
    assert (log + [e])[..|log|] == log;
  }

  /** A queue after an event: its key leaves, and joins the end if it goes there. */
  ghost function After(s: seq<string>, st: State, log: seq<Event>, e: Event): seq<string> {
    Without(s, e.key) + if Goes(Where(log, e.key), e) == Some(st) then [e.key] else []
  }

  lemma {:induction false} QueuedNext(s: seq<string>, st: State, log: seq<Event>, e: Event)
    requires Queued(s, st, log)
    ensures Queued(After(s, st, log, e), st, log + [e])
  {
    hide *;
    var w, to := Without(s, e.key), Goes(Where(log, e.key), e);
    QueuedIs(s, st, log);
    AgedApart(s, log);
    ByAgeWithout(s, log, e.key);
    ByAgeAppend(w, log, e);
    AfterIs(s, st, log, e);
    var r := After(s, st, log, e);
    forall k ensures k in r <==> Where(log + [e], k) == Some(st) {
      LogNext(log, e, k);
    }
    QueuedOf(r, st, log + [e]);
  }

  lemma {:induction false} QueuedIs(s: seq<string>, st: State, log: seq<Event>)
    requires Queued(s, st, log)
    ensures ByAge(s, log) && forall k :: k in s <==> Where(log, k) == Some(st)
  {
  }

  lemma {:induction false} QueuedOf(s: seq<string>, st: State, log: seq<Event>)
    requires ByAge(s, log) && forall k :: k in s <==> Where(log, k) == Some(st)
    ensures Queued(s, st, log)
  {
  }

  lemma {:induction false} AfterIs(s: seq<string>, st: State, log: seq<Event>, e: Event)
    ensures var w, to := Without(s, e.key), Goes(Where(log, e.key), e);
      After(s, st, log, e) == if to == Some(st) then w + [e.key] else w
  {
    hide Without, Where, Goes;
  }

  ghost function Next(q: Queues, log: seq<Event>, e: Event): Queues {
    Queues(After(q.probationary, Probationary, log, e), After(q.protected, Protected, log, e))
  }

  lemma {:induction false} NextKeys(q: Queues, log: seq<Event>, e: Event)
    requires Explained(q, log)
    ensures var r, to := Next(q, log, e), Goes(Where(log, e.key), e);
      && r.probationary ==
        (if e.key in q.probationary then Without(q.probationary, e.key) else q.probationary)
        + (if to == Some(Probationary) then [e.key] else [])
      && r.protected ==
        (if e.key in q.protected then Without(q.protected, e.key) else q.protected)
        + (if to == Some(Protected) then [e.key] else [])
  {
    if e.key !in q.probationary { WithoutNone(q.probationary, e.key); }
    if e.key !in q.protected { WithoutNone(q.protected, e.key); }
    hide Without, Where, Goes, Explained;
  }

  lemma {:induction false} TrackedIs(q: Queues, log: seq<Event>)
    requires Explained(q, log)
    ensures forall k :: k in Tracked(q) <==> Where(log, k) != None
  {
    forall k ensures k in Tracked(q) <==> Where(log, k) != None {
      StateOf(Where(log, k));
      hide Where, Legal, ByAge;
    }
  }

  lemma {:induction false} ExplainedOf(q: Queues, log: seq<Event>)
    requires Legal(log) && Queued(q.probationary, Probationary, log) && Queued(q.protected, Protected, log)
    ensures Explained(q, log)
  {
  }

  lemma {:induction false} ExplainedNext(q: Queues, log: seq<Event>, e: Event)
    requires Explained(q, log) && (e.Demoted? ==> e.key in q.protected)
    ensures Explained(Next(q, log, e), log + [e])
    ensures Tracked(Next(q, log, e)) == if e.Dropped? then Tracked(q) - {e.key} else Tracked(q) + {e.key}
  {
    hide *;
    ExplainedParts(q, log);
    LegalNext(log, e);
    QueuedNext(q.probationary, Probationary, log, e);
    QueuedNext(q.protected, Protected, log, e);
    var r := Next(q, log, e);
    NextIs(q, log, e);
    ExplainedOf(r, log + [e]);
    TrackedIs(q, log);
    TrackedIs(r, log + [e]);
    GoesSome(Where(log, e.key), e);
    forall k ensures k in Tracked(r) <==> if k == e.key then !e.Dropped? else k in Tracked(q) {
      LogNext(log, e, k);
    }
  }

  lemma {:induction false} NextIs(q: Queues, log: seq<Event>, e: Event)
    ensures Next(q, log, e).probationary == After(q.probationary, Probationary, log, e)
    ensures Next(q, log, e).protected == After(q.protected, Protected, log, e)
  {
  }

  lemma {:induction false} GoesSome(before: Option<State>, e: Event)
    ensures Goes(before, e) == None <==> e.Dropped?
  {
  }

  lemma {:induction false} StateOf(st: Option<State>)
    ensures st == None || st == Some(Probationary) || st == Some(Protected)
  {
    match st
    case None =>
    case Some(x) => assert x == Probationary || x == Protected;
  }

  /** The key of an event joins the end of a queue that it is not in. */
  lemma {:induction false} ByAgeAppend(q: seq<string>, log: seq<Event>, e: Event)
    requires ByAge(q, log) && e.key !in q
    ensures ByAge(q, log + [e]) && ByAge(q + [e.key], log + [e])
  {
    var r := q + [e.key];
    forall i, j | 0 <= i < j < |r| ensures LastAt(log + [e], r[i]) < LastAt(log + [e], r[j]) {
      LogNext(log, e, r[i]);
      LogNext(log, e, r[j]);
      assert r[i] == q[i] && r[i] in q;
      if j < |q| { assert r[j] in q; }
    }
    assert forall i :: 0 <= i < |q| ==> r[i] == q[i];
  }

  lemma {:induction false} AgeLt(q: seq<string>, log: seq<Event>, i: nat, j: nat)
    requires ByAge(q, log) && i < j < |q|
    ensures LastAt(log, q[i]) < LastAt(log, q[j])
  {
  }

  lemma {:induction false} ByAgeOf(q: seq<string>, log: seq<Event>)
    requires forall i, j :: 0 <= i < j < |q| ==> LastAt(log, q[i]) < LastAt(log, q[j])
    ensures ByAge(q, log)
  {
    hide LastAt;
  }

  lemma {:induction false} ByAgeCut(q: seq<string>, log: seq<Event>, i: nat)
    requires ByAge(q, log) && i < |q|
    ensures ByAge(q[..i] + q[i+1..], log)
  {
    hide *;
    var w := q[..i] + q[i+1..];
    forall m, n | 0 <= m < n < |w| ensures LastAt(log, w[m]) < LastAt(log, w[n]) {
      var m', n' := if m < i then m else m + 1, if n < i then n else n + 1;
      assert w[m] == q[m'];
      assert w[n] == q[n'];
      AgeLt(q, log, m', n');
    }
    ByAgeOf(w, log);
  }

  lemma {:induction false} ByAgeWithout(q: seq<string>, log: seq<Event>, key: string)
    requires ByAge(q, log) && NoDup(q)
    ensures ByAge(Without(q, key), log)
    ensures forall k :: k in Without(q, key) <==> k in q && k != key
  {
    hide ByAge;
    if key in q {
      var i :| 0 <= i < |q| && q[i] == key;
      WithoutAt(q, i, key);
      ByAgeCut(q, log, i);
      WithoutOrder(q, key);
    } else {
      WithoutNone(q, key);
    }
  }

  /** The queues after an access, before any key is demoted. */
  ghost function Moved(q: Queues, key: string): Queues {
    if key in q.probationary then Queues(Without(q.probationary, key), q.protected + [key])
    else if key in q.protected then Queues(q.probationary, Without(q.protected, key) + [key])
    else Queues(q.probationary + [key], q.protected)
  }

  lemma {:induction false} Goals(before: Option<State>, key: string)
    ensures Goes(before, Used(key)) == Some(if before == None then Probationary else Protected)
    ensures Goes(before, Demoted(key)) == Some(Probationary) && Goes(before, Dropped(key)) == None
  {
  }

  lemma {:induction false} MovedIs(q: Queues, key: string)
    ensures var p, h := Without(q.probationary, key), Without(q.protected, key);
      && p + [] == p && q.protected + [] == q.protected && q.probationary + [] == q.probationary
      && Moved(q, key) ==
        if key in q.probationary then Queues(p, q.protected + [key])
        else if key in q.protected then Queues(q.probationary, h + [key])
        else Queues(q.probationary + [key], q.protected)
  {
    hide Without;
  }

  lemma {:induction false} ForgetIs(q: Queues, key: string)
    requires Apart(q)
    ensures var p, h := Without(q.probationary, key), Without(q.protected, key);
      && p + [] == p && h + [] == h && q.protected + [] == q.protected && q.probationary + [] == q.probationary
      && (key in q.probationary ==> key !in q.protected)
      && Forget(q, key) == Queues(if key in q.probationary then p else q.probationary,
        if key in q.protected then h else q.protected)
  {
    if key !in q.protected { WithoutNone(q.protected, key); }
    hide Without;
  }

  lemma {:induction false} FirstOut(q: Queues)
    requires Apart(q) && q.protected != []
    ensures var x := q.protected[0];
      && x in q.protected && x !in q.probationary && x in Tracked(q)
      && Without(q.protected, x) == q.protected[1..] && q.protected[1..] + [] == q.protected[1..]
      && Tracked(q) + {x} == Tracked(q)
  {
  }

  lemma {:induction false} ExplainedUse(q: Queues, log: seq<Event>, key: string)
    requires Explained(q, log)
    ensures Explained(Moved(q, key), log + [Used(key)]) && Tracked(Moved(q, key)) == Tracked(q) + {key}
  {
    hide *;
    ExplainedParts(q, log);
    ExplainedNext(q, log, Used(key));
    NextKeys(q, log, Used(key));
    StateOf(Where(log, key));
    Goals(Where(log, key), key);
    MovedIs(q, key);
    assert Moved(q, key) == Next(q, log, Used(key));
  }

  lemma {:induction false} ExplainedDrop(q: Queues, log: seq<Event>, key: string)
    requires Explained(q, log)
    ensures Explained(Forget(q, key), log + [Dropped(key)]) && Tracked(Forget(q, key)) == Tracked(q) - {key}
  {
    hide *;
    ExplainedParts(q, log);
    ExplainedNext(q, log, Dropped(key));
    NextKeys(q, log, Dropped(key));
    Goals(Where(log, key), key);
    ForgetIs(q, key);
    assert Forget(q, key) == Next(q, log, Dropped(key));
  }

  lemma {:induction false} ExplainedDemote(q: Queues, log: seq<Event>)
    requires Explained(q, log) && q.protected != []
    ensures var x := q.protected[0]; var r := Queues(q.probationary + [x], q.protected[1..]);
      Explained(r, log + [Demoted(x)]) && Tracked(r) == Tracked(q)
  {
    hide *;
    var x, p, h := q.protected[0], q.probationary, q.protected;
    ExplainedParts(q, log);
    ExplainedNext(q, log, Demoted(x));
    NextKeys(q, log, Demoted(x));
    Goals(Where(log, x), x);
    FirstOut(q);
    assert Queues(p + [x], h[1..]) == Next(q, log, Demoted(x));
  }

  /** The first d protected keys go back, oldest first. */
  lemma {:induction false} ExplainedDemotions(q: Queues, log: seq<Event>, d: nat)
    requires Explained(q, log) && d <= |q.protected|
    ensures var r := Queues(q.probationary + q.protected[..d], q.protected[d..]);
      Explained(r, log + Demotions(q.protected[..d])) && Tracked(r) == Tracked(q)
  {
    hide Explained, Tracked;
    if d == 0 {
      assert log + Demotions([]) == log && q.probationary + [] == q.probationary;
      assert q.protected[..0] == [] && q.protected[0..] == q.protected;
    } else {
      ExplainedDemotions(q, log, d - 1);
      var x, h := q.protected[d-1], q.protected;
      var r := Queues(q.probationary + h[..d-1], h[d-1..]);
      ExplainedDemote(r, log + Demotions(h[..d-1]));
      DemoteNext(q.probationary, h, d - 1);
      assert h[..d] == h[..d-1] + [x];
      assert log + (Demotions(h[..d-1]) + [Demoted(x)]) == log + Demotions(h[..d-1]) + [Demoted(x)];
      assert Demotions(h[..d]) == Demotions(h[..d-1]) + [Demoted(x)];
    }
  }

  ghost function Demotions(keys: seq<string>): seq<Event> {
    seq(|keys|, i requires 0 <= i < |keys| => Demoted(keys[i]))
  }

  /** What an access adds to the log. */
  ghost function Logged(q: Queues, key: string, share: Share): seq<Event>
    requires IsShare(share)
  {
    [Used(key)] + if key in q.probationary then Demotions(q.protected[..Surplus(q, key, share)]) else []
  }

  /** What a promotion is: a move, and then the demotions. */
  lemma {:induction false} ExplainedPromote(q: Queues, key: string, share: Share, log: seq<Event>)
    requires Explained(q, log) && key in q.probationary && IsShare(share)
    ensures var r := Promote(q, key, share);
      Apart(r) && Explained(r, log + Logged(q, key, share)) && Tracked(r) == Tracked(q) + {key}
  {
    hide *;
    ExplainedUse(q, log, key);
    PromoteSteps(q, key, share, log);
    ExplainedDemotions(Moved(q, key), log + [Used(key)], Surplus(q, key, share));
    ExplainedParts(Promote(q, key, share), log + Logged(q, key, share));
  }

  lemma {:induction false} PromoteSteps(q: Queues, key: string, share: Share, log: seq<Event>)
    requires IsShare(share) && key in q.probationary
    ensures var m, d := Moved(q, key), Surplus(q, key, share);
      && d <= |m.protected|
      && Promote(q, key, share) == Queues(m.probationary + m.protected[..d], m.protected[d..])
      && log + Logged(q, key, share) == log + [Used(key)] + Demotions(m.protected[..d])
  {
    hide Surplus, Without, IsShare, Demotions;
    var d, h := Surplus(q, key, share), q.protected;
    assert (h + [key])[..d] == h[..d] && (h + [key])[d..] == h[d..] + [key];
  }

  /**
   A promotion conserves the keys, and leaves protected, beside the promoted key, as many of the most
   recently used ones as there may be.
   */
  lemma {:induction false} PromoteKeeps(q: Queues, key: string, share: Share, log: seq<Event>)
    requires Explained(q, log) && key in q.probationary && IsShare(share)
    ensures var r, n := Promote(q, key, share), |q.probationary| + |q.protected|; var m := share(n - 1).Floor;
      && Apart(r) && Explained(r, log + Logged(q, key, share)) && Tracked(r) == Tracked(q)
      && |r.probationary| + |r.protected| == n
      && |r.protected| == 1 + (if |q.protected| <= m then |q.protected| else m)
      && r.protected[|r.protected|-1] == key
  {
    hide *;
    ExplainedPromote(q, key, share, log);
    ExplainedParts(q, log);
    PromoteSizes(q, key, share);
  }

  lemma {:induction false} PromoteSizes(q: Queues, key: string, share: Share)
    requires Apart(q) && key in q.probationary && IsShare(share)
    ensures var r, n := Promote(q, key, share), |q.probationary| + |q.protected|; var m := share(n - 1).Floor;
      && Tracked(q) + {key} == Tracked(q) && |r.probationary| + |r.protected| == n
      && |r.protected| == 1 + (if |q.protected| <= m then |q.protected| else m)
      && r.protected[|r.protected|-1] == key
  {
    WithoutOrder(q.probationary, key);
    hide Without, Apart;
  }

  /** Where the product is exact, the bound is that of the ratio. */
  lemma {:induction false} PromoteExact(q: Queues, key: string, share: Share, ratio: real, log: seq<Event>)
    requires Explained(q, log) && key in q.probationary && 0.0 <= ratio <= 1.0
    requires forall k: nat :: share(k) == k as real * (1.0 - ratio)
    ensures var n := |q.probationary| + |q.protected|;
      IsShare(share) && |Promote(q, key, share).protected| <= ((n - 1) as real * (1.0 - ratio)).Floor + 1
  {
    hide Explained, Promote, Logged, Apart, Tracked;
    assert IsShare(share);
    PromoteKeeps(q, key, share, log);
  }

  /** The keys that it demotes were accessed before those that stay, and stand behind all that were probationary. */
  lemma {:induction false} DemotedKeys(q: Queues, key: string, share: Share, log: seq<Event>, i: nat, j: nat)
    requires Explained(q, log) && key in q.probationary && IsShare(share)
    ensures var r, d := Promote(q, key, share), Surplus(q, key, share);
      && r.probationary == Without(q.probationary, key) + q.protected[..d]
      && (i < d <= j < |q.protected| ==>
          q.protected[j] in r.protected && LastAt(log, q.protected[i]) < LastAt(log, q.protected[j]))
  {
    var d, h := Surplus(q, key, share), q.protected;
    ExplainedParts(q, log);
    hide Without, Surplus, LastAt, Where, Legal;
    if i < d <= j < |h| {
      assert h[d..][j-d] == h[j];
    }
  }

  lemma {:induction false} NoDupConcat(a: seq<string>, b: seq<string>)
    requires NoDup(a) && NoDup(b) && forall k :: k in a ==> k !in b
    ensures NoDup(a + b)
  {
    var s := a + b;
    forall i, j | 0 <= i < j < |s| ensures s[i] != s[j] {
      if i < |a| <= j { assert s[i] in a && s[j] in b; }
    }
  }

  /** Every access leaves the queues as the log says, and tracks the key. */
  lemma {:induction false} AccessKeeps(q: Queues, key: string, share: Share, log: seq<Event>)
    requires Explained(q, log) && IsShare(share)
    ensures var r := Access(q, key, share);
      Apart(r) && Explained(r, log + Logged(q, key, share)) && Tracked(r) == Tracked(q) + {key}
  {
    if key in q.probationary {
      ExplainedPromote(q, key, share, log);
    } else {
      ExplainedUse(q, log, key);
      assert log + Logged(q, key, share) == log + [Used(key)];
      ExplainedParts(Moved(q, key), log + [Used(key)]);
    }
  }

  lemma {:induction false} ForgetKeeps(q: Queues, key: string, log: seq<Event>)
    requires Explained(q, log)
    ensures var r := Forget(q, key);
      Apart(r) && Explained(r, log + [Dropped(key)]) && Tracked(r) == Tracked(q) - {key}
  {
    ExplainedDrop(q, log, key);
    ExplainedParts(Forget(q, key), log + [Dropped(key)]);
  }

  lemma {:induction false} EvictKeeps(q: Queues, log: seq<Event>)
    requires Explained(q, log) && Tracked(q) != {}
    ensures var r, all := Evict(q), q.probationary + q.protected;
      && all != [] && Apart(r) && Explained(r, log + [Dropped(all[0])]) && Tracked(r) == Tracked(q) - {all[0]}
      && r.probationary + r.protected == all[1..]
  {
    var all := q.probationary + q.protected;
    ExplainedParts(q, log);
    ForgetKeeps(q, all[0], log);
    hide Explained, Tracked, Apart;
    if q.probationary == [] {
      assert all == q.protected;
    } else {
      assert all[0] == q.probationary[0];
    }
  }

  lemma {:induction false} EvictIs(q: Queues)
    ensures var all := q.probationary + q.protected;
      && (all != [] ==> Tracked(q) != {}) && (all == [] ==> Evict(q) == q)
      && (q.probationary != [] ==>
          all[0] == q.probationary[0] && Evict(q) == Queues(q.probationary[1..], q.protected))
      && (q.probationary == [] && q.protected != [] ==>
          all[0] == q.protected[0] && Evict(q) == Queues(q.probationary, q.protected[1..]))
  {
    if q.probationary != [] {
      assert q.probationary[0] in Tracked(q);
    } else if q.protected != [] {
      assert q.protected[0] in Tracked(q);
    }
  }

  // ---------- runs ----------

  datatype Call = RecordAccess(key: string) | RemoveKey(key: string) | GetVictim

  /** The queues, and what happened to the keys. */
  datatype Policy = Policy(q: Queues, log: seq<Event>)

  const NEW := Policy(Queues([], []), [])

  ghost function Do(s: Policy, c: Call, share: Share): Policy
    requires IsShare(share)
  {
    var all := s.q.probationary + s.q.protected;
    match c
    case RecordAccess(key) => Policy(Access(s.q, key, share), s.log + Logged(s.q, key, share))
    case RemoveKey(key) => if key in all then Policy(Forget(s.q, key), s.log + [Dropped(key)]) else s
    case GetVictim => if all != [] then Policy(Evict(s.q), s.log + [Dropped(all[0])]) else s
  }

  ghost function Run(s: Policy, cs: seq<Call>, share: Share): Policy
    requires IsShare(share)
    decreases |cs|
  {
    if cs == [] then s else Run(Do(s, cs[0], share), cs[1..], share)
  }

  lemma {:induction false} DoExplained(s: Policy, c: Call, share: Share)
    requires Explained(s.q, s.log) && IsShare(share)
    ensures Explained(Do(s, c, share).q, Do(s, c, share).log)
  {
    hide Explained, Access, Forget, Evict, Logged;
    match c
    case RecordAccess(key) => AccessKeeps(s.q, key, share, s.log);
    case RemoveKey(key) => ForgetKeeps(s.q, key, s.log);
    case GetVictim =>
      EvictIs(s.q);
      if s.q.probationary + s.q.protected != [] { EvictKeeps(s.q, s.log); }
  }

  /** After every run the log says which keys are tracked, in which queue, and in which order. */
  lemma {:induction false} RunExplained(s: Policy, cs: seq<Call>, share: Share)
    requires Explained(s.q, s.log) && IsShare(share)
    ensures Explained(Run(s, cs, share).q, Run(s, cs, share).log) && Explained(NEW.q, NEW.log)
    decreases |cs|
  {
    hide Do;
    if cs != [] {
      DoExplained(s, cs[0], share);
      RunExplained(Do(s, cs[0], share), cs[1..], share);
    }
  }

  /** The keys of the accesses in a log. */
  ghost function UsedKeys(log: seq<Event>): seq<string> {
    if log == [] then []
    else UsedKeys(log[..|log|-1]) + if log[|log|-1].Used? then [log[|log|-1].key] else []
  }

  ghost function Accessed(cs: seq<Call>): seq<string>
    decreases |cs|
  {
    if cs == [] then [] else (if cs[0].RecordAccess? then [cs[0].key] else []) + Accessed(cs[1..])
  }

  lemma {:induction false} UsedConcat(a: seq<Event>, b: seq<Event>)
    ensures UsedKeys(a + b) == UsedKeys(a) + UsedKeys(b)
    decreases |b|
  {
    if b == [] {
      assert a + b == a;
    } else {
      var n := |b| - 1;
      assert (a + b)[..|a + b|-1] == a + b[..n];
      UsedConcat(a, b[..n]);
    }
  }

  lemma {:induction false} NoneUsed(log: seq<Event>)
    requires forall e :: e in log ==> !e.Used?
    ensures UsedKeys(log) == []
    decreases |log|
  {
    if log != [] { NoneUsed(log[..|log|-1]); }
  }

  /** The accesses in the log of a run are those that were made. */
  lemma {:induction false} RunLogs(s: Policy, cs: seq<Call>, share: Share)
    requires IsShare(share)
    ensures UsedKeys(Run(s, cs, share).log) == UsedKeys(s.log) + Accessed(cs)
    decreases |cs|
  {
    hide Do, UsedKeys;
    if cs != [] {
      DoLogs(s, cs[0], share);
      RunLogs(Do(s, cs[0], share), cs[1..], share);
    }
  }

  lemma {:induction false} DoLogs(s: Policy, c: Call, share: Share)
    requires IsShare(share)
    ensures UsedKeys(Do(s, c, share).log) == UsedKeys(s.log) + if c.RecordAccess? then [c.key] else []
  {
    hide Access, Forget, Evict, UsedKeys, Logged;
    match c
    case RecordAccess(key) =>
      LoggedUse(s.q, key, share);
      UsedConcat(s.log, Logged(s.q, key, share));
    case RemoveKey(key) =>
      UsedConcat(s.log, [Dropped(key)]);
      NoneUsed([Dropped(key)]);
    case GetVictim =>
      var all := s.q.probationary + s.q.protected;
      if all != [] {
        UsedConcat(s.log, [Dropped(all[0])]);
        NoneUsed([Dropped(all[0])]);
      }
  }

  lemma {:induction false} LoggedUse(q: Queues, key: string, share: Share)
    requires IsShare(share)
    ensures UsedKeys(Logged(q, key, share)) == [key]
  {
    var more := Logged(q, key, share);
    UsedConcat([Used(key)], more[1..]);
    assert more == [Used(key)] + more[1..];
    assert [Used(key)][..0] == [];
    NoneUsed(more[1..]);
  }

  /** A key that was accessed once is probationary; a protected one was accessed twice or more. */
  lemma {:induction false} OnceSeen(q: Queues, log: seq<Event>, k: string)
    requires Explained(q, log)
    ensures k in Tracked(q) <==> Uses(log, k) >= 1
    ensures Uses(log, k) == 1 ==> k in q.probationary && LastAt(log, k) >= 0 && log[LastAt(log, k)] == Used(k)
    ensures k in q.protected ==> Uses(log, k) >= 2 && LastAt(log, k) >= 0 && log[LastAt(log, k)] == Used(k)
  {
    hide *;
    ExplainedParts(q, log);
    TrackedIs(q, log);
    UsesTell(log, k);
  }

  /** The keys accessed once are evicted in the order of these accesses, and before the protected ones. */
  lemma {:induction false} EvictedInTurn(q: Queues, log: seq<Event>, i: nat, j: nat)
    requires Explained(q, log)
    requires var all := q.probationary + q.protected; i < |all| && j < |all| && Uses(log, all[i]) == 1
    ensures var all := q.probationary + q.protected;
      && (Uses(log, all[j]) == 1 ==> (i < j <==> LastAt(log, all[i]) < LastAt(log, all[j])))
      && (all[j] in q.protected ==> i < j)
  {
    hide *;
    var all, n := q.probationary + q.protected, |q.probationary|;
    ExplainedParts(q, log);
    OnceSeen(q, log, all[i]);
    OnceSeen(q, log, all[j]);
    Places(q, i);
    Places(q, j);
    if i < n && j < n {
      QueuedIs(q.probationary, Probationary, log);
      if i < j { AgeLt(q.probationary, log, i, j); }
      if j < i { AgeLt(q.probationary, log, j, i); }
    }
  }

  lemma {:induction false} Places(q: Queues, i: nat)
    requires Apart(q) && i < |q.probationary + q.protected|
    ensures var k, n := (q.probationary + q.protected)[i], |q.probationary|;
      && (k in q.probationary <==> i < n) && (k in q.protected <==> i >= n)
      && (i < n ==> q.probationary[i] == k)
  {
  }

  /** Of a key accessed twice and then another accessed once, the other goes first. */
  lemma {:induction false} SeenOnceGoes(a: string, b: string, share: Share)
    requires a != b && IsShare(share)
    ensures Run(NEW, [RecordAccess(a), RecordAccess(a), RecordAccess(b)], share).q == Queues([b], [a])
  {
    var x, y := RecordAccess(a), RecordAccess(b);
    var s := Do(NEW, x, share);
    var t := Do(s, x, share);
    hide Logged, IsShare;
    assert [] + [a] == [a] && [a][1..] == [] && [] + [b] == [b];
    assert s.q == Queues([a], []);
    assert t.q == Queues([], [a]);
    assert Do(t, y, share).q == Queues([b], [a]);
    hide Do;
    assert [x, x, y][1..] == [x, y] && [x, y][1..] == [y] && [y][1..] == [];
    assert Run(t, [y], share) == Do(t, y, share);
    assert Run(s, [x, y], share) == Run(t, [y], share);
  }

  /** The victims of repeated calls of GetVictim. */
  ghost function Drain(q: Queues): seq<string>
    decreases |q.probationary| + |q.protected|
  {
    if q.probationary + q.protected == [] then [] else [(q.probationary + q.protected)[0]] + Drain(Evict(q))
  }

  /** Evicting everything takes each tracked key once: the probationary ones in turn, then the protected ones by age. */
  lemma {:induction false} DrainAll(q: Queues)
    requires Apart(q)
    ensures Drain(q) == q.probationary + q.protected && NoDup(Drain(q))
    ensures forall k :: k in Drain(q) <==> k in Tracked(q)
    decreases |q.probationary| + |q.protected|
  {
    var all := q.probationary + q.protected;
    NoDupConcat(q.probationary, q.protected);
    if all != [] {
      var r := Evict(q);
      assert r.probationary + r.protected == all[1..];
      assert Apart(r);
      DrainAll(r);
    }
  }

  class Eviction2Q {
    const share: Share
    var probationary: seq<string>
    var protected: seq<string>
    var keyState: map<string, State>
    ghost var log: seq<Event>    // what happened to the keys so far

    ghost function Q(): Queues
      reads this
    {
      Queues(probationary, protected)
    }

    /** The queues and the state map tell the same story. */
    ghost predicate Valid()
      reads this
    {
      && IsShare(share)
      && Apart(Q()) && Explained(Q(), log)
      && Tells(keyState, Q())
    }

    constructor (share: Share)
      requires IsShare(share)
      ensures Valid() && Q() == Queues([], []) && log == [] && this.share == share
    {
      this.share := share;
      probationary, protected, keyState := [], [], map[];
      log := [];
    }

    method RecordAccess(key: string, isNew: bool)
      requires Valid()
      modifies this
      ensures Valid() && Q() == Access(old(Q()), key, share) && log == old(log) + Logged(old(Q()), key, share)
    {
      ghost var q := Q();
      AccessKeeps(q, key, share, log);
      TellsAccess(keyState, q, key);
      hide Explained, MaxProtected, Tells, Apart, Without, Promote, Logged;
      log := log + Logged(q, key, share);
      if key !in keyState {
        probationary := probationary + [key];
        keyState := keyState[key := Probationary];
        return;
      }
      if keyState[key] == Probationary {
        PromoteToProtected(key);
      } else {
        protected := Erase(protected, key);
        protected := protected + [key];
      }
    }

    /** Takes the first occurrence of key out of a queue. */
    method Erase(queue: seq<string>, key: string) returns (rest: seq<string>)
      ensures rest == Without(queue, key)
    {
      for i := 0 to |queue|
        invariant forall j :: 0 <= j < i ==> queue[j] != key
      {
        if queue[i] == key {
          WithoutAt(queue, i, key);
          return queue[..i] + queue[i+1..];
        }
      }
      WithoutNone(queue, key);
      return queue;
    }

    method PromoteToProtected(key: string)
      requires Apart(Q()) && IsShare(share) && key in probationary
      requires Tells(keyState, Q())
      modifies this`probationary, this`protected, this`keyState
      ensures Q() == Promote(old(Q()), key, share)
      ensures Tells(keyState, Q())
    {
      TellsPromote(keyState, Q(), key);
      ghost var q := Q();
      hide Without, Tells, TellsBut, Apart, MaxProtected, Promote, IsShare, Surplus;
      probationary := Erase(probationary, key);
      var total := |probationary| + |protected|;
      var maxProtected := MaxProtected(total, share);
      ghost var p, h := probationary, protected;
      ghost var d := Demote(maxProtected, key);
      DemotedApart(p, h, d, key);
      PromoteIs(q, key, share, d);
      TellsPromoted(keyState, Q(), key);
      protected := protected + [key];
      keyState := keyState[key := Protected];
    }

    /** Demotes the oldest protected keys until maxProtected are left. */
    method Demote(maxProtected: nat, ghost key: string) returns (ghost d: nat)
      requires TellsBut(keyState, Q(), key)
      modifies this`probationary, this`protected, this`keyState
      ensures d <= |old(protected)|
      ensures Q() == Queues(old(probationary) + old(protected)[..d], old(protected)[d..])
      ensures TellsBut(keyState, Q(), key) && |protected| <= maxProtected
      ensures d > 0 ==> |protected| >= maxProtected
    {
      hide TellsBut;
      ghost var p, h := probationary, protected;
      d := 0;
      while |protected| > maxProtected && protected != []
        invariant d <= |h| && protected == h[d..] && probationary == p + h[..d]
        invariant TellsBut(keyState, Q(), key)
        invariant d == 0 || |protected| >= maxProtected
        decreases |protected|
      {
        var demoted := protected[0];
        DemoteNext(p, h, d);
        TellsDemote(keyState, Q(), key);
        protected := protected[1..];
        keyState := keyState[demoted := Probationary];
        probationary := probationary + [demoted];
        d := d + 1;
      }
    }

    method RemoveKey(key: string)
      requires Valid()
      modifies this`probationary, this`protected, this`keyState, this`log
      ensures log == if key in Tracked(old(Q())) then old(log) + [Dropped(key)] else old(log)
      ensures Valid() && Q() == (if key in Tracked(old(Q())) then Forget(old(Q()), key) else old(Q()))
    {
      if key !in keyState {
        return;
      }
      ForgetKeeps(Q(), key, log);
      TellsForget(keyState, Q(), key);
      hide Explained, Tells, Apart, Without;
      log := log + [Dropped(key)];
      if keyState[key] == Probationary {
        probationary := Erase(probationary, key);
      } else {
        protected := Erase(protected, key);
      }
      keyState := keyState - {key};
    }

    method GetVictim() returns (victim: Option<string>)
      requires Valid()
      modifies this`probationary, this`protected, this`keyState, this`log
      ensures Valid() && Q() == Evict(old(Q()))
      ensures log == old(log) + if victim.Some? then [Dropped(victim.value)] else []
      ensures var all := old(probationary + protected); victim == if all == [] then None else Some(all[0])
    {
      hide *;
      ghost var q := Q();
      ValidParts();
      EvictIs(q);
      if q.probationary + q.protected != [] {
        EvictKeeps(q, log);
        TellsEvict(keyState, q);
      }
      if probationary != [] {
        var v := probationary[0];
        probationary := probationary[1..];
        keyState := keyState - {v};
        log := log + [Dropped(v)];
        ValidOf();
        return Some(v);
      }
      if protected != [] {
        var v := protected[0];
        protected := protected[1..];
        keyState := keyState - {v};
        log := log + [Dropped(v)];
        ValidOf();
        return Some(v);
      }
      return None;
    }

    lemma {:induction false} ValidParts()
      requires Valid()
      ensures IsShare(share) && Apart(Q()) && Explained(Q(), log) && Tells(keyState, Q())
      ensures Q().probationary == probationary && Q().protected == protected
    {
    }

    lemma {:induction false} ValidOf()
      requires var q := Queues(probationary, protected);
        IsShare(share) && Apart(q) && Explained(q, log) && Tells(keyState, q)
      ensures Valid() && Q() == Queues(probationary, protected)
    {
    }

    method Size() returns (n: int)
      requires Valid()
      ensures n == |probationary| + |protected|
    {
      n := |keyState|;
      SizeOf(keyState, Q());
    }
  }

  /** Carries a call out: what is said about runs is said about the policy. */
  method Perform(p: Eviction2Q, c: Call)
    requires p.Valid()
    modifies p
    ensures p.Valid()
    ensures Policy(p.Q(), p.log) == Do(old(Policy(p.Q(), p.log)), c, p.share)
  {
    hide Access, Forget, Evict, Logged, Apart, Explained, Tells;
    match c
    case RecordAccess(key) =>
      p.RecordAccess(key, false);
    case RemoveKey(key) =>
      p.RemoveKey(key);
    case GetVictim =>
      EvictIs(p.Q());
      var victim := p.GetVictim();
  }

  lemma {:induction false} WithoutNone(s: seq<string>, key: string)
    requires forall j :: 0 <= j < |s| ==> s[j] != key
    ensures Without(s, key) == s
  {
    if s != [] {
      WithoutNone(s[1..], key);
    }
  }

  lemma {:induction false} DemoteNext(p: seq<string>, h: seq<string>, d: nat)
    requires d < |h|
    ensures h[d..] == [h[d]] + h[d+1..] && h[d..][1..] == h[d+1..] && p + h[..d] + [h[d]] == p + h[..d+1]
  {
  }

  lemma {:induction false} NoDupSize(s: seq<string>)
    requires NoDup(s)
    ensures |set k | k in s| == |s|
  {
    if s != [] {
      NoDupSize(s[1..]);
      assert (set k | k in s) == (set k | k in s[1..]) + {s[0]};
    }
  }

  lemma {:induction false} SizeOf(m: map<string, State>, q: Queues)
    requires Apart(q) && forall k :: k in m <==> k in Tracked(q)
    ensures |m| == |q.probationary| + |q.protected|
  {
    var all := q.probationary + q.protected;
    NoDupConcat(q.probationary, q.protected);
    NoDupSize(all);
    assert m.Keys == set k | k in all;
  }
}
