/** The webhook's delivery dedup: a bounded insertion-ordered map against the full delivery history. */
module Dedup {
  import opened Unicode
  import opened JsonValue

  const TTL_MS: int := 24 * 60 * 60 * 1000
  const MAX_ENTRIES: nat := 10_000

  /** An insertion-ordered map from event id to the time it was first seen. */
  type Lru = seq<(Text, int)>

  /** `set` after `delete`: the entry goes to the end. */
  function Reinsert(m: Lru, id: Text, now: int): Lru { Without(m, id) + [(id, now)] }

  /** The eviction loop: drop the oldest while too many, but stop at an empty id, which is falsy. */
  function Evict(m: Lru): Lru {
    if |m| <= MAX_ENTRIES || m[0].0 == [] then m else Evict(m[1..])
  }

  predicate Fresh(m: Lru, id: Text, now: int) {
    Lookup(m, id).None? || now - Lookup(m, id).value >= TTL_MS
  }

  /** `recordSeen`: whether the delivery is fresh, and the map afterwards. */
  function Recorded(m: Lru, id: Text, now: int): (Lru, bool) {
    if Fresh(m, id, now) then (Evict(Reinsert(m, id, now)), true) else (m, false)
  }

  class IdempotencyLru {
    var entries: Lru

    constructor ()
      ensures entries == []
    {
      entries := [];
    }

    method RecordSeen(id: Text, now: int) returns (isFresh: bool)
      modifies this
      ensures (entries, isFresh) == Recorded(old(entries), id, now)
    {
      var seen := Lookup(entries, id);
      if seen.Some? && now - seen.value < TTL_MS { return false; }
      entries := Without(entries, id);
      entries := entries + [(id, now)];
      while |entries| > MAX_ENTRIES
        invariant Evict(entries) == Evict(Reinsert(old(entries), id, now))
      {
        var oldest := entries[0].0;
        if oldest == [] { break; }
        entries := entries[1..];
      }
      return true;
    }
  }

  // -------------------------------------------------------------- history

  datatype Delivery = Delivery(id: Text, now: int)

  /** The map after the deliveries, and the log of those answered as fresh. */
  function Run(ds: seq<Delivery>): (Lru, seq<(Text, int)>) {
    if ds == [] then ([], [])
    else
      var (m, log) := Run(ds[..|ds| - 1]);
      var d := ds[|ds| - 1];
      var (m', isFresh) := Recorded(m, d.id, d.now);
      (m', if isFresh then log + [(d.id, d.now)] else log)
  }

  predicate ClockMonotone(ds: seq<Delivery>) {
    forall i, j :: 0 <= i < j < |ds| ==> ds[i].now <= ds[j].now
  }

  /** Was this id logged as fresh less than the TTL ago? */
  predicate SeenInHistory(log: seq<(Text, int)>, id: Text, now: int) {
    exists k :: 0 <= k < |log| && log[k].0 == id && now - log[k].1 < 86_400_000
  }

  /** The other ids logged after the last time `id` was. */
  function LoggedAfter(log: seq<(Text, int)>, id: Text): set<Text> {
    if log == [] || log[|log| - 1].0 == id then {}
    else LoggedAfter(log[..|log| - 1], id) + {log[|log| - 1].0}
  }

  /** The map a log alone makes: every logged id at its last time, in that order, none evicted. */
  function Rebuilt(log: seq<(Text, int)>): Lru {
    if log == [] then [] else Reinsert(Rebuilt(log[..|log| - 1]), log[|log| - 1].0, log[|log| - 1].1)
  }

  // ------------------------------------------------------ facts about maps

  lemma {:induction false} RemoveConcat(a: Lru, b: Lru, id: Text)
    ensures Without(a + b, id) == Without(a, id) + Without(b, id)
  {
    if a == [] {
      assert a + b == b;
    } else {
      assert (a + b)[1..] == a[1..] + b;
      RemoveConcat(a[1..], b, id);
    }
  }

  lemma {:induction false} RebuiltDistinct(log: seq<(Text, int)>)
    ensures DistinctKeys(Rebuilt(log))
  {
    if log != [] {
      var u, x := Rebuilt(log[..|log| - 1]), log[|log| - 1];
      RebuiltDistinct(log[..|log| - 1]);
      WithoutDistinct(u, x.0);
      WithoutElements(u, x.0);
      assert forall i :: 0 <= i < |Without(u, x.0)| ==> Without(u, x.0)[i] in Without(u, x.0);
    }
  }

  // --------------------------------- the bounded map is the end of its log

  /** `m` is the last `MAX_ENTRIES` entries of `u`, or all of them. */
  predicate IsEnd(m: Lru, u: Lru) {
    |m| <= |u| && m == u[|u| - |m|..] && |m| == if |u| <= MAX_ENTRIES then |u| else MAX_ENTRIES
  }

  predicate NoEmptyId(m: Lru) { forall i :: 0 <= i < |m| ==> m[i].0 != [] }

  lemma {:induction false} EvictKeepsEnd(m: Lru)
    requires NoEmptyId(m)
    ensures Evict(m) == m[if |m| <= MAX_ENTRIES then 0 else |m| - MAX_ENTRIES..]
  {
    if |m| > MAX_ENTRIES {
      EvictKeepsEnd(m[1..]);
      assert m[1..][|m| - 1 - MAX_ENTRIES..] == m[|m| - MAX_ENTRIES..];
    }
  }

  lemma EvictedIsEnd(front: Lru, r: Lru)
    requires NoEmptyId(r) && (front != [] ==> |r| >= MAX_ENTRIES)
    ensures IsEnd(Evict(r), front + r)
  {
    EvictKeepsEnd(r);
    SuffixIsEnd(front, r, Evict(r), if |r| <= MAX_ENTRIES then 0 else |r| - MAX_ENTRIES);
  }

  lemma SuffixIsEnd(front: Lru, r: Lru, m: Lru, k: nat)
    requires (front != [] ==> |r| >= MAX_ENTRIES) && k == (if |r| <= MAX_ENTRIES then 0 else |r| - MAX_ENTRIES)
    requires m == r[k..]
    ensures IsEnd(m, front + r)
  {
    assert (front + r)[|front| + k..] == r[k..];
  }

  lemma RecordKeepsEnd(m: Lru, u: Lru, id: Text, now: int)
    requires IsEnd(m, u) && DistinctKeys(u) && NoEmptyId(u) && id != []
    ensures IsEnd(Evict(Reinsert(m, id, now)), Reinsert(u, id, now)) && NoEmptyId(Reinsert(u, id, now))
  {
    var older := u[..|u| - |m|];
    assert u == older + m;
    ReinsertNoEmptyId(u, id, now);
    RecordKeepsSplit(older, m, id, now);
  }

  lemma RecordKeepsSplit(older: Lru, m: Lru, id: Text, now: int)
    requires DistinctKeys(m) && NoEmptyId(m) && id != [] && (older != [] ==> |m| == MAX_ENTRIES)
    ensures IsEnd(Evict(Reinsert(m, id, now)), Reinsert(older + m, id, now))
  {
    RemoveConcat(older, m, id);
    ReinsertNoEmptyId(m, id, now);
    WithoutElements(older, id);
    RemovesAtMostOne(m, id);
    assert Reinsert(older + m, id, now) == Without(older, id) + Reinsert(m, id, now);
    EvictedIsEnd(Without(older, id), Reinsert(m, id, now));
  }

  lemma ReinsertNoEmptyId(m: Lru, id: Text, now: int)
    requires NoEmptyId(m) && id != []
    ensures NoEmptyId(Reinsert(m, id, now))
  {
    WithoutElements(m, id);
    var r := Without(m, id);
    assert forall i :: 0 <= i < |r| ==> r[i] in m;
  }

  lemma {:induction false} RemovesAtMostOne(m: Lru, id: Text)
    requires DistinctKeys(m)
    ensures |Without(m, id)| >= |m| - 1
  {
    if m != [] {
      if m[0].0 == id {
        assert forall i :: 0 <= i < |m[1..]| ==> m[1..][i] == m[i + 1];
        WithoutAbsent(m[1..], id);
      } else {
        RemovesAtMostOne(m[1..], id);
      }
    }
  }

  predicate NoEmptyIds(ds: seq<Delivery>) { forall i :: 0 <= i < |ds| ==> ds[i].id != [] }

  /** In every run the map is the most recent end of what its own log rebuilds, so never over its bound. */
  lemma {:induction false} RunIsEndOfHistory(ds: seq<Delivery>)
    requires NoEmptyIds(ds)
    ensures IsEnd(Run(ds).0, Rebuilt(Run(ds).1)) && NoEmptyId(Rebuilt(Run(ds).1))
    ensures |Run(ds).0| <= 10_000
  {
    if ds != [] {
      var init, d := ds[..|ds| - 1], ds[|ds| - 1];
      RunIsEndOfHistory(init);
      var (m, log) := Run(init);
      if Fresh(m, d.id, d.now) {
        RebuiltDistinct(log);
        RecordKeepsEnd(m, Rebuilt(log), d.id, d.now);
        assert (log + [(d.id, d.now)])[..|log|] == log;
      }
    }
  }

  // --------------------------------------------- answers against the log

  /** The time an id was last logged at. */
  function LastLogged(log: seq<(Text, int)>, id: Text): Option<int> {
    if log == [] then None
    else if log[|log| - 1].0 == id then Some(log[|log| - 1].1)
    else LastLogged(log[..|log| - 1], id)
  }

  /** Where an id stands in a map. */
  ghost predicate At(m: Lru, k: nat, id: Text, t: int) { k < |m| && m[k] == (id, t) }

  lemma {:induction false} DistinctCount(m: Lru)
    requires DistinctKeys(m)
    ensures |KeySet(m)| == |m|
  {
    if m != [] {
      var init := m[..|m| - 1];
      DistinctCount(init);
      assert KeySet(m) == KeySet(init) + {m[|m| - 1].0};
      assert m[|m| - 1].0 !in KeySet(init);
    }
  }

  /** In the rebuilt map an id is followed by exactly the ids logged after it. */
  lemma {:induction false} PositionInRebuilt(log: seq<(Text, int)>, id: Text) returns (k: nat)
    requires LastLogged(log, id).Some?
    ensures At(Rebuilt(log), k, id, LastLogged(log, id).value)
    ensures KeySet(Rebuilt(log)[k + 1..]) == LoggedAfter(log, id)
  {
    var u, x := Rebuilt(log[..|log| - 1]), log[|log| - 1];
    if x.0 == id {
      k := |Rebuilt(log)| - 1;
      assert Rebuilt(log)[k + 1..] == [];
    } else {
      var k0 := PositionInRebuilt(log[..|log| - 1], id);
      k := ReinsertPosition(u, k0, id, x.0, x.1);
    }
  }

  /** Re-recording another id keeps an entry and adds that id behind it. */
  lemma ReinsertPosition(u: Lru, k: nat, id: Text, other: Text, now: int) returns (k': nat)
    requires k < |u| && u[k].0 == id && id != other
    ensures k' < |Reinsert(u, other, now)| && Reinsert(u, other, now)[k'] == u[k]
    ensures KeySet(Reinsert(u, other, now)[k' + 1..]) == KeySet(u[k + 1..]) + {other}
  {
    var a, b := u[..k], u[k + 1..];
    assert u == a + ([u[k]] + b);
    RemoveConcat(a, [u[k]] + b, other);
    RemoveConcat([u[k]], b, other);
    assert Without([u[k]], other) == [u[k]] + Without([], other);
    k' := |Without(a, other)|;
    var tail := Without(b, other) + [(other, now)];
    assert Reinsert(u, other, now) == Without(a, other) + [u[k]] + tail;
    assert Reinsert(u, other, now)[k' + 1..] == tail;
    WithoutElements(b, other);
    TailIds(b, tail, other, now);
  }

  lemma TailIds(b: Lru, tail: Lru, other: Text, now: int)
    requires tail == Without(b, other) + [(other, now)]
    requires forall x :: x in Without(b, other) <==> x in b && x.0 != other
    ensures KeySet(tail) == KeySet(b) + {other}
  {
    var r := Without(b, other);
    forall id ensures id in KeySet(tail) <==> id in KeySet(b) + {other} {
      if id in KeySet(b) && id != other {
        var i :| 0 <= i < |b| && b[i].0 == id;
        assert b[i] in r;
        var j :| 0 <= j < |r| && r[j] == b[i];
        assert tail[j].0 == id;
      }
      if id in KeySet(tail) && id != other {
        var i :| 0 <= i < |tail| && tail[i].0 == id;
        assert tail[i] in r;
      }
      assert tail[|r|].0 == other;
    }
  }

  lemma {:induction false} RebuiltIds(log: seq<(Text, int)>, id: Text)
    requires LastLogged(log, id).None?
    ensures id !in KeySet(Rebuilt(log))
  {
    if log != [] {
      var u, x := Rebuilt(log[..|log| - 1]), log[|log| - 1];
      RebuiltIds(log[..|log| - 1], id);
      WithoutElements(u, x.0);
      assert forall i :: 0 <= i < |Without(u, x.0)| ==> Without(u, x.0)[i] in u;
    }
  }

  lemma LookupInSuffix(m: Lru, u: Lru, k: nat, id: Text, t: int)
    requires DistinctKeys(u) && |m| <= |u| && m == u[|u| - |m|..] && At(u, k, id, t)
    ensures Lookup(m, id) == if k >= |u| - |m| then Some(t) else None
  {
    var off := |u| - |m|;
    assert forall i :: 0 <= i < |m| ==> m[i] == u[off + i];
    if k >= off { LookupOf(m, k - off); }
  }

  lemma LookupInSuffixOf(m: Lru, u: Lru, id: Text)
    requires |m| <= |u| && m == u[|u| - |m|..] && id !in KeySet(u)
    ensures Lookup(m, id) == None
  {
    assert forall i :: 0 <= i < |m| ==> m[i] == u[|u| - |m| + i];
  }

  /** What the bounded map knows: the last logged time, unless MAX_ENTRIES other ids followed. */
  lemma LookupInEnd(m: Lru, log: seq<(Text, int)>, id: Text)
    requires IsEnd(m, Rebuilt(log))
    ensures Lookup(m, id) == if |LoggedAfter(log, id)| < MAX_ENTRIES then LastLogged(log, id) else None
  {
    var u := Rebuilt(log);
    if LastLogged(log, id).Some? {
      var k := PositionInRebuilt(log, id);
      RebuiltDistinct(log);
      DistinctCount(u[k + 1..]);
      LookupInSuffix(m, u, k, id, LastLogged(log, id).value);
    } else {
      RebuiltIds(log, id);
      LookupInSuffixOf(m, u, id);
    }
  }

  predicate InOrder(m: Lru, now: int) {
    && (forall i, j :: 0 <= i < j < |m| ==> m[i].1 <= m[j].1)
    && (forall i :: 0 <= i < |m| ==> m[i].1 <= now)
  }

  /** Logged times never run backwards, and none is after the present. */
  lemma {:induction false} LogMonotone(ds: seq<Delivery>, now: int)
    requires ClockMonotone(ds) && forall i :: 0 <= i < |ds| ==> ds[i].now <= now
    ensures InOrder(Run(ds).1, now)
  {
    if ds != [] {
      var init, d := ds[..|ds| - 1], ds[|ds| - 1];
      assert forall i :: 0 <= i < |init| ==> init[i] == ds[i];
      LogMonotone(init, d.now);
    }
  }

  lemma {:induction false} HistoryIsLast(log: seq<(Text, int)>, id: Text, now: int)
    requires forall i, j :: 0 <= i < j < |log| ==> log[i].1 <= log[j].1
    ensures SeenInHistory(log, id, now) <==> LastLogged(log, id).Some? && now - LastLogged(log, id).value < TTL_MS
  {
    if log != [] {
      var init, x := log[..|log| - 1], log[|log| - 1];
      HistoryIsLast(init, id, now);
      if SeenInHistory(init, id, now) {
        var k :| 0 <= k < |init| && init[k].0 == id && now - init[k].1 < 86_400_000;
        assert log[k] == init[k];
      }
      if SeenInHistory(log, id, now) && x.0 != id {
        var k :| 0 <= k < |log| && log[k].0 == id && now - log[k].1 < 86_400_000;
        assert init[k] == log[k];
      }
      assert log[|log| - 1] == x;
    }
  }

  /**
   On every run with a nondecreasing clock, a delivery is called a duplicate exactly when its id was
   logged less than the TTL ago and fewer than 10,000 other ids were logged since.
   */
  lemma AnswersAsHistory(ds: seq<Delivery>, id: Text, now: int)
    requires ClockMonotone(ds) && NoEmptyIds(ds)
    ensures var (m, log) := Run(ds);
            Fresh(m, id, now) <==> !SeenInHistory(log, id, now) || |LoggedAfter(log, id)| >= 10_000
  {
    var (m, log) := Run(ds);
    RunIsEndOfHistory(ds);
    LookupInEnd(m, log, id);
    LogMonotone(ds, if ds == [] then 0 else ds[|ds| - 1].now);
    HistoryIsLast(log, id, now);
  }

  /** Entries stand in nondecreasing order of the time they were first seen at. */
  lemma {:induction false} EntriesInTimeOrder(ds: seq<Delivery>, now: int)
    requires ClockMonotone(ds) && forall i :: 0 <= i < |ds| ==> ds[i].now <= now
    ensures InOrder(Run(ds).0, now)
  {
    if ds != [] {
      var init, d := ds[..|ds| - 1], ds[|ds| - 1];
      assert forall i :: 0 <= i < |init| ==> init[i] == ds[i];
      EntriesInTimeOrder(init, d.now);
      var m := Run(init).0;
      RemoveInOrder(m, d.id, d.now);
      EvictIsSuffix(Reinsert(m, d.id, d.now));
    }
  }

  lemma {:induction false} RemoveInOrder(m: Lru, id: Text, now: int)
    requires InOrder(m, now)
    ensures InOrder(Without(m, id), now)
  {
    if m != [] {
      RemoveInOrder(m[1..], id, now);
      RemoveKeepsLeast(m[1..], id, m[0].1);
    }
  }

  lemma RemoveKeepsLeast(m: Lru, id: Text, t: int)
    requires forall i :: 0 <= i < |m| ==> t <= m[i].1
    ensures forall i :: 0 <= i < |Without(m, id)| ==> t <= Without(m, id)[i].1
  {
    WithoutElements(m, id);
    forall i | 0 <= i < |Without(m, id)| ensures t <= Without(m, id)[i].1 {
      assert Without(m, id)[i] in m;
    }
  }

  lemma {:induction false} EvictIsSuffix(m: Lru)
    ensures |Evict(m)| <= |m| && Evict(m) == m[|m| - |Evict(m)|..]
  {
    if |m| > MAX_ENTRIES && m[0].0 != [] {
      EvictIsSuffix(m[1..]);
    }
  }

  // --------------------------------------- against a map that never evicts

  /** The same `recordSeen` without its eviction loop: the map after the deliveries, and its own log. */
  function NeverEvicts(ds: seq<Delivery>): (Lru, seq<(Text, int)>) {
    if ds == [] then ([], [])
    else
      var (u, log) := NeverEvicts(ds[..|ds| - 1]);
      var d := ds[|ds| - 1];
      if Fresh(u, d.id, d.now) then (Reinsert(u, d.id, d.now), log + [(d.id, d.now)]) else (u, log)
  }

  lemma {:induction false} NeverEvictsIsRebuilt(ds: seq<Delivery>)
    ensures NeverEvicts(ds).0 == Rebuilt(NeverEvicts(ds).1)
  {
    if ds != [] {
      NeverEvictsIsRebuilt(ds[..|ds| - 1]);
      var log, d := NeverEvicts(ds[..|ds| - 1]).1, ds[|ds| - 1];
      assert (log + [(d.id, d.now)])[..|log|] == log;
    }
  }

  lemma {:induction false} NeverEvictsMonotone(ds: seq<Delivery>, now: int)
    requires ClockMonotone(ds) && forall i :: 0 <= i < |ds| ==> ds[i].now <= now
    ensures InOrder(NeverEvicts(ds).1, now)
  {
    if ds != [] {
      var init, d := ds[..|ds| - 1], ds[|ds| - 1];
      assert forall i :: 0 <= i < |init| ==> init[i] == ds[i];
      NeverEvictsMonotone(init, d.now);
    }
  }

  lemma LookupInRebuilt(log: seq<(Text, int)>, id: Text)
    ensures Lookup(Rebuilt(log), id) == LastLogged(log, id)
  {
    if LastLogged(log, id).Some? {
      var k := PositionInRebuilt(log, id);
      RebuiltDistinct(log);
      LookupOf(Rebuilt(log), k);
    } else {
      RebuiltIds(log, id);
    }
  }

  /** A map that never evicts answers by its whole history. */
  lemma NeverEvictsAnswers(ds: seq<Delivery>, id: Text, now: int)
    requires ClockMonotone(ds)
    ensures Fresh(NeverEvicts(ds).0, id, now) <==> !SeenInHistory(NeverEvicts(ds).1, id, now)
  {
    var log := NeverEvicts(ds).1;
    NeverEvictsIsRebuilt(ds);
    LookupInRebuilt(log, id);
    NeverEvictsMonotone(ds, if ds == [] then 0 else ds[|ds| - 1].now);
    HistoryIsLast(log, id, now);
  }

  /** What the bounded map answers to delivery `i`, and what one that never evicts answers. */
  predicate Answer(ds: seq<Delivery>, i: nat)
    requires i < |ds|
  {
    Fresh(Run(ds[..i]).0, ds[i].id, ds[i].now)
  }

  predicate FullAnswer(ds: seq<Delivery>, i: nat)
    requires i < |ds|
  {
    Fresh(NeverEvicts(ds[..i]).0, ds[i].id, ds[i].now)
  }

  /** Delivery `i` repeats an id seen less than the TTL ago, but MAX_ENTRIES or more other ids came since. */
  predicate Forgotten(ds: seq<Delivery>, i: nat)
    requires i < |ds|
  {
    var log := NeverEvicts(ds[..i]).1;
    SeenInHistory(log, ds[i].id, ds[i].now) && |LoggedAfter(log, ds[i].id)| >= 10_000
  }

  ghost predicate NoneForgotten(ds: seq<Delivery>, n: nat)
    requires n <= |ds|
  {
    forall i :: 0 <= i < n ==> !Forgotten(ds, i)
  }

  lemma PrefixOfRun(ds: seq<Delivery>, n: nat)
    requires ClockMonotone(ds) && NoEmptyIds(ds) && n <= |ds|
    ensures ClockMonotone(ds[..n]) && NoEmptyIds(ds[..n])
  {
    assert forall i :: 0 <= i < n ==> ds[..n][i] == ds[i];
  }

  /** While nothing was forgotten, both maps have one log, and the bounded one is the newest end of the other. */
  lemma {:induction false} RunIsEndOfNeverEvicting(ds: seq<Delivery>, n: nat)
    requires ClockMonotone(ds) && NoEmptyIds(ds) && n <= |ds| && NoneForgotten(ds, n)
    ensures Run(ds[..n]).1 == NeverEvicts(ds[..n]).1 && IsEnd(Run(ds[..n]).0, NeverEvicts(ds[..n]).0)
    decreases n, 1
  {
    if n > 0 {
      assert ds[..n][..n - 1] == ds[..n - 1];
      RunIsEndOfNeverEvicting(ds, n - 1);
      FirstDisagreement(ds, n - 1);
    }
    PrefixOfRun(ds, n);
    RunIsEndOfHistory(ds[..n]);
    NeverEvictsIsRebuilt(ds[..n]);
  }

  /**
   Up to the first forgotten redelivery the bounded map answers as one that never evicts; at that
   redelivery it answers fresh where the other answers duplicate.
   */
  lemma {:induction false} FirstDisagreement(ds: seq<Delivery>, i: nat)
    requires ClockMonotone(ds) && NoEmptyIds(ds) && i < |ds| && NoneForgotten(ds, i)
    ensures Answer(ds, i) == (FullAnswer(ds, i) || Forgotten(ds, i))
    ensures Forgotten(ds, i) ==> !FullAnswer(ds, i)
    decreases i, 2
  {
    RunIsEndOfNeverEvicting(ds, i);
    PrefixOfRun(ds, i);
    AnswersAsHistory(ds[..i], ds[i].id, ds[i].now);
    NeverEvictsAnswers(ds[..i], ds[i].id, ds[i].now);
  }

  ghost predicate AnswersAlike(ds: seq<Delivery>, n: nat)
    requires n <= |ds|
  {
    forall i :: 0 <= i < n ==> Answer(ds, i) == FullAnswer(ds, i)
  }

  /**
   On every run with a nondecreasing clock the bounded map gives the answers of a map that never evicts
   if and only if no id is redelivered within the TTL after 10,000 or more other ids.
   */
  lemma {:induction false} AnswersAlikeIff(ds: seq<Delivery>, n: nat)
    requires ClockMonotone(ds) && NoEmptyIds(ds) && n <= |ds|
    ensures AnswersAlike(ds, n) <==> NoneForgotten(ds, n)
  {
    if n > 0 {
      AnswersAlikeIff(ds, n - 1);
      if NoneForgotten(ds, n - 1) { FirstDisagreement(ds, n - 1); }
    }
  }

  // ----------------------------------------------- the empty id is falsy

  /** Eviction brings a map of any size back to its bound exactly when no id it has to drop is empty. */
  lemma {:induction false} EvictionBoundsIff(m: Lru)
    ensures |Evict(m)| <= 10_000 <==> forall i :: 0 <= i < |m| - 10_000 ==> m[i].0 != []
  {
    if |m| > MAX_ENTRIES {
      if m[0].0 != [] {
        EvictionBoundsIff(m[1..]);
        assert forall i :: 1 <= i < |m| ==> m[i] == m[1..][i - 1];
        assert forall i :: 0 <= i < |m[1..]| ==> m[1..][i] == m[i + 1];
      }
    }
  }

  /** The text of `n` letters, so that the ids of length 0..n are distinct. */
  function Letters(n: nat): Text { seq(n, _ => 0x61) }

  function LengthsUpTo(n: nat): seq<Delivery> { seq(n, i requires 0 <= i < n => Delivery(Letters(i), 0)) }

  /** An empty id recorded first is never evicted, and keeps everything after it: the map grows without bound. */
  lemma {:induction false} EmptyIdDefeatsTheBound(n: nat)
    ensures Run(LengthsUpTo(n)).0 == seq(n, i requires 0 <= i < n => (Letters(i), 0))
  {
    if n > 0 {
      assert LengthsUpTo(n)[..n - 1] == LengthsUpTo(n - 1);
      EmptyIdDefeatsTheBound(n - 1);
      LongerIsNew(n - 1);
    }
  }

  lemma LongerIsNew(n: nat)
    ensures var m := seq(n, i requires 0 <= i < n => (Letters(i), 0));
            Recorded(m, Letters(n), 0) == (seq(n + 1, i requires 0 <= i < n + 1 => (Letters(i), 0)), true)
  {
    var m: Lru := seq(n, i requires 0 <= i < n => (Letters(i), 0));
    assert forall i :: 0 <= i < n ==> |m[i].0| == i;
    WithoutAbsent(m, Letters(n));
    assert Reinsert(m, Letters(n), 0) == seq(n + 1, i requires 0 <= i < n + 1 => (Letters(i), 0));
  }

  // ------------------------------------------------ a forgotten redelivery

  /** `n` different ids at time 0, then the first of them again. */
  function Wave(n: nat): seq<Delivery> { seq(n, i requires 0 <= i < n => Delivery(Letters(i + 1), 0)) }

  function WaveThenFirst(n: nat): seq<Delivery> { Wave(n) + [Delivery(Letters(1), 1)] }

  function WaveLog(n: nat): Lru { seq(n, i requires 0 <= i < n => (Letters(i + 1), 0)) }

  lemma WaveLengths(n: nat)
    ensures forall i :: 0 <= i < n ==> |WaveLog(n)[i].0| == i + 1
    ensures DistinctKeys(WaveLog(n))
  {
    var m := WaveLog(n);
    assert forall i :: 0 <= i < n ==> |m[i].0| == i + 1;
  }

  lemma NextInWave(n: nat)
    ensures Fresh(WaveLog(n), Letters(n + 1), 0)
    ensures Reinsert(WaveLog(n), Letters(n + 1), 0) == WaveLog(n) + [(Letters(n + 1), 0)] == WaveLog(n + 1)
  {
    WaveLengths(n);
    assert |Letters(n + 1)| == n + 1;
    WithoutAbsent(WaveLog(n), Letters(n + 1));
  }

  lemma {:induction false} WaveIsKept(n: nat)
    ensures NeverEvicts(Wave(n)) == (WaveLog(n), WaveLog(n))
  {
    if n == 0 {
      assert Wave(0) == [] && WaveLog(0) == [];
    } else {
      assert Wave(n)[..n - 1] == Wave(n - 1) && Wave(n)[n - 1] == Delivery(Letters(n), 0);
      WaveIsKept(n - 1);
      NextInWave(n - 1);
    }
  }

  lemma WaveIsRebuilt(n: nat)
    ensures Rebuilt(WaveLog(n)) == WaveLog(n)
  {
    WaveIsKept(n);
    NeverEvictsIsRebuilt(Wave(n));
  }

  /** Between the first id of a wave and its redelivery come all the others. */
  lemma OthersInWave(n: nat)
    requires n >= 1
    ensures |LoggedAfter(WaveLog(n), Letters(1))| == n - 1 && SeenInHistory(WaveLog(n), Letters(1), 1)
  {
    WaveIsRebuilt(n);
    WaveLengths(n);
    assert WaveLog(n)[0] == (Letters(1), 0);
    LookupInRebuilt(WaveLog(n), Letters(1));
    var k := PositionInRebuilt(WaveLog(n), Letters(1));
    assert |WaveLog(n)[k].0| == |Letters(1)|;
    DistinctCount(WaveLog(n)[1..]);
  }

  lemma NewIdIsNotForgotten(n: nat)
    ensures !SeenInHistory(NeverEvicts(Wave(n)).1, Letters(n + 1), 0)
  {
    WaveIsKept(n);
    WaveLengths(n);
    assert |Letters(n + 1)| == n + 1;
  }

  lemma WaveForgetsNothing(n: nat)
    ensures NoneForgotten(WaveThenFirst(n), n)
  {
    var ds := WaveThenFirst(n);
    forall i | 0 <= i < n ensures !Forgotten(ds, i) {
      assert ds[..i] == Wave(i) && ds[i] == Delivery(Letters(i + 1), 0);
      NewIdIsNotForgotten(i);
    }
  }

  lemma WaveForgetsFirst(n: nat)
    requires n > MAX_ENTRIES
    ensures Forgotten(WaveThenFirst(n), n)
  {
    var ds := WaveThenFirst(n);
    assert ds[..n] == Wave(n) && ds[n] == Delivery(Letters(1), 1);
    WaveIsKept(n);
    OthersInWave(n);
  }

  /** The concrete disagreement: after more than 10,000 different ids the first is taken for fresh again. */
  lemma WaveForgets(n: nat)
    requires n > MAX_ENTRIES
    ensures var ds := WaveThenFirst(n);
            ClockMonotone(ds) && NoEmptyIds(ds) && Forgotten(ds, n) && Answer(ds, n) && !FullAnswer(ds, n)
  {
    var ds := WaveThenFirst(n);
    WaveForgetsNothing(n);
    WaveForgetsFirst(n);
    FirstDisagreement(ds, n);
  }
}
