/**
 The revocation-index allocator behind the issuer: what one transaction on the epoch table does, for
 the SQLite and the Postgres store, and what every run of such transactions keeps.
 */
module Epochs {
  import opened JsonValue
  import opened StatusList

  // ------------------------------------------------------------ the table

  datatype Backend = Sqlite | Postgres

  /** Unix seconds of Go's zero `time.Time`. */
  const ZERO_TIME: int := -62135596800

  const DEFAULT_MAX_INDICES: nat := 131072

  /** An epoch row as the code reads it: absent times are `None`. */
  datatype Row = Row(cap: nat, next: nat, closed: Option<int>, last: Option<int>)

  type Rows = map<nat, Row>

  /** SQLite's time columns default to 0 and read 0 as absent; Postgres has nullable columns. */
  function Column(b: Backend, t: int): Option<int> {
    if b.Sqlite? && t == 0 then None else Some(t)
  }

  ghost predicate IsOpen(rows: Rows, n: nat) { n in rows && rows[n].closed.None? }

  /** `WHERE closed IS NULL ORDER BY number DESC LIMIT 1`. */
  ghost predicate IsCurrent(rows: Rows, n: nat) {
    IsOpen(rows, n) && forall m: nat :: IsOpen(rows, m) ==> m <= n
  }

  ghost function Current(rows: Rows): (r: Option<nat>)
    ensures r.Some? ==> IsCurrent(rows, r.value)
  {
    if n: nat :| IsCurrent(rows, n) then Some(n) else None
  }

  lemma CurrentIs(rows: Rows, n: nat)
    requires IsCurrent(rows, n)
    ensures Current(rows) == Some(n)
  {
    assert IsCurrent(rows, n);
    var m := Current(rows).value;
    assert m <= n && n <= m;
  }

  // --------------------------------------------------------- transactions

  function FreshRow(cap: nat): Row { Row(cap, 0, None, None) }

  /** Close epoch `n` at `at` and open `n + 1`. */
  function Rolled(b: Backend, rows: Rows, n: nat, cap: nat, at: int): Rows
    requires n in rows
  {
    rows[n := rows[n].(closed := Column(b, at))][n + 1 := FreshRow(cap)]
  }

  /** The recorded latest expiry after allocating for a credential that expires at `exp`. */
  function NewLast(b: Backend, last: Option<int>, exp: int): Option<int> {
    match b
    case Sqlite =>
      var recorded := if last.Some? then last.value else ZERO_TIME;
      Column(b, if exp > recorded then exp else recorded)
    case Postgres =>
      if last.Some? && last.value > exp then last else Some(exp)
  }

  /** `RotateEpoch`; `maxIndices` 0 asks for the store's default cap. */
  ghost function Rotate(b: Backend, defaultCap: nat, rows: Rows, maxIndices: nat, at: int): Result<Rows> {
    var cap := if maxIndices == 0 then defaultCap else maxIndices;
    match Current(rows)
    case None => if 1 in rows then Err else Ok(rows[1 := FreshRow(cap)])
    case Some(n) => if n + 1 in rows then Err else Ok(Rolled(b, rows, n, cap, at))
  }

  /** The table after the inline roll of an exhausted epoch, and the epoch to allocate from. */
  ghost function RolledIfFull(b: Backend, defaultCap: nat, rows: Rows, n: nat, now: int): Result<(Rows, nat)>
    requires n in rows
  {
    if rows[n].next < rows[n].cap then Ok((rows, n))
    else if n + 1 in rows then Err
    else Ok((Rolled(b, rows, n, defaultCap, now), n + 1))
  }

  datatype Allocation = Allocation(rows: Rows, epoch: nat, idx: nat)

  function Allocated(b: Backend, rows: Rows, e: nat, exp: int): Allocation
    requires e in rows
  {
    var row := rows[e];
    Allocation(rows[e := row.(next := row.next + 1, last := NewLast(b, row.last, exp))], e, row.next)
  }

  /** `AllocateIndex`. */
  ghost function Allocate(b: Backend, defaultCap: nat, rows: Rows, exp: int, now: int): Result<Allocation> {
    if exp == ZERO_TIME || Current(rows).None? then Err
    else
      match RolledIfFull(b, defaultCap, rows, Current(rows).value, now)
      case Err => Err
      case Ok((rows', e)) => if e in rows' then Ok(Allocated(b, rows', e, exp)) else Err
  }

  /** `ensureCurrentEpoch`, run whenever a store is opened. */
  ghost function EnsureCurrent(defaultCap: nat, rows: Rows): Result<Rows> {
    if exists n :: IsOpen(rows, n) then Ok(rows)
    else if 1 in rows then Err
    else Ok(rows[1 := FreshRow(defaultCap)])
  }

  type Revocations = map<(nat, nat), int>

  /** `SetRevoked`: the index must lie below the epoch's cap; a second revocation is ignored. */
  function Revoke(rows: Rows, revoked: Revocations, epoch: nat, idx: nat, at: int): Result<Revocations> {
    if epoch !in rows || idx >= rows[epoch].cap then Err
    else if (epoch, idx) in revoked then Ok(revoked)
    else Ok(revoked[(epoch, idx) := at])
  }

  // ----------------------------------------------------------------- runs

  /** One index handed out, for a credential that expires at `exp`. */
  datatype Handed = Handed(epoch: nat, idx: nat, exp: int)

  /** The database, the running store's default cap, and the history of what happened. */
  datatype System = System(rows: Rows, revoked: Revocations, cap: nat, handed: seq<Handed>, closes: seq<int>)

  datatype Op =
    | DoAllocate(exp: int, now: int)
    | DoRotate(maxIndices: nat, at: int)
    | DoRestart(maxIndices: nat)
    | DoRevoke(epoch: nat, idx: nat, at: int)

  function DefaultCap(maxIndices: nat): nat {
    if maxIndices == 0 then DEFAULT_MAX_INDICES else maxIndices
  }

  /** An operation that fails changes nothing: its transaction rolls back. */
  ghost function Step(b: Backend, s: System, op: Op): System {
    match op
    case DoAllocate(exp, now) =>
      (match Allocate(b, s.cap, s.rows, exp, now)
       case Err => s
       case Ok(a) =>
         s.(rows := a.rows, handed := s.handed + [Handed(a.epoch, a.idx, exp)],
            closes := if Current(s.rows) == Some(a.epoch) then s.closes else s.closes + [now]))
    case DoRotate(maxIndices, at) =>
      (match Rotate(b, s.cap, s.rows, maxIndices, at)
       case Err => s
       case Ok(rows) =>
         s.(rows := rows, closes := if Current(s.rows).None? then s.closes else s.closes + [at]))
    case DoRestart(maxIndices) =>
      (match EnsureCurrent(DefaultCap(maxIndices), s.rows)
       case Err => s
       case Ok(rows) => s.(rows := rows, cap := DefaultCap(maxIndices)))
    case DoRevoke(epoch, idx, at) =>
      (match Revoke(s.rows, s.revoked, epoch, idx, at)
       case Err => s
       case Ok(revoked) => s.(revoked := revoked))
  }

  /** A database created by opening a store with `maxIndices`, then any operations. */
  ghost function Run(b: Backend, maxIndices: nat, ops: seq<Op>): System {
    if ops == [] then
      System(map[1 := FreshRow(DefaultCap(maxIndices))], map[], DefaultCap(maxIndices), [], [])
    else Step(b, Run(b, maxIndices, ops[..|ops| - 1]), ops[|ops| - 1])
  }

  /** The expiries handed out in one epoch, in order. */
  function ExpiriesIn(handed: seq<Handed>, epoch: nat): seq<int> {
    if handed == [] then []
    else
      var init, h := ExpiriesIn(handed[..|handed| - 1], epoch), handed[|handed| - 1];
      if h.epoch == epoch then init + [h.exp] else init
  }

  function Recorded(b: Backend, exps: seq<int>): Option<int> {
    if exps == [] then None else NewLast(b, Recorded(b, exps[..|exps| - 1]), exps[|exps| - 1])
  }

  /** Epochs are numbered 1..n without gaps, n is open, and no epoch hands out more than its cap. */
  ghost predicate Gapless(rows: Rows, n: nat) {
    && n >= 1
    && (forall e :: e in rows <==> 1 <= e <= n)
    && rows[n].closed.None?
    && forall e :: e in rows ==> 1 <= rows[e].cap && rows[e].next <= rows[e].cap
  }

  /** A closed epoch's column holds the time it was closed at. */
  ghost predicate ClosesMatch(b: Backend, rows: Rows, closes: seq<int>, n: nat) {
    |closes| == n - 1 && forall e :: 1 <= e < n ==> e in rows && rows[e].closed == Column(b, closes[e - 1])
  }

  /** Each epoch's counters summarise what was handed out in it. */
  ghost predicate RowMatches(b: Backend, row: Row, exps: seq<int>) {
    row.next == |exps| && row.last == Recorded(b, exps)
  }

  ghost predicate RowsMatch(b: Backend, rows: Rows, handed: seq<Handed>) {
    forall e :: e in rows ==> RowMatches(b, rows[e], ExpiriesIn(handed, e))
  }

  /** The k-th index handed out in an epoch is k. */
  ghost predicate InOrder(handed: seq<Handed>, n: nat) {
    forall p :: 0 <= p < |handed| ==>
      1 <= handed[p].epoch <= n && handed[p].idx == |ExpiriesIn(handed[..p], handed[p].epoch)|
  }

  ghost predicate RevokedInRange(rows: Rows, revoked: Revocations) {
    forall e, i :: (e, i) in revoked ==> e in rows && i < rows[e].cap
  }

  ghost predicate Inv(b: Backend, s: System, n: nat) {
    && s.cap >= 1
    && Gapless(s.rows, n)
    && ClosesMatch(b, s.rows, s.closes, n)
    && RowsMatch(b, s.rows, s.handed)
    && InOrder(s.handed, n)
    && RevokedInRange(s.rows, s.revoked)
  }

  lemma GaplessCurrent(rows: Rows, n: nat)
    requires Gapless(rows, n)
    ensures Current(rows) == Some(n)
  {
    CurrentIs(rows, n);
  }

  lemma ExpiriesSnoc(handed: seq<Handed>, h: Handed, epoch: nat)
    ensures ExpiriesIn(handed + [h], epoch) ==
            if h.epoch == epoch then ExpiriesIn(handed, epoch) + [h.exp] else ExpiriesIn(handed, epoch)
  {
    assert (handed + [h])[..|handed|] == handed;
  }

  lemma RecordedSnoc(b: Backend, exps: seq<int>, exp: int)
    ensures Recorded(b, exps + [exp]) == NewLast(b, Recorded(b, exps), exp)
  {
    assert (exps + [exp])[..|exps|] == exps;
  }

  lemma {:induction false} ExpiriesOfUnused(handed: seq<Handed>, epoch: nat)
    requires forall p :: 0 <= p < |handed| ==> handed[p].epoch != epoch
    ensures ExpiriesIn(handed, epoch) == []
  {
    if handed != [] { ExpiriesOfUnused(handed[..|handed| - 1], epoch); }
  }

  /** The system after epoch `n` was closed in favour of `n + 1`. */
  function RolledOver(b: Backend, s: System, n: nat, cap: nat, at: int): System
    requires n in s.rows
  {
    s.(rows := Rolled(b, s.rows, n, cap, at), closes := s.closes + [at])
  }

  /** The system after the next index of epoch `n` was handed out. */
  function HandedOut(b: Backend, s: System, n: nat, exp: int): System
    requires n in s.rows
  {
    var a := Allocated(b, s.rows, n, exp);
    s.(rows := a.rows, handed := s.handed + [Handed(a.epoch, a.idx, exp)])
  }

  lemma RollKeepsRows(b: Backend, rows: Rows, handed: seq<Handed>, n: nat, cap: nat, at: int)
    requires n in rows && n + 1 !in rows && RowsMatch(b, rows, handed) && ExpiriesIn(handed, n + 1) == []
    ensures RowsMatch(b, Rolled(b, rows, n, cap, at), handed)
  {
    var rolled := Rolled(b, rows, n, cap, at);
    forall e | e in rolled ensures RowMatches(b, rolled[e], ExpiriesIn(handed, e)) {
      if e != n + 1 { assert RowMatches(b, rows[e], ExpiriesIn(handed, e)); }
    }
  }

  lemma RollKeepsGaps(b: Backend, rows: Rows, closes: seq<int>, n: nat, cap: nat, at: int)
    requires Gapless(rows, n) && ClosesMatch(b, rows, closes, n) && cap >= 1
    ensures Gapless(Rolled(b, rows, n, cap, at), n + 1)
    ensures ClosesMatch(b, Rolled(b, rows, n, cap, at), closes + [at], n + 1)
  {
  }

  /** Rolling over keeps the invariant and leaves a fresh, empty highest epoch. */
  lemma RollKeepsInv(b: Backend, s: System, n: nat, cap: nat, at: int)
    requires Inv(b, s, n) && cap >= 1
    ensures Inv(b, RolledOver(b, s, n, cap, at), n + 1)
  {
    ExpiriesOfUnused(s.handed, n + 1);
    RollKeepsRows(b, s.rows, s.handed, n, cap, at);
    RollKeepsGaps(b, s.rows, s.closes, n, cap, at);
  }

  /** Handing out the next index of the open epoch keeps the invariant. */
  lemma HandOutKeepsInv(b: Backend, s: System, n: nat, exp: int)
    requires Inv(b, s, n) && s.rows[n].next < s.rows[n].cap
    ensures Inv(b, HandedOut(b, s, n, exp), n)
  {
    var a := Allocated(b, s.rows, n, exp);
    var h := Handed(a.epoch, a.idx, exp);
    assert RowMatches(b, s.rows[n], ExpiriesIn(s.handed, n));
    HandOutRows(b, s.rows, s.handed, n, exp);
    HandOutOrder(s.handed, h, n);
    assert Gapless(a.rows, n);
    assert ClosesMatch(b, a.rows, s.closes, n);
    assert RevokedInRange(a.rows, s.revoked);
  }

  lemma HandOutRow(b: Backend, row: Row, exps: seq<int>, exp: int)
    requires RowMatches(b, row, exps)
    ensures RowMatches(b, row.(next := row.next + 1, last := NewLast(b, row.last, exp)), exps + [exp])
  {
    RecordedSnoc(b, exps, exp);
  }

  lemma HandOutRowAt(b: Backend, rows: Rows, handed: seq<Handed>, n: nat, exp: int, h: Handed, e: nat)
    requires n in rows && e in rows && RowMatches(b, rows[e], ExpiriesIn(handed, e))
    requires h.epoch == n && h.exp == exp
    ensures RowMatches(b, Allocated(b, rows, n, exp).rows[e], ExpiriesIn(handed + [h], e))
  {
    ExpiriesSnoc(handed, h, e);
    if e == n { HandOutRow(b, rows[n], ExpiriesIn(handed, n), exp); }
  }

  lemma HandOutRows(b: Backend, rows: Rows, handed: seq<Handed>, n: nat, exp: int)
    requires RowsMatch(b, rows, handed) && n in rows
    ensures var a := Allocated(b, rows, n, exp); RowsMatch(b, a.rows, handed + [Handed(a.epoch, a.idx, exp)])
  {
    var a := Allocated(b, rows, n, exp);
    var h := Handed(a.epoch, a.idx, exp);
    forall e | e in a.rows ensures RowMatches(b, a.rows[e], ExpiriesIn(handed + [h], e)) {
      HandOutRowAt(b, rows, handed, n, exp, h, e);
    }
  }

  lemma HandOutOrder(handed: seq<Handed>, h: Handed, n: nat)
    requires InOrder(handed, n) && 1 <= h.epoch <= n && h.idx == |ExpiriesIn(handed, h.epoch)|
    ensures InOrder(handed + [h], n)
  {
    var all := handed + [h];
    forall p | 0 <= p < |all|
      ensures 1 <= all[p].epoch <= n && all[p].idx == |ExpiriesIn(all[..p], all[p].epoch)|
    {
      assert all[..p] == handed[..p];
      if p == |handed| { assert handed[..p] == handed; }
    }
  }

  lemma AllocateKeepsInv(b: Backend, s: System, n: nat, exp: int, now: int) returns (n': nat)
    requires Inv(b, s, n)
    ensures Inv(b, Step(b, s, DoAllocate(exp, now)), n')
  {
    GaplessCurrent(s.rows, n);
    AllocateOutcome(b, s, n, exp, now);
    n' := n;
    if exp != ZERO_TIME {
      if s.rows[n].next < s.rows[n].cap {
        HandOutKeepsInv(b, s, n, exp);
      } else {
        n' := n + 1;
        RollKeepsInv(b, s, n, s.cap, now);
        HandOutKeepsInv(b, RolledOver(b, s, n, s.cap, now), n + 1, exp);
      }
    }
  }

  /** Allocation either fails, hands out of the current epoch, or rolls over first. */
  lemma AllocateOutcome(b: Backend, s: System, n: nat, exp: int, now: int)
    requires Current(s.rows) == Some(n) && n in s.rows && n + 1 !in s.rows
    ensures Step(b, s, DoAllocate(exp, now)) ==
            if exp == ZERO_TIME then s
            else if s.rows[n].next < s.rows[n].cap then HandedOut(b, s, n, exp)
            else HandedOut(b, RolledOver(b, s, n, s.cap, now), n + 1, exp)
  {
  }

  lemma StepKeepsInv(b: Backend, s: System, n: nat, op: Op) returns (n': nat)
    requires Inv(b, s, n)
    ensures Inv(b, Step(b, s, op), n')
  {
    GaplessCurrent(s.rows, n);
    n' := n;
    match op
    case DoAllocate(exp, now) => n' := AllocateKeepsInv(b, s, n, exp, now);
    case DoRotate(maxIndices, at) =>
      n' := n + 1;
      RollKeepsInv(b, s, n, if maxIndices == 0 then s.cap else maxIndices, at);
    case DoRestart(maxIndices) => assert IsOpen(s.rows, n);
    case DoRevoke(epoch, idx, at) =>
  }

  lemma {:induction false} RunKeepsInv(b: Backend, maxIndices: nat, ops: seq<Op>) returns (n: nat)
    ensures Inv(b, Run(b, maxIndices, ops), n)
  {
    if ops == [] {
      n := 1;
    } else {
      var m := RunKeepsInv(b, maxIndices, ops[..|ops| - 1]);
      n := StepKeepsInv(b, Run(b, maxIndices, ops[..|ops| - 1]), m, ops[|ops| - 1]);
    }
  }

  // ------------------------------------------------------------- theorems

  lemma {:induction false} ExpiriesGrow(handed: seq<Handed>, p: nat, q: nat)
    requires p < q <= |handed|
    ensures |ExpiriesIn(handed[..p], handed[p].epoch)| < |ExpiriesIn(handed[..q], handed[p].epoch)|
  {
    ExpiriesSnoc(handed[..q - 1], handed[q - 1], handed[p].epoch);
    assert handed[..q - 1] + [handed[q - 1]] == handed[..q];
    if p < q - 1 { ExpiriesGrow(handed, p, q - 1); }
  }

  /** In every run no (epoch, idx) is handed out twice, and every idx lies below its epoch's cap. */
  lemma NoIndexTwice(b: Backend, maxIndices: nat, ops: seq<Op>, p: nat, q: nat)
    requires p < q < |Run(b, maxIndices, ops).handed|
    ensures var s := Run(b, maxIndices, ops);
            && (s.handed[p].epoch, s.handed[p].idx) != (s.handed[q].epoch, s.handed[q].idx)
            && InRange(s, p) && InRange(s, q)
  {
    var s := Run(b, maxIndices, ops);
    var n := RunKeepsInv(b, maxIndices, ops);
    ExpiriesGrow(s.handed, p, q);
    HandedInRange(b, s, n, p);
    HandedInRange(b, s, n, q);
  }

  ghost predicate InRange(s: System, p: nat)
    requires p < |s.handed|
  {
    s.handed[p].epoch in s.rows && s.handed[p].idx < s.rows[s.handed[p].epoch].cap
  }

  lemma HandedInRange(b: Backend, s: System, n: nat, p: nat)
    requires Inv(b, s, n) && p < |s.handed|
    ensures InRange(s, p)
  {
    ExpiriesGrow(s.handed, p, |s.handed|);
    assert s.handed[..|s.handed|] == s.handed;
    assert RowMatches(b, s.rows[s.handed[p].epoch], ExpiriesIn(s.handed, s.handed[p].epoch));
  }

  /**
   Epochs are gapless and the highest is open.  It is the only open one exactly when the store is
   Postgres or no epoch was ever closed at Unix time 0, which SQLite's column reads as "still open".
   */
  lemma OnlyHighestIsOpen(b: Backend, maxIndices: nat, ops: seq<Op>) returns (n: nat)
    ensures var s := Run(b, maxIndices, ops);
            && Gapless(s.rows, n)
            && ((forall m: nat :: IsOpen(s.rows, m) ==> m == n) <==> b.Postgres? || 0 !in s.closes)
  {
    var s := Run(b, maxIndices, ops);
    n := RunKeepsInv(b, maxIndices, ops);
    if b.Sqlite? && 0 in s.closes {
      var i :| 0 <= i < |s.closes| && s.closes[i] == 0;
      assert IsOpen(s.rows, i + 1);
    }
  }

  /** The concrete case: rotating a SQLite store at Unix time 0 leaves two epochs open. */
  lemma RotatingAtTimeZeroLeavesTwoOpen()
    ensures var s := Run(Sqlite, 8, [DoRotate(8, 0)]); IsOpen(s.rows, 1) && IsOpen(s.rows, 2)
  {
    var ops := [DoRotate(8, 0)];
    assert ops[..0] == [];
    var s0 := Run(Sqlite, 8, []);
    CurrentIs(s0.rows, 1);
    assert Run(Sqlite, 8, ops) == Step(Sqlite, s0, ops[0]);
  }

  function Max(xs: seq<int>): int
    requires xs != []
  {
    if |xs| == 1 then xs[0]
    else
      var m, x := Max(xs[..|xs| - 1]), xs[|xs| - 1];
      if x > m then x else m
  }

  lemma {:induction false} MaxIsGreatest(xs: seq<int>)
    requires xs != []
    ensures Max(xs) in xs && forall x :: x in xs ==> x <= Max(xs)
  {
    if |xs| > 1 {
      MaxIsGreatest(xs[..|xs| - 1]);
      assert xs == xs[..|xs| - 1] + [xs[|xs| - 1]];
    }
  }

  /** Postgres records the maximum of all expiries. */
  lemma {:induction false} PostgresRecordsMax(exps: seq<int>)
    requires exps != []
    ensures Recorded(Postgres, exps) == Some(Max(exps))
  {
    if |exps| > 1 { PostgresRecordsMax(exps[..|exps| - 1]); }
  }

  /** The integer in SQLite's column. */
  function ColumnValue(last: Option<int>): int { if last.Some? then last.value else 0 }

  /** What SQLite's column holds: the maximum, unless a 0 was overwritten or everything predates year 1. */
  lemma {:induction false} SqliteRecords(exps: seq<int>)
    requires exps != []
    ensures var recorded := ColumnValue(Recorded(Sqlite, exps));
            if Max(exps) == 0 then recorded <= 0 && (recorded == 0 <==> exps[|exps| - 1] == 0)
            else recorded == if Max(exps) > ZERO_TIME then Max(exps) else ZERO_TIME
  {
    if |exps| > 1 { SqliteRecords(exps[..|exps| - 1]); }
  }

  /**
   In every run the recorded last expiry of an epoch is the maximum of the expiries handed out in it,
   always for Postgres; for SQLite if and only if that maximum is not before Go's zero time and, when
   it is exactly 0, the last allocation was the one that expires at 0.
   */
  lemma LastExpiryIsMax(b: Backend, maxIndices: nat, ops: seq<Op>, e: nat)
    requires e in Run(b, maxIndices, ops).rows && ExpiriesIn(Run(b, maxIndices, ops).handed, e) != []
    ensures var s := Run(b, maxIndices, ops);
            var exps := ExpiriesIn(s.handed, e);
            ColumnValue(s.rows[e].last) == Max(exps) <==>
              b.Postgres? || (Max(exps) >= ZERO_TIME && (Max(exps) == 0 ==> exps[|exps| - 1] == 0))
  {
    var s := Run(b, maxIndices, ops);
    var n := RunKeepsInv(b, maxIndices, ops);
    var exps := ExpiriesIn(s.handed, e);
    assert RowMatches(b, s.rows[e], exps);
    if b.Postgres? { PostgresRecordsMax(exps); } else { SqliteRecords(exps); }
  }

  /** Credentials that expire after 1970 keep SQLite's record exact. */
  lemma PositiveExpiriesAreRecorded(b: Backend, maxIndices: nat, ops: seq<Op>, e: nat)
    requires e in Run(b, maxIndices, ops).rows && ExpiriesIn(Run(b, maxIndices, ops).handed, e) != []
    requires forall x :: x in ExpiriesIn(Run(b, maxIndices, ops).handed, e) ==> x > 0
    ensures ColumnValue(Run(b, maxIndices, ops).rows[e].last) == Max(ExpiriesIn(Run(b, maxIndices, ops).handed, e))
  {
    LastExpiryIsMax(b, maxIndices, ops, e);
    MaxIsGreatest(ExpiriesIn(Run(b, maxIndices, ops).handed, e));
  }

  // ----------------------------------------------------------- revocation

  ghost predicate RevokeSucceeds(b: Backend, maxIndices: nat, ops: seq<Op>, k: nat, epoch: nat, idx: nat)
    requires k < |ops|
  {
    && ops[k].DoRevoke? && ops[k].epoch == epoch && ops[k].idx == idx
    && var s := Run(b, maxIndices, ops[..k]); Revoke(s.rows, s.revoked, epoch, idx, ops[k].at).Ok?
  }

  /** The table holds exactly the pairs some earlier SetRevoked succeeded for; nothing ever leaves it. */
  lemma {:induction false} RevokedIffRevokeSucceeded(b: Backend, maxIndices: nat, ops: seq<Op>, epoch: nat, idx: nat)
    ensures (epoch, idx) in Run(b, maxIndices, ops).revoked <==>
            exists k :: 0 <= k < |ops| && RevokeSucceeds(b, maxIndices, ops, k, epoch, idx)
  {
    if ops != [] {
      var last := |ops| - 1;
      var init := ops[..last];
      RevokedIffRevokeSucceeded(b, maxIndices, init, epoch, idx);
      forall k | 0 <= k < last
        ensures RevokeSucceeds(b, maxIndices, ops, k, epoch, idx) == RevokeSucceeds(b, maxIndices, init, k, epoch, idx)
      {
        assert init[..k] == ops[..k];
      }
      var was := exists k :: 0 <= k < last && RevokeSucceeds(b, maxIndices, init, k, epoch, idx);
      if was {
        var k :| 0 <= k < last && RevokeSucceeds(b, maxIndices, init, k, epoch, idx);
        assert RevokeSucceeds(b, maxIndices, ops, k, epoch, idx);
      }
      StepRevokes(b, Run(b, maxIndices, init), ops[last], epoch, idx);
      assert RevokeSucceeds(b, maxIndices, ops, last, epoch, idx) ==
             Revokes(Run(b, maxIndices, init), ops[last], epoch, idx);
    }
  }

  ghost predicate Revokes(s: System, op: Op, epoch: nat, idx: nat) {
    op.DoRevoke? && op.epoch == epoch && op.idx == idx && Revoke(s.rows, s.revoked, epoch, idx, op.at).Ok?
  }

  lemma StepRevokes(b: Backend, s: System, op: Op, epoch: nat, idx: nat)
    ensures (epoch, idx) in Step(b, s, op).revoked <==> (epoch, idx) in s.revoked || Revokes(s, op, epoch, idx)
  {
  }

  /** Whatever follows, a revoked index stays revoked. */
  lemma {:induction false} RevokedNeverClears(b: Backend, maxIndices: nat, ops: seq<Op>, more: seq<Op>)
    ensures Run(b, maxIndices, ops).revoked.Keys <= Run(b, maxIndices, ops + more).revoked.Keys
  {
    if more == [] {
      assert ops + more == ops;
    } else {
      var init := more[..|more| - 1];
      RevokedNeverClears(b, maxIndices, ops, init);
      assert (ops + more)[..|ops + more| - 1] == ops + init;
    }
  }

  /** `bits` is the status list of an epoch: one bit per index, padded to whole bytes. */
  ghost predicate Renders(rows: Rows, revoked: Revocations, epoch: nat, bits: seq<Octet>) {
    && epoch in rows
    && |bits| == (rows[epoch].cap + 7) / 8
    && forall i :: 0 <= i < 8 * |bits| ==> (Bit(bits, i) <==> i < rows[epoch].cap && (epoch, i) in revoked)
  }

  /**
   End to end: in every reachable state the verifier's answer for an index is exactly whether a
   revocation of it succeeded; padding bits are zero; and every index handed out is in range.
   */
  lemma RevocationIsExact(b: Backend, maxIndices: nat, ops: seq<Op>, epoch: nat, bits: seq<Octet>, idx: nat)
    requires Renders(Run(b, maxIndices, ops).rows, Run(b, maxIndices, ops).revoked, epoch, bits)
    ensures var s := Run(b, maxIndices, ops);
            && (idx < s.rows[epoch].cap ==> IsRevoked(FromRaw(bits), idx) == Ok((epoch, idx) in s.revoked))
            && ((epoch, idx) in s.revoked <==>
                exists k :: 0 <= k < |ops| && RevokeSucceeds(b, maxIndices, ops, k, epoch, idx))
            && (s.rows[epoch].cap <= idx < 8 * |bits| ==> IsRevoked(FromRaw(bits), idx) == Ok(false))
            && (8 * |bits| <= idx ==> IsRevoked(FromRaw(bits), idx) == Err)
            && (WasHanded(s, epoch, idx) ==> IsRevoked(FromRaw(bits), idx).Ok?)
  {
    var s := Run(b, maxIndices, ops);
    RevokedIffRevokeSucceeded(b, maxIndices, ops, epoch, idx);
    if WasHanded(s, epoch, idx) {
      var n := RunKeepsInv(b, maxIndices, ops);
      var p :| 0 <= p < |s.handed| && s.handed[p].epoch == epoch && s.handed[p].idx == idx;
      HandedInRange(b, s, n, p);
    }
  }

  ghost predicate WasHanded(s: System, epoch: nat, idx: nat) {
    exists p :: 0 <= p < |s.handed| && s.handed[p].epoch == epoch && s.handed[p].idx == idx
  }

  // --------------------------------------- what each operation does in a run

  lemma RunSnoc(b: Backend, maxIndices: nat, ops: seq<Op>, op: Op)
    ensures Run(b, maxIndices, ops + [op]) == Step(b, Run(b, maxIndices, ops), op)
  {
    assert (ops + [op])[..|ops|] == ops;
  }

  /** A new database has one open epoch; its cap is the one asked for, or 131072. */
  lemma FirstEpoch(b: Backend, maxIndices: nat)
    ensures var s := Run(b, maxIndices, []);
            && s.cap == (if maxIndices == 0 then 131072 else maxIndices)
            && s.rows == map[1 := Row(s.cap, 0, None, None)] && s.revoked == map[] && s.handed == []
            && EnsureCurrent(s.cap, map[]) == Ok(s.rows)
  {
  }

  /** Opening a database leaves one with an open epoch alone, gives an epoch 1 to one without, and fails if 1 is closed. */
  lemma OpeningIs(cap: nat, rows: Rows)
    ensures (exists n :: n in rows && rows[n].closed == None) ==> EnsureCurrent(cap, rows) == Ok(rows)
    ensures (forall n :: n in rows ==> rows[n].closed != None) ==>
              EnsureCurrent(cap, rows) == if 1 in rows then Err else Ok(rows[1 := Row(cap, 0, None, None)])
  {
    if n :| n in rows && rows[n].closed == None { assert IsOpen(rows, n); }
  }

  /** What an allocation makes of a system whose highest epoch is `n`. */
  ghost predicate Hands(s: System, s': System, n: nat, exp: int, now: int)
    requires n in s.rows
  {
    var used := |ExpiriesIn(s.handed, n)|;
    if exp == -62135596800 then s' == s
    else if used < s.rows[n].cap then
      s'.handed == s.handed + [Handed(n, used, exp)] && s'.rows.Keys == s.rows.Keys && s'.closes == s.closes
    else
      && s'.handed == s.handed + [Handed(n + 1, 0, exp)] && s'.rows.Keys == s.rows.Keys + {n + 1}
      && s'.rows[n + 1].cap == s.cap && s'.closes == s.closes + [now]
  }

  ghost predicate KeepsCaps(s: System, s': System) {
    && s'.revoked == s.revoked && s'.cap == s.cap
    && forall e :: e in s.rows ==> e in s'.rows && s'.rows[e].cap == s.rows[e].cap
  }

  lemma AllocationStep(b: Backend, s: System, s': System, n: nat, exp: int, now: int)
    requires Current(s.rows) == Some(n) && n in s.rows && n + 1 !in s.rows && s.rows[n].next == |ExpiriesIn(s.handed, n)|
    requires s' == Step(b, s, DoAllocate(exp, now))
    ensures Hands(s, s', n, exp, now) && KeepsCaps(s, s')
  {
    AllocateOutcome(b, s, n, exp, now);
  }

  /**
   In every run an allocation succeeds unless the expiry is Go's zero time.  It hands out the index
   after those handed out of the highest epoch; when that is exhausted, the first index of the next.
   */
  lemma AllocationInRun(b: Backend, maxIndices: nat, ops: seq<Op>, exp: int, now: int) returns (n: nat)
    ensures Gapless(Run(b, maxIndices, ops).rows, n)
    ensures Hands(Run(b, maxIndices, ops), Run(b, maxIndices, ops + [DoAllocate(exp, now)]), n, exp, now)
    ensures KeepsCaps(Run(b, maxIndices, ops), Run(b, maxIndices, ops + [DoAllocate(exp, now)]))
  {
    n := RunKeepsInv(b, maxIndices, ops);
    var s := Run(b, maxIndices, ops);
    GaplessCurrent(s.rows, n);
    assert RowMatches(b, s.rows[n], ExpiriesIn(s.handed, n));
    RunSnoc(b, maxIndices, ops, DoAllocate(exp, now));
    AllocationStep(b, s, Run(b, maxIndices, ops + [DoAllocate(exp, now)]), n, exp, now);
  }

  /** In every run a rotation succeeds: it closes the highest epoch and opens the next, with the cap asked for. */
  lemma RotationInRun(b: Backend, maxIndices: nat, ops: seq<Op>, cap: nat, at: int) returns (n: nat)
    ensures var s, s' := Run(b, maxIndices, ops), Run(b, maxIndices, ops + [DoRotate(cap, at)]);
            && Gapless(s.rows, n)
            && s'.rows.Keys == s.rows.Keys + {n + 1}
            && s'.rows[n + 1] == Row(if cap == 0 then s.cap else cap, 0, None, None)
            && s'.rows[n] == s.rows[n].(closed := if b.Sqlite? && at == 0 then None else Some(at))
            && (forall e :: e in s.rows && e != n ==> s'.rows[e] == s.rows[e])
            && s'.closes == s.closes + [at]
            && s'.handed == s.handed && s'.revoked == s.revoked && s'.cap == s.cap
  {
    n := RunKeepsInv(b, maxIndices, ops);
    RunSnoc(b, maxIndices, ops, DoRotate(cap, at));
    GaplessCurrent(Run(b, maxIndices, ops).rows, n);
  }

  /** In every run a restart changes the default cap and nothing else. */
  lemma RestartInRun(b: Backend, maxIndices: nat, ops: seq<Op>, cap: nat)
    ensures Run(b, maxIndices, ops + [DoRestart(cap)])
         == Run(b, maxIndices, ops).(cap := if cap == 0 then 131072 else cap)
  {
    var n := RunKeepsInv(b, maxIndices, ops);
    RunSnoc(b, maxIndices, ops, DoRestart(cap));
    assert IsOpen(Run(b, maxIndices, ops).rows, n);
  }

  /**
   In every run SetRevoked succeeds if and only if the epoch exists and the index is below its cap,
   open or closed, handed out or not; the first time stays on record, and no other index is touched.
   */
  lemma RevocationInRun(b: Backend, maxIndices: nat, ops: seq<Op>, epoch: nat, idx: nat, at: int)
    ensures var s, s' := Run(b, maxIndices, ops), Run(b, maxIndices, ops + [DoRevoke(epoch, idx, at)]);
            && s'.rows == s.rows && s'.handed == s.handed && s'.cap == s.cap
            && (RevokeSucceeds(b, maxIndices, ops + [DoRevoke(epoch, idx, at)], |ops|, epoch, idx) <==>
                  epoch in s.rows && idx < s.rows[epoch].cap)
            && s'.revoked == if epoch in s.rows && idx < s.rows[epoch].cap && (epoch, idx) !in s.revoked
                             then s.revoked[(epoch, idx) := at] else s.revoked
  {
    RunSnoc(b, maxIndices, ops, DoRevoke(epoch, idx, at));
    assert (ops + [DoRevoke(epoch, idx, at)])[..|ops|] == ops;
  }

  /** Any index ever handed out can be revoked, whatever happened since. */
  lemma HandedCanBeRevoked(b: Backend, maxIndices: nat, ops: seq<Op>, more: seq<Op>, epoch: nat, idx: nat, at: int)
    requires WasHanded(Run(b, maxIndices, ops), epoch, idx)
    ensures (epoch, idx) in Run(b, maxIndices, ops + more + [DoRevoke(epoch, idx, at)]).revoked
  {
    HandedForever(b, maxIndices, ops, more, epoch, idx);
    var s := Run(b, maxIndices, ops + more);
    var n := RunKeepsInv(b, maxIndices, ops + more);
    var p :| 0 <= p < |s.handed| && s.handed[p].epoch == epoch && s.handed[p].idx == idx;
    HandedInRange(b, s, n, p);
    RevocationInRun(b, maxIndices, ops + more, epoch, idx, at);
    if (epoch, idx) !in s.revoked { assert (epoch, idx) in s.revoked[(epoch, idx) := at]; }
  }

  lemma {:induction false} HandedForever(b: Backend, maxIndices: nat, ops: seq<Op>, more: seq<Op>, epoch: nat, idx: nat)
    requires WasHanded(Run(b, maxIndices, ops), epoch, idx)
    ensures WasHanded(Run(b, maxIndices, ops + more), epoch, idx)
  {
    if more == [] {
      assert ops + more == ops;
    } else {
      var init, op := more[..|more| - 1], more[|more| - 1];
      HandedForever(b, maxIndices, ops, init, epoch, idx);
      assert ops + more == ops + init + [op];
      RunSnoc(b, maxIndices, ops + init, op);
      var s := Run(b, maxIndices, ops + init);
      var p :| 0 <= p < |s.handed| && s.handed[p].epoch == epoch && s.handed[p].idx == idx;
      assert Step(b, s, op).handed[p] == s.handed[p];
    }
  }
}
