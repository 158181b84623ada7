/** The two stores as the sources write them, each proved to perform the transactions of `Epochs`. */
module EpochStores {
  import opened JsonValue
  import opened StatusList
  import opened Epochs

  // ---------------------------------------------------------------- SQLite

  /** A row of `issuer_epochs`; 0 in a time column means absent. */
  datatype SqliteEpoch = SqliteEpoch(maxIndices: nat, nextIdx: nat, closedAt: int, lastExpiry: int)

  function ReadColumn(x: int): Option<int> { if x == 0 then None else Some(x) }

  function ReadRow(e: SqliteEpoch): Row {
    Row(e.maxIndices, e.nextIdx, ReadColumn(e.closedAt), ReadColumn(e.lastExpiry))
  }

  function ReadRows(epochs: map<nat, SqliteEpoch>): Rows { map n | n in epochs :: ReadRow(epochs[n]) }

  lemma ReadRowsUpdate(epochs: map<nat, SqliteEpoch>, n: nat, e: SqliteEpoch)
    ensures ReadRows(epochs[n := e]) == ReadRows(epochs)[n := ReadRow(e)]
  {
  }

  /** The number of the epoch that a rotation opens. */
  ghost function NextEpoch(rows: Rows): nat { if Current(rows).Some? then Current(rows).value + 1 else 1 }

  class SqliteStore {
    var epochs: map<nat, SqliteEpoch>
    var revocations: Revocations
    const maxIndices: nat

    ghost function Rows(): Rows
      reads this
    {
      ReadRows(epochs)
    }

    constructor (epochs: map<nat, SqliteEpoch>, revocations: Revocations, maxIndices: nat)
      ensures this.epochs == epochs && this.revocations == revocations && this.maxIndices == maxIndices
    {
      this.epochs, this.revocations, this.maxIndices := epochs, revocations, maxIndices;
    }

    /** `Open` on a database, new or old: the bootstrap epoch is inserted when no epoch is open. */
    static method Open(epochs: map<nat, SqliteEpoch>, revocations: Revocations, maxIndices: nat)
      returns (r: Result<SqliteStore>)
      ensures match EnsureCurrent(DefaultCap(maxIndices), ReadRows(epochs))
              case Err => r.Err?
              case Ok(rows) =>
                && r.Ok? && fresh(r.value) && r.value.Rows() == rows
                && r.value.revocations == revocations && r.value.maxIndices == DefaultCap(maxIndices)
    {
      var cap := if maxIndices == 0 then DEFAULT_MAX_INDICES else maxIndices;
      var open := set n | n in epochs && epochs[n].closedAt == 0;
      ghost var rows := ReadRows(epochs);
      assert forall n: nat :: n in open <==> IsOpen(rows, n);
      if open != {} {
        var n :| n in open;
        assert IsOpen(rows, n);
        var store := new SqliteStore(epochs, revocations, cap);
        return Ok(store);
      }
      if 1 in epochs { return Err; }
      var store := new SqliteStore(epochs[1 := SqliteEpoch(cap, 0, 0, 0)], revocations, cap);
      ReadRowsUpdate(epochs, 1, SqliteEpoch(cap, 0, 0, 0));
      return Ok(store);
    }

    method CurrentEpoch() returns (current: Option<nat>)
      ensures current == Current(Rows())
    {
      var open := set n | n in epochs && epochs[n].closedAt == 0;
      assert forall n: nat :: n in open <==> IsOpen(Rows(), n);
      if open == {} { return None; }
      MaxExists(open);
      var n :| n in open && forall m :: m in open ==> m <= n;
      CurrentIs(Rows(), n);
      return Some(n);
    }

    method RotateEpoch(maxIndices: nat, at: int) returns (r: Result<nat>)
      modifies this`epochs
      ensures match Rotate(Sqlite, this.maxIndices, old(Rows()), maxIndices, at)
              case Err => r.Err? && epochs == old(epochs)
              case Ok(rows) => r == Ok(NextEpoch(old(Rows()))) && Rows() == rows
    {
      var cap := if maxIndices == 0 then this.maxIndices else maxIndices;
      var current := CurrentEpoch();
      var next := if current.Some? then current.value + 1 else 1;
      if next in epochs { return Err; }
      if current.Some? {
        var n := current.value;
        ReadRowsUpdate(epochs, n, epochs[n].(closedAt := at));
        epochs := epochs[n := epochs[n].(closedAt := at)];
      }
      ReadRowsUpdate(epochs, next, SqliteEpoch(cap, 0, 0, 0));
      epochs := epochs[next := SqliteEpoch(cap, 0, 0, 0)];
      return Ok(next);
    }

    method AllocateIndex(exp: int, now: int) returns (r: Result<(nat, nat)>)
      modifies this`epochs
      ensures match Allocate(Sqlite, this.maxIndices, old(Rows()), exp, now)
              case Err => r.Err? && epochs == old(epochs)
              case Ok(a) => r == Ok((a.epoch, a.idx)) && Rows() == a.rows
    {
      if exp == ZERO_TIME { return Err; }
      var current := CurrentEpoch();
      if current.None? { return Err; }
      var n := current.value;
      if epochs[n].nextIdx >= epochs[n].maxIndices {
        if n + 1 in epochs { return Err; }
        ReadRowsUpdate(epochs, n, epochs[n].(closedAt := now));
        epochs := epochs[n := epochs[n].(closedAt := now)];
        ReadRowsUpdate(epochs, n + 1, SqliteEpoch(maxIndices, 0, 0, 0));
        epochs := epochs[n + 1 := SqliteEpoch(maxIndices, 0, 0, 0)];
        n := n + 1;
      }
      var e := epochs[n];
      var last := if e.lastExpiry != 0 then e.lastExpiry else ZERO_TIME;
      var newLast := if exp > last then exp else last;
      ReadRowsUpdate(epochs, n, e.(nextIdx := e.nextIdx + 1, lastExpiry := newLast));
      epochs := epochs[n := e.(nextIdx := e.nextIdx + 1, lastExpiry := newLast)];
      return Ok((n, e.nextIdx));
    }

    method SetRevoked(epoch: nat, idx: nat, at: int) returns (ok: bool)
      modifies this`revocations
      ensures match Revoke(Rows(), old(revocations), epoch, idx, at)
              case Err => !ok && revocations == old(revocations)
              case Ok(revoked) => ok && revocations == revoked
    {
      if epoch !in epochs || idx >= epochs[epoch].maxIndices { return false; }
      if (epoch, idx) !in revocations { revocations := revocations[(epoch, idx) := at]; }
      return true;
    }

    method LoadStatusBits(epoch: nat) returns (r: Result<(seq<Octet>, int)>)
      ensures r.Ok? <==> epoch in epochs
      ensures r.Ok? ==> Renders(Rows(), revocations, epoch, r.value.0)
      ensures r.Ok? ==> IsLatest(revocations, epoch, epochs[epoch].maxIndices, r.value.1)
    {
      if epoch !in epochs { return Err; }
      var bits, latest := RenderBits(epoch, epochs[epoch].maxIndices, revocations);
      return Ok((bits, latest));
    }
  }

  // -------------------------------------------------------------- Postgres

  class PgStore {
    var epochs: Rows
    var revocations: Revocations
    const maxIndices: nat

    constructor (epochs: Rows, revocations: Revocations, maxIndices: nat)
      ensures this.epochs == epochs && this.revocations == revocations && this.maxIndices == maxIndices
    {
      this.epochs, this.revocations, this.maxIndices := epochs, revocations, maxIndices;
    }

    static method Open(epochs: Rows, revocations: Revocations, maxIndices: nat) returns (r: Result<PgStore>)
      ensures match EnsureCurrent(DefaultCap(maxIndices), epochs)
              case Err => r.Err?
              case Ok(rows) =>
                && r.Ok? && fresh(r.value) && r.value.epochs == rows
                && r.value.revocations == revocations && r.value.maxIndices == DefaultCap(maxIndices)
    {
      var cap := if maxIndices == 0 then DEFAULT_MAX_INDICES else maxIndices;
      var open := set n | n in epochs && epochs[n].closed.None?;
      assert forall n: nat :: n in open <==> IsOpen(epochs, n);
      if open != {} {
        var n :| n in open;
        assert IsOpen(epochs, n);
        var store := new PgStore(epochs, revocations, cap);
        return Ok(store);
      }
      if 1 in epochs { return Err; }
      var store := new PgStore(epochs[1 := Row(cap, 0, None, None)], revocations, cap);
      return Ok(store);
    }

    method CurrentEpoch() returns (current: Option<nat>)
      ensures current == Current(epochs)
    {
      var open := set n | n in epochs && epochs[n].closed.None?;
      assert forall n: nat :: n in open <==> IsOpen(epochs, n);
      if open == {} { return None; }
      MaxExists(open);
      var n :| n in open && forall m :: m in open ==> m <= n;
      CurrentIs(epochs, n);
      return Some(n);
    }

    method RotateEpoch(maxIndices: nat, at: int) returns (r: Result<nat>)
      modifies this`epochs
      ensures match Rotate(Postgres, this.maxIndices, old(epochs), maxIndices, at)
              case Err => r.Err? && epochs == old(epochs)
              case Ok(rows) => r == Ok(NextEpoch(old(epochs))) && epochs == rows
    {
      var cap := if maxIndices == 0 then this.maxIndices else maxIndices;
      var current := CurrentEpoch();
      var next := if current.Some? then current.value + 1 else 1;
      if next in epochs { return Err; }
      if current.Some? {
        var n := current.value;
        epochs := epochs[n := epochs[n].(closed := Some(at))];
      }
      epochs := epochs[next := Row(cap, 0, None, None)];
      return Ok(next);
    }

    method AllocateIndex(exp: int, now: int) returns (r: Result<(nat, nat)>)
      modifies this`epochs
      ensures match Allocate(Postgres, this.maxIndices, old(epochs), exp, now)
              case Err => r.Err? && epochs == old(epochs)
              case Ok(a) => r == Ok((a.epoch, a.idx)) && epochs == a.rows
    {
      if exp == ZERO_TIME { return Err; }
      var current := CurrentEpoch();
      if current.None? { return Err; }
      var n := current.value;
      if epochs[n].next >= epochs[n].cap {
        if n + 1 in epochs { return Err; }
        epochs := epochs[n := epochs[n].(closed := Some(now))];
        epochs := epochs[n + 1 := Row(maxIndices, 0, None, None)];
        n := n + 1;
      }
      var e := epochs[n];
      var last := exp;
      if e.last.Some? && e.last.value > exp { last := e.last.value; }
      epochs := epochs[n := e.(next := e.next + 1, last := Some(last))];
      return Ok((n, e.next));
    }

    method SetRevoked(epoch: nat, idx: nat, at: int) returns (ok: bool)
      modifies this`revocations
      ensures match Revoke(epochs, old(revocations), epoch, idx, at)
              case Err => !ok && revocations == old(revocations)
              case Ok(revoked) => ok && revocations == revoked
    {
      if epoch !in epochs || idx >= epochs[epoch].cap { return false; }
      if (epoch, idx) !in revocations { revocations := revocations[(epoch, idx) := at]; }
      return true;
    }

    method LoadStatusBits(epoch: nat) returns (r: Result<(seq<Octet>, int)>)
      ensures r.Ok? <==> epoch in epochs
      ensures r.Ok? ==> Renders(epochs, revocations, epoch, r.value.0)
      ensures r.Ok? ==> IsLatest(revocations, epoch, epochs[epoch].cap, r.value.1)
    {
      if epoch !in epochs { return Err; }
      var bits, latest := RenderBits(epoch, epochs[epoch].cap, revocations);
      return Ok((bits, latest));
    }
  }

  // ---------------------------------------------------------------- shared

  lemma {:induction false} MaxExists(s: set<nat>)
    requires s != {}
    ensures exists n :: n in s && forall m :: m in s ==> m <= n
    decreases |s|
  {
    var x :| x in s;
    var rest := s - {x};
    assert forall m :: m in s ==> m in rest || m == x;
    if rest != {} {
      assert |rest| < |s|;
      MaxExists(rest);
      var n :| n in rest && forall m :: m in rest ==> m <= n;
      var top := if x > n then x else n;
      assert top in s;
    }
  }

  /** The newest revocation among the rows rendered, or Go's zero time when there is none after it. */
  ghost predicate IsLatest(revoked: Revocations, epoch: nat, cap: nat, latest: int) {
    && (forall i :: (epoch, i) in revoked && i < cap ==> revoked[(epoch, i)] <= latest)
    && (latest == ZERO_TIME || exists i :: (epoch, i) in revoked && i < cap && revoked[(epoch, i)] == latest)
  }

  /** Bits and newest time after the rows in `done` have been rendered. */
  ghost predicate BitsSoFar(bits: seq<Octet>, cap: nat, done: set<nat>) {
    forall i: nat :: i < 8 * |bits| ==> (Bit(bits, i) <==> i < cap && i in done)
  }

  ghost predicate LatestSoFar(times: map<nat, int>, cap: nat, done: set<nat>, latest: int) {
    && done <= times.Keys
    && (forall i :: i in done && i < cap ==> times[i] <= latest)
    && (latest == ZERO_TIME || exists i :: i in done && i < cap && times[i] == latest)
  }

  lemma RenderOne(bits: seq<Octet>, cap: nat, done: set<nat>, idx: nat)
    requires BitsSoFar(bits, cap, done) && cap <= 8 * |bits|
    ensures BitsSoFar(if idx < cap then SetBit(bits, idx) else bits, cap, done + {idx})
  {
    if idx < cap {
      forall i: nat | i < 8 * |bits| ensures Bit(SetBit(bits, idx), i) <==> i < cap && i in done + {idx} {
        SetBitIsExact(bits, idx, i);
      }
    }
  }

  lemma LatestOne(times: map<nat, int>, cap: nat, done: set<nat>, latest: int, idx: nat)
    requires LatestSoFar(times, cap, done, latest) && idx in times
    ensures LatestSoFar(times, cap, done + {idx}, if idx < cap && times[idx] > latest then times[idx] else latest)
  {
    if latest != ZERO_TIME {
      var i :| i in done && i < cap && times[i] == latest;
      assert i in done + {idx};
    }
  }

  /** The loop both stores share: set the bit of every row of the epoch, in whatever order rows come. */
  method RenderBits(epoch: nat, cap: nat, revoked: Revocations) returns (bits: seq<Octet>, latest: int)
    ensures |bits| == (cap + 7) / 8
    ensures forall i :: 0 <= i < 8 * |bits| ==> (Bit(bits, i) <==> i < cap && (epoch, i) in revoked)
    ensures IsLatest(revoked, epoch, cap, latest)
  {
    var rows := map k | k in revoked && k.0 == epoch :: k.1 := revoked[k];
    assert forall i :: (epoch, i) in revoked <==> i in rows;
    assert forall i :: i in rows ==> rows[i] == revoked[(epoch, i)];
    bits, latest := RenderRows(cap, rows);
  }

  method RenderRows(cap: nat, rows: map<nat, int>) returns (bits: seq<Octet>, latest: int)
    ensures |bits| == (cap + 7) / 8
    ensures BitsSoFar(bits, cap, rows.Keys) && LatestSoFar(rows, cap, rows.Keys, latest)
  {
    var buffer := new Octet[(cap + 7) / 8](_ => 0);
    forall i: nat | i < 8 * buffer.Length ensures !Bit(buffer[..], i) { ZeroHasNoBit(i % 8); }
    latest := ZERO_TIME;
    var todo := rows.Keys;
    while todo != {}
      invariant todo <= rows.Keys
      invariant BitsSoFar(buffer[..], cap, rows.Keys - todo)
      invariant LatestSoFar(rows, cap, rows.Keys - todo, latest)
    {
      var idx :| idx in todo;
      ghost var done := rows.Keys - todo;
      assert done + {idx} == rows.Keys - (todo - {idx});
      RenderOne(buffer[..], cap, done, idx);
      LatestOne(rows, cap, done, latest, idx);
      todo := todo - {idx};
      if idx >= cap { continue; }
      ghost var before := buffer[..];
      buffer[idx / 8] := buffer[idx / 8] | Mask(idx % 8);
      assert buffer[..] == SetBit(before, idx);
      if rows[idx] > latest { latest := rows[idx]; }
    }
    assert rows.Keys - todo == rows.Keys;
    bits := buffer[..];
  }
}
