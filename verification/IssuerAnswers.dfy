/**
 What a request to the issuer is answered.  `Issuer` proves what may be stored and said; here it is
 proved what is, in every execution: by stored credential, by the status of the parked row, by response.
 */
module IssuerAnswers {
  import opened Unicode
  import opened JsonValue
  import opened Epochs
  import opened Issuer

  /** In this execution request `pid` is for `key` and stands at `pc`. */
  ghost predicate Stands(c: Config, actions: seq<Action>, pid: nat, key: Text, pc: Pc) {
    var s := Execute(c, actions);
    pid in s.procs && s.procs[pid] == Process(key, pc)
  }

  /** Row `handle` is parked for `key`. */
  ghost predicate Parked(c: Config, actions: seq<Action>, handle: Text, row: Pending) {
    var s := Execute(c, actions);
    handle in s.pendings && s.pendings[handle] == row
  }

  ghost predicate Stored(c: Config, actions: seq<Action>, key: Text, jws: Jws) {
    var s := Execute(c, actions);
    key in s.creds && s.creds[key].jws == jws
  }

  lemma ExecuteSnoc(c: Config, actions: seq<Action>, a: Action)
    ensures Execute(c, actions + [a]) == Apply(c, Execute(c, actions), a)
  {
    assert (actions + [a])[..|actions|] == actions;
  }

  // ---------------------------------------------------------------- steps

  /** A new request starts with the credential lookup, and changes nothing stored. */
  lemma PostStarts(c: Config, actions: seq<Action>, pid: nat, key: Text)
    requires pid !in Execute(c, actions).procs
    ensures Stands(c, actions + [Post(pid, key)], pid, key, LookupCredential)
    ensures var s, t := Execute(c, actions), Execute(c, actions + [Post(pid, key)]);
            t.creds == s.creds && t.pendings == s.pendings && t.alloc == s.alloc
  {
    ExecuteSnoc(c, actions, Post(pid, key));
  }

  /**
   The lookup: a stored credential is answered verbatim, whoever may ask now; without one an
   unauthorized request is a problem and an authorized one goes to the hook; a failing store is a problem.
   */
  lemma LookupAnswers(c: Config, actions: seq<Action>, pid: nat, key: Text, storeFails: bool, authorized: bool)
    requires Stands(c, actions, pid, key, LookupCredential)
    ensures var after := actions + [DoLookup(pid, storeFails, authorized)];
            && (storeFails ==> Stands(c, after, pid, key, Done(Problem)))
            && (forall jws :: !storeFails && Stored(c, actions, key, jws) ==> Stands(c, after, pid, key, Done(Issued(jws))))
            && (!storeFails && key !in Execute(c, actions).creds ==>
                  Stands(c, after, pid, key, if authorized then ReadPending else Done(Problem)))
    ensures var s, t := Execute(c, actions), Execute(c, actions + [DoLookup(pid, storeFails, authorized)]);
            t.creds == s.creds && t.pendings == s.pendings && t.alloc == s.alloc
  {
    ExecuteSnoc(c, actions, DoLookup(pid, storeFails, authorized));
  }

  /** The queue hook goes by the row's status: approved moves on, rejected fails with its reason, new stays pending. */
  lemma QueueAnswers(c: Config, actions: seq<Action>, pid: nat, key: Text, handle: Text, row: Pending, d: Decision)
    requires c.hook.Queue? && Stands(c, actions, pid, key, ReadPending)
    requires Parked(c, actions, handle, row) && row.key == key
    ensures var after := actions + [DoReadPending(pid, d, false)];
            && (row.status == Approved ==> Stands(c, after, pid, key, AllocateIndex))
            && (row.status == Rejected ==> Stands(c, after, pid, key, Done(CeremonyFailed(row.reason))))
            && (row.status == New ==> Stands(c, after, pid, key, Done(CeremonyPending)))
    ensures var s, t := Execute(c, actions), Execute(c, actions + [DoReadPending(pid, d, false)]);
            t.creds == s.creds && t.pendings == s.pendings && t.alloc == s.alloc
  {
    ExecuteSnoc(c, actions, DoReadPending(pid, d, false));
    ExecutionsAreGood(c, actions);
    OnlyRow(Execute(c, actions), handle);
  }

  lemma OnlyRow(s: State, handle: Text)
    requires OneRowPerKey(s) && handle in s.pendings
    ensures RowOf(s, s.pendings[handle].key) == Some(handle)
  {
  }

  /** A key that has no row yet is parked as new under its handle, and the answer is pending. */
  lemma FirstPostParks(c: Config, actions: seq<Action>, pid: nat, key: Text, handle: Text, d: Decision)
    requires c.hook.Queue? && Stands(c, actions, pid, key, ReadPending)
    requires forall h :: h in Execute(c, actions).pendings ==> Execute(c, actions).pendings[h].key != key
    requires handle !in Execute(c, actions).pendings
    ensures Stands(c, actions + [DoReadPending(pid, d, false)], pid, key, InsertPending)
    ensures var after := actions + [DoReadPending(pid, d, false)] + [DoInsertPending(pid, handle, false)];
            && Stands(c, after, pid, key, Done(CeremonyPending))
            && Execute(c, after).pendings == Execute(c, actions).pendings[handle := Pending(key, New, [])]
            && Execute(c, after).creds == Execute(c, actions).creds
  {
    ExecuteSnoc(c, actions, DoReadPending(pid, d, false));
    ExecuteSnoc(c, actions + [DoReadPending(pid, d, false)], DoInsertPending(pid, handle, false));
  }

  /** Any other hook is taken at its word; a hook that fails is a problem. */
  lemma OracleAnswers(c: Config, actions: seq<Action>, pid: nat, key: Text, d: Decision, hookFails: bool)
    requires Stands(c, actions, pid, key, ReadPending)
    ensures var after := actions + [DoReadPending(pid, d, hookFails)];
            && (hookFails ==> Stands(c, after, pid, key, Done(Problem)))
            && (!hookFails && c.hook.Oracle? ==>
                  match d
                  case Approve => Stands(c, after, pid, key, AllocateIndex)
                  case Park => Stands(c, after, pid, key, Done(CeremonyPending))
                  case Refuse(reason) => Stands(c, after, pid, key, Done(CeremonyFailed(reason))))
  {
    ExecuteSnoc(c, actions, DoReadPending(pid, d, hookFails));
  }

  /** The administrator's verdict goes to that row alone; an unknown handle changes nothing. */
  lemma VerdictIsRecorded(c: Config, actions: seq<Action>, handle: Text, status: Status, reason: Text)
    ensures var s, t := Execute(c, actions), Execute(c, actions + [SetStatus(handle, status, reason)]);
            && t.pendings == (if handle in s.pendings
                              then s.pendings[handle := Pending(s.pendings[handle].key, status, reason)] else s.pendings)
            && t.creds == s.creds && t.alloc == s.alloc && t.procs == s.procs
  {
    ExecuteSnoc(c, actions, SetStatus(handle, status, reason));
    VerdictStep(c, Execute(c, actions), handle, status, reason);
  }

  lemma VerdictStep(c: Config, s: State, handle: Text, status: Status, reason: Text)
    ensures Apply(c, s, SetStatus(handle, status, reason)) ==
            if handle in s.pendings then s.(pendings := s.pendings[handle := Pending(s.pendings[handle].key, status, reason)]) else s
  {
    if handle in s.pendings {
      assert s.pendings[handle].(status := status, reason := reason) == Pending(s.pendings[handle].key, status, reason);
    }
  }

  /** The administrator's revocations, rotations and restarts go to the allocator alone, each as it does there. */
  lemma AdministrationIsDone(c: Config, actions: seq<Action>, op: Op)
    requires !op.DoAllocate?
    ensures Execute(c, actions + [Administer(op)]) == Execute(c, actions).(alloc := Step(c.backend, Execute(c, actions).alloc, op))
  {
    ExecuteSnoc(c, actions, Administer(op));
  }

  /** A request given up before its answer leaves everything stored as it is. */
  lemma AbortLeavesStores(c: Config, actions: seq<Action>, pid: nat, key: Text, pc: Pc)
    requires Stands(c, actions, pid, key, pc) && !pc.Done?
    ensures Execute(c, actions + [Abort(pid)]) == Execute(c, actions).(procs := Execute(c, actions).procs - {pid})
  {
    ExecuteSnoc(c, actions, Abort(pid));
  }

  // ------------------------------------------------------ issuing to the end

  /** The token of an approved request: its key, its time, and an index handed out for seven days from then. */
  ghost predicate FreshToken(c: Config, before: seq<Action>, after: seq<Action>, key: Text, now: int, jws: Jws) {
    var old', new' := Execute(c, before).alloc, Execute(c, after).alloc;
    && jws.key == key && jws.iat == now
    && !WasHanded(old', jws.epoch, jws.idx)
    && new'.handed == old'.handed + [Handed(jws.epoch, jws.idx, now + 604_800)]
  }

  /** Allocation succeeds unless the expiry would be Go's zero time; then the token is minted for the index. */
  lemma AllocationMints(c: Config, actions: seq<Action>, pid: nat, key: Text, now: int) returns (jws: Jws)
    requires Stands(c, actions, pid, key, AllocateIndex) && now + 604_800 != -62135596800
    ensures var after := actions + [DoAllocateIndex(pid, now, true)];
            && Stands(c, after, pid, key, PutCredential(jws)) && FreshToken(c, actions, after, key, now, jws)
            && Execute(c, after).creds == Execute(c, actions).creds
  {
    var s := Execute(c, actions);
    ExecuteSnoc(c, actions, DoAllocateIndex(pid, now, true));
    ExecutionsAreGood(c, actions);
    jws := MintStep(c, s, pid, key, now);
  }

  lemma MintStep(c: Config, s: State, pid: nat, key: Text, now: int) returns (jws: Jws)
    requires AllocatorOk(c.backend, s.alloc) && pid in s.procs && s.procs[pid] == Process(key, AllocateIndex)
    requires now + 604_800 != -62135596800
    ensures var t := Apply(c, s, DoAllocateIndex(pid, now, true));
            && pid in t.procs && t.procs[pid] == Process(key, PutCredential(jws)) && t.creds == s.creds
            && jws.key == key && jws.iat == now && !WasHanded(s.alloc, jws.epoch, jws.idx)
            && t.alloc.handed == s.alloc.handed + [Handed(jws.epoch, jws.idx, now + 604_800)]
  {
    AllocationSucceeds(c.backend, s.alloc, now + LIFETIME, now);
    AllocationIsFresh(c.backend, s.alloc, now + LIFETIME, now);
    var a := Allocate(c.backend, s.alloc.cap, s.alloc.rows, now + LIFETIME, now).value;
    jws := Jws(key, a.epoch, a.idx, now);
  }

  lemma AllocationSucceeds(b: Backend, s: System, exp: int, now: int)
    requires AllocatorOk(b, s) && exp != -62135596800
    ensures Allocate(b, s.cap, s.rows, exp, now).Ok?
    ensures var a := Allocate(b, s.cap, s.rows, exp, now).value;
            Step(b, s, DoAllocate(exp, now)).handed == s.handed + [Handed(a.epoch, a.idx, exp)]
  {
    var n :| Inv(b, s, n);
    GaplessCurrent(s.rows, n);
  }

  /** A clean put of a key that is not stored stores the token under it and answers with it. */
  lemma PutAnswers(c: Config, actions: seq<Action>, pid: nat, key: Text, jws: Jws)
    requires Stands(c, actions, pid, key, PutCredential(jws)) && key !in Execute(c, actions).creds
    ensures var after := actions + [DoPut(pid, Clean)];
            && Stands(c, after, pid, key, Done(Issued(jws)))
            && Execute(c, after).creds == Execute(c, actions).creds[key := Credential(jws, jws.epoch, jws.idx)]
            && Execute(c, after).alloc == Execute(c, actions).alloc
  {
    ExecuteSnoc(c, actions, DoPut(pid, Clean));
  }

  /** A put that fails is followed by a reread, whether or not the row got in. */
  lemma FailedPutRereads(c: Config, actions: seq<Action>, pid: nat, key: Text, jws: Jws, fault: WriteFault)
    requires Stands(c, actions, pid, key, PutCredential(jws)) && key !in Execute(c, actions).creds && !fault.Clean?
    ensures var after := actions + [DoPut(pid, fault)];
            && Stands(c, after, pid, key, Reread) && Execute(c, after).alloc == Execute(c, actions).alloc
            && Execute(c, after).creds == (if fault.Lost? then Execute(c, actions).creds
                                           else Execute(c, actions).creds[key := Credential(jws, jws.epoch, jws.idx)])
  {
    ExecuteSnoc(c, actions, DoPut(pid, fault));
  }

  /** The reread answers with what is stored; nothing stored, or a failing store, is a problem. */
  lemma RereadAnswers(c: Config, actions: seq<Action>, pid: nat, key: Text, storeFails: bool)
    requires Stands(c, actions, pid, key, Reread)
    ensures var after := actions + [DoReread(pid, storeFails)];
            && (forall jws :: !storeFails && Stored(c, actions, key, jws) ==> Stands(c, after, pid, key, Done(Issued(jws))))
            && (storeFails || key !in Execute(c, actions).creds ==> Stands(c, after, pid, key, Done(Problem)))
            && Execute(c, after).creds == Execute(c, actions).creds
  {
    ExecuteSnoc(c, actions, DoReread(pid, storeFails));
  }

  /** An index that cannot be allocated, or a token that cannot be minted, is a problem, and nothing is stored. */
  lemma FailedMintIsProblem(c: Config, actions: seq<Action>, pid: nat, key: Text, now: int, minted: bool)
    requires Stands(c, actions, pid, key, AllocateIndex) && (!minted || now + 604_800 == -62135596800)
    ensures var after := actions + [DoAllocateIndex(pid, now, minted)];
            Stands(c, after, pid, key, Done(Problem)) && Execute(c, after).creds == Execute(c, actions).creds
  {
    ExecuteSnoc(c, actions, DoAllocateIndex(pid, now, minted));
  }

  /** A parking that fails, or that finds the key parked under another handle meanwhile, is a problem and parks nothing. */
  lemma FailedParkIsProblem(c: Config, actions: seq<Action>, pid: nat, key: Text, handle: Text, storeFails: bool)
    requires Stands(c, actions, pid, key, InsertPending)
    requires storeFails || (handle !in Execute(c, actions).pendings && exists h :: h in Execute(c, actions).pendings && Execute(c, actions).pendings[h].key == key)
    ensures var after := actions + [DoInsertPending(pid, handle, storeFails)];
            Stands(c, after, pid, key, Done(Problem)) && Execute(c, after).pendings == Execute(c, actions).pendings
  {
    ExecuteSnoc(c, actions, DoInsertPending(pid, handle, storeFails));
  }

  /** A request that was answered keeps its answer; one that is not at the step asked for does not move. */
  lemma OutOfTurnChangesNothing(c: Config, actions: seq<Action>, pid: nat, key: Text, response: Response, a: Action)
    requires Stands(c, actions, pid, key, Done(response))
    requires !a.Post? && !a.Abort? && !a.SetStatus? && !a.Administer? && a.pid == pid
    ensures Execute(c, actions + [a]) == Execute(c, actions)
  {
    ExecuteSnoc(c, actions, a);
  }

  /** A put that loses the race is answered by the reread, with what the winner stored. */
  lemma LoserServesWinner(c: Config, actions: seq<Action>, pid: nat, key: Text, mine: Jws, theirs: Jws, fault: WriteFault)
    requires Stands(c, actions, pid, key, PutCredential(mine)) && Stored(c, actions, key, theirs)
    ensures var after := actions + [DoPut(pid, fault)];
            && Stands(c, after, pid, key, Reread)
            && Stands(c, after + [DoReread(pid, false)], pid, key, Done(Issued(theirs)))
            && Execute(c, after + [DoReread(pid, false)]).creds == Execute(c, actions).creds
  {
    ExecuteSnoc(c, actions, DoPut(pid, fault));
    ExecuteSnoc(c, actions + [DoPut(pid, fault)], DoReread(pid, false));
  }

  /** In every execution an approved request gets its credential: allocation, mint and a clean put end in the stored token. */
  lemma ApprovedIsIssued(c: Config, actions: seq<Action>, pid: nat, key: Text, now: int) returns (jws: Jws)
    requires Stands(c, actions, pid, key, AllocateIndex) && key !in Execute(c, actions).creds
    requires now + 604_800 != -62135596800
    ensures var after := actions + [DoAllocateIndex(pid, now, true)] + [DoPut(pid, Clean)];
            && Stands(c, after, pid, key, Done(Issued(jws))) && Stored(c, after, key, jws)
            && FreshToken(c, actions, after, key, now, jws)
  {
    jws := AllocationMints(c, actions, pid, key, now);
    PutAnswers(c, actions + [DoAllocateIndex(pid, now, true)], pid, key, jws);
  }

  /**
   In every execution: once the administrator approves a parked row, the next post for its key is
   answered with a credential, fresh and stored.
   */
  lemma ApproveThenPost(c: Config, actions: seq<Action>, handle: Text, row: Pending, reason: Text, pid: nat, now: int, d: Decision)
    returns (jws: Jws)
    requires c.hook.Queue? && Parked(c, actions, handle, row) && row.key !in Execute(c, actions).creds
    requires pid !in Execute(c, actions).procs && now + 604_800 != -62135596800
    ensures var after := actions + [SetStatus(handle, Approved, reason)] + [Post(pid, row.key)] + [DoLookup(pid, false, true)]
                         + [DoReadPending(pid, d, false)] + [DoAllocateIndex(pid, now, true)] + [DoPut(pid, Clean)];
            && Stands(c, after, pid, row.key, Done(Issued(jws))) && Stored(c, after, row.key, jws)
            && FreshToken(c, actions, after, row.key, now, jws)
  {
    var key := row.key;
    var a1 := actions + [SetStatus(handle, Approved, reason)];
    VerdictIsRecorded(c, actions, handle, Approved, reason);
    var a2 := a1 + [Post(pid, key)];
    PostStarts(c, a1, pid, key);
    var a3 := a2 + [DoLookup(pid, false, true)];
    LookupAnswers(c, a2, pid, key, false, true);
    var a4 := a3 + [DoReadPending(pid, d, false)];
    QueueAnswers(c, a3, pid, key, handle, Pending(key, Approved, reason), d);
    jws := ApprovedIsIssued(c, a4, pid, key, now);
  }
}
