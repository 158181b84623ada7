/**
 The issue endpoint under concurrency.  Every request is a process with a program counter; each store
 statement or transaction is one atomic step; requests interleave with each other and with the
 administrator's approve, reject, revoke, rotate and restart in any order.
 */
module Issuer {
  import opened Unicode
  import opened JsonValue
  import opened Epochs

  /** The queue hook parks ceremonies in the store; any other hook is an oracle. */
  datatype Hook = Queue | Oracle

  datatype Config = Config(backend: Backend, maxIndices: nat, hook: Hook)

  /** A minted token, symbolically: the idempotency key fixes subject and organisation. */
  datatype Jws = Jws(key: Text, epoch: nat, idx: nat, iat: int)

  datatype Credential = Credential(jws: Jws, epoch: nat, idx: nat)

  datatype Status = New | Approved | Rejected

  datatype Pending = Pending(key: Text, status: Status, reason: Text)

  datatype Decision = Approve | Park | Refuse(reason: Text)

  datatype Response = Issued(jws: Jws) | CeremonyPending | CeremonyFailed(reason: Text) | Problem

  /** Where a request stands: the next store access it will make. */
  datatype Pc =
    | LookupCredential
    | ReadPending
    | InsertPending
    | AllocateIndex
    | PutCredential(jws: Jws)
    | Reread
    | Done(response: Response)

  datatype Process = Process(key: Text, pc: Pc)

  datatype State = State(
    creds: map<Text, Credential>,
    pendings: map<Text, Pending>,
    alloc: System,
    procs: map<nat, Process>)

  /** How a write ended: cleanly, not at all, or applied although the caller saw an error. */
  datatype WriteFault = Clean | Lost | AppliedWithError

  datatype Action =
    | Post(pid: nat, key: Text)
    | DoLookup(pid: nat, storeFails: bool, authorized: bool)
    | DoReadPending(pid: nat, decision: Decision, hookFails: bool)
    | DoInsertPending(pid: nat, handle: Text, storeFails: bool)
    | DoAllocateIndex(pid: nat, now: int, minted: bool)
    | DoPut(pid: nat, fault: WriteFault)
    | DoReread(pid: nat, storeFails: bool)
    | Abort(pid: nat)
    | SetStatus(handle: Text, status: Status, reason: Text)
    | Administer(op: Op)

  const LIFETIME: int := 7 * 24 * 60 * 60

  ghost predicate Waiting(s: State, pid: nat) { pid in s.procs && !s.procs[pid].pc.Done? }

  function Move(s: State, pid: nat, pc: Pc): State
    requires pid in s.procs
  {
    s.(procs := s.procs[pid := s.procs[pid].(pc := pc)])
  }

  function WithRow(s: State, handle: Text, row: Pending): State {
    s.(pendings := s.pendings[handle := row])
  }

  function WithCredential(s: State, key: Text, jws: Jws): State {
    s.(creds := s.creds[key := Credential(jws, jws.epoch, jws.idx)])
  }

  /** The parked row of a key, if it has one. */
  ghost function RowOf(s: State, key: Text): (r: Option<Text>)
    ensures r.Some? ==> r.value in s.pendings && s.pendings[r.value].key == key
    ensures r.None? ==> forall h :: h in s.pendings ==> s.pendings[h].key != key
  {
    if h :| h in s.pendings && s.pendings[h].key == key then Some(h) else None
  }

  /** `decisionForPending`. */
  function DecisionFor(row: Pending): Decision {
    match row.status
    case Approved => Approve
    case Rejected => Refuse(row.reason)
    case New => Park
  }

  function AfterDecision(d: Decision): Pc {
    match d
    case Approve => AllocateIndex
    case Park => Done(CeremonyPending)
    case Refuse(reason) => Done(CeremonyFailed(reason))
  }

  /** One step; an action that is not enabled changes nothing. */
  ghost function Apply(c: Config, s: State, a: Action): State {
    match a
    case Post(pid, key) =>
      if pid in s.procs then s else s.(procs := s.procs[pid := Process(key, LookupCredential)])
    case Abort(pid) =>
      if Waiting(s, pid) then s.(procs := s.procs - {pid}) else s
    case SetStatus(handle, status, reason) =>
      if handle in s.pendings
      then WithRow(s, handle, s.pendings[handle].(status := status, reason := reason))
      else s
    case Administer(op) =>
      if op.DoAllocate? then s else s.(alloc := Step(c.backend, s.alloc, op))
    case _ =>
      if !(a.pid in s.procs) then s else ProcessStep(c, s, a.pid, s.procs[a.pid].key, s.procs[a.pid].pc, a)
  }

  /** What a request does with one store access, by where it stands. */
  ghost function ProcessStep(c: Config, s: State, pid: nat, key: Text, pc: Pc, a: Action): State
    requires pid in s.procs
  {
    match (pc, a)
    case (LookupCredential, DoLookup(_, storeFails, authorized)) => LookupStep(s, pid, key, storeFails, authorized)
    case (ReadPending, DoReadPending(_, decision, hookFails)) => ReadPendingStep(c, s, pid, key, decision, hookFails)
    case (InsertPending, DoInsertPending(_, handle, storeFails)) => InsertPendingStep(s, pid, key, handle, storeFails)
    case (AllocateIndex, DoAllocateIndex(_, now, minted)) => AllocateStep(c, s, pid, key, now, minted)
    case (PutCredential(jws), DoPut(_, fault)) => PutStep(s, pid, key, jws, fault)
    case (Reread, DoReread(_, storeFails)) => RereadStep(s, pid, key, storeFails)
    case (_, _) => s
  }

  function LookupStep(s: State, pid: nat, key: Text, storeFails: bool, authorized: bool): State
    requires pid in s.procs
  {
    if storeFails then Move(s, pid, Done(Problem))
    else if key in s.creds then Move(s, pid, Done(Issued(s.creds[key].jws)))
    else if !authorized then Move(s, pid, Done(Problem))
    else Move(s, pid, ReadPending)
  }

  /** The hook: an oracle's decision, or what the queue finds parked; a hook that fails is a server error. */
  ghost function ReadPendingStep(c: Config, s: State, pid: nat, key: Text, decision: Decision, hookFails: bool): State
    requires pid in s.procs
  {
    if hookFails then Move(s, pid, Done(Problem))
    else if c.hook.Oracle? then Move(s, pid, AfterDecision(decision))
    else
      match RowOf(s, key)
      case None => Move(s, pid, InsertPending)
      case Some(h) => Move(s, pid, AfterDecision(DecisionFor(s.pendings[h])))
  }

  /** `PutPending`: an upsert on the handle that a second row for the key makes fail. */
  ghost function InsertPendingStep(s: State, pid: nat, key: Text, handle: Text, storeFails: bool): State
    requires pid in s.procs
  {
    if storeFails then Move(s, pid, Done(Problem))
    else if handle in s.pendings then
      Move(WithRow(s, handle, s.pendings[handle].(status := New, reason := [])), pid, Done(CeremonyPending))
    else if RowOf(s, key).Some? then Move(s, pid, Done(Problem))
    else Move(WithRow(s, handle, Pending(key, New, [])), pid, Done(CeremonyPending))
  }

  ghost function AllocateStep(c: Config, s: State, pid: nat, key: Text, now: int, minted: bool): State
    requires pid in s.procs
  {
    match Allocate(c.backend, s.alloc.cap, s.alloc.rows, now + LIFETIME, now)
    case Err => Move(s, pid, Done(Problem))
    case Ok(al) =>
      var s' := s.(alloc := Step(c.backend, s.alloc, DoAllocate(now + LIFETIME, now)));
      Move(s', pid, if minted then PutCredential(Jws(key, al.epoch, al.idx, now)) else Done(Problem))
  }

  function PutStep(s: State, pid: nat, key: Text, jws: Jws, fault: WriteFault): State
    requires pid in s.procs
  {
    if key in s.creds || fault.Lost? then Move(s, pid, Reread)
    else Move(WithCredential(s, key, jws), pid, if fault.Clean? then Done(Issued(jws)) else Reread)
  }

  function RereadStep(s: State, pid: nat, key: Text, storeFails: bool): State
    requires pid in s.procs
  {
    if key in s.creds && !storeFails then Move(s, pid, Done(Issued(s.creds[key].jws)))
    else Move(s, pid, Done(Problem))
  }

  ghost function Execute(c: Config, actions: seq<Action>): State {
    if actions == [] then State(map[], map[], Run(c.backend, c.maxIndices, []), map[])
    else Apply(c, Execute(c, actions[..|actions| - 1]), actions[|actions| - 1])
  }

  // ------------------------------------------------------------ invariant

  ghost predicate AllocatorOk(b: Backend, s: System) { exists n: nat :: Inv(b, s, n) }

  /** Every answer 200 carries the token stored for its key. */
  ghost predicate AnswersStored(s: State) {
    forall p :: p in s.procs && s.procs[p].pc.Done? && s.procs[p].pc.response.Issued? ==>
      s.procs[p].key in s.creds && s.creds[s.procs[p].key].jws == s.procs[p].pc.response.jws
  }

  /** A token about to be stored is for its own request and holds an index that was handed out. */
  ghost predicate MintedHeld(s: State) {
    forall p :: p in s.procs && s.procs[p].pc.PutCredential? ==>
      && s.procs[p].pc.jws.key == s.procs[p].key
      && WasHanded(s.alloc, s.procs[p].pc.jws.epoch, s.procs[p].pc.jws.idx)
  }

  ghost predicate StoredHeld(s: State) {
    forall k :: k in s.creds ==>
      && s.creds[k].jws.key == k
      && s.creds[k].epoch == s.creds[k].jws.epoch && s.creds[k].idx == s.creds[k].jws.idx
      && WasHanded(s.alloc, s.creds[k].epoch, s.creds[k].idx)
  }

  predicate SameIndex(a: Jws, b: Jws) { a.epoch == b.epoch && a.idx == b.idx }

  /** No two tokens, stored or about to be, share an index. */
  ghost predicate IndicesDisjoint(s: State) {
    && (forall j, k :: j in s.creds && k in s.creds && j != k ==> !SameIndex(s.creds[j].jws, s.creds[k].jws))
    && (forall p, k :: p in s.procs && s.procs[p].pc.PutCredential? && k in s.creds ==>
          !SameIndex(s.procs[p].pc.jws, s.creds[k].jws))
    && (forall p, q :: p in s.procs && q in s.procs && p != q && s.procs[p].pc.PutCredential? && s.procs[q].pc.PutCredential? ==>
          !SameIndex(s.procs[p].pc.jws, s.procs[q].pc.jws))
  }

  ghost predicate OneRowPerKey(s: State) {
    forall g, h :: g in s.pendings && h in s.pendings && s.pendings[g].key == s.pendings[h].key ==> g == h
  }

  ghost predicate Good(c: Config, s: State) {
    && AllocatorOk(c.backend, s.alloc)
    && AnswersStored(s) && MintedHeld(s) && StoredHeld(s) && IndicesDisjoint(s) && OneRowPerKey(s)
  }

  /** An index just allocated was never handed out before. */
  lemma AllocationIsFresh(b: Backend, s: System, exp: int, now: int)
    requires AllocatorOk(b, s) && Allocate(b, s.cap, s.rows, exp, now).Ok?
    ensures var a := Allocate(b, s.cap, s.rows, exp, now).value;
            && !WasHanded(s, a.epoch, a.idx)
            && WasHanded(Step(b, s, DoAllocate(exp, now)), a.epoch, a.idx)
            && forall e, i :: WasHanded(s, e, i) ==> WasHanded(Step(b, s, DoAllocate(exp, now)), e, i)
  {
    var n :| Inv(b, s, n);
    GaplessCurrent(s.rows, n);
    var a := Allocate(b, s.cap, s.rows, exp, now).value;
    var s' := Step(b, s, DoAllocate(exp, now));
    assert s'.handed == s.handed + [Handed(a.epoch, a.idx, exp)];
    assert s'.handed[|s.handed|] == Handed(a.epoch, a.idx, exp);
    forall p | 0 <= p < |s.handed| ensures s.handed[p].epoch == a.epoch ==> s.handed[p].idx < a.idx {
      ExpiriesGrow(s.handed, p, |s.handed|);
      assert s.handed[..|s.handed|] == s.handed;
      assert RowMatches(b, s.rows[n], ExpiriesIn(s.handed, n));
    }
    forall e, i | WasHanded(s, e, i) ensures WasHanded(s', e, i) {
      var p :| 0 <= p < |s.handed| && s.handed[p].epoch == e && s.handed[p].idx == i;
      assert s'.handed[p] == s.handed[p];
    }
  }

  lemma AllocatorStepOk(b: Backend, s: System, op: Op)
    requires AllocatorOk(b, s)
    ensures AllocatorOk(b, Step(b, s, op))
    ensures !op.DoAllocate? ==> Step(b, s, op).handed == s.handed
  {
    var n :| Inv(b, s, n);
    var n' := StepKeepsInv(b, s, n, op);
  }

  /** Moves that neither mint nor answer with a token. */
  predicate Quiet(pc: Pc) { !pc.PutCredential? && !(pc.Done? && pc.response.Issued?) }

  lemma QuietMoveKeepsGood(c: Config, s: State, pid: nat, pc: Pc)
    requires Good(c, s) && pid in s.procs && Quiet(pc)
    ensures Good(c, Move(s, pid, pc))
  {
  }

  lemma ServeKeepsGood(c: Config, s: State, pid: nat)
    requires Good(c, s) && pid in s.procs && s.procs[pid].key in s.creds
    ensures Good(c, Move(s, pid, Done(Issued(s.creds[s.procs[pid].key].jws))))
  {
  }

  lemma RowKeepsGood(c: Config, s: State, handle: Text, row: Pending)
    requires Good(c, s)
    requires if handle in s.pendings then s.pendings[handle].key == row.key else RowOf(s, row.key).None?
    ensures Good(c, WithRow(s, handle, row))
  {
  }

  /** Good survives any allocator step that forgets nothing it handed out. */
  lemma GrowingAllocatorKeepsGood(c: Config, s: State, alloc: System)
    requires Good(c, s) && AllocatorOk(c.backend, alloc)
    requires forall e, i :: WasHanded(s.alloc, e, i) ==> WasHanded(alloc, e, i)
    ensures Good(c, s.(alloc := alloc))
  {
  }

  ghost predicate Unused(s: State, jws: Jws) {
    && (forall k :: k in s.creds ==> !SameIndex(jws, s.creds[k].jws))
    && (forall p :: p in s.procs && s.procs[p].pc.PutCredential? ==> !SameIndex(jws, s.procs[p].pc.jws))
  }

  lemma MintMoveKeepsGood(c: Config, s: State, pid: nat, jws: Jws)
    requires Good(c, s) && pid in s.procs && jws.key == s.procs[pid].key
    requires WasHanded(s.alloc, jws.epoch, jws.idx) && Unused(s, jws)
    ensures Good(c, Move(s, pid, PutCredential(jws)))
  {
  }

  lemma AllocateKeepsGood(c: Config, s: State, pid: nat, now: int, minted: bool)
    requires Good(c, s) && pid in s.procs
    ensures Good(c, AllocateStep(c, s, pid, s.procs[pid].key, now, minted))
  {
    var r := Allocate(c.backend, s.alloc.cap, s.alloc.rows, now + LIFETIME, now);
    if r.Err? {
      QuietMoveKeepsGood(c, s, pid, Done(Problem));
    } else {
      var alloc := Step(c.backend, s.alloc, DoAllocate(now + LIFETIME, now));
      AllocationIsFresh(c.backend, s.alloc, now + LIFETIME, now);
      AllocatorStepOk(c.backend, s.alloc, DoAllocate(now + LIFETIME, now));
      GrowingAllocatorKeepsGood(c, s, alloc);
      MintKeepsGood(c, s, alloc, pid, Jws(s.procs[pid].key, r.value.epoch, r.value.idx, now));
      QuietMoveKeepsGood(c, s.(alloc := alloc), pid, Done(Problem));
    }
  }

  lemma MintKeepsGood(c: Config, s: State, alloc: System, pid: nat, jws: Jws)
    requires MintedHeld(s) && StoredHeld(s) && Good(c, s.(alloc := alloc))
    requires pid in s.procs && jws.key == s.procs[pid].key
    requires !WasHanded(s.alloc, jws.epoch, jws.idx) && WasHanded(alloc, jws.epoch, jws.idx)
    ensures Good(c, Move(s.(alloc := alloc), pid, PutCredential(jws)))
  {
    FreshIsUnused(s, jws);
    MintMoveKeepsGood(c, s.(alloc := alloc), pid, jws);
  }

  lemma FreshIsUnused(s: State, jws: Jws)
    requires MintedHeld(s) && StoredHeld(s) && !WasHanded(s.alloc, jws.epoch, jws.idx)
    ensures Unused(s, jws)
  {
  }

  lemma CredentialKeepsGood(c: Config, s: State, key: Text, jws: Jws)
    requires Good(c, s) && key !in s.creds && jws.key == key
    requires WasHanded(s.alloc, jws.epoch, jws.idx) && Unused(s, jws)
    ensures Good(c, WithCredential(s, key, jws))
  {
  }

  lemma StoreKeepsGood(c: Config, s: State, pid: nat, pc: Pc)
    requires Good(c, s) && pid in s.procs && s.procs[pid].pc.PutCredential? && s.procs[pid].key !in s.creds
    requires pc == Reread || pc == Done(Issued(s.procs[pid].pc.jws))
    ensures Good(c, Move(WithCredential(s, s.procs[pid].key, s.procs[pid].pc.jws), pid, pc))
  {
    var key, jws := s.procs[pid].key, s.procs[pid].pc.jws;
    var t := Move(s, pid, Reread);
    QuietMoveKeepsGood(c, s, pid, Reread);
    assert Unused(t, jws);
    CredentialKeepsGood(c, t, key, jws);
    ServeKeepsGood(c, WithCredential(t, key, jws), pid);
    assert t.procs[pid := Process(key, pc)] == s.procs[pid := Process(key, pc)];
  }

  lemma LookupKeepsGood(c: Config, s: State, pid: nat, storeFails: bool, authorized: bool)
    requires Good(c, s) && pid in s.procs
    ensures Good(c, LookupStep(s, pid, s.procs[pid].key, storeFails, authorized))
  {
    QuietMoveKeepsGood(c, s, pid, if storeFails || !authorized then Done(Problem) else ReadPending);
    if s.procs[pid].key in s.creds { ServeKeepsGood(c, s, pid); }
  }

  lemma ReadPendingKeepsGood(c: Config, s: State, pid: nat, decision: Decision, hookFails: bool)
    requires Good(c, s) && pid in s.procs
    ensures Good(c, ReadPendingStep(c, s, pid, s.procs[pid].key, decision, hookFails))
  {
    var row := RowOf(s, s.procs[pid].key);
    var pc := if hookFails then Done(Problem)
              else if c.hook.Oracle? then AfterDecision(decision)
              else if row.None? then InsertPending
              else AfterDecision(DecisionFor(s.pendings[row.value]));
    QuietMoveKeepsGood(c, s, pid, pc);
  }

  lemma InsertPendingKeepsGood(c: Config, s: State, pid: nat, handle: Text, storeFails: bool)
    requires Good(c, s) && pid in s.procs
    ensures Good(c, InsertPendingStep(s, pid, s.procs[pid].key, handle, storeFails))
  {
    var key := s.procs[pid].key;
    if !storeFails && (handle in s.pendings || RowOf(s, key).None?) {
      var row := if handle in s.pendings then s.pendings[handle].(status := New, reason := []) else Pending(key, New, []);
      RowKeepsGood(c, s, handle, row);
      QuietMoveKeepsGood(c, WithRow(s, handle, row), pid, Done(CeremonyPending));
    } else {
      QuietMoveKeepsGood(c, s, pid, Done(Problem));
    }
  }

  lemma PutKeepsGood(c: Config, s: State, pid: nat, fault: WriteFault)
    requires Good(c, s) && pid in s.procs && s.procs[pid].pc.PutCredential?
    ensures Good(c, PutStep(s, pid, s.procs[pid].key, s.procs[pid].pc.jws, fault))
  {
    if s.procs[pid].key in s.creds || fault.Lost? {
      QuietMoveKeepsGood(c, s, pid, Reread);
    } else {
      StoreKeepsGood(c, s, pid, if fault.Clean? then Done(Issued(s.procs[pid].pc.jws)) else Reread);
    }
  }

  lemma RereadKeepsGood(c: Config, s: State, pid: nat, storeFails: bool)
    requires Good(c, s) && pid in s.procs
    ensures Good(c, RereadStep(s, pid, s.procs[pid].key, storeFails))
  {
    if s.procs[pid].key in s.creds && !storeFails {
      ServeKeepsGood(c, s, pid);
    } else {
      QuietMoveKeepsGood(c, s, pid, Done(Problem));
    }
  }

  lemma ProcessStepKeepsGood(c: Config, s: State, pid: nat, a: Action)
    requires Good(c, s) && pid in s.procs
    ensures Good(c, ProcessStep(c, s, pid, s.procs[pid].key, s.procs[pid].pc, a))
  {
    match s.procs[pid].pc
    case LookupCredential => AskingKeepsGood(c, s, pid, a);
    case ReadPending => AskingKeepsGood(c, s, pid, a);
    case InsertPending => AskingKeepsGood(c, s, pid, a);
    case AllocateIndex => IssuingKeepsGood(c, s, pid, a);
    case PutCredential(_) => IssuingKeepsGood(c, s, pid, a);
    case Reread => IssuingKeepsGood(c, s, pid, a);
    case Done(_) =>
  }

  lemma AskingKeepsGood(c: Config, s: State, pid: nat, a: Action)
    requires Good(c, s) && pid in s.procs
    requires s.procs[pid].pc.LookupCredential? || s.procs[pid].pc.ReadPending? || s.procs[pid].pc.InsertPending?
    ensures Good(c, ProcessStep(c, s, pid, s.procs[pid].key, s.procs[pid].pc, a))
  {
    var key, s' := s.procs[pid].key, ProcessStep(c, s, pid, s.procs[pid].key, s.procs[pid].pc, a);
    match (s.procs[pid].pc, a)
    case (LookupCredential, DoLookup(_, storeFails, authorized)) =>
      assert s' == LookupStep(s, pid, key, storeFails, authorized);
      LookupKeepsGood(c, s, pid, storeFails, authorized);
    case (ReadPending, DoReadPending(_, decision, hookFails)) =>
      assert s' == ReadPendingStep(c, s, pid, key, decision, hookFails);
      ReadPendingKeepsGood(c, s, pid, decision, hookFails);
    case (InsertPending, DoInsertPending(_, handle, storeFails)) =>
      assert s' == InsertPendingStep(s, pid, key, handle, storeFails);
      InsertPendingKeepsGood(c, s, pid, handle, storeFails);
    case (_, _) =>
  }

  lemma IssuingKeepsGood(c: Config, s: State, pid: nat, a: Action)
    requires Good(c, s) && pid in s.procs
    requires s.procs[pid].pc.AllocateIndex? || s.procs[pid].pc.PutCredential? || s.procs[pid].pc.Reread?
    ensures Good(c, ProcessStep(c, s, pid, s.procs[pid].key, s.procs[pid].pc, a))
  {
    var key, s' := s.procs[pid].key, ProcessStep(c, s, pid, s.procs[pid].key, s.procs[pid].pc, a);
    match (s.procs[pid].pc, a)
    case (AllocateIndex, DoAllocateIndex(_, now, minted)) =>
      assert s' == AllocateStep(c, s, pid, key, now, minted);
      AllocateKeepsGood(c, s, pid, now, minted);
    case (PutCredential(jws), DoPut(_, fault)) =>
      assert s' == PutStep(s, pid, key, jws, fault);
      PutKeepsGood(c, s, pid, fault);
    case (Reread, DoReread(_, storeFails)) =>
      assert s' == RereadStep(s, pid, key, storeFails);
      RereadKeepsGood(c, s, pid, storeFails);
    case (_, _) =>
  }

  lemma PostKeepsGood(c: Config, s: State, pid: nat, key: Text)
    requires Good(c, s) && pid !in s.procs
    ensures Good(c, s.(procs := s.procs[pid := Process(key, LookupCredential)]))
  {
  }

  lemma AbortKeepsGood(c: Config, s: State, pid: nat)
    requires Good(c, s)
    ensures Good(c, s.(procs := s.procs - {pid}))
  {
  }

  lemma AdministerKeepsGood(c: Config, s: State, op: Op)
    requires Good(c, s) && !op.DoAllocate?
    ensures Good(c, s.(alloc := Step(c.backend, s.alloc, op)))
  {
    AllocatorStepOk(c.backend, s.alloc, op);
    GrowingAllocatorKeepsGood(c, s, Step(c.backend, s.alloc, op));
  }

  lemma StepKeepsGood(c: Config, s: State, a: Action)
    requires Good(c, s)
    ensures Good(c, Apply(c, s, a))
  {
    match a
    case Post(pid, key) => if pid !in s.procs { PostKeepsGood(c, s, pid, key); }
    case Abort(pid) => AbortKeepsGood(c, s, pid);
    case SetStatus(handle, status, reason) =>
      if handle in s.pendings {
        RowKeepsGood(c, s, handle, s.pendings[handle].(status := status, reason := reason));
      }
    case Administer(op) => if !op.DoAllocate? { AdministerKeepsGood(c, s, op); }
    case _ => if a.pid in s.procs { ProcessStepKeepsGood(c, s, a.pid, a); }
  }

  lemma {:induction false} ExecutionsAreGood(c: Config, actions: seq<Action>)
    ensures Good(c, Execute(c, actions))
  {
    if actions == [] {
      var n := RunKeepsInv(c.backend, c.maxIndices, []);
    } else {
      ExecutionsAreGood(c, actions[..|actions| - 1]);
      StepKeepsGood(c, Execute(c, actions[..|actions| - 1]), actions[|actions| - 1]);
    }
  }

  // ------------------------------------------------------------- theorems

  /** Once stored, a key's credential is never replaced or removed. */
  lemma {:induction false} StoredForever(c: Config, actions: seq<Action>, more: seq<Action>, key: Text)
    requires key in Execute(c, actions).creds
    ensures key in Execute(c, actions + more).creds
    ensures Execute(c, actions + more).creds[key] == Execute(c, actions).creds[key]
  {
    if more == [] {
      assert actions + more == actions;
    } else {
      StoredForever(c, actions, more[..|more| - 1], key);
      assert (actions + more)[..|actions + more| - 1] == actions + more[..|more| - 1];
      StepKeepsCredentials(c, Execute(c, actions + more[..|more| - 1]), more[|more| - 1], key);
    }
  }

  lemma StepKeepsCredentials(c: Config, s: State, a: Action, key: Text)
    requires key in s.creds
    ensures key in Apply(c, s, a).creds && Apply(c, s, a).creds[key] == s.creds[key]
  {
  }

  /**
   Over every interleaving: all 200 answers for one idempotency key carry the same token, byte for
   byte, at any two moments of the run; it is the one stored; and that never changes.
   */
  lemma AnswersAgree(c: Config, actions: seq<Action>, more: seq<Action>, p: nat, q: nat)
    requires p in Execute(c, actions).procs && q in Execute(c, actions + more).procs
    requires Execute(c, actions).procs[p].pc.Done? && Execute(c, actions).procs[p].pc.response.Issued?
    requires Execute(c, actions + more).procs[q].pc.Done? && Execute(c, actions + more).procs[q].pc.response.Issued?
    requires Execute(c, actions).procs[p].key == Execute(c, actions + more).procs[q].key
    ensures Execute(c, actions).procs[p].pc.response.jws == Execute(c, actions + more).procs[q].pc.response.jws
    ensures var key := Execute(c, actions).procs[p].key;
            key in Execute(c, actions).creds
            && Execute(c, actions).creds[key].jws == Execute(c, actions).procs[p].pc.response.jws
  {
    ExecutionsAreGood(c, actions);
    ExecutionsAreGood(c, actions + more);
    StoredForever(c, actions, more, Execute(c, actions).procs[p].key);
  }

  /** No two stored credentials share an (epoch, idx), and each index lies below its epoch's cap. */
  lemma StoredIndicesUnique(c: Config, actions: seq<Action>, j: Text, k: Text)
    requires j in Execute(c, actions).creds && k in Execute(c, actions).creds && j != k
    ensures var s := Execute(c, actions);
            && (s.creds[j].epoch, s.creds[j].idx) != (s.creds[k].epoch, s.creds[k].idx)
            && s.creds[j].epoch in s.alloc.rows && s.creds[j].idx < s.alloc.rows[s.creds[j].epoch].cap
  {
    var s := Execute(c, actions);
    ExecutionsAreGood(c, actions);
    var n :| Inv(c.backend, s.alloc, n);
    var p :| 0 <= p < |s.alloc.handed| && s.alloc.handed[p].epoch == s.creds[j].epoch && s.alloc.handed[p].idx == s.creds[j].idx;
    HandedInRange(c.backend, s.alloc, n, p);
  }

  ghost predicate RowApproved(s: State, key: Text) {
    exists h :: h in s.pendings && s.pendings[h].key == key && s.pendings[h].status == Approved
  }

  /** At some point before the last action of the run the key's row stood approved. */
  ghost predicate EverApproved(c: Config, actions: seq<Action>, key: Text) {
    exists i :: 0 <= i < |actions| && RowApproved(Execute(c, actions[..i]), key)
  }

  predicate PastApproval(pc: Pc) { pc.AllocateIndex? || pc.PutCredential? || pc.Reread? }

  lemma EverApprovedGrows(c: Config, actions: seq<Action>, key: Text)
    requires actions != [] && EverApproved(c, actions[..|actions| - 1], key)
    ensures EverApproved(c, actions, key)
  {
    var init := actions[..|actions| - 1];
    var i :| 0 <= i < |init| && RowApproved(Execute(c, init[..i]), key);
    assert actions[..i] == init[..i];
  }

  /** One step gives a key a credential, or a request past approval, only from an approved row. */
  lemma StepNeedsApproval(c: Config, s: State, a: Action, key: Text)
    requires c.hook.Queue?
    ensures var s' := Apply(c, s, a);
            && (key in s'.creds ==> key in s.creds || AnyPastApproval(s, key))
            && (AnyPastApproval(s', key) ==> AnyPastApproval(s, key) || RowApproved(s, key))
  {
    StoringNeedsApproval(c, s, a, key);
    PassingNeedsApproval(c, s, a, key);
  }

  lemma StoringNeedsApproval(c: Config, s: State, a: Action, key: Text)
    ensures key in Apply(c, s, a).creds ==> key in s.creds || AnyPastApproval(s, key)
  {
  }

  lemma PassingNeedsApproval(c: Config, s: State, a: Action, key: Text)
    requires c.hook.Queue?
    ensures AnyPastApproval(Apply(c, s, a), key) ==> AnyPastApproval(s, key) || RowApproved(s, key)
  {
  }

  ghost predicate AnyPastApproval(s: State, key: Text) {
    exists p :: p in s.procs && s.procs[p].key == key && PastApproval(s.procs[p].pc)
  }

  /**
   With the queue hook, over every interleaving of posts, approvals and rejections: a key has at most
   one parked row, and a credential exists for it only if that row stood approved earlier in the run.
   */
  lemma {:induction false} StoredOnlyIfApproved(c: Config, actions: seq<Action>, key: Text)
    requires c.hook.Queue?
    ensures OneRowPerKey(Execute(c, actions))
    ensures key in Execute(c, actions).creds ==> EverApproved(c, actions, key)
    ensures AnyPastApproval(Execute(c, actions), key) ==> EverApproved(c, actions, key)
  {
    ExecutionsAreGood(c, actions);
    if actions != [] {
      var init := actions[..|actions| - 1];
      StoredOnlyIfApproved(c, init, key);
      if EverApproved(c, init, key) { EverApprovedGrows(c, actions, key); }
      StepNeedsApproval(c, Execute(c, init), actions[|actions| - 1], key);
      if RowApproved(Execute(c, init), key) { assert actions[..|init|] == init; }
    }
  }
}
