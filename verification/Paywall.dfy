/** The x402 paywall: challenge, settle, a single-use nonce store and a per-identity budget. */
module Paywall {
  import opened Unicode
  import opened JsonValue

  type Nonces = map<Text, (Option<Text>, real)>

  /** `payTo` is `None` when the operator has not configured a payee: quoting a price then raises. */
  datatype Settings = Settings(payTo: Option<Text>, price: int, nonceTtl: real, cap: int)

  datatype State = State(nonces: Nonces, spent: map<Text, int>, denied: set<Text>)

  /** What the facilitator answered. */
  datatype Settlement = Success | Unsuccessful | SettlementError

  /** `Acknowledged` stands for the return of an administrator's call. */
  datatype Reply = Challenged(nonce: Text) | Settled(sub: Text, amount: int) | Refused(status: int) | Raised | Acknowledged

  /**
   One thing that happens to the paywall.  `verified` and `gate` are the subject the credential
   verifier and the identity gate established, `None` when they refused; `popNonce` is the nonce the
   proof of possession carries, `None` when it is malformed.
   */
  datatype Event =
    | Challenge(now: real, hasCredential: bool, verified: Option<Text>, revoked: bool, nonce: Text)
    | Settle(now: real, hasHeaders: bool, popNonce: Option<Text>, gate: Option<Text>, termsMatch: bool, settlement: Settlement)
    | Deny(id: Text)
    | Restore(id: Text)

  function Spent(spent: map<Text, int>, id: Text): int { if id in spent then spent[id] else 0 }

  /** `consume` succeeds on an entry that is unexpired and bound to nobody else; it pops in any case. */
  predicate Consumable(nonces: Nonces, nonce: Text, identity: Text, now: real) {
    nonce in nonces && nonces[nonce].1 >= now && (nonces[nonce].0.None? || nonces[nonce].0 == Some(identity))
  }

  predicate Reservable(st: Settings, s: State, id: Text) {
    id !in s.denied && Spent(s.spent, id) + st.price <= st.cap
  }

  function ChallengeStep(st: Settings, s: State, e: Event): (State, Reply)
    requires e.Challenge?
  {
    if !e.hasCredential then (s, Refused(401))
    else if e.verified.None? then (s, Refused(403))
    else if e.verified.value in s.denied || e.revoked then (s, Refused(403))
    else
      var s' := s.(nonces := s.nonces[e.nonce := (e.verified, e.now + st.nonceTtl)]);
      (s', if st.payTo.None? then Raised else Challenged(e.nonce))
  }

  function SettleStep(st: Settings, s: State, e: Event): (State, Reply)
    requires e.Settle?
  {
    if !e.hasHeaders then (s, Refused(401))
    else if e.popNonce.None? then (s, Refused(400))
    else if e.gate.None? then (s, Refused(403))
    else
      var nonce, sub := e.popNonce.value, e.gate.value;
      var s' := s.(nonces := s.nonces - {nonce});
      if !Consumable(s.nonces, nonce, sub, e.now) then (s', Refused(409))
      else if st.payTo.None? then (s', Raised)
      else if !e.termsMatch || !Reservable(st, s, sub) || !e.settlement.Success? then (s', Refused(402))
      else (s'.(spent := s.spent[sub := Spent(s.spent, sub) + st.price]), Settled(sub, st.price))
  }

  function Step(st: Settings, s: State, e: Event): (State, Reply) {
    match e
    case Challenge(_, _, _, _, _) => ChallengeStep(st, s, e)
    case Settle(_, _, _, _, _, _) => SettleStep(st, s, e)
    case Deny(id) => (s.(denied := s.denied + {id}), Acknowledged)
    case Restore(id) => (s.(denied := s.denied - {id}), Acknowledged)
  }

  /** The state before event `n`. */
  function Run(st: Settings, events: seq<Event>, n: nat): State
    requires n <= |events|
  {
    if n == 0 then State(map[], map[], {}) else Step(st, Run(st, events, n - 1), events[n - 1]).0
  }

  function ReplyAt(st: Settings, events: seq<Event>, i: nat): Reply
    requires i < |events|
  {
    Step(st, Run(st, events, i), events[i]).1
  }

  /** Nonces are random tokens: no two challenges draw the same one. */
  predicate FreshNonces(events: seq<Event>) {
    forall i, j :: 0 <= i < j < |events| && events[i].Challenge? && events[j].Challenge? ==>
      events[i].nonce != events[j].nonce
  }

  // -------------------------------------------------------------- budgets

  /** The sum of the amounts settled for an identity by the first `n` events. */
  function SettledSum(st: Settings, events: seq<Event>, n: nat, id: Text): int
    requires n <= |events|
  {
    if n == 0 then 0
    else
      SettledSum(st, events, n - 1, id)
      + match ReplyAt(st, events, n - 1)
        case Settled(sub, amount) => if sub == id then amount else 0
        case _ => 0
  }

  predicate HasSettled(st: Settings, events: seq<Event>, n: nat, id: Text)
    requires n <= |events|
  {
    exists i :: 0 <= i < n && ReplyAt(st, events, i).Settled? && ReplyAt(st, events, i).sub == id
  }

  /** Over every run the recorded spend is the sum of the settled amounts and never exceeds the cap. */
  lemma {:induction false} SpendIsSettledAndCapped(st: Settings, events: seq<Event>, n: nat, id: Text)
    requires n <= |events|
    ensures Spent(Run(st, events, n).spent, id) == SettledSum(st, events, n, id)
    ensures HasSettled(st, events, n, id) || st.cap >= 0 ==> Spent(Run(st, events, n).spent, id) <= st.cap
  {
    if n > 0 {
      SpendIsSettledAndCapped(st, events, n - 1, id);
      var r := ReplyAt(st, events, n - 1);
      if !(r.Settled? && r.sub == id) {
        assert HasSettled(st, events, n, id) ==> HasSettled(st, events, n - 1, id);
      }
    }
  }

  // --------------------------------------------------------------- nonces

  /**
   Event `i` issued the nonce to `sub`, good until `expiry`: its credential was there, verified, not
   revoked and not denied, and the reply was the nonce, or an error for want of a payee to quote.
   */
  ghost predicate IssuedAt(st: Settings, events: seq<Event>, i: nat, nonce: Text, sub: Text, expiry: real)
    requires i < |events|
  {
    && events[i].Challenge? && events[i].nonce == nonce && expiry == events[i].now + st.nonceTtl
    && events[i].hasCredential && events[i].verified == Some(sub) && !events[i].revoked
    && sub !in Run(st, events, i).denied
    && ReplyAt(st, events, i) == if st.payTo.Some? then Challenged(nonce) else Raised
  }

  /** Every stored nonce was issued by an earlier challenge to the subject it is bound to. */
  lemma {:induction false} StoredNonceWasIssued(st: Settings, events: seq<Event>, n: nat, nonce: Text) returns (i: nat)
    requires n <= |events| && nonce in Run(st, events, n).nonces
    ensures i < n && Run(st, events, n).nonces[nonce].0.Some?
    ensures var (sub, expiry) := Run(st, events, n).nonces[nonce]; IssuedAt(st, events, i, nonce, sub.value, expiry)
  {
    var s, e := Run(st, events, n - 1), events[n - 1];
    if nonce in s.nonces && s.nonces[nonce] == Run(st, events, n).nonces[nonce] {
      i := StoredNonceWasIssued(st, events, n - 1, nonce);
    } else {
      i := n - 1;
    }
  }

  /** A nonce that is not in the store stays out of it unless a challenge draws it. */
  lemma {:induction false} AbsentNonceStaysAbsent(st: Settings, events: seq<Event>, m: nat, n: nat, nonce: Text)
    requires m <= n <= |events| && nonce !in Run(st, events, m).nonces
    requires forall k :: m <= k < n && events[k].Challenge? ==> events[k].nonce != nonce
    ensures nonce !in Run(st, events, n).nonces
  {
    if m < n { AbsentNonceStaysAbsent(st, events, m, n - 1, nonce); }
  }

  /** When a challenge is issued, and which status each refusal carries; only an issued nonce changes anything. */
  lemma ChallengeAnswers(st: Settings, s: State, e: Event)
    requires e.Challenge?
    ensures var (s', reply) := Step(st, s, e);
            var entitled := e.hasCredential && e.verified.Some? && e.verified.value !in s.denied && !e.revoked;
            && (reply == Challenged(e.nonce) <==> entitled && st.payTo.Some?)
            && (reply == Raised <==> entitled && st.payTo.None?)
            && (reply == Refused(401) <==> !e.hasCredential)
            && (reply == Refused(403) <==> e.hasCredential && !entitled)
            && s' == if entitled then s.(nonces := s.nonces[e.nonce := (e.verified, e.now + st.nonceTtl)]) else s
  {
  }

  /** When a payment settles, and which status each refusal carries; the nonce is gone once it was looked at. */
  lemma SettleAnswers(st: Settings, s: State, e: Event)
    requires e.Settle?
    ensures var (s', reply) := Step(st, s, e);
            var known := e.hasHeaders && e.popNonce.Some? && e.gate.Some?;
            && (reply == Refused(401) <==> !e.hasHeaders)
            && (reply == Refused(400) <==> e.hasHeaders && e.popNonce.None?)
            && (reply == Refused(403) <==> e.hasHeaders && e.popNonce.Some? && e.gate.None?)
            && (!known ==> s' == s)
            && (known ==>
                  var nonce, sub := e.popNonce.value, e.gate.value;
                  var good := nonce in s.nonces && e.now <= s.nonces[nonce].1 && (s.nonces[nonce].0 == None || s.nonces[nonce].0 == Some(sub));
                  var paid := e.termsMatch && sub !in s.denied && e.settlement.Success?
                              && (if sub in s.spent then s.spent[sub] else 0) + st.price <= st.cap;
                  && s'.nonces == s.nonces - {nonce} && s'.denied == s.denied
                  && (reply == Refused(409) <==> !good)
                  && (reply == Raised <==> good && st.payTo.None?)
                  && (reply == Refused(402) <==> good && st.payTo.Some? && !paid)
                  && (reply == Settled(sub, st.price) <==> good && st.payTo.Some? && paid)
                  && s'.spent == if good && st.payTo.Some? && paid
                                 then s.spent[sub := (if sub in s.spent then s.spent[sub] else 0) + st.price] else s.spent)
  {
  }

  /** The deny-list is exactly what the administrator last said. */
  lemma DenyListAnswers(st: Settings, s: State, id: Text)
    ensures Step(st, s, Deny(id)).0 == s.(denied := s.denied + {id})
    ensures Step(st, s, Restore(id)).0 == s.(denied := s.denied - {id})
  {
  }

  /** A request settles if and only if every check holds, and then for the subject the gate established. */
  lemma SettledIff(st: Settings, s: State, e: Event)
    requires e.Settle?
    ensures Step(st, s, e).1.Settled? <==>
              && e.hasHeaders && e.popNonce.Some? && e.gate.Some? && st.payTo.Some?
              && Consumable(s.nonces, e.popNonce.value, e.gate.value, e.now)
              && e.termsMatch && Reservable(st, s, e.gate.value) && e.settlement.Success?
    ensures !Step(st, s, e).1.Settled? ==> Step(st, s, e).0.spent == s.spent
  {
  }

  lemma SettledMeans(st: Settings, s: State, e: Event)
    requires Step(st, s, e).1.Settled?
    ensures e.Settle? && e.popNonce.Some? && e.gate == Some(Step(st, s, e).1.sub)
    ensures Consumable(s.nonces, e.popNonce.value, e.gate.value, e.now) && e.gate.value !in s.denied
    ensures e.popNonce.value !in Step(st, s, e).0.nonces && st.payTo.Some?
  {
    if e.Settle? { SettledIff(st, s, e); }
  }

  /**
   Over every run each settlement consumes an unexpired nonce that an earlier challenge answered the
   same subject with, and the subject is on the deny-list at neither moment.
   */
  lemma SettlementHadChallenge(st: Settings, events: seq<Event>, j: nat) returns (i: nat)
    requires j < |events| && ReplyAt(st, events, j).Settled?
    ensures i < j && events[j].Settle? && events[j].popNonce.Some?
    ensures exists expiry ::
              IssuedAt(st, events, i, events[j].popNonce.value, ReplyAt(st, events, j).sub, expiry) && expiry >= events[j].now
    ensures ReplyAt(st, events, i) == Challenged(events[j].popNonce.value)
    ensures ReplyAt(st, events, j).sub !in Run(st, events, j).denied
  {
    var s := Run(st, events, j);
    SettledMeans(st, s, events[j]);
    i := StoredNonceWasIssued(st, events, j, events[j].popNonce.value);
    var (sub, expiry) := s.nonces[events[j].popNonce.value];
    assert IssuedAt(st, events, i, events[j].popNonce.value, sub.value, expiry);
  }

  /** No nonce is ever settled with twice. */
  lemma SettlementsUseDistinctNonces(st: Settings, events: seq<Event>, j: nat, k: nat)
    requires FreshNonces(events) && j < k < |events|
    requires ReplyAt(st, events, j).Settled? && ReplyAt(st, events, k).Settled?
    ensures events[j].Settle? && events[k].Settle? && events[j].popNonce != events[k].popNonce
  {
    SettledMeans(st, Run(st, events, j), events[j]);
    SettledMeans(st, Run(st, events, k), events[k]);
    var nonce := events[j].popNonce.value;
    var i := StoredNonceWasIssued(st, events, j, nonce);
    AbsentNonceStaysAbsent(st, events, j + 1, k, nonce);
  }

  // -------------------------------------------------------------- objects

  class NonceStore {
    var entries: Nonces

    constructor ()
      ensures entries == map[]
    {
      entries := map[];
    }

    method Issue(nonce: Text, ttl: real, identity: Option<Text>, now: real)
      modifies this
      ensures entries == old(entries)[nonce := (identity, now + ttl)]
    {
      entries := entries[nonce := (identity, now + ttl)];
    }

    method Consume(nonce: Text, identity: Text, now: real) returns (ok: bool)
      modifies this
      ensures ok == Consumable(old(entries), nonce, identity, now)
      ensures entries == old(entries) - {nonce}
    {
      if nonce !in entries { assert entries - {nonce} == entries; return false; }
      var (bound, expiry) := entries[nonce];
      entries := entries - {nonce};
      if expiry < now { return false; }
      if bound.Some? && bound.value != identity { return false; }
      return true;
    }
  }

  class BudgetStore {
    const cap: int
    var spent: map<Text, int>
    var denied: set<Text>

    constructor (cap: int)
      ensures this.cap == cap && spent == map[] && denied == {}
    {
      this.cap, spent, denied := cap, map[], {};
    }

    predicate Allowed(id: Text)
      reads this
    {
      id !in denied
    }

    method Reserve(id: Text, amount: int) returns (ok: bool)
      ensures ok == (Allowed(id) && Spent(spent, id) + amount <= cap)
    {
      if !Allowed(id) { return false; }
      if Spent(spent, id) + amount > cap { return false; }
      return true;
    }

    method Record(id: Text, amount: int)
      modifies this`spent
      ensures spent == old(spent)[id := Spent(old(spent), id) + amount]
    {
      spent := spent[id := Spent(spent, id) + amount];
    }

    method Revoke(id: Text)
      modifies this`denied
      ensures denied == old(denied) + {id}
    {
      denied := denied + {id};
    }

    method Restore(id: Text)
      modifies this`denied
      ensures denied == old(denied) - {id}
    {
      denied := denied - {id};
    }
  }

  class Server {
    const settings: Settings
    const nonces: NonceStore
    const budget: BudgetStore

    constructor (settings: Settings, nonces: NonceStore, budget: BudgetStore)
      ensures this.settings == settings && this.nonces == nonces && this.budget == budget
    {
      this.settings, this.nonces, this.budget := settings, nonces, budget;
    }

    ghost function Stores(): State
      reads nonces, budget
    {
      State(nonces.entries, budget.spent, budget.denied)
    }

    /** `_challenge`. */
    method Challenge(e: Event) returns (reply: Reply)
      requires e.Challenge?
      modifies nonces
      ensures (Stores(), reply) == ChallengeStep(settings.(cap := budget.cap), old(Stores()), e)
    {
      if !e.hasCredential { return Refused(401); }
      if e.verified.None? { return Refused(403); }
      var sub := e.verified.value;
      if !budget.Allowed(sub) { return Refused(403); }
      if e.revoked { return Refused(403); }
      nonces.Issue(e.nonce, settings.nonceTtl, Some(sub), e.now);
      if settings.payTo.None? { return Raised; }
      return Challenged(e.nonce);
    }

    /** `_settle`: gate, consume, compare terms, reserve, settle, record, in that order. */
    method Settle(e: Event) returns (reply: Reply)
      requires e.Settle?
      modifies nonces, budget
      ensures (Stores(), reply) == SettleStep(settings.(cap := budget.cap), old(Stores()), e)
    {
      if !e.hasHeaders { return Refused(401); }
      if e.popNonce.None? { return Refused(400); }
      if e.gate.None? { return Refused(403); }
      var sub := e.gate.value;
      var consumed := nonces.Consume(e.popNonce.value, sub, e.now);
      if !consumed { return Refused(409); }
      if settings.payTo.None? { return Raised; }
      if !e.termsMatch { return Refused(402); }
      var reserved := budget.Reserve(sub, settings.price);
      if !reserved { return Refused(402); }
      if !e.settlement.Success? { return Refused(402); }
      budget.Record(sub, settings.price);
      return Settled(sub, settings.price);
    }
  }
}
