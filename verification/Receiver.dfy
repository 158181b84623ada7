/** The receiver pipeline as a function on its three stores; `ReceiverPipeline` refines it. */
module Receiver {
  import opened Unicode
  import opened JsonValue
  import opened Envelope

  const REPLAY_RETENTION: int := 600
  const MAX_LIFETIME: int := 300
  const CACHE_LEEWAY: int := 60
  const CACHE_TTL: int := 30 * 24 * 60 * 60

  /** `message` */
  const MESSAGE: Text := [0x6D, 0x65, 0x73, 0x73, 0x61, 0x67, 0x65]
  /** `extensions` */
  const EXTENSIONS: Text := [0x65, 0x78, 0x74, 0x65, 0x6E, 0x73, 0x69, 0x6F, 0x6E, 0x73]
  const DOT: CodePoint := 0x2E

  // ---------------------------------------------------------- environment

  datatype Payload = Payload(sender: Text, recipient: Text, iat: int, exp: int, msgHash: Text, creds: seq<Text>)

  /** What decoding a JWS without its key yields; `payload` is `None` when the claims fail validation. */
  datatype Decoded = Decoded(kid: Option<Text>, typOk: bool, algOk: bool,
                             from: Option<Text>, to: Option<Text>, payload: Option<Payload>)

  /** Fixed functions of their inputs: JWS decoding and signatures, identifier canonicalization, SHA-256. */
  datatype Env = Env(
    decode: Text -> Option<Decoded>,
    signed: (Text, Text) -> bool,
    canon: Text -> Option<Text>,
    canonIssuer: Text -> Option<Text>,
    isPublicKey: Text -> bool,
    hash: Bytes -> Text)

  datatype Credential = Credential(iss: Text, kind: Text, exp: int, raw: Text)

  /**
   What the outside world answers during one call: DNS and AgentCard lookups, credential verification
   (`None` when rejected) and the revocation check (true when revoked or unverifiable).
   */
  datatype Outside = Outside(
    provider: Option<Text>,
    card: Option<Text>,
    verifyCredential: Text -> Option<Credential>,
    revoked: Credential -> bool)

  datatype TrustEntry = TrustEntry(issuer: Text, accept: seq<Text>)

  /** `provider` is the provider part of `subject` when that is a Shadowname. */
  datatype Config = Config(subject: Text, provider: Option<Text>, trust: seq<TrustEntry>,
                           fromStranger: seq<Text>, sameProviderOrg: bool, lookback: int, leeway: int)

  datatype WireError = Parse | UnknownRecipient | Signature | Replay | CredsRejected | CredsRequired | Policy | Uncaught

  datatype Route = Inbox | StrangerReview

  datatype Outcome = Accepted(route: Route, sender: Text, autoAdded: bool) | Rejected(error: WireError)

  type Entries = map<(Text, Text), int>
  type Cached = seq<(Credential, int)>

  datatype State = State(replay: Entries, contacts: set<Text>, outbound: Entries, bySender: map<Text, Cached>)

  // ------------------------------------------------- steps before replay

  function CountDots(t: Text): nat {
    if t == [] then 0 else (if t[0] == DOT then 1 else 0) + CountDots(t[1..])
  }

  /** `extract_envelope_jws`. */
  function Extract(body: Json): Option<(Text, Fields)> {
    if !body.Obj? then None
    else
      match Lookup<Json>(body.fields, MESSAGE)
      case Some(Obj(message)) =>
        (match (Lookup<Json>(message, EXTENSIONS), Lookup<Json>(message, METADATA))
         case (Some(Arr(extensions)), Some(Obj(metadata))) =>
           (match Lookup<Json>(metadata, EXTENSION_URI)
            case Some(Str(jws)) =>
              if Str(EXTENSION_URI) in extensions && CountDots(jws) == 2 then Some((jws, message)) else None
            case _ => None)
         case (_, _) => None)
      case _ => None
  }

  datatype Screened =
    | Refused(error: WireError)
    | Passed(jws: Text, sender: Text, messageId: Text, payload: Payload, message: Fields, provider: Option<Text>)

  /** The time window of `verify_envelope`. */
  predicate InWindow(p: Payload, now: int, leeway: int) {
    p.exp - p.iat <= MAX_LIFETIME && p.exp >= now - leeway && p.iat <= now + leeway
  }

  /** `verify_envelope` under the sender's key: `None` when it accepts. */
  function VerifyEnvelope(env: Env, c: Config, jws: Text, d: Decoded, key: Text, now: int): Option<WireError> {
    if !d.typOk || !d.algOk || d.payload.None? then Some(Parse)
    else if d.kid != Some(d.payload.value.sender) then Some(Parse)
    else if d.payload.value.recipient != c.subject then Some(Parse)
    else if !InWindow(d.payload.value, now, c.leeway) then Some(Parse)
    else if !env.signed(jws, key) then Some(Signature)
    else None
  }

  /** The sender's verification key: the sender itself in direct mode, its AgentCard's key otherwise. */
  function SenderKey(env: Env, out: Outside, sender: Text): Option<(Text, Option<Text>)> {
    if env.isPublicKey(sender) then Some((sender, None))
    else
      match (out.provider, out.card)
      case (Some(domain), Some(key)) => Some((key, Some(domain)))
      case (_, _) => None
  }

  /** Everything `receive` checks before it touches a store. */
  function Screen(env: Env, c: Config, now: int, body: Json, out: Outside): Screened {
    match Extract(body)
    case None => Refused(Parse)
    case Some((jws, message)) =>
      match env.decode(jws)
      case None => Refused(Parse)
      case Some(d) =>
        if d.from.None? || d.to.None? || d.kid != d.from then Refused(Parse)
        else
          match (env.canon(d.from.value), env.canon(d.to.value))
          case (Some(sender), Some(recipient)) =>
            if recipient != c.subject then Refused(UnknownRecipient)
            else
              (match SenderKey(env, out, sender)
               case None => Refused(Signature)
               case Some((key, provider)) => ScreenEnvelope(env, c, now, jws, d, sender, key, message, provider))
          case (_, _) => Refused(Parse)
  }

  function ScreenEnvelope(env: Env, c: Config, now: int, jws: Text, d: Decoded, sender: Text, key: Text,
                          message: Fields, provider: Option<Text>): Screened {
    match VerifyEnvelope(env, c, jws, d, key, now)
    case Some(error) => Refused(error)
    case None =>
      match MsgHash(env.hash, message)
      case Err => Refused(Uncaught)
      case Ok(h) =>
        if h != d.payload.value.msgHash then Refused(Parse)
        else
          match Lookup<Json>(message, MESSAGE_ID)
          case Some(Str(id)) =>
            if id == [] then Refused(Parse) else Passed(jws, sender, id, d.payload.value, message, provider)
          case _ => Refused(Parse)
  }

  /** What a request that got this far has proved about itself. */
  lemma PassedMeans(env: Env, c: Config, now: int, body: Json, out: Outside)
    requires Screen(env, c, now, body, out).Passed?
    ensures var p := Screen(env, c, now, body, out);
            && Extract(body) == Some((p.jws, p.message))
            && env.decode(p.jws).Some? && env.decode(p.jws).value.payload == Some(p.payload)
            && env.decode(p.jws).value.from.Some? && env.canon(env.decode(p.jws).value.from.value) == Some(p.sender)
            && InWindow(p.payload, now, c.leeway)
            && MsgHash(env.hash, p.message) == Ok(p.payload.msgHash)
            && Lookup(p.message, MESSAGE_ID) == Some(Str(p.messageId))
  {
  }

  /** Everything a request must show for itself before the stores are asked. */
  ghost predicate Genuine(env: Env, c: Config, now: int, body: Json, out: Outside, p: Screened)
    requires p.Passed?
  {
    && Extract(body) == Some((p.jws, p.message))
    && env.decode(p.jws).Some?
    && var d := env.decode(p.jws).value;
       && d.typOk && d.algOk && d.payload == Some(p.payload)
       && d.from.Some? && d.kid == d.from == Some(p.payload.sender) && env.canon(d.from.value) == Some(p.sender)
       && d.to.Some? && env.canon(d.to.value) == Some(c.subject) && p.payload.recipient == c.subject
       && InWindow(p.payload, now, c.leeway)
       && (exists key :: SenderKey(env, out, p.sender) == Some((key, p.provider)) && env.signed(p.jws, key))
       && MsgHash(env.hash, p.message) == Ok(p.payload.msgHash)
       && Lookup(p.message, MESSAGE_ID) == Some(Str(p.messageId)) && p.messageId != []
  }

  /** A request reaches the replay step if and only if it is genuine, and then as itself. */
  lemma PassedIffGenuine(env: Env, c: Config, now: int, body: Json, out: Outside, p: Screened)
    requires p.Passed?
    ensures Screen(env, c, now, body, out) == p <==> Genuine(env, c, now, body, out, p)
  {
  }

  // ----------------------------------------------------------- the stores

  function Prune(entries: Entries, now: int): Entries {
    map k | k in entries && entries[k] > now :: entries[k]
  }

  function Live(entries: Cached, now: int): Cached {
    if entries == [] then []
    else if entries[0].1 > now then [entries[0]] + Live(entries[1..], now)
    else Live(entries[1..], now)
  }

  function Credentials(entries: Cached): seq<Credential> {
    seq(|entries|, i requires 0 <= i < |entries| => entries[i].0)
  }

  function Bucket(bySender: map<Text, Cached>, sender: Text): Cached {
    if sender in bySender then bySender[sender] else []
  }

  function ExpiresAt(cred: Credential, now: int): int {
    var a, b := cred.exp - CACHE_LEEWAY, now + CACHE_TTL;
    if a <= b then a else b
  }

  predicate Presentable(out: Outside, jws: Text) {
    out.verifyCredential(jws).Some? && !out.revoked(out.verifyCredential(jws).value)
  }

  /** The presented credentials up to the first that is rejected. */
  function Verified(out: Outside, jwss: seq<Text>): seq<Credential> {
    if jwss == [] || !Presentable(out, jwss[0]) then []
    else [out.verifyCredential(jwss[0]).value] + Verified(out, jwss[1..])
  }

  function CacheEntries(creds: seq<Credential>, now: int): Cached {
    seq(|creds|, i requires 0 <= i < |creds| => (creds[i], ExpiresAt(creds[i], now)))
  }

  /**
   `_validate_creds`: presented credentials are verified and cached one by one until one is rejected;
   with none presented, the live part of the sender's cache is used and written back.
   */
  function ValidateCreds(bySender: map<Text, Cached>, out: Outside, now: int, sender: Text, jwss: seq<Text>)
    : (map<Text, Cached>, Option<seq<Credential>>) {
    var bucket := Bucket(bySender, sender);
    if jwss == [] then
      var live := Live(bucket, now);
      (bySender[sender := live], Some(Credentials(live)))
    else
      var verified := Verified(out, jwss);
      var cached := if verified == [] then bySender else bySender[sender := bucket + CacheEntries(verified, now)];
      (cached, if |verified| == |jwss| then Some(verified) else None)
  }

  predicate Trusts(env: Env, trust: seq<TrustEntry>, cred: Credential) {
    match env.canonIssuer(cred.iss)
    case None => false
    case Some(target) => exists i :: 0 <= i < |trust| && trust[i].issuer == target && cred.kind in trust[i].accept
  }

  predicate Satisfies(env: Env, trust: seq<TrustEntry>, required: seq<Text>, creds: seq<Credential>) {
    required == [] || exists i :: 0 <= i < |creds| && Trusts(env, trust, creds[i]) && creds[i].kind in required
  }

  predicate RecentOutbound(outbound: Entries, context: Option<Text>, peer: Text, now: int, lookback: int) {
    context.Some? && context.value != [] && (context.value, peer) in outbound
    && outbound[(context.value, peer)] >= now - lookback
  }

  predicate SameOrganisation(c: Config, provider: Option<Text>) {
    c.sameProviderOrg && provider.Some? && c.provider == provider
  }

  function Classify(env: Env, c: Config, s: State, now: int, sender: Text, provider: Option<Text>,
                    creds: seq<Credential>, context: Option<Text>): Outcome {
    if SameOrganisation(c, provider) then Accepted(Inbox, sender, false)
    else if sender in s.contacts then Accepted(Inbox, sender, false)
    else if RecentOutbound(s.outbound, context, sender, now, c.lookback) then Accepted(Inbox, sender, true)
    else if c.fromStranger == [] then Rejected(Policy)
    else if Satisfies(env, c.trust, c.fromStranger, creds) then Accepted(StrangerReview, sender, false)
    else Rejected(if creds != [] then CredsRejected else CredsRequired)
  }

  /** `message.get("contextId")`: absent or null, a string, or an error. */
  function ContextOf(message: Fields): Result<Option<Text>> {
    match Lookup<Json>(message, CONTEXT_ID)
    case None => Ok(None)
    case Some(Null) => Ok(None)
    case Some(Str(t)) => Ok(Some(t))
    case _ => Err
  }

  /** After the replay step: credentials, then the context, then classification. */
  function Admit(env: Env, c: Config, s: State, now: int, p: Screened, out: Outside): (State, Outcome)
    requires p.Passed?
  {
    var (bySender, creds) := ValidateCreds(s.bySender, out, now, p.sender, p.payload.creds);
    var s1 := s.(bySender := bySender);
    if creds.None? then (s1, Rejected(CredsRejected))
    else
      match ContextOf(p.message)
      case Err => (s1, Rejected(Parse))
      case Ok(context) =>
        var outcome := Classify(env, c, s1, now, p.sender, p.provider, creds.value, context);
        if outcome.Accepted? && outcome.autoAdded then (s1.(contacts := s1.contacts + {p.sender}), outcome)
        else (s1, outcome)
  }

  /** The stateful part of `receive`: the replay step, then admission. */
  function AfterScreen(env: Env, c: Config, s: State, now: int, p: Screened, out: Outside): (State, Outcome) {
    if p.Refused? then (s, Rejected(p.error))
    else
      var pruned := Prune(s.replay, now);
      if (p.sender, p.messageId) in pruned then (s.(replay := pruned), Rejected(Replay))
      else Admit(env, c, s.(replay := pruned[(p.sender, p.messageId) := now + REPLAY_RETENTION]), now, p, out)
  }

  /** The whole of `receive` as a function of the stores. */
  function Receive(env: Env, c: Config, s: State, now: int, body: Json, out: Outside): (State, Outcome) {
    AfterScreen(env, c, s, now, Screen(env, c, now, body, out), out)
  }

  /** The sender belongs in the inbox: same organisation, a contact, or someone answering this side. */
  predicate Known(c: Config, s: State, now: int, p: Screened, context: Option<Text>)
    requires p.Passed?
  {
    || SameOrganisation(c, p.provider)
    || p.sender in s.contacts
    || RecentOutbound(s.outbound, context, p.sender, now, c.lookback)
  }

  /**
   A request is accepted if and only if it is screened, not a replay, presents no bad credential, names
   its context properly, and comes from somebody known or from a stranger whom the policy admits; the
   inbox is for exactly the former.
   */
  lemma AcceptedIff(env: Env, c: Config, s: State, now: int, p: Screened, out: Outside)
    requires p.Passed?
    ensures var o := AfterScreen(env, c, s, now, p, out).1;
            var creds := ValidateCreds(s.bySender, out, now, p.sender, p.payload.creds).1;
            var context := ContextOf(p.message);
            && (o.Accepted? <==>
                  && (p.sender, p.messageId) !in Prune(s.replay, now) && creds.Some? && context.Ok?
                  && (|| Known(c, s, now, p, context.value)
                      || (c.fromStranger != [] && Satisfies(env, c.trust, c.fromStranger, creds.value))))
            && (o.Accepted? ==> (o.route == Inbox <==> Known(c, s, now, p, context.value)))
  {
  }

  /** What a request that passed screening does to each store. */
  lemma AfterScreenStores(env: Env, c: Config, s: State, now: int, p: Screened, out: Outside)
    ensures var (s', o) := AfterScreen(env, c, s, now, p, out);
            && s'.outbound == s.outbound
            && s'.contacts == (if o.Accepted? && o.autoAdded then s.contacts + {o.sender} else s.contacts)
            && (o.Accepted? ==> p.Passed? && o.sender == p.sender)
            && (p.Refused? ==> s' == s)
            && (p.Passed? && (p.sender, p.messageId) in Prune(s.replay, now) ==>
                  s' == s.(replay := Prune(s.replay, now)))
            && (p.Passed? && (p.sender, p.messageId) !in Prune(s.replay, now) ==>
                  && s'.replay == Prune(s.replay, now)[(p.sender, p.messageId) := now + REPLAY_RETENTION]
                  && s'.bySender == ValidateCreds(s.bySender, out, now, p.sender, p.payload.creds).0)
  {
    if p.Passed? && (p.sender, p.messageId) !in Prune(s.replay, now) {
      var s1 := s.(replay := Prune(s.replay, now)[(p.sender, p.messageId) := now + REPLAY_RETENTION]);
      AdmitStores(env, c, s1, now, p, out);
    }
  }

  /** An auto-add has a nonempty context with a recent outbound to the sender. */
  lemma AutoAddHasOutbound(env: Env, c: Config, s: State, now: int, p: Screened, out: Outside)
    requires var o := AfterScreen(env, c, s, now, p, out).1; o.Accepted? && o.autoAdded
    ensures p.Passed? && ContextOf(p.message).Ok?
    ensures RecentOutbound(s.outbound, ContextOf(p.message).value, p.sender, now, c.lookback)
  {
    var s1 := s.(replay := Prune(s.replay, now)[(p.sender, p.messageId) := now + REPLAY_RETENTION]);
    var (bySender, creds) := ValidateCreds(s.bySender, out, now, p.sender, p.payload.creds);
    var context := ContextOf(p.message);
    ClassifySender(env, c, s1.(bySender := bySender), now, p.sender, p.provider, creds.value, context.value);
  }

  lemma AdmitStores(env: Env, c: Config, s: State, now: int, p: Screened, out: Outside)
    requires p.Passed?
    ensures var (s', o) := Admit(env, c, s, now, p, out);
            && s'.replay == s.replay && s'.outbound == s.outbound
            && s'.contacts == (if o.Accepted? && o.autoAdded then s.contacts + {o.sender} else s.contacts)
            && (o.Accepted? ==> o.sender == p.sender)
            && s'.bySender == ValidateCreds(s.bySender, out, now, p.sender, p.payload.creds).0
  {
    var (bySender, creds) := ValidateCreds(s.bySender, out, now, p.sender, p.payload.creds);
    var context := ContextOf(p.message);
    if creds.Some? && context.Ok? {
      ClassifySender(env, c, s.(bySender := bySender), now, p.sender, p.provider, creds.value, context.value);
    }
  }

  lemma ClassifySender(env: Env, c: Config, s: State, now: int, sender: Text, provider: Option<Text>,
                       creds: seq<Credential>, context: Option<Text>)
    ensures var o := Classify(env, c, s, now, sender, provider, creds, context);
            && (o.Accepted? ==> o.sender == sender)
            && (o.Accepted? && o.autoAdded ==> RecentOutbound(s.outbound, context, sender, now, c.lookback))
  {
  }

  // ----------------------------------------------------------------- runs

  /** Everything that happens to one receiver; all of it reads one clock. */
  datatype Event =
    | Incoming(now: int, body: Json, out: Outside)
    | RecordOutbound(now: int, context: Text, peer: Text)
    | AddContact(now: int, peer: Text)
    | RemoveContact(now: int, peer: Text)

  function Next(env: Env, c: Config, s: State, e: Event): State {
    match e
    case Incoming(now, body, out) => Receive(env, c, s, now, body, out).0
    case RecordOutbound(now, context, peer) => s.(outbound := s.outbound[(context, peer) := now])
    case AddContact(_, peer) => s.(contacts := s.contacts + {peer})
    case RemoveContact(_, peer) => s.(contacts := s.contacts - {peer})
  }

  function Run(env: Env, c: Config, events: seq<Event>): State {
    if events == [] then State(map[], {}, map[], map[])
    else Next(env, c, Run(env, c, events[..|events| - 1]), events[|events| - 1])
  }

  lemma RunSnoc(env: Env, c: Config, events: seq<Event>, k: nat)
    requires k < |events|
    ensures Run(env, c, events[..k + 1]) == Next(env, c, Run(env, c, events[..k]), events[k])
  {
    assert events[..k + 1][..k] == events[..k];
  }

  predicate ClockMonotone(events: seq<Event>) {
    forall i, j :: 0 <= i < j < |events| ==> events[i].now <= events[j].now
  }

  /** The request passes the replay step: screened, and its (sender, messageId) not remembered. */
  predicate PassesReplay(env: Env, c: Config, s: State, e: Event) {
    && e.Incoming?
    && var p := Screen(env, c, e.now, e.body, e.out);
       p.Passed? && (p.sender, p.messageId) !in Prune(s.replay, e.now)
  }

  predicate PassesAt(env: Env, c: Config, events: seq<Event>, i: nat)
    requires i < |events|
  {
    PassesReplay(env, c, Run(env, c, events[..i]), events[i])
  }
}
