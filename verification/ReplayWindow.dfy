/** Why the receiver's leeway must stay under 150 seconds: what the retention forgets passes again. */
module ReplayWindow {
  import opened Unicode
  import opened JsonValue
  import opened Jcs
  import opened Base58
  import opened Identifiers
  import opened Envelope
  import opened Receiver
  import opened ReceiverRuns

  /** One envelope, by its payload, passes the replay step at two moments of a run. */
  ghost predicate ReplayedIn(env: Env, c: Config, events: seq<Event>, i: nat, j: nat) {
    && ClockMonotone(events) && i < j < |events|
    && PassesAt(env, c, events, i) && PassesAt(env, c, events, j)
    && WellFormed(events[i].body) && WellFormed(events[j].body) && NoCollisionBetween(env, c, events[i], events[j])
    && Screen(env, c, events[i].now, events[i].body, events[i].out).payload
       == Screen(env, c, events[j].now, events[j].body, events[j].out).payload
  }

  /** Screening reads the clock for the time window alone. */
  lemma ScreenAtOtherTime(env: Env, c: Config, t: int, u: int, body: Json, out: Outside)
    requires Screen(env, c, t, body, out).Passed?
    ensures var p := Screen(env, c, t, body, out);
            Screen(env, c, u, body, out) == if InWindow(p.payload, u, c.leeway) then p else Refused(Parse)
  {
  }

  /**
   In every run a request sent again, whenever it was sent first, is let through exactly when its
   envelope is still in its time window and none with its sender and messageId passed within 600 seconds.
   */
  lemma SentAgainPassesIff(env: Env, c: Config, events: seq<Event>, i: nat, j: nat)
    requires ClockMonotone(events) && i < j < |events| && events[i].Incoming?
    requires events[j] == Incoming(events[j].now, events[i].body, events[i].out)
    requires Screen(env, c, events[i].now, events[i].body, events[i].out).Passed?
    ensures var p := Screen(env, c, events[i].now, events[i].body, events[i].out);
            PassesAt(env, c, events, j) <==>
            && events[j].now <= p.payload.exp + c.leeway
            && !exists k: nat :: k < j && PassedSince(env, c, events, k, (p.sender, p.messageId), events[j].now)
  {
    PassedMeans(env, c, events[i].now, events[i].body, events[i].out);
    ScreenAtOtherTime(env, c, events[i].now, events[j].now, events[i].body, events[i].out);
    if Screen(env, c, events[j].now, events[j].body, events[j].out).Passed? {
      ReplayRefusedIff(env, c, events, j);
    }
  }

  lemma SameRequestAgain(env: Env, c: Config, e: Event, f: Event)
    requires e.Incoming? && f.Incoming? && f.now >= e.now + REPLAY_RETENTION && e.body == f.body && WellFormed(e.body)
    requires Screen(env, c, e.now, e.body, e.out).Passed?
    requires Screen(env, c, f.now, f.body, f.out) == Screen(env, c, e.now, e.body, e.out)
    ensures ReplayedIn(env, c, [e, f], 0, 1)
  {
    SameMessageNoCollision(env, c, e, f);
    RetentionForgets(env, c, e, f);
    var events := [e, f];
    assert events[0] == e && events[1] == f && ClockMonotone(events);
  }

  lemma SameMessageNoCollision(env: Env, c: Config, e: Event, f: Event)
    requires e.Incoming? && f.Incoming? && Screen(env, c, e.now, e.body, e.out).Passed?
    requires Screen(env, c, f.now, f.body, f.out) == Screen(env, c, e.now, e.body, e.out)
    ensures NoCollisionBetween(env, c, e, f)
  {
    PassedMeans(env, c, e.now, e.body, e.out);
  }

  /** A request that passes alone passes again once the retention is over. */
  lemma RetentionForgets(env: Env, c: Config, e: Event, f: Event)
    requires e.Incoming? && f.Incoming? && f.now >= e.now + REPLAY_RETENTION
    requires Screen(env, c, e.now, e.body, e.out).Passed? && Screen(env, c, f.now, f.body, f.out).Passed?
    ensures PassesAt(env, c, [e, f], 0) && PassesAt(env, c, [e, f], 1)
  {
    assert [e, f][..0] == [];
    RunOfOne(env, c, e, f);
    var s := Run(env, c, [e, f][..1]);
    assert forall k :: k in s.replay ==> s.replay[k] <= f.now;
  }

  lemma RunOfOne(env: Env, c: Config, e: Event, f: Event)
    requires e.Incoming?
    ensures forall k :: k in Run(env, c, [e, f][..1]).replay ==>
      Run(env, c, [e, f][..1]).replay[k] == e.now + REPLAY_RETENTION
  {
    RunSnoc(env, c, [e, f], 0);
    assert [e, f][..0] == [];
    OnlyEntry(env, c, Run(env, c, []), e);
  }

  lemma OnlyEntry(env: Env, c: Config, s: State, e: Event)
    requires e.Incoming? && s.replay == map[]
    ensures forall k :: k in Next(env, c, s, e).replay ==> Next(env, c, s, e).replay[k] == e.now + REPLAY_RETENTION
  {
    AfterScreenStores(env, c, s, e.now, Screen(env, c, e.now, e.body, e.out), e.out);
  }

  /** A request sent again is let through again exactly when it is forgotten and still in its time window. */
  lemma ReplayedIffForgottenInWindow(env: Env, c: Config, body: Json, out: Outside, t: int, u: int)
    requires WellFormed(body) && Screen(env, c, t, body, out).Passed? && t <= u
    ensures ReplayedIn(env, c, [Incoming(t, body, out), Incoming(u, body, out)], 0, 1) <==>
            u >= t + REPLAY_RETENTION && u <= Screen(env, c, t, body, out).payload.exp + c.leeway
  {
    var events := [Incoming(t, body, out), Incoming(u, body, out)];
    PassedMeans(env, c, t, body, out);
    ScreenAtOtherTime(env, c, t, u, body, out);
    if Screen(env, c, u, body, out).Passed? {
      if u >= t + REPLAY_RETENTION {
        SameRequestAgain(env, c, events[0], events[1]);
      } else if PassesAt(env, c, events, 0) {
        PassedIsRemembered(env, c, events, 0, 1);
      }
    }
  }

  /**
   With a leeway of 150 seconds or more, every envelope of full lifetime that is let through at its
   earliest moment is let through again 600 seconds later.
   */
  lemma ReplayPossible(env: Env, c: Config, body: Json, out: Outside, t: int)
    requires c.leeway >= 150 && WellFormed(body) && Screen(env, c, t, body, out).Passed?
    requires var p := Screen(env, c, t, body, out).payload; p.exp - p.iat == MAX_LIFETIME && t == p.iat - c.leeway
    ensures ReplayedIn(env, c, [Incoming(t, body, out), Incoming(t + REPLAY_RETENTION, body, out)], 0, 1)
  {
    ReplayedIffForgottenInWindow(env, c, body, out, t, t + REPLAY_RETENTION);
  }

  // -------------------------------------------- a lifelike world to show it in

  /** `sha256:` */
  const SHA_PREFIX: Text := [0x73, 0x68, 0x61, 0x32, 0x35, 0x36, 0x3A]

  predicate IsBase64Url(x: CodePoint) { IsAlphaNum(x) || x == HYPHEN || x == UNDERSCORE }

  /** The pattern a `msgHash` claim must match. */
  predicate IsMsgHash(t: Text) {
    && |t| > |SHA_PREFIX| && SHA_PREFIX <= t
    && forall i :: |SHA_PREFIX| <= i < |t| ==> IsBase64Url(t[i])
  }

  /** What the claims of an envelope must satisfy for its payload to be read at all. */
  ghost predicate ValidPayload(env: Env, d: Decoded, p: Payload) {
    && d.from.Some? && env.canon(d.from.value) == Some(p.sender)
    && d.to.Some? && env.canon(d.to.value) == Some(p.recipient)
    && p.iat >= 0 && p.exp >= 0 && IsMsgHash(p.msgHash)
  }

  ghost predicate CollisionFree(hash: Bytes -> Text) { forall x, y :: hash(x) == hash(y) ==> x == y }

  ghost predicate RendersHashes(hash: Bytes -> Text) { forall x :: IsMsgHash(hash(x)) }

  /** `is_public_key_identifier`: the prefix alone, whether or not the rest decodes. */
  predicate LooksLikeKey(t: Text) { KEY_PREFIX <= t && AT !in t }

  /** Of the texts that look like keys, canonicalization keeps those that decode and rejects the others. */
  ghost predicate KnowsKeys(env: Env) {
    && (forall t :: env.isPublicKey(t) <==> LooksLikeKey(t))
    && (forall t :: env.isPublicKey(t) ==> env.canon(t) == if DecodePubKey(t).Ok? then Some(t) else None)
  }

  ghost predicate ReadsValidPayloads(env: Env) {
    forall t :: env.decode(t).Some? && env.decode(t).value.payload.Some? ==>
      ValidPayload(env, env.decode(t).value, env.decode(t).value.payload.value)
  }

  /** An environment as the code provides it. */
  ghost predicate Lifelike(env: Env) { RendersHashes(env.hash) && KnowsKeys(env) && ReadsValidPayloads(env) }

  /** Two letters for every byte. */
  function Nibbles(x: Bytes): Text {
    if x == [] then [] else [0x61 + x[0] / 16, 0x61 + x[0] % 16] + Nibbles(x[1..])
  }

  lemma {:induction false} NibblesInjective(x: Bytes, y: Bytes)
    requires Nibbles(x) == Nibbles(y)
    ensures x == y
  {
    if x != [] && y != [] {
      var s, t := Nibbles(x), Nibbles(y);
      assert s[0] == t[0] && s[1] == t[1] && s[2..] == Nibbles(x[1..]) && t[2..] == Nibbles(y[1..]);
      NibblesInjective(x[1..], y[1..]);
      HeadTail(x);
      HeadTail(y);
    }
  }

  lemma {:induction false} NibblesAreLetters(x: Bytes)
    ensures forall i :: 0 <= i < |Nibbles(x)| ==> IsBase64Url(Nibbles(x)[i])
  {
    if x != [] { NibblesAreLetters(x[1..]); }
  }

  /** A collision-free stand-in for the hash, in its textual form. */
  function SampleHash(x: Bytes): Text { SHA_PREFIX + [HYPHEN] + Nibbles(x) }

  lemma SampleHashInjective(x: Bytes, y: Bytes)
    requires SampleHash(x) == SampleHash(y)
    ensures x == y
  {
    assert SampleHash(x)[|SHA_PREFIX| + 1..] == Nibbles(x) && SampleHash(y)[|SHA_PREFIX| + 1..] == Nibbles(y);
    NibblesInjective(x, y);
  }

  lemma SampleHashIsMsgHash(x: Bytes)
    ensures IsMsgHash(SampleHash(x))
  {
    NibblesAreLetters(x);
  }

  /** The wire form of a key of 32 equal bytes. */
  function SampleKey(b: Byte): Text { EncodePubKey(seq(KEY_SIZE, _ => b)).value }

  lemma SampleKeyDecodes(b: Byte)
    ensures DecodePubKey(SampleKey(b)).Ok? && LooksLikeKey(SampleKey(b))
  {
    var t := SampleKey(b);
    KeyRoundTrip(seq(KEY_SIZE, _ => b), t);
    if AT in t {
      var i :| 0 <= i < |t| && t[i] == AT;
      assert t[0] == KEY_PREFIX[0];
      OutsideAlphabet(t[1..], i - 1);
    }
  }

  /** `..`, the shortest text with two dots. */
  const TOKEN: Text := [0x2E, 0x2E]
  const ID: Text := [0x69]

  function SampleMessage(): Fields {
    [(MESSAGE_ID, Str(ID)), (EXTENSIONS, Arr([Str(EXTENSION_URI)])), (METADATA, Obj([(EXTENSION_URI, Str(TOKEN))]))]
  }

  function SampleBody(): Json { Obj([(MESSAGE, Obj(SampleMessage()))]) }

  function SampleMsgHash(): Text {
    match MsgHash(SampleHash, SampleMessage()) { case Ok(h) => h case Err => SampleHash([]) }
  }

  function SamplePayload(leeway: int): Payload {
    Payload(SampleKey(0), SampleKey(1), leeway, leeway + MAX_LIFETIME, SampleMsgHash(), [])
  }

  function SampleDecoded(leeway: int): Decoded {
    Decoded(Some(SampleKey(0)), true, true, Some(SampleKey(0)), Some(SampleKey(1)), Some(SamplePayload(leeway)))
  }

  function SampleCanon(t: Text): Option<Text> { if DecodePubKey(t).Ok? then Some(t) else None }

  function SampleEnv(leeway: int): Env {
    Env(t => if t == TOKEN then Some(SampleDecoded(leeway)) else None, (_, _) => true,
        SampleCanon, _ => None, LooksLikeKey, SampleHash)
  }

  function SampleConfig(leeway: int): Config { Config(SampleKey(1), None, [], [], false, 0, leeway) }

  function SampleOutside(): Outside { Outside(None, None, _ => None, _ => false) }

  lemma SampleIsLifelike(leeway: int)
    requires leeway >= 0
    ensures Lifelike(SampleEnv(leeway))
  {
    SampleHashIsRendered();
    SamplePayloadIsValid(leeway);
    ReadsOneValidPayload(SampleEnv(leeway), SampleDecoded(leeway));
    SampleKnowsKeys(SampleEnv(leeway), leeway);
  }

  lemma SampleKnowsKeys(env: Env, leeway: int)
    requires env == SampleEnv(leeway)
    ensures KnowsKeys(env)
  {
    forall t ensures env.isPublicKey(t) <==> LooksLikeKey(t) {}
    forall t ensures env.canon(t) == SampleCanon(t) {}
  }

  lemma ReadsOneValidPayload(env: Env, d: Decoded)
    requires forall t :: env.decode(t) == if t == TOKEN then Some(d) else None
    requires d.payload.Some? ==> ValidPayload(env, d, d.payload.value)
    ensures ReadsValidPayloads(env)
  {
  }

  lemma SampleHashIsCollisionFree()
    ensures CollisionFree(SampleHash)
  {
    forall x, y | SampleHash(x) == SampleHash(y) ensures x == y { SampleHashInjective(x, y); }
  }

  lemma SampleIsCollisionFree(leeway: int)
    ensures CollisionFree(SampleEnv(leeway).hash)
  {
    SampleHashIsCollisionFree();
  }

  lemma SampleHashIsRendered()
    ensures RendersHashes(SampleHash)
  {
    forall x ensures IsMsgHash(SampleHash(x)) { SampleHashIsMsgHash(x); }
  }

  lemma SamplePayloadIsValid(leeway: int)
    requires leeway >= 0
    ensures ValidPayload(SampleEnv(leeway), SampleDecoded(leeway), SamplePayload(leeway))
  {
    SampleKeyDecodes(0);
    SampleKeyDecodes(1);
    SampleHashes();
    SampleHashIsMsgHash(Hashed(SampleMessage()));
  }

  lemma SampleWellFormed()
    ensures DistinctKeys(SampleMessage()) && WellFormed(Obj(SampleMessage())) && WellFormed(SampleBody())
  {
    assert |MESSAGE_ID| == 9 && |EXTENSIONS| == 10 && |METADATA| == 8;
    assert DistinctKeys(SampleMessage());
  }

  lemma SampleLookups()
    ensures Lookup(SampleMessage(), MESSAGE_ID) == Some(Str(ID)) && HasMetadataObject(SampleMessage())
    ensures Extract(SampleBody()) == Some((TOKEN, SampleMessage()))
  {
    var m := SampleMessage();
    SampleWellFormed();
    LookupOf(m, 0);
    LookupOf(m, 1);
    LookupOf(m, 2);
    assert Lookup(SampleBody().fields, MESSAGE) == Some(Obj(m));
    assert TOKEN[1..] == [0x2E] && TOKEN[1..][1..] == [];
    assert CountDots(TOKEN) == 2;
  }

  lemma SampleHashes()
    ensures Canonicalize(Obj(CanonicalInput(SampleMessage(), HASHED_KEYS))).Ok?
    ensures MsgHash(SampleHash, SampleMessage()) == Ok(SampleMsgHash()) && SampleMsgHash() == SampleHash(Hashed(SampleMessage()))
  {
    SampleLookups();
    SampleShape();
    CanonicalizersAgree(Obj(CanonicalInput(SampleMessage(), HASHED_KEYS)));
  }

  lemma SampleShape()
    ensures JsonValue.Accepted(Obj(CanonicalInput(SampleMessage(), HASHED_KEYS)))
  {
    SampleInput(SampleMessage(), HASHED_KEYS);
  }

  lemma {:induction false} SampleInput(m: Fields, keys: seq<Text>)
    requires m == SampleMessage() && forall i :: 0 <= i < |keys| ==> ValidText(keys[i])
    ensures JsonValue.Accepted(Obj(CanonicalInput(m, keys)))
  {
    if keys != [] {
      SampleInput(m, keys[1..]);
      var rest := CanonicalInput(m, keys[1..]);
      if Lookup(m, keys[0]).Some? {
        assert (keys[0], Lookup(m, keys[0]).value) in m;
        assert Without([(EXTENSION_URI, Str(TOKEN))], EXTENSION_URI) == [];
        assert JsonValue.Accepted(HashedValue(m, keys[0]).value);
      }
    }
  }

  /** In the sample world the sample request passes at time 0, its earliest moment. */
  lemma SamplePasses(leeway: int)
    requires leeway >= 0
    ensures Screen(SampleEnv(leeway), SampleConfig(leeway), 0, SampleBody(), SampleOutside())
         == Passed(TOKEN, SampleKey(0), ID, SamplePayload(leeway), SampleMessage(), None)
  {
    SampleLookups();
    SampleHashes();
    SampleKeyDecodes(0);
    SampleKeyDecodes(1);
    var env, c, d := SampleEnv(leeway), SampleConfig(leeway), SampleDecoded(leeway);
    EnvelopePasses(env, c, 0, TOKEN, d, SampleKey(0), SampleKey(0), SampleMessage(), SamplePayload(leeway), ID);
    assert SenderKey(env, SampleOutside(), SampleKey(0)) == Some((SampleKey(0), None));
  }

  lemma EnvelopePasses(env: Env, c: Config, now: int, jws: Text, d: Decoded, sender: Text, key: Text, message: Fields,
                       payload: Payload, id: Text)
    requires d.typOk && d.algOk && d.payload == Some(payload) && d.kid == Some(payload.sender)
    requires payload.recipient == c.subject && InWindow(payload, now, c.leeway) && env.signed(jws, key)
    requires MsgHash(env.hash, message) == Ok(payload.msgHash) && Lookup(message, MESSAGE_ID) == Some(Str(id)) && id != []
    ensures ScreenEnvelope(env, c, now, jws, d, sender, key, message, None) == Passed(jws, sender, id, payload, message, None)
  {
    assert VerifyEnvelope(env, c, jws, d, key, now) == None;
  }

  /**
   Replay protection holds in all runs of lifelike environments exactly for leeways under 150 seconds,
   and it is not the hash that is to blame: the same goes for environments whose hash has no collisions.
   */
  lemma ReplaySafeIff(leeway: int)
    ensures (forall env: Env, c: Config, events: seq<Event>, i: nat, j: nat ::
               Lifelike(env) && c.leeway == leeway ==> !ReplayedIn(env, c, events, i, j)) <==> leeway < 150
    ensures (forall env: Env, c: Config, events: seq<Event>, i: nat, j: nat ::
               Lifelike(env) && CollisionFree(env.hash) && c.leeway == leeway ==>
                 !ReplayedIn(env, c, events, i, j)) <==> leeway < 150
  {
    if leeway < 150 {
      forall env: Env, c: Config, events: seq<Event>, i: nat, j: nat | c.leeway == leeway
        ensures !ReplayedIn(env, c, events, i, j)
      {
        NeverReplayed(env, c, events, i, j);
      }
    } else {
      SampleReplays(leeway);
      var env: Env, c: Config, events: seq<Event>, i: nat, j: nat :|
        Lifelike(env) && CollisionFree(env.hash) && c.leeway == leeway && ReplayedIn(env, c, events, i, j);
    }
  }

  /** Some lifelike environment without collisions has a run that replays an envelope. */
  ghost predicate Replays(leeway: int) {
    exists env: Env, c: Config, events: seq<Event>, i: nat, j: nat ::
      Lifelike(env) && CollisionFree(env.hash) && c.leeway == leeway && ReplayedIn(env, c, events, i, j)
  }

  lemma FullLifetimeReplays(env: Env, c: Config, body: Json, out: Outside, p: Payload)
    requires Lifelike(env) && CollisionFree(env.hash) && c.leeway >= 150 && WellFormed(body)
    requires Screen(env, c, 0, body, out).Passed? && Screen(env, c, 0, body, out).payload == p
    requires p.exp - p.iat == MAX_LIFETIME && p.iat == c.leeway
    ensures Replays(c.leeway)
  {
    ReplayPossible(env, c, body, out, 0);
  }

  lemma SampleReplays(leeway: int)
    requires leeway >= 150
    ensures Replays(leeway)
  {
    SampleIsLifelike(leeway);
    SampleIsCollisionFree(leeway);
    SamplePasses(leeway);
    SampleWellFormed();
    FullLifetimeReplays(SampleEnv(leeway), SampleConfig(leeway), SampleBody(), SampleOutside(), SamplePayload(leeway));
  }

  lemma NeverReplayed(env: Env, c: Config, events: seq<Event>, i: nat, j: nat)
    requires c.leeway < 150
    ensures !ReplayedIn(env, c, events, i, j)
  {
    if ReplayedIn(env, c, events, i, j) { EnvelopePassesOnce(env, c, events, i, j); }
  }
}
