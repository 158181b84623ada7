/**
 What a request to the receiver comes to, spelled out over the request's own fields and the events of the
 run: when it reaches the stores, how it is refused, and exactly when it is let in.
 */
module ReceiverOutcomes {
  import opened Unicode
  import opened JsonValue
  import opened Envelope
  import opened Receiver
  import opened ReceiverRuns

  // ----------------------------------------------------- names and numbers

  lemma WireNames()
    ensures MESSAGE == Ascii("message") && EXTENSIONS == Ascii("extensions") && METADATA == Ascii("metadata")
    ensures MESSAGE_ID == Ascii("messageId") && CONTEXT_ID == Ascii("contextId") && EXTENSION_URI == Ascii("urn:shadownet:0.2")
    ensures DOT == Code('.')
  {
  }

  // ------------------------------------------------------ the envelope found

  /** The body carries the envelope `jws` on `message`: declared, under its URI, in three dotted parts. */
  ghost predicate Carries(body: Json, jws: Text, message: Fields) {
    && body.Obj? && Lookup(body.fields, Ascii("message")) == Some(Obj(message))
    && (exists extensions: seq<Json> ::
          Lookup(message, Ascii("extensions")) == Some(Arr(extensions)) && Str(Ascii("urn:shadownet:0.2")) in extensions)
    && (exists metadata: Fields ::
          && Lookup(message, Ascii("metadata")) == Some(Obj(metadata))
          && Lookup(metadata, Ascii("urn:shadownet:0.2")) == Some(Str(jws)))
    && multiset(jws)[Code('.')] == 2
  }

  lemma {:induction false} DotsAreCounted(t: Text)
    ensures CountDots(t) == multiset(t)[DOT]
  {
    if t != [] {
      DotsAreCounted(t[1..]);
      HeadTail(t);
      assert multiset(t) == multiset{t[0]} + multiset(t[1..]);
    }
  }

  lemma ExtractIffCarried(body: Json, jws: Text, message: Fields)
    ensures Extract(body) == Some((jws, message)) <==> Carries(body, jws, message)
  {
    WireNames();
    DotsAreCounted(jws);
  }

  // ------------------------------------------------------------- screening

  /** The key a sender signs with: its own in direct mode, its AgentCard's under its provider otherwise. */
  ghost predicate SignsWith(env: Env, out: Outside, sender: Text, provider: Option<Text>, key: Text) {
    if env.isPublicKey(sender) then key == sender && provider == None
    else provider.Some? && out.provider == provider && out.card == Some(key)
  }

  lemma SenderKeyIff(env: Env, out: Outside, sender: Text, provider: Option<Text>, key: Text)
    ensures SenderKey(env, out, sender) == Some((key, provider)) <==> SignsWith(env, out, sender, provider, key)
  {
  }

  /** Sender and recipient can be told: both named, the header agrees, both canonical forms exist. */
  ghost predicate Addressed(env: Env, d: Decoded) {
    && d.from.Some? && d.to.Some? && d.kid == d.from
    && env.canon(d.from.value).Some? && env.canon(d.to.value).Some?
  }

  /** The claims hold: type, algorithm, kid, recipient, a lifetime of at most 300 seconds, now within the leeway. */
  ghost predicate ClaimsHold(c: Config, d: Decoded, now: int) {
    && d.typOk && d.algOk && d.payload.Some?
    && var p := d.payload.value;
       && d.kid == Some(p.sender) && p.recipient == c.subject
       && p.exp - p.iat <= 300 && now - c.leeway <= p.exp && p.iat <= now + c.leeway
  }

  /** Everything a request must show for itself before the stores are asked. */
  ghost predicate Authentic(env: Env, c: Config, now: int, body: Json, out: Outside, p: Screened)
    requires p.Passed?
  {
    && Carries(body, p.jws, p.message) && env.decode(p.jws).Some?
    && var d := env.decode(p.jws).value;
       && Addressed(env, d) && env.canon(d.from.value) == Some(p.sender) && env.canon(d.to.value) == Some(c.subject)
       && ClaimsHold(c, d, now) && d.payload == Some(p.payload)
       && (exists key :: SignsWith(env, out, p.sender, p.provider, key) && env.signed(p.jws, key))
       && MsgHash(env.hash, p.message) == Ok(p.payload.msgHash)
       && Lookup(p.message, Ascii("messageId")) == Some(Str(p.messageId)) && p.messageId != []
  }

  /** A request reaches the replay step if and only if it is authentic, and then as itself. */
  lemma ScreenedIffAuthentic(env: Env, c: Config, now: int, body: Json, out: Outside, p: Screened)
    requires p.Passed?
    ensures Screen(env, c, now, body, out) == p <==> Authentic(env, c, now, body, out, p)
  {
    WireNames();
    PassedIffGenuine(env, c, now, body, out, p);
    ExtractIffCarried(body, p.jws, p.message);
    forall key ensures SenderKey(env, out, p.sender) == Some((key, p.provider)) <==> SignsWith(env, out, p.sender, p.provider, key) {
      SenderKeyIff(env, out, p.sender, p.provider, key);
    }
  }

  /** A request without a readable envelope is a parse error. */
  lemma UnreadableIsParseError(env: Env, c: Config, now: int, body: Json, out: Outside)
    requires forall jws, message :: Carries(body, jws, message) ==> env.decode(jws).None? || !Addressed(env, env.decode(jws).value)
    ensures Screen(env, c, now, body, out) == Refused(Parse)
  {
    if Extract(body).Some? {
      var (jws, message) := Extract(body).value;
      ExtractIffCarried(body, jws, message);
      assert Carries(body, jws, message);
      NotAddressed(env, c, now, body, out, jws, message);
    }
  }

  lemma NotAddressed(env: Env, c: Config, now: int, body: Json, out: Outside, jws: Text, message: Fields)
    requires Extract(body) == Some((jws, message)) && (env.decode(jws).None? || !Addressed(env, env.decode(jws).value))
    ensures Screen(env, c, now, body, out) == Refused(Parse)
  {
    if env.decode(jws).Some? {
      var d := env.decode(jws).value;
      if d.from.Some? && d.to.Some? && d.kid == d.from {
        assert env.canon(d.from.value).None? || env.canon(d.to.value).None?;
      }
    }
  }

  /** The same, by what the key lookup of `receive` yields. */
  lemma RefusalByKey(env: Env, c: Config, now: int, body: Json, out: Outside, jws: Text, message: Fields, d: Decoded, k: Option<(Text, Option<Text>)>)
    requires Extract(body) == Some((jws, message)) && env.decode(jws) == Some(d) && Addressed(env, d)
    requires k == SenderKey(env, out, env.canon(d.from.value).value)
    ensures var forUs := env.canon(d.to.value) == Some(c.subject);
            var r := Screen(env, c, now, body, out);
            && (r == Refused(UnknownRecipient) <==> !forUs)
            && (r == Refused(Signature) <==> forUs && (k.None? || (ClaimsHold(c, d, now) && !env.signed(jws, k.value.0))))
            && (r == Refused(Uncaught) <==>
                  forUs && k.Some? && ClaimsHold(c, d, now) && env.signed(jws, k.value.0) && MsgHash(env.hash, message).Err?)
            && (r.Refused? ==> r.error in {Parse, UnknownRecipient, Signature, Uncaught})
  {
  }

  /** How a readable request is refused: for its recipient, its signature, an unhashable message, or its claims. */
  lemma RefusedIff(env: Env, c: Config, now: int, body: Json, out: Outside, jws: Text, message: Fields, d: Decoded)
    requires Carries(body, jws, message) && env.decode(jws) == Some(d) && Addressed(env, d)
    ensures var sender := env.canon(d.from.value).value;
            var keyed := exists key, provider :: SignsWith(env, out, sender, provider, key);
            var signed := exists key, provider :: SignsWith(env, out, sender, provider, key) && env.signed(jws, key);
            var forUs := env.canon(d.to.value) == Some(c.subject);
            var r := Screen(env, c, now, body, out);
            && (r == Refused(UnknownRecipient) <==> !forUs)
            && (r == Refused(Signature) <==> forUs && (!keyed || (ClaimsHold(c, d, now) && !signed)))
            && (r == Refused(Uncaught) <==> forUs && ClaimsHold(c, d, now) && signed && MsgHash(env.hash, message).Err?)
            && (r.Refused? ==> r.error in {Parse, UnknownRecipient, Signature, Uncaught})
  {
    var sender := env.canon(d.from.value).value;
    ExtractIffCarried(body, jws, message);
    RefusalByKey(env, c, now, body, out, jws, message, d, SenderKey(env, out, sender));
    KeysOf(env, out, sender, jws);
  }

  lemma KeysOf(env: Env, out: Outside, sender: Text, jws: Text)
    ensures var k := SenderKey(env, out, sender);
            && (k.Some? <==> exists key, provider :: SignsWith(env, out, sender, provider, key))
            && (k.Some? && env.signed(jws, k.value.0) <==>
                  exists key, provider :: SignsWith(env, out, sender, provider, key) && env.signed(jws, key))
  {
    var k := SenderKey(env, out, sender);
    if k.Some? {
      SenderKeyIff(env, out, sender, k.value.1, k.value.0);
      assert SignsWith(env, out, sender, k.value.1, k.value.0);
    }
    forall key, provider | SignsWith(env, out, sender, provider, key) ensures k == Some((key, provider)) {
      SenderKeyIff(env, out, sender, provider, key);
    }
  }

  // -------------------------------------------------- credentials presented

  /** Every presented credential verifies and is not revoked. */
  ghost predicate AllGood(out: Outside, jwss: seq<Text>) {
    forall i :: 0 <= i < |jwss| ==> out.verifyCredential(jwss[i]).Some? && !out.revoked(out.verifyCredential(jwss[i]).value)
  }

  lemma {:induction false} VerifiedPrefix(out: Outside, jwss: seq<Text>)
    ensures |Verified(out, jwss)| <= |jwss|
    ensures forall i :: 0 <= i < |Verified(out, jwss)| ==>
              out.verifyCredential(jwss[i]) == Some(Verified(out, jwss)[i]) && !out.revoked(Verified(out, jwss)[i])
    ensures |Verified(out, jwss)| == |jwss| <==> AllGood(out, jwss)
    ensures |Verified(out, jwss)| < |jwss| ==> !Presentable(out, jwss[|Verified(out, jwss)|])
  {
    if jwss != [] {
      if Presentable(out, jwss[0]) {
        VerifiedPrefix(out, jwss[1..]);
        assert forall i :: 1 <= i < |jwss| ==> jwss[i] == jwss[1..][i - 1];
        assert forall i :: 0 <= i < |jwss[1..]| ==> jwss[1..][i] == jwss[i + 1];
      }
    }
  }

  /** Validation succeeds exactly when all that is presented is good, and then uses just that. */
  lemma PresentedAreUsed(bySender: map<Text, Cached>, out: Outside, now: int, sender: Text, jwss: seq<Text>)
    requires jwss != []
    ensures var r := ValidateCreds(bySender, out, now, sender, jwss).1;
            && (r.Some? <==> AllGood(out, jwss))
            && (r.Some? ==> |r.value| == |jwss| && forall i :: 0 <= i < |jwss| ==> out.verifyCredential(jwss[i]) == Some(r.value[i]))
  {
    VerifiedPrefix(out, jwss);
  }

  // ------------------------------------------------------ cache over a run

  /** Event `k` passed the replay step for `sender` and presented `cred`, good, after nothing but good ones. */
  ghost predicate Caches(env: Env, c: Config, events: seq<Event>, k: nat, sender: Text, cred: Credential)
    requires k < |events|
  {
    && PassesAt(env, c, events, k)
    && var p := Screen(env, c, events[k].now, events[k].body, events[k].out);
       && p.sender == sender
       && exists i :: 0 <= i < |p.payload.creds| && AllGood(events[k].out, p.payload.creds[..i + 1])
                      && events[k].out.verifyCredential(p.payload.creds[i]) == Some(cred)
  }

  /** A cached credential is good until 60 seconds before it expires, but for 30 days at most. */
  function GoodUntil(cred: Credential, cachedAt: int): int {
    if cred.exp - 60 <= cachedAt + 2_592_000 then cred.exp - 60 else cachedAt + 2_592_000
  }

  lemma VerifiedIff(out: Outside, jwss: seq<Text>, cred: Credential)
    ensures cred in Verified(out, jwss) <==>
            exists i :: 0 <= i < |jwss| && AllGood(out, jwss[..i + 1]) && out.verifyCredential(jwss[i]) == Some(cred)
  {
    VerifiedPrefix(out, jwss);
    var v := Verified(out, jwss);
    if cred in v {
      var i :| 0 <= i < |v| && v[i] == cred;
      assert AllGood(out, jwss[..i + 1]);
    }
    if i :| 0 <= i < |jwss| && AllGood(out, jwss[..i + 1]) && out.verifyCredential(jwss[i]) == Some(cred) {
      forall m | 0 <= m <= i ensures Presentable(out, jwss[m]) { assert jwss[..i + 1][m] == jwss[m]; }
      assert v[i] == cred;
    }
  }

  /** Only a request that passes the replay step touches the cache. */
  lemma StepBuckets(env: Env, c: Config, s: State, e: Event)
    ensures Next(env, c, s, e).bySender ==
            if PassesReplay(env, c, s, e)
            then var p := Screen(env, c, e.now, e.body, e.out);
                 ValidateCreds(s.bySender, e.out, e.now, p.sender, p.payload.creds).0
            else s.bySender
  {
    if e.Incoming? { AfterScreenStores(env, c, s, e.now, Screen(env, c, e.now, e.body, e.out), e.out); }
  }

  /** Event `n` caches `cred` for `sender` exactly when it is among the verified ones of its own request. */
  lemma CachesIff(env: Env, c: Config, events: seq<Event>, n: nat, sender: Text, cred: Credential)
    requires n < |events|
    ensures Caches(env, c, events, n, sender, cred) <==>
            && PassesAt(env, c, events, n)
            && var p := Screen(env, c, events[n].now, events[n].body, events[n].out);
               p.sender == sender && cred in Verified(events[n].out, p.payload.creds)
  {
    if PassesAt(env, c, events, n) {
      VerifiedIff(events[n].out, Screen(env, c, events[n].now, events[n].body, events[n].out).payload.creds, cred);
    }
  }

  lemma BucketAfter(bySender: map<Text, Cached>, out: Outside, now: int, from: Text, jwss: seq<Text>, sender: Text, x: (Credential, int))
    ensures var bucket' := Bucket(ValidateCreds(bySender, out, now, from, jwss).0, sender);
            x in bucket' <==>
              || (x in Bucket(bySender, sender) && (sender == from && jwss == [] ==> x.1 > now))
              || (sender == from && x.0 in Verified(out, jwss) && x.1 == GoodUntil(x.0, now))
  {
    LiveEntries(Bucket(bySender, from), now);
    EntriesOf(Verified(out, jwss), now, x);
  }

  lemma EntriesOf(creds: seq<Credential>, now: int, x: (Credential, int))
    ensures x in CacheEntries(creds, now) <==> x.0 in creds && x.1 == GoodUntil(x.0, now)
  {
    var entries := CacheEntries(creds, now);
    if x in entries {
      var i :| 0 <= i < |entries| && entries[i] == x;
      assert creds[i] == x.0;
    }
    if x.0 in creds && x.1 == GoodUntil(x.0, now) {
      var i :| 0 <= i < |creds| && creds[i] == x.0;
      assert entries[i] == x;
    }
  }

  /** A new entry is of a credential that this event caches. */
  lemma NewIsCached(env: Env, c: Config, events: seq<Event>, n: nat, s: State, sender: Text, x: (Credential, int))
    requires n < |events| && s == Run(env, c, events[..n])
    requires x in Bucket(Next(env, c, s, events[n]).bySender, sender) && x !in Bucket(s.bySender, sender)
    ensures Caches(env, c, events, n, sender, x.0) && x.1 == GoodUntil(x.0, events[n].now)
  {
    var e := events[n];
    StepBuckets(env, c, s, e);
    CachesIff(env, c, events, n, sender, x.0);
    if PassesReplay(env, c, s, e) {
      var p := Screen(env, c, e.now, e.body, e.out);
      BucketAfter(s.bySender, e.out, e.now, p.sender, p.payload.creds, sender, x);
    }
  }

  ghost predicate CachedAs(env: Env, c: Config, events: seq<Event>, k: nat, sender: Text, x: (Credential, int))
    requires k < |events|
  {
    Caches(env, c, events, k, sender, x.0) && x.1 == GoodUntil(x.0, events[k].now)
  }

  lemma {:induction false} EntryWasCached(env: Env, c: Config, events: seq<Event>, n: nat, sender: Text, x: (Credential, int))
    requires n <= |events| && x in Bucket(Run(env, c, events[..n]).bySender, sender)
    ensures exists k: nat :: k < n && CachedAs(env, c, events, k, sender, x)
  {
    if n > 0 {
      OldOrCached(env, c, events, n - 1, sender, x);
      if x in Bucket(Run(env, c, events[..n - 1]).bySender, sender) { EntryWasCached(env, c, events, n - 1, sender, x); }
    }
  }

  lemma OldOrCached(env: Env, c: Config, events: seq<Event>, n: nat, sender: Text, x: (Credential, int))
    requires n < |events| && x in Bucket(Run(env, c, events[..n + 1]).bySender, sender)
    ensures x in Bucket(Run(env, c, events[..n]).bySender, sender) || CachedAs(env, c, events, n, sender, x)
  {
    RunSnoc(env, c, events, n);
    var s := Run(env, c, events[..n]);
    if x !in Bucket(s.bySender, sender) { NewIsCached(env, c, events, n, s, sender, x); }
  }

  lemma EntryIsAdded(env: Env, c: Config, events: seq<Event>, n: nat, sender: Text, x: (Credential, int))
    requires n < |events| && Caches(env, c, events, n, sender, x.0) && x.1 == GoodUntil(x.0, events[n].now)
    ensures x in Bucket(Run(env, c, events[..n + 1]).bySender, sender)
  {
    var s, e := Run(env, c, events[..n]), events[n];
    var p := Screen(env, c, e.now, e.body, e.out);
    RunSnoc(env, c, events, n);
    StepBuckets(env, c, s, e);
    CachesIff(env, c, events, n, sender, x.0);
    BucketAfter(s.bySender, e.out, e.now, p.sender, p.payload.creds, sender, x);
  }

  /** An entry that is still good stays. */
  lemma StepKeepsGoodEntry(env: Env, c: Config, s: State, e: Event, sender: Text, x: (Credential, int))
    requires x in Bucket(s.bySender, sender) && x.1 > e.now
    ensures x in Bucket(Next(env, c, s, e).bySender, sender)
  {
    StepBuckets(env, c, s, e);
    if PassesReplay(env, c, s, e) {
      var p := Screen(env, c, e.now, e.body, e.out);
      BucketAfter(s.bySender, e.out, e.now, p.sender, p.payload.creds, sender, x);
    }
  }

  lemma {:induction false} EntryStays(env: Env, c: Config, events: seq<Event>, k: nat, n: nat, sender: Text, x: (Credential, int))
    requires k <= n <= |events| && x in Bucket(Run(env, c, events[..k]).bySender, sender)
    requires forall m :: k <= m < n ==> events[m].now < x.1
    ensures x in Bucket(Run(env, c, events[..n]).bySender, sender)
  {
    if k < n {
      EntryStays(env, c, events, k, n - 1, sender, x);
      RunSnoc(env, c, events, n - 1);
      StepKeepsGoodEntry(env, c, Run(env, c, events[..n - 1]), events[n - 1], sender, x);
    }
  }

  /** Event `k` cached the credential for the sender, and at `now` it is still good. */
  ghost predicate CachedSince(env: Env, c: Config, events: seq<Event>, k: nat, sender: Text, cred: Credential, now: int)
    requires k < |events|
  {
    Caches(env, c, events, k, sender, cred) && now < cred.exp - 60 && now < events[k].now + 2_592_000
  }

  /**
   In every run on a nondecreasing clock the cache answers a request with exactly the credentials an
   earlier request of the same sender presented, verified and unrevoked, that have more than 60 seconds
   left and were cached less than 30 days ago.
   */
  lemma CacheAnswersIff(env: Env, c: Config, events: seq<Event>, j: nat, sender: Text, cred: Credential)
    requires ClockMonotone(events) && j < |events|
    ensures cred in Credentials(Live(Bucket(Run(env, c, events[..j]).bySender, sender), events[j].now)) <==>
            exists k: nat :: k < j && CachedSince(env, c, events, k, sender, cred, events[j].now)
  {
    if cred in Credentials(Live(Bucket(Run(env, c, events[..j]).bySender, sender), events[j].now)) {
      var k := AnsweredIsCached(env, c, events, j, sender, cred);
    }
    if k: nat :| k < j && CachedSince(env, c, events, k, sender, cred, events[j].now) {
      CachedIsAnswered(env, c, events, j, k, sender, cred);
    }
  }

  lemma AnsweredIsCached(env: Env, c: Config, events: seq<Event>, j: nat, sender: Text, cred: Credential) returns (k: nat)
    requires j < |events|
    requires cred in Credentials(Live(Bucket(Run(env, c, events[..j]).bySender, sender), events[j].now))
    ensures k < j && CachedSince(env, c, events, k, sender, cred, events[j].now)
  {
    var x := LiveEntryOf(Bucket(Run(env, c, events[..j]).bySender, sender), events[j].now, cred);
    EntryWasCached(env, c, events, j, sender, x);
    k :| k < j && CachedAs(env, c, events, k, sender, x);
  }

  lemma CachedIsAnswered(env: Env, c: Config, events: seq<Event>, j: nat, k: nat, sender: Text, cred: Credential)
    requires ClockMonotone(events) && k < j < |events| && CachedSince(env, c, events, k, sender, cred, events[j].now)
    ensures cred in Credentials(Live(Bucket(Run(env, c, events[..j]).bySender, sender), events[j].now))
  {
    var x := (cred, GoodUntil(cred, events[k].now));
    EntryIsAdded(env, c, events, k, sender, x);
    EntryStays(env, c, events, k + 1, j, sender, x);
    LiveEntryIsAnswered(Bucket(Run(env, c, events[..j]).bySender, sender), events[j].now, x);
  }

  lemma LiveEntryIsAnswered(entries: Cached, now: int, x: (Credential, int))
    requires x in entries && x.1 > now
    ensures x.0 in Credentials(Live(entries, now))
  {
    LiveEntries(entries, now);
    var live := Live(entries, now);
    var i :| 0 <= i < |live| && live[i] == x;
    assert Credentials(live)[i] == x.0;
  }

  // ----------------------------------------------------- outbound over a run

  lemma {:induction false} OutboundIsLatest(env: Env, c: Config, events: seq<Event>, k: nat, n: nat, context: Text, peer: Text)
    requires ClockMonotone(events) && k < n <= |events| && events[k] == RecordOutbound(events[k].now, context, peer)
    ensures var outbound := Run(env, c, events[..n]).outbound;
            (context, peer) in outbound && outbound[(context, peer)] >= events[k].now
  {
    RunSnoc(env, c, events, n - 1);
    var s, e := Run(env, c, events[..n - 1]), events[n - 1];
    if k < n - 1 { OutboundIsLatest(env, c, events, k, n - 1, context, peer); }
    if e.Incoming? { ContactsChangeOnlyByAutoAdd(env, c, s, e.now, e.body, e.out); }
  }

  /** On a nondecreasing clock the store knows a recent outbound exactly when one was recorded. */
  lemma OutboundIff(env: Env, c: Config, events: seq<Event>, j: nat, context: Option<Text>, peer: Text)
    requires ClockMonotone(events) && j < |events|
    ensures RecentOutbound(Run(env, c, events[..j]).outbound, context, peer, events[j].now, c.lookback)
       <==> AnswersOutbound(events, j, context, peer, events[j].now - c.lookback)
  {
    if RecentOutbound(Run(env, c, events[..j]).outbound, context, peer, events[j].now, c.lookback) {
      RecentIsRecorded(env, c, events, j, context, peer, events[j].now);
    }
    if AnswersOutbound(events, j, context, peer, events[j].now - c.lookback) {
      var at :| RecordedOutbound(events, j, context.value, peer, at) && at >= events[j].now - c.lookback;
      var k :| 0 <= k < j && events[k] == RecordOutbound(at, context.value, peer);
      OutboundIsLatest(env, c, events, k, j, context.value, peer);
    }
  }

  // ------------------------------------------------------- admission in a run

  /** The conversation a message names: none, or a text; anything else under `contextId` is an error. */
  ghost predicate InConversation(message: Fields, context: Option<Text>) {
    match context
    case None => Lookup(message, Ascii("contextId")) in {None, Some(Null)}
    case Some(t) => Lookup(message, Ascii("contextId")) == Some(Str(t))
  }

  ghost predicate HasContext(message: Fields) { exists context :: InConversation(message, context) }

  lemma ContextIff(message: Fields, context: Option<Text>)
    ensures ContextOf(message) == Ok(context) <==> InConversation(message, context)
  {
    WireNames();
  }

  /** Somebody known: same provider, a contact added and not removed since, or an answer to an outbound. */
  ghost predicate KnownInRun(env: Env, c: Config, events: seq<Event>, j: nat, p: Screened, context: Option<Text>)
    requires j < |events| && p.Passed?
  {
    || (c.sameProviderOrg && p.provider.Some? && c.provider == p.provider)
    || (exists k: nat :: k < j && ContactSince(env, c, events, k, j, p.sender))
    || AnswersOutbound(events, j, context, p.sender, events[j].now - c.lookback)
  }

  /** A credential this request is judged by: one it presents, or with none presented one cached and still good. */
  ghost predicate JudgedBy(env: Env, c: Config, events: seq<Event>, j: nat, p: Screened, cred: Credential)
    requires j < |events| && events[j].Incoming? && p.Passed?
  {
    if p.payload.creds == [] then exists k: nat :: k < j && CachedSince(env, c, events, k, p.sender, cred, events[j].now)
    else exists i :: 0 <= i < |p.payload.creds| && events[j].out.verifyCredential(p.payload.creds[i]) == Some(cred)
  }

  /** The policy for strangers asks for this credential's kind, and some trust entry accepts it from its issuer. */
  ghost predicate Admits(env: Env, c: Config, cred: Credential) {
    && cred.kind in c.fromStranger
    && exists t :: 0 <= t < |c.trust| && env.canonIssuer(cred.iss) == Some(c.trust[t].issuer) && cred.kind in c.trust[t].accept
  }

  lemma KnownIff(env: Env, c: Config, events: seq<Event>, j: nat, p: Screened, context: Option<Text>)
    requires ClockMonotone(events) && j < |events| && p.Passed?
    ensures Known(c, Run(env, c, events[..j]), events[j].now, p, context) <==> KnownInRun(env, c, events, j, p, context)
  {
    ContactsHaveOrigins(env, c, events, j, p.sender);
    OutboundIff(env, c, events, j, context, p.sender);
  }

  lemma UsedIffJudgedBy(env: Env, c: Config, events: seq<Event>, j: nat, p: Screened, creds: seq<Credential>, cred: Credential)
    requires ClockMonotone(events) && j < |events| && events[j].Incoming? && p.Passed?
    requires ValidateCreds(Run(env, c, events[..j]).bySender, events[j].out, events[j].now, p.sender, p.payload.creds).1 == Some(creds)
    ensures cred in creds <==> JudgedBy(env, c, events, j, p, cred)
  {
    var s := Run(env, c, events[..j]);
    if p.payload.creds == [] {
      CacheAnswersIff(env, c, events, j, p.sender, cred);
    } else {
      PresentedAreUsed(s.bySender, events[j].out, events[j].now, p.sender, p.payload.creds);
      if cred in creds {
        var i :| 0 <= i < |creds| && creds[i] == cred;
        assert events[j].out.verifyCredential(p.payload.creds[i]) == Some(cred);
      }
    }
  }

  lemma SatisfiesIff(env: Env, c: Config, creds: seq<Credential>)
    requires c.fromStranger != []
    ensures Satisfies(env, c.trust, c.fromStranger, creds) <==> exists cred :: cred in creds && Admits(env, c, cred)
  {
    forall cred ensures Admits(env, c, cred) <==> Trusts(env, c.trust, cred) && cred.kind in c.fromStranger {
      if Trusts(env, c.trust, cred) {
        var target := env.canonIssuer(cred.iss).value;
        var t :| 0 <= t < |c.trust| && c.trust[t].issuer == target && cred.kind in c.trust[t].accept;
      }
    }
    if Satisfies(env, c.trust, c.fromStranger, creds) {
      var i :| 0 <= i < |creds| && Trusts(env, c.trust, creds[i]) && creds[i].kind in c.fromStranger;
      assert creds[i] in creds && Admits(env, c, creds[i]);
    }
    if cred :| cred in creds && Admits(env, c, cred) {
      var i :| 0 <= i < |creds| && creds[i] == cred;
    }
  }

  function OutcomeAt(env: Env, c: Config, events: seq<Event>, j: nat): Outcome
    requires j < |events| && events[j].Incoming?
  {
    Receive(env, c, Run(env, c, events[..j]), events[j].now, events[j].body, events[j].out).1
  }

  function ScreenedAt(env: Env, c: Config, events: seq<Event>, j: nat): Screened
    requires j < |events| && events[j].Incoming?
  {
    Screen(env, c, events[j].now, events[j].body, events[j].out)
  }

  /** Before classification: a refused request keeps its error, a replay, a bad credential and a bad context have theirs. */
  lemma RejectedBeforeClassification(env: Env, c: Config, events: seq<Event>, j: nat)
    requires j < |events| && events[j].Incoming?
    ensures var p, o := ScreenedAt(env, c, events, j), OutcomeAt(env, c, events, j);
            && (p.Refused? ==> o == Rejected(p.error))
            && (p.Passed? && !PassesAt(env, c, events, j) ==> o == Rejected(Replay))
            && (PassesAt(env, c, events, j) && !AllGood(events[j].out, p.payload.creds) ==> o == Rejected(CredsRejected))
            && (PassesAt(env, c, events, j) && AllGood(events[j].out, p.payload.creds) && !HasContext(p.message) ==>
                  o == Rejected(Parse))
  {
    var p := ScreenedAt(env, c, events, j);
    if p.Passed? {
      if p.payload.creds != [] {
        PresentedAreUsed(Run(env, c, events[..j]).bySender, events[j].out, events[j].now, p.sender, p.payload.creds);
      }
      if ContextOf(p.message).Ok? { ContextIff(p.message, ContextOf(p.message).value); }
    }
  }

  /**
   In every run on a nondecreasing clock, for a request that passes the replay step with good credentials
   and a proper context: into the inbox if and only if the sender is known in the run, to review if and
   only if not and a credential it is judged by is admitted; otherwise the error says what was missing.
   */
  lemma AdmissionIff(env: Env, c: Config, events: seq<Event>, j: nat, context: Option<Text>)
    requires ClockMonotone(events) && j < |events| && PassesAt(env, c, events, j)
    requires AllGood(events[j].out, ScreenedAt(env, c, events, j).payload.creds)
    requires InConversation(ScreenedAt(env, c, events, j).message, context)
    ensures var p, o := ScreenedAt(env, c, events, j), OutcomeAt(env, c, events, j);
            var known := KnownInRun(env, c, events, j, p, context);
            var admitted := exists cred :: JudgedBy(env, c, events, j, p, cred) && Admits(env, c, cred);
            && (o.Accepted? && o.route == Inbox <==> known)
            && (o == Accepted(StrangerReview, p.sender, false) <==> !known && admitted)
            && (o == Rejected(Policy) <==> !known && c.fromStranger == [])
            && (o == Rejected(CredsRejected) <==>
                  !known && c.fromStranger != [] && !admitted && exists cred :: JudgedBy(env, c, events, j, p, cred))
            && (o == Rejected(CredsRequired) <==>
                  !known && c.fromStranger != [] && !admitted && !exists cred :: JudgedBy(env, c, events, j, p, cred))
            && (o.Accepted? ==> o.sender == p.sender)
  {
    var s, e, p := Run(env, c, events[..j]), events[j], ScreenedAt(env, c, events, j);
    ContextIff(p.message, context);
    if p.payload.creds != [] { PresentedAreUsed(s.bySender, e.out, e.now, p.sender, p.payload.creds); }
    var creds := ValidateCreds(s.bySender, e.out, e.now, p.sender, p.payload.creds).1.value;
    forall cred ensures cred in creds <==> JudgedBy(env, c, events, j, p, cred) {
      UsedIffJudgedBy(env, c, events, j, p, creds, cred);
    }
    KnownIff(env, c, events, j, p, context);
    if c.fromStranger != [] { SatisfiesIff(env, c, creds); }
    AdmittedOutcome(env, c, s, e.now, p, e.out, creds, context);
    if creds != [] { assert creds[0] in creds; }
  }

  /** Classification of a request with given credentials and context. */
  lemma AdmittedOutcome(env: Env, c: Config, s: State, now: int, p: Screened, out: Outside, creds: seq<Credential>, context: Option<Text>)
    requires p.Passed? && (p.sender, p.messageId) !in Prune(s.replay, now) && ContextOf(p.message) == Ok(context)
    requires ValidateCreds(s.bySender, out, now, p.sender, p.payload.creds).1 == Some(creds)
    ensures var o := AfterScreen(env, c, s, now, p, out).1;
            if Known(c, s, now, p, context) then o.Accepted? && o.route == Inbox && o.sender == p.sender
            else if c.fromStranger == [] then o == Rejected(Policy)
            else if Satisfies(env, c.trust, c.fromStranger, creds) then o == Accepted(StrangerReview, p.sender, false)
            else o == Rejected(if creds != [] then CredsRejected else CredsRequired)
  {
  }

  /** The sender becomes a contact by a request exactly when it is known by its answer to an outbound alone. */
  lemma AutoAddIff(env: Env, c: Config, events: seq<Event>, j: nat, context: Option<Text>)
    requires ClockMonotone(events) && j < |events| && PassesAt(env, c, events, j)
    requires AllGood(events[j].out, ScreenedAt(env, c, events, j).payload.creds)
    requires InConversation(ScreenedAt(env, c, events, j).message, context)
    ensures var p, o := ScreenedAt(env, c, events, j), OutcomeAt(env, c, events, j);
            o.Accepted? && o.autoAdded <==>
              && !(c.sameProviderOrg && p.provider.Some? && c.provider == p.provider)
              && !(exists k: nat :: k < j && ContactSince(env, c, events, k, j, p.sender))
              && AnswersOutbound(events, j, context, p.sender, events[j].now - c.lookback)
  {
    var s, e, p := Run(env, c, events[..j]), events[j], ScreenedAt(env, c, events, j);
    ContextIff(p.message, context);
    if p.payload.creds != [] { PresentedAreUsed(s.bySender, e.out, e.now, p.sender, p.payload.creds); }
    ContactsHaveOrigins(env, c, events, j, p.sender);
    OutboundIff(env, c, events, j, context, p.sender);
    AutoAddOutcome(env, c, s, e.now, p, e.out, ValidateCreds(s.bySender, e.out, e.now, p.sender, p.payload.creds).1.value, context);
  }

  lemma AutoAddOutcome(env: Env, c: Config, s: State, now: int, p: Screened, out: Outside, creds: seq<Credential>, context: Option<Text>)
    requires p.Passed? && (p.sender, p.messageId) !in Prune(s.replay, now) && ContextOf(p.message) == Ok(context)
    requires ValidateCreds(s.bySender, out, now, p.sender, p.payload.creds).1 == Some(creds)
    ensures var o := AfterScreen(env, c, s, now, p, out).1;
            o.Accepted? && o.autoAdded <==>
              && !(c.sameProviderOrg && p.provider.Some? && c.provider == p.provider)
              && p.sender !in s.contacts
              && RecentOutbound(s.outbound, context, p.sender, now, c.lookback)
  {
  }
}
