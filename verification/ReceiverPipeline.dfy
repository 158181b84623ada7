/** The receiver's objects as the source updates them, each proved against the functions of `Receiver`. */
module ReceiverPipeline {
  import opened Unicode
  import opened JsonValue
  import opened Receiver

  class InMemoryReplayCache {
    var entries: Entries

    constructor ()
      ensures entries == map[]
    {
      entries := map[];
    }

    method Prune(now: int)
      modifies this
      ensures entries == Receiver.Prune(old(entries), now)
    {
      var expired := set k | k in entries && entries[k] <= now;
      ghost var all := expired;
      while expired != {}
        invariant expired <= all <= old(entries).Keys
        invariant entries == map k | k in old(entries) && k !in all - expired :: old(entries)[k]
      {
        var key :| key in expired;
        entries := entries - {key};
        expired := expired - {key};
      }
    }

    method Seen(sender: Text, messageId: Text, now: int) returns (seen: bool)
      modifies this
      ensures entries == Receiver.Prune(old(entries), now)
      ensures seen <==> (sender, messageId) in entries
    {
      Prune(now);
      return (sender, messageId) in entries;
    }

    method Remember(sender: Text, messageId: Text, now: int, retention: int)
      modifies this
      ensures entries == old(entries)[(sender, messageId) := now + retention]
    {
      entries := entries[(sender, messageId) := now + retention];
    }
  }

  class InMemoryContactGraph {
    var contacts: set<Text>
    var outbound: Entries

    constructor ()
      ensures contacts == {} && outbound == map[]
    {
      contacts, outbound := {}, map[];
    }

    method AddContact(peer: Text)
      modifies this`contacts
      ensures contacts == old(contacts) + {peer}
    {
      contacts := contacts + {peer};
    }

    method RemoveContact(peer: Text)
      modifies this`contacts
      ensures contacts == old(contacts) - {peer}
    {
      contacts := contacts - {peer};
    }

    method RecordOutbound(context: Text, peer: Text, now: int)
      modifies this`outbound
      ensures outbound == old(outbound)[(context, peer) := now]
    {
      outbound := outbound[(context, peer) := now];
    }

    method HasRecentOutbound(context: Text, peer: Text, now: int, lookback: int) returns (recent: bool)
      ensures recent <==> (context, peer) in outbound && outbound[(context, peer)] >= now - lookback
    {
      if (context, peer) !in outbound { return false; }
      return outbound[(context, peer)] >= now - lookback;
    }
  }

  class InMemoryCredentialCache {
    var bySender: map<Text, Cached>

    constructor ()
      ensures bySender == map[]
    {
      bySender := map[];
    }

    method ForSender(sender: Text, now: int) returns (creds: seq<Credential>)
      modifies this
      ensures var live := Live(Bucket(old(bySender), sender), now);
              bySender == old(bySender)[sender := live] && creds == Credentials(live)
    {
      var entries := Bucket(bySender, sender);
      var live: Cached := [];
      for i := 0 to |entries|
        invariant live + Live(entries[i..], now) == Live(entries, now)
      {
        assert entries[i..][1..] == entries[i + 1..];
        if entries[i].1 > now {
          assert live + ([entries[i]] + Live(entries[i + 1..], now)) == live + [entries[i]] + Live(entries[i + 1..], now);
          live := live + [entries[i]];
        }
      }
      assert live + [] == live;
      bySender := bySender[sender := live];
      return Credentials(live);
    }

    method Cache(sender: Text, cred: Credential, expiresAt: int)
      modifies this
      ensures bySender == old(bySender)[sender := Bucket(old(bySender), sender) + [(cred, expiresAt)]]
    {
      bySender := bySender[sender := Bucket(bySender, sender) + [(cred, expiresAt)]];
    }
  }

  /** `satisfies_policy`: the first trusted credential of a required kind decides. */
  method SatisfiesPolicy(env: Env, trust: seq<TrustEntry>, required: seq<Text>, creds: seq<Credential>) returns (ok: bool)
    ensures ok == Satisfies(env, trust, required, creds)
  {
    if required == [] { return true; }
    for i := 0 to |creds|
      invariant forall k :: 0 <= k < i ==> !(Trusts(env, trust, creds[k]) && creds[k].kind in required)
    {
      if !Trusts(env, trust, creds[i]) { continue; }
      if creds[i].kind in required { return true; }
    }
    return false;
  }

  /** The cache after the credentials verified so far were added to the sender's bucket. */
  function WithCached(before: map<Text, Cached>, sender: Text, verified: seq<Credential>, now: int): map<Text, Cached> {
    if verified == [] then before else before[sender := Bucket(before, sender) + CacheEntries(verified, now)]
  }

  lemma VerifiedStep(out: Outside, verified: seq<Credential>, cred: Credential, rest: seq<Text>)
    requires rest != [] && out.verifyCredential(rest[0]) == Some(cred) && !out.revoked(cred)
    ensures verified + Verified(out, rest) == verified + [cred] + Verified(out, rest[1..])
  {
  }

  lemma CachedNext(before: map<Text, Cached>, sender: Text, verified: seq<Credential>, cred: Credential, now: int)
    ensures var m := WithCached(before, sender, verified, now);
            m[sender := Bucket(m, sender) + [(cred, ExpiresAt(cred, now))]]
            == WithCached(before, sender, verified + [cred], now)
  {
    var bucket := Bucket(before, sender);
    assert bucket + CacheEntries(verified, now) + [(cred, ExpiresAt(cred, now))] ==
           bucket + CacheEntries(verified + [cred], now);
    assert bucket + CacheEntries([], now) == bucket;
  }

  class Pipeline {
    const config: Config
    const replay: InMemoryReplayCache
    const contacts: InMemoryContactGraph
    const credentials: InMemoryCredentialCache

    constructor (config: Config, replay: InMemoryReplayCache, contacts: InMemoryContactGraph, credentials: InMemoryCredentialCache)
      ensures this.config == config && this.replay == replay && this.contacts == contacts && this.credentials == credentials
    {
      this.config, this.replay, this.contacts, this.credentials := config, replay, contacts, credentials;
    }

    ghost function Stores(): State
      reads replay, contacts, credentials
    {
      State(replay.entries, contacts.contacts, contacts.outbound, credentials.bySender)
    }

    /** `_validate_creds`; `None` is the rejection of one presented credential. */
    method ValidateCreds(out: Outside, now: int, sender: Text, jwss: seq<Text>) returns (r: Option<seq<Credential>>)
      modifies credentials
      ensures (credentials.bySender, r) == Receiver.ValidateCreds(old(credentials.bySender), out, now, sender, jwss)
    {
      if jwss == [] {
        var cached := credentials.ForSender(sender, now);
        return Some(cached);
      }
      var verified := VerifyPresented(out, now, sender, jwss);
      return if |verified| == |jwss| then Some(verified) else None;
    }

    /** Verify and cache the presented credentials in order, up to the first that is rejected. */
    method VerifyPresented(out: Outside, now: int, sender: Text, jwss: seq<Text>) returns (verified: seq<Credential>)
      modifies credentials
      ensures verified == Verified(out, jwss)
      ensures credentials.bySender == WithCached(old(credentials.bySender), sender, verified, now)
    {
      verified := [];
      ghost var rest := jwss;
      for i := 0 to |jwss|
        invariant rest == jwss[i..]
        invariant verified + Verified(out, rest) == Verified(out, jwss)
        invariant credentials.bySender == WithCached(old(credentials.bySender), sender, verified, now)
      {
        if !Presentable(out, jwss[i]) {
          assert verified + [] == verified;
          return;
        }
        var cred := out.verifyCredential(jwss[i]).value;
        VerifiedStep(out, verified, cred, rest);
        CachedNext(old(credentials.bySender), sender, verified, cred, now);
        credentials.Cache(sender, cred, ExpiresAt(cred, now));
        verified := verified + [cred];
        rest := rest[1..];
      }
      assert verified + [] == verified;
    }

    /** `_classify`, adding the sender to the contacts when it answers something this side sent. */
    method Classify(env: Env, now: int, sender: Text, provider: Option<Text>, creds: seq<Credential>, context: Option<Text>)
      returns (outcome: Outcome)
      modifies contacts`contacts
      ensures outcome == Receiver.Classify(env, config, old(Stores()), now, sender, provider, creds, context)
      ensures contacts.contacts ==
              if outcome.Accepted? && outcome.autoAdded then old(contacts.contacts) + {sender} else old(contacts.contacts)
    {
      if config.sameProviderOrg && provider.Some? && config.provider == provider {
        return Accepted(Inbox, sender, false);
      }
      if sender in contacts.contacts { return Accepted(Inbox, sender, false); }
      if context.Some? && context.value != [] {
        var recent := contacts.HasRecentOutbound(context.value, sender, now, config.lookback);
        if recent {
          contacts.AddContact(sender);
          return Accepted(Inbox, sender, true);
        }
      }
      if config.fromStranger == [] { return Rejected(Policy); }
      var satisfied := SatisfiesPolicy(env, config.trust, config.fromStranger, creds);
      if !satisfied {
        if creds != [] { return Rejected(CredsRejected); }
        return Rejected(CredsRequired);
      }
      return Accepted(StrangerReview, sender, false);
    }

    method Receive(env: Env, now: int, body: Json, out: Outside) returns (outcome: Outcome)
      modifies replay, contacts`contacts, credentials
      ensures (Stores(), outcome) == Receiver.Receive(env, config, old(Stores()), now, body, out)
    {
      var p := Screen(env, config, now, body, out);
      outcome := Continue(env, now, p, out);
    }

    /** From the replay step on. */
    method Continue(env: Env, now: int, p: Screened, out: Outside) returns (outcome: Outcome)
      modifies replay, contacts`contacts, credentials
      ensures (Stores(), outcome) == AfterScreen(env, config, old(Stores()), now, p, out)
    {
      if p.Refused? { return Rejected(p.error); }
      var seen := replay.Seen(p.sender, p.messageId, now);
      if seen { return Rejected(Replay); }
      replay.Remember(p.sender, p.messageId, now, REPLAY_RETENTION);
      var creds := ValidateCreds(out, now, p.sender, p.payload.creds);
      if creds.None? { return Rejected(CredsRejected); }
      var context := ContextOf(p.message);
      if context.Err? { return Rejected(Parse); }
      outcome := Classify(env, now, p.sender, p.provider, creds.value, context.value);
    }
  }
}
