/** What every run of the receiver keeps: replay protection, credential and contact provenance. */
module ReceiverRuns {
  import opened Unicode
  import opened JsonValue
  import opened Jcs
  import opened Envelope
  import opened Receiver

  // --------------------------------------------------- replay protection

  /** `key` is remembered until `until` or later. */
  predicate Remembered(s: State, key: (Text, Text), until: int) {
    key in s.replay && s.replay[key] >= until
  }

  lemma StepRemembers(env: Env, c: Config, s: State, e: Event, key: (Text, Text), until: int)
    requires Remembered(s, key, until) && e.now < until <= e.now + REPLAY_RETENTION
    ensures Remembered(Next(env, c, s, e), key, until)
  {
    if e.Incoming? { AfterScreenStores(env, c, s, e.now, Screen(env, c, e.now, e.body, e.out), e.out); }
  }

  lemma PassRemembers(env: Env, c: Config, s: State, e: Event)
    requires PassesReplay(env, c, s, e)
    ensures var p := Screen(env, c, e.now, e.body, e.out);
            var replay := Next(env, c, s, e).replay;
            (p.sender, p.messageId) in replay && replay[(p.sender, p.messageId)] == e.now + REPLAY_RETENTION
  {
    AfterScreenStores(env, c, s, e.now, Screen(env, c, e.now, e.body, e.out), e.out);
  }

  /** What is remembered at one moment is remembered until the clock gets to `until`. */
  lemma {:induction false} StillRemembered(env: Env, c: Config, events: seq<Event>, i: nat, j: nat, key: (Text, Text), until: int)
    requires i <= j <= |events| && Remembered(Run(env, c, events[..i]), key, until)
    requires forall k :: i <= k < j ==> events[k].now < until <= events[k].now + REPLAY_RETENTION
    ensures Remembered(Run(env, c, events[..j]), key, until)
  {
    if i < j {
      StillRemembered(env, c, events, i, j - 1, key, until);
      RunRemembers(env, c, events, j - 1, key, until);
    }
  }

  lemma RunRemembers(env: Env, c: Config, events: seq<Event>, k: nat, key: (Text, Text), until: int)
    requires k < |events| && Remembered(Run(env, c, events[..k]), key, until)
    requires events[k].now < until <= events[k].now + REPLAY_RETENTION
    ensures Remembered(Run(env, c, events[..k + 1]), key, until)
  {
    RunSnoc(env, c, events, k);
    StepRemembers(env, c, Run(env, c, events[..k]), events[k], key, until);
  }

  /** What passed at `i` is still remembered at `j`, less than the retention later. */
  lemma PassedIsRemembered(env: Env, c: Config, events: seq<Event>, i: nat, j: nat)
    requires ClockMonotone(events) && i < j < |events| && PassesAt(env, c, events, i)
    requires events[j].now < events[i].now + REPLAY_RETENTION
    ensures var p := Screen(env, c, events[i].now, events[i].body, events[i].out);
            Remembered(Run(env, c, events[..j]), (p.sender, p.messageId), events[i].now + REPLAY_RETENTION)
  {
    var p := Screen(env, c, events[i].now, events[i].body, events[i].out);
    PassRemembers(env, c, Run(env, c, events[..i]), events[i]);
    RunSnoc(env, c, events, i);
    StillRemembered(env, c, events, i + 1, j, (p.sender, p.messageId), events[i].now + REPLAY_RETENTION);
  }

  /** The messages of two requests that got past the hash check do not collide under the hash. */
  ghost predicate NoCollisionBetween(env: Env, c: Config, e: Event, f: Event)
    requires e.Incoming? && f.Incoming?
  {
    var p, q := Screen(env, c, e.now, e.body, e.out), Screen(env, c, f.now, f.body, f.out);
    p.Passed? && q.Passed? ==>
      && MsgHash(env.hash, p.message).Ok? && MsgHash(env.hash, q.message).Ok?
      && NoCollision(env.hash, Hashed(p.message), Hashed(q.message))
  }

  /** One envelope that is in its time window twice is in it within 300 seconds plus two leeways. */
  lemma WindowIsShort(p: Payload, t: int, u: int, leeway: int)
    requires InWindow(p, t, leeway) && InWindow(p, u, leeway)
    ensures u - t <= MAX_LIFETIME + 2 * leeway
  {
  }

  /** Requests with one payload have one sender and, without a collision, one messageId. */
  lemma SamePayloadSameKey(env: Env, c: Config, e: Event, f: Event)
    requires e.Incoming? && f.Incoming? && WellFormed(e.body) && WellFormed(f.body) && NoCollisionBetween(env, c, e, f)
    requires Screen(env, c, e.now, e.body, e.out).Passed? && Screen(env, c, f.now, f.body, f.out).Passed?
    requires Screen(env, c, e.now, e.body, e.out).payload == Screen(env, c, f.now, f.body, f.out).payload
    ensures var p, q := Screen(env, c, e.now, e.body, e.out), Screen(env, c, f.now, f.body, f.out);
            p.sender == q.sender && p.messageId == q.messageId
  {
    var p, q := Screen(env, c, e.now, e.body, e.out), Screen(env, c, f.now, f.body, f.out);
    PassedIffGenuine(env, c, e.now, e.body, e.out, p);
    PassedIffGenuine(env, c, f.now, f.body, f.out, q);
    ExtractedWellFormed(e.body);
    ExtractedWellFormed(f.body);
    MsgHashFixesMessageId(env.hash, p.message, q.message, p.messageId);
  }

  lemma ExtractedWellFormed(body: Json)
    requires WellFormed(body) && Extract(body).Some?
    ensures WellFormed(Obj(Extract(body).value.1))
  {
    var message := Lookup(body.fields, MESSAGE).value;
    assert (MESSAGE, message) in body.fields;
    var i :| 0 <= i < |body.fields| && body.fields[i] == (MESSAGE, message);
  }

  /**
   In every run on a nondecreasing clock, with the leeway under 150 seconds, one envelope passes the
   replay step at most once, whatever message carries it and however its token is written: no two
   requests that pass have the same payload, let alone the same JWS.
   */
  lemma EnvelopePassesOnce(env: Env, c: Config, events: seq<Event>, i: nat, j: nat)
    requires ClockMonotone(events) && c.leeway < 150 && i < j < |events|
    requires PassesAt(env, c, events, i) && PassesAt(env, c, events, j)
    requires WellFormed(events[i].body) && WellFormed(events[j].body) && NoCollisionBetween(env, c, events[i], events[j])
    ensures var p := Screen(env, c, events[i].now, events[i].body, events[i].out);
            var q := Screen(env, c, events[j].now, events[j].body, events[j].out);
            p.payload != q.payload && p.jws != q.jws
  {
    var e, f := events[i], events[j];
    var p, q := Screen(env, c, e.now, e.body, e.out), Screen(env, c, f.now, f.body, f.out);
    PassedMeans(env, c, e.now, e.body, e.out);
    PassedMeans(env, c, f.now, f.body, f.out);
    if p.payload == q.payload {
      SamePayloadSameKey(env, c, e, f);
      WindowIsShort(p.payload, e.now, f.now, c.leeway);
      PassedIsRemembered(env, c, events, i, j);
    }
  }

  /** Event `i` passed the replay step as `key`, less than the retention before `now`. */
  ghost predicate PassedSince(env: Env, c: Config, events: seq<Event>, i: nat, key: (Text, Text), now: int)
    requires i < |events|
  {
    && PassesAt(env, c, events, i) && now < events[i].now + REPLAY_RETENTION
    && var p := Screen(env, c, events[i].now, events[i].body, events[i].out); (p.sender, p.messageId) == key
  }

  /** Event `i` passed as `key`, and that is what the cache entry records. */
  ghost predicate Records(env: Env, c: Config, events: seq<Event>, i: nat, key: (Text, Text), until: int)
    requires i < |events|
  {
    && PassesAt(env, c, events, i) && until == events[i].now + REPLAY_RETENTION
    && var p := Screen(env, c, events[i].now, events[i].body, events[i].out); (p.sender, p.messageId) == key
  }

  /** Every cache entry was made by an earlier request that passed. */
  lemma {:induction false} EntryHasPass(env: Env, c: Config, events: seq<Event>, n: nat, key: (Text, Text)) returns (i: nat)
    requires n <= |events| && key in Run(env, c, events[..n]).replay
    ensures i < n && Records(env, c, events, i, key, Run(env, c, events[..n]).replay[key])
  {
    assert n > 0;
    RunSnoc(env, c, events, n - 1);
    var s := Run(env, c, events[..n - 1]);
    if NewEntry(env, c, s, events[n - 1], key) {
      i := n - 1;
      PassRemembers(env, c, s, events[n - 1]);
    } else {
      OldEntry(env, c, s, events[n - 1], key);
      i := EntryHasPass(env, c, events, n - 1, key);
    }
  }

  /** The request passes as `key` itself. */
  ghost predicate NewEntry(env: Env, c: Config, s: State, e: Event, key: (Text, Text)) {
    PassesReplay(env, c, s, e) && var p := Screen(env, c, e.now, e.body, e.out); (p.sender, p.messageId) == key
  }

  lemma OldEntry(env: Env, c: Config, s: State, e: Event, key: (Text, Text))
    requires key in Next(env, c, s, e).replay && !NewEntry(env, c, s, e, key)
    ensures key in s.replay && s.replay[key] == Next(env, c, s, e).replay[key]
  {
    if e.Incoming? { AfterScreenStores(env, c, s, e.now, Screen(env, c, e.now, e.body, e.out), e.out); }
  }

  /**
   In every run on a nondecreasing clock a screened request is taken for a replay if and only if a
   request with its sender and messageId passed less than 600 seconds before.
   */
  lemma ReplayRefusedIff(env: Env, c: Config, events: seq<Event>, j: nat)
    requires ClockMonotone(events) && j < |events| && events[j].Incoming?
    requires Screen(env, c, events[j].now, events[j].body, events[j].out).Passed?
    ensures var p := Screen(env, c, events[j].now, events[j].body, events[j].out);
            !PassesAt(env, c, events, j) <==>
            exists i: nat :: i < j && PassedSince(env, c, events, i, (p.sender, p.messageId), events[j].now)
  {
    var p := Screen(env, c, events[j].now, events[j].body, events[j].out);
    var key := (p.sender, p.messageId);
    if !PassesAt(env, c, events, j) {
      var i := EntryHasPass(env, c, events, j, key);
      assert PassedSince(env, c, events, i, key, events[j].now);
    }
    if i: nat :| i < j && PassedSince(env, c, events, i, key, events[j].now) {
      PassedIsRemembered(env, c, events, i, j);
    }
  }

  // ------------------------------------------------ credential provenance

  /** Some presented token verified as `cred`, and `cred` was found not revoked. */
  ghost predicate Presented(out: Outside, jwss: seq<Text>, cred: Credential) {
    exists i :: 0 <= i < |jwss| && out.verifyCredential(jwss[i]) == Some(cred) && !out.revoked(cred)
  }

  /** The request verified `cred` for `sender` and found it not revoked. */
  ghost predicate Vouches(env: Env, c: Config, e: Event, sender: Text, cred: Credential) {
    && e.Incoming?
    && var p := Screen(env, c, e.now, e.body, e.out);
       p.Passed? && p.sender == sender && Presented(e.out, p.payload.creds, cred)
  }

  ghost predicate VouchedBefore(env: Env, c: Config, events: seq<Event>, n: nat, sender: Text, cred: Credential) {
    exists k :: 0 <= k < n && k < |events| && Vouches(env, c, events[k], sender, cred)
  }

  /** A cache entry ends 60 seconds before its credential, which one of the first `n` events vouched for. */
  ghost predicate EntryVouched(env: Env, c: Config, events: seq<Event>, n: nat, sender: Text, x: (Credential, int)) {
    x.1 <= x.0.exp - CACHE_LEEWAY && VouchedBefore(env, c, events, n, sender, x.0)
  }

  ghost predicate CacheVouched(env: Env, c: Config, events: seq<Event>, n: nat, s: State) {
    forall sender, x :: x in Bucket(s.bySender, sender) ==> EntryVouched(env, c, events, n, sender, x)
  }

  lemma {:induction false} VerifiedArePresented(out: Outside, jwss: seq<Text>, i: nat)
    requires i < |Verified(out, jwss)|
    ensures Presented(out, jwss, Verified(out, jwss)[i])
  {
    var cred := Verified(out, jwss)[i];
    if i == 0 {
      assert out.verifyCredential(jwss[0]) == Some(cred);
    } else {
      VerifiedArePresented(out, jwss[1..], i - 1);
      var k :| 0 <= k < |jwss[1..]| && out.verifyCredential(jwss[1..][k]) == Some(cred) && !out.revoked(cred);
      assert jwss[k + 1] == jwss[1..][k];
    }
  }

  lemma {:induction false} LiveEntries(entries: Cached, now: int)
    ensures forall x :: x in Live(entries, now) <==> x in entries && x.1 > now
  {
    if entries != [] {
      LiveEntries(entries[1..], now);
      HeadTail(entries);
    }
  }

  /** A cache entry after validation was there before, or is of a credential just presented by its sender. */
  lemma CacheEntryOrigin(bySender: map<Text, Cached>, out: Outside, now: int, from: Text, jwss: seq<Text>,
                         sender: Text, x: (Credential, int))
    requires x in Bucket(ValidateCreds(bySender, out, now, from, jwss).0, sender)
    ensures || x in Bucket(bySender, sender)
            || (sender == from && Presented(out, jwss, x.0) && x.1 <= x.0.exp - CACHE_LEEWAY)
  {
    var bucket := Bucket(bySender, from);
    LiveEntries(bucket, now);
    var verified := Verified(out, jwss);
    var added := CacheEntries(verified, now);
    if jwss != [] && sender == from && x in added {
      var k :| 0 <= k < |added| && added[k] == x;
      VerifiedArePresented(out, jwss, k);
    }
  }

  lemma CacheStep(env: Env, c: Config, events: seq<Event>, n: nat, s: State)
    requires n < |events| && CacheVouched(env, c, events, n, s)
    ensures CacheVouched(env, c, events, n + 1, Next(env, c, s, events[n]))
  {
    var e := events[n];
    var s' := Next(env, c, s, e);
    forall sender, x | x in Bucket(s'.bySender, sender) ensures EntryVouched(env, c, events, n + 1, sender, x) {
      if x in Bucket(s.bySender, sender) {
        assert EntryVouched(env, c, events, n, sender, x);
      } else {
        NewEntryVouched(env, c, s, e, sender, x);
        assert Vouches(env, c, events[n], sender, x.0);
      }
    }
  }

  lemma NewEntryVouched(env: Env, c: Config, s: State, e: Event, sender: Text, x: (Credential, int))
    requires x in Bucket(Next(env, c, s, e).bySender, sender) && x !in Bucket(s.bySender, sender)
    ensures Vouches(env, c, e, sender, x.0) && x.1 <= x.0.exp - CACHE_LEEWAY
  {
    var p := Screen(env, c, e.now, e.body, e.out);
    AfterScreenStores(env, c, s, e.now, p, e.out);
    CacheEntryOrigin(s.bySender, e.out, e.now, p.sender, p.payload.creds, sender, x);
  }

  lemma {:induction false} RunCacheVouched(env: Env, c: Config, events: seq<Event>, n: nat)
    requires n <= |events|
    ensures CacheVouched(env, c, events, n, Run(env, c, events[..n]))
  {
    if n > 0 {
      RunCacheVouched(env, c, events, n - 1);
      RunSnoc(env, c, events, n - 1);
      CacheStep(env, c, events, n - 1, Run(env, c, events[..n - 1]));
    }
  }

  /** The credentials a request hands to classification, `p` being its screening. */
  function UsedCredentials(s: State, e: Event, p: Screened): Option<seq<Credential>>
    requires e.Incoming?
  {
    if p.Refused? || (p.sender, p.messageId) in Prune(s.replay, e.now) then None
    else ValidateCreds(s.bySender, e.out, e.now, p.sender, p.payload.creds).1
  }

  lemma CachedIsVouched(env: Env, c: Config, events: seq<Event>, n: nat, s: State, now: int, sender: Text, cred: Credential)
    requires CacheVouched(env, c, events, n, s) && cred in Credentials(Live(Bucket(s.bySender, sender), now))
    ensures VouchedBefore(env, c, events, n, sender, cred) && cred.exp > now + CACHE_LEEWAY
  {
    var x := LiveEntryOf(Bucket(s.bySender, sender), now, cred);
    assert EntryVouched(env, c, events, n, sender, x);
  }

  lemma LiveEntryOf(entries: Cached, now: int, cred: Credential) returns (x: (Credential, int))
    requires cred in Credentials(Live(entries, now))
    ensures x in entries && x.0 == cred && x.1 > now
  {
    LiveEntries(entries, now);
    var live := Live(entries, now);
    var i :| 0 <= i < |live| && live[i].0 == cred;
    x := live[i];
    assert x in live;
  }

  /**
   Over every run: each credential a request is classified by was verified and revocation-checked for
   that sender by this request or an earlier one; and if it came from the cache, it is still good for
   more than 60 seconds.
   */
  lemma ClassifiedByVouchedCredentials(env: Env, c: Config, events: seq<Event>, j: nat, p: Screened, cred: Credential)
    requires j < |events| && events[j].Incoming?
    requires p == Screen(env, c, events[j].now, events[j].body, events[j].out)
    requires UsedCredentials(Run(env, c, events[..j]), events[j], p).Some?
    requires cred in UsedCredentials(Run(env, c, events[..j]), events[j], p).value
    ensures p.Passed? && VouchedBefore(env, c, events, j + 1, p.sender, cred)
    ensures p.payload.creds == [] ==> cred.exp > events[j].now + 60
  {
    RunCacheVouched(env, c, events, j);
    if p.payload.creds == [] {
      CachedIsVouched(env, c, events, j, Run(env, c, events[..j]), events[j].now, p.sender, cred);
    } else {
      var verified := Verified(events[j].out, p.payload.creds);
      var i :| 0 <= i < |verified| && verified[i] == cred;
      VerifiedArePresented(events[j].out, p.payload.creds, i);
      assert Vouches(env, c, events[j], p.sender, cred);
    }
  }

  // --------------------------------------------------- contact provenance

  /** A rejected request leaves the contacts alone; an accepted one adds at most its sender. */
  lemma ContactsChangeOnlyByAutoAdd(env: Env, c: Config, s: State, now: int, body: Json, out: Outside)
    ensures var (s', outcome) := Receive(env, c, s, now, body, out);
            s'.contacts == if outcome.Accepted? && outcome.autoAdded then s.contacts + {outcome.sender} else s.contacts
    ensures Receive(env, c, s, now, body, out).0.outbound == s.outbound
  {
    AfterScreenStores(env, c, s, now, Screen(env, c, now, body, out), out);
  }

  ghost predicate RecordedOutbound(events: seq<Event>, n: nat, context: Text, peer: Text, at: int) {
    exists k :: 0 <= k < n && k < |events| && events[k] == RecordOutbound(at, context, peer)
  }

  lemma {:induction false} OutboundIsRecorded(env: Env, c: Config, events: seq<Event>, context: Text, peer: Text)
    requires (context, peer) in Run(env, c, events).outbound
    ensures RecordedOutbound(events, |events|, context, peer, Run(env, c, events).outbound[(context, peer)])
  {
    var init, e := events[..|events| - 1], events[|events| - 1];
    var s := Run(env, c, init);
    if e.Incoming? { ContactsChangeOnlyByAutoAdd(env, c, s, e.now, e.body, e.out); }
    if e == RecordOutbound(e.now, context, peer) {
    } else {
      OutboundIsRecorded(env, c, init, context, peer);
      var k :| 0 <= k < |init| && init[k] == RecordOutbound(s.outbound[(context, peer)], context, peer);
      assert events[k] == init[k];
    }
  }

  /** Before event `j` an outbound to the peer in this very conversation was recorded, within the lookback. */
  ghost predicate AnswersOutbound(events: seq<Event>, j: nat, context: Option<Text>, peer: Text, since: int) {
    context.Some? && context.value != [] && exists at :: RecordedOutbound(events, j, context.value, peer, at) && at >= since
  }

  /**
   Every contact the pipeline added by itself traces to a message this side sent: at the moment of the
   add, an outbound to that peer in the message's own conversation had been recorded within the lookback.
   */
  lemma AutoAddTracesToOutbound(env: Env, c: Config, events: seq<Event>, j: nat)
    requires j < |events| && events[j].Incoming?
    requires var o := Receive(env, c, Run(env, c, events[..j]), events[j].now, events[j].body, events[j].out).1;
             o.Accepted? && o.autoAdded
    ensures var p := Screen(env, c, events[j].now, events[j].body, events[j].out);
            && p.Passed? && ContextOf(p.message).Ok?
            && AnswersOutbound(events, j, ContextOf(p.message).value, p.sender, events[j].now - c.lookback)
  {
    var s, e := Run(env, c, events[..j]), events[j];
    var p := Screen(env, c, e.now, e.body, e.out);
    AutoAddHasOutbound(env, c, s, e.now, p, e.out);
    RecentIsRecorded(env, c, events, j, ContextOf(p.message).value, p.sender, e.now);
  }

  lemma RecentIsRecorded(env: Env, c: Config, events: seq<Event>, j: nat, context: Option<Text>, peer: Text, now: int)
    requires j <= |events| && RecentOutbound(Run(env, c, events[..j]).outbound, context, peer, now, c.lookback)
    ensures AnswersOutbound(events, j, context, peer, now - c.lookback)
  {
    OutboundBefore(env, c, events, j, context.value, peer);
  }

  lemma OutboundBefore(env: Env, c: Config, events: seq<Event>, j: nat, context: Text, peer: Text)
    requires j <= |events| && (context, peer) in Run(env, c, events[..j]).outbound
    ensures RecordedOutbound(events, j, context, peer, Run(env, c, events[..j]).outbound[(context, peer)])
  {
    var at := Run(env, c, events[..j]).outbound[(context, peer)];
    OutboundIsRecorded(env, c, events[..j], context, peer);
    var k :| 0 <= k < j && events[..j][k] == RecordOutbound(at, context, peer);
    assert events[k] == events[..j][k];
  }

  /** The contact set at the end of a run: each member was added by the operator or by an auto-add. */
  ghost predicate ContactOrigin(env: Env, c: Config, events: seq<Event>, k: nat, peer: Text)
    requires k < |events|
  {
    || events[k] == AddContact(events[k].now, peer)
    || (events[k].Incoming? && AutoAdds(env, c, Run(env, c, events[..k]), events[k], peer))
  }

  ghost predicate AutoAdds(env: Env, c: Config, s: State, e: Event, peer: Text)
    requires e.Incoming?
  {
    var o := Receive(env, c, s, e.now, e.body, e.out).1;
    o.Accepted? && o.autoAdded && o.sender == peer
  }

  /** Event `k` made the peer a contact, and no event before `n` removed it since. */
  ghost predicate ContactSince(env: Env, c: Config, events: seq<Event>, k: nat, n: nat, peer: Text)
    requires k < n <= |events|
  {
    ContactOrigin(env, c, events, k, peer) && forall m :: k < m < n ==> !Removes(events[m], peer)
  }

  predicate Removes(e: Event, peer: Text) { e.RemoveContact? && e.peer == peer }

  /** In every run the contacts are exactly those added, by hand or automatically, and not removed since. */
  lemma {:induction false} ContactsHaveOrigins(env: Env, c: Config, events: seq<Event>, n: nat, peer: Text)
    requires n <= |events|
    ensures peer in Run(env, c, events[..n]).contacts <==>
            exists k: nat :: k < n && ContactSince(env, c, events, k, n, peer)
  {
    if n > 0 {
      var s, e := Run(env, c, events[..n - 1]), events[n - 1];
      RunSnoc(env, c, events, n - 1);
      ContactsHaveOrigins(env, c, events, n - 1, peer);
      ContactStep(env, c, s, e, peer);
      if ContactOrigin(env, c, events, n - 1, peer) {
        assert ContactSince(env, c, events, n - 1, n, peer);
      } else if peer in s.contacts && !Removes(e, peer) {
        var k: nat :| k < n - 1 && ContactSince(env, c, events, k, n - 1, peer);
        assert ContactSince(env, c, events, k, n, peer);
      }
      if k: nat :| k < n && ContactSince(env, c, events, k, n, peer) {
        if k < n - 1 { assert ContactSince(env, c, events, k, n - 1, peer) && !Removes(events[n - 1], peer); }
      }
    }
  }

  /** One event keeps a contact unless it removes it, and makes one only by an add. */
  lemma ContactStep(env: Env, c: Config, s: State, e: Event, peer: Text)
    ensures peer in Next(env, c, s, e).contacts <==>
            || (peer in s.contacts && !Removes(e, peer))
            || e == AddContact(e.now, peer)
            || (e.Incoming? && AutoAdds(env, c, s, e, peer))
  {
    if e.Incoming? { ContactsChangeOnlyByAutoAdd(env, c, s, e.now, e.body, e.out); }
  }

  // ------------------------------------------------- grounds for acceptance

  /** Why a sender is let into the inbox: its organisation, the origin of the contact, or this side's own message. */
  ghost predicate InboxGrounds(env: Env, c: Config, events: seq<Event>, j: nat, p: Screened)
    requires j < |events| && p.Passed? && ContextOf(p.message).Ok?
  {
    || (c.sameProviderOrg && p.provider.Some? && c.provider == p.provider)
    || (exists k: nat :: k < j && ContactSince(env, c, events, k, j, p.sender))
    || AnswersOutbound(events, j, ContextOf(p.message).value, p.sender, events[j].now - c.lookback)
  }

  /** Why a stranger gets a review: a credential the policy asks for, from a trusted issuer, vouched for in this run. */
  ghost predicate ReviewGrounds(env: Env, c: Config, events: seq<Event>, j: nat, p: Screened)
    requires p.Passed?
  {
    exists cred: Credential, t: nat ::
      && t < |c.trust| && env.canonIssuer(cred.iss) == Some(c.trust[t].issuer) && cred.kind in c.trust[t].accept
      && cred.kind in c.fromStranger && VouchedBefore(env, c, events, j + 1, p.sender, cred)
  }

  /**
   Over every run an accepted request is genuine and has grounds in the run: into the inbox come only
   senders of the same organisation, contacts that the operator or an earlier answer to this side made
   and nobody removed since, and answers to this side; everybody else got a review for a credential that this run verified.
   */
  lemma AcceptedHasGrounds(env: Env, c: Config, events: seq<Event>, j: nat)
    requires j < |events| && events[j].Incoming?
    requires Receive(env, c, Run(env, c, events[..j]), events[j].now, events[j].body, events[j].out).1.Accepted?
    ensures var e := events[j];
            var p := Screen(env, c, e.now, e.body, e.out);
            var o := Receive(env, c, Run(env, c, events[..j]), e.now, e.body, e.out).1;
            && p.Passed? && Genuine(env, c, e.now, e.body, e.out, p) && PassesAt(env, c, events, j)
            && o.sender == p.sender && ContextOf(p.message).Ok?
            && if o.route == Inbox then InboxGrounds(env, c, events, j, p) else ReviewGrounds(env, c, events, j, p)
  {
    var e, s := events[j], Run(env, c, events[..j]);
    var p := Screen(env, c, e.now, e.body, e.out);
    AfterScreenStores(env, c, s, e.now, p, e.out);
    PassedIffGenuine(env, c, e.now, e.body, e.out, p);
    AcceptedIff(env, c, s, e.now, p, e.out);
    if Known(c, s, e.now, p, ContextOf(p.message).value) {
      KnownHasGrounds(env, c, events, j, p);
    } else {
      StrangerHasGrounds(env, c, events, j, p, UsedCredentials(s, e, p).value);
    }
  }

  lemma KnownHasGrounds(env: Env, c: Config, events: seq<Event>, j: nat, p: Screened)
    requires j < |events| && p.Passed? && ContextOf(p.message).Ok?
    requires Known(c, Run(env, c, events[..j]), events[j].now, p, ContextOf(p.message).value)
    ensures InboxGrounds(env, c, events, j, p)
  {
    var s, context := Run(env, c, events[..j]), ContextOf(p.message).value;
    if p.sender in s.contacts {
      ContactsHaveOrigins(env, c, events, j, p.sender);
    } else if RecentOutbound(s.outbound, context, p.sender, events[j].now, c.lookback) {
      RecentIsRecorded(env, c, events, j, context, p.sender, events[j].now);
    }
  }

  lemma StrangerHasGrounds(env: Env, c: Config, events: seq<Event>, j: nat, p: Screened, creds: seq<Credential>)
    requires j < |events| && events[j].Incoming? && p.Passed?
    requires p == Screen(env, c, events[j].now, events[j].body, events[j].out)
    requires UsedCredentials(Run(env, c, events[..j]), events[j], p) == Some(creds)
    requires c.fromStranger != [] && Satisfies(env, c.trust, c.fromStranger, creds)
    ensures ReviewGrounds(env, c, events, j, p)
  {
    var i :| 0 <= i < |creds| && Trusts(env, c.trust, creds[i]) && creds[i].kind in c.fromStranger;
    ClassifiedByVouchedCredentials(env, c, events, j, p, creds[i]);
    var t := TrustingEntry(env, c.trust, creds[i]);
    assert creds[i].kind in c.trust[t].accept;
  }

  lemma TrustingEntry(env: Env, trust: seq<TrustEntry>, cred: Credential) returns (t: nat)
    requires Trusts(env, trust, cred)
    ensures t < |trust| && env.canonIssuer(cred.iss) == Some(trust[t].issuer) && cred.kind in trust[t].accept
  {
    var target := env.canonIssuer(cred.iss).value;
    t :| 0 <= t < |trust| && trust[t].issuer == target && cred.kind in trust[t].accept;
  }
}
