/** AgentCard signing: the empty-value normaliser, the signed payload, and its verification. */
module AgentCard {
  import opened Unicode
  import opened JsonValue
  import opened Jcs
  import opened JsonGrammar

  // ------------------------------------------------------------ stripEmpty

  /** The value without its empty strings, arrays, objects and nulls; `None` when nothing is left. */
  function Strip(v: Json): Option<Json> {
    match v
    case Null => None
    case Str(s) => if s == [] then None else Some(v)
    case Arr(items) =>
      var out := StripItems(items);
      if out == [] then None else Some(Arr(out))
    case Obj(fs) =>
      var out := StripFields(fs);
      if out == [] then None else Some(Obj(out))
    case _ => Some(v)
  }

  function StripItems(items: seq<Json>): seq<Json> {
    if items == [] then []
    else
      match Strip(items[0])
      case None => StripItems(items[1..])
      case Some(v) => [v] + StripItems(items[1..])
  }

  function StripFields(fs: Fields): Fields {
    if fs == [] then []
    else
      match StripField(fs[0])
      case None => StripFields(fs[1..])
      case Some(f) => [f] + StripFields(fs[1..])
  }

  function StripField(f: (Text, Json)): Option<(Text, Json)> {
    match Strip(f.1)
    case None => None
    case Some(v) => Some((f.0, v))
  }

  /** Nothing but empty values, however deeply nested. */
  predicate Hollow(v: Json) {
    match v
    case Null => true
    case Str(s) => s == []
    case Arr(items) => forall i :: 0 <= i < |items| ==> Hollow(items[i])
    case Obj(fs) => forall i :: 0 <= i < |fs| ==> Hollow(fs[i].1)
    case _ => false
  }

  /** No empty value anywhere. */
  predicate EmptyFree(v: Json) {
    match v
    case Null => false
    case Str(s) => s != []
    case Arr(items) => items != [] && forall i :: 0 <= i < |items| ==> EmptyFree(items[i])
    case Obj(fs) => fs != [] && forall i :: 0 <= i < |fs| ==> EmptyFree(fs[i].1)
    case _ => true
  }

  /** `v` is `n` with hollow values inserted anywhere, at any depth, in arrays and in objects. */
  predicate Padded(n: Json, v: Json)
    decreases v
  {
    match (n, v)
    case (Arr(xs), Arr(ys)) => PaddedItems(xs, ys)
    case (Obj(fs), Obj(gs)) => PaddedFields(fs, gs)
    case (_, _) => n == v
  }

  predicate PaddedItems(xs: seq<Json>, ys: seq<Json>)
    decreases ys
  {
    if ys == [] then xs == []
    else
      || (Hollow(ys[0]) && PaddedItems(xs, ys[1..]))
      || (xs != [] && Padded(xs[0], ys[0]) && PaddedItems(xs[1..], ys[1..]))
  }

  predicate PaddedFields(fs: Fields, gs: Fields)
    decreases gs
  {
    if gs == [] then fs == []
    else
      || (Hollow(gs[0].1) && PaddedFields(fs, gs[1..]))
      || (fs != [] && PaddedField(fs[0], gs[0]) && PaddedFields(fs[1..], gs[1..]))
  }

  predicate PaddedField(f: (Text, Json), g: (Text, Json))
    decreases g
  {
    f.0 == g.0 && Padded(f.1, g.1)
  }

  lemma {:induction false} StripDropsExactlyHollow(v: Json)
    ensures Strip(v).None? <==> Hollow(v)
    decreases v, 0
  {
    match v
    case Arr(items) => StripItemsHollow(items);
    case Obj(fs) => StripFieldsHollow(fs);
    case _ =>
  }

  lemma {:induction false} StripItemsHollow(items: seq<Json>)
    ensures StripItems(items) == [] <==> Hollow(Arr(items))
    decreases items, 0
  {
    if items != [] {
      StripDropsExactlyHollow(items[0]);
      StripItemsHollow(items[1..]);
      assert forall i :: 0 <= i < |items| ==> items[i] == if i == 0 then items[0] else items[1..][i - 1];
      assert forall i :: 0 <= i < |items[1..]| ==> items[1..][i] == items[i + 1];
    }
  }

  lemma {:induction false} StripFieldHollow(f: (Text, Json))
    ensures StripField(f).None? <==> Hollow(f.1)
    decreases f, 0
  {
    StripDropsExactlyHollow(f.1);
  }

  lemma {:induction false} StripFieldsHollow(fs: Fields)
    ensures StripFields(fs) == [] <==> Hollow(Obj(fs))
    decreases fs, 0
  {
    if fs != [] {
      StripFieldHollow(fs[0]);
      StripFieldsHollow(fs[1..]);
      assert forall i :: 0 <= i < |fs| ==> fs[i] == if i == 0 then fs[0] else fs[1..][i - 1];
      assert forall i :: 0 <= i < |fs[1..]| ==> fs[1..][i] == fs[i + 1];
    }
  }

  /** Stripping leaves nothing empty, and the original is its result with hollow values put back. */
  lemma {:induction false} StripYieldsEmptyFree(v: Json)
    requires Strip(v).Some?
    ensures EmptyFree(Strip(v).value) && Padded(Strip(v).value, v)
    decreases v, 0
  {
    match v
    case Arr(items) => StripItemsEmptyFree(items);
    case Obj(fs) => StripFieldsEmptyFree(fs);
    case _ =>
  }

  lemma {:induction false} StripItemsEmptyFree(items: seq<Json>)
    ensures forall i :: 0 <= i < |StripItems(items)| ==> EmptyFree(StripItems(items)[i])
    ensures PaddedItems(StripItems(items), items)
    decreases items, 0
  {
    if items != [] {
      StripDropsExactlyHollow(items[0]);
      StripItemsEmptyFree(items[1..]);
      if Strip(items[0]).Some? { StripYieldsEmptyFree(items[0]); }
    }
  }

  lemma {:induction false} StripFieldEmptyFree(f: (Text, Json))
    requires StripField(f).Some?
    ensures EmptyFree(StripField(f).value.1) && PaddedField(StripField(f).value, f)
    decreases f, 0
  {
    StripYieldsEmptyFree(f.1);
  }

  lemma {:induction false} StripFieldsEmptyFree(fs: Fields)
    ensures forall i :: 0 <= i < |StripFields(fs)| ==> EmptyFree(StripFields(fs)[i].1)
    ensures PaddedFields(StripFields(fs), fs)
    decreases fs, 0
  {
    if fs != [] {
      StripFieldHollow(fs[0]);
      StripFieldsEmptyFree(fs[1..]);
      if StripField(fs[0]).Some? { StripFieldEmptyFree(fs[0]); }
    }
  }

  /** Inserting hollow values anywhere does not change what stripping returns. */
  lemma {:induction false} StripIgnoresPadding(n: Json, v: Json)
    requires Padded(n, v)
    ensures Strip(n) == Strip(v)
    decreases v, 0
  {
    match (n, v)
    case (Arr(xs), Arr(ys)) => StripItemsIgnoresPadding(xs, ys);
    case (Obj(fs), Obj(gs)) => StripFieldsIgnoresPadding(fs, gs);
    case (_, _) =>
  }

  lemma {:induction false} StripItemsIgnoresPadding(xs: seq<Json>, ys: seq<Json>)
    requires PaddedItems(xs, ys)
    ensures StripItems(xs) == StripItems(ys)
    decreases ys, 0
  {
    if ys != [] {
      StripDropsExactlyHollow(ys[0]);
      if Hollow(ys[0]) && PaddedItems(xs, ys[1..]) {
        StripItemsIgnoresPadding(xs, ys[1..]);
      } else {
        StripIgnoresPadding(xs[0], ys[0]);
        StripItemsIgnoresPadding(xs[1..], ys[1..]);
      }
    }
  }

  lemma {:induction false} StripFieldIgnoresPadding(f: (Text, Json), g: (Text, Json))
    requires PaddedField(f, g)
    ensures StripField(f) == StripField(g)
    decreases g, 0
  {
    StripIgnoresPadding(f.1, g.1);
  }

  lemma {:induction false} StripFieldsIgnoresPadding(fs: Fields, gs: Fields)
    requires PaddedFields(fs, gs)
    ensures StripFields(fs) == StripFields(gs)
    decreases gs, 0
  {
    if gs != [] {
      StripFieldHollow(gs[0]);
      if Hollow(gs[0].1) && PaddedFields(fs, gs[1..]) {
        StripFieldsIgnoresPadding(fs, gs[1..]);
      } else {
        StripFieldIgnoresPadding(fs[0], gs[0]);
        StripFieldsIgnoresPadding(fs[1..], gs[1..]);
      }
    }
  }

  lemma {:induction false} StripKeepsEmptyFree(v: Json)
    requires EmptyFree(v)
    ensures Strip(v) == Some(v)
    decreases v, 0
  {
    match v
    case Arr(items) => StripItemsKeeps(items);
    case Obj(fs) => StripFieldsKeeps(fs);
    case _ =>
  }

  lemma {:induction false} StripItemsKeeps(items: seq<Json>)
    requires forall i :: 0 <= i < |items| ==> EmptyFree(items[i])
    ensures StripItems(items) == items
    decreases items, 0
  {
    if items != [] {
      StripKeepsEmptyFree(items[0]);
      StripItemsKeeps(items[1..]);
      HeadTail(items);
    }
  }

  lemma {:induction false} StripFieldKeeps(f: (Text, Json))
    requires EmptyFree(f.1)
    ensures StripField(f) == Some(f)
    decreases f, 0
  {
    StripKeepsEmptyFree(f.1);
  }

  lemma {:induction false} StripFieldsKeeps(fs: Fields)
    requires forall i :: 0 <= i < |fs| ==> EmptyFree(fs[i].1)
    ensures StripFields(fs) == fs
    decreases fs, 0
  {
    if fs != [] {
      StripFieldKeeps(fs[0]);
      StripFieldsKeeps(fs[1..]);
      HeadTail(fs);
    }
  }

  /** The result is THE empty-free value that `v` pads: it exists unless `v` is hollow, and is unique. */
  lemma StripIsTheNormalForm(v: Json, n: Json)
    ensures Strip(v) == Some(n) <==> EmptyFree(n) && Padded(n, v)
    ensures Strip(v) == Some(n) ==> Strip(n) == Some(n)
    ensures Strip(v).None? <==> Hollow(v)
  {
    StripDropsExactlyHollow(v);
    if Strip(v) == Some(n) {
      StripYieldsEmptyFree(v);
      StripKeepsEmptyFree(n);
    }
    if EmptyFree(n) && Padded(n, v) {
      StripIgnoresPadding(n, v);
      StripKeepsEmptyFree(n);
    }
  }

  // ------------------------------------------- stripping and field order

  lemma {:induction false} StripFieldsElements(fs: Fields, f: (Text, Json))
    ensures f in StripFields(fs) <==> exists i :: 0 <= i < |fs| && StripField(fs[i]) == Some(f)
  {
    if fs != [] {
      StripFieldsElements(fs[1..], f);
      assert forall i :: 1 <= i < |fs| ==> fs[i] == fs[1..][i - 1];
      if f in StripFields(fs[1..]) {
        var i :| 0 <= i < |fs[1..]| && StripField(fs[1..][i]) == Some(f);
        assert StripField(fs[i + 1]) == Some(f);
      }
      if exists i :: 0 <= i < |fs| && StripField(fs[i]) == Some(f) {
        var i :| 0 <= i < |fs| && StripField(fs[i]) == Some(f);
        if i > 0 { assert StripField(fs[1..][i - 1]) == Some(f); }
      }
    }
  }

  lemma {:induction false} StripFieldsDistinct(fs: Fields)
    requires DistinctKeys(fs)
    ensures DistinctKeys(StripFields(fs))
  {
    if fs != [] {
      StripFieldsDistinct(fs[1..]);
      var rest := StripFields(fs[1..]);
      if StripField(fs[0]).Some? {
        forall j | 0 <= j < |rest| ensures rest[j].0 != fs[0].0 {
          StripFieldsElements(fs[1..], rest[j]);
          var i :| 0 <= i < |fs[1..]| && StripField(fs[1..][i]) == Some(rest[j]);
          assert fs[i + 1].0 == rest[j].0;
        }
      }
    }
  }

  lemma StripFieldsLookup(fs: Fields, key: Text)
    requires DistinctKeys(fs)
    ensures Lookup(StripFields(fs), key) ==
            match Lookup(fs, key) { case None => None case Some(v) => Strip(v) }
  {
    StripFieldsDistinct(fs);
    var out := StripFields(fs);
    if Lookup(out, key).Some? {
      var f := (key, Lookup(out, key).value);
      StripFieldsElements(fs, f);
      var i :| 0 <= i < |fs| && StripField(fs[i]) == Some(f);
      LookupOf(fs, i);
    } else if Lookup(fs, key).Some? && Strip(Lookup(fs, key).value).Some? {
      var i :| 0 <= i < |fs| && fs[i] == (key, Lookup(fs, key).value);
      var f := StripField(fs[i]).value;
      StripFieldsElements(fs, f);
    }
  }

  lemma {:induction false} StripKeepsWellFormed(v: Json)
    requires WellFormed(v) && Strip(v).Some?
    ensures WellFormed(Strip(v).value)
    decreases v, 0
  {
    match v
    case Arr(items) => StripItemsWellFormed(items);
    case Obj(fs) =>
      StripFieldsDistinct(fs);
      var out := StripFields(fs);
      forall j | 0 <= j < |out| ensures WellFormed(out[j].1) {
        StripFieldsElements(fs, out[j]);
        var i :| 0 <= i < |fs| && StripField(fs[i]) == Some(out[j]);
        StripKeepsWellFormed(fs[i].1);
      }
    case _ =>
  }

  lemma {:induction false} StripItemsWellFormed(items: seq<Json>)
    requires forall i :: 0 <= i < |items| ==> WellFormed(items[i])
    ensures forall i :: 0 <= i < |StripItems(items)| ==> WellFormed(StripItems(items)[i])
    decreases items, 0
  {
    if items != [] {
      StripItemsWellFormed(items[1..]);
      if Strip(items[0]).Some? { StripKeepsWellFormed(items[0]); }
    }
  }

  /** Stripping does not see the order of fields: equivalent values strip to equivalent values. */
  lemma {:induction false} StripRespectsEquivalence(a: Json, b: Json)
    requires WellFormed(a) && WellFormed(b) && Equivalent(a, b)
    ensures Strip(a).Some? == Strip(b).Some?
    ensures Strip(a).Some? ==> Equivalent(Strip(a).value, Strip(b).value)
    decreases a, 0
  {
    match (a, b)
    case (Arr(xs), Arr(ys)) => StripItemsEquivalent(xs, ys);
    case (Obj(fs), Obj(gs)) =>
      var out, out' := StripFields(fs), StripFields(gs);
      forall key
        ensures Lookup(out, key).Some? == Lookup(out', key).Some?
        ensures Lookup(out, key).Some? ==> Equivalent(Lookup(out, key).value, Lookup(out', key).value)
      {
        StripFieldsLookup(fs, key);
        StripFieldsLookup(gs, key);
        EquivalentLookups(fs, gs, key);
        if Lookup(fs, key).Some? {
          StripRespectsEquivalence(Lookup(fs, key).value, Lookup(gs, key).value);
        }
      }
      StripFieldsDistinct(fs);
      LookupsMakeEquivalent(out, out');
      EmptyTogether(out, out');
    case (_, _) =>
  }

  lemma EmptyTogether(fs: Fields, gs: Fields)
    requires forall key :: Lookup(fs, key).Some? == Lookup(gs, key).Some?
    ensures (fs == []) == (gs == [])
  {
    if fs != [] { assert Lookup(fs, fs[0].0).Some?; }
    if gs != [] { assert Lookup(gs, gs[0].0).Some?; }
  }

  lemma {:induction false} StripItemsEquivalent(xs: seq<Json>, ys: seq<Json>)
    requires |xs| == |ys|
    requires forall i :: 0 <= i < |xs| ==> WellFormed(xs[i]) && WellFormed(ys[i]) && Equivalent(xs[i], ys[i])
    ensures |StripItems(xs)| == |StripItems(ys)|
    ensures forall i :: 0 <= i < |StripItems(xs)| ==> Equivalent(StripItems(xs)[i], StripItems(ys)[i])
    decreases xs, 0
  {
    if xs != [] {
      StripRespectsEquivalence(xs[0], ys[0]);
      StripItemsEquivalent(xs[1..], ys[1..]);
    }
  }

  // ------------------------------------------------------- signed payload

  /** The key `signatures`. */
  const SIGNATURES: Text := [0x73, 0x69, 0x67, 0x6E, 0x61, 0x74, 0x75, 0x72, 0x65, 0x73]

  /** The signed bytes of a card body: strip, reject a hollow body, canonicalize. */
  function Payload(body: Fields): Result<Bytes> {
    match Strip(Obj(body))
    case None => Err
    case Some(pruned) => Canonicalize(pruned)
  }

  /** The signed bytes are the UTF-8 of the canonical text of the empty-free value that the body pads; there are none without one. */
  lemma PayloadIs(body: Fields, bytes: Bytes)
    requires WellFormed(Obj(body))
    ensures Payload(body) == Ok(bytes) <==>
            exists n: Json, t: Text ::
              EmptyFree(n) && Padded(n, Obj(body)) && Accepted(n) && IsCanonical(t, n) && bytes == Utf8(t)
  {
    if Payload(body) == Ok(bytes) {
      var n := Strip(Obj(body)).value;
      StripIsTheNormalForm(Obj(body), n);
      StripKeepsWellFormed(Obj(body));
      CanonicalBytes(n, bytes);
    }
    if n: Json, t: Text :|
      EmptyFree(n) && Padded(n, Obj(body)) && Accepted(n) && IsCanonical(t, n) && bytes == Utf8(t) {
      StripIsTheNormalForm(Obj(body), n);
      StripKeepsWellFormed(Obj(body));
      CanonicalBytes(n, bytes);
    }
  }

  function StripSignatures(card: Fields): Fields { Without(card, SIGNATURES) }

  lemma {:induction false} StripSignaturesOfSigned(body: Fields, signatures: Json)
    requires Lookup(body, SIGNATURES).None?
    ensures StripSignatures(body + [(SIGNATURES, signatures)]) == body
  {
    var card := body + [(SIGNATURES, signatures)];
    if body == [] {
      assert card[1..] == [] && Without(card[1..], SIGNATURES) == [];
    } else {
      assert forall i :: 0 <= i < |body[1..]| ==> body[1..][i] == body[i + 1];
      assert card[1..] == body[1..] + [(SIGNATURES, signatures)];
      StripSignaturesOfSigned(body[1..], signatures);
      HeadTail(body);
    }
  }

  /** Two bodies sign to the same bytes exactly when they strip to equivalent values. */
  lemma SamePayloadIffEquivalent(a: Fields, b: Fields)
    requires WellFormed(Obj(a)) && WellFormed(Obj(b)) && Payload(a).Ok? && Payload(b).Ok?
    ensures Payload(a) == Payload(b) <==> Equivalent(Strip(Obj(a)).value, Strip(Obj(b)).value)
  {
    var x, y := Strip(Obj(a)).value, Strip(Obj(b)).value;
    StripKeepsWellFormed(Obj(a));
    StripKeepsWellFormed(Obj(b));
    CanonicalizersAgree(x);
    CanonicalizersAgree(y);
    SameBytesIffEquivalent(x, y);
  }

  /** Reordering fields and padding with hollow values in transport leaves the signed bytes alone. */
  lemma PayloadSurvivesTransport(body: Fields, padded: Fields, received: Fields)
    requires WellFormed(Obj(padded)) && WellFormed(Obj(received)) && Payload(body).Ok?
    requires Padded(Obj(body), Obj(padded)) && Equivalent(Obj(padded), Obj(received))
    ensures Payload(received) == Payload(body)
  {
    StripIgnoresPadding(Obj(body), Obj(padded));
    StripRespectsEquivalence(Obj(padded), Obj(received));
    var x, y := Strip(Obj(padded)).value, Strip(Obj(received)).value;
    StripKeepsWellFormed(Obj(padded));
    StripKeepsWellFormed(Obj(received));
    CanonicalizersAgree(x);
    EquivalentAccepted(x, y);
    SameBytesIffEquivalent(x, y);
  }

  // ------------------------------------------------------ sign and verify

  const PROTECTED: Text := [0x70, 0x72, 0x6F, 0x74, 0x65, 0x63, 0x74, 0x65, 0x64]
  const SIGNATURE: Text := [0x73, 0x69, 0x67, 0x6E, 0x61, 0x74, 0x75, 0x72, 0x65]

  /** The claims of a protected header that verification looks at. */
  datatype Header = Header(algIsEdDSA: bool, typIsJose: bool, kid: Text)

  /**
   Ed25519, base64url and the header's JSON, left uninterpreted: `header` and `readHeader` are the
   encoded protected header and its decoding, `sign` and `verify` the signature over the signing input.
   */
  datatype Scheme = Scheme(
    header: Text -> Text,
    readHeader: Text -> Option<Header>,
    sign: (Text, Bytes) -> Text,
    verify: (Text, Bytes, Text) -> bool,
    publicKey: Text -> Text)

  /** Signatures made with a key verify under its public key, headers read back, neither is empty. */
  ghost predicate Sound(s: Scheme) {
    && (forall key, m :: s.verify(s.publicKey(key), m, s.sign(key, m)))
    && (forall key, m :: s.sign(key, m) != [])
    && (forall kid :: s.header(kid) != [] && s.readHeader(s.header(kid)) == Some(Header(true, true, kid)))
  }

  function SigningInput(protected: Text, payload: Bytes): Bytes {
    Utf8(protected) + [0x2E] + payload
  }

  function SignatureEntry(s: Scheme, payload: Bytes, key: Text, kid: Text): Json {
    var protected := s.header(kid);
    Obj([(PROTECTED, Str(protected)), (SIGNATURE, Str(s.sign(key, SigningInput(protected, payload))))])
  }

  /** `Sign`; `kid` is `None` when the identifier the mode needs is missing or malformed. */
  function Sign(s: Scheme, body: Fields, key: Text, kid: Option<Text>): Result<Fields> {
    if Lookup(body, SIGNATURES).Some? then Err else SignedCard(s, body, Payload(body), key, kid)
  }

  /** The body with one signature over the payload, when there are both a payload and a `kid`. */
  function SignedCard(s: Scheme, body: Fields, payload: Result<Bytes>, key: Text, kid: Option<Text>): Result<Fields> {
    match (payload, kid)
    case (Ok(bytes), Some(id)) => Ok(body + [(SIGNATURES, Arr([SignatureEntry(s, bytes, key, id)]))])
    case (_, _) => Err
  }

  /** The string under a key of a signature entry, empty when it is absent or not a string. */
  function TextAt(fs: Fields, key: Text): Text {
    match Lookup<Json>(fs, key)
    case Some(Str(t)) => t
    case _ => []
  }

  /** One signature entry is acceptable under one candidate key. */
  predicate EntryVerifies(s: Scheme, entry: Json, payload: Bytes, expectedKid: Text, key: Text) {
    && entry.Obj?
    && var protected := TextAt(entry.fields, PROTECTED);
       var signature := TextAt(entry.fields, SIGNATURE);
       && protected != [] && signature != []
       && s.readHeader(protected) == Some(Header(true, true, expectedKid))
       && s.verify(key, SigningInput(protected, payload), signature)
  }

  ghost predicate EntryAccepted(s: Scheme, entry: Json, payload: Bytes, expectedKid: Text, keys: seq<Text>) {
    exists k :: 0 <= k < |keys| && EntryVerifies(s, entry, payload, expectedKid, keys[k])
  }

  ghost predicate SignaturesAccepted(s: Scheme, signatures: Option<Json>, payload: Bytes, expectedKid: Text, keys: seq<Text>) {
    signatures.Some? && signatures.value.Arr? && AnyAccepted(s, signatures.value.items, payload, expectedKid, keys)
  }

  ghost predicate AnyAccepted(s: Scheme, entries: seq<Json>, payload: Bytes, expectedKid: Text, keys: seq<Text>) {
    exists i :: 0 <= i < |entries| && EntryAccepted(s, entries[i], payload, expectedKid, keys)
  }

  ghost predicate CardVerifies(s: Scheme, card: Fields, expectedKid: Text, keys: seq<Text>) {
    && expectedKid != [] && keys != []
    && Payload(StripSignatures(card)).Ok?
    && SignaturesAccepted(s, Lookup(card, SIGNATURES), Payload(StripSignatures(card)).value, expectedKid, keys)
  }

  /** The checks on one entry, every candidate key tried in order. */
  method VerifyEntry(s: Scheme, entry: Json, payload: Bytes, expectedKid: Text, keys: seq<Text>) returns (ok: bool)
    ensures ok == EntryAccepted(s, entry, payload, expectedKid, keys)
  {
    if !entry.Obj? { return false; }
    var protected := TextAt(entry.fields, PROTECTED);
    var signature := TextAt(entry.fields, SIGNATURE);
    if protected == [] || signature == [] { return false; }
    if s.readHeader(protected) != Some(Header(true, true, expectedKid)) { return false; }
    var input := SigningInput(protected, payload);
    for k := 0 to |keys|
      invariant forall l :: 0 <= l < k ==> !s.verify(keys[l], input, signature)
    {
      if s.verify(keys[k], input, signature) {
        assert EntryVerifies(s, entry, payload, expectedKid, keys[k]);
        return true;
      }
    }
    return false;
  }

  /** `Verify`: the first entry that checks out decides; anything else is an error. */
  method Verify(s: Scheme, card: Fields, expectedKid: Text, keys: seq<Text>) returns (ok: bool)
    ensures ok == CardVerifies(s, card, expectedKid, keys)
  {
    if expectedKid == [] || keys == [] { return false; }
    var signatures := Lookup(card, SIGNATURES);
    if !signatures.Some? || !signatures.value.Arr? { return false; }
    var payload := Payload(StripSignatures(card));
    if payload.Err? { return false; }
    ok := VerifyEntries(s, signatures.value.items, payload.value, expectedKid, keys);
  }

  method VerifyEntries(s: Scheme, entries: seq<Json>, payload: Bytes, expectedKid: Text, keys: seq<Text>) returns (ok: bool)
    ensures ok == AnyAccepted(s, entries, payload, expectedKid, keys)
  {
    for i := 0 to |entries|
      invariant forall j :: 0 <= j < i ==> !EntryAccepted(s, entries[j], payload, expectedKid, keys)
    {
      var accepted := VerifyEntry(s, entries[i], payload, expectedKid, keys);
      if accepted { return true; }
    }
    return false;
  }

  // ------------------------------------------- what verification comes to

  /** Entry `i` of the card's signatures is by `pub`, under an EdDSA JOSE header that names `kid`. */
  ghost predicate Attests(s: Scheme, card: Fields, i: nat, payload: Bytes, kid: Text, pub: Text) {
    exists entries: seq<Json>, protected: Text, signature: Text ::
      && Lookup(card, Ascii("signatures")) == Some(Arr(entries)) && i < |entries| && entries[i].Obj?
      && Lookup(entries[i].fields, Ascii("protected")) == Some(Str(protected)) && protected != []
      && Lookup(entries[i].fields, Ascii("signature")) == Some(Str(signature)) && signature != []
      && s.readHeader(protected) == Some(Header(true, true, kid))
      && s.verify(pub, Utf8(protected) + [Code('.')] + payload, signature)
  }

  lemma CardNames()
    ensures SIGNATURES == Ascii("signatures") && PROTECTED == Ascii("protected") && SIGNATURE == Ascii("signature")
  {
  }

  /** A card verifies if and only if, with a kid and keys to check it by, some entry attests its payload by some key. */
  lemma VerifiesIffAttested(s: Scheme, card: Fields, kid: Text, keys: seq<Text>)
    ensures CardVerifies(s, card, kid, keys) <==>
            && kid != [] && Payload(Without(card, Ascii("signatures"))).Ok?
            && exists i: nat, k: nat ::
                 k < |keys| && Attests(s, card, i, Payload(Without(card, Ascii("signatures"))).value, kid, keys[k])
  {
    CardNames();
    var r := Payload(Without(card, SIGNATURES));
    if CardVerifies(s, card, kid, keys) {
      var entries := Lookup(card, SIGNATURES).value.items;
      var i :| 0 <= i < |entries| && EntryAccepted(s, entries[i], r.value, kid, keys);
      var k :| 0 <= k < |keys| && EntryVerifies(s, entries[i], r.value, kid, keys[k]);
      VerifiedAttests(s, card, entries, i, r.value, kid, keys[k]);
    }
    if r.Ok? && kid != [] {
      if i: nat, k: nat :| k < |keys| && Attests(s, card, i, r.value, kid, keys[k]) {
        AttestedVerifies(s, card, i, r.value, kid, keys, k);
      }
    }
  }

  lemma VerifiedAttests(s: Scheme, card: Fields, entries: seq<Json>, i: nat, payload: Bytes, kid: Text, pub: Text)
    requires Lookup(card, SIGNATURES) == Some(Arr(entries)) && i < |entries|
    requires EntryVerifies(s, entries[i], payload, kid, pub)
    ensures Attests(s, card, i, payload, kid, pub)
  {
    CardNames();
    var protected, signature := TextAt(entries[i].fields, PROTECTED), TextAt(entries[i].fields, SIGNATURE);
    assert Lookup(entries[i].fields, PROTECTED) == Some(Str(protected));
    assert Lookup(entries[i].fields, SIGNATURE) == Some(Str(signature));
  }

  lemma AttestedVerifies(s: Scheme, card: Fields, i: nat, payload: Bytes, kid: Text, keys: seq<Text>, k: nat)
    requires k < |keys| && Attests(s, card, i, payload, kid, keys[k])
    ensures SignaturesAccepted(s, Lookup(card, SIGNATURES), payload, kid, keys)
  {
    CardNames();
    var entries := Lookup(card, SIGNATURES).value.items;
    assert EntryVerifies(s, entries[i], payload, kid, keys[k]);
    assert EntryAccepted(s, entries[i], payload, kid, keys);
  }

  /** A card without an entry whose header reads EdDSA, JOSE and the expected kid never verifies. */
  lemma NoFittingHeaderNoCard(s: Scheme, card: Fields, kid: Text, keys: seq<Text>)
    requires forall entries: seq<Json>, i: nat, protected: Text ::
      && Lookup(card, Ascii("signatures")) == Some(Arr(entries)) && i < |entries| && entries[i].Obj?
      && Lookup(entries[i].fields, Ascii("protected")) == Some(Str(protected)) ==>
        s.readHeader(protected) != Some(Header(true, true, kid))
    ensures !CardVerifies(s, card, kid, keys)
  {
    VerifiesIffAttested(s, card, kid, keys);
  }

  /** A card signed under one kid verifies under another only if they are the same. */
  lemma KidDecides(s: Scheme, body: Fields, key: Text, signed: Text, expected: Text, keys: seq<Text>)
    requires Sound(s) && WellFormed(Obj(body)) && expected != [] && s.publicKey(key) in keys
    requires Sign(s, body, key, Some(signed)).Ok?
    ensures CardVerifies(s, Sign(s, body, key, Some(signed)).value, expected, keys) <==> signed == expected
  {
    var card := Sign(s, body, key, Some(signed)).value;
    if signed == expected {
      SignThenVerify(s, body, key, expected, keys);
    } else {
      var entry := SignatureEntry(s, Payload(body).value, key, signed);
      CardNames();
      LookupLast(body, Arr([entry]));
      EntryHeader(s, Payload(body).value, key, signed);
      assert Lookup(card, Ascii("signatures")) == Some(Arr([entry]));
      NoFittingHeaderNoCard(s, card, expected, keys);
    }
  }

  lemma EntryHeader(s: Scheme, payload: Bytes, key: Text, kid: Text)
    ensures Lookup(SignatureEntry(s, payload, key, kid).fields, Ascii("protected")) == Some(Str(s.header(kid)))
  {
    CardNames();
  }

  /** Signing succeeds exactly on an unsigned body with a payload, under a kid. */
  lemma SignsIff(s: Scheme, body: Fields, key: Text, kid: Option<Text>)
    ensures Sign(s, body, key, kid).Ok? <==>
            Lookup(body, Ascii("signatures")).None? && Payload(body).Ok? && kid.Some?
  {
    CardNames();
  }

  /**
   Every card that `Sign` produces verifies under the signer's key and `kid`, even after its body was
   reordered and padded with hollow values in transport; only the `signatures` field must arrive as sent.
   */
  lemma SignedCardVerifies(s: Scheme, body: Fields, key: Text, kid: Text,
                           padded: Fields, received: Fields, keys: seq<Text>)
    requires Sound(s) && kid != [] && s.publicKey(key) in keys
    requires Sign(s, body, key, Some(kid)).Ok?
    requires Lookup(received, SIGNATURES) == Lookup(Sign(s, body, key, Some(kid)).value, SIGNATURES)
    requires WellFormed(Obj(padded)) && Padded(Obj(body), Obj(padded))
    requires WellFormed(Obj(StripSignatures(received))) && Equivalent(Obj(padded), Obj(StripSignatures(received)))
    ensures CardVerifies(s, received, kid, keys)
  {
    PayloadSurvivesTransport(body, padded, StripSignatures(received));
    var entry := SignatureEntry(s, Payload(body).value, key, kid);
    LookupLast(body, Arr([entry]));
    SignatureEntryAccepted(s, Payload(body).value, key, kid, keys);
    assert [entry][0] == entry;
  }

  lemma SignatureEntryAccepted(s: Scheme, payload: Bytes, key: Text, kid: Text, keys: seq<Text>)
    requires Sound(s) && s.publicKey(key) in keys
    ensures EntryAccepted(s, SignatureEntry(s, payload, key, kid), payload, kid, keys)
  {
    var entry := SignatureEntry(s, payload, key, kid);
    assert PROTECTED[0] != SIGNATURE[0];
    assert entry.fields[1..][0] == entry.fields[1];
    assert Lookup(entry.fields, SIGNATURE) == Lookup(entry.fields[1..], SIGNATURE);
    var k :| 0 <= k < |keys| && keys[k] == s.publicKey(key);
    assert EntryVerifies(s, entry, payload, kid, keys[k]);
  }

  /** The unmodified card is the simplest transport. */
  lemma SignThenVerify(s: Scheme, body: Fields, key: Text, kid: Text, keys: seq<Text>)
    requires Sound(s) && kid != [] && s.publicKey(key) in keys && WellFormed(Obj(body))
    requires Sign(s, body, key, Some(kid)).Ok?
    ensures CardVerifies(s, Sign(s, body, key, Some(kid)).value, kid, keys)
  {
    var card := Sign(s, body, key, Some(kid)).value;
    StripSignaturesOfSigned(body, card[|body|].1);
    PaddedReflexive(Obj(body));
    EquivalentReflexive(Obj(body));
    SignedCardVerifies(s, body, key, kid, body, card, keys);
  }

  lemma LookupLast(body: Fields, v: Json)
    requires Lookup(body, SIGNATURES).None?
    ensures Lookup(body + [(SIGNATURES, v)], SIGNATURES) == Some(v)
  {
    var card := body + [(SIGNATURES, v)];
    assert card[|body|].0 == SIGNATURES;
    var i :| 0 <= i < |card| && card[i] == (SIGNATURES, Lookup(card, SIGNATURES).value);
    assert i < |body| ==> body[i].0 == SIGNATURES;
  }

  lemma {:induction false} PaddedReflexive(v: Json)
    ensures Padded(v, v)
    decreases v, 0
  {
    match v
    case Arr(items) => PaddedItemsReflexive(items);
    case Obj(fs) => PaddedFieldsReflexive(fs);
    case _ =>
  }

  lemma {:induction false} PaddedItemsReflexive(items: seq<Json>)
    ensures PaddedItems(items, items)
    decreases items, 0
  {
    if items != [] {
      PaddedReflexive(items[0]);
      PaddedItemsReflexive(items[1..]);
    }
  }

  lemma {:induction false} PaddedFieldReflexive(f: (Text, Json))
    ensures PaddedField(f, f)
    decreases f, 0
  {
    PaddedReflexive(f.1);
  }

  lemma {:induction false} PaddedFieldsReflexive(fs: Fields)
    ensures PaddedFields(fs, fs)
    decreases fs, 0
  {
    if fs != [] {
      PaddedFieldReflexive(fs[0]);
      PaddedFieldsReflexive(fs[1..]);
    }
  }
}
