/** The envelope's binding to the message that carries it: `msgHash`. */
module Envelope {
  import opened Unicode
  import opened JsonValue
  import opened Jcs
  import opened JsonGrammar

  const MESSAGE_ID: Text := [0x6D, 0x65, 0x73, 0x73, 0x61, 0x67, 0x65, 0x49, 0x64]
  const ROLE: Text := [0x72, 0x6F, 0x6C, 0x65]
  const PARTS: Text := [0x70, 0x61, 0x72, 0x74, 0x73]
  const CONTEXT_ID: Text := [0x63, 0x6F, 0x6E, 0x74, 0x65, 0x78, 0x74, 0x49, 0x64]
  const TASK_ID: Text := [0x74, 0x61, 0x73, 0x6B, 0x49, 0x64]
  const METADATA: Text := [0x6D, 0x65, 0x74, 0x61, 0x64, 0x61, 0x74, 0x61]
  /** `urn:shadownet:0.2` */
  const EXTENSION_URI: Text :=
    [0x75, 0x72, 0x6E, 0x3A, 0x73, 0x68, 0x61, 0x64, 0x6F, 0x77, 0x6E, 0x65, 0x74, 0x3A, 0x30, 0x2E, 0x32]

  const HASHED_KEYS: seq<Text> := [MESSAGE_ID, ROLE, PARTS, CONTEXT_ID, TASK_ID, METADATA]

  /** The value hashed under a key: the message's own, but metadata without the envelope itself. */
  function HashedValue(message: Fields, key: Text): Option<Json> {
    match Lookup<Json>(message, key)
    case Some(Obj(fs)) => if key == METADATA then Some(Obj(Without(fs, EXTENSION_URI))) else Some(Obj(fs))
    case v => v
  }

  function CanonicalInput(message: Fields, keys: seq<Text>): Fields {
    if keys == [] then []
    else
      match HashedValue(message, keys[0])
      case None => CanonicalInput(message, keys[1..])
      case Some(v) => [(keys[0], v)] + CanonicalInput(message, keys[1..])
  }

  /** `metadata`, when present, must be an object: the source iterates over its items. */
  predicate HasMetadataObject(message: Fields) {
    match Lookup<Json>(message, METADATA)
    case None => true
    case Some(Obj(_)) => true
    case _ => false
  }

  /** `hash` stands for SHA-256 with its `sha256:` base64url rendering. */
  function MsgHash(hash: Bytes -> Text, message: Fields): Result<Text> {
    if !HasMetadataObject(message) then Err
    else
      match Canonicalize(Obj(CanonicalInput(message, HASHED_KEYS)))
      case Err => Err
      case Ok(bytes) => Ok(hash(bytes))
  }

  /** `compute_msg_hash`: a dictionary filled key by key, then metadata, then hashed. */
  method ComputeMsgHash(hash: Bytes -> Text, message: Fields) returns (r: Result<Text>)
    ensures r == MsgHash(hash, message)
  {
    if !HasMetadataObject(message) { return Err; }
    var input: Fields := [];
    var i := 0;
    while i < |HASHED_KEYS|
      invariant 0 <= i <= |HASHED_KEYS|
      invariant input + CanonicalInput(message, HASHED_KEYS[i..]) == CanonicalInput(message, HASHED_KEYS)
    {
      var v := HashedValue(message, HASHED_KEYS[i]);
      assert HASHED_KEYS[i..][1..] == HASHED_KEYS[i + 1..];
      if v.Some? {
        assert input + ([(HASHED_KEYS[i], v.value)] + CanonicalInput(message, HASHED_KEYS[i + 1..])) ==
               input + [(HASHED_KEYS[i], v.value)] + CanonicalInput(message, HASHED_KEYS[i + 1..]);
        input := input + [(HASHED_KEYS[i], v.value)];
      }
      i := i + 1;
    }
    assert input + [] == input;
    var bytes := Canonicalize(Obj(input));
    if bytes.Err? { return Err; }
    return Ok(hash(bytes.value));
  }

  predicate DistinctTexts(keys: seq<Text>) {
    forall i, j :: 0 <= i < j < |keys| ==> keys[i] != keys[j]
  }

  lemma HashedKeysDistinct()
    ensures DistinctTexts(HASHED_KEYS)
  {
    assert MESSAGE_ID[0] != CONTEXT_ID[0];
  }

  /** The hashed object is a dictionary that answers for each key as the message does. */
  lemma {:induction false} CanonicalInputShape(message: Fields, keys: seq<Text>)
    requires DistinctTexts(keys) && WellFormed(Obj(message))
    ensures WellFormed(Obj(CanonicalInput(message, keys)))
    ensures forall key :: Lookup(CanonicalInput(message, keys), key) ==
                          if key in keys then HashedValue(message, key) else None
  {
    if keys != [] {
      var rest := CanonicalInput(message, keys[1..]);
      CanonicalInputShape(message, keys[1..]);
      HeadTail(keys);
      assert keys[0] !in keys[1..];
      if HashedValue(message, keys[0]).Some? {
        HashedValueWellFormed(message, keys[0]);
        ConsField(keys[0], HashedValue(message, keys[0]).value, rest);
      }
    }
  }

  lemma ConsField(key: Text, v: Json, rest: Fields)
    requires WellFormed(v) && WellFormed(Obj(rest)) && Lookup(rest, key).None?
    ensures WellFormed(Obj([(key, v)] + rest))
    ensures forall k :: Lookup([(key, v)] + rest, k) == if k == key then Some(v) else Lookup(rest, k)
  {
    assert ([(key, v)] + rest)[1..] == rest;
  }

  lemma HashedValueWellFormed(message: Fields, key: Text)
    requires WellFormed(Obj(message)) && HashedValue(message, key).Some?
    ensures WellFormed(HashedValue(message, key).value)
  {
    var v := Lookup(message, key).value;
    assert (key, v) in message;
    if v.Obj? {
      WithoutDistinct(v.fields, EXTENSION_URI);
      WithoutElements(v.fields, EXTENSION_URI);
      var fs := Without(v.fields, EXTENSION_URI);
      assert forall i :: 0 <= i < |fs| ==> fs[i] in v.fields;
    }
  }

  /** The bytes that are hashed for a message. */
  ghost function Hashed(message: Fields): Bytes
    requires Canonicalize(Obj(CanonicalInput(message, HASHED_KEYS))).Ok?
  {
    Canonicalize(Obj(CanonicalInput(message, HASHED_KEYS))).value
  }

  /** Under a hashed key both messages carry nothing, or equivalent values. */
  ghost predicate SameHashed(a: Fields, b: Fields, key: Text) {
    SameUnder(HashedValue(a, key), HashedValue(b, key))
  }

  ghost predicate SameUnder(v: Option<Json>, w: Option<Json>) {
    v.Some? == w.Some? && (v.Some? ==> Equivalent(v.value, w.value))
  }

  lemma SameLookupsMakeEquivalent(x: Fields, y: Fields)
    requires DistinctKeys(x) && forall key :: SameUnder(Lookup(x, key), Lookup(y, key))
    ensures Equivalent(Obj(x), Obj(y))
  {
    forall key
      ensures Lookup(x, key).Some? == Lookup(y, key).Some?
      ensures Lookup(x, key).Some? ==> Equivalent(Lookup(x, key).value, Lookup(y, key).value)
    {
      assert SameUnder(Lookup(x, key), Lookup(y, key));
    }
    LookupsMakeEquivalent(x, y);
  }

  /** The hashed objects answer alike under a key exactly when the messages do, or it is not hashed. */
  lemma SameInputAt(a: Fields, b: Fields, keys: seq<Text>, key: Text)
    requires DistinctTexts(keys) && WellFormed(Obj(a)) && WellFormed(Obj(b))
    ensures SameUnder(Lookup(CanonicalInput(a, keys), key), Lookup(CanonicalInput(b, keys), key))
       <==> key !in keys || SameHashed(a, b, key)
  {
    CanonicalInputShape(a, keys);
    CanonicalInputShape(b, keys);
  }

  /** Inputs to the hash are equivalent exactly when the messages agree under every key. */
  lemma SameInputIff(a: Fields, b: Fields, keys: seq<Text>)
    requires DistinctTexts(keys) && WellFormed(Obj(a)) && WellFormed(Obj(b))
    requires DistinctKeys(CanonicalInput(a, keys))
    ensures Equivalent(Obj(CanonicalInput(a, keys)), Obj(CanonicalInput(b, keys)))
       <==> forall key :: key in keys ==> SameHashed(a, b, key)
  {
    var x, y := CanonicalInput(a, keys), CanonicalInput(b, keys);
    forall key ensures SameUnder(Lookup(x, key), Lookup(y, key)) <==> key !in keys || SameHashed(a, b, key) {
      SameInputAt(a, b, keys, key);
    }
    if Equivalent(Obj(x), Obj(y)) {
      forall key | key in keys ensures SameHashed(a, b, key) { EquivalentLookups(x, y, key); }
    } else if forall key :: key in keys ==> SameHashed(a, b, key) {
      SameLookupsMakeEquivalent(x, y);
    }
  }

  /**
   `msgHash` binds a message exactly: two messages have one hash if and only if they agree, up to field
   order, in messageId, role, parts, contextId, taskId and in metadata with the envelope itself left out.
   */
  lemma SameMsgHashIff(hash: Bytes -> Text, a: Fields, b: Fields)
    requires WellFormed(Obj(a)) && WellFormed(Obj(b)) && MsgHash(hash, a).Ok? && MsgHash(hash, b).Ok?
    requires NoCollision(hash, Hashed(a), Hashed(b))
    ensures MsgHash(hash, a) == MsgHash(hash, b) <==> forall key :: key in HASHED_KEYS ==> SameHashed(a, b, key)
  {
    HashedKeysDistinct();
    CanonicalInputShape(a, HASHED_KEYS);
    CanonicalInputShape(b, HASHED_KEYS);
    SameInputIff(a, b, HASHED_KEYS);
    var x, y := Obj(CanonicalInput(a, HASHED_KEYS)), Obj(CanonicalInput(b, HASHED_KEYS));
    CanonicalizersAgree(x);
    CanonicalizersAgree(y);
    SameBytesIffEquivalent(x, y);
  }

  /** Messages with one msgHash carry one messageId, unless their hashed bytes collide. */
  lemma MsgHashFixesMessageId(hash: Bytes -> Text, a: Fields, b: Fields, id: Text)
    requires WellFormed(Obj(a)) && WellFormed(Obj(b))
    requires MsgHash(hash, a).Ok? && MsgHash(hash, a) == MsgHash(hash, b) && NoCollision(hash, Hashed(a), Hashed(b))
    requires Lookup(a, MESSAGE_ID) == Some(Str(id))
    ensures Lookup(b, MESSAGE_ID) == Some(Str(id))
  {
    SameMsgHashIff(hash, a, b);
    assert HASHED_KEYS[0] == MESSAGE_ID;
    assert SameHashed(a, b, MESSAGE_ID);
  }

  // ---------------------------------------- what is hashed, field by field

  lemma HashedNames()
    ensures PlainKeys() == {Ascii("messageId"), Ascii("role"), Ascii("parts"), Ascii("contextId"), Ascii("taskId")}
    ensures METADATA == Ascii("metadata") && EXTENSION_URI == Ascii("urn:shadownet:0.2")
  {
    assert MESSAGE_ID == Ascii("messageId") && ROLE == Ascii("role") && PARTS == Ascii("parts");
    assert CONTEXT_ID == Ascii("contextId") && TASK_ID == Ascii("taskId") && METADATA == Ascii("metadata");
  }

  /** The message's own field under `plain` names; under `meta` its object without `uri`; nothing else. */
  ghost predicate AnswersFor(message: Fields, input: Fields, plain: set<Text>, meta: Text, uri: Text) {
    forall key ::
      Lookup(input, key) ==
        if key in plain then Lookup(message, key)
        else if key == meta && Lookup(message, key).Some? && Lookup(message, key).value.Obj?
        then Some(Obj(Without(Lookup(message, key).value.fields, uri)))
        else None
  }

  ghost predicate IsHashInput(message: Fields, input: Fields) {
    && WellFormed(Obj(input))
    && AnswersFor(message, input, {Ascii("messageId"), Ascii("role"), Ascii("parts"), Ascii("contextId"), Ascii("taskId")},
                  Ascii("metadata"), Ascii("urn:shadownet:0.2"))
  }

  function PlainKeys(): set<Text> { {MESSAGE_ID, ROLE, PARTS, CONTEXT_ID, TASK_ID} }

  lemma KeysSplit(key: Text)
    ensures key in HASHED_KEYS <==> key in PlainKeys() || key == METADATA
    ensures METADATA !in PlainKeys()
  {
    assert |MESSAGE_ID| == 9 && |ROLE| == 4 && |PARTS| == 5 && |CONTEXT_ID| == 9 && |TASK_ID| == 6 && |METADATA| == 8;
  }

  lemma CanonicalInputAnswers(message: Fields, input: Fields)
    requires HasMetadataObject(message)
    requires forall key :: Lookup(input, key) == if key in HASHED_KEYS then HashedValue(message, key) else None
    ensures AnswersFor(message, input, PlainKeys(), METADATA, EXTENSION_URI)
  {
    forall key ensures key in HASHED_KEYS <==> key in PlainKeys() || key == METADATA { KeysSplit(key); }
    KeysSplit(METADATA);
  }

  lemma CanonicalInputIsHashInput(message: Fields)
    requires WellFormed(Obj(message)) && HasMetadataObject(message)
    ensures IsHashInput(message, CanonicalInput(message, HASHED_KEYS))
  {
    HashedKeysDistinct();
    CanonicalInputShape(message, HASHED_KEYS);
    CanonicalInputAnswers(message, CanonicalInput(message, HASHED_KEYS));
    HashedNames();
  }

  /**
   The hash is of the UTF-8 of the canonical text of exactly those fields; there is none only when the
   metadata is not an object or one of the fields cannot be canonicalized.
   */
  lemma MsgHashIs(hash: Bytes -> Text, message: Fields, input: Fields, h: Text)
    requires WellFormed(Obj(message)) && IsHashInput(message, input)
    ensures MsgHash(hash, message) == Ok(h) <==>
            && (Lookup(message, Ascii("metadata")).None? || Lookup(message, Ascii("metadata")).value.Obj?)
            && Accepted(Obj(input)) && exists t :: IsCanonical(t, Obj(input)) && h == hash(Utf8(t))
  {
    HashedNames();
    if HasMetadataObject(message) {
      var own := CanonicalInput(message, HASHED_KEYS);
      CanonicalInputIsHashInput(message);
      assert forall key :: Lookup(own, key) == Lookup(input, key);
      SameAnswersSameBytes(own, input);
      BytesExist(hash, Obj(input), h);
    }
  }

  lemma SameAnswersSameBytes(a: Fields, b: Fields)
    requires WellFormed(Obj(a)) && WellFormed(Obj(b)) && forall key :: Lookup(a, key) == Lookup(b, key)
    ensures Canonicalize(Obj(a)) == Canonicalize(Obj(b))
  {
    forall key ensures SameUnder(Lookup(a, key), Lookup(b, key)) && SameUnder(Lookup(b, key), Lookup(a, key)) {
      if Lookup(a, key).Some? {
        FieldWellFormed(a, key);
        EquivalentReflexive(Lookup(a, key).value);
      }
    }
    SameLookupsMakeEquivalent(a, b);
    SameLookupsMakeEquivalent(b, a);
    SameBytesOfEquivalent(Obj(a), Obj(b));
  }

  lemma FieldWellFormed(fs: Fields, key: Text)
    requires WellFormed(Obj(fs)) && Lookup(fs, key).Some?
    ensures WellFormed(Lookup(fs, key).value)
  {
    assert (key, Lookup(fs, key).value) in fs;
  }

  lemma SameBytesOfEquivalent(a: Json, b: Json)
    requires WellFormed(a) && WellFormed(b) && Equivalent(a, b) && Equivalent(b, a)
    ensures Canonicalize(a) == Canonicalize(b)
  {
    CanonicalizersAgree(a);
    CanonicalizersAgree(b);
    if Accepted(a) { EquivalentAccepted(a, b); }
    if Accepted(b) { EquivalentAccepted(b, a); }
    if Accepted(a) { SameBytesIffEquivalent(a, b); }
  }

  lemma BytesExist(hash: Bytes -> Text, v: Json, h: Text)
    requires WellFormed(v)
    ensures Canonicalize(v).Ok? && hash(Canonicalize(v).value) == h <==>
            Accepted(v) && exists t :: IsCanonical(t, v) && h == hash(Utf8(t))
  {
    if Canonicalize(v).Ok? { CanonicalBytes(v, Canonicalize(v).value); }
    forall t | Accepted(v) && IsCanonical(t, v) ensures Canonicalize(v) == Ok(Utf8(t)) { CanonicalBytes(v, Utf8(t)); }
  }
}
