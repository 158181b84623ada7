/**
 The Python SDK's card signer.  Its bodies may hold tuples, which its normaliser passes through unread
 while its canonicalizer prints them as arrays.
 */
module PyAgentCard {
  import opened Unicode
  import opened JsonValue
  import opened Jcs
  import opened AgentCard

  /** `PyOther` stands for floats and every other type the canonicalizer refuses. */
  datatype PyValue =
    | PyNone
    | PyBool(b: bool)
    | PyInt(n: int)
    | PyStr(s: Text)
    | PyList(items: seq<PyValue>)
    | PyTuple(items: seq<PyValue>)
    | PyDict(fields: seq<(Text, PyValue)>)
    | PyOther

  type PyFields = seq<(Text, PyValue)>

  // ------------------------------------------------------------- the wire

  /** The JSON value that `json.dumps` writes and that the canonicalizer prints: tuples are arrays. */
  function Wire(v: PyValue): Json {
    match v
    case PyNone => Null
    case PyBool(b) => Bool(b)
    case PyInt(n) => Int(n)
    case PyStr(s) => Str(s)
    case PyList(items) => Arr(WireItems(items))
    case PyTuple(items) => Arr(WireItems(items))
    case PyDict(fs) => Obj(WireFields(fs))
    case PyOther => Unsupported
  }

  function WireItems(items: seq<PyValue>): seq<Json> {
    if items == [] then [] else [Wire(items[0])] + WireItems(items[1..])
  }

  function WireField(f: (Text, PyValue)): (Text, Json) { (f.0, Wire(f.1)) }

  function WireFields(fs: PyFields): Fields {
    if fs == [] then [] else [WireField(fs[0])] + WireFields(fs[1..])
  }

  // -------------------------------------------------------- _strip_empty

  function PyStrip(v: PyValue): Option<PyValue> {
    match v
    case PyDict(fs) =>
      var out := PyStripFields(fs);
      if out == [] then None else Some(PyDict(out))
    case PyList(items) =>
      var out := PyStripItems(items);
      if out == [] then None else Some(PyList(out))
    case PyStr(s) => if s == [] then None else Some(v)
    case PyNone => None
    case _ => Some(v)
  }

  function PyStripItems(items: seq<PyValue>): seq<PyValue> {
    if items == [] then []
    else
      match PyStrip(items[0])
      case None => PyStripItems(items[1..])
      case Some(v) => [v] + PyStripItems(items[1..])
  }

  function PyStripField(f: (Text, PyValue)): Option<(Text, PyValue)> {
    match PyStrip(f.1)
    case None => None
    case Some(v) => Some((f.0, v))
  }

  function PyStripFields(fs: PyFields): PyFields {
    if fs == [] then []
    else
      match PyStripField(fs[0])
      case None => PyStripFields(fs[1..])
      case Some(f) => [f] + PyStripFields(fs[1..])
  }

  /** No tuple that the normaliser comes to holds an empty value, or is one. */
  predicate TuplesFull(v: PyValue) {
    match v
    case PyTuple(_) => EmptyFree(Wire(v))
    case PyList(items) => TuplesFullItems(items)
    case PyDict(fs) => TuplesFullFields(fs)
    case _ => true
  }

  predicate TuplesFullItems(items: seq<PyValue>) {
    items == [] || (TuplesFull(items[0]) && TuplesFullItems(items[1..]))
  }

  predicate TuplesFullField(f: (Text, PyValue)) { TuplesFull(f.1) }

  predicate TuplesFullFields(fs: PyFields) {
    fs == [] || (TuplesFullField(fs[0]) && TuplesFullFields(fs[1..]))
  }

  // ----------------------- what it removes is hollow, and tuples are all it leaves

  /** The value is its stripped form with hollow values put back. */
  lemma {:induction false} PyStripRemovesHollow(v: PyValue)
    ensures PyStrip(v).None? ==> Hollow(Wire(v))
    ensures PyStrip(v).Some? ==> Padded(Wire(PyStrip(v).value), Wire(v))
    decreases v, 0
  {
    match v
    case PyList(items) => ItemsRemoveHollow(items);
    case PyDict(fs) => FieldsRemoveHollow(fs);
    case PyTuple(_) => PaddedReflexive(Wire(v));
    case _ =>
  }

  lemma {:induction false} ItemsRemoveHollow(items: seq<PyValue>)
    ensures PaddedItems(WireItems(PyStripItems(items)), WireItems(items))
    ensures PyStripItems(items) == [] ==> Hollow(Arr(WireItems(items)))
    decreases items, 0
  {
    if items != [] {
      PyStripRemovesHollow(items[0]);
      ItemsRemoveHollow(items[1..]);
      ConsItem(items[0], items[1..]);
      HeadTail(items);
      if PyStrip(items[0]).Some? { ConsItem(PyStrip(items[0]).value, PyStripItems(items[1..])); }
    }
  }

  lemma ConsItem(v: PyValue, rest: seq<PyValue>)
    ensures WireItems([v] + rest) == [Wire(v)] + WireItems(rest)
    ensures WireItems([v] + rest)[1..] == WireItems(rest)
  {
    assert ([v] + rest)[1..] == rest;
  }

  lemma {:induction false} FieldRemovesHollow(f: (Text, PyValue))
    ensures PyStripField(f).None? ==> Hollow(WireField(f).1)
    ensures PyStripField(f).Some? ==> PaddedField(WireField(PyStripField(f).value), WireField(f))
    decreases f, 0
  {
    PyStripRemovesHollow(f.1);
  }

  lemma {:induction false} FieldsRemoveHollow(fs: PyFields)
    ensures PaddedFields(WireFields(PyStripFields(fs)), WireFields(fs))
    ensures PyStripFields(fs) == [] ==> Hollow(Obj(WireFields(fs)))
    decreases fs, 0
  {
    if fs != [] {
      FieldRemovesHollow(fs[0]);
      FieldsRemoveHollow(fs[1..]);
      ConsField(fs[0], fs[1..]);
      HeadTail(fs);
      if PyStripField(fs[0]).Some? { ConsField(PyStripField(fs[0]).value, PyStripFields(fs[1..])); }
    }
  }

  lemma ConsField(f: (Text, PyValue), rest: PyFields)
    ensures WireFields([f] + rest) == [WireField(f)] + WireFields(rest)
    ensures WireFields([f] + rest)[1..] == WireFields(rest)
  {
    assert ([f] + rest)[1..] == rest;
  }

  predicate AllEmptyFree(items: seq<Json>) { forall i :: 0 <= i < |items| ==> EmptyFree(items[i]) }

  predicate AllFieldsEmptyFree(fs: Fields) { forall i :: 0 <= i < |fs| ==> EmptyFree(fs[i].1) }

  /** What is left has no empty value exactly when the tuples had none. */
  lemma {:induction false} LeftoversAreInTuples(v: PyValue)
    ensures PyStrip(v).None? ==> TuplesFull(v)
    ensures PyStrip(v).Some? ==> (EmptyFree(Wire(PyStrip(v).value)) <==> TuplesFull(v))
    decreases v, 0
  {
    match v
    case PyList(items) =>
      ItemLeftovers(items);
      if PyStripItems(items) != [] { ConsItem(PyStripItems(items)[0], PyStripItems(items)[1..]); }
    case PyDict(fs) =>
      FieldLeftovers(fs);
      if PyStripFields(fs) != [] { ConsField(PyStripFields(fs)[0], PyStripFields(fs)[1..]); }
    case _ =>
  }

  lemma {:induction false} ItemLeftovers(items: seq<PyValue>)
    ensures AllEmptyFree(WireItems(PyStripItems(items))) <==> TuplesFullItems(items)
    decreases items, 0
  {
    if items != [] {
      LeftoversAreInTuples(items[0]);
      ItemLeftovers(items[1..]);
      if PyStrip(items[0]).Some? {
        ConsItem(PyStrip(items[0]).value, PyStripItems(items[1..]));
        AllOfCons(Wire(PyStrip(items[0]).value), WireItems(PyStripItems(items[1..])));
      }
    }
  }

  lemma AllOfCons(v: Json, rest: seq<Json>)
    ensures AllEmptyFree([v] + rest) <==> EmptyFree(v) && AllEmptyFree(rest)
  {
    if AllEmptyFree([v] + rest) {
      assert ([v] + rest)[0] == v;
      assert forall i :: 0 <= i < |rest| ==> rest[i] == ([v] + rest)[i + 1];
    }
  }

  lemma {:induction false} FieldLeftover(f: (Text, PyValue))
    ensures PyStripField(f).None? ==> TuplesFullField(f)
    ensures PyStripField(f).Some? ==> (EmptyFree(WireField(PyStripField(f).value).1) <==> TuplesFullField(f))
    decreases f, 0
  {
    LeftoversAreInTuples(f.1);
  }

  lemma {:induction false} FieldLeftovers(fs: PyFields)
    ensures AllFieldsEmptyFree(WireFields(PyStripFields(fs))) <==> TuplesFullFields(fs)
    decreases fs, 0
  {
    if fs != [] {
      FieldLeftover(fs[0]);
      FieldLeftovers(fs[1..]);
      if PyStripField(fs[0]).Some? {
        ConsField(PyStripField(fs[0]).value, PyStripFields(fs[1..]));
        AllFieldsOfCons(WireField(PyStripField(fs[0]).value), WireFields(PyStripFields(fs[1..])));
      }
    }
  }

  lemma AllFieldsOfCons(f: (Text, Json), rest: Fields)
    ensures AllFieldsEmptyFree([f] + rest) <==> EmptyFree(f.1) && AllFieldsEmptyFree(rest)
  {
    if AllFieldsEmptyFree([f] + rest) {
      assert ([f] + rest)[0] == f;
      assert forall i :: 0 <= i < |rest| ==> rest[i] == ([f] + rest)[i + 1];
    }
  }

  /** Both normalisers give the same value exactly when no tuple holds an empty one. */
  lemma StripsAgreeIff(v: PyValue)
    ensures (match PyStrip(v) { case None => Strip(Wire(v)) == None case Some(p) => Strip(Wire(v)) == Some(Wire(p)) })
       <==> TuplesFull(v)
  {
    PyStripRemovesHollow(v);
    LeftoversAreInTuples(v);
    if PyStrip(v).Some? { StripIsTheNormalForm(Wire(v), Wire(PyStrip(v).value)); }
    StripDropsExactlyHollow(Wire(v));
  }

  // ------------------------------------------------------- signed payload

  /** The bytes the Python signer signs. */
  function PyPayload(body: PyFields): Result<Bytes> {
    match PyStrip(PyDict(body))
    case None => Err
    case Some(pruned) => Canonicalize(Wire(pruned))
  }

  lemma {:induction false} EquivalentEmptyFree(a: Json, b: Json)
    requires Equivalent(a, b) && EmptyFree(a) && WellFormed(b)
    ensures EmptyFree(b)
    decreases b
  {
    match (a, b)
    case (Arr(xs), Arr(ys)) =>
      forall i | 0 <= i < |ys| ensures EmptyFree(ys[i]) { EquivalentEmptyFree(xs[i], ys[i]); }
    case (Obj(fs), Obj(gs)) =>
      assert fs[0].0 in KeySet(fs);
      forall j | 0 <= j < |gs| ensures EmptyFree(gs[j].1) {
        assert gs[j].0 in KeySet(gs);
        var i :| 0 <= i < |fs| && fs[i].0 == gs[j].0;
        LookupOf(gs, j);
        EquivalentEmptyFree(fs[i].1, gs[j].1);
      }
    case (_, _) =>
  }

  lemma {:induction false} PaddedKeepsWellFormed(n: Json, v: Json)
    requires Padded(n, v) && WellFormed(v)
    ensures WellFormed(n)
    decreases v, 0
  {
    match (n, v)
    case (Arr(xs), Arr(ys)) => PaddedItemsWellFormed(xs, ys);
    case (Obj(fs), Obj(gs)) => PaddedFieldsWellFormed(fs, gs);
    case (_, _) =>
  }

  lemma {:induction false} PaddedItemsWellFormed(xs: seq<Json>, ys: seq<Json>)
    requires PaddedItems(xs, ys) && forall i :: 0 <= i < |ys| ==> WellFormed(ys[i])
    ensures forall i :: 0 <= i < |xs| ==> WellFormed(xs[i])
    decreases ys, 0
  {
    if ys != [] {
      if Hollow(ys[0]) && PaddedItems(xs, ys[1..]) {
        PaddedItemsWellFormed(xs, ys[1..]);
      } else {
        PaddedKeepsWellFormed(xs[0], ys[0]);
        PaddedItemsWellFormed(xs[1..], ys[1..]);
        HeadTail(xs);
      }
    }
  }

  lemma {:induction false} PaddedFieldWellFormed(f: (Text, Json), g: (Text, Json))
    requires PaddedField(f, g) && WellFormed(g.1)
    ensures WellFormed(f.1)
    decreases g, 0
  {
    PaddedKeepsWellFormed(f.1, g.1);
  }

  lemma {:induction false} PaddedFieldsWellFormed(fs: Fields, gs: Fields)
    requires PaddedFields(fs, gs) && WellFormed(Obj(gs))
    ensures WellFormed(Obj(fs)) && KeySet(fs) <= KeySet(gs)
    decreases gs, 0
  {
    if gs != [] {
      TailWellFormed(gs);
      if Hollow(gs[0].1) && PaddedFields(fs, gs[1..]) {
        PaddedFieldsWellFormed(fs, gs[1..]);
      } else {
        PaddedFieldWellFormed(fs[0], gs[0]);
        PaddedFieldsWellFormed(fs[1..], gs[1..]);
        HeadTail(fs);
        ConsWellFormed(fs[0], fs[1..]);
      }
    }
  }

  lemma TailWellFormed(gs: Fields)
    requires gs != [] && WellFormed(Obj(gs))
    ensures WellFormed(Obj(gs[1..])) && gs[0].0 !in KeySet(gs[1..]) && KeySet(gs) == KeySet(gs[1..]) + {gs[0].0}
  {
    assert forall i :: 0 <= i < |gs[1..]| ==> gs[1..][i] == gs[i + 1];
    assert forall i :: 1 <= i < |gs| ==> gs[i] == gs[1..][i - 1];
  }

  lemma ConsWellFormed(f: (Text, Json), rest: Fields)
    requires WellFormed(f.1) && WellFormed(Obj(rest)) && f.0 !in KeySet(rest)
    ensures WellFormed(Obj([f] + rest)) && KeySet([f] + rest) == KeySet(rest) + {f.0}
  {
    ConsKeys(f, rest);
    var fs := [f] + rest;
    assert forall i :: 0 < i < |fs| ==> fs[i] == rest[i - 1];
  }

  lemma ConsKeys(f: (Text, Json), rest: Fields)
    requires DistinctKeys(rest) && f.0 !in KeySet(rest)
    ensures DistinctKeys([f] + rest) && KeySet([f] + rest) == KeySet(rest) + {f.0}
  {
    var fs := [f] + rest;
    forall i, j | 0 <= i < j < |fs| ensures fs[i].0 != fs[j].0 {
      assert fs[j] == rest[j - 1] && rest[j - 1].0 in KeySet(rest);
    }
    forall key ensures key in KeySet(fs) <==> key in KeySet(rest) + {f.0} {
      if key in KeySet(rest) {
        var i :| 0 <= i < |rest| && rest[i].0 == key;
        assert fs[i + 1].0 == key;
      }
      assert fs[0].0 == f.0;
    }
  }

  /** Of a body it accepts, the Python signer signs the bytes a verifier recomputes exactly when no tuple holds an empty value. */
  lemma PyPayloadIff(body: PyFields)
    requires WellFormed(Obj(WireFields(body)))
    ensures TuplesFull(PyDict(body)) ==> PyPayload(body) == Payload(WireFields(body))
    ensures PyPayload(body).Ok? && PyPayload(body) == Payload(WireFields(body)) ==> TuplesFull(PyDict(body))
  {
    var v := PyDict(body);
    StripsAgreeIff(v);
    if PyPayload(body).Ok? && PyPayload(body) == Payload(WireFields(body)) {
      var p := Wire(PyStrip(v).value);
      PyStripRemovesHollow(v);
      PaddedKeepsWellFormed(p, Wire(v));
      SameBytesEmptyFree(Wire(v), p);
      LeftoversAreInTuples(v);
    }
  }

  lemma SameBytesEmptyFree(w: Json, p: Json)
    requires WellFormed(w) && WellFormed(p) && Strip(w).Some? && Canonicalize(p).Ok?
    requires Canonicalize(Strip(w).value) == Canonicalize(p)
    ensures EmptyFree(p)
  {
    var x := Strip(w).value;
    StripIsTheNormalForm(w, x);
    StripKeepsWellFormed(w);
    CanonicalizersAgree(x);
    CanonicalizersAgree(p);
    SameBytesIffEquivalent(x, p);
    EquivalentEmptyFree(x, p);
  }

  // -------------------------------------------------------------- signing

  /** Assignment to a dictionary key: in place when present, at the end otherwise. */
  function Put<V>(fs: seq<(Text, V)>, key: Text, v: V): seq<(Text, V)> {
    if fs == [] then [(key, v)]
    else if fs[0].0 == key then [(key, v)] + fs[1..]
    else [fs[0]] + Put(fs[1..], key, v)
  }

  lemma {:induction false} PutThenRead<V>(fs: seq<(Text, V)>, key: Text, v: V)
    ensures Lookup(Put(fs, key, v), key) == Some(v)
    ensures Without(Put(fs, key, v), key) == Without(fs, key)
  {
    if fs != [] {
      var put := Put(fs, key, v);
      if fs[0].0 == key {
        assert put[1..] == fs[1..];
      } else {
        PutThenRead(fs[1..], key, v);
        assert put[1..] == Put(fs[1..], key, v);
      }
    }
  }

  lemma {:induction false} PutAbsent<V>(fs: seq<(Text, V)>, key: Text, v: V)
    requires forall i :: 0 <= i < |fs| ==> fs[i].0 != key
    ensures Put(fs, key, v) == fs + [(key, v)]
  {
    if fs != [] {
      PutAbsent(fs[1..], key, v);
      HeadTail(fs);
      assert [fs[0]] + (fs[1..] + [(key, v)]) == fs + [(key, v)];
    }
  }

  lemma {:induction false} WirePut(fs: PyFields, key: Text, v: PyValue)
    ensures WireFields(Put(fs, key, v)) == Put(WireFields(fs), key, Wire(v))
  {
    if fs == [] {
      ConsField((key, v), []);
    } else if fs[0].0 == key {
      ConsField((key, v), fs[1..]);
      assert WireFields(fs)[1..] == WireFields(fs[1..]);
    } else {
      WirePut(fs[1..], key, v);
      ConsField(fs[0], Put(fs[1..], key, v));
      assert WireFields(fs)[1..] == WireFields(fs[1..]);
    }
  }

  lemma {:induction false} WireWithout(fs: PyFields, key: Text)
    ensures WireFields(Without(fs, key)) == Without(WireFields(fs), key)
  {
    if fs != [] {
      WireWithout(fs[1..], key);
      assert WireFields(fs)[1..] == WireFields(fs[1..]);
      if fs[0].0 != key { ConsField(fs[0], Without(fs[1..], key)); }
    }
  }

  function PyEntry(s: Scheme, payload: Bytes, key: Text, kid: Text): PyValue {
    var protected := s.header(kid);
    PyDict([(PROTECTED, PyStr(protected)), (SIGNATURE, PyStr(s.sign(key, SigningInput(protected, payload))))])
  }

  lemma WireEntry(s: Scheme, payload: Bytes, key: Text, kid: Text)
    ensures Wire(PyList([PyEntry(s, payload, key, kid)])) == Arr([SignatureEntry(s, payload, key, kid)])
  {
    var entry := PyEntry(s, payload, key, kid);
    WireTwo(entry.fields[0], entry.fields[1]);
    WireOne(entry);
  }

  lemma WireOne(v: PyValue)
    ensures WireItems([v]) == [Wire(v)]
  {
    ConsItem(v, []);
    assert [v] + [] == [v];
  }

  lemma WireTwo(f: (Text, PyValue), g: (Text, PyValue))
    ensures WireFields([f, g]) == [WireField(f), WireField(g)]
  {
    ConsField(g, []);
    ConsField(f, [g]);
    assert [f, g] == [f] + [g] && [g] + [] == [g];
  }

  /** `sign_agent_card_body`: earlier signatures are left out of the payload and replaced. */
  function PySign(s: Scheme, body: PyFields, key: Text, kid: Text): Result<PyFields> {
    PySignedCard(s, body, PyPayload(Without(body, SIGNATURES)), key, kid)
  }

  function PySignedCard(s: Scheme, body: PyFields, payload: Result<Bytes>, key: Text, kid: Text): Result<PyFields> {
    match payload
    case Err => Err
    case Ok(bytes) => Ok(Put(body, SIGNATURES, PyList([PyEntry(s, bytes, key, kid)])))
  }

  function WireCard(card: Result<PyFields>): Result<Fields> {
    match card { case Err => Err case Ok(fs) => Ok(WireFields(fs)) }
  }

  /** A signature verifies for no message but the one it was made for. */
  ghost predicate Exact(s: Scheme) {
    forall pub, key, m, m' :: s.verify(pub, m', s.sign(key, m)) ==> m' == m
  }

  /** What arrives of a signed card: the body's payload to recompute, and the one entry. */
  lemma WireOfSigned(s: Scheme, body: PyFields, key: Text, kid: Text)
    requires PySign(s, body, key, kid).Ok?
    ensures var card := WireFields(PySign(s, body, key, kid).value);
            var payload := PyPayload(Without(body, SIGNATURES)).value;
            && StripSignatures(card) == WireFields(Without(body, SIGNATURES))
            && Lookup(card, SIGNATURES) == Some(Arr([SignatureEntry(s, payload, key, kid)]))
  {
    var payload := PyPayload(Without(body, SIGNATURES)).value;
    var entry := PyList([PyEntry(s, payload, key, kid)]);
    WirePut(body, SIGNATURES, entry);
    WireEntry(s, payload, key, kid);
    PutThenRead(WireFields(body), SIGNATURES, Wire(entry));
    WireWithout(body, SIGNATURES);
  }

  /** An entry made for one payload is acceptable for another only if they are the same. */
  lemma EntryFixesPayload(s: Scheme, payload: Bytes, other: Bytes, key: Text, kid: Text, keys: seq<Text>)
    requires Exact(s) && AnyAccepted(s, [SignatureEntry(s, payload, key, kid)], other, kid, keys)
    ensures payload == other
  {
    var entry := SignatureEntry(s, payload, key, kid);
    var k :| 0 <= k < |keys| && EntryVerifies(s, entry, other, kid, keys[k]);
    assert PROTECTED[0] != SIGNATURE[0];
    assert entry.fields[1..][0] == entry.fields[1];
    assert Lookup(entry.fields, SIGNATURE) == Lookup(entry.fields[1..], SIGNATURE);
    var head := Utf8(s.header(kid)) + [0x2E];
    assert head + payload == head + other;
    assert payload == (head + payload)[|head|..] && other == (head + other)[|head|..];
  }

  /**
   A card the Python SDK signs, of a body signed before or not, verifies in core under the signer's key
   and `kid` if and only if no tuple of the body, its signatures aside, holds an empty value or is empty.
   */
  lemma PySignedVerifiesIff(s: Scheme, body: PyFields, key: Text, kid: Text, keys: seq<Text>)
    requires Sound(s) && Exact(s) && kid != [] && s.publicKey(key) in keys
    requires WellFormed(Obj(WireFields(Without(body, SIGNATURES)))) && PySign(s, body, key, kid).Ok?
    ensures CardVerifies(s, WireFields(PySign(s, body, key, kid).value), kid, keys)
       <==> TuplesFull(PyDict(Without(body, SIGNATURES)))
  {
    var rest := Without(body, SIGNATURES);
    var payload := PyPayload(rest).value;
    var entry := SignatureEntry(s, payload, key, kid);
    PyPayloadIff(rest);
    WireOfSigned(s, body, key, kid);
    if CardVerifies(s, WireFields(PySign(s, body, key, kid).value), kid, keys) {
      EntryFixesPayload(s, payload, Payload(WireFields(rest)).value, key, kid, keys);
    }
    if TuplesFull(PyDict(rest)) {
      SignatureEntryAccepted(s, payload, key, kid, keys);
      assert [entry][0] == entry;
    }
  }

  /** Given one payload, both signers make the same card of an unsigned body. */
  lemma CardsAgree(s: Scheme, body: PyFields, payload: Result<Bytes>, key: Text, kid: Text)
    requires Unsigned(body)
    ensures WireCard(PySignedCard(s, body, payload, key, kid)) == SignedCard(s, WireFields(body), payload, key, Some(kid))
  {
    if payload.Ok? {
      var entry := PyList([PyEntry(s, payload.value, key, kid)]);
      WireEntry(s, payload.value, key, kid);
      WireKeys(body);
      WirePut(body, SIGNATURES, entry);
      PutAbsent(WireFields(body), SIGNATURES, Wire(entry));
    }
  }

  /** Both signers make the same of an unsigned body, card or refusal, when no tuple holds an empty value. */
  lemma SignersAgree(s: Scheme, body: PyFields, key: Text, kid: Text)
    requires WellFormed(Obj(WireFields(body))) && TuplesFull(PyDict(body))
    requires Unsigned(body)
    ensures WireCard(PySign(s, body, key, kid)) == Sign(s, WireFields(body), key, Some(kid))
  {
    PyPayloadIff(body);
    OnePayloadOneCard(s, body, PyPayload(body), key, kid);
  }

  predicate Unsigned(body: PyFields) { forall i :: 0 <= i < |body| ==> body[i].0 != SIGNATURES }

  lemma OnePayloadOneCard(s: Scheme, body: PyFields, payload: Result<Bytes>, key: Text, kid: Text)
    requires Unsigned(body) && payload == PyPayload(body) && payload == Payload(WireFields(body))
    ensures WireCard(PySign(s, body, key, kid)) == Sign(s, WireFields(body), key, Some(kid))
  {
    PyUnsigned(s, body, payload, key, kid);
    GoUnsigned(s, body, payload, key, kid);
    CardsAgree(s, body, payload, key, kid);
  }

  lemma PyUnsigned(s: Scheme, body: PyFields, payload: Result<Bytes>, key: Text, kid: Text)
    requires payload == PyPayload(body) && Unsigned(body)
    ensures PySign(s, body, key, kid) == PySignedCard(s, body, payload, key, kid)
  {
    WithoutAbsent(body, SIGNATURES);
  }

  lemma GoUnsigned(s: Scheme, body: PyFields, payload: Result<Bytes>, key: Text, kid: Text)
    requires payload == Payload(WireFields(body)) && Unsigned(body)
    ensures Sign(s, WireFields(body), key, Some(kid)) == SignedCard(s, WireFields(body), payload, key, Some(kid))
  {
    WireKeys(body);
  }

  lemma {:induction false} WireKeys(fs: PyFields)
    ensures |WireFields(fs)| == |fs| && forall i :: 0 <= i < |fs| ==> WireFields(fs)[i].0 == fs[i].0
  {
    if fs != [] {
      WireKeys(fs[1..]);
      assert forall i :: 1 <= i < |fs| ==> fs[i] == fs[1..][i - 1];
    }
  }

  // ------------------------------------------------------ a card that fails

  /** `{"n": "x", "t": ()}`. */
  function EmptyTupleBody(): PyFields { [([0x6E], PyStr([0x78])), ([0x74], PyTuple([]))] }

  /** The concrete failure: a body with an empty tuple is signed, and the card does not verify. */
  lemma EmptyTupleCardFails(s: Scheme, key: Text, kid: Text, keys: seq<Text>)
    requires Sound(s) && Exact(s) && kid != [] && s.publicKey(key) in keys
    ensures PySign(s, EmptyTupleBody(), key, kid).Ok?
    ensures !CardVerifies(s, WireFields(PySign(s, EmptyTupleBody(), key, kid).value), kid, keys)
  {
    EmptyTupleIsSigned();
    PySignedVerifiesIff(s, EmptyTupleBody(), key, kid, keys);
  }

  /** Two fields of which the normaliser changes neither. */
  lemma TwoFields(f: (Text, PyValue), g: (Text, PyValue))
    ensures PyStripField(f) == Some(f) && PyStripField(g) == Some(g) ==> PyStripFields([f, g]) == [f, g]
    ensures TuplesFullFields([f, g]) <==> TuplesFullField(f) && TuplesFullField(g)
  {
    assert [f, g][1..] == [g] && [g][1..] == [];
    assert PyStripFields([]) == [] && TuplesFullFields([]);
    assert PyStripField(g) == Some(g) ==> PyStripFields([g]) == [g];
    assert TuplesFullFields([g]) <==> TuplesFullField(g);
  }

  lemma TextAndEmptyArray(fs: Fields)
    requires |fs| == 2 && fs[0].0 != fs[1].0 && ValidText(fs[0].0) && ValidText(fs[1].0)
    requires fs[0].1.Str? && ValidText(fs[0].1.s) && fs[1].1 == Arr([])
    ensures WellFormed(Obj(fs)) && Canonicalize(Obj(fs)).Ok?
  {
    CanonicalizersAgree(Obj(fs));
  }

  lemma EmptyTupleIsSigned()
    ensures Without(EmptyTupleBody(), SIGNATURES) == EmptyTupleBody()
    ensures PyPayload(EmptyTupleBody()).Ok? && !TuplesFull(PyDict(EmptyTupleBody()))
    ensures WellFormed(Obj(WireFields(EmptyTupleBody())))
  {
    var body := EmptyTupleBody();
    assert |SIGNATURES| == 10 && |body[0].0| == 1 && |body[1].0| == 1;
    WithoutAbsent(body, SIGNATURES);
    TwoFields(body[0], body[1]);
    WireTwo(body[0], body[1]);
    TextAndEmptyArray(WireFields(body));
  }
}
