/** The issuer's idempotency key: a hash over (iss, aud, req) joined so that it splits only one way. */
module Idempotency {
  import opened Unicode
  import opened JsonValue
  import opened Jcs
  import opened JsonGrammar
  import opened Identifiers

  const SEPARATOR: Byte := 0x1F
  const KIND: Text := [0x6B, 0x69, 0x6E, 0x64]
  const ORG: Text := [0x6F, 0x72, 0x67]

  /** The request object the handler and the queue hook rebuild from a CSR. */
  function Request(kind: Text, org: Text): Json {
    Obj([(KIND, Str(kind)), (ORG, Str(org))])
  }

  /** The bytes fed to SHA-256: the writes in order, or an error. */
  function Preimage(iss: Text, aud: Text, req: Json): Result<Bytes> {
    if iss == [] || aud == [] || req == Obj([]) then Err
    else
      match Canonicalize(req)
      case Err => Err
      case Ok(canonical) => Ok(Utf8(iss) + [SEPARATOR] + Utf8(aud) + [SEPARATOR] + canonical)
  }

  function IdempotencyKey(sha256: Bytes -> Text, iss: Text, aud: Text, req: Json): Result<Text> {
    match Preimage(iss, aud, req)
    case Err => Err
    case Ok(bytes) => Ok(sha256(bytes))
  }

  /** Cutting at the first separator recovers both sides. */
  lemma FirstSeparatorSplits(a: Bytes, x: Bytes, b: Bytes, y: Bytes)
    requires SEPARATOR !in a && SEPARATOR !in b
    requires a + [SEPARATOR] + x == b + [SEPARATOR] + y
    ensures a == b && x == y
  {
    var s, t := a + [SEPARATOR] + x, b + [SEPARATOR] + y;
    assert s[|a|] == SEPARATOR && t[|b|] == SEPARATOR;
    assert forall i :: 0 <= i < |a| ==> s[i] == a[i];
    assert forall i :: 0 <= i < |b| ==> t[i] == b[i];
    assert |a| == |b|;
    assert a == s[..|a|] == t[..|b|] == b;
    assert x == s[|a| + 1..] == t[|b| + 1..] == y;
  }

  /** Three parts joined by two separators: the first two separators are the joints. */
  lemma JoinedSplits(a: Bytes, b: Bytes, c: Bytes, a': Bytes, b': Bytes, c': Bytes)
    requires SEPARATOR !in a && SEPARATOR !in b && SEPARATOR !in a' && SEPARATOR !in b'
    requires a + [SEPARATOR] + b + [SEPARATOR] + c == a' + [SEPARATOR] + b' + [SEPARATOR] + c'
    ensures a == a' && b == b' && c == c'
  {
    var x, y := b + [SEPARATOR] + c, b' + [SEPARATOR] + c';
    assert a + [SEPARATOR] + b + [SEPARATOR] + c == a + [SEPARATOR] + x;
    assert a' + [SEPARATOR] + b' + [SEPARATOR] + c' == a' + [SEPARATOR] + y;
    FirstSeparatorSplits(a, x, a', y);
    FirstSeparatorSplits(b, c, b', c');
  }

  /** Equal preimages come from equal (iss, aud) and equivalent requests. */
  lemma PreimageInjective(letter: CodePoint -> bool, iss: Text, aud: Text, req: Json, iss': Text, aud': Text, req': Json)
    requires Classify(letter, iss) != Unknown && Classify(letter, aud) != Unknown
    requires Classify(letter, iss') != Unknown && Classify(letter, aud') != Unknown
    requires WellFormed(req) && WellFormed(req')
    requires Preimage(iss, aud, req).Ok? && Preimage(iss, aud, req) == Preimage(iss', aud', req')
    ensures iss == iss' && aud == aud' && Equivalent(req, req')
  {
    var c, c' := Canonicalize(req).value, Canonicalize(req').value;
    NoSeparator(letter, iss); NoSeparator(letter, aud); NoSeparator(letter, iss'); NoSeparator(letter, aud');
    JoinedSplits(Utf8(iss), Utf8(aud), c, Utf8(iss'), Utf8(aud'), c');
    Utf8Injective(iss, iss');
    Utf8Injective(aud, aud');
    CanonicalizersAgree(req);
    CanonicalizersAgree(req');
    SameBytesIffEquivalent(req, req');
  }

  lemma NoSeparator(letter: CodePoint -> bool, s: Text)
    requires Classify(letter, s) != Unknown
    ensures SEPARATOR !in Utf8(s)
  {
    ClassifiedHasNoSeparator(letter, s);
    Utf8AsciiOnlyFromItself(s, SEPARATOR);
  }

  /** Two accepted CSRs share an idempotency key exactly when they agree in all four claims. */
  lemma SameKeyIffSameRequest(sha256: Bytes -> Text, letter: CodePoint -> bool,
                              iss: Text, aud: Text, kind: Text, org: Text,
                              iss': Text, aud': Text, kind': Text, org': Text)
    requires Classify(letter, iss) != Unknown && Classify(letter, aud) != Unknown
    requires Classify(letter, iss') != Unknown && Classify(letter, aud') != Unknown
    requires Preimage(iss, aud, Request(kind, org)).Ok? && Preimage(iss', aud', Request(kind', org')).Ok?
    requires NoCollision(sha256, Preimage(iss, aud, Request(kind, org)).value, Preimage(iss', aud', Request(kind', org')).value)
    ensures IdempotencyKey(sha256, iss, aud, Request(kind, org)) == IdempotencyKey(sha256, iss', aud', Request(kind', org'))
       <==> (iss, aud, kind, org) == (iss', aud', kind', org')
  {
    var req, req' := Request(kind, org), Request(kind', org');
    assert KIND != ORG;
    if Preimage(iss, aud, req) == Preimage(iss', aud', req') {
      PreimageInjective(letter, iss, aud, req, iss', aud', req');
      RequestEquivalence(kind, org, kind', org');
    }
  }

  lemma RequestEquivalence(kind: Text, org: Text, kind': Text, org': Text)
    requires Equivalent(Request(kind, org), Request(kind', org'))
    ensures kind == kind' && org == org'
  {
    var fs, gs := Request(kind, org).fields, Request(kind', org').fields;
    assert KIND != ORG;
    LookupOf(gs, 0);
    LookupOf(gs, 1);
    assert fs[0].0 == KIND && fs[1].0 == ORG;
    assert Equivalent(fs[0].1, Lookup(gs, fs[0].0).value);
    assert Equivalent(fs[1].1, Lookup(gs, fs[1].0).value);
  }

  // ------------------------------------------------------- what is hashed

  /**
   The preimage is the issuer, a 0x1F, the audience, a 0x1F and the canonical text of the request, all
   in UTF-8; there is none exactly for an empty part or a request that cannot be canonicalized.
   */
  lemma PreimageIs(iss: Text, aud: Text, req: Json, bytes: Bytes)
    requires WellFormed(req)
    ensures Preimage(iss, aud, req) == Ok(bytes) <==>
            && iss != [] && aud != [] && req != Obj([]) && Accepted(req)
            && exists t :: IsCanonical(t, req) && bytes == Utf8(iss) + [0x1F] + Utf8(aud) + [0x1F] + Utf8(t)
  {
    if Canonicalize(req).Ok? { CanonicalBytes(req, Canonicalize(req).value); }
    forall t | Accepted(req) && IsCanonical(t, req) ensures Canonicalize(req) == Ok(Utf8(t)) {
      CanonicalBytes(req, Utf8(t));
    }
    CanonicalizersAgree(req);
  }

  /** The canonical text of the request the handler builds: `{"kind":K,"org":O}`, K and O quoted. */
  lemma RequestText(kind: Text, org: Text, k: Text, o: Text)
    requires SpellsString(k, kind) && SpellsString(o, org)
    ensures IsCanonical(Ascii("{\"kind\":") + k + Ascii(",\"org\":") + o + Ascii("}"), Request(kind, org))
  {
    var req := Request(kind, org);
    RequestSorted(kind, org);
    EquivalentReflexive(req);
    SpellsRequest(kind, org, k, o);
  }

  lemma RequestSorted(kind: Text, org: Text)
    ensures WellFormed(Request(kind, org)) && SortedThroughout(Request(kind, org))
  {
    assert Utf16(KIND)[0] == 0x6B && Utf16(ORG)[0] == 0x6F;
  }

  lemma SpellsRequest(kind: Text, org: Text, k: Text, o: Text)
    requires SpellsString(k, kind) && SpellsString(o, org)
    ensures Spells(Ascii("{\"kind\":") + k + Ascii(",\"org\":") + o + Ascii("}"), Request(kind, org))
  {
    var first, second := Ascii("\"kind\":") + k, Ascii("\"org\":") + o;
    NamedField(KIND, Ascii("\"kind\""), kind, k);
    NamedField(ORG, Ascii("\"org\""), org, o);
    assert Ascii("\"kind\"") + [Code(':')] == Ascii("\"kind\":") && Ascii("\"org\"") + [Code(':')] == Ascii("\"org\":");
    TwoFields(first, second, Request(kind, org).fields);
    Regrouped(k, o);
  }

  lemma TwoFields(first: Text, second: Text, fs: Fields)
    requires |fs| == 2 && SpellsField(first, fs[0]) && SpellsField(second, fs[1])
    ensures Spells([Code('{')] + (first + ([Code(',')] + second)) + [Code('}')], Obj(fs))
  {
    var none: Fields := [];
    assert fs[1..] == [fs[1]] && fs[1..][1..] == none;
    JoinedFields(second, [], [fs[1]]);
    assert second + [] == second;
    assert ([Code(',')] + second)[1..] == second;
    JoinedFields(first, [Code(',')] + second, fs);
    var body := first + ([Code(',')] + second);
    Bracketed([Code('{')] + body + [Code('}')], Code('{'), body, Code('}'));
  }

  lemma Regrouped(k: Text, o: Text)
    ensures Ascii("{\"kind\":") + k + Ascii(",\"org\":") + o + Ascii("}") ==
            [Code('{')] + (Ascii("\"kind\":") + k + ([Code(',')] + (Ascii("\"org\":") + o))) + [Code('}')]
  {
    assert Ascii("{\"kind\":") == [Code('{')] + Ascii("\"kind\":");
    assert Ascii(",\"org\":") == [Code(',')] + Ascii("\"org\":");
    assert Ascii("}") == [Code('}')];
  }

  lemma NamedField(name: Text, quoted: Text, value: Text, v: Text)
    requires SpellsString(quoted, name) && SpellsString(v, value)
    ensures SpellsField(quoted + [Code(':')] + v, (name, Str(value)))
  {
    var t := quoted + [Code(':')] + v;
    assert t[..|quoted|] == quoted && t[|quoted|] == Code(':') && t[|quoted| + 1..] == v;
  }
}
