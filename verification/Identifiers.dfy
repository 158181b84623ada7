/** The three identifier forms: domain, Shadowname, and multibase Ed25519 public key. */
module Identifiers {
  import opened Unicode
  import opened JsonValue
  import opened Base58

  // ---------------------------------------------------------- public keys

  const KEY_SIZE := 32
  const MULTICODEC: Bytes := [0xED, 0x01]
  const MULTIBASE_Z: CodePoint := 0x7A
  /** `z6Mk` */
  const KEY_PREFIX: Text := [0x7A, 0x36, 0x4D, 0x6B]

  function EncodePubKey(pub: Bytes): Result<Text> {
    if |pub| != KEY_SIZE then Err else Ok([MULTIBASE_Z] + Encoded(MULTICODEC + pub))
  }

  function DecodePubKey(s: Text): Result<Bytes> {
    if !(KEY_PREFIX <= s) then Err
    else
      match Decoded(s[1..])
      case Err => Err
      case Ok(raw) =>
        if |raw| < |MULTICODEC| + KEY_SIZE || raw[..2] != MULTICODEC || |raw[2..]| != KEY_SIZE then Err
        else Ok(raw[2..])
  }

  /** The quotient after `k` divisions by 58. */
  function Shifted(n: nat, k: nat): nat
    decreases k
  {
    if k == 0 then n else Shifted(n / 58, k - 1)
  }

  function Power(base: nat, k: nat): nat { if k == 0 then 1 else base * Power(base, k - 1) }

  lemma {:induction false} ShiftedBetween(n: nat, k: nat, q: nat)
    requires q * Power(58, k) <= n < (q + 1) * Power(58, k)
    ensures Shifted(n, k) == q
    decreases k
  {
    if k > 0 {
      var p := Power(58, k - 1);
      assert q * (58 * p) == 58 * (q * p) && (q + 1) * (58 * p) == 58 * ((q + 1) * p);
      ShiftedBetween(n / 58, k - 1, q);
    }
  }

  /** The digits of a number start with the digits of its quotient, if that is not zero. */
  lemma {:induction false} DigitsStartWithQuotient(n: nat, k: nat)
    requires Shifted(n, k) > 0
    ensures |Digits(58, n)| == |Digits(58, Shifted(n, k))| + k
    ensures Digits(58, Shifted(n, k)) <= Digits(58, n)
    decreases k
  {
    if k > 0 {
      ShiftedPositive(n / 58, k - 1);
      DigitsStartWithQuotient(n / 58, k - 1);
    }
  }

  lemma {:induction false} ShiftedPositive(n: nat, k: nat)
    requires Shifted(n, k) > 0
    ensures n > 0
    decreases k
  {
    if k > 0 { ShiftedPositive(n / 58, k - 1); }
  }

  lemma {:induction false} ValueOfPrefixed(prefix: seq<nat>, ds: Bytes)
    ensures Value(256, prefix + ds) == Value(256, prefix) * Power(256, |ds|) + Value(256, ds)
    ensures Value(256, ds) < Power(256, |ds|)
  {
    if ds == [] {
      assert prefix + ds == prefix;
    } else {
      var init, last := ds[..|ds| - 1], ds[|ds| - 1];
      ValueOfPrefixed(prefix, init);
      ValueSnoc(256, prefix + init, last);
      ValueSnoc(256, init, last);
      assert prefix + ds == prefix + init + [last] && ds == init + [last];
      PrefixedStep(Value(256, prefix), Power(256, |init|), Value(256, init), last);
    }
  }

  lemma PrefixedStep(v: nat, p: nat, x: nat, last: nat)
    ensures (v * p + x) * 256 + last == v * (256 * p) + (x * 256 + last)
  {
    MulAssoc(v, 256, p);
  }

  lemma MulAssoc(a: int, b: int, c: int)
    ensures a * (b * c) == a * b * c
  {
  }

  lemma {:induction false} PowerAdd(base: nat, i: nat, j: nat)
    ensures Power(base, i + j) == Power(base, i) * Power(base, j)
  {
    if i > 0 {
      PowerAdd(base, i - 1, j);
      MulAssoc(base, Power(base, i - 1), Power(base, j));
    }
  }

  lemma Powers()
    ensures Power(256, 32) == 0x1_0000000000000000_0000000000000000_0000000000000000_0000000000000000
    ensures Power(58, 44) == 389790918707373377135528568990913592653094657612049369038476873218241589149696
  {
    assert Power(256, 4) == 0x1_0000_0000;
    PowerAdd(256, 4, 4); PowerAdd(256, 8, 8); PowerAdd(256, 16, 16);
    assert Power(58, 5) == 656356768;
    PowerAdd(58, 5, 5); PowerAdd(58, 1, 10); PowerAdd(58, 11, 11); PowerAdd(58, 22, 22);
  }

  /** 34 bytes that start with the multicodec lie between 58^46 and 58^47, and all start with 5, 20, 43. */
  lemma KeyDigits(pub: Bytes)
    requires |pub| == KEY_SIZE
    ensures |Digits(58, Value(256, MULTICODEC + pub))| == 47
    ensures Digits(58, Value(256, MULTICODEC + pub))[..3] == [5, 20, 43]
  {
    var n := Value(256, MULTICODEC + pub);
    KeyValue(pub);
    Powers();
    ShiftedBetween(n, 44, 18023);
    DigitsStartWithQuotient(n, 44);
    TopDigits();
    assert Digits(58, n)[..3] == Digits(58, 18023);
  }

  lemma KeyValue(pub: Bytes)
    ensures Value(256, MULTICODEC + pub) == 60673 * Power(256, |pub|) + Value(256, pub)
    ensures Value(256, pub) < Power(256, |pub|)
  {
    ValueOfPrefixed(MULTICODEC, pub);
    MulticodecValue();
  }

  lemma MulticodecValue()
    ensures Value(256, MULTICODEC) == 60673
  {
    ValueSnoc(256, [0xED], 0x01);
    ValueSnoc(256, [], 0xED);
    assert [0xED] + [0x01] == MULTICODEC && [] + [0xED] == [0xED];
  }

  lemma TopDigits()
    ensures Digits(58, 18023) == [5, 20, 43]
  {
    assert Digits(58, 5) == Digits(58, 0) + [5] == [5];
    assert Digits(58, 310) == Digits(58, 5) + [20];
    assert Digits(58, 18023) == Digits(58, 310) + [43];
  }

  /** Every 32-byte key has a wire form of exactly 48 characters that starts with z6Mk. */
  lemma KeyWireForm(pub: Bytes)
    requires |pub| == KEY_SIZE
    ensures EncodePubKey(pub).Ok? && |EncodePubKey(pub).value| == 48 && KEY_PREFIX <= EncodePubKey(pub).value
  {
    var ds := Digits(58, Value(256, MULTICODEC + pub));
    KeyDigits(pub);
    DigitsAreMinimal(58, Value(256, MULTICODEC + pub));
    assert Convert(256, 58, MULTICODEC + pub) == ds;
    FirstLetters(ds, 5, 20, 43);
  }

  lemma FirstLetters(ds: seq<nat>, a: nat, b: nat, c: nat)
    requires |ds| >= 3 && InBase(58, ds) && ds[..3] == [a, b, c]
    ensures |Letters(ds)| == |ds|
    ensures [Letter(ds[0]), Letter(ds[1]), Letter(ds[2])] <= Letters(ds)
    ensures ds[0] == a && ds[1] == b && ds[2] == c
  {
    LettersPointwise(ds);
    assert ds[..3][0] == a && ds[..3][1] == b && ds[..3][2] == c;
  }

  /** A key decodes from its wire form, and only from that one: keys and wire forms match one to one. */
  lemma KeyRoundTrip(pub: Bytes, s: Text)
    ensures EncodePubKey(pub) == Ok(s) <==> DecodePubKey(s) == Ok(pub)
  {
    if EncodePubKey(pub) == Ok(s) {
      KeyWireForm(pub);
      DecodeInvertsEncode(MULTICODEC + pub);
      assert s[1..] == Encoded(MULTICODEC + pub);
      assert (MULTICODEC + pub)[..2] == MULTICODEC && (MULTICODEC + pub)[2..] == pub;
    }
    if DecodePubKey(s) == Ok(pub) {
      var raw := Decoded(s[1..]).value;
      EncodeInvertsDecode(s[1..]);
      assert raw == raw[..2] + raw[2..];
      assert s == [s[0]] + s[1..] && s[0] == KEY_PREFIX[0];
    }
  }

  // -------------------------------------------------------------- grammar

  predicate IsAlphaNum(c: CodePoint) {
    0x30 <= c <= 0x39 || 0x41 <= c <= 0x5A || 0x61 <= c <= 0x7A
  }

  const AT: CodePoint := 0x40
  const DOT: CodePoint := 0x2E
  const HYPHEN: CodePoint := 0x2D
  const UNDERSCORE: CodePoint := 0x5F

  predicate ValidLocal(s: Text) {
    && 1 <= |Utf8(s)| <= 63
    && forall i :: 0 <= i < |s| ==> IsAlphaNum(s[i]) || s[i] == UNDERSCORE || s[i] == HYPHEN || s[i] == DOT
  }

  /** `letter` is the Unicode letter-or-digit test, consulted outside ASCII only. */
  predicate ValidLabel(letter: CodePoint -> bool, s: Text) {
    && 1 <= |Utf8(s)| <= 63
    && forall i :: 0 <= i < |s| ==>
         if IsAlphaNum(s[i]) then true
         else if s[i] == HYPHEN then 0 < i < |s| - 1
         else s[i] >= 0x80 && letter(s[i])
  }

  function SplitOn(sep: CodePoint, s: Text): (parts: seq<Text>)
    ensures parts != []
  {
    if s == [] then [[]]
    else
      var rest := SplitOn(sep, s[1..]);
      if s[0] == sep then [[]] + rest else [[s[0]] + rest[0]] + rest[1..]
  }

  predicate ValidDomain(letter: CodePoint -> bool, s: Text) {
    ValidDotted(letter, if s != [] && s[|s| - 1] == DOT then s[..|s| - 1] else s)
  }

  predicate ValidDotted(letter: CodePoint -> bool, s: Text) {
    1 <= |Utf8(s)| <= 253 && forall i :: 0 <= i < |SplitOn(DOT, s)| ==> ValidLabel(letter, SplitOn(DOT, s)[i])
  }

  function IndexOf(c: CodePoint, s: Text): (r: Option<nat>)
    ensures r.Some? ==> r.value < |s| && s[r.value] == c && c !in s[..r.value]
    ensures r.None? ==> c !in s
  {
    if s == [] then None
    else if s[0] == c then Some(0)
    else
      HeadTail(s);
      match IndexOf(c, s[1..])
      case None => None
      case Some(i) => assert s[..i + 1] == [s[0]] + s[1..][..i]; Some(i + 1)
  }

  predicate ValidShadowname(letter: CodePoint -> bool, s: Text) {
    match IndexOf(AT, s)
    case None => false
    case Some(at) => ValidLocal(s[..at]) && ValidDomain(letter, s[at + 1..])
  }

  datatype Class = Unknown | Domain | Shadowname | PubKey

  function Classify(letter: CodePoint -> bool, s: Text): Class {
    if AT in s then (if ValidShadowname(letter, s) then Shadowname else Unknown)
    else if KEY_PREFIX <= s then (if DecodePubKey(s).Ok? then PubKey else Unknown)
    else if ValidDomain(letter, s) then Domain
    else Unknown
  }

  /** The unit separator, U+001F. */
  const UNIT_SEPARATOR: CodePoint := 0x1F

  lemma {:induction false} SplitParts(sep: CodePoint, c: CodePoint, s: Text)
    requires c != sep && c in s
    ensures exists i :: 0 <= i < |SplitOn(sep, s)| && c in SplitOn(sep, s)[i]
  {
    var parts, rest := SplitOn(sep, s), SplitOn(sep, s[1..]);
    HeadTail(s);
    if s[0] == c {
      assert c in parts[0];
    } else {
      SplitParts(sep, c, s[1..]);
      var i :| 0 <= i < |rest| && c in rest[i];
      var k := if s[0] == sep then i + 1 else i;
      assert c in parts[k];
    }
  }

  lemma DomainHasNoSeparator(letter: CodePoint -> bool, s: Text)
    requires ValidDomain(letter, s)
    ensures UNIT_SEPARATOR !in s
  {
    var t := if s != [] && s[|s| - 1] == DOT then s[..|s| - 1] else s;
    assert s == t || s == t + [DOT];
    forall i | 0 <= i < |SplitOn(DOT, t)| ensures UNIT_SEPARATOR !in SplitOn(DOT, t)[i] {
      assert ValidLabel(letter, SplitOn(DOT, t)[i]);
    }
    if UNIT_SEPARATOR in t { SplitParts(DOT, UNIT_SEPARATOR, t); }
  }

  lemma LocalHasNoSeparator(s: Text)
    requires ValidLocal(s)
    ensures UNIT_SEPARATOR !in s
  {
  }

  lemma ShadownameHasNoSeparator(letter: CodePoint -> bool, s: Text)
    requires ValidShadowname(letter, s)
    ensures UNIT_SEPARATOR !in s
  {
    var at := IndexOf(AT, s).value;
    DomainHasNoSeparator(letter, s[at + 1..]);
    LocalHasNoSeparator(s[..at]);
    assert s == s[..at] + [AT] + s[at + 1..];
  }

  lemma PubKeyHasNoSeparator(s: Text)
    requires DecodePubKey(s).Ok?
    ensures UNIT_SEPARATOR !in s
  {
    if UNIT_SEPARATOR in s {
      var i :| 0 <= i < |s| && s[i] == UNIT_SEPARATOR;
      assert s[0] == KEY_PREFIX[0];
      OutsideAlphabet(s[1..], i - 1);
    }
  }

  /** No accepted identifier contains the separator that idempotency keys are joined with. */
  lemma ClassifiedHasNoSeparator(letter: CodePoint -> bool, s: Text)
    requires Classify(letter, s) != Unknown
    ensures UNIT_SEPARATOR !in s
  {
    match Classify(letter, s)
    case Shadowname => ShadownameHasNoSeparator(letter, s);
    case PubKey => PubKeyHasNoSeparator(s);
    case Domain => DomainHasNoSeparator(letter, s);
  }

  // ------------------------------------------------------ the forms, spelled

  predicate IsLetterOrDigit(c: CodePoint) {
    Code('0') <= c <= Code('9') || Code('A') <= c <= Code('Z') || Code('a') <= c <= Code('z')
  }

  /** 1 to 63 letters, digits, underscores, hyphens and dots. */
  predicate LocalForm(s: Text) {
    1 <= |s| <= 63 && forall i :: 0 <= i < |s| ==> IsLetterOrDigit(s[i]) || s[i] in {Code('_'), Code('-'), Code('.')}
  }

  /** 1 to 63 bytes of letters, digits and inner hyphens, or letters beyond ASCII; no dot. */
  predicate LabelForm(letter: CodePoint -> bool, s: Text) {
    && 1 <= |Utf8(s)| <= 63
    && forall i :: 0 <= i < |s| ==>
         || IsLetterOrDigit(s[i]) || (s[i] == Code('-') && 0 < i < |s| - 1) || (s[i] >= 128 && letter(s[i]))
  }

  function Joined(sep: CodePoint, parts: seq<Text>): Text
    requires parts != []
  {
    if |parts| == 1 then parts[0] else parts[0] + [sep] + Joined(sep, parts[1..])
  }

  /** Labels joined by dots, 1 to 253 bytes in all. */
  ghost predicate DottedForm(letter: CodePoint -> bool, s: Text) {
    && 1 <= |Utf8(s)| <= 253
    && exists labels: seq<Text> ::
         labels != [] && Joined(Code('.'), labels) == s && forall i :: 0 <= i < |labels| ==> LabelForm(letter, labels[i])
  }

  /** One dot may stand at the end. */
  ghost predicate DomainForm(letter: CodePoint -> bool, s: Text) {
    DottedForm(letter, if s != [] && s[|s| - 1] == Code('.') then s[..|s| - 1] else s)
  }

  lemma {:induction false} JoinOfSplit(sep: CodePoint, s: Text)
    ensures Joined(sep, SplitOn(sep, s)) == s
    ensures forall i :: 0 <= i < |SplitOn(sep, s)| ==> sep !in SplitOn(sep, s)[i]
  {
    if s != [] {
      JoinOfSplit(sep, s[1..]);
      var rest := SplitOn(sep, s[1..]);
      HeadTail(s);
      if s[0] == sep {
        assert ([[]] + rest)[1..] == rest;
      } else {
        var parts := [[s[0]] + rest[0]] + rest[1..];
        assert parts[1..] == rest[1..];
        if |rest| > 1 { assert [s[0]] + rest[0] + [sep] + Joined(sep, rest[1..]) == [s[0]] + (rest[0] + [sep] + Joined(sep, rest[1..])); }
      }
    }
  }

  lemma {:induction false} SplitOfJoin(sep: CodePoint, parts: seq<Text>)
    requires parts != [] && forall i :: 0 <= i < |parts| ==> sep !in parts[i]
    ensures SplitOn(sep, Joined(sep, parts)) == parts
    decreases |parts|, |parts[0]|
  {
    var s := Joined(sep, parts);
    if parts[0] != [] {
      var p, less := parts[0], [parts[0][1..]] + parts[1..];
      assert less[1..] == parts[1..];
      HeadTail(p);
      assert forall i :: 0 <= i < |less| ==> sep !in less[i];
      SplitOfJoin(sep, less);
      assert s[0] == p[0] && s[1..] == Joined(sep, less) by {
        if |parts| > 1 { assert s == [p[0]] + (p[1..] + [sep] + Joined(sep, parts[1..])); }
      }
      assert [[p[0]] + less[0]] + less[1..] == parts;
    } else if |parts| > 1 {
      SplitOfJoin(sep, parts[1..]);
      assert s[0] == sep && s[1..] == Joined(sep, parts[1..]);
      assert [[]] + parts[1..] == parts;
    } else {
      assert parts == [[]];
    }
  }

  lemma LocalIff(s: Text)
    ensures ValidLocal(s) <==> LocalForm(s)
  {
    if forall i :: 0 <= i < |s| ==> IsLetterOrDigit(s[i]) || s[i] in {Code('_'), Code('-'), Code('.')} { Utf8OfAscii(s); }
  }

  lemma LabelIff(letter: CodePoint -> bool, s: Text)
    ensures ValidLabel(letter, s) <==> LabelForm(letter, s)
    ensures LabelForm(letter, s) ==> Code('.') !in s
  {
  }

  lemma DottedIff(letter: CodePoint -> bool, s: Text)
    ensures DottedForm(letter, s) <==> ValidDotted(letter, s)
  {
    var parts := SplitOn(DOT, s);
    JoinOfSplit(DOT, s);
    forall t: Text ensures ValidLabel(letter, t) <==> LabelForm(letter, t) { LabelIff(letter, t); }
    if DottedForm(letter, s) {
      var labels: seq<Text> :|
        labels != [] && Joined(Code('.'), labels) == s && forall i :: 0 <= i < |labels| ==> LabelForm(letter, labels[i]);
      forall i | 0 <= i < |labels| ensures DOT !in labels[i] { LabelIff(letter, labels[i]); }
      SplitOfJoin(DOT, labels);
    }
  }

  lemma DomainIff(letter: CodePoint -> bool, s: Text)
    ensures ValidDomain(letter, s) <==> DomainForm(letter, s)
  {
    DottedIff(letter, if s != [] && s[|s| - 1] == DOT then s[..|s| - 1] else s);
  }

  /** A text is `local@domain` when it is that around its first `@`. */
  ghost predicate ShadownameForm(letter: CodePoint -> bool, s: Text) {
    exists local: Text, domain: Text :: s == local + [Code('@')] + domain && LocalForm(local) && DomainForm(letter, domain)
  }

  lemma ShadownameIff(letter: CodePoint -> bool, s: Text)
    ensures ValidShadowname(letter, s) <==> ShadownameForm(letter, s)
  {
    if ValidShadowname(letter, s) { ValidHasForm(letter, s); }
    if local: Text, domain: Text :| s == local + [Code('@')] + domain && LocalForm(local) && DomainForm(letter, domain) {
      FormIsValid(letter, s, local, domain);
    }
  }

  lemma ValidHasForm(letter: CodePoint -> bool, s: Text)
    requires ValidShadowname(letter, s)
    ensures ShadownameForm(letter, s)
  {
    var at := IndexOf(AT, s).value;
    LocalIff(s[..at]);
    DomainIff(letter, s[at + 1..]);
    Around(s, at);
  }

  lemma Around(s: Text, at: nat)
    requires at < |s| && s[at] == Code('@')
    ensures s == s[..at] + [Code('@')] + s[at + 1..]
  {
  }

  lemma FormIsValid(letter: CodePoint -> bool, s: Text, local: Text, domain: Text)
    requires s == local + [Code('@')] + domain && LocalForm(local) && DomainForm(letter, domain)
    ensures ValidShadowname(letter, s)
  {
    FirstAt(local, domain);
    LocalIff(local);
    DomainIff(letter, domain);
  }

  lemma FirstAt(local: Text, domain: Text)
    requires LocalForm(local)
    ensures var s := local + [Code('@')] + domain;
            IndexOf(AT, s) == Some(|local|) && s[..|local|] == local && s[|local| + 1..] == domain
  {
    var s := local + [Code('@')] + domain;
    assert s[|local|] == AT;
    var at := IndexOf(AT, s).value;
    forall k | 0 <= k < at ensures s[k] != AT { assert s[..at][k] == s[k]; }
    forall k | 0 <= k < |local| ensures s[k] != AT { assert s[k] == local[k]; }
  }

  /**
   What each form is classified as: with an `@` a Shadowname, if well formed; without one and starting
   `z6Mk` a public key, if it is the wire form of one; otherwise a domain, if well formed.
   */
  lemma ClassifiedAs(letter: CodePoint -> bool, s: Text)
    ensures Classify(letter, s) == Shadowname <==> Code('@') in s && ShadownameForm(letter, s)
    ensures Classify(letter, s) == PubKey <==>
            Code('@') !in s && Ascii("z6Mk") <= s && exists pub: Bytes :: |pub| == 32 && EncodePubKey(pub) == Ok(s)
    ensures Classify(letter, s) == Domain <==> Code('@') !in s && !(Ascii("z6Mk") <= s) && DomainForm(letter, s)
  {
    ShadownameIff(letter, s);
    DomainIff(letter, s);
    assert KEY_PREFIX == Ascii("z6Mk");
    if DecodePubKey(s).Ok? { KeyRoundTrip(DecodePubKey(s).value, s); }
    forall pub: Bytes | |pub| == 32 && EncodePubKey(pub) == Ok(s) ensures DecodePubKey(s) == Ok(pub) { KeyRoundTrip(pub, s); }
  }
}
