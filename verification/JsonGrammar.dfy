/**
 What canonical JSON text is, written down independently of the encoders: the grammar of RFC 8785 over
 character literals, and the proof that every encoder's output is in it and denotes the value.
 */
module JsonGrammar {
  import opened Unicode
  import opened JsonValue
  import opened JsonText
  import opened Jcs

  // -------------------------------------------------------------- grammar

  /** RFC 8785, section 3.2.2.2: how one character stands in a string. */
  function CharText(c: CodePoint): Text {
    if c == Code('"') then Ascii("\\\"")
    else if c == Code('\\') then Ascii("\\\\")
    else if c == 8 then Ascii("\\b")
    else if c == 9 then Ascii("\\t")
    else if c == 10 then Ascii("\\n")
    else if c == 12 then Ascii("\\f")
    else if c == 13 then Ascii("\\r")
    else if c < 32 then Ascii("\\u00") + [HexChar(c / 16), HexChar(c % 16)]
    else [c]
  }

  function HexChar(d: nat): CodePoint
    requires d < 16
  {
    Code("0123456789abcdef"[d])
  }

  function CharsText(s: Text): Text {
    if s == [] then [] else CharText(s[0]) + CharsText(s[1..])
  }

  predicate SpellsString(t: Text, s: Text) { t == [Code('"')] + CharsText(s) + [Code('"')] }

  function NatValue(t: Text): int {
    if t == [] then 0 else 10 * NatValue(t[..|t| - 1]) + t[|t| - 1] - Code('0')
  }

  /** Decimal digits without a leading zero. */
  predicate SpellsNat(t: Text, n: int) {
    && t != [] && (|t| > 1 ==> t[0] != Code('0'))
    && (forall i :: 0 <= i < |t| ==> Code('0') <= t[i] <= Code('9'))
    && NatValue(t) == n
  }

  predicate SpellsInt(t: Text, n: int) {
    if n < 0 then t != [] && t[0] == Code('-') && SpellsNat(t[1..], -n) else SpellsNat(t, n)
  }

  /** The text `t` is written for the value `v`, fields in the order they are in, no space anywhere. */
  ghost predicate Spells(t: Text, v: Json)
    decreases v, 0
  {
    match v
    case Null => t == Ascii("null")
    case Bool(b) => t == if b then Ascii("true") else Ascii("false")
    case Int(n) => SpellsInt(t, n)
    case Str(s) => SpellsString(t, s)
    case Arr(items) =>
      |t| >= 2 && t[0] == Code('[') && t[|t| - 1] == Code(']') && SpellsItems(t[1..|t| - 1], items)
    case Obj(fs) =>
      |t| >= 2 && t[0] == Code('{') && t[|t| - 1] == Code('}') && SpellsFields(t[1..|t| - 1], fs)
    case Unsupported => false
  }

  ghost predicate SpellsItems(t: Text, items: seq<Json>)
    decreases items, 0
  {
    if items == [] then t == []
    else exists k: nat :: k <= |t| && Spells(t[..k], items[0]) && MoreItems(t[k..], items[1..])
  }

  ghost predicate MoreItems(t: Text, items: seq<Json>)
    decreases items, 1
  {
    if items == [] then t == [] else t != [] && t[0] == Code(',') && SpellsItems(t[1..], items)
  }

  ghost predicate SpellsField(t: Text, f: (Text, Json))
    decreases f, 0
  {
    exists k: nat :: k < |t| && SpellsString(t[..k], f.0) && t[k] == Code(':') && Spells(t[k + 1..], f.1)
  }

  ghost predicate SpellsFields(t: Text, fs: Fields)
    decreases fs, 0
  {
    if fs == [] then t == []
    else exists k: nat :: k <= |t| && SpellsField(t[..k], fs[0]) && MoreFields(t[k..], fs[1..])
  }

  ghost predicate MoreFields(t: Text, fs: Fields)
    decreases fs, 1
  {
    if fs == [] then t == [] else t != [] && t[0] == Code(',') && SpellsFields(t[1..], fs)
  }

  /** In every object the keys stand in increasing order of their UTF-16 units. */
  predicate SortedThroughout(v: Json) {
    match v
    case Arr(items) => forall i :: 0 <= i < |items| ==> SortedThroughout(items[i])
    case Obj(fs) =>
      && (forall i, j :: 0 <= i < j < |fs| ==> LexLess(Utf16(fs[i].0), Utf16(fs[j].0)))
      && forall i :: 0 <= i < |fs| ==> SortedThroughout(fs[i].1)
    case _ => true
  }

  /** RFC 8785: `t` is the text of the value whose fields are those of `v`, sorted. */
  ghost predicate IsCanonical(t: Text, v: Json) {
    exists w: Json :: Equivalent(v, w) && WellFormed(w) && SortedThroughout(w) && Spells(t, w)
  }

  // ------------------------------------------------- the printer is in it

  lemma CharTextIsEscape(c: CodePoint)
    ensures CharText(c) == Escape(c)
  {
  }

  lemma {:induction false} CharsTextIsEscapeAll(s: Text)
    ensures CharsText(s) == EscapeAll(s)
  {
    if s != [] {
      CharTextIsEscape(s[0]);
      CharsTextIsEscapeAll(s[1..]);
    }
  }

  lemma StringsAreQuoted(t: Text, s: Text)
    ensures SpellsString(t, s) <==> t == Quoted(s)
  {
    CharsTextIsEscapeAll(s);
  }

  lemma {:induction false} NatValuePositive(t: Text)
    requires t != [] && t[0] != Code('0') && forall i :: 0 <= i < |t| ==> Code('0') <= t[i] <= Code('9')
    ensures NatValue(t) > 0
  {
    if |t| > 1 { NatValuePositive(t[..|t| - 1]); }
  }

  lemma {:induction false} DigitsSpell(n: nat)
    ensures SpellsNat(Digits(n), n) && (n > 0 ==> Digits(n)[0] != Code('0'))
  {
    var t := Digits(n);
    if n >= 10 {
      DigitsSpell(n / 10);
      assert t[..|t| - 1] == Digits(n / 10);
      assert NatValue(t) == 10 * NatValue(Digits(n / 10)) + n % 10;
    } else {
      assert t[..|t| - 1] == [];
      assert NatValue(t) == n;
    }
  }

  lemma {:induction false} SpelledIsDigits(t: Text, n: nat)
    requires SpellsNat(t, n)
    ensures t == Digits(n)
  {
    var init, d := t[..|t| - 1], t[|t| - 1] - Code('0');
    if |t| > 1 {
      NatValuePositive(init);
      SpelledIsDigits(init, NatValue(init));
      assert n == 10 * NatValue(init) + d && n / 10 == NatValue(init) && n % 10 == d;
      assert t == init + [t[|t| - 1]];
    } else {
      assert init == [] && NatValue(init) == 0;
      assert t == [ZERO + n];
    }
  }

  lemma IntsAreDecimal(t: Text, n: int)
    ensures SpellsInt(t, n) <==> t == Decimal(n)
  {
    if n < 0 {
      DigitsSpell(-n);
      if SpellsInt(t, n) {
        SpelledIsDigits(t[1..], -n);
        HeadTail(t);
      }
      assert ([MINUS] + Digits(-n))[1..] == Digits(-n);
    } else {
      DigitsSpell(n);
      if SpellsInt(t, n) { SpelledIsDigits(t, n); }
    }
  }

  lemma Words()
    ensures Ascii("null") == NULL && Ascii("true") == TRUE && Ascii("false") == FALSE
  {
  }

  /** `t` is a bracket, what is inside, and a bracket. */
  lemma Bracketed(t: Text, open: CodePoint, body: Text, close: CodePoint)
    ensures |t| >= 2 && t[0] == open && t[|t| - 1] == close && t[1..|t| - 1] == body <==> t == [open] + body + [close]
  {
    if |t| >= 2 && t[0] == open && t[|t| - 1] == close && t[1..|t| - 1] == body {
      assert t == [t[0]] + t[1..|t| - 1] + [t[|t| - 1]];
    }
    if t == [open] + body + [close] {
      assert t[1..|t| - 1] == body;
    }
  }

  /** A value's printed text is in the grammar. */
  lemma {:induction false} PrintedIsSpelled(v: Json)
    requires Accepted(v)
    ensures Spells(Print(v), v)
    decreases v, 0
  {
    match v
    case Null => Words();
    case Bool(b) => Words();
    case Int(n) => IntsAreDecimal(Print(v), n);
    case Str(s) => StringsAreQuoted(Print(v), s);
    case Arr(items) =>
      PrintedItems(items);
      Bracketed(Print(v), LBRACKET, PrintItems(items), RBRACKET);
    case Obj(fs) =>
      PrintedFields(fs);
      Bracketed(Print(v), LBRACE, PrintMembers(fs), RBRACE);
  }

  lemma {:induction false} PrintedItems(items: seq<Json>)
    requires Accepted(Arr(items))
    ensures SpellsItems(PrintItems(items), items) && MoreItems(ItemsTail(items), items)
    decreases items, 0
  {
    if items != [] {
      PrintedIsSpelled(items[0]);
      PrintedItems(items[1..]);
      JoinedItems(Print(items[0]), ItemsTail(items[1..]), items);
      ItemsTailIs(items);
    }
  }

  lemma JoinedItems(p: Text, tail: Text, items: seq<Json>)
    requires items != [] && Spells(p, items[0]) && MoreItems(tail, items[1..])
    ensures SpellsItems(p + tail, items)
  {
    var t := p + tail;
    assert t[..|p|] == p && t[|p|..] == tail;
  }

  lemma ItemsTailIs(items: seq<Json>)
    requires items != []
    ensures ItemsTail(items) == [COMMA] + PrintItems(items) && ItemsTail(items)[1..] == PrintItems(items)
  {
    assert [COMMA] + Print(items[0]) + ItemsTail(items[1..]) == [COMMA] + (Print(items[0]) + ItemsTail(items[1..]));
  }

  lemma {:induction false} PrintedField(f: (Text, Json))
    requires ValidText(f.0) && Accepted(f.1)
    ensures SpellsField(PrintMember(f), f)
    decreases f, 0
  {
    StringsAreQuoted(Quoted(f.0), f.0);
    PrintedIsSpelled(f.1);
    JoinedField(Quoted(f.0), Print(f.1), f);
  }

  lemma JoinedField(q: Text, p: Text, f: (Text, Json))
    requires SpellsString(q, f.0) && Spells(p, f.1)
    ensures SpellsField(q + [COLON] + p, f)
  {
    var t := q + [COLON] + p;
    assert t[..|q|] == q && t[|q|] == Code(':') && t[|q| + 1..] == p;
  }

  lemma {:induction false} PrintedFields(fs: Fields)
    requires Accepted(Obj(fs))
    ensures SpellsFields(PrintMembers(fs), fs) && MoreFields(MembersTail(fs), fs)
    decreases fs, 0
  {
    if fs != [] {
      PrintedField(fs[0]);
      PrintedFields(fs[1..]);
      JoinedFields(PrintMember(fs[0]), MembersTail(fs[1..]), fs);
      MembersTailIs(fs);
    }
  }

  lemma JoinedFields(p: Text, tail: Text, fs: Fields)
    requires fs != [] && SpellsField(p, fs[0]) && MoreFields(tail, fs[1..])
    ensures SpellsFields(p + tail, fs)
  {
    var t := p + tail;
    assert t[..|p|] == p && t[|p|..] == tail;
  }

  lemma MembersTailIs(fs: Fields)
    requires fs != []
    ensures MembersTail(fs) == [COMMA] + PrintMembers(fs) && MembersTail(fs)[1..] == PrintMembers(fs)
  {
    assert [COMMA] + PrintMember(fs[0]) + MembersTail(fs[1..]) == [COMMA] + (PrintMember(fs[0]) + MembersTail(fs[1..]));
  }

  /** The grammar has no other text for it. */
  lemma {:induction false} SpelledIsPrinted(t: Text, v: Json)
    requires Spells(t, v)
    ensures t == Print(v)
    decreases v, 0
  {
    match v
    case Null => Words();
    case Bool(b) => Words();
    case Int(n) => IntsAreDecimal(t, n);
    case Str(s) => StringsAreQuoted(t, s);
    case Arr(items) =>
      SpelledItems(t[1..|t| - 1], items);
      Bracketed(t, LBRACKET, PrintItems(items), RBRACKET);
    case Obj(fs) =>
      SpelledFields(t[1..|t| - 1], fs);
      Bracketed(t, LBRACE, PrintMembers(fs), RBRACE);
  }

  lemma {:induction false} SpelledItems(t: Text, items: seq<Json>)
    requires SpellsItems(t, items)
    ensures t == PrintItems(items)
    decreases items, 0
  {
    if items != [] {
      var k: nat :| k <= |t| && Spells(t[..k], items[0]) && MoreItems(t[k..], items[1..]);
      SpelledIsPrinted(t[..k], items[0]);
      SpelledMoreItems(t[k..], items[1..]);
      Halves(t, k);
    }
  }

  lemma Halves(t: Text, k: nat)
    requires k <= |t|
    ensures t == t[..k] + t[k..]
  {
  }

  lemma {:induction false} SpelledMoreItems(t: Text, items: seq<Json>)
    requires MoreItems(t, items)
    ensures t == ItemsTail(items)
    decreases items, 1
  {
    if items != [] {
      SpelledItems(t[1..], items);
      ItemsTailIs(items);
      HeadTail(t);
    }
  }

  lemma {:induction false} SpelledField(t: Text, f: (Text, Json))
    requires SpellsField(t, f)
    ensures t == PrintMember(f)
    decreases f, 0
  {
    var k: nat :| k < |t| && SpellsString(t[..k], f.0) && t[k] == Code(':') && Spells(t[k + 1..], f.1);
    StringsAreQuoted(t[..k], f.0);
    SpelledIsPrinted(t[k + 1..], f.1);
    Thirds(t, k);
  }

  lemma Thirds(t: Text, k: nat)
    requires k < |t|
    ensures t == t[..k] + [t[k]] + t[k + 1..]
  {
  }

  lemma {:induction false} SpelledFields(t: Text, fs: Fields)
    requires SpellsFields(t, fs)
    ensures t == PrintMembers(fs)
    decreases fs, 0
  {
    if fs != [] {
      var k: nat :| k <= |t| && SpellsField(t[..k], fs[0]) && MoreFields(t[k..], fs[1..]);
      SpelledField(t[..k], fs[0]);
      SpelledMoreFields(t[k..], fs[1..]);
      Halves(t, k);
    }
  }

  lemma {:induction false} SpelledMoreFields(t: Text, fs: Fields)
    requires MoreFields(t, fs)
    ensures t == MembersTail(fs)
    decreases fs, 1
  {
    if fs != [] {
      SpelledFields(t[1..], fs);
      MembersTailIs(fs);
      HeadTail(t);
    }
  }

  /** The grammar has exactly one text for every accepted value: the one that is printed. */
  lemma SpellsIffPrinted(t: Text, v: Json)
    requires Accepted(v)
    ensures Spells(t, v) <==> t == Print(v)
  {
    PrintedIsSpelled(v);
    if Spells(t, v) { SpelledIsPrinted(t, v); }
  }

  // --------------------------------------------- sorted is the normal form

  lemma {:induction false} SortedIsNormal(w: Json)
    requires WellFormed(w) && Accepted(w) && SortedThroughout(w)
    ensures Normalize(w) == w
  {
    match w
    case Arr(items) =>
      NormalizeItemsAt(items);
      forall i | 0 <= i < |items| { SortedIsNormal(items[i]); }
      assert NormalizeItems(items) == items;
    case Obj(fs) =>
      NormalizeFieldsAt(fs);
      forall i | 0 <= i < |fs| { SortedIsNormal(fs[i].1); }
      assert NormalizeFields(fs) == fs;
      SortElements(CodeUnits, fs);
      SortSorted(CodeUnits, fs);
      SortedUnique(CodeUnits, Sort(CodeUnits, fs), fs);
    case _ =>
  }

  lemma {:induction false} NormalIsSorted(v: Json)
    requires WellFormed(v) && Accepted(v)
    ensures SortedThroughout(Normalize(v))
  {
    match v
    case Arr(items) =>
      NormalizeItemsAt(items);
      forall i | 0 <= i < |items| { NormalIsSorted(items[i]); }
    case Obj(fs) =>
      NormalizeFieldsAt(fs);
      forall i | 0 <= i < |fs| { NormalIsSorted(fs[i].1); }
      var ns := NormalizeFields(fs);
      SortElements(CodeUnits, ns);
      SortSorted(CodeUnits, ns);
      var sorted := Sort(CodeUnits, ns);
      forall i | 0 <= i < |sorted| ensures SortedThroughout(sorted[i].1) { assert sorted[i] in ns; }
    case _ =>
  }

  /** A canonicalizer's output is the canonical text, and nothing else is: both directions, for every value. */
  lemma EncodesIffCanonical(order: KeyOrder, v: Json, t: Text)
    requires WellFormed(v)
    ensures Encode(order, v) == Ok(t) <==> Accepted(v) && IsCanonical(t, v)
  {
    EncodeIsPrintOfNormalForm(order, v);
    if Accepted(v) {
      NormalizeAccepted(v);
      NormalizeWellFormed(v);
      NormalizeIdempotent(v);
      EquivalentIffSameNormalForm(v, Normalize(v));
      NormalIsSorted(v);
      SpellsIffPrinted(t, Normalize(v));
      if IsCanonical(t, v) {
        var w: Json :| Equivalent(v, w) && WellFormed(w) && SortedThroughout(w) && Spells(t, w);
        EquivalentAccepted(v, w);
        EquivalentIffSameNormalForm(v, w);
        SortedIsNormal(w);
      }
    }
  }

  /** The bytes both canonicalizers return are the UTF-8 of that text. */
  lemma CanonicalBytes(v: Json, bytes: Bytes)
    requires WellFormed(v)
    ensures Canonicalize(v) == Ok(bytes) <==> Accepted(v) && exists t :: IsCanonical(t, v) && Utf8(t) == bytes
  {
    if Encode(BigEndianBytes, v).Ok? { EncodesIffCanonical(BigEndianBytes, v, Encode(BigEndianBytes, v).value); }
    CanonicalizersAgree(v);
    forall t | IsCanonical(t, v) && Accepted(v) ensures Encode(BigEndianBytes, v) == Ok(t) {
      EncodesIffCanonical(BigEndianBytes, v, t);
    }
  }
}
