/** The JSON text of a value, and a parser that recovers the value from it. */
module JsonText {
  import opened Unicode
  import opened JsonValue

  const QUOTE: CodePoint := 0x22
  const BACKSLASH: CodePoint := 0x5C
  const COMMA: CodePoint := 0x2C
  const COLON: CodePoint := 0x3A
  const LBRACKET: CodePoint := 0x5B
  const RBRACKET: CodePoint := 0x5D
  const LBRACE: CodePoint := 0x7B
  const RBRACE: CodePoint := 0x7D
  const MINUS: CodePoint := 0x2D
  const ZERO: CodePoint := 0x30
  const LETTER_U: CodePoint := 0x75

  const NULL: Text := [0x6E, 0x75, 0x6C, 0x6C]
  const TRUE: Text := [0x74, 0x72, 0x75, 0x65]
  const FALSE: Text := [0x66, 0x61, 0x6C, 0x73, 0x65]

  // ------------------------------------------------------------ printing

  function HexDigit(d: nat): CodePoint
    requires d < 16
  {
    if d < 10 then ZERO + d else 0x61 + d - 10
  }

  /** RFC 8785, section 3.2.2.2: the letter of a two-character escape, if the character has one. */
  function ShortEscape(c: CodePoint): Option<CodePoint> {
    if c == QUOTE then Some(QUOTE)
    else if c == BACKSLASH then Some(BACKSLASH)
    else if c == 0x08 then Some(0x62)
    else if c == 0x09 then Some(0x74)
    else if c == 0x0A then Some(0x6E)
    else if c == 0x0C then Some(0x66)
    else if c == 0x0D then Some(0x72)
    else None
  }

  function Escape(c: CodePoint): Text {
    match ShortEscape(c)
    case Some(letter) => [BACKSLASH, letter]
    case None =>
      if c < 0x20 then [BACKSLASH, LETTER_U, ZERO, ZERO, HexDigit(c / 16), HexDigit(c % 16)] else [c]
  }

  function EscapeAll(s: Text): Text {
    if s == [] then [] else Escape(s[0]) + EscapeAll(s[1..])
  }

  function Quoted(s: Text): Text { [QUOTE] + EscapeAll(s) + [QUOTE] }

  function Digits(n: nat): Text {
    if n < 10 then [ZERO + n] else Digits(n / 10) + [ZERO + n % 10]
  }

  function Decimal(n: int): Text {
    if n < 0 then [MINUS] + Digits(-n) else Digits(n)
  }

  /** The text of a value with its fields in the order they are in. */
  function Print(v: Json): Text {
    match v
    case Null => NULL
    case Bool(b) => if b then TRUE else FALSE
    case Int(n) => Decimal(n)
    case Str(s) => Quoted(s)
    case Arr(items) => [LBRACKET] + PrintItems(items) + [RBRACKET]
    case Obj(fs) => [LBRACE] + PrintMembers(fs) + [RBRACE]
    case Unsupported => []
  }

  function PrintItems(items: seq<Json>): Text {
    if items == [] then [] else Print(items[0]) + ItemsTail(items[1..])
  }

  function ItemsTail(items: seq<Json>): Text {
    if items == [] then [] else [COMMA] + Print(items[0]) + ItemsTail(items[1..])
  }

  function PrintMember(f: (Text, Json)): Text {
    Quoted(f.0) + [COLON] + Print(f.1)
  }

  function PrintMembers(fs: Fields): Text {
    if fs == [] then [] else PrintMember(fs[0]) + MembersTail(fs[1..])
  }

  function MembersTail(fs: Fields): Text {
    if fs == [] then [] else [COMMA] + PrintMember(fs[0]) + MembersTail(fs[1..])
  }

  // ------------------------------------------------------------- parsing

  /** What was read, and the text after it. */
  type Parsed<+T> = Option<(T, Text)>

  function HexValue(c: CodePoint): Option<nat> {
    if 0x30 <= c <= 0x39 then Some(c - 0x30)
    else if 0x61 <= c <= 0x66 then Some(c - 0x61 + 10)
    else None
  }

  function Unescape(letter: CodePoint): Option<CodePoint> {
    if letter == QUOTE then Some(QUOTE)
    else if letter == BACKSLASH then Some(BACKSLASH)
    else if letter == 0x62 then Some(0x08)
    else if letter == 0x74 then Some(0x09)
    else if letter == 0x6E then Some(0x0A)
    else if letter == 0x66 then Some(0x0C)
    else if letter == 0x72 then Some(0x0D)
    else None
  }

  /** One character of a string body: raw, a two-character escape, or \u00XX. */
  function ParseChar(t: Text): (r: Parsed<CodePoint>)
    ensures r.Some? ==> |r.value.1| < |t|
  {
    if t == [] || t[0] == QUOTE then None
    else if t[0] != BACKSLASH then Some((t[0], t[1..]))
    else if |t| < 2 then None
    else if t[1] != LETTER_U then
      match Unescape(t[1]) { case None => None case Some(c) => Some((c, t[2..])) }
    else if |t| < 6 || t[2] != ZERO || t[3] != ZERO then None
    else
      match (HexValue(t[4]), HexValue(t[5]))
      case (Some(h), Some(l)) => Some((16 * h + l, t[6..]))
      case (_, _) => None
  }

  /** The rest of a string, its opening quote already read. */
  function ParseChars(t: Text): (r: Parsed<Text>)
    ensures r.Some? ==> |r.value.1| < |t|
    decreases |t|
  {
    if t != [] && t[0] == QUOTE then Some(([], t[1..]))
    else
      match ParseChar(t)
      case None => None
      case Some((c, rest)) =>
        match ParseChars(rest)
        case None => None
        case Some((s, rest')) => Some(([c] + s, rest'))
  }

  function ParseString(t: Text): (r: Parsed<Text>)
    ensures r.Some? ==> |r.value.1| < |t|
  {
    if t != [] && t[0] == QUOTE then ParseChars(t[1..]) else None
  }

  predicate IsDigit(c: CodePoint) { 0x30 <= c <= 0x39 }

  function ParseDigits(t: Text, acc: nat): (r: (nat, Text))
    ensures |r.1| <= |t|
  {
    if t != [] && IsDigit(t[0]) then ParseDigits(t[1..], 10 * acc + t[0] - ZERO) else (acc, t)
  }

  function ParseValue(t: Text): (r: Parsed<Json>)
    ensures r.Some? ==> |r.value.1| < |t|
    decreases |t|, 0
  {
    if t == [] then None
    else if NULL <= t then Some((Null, t[4..]))
    else if TRUE <= t then Some((Bool(true), t[4..]))
    else if FALSE <= t then Some((Bool(false), t[5..]))
    else if t[0] == QUOTE then
      match ParseString(t) { case None => None case Some((s, rest)) => Some((Str(s), rest)) }
    else if t[0] == LBRACKET then ParseArray(t)
    else if t[0] == LBRACE then ParseObject(t)
    else if t[0] == MINUS then
      if |t| > 1 && IsDigit(t[1]) then
        var (n, rest) := ParseDigits(t[2..], t[1] - ZERO);
        Some((Int(-(n as int)), rest))
      else None
    else if IsDigit(t[0]) then
      var (n, rest) := ParseDigits(t[1..], t[0] - ZERO);
      Some((Int(n), rest))
    else None
  }

  function ParseArray(t: Text): (r: Parsed<Json>)
    requires t != []
    ensures r.Some? ==> |r.value.1| < |t|
    decreases |t| - 1, 2
  {
    if |t| > 1 && t[1] == RBRACKET then Some((Arr([]), t[2..]))
    else
      match ParseValue(t[1..])
      case None => None
      case Some((v, rest)) =>
        match ParseItemsTail(rest)
        case None => None
        case Some((vs, rest')) => Some((Arr([v] + vs), rest'))
  }

  function ParseItemsTail(t: Text): (r: Parsed<seq<Json>>)
    ensures r.Some? ==> |r.value.1| < |t|
    decreases |t|, 1
  {
    if t == [] then None
    else if t[0] == RBRACKET then Some(([], t[1..]))
    else if t[0] != COMMA then None
    else
      match ParseValue(t[1..])
      case None => None
      case Some((v, rest)) =>
        match ParseItemsTail(rest)
        case None => None
        case Some((vs, rest')) => Some(([v] + vs, rest'))
  }

  function ParseMember(t: Text): (r: Parsed<(Text, Json)>)
    ensures r.Some? ==> |r.value.1| < |t|
    decreases |t|, 1
  {
    match ParseString(t)
    case None => None
    case Some((key, rest)) =>
      if rest == [] || rest[0] != COLON then None
      else
        match ParseValue(rest[1..])
        case None => None
        case Some((v, rest')) => Some(((key, v), rest'))
  }

  function ParseObject(t: Text): (r: Parsed<Json>)
    requires t != []
    ensures r.Some? ==> |r.value.1| < |t|
    decreases |t| - 1, 2
  {
    if |t| > 1 && t[1] == RBRACE then Some((Obj([]), t[2..]))
    else
      match ParseMember(t[1..])
      case None => None
      case Some((f, rest)) =>
        match ParseMembersTail(rest)
        case None => None
        case Some((fs, rest')) => Some((Obj([f] + fs), rest'))
  }

  function ParseMembersTail(t: Text): (r: Parsed<Fields>)
    ensures r.Some? ==> |r.value.1| < |t|
    decreases |t|, 1
  {
    if t == [] then None
    else if t[0] == RBRACE then Some(([], t[1..]))
    else if t[0] != COMMA then None
    else
      match ParseMember(t[1..])
      case None => None
      case Some((f, rest)) =>
        match ParseMembersTail(rest)
        case None => None
        case Some((fs, rest')) => Some(([f] + fs, rest'))
  }

  // ---------------------------------------------------------- round trip

  /** Text that may follow a value: nothing, a separator or a closing bracket. */
  predicate Delimited(rest: Text) {
    rest == [] || rest[0] == COMMA || rest[0] == RBRACKET || rest[0] == RBRACE
  }

  lemma EscapeParses(c: CodePoint, rest: Text)
    ensures ParseChar(Escape(c) + rest) == Some((c, rest))
    ensures Escape(c) != [] && Escape(c)[0] != QUOTE
  {
    var t := Escape(c) + rest;
    assert t[|Escape(c)|..] == rest;
  }

  lemma {:induction false} CharsParse(s: Text, rest: Text)
    ensures ParseChars(EscapeAll(s) + [QUOTE] + rest) == Some((s, rest))
  {
    var t := EscapeAll(s) + [QUOTE] + rest;
    if s == [] {
      assert t[1..] == rest;
    } else {
      var rest' := EscapeAll(s[1..]) + [QUOTE] + rest;
      assert t == Escape(s[0]) + rest';
      EscapeParses(s[0], rest');
      CharsParse(s[1..], rest);
      HeadTail(s);
    }
  }

  lemma QuotedParses(s: Text, rest: Text)
    ensures ParseString(Quoted(s) + rest) == Some((s, rest))
  {
    var t := Quoted(s) + rest;
    assert t[1..] == EscapeAll(s) + [QUOTE] + rest;
    CharsParse(s, rest);
  }

  lemma {:induction false} DigitsParse(n: nat, rest: Text)
    ensures var t := Digits(n) + rest;
            IsDigit(t[0]) && ParseDigits(t[1..], t[0] - ZERO) == ParseDigits(rest, n)
  {
    var t := Digits(n) + rest;
    if n < 10 {
      assert t[1..] == rest;
    } else {
      var rest' := [ZERO + n % 10] + rest;
      assert t == Digits(n / 10) + rest';
      DigitsParse(n / 10, rest');
      assert rest'[1..] == rest;
    }
  }

  lemma NaturalParses(t: Text, n: nat, rest: Text)
    requires t != [] && IsDigit(t[0]) && ParseDigits(t[1..], t[0] - ZERO) == (n, rest)
    ensures ParseValue(t) == Some((Int(n), rest))
  {
    assert NULL[0] != t[0] && TRUE[0] != t[0] && FALSE[0] != t[0];
  }

  lemma NegativeParses(t: Text, n: nat, rest: Text)
    requires |t| > 1 && t[0] == MINUS && IsDigit(t[1]) && ParseDigits(t[2..], t[1] - ZERO) == (n, rest)
    ensures ParseValue(t) == Some((Int(-(n as int)), rest))
  {
    assert NULL[0] != t[0] && TRUE[0] != t[0] && FALSE[0] != t[0];
  }

  lemma DecimalParses(n: int, rest: Text)
    requires Delimited(rest)
    ensures ParseValue(Decimal(n) + rest) == Some((Int(n), rest))
  {
    if n < 0 {
      MinusParses(-n, rest);
    } else {
      PlainParses(n, rest);
    }
  }

  lemma PlainParses(n: nat, rest: Text)
    requires Delimited(rest)
    ensures ParseValue(Digits(n) + rest) == Some((Int(n), rest))
  {
    DigitsParse(n, rest);
    NaturalParses(Digits(n) + rest, n, rest);
  }

  lemma MinusParses(n: nat, rest: Text)
    requires Delimited(rest)
    ensures ParseValue([MINUS] + Digits(n) + rest) == Some((Int(-(n as int)), rest))
  {
    var t, u := [MINUS] + Digits(n) + rest, Digits(n) + rest;
    DigitsParse(n, rest);
    assert t == [MINUS] + u && t[1] == u[0] && t[2..] == u[1..];
    NegativeParses(t, n, rest);
  }

  lemma PrintHead(v: Json)
    requires Accepted(v)
    ensures Print(v) != [] && Print(v)[0] != RBRACKET
  {
    match v
    case Int(n) =>
      if n >= 0 { DigitsParse(n, []); assert Digits(n) + [] == Digits(n); }
    case _ =>
  }

  /** `t` is `open p tail close rest`: what is after `open`, and what is after `p`. */
  lemma Regroup(open: Text, p: Text, tail: Text, close: Text, rest: Text)
    requires |open| == 1
    ensures var t := open + p + tail + close + rest;
            t[0] == open[0] && t[1..] == p + (tail + close + rest) && (p != [] ==> |t| > 1 && t[1] == p[0])
    ensures open + (p + tail) + close + rest == open + p + tail + close + rest
  {
  }

  lemma RegroupMember(q: Text, p: Text, rest: Text)
    ensures q + [COLON] + p + rest == q + ([COLON] + (p + rest))
    ensures ([COLON] + (p + rest))[1..] == p + rest
  {
  }

  /** One step of each list production. */
  lemma BracketedParses(t: Text, v: Json, mid: Text, vs: seq<Json>, rest: Text)
    requires |t| > 1 && t[0] == LBRACKET && t[1] != RBRACKET
    requires ParseValue(t[1..]) == Some((v, mid))
    requires ParseItemsTail(mid) == Some((vs, rest))
    ensures ParseValue(t) == Some((Arr([v] + vs), rest))
  {
    assert ParseValue(t) == ParseArray(t);
  }

  lemma ItemStepParses(t: Text, v: Json, mid: Text, vs: seq<Json>, rest: Text)
    requires t != [] && t[0] == COMMA
    requires ParseValue(t[1..]) == Some((v, mid))
    requires ParseItemsTail(mid) == Some((vs, rest))
    ensures ParseItemsTail(t) == Some(([v] + vs, rest))
  {
  }

  lemma MemberStepParses(t: Text, key: Text, mid: Text, v: Json, rest: Text)
    requires ParseString(t) == Some((key, mid)) && mid != [] && mid[0] == COLON
    requires ParseValue(mid[1..]) == Some((v, rest))
    ensures ParseMember(t) == Some(((key, v), rest))
  {
  }

  lemma BracedParses(t: Text, f: (Text, Json), mid: Text, fs: Fields, rest: Text)
    requires |t| > 1 && t[0] == LBRACE && t[1] != RBRACE
    requires ParseMember(t[1..]) == Some((f, mid))
    requires ParseMembersTail(mid) == Some((fs, rest))
    ensures ParseValue(t) == Some((Obj([f] + fs), rest))
  {
    assert ParseValue(t) == ParseObject(t);
  }

  lemma FieldStepParses(t: Text, f: (Text, Json), mid: Text, fs: Fields, rest: Text)
    requires t != [] && t[0] == COMMA
    requires ParseMember(t[1..]) == Some((f, mid))
    requires ParseMembersTail(mid) == Some((fs, rest))
    ensures ParseMembersTail(t) == Some(([f] + fs, rest))
  {
  }

  /** The same steps on printed text: first element `p`, the others `tail`, then the closing bracket. */
  lemma ArrayStep(p: Text, tail: Text, v: Json, vs: seq<Json>, rest: Text)
    requires p != [] && p[0] != RBRACKET
    requires ParseValue(p + (tail + [RBRACKET] + rest)) == Some((v, tail + [RBRACKET] + rest))
    requires ParseItemsTail(tail + [RBRACKET] + rest) == Some((vs, rest))
    ensures ParseValue([LBRACKET] + (p + tail) + [RBRACKET] + rest) == Some((Arr([v] + vs), rest))
  {
    Regroup([LBRACKET], p, tail, [RBRACKET], rest);
    BracketedParses([LBRACKET] + p + tail + [RBRACKET] + rest, v, tail + [RBRACKET] + rest, vs, rest);
  }

  lemma ItemsStep(p: Text, tail: Text, v: Json, vs: seq<Json>, rest: Text)
    requires ParseValue(p + (tail + [RBRACKET] + rest)) == Some((v, tail + [RBRACKET] + rest))
    requires ParseItemsTail(tail + [RBRACKET] + rest) == Some((vs, rest))
    ensures ParseItemsTail([COMMA] + p + tail + [RBRACKET] + rest) == Some(([v] + vs, rest))
  {
    Regroup([COMMA], p, tail, [RBRACKET], rest);
    ItemStepParses([COMMA] + p + tail + [RBRACKET] + rest, v, tail + [RBRACKET] + rest, vs, rest);
  }

  lemma ObjectStep(p: Text, tail: Text, f: (Text, Json), fs: Fields, rest: Text)
    requires p != [] && p[0] != RBRACE
    requires ParseMember(p + (tail + [RBRACE] + rest)) == Some((f, tail + [RBRACE] + rest))
    requires ParseMembersTail(tail + [RBRACE] + rest) == Some((fs, rest))
    ensures ParseValue([LBRACE] + (p + tail) + [RBRACE] + rest) == Some((Obj([f] + fs), rest))
  {
    Regroup([LBRACE], p, tail, [RBRACE], rest);
    BracedParses([LBRACE] + p + tail + [RBRACE] + rest, f, tail + [RBRACE] + rest, fs, rest);
  }

  lemma MembersStep(p: Text, tail: Text, f: (Text, Json), fs: Fields, rest: Text)
    requires ParseMember(p + (tail + [RBRACE] + rest)) == Some((f, tail + [RBRACE] + rest))
    requires ParseMembersTail(tail + [RBRACE] + rest) == Some((fs, rest))
    ensures ParseMembersTail([COMMA] + p + tail + [RBRACE] + rest) == Some(([f] + fs, rest))
  {
    Regroup([COMMA], p, tail, [RBRACE], rest);
    FieldStepParses([COMMA] + p + tail + [RBRACE] + rest, f, tail + [RBRACE] + rest, fs, rest);
  }

  lemma LiteralParses(rest: Text)
    ensures ParseValue(NULL + rest) == Some((Null, rest))
    ensures ParseValue(TRUE + rest) == Some((Bool(true), rest))
    ensures ParseValue(FALSE + rest) == Some((Bool(false), rest))
  {
    assert (NULL + rest)[4..] == rest;
    assert (TRUE + rest)[4..] == rest && (TRUE + rest)[0] != NULL[0];
    assert (FALSE + rest)[5..] == rest && (FALSE + rest)[0] != NULL[0] && (FALSE + rest)[0] != TRUE[0];
  }

  lemma EmptyParses(rest: Text)
    ensures ParseValue([LBRACKET] + [] + [RBRACKET] + rest) == Some((Arr([]), rest))
    ensures ParseValue([LBRACE] + [] + [RBRACE] + rest) == Some((Obj([]), rest))
  {
    var t, u := [LBRACKET] + [] + [RBRACKET] + rest, [LBRACE] + [] + [RBRACE] + rest;
    assert t[2..] == rest && u[2..] == rest;
    assert ParseValue(t) == ParseArray(t) && ParseValue(u) == ParseObject(u);
  }

  /** The parser recovers the value and leaves exactly the text that followed it. */
  lemma {:induction false} ParseInvertsPrint(v: Json, rest: Text)
    requires Accepted(v) && Delimited(rest)
    ensures ParseValue(Print(v) + rest) == Some((v, rest))
    decreases v, 1
  {
    match v
    case Null => LiteralParses(rest);
    case Bool(b) => LiteralParses(rest);
    case Int(n) => DecimalParses(n, rest);
    case Str(s) => QuotedParses(s, rest); assert (Quoted(s) + rest)[0] == QUOTE;
    case Arr(items) => ArrayParses(items, rest);
    case Obj(fs) => ObjectParses(fs, rest);
  }

  lemma {:induction false} ArrayParses(items: seq<Json>, rest: Text)
    requires Accepted(Arr(items)) && Delimited(rest)
    ensures ParseValue(Print(Arr(items)) + rest) == Some((Arr(items), rest))
    decreases items, 2
  {
    if items == [] {
      EmptyParses(rest);
    } else {
      var p, tail := Print(items[0]), ItemsTail(items[1..]);
      PrintHead(items[0]);
      ParseInvertsPrint(items[0], tail + [RBRACKET] + rest);
      ItemsTailParses(items[1..], rest);
      ArrayStep(p, tail, items[0], items[1..], rest);
      HeadTail(items);
    }
  }

  lemma {:induction false} ItemsTailParses(items: seq<Json>, rest: Text)
    requires Accepted(Arr(items)) && Delimited(rest)
    ensures ParseItemsTail(ItemsTail(items) + [RBRACKET] + rest) == Some((items, rest))
    decreases items, 0
  {
    if items == [] {
      assert ([] + [RBRACKET] + rest)[1..] == rest;
    } else {
      var p, tail := Print(items[0]), ItemsTail(items[1..]);
      ParseInvertsPrint(items[0], tail + [RBRACKET] + rest);
      ItemsTailParses(items[1..], rest);
      ItemsStep(p, tail, items[0], items[1..], rest);
      HeadTail(items);
    }
  }

  lemma {:induction false} MemberParses(f: (Text, Json), rest: Text)
    requires ValidText(f.0) && Accepted(f.1) && Delimited(rest)
    ensures ParseMember(PrintMember(f) + rest) == Some((f, rest))
    decreases f, 0
  {
    var q, p := Quoted(f.0), Print(f.1);
    RegroupMember(q, p, rest);
    QuotedParses(f.0, [COLON] + (p + rest));
    ParseInvertsPrint(f.1, rest);
    MemberStepParses(q + ([COLON] + (p + rest)), f.0, [COLON] + (p + rest), f.1, rest);
  }

  lemma {:induction false} ObjectParses(fs: Fields, rest: Text)
    requires Accepted(Obj(fs)) && Delimited(rest)
    ensures ParseValue(Print(Obj(fs)) + rest) == Some((Obj(fs), rest))
    decreases fs, 2
  {
    if fs == [] {
      EmptyParses(rest);
    } else {
      var p, tail := PrintMember(fs[0]), MembersTail(fs[1..]);
      MemberParses(fs[0], tail + [RBRACE] + rest);
      MembersTailParses(fs[1..], rest);
      ObjectStep(p, tail, fs[0], fs[1..], rest);
      HeadTail(fs);
    }
  }

  lemma {:induction false} MembersTailParses(fs: Fields, rest: Text)
    requires Accepted(Obj(fs)) && Delimited(rest)
    ensures ParseMembersTail(MembersTail(fs) + [RBRACE] + rest) == Some((fs, rest))
    decreases fs, 0
  {
    if fs == [] {
      assert ([] + [RBRACE] + rest)[1..] == rest;
    } else {
      var p, tail := PrintMember(fs[0]), MembersTail(fs[1..]);
      MemberParses(fs[0], tail + [RBRACE] + rest);
      MembersTailParses(fs[1..], rest);
      MembersStep(p, tail, fs[0], fs[1..], rest);
      HeadTail(fs);
    }
  }

  lemma PrintInjective(a: Json, b: Json)
    requires Accepted(a) && Accepted(b) && Print(a) == Print(b)
    ensures a == b
  {
    ParseInvertsPrint(a, []);
    ParseInvertsPrint(b, []);
    assert Print(a) + [] == Print(b) + [];
  }
}
