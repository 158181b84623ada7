/** Text as code points, its UTF-8 and UTF-16 forms, and the order RFC 8785 sorts property names by. */
module Unicode {

  /** A code point; the surrogates are included because both canonicalizers must reject them. */
  type CodePoint = c: nat | c < 0x110000
  type Text = seq<CodePoint>
  type Byte = b: nat | b < 256
  type Bytes = seq<Byte>

  predicate IsSurrogate(c: CodePoint) { 0xD800 <= c <= 0xDFFF }

  predicate ValidText(s: Text) { forall i :: 0 <= i < |s| ==> !IsSurrogate(s[i]) }

  /** A character literal as a code point, and a string literal as a text. */
  function Code(c: char): CodePoint { c as int }

  function Ascii(s: string): Text { seq(|s|, i requires 0 <= i < |s| => Code(s[i])) }

  /** Every scalar value is allowed in text. */
  lemma ScalarsAreValid(c: char)
    ensures !IsSurrogate(Code(c))
  {
  }

  /** And nothing else is: what is allowed is a scalar value. */
  lemma ValidIsScalar(c: CodePoint)
    requires !IsSurrogate(c)
    ensures Code(c as char) == c
  {
  }

  lemma HeadTail<T>(s: seq<T>)
    requires s != []
    ensures s == [s[0]] + s[1..]
  {
  }

  // ---------------------------------------------------------------- UTF-8

  function Utf8Char(c: CodePoint): Bytes {
    if c < 0x80 then [c]
    else if c < 0x800 then [0xC0 + c / 0x40, 0x80 + c % 0x40]
    else if c < 0x10000 then [0xE0 + c / 0x1000, 0x80 + c / 0x40 % 0x40, 0x80 + c % 0x40]
    else [0xF0 + c / 0x40000, 0x80 + c / 0x1000 % 0x40, 0x80 + c / 0x40 % 0x40, 0x80 + c % 0x40]
  }

  function Utf8(s: Text): Bytes {
    if s == [] then [] else Utf8Char(s[0]) + Utf8(s[1..])
  }

  /** The code point read back from the bytes of its encoding. */
  function Utf8Value(bs: seq<int>): int {
    if |bs| == 1 then bs[0]
    else if |bs| == 2 then (bs[0] - 0xC0) * 0x40 + bs[1] - 0x80
    else if |bs| == 3 then (bs[0] - 0xE0) * 0x1000 + (bs[1] - 0x80) * 0x40 + bs[2] - 0x80
    else if |bs| == 4 then
      (bs[0] - 0xF0) * 0x40000 + (bs[1] - 0x80) * 0x1000 + (bs[2] - 0x80) * 0x40 + bs[3] - 0x80
    else -1
  }

  lemma Utf8CharRoundTrip(c: CodePoint)
    ensures Utf8Value(Utf8Char(c)) == c
  {
    assert c / 0x1000 == c / 0x40 / 0x40;
    assert c / 0x40000 == c / 0x1000 / 0x40;
  }

  /** One character's encoding is never a proper prefix of another's: the code splits uniquely. */
  lemma Utf8CharPrefixFree(c: CodePoint, d: CodePoint, x: Bytes, y: Bytes)
    requires Utf8Char(c) + x == Utf8Char(d) + y
    ensures c == d && x == y
  {
    var s, t := Utf8Char(c) + x, Utf8Char(d) + y;
    assert s[0] == Utf8Char(c)[0] && t[0] == Utf8Char(d)[0];
    assert |Utf8Char(c)| == |Utf8Char(d)|;
    forall i | 0 <= i < |Utf8Char(c)| ensures Utf8Char(c)[i] == Utf8Char(d)[i] {
      assert s[i] == t[i];
    }
    assert Utf8Char(c) == Utf8Char(d);
    Utf8CharRoundTrip(c);
    Utf8CharRoundTrip(d);
    assert x == s[|Utf8Char(c)|..] && y == t[|Utf8Char(d)|..];
  }

  lemma {:induction false} Utf8Injective(s: Text, t: Text)
    requires Utf8(s) == Utf8(t)
    ensures s == t
  {
    if s != [] && t != [] {
      Utf8CharPrefixFree(s[0], t[0], Utf8(s[1..]), Utf8(t[1..]));
      Utf8Injective(s[1..], t[1..]);
      assert s == [s[0]] + s[1..] && t == [t[0]] + t[1..];
    }
  }

  lemma {:induction false} Utf8Concat(s: Text, t: Text)
    ensures Utf8(s + t) == Utf8(s) + Utf8(t)
  {
    if s == [] {
      assert s + t == t;
    } else {
      assert (s + t)[1..] == s[1..] + t;
      Utf8Concat(s[1..], t);
    }
  }

  /** An ASCII byte occurs in the encoding only where that character occurs in the text. */
  lemma {:induction false} Utf8AsciiOnlyFromItself(s: Text, b: Byte)
    requires b < 0x80 && b !in s
    ensures b !in Utf8(s)
  {
    if s != [] {
      HeadTail(s);
      assert b !in Utf8Char(s[0]);
      Utf8AsciiOnlyFromItself(s[1..], b);
    }
  }

  lemma {:induction false} Utf8OfAscii(s: Text)
    requires forall i :: 0 <= i < |s| ==> s[i] < 0x80
    ensures Utf8(s) == s
  {
    if s != [] {
      Utf8OfAscii(s[1..]);
      HeadTail(s);
    }
  }

  // --------------------------------------------------------------- UTF-16

  type Unit = u: nat | u < 0x10000

  function Units(c: CodePoint): seq<Unit> {
    if c < 0x10000 then [c]
    else [0xD800 + (c - 0x10000) / 0x400, 0xDC00 + (c - 0x10000) % 0x400]
  }

  function Utf16(s: Text): seq<Unit> {
    if s == [] then [] else Units(s[0]) + Utf16(s[1..])
  }

  /** The big-endian byte serialisation of a sequence of UTF-16 units. */
  function BigEndian(us: seq<Unit>): Bytes {
    if us == [] then [] else [us[0] / 256, us[0] % 256] + BigEndian(us[1..])
  }

  /** A supplementary character is a high and a low surrogate that carry ten bits each; any other is one unit. */
  lemma UnitsDecode(c: CodePoint)
    ensures c < 0x1_0000 ==> Units(c) == [c]
    ensures c >= 0x1_0000 ==>
              && |Units(c)| == 2
              && var high: int, low: int := Units(c)[0], Units(c)[1];
                 0xD800 <= high < 0xDC00 <= low < 0xE000 && 0x1_0000 + (high - 0xD800) * 1024 + (low - 0xDC00) == c
  {
  }

  lemma {:induction false} Utf16Injective(s: Text, t: Text)
    requires ValidText(s) && ValidText(t)
    requires Utf16(s) == Utf16(t)
    ensures s == t
  {
    if s != [] && t != [] {
      var x, y := Utf16(s), Utf16(t);
      assert x[0] == Units(s[0])[0] && y[0] == Units(t[0])[0];
      assert |Units(s[0])| == |Units(t[0])|;
      if s[0] >= 0x10000 {
        assert x[1] == Units(s[0])[1] && y[1] == Units(t[0])[1];
      }
      assert s[0] == t[0];
      assert Utf16(s[1..]) == x[|Units(s[0])|..] == y[|Units(t[0])|..] == Utf16(t[1..]);
      Utf16Injective(s[1..], t[1..]);
      assert s == [s[0]] + s[1..] && t == [t[0]] + t[1..];
    }
  }

  // ------------------------------------------------- lexicographic order

  /** Lexicographic order on unsigned integers, a proper prefix first. */
  predicate LexLess(a: seq<nat>, b: seq<nat>) {
    b != [] && (a == [] || a[0] < b[0] || (a[0] == b[0] && LexLess(a[1..], b[1..])))
  }

  /** At `k` two sequences that agree so far differ in favour of the first, or the first ends. */
  predicate SmallerAt(a: seq<nat>, b: seq<nat>, k: nat) {
    k <= |a| && k < |b| && a[..k] == b[..k] && (k == |a| || a[k] < b[k])
  }

  /** Where two sequences first differ, the smaller element decides; with no difference, the shorter length. */
  lemma {:induction false} LexLessIff(a: seq<nat>, b: seq<nat>)
    ensures LexLess(a, b) <==> exists k: nat :: SmallerAt(a, b, k)
  {
    if LexLess(a, b) {
      if a != [] && a[0] == b[0] {
        LexLessIff(a[1..], b[1..]);
        var k: nat :| SmallerAt(a[1..], b[1..], k);
        assert a[..k + 1] == [a[0]] + a[1..][..k] && b[..k + 1] == [b[0]] + b[1..][..k];
        assert SmallerAt(a, b, k + 1);
      } else {
        assert SmallerAt(a, b, 0);
      }
    }
    if k: nat :| SmallerAt(a, b, k) { SmallerAtIsLess(a, b, k); }
  }

  lemma {:induction false} SmallerAtIsLess(a: seq<nat>, b: seq<nat>, k: nat)
    requires SmallerAt(a, b, k)
    ensures LexLess(a, b)
  {
    if k > 0 {
      assert a[..k][0] == a[0] && b[..k][0] == b[0];
      assert a[1..][..k - 1] == a[..k][1..] && b[1..][..k - 1] == b[..k][1..];
      SmallerAtIsLess(a[1..], b[1..], k - 1);
    }
  }

  lemma {:induction false} LexIrreflexive(a: seq<nat>)
    ensures !LexLess(a, a)
  {
    if a != [] { LexIrreflexive(a[1..]); }
  }

  lemma {:induction false} LexTransitive(a: seq<nat>, b: seq<nat>, c: seq<nat>)
    requires LexLess(a, b) && LexLess(b, c)
    ensures LexLess(a, c)
  {
    if a != [] && a[0] == b[0] == c[0] { LexTransitive(a[1..], b[1..], c[1..]); }
  }

  lemma {:induction false} LexTotal(a: seq<nat>, b: seq<nat>)
    ensures a == b || LexLess(a, b) || LexLess(b, a)
  {
    if a != [] && b != [] && a[0] == b[0] {
      LexTotal(a[1..], b[1..]);
      assert a == [a[0]] + a[1..] && b == [b[0]] + b[1..];
    }
  }

  /** Comparing 16-bit units and comparing their big-endian bytes is the same order. */
  lemma {:induction false} BigEndianKeepsOrder(a: seq<Unit>, b: seq<Unit>)
    ensures LexLess(BigEndian(a), BigEndian(b)) == LexLess(a, b)
  {
    if a != [] && b != [] {
      var x, y := BigEndian(a), BigEndian(b);
      assert x[1..][1..] == BigEndian(a[1..]) && y[1..][1..] == BigEndian(b[1..]);
      BigEndianKeepsOrder(a[1..], b[1..]);
      assert x[0] == a[0] / 256 && x[1..][0] == a[0] % 256;
      assert y[0] == b[0] / 256 && y[1..][0] == b[0] % 256;
    }
  }

  /** The two implementations of the comparison: Go compares units, Python compares bytes. */
  datatype KeyOrder = CodeUnits | BigEndianBytes

  predicate KeyLess(order: KeyOrder, a: Text, b: Text) {
    match order
    case CodeUnits => LexLess(Utf16(a), Utf16(b))
    case BigEndianBytes => LexLess(BigEndian(Utf16(a)), BigEndian(Utf16(b)))
  }

  lemma KeyOrdersAgree(a: Text, b: Text)
    ensures KeyLess(BigEndianBytes, a, b) == KeyLess(CodeUnits, a, b)
  {
    BigEndianKeepsOrder(Utf16(a), Utf16(b));
  }

  /** Both comparisons are one strict total order on surrogate-free strings. */
  lemma KeyOrderIsStrictTotal(order: KeyOrder, a: Text, b: Text, c: Text)
    ensures !KeyLess(order, a, a)
    ensures KeyLess(order, a, b) && KeyLess(order, b, c) ==> KeyLess(order, a, c)
    ensures ValidText(a) && ValidText(b) && a != b ==> KeyLess(order, a, b) || KeyLess(order, b, a)
  {
    KeyOrdersAgree(a, a); KeyOrdersAgree(a, b); KeyOrdersAgree(b, a);
    KeyOrdersAgree(b, c); KeyOrdersAgree(a, c);
    var x, y, z := Utf16(a), Utf16(b), Utf16(c);
    LexIrreflexive(x);
    if LexLess(x, y) && LexLess(y, z) { LexTransitive(x, y, z); }
    if ValidText(a) && ValidText(b) && a != b {
      if x == y { Utf16Injective(a, b); }
      LexTotal(x, y);
    }
  }

  /** The order is not code-point order: a supplementary character sorts before U+E000. */
  lemma UnitOrderIsNotCodePointOrder()
    ensures KeyLess(CodeUnits, [0x10000], [0xE000])
    ensures LexLess([0xE000], [0x10000])
  {
    assert Utf16([0x10000])[0] == 0xD800 && Utf16([0xE000])[0] == 0xE000;
  }

  /** utf16Less: one pass over the common length, then the shorter string first. */
  method Utf16Less(a: Text, b: Text) returns (less: bool)
    ensures less == KeyLess(CodeUnits, a, b)
  {
    var ua, ub := Utf16(a), Utf16(b);
    var n := if |ub| < |ua| then |ub| else |ua|;
    var i := 0;
    while i < n
      invariant 0 <= i <= n
      invariant LexLess(ua, ub) == LexLess(ua[i..], ub[i..])
    {
      if ua[i] != ub[i] { return ua[i] < ub[i]; }
      assert ua[i..][1..] == ua[i + 1..] && ub[i..][1..] == ub[i + 1..];
      i := i + 1;
    }
    return |ua| < |ub|;
  }
}
