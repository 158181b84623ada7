/** Base58btc: the big-integer form (Python), the in-place byte-array form (Go), and both round trips. */
module Base58 {
  import opened Unicode
  import opened JsonValue

  // ------------------------------------------------- positional notation

  /** The number a digit sequence denotes, most significant digit first. */
  function Value(base: nat, ds: seq<nat>): nat {
    if ds == [] then 0 else Value(base, ds[..|ds| - 1]) * base + ds[|ds| - 1]
  }

  /** The minimal digits of a number: none for zero, otherwise no leading zero. */
  function Digits(base: nat, n: nat): seq<nat>
    requires base >= 2
  {
    if n == 0 then [] else Digits(base, n / base) + [n % base]
  }

  predicate InBase(base: nat, ds: seq<nat>) { forall i :: 0 <= i < |ds| ==> ds[i] < base }

  predicate Minimal(ds: seq<nat>) { ds == [] || ds[0] != 0 }

  function LeadingZeros(ds: seq<nat>): (z: nat)
    ensures z <= |ds|
  {
    if ds == [] || ds[0] != 0 then 0 else 1 + LeadingZeros(ds[1..])
  }

  function Zeros(n: nat): seq<nat> { seq(n, _ => 0) }

  /** Base conversion that keeps leading zeros one for one. */
  function Convert(from: nat, to: nat, ds: seq<nat>): seq<nat>
    requires to >= 2
  {
    Zeros(LeadingZeros(ds)) + Digits(to, Value(from, ds))
  }

  lemma DivMod(base: nat, n: nat)
    requires base >= 2
    ensures n == n / base * base + n % base && n % base < base
    ensures n > 0 ==> n / base < n
  {
  }

  lemma {:induction false} DigitsAreMinimal(base: nat, n: nat)
    requires base >= 2
    ensures InBase(base, Digits(base, n)) && Minimal(Digits(base, n))
    ensures Value(base, Digits(base, n)) == n
    ensures n != 0 ==> Digits(base, n) != []
  {
    if n != 0 {
      DivMod(base, n);
      DigitsAreMinimal(base, n / base);
      MinimalSnoc(base, n, Digits(base, n / base), n / base, n % base);
    }
  }

  lemma MinimalSnoc(base: nat, n: nat, init: seq<nat>, q: nat, r: nat)
    requires InBase(base, init) && Minimal(init) && Value(base, init) == q && r < base
    requires n == q * base + r && n != 0
    ensures InBase(base, init + [r]) && Minimal(init + [r]) && Value(base, init + [r]) == n
  {
    ValueSnoc(base, init, r);
  }

  lemma ValueSnoc(base: nat, init: seq<nat>, d: nat)
    ensures Value(base, init + [d]) == Value(base, init) * base + d
  {
    assert (init + [d])[..|init|] == init;
  }

  lemma {:induction false} MinimalIsPositive(base: nat, ds: seq<nat>)
    requires base >= 2 && ds != [] && ds[0] != 0
    ensures Value(base, ds) > 0
  {
    if |ds| > 1 {
      MinimalIsPositive(base, ds[..|ds| - 1]);
      assert Value(base, ds[..|ds| - 1]) * base > 0;
    }
  }

  lemma DivModUnique(base: nat, q: nat, r: nat)
    requires base >= 2 && r < base
    ensures (q * base + r) / base == q && (q * base + r) % base == r
  {
    var n := q * base + r;
    DivMod(base, n);
    MulBounds(base, n / base - q, r - n % base);
  }

  lemma MulBounds(base: int, k: int, d: int)
    requires base >= 2 && k * base == d && -base < d < base
    ensures k == 0
  {
  }

  /** Minimal digits are determined by the number. */
  lemma {:induction false} MinimalDigitsUnique(base: nat, ds: seq<nat>)
    requires base >= 2 && InBase(base, ds) && Minimal(ds)
    ensures Digits(base, Value(base, ds)) == ds
  {
    if ds != [] {
      var init, last := ds[..|ds| - 1], ds[|ds| - 1];
      MinimalDigitsUnique(base, init);
      MinimalIsPositive(base, ds);
      DivModUnique(base, Value(base, init), last);
      assert ds == init + [last];
    }
  }

  lemma {:induction false} ValueSkipsLeadingZeros(base: nat, z: nat, ds: seq<nat>)
    ensures Value(base, Zeros(z) + ds) == Value(base, ds)
  {
    var s := Zeros(z) + ds;
    if ds == [] {
      if z > 0 {
        assert s[..|s| - 1] == Zeros(z - 1) + [];
        ValueSkipsLeadingZeros(base, z - 1, []);
      }
    } else {
      assert s[..|s| - 1] == Zeros(z) + ds[..|ds| - 1];
      ValueSkipsLeadingZeros(base, z, ds[..|ds| - 1]);
    }
  }

  lemma {:induction false} LeadingZerosOf(z: nat, ds: seq<nat>)
    requires Minimal(ds)
    ensures LeadingZeros(Zeros(z) + ds) == z
  {
    var s := Zeros(z) + ds;
    if z > 0 {
      assert s[1..] == Zeros(z - 1) + ds;
      LeadingZerosOf(z - 1, ds);
    } else {
      assert s == ds;
    }
  }

  lemma {:induction false} SplitLeadingZeros(ds: seq<nat>)
    ensures var z := LeadingZeros(ds); ds == Zeros(z) + ds[z..] && Minimal(ds[z..])
  {
    if ds != [] && ds[0] == 0 {
      SplitLeadingZeros(ds[1..]);
      ZerosCons(ds, ds[1..], LeadingZeros(ds[1..]));
    }
  }

  lemma ZerosCons(ds: seq<nat>, tail: seq<nat>, z: nat)
    requires z <= |tail| && ds == [0] + tail && tail == Zeros(z) + tail[z..]
    ensures ds == Zeros(z + 1) + ds[z + 1..] && ds[z + 1..] == tail[z..]
  {
    assert [0] + Zeros(z) == Zeros(z + 1);
  }

  /** Converting to another base and back is the identity on every digit sequence. */
  lemma ConvertRoundTrip(from: nat, to: nat, ds: seq<nat>)
    requires from >= 2 && to >= 2 && InBase(from, ds)
    ensures Convert(to, from, Convert(from, to, ds)) == ds
  {
    var z, n := LeadingZeros(ds), Value(from, ds);
    var there := Convert(from, to, ds);
    DigitsAreMinimal(to, n);
    LeadingZerosOf(z, Digits(to, n));
    ValueSkipsLeadingZeros(to, z, Digits(to, n));
    SplitLeadingZeros(ds);
    ValueSkipsLeadingZeros(from, z, ds[z..]);
    MinimalDigitsUnique(from, ds[z..]);
  }

  // ---------------------------------------------------------- the alphabet

  /** The alphabet 1-9 A-H J-N P-Z a-k m-z, by index. */
  function Letter(d: nat): CodePoint
    requires d < 58
  {
    if d < 9 then 0x31 + d
    else if d < 17 then 0x41 + d - 9
    else if d < 22 then 0x4A + d - 17
    else if d < 33 then 0x50 + d - 22
    else if d < 44 then 0x61 + d - 33
    else 0x6D + d - 44
  }

  /** The index table both sources build from the alphabet. */
  function Index(c: CodePoint): (r: Option<nat>)
    ensures r.Some? ==> r.value < 58 && Letter(r.value) == c
  {
    if 0x31 <= c <= 0x39 then Some(c - 0x31)
    else if 0x41 <= c <= 0x48 then Some(c - 0x41 + 9)
    else if 0x4A <= c <= 0x4E then Some(c - 0x4A + 17)
    else if 0x50 <= c <= 0x5A then Some(c - 0x50 + 22)
    else if 0x61 <= c <= 0x6B then Some(c - 0x61 + 33)
    else if 0x6D <= c <= 0x7A then Some(c - 0x6D + 44)
    else None
  }

  /** The alphabet is the ASCII digits and letters without 0, O, I and l, in increasing order. */
  lemma Alphabet(c: CodePoint, d: nat, e: nat)
    requires d < e < 58
    ensures Letter(d) < Letter(e)
    ensures (exists i: nat :: i < 58 && Letter(i) == c) <==>
            && (Code('0') <= c <= Code('9') || Code('A') <= c <= Code('Z') || Code('a') <= c <= Code('z'))
            && c !in {Code('0'), Code('O'), Code('I'), Code('l')}
  {
    if Index(c).Some? { assert Letter(Index(c).value) == c; }
  }

  function Letters(ds: seq<nat>): Text
    requires InBase(58, ds)
  {
    if ds == [] then [] else [Letter(ds[0])] + Letters(ds[1..])
  }

  function Indices(t: Text): (r: Result<seq<nat>>)
    ensures r.Ok? ==> InBase(58, r.value) && |r.value| == |t|
  {
    if t == [] then Ok([])
    else
      match (Index(t[0]), Indices(t[1..]))
      case (Some(d), Ok(ds)) => Ok([d] + ds)
      case (_, _) => Err
  }

  lemma {:induction false} IndicesInvertLetters(ds: seq<nat>)
    requires InBase(58, ds)
    ensures Indices(Letters(ds)) == Ok(ds)
  {
    if ds != [] {
      IndicesInvertLetters(ds[1..]);
      assert Letters(ds)[1..] == Letters(ds[1..]);
      assert Index(Letter(ds[0])) == Some(ds[0]);
      HeadTail(ds);
    }
  }

  lemma {:induction false} LettersInvertIndices(t: Text)
    requires Indices(t).Ok?
    ensures Letters(Indices(t).value) == t
  {
    if t != [] {
      LettersInvertIndices(t[1..]);
      assert Indices(t).value[1..] == Indices(t[1..]).value;
      HeadTail(t);
    }
  }

  // ------------------------------------------------------- specification

  /** The base58 text of a byte string. */
  function Encoded(data: Bytes): Text {
    DigitsAreMinimal(58, Value(256, data));
    Letters(Convert(256, 58, data))
  }

  /** The bytes of a base58 text; an error for a character outside the alphabet. */
  function Decoded(t: Text): (r: Result<Bytes>) {
    match Indices(t)
    case Err => Err
    case Ok(ds) =>
      DigitsAreMinimal(256, Value(58, ds));
      Ok(Convert(58, 256, ds))
  }

  /** bytes -> text -> bytes. */
  lemma DecodeInvertsEncode(data: Bytes)
    ensures Decoded(Encoded(data)) == Ok(data)
  {
    DigitsAreMinimal(58, Value(256, data));
    IndicesInvertLetters(Convert(256, 58, data));
    ConvertRoundTrip(256, 58, data);
  }

  /** text -> bytes -> text, for every text the decoder accepts. */
  lemma EncodeInvertsDecode(t: Text)
    requires Decoded(t).Ok?
    ensures Encoded(Decoded(t).value) == t
  {
    var ds := Indices(t).value;
    DigitsAreMinimal(256, Value(58, ds));
    ConvertRoundTrip(58, 256, ds);
    LettersInvertIndices(t);
  }

  // -------------------------------------------- python-sdk: big integers

  lemma {:induction false} IndicesAre(t: Text, ds: seq<nat>)
    requires |ds| == |t| && Reads(t, ds)
    ensures Indices(t) == Ok(ds)
  {
    if t != [] {
      IndicesAre(t[1..], ds[1..]);
      HeadTail(ds);
    }
  }

  lemma {:induction false} OutsideAlphabet(t: Text, i: nat)
    requires i < |t| && Index(t[i]).None?
    ensures Indices(t).Err?
  {
    if i > 0 { OutsideAlphabet(t[1..], i - 1); }
  }

  lemma {:induction false} LettersConcat(a: seq<nat>, b: seq<nat>)
    requires InBase(58, a) && InBase(58, b)
    ensures Letters(a + b) == Letters(a) + Letters(b)
  {
    if a == [] {
      assert a + b == b;
    } else {
      assert (a + b)[1..] == a[1..] + b;
      LettersConcat(a[1..], b);
    }
  }

  lemma NextDigit(n: nat, out: seq<nat>)
    requires n > 0
    ensures Digits(58, n) + out == Digits(58, n / 58) + ([n % 58] + out)
  {
  }

  lemma LettersCons(d: nat, ds: seq<nat>)
    requires d < 58 && InBase(58, ds)
    ensures InBase(58, [d] + ds) && Letters([d] + ds) == [Letter(d)] + Letters(ds)
  {
    assert ([d] + ds)[1..] == ds;
  }

  method PyEncode(data: Bytes) returns (text: Text)
    ensures text == Encoded(data)
  {
    var n := Value(256, data);
    ghost var all := Digits(58, n);
    ghost var out: seq<nat> := [];
    DigitsAreMinimal(58, n);
    var encoded: Text := [];
    while n > 0
      invariant InBase(58, out) && encoded == Letters(out)
      invariant all == Digits(58, n) + out
    {
      NextDigit(n, out);
      LettersCons(n % 58, out);
      out := [n % 58] + out;
      encoded := [Letter(n % 58)] + encoded;
      n := n / 58;
    }
    assert all == out;
    var leading := LeadingZeros(data);
    LettersConcat(Zeros(leading), all);
    ZeroLetters(leading);
    return seq(leading, _ => Letter(0)) + encoded;
  }

  lemma {:induction false} ZeroLetters(z: nat)
    ensures Letters(Zeros(z)) == seq(z, _ => Letter(0))
  {
    if z > 0 {
      assert Zeros(z)[1..] == Zeros(z - 1);
      ZeroLetters(z - 1);
    }
  }

  /** `ds` are the indices of the first characters of `t`. */
  predicate Reads(t: Text, ds: seq<nat>) {
    |ds| <= |t| && forall i :: 0 <= i < |ds| ==> Index(t[i]) == Some(ds[i])
  }

  lemma ReadsNext(t: Text, ds: seq<nat>, d: nat)
    requires Reads(t, ds) && |ds| < |t| && Index(t[|ds|]) == Some(d)
    ensures Reads(t, ds + [d])
  {
    var all := ds + [d];
    forall i | 0 <= i < |all| ensures Index(t[i]) == Some(all[i]) {
      if i < |ds| { assert all[i] == ds[i]; }
    }
  }

  lemma ReadsOnes(t: Text)
    ensures Reads(t, Zeros(CountOnes(t))) && Value(58, Zeros(CountOnes(t))) == 0
  {
    ValueSkipsLeadingZeros(58, CountOnes(t), []);
    assert Zeros(CountOnes(t)) + [] == Zeros(CountOnes(t));
  }

  method PyDecode(value: Text) returns (r: Result<Bytes>)
    ensures r == Decoded(value)
  {
    var n := 0;
    ghost var ds: seq<nat> := [];
    for i := 0 to |value|
      invariant |ds| == i && Reads(value, ds) && n == Value(58, ds)
    {
      var d := Index(value[i]);
      if d.None? {
        OutsideAlphabet(value, i);
        return Err;
      }
      ReadsNext(value, ds, d.value);
      ValueSnoc(58, ds, d.value);
      ds := ds + [d.value];
      n := n * 58 + d.value;
    }
    IndicesAre(value, ds);
    var leading := CountOnes(value);
    LeadingOnesAreZeros(value);
    DigitsAreMinimal(256, n);
    var bytes: Bytes := Zeros(leading) + Digits(256, n);
    return Ok(bytes);
  }

  /** `len(value) - len(value.lstrip("1"))`. */
  function CountOnes(t: Text): (z: nat)
    ensures z <= |t|
    ensures forall i :: 0 <= i < z ==> t[i] == Letter(0)
    ensures z < |t| ==> t[z] != Letter(0)
  {
    if t == [] || t[0] != Letter(0) then 0 else 1 + CountOnes(t[1..])
  }

  lemma {:induction false} LeadingOnesAreZeros(t: Text)
    requires Indices(t).Ok?
    ensures CountOnes(t) == LeadingZeros(Indices(t).value)
  {
    if t != [] {
      LeadingOnesAreZeros(t[1..]);
      assert Indices(t).value[1..] == Indices(t[1..]).value;
    }
  }

  // ------------------------------------------- core: in-place arithmetic

  function Reverse<T>(s: seq<T>): (r: seq<T>)
    ensures |r| == |s| && forall i :: 0 <= i < |s| ==> r[i] == s[|s| - 1 - i]
  {
    seq(|s|, i requires 0 <= i < |s| => s[|s| - 1 - i])
  }

  /** The two-index swap loop that ends both the encoder and the decoder. */
  method ReverseInPlace<T>(a: array<T>)
    modifies a
    ensures a[..] == Reverse(old(a[..]))
  {
    var i, j := 0, a.Length - 1;
    while i < j
      invariant 0 <= i <= a.Length && i + j == a.Length - 1
      invariant forall k :: 0 <= k < a.Length && (k < i || k > j) ==> a[k] == old(a[a.Length - 1 - k])
      invariant forall k :: i <= k <= j ==> a[k] == old(a[k])
    {
      a[i], a[j] := a[j], a[i];
      i, j := i + 1, j - 1;
    }
  }

  lemma DivideStep(before: seq<nat>, done: seq<nat>, digit: nat, rem: nat)
    requires Value(256, before) == Value(256, done) * 58 + rem
    ensures var acc := rem * 256 + digit;
            Value(256, before + [digit]) == Value(256, done + [acc / 58]) * 58 + acc % 58
  {
    ValueSnoc(256, before, digit);
    ValueSnoc(256, done, (rem * 256 + digit) / 58);
  }

  /** One pass of long division by 58 over `a[start..]`, most significant byte first. */
  method DivideInPlace(a: array<Byte>, start: nat) returns (rem: nat)
    requires start <= a.Length
    modifies a
    ensures rem < 58
    ensures Value(256, old(a[start..])) == Value(256, a[start..]) * 58 + rem
    ensures a[..start] == old(a[..start])
  {
    rem := 0;
    ghost var was, done: seq<nat> := a[start..], [];
    var i := start;
    while i < a.Length
      invariant start <= i <= a.Length && rem < 58 && |done| == i - start
      invariant forall k :: i <= k < a.Length || 0 <= k < start ==> a[k] == old(a[k])
      invariant forall k :: 0 <= k < |done| ==> a[start + k] == done[k]
      invariant Value(256, was[..|done|]) == Value(256, done) * 58 + rem
    {
      var acc := rem * 256 + a[i];
      DivideStep(was[..|done|], done, a[i], rem);
      assert was[..|done|] + [a[i]] == was[..|done| + 1];
      a[i] := acc / 58;
      done := done + [acc / 58];
      rem := acc % 58;
      i := i + 1;
    }
    assert a[start..] == done && was[..|done|] == was;
  }

  method SkipZeros(a: array<Byte>, from: nat) returns (start: nat)
    requires from <= a.Length
    ensures from <= start <= a.Length
    ensures start == a.Length || a[start] != 0
    ensures Value(256, a[start..]) == Value(256, a[from..])
    ensures start == from + LeadingZeros(a[from..])
  {
    start := from;
    while start < a.Length && a[start] == 0
      invariant from <= start <= a.Length
      invariant forall k :: from <= k < start ==> a[k] == 0
    {
      start := start + 1;
    }
    assert a[from..] == Zeros(start - from) + a[start..];
    ValueSkipsLeadingZeros(256, start - from, a[start..]);
    LeadingZerosOf(start - from, a[start..]);
  }

  /** The base-58 digits of `a[leading..]`, least significant first, by repeated in-place division. */
  method DivideOut(a: array<Byte>, leading: nat) returns (out: seq<nat>)
    requires leading <= a.Length && (leading == a.Length || a[leading] != 0)
    modifies a
    ensures Reverse(out) == Digits(58, Value(256, old(a[leading..])))
  {
    ghost var all := Digits(58, Value(256, a[leading..]));
    var start := leading;
    out := [];
    assert all == all + Reverse(out);
    while start < a.Length
      invariant start <= a.Length
      invariant start == a.Length || a[start] != 0
      invariant all == Digits(58, Value(256, a[start..])) + Reverse(out)
      decreases Value(256, a[start..])
    {
      ghost var v := Value(256, a[start..]);
      MinimalIsPositive(256, a[start..]);
      var rem := DivideInPlace(a, start);
      ghost var q := Value(256, a[start..]);
      DivModUnique(58, q, rem);
      ReverseSnoc(Digits(58, q), out, rem);
      out := out + [rem];
      start := SkipZeros(a, start);
    }
    assert a[start..] == [];
  }

  lemma ReverseSnoc(high: seq<nat>, out: seq<nat>, rem: nat)
    ensures high + [rem] + Reverse(out) == high + Reverse(out + [rem])
  {
    assert Reverse(out + [rem]) == [rem] + Reverse(out);
  }

  method GoEncode(data: Bytes) returns (text: Text)
    ensures text == Encoded(data)
  {
    if |data| == 0 { return []; }
    var a := new Byte[|data|](i requires 0 <= i < |data| => data[i]);
    assert a[..] == data && a[0..] == data;
    var leading := SkipZeros(a, 0);
    var out := DivideOut(a, leading);
    DigitsAreMinimal(58, Value(256, data));
    assert Reverse(out + Zeros(leading)) == Zeros(leading) + Reverse(out);
    text := Alphabetic(out + Zeros(leading));
  }

  lemma ReverseInBase(out: seq<nat>)
    requires InBase(58, Reverse(out))
    ensures InBase(58, out)
  {
    forall i | 0 <= i < |out| ensures out[i] < 58 {
      assert out[i] == Reverse(out)[|out| - 1 - i];
    }
  }

  /** Letters for digits that stand least significant first, turned round in place. */
  method Alphabetic(out: seq<nat>) returns (text: Text)
    requires InBase(58, Reverse(out))
    ensures text == Letters(Reverse(out))
  {
    ReverseInBase(out);
    var letters := new CodePoint[|out|](i requires 0 <= i < |out| && out[i] < 58 => Letter(out[i]));
    ReversedLetters(out, letters[..]);
    ReverseInPlace(letters);
    return letters[..];
  }

  lemma ReversedLetters(out: seq<nat>, letters: Text)
    requires InBase(58, out) && InBase(58, Reverse(out)) && |letters| == |out|
    requires forall i :: 0 <= i < |out| ==> letters[i] == Letter(out[i])
    ensures Reverse(letters) == Letters(Reverse(out))
  {
    LettersPointwise(Reverse(out));
  }

  lemma {:induction false} LettersPointwise(ds: seq<nat>)
    requires InBase(58, ds)
    ensures |Letters(ds)| == |ds| && forall i :: 0 <= i < |ds| ==> Letters(ds)[i] == Letter(ds[i])
  {
    if ds != [] {
      LettersPointwise(ds[1..]);
      assert forall i :: 1 <= i < |ds| ==> ds[i] == ds[1..][i - 1];
    }
  }

  /** A little-endian byte string continued by `top` as its higher part. */
  function Little(ds: seq<nat>, top: nat): nat {
    if ds == [] then top else ds[0] + 256 * Little(ds[1..], top)
  }

  lemma {:induction false} LittleSnoc(ds: seq<nat>, d: nat, top: nat)
    ensures Little(ds + [d], top) == Little(ds, d + 256 * top)
  {
    if ds == [] {
      assert ([d] + [])[1..] == [];
    } else {
      assert (ds + [d])[1..] == ds[1..] + [d];
      LittleSnoc(ds[1..], d, top);
    }
  }

  lemma {:induction false} LittleIsReversed(ds: seq<nat>)
    ensures Little(ds, 0) == Value(256, Reverse(ds))
  {
    if ds != [] {
      LittleIsReversed(ds[1..]);
      assert Reverse(ds) == Reverse(ds[1..]) + [ds[0]];
      ValueSnoc(256, Reverse(ds[1..]), ds[0]);
    }
  }

  predicate NoTopZero(ds: seq<nat>) { ds == [] || ds[|ds| - 1] != 0 }

  /** Of two byte strings of one length, the one with a nonzero top byte is the larger. */
  lemma {:induction false} TopByteDecides(a: Bytes, b: Bytes)
    requires |a| == |b| > 0 && a[|a| - 1] != 0 && b[|b| - 1] == 0
    ensures Little(a, 0) > Little(b, 0)
  {
    if |a| > 1 { TopByteDecides(a[1..], b[1..]); }
  }

  lemma CarryStep(low: seq<nat>, carry: nat, digit: nat, rest: nat)
    ensures var c := carry + digit * 58;
            Little(low + [c % 256], c / 256 + 58 * rest) == Little(low, carry + 58 * (digit + 256 * rest))
  {
    var c := carry + digit * 58;
    LittleSnoc(low, c % 256, c / 256 + 58 * rest);
  }

  /** Multiply a little-endian number by 58 and add a digit: carry through, then append what is left. */
  method MultiplyAdd(bytes: Bytes, v: nat) returns (out: Bytes)
    requires NoTopZero(bytes) && (bytes == [] ==> v != 0)
    ensures Little(out, 0) == 58 * Little(bytes, 0) + v
    ensures NoTopZero(out) && out != []
  {
    ghost var target := 58 * Little(bytes, 0) + v;
    out := bytes;
    var carry: nat := v;
    var j := 0;
    assert bytes[0..] == bytes;
    while j < |bytes|
      invariant 0 <= j <= |bytes| == |out|
      invariant forall k :: j <= k < |out| ==> out[k] == bytes[k]
      invariant Little(out[..j], carry + 58 * Little(bytes[j..], 0)) == target
    {
      assert bytes[j..][1..] == bytes[j + 1..];
      CarryStep(out[..j], carry, bytes[j], Little(bytes[j + 1..], 0));
      var digit: nat := out[j];
      carry := carry + digit * 58;
      assert out[j := carry % 256][..j + 1] == out[..j] + [carry % 256];
      out := out[j := carry % 256];
      carry := carry / 256;
      j := j + 1;
    }
    assert out[..j] == out && bytes[j..] == [];
    if carry == 0 && out[|out| - 1] == 0 { TopByteDecides(bytes, out); }
    while carry > 0
      invariant Little(out, carry) == target
      invariant carry > 0 || (NoTopZero(out) && out != [])
    {
      LittleSnoc(out, carry % 256, carry / 256);
      out := out + [carry % 256];
      carry := carry / 256;
    }
  }

  method GoDecode(t: Text) returns (r: Result<Bytes>)
    ensures r == Decoded(t)
  {
    var leading := CountOnes(t);
    var out: Bytes := [];
    ghost var ds := Zeros(leading);
    ReadsOnes(t);
    var i := leading;
    while i < |t|
      invariant leading <= i <= |t| && |ds| == i && Reads(t, ds)
      invariant NoTopZero(out) && (i > leading ==> out != [])
      invariant Little(out, 0) == Value(58, ds)
    {
      var v := Index(t[i]);
      if v.None? {
        OutsideAlphabet(t, i);
        return Err;
      }
      ReadsNext(t, ds, v.value);
      ValueSnoc(58, ds, v.value);
      ds := ds + [v.value];
      out := MultiplyAdd(out, v.value);
      i := i + 1;
    }
    IndicesAre(t, ds);
    LittleDigits(t, ds, out);
    var bytes := ToBigEndian(out);
    bytes := Zeros(leading) + bytes;
    return Ok(bytes);
  }

  method ToBigEndian(out: Bytes) returns (bytes: Bytes)
    ensures bytes == Reverse<nat>(out)
  {
    var a := new Byte[|out|](k requires 0 <= k < |out| => out[k]);
    assert a[..] == out;
    ReverseInPlace(a);
    return a[..];
  }

  lemma LittleDigits(t: Text, ds: seq<nat>, out: Bytes)
    requires Indices(t) == Ok(ds) && NoTopZero(out) && Little(out, 0) == Value(58, ds)
    ensures Decoded(t) == Ok(Zeros(CountOnes(t)) + Reverse<nat>(out))
  {
    LeadingOnesAreZeros(t);
    LittleIsReversed(out);
    MinimalDigitsUnique(256, Reverse<nat>(out));
  }
}
