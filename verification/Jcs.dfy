/** The two RFC 8785 canonicalizers and what signatures and hashes rely on about them. */
module Jcs {
  import opened Unicode
  import opened JsonValue
  import opened JsonText

  // --------------------------------------- python-sdk: recursion on values

  function EncodeString(s: Text): Result<Text> {
    if ValidText(s) then Ok(Quoted(s)) else Err
  }

  /** `_encode`; `order` is the sort key, big-endian UTF-16 bytes in the Python source. */
  function Encode(order: KeyOrder, v: Json): Result<Text>
    decreases v, 0
  {
    match v
    case Null => Ok(NULL)
    case Bool(b) => Ok(if b then TRUE else FALSE)
    case Int(n) => Ok(Decimal(n))
    case Str(s) => EncodeString(s)
    case Arr(items) =>
      (match EncodeItems(order, items)
       case Err => Err
       case Ok(parts) => Ok([LBRACKET] + Join(parts) + [RBRACKET]))
    case Obj(fs) =>
      SortElements(order, fs);
      assert forall f :: f in Sort(order, fs) ==> f in fs;
      (match EncodeMembers(order, v, Sort(order, fs))
       case Err => Err
       case Ok(parts) => Ok([LBRACE] + Join(parts) + [RBRACE]))
    case Unsupported => Err
  }

  function EncodeItems(order: KeyOrder, items: seq<Json>): Result<seq<Text>>
    decreases items, 0
  {
    if items == [] then Ok([])
    else
      match (Encode(order, items[0]), EncodeItems(order, items[1..]))
      case (Ok(t), Ok(ts)) => Ok([t] + ts)
      case (_, _) => Err
  }

  /** The parts of an object, `members` being fields of `owner` already sorted. */
  function EncodeMembers(order: KeyOrder, owner: Json, members: Fields): Result<seq<Text>>
    requires owner.Obj? && forall f :: f in members ==> f in owner.fields
    decreases owner, 0, |members|
  {
    if members == [] then Ok([])
    else
      assert members[0] in owner.fields;
      match (EncodeString(members[0].0), Encode(order, members[0].1), EncodeMembers(order, owner, members[1..]))
      case (Ok(k), Ok(t), Ok(ts)) => Ok([k + [COLON] + t] + ts)
      case (_, _, _) => Err
  }

  /** `",".join(parts)`. */
  function Join(parts: seq<Text>): Text {
    if parts == [] then [] else parts[0] + JoinTail(parts[1..])
  }

  function JoinTail(parts: seq<Text>): Text {
    if parts == [] then [] else [COMMA] + parts[0] + JoinTail(parts[1..])
  }

  function Canonicalize(v: Json): Result<Bytes> {
    match Encode(BigEndianBytes, v)
    case Ok(t) => Ok(Utf8(t))
    case Err => Err
  }

  /** `_encode_string`: pieces appended one character at a time, a surrogate raising. */
  method EncodeStringLoop(s: Text) returns (r: Result<Text>)
    ensures r == EncodeString(s)
  {
    var out: Text := [QUOTE];
    var i := 0;
    while i < |s|
      invariant 0 <= i <= |s|
      invariant ValidText(s[..i])
      invariant out + EscapeAll(s[i..]) == [QUOTE] + EscapeAll(s)
    {
      if IsSurrogate(s[i]) { return Err; }
      assert s[i..][1..] == s[i + 1..];
      Assoc(out, Escape(s[i]), EscapeAll(s[i + 1..]));
      out := out + Escape(s[i]);
      i := i + 1;
    }
    assert s[..|s|] == s && out + [] == out;
    return Ok(out + [QUOTE]);
  }

  lemma Assoc(a: Text, b: Text, c: Text)
    ensures a + b + c == a + (b + c)
  {
  }

  // -------------------------------------------- core: appending to a builder

  class Builder {
    var text: Text

    constructor ()
      ensures text == []
    {
      text := [];
    }

    method Write(t: Text)
      modifies this
      ensures text == old(text) + t
    {
      text := text + t;
    }
  }

  method GoEncodeString(b: Builder, s: Text) returns (ok: bool)
    modifies b
    ensures ok == ValidText(s)
    ensures ok ==> b.text == old(b.text) + Quoted(s)
  {
    if !ValidText(s) { return false; }
    b.Write([QUOTE]);
    var i := 0;
    while i < |s|
      invariant 0 <= i <= |s|
      invariant b.text + EscapeAll(s[i..]) == old(b.text) + [QUOTE] + EscapeAll(s)
    {
      assert s[i..][1..] == s[i + 1..];
      Assoc(b.text, Escape(s[i]), EscapeAll(s[i + 1..]));
      b.Write(Escape(s[i]));
      i := i + 1;
    }
    assert b.text + [] == b.text;
    Assoc(old(b.text), [QUOTE] + EscapeAll(s), [QUOTE]);
    Assoc(old(b.text), [QUOTE], EscapeAll(s));
    b.Write([QUOTE]);
    return true;
  }

  method GoEncode(b: Builder, v: Json) returns (ok: bool)
    requires WellFormed(v)
    modifies b
    ensures ok == Accepted(v)
    ensures ok ==> b.text == old(b.text) + Print(Normalize(v))
    decreases v, 1
  {
    match v
    case Null => b.Write(NULL); return true;
    case Bool(x) => b.Write(if x then TRUE else FALSE); return true;
    case Str(s) => ok := GoEncodeString(b, s);
    case Int(n) => b.Write(Decimal(n)); return true;
    case Arr(items) => ok := GoEncodeArray(b, items);
    case Obj(fs) => ok := GoEncodeObject(b, v);
    case Unsupported => return false;
  }

  /** What a loop that has written `i` items still has to write, separators included. */
  ghost function ItemsFrom(ns: seq<Json>, i: nat): Text
    requires i <= |ns|
  {
    if i == 0 then PrintItems(ns) else ItemsTail(ns[i..])
  }

  ghost function MembersFrom(ns: Fields, i: nat): Text
    requires i <= |ns|
  {
    if i == 0 then PrintMembers(ns) else MembersTail(ns[i..])
  }

  lemma ItemsFromStep(written: Text, ns: seq<Json>, i: nat)
    requires i < |ns|
    ensures written + ItemsFrom(ns, i) ==
            (if i > 0 then written + [COMMA] else written) + Print(ns[i]) + ItemsFrom(ns, i + 1)
  {
    assert ns[i..][1..] == ns[i + 1..];
    Assoc(written, Print(ns[i]), ItemsFrom(ns, i + 1));
    Assoc(written + [COMMA], Print(ns[i]), ItemsFrom(ns, i + 1));
    Assoc(written, [COMMA], Print(ns[i]) + ItemsFrom(ns, i + 1));
    Assoc([COMMA], Print(ns[i]), ItemsFrom(ns, i + 1));
  }

  lemma MembersFromStep(written: Text, ns: Fields, i: nat)
    requires i < |ns|
    ensures written + MembersFrom(ns, i) ==
            (if i > 0 then written + [COMMA] else written) + Quoted(ns[i].0) + [COLON] + Print(ns[i].1)
            + MembersFrom(ns, i + 1)
  {
    assert ns[i..][1..] == ns[i + 1..];
    var p, rest := PrintMember(ns[i]), MembersFrom(ns, i + 1);
    Assoc(written, p, rest);
    Assoc(written + [COMMA], p, rest);
    Assoc(written, [COMMA], p + rest);
    Assoc([COMMA], p, rest);
    Assoc(written, Quoted(ns[i].0) + [COLON], Print(ns[i].1));
    Assoc(written, Quoted(ns[i].0), [COLON]);
    Assoc(written + [COMMA], Quoted(ns[i].0) + [COLON], Print(ns[i].1));
    Assoc(written + [COMMA], Quoted(ns[i].0), [COLON]);
  }

  lemma Enclosed(before: Text, open: Text, body: Text, close: Text, text: Text)
    requires text == before + open + body
    ensures text + close == before + (open + body + close)
  {
    assert before + open + body + close == before + (open + body + close);
  }

  method GoEncodeArray(b: Builder, items: seq<Json>) returns (ok: bool)
    requires WellFormed(Arr(items))
    modifies b
    ensures ok == Accepted(Arr(items))
    ensures ok ==> b.text == old(b.text) + Print(Normalize(Arr(items)))
    decreases items, 1
  {
    b.Write([LBRACKET]);
    ok := GoEncodeItems(b, items);
    if ok {
      Enclosed(old(b.text), [LBRACKET], PrintItems(NormalizeItems(items)), [RBRACKET], b.text);
      b.Write([RBRACKET]);
    }
  }

  /** One turn of the loop over the items: a comma before all but the first, then the value. */
  method GoEncodeItem(b: Builder, i: nat, v: Json) returns (ok: bool)
    requires WellFormed(v)
    modifies b
    ensures ok == Accepted(v)
    ensures ok ==> b.text == (if i > 0 then old(b.text) + [COMMA] else old(b.text)) + Print(Normalize(v))
    decreases v, 2
  {
    if i > 0 { b.Write([COMMA]); }
    ok := GoEncode(b, v);
  }

  method GoEncodeItems(b: Builder, items: seq<Json>) returns (ok: bool)
    requires forall k :: 0 <= k < |items| ==> WellFormed(items[k])
    modifies b
    ensures ok == forall k :: 0 <= k < |items| ==> Accepted(items[k])
    ensures ok ==> b.text == old(b.text) + PrintItems(NormalizeItems(items))
    decreases items, 0
  {
    ghost var ns := NormalizeItems(items);
    NormalizeItemsAt(items);
    var i := 0;
    while i < |items|
      invariant 0 <= i <= |items| == |ns|
      invariant forall k :: 0 <= k < i ==> Accepted(items[k])
      invariant b.text + ItemsFrom(ns, i) == old(b.text) + PrintItems(ns)
    {
      ItemsFromStep(b.text, ns, i);
      var accepted := GoEncodeItem(b, i, items[i]);
      if !accepted { return false; }
      i := i + 1;
    }
    assert b.text + [] == b.text;
    return true;
  }

  predicate AcceptedField(f: (Text, Json)) { ValidText(f.0) && Accepted(f.1) }

  /** One turn of the loop over the sorted keys: name, colon, value. */
  method GoEncodeMember(b: Builder, owner: Json, f: (Text, Json)) returns (ok: bool)
    requires owner.Obj? && WellFormed(owner) && f in owner.fields
    modifies b
    ensures ok == AcceptedField(f)
    ensures ok ==> b.text == old(b.text) + Quoted(f.0) + [COLON] + Print(Normalize(f.1))
    decreases owner, 0, 0
  {
    ok := GoEncodeString(b, f.0);
    if ok {
      b.Write([COLON]);
      ok := GoEncode(b, f.1);
    }
  }

  method GoEncodeObject(b: Builder, v: Json) returns (ok: bool)
    requires v.Obj? && WellFormed(v)
    modifies b
    ensures ok == Accepted(v)
    ensures ok ==> b.text == old(b.text) + Print(Normalize(v))
    decreases v, 0, 2
  {
    var keys := SortedKeys(v.fields);
    SortedObject(v.fields);
    b.Write([LBRACE]);
    ok := GoEncodeSorted(b, v, keys);
    if ok {
      Enclosed(old(b.text), [LBRACE], PrintMembers(NormalizeFields(Sort(CodeUnits, v.fields))), [RBRACE], b.text);
      b.Write([RBRACE]);
    }
  }

  method GoEncodeSorted(b: Builder, v: Json, keys: seq<Text>) returns (ok: bool)
    requires v.Obj? && WellFormed(v) && keys == SortedKeys(v.fields)
    modifies b
    ensures ok == var ns := NormalizeFields(Sort(CodeUnits, v.fields)); forall k :: 0 <= k < |ns| ==> AcceptedField(ns[k])
    ensures ok ==> b.text == old(b.text) + PrintMembers(NormalizeFields(Sort(CodeUnits, v.fields)))
    decreases v, 0, 1
  {
    var obj := v.fields;
    ghost var ns := NormalizeFields(Sort(CodeUnits, obj));
    NormalizeFieldsAt(Sort(CodeUnits, obj));
    var i := 0;
    while i < |keys|
      invariant 0 <= i <= |keys| == |ns|
      invariant forall k :: 0 <= k < i ==> AcceptedField(ns[k])
      invariant b.text + MembersFrom(ns, i) == old(b.text) + PrintMembers(ns)
    {
      MembersFromStep(b.text, ns, i);
      SortedFieldIsLookedUp(obj, i);
      var f := (keys[i], Lookup(obj, keys[i]).value);
      if i > 0 { b.Write([COMMA]); }
      var accepted := GoEncodeMember(b, v, f);
      if !accepted { return false; }
      i := i + 1;
    }
    assert b.text + [] == b.text;
    return true;
  }

  function SortedKeys(fs: Fields): seq<Text> {
    var sorted := Sort(CodeUnits, fs);
    seq(|sorted|, i requires 0 <= i < |sorted| => sorted[i].0)
  }

  lemma SortedObject(fs: Fields)
    ensures var ns := NormalizeFields(Sort(CodeUnits, fs));
            && Normalize(Obj(fs)) == Obj(ns)
            && |ns| == |SortedKeys(fs)|
            && Accepted(Obj(fs)) == forall k :: 0 <= k < |ns| ==> AcceptedField(ns[k])
  {
    SortNormalizes(fs);
    NormalizeFieldsAt(Sort(CodeUnits, fs));
    NormalizeAccepted(Obj(fs));
  }

  lemma SortedFieldIsLookedUp(fs: Fields, i: nat)
    requires DistinctKeys(fs) && i < |Sort(CodeUnits, fs)|
    ensures var f := Sort(CodeUnits, fs)[i];
            && f in fs && Lookup(fs, f.0) == Some(f.1)
            && i < |NormalizeFields(Sort(CodeUnits, fs))|
            && NormalizeFields(Sort(CodeUnits, fs))[i] == (f.0, Normalize(f.1))
            && AcceptedField((f.0, Normalize(f.1))) == AcceptedField(f)
  {
    SortElements(CodeUnits, fs);
    NormalizeFieldsAt(Sort(CodeUnits, fs));
    NormalizeAccepted(Sort(CodeUnits, fs)[i].1);
    var f := Sort(CodeUnits, fs)[i];
    assert f in fs;
    var j :| 0 <= j < |fs| && fs[j] == f;
    LookupOf(fs, j);
  }

  method GoCanonicalize(v: Json) returns (r: Result<Bytes>)
    requires WellFormed(v)
    ensures r == Canonicalize(v)
  {
    var b := new Builder();
    var ok := GoEncode(b, v);
    CanonicalizersAgree(v);
    if !ok { return Err; }
    assert [] + Print(Normalize(v)) == Print(Normalize(v));
    return Ok(Utf8(b.text));
  }

  // ------------------------------------------------------------ theorems

  /** A hash of canonical bytes tells these two inputs apart, if they differ. */
  predicate NoCollision(hash: Bytes -> Text, x: Bytes, y: Bytes) { hash(x) == hash(y) ==> x == y }

  /** Both sort keys give the text of the normal form, and only accepted values have one. */
  lemma {:induction false} EncodeIsPrintOfNormalForm(order: KeyOrder, v: Json)
    ensures Encode(order, v) == if Accepted(v) then Ok(Print(Normalize(v))) else Err
    decreases v, 0
  {
    match v
    case Arr(items) => ItemsEncode(order, items);
    case Obj(fs) =>
      var sorted := Sort(order, fs);
      SortElements(order, fs);
      assert forall f :: f in sorted ==> f in fs;
      if order.BigEndianBytes? { SortsAgree(fs); }
      SortNormalizes(fs);
      AllFields(fs, sorted);
      MembersEncode(order, v, sorted);
    case _ =>
  }

  lemma {:induction false} ItemsEncode(order: KeyOrder, items: seq<Json>)
    ensures EncodeItems(order, items).Ok? == Accepted(Arr(items))
    ensures Accepted(Arr(items)) ==> var ts := EncodeItems(order, items).value;
              Join(ts) == PrintItems(NormalizeItems(items)) && JoinTail(ts) == ItemsTail(NormalizeItems(items))
    decreases items, 0
  {
    if items != [] {
      EncodeIsPrintOfNormalForm(order, items[0]);
      ItemsEncode(order, items[1..]);
      assert forall i :: 0 <= i < |items| ==> items[i] == if i == 0 then items[0] else items[1..][i - 1];
      assert forall i :: 0 <= i < |items[1..]| ==> items[1..][i] == items[i + 1];
      assert NormalizeItems(items)[1..] == NormalizeItems(items[1..]);
    }
  }

  lemma {:induction false} MembersEncode(order: KeyOrder, owner: Json, ms: Fields)
    requires owner.Obj? && forall f :: f in ms ==> f in owner.fields
    ensures EncodeMembers(order, owner, ms).Ok? ==
            forall i :: 0 <= i < |ms| ==> ValidText(ms[i].0) && Accepted(ms[i].1)
    ensures EncodeMembers(order, owner, ms).Ok? ==> var ts := EncodeMembers(order, owner, ms).value;
              Join(ts) == PrintMembers(NormalizeFields(ms)) && JoinTail(ts) == MembersTail(NormalizeFields(ms))
    decreases owner, 0, |ms|
  {
    if ms != [] {
      assert ms[0] in owner.fields;
      EncodeIsPrintOfNormalForm(order, ms[0].1);
      MembersEncode(order, owner, ms[1..]);
      assert forall i :: 0 <= i < |ms| ==> ms[i] == if i == 0 then ms[0] else ms[1..][i - 1];
      assert forall i :: 0 <= i < |ms[1..]| ==> ms[1..][i] == ms[i + 1];
      assert NormalizeFields(ms)[1..] == NormalizeFields(ms[1..]);
    }
  }

  /** Sorting by units or by bytes yields the same bytes for every value, and rejects the same values. */
  lemma CanonicalizersAgree(v: Json)
    ensures Encode(CodeUnits, v) == Encode(BigEndianBytes, v)
    ensures Canonicalize(v) == if Accepted(v) then Ok(Utf8(Print(Normalize(v)))) else Err
  {
    EncodeIsPrintOfNormalForm(CodeUnits, v);
    EncodeIsPrintOfNormalForm(BigEndianBytes, v);
  }

  /**
   Canonical bytes identify a JSON value exactly: two values have the same canonical bytes if and
   only if they are the same value up to the order in which object fields were inserted.
   */
  lemma SameBytesIffEquivalent(a: Json, b: Json)
    requires WellFormed(a) && WellFormed(b) && Accepted(a) && Accepted(b)
    ensures Canonicalize(a) == Canonicalize(b) <==> Equivalent(a, b)
  {
    CanonicalizersAgree(a);
    CanonicalizersAgree(b);
    EquivalentIffSameNormalForm(a, b);
    if Canonicalize(a) == Canonicalize(b) {
      Utf8Injective(Print(Normalize(a)), Print(Normalize(b)));
      NormalizeAccepted(a);
      NormalizeAccepted(b);
      PrintInjective(Normalize(a), Normalize(b));
    }
  }

  /** The canonical text of a value parses back to the value, whatever delimiter-led text follows. */
  lemma CanonicalTextDecodes(v: Json, rest: Text)
    requires WellFormed(v) && Accepted(v) && Delimited(rest)
    ensures Encode(BigEndianBytes, v).Ok?
    ensures var parsed := ParseValue(Encode(BigEndianBytes, v).value + rest);
            parsed.Some? && parsed.value == (Normalize(v), rest) && Equivalent(v, parsed.value.0)
  {
    EncodeIsPrintOfNormalForm(BigEndianBytes, v);
    NormalizeAccepted(v);
    ParseInvertsPrint(Normalize(v), rest);
    NormalizeWellFormed(v);
    NormalizeIdempotent(v);
    EquivalentIffSameNormalForm(v, Normalize(v));
  }

  lemma {:induction false} NormalizeWellFormed(v: Json)
    requires WellFormed(v) && Accepted(v)
    ensures WellFormed(Normalize(v))
  {
    match v
    case Arr(items) =>
      NormalizeItemsAt(items);
      forall i | 0 <= i < |items| { NormalizeWellFormed(items[i]); }
    case Obj(fs) =>
      var ns := NormalizeFields(fs);
      NormalizeFieldsAt(fs);
      forall i | 0 <= i < |fs| { NormalizeWellFormed(fs[i].1); }
      SortElements(CodeUnits, ns);
      SortSorted(CodeUnits, ns);
      SortedIsDistinct(Sort(CodeUnits, ns));
      assert forall i :: 0 <= i < |Sort(CodeUnits, ns)| ==> Sort(CodeUnits, ns)[i] in ns;
    case _ =>
  }

  lemma SortedIsDistinct<V(!new)>(fs: seq<(Text, V)>)
    requires Sorted(CodeUnits, fs)
    ensures DistinctKeys(fs)
  {
    forall i, j | 0 <= i < j < |fs| ensures fs[i].0 != fs[j].0 {
      KeyOrderIsStrictTotal(CodeUnits, fs[i].0, fs[j].0, fs[i].0);
    }
  }

  lemma {:induction false} NormalizeIdempotent(v: Json)
    requires WellFormed(v) && Accepted(v)
    ensures Normalize(Normalize(v)) == Normalize(v)
  {
    match v
    case Arr(items) =>
      var ns := NormalizeItems(items);
      NormalizeItemsAt(items);
      NormalizeItemsAt(ns);
      forall i | 0 <= i < |items| { NormalizeIdempotent(items[i]); }
      assert NormalizeItems(ns) == ns;
    case Obj(fs) =>
      var ns := NormalizeFields(fs);
      var sorted := Sort(CodeUnits, ns);
      NormalizeFieldsAt(fs);
      NormalizeFieldsAt(sorted);
      forall i | 0 <= i < |fs| { NormalizeIdempotent(fs[i].1); }
      SortElements(CodeUnits, ns);
      forall i | 0 <= i < |sorted| ensures NormalizeFields(sorted)[i] == sorted[i] {
        assert sorted[i] in ns;
      }
      assert NormalizeFields(sorted) == sorted;
      SortSorted(CodeUnits, ns);
      SortedIsDistinct(sorted);
      forall i | 0 <= i < |sorted| ensures ValidText(sorted[i].0) { assert sorted[i] in ns; }
      SortElements(CodeUnits, sorted);
      SortSorted(CodeUnits, sorted);
      SortedUnique(CodeUnits, Sort(CodeUnits, sorted), sorted);
    case _ =>
  }
}
