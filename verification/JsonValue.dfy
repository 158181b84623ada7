/**
 JSON values as the two canonicalizers see them.  An object is its fields in insertion (Python) or
 iteration (Go) order; keys of one object are distinct.
 */
module JsonValue {
  import opened Unicode

  datatype Option<+T> = None | Some(value: T)

  datatype Result<+T> = Ok(value: T) | Err

  /** `Unsupported` stands for floats and every other type neither canonicalizer accepts. */
  datatype Json =
    | Null
    | Bool(b: bool)
    | Int(n: int)
    | Str(s: Text)
    | Arr(items: seq<Json>)
    | Obj(fields: seq<(Text, Json)>)
    | Unsupported

  type Fields = seq<(Text, Json)>

  predicate DistinctKeys<V>(fs: seq<(Text, V)>) {
    forall i, j :: 0 <= i < j < |fs| ==> fs[i].0 != fs[j].0
  }

  predicate ValidKeys<V>(fs: seq<(Text, V)>) {
    forall i :: 0 <= i < |fs| ==> ValidText(fs[i].0)
  }

  /** Every object is a dictionary: no key twice. */
  predicate WellFormed(v: Json) {
    match v
    case Arr(items) => forall i :: 0 <= i < |items| ==> WellFormed(items[i])
    case Obj(fs) => DistinctKeys(fs) && forall i :: 0 <= i < |fs| ==> WellFormed(fs[i].1)
    case _ => true
  }

  /** What RFC 8785 lets the canonicalizers encode: no lone surrogate, no float. */
  predicate Accepted(v: Json) {
    match v
    case Str(s) => ValidText(s)
    case Arr(items) => forall i :: 0 <= i < |items| ==> Accepted(items[i])
    case Obj(fs) => ValidKeys(fs) && forall i :: 0 <= i < |fs| ==> Accepted(fs[i].1)
    case Unsupported => false
    case _ => true
  }

  function Lookup<V>(fs: seq<(Text, V)>, key: Text): (r: Option<V>)
    ensures r.None? <==> forall i :: 0 <= i < |fs| ==> fs[i].0 != key
    ensures r.Some? ==> (key, r.value) in fs
  {
    if fs == [] then None
    else if fs[0].0 == key then assert fs[0] == (key, fs[0].1); Some(fs[0].1)
    else
      assert forall i :: 0 <= i < |fs[1..]| ==> fs[1..][i] == fs[i + 1];
      Lookup(fs[1..], key)
  }

  lemma LookupOf<V>(fs: seq<(Text, V)>, i: nat)
    requires DistinctKeys(fs) && i < |fs|
    ensures Lookup(fs, fs[i].0) == Some(fs[i].1)
  {
    var v := Lookup(fs, fs[i].0).value;
    var j :| 0 <= j < |fs| && fs[j] == (fs[i].0, v);
  }

  /** The fields whose key is not `key`, in order. */
  function Without<V>(fs: seq<(Text, V)>, key: Text): seq<(Text, V)> {
    if fs == [] then []
    else if fs[0].0 == key then Without(fs[1..], key)
    else [fs[0]] + Without(fs[1..], key)
  }

  lemma {:induction false} WithoutElements<V(!new)>(fs: seq<(Text, V)>, key: Text)
    ensures forall f :: f in Without(fs, key) <==> f in fs && f.0 != key
    ensures |Without(fs, key)| <= |fs|
  {
    if fs != [] {
      WithoutElements(fs[1..], key);
      HeadTail(fs);
    }
  }

  lemma {:induction false} WithoutDistinct<V(!new)>(fs: seq<(Text, V)>, key: Text)
    requires DistinctKeys(fs)
    ensures DistinctKeys(Without(fs, key))
  {
    if fs != [] {
      WithoutDistinct(fs[1..], key);
      WithoutElements(fs[1..], key);
      var rest := Without(fs[1..], key);
      forall j | 0 <= j < |rest| ensures rest[j].0 != fs[0].0 {
        assert rest[j] in fs[1..];
        var k :| 0 <= k < |fs[1..]| && fs[1..][k] == rest[j];
        assert fs[k + 1] == rest[j];
      }
    }
  }

  lemma {:induction false} WithoutAbsent<V>(fs: seq<(Text, V)>, key: Text)
    requires forall i :: 0 <= i < |fs| ==> fs[i].0 != key
    ensures Without(fs, key) == fs
  {
    if fs != [] {
      WithoutAbsent(fs[1..], key);
      HeadTail(fs);
    }
  }

  function KeySet<V>(fs: seq<(Text, V)>): set<Text> {
    set i | 0 <= i < |fs| :: fs[i].0
  }

  /** Equality of JSON values, the order of object fields aside. */
  ghost predicate Equivalent(a: Json, b: Json)
    decreases a
  {
    match (a, b)
    case (Arr(xs), Arr(ys)) => |xs| == |ys| && forall i :: 0 <= i < |xs| ==> Equivalent(xs[i], ys[i])
    case (Obj(fs), Obj(gs)) =>
      && KeySet(fs) == KeySet(gs)
      && forall i :: 0 <= i < |fs| ==>
           Lookup(gs, fs[i].0).Some? && Equivalent(fs[i].1, Lookup(gs, fs[i].0).value)
    case (_, _) => a == b
  }

  lemma EquivalentLookups(fs: Fields, gs: Fields, key: Text)
    requires DistinctKeys(fs) && Equivalent(Obj(fs), Obj(gs))
    ensures Lookup(fs, key).Some? == Lookup(gs, key).Some?
    ensures Lookup(fs, key).Some? ==> Equivalent(Lookup(fs, key).value, Lookup(gs, key).value)
  {
    if Lookup(fs, key).Some? {
      var i :| 0 <= i < |fs| && fs[i] == (key, Lookup(fs, key).value);
    }
    if Lookup(gs, key).Some? {
      assert key in KeySet(gs);
    }
  }

  lemma LookupsMakeEquivalent(fs: Fields, gs: Fields)
    requires DistinctKeys(fs)
    requires forall key :: Lookup(fs, key).Some? == Lookup(gs, key).Some?
    requires forall key :: Lookup(fs, key).Some? ==> Equivalent(Lookup(fs, key).value, Lookup(gs, key).value)
    ensures Equivalent(Obj(fs), Obj(gs))
  {
    forall i | 0 <= i < |fs| ensures Lookup(gs, fs[i].0).Some? && Equivalent(fs[i].1, Lookup(gs, fs[i].0).value) {
      LookupOf(fs, i);
    }
    forall key ensures key in KeySet(fs) <==> key in KeySet(gs) {
      assert key in KeySet(fs) <==> Lookup(fs, key).Some?;
      assert key in KeySet(gs) <==> Lookup(gs, key).Some?;
    }
  }

  // ------------------------------------------------------------- sorting

  ghost predicate SameElements<T(!new)>(a: seq<T>, b: seq<T>) {
    forall x :: x in a <==> x in b
  }

  predicate Sorted<V>(order: KeyOrder, fs: seq<(Text, V)>) {
    forall i, j :: 0 <= i < j < |fs| ==> KeyLess(order, fs[i].0, fs[j].0)
  }

  function Insert<V>(order: KeyOrder, f: (Text, V), fs: seq<(Text, V)>): seq<(Text, V)> {
    if fs == [] then [f]
    else if KeyLess(order, f.0, fs[0].0) then [f] + fs
    else [fs[0]] + Insert(order, f, fs[1..])
  }

  /** The library sort (`sorted`, `sort.Slice`): which algorithm it is does not matter, by SortedUnique. */
  function Sort<V>(order: KeyOrder, fs: seq<(Text, V)>): seq<(Text, V)> {
    if fs == [] then [] else Insert(order, fs[0], Sort(order, fs[1..]))
  }

  lemma {:induction false} InsertElements<V(!new)>(order: KeyOrder, f: (Text, V), fs: seq<(Text, V)>)
    ensures SameElements(Insert(order, f, fs), [f] + fs)
  {
    if fs != [] && !KeyLess(order, f.0, fs[0].0) {
      InsertElements(order, f, fs[1..]);
      HeadTail(fs);
    }
  }

  lemma {:induction false} InsertSorted<V(!new)>(order: KeyOrder, f: (Text, V), fs: seq<(Text, V)>)
    requires Sorted(order, fs) && ValidKeys(fs) && ValidText(f.0)
    requires forall g :: g in fs ==> g.0 != f.0
    ensures Sorted(order, Insert(order, f, fs))
  {
    if fs == [] {
    } else if KeyLess(order, f.0, fs[0].0) {
      forall j | 0 < j < |fs| ensures KeyLess(order, f.0, fs[j].0) {
        KeyOrderIsStrictTotal(order, f.0, fs[0].0, fs[j].0);
      }
    } else {
      KeyOrderIsStrictTotal(order, fs[0].0, f.0, f.0);
      InsertSorted(order, f, fs[1..]);
      InsertElements(order, f, fs[1..]);
      var r := Insert(order, f, fs[1..]);
      forall j | 0 <= j < |r| ensures KeyLess(order, fs[0].0, r[j].0) {
        assert r[j] in [f] + fs[1..];
        if r[j] != f {
          var k :| 0 <= k < |fs[1..]| && fs[1..][k] == r[j];
          assert fs[k + 1] == r[j];
        }
      }
    }
  }

  lemma {:induction false} SortElements<V(!new)>(order: KeyOrder, fs: seq<(Text, V)>)
    ensures SameElements(Sort(order, fs), fs)
  {
    if fs != [] {
      SortElements(order, fs[1..]);
      InsertElements(order, fs[0], Sort(order, fs[1..]));
      HeadTail(fs);
    }
  }

  lemma {:induction false} SortSorted<V(!new)>(order: KeyOrder, fs: seq<(Text, V)>)
    requires DistinctKeys(fs) && ValidKeys(fs)
    ensures Sorted(order, Sort(order, fs))
  {
    if fs != [] {
      var rest := Sort(order, fs[1..]);
      SortSorted(order, fs[1..]);
      SortElements(order, fs[1..]);
      forall i | 0 <= i < |rest| ensures rest[i].0 != fs[0].0 && ValidText(rest[i].0) {
        assert rest[i] in fs[1..];
        var k :| 0 <= k < |fs[1..]| && fs[1..][k] == rest[i];
        assert fs[k + 1] == rest[i];
      }
      InsertSorted(order, fs[0], rest);
    }
  }

  /** Strictly sorted sequences with the same elements are the same sequence. */
  lemma {:induction false} SortedUnique<V(!new)>(order: KeyOrder, a: seq<(Text, V)>, b: seq<(Text, V)>)
    requires Sorted(order, a) && Sorted(order, b) && SameElements(a, b)
    ensures a == b
  {
    if a != [] || b != [] {
      var x := if a != [] then a[0] else b[0];
      assert x in a && x in b;
      SortedHeads(order, a, b);
      forall x ensures x in a[1..] <==> x in b[1..] {
        TailElements(order, a, x);
        TailElements(order, b, x);
      }
      SortedUnique(order, a[1..], b[1..]);
      assert a == [a[0]] + a[1..] && b == [b[0]] + b[1..];
    }
  }

  lemma SortedHeads<V(!new)>(order: KeyOrder, a: seq<(Text, V)>, b: seq<(Text, V)>)
    requires Sorted(order, a) && Sorted(order, b) && SameElements(a, b) && a != [] && b != []
    ensures a[0] == b[0]
  {
    assert a[0] in b && b[0] in a;
    var j :| 0 <= j < |b| && b[j] == a[0];
    var i :| 0 <= i < |a| && a[i] == b[0];
    if i > 0 && j > 0 {
      KeyOrderIsStrictTotal(order, a[0].0, b[0].0, a[0].0);
    }
  }

  lemma TailElements<V(!new)>(order: KeyOrder, a: seq<(Text, V)>, x: (Text, V))
    requires Sorted(order, a) && a != []
    ensures x in a[1..] <==> x in a && x != a[0]
  {
    HeadTail(a);
    if x in a[1..] {
      var k :| 0 <= k < |a[1..]| && a[1..][k] == x;
      assert KeyLess(order, a[0].0, a[k + 1].0);
      KeyOrderIsStrictTotal(order, x.0, x.0, x.0);
    }
  }

  /** Go's comparison and Python's comparison sort to the same sequence. */
  lemma {:induction false} SortsAgree<V>(fs: seq<(Text, V)>)
    ensures Sort(BigEndianBytes, fs) == Sort(CodeUnits, fs)
  {
    if fs != [] {
      SortsAgree(fs[1..]);
      InsertsAgree(fs[0], Sort(CodeUnits, fs[1..]));
    }
  }

  lemma {:induction false} InsertsAgree<V>(f: (Text, V), fs: seq<(Text, V)>)
    ensures Insert(BigEndianBytes, f, fs) == Insert(CodeUnits, f, fs)
  {
    if fs != [] {
      KeyOrdersAgree(f.0, fs[0].0);
      InsertsAgree(f, fs[1..]);
    }
  }

  // --------------------------------------------------------- normal form

  /** The value with the fields of every object in RFC 8785 order. */
  function Normalize(v: Json): Json {
    match v
    case Arr(items) => Arr(NormalizeItems(items))
    case Obj(fs) => Obj(Sort(CodeUnits, NormalizeFields(fs)))
    case _ => v
  }

  function NormalizeItems(items: seq<Json>): seq<Json> {
    if items == [] then [] else [Normalize(items[0])] + NormalizeItems(items[1..])
  }

  function NormalizeFields(fs: Fields): Fields {
    if fs == [] then [] else [NormalizeField(fs[0])] + NormalizeFields(fs[1..])
  }

  function NormalizeField(f: (Text, Json)): (Text, Json) {
    (f.0, Normalize(f.1))
  }

  lemma {:induction false} NormalizeItemsAt(items: seq<Json>)
    ensures |NormalizeItems(items)| == |items|
    ensures forall i :: 0 <= i < |items| ==> NormalizeItems(items)[i] == Normalize(items[i])
  {
    if items != [] {
      NormalizeItemsAt(items[1..]);
      assert forall i :: 1 <= i < |items| ==> items[i] == items[1..][i - 1];
    }
  }

  lemma {:induction false} NormalizeFieldsAt(fs: Fields)
    ensures |NormalizeFields(fs)| == |fs|
    ensures forall i :: 0 <= i < |fs| ==> NormalizeFields(fs)[i] == (fs[i].0, Normalize(fs[i].1))
  {
    if fs != [] {
      NormalizeFieldsAt(fs[1..]);
      assert forall i :: 1 <= i < |fs| ==> fs[i] == fs[1..][i - 1];
    }
  }

  /** Sorting looks only at keys, so it commutes with normalising the values. */
  lemma {:induction false} SortNormalizes(fs: Fields)
    ensures Sort(CodeUnits, NormalizeFields(fs)) == NormalizeFields(Sort(CodeUnits, fs))
  {
    if fs != [] {
      SortNormalizes(fs[1..]);
      assert NormalizeFields(fs)[1..] == NormalizeFields(fs[1..]);
      InsertNormalizes(fs[0], Sort(CodeUnits, fs[1..]));
    }
  }

  lemma {:induction false} InsertNormalizes(f: (Text, Json), fs: Fields)
    ensures Insert(CodeUnits, (f.0, Normalize(f.1)), NormalizeFields(fs)) == NormalizeFields(Insert(CodeUnits, f, fs))
  {
    if fs == [] {
      assert Insert(CodeUnits, f, fs) == [f] + [];
    } else if KeyLess(CodeUnits, f.0, fs[0].0) {
      assert ([f] + fs)[1..] == fs;
    } else {
      InsertNormalizes(f, fs[1..]);
      assert NormalizeFields(fs)[1..] == NormalizeFields(fs[1..]);
      assert ([fs[0]] + Insert(CodeUnits, f, fs[1..]))[1..] == Insert(CodeUnits, f, fs[1..]);
    }
  }

  lemma {:induction false} NormalizeAccepted(v: Json)
    ensures Accepted(Normalize(v)) == Accepted(v)
  {
    match v
    case Arr(items) =>
      NormalizeItemsAt(items);
      forall i | 0 <= i < |items| { NormalizeAccepted(items[i]); }
    case Obj(fs) =>
      NormalizeFieldsAt(fs);
      var ns := NormalizeFields(fs);
      forall i | 0 <= i < |fs| { NormalizeAccepted(fs[i].1); }
      assert (forall i :: 0 <= i < |ns| ==> ValidText(ns[i].0) && Accepted(ns[i].1)) == Accepted(v);
      SortElements(CodeUnits, ns);
      AllFields(ns, Sort(CodeUnits, ns));
    case _ =>
  }

  lemma AllFields(a: Fields, b: Fields)
    requires SameElements(a, b)
    ensures (forall i :: 0 <= i < |a| ==> ValidText(a[i].0) && Accepted(a[i].1))
         == (forall i :: 0 <= i < |b| ==> ValidText(b[i].0) && Accepted(b[i].1))
  {
    assert forall i :: 0 <= i < |a| ==> a[i] in b;
    assert forall i :: 0 <= i < |b| ==> b[i] in a;
  }

  // -------------------- equal normal forms are exactly equivalent values

  /** Equivalence of values is equality of normal forms. */
  lemma {:induction false} EquivalentIffSameNormalForm(a: Json, b: Json)
    requires WellFormed(a) && WellFormed(b) && Accepted(a) && Accepted(b)
    ensures Equivalent(a, b) <==> Normalize(a) == Normalize(b)
    decreases a
  {
    match (a, b)
    case (Arr(xs), Arr(ys)) =>
      if |xs| == |ys| {
        forall i | 0 <= i < |xs| { EquivalentIffSameNormalForm(xs[i], ys[i]); }
      }
      SameItems(xs, ys);
    case (Obj(fs), Obj(gs)) =>
      forall i | 0 <= i < |fs| && Lookup(gs, fs[i].0).Some?
        ensures var v := Lookup(gs, fs[i].0).value; Equivalent(fs[i].1, v) == (Normalize(fs[i].1) == Normalize(v))
      {
        var v := Lookup(gs, fs[i].0).value;
        assert (fs[i].0, v) in gs;
        EquivalentIffSameNormalForm(fs[i].1, v);
      }
      SameFields(fs, gs);
    case (_, _) =>
  }

  lemma SameItems(xs: seq<Json>, ys: seq<Json>)
    requires |xs| == |ys| ==>
      forall i :: 0 <= i < |xs| ==> Equivalent(xs[i], ys[i]) == (Normalize(xs[i]) == Normalize(ys[i]))
    ensures Equivalent(Arr(xs), Arr(ys)) <==> Normalize(Arr(xs)) == Normalize(Arr(ys))
  {
    NormalizeItemsAt(xs);
    NormalizeItemsAt(ys);
    if Normalize(Arr(xs)) == Normalize(Arr(ys)) {
      assert forall i :: 0 <= i < |xs| ==> NormalizeItems(xs)[i] == NormalizeItems(ys)[i];
    }
  }

  /** A field of one object has an equivalent partner in the other. */
  ghost predicate HasPartner(f: (Text, Json), gs: Fields) {
    Lookup(gs, f.0).Some? && Equivalent(f.1, Lookup(gs, f.0).value)
  }

  ghost predicate Finds(ns: Fields, ms: Fields) {
    forall i :: 0 <= i < |ns| ==> Lookup(ms, ns[i].0) == Some(ns[i].1)
  }

  lemma PartnersAreFound(fs: Fields, gs: Fields)
    requires forall i :: 0 <= i < |fs| && Lookup(gs, fs[i].0).Some? ==>
      var v := Lookup(gs, fs[i].0).value; Equivalent(fs[i].1, v) == (Normalize(fs[i].1) == Normalize(v))
    ensures (forall i :: 0 <= i < |fs| ==> HasPartner(fs[i], gs)) <==> Finds(NormalizeFields(fs), NormalizeFields(gs))
  {
    NormalizeFieldsAt(fs);
    var ns, ms := NormalizeFields(fs), NormalizeFields(gs);
    forall i | 0 <= i < |fs| ensures HasPartner(fs[i], gs) == (Lookup(ms, ns[i].0) == Some(ns[i].1)) {
      LookupNormalized(gs, fs[i].0);
    }
  }

  lemma NormalizeKeepsKeys(fs: Fields)
    ensures KeySet(NormalizeFields(fs)) == KeySet(fs)
    ensures DistinctKeys(fs) ==> DistinctKeys(NormalizeFields(fs))
    ensures ValidKeys(fs) ==> ValidKeys(NormalizeFields(fs))
  {
    NormalizeFieldsAt(fs);
  }

  lemma SameFields(fs: Fields, gs: Fields)
    requires DistinctKeys(fs) && DistinctKeys(gs) && ValidKeys(fs) && ValidKeys(gs)
    requires forall i :: 0 <= i < |fs| && Lookup(gs, fs[i].0).Some? ==>
      var v := Lookup(gs, fs[i].0).value; Equivalent(fs[i].1, v) == (Normalize(fs[i].1) == Normalize(v))
    ensures Equivalent(Obj(fs), Obj(gs)) <==> Normalize(Obj(fs)) == Normalize(Obj(gs))
  {
    PartnersAreFound(fs, gs);
    EquivalentObjects(fs, gs);
    SameNormalObjects(fs, gs);
  }

  lemma SameNormalObjects(fs: Fields, gs: Fields)
    requires DistinctKeys(fs) && DistinctKeys(gs) && ValidKeys(fs) && ValidKeys(gs)
    ensures Normalize(Obj(fs)) == Normalize(Obj(gs)) <==>
            KeySet(fs) == KeySet(gs) && Finds(NormalizeFields(fs), NormalizeFields(gs))
  {
    NormalizeKeepsKeys(fs);
    NormalizeKeepsKeys(gs);
    SameFieldsIffSameLookups(NormalizeFields(fs), NormalizeFields(gs));
    SameFieldsIffSameSort(NormalizeFields(fs), NormalizeFields(gs));
  }

  lemma EquivalentObjects(fs: Fields, gs: Fields)
    ensures Equivalent(Obj(fs), Obj(gs)) <==>
            KeySet(fs) == KeySet(gs) && forall i :: 0 <= i < |fs| ==> HasPartner(fs[i], gs)
  {
  }

  lemma {:induction false} LookupNormalized(fs: Fields, key: Text)
    ensures Lookup(NormalizeFields(fs), key) ==
            match Lookup(fs, key) { case None => None case Some(v) => Some(Normalize(v)) }
  {
    if fs != [] {
      LookupNormalized(fs[1..], key);
      assert NormalizeFields(fs)[1..] == NormalizeFields(fs[1..]);
    }
  }

  lemma SameFieldsIffSameLookups(ns: Fields, ms: Fields)
    requires DistinctKeys(ns) && DistinctKeys(ms)
    ensures SameElements(ns, ms) <==> KeySet(ns) == KeySet(ms) && Finds(ns, ms)
  {
    if SameElements(ns, ms) {
      forall i | 0 <= i < |ns| ensures ns[i].0 in KeySet(ms) && Lookup(ms, ns[i].0) == Some(ns[i].1) {
        assert ns[i] in ms;
        var j :| 0 <= j < |ms| && ms[j] == ns[i];
        LookupOf(ms, j);
      }
      forall j | 0 <= j < |ms| ensures ms[j].0 in KeySet(ns) {
        assert ms[j] in ns;
      }
    }
    if KeySet(ns) == KeySet(ms) && Finds(ns, ms) {
      forall i | 0 <= i < |ns| ensures ns[i] in ms {
        assert Lookup(ms, ns[i].0) == Some(ns[i].1);
      }
      forall j | 0 <= j < |ms| ensures ms[j] in ns {
        assert ms[j].0 in KeySet(ns);
        var i :| 0 <= i < |ns| && ns[i].0 == ms[j].0;
        LookupOf(ms, j);
        assert ns[i] == ms[j];
      }
    }
  }

  lemma SameFieldsIffSameSort(ns: Fields, ms: Fields)
    requires DistinctKeys(ns) && DistinctKeys(ms) && ValidKeys(ns) && ValidKeys(ms)
    ensures SameElements(ns, ms) <==> Sort(CodeUnits, ns) == Sort(CodeUnits, ms)
  {
    SortElements(CodeUnits, ns);
    SortElements(CodeUnits, ms);
    if SameElements(ns, ms) {
      SortSorted(CodeUnits, ns);
      SortSorted(CodeUnits, ms);
      SortedUnique(CodeUnits, Sort(CodeUnits, ns), Sort(CodeUnits, ms));
    }
  }

  lemma {:induction false} EquivalentAccepted(a: Json, b: Json)
    requires Equivalent(a, b) && Accepted(a) && WellFormed(b)
    ensures Accepted(b)
    decreases b
  {
    match (a, b)
    case (Arr(xs), Arr(ys)) =>
      forall i | 0 <= i < |ys| ensures Accepted(ys[i]) { EquivalentAccepted(xs[i], ys[i]); }
    case (Obj(fs), Obj(gs)) =>
      forall j | 0 <= j < |gs| ensures ValidText(gs[j].0) && Accepted(gs[j].1) {
        assert gs[j].0 in KeySet(fs);
        var i :| 0 <= i < |fs| && fs[i].0 == gs[j].0;
        LookupOf(gs, j);
        EquivalentAccepted(fs[i].1, gs[j].1);
      }
    case (_, _) =>
  }

  lemma {:induction false} EquivalentReflexive(v: Json)
    requires WellFormed(v)
    ensures Equivalent(v, v)
  {
    match v
    case Arr(items) => forall i | 0 <= i < |items| { EquivalentReflexive(items[i]); }
    case Obj(fs) =>
      forall i | 0 <= i < |fs| ensures Lookup(fs, fs[i].0) == Some(fs[i].1) && Equivalent(fs[i].1, fs[i].1) {
        LookupOf(fs, i);
        EquivalentReflexive(fs[i].1);
      }
    case _ =>
  }
}
