/** The revocation bitstring: bit 0 is the most significant bit of byte 0. */
module StatusList {
  import opened JsonValue

  type Octet = bv8

  /** `1 << (7 - k)`. */
  function Mask(k: nat): Octet
    requires k < 8
  {
    (1 as Octet) << (7 - k)
  }

  /** `(b >> (7 - k)) & 1 == 1`. */
  predicate TestBit(b: Octet, k: nat)
    requires k < 8
  {
    (b >> (7 - k)) & 1 == 1
  }

  predicate Bit(bits: seq<Octet>, i: nat)
    requires i < 8 * |bits|
  {
    TestBit(bits[i / 8], i % 8)
  }

  function SetBit(bits: seq<Octet>, i: nat): seq<Octet>
    requires i < 8 * |bits|
  {
    bits[i / 8 := bits[i / 8] | Mask(i % 8)]
  }

  /** Index 8j + k is bit k of byte j, counted from the most significant: 0x80, 0x40, ..., 0x01. */
  lemma BitLayout(bits: seq<Octet>, j: nat)
    requires j < |bits|
    ensures Bit(bits, 8 * j) <==> bits[j] & 0x80 != 0
    ensures Bit(bits, 8 * j + 1) <==> bits[j] & 0x40 != 0
    ensures Bit(bits, 8 * j + 2) <==> bits[j] & 0x20 != 0
    ensures Bit(bits, 8 * j + 3) <==> bits[j] & 0x10 != 0
    ensures Bit(bits, 8 * j + 4) <==> bits[j] & 0x08 != 0
    ensures Bit(bits, 8 * j + 5) <==> bits[j] & 0x04 != 0
    ensures Bit(bits, 8 * j + 6) <==> bits[j] & 0x02 != 0
    ensures Bit(bits, 8 * j + 7) <==> bits[j] & 0x01 != 0
  {
  }

  lemma MaskSetsOneBit(b: Octet, k: nat, j: nat)
    requires k < 8 && j < 8
    ensures TestBit(b | Mask(k), j) <==> TestBit(b, j) || j == k
  {
    assert k == 0 || k == 1 || k == 2 || k == 3 || k == 4 || k == 5 || k == 6 || k == 7;
    assert j == 0 || j == 1 || j == 2 || j == 3 || j == 4 || j == 5 || j == 6 || j == 7;
  }

  lemma ZeroHasNoBit(k: nat)
    requires k < 8
    ensures !TestBit(0, k)
  {
    assert k == 0 || k == 1 || k == 2 || k == 3 || k == 4 || k == 5 || k == 6 || k == 7;
  }

  /** Setting bit `i` sets that bit and no other, anywhere in the string. */
  lemma SetBitIsExact(bits: seq<Octet>, i: nat, j: nat)
    requires i < 8 * |bits| && j < 8 * |bits|
    ensures Bit(SetBit(bits, i), j) <==> Bit(bits, j) || j == i
  {
    MaskSetsOneBit(bits[i / 8], i % 8, j % 8);
  }

  /** A list as both sources hold it; `size` counts bits. */
  datatype List = List(bits: seq<Octet>, size: int)

  function Empty(size: int): List {
    var bytes: nat := ((if size <= 0 then 8 else size) + 7) / 8;
    List(seq(bytes, _ => 0), 8 * bytes)
  }

  function FromRaw(bits: seq<Octet>): List { List(bits, 8 * |bits|) }

  ghost predicate Valid(l: List) { l.size == 8 * |l.bits| }

  function IsRevoked(l: List, idx: int): Result<bool>
    requires Valid(l)
  {
    if idx < 0 || idx >= l.size then Err else Ok(Bit(l.bits, idx))
  }

  /** Copies the buffer and sets one bit; the receiver is a value and stays as it is. */
  function WithRevoked(l: List, idx: int): Result<List>
    requires Valid(l)
  {
    if idx < 0 || idx >= l.size then Err else Ok(List(SetBit(l.bits, idx), l.size))
  }

  /** A fresh list addresses every index asked for and has nothing revoked. */
  lemma EmptyRevokesNothing(size: int, idx: int)
    ensures var l := Empty(size);
            Valid(l) && l.size % 8 == 0 && (if size <= 0 then l.size == 8 else size <= l.size < size + 8)
            && (IsRevoked(l, idx) == if 0 <= idx < l.size then Ok(false) else Err)
  {
    if 0 <= idx < Empty(size).size { ZeroHasNoBit(idx % 8); }
  }

  /** Revoking changes the answer for that index alone, and cannot be undone by revoking more. */
  lemma WithRevokedIsExact(l: List, idx: int, other: int)
    requires Valid(l) && WithRevoked(l, idx).Ok?
    ensures var l' := WithRevoked(l, idx).value;
            Valid(l') && l'.size == l.size
            && (IsRevoked(l', other) == if other == idx then Ok(true) else IsRevoked(l, other))
  {
    if 0 <= other < l.size { SetBitIsExact(l.bits, idx, other); }
  }
}
