/** The compact integer index key: a fixed array of `KeySize * 8` bytes into
    which integers of width 1, 2, 4 or 8 bytes are written with their most
    significant bit flipped and in big-endian byte order, so that a plain
    byte-wise comparison (memcmp) orders keys like the integers they hold. */
module IntsKey {

  type Byte = b: int | 0 <= b < 256

  /** The widths of the integer types the key is instantiated with
      (int8_t/uint8_t up to int64_t/uint64_t). */
  datatype Width = W8 | W16 | W32 | W64

  /** sizeof(IntType) in bytes. */
  function Size(w: Width): nat
  {
    match w
    case W8 => 1
    case W16 => 2
    case W32 => 4
    case W64 => 8
  }

  function Pow256(n: nat): (p: nat)
    ensures p >= 1
  {
    if n == 0 then 1 else 256 * Pow256(n - 1)
  }

  /** 2^(8 * sizeof(IntType)): the number of bit patterns of the type. */
  function Modulus(w: Width): nat
  {
    Pow256(Size(w))
  }

  /** 2^(8 * sizeof(IntType) - 1): the value of the most significant bit. */
  function Half(w: Width): (h: nat)
    ensures Modulus(w) == 2 * h
    ensures h >= 128
  {
    128 * Pow256(Size(w) - 1)
  }

  predicate InSigned(w: Width, v: int)
  {
    -(Half(w) as int) <= v < Half(w)
  }

  predicate InUnsigned(w: Width, u: int)
  {
    0 <= u < Modulus(w)
  }

  // ---------------------------------------------------------------------
  // Two's-complement casts between a signed type and its unsigned twin
  // ---------------------------------------------------------------------

  /** static_cast<uintN_t>(intN_t): the two's-complement bit pattern. */
  function ToUnsigned(w: Width, v: int): (u: nat)
    requires InSigned(w, v)
    ensures InUnsigned(w, u)
    ensures (u - v) % Modulus(w) == 0
    ensures v >= 0 ==> u == v
  {
    if v < 0 then v + Modulus(w) else v
  }

  /** static_cast<intN_t>(uintN_t): reads a bit pattern as two's complement. */
  function ToSigned(w: Width, u: nat): (v: int)
    requires InUnsigned(w, u)
    ensures InSigned(w, v)
    ensures (u - v) % Modulus(w) == 0
    ensures u < Half(w) ==> v == u
  {
    if u >= Half(w) then
      DivModUnique(Modulus(w), Modulus(w), 1, 0);
      u - Modulus(w)
    else
      u
  }

  lemma SignedUnsignedInverse(w: Width, v: int, u: nat)
    requires InSigned(w, v) && InUnsigned(w, u)
    ensures ToSigned(w, ToUnsigned(w, v)) == v
    ensures ToUnsigned(w, ToSigned(w, u)) == u
  {
  }

  // ---------------------------------------------------------------------
  // SignFlip
  // ---------------------------------------------------------------------

  /** XOR with the mask `1 << (8 * sizeof(IntType) - 1)`, on the bit pattern:
      the most significant bit changes and every lower bit is kept. The
      source applies the XOR to the signed type; XOR commutes with the
      two's-complement casts, so flipping the pattern is the same thing. */
  function SignFlip(w: Width, u: nat): (r: nat)
    requires InUnsigned(w, u)
    ensures InUnsigned(w, r)
    ensures (r >= Half(w)) != (u >= Half(w))
    ensures r % Half(w) == u % Half(w)
  {
    if u >= Half(w) then
      ModShift(u - Half(w), Half(w));
      u - Half(w)
    else
      ModShift(u, Half(w));
      u + Half(w)
  }

  lemma ModShift(x: nat, h: nat)
    requires h > 0
    ensures (x + h) % h == x % h
  {
    DivModUnique(x + h, h, x / h + 1, x % h);
  }

  /** Flipping the sign bit twice gives the input back. */
  lemma SignFlipInvolution(w: Width, u: nat)
    requires InUnsigned(w, u)
    ensures SignFlip(w, SignFlip(w, u)) == u
  {
  }

  /** For a signed value, flipping the sign bit of its two's-complement
      pattern yields the excess-2^(n-1) encoding v + 2^(n-1): the most
      negative value becomes 0 and the most positive becomes 2^n - 1. */
  lemma SignFlipIsExcessEncoding(w: Width, v: int)
    requires InSigned(w, v)
    ensures SignFlip(w, ToUnsigned(w, v)) == v + Half(w)
  {
  }

  // ---------------------------------------------------------------------
  // Big-endian byte order
  // ---------------------------------------------------------------------

  lemma DivBelow(u: nat, p: nat, k: nat)
    requires p > 0 && u < k * p
    ensures u / p < k
  {
    var q := u / p;
    assert q * p <= u;
    assert (k - q) * p == k * p - q * p;
    ProductPositive(k - q, p);
  }

  lemma ProductPositive(d: int, p: nat)
    requires p > 0 && d * p > 0
    ensures d > 0
  {
  }

  /** Euclid: the quotient and remainder of x by p are unique. */
  lemma DivModUnique(x: nat, p: nat, q: int, r: int)
    requires p > 0 && 0 <= r < p && x == q * p + r
    ensures x / p == q && x % p == r
  {
    var q' := x / p;
    var r' := x % p;
    assert (q - q') * p == r' - r;
    if q > q' {
      MulAtLeast(q - q', p);
    } else if q < q' {
      MulAtLeast(q' - q, p);
    }
  }

  lemma MulAtLeast(d: int, p: nat)
    requires d >= 1
    ensures d * p >= p
  {
    assert d * p == (d - 1) * p + p;
  }

  lemma MulBelow(a: nat, b: nat, p: nat)
    requires a < 256 && b < p
    ensures a * p + b < 256 * p
  {
    assert a * p <= 255 * p;
  }

  lemma DivModOfMul(a: nat, b: nat, p: nat)
    requires b < p
    ensures (a * p + b) / p == a
    ensures (a * p + b) % p == b
  {
    DivModUnique(a * p + b, p, a, b);
  }

  /** The n bytes of u, most significant byte first. */
  function BigEndian(n: nat, u: nat): (s: seq<Byte>)
    requires u < Pow256(n)
    ensures |s| == n
    decreases n
  {
    if n == 0 then []
    else
      var p := Pow256(n - 1);
      assert u < 256 * p;
      DivBelow(u, p, 256);
      var digit: Byte := u / p;
      [digit] + BigEndian(n - 1, u % p)
  }

  /** The number whose big-endian bytes are s. */
  function FromBigEndian(s: seq<Byte>): (u: nat)
    ensures u < Pow256(|s|)
  {
    if |s| == 0 then 0
    else
      var rest := FromBigEndian(s[1..]);
      MulBelow(s[0], rest, Pow256(|s| - 1));
      s[0] * Pow256(|s| - 1) + rest
  }

  /** ToBigEndian(IntType): the in-memory bytes of htobeN(data). */
  function ToBigEndian(w: Width, u: nat): (s: seq<Byte>)
    requires InUnsigned(w, u)
    ensures |s| == Size(w)
  {
    BigEndian(Size(w), u)
  }

  /** ToHostEndian(IntType): beNtoh of bytes read from the key. */
  function ToHostEndian(w: Width, s: seq<Byte>): (u: nat)
    requires |s| == Size(w)
    ensures InUnsigned(w, u)
  {
    FromBigEndian(s)
  }

  lemma {:induction false} BigEndianRoundTrip(n: nat, u: nat)
    requires u < Pow256(n)
    ensures FromBigEndian(BigEndian(n, u)) == u
  {
    if n > 0 {
      var p := Pow256(n - 1);
      var s := BigEndian(n, u);
      assert s[1..] == BigEndian(n - 1, u % p);
      BigEndianRoundTrip(n - 1, u % p);
      assert s[0] == u / p;
    }
  }

  lemma {:induction false} FromBigEndianRoundTrip(s: seq<Byte>)
    ensures BigEndian(|s|, FromBigEndian(s)) == s
  {
    if |s| > 0 {
      var p := Pow256(|s| - 1);
      var rest := FromBigEndian(s[1..]);
      DivModOfMul(s[0], rest, p);
      FromBigEndianRoundTrip(s[1..]);
      assert BigEndian(|s|, FromBigEndian(s)) == [s[0]] + s[1..];
    }
  }

  /** Byte i of the encoding is digit n-1-i of u in base 256: the most
      significant byte sits at the lowest position. */
  lemma {:induction false} BigEndianDigits(n: nat, u: nat, i: nat)
    requires u < Pow256(n) && i < n
    ensures BigEndian(n, u)[i] == (u / Pow256(n - 1 - i)) % 256
  {
    var p := Pow256(n - 1);
    DivBelow(u, p, 256);
    if i == 0 {
    } else {
      BigEndianDigits(n - 1, u % p, i - 1);
      var q := Pow256(n - 1 - i);
      PowSplit(n - 1 - i, i);
      assert p == q * Pow256(i);
      ModDivDigit(u, q, Pow256(i));
    }
  }

  lemma {:induction false} PowSplit(a: nat, b: nat)
    ensures Pow256(a + b) == Pow256(a) * Pow256(b)
  {
    if b > 0 {
      PowSplit(a, b - 1);
      calc {
        Pow256(a + b);
        256 * Pow256(a + b - 1);
        256 * (Pow256(a) * Pow256(b - 1));
        Pow256(a) * (256 * Pow256(b - 1));
      }
    }
  }

  /** Reducing modulo q * m (m a multiple of 256) keeps the base-256 digit
      above q. */
  lemma ModDivDigit(u: nat, q: nat, m: nat)
    requires q > 0 && m > 0 && m % 256 == 0
    ensures ((u % (q * m)) / q) % 256 == (u / q) % 256
  {
    var a := u / (q * m);
    var r := u % (q * m);
    assert u == a * (q * m) + r;
    MulRegroup(a, q, m);
    DivAdd(a * m, r, q);
    MultipleOf256(a, m);
    ModAdd256(a * m, r / q);
  }

  lemma MulRegroup(a: nat, q: nat, m: nat)
    ensures a * (q * m) == (a * m) * q
  {
  }

  lemma MultipleOf256(a: nat, m: nat)
    requires m % 256 == 0
    ensures (a * m) % 256 == 0
  {
    var c := m / 256;
    assert m == c * 256;
    assert a * m == (a * c) * 256;
    DivModOfMul(a * c, 0, 256);
  }

  lemma DivAdd(k: nat, r: nat, q: nat)
    requires q > 0
    ensures (k * q + r) / q == k + r / q
  {
    var d := r / q;
    var e := r % q;
    assert r == d * q + e;
    assert k * q + r == (k + d) * q + e;
    DivModOfMul(k + d, e, q);
  }

  lemma ModAdd256(x: nat, y: nat)
    requires x % 256 == 0
    ensures (x + y) % 256 == y % 256
  {
  }

  // ---------------------------------------------------------------------
  // memcmp
  // ---------------------------------------------------------------------

  /** memcmp over two byte arrays of equal length: the first differing byte
      (compared as unsigned char) decides. The C function only promises the
      sign of its result; the model returns -1, 0 or 1. */
  function LexCompare(a: seq<Byte>, b: seq<Byte>): (r: int)
    requires |a| == |b|
    ensures -1 <= r <= 1
    ensures r == 0 <==> a == b
  {
    if |a| == 0 then 0
    else if a[0] < b[0] then -1
    else if a[0] > b[0] then 1
    else
      var r := LexCompare(a[1..], b[1..]);
      assert a == [a[0]] + a[1..] && b == [b[0]] + b[1..];
      r
  }

  lemma {:induction false} LexCompareAntisymmetric(a: seq<Byte>, b: seq<Byte>)
    requires |a| == |b|
    ensures LexCompare(a, b) == -LexCompare(b, a)
  {
    if |a| > 0 && a[0] == b[0] {
      LexCompareAntisymmetric(a[1..], b[1..]);
    }
  }

  /** A common prefix does not change the outcome. */
  lemma {:induction false} LexComparePrefix(p: seq<Byte>, a: seq<Byte>, b: seq<Byte>)
    requires |a| == |b|
    ensures LexCompare(p + a, p + b) == LexCompare(a, b)
  {
    if |p| > 0 {
      var pa, pb := p + a, p + b;
      assert pa[0] == pb[0];
      assert pa[1..] == p[1..] + a;
      assert pb[1..] == p[1..] + b;
      LexComparePrefix(p[1..], a, b);
      assert LexCompare(pa, pb) == LexCompare(pa[1..], pb[1..]);
    } else {
      assert p + a == a && p + b == b;
    }
  }

  /** Once a and b differ, whatever follows them is never looked at. */
  lemma {:induction false} LexCompareSuffix(a: seq<Byte>, b: seq<Byte>, x: seq<Byte>, y: seq<Byte>)
    requires |a| == |b| && |x| == |y| && a != b
    ensures LexCompare(a + x, b + y) == LexCompare(a, b)
  {
    assert (a + x)[0] == a[0] && (b + y)[0] == b[0];
    if a[0] == b[0] {
      assert a[1..] != b[1..] by {
        assert a == [a[0]] + a[1..] && b == [b[0]] + b[1..];
      }
      assert (a + x)[1..] == a[1..] + x;
      assert (b + y)[1..] == b[1..] + y;
      LexCompareSuffix(a[1..], b[1..], x, y);
    }
  }

  /** On big-endian encodings of equal length, memcmp orders like the
      numbers encoded. */
  lemma {:induction false} LexCompareIsNumericOrder(a: seq<Byte>, b: seq<Byte>)
    requires |a| == |b|
    ensures LexCompare(a, b) < 0 <==> FromBigEndian(a) < FromBigEndian(b)
    ensures LexCompare(a, b) > 0 <==> FromBigEndian(a) > FromBigEndian(b)
  {
    if |a| > 0 {
      var p := Pow256(|a| - 1);
      var ra := FromBigEndian(a[1..]);
      var rb := FromBigEndian(b[1..]);
      if a[0] < b[0] {
        MulLess(a[0], b[0], ra, rb, p);
      } else if a[0] > b[0] {
        MulLess(b[0], a[0], rb, ra, p);
      } else {
        LexCompareIsNumericOrder(a[1..], b[1..]);
      }
    }
  }

  lemma MulLess(x: nat, y: nat, rx: nat, ry: nat, p: nat)
    requires x < y && rx < p
    ensures x * p + rx < y * p + ry
  {
    assert (x + 1) * p <= y * p;
  }

  // ---------------------------------------------------------------------
  // The key
  // ---------------------------------------------------------------------

  /** IntsKey<KeySize>: `keySize` counts 64-bit words, `data` is key_data. */
  datatype Key = Key(keySize: nat, data: seq<Byte>) {
    predicate Valid() {
      |data| == KeyByteSize(keySize)
    }
  }

  /** key_size_byte: the byte length of an IntsKey<KeySize>. */
  function KeyByteSize(keySize: nat): nat
  {
    keySize * 8
  }

  predicate AllZero(s: seq<Byte>)
  {
    forall i :: 0 <= i < |s| ==> s[i] == 0
  }

  /** ZeroOut(): every byte of the key becomes 0. */
  function ZeroOut(k: Key): (r: Key)
    ensures r.keySize == k.keySize && r.Valid()
    ensures AllZero(r.data)
  {
    Key(k.keySize, seq(KeyByteSize(k.keySize), _ => 0))
  }

  /** The constructor: a fresh key is zeroed. */
  function New(keySize: nat): (r: Key)
    ensures r.keySize == keySize && r.Valid()
    ensures AllZero(r.data)
  {
    ZeroOut(Key(keySize, []))
  }

  /** memcpy(data + offset, bytes, |bytes|). */
  function Splice(data: seq<Byte>, offset: nat, bytes: seq<Byte>): (r: seq<Byte>)
    requires offset + |bytes| <= |data|
    ensures |r| == |data|
    ensures r[..offset] == data[..offset]
    ensures r[offset..offset + |bytes|] == bytes
    ensures r[offset + |bytes|..] == data[offset + |bytes|..]
  {
    data[..offset] + bytes + data[offset + |bytes|..]
  }

  /** The bytes a width-w field occupies at `offset`. */
  function Field(k: Key, w: Width, offset: nat): (s: seq<Byte>)
    requires offset + Size(w) <= |k.data|
    ensures |s| == Size(w)
    ensures forall i :: 0 <= i < Size(w) ==> s[i] == k.data[offset + i]
  {
    k.data[offset..offset + Size(w)]
  }

  /** AddInteger<IntType>(data, offset): writes the sign-flipped value in
      big-endian order over exactly sizeof(IntType) bytes at `offset`. The
      source does no bounds check (the write past the array is undefined),
      hence the precondition. */
  function AddInteger(k: Key, w: Width, v: int, offset: nat): (r: Key)
    requires k.Valid() && InSigned(w, v) && offset + Size(w) <= |k.data|
    ensures r.keySize == k.keySize && r.Valid()
    ensures r.data[..offset] == k.data[..offset]
    ensures r.data[offset + Size(w)..] == k.data[offset + Size(w)..]
    ensures Field(r, w, offset) == BigEndian(Size(w), v + Half(w))
  {
    var flipped := SignFlip(w, ToUnsigned(w, v));
    SignFlipIsExcessEncoding(w, v);
    assert flipped == v + Half(w);
    var bytes := ToBigEndian(w, flipped);
    assert bytes == BigEndian(Size(w), v + Half(w));
    Key(k.keySize, Splice(k.data, offset, bytes))
  }

  /** AddUnsignedInteger<IntType>(data, offset): big-endian, no sign flip. */
  function AddUnsignedInteger(k: Key, w: Width, u: nat, offset: nat): (r: Key)
    requires k.Valid() && InUnsigned(w, u) && offset + Size(w) <= |k.data|
    ensures r.keySize == k.keySize && r.Valid()
    ensures r.data[..offset] == k.data[..offset]
    ensures r.data[offset + Size(w)..] == k.data[offset + Size(w)..]
    ensures Field(r, w, offset) == BigEndian(Size(w), u)
  {
    Key(k.keySize, Splice(k.data, offset, ToBigEndian(w, u)))
  }

  /** GetInteger<IntType>(offset): big-endian read, cast, sign flip. */
  function GetInteger(k: Key, w: Width, offset: nat): (v: int)
    requires offset + Size(w) <= |k.data|
    ensures InSigned(w, v)
    ensures v == FromBigEndian(Field(k, w, offset)) - Half(w)
  {
    ToSigned(w, SignFlip(w, ToHostEndian(w, Field(k, w, offset))))
  }

  /** GetUnsignedInteger<IntType>(offset): big-endian read, no sign flip. */
  function GetUnsignedInteger(k: Key, w: Width, offset: nat): (u: nat)
    requires offset + Size(w) <= |k.data|
    ensures InUnsigned(w, u)
    ensures u == FromBigEndian(Field(k, w, offset))
    ensures BigEndian(Size(w), u) == Field(k, w, offset)
  {
    FromBigEndianRoundTrip(Field(k, w, offset));
    ToHostEndian(w, Field(k, w, offset))
  }

  lemma AddGetInteger(k: Key, w: Width, v: int, offset: nat)
    requires k.Valid() && InSigned(w, v) && offset + Size(w) <= |k.data|
    ensures GetInteger(AddInteger(k, w, v, offset), w, offset) == v
  {
    var written := AddInteger(k, w, v, offset);
    assert Field(written, w, offset) == BigEndian(Size(w), v + Half(w));
    BigEndianRoundTrip(Size(w), v + Half(w));
  }

  lemma AddGetUnsignedInteger(k: Key, w: Width, u: nat, offset: nat)
    requires k.Valid() && InUnsigned(w, u) && offset + Size(w) <= |k.data|
    ensures GetUnsignedInteger(AddUnsignedInteger(k, w, u, offset), w, offset) == u
  {
    BigEndianRoundTrip(Size(w), u);
  }

  /** Compare(a, b): memcmp over the whole key_size_byte bytes. */
  function Compare(a: Key, b: Key): (r: int)
    requires a.Valid() && b.Valid() && a.keySize == b.keySize
    ensures -1 <= r <= 1
    ensures r == 0 <==> a == b
  {
    LexCompare(a.data, b.data)
  }

  function LessThan(a: Key, b: Key): (r: bool)
    requires a.Valid() && b.Valid() && a.keySize == b.keySize
    ensures r ==> a != b
    ensures r <==> Compare(b, a) > 0
  {
    LexCompareAntisymmetric(a.data, b.data);
    Compare(a, b) < 0
  }

  function Equals(a: Key, b: Key): (r: bool)
    requires a.Valid() && b.Valid() && a.keySize == b.keySize
    ensures r <==> a == b
  {
    Compare(a, b) == 0
  }

  lemma SplitAt(k: Key, w: Width, offset: nat)
    requires offset + Size(w) <= |k.data|
    ensures k.data == k.data[..offset] + Field(k, w, offset) + k.data[offset + Size(w)..]
  {
  }

  /** Writing values of one width at one offset into two keys that agree on
      every byte before that offset: memcmp orders the keys as the values. */
  lemma AddIntegerPreservesOrder(k1: Key, k2: Key, w: Width, a: int, b: int, offset: nat)
    requires k1.Valid() && k2.Valid() && k1.keySize == k2.keySize
    requires InSigned(w, a) && InSigned(w, b) && offset + Size(w) <= |k1.data|
    requires k1.data[..offset] == k2.data[..offset]
    ensures a < b ==> LessThan(AddInteger(k1, w, a, offset), AddInteger(k2, w, b, offset))
    ensures a > b ==> LessThan(AddInteger(k2, w, b, offset), AddInteger(k1, w, a, offset))
  {
    AddGetInteger(k1, w, a, offset);
    AddGetInteger(k2, w, b, offset);
    FieldsOrdered(AddInteger(k1, w, a, offset), AddInteger(k2, w, b, offset), w, offset);
  }

  /** Unsigned values need no sign flip: big-endian order alone suffices. */
  lemma AddUnsignedIntegerPreservesOrder(k1: Key, k2: Key, w: Width, a: nat, b: nat, offset: nat)
    requires k1.Valid() && k2.Valid() && k1.keySize == k2.keySize
    requires InUnsigned(w, a) && InUnsigned(w, b) && offset + Size(w) <= |k1.data|
    requires k1.data[..offset] == k2.data[..offset]
    ensures a < b ==> LessThan(AddUnsignedInteger(k1, w, a, offset), AddUnsignedInteger(k2, w, b, offset))
    ensures a > b ==> LessThan(AddUnsignedInteger(k2, w, b, offset), AddUnsignedInteger(k1, w, a, offset))
  {
    AddGetUnsignedInteger(k1, w, a, offset);
    AddGetUnsignedInteger(k2, w, b, offset);
    FieldsOrdered(AddUnsignedInteger(k1, w, a, offset), AddUnsignedInteger(k2, w, b, offset), w, offset);
  }

  /** Two keys with a common prefix compare, at a field, as the big-endian
      numbers stored there. */
  lemma FieldsOrdered(x: Key, y: Key, w: Width, offset: nat)
    requires x.Valid() && y.Valid() && x.keySize == y.keySize
    requires offset + Size(w) <= |x.data|
    requires x.data[..offset] == y.data[..offset]
    ensures FromBigEndian(Field(x, w, offset)) < FromBigEndian(Field(y, w, offset)) ==> Compare(x, y) < 0
    ensures FromBigEndian(Field(x, w, offset)) > FromBigEndian(Field(y, w, offset)) ==> Compare(y, x) < 0
  {
    if FromBigEndian(Field(x, w, offset)) < FromBigEndian(Field(y, w, offset)) {
      FieldsOrderedLess(x, y, w, offset);
    } else if FromBigEndian(Field(x, w, offset)) > FromBigEndian(Field(y, w, offset)) {
      FieldsOrderedLess(y, x, w, offset);
    }
  }

  lemma FieldsOrderedLess(x: Key, y: Key, w: Width, offset: nat)
    requires x.Valid() && y.Valid() && x.keySize == y.keySize
    requires offset + Size(w) <= |x.data|
    requires x.data[..offset] == y.data[..offset]
    requires FromBigEndian(Field(x, w, offset)) < FromBigEndian(Field(y, w, offset))
    ensures Compare(x, y) < 0
  {
    var fx := Field(x, w, offset);
    var fy := Field(y, w, offset);
    SplitAt(x, w, offset);
    SplitAt(y, w, offset);
    var p := x.data[..offset];
    var qx := x.data[offset + Size(w)..];
    var qy := y.data[offset + Size(w)..];
    assert x.data == p + (fx + qx);
    assert y.data == p + (fy + qy);
    LexCompareIsNumericOrder(fx, fy);
    LexCompareSuffix(fx, fy, qx, qy);
    LexComparePrefix(p, fx + qx, fy + qy);
  }
}
