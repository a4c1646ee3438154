/** Byte-level integer decoding as done by Python's `int.from_bytes` with
    `byteorder="little"`, and Python's clamping slice `data[lo:hi]`. */
module LittleEndian {

  type byte = b: int | 0 <= b < 256

  /** 256 to the power n: the number of values n bytes can hold. */
  function Pow256(n: nat): (r: nat)
    ensures r >= 1
  {
    if n == 0 then 1 else 256 * Pow256(n - 1)
  }

  /** 256^n / 2: the signed range of n > 0 bytes is [-SignBound(n), SignBound(n)). */
  function SignBound(n: nat): (r: int)
  {
    Pow256(n) / 2
  }

  /** The three-byte range used by ECG samples. */
  lemma ThreeBytes()
    ensures Pow256(3) == 0x100_0000 && SignBound(3) == 0x80_0000
  {
  }

  /** `int.from_bytes(s, byteorder="little", signed=False)`: byte 0 is the least significant. */
  function Unsigned(s: seq<byte>): (r: nat)
    ensures r < Pow256(|s|)
  {
    if s == [] then 0 else s[0] + 256 * Unsigned(s[1..])
  }

  /** `int.from_bytes(s, byteorder="little", signed=True)`: two's complement,
      the sign being the top bit of the last (most significant) byte.
      An empty byte string decodes to 0. */
  function Signed(s: seq<byte>): (r: int)
    ensures s == [] ==> r == 0
    ensures s != [] ==> -SignBound(|s|) <= r < SignBound(|s|)
    ensures r < 0 <==> s != [] && s[|s| - 1] >= 128
    ensures r == Unsigned(s) || r == Unsigned(s) - Pow256(|s|)
  {
    if s == [] then 0
    else
      var u, p := Unsigned(s), Pow256(|s|);
      TopByteSign(s);
      assert u < p && SignBound(|s|) == p / 2 && p % 2 == 0;
      if s[|s| - 1] >= 128 then u - p else u
  }

  /** The most significant byte carries the weight 256^(n-1). */
  lemma {:induction false} UnsignedLast(s: seq<byte>)
    requires s != []
    ensures Unsigned(s) == Unsigned(s[..|s| - 1]) + Pow256(|s| - 1) * s[|s| - 1]
  {
    if |s| > 1 {
      var init := s[..|s| - 1];
      UnsignedLast(s[1..]);
      assert s[1..][..|s| - 2] == init[1..];
      assert s[1..][|s| - 2] == s[|s| - 1];
      var a, p, top := Unsigned(init[1..]), Pow256(|s| - 2), s[|s| - 1];
      assert Unsigned(s[1..]) == a + p * top;
      assert Unsigned(init) == s[0] + 256 * a;
      assert Unsigned(s) == s[0] + 256 * (a + p * top);
      var q := Pow256(|s| - 1);
      assert q == 256 * p;
      MulAssoc(256, p, top);
      assert Unsigned(s) == Unsigned(init) + q * top;
    }
  }

  /** The value lies in the upper half of the range exactly when the top byte is at least 128. */
  lemma TopByteSign(s: seq<byte>)
    requires s != []
    ensures Pow256(|s|) == 256 * Pow256(|s| - 1)
    ensures s[|s| - 1] >= 128 <==> Unsigned(s) >= SignBound(|s|)
  {
    UnsignedLast(s);
    var low, p, top := Unsigned(s[..|s| - 1]), Pow256(|s| - 1), s[|s| - 1];
    assert low < p;
    assert SignBound(|s|) == 128 * p;
    if top >= 128 {
      MulAtLeast(p, top, 128);
    } else {
      MulAtLeast(p, 127, top);
    }
  }

  lemma MulAssoc(x: int, y: int, z: int)
    ensures (x * y) * z == x * (y * z)
  {
  }

  lemma MulAtLeast(p: nat, a: nat, b: nat)
    requires a >= b
    ensures p * a >= p * b
  {
  }

  /** The n-byte little-endian representation of v modulo 256^n. */
  function Encode(v: nat, n: nat): (s: seq<byte>)
    ensures |s| == n
  {
    if n == 0 then [] else [v % 256] + Encode(v / 256, n - 1)
  }

  /** Two's-complement n-byte representation of v. */
  function EncodeSigned(v: int, n: nat): (s: seq<byte>)
    requires 0 < n && -SignBound(n) <= v < SignBound(n)
    ensures |s| == n
  {
    Encode(if v < 0 then v + Pow256(n) else v, n)
  }

  /** Decoding an encoding gives back every value that fits in n bytes. */
  lemma {:induction false} UnsignedEncode(v: nat, n: nat)
    requires v < Pow256(n)
    ensures Unsigned(Encode(v, n)) == v
  {
    if n > 0 {
      assert v / 256 < Pow256(n - 1);
      UnsignedEncode(v / 256, n - 1);
    }
  }

  /** Encoding a decoded byte string gives back the bytes. */
  lemma {:induction false} EncodeUnsigned(s: seq<byte>)
    ensures Encode(Unsigned(s), |s|) == s
  {
    if s != [] {
      var u := Unsigned(s);
      assert u % 256 == s[0] && u / 256 == Unsigned(s[1..]);
      EncodeUnsigned(s[1..]);
    }
  }

  /** Signed round trip, for every value representable in n bytes. */
  lemma SignedEncode(v: int, n: nat)
    requires 0 < n && -SignBound(n) <= v < SignBound(n)
    ensures Signed(EncodeSigned(v, n)) == v
  {
    var u := if v < 0 then v + Pow256(n) else v;
    UnsignedEncode(u, n);
    TopByteSign(EncodeSigned(v, n));
  }

  /** Signed round trip in the other direction. */
  lemma EncodeSignedOf(s: seq<byte>)
    requires s != []
    ensures EncodeSigned(Signed(s), |s|) == s
  {
    EncodeUnsigned(s);
    TopByteSign(s);
  }

  /** The 24-bit case used for ECG samples, written out as the source's arithmetic. */
  lemma Signed24(b0: byte, b1: byte, b2: byte)
    ensures Signed([b0, b1, b2]) == b0 + 256 * b1 + 65536 * b2 - (if b2 >= 128 then 16777216 else 0)
    ensures -8388608 <= Signed([b0, b1, b2]) < 8388608
  {
    var s := [b0, b1, b2];
    assert s[1..] == [b1, b2] && s[1..][1..] == [b2] && s[1..][1..][1..] == [];
    assert Unsigned([b2]) == b2;
    assert Unsigned([b1, b2]) == b1 + 256 * b2;
    assert Unsigned(s) == b0 + 256 * b1 + 65536 * b2;
    assert Pow256(3) == 16777216;
  }

  /** Python's `s[lo:hi]` for non-negative bounds: both ends are clamped to the length. */
  function Slice(s: seq<byte>, lo: nat, hi: nat): (r: seq<byte>)
    ensures |r| == if lo < hi && lo < |s| then (if hi < |s| then hi else |s|) - lo else 0
    ensures hi <= |s| && lo <= hi ==> r == s[lo..hi]
    ensures forall i :: 0 <= i < |r| ==> r[i] == s[lo + i]
  {
    var a := if lo < |s| then lo else |s|;
    var b := if hi < |s| then hi else |s|;
    if a < b then s[a..b] else []
  }

  /** `convert_to_unsigned_long(data, offset, length)`. */
  function ConvertToUnsignedLong(data: seq<byte>, offset: nat, length: nat): (r: nat)
    ensures r < Pow256(length)
    ensures offset + length <= |data| ==> r == Unsigned(data[offset..offset + length])
  {
    PowMonotone(|Slice(data, offset, offset + length)|, length);
    Unsigned(Slice(data, offset, offset + length))
  }

  /** `convert_array_to_signed_int(data, offset, length)`. */
  function ConvertArrayToSignedInt(data: seq<byte>, offset: nat, length: nat): (r: int)
    ensures length == 0 ==> r == 0
    ensures length > 0 ==> -SignBound(length) <= r < SignBound(length)
    ensures offset + length <= |data| ==> r == Signed(data[offset..offset + length])
  {
    var s := Slice(data, offset, offset + length);
    PowMonotone(|s|, length);
    Signed(s)
  }

  lemma {:induction false} PowMonotone(m: nat, n: nat)
    requires m <= n
    ensures Pow256(m) <= Pow256(n)
    ensures SignBound(m) <= SignBound(n)
  {
    if m < n {
      PowMonotone(m, n - 1);
    }
  }
}
