/** Machine integers, little-endian byte encodings and C character arrays. */
module Bytes {

  type byte = x: int | 0 <= x < 0x100
  type u32 = x: int | 0 <= x < 0x1_0000_0000
  type u64 = x: int | 0 <= x < 0x1_0000_0000_0000_0000

  const U64_MODULUS: int := 0x1_0000_0000_0000_0000
  const U32_MODULUS: int := 0x1_0000_0000

  /** `a + b` on uint64_t: the sum modulo 2^64. */
  function AddU64(a: u64, b: u64): (r: u64)
    ensures r == (a + b) % U64_MODULUS
  {
    if a + b < U64_MODULUS then a + b else a + b - U64_MODULUS
  }

  /** `a - b` on uint64_t: the difference modulo 2^64. */
  function SubU64(a: u64, b: u64): (r: u64)
    ensures r == (a - b) % U64_MODULUS
  {
    if b <= a then a - b else a - b + U64_MODULUS
  }

  /** Conversion of a uint64_t to a uint32_t field: the low 32 bits. */
  function TruncU32(x: u64): (r: u32)
    ensures r == x % U32_MODULUS
  {
    x % U32_MODULUS
  }

  function Pow256(n: nat): (r: nat)
    ensures r > 0
  {
    if n == 0 then 1 else 256 * Pow256(n - 1)
  }

  lemma Pow256Values()
    ensures Pow256(4) == U32_MODULUS
    ensures Pow256(8) == U64_MODULUS
  {
    assert Pow256(2) == 0x1_0000;
    assert Pow256(4) == 0x100 * (0x100 * Pow256(2));
    assert Pow256(6) == 0x100 * (0x100 * Pow256(4));
    assert Pow256(8) == 0x100 * (0x100 * Pow256(6));
  }

  /** The unsigned value of a little-endian byte string. */
  function LittleEndian(s: seq<byte>): (r: nat)
    ensures r < Pow256(|s|)
  {
    if |s| == 0 then 0 else s[0] + 256 * LittleEndian(s[1..])
  }

  /** The `n`-byte little-endian encoding of `x`. */
  function ToLittleEndian(x: nat, n: nat): (r: seq<byte>)
    requires x < Pow256(n)
    ensures |r| == n
  {
    if n == 0 then [] else [x % 256] + ToLittleEndian(x / 256, n - 1)
  }

  lemma {:induction false} DecodeEncode(x: nat, n: nat)
    requires x < Pow256(n)
    ensures LittleEndian(ToLittleEndian(x, n)) == x
  {
    if n > 0 {
      DecodeEncode(x / 256, n - 1);
      assert ToLittleEndian(x, n)[1..] == ToLittleEndian(x / 256, n - 1);
    }
  }

  lemma {:induction false} EncodeDecode(s: seq<byte>)
    ensures ToLittleEndian(LittleEndian(s), |s|) == s
  {
    if |s| > 0 {
      EncodeDecode(s[1..]);
      var x := LittleEndian(s);
      assert x % 256 == s[0] && x / 256 == LittleEndian(s[1..]);
    }
  }

  function Zeros(n: nat): (r: seq<byte>)
    ensures |r| == n && forall k :: 0 <= k < n ==> r[k] == 0
  {
    seq(n, _ => 0)
  }

  /** The characters of a fixed-size char array up to its first NUL, as `std::string(char*)`
      reads them; a field with no NUL is taken whole. */
  function CString(field: seq<byte>): (r: seq<byte>)
    ensures |r| <= |field| && r == field[..|r|]
    ensures 0 !in r
    ensures |r| < |field| ==> field[|r|] == 0
  {
    if |field| == 0 || field[0] == 0 then [] else [field[0]] + CString(field[1..])
  }

  /** The characters `snprintf(buf, 16, "%s", name)` keeps: at most 15, the 16th byte being the NUL. */
  function Truncated15(name: seq<byte>): (r: seq<byte>)
    ensures |r| <= 15
    ensures |name| <= 15 ==> r == name
    ensures |name| > 15 ==> r == name[..15]
  {
    if |name| <= 15 then name else name[..15]
  }

  /** A zero-initialised 16-byte char array after `snprintf(buf, 16, "%s", name)`. */
  function NameField(name: seq<byte>): (r: seq<byte>)
    ensures |r| == 16
  {
    Truncated15(name) + Zeros(16 - |Truncated15(name)|)
  }

  /** Reading back a written name gives the name, cut to 15 characters. */
  lemma CStringNameField(name: seq<byte>)
    requires 0 !in name
    ensures CString(NameField(name)) == Truncated15(name)
  {
    var t := Truncated15(name);
    var f := NameField(name);
    assert f[..|t|] == t;
    assert |t| < 16 && f[|t|] == 0;
  }

  /** A name shorter than 15 characters is read back from a written name field exactly when
      the field was written from that name. */
  lemma NameFieldMatches(name: seq<byte>, short: seq<byte>)
    requires 0 !in name && |short| < 15
    ensures CString(NameField(name)) == short <==> name == short
  {
    CStringNameField(name);
  }

  /** A slice of a slice is a slice of the whole. */
  lemma SliceOfSlice(o: seq<byte>, lo: nat, hi: nat, i: nat, j: nat)
    requires lo <= hi <= |o| && i <= j <= hi - lo
    ensures o[lo..hi][i..j] == o[lo + i..lo + j]
  {
    forall t | 0 <= t < j - i
      ensures o[lo..hi][i..j][t] == o[lo + i..lo + j][t]
    {
    }
  }
}
