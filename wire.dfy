/** Byte-level vocabulary of the Erlang External Term Format as the codec
    uses it: the tag bytes, the big-endian fixed-width fields written and read
    with Python's `struct` module, Python's clamping slices, and the
    little-endian magnitude of a bignum. */
module Wire {

  type byte = x: int | 0 <= x < 256

  const MAX_U16: nat := 0xFFFF
  const MAX_U32: nat := 0xFFFF_FFFF

  // Tag bytes of the external term format.
  const NEW_FLOAT: byte := 70      // 'F', NEW_FLOAT_EXT
  const COMPRESSED: byte := 80     // 'P', declared by the codec but never handled
  const SMALL_INT: byte := 97      // 'a', SMALL_INTEGER_EXT
  const INT: byte := 98            // 'b', INTEGER_EXT
  const FLOAT: byte := 99          // 'c', FLOAT_EXT
  const ATOM: byte := 100          // 'd', ATOM_EXT
  const SMALL_TUPLE: byte := 104   // 'h', SMALL_TUPLE_EXT
  const LARGE_TUPLE: byte := 105   // 'i', LARGE_TUPLE_EXT
  const NIL: byte := 106           // 'j', NIL_EXT
  const STRING: byte := 107        // 'k', STRING_EXT
  const LIST: byte := 108          // 'l', LIST_EXT
  const BINARY: byte := 109        // 'm', BINARY_EXT
  const SMALL_BIGNUM: byte := 110  // 'n', SMALL_BIG_EXT
  const LARGE_BIGNUM: byte := 111  // 'o', LARGE_BIG_EXT
  const MAGIC: byte := 131         // version number that prefixes every encoded buffer

  /** The sigil that marks a host string as an atom. */
  const COLON: byte := 58

  /** The tags `decode_term` knows. */
  predicate KnownTag(b: byte) {
    b in {SMALL_INT, INT, SMALL_BIGNUM, LARGE_BIGNUM, FLOAT, NEW_FLOAT, STRING, BINARY,
          SMALL_TUPLE, LARGE_TUPLE, LIST, ATOM, NIL}
  }

  function Min(a: int, b: int): int { if a <= b then a else b }

  /** `t` is what is left of `s` after some prefix has been consumed. */
  predicate IsSuffix(t: seq<byte>, s: seq<byte>) {
    |t| <= |s| && t == s[|s| - |t|..]
  }

  lemma SuffixTransitive(a: seq<byte>, b: seq<byte>, c: seq<byte>)
    requires IsSuffix(a, b) && IsSuffix(b, c)
    ensures IsSuffix(a, c)
  {
    assert c[|c| - |a|..] == c[|c| - |b|..][|b| - |a|..];
  }

  /** A header in front of a payload: a prefix and what follows it. */
  lemma HeaderSplit(header: seq<byte>, payload: seq<byte>)
    ensures (header + payload)[..|header|] == header
    ensures (header + payload)[|header|..] == payload
  {
  }

  /** Python's `s[lo:hi]` for non-negative bounds: out-of-range bounds are
      clamped to the length, and an empty range gives the empty sequence. */
  function Slice(s: seq<byte>, lo: nat, hi: nat): (r: seq<byte>)
    ensures |r| == if Min(hi, |s|) <= lo then 0 else Min(hi, |s|) - lo
    ensures forall k :: 0 <= k < |r| ==> r[k] == s[lo + k]
  {
    var h := Min(hi, |s|);
    if h <= lo then [] else s[lo..h]
  }

  /** Python's `s[k:]` for non-negative `k`. */
  function Drop(s: seq<byte>, k: nat): (r: seq<byte>)
    ensures IsSuffix(r, s)
    ensures |r| == if k <= |s| then |s| - k else 0
  {
    if k <= |s| then s[k..] else []
  }

  // ---- struct.pack / struct.unpack with the formats ">B", ">H", ">I", ">i"

  /** `struct.pack(">H", x)`: two bytes, most significant first. */
  function Pack2(x: nat): (r: seq<byte>)
    requires x <= MAX_U16
    ensures |r| == 2 && Unpack2(r) == x
  {
    [x / 256, x % 256]
  }

  /** `struct.unpack(">H", b)`. */
  function Unpack2(b: seq<byte>): (x: nat)
    requires |b| == 2
    ensures x <= MAX_U16
  {
    (b[0] as int) * 256 + b[1]
  }

  /** `struct.pack(">I", x)`: four bytes, most significant first. */
  function Pack4(x: nat): (r: seq<byte>)
    requires x <= MAX_U32
    ensures |r| == 4 && Unpack4(r) == x
  {
    Pack2(x / 0x1_0000) + Pack2(x % 0x1_0000)
  }

  /** `struct.unpack(">I", b)`. */
  function Unpack4(b: seq<byte>): (x: nat)
    requires |b| == 4
    ensures x <= MAX_U32
  {
    Unpack2(b[..2]) * 0x1_0000 + Unpack2(b[2..])
  }

  /** `struct.pack(">i", x)`: four bytes of two's complement. */
  function PackSigned4(x: int): (r: seq<byte>)
    requires -0x8000_0000 <= x < 0x8000_0000
    ensures |r| == 4 && UnpackSigned4(r) == x
  {
    Pack4(if x >= 0 then x else x + 0x1_0000_0000)
  }

  /** `struct.unpack(">i", b)`. */
  function UnpackSigned4(b: seq<byte>): (x: int)
    requires |b| == 4
    ensures -0x8000_0000 <= x < 0x8000_0000
    ensures (x < 0) == (b[0] >= 128)
  {
    var u := Unpack4(b);
    if u < 0x8000_0000 then u else u - 0x1_0000_0000
  }

  /** The unpacking functions read back any bytes they are given: packing
      what was unpacked gives the same bytes again. */
  lemma PackUnpack(b: seq<byte>)
    requires |b| == 2 || |b| == 4
    ensures |b| == 2 ==> Pack2(Unpack2(b)) == b
    ensures |b| == 4 ==> Pack4(Unpack4(b)) == b && PackSigned4(UnpackSigned4(b)) == b
  {
    if |b| == 4 {
      PackUnpack(b[..2]);
      PackUnpack(b[2..]);
      assert b == b[..2] + b[2..];
    }
  }

  // ---- bignum magnitudes

  function Abs(i: int): nat { if i >= 0 then i else -i }

  function Pow256(k: nat): (p: nat)
    ensures p >= 1
  {
    if k == 0 then 1 else 256 * Pow256(k - 1)
  }

  /** The magnitude `m` as little-endian bytes, least significant first, as
      the encoder's shift loop produces it: no bytes at all for zero. */
  function LittleEndian(m: nat): (r: seq<byte>)
    ensures (r == []) == (m == 0)
  {
    if m == 0 then [] else [m % 256] + LittleEndian(m / 256)
  }

  lemma {:induction false} PowMonotone(j: nat, k: nat)
    requires j <= k
    ensures Pow256(j) <= Pow256(k)
    decreases k
  {
    if j < k {
      PowMonotone(j, k - 1);
    }
  }

  /** The little-endian bytes of a magnitude never end in a zero byte. */
  lemma {:induction false} LittleEndianNoTrailingZero(m: nat)
    ensures LittleEndian(m) != [] ==> LittleEndian(m)[|LittleEndian(m)| - 1] != 0
  {
    if m != 0 {
      LittleEndianNoTrailingZero(m / 256);
      if m / 256 == 0 {
        assert LittleEndian(m) == [m % 256];
      }
    }
  }

  /** The number whose little-endian bytes are `s`; the decoder's fold over
      the magnitude bytes from the last one to the first. */
  function FromLittleEndian(s: seq<byte>): (m: nat)
    ensures m < Pow256(|s|)
  {
    if s == [] then 0 else s[0] + 256 * FromLittleEndian(s[1..])
  }

  /** Reading the bytes of a magnitude gives the magnitude back. */
  lemma {:induction false} LittleEndianInverse(m: nat)
    ensures FromLittleEndian(LittleEndian(m)) == m
  {
    if m != 0 {
      var r := LittleEndian(m);
      assert r[1..] == LittleEndian(m / 256);
      LittleEndianInverse(m / 256);
    }
  }

  /** Writing the bytes of a number that has no trailing zero byte gives the
      bytes back: the two functions are inverse to each other. */
  lemma {:induction false} FromLittleEndianInverse(s: seq<byte>)
    requires s != [] ==> s[|s| - 1] != 0
    ensures LittleEndian(FromLittleEndian(s)) == s
  {
    if s != [] {
      var t := s[1..];
      assert t != [] ==> t[|t| - 1] != 0;
      FromLittleEndianInverse(t);
      var m := FromLittleEndian(s);
      if t == [] {
        assert m == s[0];
      } else {
        assert FromLittleEndian(t) != 0;
      }
      assert m % 256 == s[0] && m / 256 == FromLittleEndian(t);
    }
  }

  /** A magnitude fits in `k` bytes exactly when it is below 256^k. */
  lemma {:induction false} ByteLengthBound(m: nat, k: nat)
    ensures |LittleEndian(m)| <= k <==> m < Pow256(k)
  {
    if m != 0 && k != 0 {
      ByteLengthBound(m / 256, k - 1);
      assert m / 256 < Pow256(k - 1) <==> m < Pow256(k);
    }
  }
}
