/** Unsigned little-endian integers as byte strings: the `"<I"` and `"<II"` formats of
    Python's `struct` module, as the frame fetcher uses them. */
module Bytes {
  import opened Wrappers

  type byte = b: int | 0 <= b < 256

  /** An unsigned 32-bit integer, the range `struct` accepts for the `I` format. */
  type u32 = n: int | 0 <= n < 0x1_0000_0000

  function Pow256(k: nat): (p: nat)
    ensures p > 0
  {
    if k == 0 then 1 else 256 * Pow256(k - 1)
  }

  /** The number a little-endian byte string stands for: `s[0]` is the least significant byte. */
  function LeValue(s: seq<byte>): nat
  {
    if s == [] then 0 else s[0] + 256 * LeValue(s[1..])
  }

  /** The `k` low-order bytes of `n`, least significant first. */
  function LeBytes(n: nat, k: nat): (r: seq<byte>)
    ensures |r| == k
  {
    if k == 0 then []
    else
      var b: byte := n % 256;
      [b] + LeBytes(n / 256, k - 1)
  }

  lemma {:induction false} LeValueBound(s: seq<byte>)
    ensures LeValue(s) < Pow256(|s|)
  {
    if s != [] {
      LeValueBound(s[1..]);
    }
  }

  /** Encoding a number that fits in `k` bytes and decoding it gives the number back. */
  lemma {:induction false} LeValueOfLeBytes(n: nat, k: nat)
    requires n < Pow256(k)
    ensures LeValue(LeBytes(n, k)) == n
  {
    if k > 0 {
      var q := n / 256;
      assert q < Pow256(k - 1);
      LeValueOfLeBytes(q, k - 1);
      assert LeBytes(n, k)[1..] == LeBytes(q, k - 1);
      assert n == n % 256 + 256 * q;
    }
  }

  /** Decoding a byte string and encoding it at the same width gives the bytes back. */
  lemma {:induction false} LeBytesOfLeValue(s: seq<byte>)
    ensures LeBytes(LeValue(s), |s|) == s
  {
    if s != [] {
      var v := LeValue(s[1..]);
      LeBytesOfLeValue(s[1..]);
      var n := s[0] + 256 * v;
      assert n % 256 == s[0] && n / 256 == v;
      assert LeBytes(n, |s|) == [s[0]] + LeBytes(v, |s| - 1);
      assert s == [s[0]] + s[1..];
    }
  }

  /** `struct.unpack("<I", s)[0]`: exactly four bytes are accepted (anything else makes
      `struct` raise, here `None`), and the value is the little-endian number they spell. */
  function UnpackU32(s: seq<byte>): (r: Option<u32>)
    ensures r.Some? <==> |s| == 4
    ensures r.Some? ==> r.value == s[0] as int + 256 * s[1] as int + 65536 * s[2] as int + 16777216 * s[3] as int
  {
    if |s| == 4 then
      LeValueBound(s);
      assert LeValue(s[3..]) == s[3] as int by {
        assert s[3..][1..] == [];
      }
      assert LeValue(s[2..]) == s[2] as int + 256 * LeValue(s[3..]) by {
        assert s[2..][1..] == s[3..];
      }
      assert LeValue(s[1..]) == s[1] as int + 256 * LeValue(s[2..]) by {
        assert s[1..][1..] == s[2..];
      }
      Some(LeValue(s))
    else None
  }

  /** `struct.pack("<I", n)` */
  function PackU32(n: u32): (r: seq<byte>)
    ensures |r| == 4
  {
    LeBytes(n, 4)
  }

  /** The four packed bytes decode back to `n`. */
  lemma UnpackPackU32(n: u32)
    ensures UnpackU32(PackU32(n)) == Some(n)
  {
    LeValueOfLeBytes(n, 4);
  }

  /** Every four-byte header is the packing of the size it decodes to. */
  lemma PackUnpackU32(s: seq<byte>)
    requires |s| == 4
    ensures UnpackU32(s).Some? && PackU32(UnpackU32(s).value) == s
  {
    LeBytesOfLeValue(s);
  }

  /** `struct.pack("<II", a, b)`: the two numbers as eight little-endian bytes, `a` first. */
  function PackU32Pair(a: u32, b: u32): (r: seq<byte>)
    ensures |r| == 8
  {
    PackU32(a) + PackU32(b)
  }

  /** `struct.unpack("<II", s)`: exactly eight bytes, split into two little-endian numbers. */
  function UnpackU32Pair(s: seq<byte>): (r: Option<(u32, u32)>)
    ensures r.Some? <==> |s| == 8
  {
    if |s| == 8 then Some((UnpackU32(s[..4]).value, UnpackU32(s[4..]).value)) else None
  }

  /** The eight-byte request decodes back to the pair it was packed from. */
  lemma PackedPairRoundTrip(a: u32, b: u32)
    ensures UnpackU32Pair(PackU32Pair(a, b)) == Some((a, b))
  {
    UnpackPackU32(a);
    UnpackPackU32(b);
    var s := PackU32Pair(a, b);
    assert s[..4] == PackU32(a) && s[4..] == PackU32(b);
  }

  /** And every eight-byte string is the packing of the pair it decodes to. */
  lemma UnpackedPairRoundTrip(s: seq<byte>)
    requires |s| == 8
    ensures UnpackU32Pair(s).Some?
    ensures PackU32Pair(UnpackU32Pair(s).value.0, UnpackU32Pair(s).value.1) == s
  {
    PackUnpackU32(s[..4]);
    PackUnpackU32(s[4..]);
    assert s == s[..4] + s[4..];
  }
}
