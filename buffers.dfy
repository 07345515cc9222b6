/** Python's `bytearray`: a mutable byte string whose slice assignment may change its length. */
module Buffers {
  import opened Bytes

  /** `bytearray(size)`: `size` zero bytes. */
  function Zeros(size: nat): (z: seq<byte>)
    ensures |z| == size
    ensures forall k :: 0 <= k < size ==> z[k] == 0
  {
    seq(size, _ => 0)
  }

  function Min(a: int, b: int): int { if a <= b then a else b }

  /** `s[lo:hi] = r` with Python's rules for non-negative bounds: both bounds are clamped to
      the length, an upper bound below the lower one selects the empty slice at `lo`, and the
      selected bytes are replaced by the whole of `r`, whatever its length. */
  function SliceAssign(s: seq<byte>, lo: nat, hi: nat, r: seq<byte>): seq<byte>
  {
    var a := Min(lo, |s|);
    var b := if hi < a then a else Min(hi, |s|);
    s[..a] + r + s[b..]
  }

  /** A write whose bytes exactly fill the clamped window `[lo, min(hi, |s|))` keeps the
      length, puts `r` in the window and leaves every other byte as it was. */
  lemma SliceAssignInPlace(s: seq<byte>, lo: nat, hi: nat, r: seq<byte>)
    requires lo <= hi && lo <= |s|
    requires |r| == Min(hi, |s|) - lo
    ensures |SliceAssign(s, lo, hi, r)| == |s|
    ensures SliceAssign(s, lo, hi, r)[lo..lo + |r|] == r
    ensures forall k :: 0 <= k < |s| && !(lo <= k < lo + |r|) ==> SliceAssign(s, lo, hi, r)[k] == s[k]
  {
    var t := SliceAssign(s, lo, hi, r);
    assert t == s[..lo] + r + s[lo + |r|..];
    forall k | 0 <= k < |s| && !(lo <= k < lo + |r|)
      ensures t[k] == s[k]
    {
      if k < lo {
        assert t[..lo][k] == s[..lo][k];
      } else {
        assert t[lo + |r|..][k - lo - |r|] == s[lo + |r|..][k - lo - |r|];
      }
    }
  }

  /** As written, a write whose length differs from the window's resizes the buffer. */
  lemma SliceAssignResizes(s: seq<byte>, lo: nat, hi: nat, r: seq<byte>)
    requires lo <= hi && lo <= |s|
    requires |r| != Min(hi, |s|) - lo
    ensures |SliceAssign(s, lo, hi, r)| != |s|
  {
  }

  /** The Python `bytearray` the fetcher fills: its contents are a value that slice
      assignment replaces. */
  class ByteArray {
    var bytes: seq<byte>

    /** `bytearray(size)` */
    constructor (size: nat)
      ensures bytes == Zeros(size)
    {
      bytes := Zeros(size);
    }

    /** `self[lo:hi] = r` */
    method SetSlice(lo: nat, hi: nat, r: seq<byte>)
      modifies this
      ensures bytes == SliceAssign(old(bytes), lo, hi, r)
    {
      bytes := SliceAssign(bytes, lo, hi, r);
    }
  }
}
