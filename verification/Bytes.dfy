/** Machine integers and their little-endian byte encodings, and byte sequences patched in place. */
module Bytes {

  type byte = x: int | 0 <= x < 0x100
  type u16 = x: int | 0 <= x < 0x1_0000
  type u32 = x: int | 0 <= x < 0x1_0000_0000
  type u64 = x: int | 0 <= x < 0x1_0000_0000_0000_0000

  /** The lesser of two sizes. */
  function Min(a: nat, b: nat): nat {
    if a < b then a else b
  }

  function U16(s: seq<byte>): u16
    requires |s| == 2
  {
    s[0] as int + 0x100 * (s[1] as int)
  }

  function U32(s: seq<byte>): u32
    requires |s| == 4
  {
    U16(s[..2]) as int + 0x1_0000 * (U16(s[2..]) as int)
  }

  function U64(s: seq<byte>): u64
    requires |s| == 8
  {
    U32(s[..4]) as int + 0x1_0000_0000 * (U32(s[4..]) as int)
  }

  function Le16(n: u16): (s: seq<byte>)
    ensures |s| == 2
  {
    [n % 0x100, n / 0x100]
  }

  function Le32(n: u32): (s: seq<byte>)
    ensures |s| == 4
  {
    Le16(n % 0x1_0000) + Le16(n / 0x1_0000)
  }

  function Le64(n: u64): (s: seq<byte>)
    ensures |s| == 8
  {
    Le32(n % 0x1_0000_0000) + Le32(n / 0x1_0000_0000)
  }

  /** The least significant byte comes first. */
  lemma LittleEndian(s: seq<byte>)
    requires |s| == 8
    ensures U16(s[..2]) as int == s[0] as int + 0x100 * s[1] as int
    ensures U32(s[..4]) as int == U16(s[..2]) as int + 0x1_0000 * s[2] as int + 0x100_0000 * s[3] as int
    ensures U64(s) == U32(s[..4]) + 0x1_0000_0000 * U32(s[4..])
  {
    assert s[..4][..2] == s[..2] && s[..4][2..] == s[2..4];
  }

  lemma Le16RoundTrip(n: u16)
    ensures U16(Le16(n)) == n
  {
  }

  lemma Le32RoundTrip(n: u32)
    ensures U32(Le32(n)) == n
  {
    var s := Le32(n);
    assert s[..2] == Le16(n % 0x1_0000) && s[2..] == Le16(n / 0x1_0000);
    Le16RoundTrip(n % 0x1_0000);
    Le16RoundTrip(n / 0x1_0000);
  }

  lemma Le64RoundTrip(n: u64)
    ensures U64(Le64(n)) == n
  {
    var s := Le64(n);
    assert s[..4] == Le32(n % 0x1_0000_0000) && s[4..] == Le32(n / 0x1_0000_0000);
    Le32RoundTrip(n % 0x1_0000_0000);
    Le32RoundTrip(n / 0x1_0000_0000);
  }

  lemma U16RoundTrip(s: seq<byte>)
    requires |s| == 2
    ensures Le16(U16(s)) == s
  {
  }

  lemma U32RoundTrip(s: seq<byte>)
    requires |s| == 4
    ensures Le32(U32(s)) == s
  {
    var lo, hi := U16(s[..2]), U16(s[2..]);
    assert U32(s) % 0x1_0000 == lo && U32(s) / 0x1_0000 == hi;
    U16RoundTrip(s[..2]);
    U16RoundTrip(s[2..]);
    assert Le32(U32(s)) == Le16(lo) + Le16(hi) == s[..2] + s[2..] == s;
  }

  /** `s` with the bytes from `off` on replaced by `piece`. */
  function Patch(s: seq<byte>, off: nat, piece: seq<byte>): (r: seq<byte>)
    requires off + |piece| <= |s|
    ensures |r| == |s|
    ensures r[off..off + |piece|] == piece
    ensures forall i :: 0 <= i < |s| && !(off <= i < off + |piece|) ==> r[i] == s[i]
  {
    s[..off] + piece + s[off + |piece|..]
  }

  function Zeros(n: nat): (s: seq<byte>)
    ensures |s| == n
    ensures forall i :: 0 <= i < n ==> s[i] == 0
  {
    seq(n, _ => 0)
  }

  lemma SliceOfSlice<T>(s: seq<T>, a: nat, b: nat, i: nat, j: nat)
    requires a <= b <= |s| && i <= j <= b - a
    ensures s[a..b][i..j] == s[a + i..a + j]
  {
    var t := s[a..b];
    forall k | 0 <= k < j - i
      ensures t[i..j][k] == s[a + i..a + j][k]
    {
      assert t[i + k] == s[a + i + k];
    }
  }
}
