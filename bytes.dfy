/** Octets, 16-bit words in network byte order, and the slice copy the
    encoders use to fill their fixed-size header buffers. */
module Bytes {

  /** An octet (Rust `u8`). */
  type byte = b: int | 0 <= b < 0x100

  /** An unsigned 16-bit integer (Rust `u16`). */
  type u16 = x: int | 0 <= x < 0x1_0000

  /** The value of two octets read as a big-endian 16-bit word. */
  function Word(hi: byte, lo: byte): (w: u16)
  {
    hi * 0x100 + lo
  }

  /** `u16::to_be_bytes`: the two octets of `x`, most significant first. */
  function ToBeBytes(x: u16): (r: seq<byte>)
    ensures |r| == 2 && Word(r[0], r[1]) == x
  {
    [x / 0x100, x % 0x100]
  }

  /** `a[start..start + |src|].copy_from_slice(src)`: overwrite the octets
      of `a` from `start` on with `src`, leaving the others as they were. */
  method CopyFromSlice(a: array<byte>, start: nat, src: seq<byte>)
    requires start + |src| <= a.Length
    modifies a
    ensures a[..] == old(a[..start]) + src + old(a[start + |src|..])
  {
    var i := 0;
    while i < |src|
      invariant 0 <= i <= |src|
      invariant forall j :: 0 <= j < start ==> a[j] == old(a[j])
      invariant forall j :: 0 <= j < i ==> a[start + j] == src[j]
      invariant forall j :: start + i <= j < a.Length ==> a[j] == old(a[j])
    {
      a[start + i] := src[i];
      i := i + 1;
    }
    ghost var expected := old(a[..start]) + src + old(a[start + |src|..]);
    assert forall j :: 0 <= j < a.Length ==> a[j] == expected[j];
  }
}
